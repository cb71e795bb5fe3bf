/** Publishing DLLs into the shared cache directory: any number of sidecar
    processes run `EmitOrCache` / `Emit` side by side on one file system, and
    any of them may die between any two steps. */
module Publication {
  import opened RecordStream
  import opened CacheKey
  import opened CachePath

  type Content = seq<Byte>
  type Proc = nat

  /** What is fixed: the cache directory, and the DLL bytes an emit at a key
      produces (`None` when Roslyn refuses those inputs). */
  datatype Config = Config(cacheRoot: string, emit: Digest -> EmitOutput)
  datatype EmitOutput = NoOutput | Dll(bytes: Content)

  datatype CallResult =
    | Built(path: string, key: Digest, fromCache: bool)
    | BuildFailed
    | CacheUnwritable

  /** Where one process stands in a call for `key`. */
  datatype Phase =
    | Idle
    | Asked(key: Digest)                        // before File.Exists
    | Missed(key: Digest)                       // before CreateDirectory
    | Ready(key: Digest)                        // before File.Create
    | Writing(key: Digest, temp: string)        // stream open, bytes arriving
    | Closed(key: Digest, temp: string)         // stream disposed, emit succeeded
    | CleaningUp(key: Digest, temp: string, after: CallResult) // before TryDeleteTemp
    | Dead

  /** `used` remembers every temporary name ever drawn. */
  datatype State = State(
    files: map<string, Content>,
    procs: map<Proc, Phase>,
    used: set<string>,
    results: seq<CallResult>)

  /** The directory may hold whatever earlier runs left: complete DLLs at final
      paths, abandoned temporary files, and anything else elsewhere. */
  ghost predicate Initial(c: Config, s: State) {
    && (forall k :: FinalPath(c.cacheRoot, k) in s.files ==> Complete(c, s, k))
    && (forall p :: p in s.procs ==> s.procs[p] == Idle)
    && s.used == {}
    && s.results == []
  }

  /** The final path of `k` holds exactly the DLL an emit at `k` produces. */
  ghost predicate Complete(c: Config, s: State, k: Digest) {
    && FinalPath(c.cacheRoot, k) in s.files
    && c.emit(k) == Dll(s.files[FinalPath(c.cacheRoot, k)])
  }

  function Finish(s: State, p: Proc, r: CallResult): State {
    s.(procs := s.procs[p := Idle], results := s.results + [r])
  }

  // ---- the steps ----

  ghost predicate Step(c: Config, s: State, t: State) {
    || (exists p :: p in s.procs && ProcStep(c, s, t, p))
    || (exists p :: p !in s.procs && Spawn(s, t, p))
  }

  ghost predicate Spawn(s: State, t: State, p: Proc) {
    t == s.(procs := s.procs[p := Idle])
  }

  ghost predicate Begin(s: State, t: State, p: Proc, k: Digest) {
    t == s.(procs := s.procs[p := Asked(k)])
  }

  ghost predicate ProcStep(c: Config, s: State, t: State, p: Proc)
    requires p in s.procs
  {
    || Crash(s, t, p)
    || match s.procs[p]
       case Idle => exists k :: Begin(s, t, p, k)
       case Asked(k) => CheckExists(c, s, t, p, k)
       case Missed(k) => MakeDirectory(s, t, p, k)
       case Ready(k) => CreateTemp(c, s, t, p, k)
       case Writing(k, temp) => WriteTemp(c, s, t, p, k, temp)
       case Closed(k, temp) => Publish(c, s, t, p, k, temp)
       case CleaningUp(_, temp, after) => CleanUp(s, t, p, temp, after)
       case Dead => false
  }

  /** Whatever the process was doing, it never does anything again. */
  ghost predicate Crash(s: State, t: State, p: Proc)
    requires p in s.procs
  {
    t == s.(procs := s.procs[p := Dead])
  }

  /** The cache hit or miss. */
  ghost predicate CheckExists(c: Config, s: State, t: State, p: Proc, k: Digest) {
    var f := FinalPath(c.cacheRoot, k);
    t == if f in s.files then Finish(s, p, Built(f, k, true)) else s.(procs := s.procs[p := Missed(k)])
  }

  ghost predicate MakeDirectory(s: State, t: State, p: Proc, k: Digest) {
    t == s.(procs := s.procs[p := Ready(k)]) || t == Finish(s, p, CacheUnwritable)
  }

  /** `File.Create` under a name never drawn before; or it fails. */
  ghost predicate CreateTemp(c: Config, s: State, t: State, p: Proc, k: Digest) {
    exists random ::
      var temp := TempPath(FinalPath(c.cacheRoot, k), random);
      && temp !in s.used
      && var drawn := s.(used := s.used + {temp});
         || t == drawn.(files := s.files[temp := []], procs := s.procs[p := Writing(k, temp)])
         || t == drawn.(procs := s.procs[p := CleaningUp(k, temp, CacheUnwritable)])
  }

  ghost predicate PartialWrite(s: State, t: State, temp: string, partial: Content) {
    t == s.(files := s.files[temp := partial])
  }

  /** Bytes reach the file in any amounts; the emit then ends in one of three ways. */
  ghost predicate WriteTemp(c: Config, s: State, t: State, p: Proc, k: Digest, temp: string) {
    || (exists partial :: PartialWrite(s, t, temp, partial))
    || (c.emit(k).Dll? && t == s.(files := s.files[temp := c.emit(k).bytes], procs := s.procs[p := Closed(k, temp)]))
    || (c.emit(k).NoOutput? && t == s.(procs := s.procs[p := CleaningUp(k, temp, BuildFailed)]))
    || t == s.(procs := s.procs[p := CleaningUp(k, temp, CacheUnwritable)])
  }

  /** The atomic rename over whatever is there, or its failure. */
  ghost predicate Publish(c: Config, s: State, t: State, p: Proc, k: Digest, temp: string) {
    var f := FinalPath(c.cacheRoot, k);
    || (temp in s.files && t == Finish(s.(files := (s.files - {temp})[f := s.files[temp]]), p, Built(f, k, false)))
    || t == s.(procs := s.procs[p := CleaningUp(k, temp, CacheUnwritable)])
  }

  /** The delete is best-effort: the temporary file may stay behind. */
  ghost predicate CleanUp(s: State, t: State, p: Proc, temp: string, after: CallResult) {
    t == Finish(s, p, after) || t == Finish(s.(files := s.files - {temp}), p, after)
  }

  // ---- the invariant ----

  ghost predicate OwnsTemp(ph: Phase) { ph.Writing? || ph.Closed? || ph.CleaningUp? }

  ghost predicate IsTemp(temp: string) {
    exists f, random :: temp == TempPath(f, random)
  }

  /** A published or reported key has its complete file in place. */
  ghost predicate Honest(c: Config, s: State, r: CallResult) {
    r.Built? ==> r.path == FinalPath(c.cacheRoot, r.key) && Complete(c, s, r.key)
  }

  ghost predicate ProcOk(c: Config, s: State, p: Proc)
    requires p in s.procs
  {
    var ph := s.procs[p];
    && (OwnsTemp(ph) ==> ph.temp in s.used)
    && (ph.Closed? ==> ph.temp in s.files && c.emit(ph.key) == Dll(s.files[ph.temp]))
    && (ph.CleaningUp? ==> !ph.after.Built? && (ph.after == BuildFailed ==> c.emit(ph.key).NoOutput?))
  }

  ghost predicate Inv(c: Config, s: State) {
    && (forall k :: FinalPath(c.cacheRoot, k) in s.files ==> Complete(c, s, k))
    && (forall temp :: temp in s.used ==> IsTemp(temp))
    && (forall p :: p in s.procs ==> ProcOk(c, s, p))
    && (forall p, q :: p in s.procs && q in s.procs && p != q && OwnsTemp(s.procs[p]) && OwnsTemp(s.procs[q])
          ==> s.procs[p].temp != s.procs[q].temp)
    && (forall i :: 0 <= i < |s.results| ==> Honest(c, s, s.results[i]))
  }

  /** Final files never vanish and never change. */
  ghost predicate Keeps(c: Config, s: State, t: State) {
    forall k :: FinalPath(c.cacheRoot, k) in s.files ==>
      && FinalPath(c.cacheRoot, k) in t.files
      && t.files[FinalPath(c.cacheRoot, k)] == s.files[FinalPath(c.cacheRoot, k)]
  }

  lemma TempsAreNotFinal(c: Config, temp: string, k: Digest)
    requires IsTemp(temp)
    ensures temp != FinalPath(c.cacheRoot, k)
  {
    var f, random :| temp == TempPath(f, random);
    TempIsNeverFinal(c.cacheRoot, k, f, random);
  }

  /** A step that leaves every final path alone keeps what was published. */
  lemma OnlyTempTouched(c: Config, s: State, t: State, temp: string)
    requires Inv(c, s) && IsTemp(temp)
    requires forall f :: f != temp ==> (f in s.files <==> f in t.files) && (f in s.files ==> s.files[f] == t.files[f])
    ensures Keeps(c, s, t)
    ensures forall k :: FinalPath(c.cacheRoot, k) in t.files ==> Complete(c, t, k)
    ensures forall r :: Honest(c, s, r) ==> Honest(c, t, r)
  {
    forall k ensures temp != FinalPath(c.cacheRoot, k) { TempsAreNotFinal(c, temp, k); }
  }

  /** A step that moves one process to a phase without a temporary file. */
  lemma PhaseKeepsInv(c: Config, s: State, t: State, p: Proc, ph: Phase)
    requires Inv(c, s) && !OwnsTemp(ph)
    requires t == s.(procs := s.procs[p := ph])
    ensures Inv(c, t) && Keeps(c, s, t) && s.results <= t.results
  {
    forall q | q in t.procs ensures ProcOk(c, t, q) { if q != p { assert ProcOk(c, s, q); } }
    forall i | 0 <= i < |t.results| ensures Honest(c, t, t.results[i]) { assert Honest(c, s, s.results[i]); }
  }

  /** A step that ends a call with an answer that is true. */
  lemma FinishKeepsInv(c: Config, s: State, t: State, p: Proc, r: CallResult)
    requires Inv(c, s) && Honest(c, s, r)
    requires t == Finish(s, p, r)
    ensures Inv(c, t) && Keeps(c, s, t) && s.results <= t.results
  {
    forall q | q in t.procs ensures ProcOk(c, t, q) { if q != p { assert ProcOk(c, s, q); } }
    forall i | 0 <= i < |t.results| ensures Honest(c, t, t.results[i]) {
      if i < |s.results| { assert Honest(c, s, s.results[i]); }
    }
  }

  lemma CheckKeepsInv(c: Config, s: State, t: State, p: Proc, k: Digest)
    requires Inv(c, s) && CheckExists(c, s, t, p, k)
    ensures Inv(c, t) && Keeps(c, s, t) && s.results <= t.results
  {
    var f := FinalPath(c.cacheRoot, k);
    if f in s.files {
      FinishKeepsInv(c, s, t, p, Built(f, k, true));
    } else {
      PhaseKeepsInv(c, s, t, p, Missed(k));
    }
  }

  lemma CleanUpKeepsInv(c: Config, s: State, t: State, p: Proc, temp: string, after: CallResult)
    requires Inv(c, s) && p in s.procs && CleanUp(s, t, p, temp, after)
    requires s.procs[p].CleaningUp? && s.procs[p].temp == temp && s.procs[p].after == after
    ensures Inv(c, t) && Keeps(c, s, t) && s.results <= t.results
  {
    assert ProcOk(c, s, p);
    if t == Finish(s, p, after) {
      FinishKeepsInv(c, s, t, p, after);
    } else {
      OnlyTempTouched(c, s, t, temp);
      forall q | q in t.procs ensures ProcOk(c, t, q) { if q != p { assert ProcOk(c, s, q); } }
      forall i | 0 <= i < |t.results| ensures Honest(c, t, t.results[i]) {
        if i < |s.results| { assert Honest(c, s, s.results[i]); }
      }
    }
  }

  lemma StepKeepsInv(c: Config, s: State, t: State)
    requires Inv(c, s) && Step(c, s, t)
    ensures Inv(c, t) && Keeps(c, s, t) && s.results <= t.results
  {
    if p :| p !in s.procs && Spawn(s, t, p) {
      PhaseKeepsInv(c, s, t, p, Idle);
    } else {
      var p :| p in s.procs && ProcStep(c, s, t, p);
      ProcStepKeepsInv(c, s, t, p);
    }
  }

  lemma ProcStepKeepsInv(c: Config, s: State, t: State, p: Proc)
    requires Inv(c, s) && p in s.procs && ProcStep(c, s, t, p)
    ensures Inv(c, t) && Keeps(c, s, t) && s.results <= t.results
  {
    if Crash(s, t, p) {
      PhaseKeepsInv(c, s, t, p, Dead);
    } else {
      match s.procs[p]
      case Idle =>
        var k :| Begin(s, t, p, k);
        PhaseKeepsInv(c, s, t, p, Asked(k));
      case Asked(k) => CheckKeepsInv(c, s, t, p, k);
      case Missed(k) =>
        if t == Finish(s, p, CacheUnwritable) {
          FinishKeepsInv(c, s, t, p, CacheUnwritable);
        } else {
          PhaseKeepsInv(c, s, t, p, Ready(k));
        }
      case Ready(k) => CreateKeepsInv(c, s, t, p, k);
      case Writing(k, temp) => WriteKeepsInv(c, s, t, p, k, temp);
      case Closed(k, temp) => PublishKeepsInv(c, s, t, p, k, temp);
      case CleaningUp(_, temp, after) => CleanUpKeepsInv(c, s, t, p, temp, after);
    }
  }

  lemma CreateKeepsInv(c: Config, s: State, t: State, p: Proc, k: Digest)
    requires Inv(c, s) && p in s.procs && s.procs[p] == Ready(k) && CreateTemp(c, s, t, p, k)
    ensures Inv(c, t) && Keeps(c, s, t) && s.results <= t.results
  {
    var random :|
      var temp := TempPath(FinalPath(c.cacheRoot, k), random);
      && temp !in s.used
      && var drawn := s.(used := s.used + {temp});
         || t == drawn.(files := s.files[temp := []], procs := s.procs[p := Writing(k, temp)])
         || t == drawn.(procs := s.procs[p := CleaningUp(k, temp, CacheUnwritable)]);
    OnlyTempTouched(c, s, t, TempPath(FinalPath(c.cacheRoot, k), random));
  }

  lemma WriteKeepsInv(c: Config, s: State, t: State, p: Proc, k: Digest, temp: string)
    requires Inv(c, s) && p in s.procs && s.procs[p] == Writing(k, temp) && WriteTemp(c, s, t, p, k, temp)
    ensures Inv(c, t) && Keeps(c, s, t) && s.results <= t.results
  {
    assert ProcOk(c, s, p);
    OnlyTempTouched(c, s, t, temp);
  }

  lemma PublishKeepsInv(c: Config, s: State, t: State, p: Proc, k: Digest, temp: string)
    requires Inv(c, s) && p in s.procs && s.procs[p] == Closed(k, temp) && Publish(c, s, t, p, k, temp)
    ensures Inv(c, t) && Keeps(c, s, t) && s.results <= t.results
  {
    assert ProcOk(c, s, p);
    if t == s.(procs := s.procs[p := CleaningUp(k, temp, CacheUnwritable)]) {
      GivingUpKeepsInv(c, s, t, p, k, temp);
    } else {
      RenameKeepsInv(c, s, t, p, k, temp);
    }
  }

  lemma GivingUpKeepsInv(c: Config, s: State, t: State, p: Proc, k: Digest, temp: string)
    requires Inv(c, s) && p in s.procs && s.procs[p] == Closed(k, temp)
    requires t == s.(procs := s.procs[p := CleaningUp(k, temp, CacheUnwritable)])
    ensures Inv(c, t) && Keeps(c, s, t) && s.results <= t.results
  {
    forall q | q in t.procs ensures ProcOk(c, t, q) { assert ProcOk(c, s, q); }
    forall i | 0 <= i < |t.results| ensures Honest(c, t, t.results[i]) { assert Honest(c, s, s.results[i]); }
  }

  lemma RenameKeepsInv(c: Config, s: State, t: State, p: Proc, k: Digest, temp: string)
    requires Inv(c, s) && p in s.procs && s.procs[p] == Closed(k, temp) && temp in s.files && ProcOk(c, s, p)
    requires var f := FinalPath(c.cacheRoot, k);
      t == Finish(s.(files := (s.files - {temp})[f := s.files[temp]]), p, Built(f, k, false))
    ensures Inv(c, t) && Keeps(c, s, t) && s.results <= t.results
  {
    var f := FinalPath(c.cacheRoot, k);
    forall j ensures temp != FinalPath(c.cacheRoot, j) { TempsAreNotFinal(c, temp, j); }
    forall j | FinalPath(c.cacheRoot, j) == f ensures j == k { FinalPathInjective(c.cacheRoot, j, k); }
    forall u | u in s.used ensures u != f { TempsAreNotFinal(c, u, k); }
  }

  // ---- whole runs ----

  ghost predicate Run(c: Config, run: seq<State>) {
    && |run| > 0 && Initial(c, run[0])
    && forall i :: 0 < i < |run| ==> Arrives(c, run, i)
  }

  /** State `i` of the run comes from the one before it by a step. */
  ghost predicate Arrives(c: Config, run: seq<State>, i: nat)
    requires 0 < i < |run|
  {
    Step(c, run[i - 1], run[i])
  }

  lemma InitialHasInv(c: Config, s: State)
    requires Initial(c, s)
    ensures Inv(c, s)
  {
  }

  lemma {:induction false} RunKeepsInv(c: Config, run: seq<State>, i: nat)
    requires Run(c, run) && i < |run|
    ensures Inv(c, run[i])
  {
    if i == 0 {
      InitialHasInv(c, run[0]);
    } else {
      assert Arrives(c, run, i);
      RunKeepsInv(c, run, i - 1);
      StepKeepsInv(c, run[i - 1], run[i]);
    }
  }

  lemma {:induction false} RunKeepsFiles(c: Config, run: seq<State>, i: nat, j: nat)
    requires Run(c, run) && i <= j < |run|
    ensures Keeps(c, run[i], run[j]) && run[i].results <= run[j].results
    decreases j
  {
    if i < j {
      RunKeepsFiles(c, run, i, j - 1);
      OneStepKeepsFiles(c, run, j);
      KeepsTransitive(c, run[i], run[j - 1], run[j]);
    }
  }

  lemma OneStepKeepsFiles(c: Config, run: seq<State>, j: nat)
    requires Run(c, run) && 0 < j < |run|
    ensures Keeps(c, run[j - 1], run[j]) && run[j - 1].results <= run[j].results
  {
    assert Arrives(c, run, j);
    RunKeepsInv(c, run, j - 1);
    StepKeepsInv(c, run[j - 1], run[j]);
  }

  lemma KeepsTransitive(c: Config, s: State, t: State, u: State)
    requires Keeps(c, s, t) && Keeps(c, t, u) && s.results <= t.results <= u.results
    ensures Keeps(c, s, u) && s.results <= u.results
  {
  }

  /** Safety over every interleaving with crashes: a final path is absent or
      complete; once present it stays, unchanged; and every `Built` answer ever
      given names a complete file then and for ever after. */
  lemma CacheIsSafe(c: Config, run: seq<State>, i: nat, j: nat)
    requires Run(c, run) && i <= j < |run|
    ensures forall k :: FinalPath(c.cacheRoot, k) in run[i].files ==> Complete(c, run[i], k)
    ensures Keeps(c, run[i], run[j])
    ensures run[i].results <= run[j].results
    ensures forall n :: 0 <= n < |run[i].results| ==> Honest(c, run[j], run[i].results[n])
  {
    RunKeepsInv(c, run, i);
    RunKeepsInv(c, run, j);
    RunKeepsFiles(c, run, i, j);
    forall n | 0 <= n < |run[i].results| ensures Honest(c, run[j], run[i].results[n]) {
      assert run[i].results[n] == run[j].results[n];
    }
  }

  // ---- what an answer says of the call ----

  /** An answer is about the key its process was asked for. A hit changes no
      file, a fresh DLL is the process's own temporary file moved into place,
      and only inputs Roslyn refuses are answered with a failed build. */
  ghost predicate Answers(c: Config, s: State, t: State, p: Proc, r: CallResult)
    requires p in s.procs
  {
    var ph := s.procs[p];
    && !ph.Idle? && !ph.Dead? && p in t.procs && t.procs[p] == Idle
    && match r
       case Built(path, key, true) =>
         path == FinalPath(c.cacheRoot, ph.key) && key == ph.key && path in s.files && t.files == s.files
       case Built(path, key, false) =>
         && ph.Closed? && path == FinalPath(c.cacheRoot, ph.key) && key == ph.key
         && ph.temp in s.files && t.files.Keys == s.files.Keys - {ph.temp} + {path}
         && t.files[path] == s.files[ph.temp]
       case BuildFailed => c.emit(ph.key).NoOutput?
       case CacheUnwritable => ph.Missed? || ph.CleaningUp?
  }

  lemma StepAnswers(c: Config, s: State, t: State, p: Proc)
    requires Inv(c, s) && p in s.procs && ProcStep(c, s, t, p)
    ensures t.results == s.results || exists r :: t.results == s.results + [r] && Answers(c, s, t, p, r)
  {
    assert ProcOk(c, s, p);
    if t.results != s.results {
      var r := t.results[|t.results| - 1];
      AnswerIsLast(c, s, t, p, r);
    }
  }

  lemma AnswerIsLast(c: Config, s: State, t: State, p: Proc, r: CallResult)
    requires Inv(c, s) && p in s.procs && ProcStep(c, s, t, p) && t.results != s.results
    requires |t.results| > 0 ==> r == t.results[|t.results| - 1]
    ensures t.results == s.results + [r] && Answers(c, s, t, p, r)
  {
    assert ProcOk(c, s, p);
    match s.procs[p]
    case Asked(k) => assert t == Finish(s, p, Built(FinalPath(c.cacheRoot, k), k, true));
    case Missed(k) => assert t == Finish(s, p, CacheUnwritable);
    case Closed(k, temp) => TempsAreNotFinal(c, temp, k);
    case CleaningUp(_, temp, after) =>
  }

  // ---- a call that nothing disturbs ----

  /** A run of steps of this one process from one state to another. */
  ghost predicate Alone(c: Config, p: Proc, run: seq<State>, s: State, t: State) {
    && |run| > 0 && run[0] == s && run[|run| - 1] == t
    && forall i :: 0 < i < |run| ==> Moves(c, p, run, i)
  }

  ghost predicate Moves(c: Config, p: Proc, run: seq<State>, i: nat)
    requires 0 < i < |run|
  {
    p in run[i - 1].procs && ProcStep(c, run[i - 1], run[i], p)
  }

  lemma Extend(c: Config, p: Proc, run: seq<State>, s: State, t: State, u: State)
    requires Alone(c, p, run, s, t) && p in t.procs && ProcStep(c, t, u, p)
    ensures Alone(c, p, run + [u], s, u)
  {
    var longer := run + [u];
    forall i | 0 < i < |longer| ensures Moves(c, p, longer, i) {
      if i < |run| { assert Moves(c, p, run, i); }
    }
  }

  /** What an undisturbed call for `k` may leave behind: a hit nothing but its
      answer, a miss the DLL at its final path, a refused emit no file at all. */
  ghost predicate Served(c: Config, s: State, t: State, k: Digest) {
    var f := FinalPath(c.cacheRoot, k);
    if f in s.files then t.files == s.files && t.results == s.results + [Built(f, k, true)]
    else match c.emit(k)
         case Dll(bytes) => t.files == s.files[f := bytes] && t.results == s.results + [Built(f, k, false)]
         case NoOutput => t.files == s.files && t.results == s.results + [BuildFailed]
  }

  /** From any state, an idle process that is not disturbed can serve a call to
      its end, and leave nothing else behind. */
  lemma UndisturbedCall(c: Config, s: State, p: Proc, k: Digest) returns (run: seq<State>, t: State)
    requires p in s.procs && s.procs[p] == Idle
    ensures Alone(c, p, run, s, t) && t.procs == s.procs && Served(c, s, t, k)
  {
    var f := FinalPath(c.cacheRoot, k);
    var asked := s.(procs := s.procs[p := Asked(k)]);
    run := [s];
    assert Begin(s, asked, p, k);
    Extend(c, p, run, s, s, asked);
    run := run + [asked];
    if f in s.files {
      t := Finish(asked, p, Built(f, k, true));
      Extend(c, p, run, s, asked, t);
      run := run + [t];
      assert t.procs == s.procs;
    } else {
      var missed := s.(procs := s.procs[p := Missed(k)]);
      assert asked.procs[p := Missed(k)] == missed.procs;
      Extend(c, p, run, s, asked, missed);
      run := run + [missed];
      var ready := s.(procs := s.procs[p := Ready(k)]);
      assert missed.procs[p := Ready(k)] == ready.procs;
      Extend(c, p, run, s, missed, ready);
      run := run + [ready];
      run, t := UndisturbedEmit(c, s, p, k, run, ready);
    }
  }

  lemma UndisturbedEmit(c: Config, s: State, p: Proc, k: Digest, before: seq<State>, ready: State)
    returns (run: seq<State>, t: State)
    requires p in s.procs && s.procs[p] == Idle && FinalPath(c.cacheRoot, k) !in s.files
    requires Alone(c, p, before, s, ready) && ready == s.(procs := s.procs[p := Ready(k)])
    ensures Alone(c, p, run, s, t) && t.procs == s.procs && Served(c, s, t, k)
  {
    var f := FinalPath(c.cacheRoot, k);
    var random := FreshTemp(s.used + s.files.Keys, f);
    var temp := TempPath(f, random);
    var writing := ready.(used := s.used + {temp}, files := s.files[temp := []],
                          procs := ready.procs[p := Writing(k, temp)]);
    assert CreateTemp(c, ready, writing, p, k);
    Extend(c, p, before, s, ready, writing);
    run := before + [writing];
    if c.emit(k).Dll? {
      var closed := writing.(files := writing.files[temp := c.emit(k).bytes],
                             procs := writing.procs[p := Closed(k, temp)]);
      Extend(c, p, run, s, writing, closed);
      run := run + [closed];
      t := Finish(closed.(files := (closed.files - {temp})[f := closed.files[temp]]), p, Built(f, k, false));
      assert Publish(c, closed, t, p, k, temp);
      Extend(c, p, run, s, closed, t);
      assert t.files == s.files[f := c.emit(k).bytes];
    } else {
      var failed := writing.(procs := writing.procs[p := CleaningUp(k, temp, BuildFailed)]);
      Extend(c, p, run, s, writing, failed);
      run := run + [failed];
      t := Finish(failed.(files := failed.files - {temp}), p, BuildFailed);
      Extend(c, p, run, s, failed, t);
      assert t.files == s.files;
    }
    run := run + [t];
    assert t.procs == s.procs;
  }

  lemma {:induction false} LongerThanAll(used: set<string>) returns (n: nat)
    ensures forall u :: u in used ==> |u| <= n
    decreases used
  {
    if used == {} {
      n := 0;
    } else {
      var u :| u in used;
      var m := LongerThanAll(used - {u});
      n := if |u| > m then |u| else m;
    }
  }

  lemma FreshTemp(used: set<string>, f: string) returns (random: string)
    ensures TempPath(f, random) !in used
  {
    var n := LongerThanAll(used);
    random := seq(n, _ => 'x');
    assert |TempPath(f, random)| > n;
  }
}
