/** The sidecar's request loop: framed requests in, one framed response each,
    over three pieces of state that outlive a request. */
module RequestLoop {
  import opened Options
  import opened RecordStream
  import opened Framing
  import opened CachePath
  import Lists

  type Id = string

  /** A params object as its handler sees it. */
  datatype Params<T> = Undecodable | Absent | Given(value: T)

  /** An absent JSON string and an empty one are both refused, so one value. */
  datatype InitializeParams = InitializeParams(workspaceRoot: string, dotnetRoot: string)
  datatype BuildParams = BuildParams(
    csprojPath: string,
    configuration: string,
    targetFramework: string,
    hasProjectTfms: bool)

  /** A body that parses to a JSON object; `method` is `None` when missing or
      not a string. */
  datatype Request = Request(
    id: Id,
    method': Option<string>,
    initialize: Params<InitializeParams>,
    build: Params<BuildParams>)
  datatype Parsed = NotAnObject | Parsed(request: Request)

  datatype BuildOutcome = BuiltDll | CsprojNotFound | LoadFailed | BuildFailed | CacheUnwritable | MissingProjectTfm

  /** The foreign parts, each asked at the time of the n-th response. */
  datatype Env = Env(
    parse: seq<Byte> -> Parsed,
    probeRoslyn: nat -> bool,
    registerSdk: nat -> bool,
    build: (nat, string, BuildParams) -> BuildOutcome)

  datatype ErrorKind =
    | InvalidRequest | ParseError | MethodNotFound | InvalidParams
    | NotInitialized | IncompatibleRoslyn | SdkUnavailable | FromBuild(outcome: BuildOutcome)

  /** `NoId` is the JSON null of a request that could not be read. */
  datatype ResponseId = NoId | For(id: Id)

  datatype Response =
    | Initialized(to: ResponseId)
    | Metadata(to: ResponseId, cacheRoot: string)
    | ShutDown(to: ResponseId)
    | Failure(to: ResponseId, kind: ErrorKind)

  datatype Sdk = NotAttempted | Succeeded | Failed

  /** `_initialized`, `_workspaceRoot`, `_sdk`. */
  datatype Memory = Memory(initialized: bool, workspaceRoot: Option<string>, sdk: Sdk)

  const FRESH := Memory(false, None, NotAttempted)

  // ---- the handlers ----

  function InitializeAnswer(
    env: Env, m: Memory, n: nat, id: ResponseId, p: Params<InitializeParams>): (Memory, Response) {
    match p
    case Undecodable => (m, Failure(id, InvalidParams))
    case Absent => (m, Failure(id, InvalidParams))
    case Given(v) =>
      if v.workspaceRoot == "" || v.dotnetRoot == "" then (m, Failure(id, InvalidParams))
      else if !env.probeRoslyn(n) then (m, Failure(id, IncompatibleRoslyn))
      else (m.(initialized := true, workspaceRoot := Some(v.workspaceRoot)), Initialized(id))
  }

  /** The SDK registration is a one-shot latch: its outcome is final. */
  function SdkAttempted(env: Env, m: Memory, n: nat): Memory {
    if m.sdk != NotAttempted then m
    else m.(sdk := if env.registerSdk(n) then Succeeded else Failed)
  }

  function BuildAnswer(env: Env, m: Memory, n: nat, id: ResponseId, p: Params<BuildParams>): (Memory, Response)
    requires Sound(m)
  {
    if !m.initialized then (m, Failure(id, NotInitialized))
    else match p
         case Undecodable => (m, Failure(id, InvalidParams))
         case Absent => (m, Failure(id, InvalidParams))
         case Given(v) =>
           if v.csprojPath == "" || v.configuration == "" || v.targetFramework == "" || !v.hasProjectTfms then
             (m, Failure(id, InvalidParams))
           else
             var m' := SdkAttempted(env, m, n);
             if m'.sdk == Failed then (m', Failure(id, SdkUnavailable))
             else
               var root := CacheRoot(m.workspaceRoot.value);
               match env.build(n, root, v)
               case BuiltDll => (m', Metadata(id, root))
               case other => (m', Failure(id, FromBuild(other)))
  }

  /** Whenever a build may be dispatched there is a workspace root to use. */
  ghost predicate Sound(m: Memory) {
    m.initialized ==> m.workspaceRoot.Some? && m.workspaceRoot.value != ""
  }

  function RequestAnswer(env: Env, m: Memory, n: nat, r: Request): (res: (Memory, Response))
    requires Sound(m)
    ensures Sound(res.0)
  {
    match r.method'
    case None => (m, Failure(For(r.id), InvalidRequest))
    case Some(name) =>
      if name == "initialize" then InitializeAnswer(env, m, n, For(r.id), r.initialize)
      else if name == "buildMetadata" then BuildAnswer(env, m, n, For(r.id), r.build)
      else if name == "shutdown" then (m, ShutDown(For(r.id)))
      else (m, Failure(For(r.id), MethodNotFound))
  }

  /** One outcome of `ReadMessage` that is not the end of the input. */
  function Answer(env: Env, m: Memory, n: nat, r: Read): (res: (Memory, Response))
    requires Sound(m) && !r.Eof?
    ensures Sound(res.0)
  {
    match r
    case Malformed(_) => (m, Failure(NoId, InvalidRequest))
    case Message(body, _) =>
      match env.parse(body)
      case NotAnObject => (m, Failure(NoId, ParseError))
      case Parsed(request) => RequestAnswer(env, m, n, request)
  }

  // ---- the loop ----

  /** A finished run: the memory before each response, the responses, the exit code. */
  datatype Trace = Trace(memories: seq<Memory>, responses: seq<Response>, exit: nat)

  function Serve(env: Env, m: Memory, n: nat, input: seq<Byte>): Trace
    requires Sound(m)
    decreases |input|
  {
    var r := ReadFrame(input);
    if r.Eof? then Trace([m], [], 1)
    else
      var (m', response) := Answer(env, m, n, r);
      if response.ShutDown? then Trace([m, m'], [response], 0)
      else
        var t := Serve(env, m', n + 1, r.rest);
        Trace([m] + t.memories, [response] + t.responses, t.exit)
  }

  // ---- what every run guarantees ----

  ghost predicate IsShutdown(env: Env, r: Read) {
    r.Message? && env.parse(r.body).Parsed? && env.parse(r.body).request.method' == Some("shutdown")
  }

  /** Whom a response to this outcome must be addressed to. */
  ghost function Addressee(env: Env, r: Read): ResponseId {
    if r.Message? && env.parse(r.body).Parsed? then For(env.parse(r.body).request.id) else NoId
  }

  /** The reads of a run, up to and including the first `shutdown`. */
  ghost function Served(env: Env, input: seq<Byte>): seq<Read>
    decreases |input|
  {
    var r := ReadFrame(input);
    if r.Eof? then []
    else if IsShutdown(env, r) then [r]
    else [r] + Served(env, r.rest)
  }

  ghost predicate Linked(env: Env, t: Trace, n: nat, served: seq<Read>) {
    && |t.responses| == |served| && |t.memories| == |served| + 1
    && forall i :: 0 <= i < |served| ==>
         && !served[i].Eof? && Sound(t.memories[i])
         && (t.memories[i + 1], t.responses[i]) == Answer(env, t.memories[i], n + i, served[i])
  }

  lemma AnswerIsAddressed(env: Env, m: Memory, n: nat, r: Read)
    requires Sound(m) && !r.Eof?
    ensures Answer(env, m, n, r).1.to == Addressee(env, r)
    ensures Answer(env, m, n, r).1.ShutDown? <==> IsShutdown(env, r)
  {
  }

  /** The run is a chain of answers, one per outcome served. */
  lemma {:induction false} ServeIsLinked(env: Env, m: Memory, n: nat, input: seq<Byte>)
    requires Sound(m)
    ensures var t := Serve(env, m, n, input);
      Linked(env, t, n, Served(env, input)) && t.memories[0] == m
    decreases |input|
  {
    var r := ReadFrame(input);
    if !r.Eof? {
      AnswerIsAddressed(env, m, n, r);
      var (m', response) := Answer(env, m, n, r);
      if !response.ShutDown? {
        ServeIsLinked(env, m', n + 1, r.rest);
        LinkInFront(env, m, n, r, Serve(env, m', n + 1, r.rest), Served(env, r.rest));
      }
    }
  }

  /** A chain stays one with the answer before it in front. */
  lemma LinkInFront(env: Env, m: Memory, n: nat, r: Read, rest: Trace, served: seq<Read>)
    requires Sound(m) && !r.Eof? && Linked(env, rest, n + 1, served)
    requires rest.memories[0] == Answer(env, m, n, r).0
    ensures var t := Trace([m] + rest.memories, [Answer(env, m, n, r).1] + rest.responses, rest.exit);
      Linked(env, t, n, [r] + served)
  {
    var ms, rs, all := [m] + rest.memories, [Answer(env, m, n, r).1] + rest.responses, [r] + served;
    forall i | 0 <= i < |all|
      ensures !all[i].Eof? && Sound(ms[i])
      ensures (ms[i + 1], rs[i]) == Answer(env, ms[i], n + i, all[i])
    {
      if i > 0 { LinkBehind(env, rest, n, served, i); }
    }
  }

  lemma LinkBehind(env: Env, rest: Trace, n: nat, served: seq<Read>, i: nat)
    requires Linked(env, rest, n + 1, served) && 0 < i <= |served|
    ensures !served[i - 1].Eof? && Sound(rest.memories[i - 1])
    ensures (rest.memories[i], rest.responses[i - 1]) == Answer(env, rest.memories[i - 1], n + i, served[i - 1])
  {
    var k := i - 1;
    assert (rest.memories[k + 1], rest.responses[k]) == Answer(env, rest.memories[k], n + 1 + k, served[k]);
  }

  ghost predicate EndsInShutdown(env: Env, served: seq<Read>) {
    served != [] && IsShutdown(env, served[|served| - 1])
  }

  /** Serving stops at the first `shutdown` and nowhere else. */
  lemma {:induction false} ServedIsPrefix(env: Env, input: seq<Byte>)
    ensures var served := Served(env, input);
      && served <= ReadAll(input)
      && (forall i :: 0 <= i < |served| - 1 ==> !IsShutdown(env, served[i]))
      && (served == ReadAll(input) || EndsInShutdown(env, served))
    decreases |input|
  {
    var r := ReadFrame(input);
    if !r.Eof? && !IsShutdown(env, r) {
      ServedIsPrefix(env, r.rest);
      var served, later := Served(env, input), Served(env, r.rest);
      assert ReadAll(input)[1..] == ReadAll(r.rest);
      assert served[1..] == later;
      forall i | 0 <= i < |served| - 1 ensures !IsShutdown(env, served[i]) {
        if i > 0 { assert served[i] == later[i - 1]; }
      }
    }
  }

  lemma EndsBehind(env: Env, r: Read, later: seq<Read>)
    requires !IsShutdown(env, r)
    ensures EndsInShutdown(env, [r] + later) <==> EndsInShutdown(env, later)
  {
    if later != [] { assert ([r] + later)[|[r] + later| - 1] == later[|later| - 1]; }
  }

  lemma {:induction false} ExitTellsShutdown(env: Env, m: Memory, n: nat, input: seq<Byte>)
    requires Sound(m)
    ensures Serve(env, m, n, input).exit == if EndsInShutdown(env, Served(env, input)) then 0 else 1
    decreases |input|
  {
    var r := ReadFrame(input);
    if !r.Eof? {
      AnswerIsAddressed(env, m, n, r);
      var (m', response) := Answer(env, m, n, r);
      if !response.ShutDown? {
        ExitTellsShutdown(env, m', n + 1, r.rest);
        assert Served(env, input) == [r] + Served(env, r.rest);
        EndsBehind(env, r, Served(env, r.rest));
      }
    }
  }

  /** Exactly one response per outcome served, each addressed to its request;
      exit code 0 exactly when a `shutdown` was served, which is then the last
      thing served; and otherwise every outcome of the input was served. */
  lemma ServeAnswersEach(env: Env, m: Memory, n: nat, input: seq<Byte>)
    requires Sound(m)
    ensures var t, served := Serve(env, m, n, input), Served(env, input);
      && |t.responses| == |served|
      && (forall i :: 0 <= i < |served| ==> t.responses[i].to == Addressee(env, served[i]))
      && t.exit == (if EndsInShutdown(env, served) then 0 else 1)
      && (forall i :: 0 <= i < |served| - 1 ==> !IsShutdown(env, served[i]))
      && served <= ReadAll(input)
      && (t.exit == 1 ==> served == ReadAll(input))
  {
    ServeIsLinked(env, m, n, input);
    ServedIsPrefix(env, input);
    ExitTellsShutdown(env, m, n, input);
    ChainIsAddressed(env, Serve(env, m, n, input), n, Served(env, input));
  }

  lemma ChainIsAddressed(env: Env, t: Trace, n: nat, served: seq<Read>)
    requires Linked(env, t, n, served)
    ensures forall i :: 0 <= i < |served| ==> t.responses[i].to == Addressee(env, served[i])
  {
    forall i | 0 <= i < |served| ensures t.responses[i].to == Addressee(env, served[i]) {
      AnswerIsAddressed(env, t.memories[i], n + i, served[i]);
      assert (t.memories[i + 1], t.responses[i]) == Answer(env, t.memories[i], n + i, served[i]);
    }
  }

  /** Requests written as frames are each answered once, in order, and the last
      one, a `shutdown`, ends the process with code 0. */
  lemma FramedRequestsAreAnswered(env: Env, bodies: seq<seq<Byte>>)
    requires forall b :: b in bodies ==> |b| <= INT32_MAX && env.parse(b).Parsed?
    requires bodies != [] && env.parse(bodies[|bodies| - 1]).request.method' == Some("shutdown")
    requires forall i :: 0 <= i < |bodies| - 1 ==> env.parse(bodies[i]).request.method' != Some("shutdown")
    ensures var t := Serve(env, FRESH, 0, Concat(bodies));
      && t.exit == 0 && |t.responses| == |bodies|
      && forall i :: 0 <= i < |bodies| ==> t.responses[i].to == For(env.parse(bodies[i]).request.id)
  {
    FramesRoundTrip(bodies);
    var input := Concat(bodies);
    ServeAnswersEach(env, FRESH, 0, input);
    BodiesAnswered(env, bodies, Serve(env, FRESH, 0, input), Served(env, input), ReadAll(input));
  }

  lemma BodiesAnswered(env: Env, bodies: seq<seq<Byte>>, t: Trace, served: seq<Read>, all: seq<Read>)
    requires |all| == |bodies| && forall i :: 0 <= i < |bodies| ==> all[i].Message? && all[i].body == bodies[i]
    requires forall b :: b in bodies ==> env.parse(b).Parsed?
    requires bodies != [] && env.parse(bodies[|bodies| - 1]).request.method' == Some("shutdown")
    requires forall i :: 0 <= i < |bodies| - 1 ==> env.parse(bodies[i]).request.method' != Some("shutdown")
    requires |t.responses| == |served| && served <= all
    requires forall i :: 0 <= i < |served| ==> t.responses[i].to == Addressee(env, served[i])
    requires t.exit == (if EndsInShutdown(env, served) then 0 else 1) && (t.exit == 1 ==> served == all)
    ensures t.exit == 0 && |t.responses| == |bodies|
    ensures forall i :: 0 <= i < |bodies| ==> t.responses[i].to == For(env.parse(bodies[i]).request.id)
  {
    forall i | 0 <= i < |bodies| ensures env.parse(all[i].body).Parsed? {
      assert bodies[i] in bodies;
    }
    ServedToTheEnd(env, served, all);
  }

  /** When only the last outcome is a `shutdown`, everything is served. */
  lemma ServedToTheEnd(env: Env, served: seq<Read>, all: seq<Read>)
    requires served <= all && (served == all || EndsInShutdown(env, served))
    requires forall i :: 0 <= i < |all| - 1 ==> !IsShutdown(env, all[i])
    ensures served == all
  {
    if EndsInShutdown(env, served) { assert served[|served| - 1] == all[|served| - 1]; }
  }

  /** The request reaches `MSBuildLocator.RegisterDefaults`. */
  ghost predicate Registers(env: Env, m: Memory, r: Read) {
    && m.sdk == NotAttempted && m.initialized
    && r.Message? && env.parse(r.body).Parsed?
    && var q := env.parse(r.body).request;
       && q.method' == Some("buildMetadata") && q.build.Given?
       && q.build.value.csprojPath != "" && q.build.value.configuration != ""
       && q.build.value.targetFramework != "" && q.build.value.hasProjectTfms
  }

  lemma AnswerLatches(env: Env, m: Memory, n: nat, r: Read)
    requires Sound(m) && !r.Eof?
    ensures var (m', response) := Answer(env, m, n, r);
      && (m.sdk != NotAttempted ==> m'.sdk == m.sdk)
      && (m.sdk == NotAttempted ==> (m'.sdk != NotAttempted <==> Registers(env, m, r)))
      && (m.initialized ==> m'.initialized)
      && (!m.initialized && m'.initialized ==> response.Initialized?)
      && (response.Metadata? ==>
          m.initialized && m'.sdk == Succeeded && response.cacheRoot == CacheRoot(m.workspaceRoot.value))
      && (!response.Initialized? ==> m'.workspaceRoot == m.workspaceRoot)
  {
  }

  lemma {:induction false} LatchesHold(env: Env, t: Trace, n: nat, served: seq<Read>, i: nat, j: nat)
    requires Linked(env, t, n, served) && i <= j < |t.memories|
    ensures t.memories[i].sdk != NotAttempted ==> t.memories[j].sdk == t.memories[i].sdk
    ensures t.memories[i].initialized ==> t.memories[j].initialized
    decreases j
  {
    if i < j {
      LatchesHold(env, t, n, served, i, j - 1);
      AnswerLatches(env, t.memories[j - 1], n + (j - 1), served[j - 1]);
    }
  }

  /** At most one request in a whole run attempts the SDK registration, and
      its outcome decides every later build. */
  lemma RegistersOnce(env: Env, input: seq<Byte>, i: nat, j: nat)
    requires var t := Serve(env, FRESH, 0, input); i < j < |t.responses|
    ensures var t, served := Serve(env, FRESH, 0, input), Served(env, input);
      && |served| == |t.responses| && |t.memories| == |served| + 1
      && !(Registers(env, t.memories[i], served[i]) && Registers(env, t.memories[j], served[j]))
      && (Registers(env, t.memories[i], served[i]) ==> t.memories[j].sdk == if env.registerSdk(i)
          then Succeeded else Failed)
  {
    ServeIsLinked(env, FRESH, 0, input);
    var t, served := Serve(env, FRESH, 0, input), Served(env, input);
    AnswerLatches(env, t.memories[i], 0 + i, served[i]);
    assert (t.memories[i + 1], t.responses[i]) == Answer(env, t.memories[i], 0 + i, served[i]);
    LatchesHold(env, t, 0, served, i + 1, j);
  }

  // ---- when each answer is given ----

  /** The outcome read is this request. */
  ghost predicate Asks(env: Env, r: Read, q: Request) {
    r.Message? && env.parse(r.body) == Parsed(q)
  }

  ghost predicate AsksFor(env: Env, r: Read, name: string) {
    r.Message? && env.parse(r.body).Parsed? && env.parse(r.body).request.method' == Some(name)
  }

  /** The root an `initialize` gives, when both its roots are there. */
  ghost function RootGiven(env: Env, r: Read): Option<string> {
    if !AsksFor(env, r, "initialize") then None
    else match env.parse(r.body).request.initialize
         case Given(v) => if v.workspaceRoot != "" && v.dotnetRoot != "" then Some(v.workspaceRoot) else None
         case _ => None
  }

  /** What a `buildMetadata` asks to build, when nothing is missing. */
  ghost function BuildGiven(env: Env, r: Read): Option<BuildParams> {
    if !AsksFor(env, r, "buildMetadata") then None
    else match env.parse(r.body).request.build
         case Given(v) =>
           if v.csprojPath != "" && v.configuration != "" && v.targetFramework != "" && v.hasProjectTfms
           then Some(v) else None
         case _ => None
  }

  /** The registration has succeeded once this answer is given. */
  ghost predicate SdkThere(env: Env, m: Memory, n: nat) {
    m.sdk == Succeeded || (m.sdk == NotAttempted && env.registerSdk(n))
  }

  /** `initialize` succeeds exactly with both roots and a Roslyn that binds, and
      it is this answer that stores the workspace root. */
  lemma InitializedExactly(env: Env, m: Memory, n: nat, r: Read)
    requires Sound(m) && !r.Eof?
    ensures var (m', response) := Answer(env, m, n, r);
      && (response.Initialized? <==> RootGiven(env, r).Some? && env.probeRoslyn(n))
      && (response.Initialized? ==> m' == Memory(true, RootGiven(env, r), m.sdk))
      && (!response.Initialized? ==> m'.initialized == m.initialized && m'.workspaceRoot == m.workspaceRoot)
  {
  }

  /** Metadata is answered exactly by an initialized sidecar to a complete
      request once the SDK is there and the build under the cache root of the
      stored workspace root gives a DLL. */
  lemma MetadataExactly(env: Env, m: Memory, n: nat, r: Read)
    requires Sound(m) && !r.Eof?
    ensures var response := Answer(env, m, n, r).1;
      && (response.Metadata? <==>
          && m.initialized && BuildGiven(env, r).Some? && SdkThere(env, m, n)
          && env.build(n, CacheRoot(m.workspaceRoot.value), BuildGiven(env, r).value) == BuiltDll)
      && (response.Metadata? ==> response.cacheRoot == CacheRoot(m.workspaceRoot.value))
  {
  }

  /** The registration is attempted by the first complete build request to an
      initialized sidecar, and nothing else touches its outcome. */
  lemma SdkExactly(env: Env, m: Memory, n: nat, r: Read)
    requires Sound(m) && !r.Eof?
    ensures Answer(env, m, n, r).0.sdk ==
      if m.sdk == NotAttempted && m.initialized && BuildGiven(env, r).Some?
      then (if env.registerSdk(n) then Succeeded else Failed) else m.sdk
  {
  }

  /** Each refusal, exactly under its condition. */
  lemma FailureExactly(env: Env, m: Memory, n: nat, r: Read)
    requires Sound(m) && !r.Eof?
    ensures var response := Answer(env, m, n, r).1;
      response.Failure? ==>
        match response.kind
        case InvalidRequest => r.Malformed? || exists q :: Asks(env, r, q) && q.method'.None?
        case ParseError => r.Message? && env.parse(r.body).NotAnObject?
        case MethodNotFound =>
          exists q :: Asks(env, r, q) && q.method'.Some?
            && q.method'.value !in {"initialize", "buildMetadata", "shutdown"}
        case InvalidParams =>
          || (AsksFor(env, r, "initialize") && RootGiven(env, r).None?)
          || (AsksFor(env, r, "buildMetadata") && m.initialized && BuildGiven(env, r).None?)
        case IncompatibleRoslyn => RootGiven(env, r).Some? && !env.probeRoslyn(n)
        case NotInitialized => AsksFor(env, r, "buildMetadata") && !m.initialized
        case SdkUnavailable => m.initialized && BuildGiven(env, r).Some? && !SdkThere(env, m, n)
        case FromBuild(outcome) =>
          && m.initialized && BuildGiven(env, r).Some? && SdkThere(env, m, n) && outcome != BuiltDll
          && outcome == env.build(n, CacheRoot(m.workspaceRoot.value), BuildGiven(env, r).value)
  {
    if r.Message? && env.parse(r.body).Parsed? {
      assert Asks(env, r, env.parse(r.body).request);
    }
  }

  // ---- where a whole run's answers come from ----

  /** The answer at `i` is the last `Initialized` before `j`, to a request that
      gave this root. */
  ghost predicate LastRoot(env: Env, t: Trace, served: seq<Read>, i: nat, j: nat, root: string)
    requires |t.responses| == |served|
  {
    && i < j <= |served| && t.responses[i].Initialized? && RootGiven(env, served[i]) == Some(root)
    && forall k :: i < k < j ==> !t.responses[k].Initialized?
  }

  /** What an initialized sidecar remembers is what the last successful
      `initialize` gave it. */
  lemma {:induction false} RootComesFromRequest(env: Env, t: Trace, n: nat, served: seq<Read>, j: nat)
    returns (i: nat, root: string)
    requires Linked(env, t, n, served) && j < |t.memories| && t.memories[j].initialized && !t.memories[0].initialized
    ensures t.memories[j].workspaceRoot == Some(root) && LastRoot(env, t, served, i, j, root)
    decreases j
  {
    var k := j - 1;
    assert (t.memories[k + 1], t.responses[k]) == Answer(env, t.memories[k], n + k, served[k]);
    InitializedExactly(env, t.memories[k], n + k, served[k]);
    if t.responses[k].Initialized? {
      i, root := k, RootGiven(env, served[k]).value;
    } else {
      i, root := RootComesFromRequest(env, t, n, served, k);
    }
  }

  /** Over a whole run, metadata comes only after a successful `initialize`,
      only once the SDK is registered, and out of the cache of the workspace
      the last successful `initialize` named. */
  lemma MetadataNeedsInitialize(env: Env, input: seq<Byte>, j: nat) returns (i: nat, root: string)
    requires var t := Serve(env, FRESH, 0, input); j < |t.responses| && t.responses[j].Metadata?
    ensures var t, served := Serve(env, FRESH, 0, input), Served(env, input);
      && |t.memories| == |served| + 1 && |t.responses| == |served|
      && LastRoot(env, t, served, i, j, root)
      && t.responses[j].cacheRoot == CacheRoot(root) && root != ""
      && t.memories[j + 1].sdk == Succeeded
  {
    ServeIsLinked(env, FRESH, 0, input);
    var t, served := Serve(env, FRESH, 0, input), Served(env, input);
    assert (t.memories[j + 1], t.responses[j]) == Answer(env, t.memories[j], 0 + j, served[j]);
    MetadataExactly(env, t.memories[j], 0 + j, served[j]);
    SdkExactly(env, t.memories[j], 0 + j, served[j]);
    i, root := RootComesFromRequest(env, t, 0, served, j);
  }

  /** What a complete build request to an initialized sidecar is answered. */
  ghost predicate BuiltFrom(env: Env, n: nat, r: Read, root: string, sdk: Sdk, response: Response)
    requires BuildGiven(env, r).Some?
  {
    var outcome := env.build(n, CacheRoot(root), BuildGiven(env, r).value);
    response ==
      if sdk == Failed then Failure(Addressee(env, r), SdkUnavailable)
      else if outcome == BuiltDll then Metadata(Addressee(env, r), CacheRoot(root))
      else Failure(Addressee(env, r), FromBuild(outcome))
  }

  lemma BuildIsAnswered(env: Env, m: Memory, n: nat, r: Read, root: string)
    requires Sound(m) && !r.Eof? && BuildGiven(env, r).Some? && m.initialized && m.workspaceRoot == Some(root)
    ensures BuiltFrom(env, n, r, root, Answer(env, m, n, r).0.sdk, Answer(env, m, n, r).1)
  {
  }

  /** And conversely: a complete build request behind a successful `initialize`
      is answered from the cache of the last root given, whatever the answer. */
  lemma BuildsUnderLastRoot(
    env: Env, input: seq<Byte>, t: Trace, served: seq<Read>, i: nat, j: nat, root: string)
    requires t == Serve(env, FRESH, 0, input) && served == Served(env, input)
    requires |t.responses| == |served| && LastRoot(env, t, served, i, j, root)
    requires j < |served| && BuildGiven(env, served[j]).Some?
    ensures |t.memories| == |served| + 1 && BuiltFrom(env, j, served[j], root, t.memories[j + 1].sdk, t.responses[j])
  {
    ServeIsLinked(env, FRESH, 0, input);
    BuildInChain(env, t, 0, served, i, j, root);
  }

  lemma BuildInChain(env: Env, t: Trace, n: nat, served: seq<Read>, i: nat, j: nat, root: string)
    requires Linked(env, t, n, served) && j < |served| && LastRoot(env, t, served, i, j, root)
    requires BuildGiven(env, served[j]).Some?
    ensures BuiltFrom(env, n + j, served[j], root, t.memories[j + 1].sdk, t.responses[j])
  {
    assert (t.memories[i + 1], t.responses[i]) == Answer(env, t.memories[i], n + i, served[i]);
    InitializedExactly(env, t.memories[i], n + i, served[i]);
    RootStays(env, t, n, served, i + 1, j);
    assert (t.memories[j + 1], t.responses[j]) == Answer(env, t.memories[j], n + j, served[j]);
    BuildIsAnswered(env, t.memories[j], n + j, served[j], root);
  }

  lemma {:induction false} RootStays(env: Env, t: Trace, n: nat, served: seq<Read>, i: nat, j: nat)
    requires Linked(env, t, n, served) && i <= j < |t.memories|
    requires forall k :: i <= k < j ==> !t.responses[k].Initialized?
    ensures t.memories[j].initialized == t.memories[i].initialized
    ensures t.memories[j].workspaceRoot == t.memories[i].workspaceRoot
    decreases j
  {
    if i < j {
      var k := j - 1;
      RootStays(env, t, n, served, i, k);
      assert (t.memories[k + 1], t.responses[k]) == Answer(env, t.memories[k], n + k, served[k]);
      InitializedExactly(env, t.memories[k], n + k, served[k]);
    }
  }

  // ---- the loop itself ----

  ghost function Prepend(ms: seq<Memory>, rs: seq<Response>, t: Trace): Trace {
    Trace(ms + t.memories, rs + t.responses, t.exit)
  }

  /** What one turn of the loop moves from the future into the past. */
  lemma ServeOne(env: Env, m: Memory, n: nat, input: seq<Byte>, ms: seq<Memory>, rs: seq<Response>)
    requires Sound(m) && !ReadFrame(input).Eof?
    ensures var (m', response) := Answer(env, m, n, ReadFrame(input));
      Prepend(ms, rs, Serve(env, m, n, input))
      == if response.ShutDown? then Trace(ms + [m] + [m'], rs + [response], 0)
         else Prepend(ms + [m], rs + [response], Serve(env, m', n + 1, ReadFrame(input).rest))
  {
    var (m', response) := Answer(env, m, n, ReadFrame(input));
    if response.ShutDown? {
      assert ms + [m, m'] == ms + [m] + [m'];
    } else {
      var t := Serve(env, m', n + 1, ReadFrame(input).rest);
      Lists.Associate(ms, [m], t.memories);
      Lists.Associate(rs, [response], t.responses);
    }
  }

  class Sidecar {
    var initialized: bool
    var workspaceRoot: Option<string>
    var sdk: Sdk
    var sent: seq<Response>
    ghost var memories: seq<Memory>

    constructor ()
      ensures Now() == FRESH && sent == []
    {
      initialized, workspaceRoot, sdk, sent := false, None, NotAttempted, [];
    }

    function Now(): Memory
      reads this
    {
      Memory(initialized, workspaceRoot, sdk)
    }

    /** A response leaves the process. */
    method Write(response: Response)
      modifies this`sent
      ensures sent == old(sent) + [response]
    {
      sent := sent + [response];
    }

    method HandleInitialize(env: Env, id: ResponseId, p: Params<InitializeParams>)
      modifies this`initialized, this`workspaceRoot, this`sent
      ensures var (m, response) := InitializeAnswer(env, old(Now()), |old(sent)|, id, p);
        Now() == m && sent == old(sent) + [response]
    {
      if !p.Given? || p.value.workspaceRoot == "" || p.value.dotnetRoot == "" {
        Write(Failure(id, InvalidParams));
        return;
      }
      if !env.probeRoslyn(|sent|) {
        Write(Failure(id, IncompatibleRoslyn));
        return;
      }
      Write(Initialized(id));
      workspaceRoot := Some(p.value.workspaceRoot);
      initialized := true;
    }

    /** Registers at most once; answers only when there is no SDK. */
    method EnsureSdkRegistered(env: Env, id: ResponseId) returns (ok: bool)
      modifies this`sdk, this`sent
      ensures Now() == SdkAttempted(env, old(Now()), |old(sent)|)
      ensures ok <==> sdk != Failed
      ensures sent == old(sent) + if ok then [] else [Failure(id, SdkUnavailable)]
    {
      match sdk
      case Succeeded => ok := true;
      case Failed =>
        Write(Failure(id, SdkUnavailable));
        ok := false;
      case NotAttempted =>
        ok := env.registerSdk(|sent|);
        if ok {
          sdk := Succeeded;
        } else {
          sdk := Failed;
          Write(Failure(id, SdkUnavailable));
        }
    }

    method HandleBuildMetadata(env: Env, id: ResponseId, p: Params<BuildParams>)
      requires Sound(Now())
      modifies this`sdk, this`sent
      ensures var (m, response) := BuildAnswer(env, old(Now()), |old(sent)|, id, p);
        Now() == m && sent == old(sent) + [response]
    {
      if !initialized {
        Write(Failure(id, NotInitialized));
        return;
      }
      if !p.Given? || p.value.csprojPath == "" {
        Write(Failure(id, InvalidParams));
        return;
      }
      if p.value.configuration == "" || p.value.targetFramework == "" || !p.value.hasProjectTfms {
        Write(Failure(id, InvalidParams));
        return;
      }
      var registered := EnsureSdkRegistered(env, id);
      if registered {
        DispatchBuildMetadataLoad(env, id, p.value);
      }
    }

    method DispatchBuildMetadataLoad(env: Env, id: ResponseId, p: BuildParams)
      requires workspaceRoot.Some?
      modifies this`sent
      ensures var root := CacheRoot(workspaceRoot.value);
        var outcome := env.build(|old(sent)|, root, p);
        sent == old(sent) + [if outcome == BuiltDll then Metadata(id, root) else Failure(id, FromBuild(outcome))]
    {
      var cacheRoot := CacheRoot(workspaceRoot.value);
      match env.build(|sent|, cacheRoot, p)
      case BuiltDll => Write(Metadata(id, cacheRoot));
      case failed => Write(Failure(id, FromBuild(failed)));
    }

    /** Everything served so far, followed by what serving the rest will add. */
    ghost function Whole(env: Env, stdin: InputStream): Trace
      requires stdin.Valid() && Sound(Now())
      reads this, stdin
    {
      Prepend(memories, sent, Serve(env, Now(), |sent|, stdin.Left()))
    }

    /** One turn of the loop: `Some(exit)` when it returns. */
    method Turn(env: Env, stdin: InputStream) returns (exit: Option<nat>)
      requires stdin.Valid() && Sound(Now())
      modifies this, stdin
      ensures stdin.Valid() && Sound(Now())
      ensures exit.Some? ==> Trace(memories, sent, exit.value) == old(Whole(env, stdin))
      ensures exit.None? ==> Whole(env, stdin) == old(Whole(env, stdin)) && |stdin.Left()| < |old(stdin.Left())|
    {
      ghost var left := stdin.Left();
      var received := ReadMessage(stdin);
      if received == EndOfInput {
        memories := memories + [Now()];
        return Some(1);
      }
      ServeOne(env, Now(), |sent|, left, memories, sent);
      memories := memories + [Now()];
      var stop := React(env, received);
      if stop {
        memories := memories + [Now()];
        return Some(0);
      }
      exit := None;
    }

    /** Serve requests until `shutdown` or the end of the input. */
    method Run(env: Env, stdin: InputStream) returns (exit: nat)
      requires stdin.Valid() && Sound(Now()) && sent == []
      modifies this, stdin
      ensures Trace(memories, sent, exit) == Serve(env, old(Now()), 0, old(stdin.Left()))
    {
      ghost var whole := Serve(env, Now(), 0, stdin.Left());
      memories := [];
      assert Whole(env, stdin) == whole;
      while true
        invariant stdin.Valid() && Sound(Now())
        invariant Whole(env, stdin) == whole
        decreases |stdin.Left()|
      {
        var done := Turn(env, stdin);
        if done.Some? {
          return done.value;
        }
      }
    }

    /** The body of the loop behind the read: dispatch to the handler, which
        answers; `true` when the loop returns. */
    method React(env: Env, received: Received) returns (stop: bool)
      requires received != EndOfInput && Sound(Now())
      modifies this`initialized, this`workspaceRoot, this`sdk, this`sent
      ensures Sound(Now())
      ensures forall r: Read :: AsReceived(r) == received ==>
        var (m, response) := Answer(env, old(Now()), |old(sent)|, r);
        Now() == m && sent == old(sent) + [response] && stop == response.ShutDown?
    {
      stop := false;
      if received == InvalidData {
        Write(Failure(NoId, InvalidRequest));
        return;
      }
      var parsed := env.parse(received.bytes);
      if parsed.NotAnObject? {
        Write(Failure(NoId, ParseError));
        return;
      }
      var id, name := For(parsed.request.id), parsed.request.method';
      if name.None? {
        Write(Failure(id, InvalidRequest));
      } else if name.value == "initialize" {
        HandleInitialize(env, id, parsed.request.initialize);
      } else if name.value == "buildMetadata" {
        HandleBuildMetadata(env, id, parsed.request.build);
      } else if name.value == "shutdown" {
        Write(ShutDown(id));
        stop := true;
      } else {
        Write(Failure(id, MethodNotFound));
      }
    }
  }
}
