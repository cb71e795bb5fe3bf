/** `BuildService.EmitClosure`: every project of a `<ProjectReference>` closure
    emitted leaves-first, each under a key that covers everything below it. */
module ClosureBuild {
  import opened Ordinal
  import opened ProjectGraph
  import opened TopoSort
  import opened CacheKey
  import opened CachePath
  import Lists

  /** A reference substituted by the DLL emitted for it. */
  datatype PeRef = PeRef(path: Path, dll: string)

  function PePath(r: PeRef): Path { r.path }

  /** What the foreign parts contribute: the reference graph MSBuild evaluated,
      the inputs Roslyn reports for a project once its references are the given
      DLLs, the cache directory, and the hash. */
  datatype Evaluation = Evaluation(
    graph: Graph,
    inputs: (Path, seq<PeRef>) -> ProjectInputs,
    cacheRoot: string,
    sha: Sha)

  // ---- the recursive definition of a project's key ----

  function Substituted(cacheRoot: string, ks: seq<KeyedProject>): seq<PeRef> {
    seq(|ks|, i requires 0 <= i < |ks| => PeRef(ks[i].path, FinalPath(cacheRoot, ks[i].key)))
  }

  ghost predicate AllReached(g: Graph, p: Path, ds: seq<Path>) {
    forall d :: d in ds ==> Reaches(g, p, d)
  }

  lemma DepsAreReached(g: Graph, p: Path)
    ensures AllReached(g, p, Deps(g, p))
    ensures AllReached(g, p, Ascending(ReachSet(g, p)))
  {
    forall d | d in Deps(g, p) ensures Reaches(g, p, d) { EdgeReaches(g, p, d); }
    ReachSetIsReach(g, p);
  }

  /** Key(p) = H(inputs of p over its emitted references, every (d, Key(d)) below p). */
  ghost function Key(e: Evaluation, p: Path): Digest
    requires !CycleBelow(e.graph, p)
    decreases |ReachSet(e.graph, p)|, 1, 0
  {
    e.sha(KeyStream(e, p))
  }

  ghost function KeyStream(e: Evaluation, p: Path): seq<RecordStream.Byte>
    requires !CycleBelow(e.graph, p)
    decreases |ReachSet(e.graph, p)|, 0, |Deps(e.graph, p)| + |Ascending(ReachSet(e.graph, p))| + 1
  {
    DepsAreReached(e.graph, p);
    Stream(e.inputs(p, Substituted(e.cacheRoot, KeyedAll(e, p, Deps(e.graph, p)))),
           KeyedAll(e, p, Ascending(ReachSet(e.graph, p))))
  }

  ghost function KeyedAll(e: Evaluation, p: Path, ds: seq<Path>): (r: seq<KeyedProject>)
    requires !CycleBelow(e.graph, p) && AllReached(e.graph, p, ds)
    ensures |r| == |ds| && forall i :: 0 <= i < |ds| ==> r[i].path == ds[i]
    decreases |ReachSet(e.graph, p)|, 0, |ds|
  {
    if ds == [] then []
    else
      ReachShrinks(e.graph, p, ds[|ds| - 1]);
      KeyedAll(e, p, ds[..|ds| - 1]) + [KeyedProject(ds[|ds| - 1], Key(e, ds[|ds| - 1]))]
  }

  lemma {:induction false} KeyedAllAt(e: Evaluation, p: Path, ds: seq<Path>, i: nat)
    requires !CycleBelow(e.graph, p) && AllReached(e.graph, p, ds) && i < |ds|
    ensures !CycleBelow(e.graph, ds[i])
    ensures KeyedAll(e, p, ds)[i] == KeyedProject(ds[i], Key(e, ds[i]))
    decreases |ds|
  {
    ReachShrinks(e.graph, p, ds[i]);
    if i < |ds| - 1 { KeyedAllAt(e, p, ds[..|ds| - 1], i); }
  }

  /** What a project's key covers: its own inputs over the DLLs of its direct
      references, in their listed order, and then every project it reaches, in
      ordinal order, each with its own key. */
  lemma KeyCovers(e: Evaluation, p: Path) returns (direct: seq<PeRef>, below: seq<KeyedProject>)
    requires !CycleBelow(e.graph, p)
    ensures |direct| == |Deps(e.graph, p)| && forall i :: 0 <= i < |direct| ==>
      var d := Deps(e.graph, p)[i];
      !CycleBelow(e.graph, d) && direct[i] == PeRef(d, FinalPath(e.cacheRoot, Key(e, d)))
    ensures SortedBy(ProjectPath, below) && DistinctBy(ProjectPath, below)
    ensures forall k :: k in below <==>
      Reaches(e.graph, p, k.path) && !CycleBelow(e.graph, k.path) && k.key == Key(e, k.path)
    ensures Encodable(e.inputs(p, direct), below) ==>
      Holds(RecordStream.Decode(KeyStream(e, p)), e.inputs(p, direct),
            OrderBy(PathKey, e.inputs(p, direct).additional), OrderBy(PathKey, e.inputs(p, direct).config), below)
  {
    DepsAreReached(e.graph, p);
    var asc := Ascending(ReachSet(e.graph, p));
    direct := Substituted(e.cacheRoot, KeyedAll(e, p, Deps(e.graph, p)));
    below := KeyedAll(e, p, asc);
    forall i | 0 <= i < |direct|
      ensures var d := Deps(e.graph, p)[i];
        !CycleBelow(e.graph, d) && direct[i] == PeRef(d, FinalPath(e.cacheRoot, Key(e, d)))
    {
      KeyedAllAt(e, p, Deps(e.graph, p), i);
    }
    KeyedReach(e, p, asc, below);
    if Encodable(e.inputs(p, direct), below) {
      StreamHolds(e.inputs(p, direct), below);
      SortedStays(below);
    }
  }

  lemma KeyedReach(e: Evaluation, p: Path, asc: seq<Path>, below: seq<KeyedProject>)
    requires !CycleBelow(e.graph, p) && asc == Ascending(ReachSet(e.graph, p)) && AllReached(e.graph, p, asc)
    requires below == KeyedAll(e, p, asc)
    ensures SortedBy(ProjectPath, below) && DistinctBy(ProjectPath, below)
    ensures forall k :: k in below <==>
      Reaches(e.graph, p, k.path) && !CycleBelow(e.graph, k.path) && k.key == Key(e, k.path)
  {
    ReachSetIsReach(e.graph, p);
    forall i, j | 0 <= i < j < |below|
      ensures AtMost(ProjectPath(below[i]), ProjectPath(below[j])) && ProjectPath(below[i]) != ProjectPath(below[j])
    {
      assert AtMost(Id(asc[i]), Id(asc[j])) && Id(asc[i]) != Id(asc[j]);
    }
    forall k
      ensures k in below <==> Reaches(e.graph, p, k.path) && !CycleBelow(e.graph, k.path) && k.key == Key(e, k.path)
    {
      if k in below {
        var i :| 0 <= i < |below| && below[i] == k;
        KeyedAllAt(e, p, asc, i);
        assert asc[i] in asc;
      }
      if Reaches(e.graph, p, k.path) && !CycleBelow(e.graph, k.path) && k.key == Key(e, k.path) {
        assert k.path in asc;
        var i :| 0 <= i < |asc| && asc[i] == k.path;
        KeyedAllAt(e, p, asc, i);
        assert below[i] == k;
      }
    }
  }

  /** Sorting what is sorted already changes nothing. */
  lemma SortedStays(ks: seq<KeyedProject>)
    requires SortedBy(ProjectPath, ks) && DistinctBy(ProjectPath, ks)
    ensures OrderBy(ProjectPath, ks) == ks
  {
    OrderBySorted(ProjectPath, ks);
    DistinctKeys(ProjectPath, ks);
    SortedIsCanonical(ProjectPath, OrderBy(ProjectPath, ks), ks);
  }

  // ---- emitting one project ----

  datatype Emitted = Emitted(key: Digest, dll: string)

  /** Every project listed so far is recorded under its defined key. */
  ghost predicate Recorded(e: Evaluation, emitted: map<Path, Emitted>) {
    forall p :: p in emitted ==>
      && !CycleBelow(e.graph, p)
      && emitted[p] == Emitted(Key(e, p), FinalPath(e.cacheRoot, Key(e, p)))
  }

  lemma LookUpAt(e: Evaluation, p: Path, ds: seq<Path>, emitted: map<Path, Emitted>, i: nat)
    requires !CycleBelow(e.graph, p) && AllReached(e.graph, p, ds)
    requires Recorded(e, emitted) && forall d :: d in ds ==> d in emitted
    requires i < |ds|
    ensures ds[i] in emitted
    ensures KeyedAll(e, p, ds)[i] == KeyedProject(ds[i], emitted[ds[i]].key)
    ensures Substituted(e.cacheRoot, KeyedAll(e, p, ds))[i] == PeRef(ds[i], emitted[ds[i]].dll)
  {
    assert ds[i] in ds;
    KeyedAllAt(e, p, ds, i);
  }

  /** The dependency keys and the substituted references of one project, as the
      emit loop looks them up: no lookup misses. */
  method LookUp(e: Evaluation, ghost p: Path, below: seq<Path>, direct: seq<Path>, emitted: map<Path, Emitted>)
    returns (ks: seq<KeyedProject>, refs: seq<PeRef>)
    requires !CycleBelow(e.graph, p) && AllReached(e.graph, p, below) && AllReached(e.graph, p, direct)
    requires Recorded(e, emitted)
    requires forall d :: d in below || d in direct ==> d in emitted
    ensures ks == KeyedAll(e, p, below)
    ensures refs == Substituted(e.cacheRoot, KeyedAll(e, p, direct))
  {
    ks := DepKeys(e, p, below, emitted);
    refs := SubstituteReferences(e, p, direct, emitted);
  }

  method DepKeys(e: Evaluation, ghost p: Path, below: seq<Path>, emitted: map<Path, Emitted>)
    returns (ks: seq<KeyedProject>)
    requires !CycleBelow(e.graph, p) && AllReached(e.graph, p, below)
    requires Recorded(e, emitted) && forall d :: d in below ==> d in emitted
    ensures ks == KeyedAll(e, p, below)
  {
    ghost var all := KeyedAll(e, p, below);
    ks := [];
    for i := 0 to |below|
      invariant ks == all[..i]
    {
      LookUpAt(e, p, below, emitted, i);
      Lists.Snoc(all, i);
      ks := ks + [KeyedProject(below[i], emitted[below[i]].key)];
    }
  }

  method SubstituteReferences(e: Evaluation, ghost p: Path, direct: seq<Path>, emitted: map<Path, Emitted>)
    returns (refs: seq<PeRef>)
    requires !CycleBelow(e.graph, p) && AllReached(e.graph, p, direct)
    requires Recorded(e, emitted) && forall d :: d in direct ==> d in emitted
    ensures refs == Substituted(e.cacheRoot, KeyedAll(e, p, direct))
  {
    ghost var all := Substituted(e.cacheRoot, KeyedAll(e, p, direct));
    refs := [];
    for i := 0 to |direct|
      invariant refs == all[..i]
    {
      LookUpAt(e, p, direct, emitted, i);
      Lists.Snoc(all, i);
      refs := refs + [PeRef(direct[i], emitted[direct[i]].dll)];
    }
  }

  /** The closure walk may list projects in any order; the key cannot tell. */
  lemma ListingOrderIsIrrelevant(e: Evaluation, p: Path, listed: seq<Path>, inputs: ProjectInputs)
    requires !CycleBelow(e.graph, p) && AllReached(e.graph, p, listed)
    requires DistinctBy(Id, listed) && forall q :: q in listed <==> Reaches(e.graph, p, q)
    ensures AllReached(e.graph, p, Ascending(ReachSet(e.graph, p)))
    ensures Stream(inputs, KeyedAll(e, p, listed)) == Stream(inputs, KeyedAll(e, p, Ascending(ReachSet(e.graph, p))))
  {
    DepsAreReached(e.graph, p);
    ReachSetIsReach(e.graph, p);
    var sorted := Ascending(ReachSet(e.graph, p));
    var a, b := KeyedAll(e, p, listed), KeyedAll(e, p, sorted);
    KeyedSubset(e, p, listed, sorted);
    KeyedSubset(e, p, sorted, listed);
    assert DistinctBy(ProjectPath, a) && DistinctBy(ProjectPath, b) by {
      assert forall i :: 0 <= i < |a| ==> Id(listed[i]) == ProjectPath(a[i]);
      assert forall i :: 0 <= i < |b| ==> Id(sorted[i]) == ProjectPath(b[i]);
    }
    SameSetSameMultiset(ProjectPath, a, b);
    StreamIgnoresOrder(inputs, a, b);
  }

  lemma KeyedSubset(e: Evaluation, p: Path, xs: seq<Path>, ys: seq<Path>)
    requires !CycleBelow(e.graph, p) && AllReached(e.graph, p, xs) && AllReached(e.graph, p, ys)
    requires forall q :: q in xs ==> q in ys
    ensures forall k :: k in KeyedAll(e, p, xs) ==> k in KeyedAll(e, p, ys)
  {
    forall k | k in KeyedAll(e, p, xs) ensures k in KeyedAll(e, p, ys) {
      var i :| 0 <= i < |xs| && KeyedAll(e, p, xs)[i] == k;
      KeyedAllAt(e, p, xs, i);
      assert xs[i] in ys;
      var j :| 0 <= j < |ys| && ys[j] == xs[i];
      KeyedAllAt(e, p, ys, j);
    }
  }

  /** `EmitOneInWorkspace` up to its cache key: whatever the dictionary holds so
      far, the key computed is the defined one. */
  method KeyOfOne(e: Evaluation, p: Path, emitted: map<Path, Emitted>) returns (key: Digest)
    requires !CycleBelow(e.graph, p) && Recorded(e, emitted)
    requires forall d :: Reaches(e.graph, p, d) ==> d in emitted
    ensures key == Key(e, p)
  {
    var below := TransitiveClosurePaths(p, e.graph);
    DepsAreReached(e.graph, p);
    var depKeys, refs := LookUp(e, p, below, Deps(e.graph, p), emitted);
    ListingOrderIsIrrelevant(e, p, below, e.inputs(p, refs));
    key := ComputeKey(e.inputs(p, refs), depKeys, e.sha);
  }

  // ---- the whole closure ----

  datatype Emission = Ok(fromCache: bool, diagnostics: seq<string>) | Failed(reason: string)

  datatype Load = NotFound | LoadError | Loaded(refs: seq<Path>)

  datatype Outcome =
    | Built(dll: string, contentHash: Digest, fromCache: bool, diagnostics: seq<string>, transitiveRefs: seq<PeRef>)
    | EmitStopped(reason: string)
    | MissingProjectTfm(csproj: Path)
    | CycleFailure(at: Path)
    | CsprojNotFound(csproj: Path)
    | LoadFailed(csproj: Path)

  type Emit = (Path, Digest) -> Emission

  /** The references of the closure's projects below `p`, as the response lists them. */
  ghost function ResponseRefs(e: Evaluation, p: Path): seq<PeRef>
    requires !CycleBelow(e.graph, p)
  {
    DepsAreReached(e.graph, p);
    Substituted(e.cacheRoot, KeyedAll(e, p, Ascending(ReachSet(e.graph, p))))
  }

  ghost predicate Succeeds(e: Evaluation, emit: Emit, p: Path)
    requires !CycleBelow(e.graph, p)
  {
    emit(p, Key(e, p)).Ok?
  }

  /** Project `i` of the order is the first whose emit fails, and this is why. */
  ghost predicate FirstFailure(e: Evaluation, emit: Emit, order: seq<Path>, i: nat, reason: string)
    requires AcyclicAll(e, order) && i < |order|
  {
    && emit(order[i], Key(e, order[i])) == Failed(reason)
    && forall j :: 0 <= j < i ==> Succeeds(e, emit, order[j])
  }

  /** A project's entry in the response: its DLL under its defined key. */
  ghost function RefOf(e: Evaluation, p: Path): PeRef
    requires !CycleBelow(e.graph, p)
  {
    PeRef(p, FinalPath(e.cacheRoot, Key(e, p)))
  }

  ghost predicate Honest(e: Evaluation, r: PeRef) {
    !CycleBelow(e.graph, r.path) && r == RefOf(e, r.path)
  }

  lemma ResponseRefsSorted(e: Evaluation, top: Path)
    requires !CycleBelow(e.graph, top)
    ensures var want := ResponseRefs(e, top); SortedBy(PePath, want) && DistinctBy(PePath, want)
  {
    DepsAreReached(e.graph, top);
    var asc, want := Ascending(ReachSet(e.graph, top)), ResponseRefs(e, top);
    forall i, j | 0 <= i < j < |want|
      ensures AtMost(PePath(want[i]), PePath(want[j])) && PePath(want[i]) != PePath(want[j])
    {
      assert AtMost(Id(asc[i]), Id(asc[j])) && Id(asc[i]) != Id(asc[j]);
    }
  }

  lemma ResponseRefsAre(e: Evaluation, top: Path, r: PeRef)
    requires !CycleBelow(e.graph, top)
    ensures r in ResponseRefs(e, top) <==> Reaches(e.graph, top, r.path) && Honest(e, r)
  {
    DepsAreReached(e.graph, top);
    ReachSetIsReach(e.graph, top);
    var asc, want := Ascending(ReachSet(e.graph, top)), ResponseRefs(e, top);
    if r in want {
      var i :| 0 <= i < |want| && want[i] == r;
      KeyedAllAt(e, top, asc, i);
      assert asc[i] in asc;
    }
    if Reaches(e.graph, top, r.path) && Honest(e, r) {
      assert r.path in asc;
      var i :| 0 <= i < |asc| && asc[i] == r.path;
      KeyedAllAt(e, top, asc, i);
      assert want[i] == r;
    }
  }

  /** The sorted response lists exactly what lies below the top, each with the
      DLL of its key. */
  lemma SortedRefsAreReach(e: Evaluation, top: Path, refs: seq<PeRef>)
    requires !CycleBelow(e.graph, top)
    requires DistinctBy(PePath, refs)
    requires forall r :: r in refs <==> Reaches(e.graph, top, r.path) && Honest(e, r)
    ensures OrderBy(PePath, refs) == ResponseRefs(e, top)
  {
    var want := ResponseRefs(e, top);
    forall r ensures r in refs <==> r in want { ResponseRefsAre(e, top, r); }
    ResponseRefsSorted(e, top);
    SameSetSameMultiset(PePath, refs, want);
    OrderBySorted(PePath, refs);
    DistinctKeys(PePath, refs);
    SortedIsCanonical(PePath, OrderBy(PePath, refs), want);
  }

  ghost predicate AcyclicAll(e: Evaluation, ps: seq<Path>) {
    forall p :: p in ps ==> !CycleBelow(e.graph, p)
  }

  ghost predicate AllSucceed(e: Evaluation, emit: Emit, ps: seq<Path>)
    requires AcyclicAll(e, ps)
  {
    forall p :: p in ps ==> Succeeds(e, emit, p)
  }

  /** The compiler diagnostics of the emits of `ps`, in that order. */
  ghost function Diagnostics(e: Evaluation, emit: Emit, ps: seq<Path>): seq<string>
    requires AcyclicAll(e, ps)
  {
    if ps == [] then []
    else
      var p := ps[|ps| - 1];
      Diagnostics(e, emit, ps[..|ps| - 1]) + (match emit(p, Key(e, p)) case Ok(_, ds) => ds case Failed(_) => [])
  }

  ghost function RefsOf(e: Evaluation, ps: seq<Path>): (r: seq<PeRef>)
    requires AcyclicAll(e, ps)
    ensures |r| == |ps| && forall i :: 0 <= i < |ps| ==> r[i] == RefOf(e, ps[i])
  {
    seq(|ps|, i requires 0 <= i < |ps| => RefOf(e, ps[i]))
  }

  ghost function Table(e: Evaluation, ps: seq<Path>): map<Path, Emitted>
    requires AcyclicAll(e, ps)
  {
    map p | p in ps :: Emitted(Key(e, p), FinalPath(e.cacheRoot, Key(e, p)))
  }

  lemma DiagnosticsOfOneMore(e: Evaluation, emit: Emit, ps: seq<Path>, p: Path)
    requires AcyclicAll(e, ps + [p]) && AcyclicAll(e, ps)
    requires !CycleBelow(e.graph, p) && Succeeds(e, emit, p)
    ensures Diagnostics(e, emit, ps + [p]) == Diagnostics(e, emit, ps) + emit(p, Key(e, p)).diagnostics
  {
    assert (ps + [p])[..|ps|] == ps;
  }

  lemma TableOfOneMore(e: Evaluation, ps: seq<Path>, p: Path)
    requires AcyclicAll(e, ps + [p]) && AcyclicAll(e, ps) && !CycleBelow(e.graph, p)
    ensures Table(e, ps + [p]) == Table(e, ps)[p := Emitted(Key(e, p), FinalPath(e.cacheRoot, Key(e, p)))]
  {
    Lists.Grown(Table(e, ps), Table(e, ps + [p]), p, Emitted(Key(e, p), FinalPath(e.cacheRoot, Key(e, p))));
  }

  lemma RefsOfOneMore(e: Evaluation, ps: seq<Path>, p: Path)
    requires AcyclicAll(e, ps + [p]) && AcyclicAll(e, ps) && !CycleBelow(e.graph, p)
    ensures RefsOf(e, ps + [p]) == RefsOf(e, ps) + [RefOf(e, p)]
  {
    var all := ps + [p];
    forall i | 0 <= i < |all| ensures RefsOf(e, all)[i] == (RefsOf(e, ps) + [RefOf(e, p)])[i] {
      assert all[i] == if i < |ps| then ps[i] else p;
    }
  }

  lemma OneMore(e: Evaluation, emit: Emit, order: seq<Path>, i: nat)
    requires AcyclicAll(e, order) && i < |order|
    ensures AcyclicAll(e, order[..i]) && AcyclicAll(e, order[..i + 1])
    ensures order[i] in order
    ensures Table(e, order[..i + 1])
      == Table(e, order[..i])[order[i] := Emitted(Key(e, order[i]), FinalPath(e.cacheRoot, Key(e, order[i])))]
    ensures RefsOf(e, order[..i + 1]) == RefsOf(e, order[..i]) + [RefOf(e, order[i])]
    ensures Succeeds(e, emit, order[i]) ==>
      Diagnostics(e, emit, order[..i + 1])
        == Diagnostics(e, emit, order[..i]) + emit(order[i], Key(e, order[i])).diagnostics
    ensures AllSucceed(e, emit, order[..i]) && Succeeds(e, emit, order[i]) ==> AllSucceed(e, emit, order[..i + 1])
  {
    Lists.Snoc(order, i);
    forall p | p in order[..i + 1] ensures p in order { }
    assert order[i] in order;
    TableOfOneMore(e, order[..i], order[i]);
    RefsOfOneMore(e, order[..i], order[i]);
    if Succeeds(e, emit, order[i]) { DiagnosticsOfOneMore(e, emit, order[..i], order[i]); }
  }

  lemma OrderIsAcyclic(e: Evaluation, top: Path, order: seq<Path>)
    requires TopoOrder(e.graph, top) == Done(order)
    ensures !CycleBelow(e.graph, top) && AcyclicAll(e, order)
    ensures order != [] && order[|order| - 1] == top
    ensures forall i :: 0 <= i < |order| - 1 ==> order[i] != top
  {
    TopoOrderCorrect(e.graph, top);
    forall p | p in order ensures !CycleBelow(e.graph, p) {
      if p != top { ReachShrinks(e.graph, top, p); }
    }
  }

  lemma ReachedAreInTable(e: Evaluation, top: Path, order: seq<Path>, i: nat)
    requires TopoOrder(e.graph, top) == Done(order) && AcyclicAll(e, order) && i < |order|
    ensures AcyclicAll(e, order[..i]) && Recorded(e, Table(e, order[..i]))
    ensures forall d :: Reaches(e.graph, order[i], d) ==> d in Table(e, order[..i])
  {
    TopoOrderCorrect(e.graph, top);
    forall d | Reaches(e.graph, order[i], d) ensures d in Table(e, order[..i]) {
      ReachedComesEarlier(e.graph, order, i, d);
    }
  }

  /** What the loop returns: the top's DLL under its defined key, everything
      below it once in path order, and every diagnostic; or the first failure
      in leaves-first order. */
  ghost predicate EmitResult(e: Evaluation, emit: Emit, top: Path, order: seq<Path>, r: Outcome)
    requires !CycleBelow(e.graph, top) && AcyclicAll(e, order) && order != []
  {
    if AllSucceed(e, emit, order) then
      match emit(top, Key(e, top))
      case Failed(_) => false
      case Ok(fromCache, diagnostics) =>
        r == Built(FinalPath(e.cacheRoot, Key(e, top)), Key(e, top), fromCache,
                   diagnostics + Diagnostics(e, emit, order[..|order| - 1]), ResponseRefs(e, top))
    else
      r.EmitStopped? && exists i :: 0 <= i < |order| && FirstFailure(e, emit, order, i, r.reason)
  }

  /** The loop's collections after its first `i` projects. */
  datatype Progress = Progress(emitted: map<Path, Emitted>, refs: seq<PeRef>, diagnostics: seq<string>, top: Emission)

  ghost predicate After(e: Evaluation, emit: Emit, top: Path, order: seq<Path>, i: nat, s: Progress)
    requires order != [] && AcyclicAll(e, order) && !CycleBelow(e.graph, top) && i <= |order|
  {
    var n := |order| - 1;
    var m := if i <= n then i else n;
    && AcyclicAll(e, order[..i]) && AcyclicAll(e, order[..m])
    && s.emitted == Table(e, order[..i])
    && AllSucceed(e, emit, order[..i])
    && s.refs == RefsOf(e, order[..m])
    && s.diagnostics == Diagnostics(e, emit, order[..m])
    && (i > n ==> s.top == emit(top, Key(e, top)))
  }

  /** One turn of the loop for a project whose emit succeeded. */
  function Turn(e: Evaluation, top: Path, p: Path, key: Digest, emission: Emission, s: Progress): Progress
    requires emission.Ok?
  {
    var dll := FinalPath(e.cacheRoot, key);
    var recorded := s.(emitted := s.emitted[p := Emitted(key, dll)]);
    if p == top then recorded.(top := emission)
    else recorded.(refs := s.refs + [PeRef(p, dll)], diagnostics := s.diagnostics + emission.diagnostics)
  }

  lemma TurnIsRight(e: Evaluation, emit: Emit, top: Path, order: seq<Path>, i: nat, s: Progress)
    requires TopoOrder(e.graph, top) == Done(order) && order != []
    requires AcyclicAll(e, order) && !CycleBelow(e.graph, top) && i < |order|
    requires After(e, emit, top, order, i, s) && Succeeds(e, emit, order[i])
    ensures After(e, emit, top, order, i + 1,
                  Turn(e, top, order[i], Key(e, order[i]), emit(order[i], Key(e, order[i])), s))
  {
    OrderIsAcyclic(e, top, order);
    OneMore(e, emit, order, i);
  }

  lemma LoopDone(e: Evaluation, emit: Emit, top: Path, order: seq<Path>, s: Progress)
    requires TopoOrder(e.graph, top) == Done(order) && order != []
    requires AcyclicAll(e, order) && !CycleBelow(e.graph, top)
    requires After(e, emit, top, order, |order|, s)
    ensures top in s.emitted && s.top.Ok?
    ensures EmitResult(e, emit, top, order,
      Built(s.emitted[top].dll, s.emitted[top].key, s.top.fromCache,
            s.top.diagnostics + s.diagnostics, OrderBy(PePath, s.refs)))
  {
    OrderIsAcyclic(e, top, order);
    assert order[..|order|] == order;
    assert top in order && Succeeds(e, emit, top);
    EmittedRefsCoverReach(e, top, order);
  }

  datatype Next = Continue(progress: Progress) | Stop(reason: string)

  /** The body of the loop: everything project `i` needs is in the dictionary. */
  method EmitNext(e: Evaluation, emit: Emit, top: Path, order: seq<Path>, i: nat, s: Progress) returns (next: Next)
    requires TopoOrder(e.graph, top) == Done(order) && order != []
    requires AcyclicAll(e, order) && !CycleBelow(e.graph, top) && i < |order|
    requires After(e, emit, top, order, i, s)
    ensures next.Continue? ==> After(e, emit, top, order, i + 1, next.progress)
    ensures next.Stop? ==> EmitResult(e, emit, top, order, EmitStopped(next.reason))
  {
    var p := order[i];
    ReachedAreInTable(e, top, order, i);
    var key := KeyOfOne(e, p, s.emitted);
    var emission := emit(p, key);
    if emission.Failed? {
      Stopped(e, emit, top, order, i);
      return Stop(emission.reason);
    }
    TurnIsRight(e, emit, top, order, i, s);
    next := Continue(Turn(e, top, p, key, emission, s));
  }

  /** The leaves-first loop over an order the topological sort returned. */
  method EmitInOrder(e: Evaluation, emit: Emit, top: Path, order: seq<Path>) returns (r: Outcome)
    requires TopoOrder(e.graph, top) == Done(order)
    ensures !CycleBelow(e.graph, top) && AcyclicAll(e, order) && order != []
    ensures EmitResult(e, emit, top, order, r)
  {
    OrderIsAcyclic(e, top, order);
    var s := Progress(map[], [], [], Failed(""));
    AtStart(e, emit, top, order);
    var i := 0;
    while i < |order|
      invariant 0 <= i <= |order|
      invariant After(e, emit, top, order, i, s)
    {
      var next := EmitNext(e, emit, top, order, i, s);
      if next.Stop? {
        return EmitStopped(next.reason);
      }
      s := next.progress;
      i := i + 1;
    }
    LoopDone(e, emit, top, order, s);
    r := Built(s.emitted[top].dll, s.emitted[top].key, s.top.fromCache,
               s.top.diagnostics + s.diagnostics, OrderBy(PePath, s.refs));
  }

  lemma AtStart(e: Evaluation, emit: Emit, top: Path, order: seq<Path>)
    requires order != [] && AcyclicAll(e, order) && !CycleBelow(e.graph, top)
    ensures After(e, emit, top, order, 0, Progress(map[], [], [], Failed("")))
  {
    assert order[..0] == [];
  }

  lemma Stopped(e: Evaluation, emit: Emit, top: Path, order: seq<Path>, i: nat)
    requires AcyclicAll(e, order) && i < |order| && AcyclicAll(e, order[..i]) && !CycleBelow(e.graph, top)
    requires AllSucceed(e, emit, order[..i]) && emit(order[i], Key(e, order[i])).Failed?
    ensures EmitResult(e, emit, top, order, EmitStopped(emit(order[i], Key(e, order[i])).reason))
  {
    assert order[i] in order && !Succeeds(e, emit, order[i]);
    forall j | 0 <= j < i ensures Succeeds(e, emit, order[j]) {
      assert order[j] in order[..i];
    }
    assert FirstFailure(e, emit, order, i, emit(order[i], Key(e, order[i])).reason);
  }

  lemma EmittedRefsCoverReach(e: Evaluation, top: Path, order: seq<Path>)
    requires TopoOrder(e.graph, top) == Done(order) && order != []
    requires AcyclicAll(e, order) && AcyclicAll(e, order[..|order| - 1])
    ensures !CycleBelow(e.graph, top)
    ensures OrderBy(PePath, RefsOf(e, order[..|order| - 1])) == ResponseRefs(e, top)
  {
    TopoOrderCorrect(e.graph, top);
    var n := |order| - 1;
    var below := order[..n];
    forall q ensures q in below <==> Reaches(e.graph, top, q) {
      if Reaches(e.graph, top, q) { ReachedComesEarlier(e.graph, order, n, q); }
      if q in below { assert q in order && q != top; }
    }
    var refs := RefsOf(e, below);
    forall r ensures r in refs <==> Reaches(e.graph, top, r.path) && Honest(e, r) { RefsAreHonest(e, below, r); }
    SortedRefsAreReach(e, top, refs);
  }

  lemma RefsAreHonest(e: Evaluation, ps: seq<Path>, r: PeRef)
    requires AcyclicAll(e, ps)
    ensures r in RefsOf(e, ps) <==> r.path in ps && Honest(e, r)
  {
    var refs := RefsOf(e, ps);
    if r.path in ps && Honest(e, r) {
      var i :| 0 <= i < |ps| && ps[i] == r.path;
      assert refs[i] == r;
    }
  }

  // ---- from the request to the loop: loads, coverage, cycles ----

  ghost predicate AllLoad(top: Path, tfms: seq<Path>, load: Path -> Load) {
    forall p :: p in tfms ==> p == top || load(p).Loaded?
  }

  /** The edges read from each project's own workspace. */
  ghost function Evaluated(top: Path, topRefs: seq<Path>, tfms: seq<Path>, load: Path -> Load): Graph
    requires AllLoad(top, tfms, load)
  {
    map p | p in [top] + tfms :: if p == top then topRefs else load(p).refs
  }

  /** Every dependency any loaded project has is itself in the closure map. */
  ghost predicate Covered(g: Graph, tfms: seq<Path>) {
    forall p, d :: p in g && d in g[p] ==> d in tfms
  }

  datatype Workspaces = Opened(graph: Graph) | OpenFailed(outcome: Outcome)

  ghost predicate FirstLoadFailure(top: Path, tfms: seq<Path>, load: Path -> Load, i: nat, r: Outcome)
    requires i < |tfms|
  {
    && tfms[i] != top && AllLoad(top, tfms[..i], load)
    && match load(tfms[i])
       case NotFound => r == CsprojNotFound(tfms[i])
       case LoadError => r == LoadFailed(tfms[i])
       case Loaded(_) => false
  }

  method OpenWorkspaces(top: Path, topRefs: seq<Path>, tfms: seq<Path>, load: Path -> Load) returns (r: Workspaces)
    ensures AllLoad(top, tfms, load) ==> r == Opened(Evaluated(top, topRefs, tfms, load))
    ensures !AllLoad(top, tfms, load) ==>
      r.OpenFailed? && exists i :: 0 <= i < |tfms| && FirstLoadFailure(top, tfms, load, i, r.outcome)
  {
    var g: Graph := map[top := topRefs];
    for i := 0 to |tfms|
      invariant AllLoad(top, tfms[..i], load)
      invariant g == Evaluated(top, topRefs, tfms[..i], load)
    {
      var path := tfms[i];
      assert tfms[..i + 1] == tfms[..i] + [path];
      if path != top {
        match load(path)
        case NotFound =>
          assert path in tfms && FirstLoadFailure(top, tfms, load, i, CsprojNotFound(path));
          return OpenFailed(CsprojNotFound(path));
        case LoadError =>
          assert path in tfms && FirstLoadFailure(top, tfms, load, i, LoadFailed(path));
          return OpenFailed(LoadFailed(path));
        case Loaded(refs) =>
          g := g[path := refs];
      }
    }
    assert tfms[..|tfms|] == tfms;
    r := Opened(g);
  }

  /** Project `i` is the first with an uncovered dependency, and `missing` the
      first such dependency it lists. */
  ghost predicate FirstMissing(listed: seq<Path>, g: Graph, tfms: seq<Path>, i: nat, missing: Path)
    requires i < |listed| && forall p :: p in listed ==> p in g
  {
    && (forall k, d :: 0 <= k < i && d in g[listed[k]] ==> d in tfms)
    && exists j :: 0 <= j < |g[listed[i]]| && g[listed[i]][j] == missing && missing !in tfms
                && forall k :: 0 <= k < j ==> g[listed[i]][k] in tfms
  }

  /** The first dependency the closure map does not know, in workspace order. */
  method FindMissing(listed: seq<Path>, g: Graph, tfms: seq<Path>) returns (missing: seq<Path>)
    requires forall p :: p in listed <==> p in g
    ensures missing == [] <==> Covered(g, tfms)
    ensures missing != [] ==>
      |missing| == 1 && exists i :: 0 <= i < |listed| && FirstMissing(listed, g, tfms, i, missing[0])
  {
    for i := 0 to |listed|
      invariant forall k, d :: 0 <= k < i && d in g[listed[k]] ==> d in tfms
    {
      var deps := g[listed[i]];
      for j := 0 to |deps|
        invariant forall k :: 0 <= k < j ==> deps[k] in tfms
      {
        if deps[j] !in tfms {
          missing := [deps[j]];
          assert FirstMissing(listed, g, tfms, i, missing[0]);
          return;
        }
      }
    }
    missing := [];
    forall p, d | p in g && d in g[p] ensures d in tfms {
      assert p in listed;
    }
  }

  /** `EmitClosure`: a load failure or an uncovered dependency is reported
      before anything is built; otherwise the build fails on a cycle exactly
      when one is reachable from the top, and emits leaves-first when none is. */
  method EmitClosure(top: Path, topRefs: seq<Path>, tfms: seq<Path>, load: Path -> Load,
                     inputs: (Path, seq<PeRef>) -> ProjectInputs, cacheRoot: string, sha: Sha, emit: Emit)
    returns (r: Outcome)
    ensures !AllLoad(top, tfms, load) ==> exists i :: 0 <= i < |tfms| && FirstLoadFailure(top, tfms, load, i, r)
    ensures AllLoad(top, tfms, load) ==>
      var g := Evaluated(top, topRefs, tfms, load);
      var e := Evaluation(g, inputs, cacheRoot, sha);
      if !Covered(g, tfms) then
        r.MissingProjectTfm? && exists i :: 0 <= i < 1 + |tfms| && FirstMissing([top] + tfms, g, tfms, i, r.csproj)
      else if CycleBelow(g, top) then
        r.CycleFailure? && ReachesOrIs(g, top, r.at) && Reaches(g, r.at, r.at)
      else
        && TopoOrder(g, top).Done?
        && AcyclicAll(e, TopoOrder(g, top).order) && TopoOrder(g, top).order != []
        && EmitResult(e, emit, top, TopoOrder(g, top).order, r)
  {
    var workspaces := OpenWorkspaces(top, topRefs, tfms, load);
    if workspaces.OpenFailed? {
      return workspaces.outcome;
    }
    var g := workspaces.graph;
    var missing := FindMissing([top] + tfms, g, tfms);
    if missing != [] {
      return MissingProjectTfm(missing[0]);
    }
    TopoOrderCorrect(g, top);
    var sorted := TopoSortByPaths(top, g);
    match sorted
    case Cycle(at) => r := CycleFailure(at);
    case Done(order) => r := EmitInOrder(Evaluation(g, inputs, cacheRoot, sha), emit, top, order);
  }

  // ---- equal keys, equal closures ----

  ghost function InputsOf(e: Evaluation, p: Path): ProjectInputs
    requires !CycleBelow(e.graph, p)
  {
    DepsAreReached(e.graph, p);
    e.inputs(p, Substituted(e.cacheRoot, KeyedAll(e, p, Deps(e.graph, p))))
  }

  ghost function KeysBelow(e: Evaluation, p: Path): seq<KeyedProject>
    requires !CycleBelow(e.graph, p)
  {
    DepsAreReached(e.graph, p);
    KeyedAll(e, p, Ascending(ReachSet(e.graph, p)))
  }

  /** Equal up to the path sort `ComputeKey` applies to the documents. */
  ghost predicate SameInputs(a: ProjectInputs, b: ProjectInputs) {
    && a.csproj == b.csproj && a.detKey == b.detKey
    && OrderBy(PathKey, a.additional) == OrderBy(PathKey, b.additional)
    && OrderBy(PathKey, a.config) == OrderBy(PathKey, b.config)
  }

  /** The two builds hash no two different streams to one digest. */
  ghost predicate NoCollision(e: Evaluation, f: Evaluation, top: Path) {
    forall p :: ReachesOrIs(e.graph, top, p) && ReachesOrIs(f.graph, top, p)
             && !CycleBelow(e.graph, p) && !CycleBelow(f.graph, p)
             && Key(e, p) == Key(f, p)
             ==> KeyStream(e, p) == KeyStream(f, p)
  }

  ghost predicate EncodableAt(e: Evaluation, p: Path) {
    !CycleBelow(e.graph, p) ==> Encodable(InputsOf(e, p), KeysBelow(e, p))
  }

  lemma KeysBelowSorted(e: Evaluation, p: Path)
    requires !CycleBelow(e.graph, p)
    ensures OrderBy(ProjectPath, KeysBelow(e, p)) == KeysBelow(e, p)
  {
    DepsAreReached(e.graph, p);
    var asc, ks := Ascending(ReachSet(e.graph, p)), KeysBelow(e, p);
    forall i, j | 0 <= i < j < |ks|
      ensures AtMost(ProjectPath(ks[i]), ProjectPath(ks[j])) && ProjectPath(ks[i]) != ProjectPath(ks[j])
    {
      assert AtMost(Id(asc[i]), Id(asc[j])) && Id(asc[i]) != Id(asc[j]);
    }
    OrderBySorted(ProjectPath, ks);
    DistinctKeys(ProjectPath, ks);
    SortedIsCanonical(ProjectPath, ks, OrderBy(ProjectPath, ks));
  }

  lemma KeysBelowAre(e: Evaluation, p: Path, k: KeyedProject)
    requires !CycleBelow(e.graph, p)
    ensures k in KeysBelow(e, p) <==>
      Reaches(e.graph, p, k.path) && !CycleBelow(e.graph, k.path) && k.key == Key(e, k.path)
  {
    DepsAreReached(e.graph, p);
    ReachSetIsReach(e.graph, p);
    var asc, ks := Ascending(ReachSet(e.graph, p)), KeysBelow(e, p);
    if k in ks {
      var i :| 0 <= i < |ks| && ks[i] == k;
      KeyedAllAt(e, p, asc, i);
      assert asc[i] in asc;
    }
    if Reaches(e.graph, p, k.path) && !CycleBelow(e.graph, k.path) && k.key == Key(e, k.path) {
      assert k.path in asc;
      var i :| 0 <= i < |asc| && asc[i] == k.path;
      KeyedAllAt(e, p, asc, i);
      assert ks[i] == k;
    }
  }

  /** One level: equal keys mean equal inputs and equal keys below. */
  lemma EqualKeysOneLevel(e: Evaluation, f: Evaluation, top: Path, p: Path)
    requires NoCollision(e, f, top)
    requires ReachesOrIs(e.graph, top, p) && ReachesOrIs(f.graph, top, p)
    requires !CycleBelow(e.graph, p) && !CycleBelow(f.graph, p)
    requires EncodableAt(e, p) && EncodableAt(f, p)
    requires Key(e, p) == Key(f, p)
    ensures SameInputs(InputsOf(e, p), InputsOf(f, p))
    ensures KeysBelow(e, p) == KeysBelow(f, p)
  {
    assert KeyStream(e, p) == Stream(InputsOf(e, p), KeysBelow(e, p));
    assert KeyStream(f, p) == Stream(InputsOf(f, p), KeysBelow(f, p));
    StreamInjective(InputsOf(e, p), KeysBelow(e, p), InputsOf(f, p), KeysBelow(f, p));
    KeysBelowSorted(e, p);
    KeysBelowSorted(f, p);
  }

  /** The Merkle property: if two builds give the top one key, they have the
      same closure, and every project in it has the same key and inputs. */
  lemma EqualKeysEqualClosures(e: Evaluation, f: Evaluation, top: Path)
    requires !CycleBelow(e.graph, top) && !CycleBelow(f.graph, top)
    requires NoCollision(e, f, top)
    requires forall p :: ReachesOrIs(e.graph, top, p) ==> EncodableAt(e, p)
    requires forall p :: ReachesOrIs(f.graph, top, p) ==> EncodableAt(f, p)
    requires Key(e, top) == Key(f, top)
    ensures forall p :: Reaches(e.graph, top, p) <==> Reaches(f.graph, top, p)
    ensures forall p :: ReachesOrIs(e.graph, top, p) ==>
      && !CycleBelow(e.graph, p) && !CycleBelow(f.graph, p)
      && Key(e, p) == Key(f, p)
      && SameInputs(InputsOf(e, p), InputsOf(f, p))
  {
    EqualKeysOneLevel(e, f, top, top);
    forall p ensures Reaches(e.graph, top, p) <==> Reaches(f.graph, top, p) {
      if Reaches(e.graph, top, p) {
        ReachShrinks(e.graph, top, p);
        KeysBelowAre(e, top, KeyedProject(p, Key(e, p)));
        KeysBelowAre(f, top, KeyedProject(p, Key(e, p)));
      }
      if Reaches(f.graph, top, p) {
        ReachShrinks(f.graph, top, p);
        KeysBelowAre(f, top, KeyedProject(p, Key(f, p)));
        KeysBelowAre(e, top, KeyedProject(p, Key(f, p)));
      }
    }
    forall p | ReachesOrIs(e.graph, top, p)
      ensures && !CycleBelow(e.graph, p) && !CycleBelow(f.graph, p)
        && Key(e, p) == Key(f, p) && SameInputs(InputsOf(e, p), InputsOf(f, p))
    {
      if p != top {
        ReachShrinks(e.graph, top, p);
        KeysBelowAre(e, top, KeyedProject(p, Key(e, p)));
        KeysBelowAre(f, top, KeyedProject(p, Key(e, p)));
        EqualKeysOneLevel(e, f, top, p);
      }
    }
  }
}
