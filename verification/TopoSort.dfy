/** `TopoSortByPaths` and `TransitiveClosurePaths`: the two graph walks that
    decide what the closure build emits, and in which order. */
module TopoSort {
  import Lists
  import opened Ordinal
  import opened ProjectGraph

  /** What the walk returns, or the path whose back edge it throws on. */
  datatype Sorted = Cycle(at: Path) | Done(order: seq<Path>)

  // ---- specification: depth-first search over dependency *sets* ----

  ghost function Dfs(g: Graph, stack: set<Path>, order: seq<Path>, p: Path): Sorted
    decreases |g.Keys - stack|, 0
  {
    if p in order then Done(order)
    else if p in stack then Cycle(p)
    else if p !in g then Done(order + [p])
    else
      assert g.Keys - (stack + {p}) < g.Keys - stack;
      ProperSubsetIsSmaller(g.Keys - (stack + {p}), g.Keys - stack);
      match DfsAll(g, stack + {p}, order, Ascending(DepSet(g, p)))
      case Cycle(q) => Cycle(q)
      case Done(o) => Done(o + [p])
  }

  ghost function DfsAll(g: Graph, stack: set<Path>, order: seq<Path>, ds: seq<Path>): Sorted
    decreases |g.Keys - stack|, 1 + |ds|
  {
    if ds == [] then Done(order)
    else match Dfs(g, stack, order, ds[0])
         case Cycle(q) => Cycle(q)
         case Done(o) => DfsAll(g, stack, o, ds[1..])
  }

  // ---- the order is a function of the dependency sets alone ----

  lemma VisitContains(g: Graph, stack: set<Path>, order: seq<Path>, p: Path)
    ensures Dfs(g, stack, order, p).Done? ==> p in Dfs(g, stack, order, p).order
  {
  }

  lemma {:induction false} VisitAllAgain(g: Graph, stack: set<Path>, order: seq<Path>, ds: seq<Path>)
    ensures forall p :: p in order ==> DfsAll(g, stack, order, [p] + ds) == DfsAll(g, stack, order, ds)
  {
    forall p | p in order ensures DfsAll(g, stack, order, [p] + ds) == DfsAll(g, stack, order, ds) {
      assert ([p] + ds)[1..] == ds;
    }
  }

  function Dedup(xs: seq<Path>): seq<Path> {
    if |xs| < 2 then xs
    else if xs[0] == xs[1] then Dedup(xs[1..])
    else [xs[0]] + Dedup(xs[1..])
  }

  lemma {:induction false} DedupAscends(xs: seq<Path>)
    requires SortedBy(Id, xs)
    ensures IsAscending(Dedup(xs), set p | p in xs)
    ensures xs != [] ==> Dedup(xs) != [] && Dedup(xs)[0] == xs[0]
    decreases |xs|
  {
    if |xs| >= 2 {
      DedupAscends(xs[1..]);
      var x, r := xs[0], Dedup(xs[1..]);
      var s := set p | p in xs[1..];
      assert (set p | p in xs) == s + {x} by { Lists.Uncons(xs); }
      if x == xs[1] {
        assert xs[1..][0] in s;
        assert s + {x} == s;
      } else {
        forall p | p in r ensures AtMost(x, p) && x != p {
          assert p in s;
          var k :| 1 <= k < |xs| && xs[k] == p;
          NewHeadIsLess(xs, k);
        }
        ConsAscends(x, r, s);
      }
    }
  }

  lemma ConsAscends(x: Path, r: seq<Path>, s: set<Path>)
    requires IsAscending(r, s) && forall p :: p in r ==> AtMost(x, p) && x != p
    ensures IsAscending([x] + r, s + {x})
  {
    var xs := [x] + r;
    forall i, j | 0 <= i < j < |xs| ensures AtMost(Id(xs[i]), Id(xs[j])) && Id(xs[i]) != Id(xs[j]) {
      assert xs[j] == r[j - 1] && r[j - 1] in r;
      if i > 0 { assert xs[i] == r[i - 1] && AtMost(Id(r[i - 1]), Id(r[j - 1])) && Id(r[i - 1]) != Id(r[j - 1]); }
    }
  }

  /** A head that differs from its neighbour differs from everything behind. */
  lemma NewHeadIsLess(xs: seq<Path>, k: nat)
    requires SortedBy(Id, xs) && 1 <= k < |xs| && xs[0] != xs[1]
    ensures AtMost(xs[0], xs[k]) && xs[0] != xs[k]
  {
    assert AtMost(Id(xs[0]), Id(xs[1])) && AtMost(Id(xs[0]), Id(xs[k]));
    if k > 1 && xs[k] == xs[0] {
      assert AtMost(Id(xs[1]), Id(xs[k]));
      AtMostAntisymmetric(xs[0], xs[1]);
    }
  }

  lemma {:induction false} VisitingRepeats(g: Graph, stack: set<Path>, order: seq<Path>, xs: seq<Path>)
    ensures DfsAll(g, stack, order, xs) == DfsAll(g, stack, order, Dedup(xs))
    decreases |xs|
  {
    if |xs| >= 2 {
      var first := Dfs(g, stack, order, xs[0]);
      if first.Done? {
        VisitingRepeats(g, stack, first.order, xs[1..]);
        VisitingRepeats(g, stack, order, xs[1..]);
        VisitContains(g, stack, order, xs[0]);
        if xs[0] == xs[1] {
          VisitAllAgain(g, stack, first.order, xs[2..]);
          assert xs[1..] == [xs[0]] + xs[2..];
          assert DfsAll(g, stack, order, xs[1..]) == DfsAll(g, stack, first.order, xs[2..]);
        } else {
          assert Dedup(xs)[1..] == Dedup(xs[1..]);
        }
      } else if xs[0] == xs[1] {
        VisitingRepeats(g, stack, order, xs[1..]);
        assert DfsAll(g, stack, order, xs[1..]) == first;
      }
    }
  }

  /** Visiting the sorted list of references is visiting their ascending set. */
  lemma SortedListIsSet(g: Graph, stack: set<Path>, order: seq<Path>, ds: seq<Path>)
    ensures DfsAll(g, stack, order, OrderBy(Id, ds))
         == DfsAll(g, stack, order, Ascending(set d | d in ds))
  {
    var xs := OrderBy(Id, ds);
    OrderBySorted(Id, ds);
    DedupAscends(xs);
    SameElements(xs, ds);
    assert (set p | p in xs) == (set d | d in ds);
    AscendingIsUnique(Dedup(xs), set d | d in ds);
    VisitingRepeats(g, stack, order, xs);
  }

  /** Two graphs that agree on every dependency set sort alike, whatever order
      or repetition their reference lists have; a project without an entry is
      one without references. */
  lemma {:induction false} OrderDependsOnSetsOnly(g: Graph, h: Graph, stack: set<Path>, order: seq<Path>, p: Path)
    requires forall q :: DepSet(g, q) == DepSet(h, q)
    ensures Dfs(g, stack, order, p) == Dfs(h, stack, order, p)
    decreases |g.Keys - stack|, 0
  {
    if p !in order && p !in stack && p in g {
      assert g.Keys - (stack + {p}) < g.Keys - stack;
      ProperSubsetIsSmaller(g.Keys - (stack + {p}), g.Keys - stack);
      OrderOfListDependsOnSetsOnly(g, h, stack + {p}, order, Ascending(DepSet(g, p)));
    }
  }

  lemma {:induction false} OrderOfListDependsOnSetsOnly(
    g: Graph, h: Graph, stack: set<Path>, order: seq<Path>, ds: seq<Path>)
    requires forall q :: DepSet(g, q) == DepSet(h, q)
    ensures DfsAll(g, stack, order, ds) == DfsAll(h, stack, order, ds)
    decreases |g.Keys - stack|, 1 + |ds|
  {
    if ds != [] {
      OrderDependsOnSetsOnly(g, h, stack, order, ds[0]);
      var first := Dfs(g, stack, order, ds[0]);
      if first.Done? {
        OrderOfListDependsOnSetsOnly(g, h, stack, first.order, ds[1..]);
      }
    }
  }

  // ---- what a finished walk returns ----

  ghost predicate BelowAny(g: Graph, ds: seq<Path>, q: Path) {
    exists i :: 0 <= i < |ds| && ReachesOrIs(g, ds[i], q)
  }

  /** `after` extends `before`, stays leaves-first, and adds only what `ds` reach. */
  ghost predicate Extends(g: Graph, before: seq<Path>, after: seq<Path>, ds: seq<Path>) {
    && before <= after
    && LeavesFirst(g, after)
    && (forall q :: q in after ==> q in before || BelowAny(g, ds, q))
  }

  lemma AppendLeavesFirst(g: Graph, order: seq<Path>, p: Path)
    requires LeavesFirst(g, order) && p !in order
    requires forall d :: d in Deps(g, p) ==> d in order
    ensures LeavesFirst(g, order + [p])
  {
    var o := order + [p];
    forall i, d | 0 <= i < |o| && d in Deps(g, o[i]) ensures d in o[..i] {
      if i < |order| { assert o[..i] == order[..i]; } else { assert o[..i] == order; }
    }
  }

  lemma {:induction false} VisitDone(g: Graph, stack: set<Path>, order: seq<Path>, p: Path)
    requires LeavesFirst(g, order) && stack !! (set q | q in order)
    requires Dfs(g, stack, order, p).Done?
    ensures var o := Dfs(g, stack, order, p).order;
      && Extends(g, order, o, [p])
      && p in o
      && stack !! (set q | q in o)
      && (p !in order ==> o[|o| - 1] == p)
    decreases |g.Keys - stack|, 0
  {
    if p in order {
    } else if p !in g {
      AppendLeavesFirst(g, order, p);
    } else {
      var ds := Ascending(DepSet(g, p));
      assert g.Keys - (stack + {p}) < g.Keys - stack;
      ProperSubsetIsSmaller(g.Keys - (stack + {p}), g.Keys - stack);
      VisitAllDone(g, stack + {p}, order, ds);
      var o := DfsAll(g, stack + {p}, order, ds).order;
      assert p !in o by { assert p in stack + {p}; }
      ProjectBehind(g, order, o, p, ds);
    }
  }

  /** A project goes behind what its dependencies added. */
  lemma ProjectBehind(g: Graph, order: seq<Path>, o: seq<Path>, p: Path, ds: seq<Path>)
    requires Extends(g, order, o, ds) && p !in o && IsAscending(ds, DepSet(g, p)) && forall d :: d in ds ==> d in o
    ensures Extends(g, order, o + [p], [p])
  {
    forall d | d in Deps(g, p) ensures d in o {
      assert d in DepSet(g, p) && d in ds;
    }
    AppendLeavesFirst(g, o, p);
    forall q | q in o + [p] ensures q in order || BelowAny(g, [p], q) {
      if q == p {
        assert ReachesOrIs(g, [p][0], q);
      } else if q !in order {
        DependencyBelow(g, p, ds, q);
      }
    }
  }

  lemma DependencyBelow(g: Graph, p: Path, ds: seq<Path>, q: Path)
    requires IsAscending(ds, DepSet(g, p)) && BelowAny(g, ds, q)
    ensures BelowAny(g, [p], q)
  {
    var i :| 0 <= i < |ds| && ReachesOrIs(g, ds[i], q);
    var d := ds[i];
    assert d in DepSet(g, p);
    EdgeReaches(g, p, d);
    if d != q { ReachesTransitive(g, p, d, q); }
    assert ReachesOrIs(g, [p][0], q);
  }

  lemma {:induction false} VisitAllDone(g: Graph, stack: set<Path>, order: seq<Path>, ds: seq<Path>)
    requires LeavesFirst(g, order) && stack !! (set q | q in order)
    requires DfsAll(g, stack, order, ds).Done?
    ensures var o := DfsAll(g, stack, order, ds).order;
      && Extends(g, order, o, ds)
      && stack !! (set q | q in o)
      && (forall d :: d in ds ==> d in o)
    decreases |g.Keys - stack|, 1 + |ds|
  {
    if ds != [] {
      VisitDone(g, stack, order, ds[0]);
      var o1 := Dfs(g, stack, order, ds[0]).order;
      VisitAllDone(g, stack, o1, ds[1..]);
      var o := DfsAll(g, stack, o1, ds[1..]).order;
      assert ds == [ds[0]] + ds[1..];
      forall q | q in o && q !in order ensures BelowAny(g, ds, q) {
        if q in o1 {
          assert BelowAny(g, [ds[0]], q);
        } else {
          var i :| 0 <= i < |ds[1..]| && ReachesOrIs(g, ds[1..][i], q);
          assert ReachesOrIs(g, ds[i + 1], q);
        }
      }
    }
  }

  /** A thrown back edge lies on a real cycle at or below the visited project. */
  lemma {:induction false} VisitCycle(g: Graph, stack: set<Path>, order: seq<Path>, p: Path)
    requires forall s :: s in stack ==> Reaches(g, s, p)
    requires Dfs(g, stack, order, p).Cycle?
    ensures var q := Dfs(g, stack, order, p).at; Reaches(g, q, q) && ReachesOrIs(g, p, q)
    decreases |g.Keys - stack|, 0
  {
    if p !in stack {
      var ds := Ascending(DepSet(g, p));
      assert g.Keys - (stack + {p}) < g.Keys - stack;
      ProperSubsetIsSmaller(g.Keys - (stack + {p}), g.Keys - stack);
      forall d | d in ds ensures Reaches(g, p, d) && forall s :: s in stack ==> Reaches(g, s, d) {
        assert d in DepSet(g, p);
        EdgeReaches(g, p, d);
        forall s | s in stack ensures Reaches(g, s, d) { ReachesTransitive(g, s, p, d); }
      }
      VisitAllCycle(g, stack + {p}, order, ds);
      var q := DfsAll(g, stack + {p}, order, ds).at;
      var i :| 0 <= i < |ds| && ReachesOrIs(g, ds[i], q);
      var d := ds[i];
      assert d in ds;
      if d != q { ReachesTransitive(g, p, d, q); }
    }
  }

  lemma {:induction false} VisitAllCycle(g: Graph, stack: set<Path>, order: seq<Path>, ds: seq<Path>)
    requires forall s, d :: s in stack && d in ds ==> Reaches(g, s, d)
    requires DfsAll(g, stack, order, ds).Cycle?
    ensures var q := DfsAll(g, stack, order, ds).at;
      Reaches(g, q, q) && BelowAny(g, ds, q)
    decreases |g.Keys - stack|, 1 + |ds|
  {
    var first := Dfs(g, stack, order, ds[0]);
    assert ds[0] in ds;
    if first.Cycle? {
      VisitCycle(g, stack, order, ds[0]);
    } else {
      assert forall d :: d in ds[1..] ==> d in ds;
      VisitAllCycle(g, stack, first.order, ds[1..]);
      var q := DfsAll(g, stack, order, ds).at;
      var i :| 0 <= i < |ds[1..]| && ReachesOrIs(g, ds[1..][i], q);
      assert ReachesOrIs(g, ds[i + 1], q);
    }
  }

  ghost function TopoOrder(g: Graph, root: Path): Sorted {
    Dfs(g, {}, [], root)
  }

  /** The whole contract of the topological sort: it throws exactly when a
      cycle is reachable from the root, and otherwise lists the root and
      everything it reaches, once each, dependencies first and the root last. */
  lemma TopoOrderCorrect(g: Graph, root: Path)
    ensures TopoOrder(g, root).Cycle? <==> CycleBelow(g, root)
    ensures TopoOrder(g, root).Cycle? ==>
      var q := TopoOrder(g, root).at; ReachesOrIs(g, root, q) && Reaches(g, q, q)
    ensures TopoOrder(g, root).Done? ==>
      var o := TopoOrder(g, root).order;
      && LeavesFirst(g, o)
      && o != [] && o[|o| - 1] == root
      && (forall q :: q in o <==> ReachesOrIs(g, root, q))
  {
    if TopoOrder(g, root).Cycle? {
      VisitCycle(g, {}, [], root);
    } else {
      VisitDone(g, {}, [], root);
      var o := TopoOrder(g, root).order;
      LeavesFirstHasNoCycle(g, o, root);
      forall q | q in o ensures ReachesOrIs(g, root, q) {
        assert BelowAny(g, [root], q);
      }
    }
  }

  lemma {:induction false} VisitAllSplits(g: Graph, stack: set<Path>, order: seq<Path>, a: seq<Path>, b: seq<Path>)
    ensures DfsAll(g, stack, order, a + b)
         == match DfsAll(g, stack, order, a)
            case Cycle(q) => Cycle(q)
            case Done(o) => DfsAll(g, stack, o, b)
    decreases |a|
  {
    if a == [] {
      assert a + b == b;
    } else {
      assert (a + b)[0] == a[0] && (a + b)[1..] == a[1..] + b;
      var first := Dfs(g, stack, order, a[0]);
      if first.Done? { VisitAllSplits(g, stack, first.order, a[1..], b); }
    }
  }

  /** The root's references come in ordinal order: one stands in front of a
      smaller one only when a reference no larger than that already needs it. */
  lemma SmallerComesFirst(g: Graph, root: Path, small: Path, large: Path) returns (need: Path)
    requires TopoOrder(g, root).Done? && small in DepSet(g, root) && large in DepSet(g, root)
    requires AtMost(small, large) && small != large
    ensures small in TopoOrder(g, root).order && large in TopoOrder(g, root).order
    ensures IndexIn(TopoOrder(g, root).order, small) > IndexIn(TopoOrder(g, root).order, large) ==>
      need in DepSet(g, root) && AtMost(need, small) && Reaches(g, need, large)
  {
    TopoOrderCorrect(g, root);
    EdgeReaches(g, root, small);
    EdgeReaches(g, root, large);
    var ds, o := Ascending(DepSet(g, root)), TopoOrder(g, root).order;
    var i :| 0 <= i < |ds| && ds[i] == small;
    var all := DfsAll(g, {} + {root}, [], ds);
    var front := FrontOfList(g, {} + {root}, ds, i);
    assert o == all.order + [root];
    need := NeededBy(g, root, ds, i, front, o, large);
  }

  /** What the references up to `i` add comes first. */
  lemma FrontOfList(g: Graph, stack: set<Path>, ds: seq<Path>, i: nat) returns (front: seq<Path>)
    requires i < |ds| && DfsAll(g, stack, [], ds).Done?
    ensures Extends(g, [], front, ds[..i + 1]) && ds[i] in front && front <= DfsAll(g, stack, [], ds).order
  {
    var a, b := ds[..i + 1], ds[i + 1..];
    assert ds == a + b;
    VisitAllSplits(g, stack, [], a, b);
    VisitAllDone(g, stack, [], a);
    front := DfsAll(g, stack, [], a).order;
    assert a[i] == ds[i] && ds[i] in a;
    VisitAllDone(g, stack, front, b);
  }

  ghost function IndexIn(order: seq<Path>, p: Path): (i: nat)
    requires p in order
    ensures i < |order| && order[i] == p && p !in order[..i]
  {
    if order[0] == p then 0
    else
      assert order == [order[0]] + order[1..];
      var i := IndexIn(order[1..], p) + 1;
      assert order[..i] == [order[0]] + order[1..][..i - 1];
      i
  }

  lemma IndexIsLeast(order: seq<Path>, p: Path, at: nat)
    requires at < |order| && order[at] == p
    ensures IndexIn(order, p) <= at
  {
    var front := order[..IndexIn(order, p)];
    forall j | 0 <= j < |front| ensures order[j] != p { assert front[j] == order[j] && front[j] in front; }
  }

  /** What was listed with the references up to `i` is needed by one of them. */
  lemma NeededBy(g: Graph, root: Path, ds: seq<Path>, i: nat, front: seq<Path>, o: seq<Path>, large: Path)
    returns (need: Path)
    requires IsAscending(ds, DepSet(g, root)) && i < |ds| && AtMost(ds[i], large) && ds[i] != large
    requires Extends(g, [], front, ds[..i + 1]) && ds[i] in front && front <= o && large in o && ds[i] in o
    ensures IndexIn(o, ds[i]) > IndexIn(o, large) ==>
      need in DepSet(g, root) && AtMost(need, ds[i]) && Reaches(g, need, large)
  {
    need := ds[i];
    if IndexIn(o, ds[i]) > IndexIn(o, large) {
      var at :| 0 <= at < |front| && front[at] == ds[i];
      assert o[at] == ds[i];
      IndexIsLeast(o, ds[i], at);
      assert large == o[IndexIn(o, large)] == front[IndexIn(o, large)];
      var upto := ds[..i + 1];
      assert large in front && BelowAny(g, upto, large);
      var k :| 0 <= k < |upto| && ReachesOrIs(g, upto[k], large);
      need := ds[k];
      assert ds[k] in ds && upto[k] == ds[k];
      AtMostTotal(ds[i], ds[i]);
      if k < i { assert AtMost(Id(ds[k]), Id(ds[i])); }
      if ds[k] == large { AtMostAntisymmetric(ds[i], large); }
    }
  }

  // ---- the sidecar's walk, with its three mutable collections ----

  /** A visit of a new project is a visit of its sorted reference list. */
  lemma VisitByList(g: Graph, stack: set<Path>, order: seq<Path>, p: Path)
    requires p !in order && p !in stack && p in g
    ensures |g.Keys - (stack + {p})| < |g.Keys - stack|
    ensures Dfs(g, stack, order, p)
         == match DfsAll(g, stack + {p}, order, OrderBy(Id, g[p]))
            case Cycle(q) => Cycle(q)
            case Done(o) => Done(o + [p])
  {
    assert g.Keys - (stack + {p}) < g.Keys - stack;
    ProperSubsetIsSmaller(g.Keys - (stack + {p}), g.Keys - stack);
    SortedListIsSet(g, stack + {p}, order, g[p]);
    assert DepSet(g, p) == (set d | d in g[p]);
  }

  lemma VisitNext(g: Graph, stack: set<Path>, order: seq<Path>, deps: seq<Path>, i: nat)
    requires i < |deps|
    ensures DfsAll(g, stack, order, deps[i..])
         == match Dfs(g, stack, order, deps[i])
            case Cycle(q) => Cycle(q)
            case Done(o) => DfsAll(g, stack, o, deps[i + 1..])
  {
    assert deps[i..][1..] == deps[i + 1..];
  }

  lemma Leaving(stack: set<Path>, order: seq<Path>, p: Path)
    ensures p !in stack ==> stack + {p} - {p} == stack
    ensures (set q | q in order + [p]) == (set q | q in order) + {p}
  {
  }

  datatype Thrown = Nothing | CycleDetected(at: Path)

  class TopoSorter {
    const directDepsByPath: Graph
    var visited: set<Path>
    var onStack: set<Path>
    var order: seq<Path>

    constructor (g: Graph)
      ensures directDepsByPath == g && visited == {} && onStack == {} && order == []
    {
      directDepsByPath := g;
      visited, onStack, order := {}, {}, [];
    }

    ghost predicate Valid()
      reads this
    {
      visited == (set p | p in order)
    }

    method Visit(path: Path) returns (thrown: Thrown)
      requires Valid()
      modifies this
      ensures match Dfs(directDepsByPath, old(onStack), old(order), path)
              case Cycle(q) => thrown == CycleDetected(q)
              case Done(o) => thrown == Nothing && order == o && onStack == old(onStack) && Valid()
      decreases |directDepsByPath.Keys - onStack|, 0
    {
      if path in visited {
        return Nothing;
      }
      if path in onStack {
        return CycleDetected(path);
      }
      ghost var stack := onStack;
      onStack := onStack + {path};
      if path in directDepsByPath {
        VisitByList(directDepsByPath, stack, order, path);
        thrown := VisitEach(OrderBy(Id, directDepsByPath[path]));
        if thrown != Nothing {
          return;
        }
      }
      Leaving(stack, order, path);
      onStack := onStack - {path};
      visited := visited + {path};
      order := order + [path];
      thrown := Nothing;
    }

    /** The loop over a project's sorted references. */
    method VisitEach(deps: seq<Path>) returns (thrown: Thrown)
      requires Valid()
      modifies this
      ensures match DfsAll(directDepsByPath, old(onStack), old(order), deps)
              case Cycle(q) => thrown == CycleDetected(q)
              case Done(o) => thrown == Nothing && order == o && onStack == old(onStack) && Valid()
      decreases |directDepsByPath.Keys - onStack|, 1
    {
      ghost var all := DfsAll(directDepsByPath, onStack, order, deps);
      assert deps[0..] == deps;
      var i := 0;
      while i < |deps|
        invariant 0 <= i <= |deps|
        invariant Valid() && onStack == old(onStack)
        invariant DfsAll(directDepsByPath, onStack, order, deps[i..]) == all
      {
        VisitNext(directDepsByPath, onStack, order, deps, i);
        thrown := Visit(deps[i]);
        if thrown != Nothing {
          return;
        }
        i := i + 1;
      }
      thrown := Nothing;
    }
  }

  method TopoSortByPaths(rootCsproj: Path, directDepsByPath: Graph) returns (r: Sorted)
    ensures r == TopoOrder(directDepsByPath, rootCsproj)
  {
    var sorter := new TopoSorter(directDepsByPath);
    var thrown := sorter.Visit(rootCsproj);
    match thrown
    case CycleDetected(q) => r := Cycle(q);
    case Nothing => r := Done(sorter.order);
  }

  // ---- the strict transitive closure, by worklist ----

  /** The inner loop: the dependencies `visited.Add` accepts, in list order. */
  method Unseen(deps: seq<Path>, visited: set<Path>) returns (added: seq<Path>)
    ensures forall q :: q in added <==> q in deps && q !in visited
    ensures DistinctBy(Id, added)
  {
    added := [];
    for i := 0 to |deps|
      invariant forall q :: q in added <==> q in deps[..i] && q !in visited
      invariant DistinctBy(Id, added)
    {
      if deps[i] !in visited && deps[i] !in added {
        added := added + [deps[i]];
      }
    }
  }

  /** What holds each time the worklist is consulted: everything seen is
      reached, and everything seen but no longer listed is fully expanded. */
  ghost predicate Exploring(g: Graph, root: Path, visited: set<Path>, stack: seq<Path>) {
    && (forall q :: q in visited ==> Reaches(g, root, q))
    && (forall q :: q in stack ==> ReachesOrIs(g, root, q))
    && (forall q :: q == root || q in visited ==> q in stack || DepSet(g, q) <= visited)
  }

  lemma ExploreStep(g: Graph, root: Path, visited: set<Path>, stack: seq<Path>, current: Path, added: seq<Path>)
    requires Exploring(g, root, visited, stack + [current])
    requires forall q :: q in added <==> q in DepSet(g, current) && q !in visited
    ensures Exploring(g, root, visited + (set q | q in added), stack + added)
  {
    assert current in stack + [current];
    assert forall q :: q in stack + [current] <==> q in stack || q == current;
    var seen := visited + (set q | q in added);
    forall q | q in added ensures Reaches(g, root, q) {
      EdgeReaches(g, current, q);
      if current != root { ReachesTransitive(g, root, current, q); }
    }
    forall q | q == root || q in seen ensures q in stack + added || DepSet(g, q) <= seen {
      if q == current { assert DepSet(g, q) <= seen; }
    }
  }

  lemma SplitLast(xs: seq<Path>)
    requires xs != []
    ensures xs == xs[..|xs| - 1] + [xs[|xs| - 1]]
  {
  }

  lemma AppendNew(xs: seq<Path>, added: seq<Path>)
    requires DistinctBy(Id, xs) && DistinctBy(Id, added)
    requires forall q :: q in added ==> q !in xs
    ensures DistinctBy(Id, xs + added)
    ensures (set q | q in xs + added) == (set q | q in xs) + (set q | q in added)
  {
    var ys := xs + added;
    forall i, j | 0 <= i < j < |ys| ensures Id(ys[i]) != Id(ys[j]) {
      if i < |xs| <= j { assert ys[j] in added; }
    }
  }

  /** What is still undiscovered, then what is still listed. */
  ghost function Undiscovered(g: Graph, root: Path, visited: set<Path>): nat {
    |ReachSet(g, root) - visited|
  }

  lemma ExploreProgress(g: Graph, root: Path, visited: set<Path>, stack: seq<Path>, added: seq<Path>)
    requires Exploring(g, root, visited + (set q | q in added), stack)
    requires forall q :: q in added ==> q !in visited
    ensures added == [] ==> Undiscovered(g, root, visited + (set q | q in added)) == Undiscovered(g, root, visited)
    ensures added != [] ==> Undiscovered(g, root, visited + (set q | q in added)) < Undiscovered(g, root, visited)
  {
    var seen := visited + (set q | q in added);
    if added == [] {
      assert seen == visited;
    } else {
      ReachSetIsReach(g, root);
      assert added[0] in seen && added[0] !in visited;
      ProperSubsetIsSmaller(ReachSet(g, root) - seen, ReachSet(g, root) - visited);
    }
  }

  lemma Explored(g: Graph, root: Path, visited: set<Path>)
    requires Exploring(g, root, visited, [])
    ensures forall q :: q in visited <==> Reaches(g, root, q)
  {
    forall q | Reaches(g, root, q) ensures q in visited {
      ClosedSetHoldsReach(g, visited, root, q);
    }
  }

  /** Exactly the projects the root reaches, each once; the root itself only
      when it lies on a cycle. */
  method TransitiveClosurePaths(rootCsproj: Path, directDepsByPath: Graph) returns (result: seq<Path>)
    ensures forall q :: q in result <==> Reaches(directDepsByPath, rootCsproj, q)
    ensures DistinctBy(Id, result)
  {
    var visited: set<Path> := {};
    result := [];
    var stack := [rootCsproj];
    while |stack| > 0
      invariant visited == (set q | q in result)
      invariant DistinctBy(Id, result)
      invariant Exploring(directDepsByPath, rootCsproj, visited, stack)
      decreases Undiscovered(directDepsByPath, rootCsproj, visited), |stack|
    {
      SplitLast(stack);
      var current := stack[|stack| - 1];
      stack := stack[..|stack| - 1];
      var added := Unseen(Deps(directDepsByPath, current), visited);
      ExploreStep(directDepsByPath, rootCsproj, visited, stack, current, added);
      ExploreProgress(directDepsByPath, rootCsproj, visited, stack + added, added);
      AppendNew(result, added);
      visited := visited + set q | q in added;
      result := result + added;
      stack := stack + added;
    }
    assert stack == [];
    Explored(directDepsByPath, rootCsproj, visited);
  }
}
