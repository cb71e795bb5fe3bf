/** The `<ProjectReference>` graph keyed by csproj path, and what it means for
    one project to reach another. */
module ProjectGraph {
  import opened Ordinal

  /** `directDepsByPath`: a path with no entry has no dependencies. */
  type Graph = map<Path, seq<Path>>

  function Deps(g: Graph, p: Path): seq<Path> {
    if p in g then g[p] else []
  }

  /** The dependencies of each project with order and repetition forgotten. */
  ghost function DepSet(g: Graph, p: Path): set<Path> {
    set d | d in Deps(g, p)
  }

  ghost predicate IsWalk(g: Graph, w: seq<Path>) {
    forall i :: 0 < i < |w| ==> w[i] in Deps(g, w[i - 1])
  }

  ghost predicate WalkFromTo(g: Graph, w: seq<Path>, a: Path, b: Path) {
    |w| >= 2 && w[0] == a && w[|w| - 1] == b && IsWalk(g, w)
  }

  /** `a` depends on `b` through one or more references. */
  ghost predicate Reaches(g: Graph, a: Path, b: Path) {
    exists w :: WalkFromTo(g, w, a, b)
  }

  ghost predicate ReachesOrIs(g: Graph, a: Path, b: Path) {
    a == b || Reaches(g, a, b)
  }

  /** Some project at or below `root` depends on itself. */
  ghost predicate CycleBelow(g: Graph, root: Path) {
    exists p :: ReachesOrIs(g, root, p) && Reaches(g, p, p)
  }

  lemma EdgeReaches(g: Graph, a: Path, b: Path)
    requires b in Deps(g, a)
    ensures Reaches(g, a, b)
  {
    assert WalkFromTo(g, [a, b], a, b);
  }

  lemma ReachesTransitive(g: Graph, a: Path, b: Path, c: Path)
    requires Reaches(g, a, b) && Reaches(g, b, c)
    ensures Reaches(g, a, c)
  {
    var v :| WalkFromTo(g, v, a, b);
    var w :| WalkFromTo(g, w, b, c);
    assert WalkFromTo(g, v + w[1..], a, c);
  }

  /** Whatever `a` reaches lies in every dependency-closed set around `a`'s dependencies. */
  lemma ClosedSetHoldsReach(g: Graph, s: set<Path>, a: Path, b: Path)
    requires DepSet(g, a) <= s
    requires forall p :: p in s ==> DepSet(g, p) <= s
    requires Reaches(g, a, b)
    ensures b in s
  {
    var w :| WalkFromTo(g, w, a, b);
    var i := 1;
    while i < |w| - 1
      invariant 1 <= i <= |w| - 1 && w[i] in s
    {
      i := i + 1;
    }
  }

  /** Every path the graph mentions as a dependency. */
  ghost function Mentioned(g: Graph): set<Path> {
    set p, d | p in g && d in g[p] :: d
  }

  ghost function ReachSet(g: Graph, a: Path): set<Path> {
    set b | b in Mentioned(g) && Reaches(g, a, b)
  }

  lemma ReachSetIsReach(g: Graph, a: Path)
    ensures forall b :: b in ReachSet(g, a) <==> Reaches(g, a, b)
  {
    forall b | Reaches(g, a, b) ensures b in Mentioned(g) {
      var w :| WalkFromTo(g, w, a, b);
      assert w[|w| - 1] in Deps(g, w[|w| - 2]);
    }
  }

  lemma ReachShrinks(g: Graph, a: Path, b: Path)
    requires !CycleBelow(g, a) && Reaches(g, a, b)
    ensures !CycleBelow(g, b)
    ensures ReachSet(g, b) < ReachSet(g, a)
    ensures |ReachSet(g, b)| < |ReachSet(g, a)|
  {
    ReachSetIsReach(g, a);
    ReachSetIsReach(g, b);
    forall c | Reaches(g, b, c) ensures Reaches(g, a, c) {
      ReachesTransitive(g, a, b, c);
    }
    assert ReachesOrIs(g, a, b);
    assert b in ReachSet(g, a) && b !in ReachSet(g, b);
    assert ReachSet(g, b) <= ReachSet(g, a);
    ProperSubsetIsSmaller(ReachSet(g, b), ReachSet(g, a));
  }

  lemma ProperSubsetIsSmaller(s: set<Path>, t: set<Path>)
    requires s < t
    ensures |s| < |t|
  {
    assert t == s + (t - s);
    assert |t| == |s| + |t - s|;
  }

  // ---- an order in which every project follows all its dependencies ----

  ghost predicate LeavesFirst(g: Graph, order: seq<Path>) {
    && (forall i, j :: 0 <= i < j < |order| ==> order[i] != order[j])
    && (forall i, d :: 0 <= i < |order| && d in Deps(g, order[i]) ==> d in order[..i])
  }

  lemma ReachedComesEarlier(g: Graph, order: seq<Path>, i: nat, b: Path)
    requires LeavesFirst(g, order) && i < |order| && Reaches(g, order[i], b)
    ensures b in order[..i]
  {
    var w :| WalkFromTo(g, w, order[i], b);
    var k, at: nat := 0, i;
    while k < |w| - 1
      invariant 0 <= k < |w|
      invariant at < |order| && order[at] == w[k]
      invariant k == 0 ==> at == i
      invariant k > 0 ==> at < i
    {
      assert w[k + 1] in Deps(g, w[k]);
      assert w[k + 1] in order[..at];
      var e: nat :| e < at && order[e] == w[k + 1];
      at := e;
      k := k + 1;
    }
  }

  lemma LeavesFirstHasNoCycle(g: Graph, order: seq<Path>, root: Path)
    requires LeavesFirst(g, order) && root in order
    ensures !CycleBelow(g, root)
    ensures forall b :: Reaches(g, root, b) ==> b in order
  {
    var i :| 0 <= i < |order| && order[i] == root;
    forall b | Reaches(g, root, b) ensures b in order {
      ReachedComesEarlier(g, order, i, b);
    }
    forall p | ReachesOrIs(g, root, p) ensures !Reaches(g, p, p) {
      assert p in order;
      var j :| 0 <= j < |order| && order[j] == p;
      if Reaches(g, p, p) {
        ReachedComesEarlier(g, order, j, p);
        assert false;
      }
    }
  }
}
