/** The bounded walks that name a nested type: `qualified_typedef_name` follows
    enclosing links, `qualified_typeref_name` nested resolution scopes. Corrupt
    metadata can make either chain cyclic or leave its table. */
module NameChains {
  import opened Decimals
  import opened Options
  import opened Text

  // ---- chains of links over a table ----

  /** What a row leads to: the end of the chain, a refusal, or another row. */
  datatype Link = Anchor | Refused | To(row: nat)

  /** `w` lists the rows visited from `start`, each linking to the next. */
  ghost predicate IsPath(links: seq<Link>, start: nat, w: seq<nat>) {
    && (forall i :: 0 <= i < |w| ==> w[i] < |links|)
    && (w != [] ==> w[0] == start)
    && (forall i :: 0 < i < |w| ==> links[w[i - 1]] == To(w[i]))
  }

  /** A complete chain: it ends at an anchor. */
  ghost predicate Anchored(links: seq<Link>, start: nat, w: seq<nat>) {
    w != [] && IsPath(links, start, w) && links[w[|w| - 1]] == Anchor
  }

  /** Any walk from `start` runs along the complete chain. */
  lemma {:induction false} PathFollowsChain(links: seq<Link>, start: nat, w: seq<nat>, p: seq<nat>)
    requires Anchored(links, start, w) && IsPath(links, start, p)
    ensures p <= w
    decreases |p|
  {
    if p != [] {
      var q := p[..|p| - 1];
      PathFollowsChain(links, start, w, q);
      if q != [] {
        assert q[|q| - 1] == w[|q| - 1];
        assert links[w[|q| - 1]] == To(p[|q|]);
        assert |q| < |w|;
        assert links[w[|q| - 1]] == To(w[|q|]);
      }
      assert p == q + [p[|q|]];
    }
  }

  lemma ChainIsUnique(links: seq<Link>, start: nat, v: seq<nat>, w: seq<nat>)
    requires Anchored(links, start, v) && Anchored(links, start, w)
    ensures v == w
  {
    PathFollowsChain(links, start, v, w);
    PathFollowsChain(links, start, w, v);
  }

  /** A complete chain never visits a row twice. */
  lemma ChainIsSimple(links: seq<Link>, start: nat, w: seq<nat>, i: nat, j: nat)
    requires Anchored(links, start, w) && i < j < |w|
    ensures w[i] != w[j]
  {
    if w[i] == w[j] {
      var a, b := w[i..], w[j..];
      assert Anchored(links, w[i], a) && Anchored(links, w[i], b);
      ChainIsUnique(links, w[i], a, b);
      assert false;
    }
  }

  ghost function UpTo(n: nat): (r: set<nat>)
    ensures |r| == n && forall k: nat :: k in r <==> k < n
  {
    if n == 0 then {} else UpTo(n - 1) + {n - 1}
  }

  ghost function Rows(w: seq<nat>): set<nat> { set k | k in w }

  lemma {:induction false} DistinctSize(w: seq<nat>)
    requires forall i, j :: 0 <= i < j < |w| ==> w[i] != w[j]
    ensures |Rows(w)| == |w|
    decreases |w|
  {
    if w == [] {
      assert Rows(w) == {};
    } else {
      var init, last := w[..|w| - 1], w[|w| - 1];
      DistinctSize(init);
      assert w == init + [last];
      assert Rows(w) == Rows(init) + {last};
      assert last !in Rows(init);
    }
  }

  /** Pigeonhole: the table is at least as long as any complete chain. */
  lemma ChainFitsTable(links: seq<Link>, start: nat, w: seq<nat>)
    requires Anchored(links, start, w)
    ensures |w| <= |links|
  {
    forall i, j | 0 <= i < j < |w| ensures w[i] != w[j] { ChainIsSimple(links, start, w, i, j); }
    DistinctSize(w);
    SubsetSize(Rows(w), UpTo(|links|));
  }

  lemma SubsetSize(a: set<nat>, b: set<nat>)
    requires a <= b
    ensures |a| <= |b|
  {
    assert b == a + (b - a);
    assert |b| == |a| + |b - a|;
  }

  /** The table-size bound cuts off nothing that would have ended: a walk with
      more rows than the table has is on a chain that never reaches an anchor. */
  lemma LongWalkNeverEnds(links: seq<Link>, start: nat, p: seq<nat>)
    requires IsPath(links, start, p) && |p| > |links|
    ensures !exists w :: Anchored(links, start, w)
  {
    forall w | Anchored(links, start, w) ensures false {
      PathFollowsChain(links, start, w, p);
      ChainFitsTable(links, start, w);
    }
  }

  /** Where a walk along a complete chain stands next is a row of that chain. */
  lemma ChainContinues(links: seq<Link>, start: nat, w: seq<nat>, p: seq<nat>, cur: nat)
    requires Anchored(links, start, w) && IsPath(links, start, p)
    requires if p == [] then cur == start else links[p[|p| - 1]] == To(cur)
    ensures cur < |links| && links[cur] != Refused
  {
    PathFollowsChain(links, start, w, p);
    assert |p| < |w|;
    assert w[|p|] == cur;
    if |p| + 1 < |w| { assert links[w[|p|]] == To(w[|p| + 1]); }
  }

  /** A walk that has left the table, or met a refusal, never ends well either. */
  lemma StuckNeverEnds(links: seq<Link>, start: nat, p: seq<nat>, cur: nat)
    requires IsPath(links, start, p)
    requires if p == [] then cur == start else links[p[|p| - 1]] == To(cur)
    requires cur >= |links| || links[cur] == Refused
    ensures !exists w :: Anchored(links, start, w)
  {
    forall w | Anchored(links, start, w) ensures false { ChainContinues(links, start, w, p, cur); }
  }

  // ---- arity suffixes ----

  /** `arity_suffix`: an unparsable count is zero. */
  function AritySuffix(name: string): nat {
    match ArityMark(name)
    case None => 0
    case Some(i) => var n := DecimalValue(name[i + 1..]); if n <= USIZE_MAX then n else 0
  }

  /** `canonical_suffix`: no leading zero, and it must fit a machine word. */
  function CanonicalSuffix(name: string): (r: Option<(nat, nat)>)
    ensures r.Some? ==> r.value.0 <= |name|
  {
    match ArityMark(name)
    case None => None
    case Some(i) =>
      if name[i + 1] == '0' || DecimalValue(name[i + 1..]) > USIZE_MAX then None
      else Some((i, DecimalValue(name[i + 1..])))
  }

  /** An arity written in full is read back, and one too large for a machine
      word is zero. */
  lemma ArityIsRead(base: string, digits: string)
    requires digits != [] && AllDigits(digits)
    ensures AritySuffix(base + "`" + digits)
      == if DecimalValue(digits) <= 0xFFFF_FFFF_FFFF_FFFF then DecimalValue(digits) else 0
  {
    SuffixMarked(base, digits);
  }

  lemma SuffixMarked(base: string, digits: string)
    requires digits != [] && AllDigits(digits)
    ensures var name := base + "`" + digits;
      ArityMark(name) == Some(|base|) && name[|base| + 1..] == digits && name[..|base|] == base
  {
    var name := base + "`" + digits;
    assert name[|base| + 1..] == digits && name[..|base|] == base;
    ArityMarkExact(name, |base|);
  }

  /** A canonical suffix is exactly a backtick and a positive number as a machine
      word is written. */
  lemma CanonicalSuffixExact(name: string, i: nat, n: nat)
    ensures CanonicalSuffix(name) == Some((i, n)) <==>
      i <= |name| && name == name[..i] + "`" + DecimalText(n) && 0 < n <= 0xFFFF_FFFF_FFFF_FFFF
  {
    if CanonicalSuffix(name) == Some((i, n)) {
      ArityMarkExact(name, i);
      NumeralRoundTrip(name[i + 1..]);
      assert name == name[..i] + "`" + name[i + 1..];
    }
    if i <= |name| && name == name[..i] + "`" + DecimalText(n) && 0 < n <= 0xFFFF_FFFF_FFFF_FFFF {
      SuffixMarked(name[..i], DecimalText(n));
      NoLeadingZero(n);
      DecimalRoundTrip(n);
    }
  }

  // ---- names ----

  /** A resolved name: the segments' names joined by `/` and their arities,
      outermost first, and the assembly it is in, `None` for this one. */
  datatype Qualified = Qualified(namespace: string, name: string, arities: seq<nat>, assembly: Option<Identity>)

  /** An assembly's identity as the model keeps it. */
  type Identity = string

  datatype Segment = Segment(name: string, arity: nat)

  function Reversed<T>(s: seq<T>): (r: seq<T>)
    ensures |r| == |s| && forall i :: 0 <= i < |s| ==> r[i] == s[|s| - 1 - i]
  {
    seq(|s|, i requires 0 <= i < |s| => s[|s| - 1 - i])
  }

  /** The segments along a chain, innermost first. */
  ghost function Along(segmentOf: seq<Segment>, w: seq<nat>): (r: seq<Segment>)
    requires forall i :: 0 <= i < |w| ==> w[i] < |segmentOf|
    ensures |r| == |w| && forall i :: 0 <= i < |w| ==> r[i] == segmentOf[w[i]]
  {
    seq(|w|, i requires 0 <= i < |w| => segmentOf[w[i]])
  }

  /** `r` is the name spelled by these segments, given innermost first. */
  ghost predicate Spells(r: Qualified, segs: seq<Segment>) {
    && r.name == Join(Reversed(Names(segs)), "/")
    && |r.arities| == |segs| && forall i :: 0 <= i < |segs| ==> r.arities[i] == segs[|segs| - 1 - i].arity
  }

  ghost function Names(segs: seq<Segment>): (r: seq<string>)
    ensures |r| == |segs| && forall i :: 0 <= i < |segs| ==> r[i] == segs[i].name
  {
    seq(|segs|, i requires 0 <= i < |segs| => segs[i].name)
  }

  /** The arities line up with the `/`-separated name as its consumers split it,
      unless a metadata name itself holds the separator. */
  lemma ArityPerSegment(r: Qualified, segs: seq<Segment>)
    requires Spells(r, segs) && segs != [] && forall i :: 0 <= i < |segs| ==> '/' !in segs[i].name
    ensures Split(r.name, '/') == Reversed(Names(segs)) && |r.arities| == |Split(r.name, '/')|
  {
    var names := Reversed(Names(segs));
    forall i | 0 <= i < |names| ensures '/' !in names[i] { assert names[i] == segs[|segs| - 1 - i].name; }
    SplitUndoesSeparator(names, '/');
  }

  // ---- the state of a walk ----

  /** The two lists hold the segments of the rows visited so far. */
  ghost predicate Spelled(segs: seq<Segment>, p: seq<nat>, chain: seq<string>, arities: seq<nat>) {
    && |chain| == |arities| == |p|
    && forall i :: 0 <= i < |p| ==> p[i] < |segs| && chain[i] == segs[p[i]].name && arities[i] == segs[p[i]].arity
  }

  /** `p` was visited and `cur` comes next. */
  ghost predicate Walking(links: seq<Link>, start: nat, p: seq<nat>, cur: nat) {
    IsPath(links, start, p) && if p == [] then cur == start else links[p[|p| - 1]] == To(cur)
  }

  lemma VisitRow(
    links: seq<Link>, segs: seq<Segment>, start: nat, p: seq<nat>, cur: nat, chain: seq<string>, arities: seq<nat>)
    requires Walking(links, start, p, cur) && cur < |links| == |segs| && Spelled(segs, p, chain, arities)
    ensures IsPath(links, start, p + [cur])
    ensures Spelled(segs, p + [cur], chain + [segs[cur].name], arities + [segs[cur].arity])
    ensures forall next :: links[cur] == To(next) ==> Walking(links, start, p + [cur], next)
    ensures links[cur] == Anchor ==> Anchored(links, start, p + [cur])
  {
  }

  /** Reversed, the lists spell every complete chain there is: the one walked. */
  lemma WalkDone(
    links: seq<Link>, segs: seq<Segment>, start: nat, q: seq<nat>, chain: seq<string>, arities: seq<nat>, r: Qualified)
    requires Anchored(links, start, q) && |segs| == |links| && Spelled(segs, q, chain, arities)
    requires r.name == Join(Reversed(chain), "/") && r.arities == Reversed(arities)
    ensures Spells(r, Along(segs, q))
    ensures forall w :: Anchored(links, start, w) ==> w == q
  {
    assert Names(Along(segs, q)) == chain;
    forall w | Anchored(links, start, w) ensures w == q { ChainIsUnique(links, start, w, q); }
  }

  // ---- TypeDef ----

  datatype TypeDef = TypeDef(namespace: string, name: string, enclosing: Option<nat>)

  function DefLink(d: TypeDef): Link { match d.enclosing case None => Anchor case Some(p) => To(p) }

  function DefLinks(defs: seq<TypeDef>): (r: seq<Link>)
    ensures |r| == |defs| && forall i :: 0 <= i < |defs| ==> r[i] == DefLink(defs[i])
  {
    seq(|defs|, i requires 0 <= i < |defs| => DefLink(defs[i]))
  }

  function DefSegment(d: TypeDef): Segment { Segment(StripArity(d.name), AritySuffix(d.name)) }

  /** A definition's segment drops any arity suffix; without one it is the name. */
  lemma DefSegmentExact(d: TypeDef, base: string, digits: string)
    requires digits != [] && AllDigits(digits)
    ensures d.name == base + "`" + digits ==> DefSegment(d) == Segment(base, if DecimalValue(digits)
        <= 0xFFFF_FFFF_FFFF_FFFF then DecimalValue(digits) else 0)
    ensures (!exists i :: 0 <= i < |d.name| - 1 && d.name[i] == '`' && AllDigits(d.name[i + 1..])) ==>
      DefSegment(d) == Segment(d.name, 0)
  {
    StripsSuffix(base, digits);
    ArityIsRead(base, digits);
    if !exists i :: 0 <= i < |d.name| - 1 && d.name[i] == '`' && AllDigits(d.name[i + 1..]) {
      KeepsUnsuffixed(d.name);
    }
  }

  ghost function DefSegments(defs: seq<TypeDef>): (r: seq<Segment>)
    ensures |r| == |defs| && forall i :: 0 <= i < |defs| ==> r[i] == DefSegment(defs[i])
  {
    seq(|defs|, i requires 0 <= i < |defs| => DefSegment(defs[i]))
  }

  /** The name a complete chain of enclosing links spells. */
  ghost predicate NamesDef(defs: seq<TypeDef>, w: seq<nat>, r: Qualified)
    requires w != [] && forall i :: 0 <= i < |w| ==> w[i] < |defs|
  {
    && Spells(r, Along(DefSegments(defs), w))
    && r.namespace == defs[w[|w| - 1]].namespace && r.assembly == None
  }

  /** `qualified_typedef_name`: a name exactly when the enclosing chain stays in
      the table and ends, and then the name that chain spells. */
  method QualifiedTypedefName(defs: seq<TypeDef>, idx: nat) returns (r: Option<Qualified>)
    ensures r.Some? <==> exists w :: Anchored(DefLinks(defs), idx, w)
    ensures forall w :: Anchored(DefLinks(defs), idx, w) ==> r.Some? && NamesDef(defs, w, r.value)
  {
    var chain: seq<string> := [];
    var arities: seq<nat> := [];
    var cur: nat := idx;
    ghost var links, segs := DefLinks(defs), DefSegments(defs);
    ghost var p: seq<nat> := [];
    var n := 0;
    while n <= |defs|
      invariant 0 <= n <= |defs| + 1 && |p| == n
      invariant Walking(links, idx, p, cur)
      invariant Spelled(segs, p, chain, arities)
    {
      if cur >= |defs| {
        StuckNeverEnds(links, idx, p, cur);
        return None;
      }
      var td := defs[cur];
      VisitRow(links, segs, idx, p, cur, chain, arities);
      p := p + [cur];
      chain := chain + [StripArity(td.name)];
      arities := arities + [AritySuffix(td.name)];
      match td.enclosing {
        case Some(up) => cur := up;
        case None =>
          r := Some(Qualified(td.namespace, Join(Reversed(chain), "/"), Reversed(arities), None));
          WalkDone(links, segs, idx, p, chain, arities, r.value);
          return;
      }
      n := n + 1;
    }
    LongWalkNeverEnds(links, idx, p);
    r := None;
  }

  // ---- TypeRef ----

  datatype RefScope = Unsupported | Nested(row: nat) | InAssembly(row: nat) | InModule

  datatype TypeRefRow = TypeRefRow(namespace: string, name: string, scope: RefScope)

  /** An assembly row. It is plain without a culture and without flags, which
      a binder matches but the identity does not hold. */
  datatype AssemblyRow = AssemblyRow(identity: Identity, plain: bool)

  /** The image: its own identity, whether it has a plain assembly row of its
      own, and the assemblies it references. */
  datatype Assemblies = Assemblies(own: Identity, ownPlain: bool, references: seq<AssemblyRow>)

  function RefLink(r: TypeRefRow, assemblies: nat): Link {
    match r.scope
    case Unsupported => Refused
    case Nested(p) => To(p)
    case InAssembly(a) => if a < assemblies then Anchor else Refused
    case InModule => Anchor
  }

  function RefLinks(refs: seq<TypeRefRow>, assemblies: nat): (r: seq<Link>)
    ensures |r| == |refs| && forall i :: 0 <= i < |refs| ==> r[i] == RefLink(refs[i], assemblies)
  {
    seq(|refs|, i requires 0 <= i < |refs| => RefLink(refs[i], assemblies))
  }

  /** A suffix that is not canonical stays part of the name. */
  function RefSegment(r: TypeRefRow): Segment {
    match CanonicalSuffix(r.name)
    case None => Segment(r.name, 0)
    case Some((i, n)) => Segment(r.name[..i], n)
  }

  /** A name that ends in a canonical suffix of this value. */
  ghost predicate Suffixed(name: string, base: string, n: nat) {
    0 < n <= 0xFFFF_FFFF_FFFF_FFFF && name == base + "`" + DecimalText(n)
  }

  lemma SuffixedExact(name: string, base: string, n: nat)
    ensures Suffixed(name, base, n) <==> CanonicalSuffix(name) == Some((|base|, n)) && base == name[..|base|]
  {
    if Suffixed(name, base, n) {
      assert name[..|base|] == base;
      CanonicalSuffixExact(name, |base|, n);
    }
    if CanonicalSuffix(name) == Some((|base|, n)) && base == name[..|base|] {
      CanonicalSuffixExact(name, |base|, n);
    }
  }

  /** A reference's segment drops a suffix exactly when it is canonical. */
  lemma RefSegmentExact(r: TypeRefRow)
    ensures forall base, n :: Suffixed(r.name, base, n) ==> RefSegment(r) == Segment(base, n)
    ensures (!exists base, n :: Suffixed(r.name, base, n)) ==> RefSegment(r) == Segment(r.name, 0)
  {
    forall base, n | Suffixed(r.name, base, n) ensures RefSegment(r) == Segment(base, n) {
      SuffixedExact(r.name, base, n);
    }
    if CanonicalSuffix(r.name).Some? {
      var (i, n) := CanonicalSuffix(r.name).value;
      SuffixedExact(r.name, r.name[..i], n);
    }
  }

  ghost function RefSegments(refs: seq<TypeRefRow>): (r: seq<Segment>)
    ensures |r| == |refs| && forall i :: 0 <= i < |refs| ==> r[i] == RefSegment(refs[i])
  {
    seq(|refs|, i requires 0 <= i < |refs| => RefSegment(refs[i]))
  }

  /** The assembly a row's own scope names: a plain reference from a plain
      assembly to its own identity is to itself. */
  function HomeOf(img: Assemblies, r: TypeRefRow): Option<Identity>
    requires r.scope.InAssembly? ==> r.scope.row < |img.references|
  {
    if !r.scope.InAssembly? then None
    else
      var a := img.references[r.scope.row];
      if a.identity != img.own || !img.ownPlain || !a.plain then Some(a.identity) else None
  }

  ghost predicate NamesRef(img: Assemblies, refs: seq<TypeRefRow>, w: seq<nat>, r: Qualified)
    requires w != [] && forall i :: 0 <= i < |w| ==> w[i] < |refs|
    requires RefLink(refs[w[|w| - 1]], |img.references|) == Anchor
  {
    && Spells(r, Along(RefSegments(refs), w))
    && r.namespace == refs[w[|w| - 1]].namespace
    && AtHome(img, refs[w[|w| - 1]], r.assembly)
  }

  /** No assembly for a type of this one: its scope is the module, or a plain
      reference from a plain assembly to its own identity. */
  ghost predicate AtHome(img: Assemblies, last: TypeRefRow, assembly: Option<Identity>)
    requires RefLink(last, |img.references|) == Anchor
  {
    match last.scope
    case InAssembly(row) =>
      var a := img.references[row];
      assembly == if a.identity == img.own && a.plain && img.ownPlain then None else Some(a.identity)
    case _ => assembly == None
  }

  /** Where a chain ends, where it goes on, and where it is refused. */
  lemma LinksExact(refs: seq<TypeRefRow>, assemblies: nat, i: nat)
    requires i < |refs|
    ensures var link, scope := RefLinks(refs, assemblies)[i], refs[i].scope;
      && (link == Anchor <==> scope == InModule || (scope.InAssembly? && scope.row < assemblies))
      && (link == Refused <==> scope == Unsupported || (scope.InAssembly? && scope.row >= assemblies))
      && forall k :: link == To(k) <==> scope == Nested(k)
  {
  }

  /** `qualified_typeref_name`: a name exactly when the nested-scope chain stays
      in the table and ends in a scope that resolves. */
  method QualifiedTyperefName(img: Assemblies, refs: seq<TypeRefRow>, idx: nat) returns (r: Option<Qualified>)
    ensures r.Some? <==> exists w :: Anchored(RefLinks(refs, |img.references|), idx, w)
    ensures forall w :: Anchored(RefLinks(refs, |img.references|), idx, w) ==>
      r.Some? && NamesRef(img, refs, w, r.value)
  {
    var chain: seq<string> := [];
    var arities: seq<nat> := [];
    var cur: nat := idx;
    ghost var links, segs := RefLinks(refs, |img.references|), RefSegments(refs);
    ghost var p: seq<nat> := [];
    var n := 0;
    while n <= |refs|
      invariant 0 <= n <= |refs| + 1 && |p| == n
      invariant Walking(links, idx, p, cur)
      invariant Spelled(segs, p, chain, arities)
    {
      if cur >= |refs| {
        StuckNeverEnds(links, idx, p, cur);
        return None;
      }
      var row := refs[cur];
      if row.scope.Unsupported? || (row.scope.InAssembly? && row.scope.row >= |img.references|) {
        StuckNeverEnds(links, idx, p, cur);
        return None;
      }
      VisitRow(links, segs, idx, p, cur, chain, arities);
      p := p + [cur];
      chain := chain + [RefSegment(row).name];
      arities := arities + [RefSegment(row).arity];
      if row.scope.Nested? {
        cur := row.scope.row;
      } else {
        r := Some(Qualified(row.namespace, Join(Reversed(chain), "/"), Reversed(arities), HomeOf(img, row)));
        WalkDone(links, segs, idx, p, chain, arities, r.value);
        return;
      }
      n := n + 1;
    }
    LongWalkNeverEnds(links, idx, p);
    r := None;
  }
}
