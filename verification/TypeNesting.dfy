/** `project_entity`: the recursion through nested types. Corrupt metadata can
    make the nesting cyclic, so its depth is bounded, and only running into the
    bound is fatal: any other undecodable nested type is recorded and dropped. */
module TypeNesting {
  import Lists

  const MAX_NESTING_DEPTH: nat := 128

  /** What the recursion needs of a `TypeDef`: whether it is skipped by name,
      whether its own shape decodes before and after its nested types are
      visited, whether it is a union, and whether it is named `Tags`. */
  datatype TypeDef = TypeDef(skipped: bool, before: bool, after: bool, union: bool, tags: bool, nested: seq<nat>)

  datatype Entity = Entity(row: nat, nested: seq<Entity>)

  datatype Result = Ok(entity: Entity) | Undecodable | CyclicTypeNesting

  /** Nested rows name rows of the table. */
  ghost predicate InTable(t: seq<TypeDef>) {
    forall i :: 0 <= i < |t| ==> AllInTable(t, t[i].nested)
  }

  ghost predicate AllInTable(t: seq<TypeDef>, cs: seq<nat>) {
    forall i :: 0 <= i < |cs| ==> cs[i] < |t|
  }

  /** `keep_nested_type`: a union's `Tags` class is not surfaced. */
  predicate Keeps(parent: TypeDef, child: TypeDef) { !(parent.union && child.tags) }

  // ---- specification: a result and the rows recorded as dropped ----

  datatype Children = Fatal | Kept(entities: seq<Entity>)

  function Project(t: seq<TypeDef>, idx: nat, depth: nat): (Result, seq<nat>)
    requires InTable(t) && idx < |t|
    decreases if depth > MAX_NESTING_DEPTH then 0 else MAX_NESTING_DEPTH + 1 - depth, 0
  {
    if depth > MAX_NESTING_DEPTH then (CyclicTypeNesting, [])
    else if !t[idx].before then (Undecodable, [])
    else
      var (kids, skips) := ProjectAll(t, t[idx], t[idx].nested, depth + 1);
      match kids
      case Fatal => (CyclicTypeNesting, skips)
      case Kept(es) => (if t[idx].after then Ok(Entity(idx, es)) else Undecodable, skips)
  }

  function ProjectAll(t: seq<TypeDef>, parent: TypeDef, cs: seq<nat>, depth: nat): (Children, seq<nat>)
    requires InTable(t) && AllInTable(t, cs)
    decreases if depth > MAX_NESTING_DEPTH then 0 else MAX_NESTING_DEPTH + 1 - depth, 1 + |cs|
  {
    if cs == [] then (Kept([]), [])
    else
      var c := cs[0];
      if t[c].skipped then ProjectAll(t, parent, cs[1..], depth)
      else
        var (r, s1) := Project(t, c, depth);
        if r.CyclicTypeNesting? then (Fatal, s1)
        else
          var here := if r.Undecodable? then [c] else [];
          var (rest, s2) := ProjectAll(t, parent, cs[1..], depth);
          match rest
          case Fatal => (Fatal, s1 + here + s2)
          case Kept(es) => (Kept((if r.Ok? && Keeps(parent, t[c]) then [r.entity] else []) + es), s1 + here + s2)
  }

  // ---- when it is fatal ----

  /** From a decodable row to one of its nested rows that is not skipped. */
  ghost predicate Into(t: seq<TypeDef>, r: nat, c: nat) {
    r < |t| && c < |t| && t[r].before && c in t[r].nested && !t[c].skipped
  }

  /** A chain of such steps. */
  ghost predicate Descends(t: seq<TypeDef>, w: seq<nat>) {
    forall i :: 0 < i < |w| ==> Into(t, w[i - 1], w[i])
  }

  /** A descent from `idx`, entered at `depth`, that runs past the bound. */
  ghost predicate RunsPast(t: seq<TypeDef>, idx: nat, depth: nat, w: seq<nat>) {
    w != [] && w[0] == idx && Descends(t, w) && depth + |w| - 1 == 129
  }

  lemma {:induction false} FatalChild(t: seq<TypeDef>, parent: TypeDef, cs: seq<nat>, depth: nat)
    requires InTable(t) && AllInTable(t, cs)
    ensures ProjectAll(t, parent, cs, depth).0.Fatal? <==>
      exists i :: 0 <= i < |cs| && !t[cs[i]].skipped && Project(t, cs[i], depth).0.CyclicTypeNesting?
    decreases |cs|
  {
    if cs != [] {
      FatalChild(t, parent, cs[1..], depth);
      var tail := cs[1..];
      if i :| 0 <= i < |tail| && !t[tail[i]].skipped && Project(t, tail[i], depth).0.CyclicTypeNesting? {
        assert cs[i + 1] == tail[i];
      }
      if i :| 0 <= i < |cs| && !t[cs[i]].skipped && Project(t, cs[i], depth).0.CyclicTypeNesting? {
        if i > 0 { assert tail[i - 1] == cs[i]; }
      }
    }
  }

  /** The fatal error is raised exactly when some descent runs past the bound. */
  lemma {:induction false} FatalIff(t: seq<TypeDef>, idx: nat, depth: nat)
    requires InTable(t) && idx < |t| && depth <= MAX_NESTING_DEPTH + 1
    ensures Project(t, idx, depth).0.CyclicTypeNesting? <==> exists w :: RunsPast(t, idx, depth, w)
    decreases MAX_NESTING_DEPTH + 1 - depth
  {
    if depth == MAX_NESTING_DEPTH + 1 {
      assert RunsPast(t, idx, depth, [idx]);
    } else {
      if Project(t, idx, depth).0.CyclicTypeNesting? {
        var w := FatalGivesDescent(t, idx, depth);
      }
      if w :| RunsPast(t, idx, depth, w) {
        DescentGivesFatal(t, idx, depth, w);
      }
    }
  }

  lemma {:induction false} FatalGivesDescent(t: seq<TypeDef>, idx: nat, depth: nat) returns (w: seq<nat>)
    requires InTable(t) && idx < |t| && depth <= MAX_NESTING_DEPTH + 1
    requires Project(t, idx, depth).0.CyclicTypeNesting?
    ensures RunsPast(t, idx, depth, w)
    decreases MAX_NESTING_DEPTH + 1 - depth
  {
    if depth == MAX_NESTING_DEPTH + 1 {
      w := [idx];
    } else {
      var cs := t[idx].nested;
      FatalChild(t, t[idx], cs, depth + 1);
      var i :| 0 <= i < |cs| && !t[cs[i]].skipped && Project(t, cs[i], depth + 1).0.CyclicTypeNesting?;
      assert cs[i] in cs;
      var rest := FatalGivesDescent(t, cs[i], depth + 1);
      w := [idx] + rest;
      Prefixed(t, idx, rest);
    }
  }

  lemma {:induction false} DescentGivesFatal(t: seq<TypeDef>, idx: nat, depth: nat, w: seq<nat>)
    requires InTable(t) && idx < |t| && depth <= MAX_NESTING_DEPTH + 1
    requires RunsPast(t, idx, depth, w)
    ensures Project(t, idx, depth).0.CyclicTypeNesting?
    decreases MAX_NESTING_DEPTH + 1 - depth
  {
    if depth <= MAX_NESTING_DEPTH {
      var c, rest, cs := w[1], w[1..], t[idx].nested;
      assert Into(t, w[1 - 1], w[1]);
      forall i | 0 < i < |rest| ensures Into(t, rest[i - 1], rest[i]) { assert Into(t, w[i + 1 - 1], w[i + 1]); }
      DescentGivesFatal(t, c, depth + 1, rest);
      var i :| 0 <= i < |cs| && cs[i] == c;
      FatalChild(t, t[idx], cs, depth + 1);
    }
  }

  lemma Prefixed(t: seq<TypeDef>, idx: nat, w: seq<nat>)
    requires w != [] && Into(t, idx, w[0]) && Descends(t, w)
    ensures Descends(t, [idx] + w)
  {
    var v := [idx] + w;
    forall i | 0 < i < |v| ensures Into(t, v[i - 1], v[i]) {
      if i > 1 { assert Into(t, w[i - 2], w[i - 1]); }
    }
  }

  /** Going round a cycle gives descents of every length. */
  lemma {:induction false} RoundAndRound(t: seq<TypeDef>, w: seq<nat>, i: nat, k: nat, n: nat) returns (v: seq<nat>)
    requires |w| > 1 && Descends(t, w) && k < |w|
    requires i < |w| - 1 && w[i] == w[|w| - 1]
    ensures |v| == n + 1 && v[0] == w[k] && Descends(t, v)
    decreases n
  {
    if n == 0 {
      v := [w[k]];
    } else {
      var next := if k == |w| - 1 then i + 1 else k + 1;
      assert Into(t, w[next - 1], w[next]);
      var rest := RoundAndRound(t, w, i, next, n - 1);
      v := [w[k]] + rest;
      Prefixed(t, w[k], rest);
    }
  }

  /** A nesting cycle of decodable, non-skipped types reachable from `idx`
      through such types is always fatal, whatever else the table holds. */
  lemma ReachableCycleIsFatal(t: seq<TypeDef>, idx: nat, w: seq<nat>, i: nat)
    requires InTable(t) && idx < |t|
    requires |w| > 1 && w[0] == idx && Descends(t, w)
    requires i < |w| - 1 && w[i] == w[|w| - 1]
    ensures Project(t, idx, 0).0 == CyclicTypeNesting
  {
    var long := RoundAndRound(t, w, i, 0, MAX_NESTING_DEPTH + 1);
    DescentGivesFatal(t, idx, 0, long);
  }

  // ---- what a successful projection holds ----

  ghost predicate KeptBelow(e: Entity, c: nat) {
    exists i :: 0 <= i < |e.nested| && e.nested[i].row == c
  }

  /** Every nested row of a kept type is accounted for: kept, skipped by name, a
      union's `Tags`, or recorded as dropped; and nothing else is kept. */
  ghost predicate Accounted(t: seq<TypeDef>, e: Entity, skips: seq<nat>)
    decreases e
  {
    && e.row < |t|
    && t[e.row].before && t[e.row].after
    && (forall c :: c in t[e.row].nested ==>
          c < |t| && (t[c].skipped || KeptBelow(e, c) || (t[e.row].union && t[c].tags) || c in skips))
    && (forall i :: 0 <= i < |e.nested| ==>
          && e.nested[i].row in t[e.row].nested && e.nested[i].row < |t|
          && !t[e.nested[i].row].skipped && !(t[e.row].union && t[e.nested[i].row].tags)
          && Accounted(t, e.nested[i], skips))
  }

  /** No kept type lies deeper than the bound. */
  ghost predicate Within(e: Entity, depth: nat)
    decreases e
  {
    depth <= 128 && forall i :: 0 <= i < |e.nested| ==> Within(e.nested[i], depth + 1)
  }

  lemma {:induction false} AccountedGrows(t: seq<TypeDef>, e: Entity, skips: seq<nat>, more: seq<nat>)
    requires Accounted(t, e, skips) && forall c :: c in skips ==> c in more
    ensures Accounted(t, e, more)
    decreases e
  {
    forall i | 0 <= i < |e.nested| ensures Accounted(t, e.nested[i], more) {
      AccountedGrows(t, e.nested[i], skips, more);
    }
  }

  lemma {:induction false} SuccessIsAccounted(t: seq<TypeDef>, idx: nat, depth: nat)
    requires InTable(t) && idx < |t| && Project(t, idx, depth).0.Ok?
    ensures var (r, skips) := Project(t, idx, depth);
      r.entity.row == idx && Accounted(t, r.entity, skips) && Within(r.entity, depth)
    decreases if depth > MAX_NESTING_DEPTH then 0 else MAX_NESTING_DEPTH + 1 - depth, 0
  {
    SuccessesAreAccounted(t, t[idx], t[idx].nested, depth + 1);
  }

  /** The same for a list of children, all of them under one growing record. */
  ghost predicate ListAccounted(
    t: seq<TypeDef>, parent: TypeDef, cs: seq<nat>, es: seq<Entity>, skips: seq<nat>, depth: nat)
  {
    && (forall c :: c in cs ==>
          && c < |t|
          && (t[c].skipped || (parent.union && t[c].tags) || c in skips || exists i :: 0 <= i < |es| && es[i].row == c))
    && (forall i :: 0 <= i < |es| ==>
          && es[i].row in cs && es[i].row < |t| && !t[es[i].row].skipped && !(parent.union && t[es[i].row].tags)
          && Accounted(t, es[i], skips) && Within(es[i], depth))
  }

  lemma {:induction false} SuccessesAreAccounted(t: seq<TypeDef>, parent: TypeDef, cs: seq<nat>, depth: nat)
    requires InTable(t) && AllInTable(t, cs) && ProjectAll(t, parent, cs, depth).0.Kept?
    ensures var (kids, skips) := ProjectAll(t, parent, cs, depth);
      ListAccounted(t, parent, cs, kids.entities, skips, depth)
    decreases if depth > MAX_NESTING_DEPTH then 0 else MAX_NESTING_DEPTH + 1 - depth, 1 + |cs|
  {
    if cs != [] {
      var c, tail := cs[0], cs[1..];
      SuccessesAreAccounted(t, parent, tail, depth);
      var (rest, s2) := ProjectAll(t, parent, tail, depth);
      if t[c].skipped {
        assert forall x :: x in cs <==> x == c || x in tail;
      } else {
        var (r, s1) := Project(t, c, depth);
        if r.Ok? { SuccessIsAccounted(t, c, depth); }
        var (kids, skips) := ProjectAll(t, parent, cs, depth);
        AddChild(t, parent, c, tail, r, s1, rest.entities, s2, kids.entities, skips, depth);
      }
    }
  }

  lemma AddChild(
    t: seq<TypeDef>, parent: TypeDef, c: nat, tail: seq<nat>, r: Result, s1: seq<nat>, es: seq<Entity>, s2: seq<nat>,
    all: seq<Entity>, skips: seq<nat>, depth: nat)
    requires c < |t| && !t[c].skipped && !r.CyclicTypeNesting?
    requires r.Ok? ==> r.entity.row == c && Accounted(t, r.entity, s1) && Within(r.entity, depth)
    requires ListAccounted(t, parent, tail, es, s2, depth)
    requires skips == s1 + (if r.Undecodable? then [c] else []) + s2
    requires all == (if r.Ok? && Keeps(parent, t[c]) then [r.entity] else []) + es
    ensures ListAccounted(t, parent, [c] + tail, all, skips, depth)
  {
    var cs := [c] + tail;
    if r.Ok? { AccountedGrows(t, r.entity, s1, skips); }
    forall i | 0 <= i < |es| ensures Accounted(t, es[i], skips) { AccountedGrows(t, es[i], s2, skips); }
    forall x | x in cs
      ensures x < |t|
      ensures t[x].skipped || (parent.union && t[x].tags) || x in skips || exists i :: 0 <= i < |all| && all[i].row == x
    {
      if x == c {
        if r.Ok? && Keeps(parent, t[c]) { assert all[0].row == x; }
      } else {
        assert x in tail;
        if i :| 0 <= i < |es| && es[i].row == x { assert all[|all| - |es| + i].row == x; }
      }
    }
    forall i | 0 <= i < |all|
      ensures all[i].row in cs && all[i].row < |t| && !t[all[i].row].skipped && !(parent.union && t[all[i].row].tags)
        && Accounted(t, all[i], skips) && Within(all[i], depth)
    {
      if i >= |all| - |es| { assert all[i] == es[i - (|all| - |es|)]; }
    }
  }

  // ---- what comes out, exactly ----

  /** A type fails to decode on its own account alone: its nested types can
      only stop the whole assembly. */
  lemma UndecodableIff(t: seq<TypeDef>, idx: nat, depth: nat)
    requires InTable(t) && idx < |t|
    ensures Project(t, idx, depth).0.Undecodable? <==>
      !Project(t, idx, depth).0.CyclicTypeNesting? && !(t[idx].before && t[idx].after)
  {
  }

  /** The nested rows a type surfaces, in metadata order. */
  function Surfaced(t: seq<TypeDef>, parent: TypeDef, cs: seq<nat>): seq<nat>
    requires AllInTable(t, cs)
  {
    if cs == [] then []
    else
      var c := t[cs[0]];
      (if !c.skipped && c.before && c.after && !(parent.union && c.tags) then [cs[0]] else [])
      + Surfaced(t, parent, cs[1..])
  }

  function Rows(es: seq<Entity>): (r: seq<nat>)
    ensures |r| == |es| && forall i :: 0 <= i < |es| ==> r[i] == es[i].row
  {
    seq(|es|, i requires 0 <= i < |es| => es[i].row)
  }

  lemma RowInFront(e: Entity, es: seq<Entity>)
    ensures Rows([e] + es) == [e.row] + Rows(es) && [] + Rows(es) == Rows([] + es)
  {
    assert [] + es == es;
  }

  /** At every level, exactly the surfaced rows in their order. */
  ghost predicate Mirrors(t: seq<TypeDef>, e: Entity)
    requires InTable(t)
    decreases e
  {
    && e.row < |t|
    && Rows(e.nested) == Surfaced(t, t[e.row], t[e.row].nested)
    && forall i :: 0 <= i < |e.nested| ==> Mirrors(t, e.nested[i])
  }

  lemma {:induction false} SuccessMirrors(t: seq<TypeDef>, idx: nat, depth: nat)
    requires InTable(t) && idx < |t| && Project(t, idx, depth).0.Ok?
    ensures var e := Project(t, idx, depth).0.entity; e.row == idx && Mirrors(t, e)
    decreases if depth > MAX_NESTING_DEPTH then 0 else MAX_NESTING_DEPTH + 1 - depth, 0
  {
    SuccessesMirror(t, t[idx], t[idx].nested, depth + 1);
  }

  lemma {:induction false} SuccessesMirror(t: seq<TypeDef>, parent: TypeDef, cs: seq<nat>, depth: nat)
    requires InTable(t) && AllInTable(t, cs) && ProjectAll(t, parent, cs, depth).0.Kept?
    ensures var es := ProjectAll(t, parent, cs, depth).0.entities;
      Rows(es) == Surfaced(t, parent, cs) && forall i :: 0 <= i < |es| ==> Mirrors(t, es[i])
    decreases if depth > MAX_NESTING_DEPTH then 0 else MAX_NESTING_DEPTH + 1 - depth, 1 + |cs|
  {
    if cs != [] {
      var c, tail := cs[0], cs[1..];
      SuccessesMirror(t, parent, tail, depth);
      if !t[c].skipped {
        var r := Project(t, c, depth).0;
        UndecodableIff(t, c, depth);
        if r.Ok? {
          SuccessMirrors(t, c, depth);
          RowInFront(r.entity, ProjectAll(t, parent, tail, depth).0.entities);
        }
      }
    }
  }

  /** A descent from `idx` to another row, which does not decode. */
  ghost predicate DropsAt(t: seq<TypeDef>, idx: nat, c: nat, w: seq<nat>) {
    && |w| > 1 && w[0] == idx && w[|w| - 1] == c && Descends(t, w)
    && c < |t| && !(t[c].before && t[c].after)
  }

  /** Short of the fatal error, a row is recorded as dropped exactly when some
      descent ends at it and it does not decode. */
  lemma {:induction false} DroppedIff(t: seq<TypeDef>, idx: nat, depth: nat, c: nat)
    requires InTable(t) && idx < |t| && !Project(t, idx, depth).0.CyclicTypeNesting?
    ensures c in Project(t, idx, depth).1 <==> exists w :: DropsAt(t, idx, c, w)
    decreases if depth > MAX_NESTING_DEPTH then 0 else MAX_NESTING_DEPTH + 1 - depth, 0
  {
    if t[idx].before {
      var cs := t[idx].nested;
      ListDrops(t, t[idx], cs, depth + 1, c);
      if c in Project(t, idx, depth).1 {
        var i :| 0 <= i < |cs| && ChildDrops(t, cs[i], c);
        assert cs[i] in cs;
        if DropsAt(t, cs[i], c, [cs[i]]) || cs[i] == c {
          Prefixed(t, idx, [c]);
          assert DropsAt(t, idx, c, [idx] + [c]);
        } else {
          var w :| DropsAt(t, cs[i], c, w);
          Prefixed(t, idx, w);
          assert DropsAt(t, idx, c, [idx] + w);
        }
      }
      if w :| DropsAt(t, idx, c, w) {
        assert Into(t, w[1 - 1], w[1]);
        var i :| 0 <= i < |cs| && cs[i] == w[1];
        var rest := w[1..];
        forall k | 0 < k < |rest| ensures Into(t, rest[k - 1], rest[k]) { assert Into(t, w[k + 1 - 1], w[k + 1]); }
        if |rest| > 1 { assert DropsAt(t, cs[i], c, rest); }
        assert ChildDrops(t, cs[i], c);
      }
    } else {
      forall w | |w| > 1 && Descends(t, w) ensures Into(t, w[0], w[1]) { assert Into(t, w[1 - 1], w[1]); }
    }
  }

  /** A child that is dropped itself, or below which the row is. */
  ghost predicate ChildDrops(t: seq<TypeDef>, child: nat, c: nat)
    requires child < |t|
  {
    !t[child].skipped && ((child == c && !(t[c].before && t[c].after)) || exists w :: DropsAt(t, child, c, w))
  }

  lemma {:induction false} ListDrops(t: seq<TypeDef>, parent: TypeDef, cs: seq<nat>, depth: nat, c: nat)
    requires InTable(t) && AllInTable(t, cs) && ProjectAll(t, parent, cs, depth).0.Kept?
    ensures c in ProjectAll(t, parent, cs, depth).1 <==> exists i :: 0 <= i < |cs| && ChildDrops(t, cs[i], c)
    decreases if depth > MAX_NESTING_DEPTH then 0 else MAX_NESTING_DEPTH + 1 - depth, 1 + |cs|
  {
    if cs != [] {
      var child, tail := cs[0], cs[1..];
      ListDrops(t, parent, tail, depth, c);
      assert (exists i :: 0 <= i < |cs| && ChildDrops(t, cs[i], c)) <==>
        ChildDrops(t, child, c) || exists i :: 0 <= i < |tail| && ChildDrops(t, tail[i], c) by {
        if i :| 0 <= i < |tail| && ChildDrops(t, tail[i], c) { assert cs[i + 1] == tail[i]; }
        if i :| 0 <= i < |cs| && ChildDrops(t, cs[i], c) {
          if i > 0 { assert tail[i - 1] == cs[i]; }
        }
      }
      if !t[child].skipped {
        DroppedIff(t, child, depth, c);
        UndecodableIff(t, child, depth);
      }
    }
  }

  /** What an undecodable nested type drops is recorded right before it. */
  lemma DropsComeFirst(t: seq<TypeDef>, idx: nat, depth: nat, c: nat) returns (front: seq<nat>, back: seq<nat>)
    requires InTable(t) && idx < |t| && Into(t, idx, c) && !(t[c].before && t[c].after)
    requires !Project(t, idx, depth).0.CyclicTypeNesting?
    ensures Project(t, idx, depth).1 == front + (Project(t, c, depth + 1).1 + [c]) + back
  {
    var cs := t[idx].nested;
    var i :| 0 <= i < |cs| && cs[i] == c;
    front, back := ListDropsFirst(t, t[idx], cs, depth + 1, i);
  }

  lemma {:induction false} ListDropsFirst(t: seq<TypeDef>, parent: TypeDef, cs: seq<nat>, depth: nat, i: nat)
    returns (front: seq<nat>, back: seq<nat>)
    requires InTable(t) && AllInTable(t, cs) && ProjectAll(t, parent, cs, depth).0.Kept?
    requires i < |cs| && !t[cs[i]].skipped && !(t[cs[i]].before && t[cs[i]].after)
    ensures ProjectAll(t, parent, cs, depth).1 == front + (Project(t, cs[i], depth).1 + [cs[i]]) + back
    decreases |cs|
  {
    var tail := cs[1..];
    if i == 0 {
      front, back := [], ProjectAll(t, parent, tail, depth).1;
    } else {
      assert tail[i - 1] == cs[i];
      front, back := ListDropsFirst(t, parent, tail, depth, i - 1);
      if !t[cs[0]].skipped {
        var (r, s1) := Project(t, cs[0], depth);
        var before := s1 + if r.Undecodable? then [cs[0]] else [];
        Lists.Associate4(before, front, Project(t, cs[i], depth).1 + [cs[i]], back);
        front := before + front;
      }
    }
  }

  // ---- the projector, with its shared list of dropped items ----

  class SkipSink {
    var skips: seq<nat>

    constructor ()
      ensures skips == []
    {
      skips := [];
    }
  }

  /** `project_entity`: the specified result, appending the specified drops. */
  method ProjectEntity(t: seq<TypeDef>, idx: nat, depth: nat, sink: SkipSink) returns (r: Result)
    requires InTable(t) && idx < |t|
    modifies sink
    ensures r == Project(t, idx, depth).0
    ensures sink.skips == old(sink.skips) + Project(t, idx, depth).1
    decreases if depth > MAX_NESTING_DEPTH then 0 else MAX_NESTING_DEPTH + 1 - depth
  {
    if depth > MAX_NESTING_DEPTH {
      return CyclicTypeNesting;
    }
    var td := t[idx];
    if !td.before {
      return Undecodable;
    }
    var nested: seq<Entity> := [];
    ghost var all := ProjectAll(t, td, td.nested, depth + 1);
    ghost var before := sink.skips;
    var i := 0;
    while i < |td.nested|
      invariant 0 <= i <= |td.nested|
      invariant ToDo(t, td, td.nested[i..], depth + 1, nested, sink.skips, all, before)
    {
      var child := td.nested[i];
      Lists.From(td.nested, i);
      TurnOver(t, td, td.nested[i..], depth + 1, nested, sink.skips, all, before);
      if !t[child].skipped {
        var projected := ProjectEntity(t, child, depth + 1, sink);
        match projected {
          case CyclicTypeNesting => return CyclicTypeNesting;
          case Undecodable => sink.skips := sink.skips + [child];
          case Ok(entity) => if Keeps(td, t[child]) { nested := nested + [entity]; }
        }
      }
      i := i + 1;
    }
    r := if td.after then Ok(Entity(idx, nested)) else Undecodable;
  }

  /** What the loop still has to add to reach the specified result. */
  ghost predicate ToDo(
    t: seq<TypeDef>, parent: TypeDef, cs: seq<nat>, depth: nat,
    done: seq<Entity>, skips: seq<nat>, all: (Children, seq<nat>), before: seq<nat>)
    requires InTable(t)
  {
    && AllInTable(t, cs)
    && var (rest, more) := ProjectAll(t, parent, cs, depth);
       && before + all.1 == skips + more
       && (all.0.Fatal? <==> rest.Fatal?)
       && (all.0.Kept? ==> all.0.entities == done + rest.entities)
  }

  /** One turn of the loop, by the outcome of the child it looks at. */
  lemma TurnOver(
    t: seq<TypeDef>, parent: TypeDef, cs: seq<nat>, depth: nat,
    done: seq<Entity>, skips: seq<nat>, all: (Children, seq<nat>), before: seq<nat>)
    requires InTable(t) && cs != [] && ToDo(t, parent, cs, depth, done, skips, all, before)
    ensures var c := cs[0];
      if t[c].skipped then ToDo(t, parent, cs[1..], depth, done, skips, all, before)
      else
        var (r, s1) := Project(t, c, depth);
        match r
        case CyclicTypeNesting => all.0.Fatal? && before + all.1 == skips + s1
        case Undecodable => ToDo(t, parent, cs[1..], depth, done, skips + s1 + [c], all, before)
        case Ok(e) =>
          ToDo(t, parent, cs[1..], depth, if Keeps(parent, t[c]) then done + [e] else done, skips + s1, all, before)
  {
    var c, tail := cs[0], cs[1..];
    if !t[c].skipped {
      var (r, s1) := Project(t, c, depth);
      var (rest, s2) := ProjectAll(t, parent, tail, depth);
      if !r.CyclicTypeNesting? {
        var here := if r.Undecodable? then [c] else [];
        assert skips + (s1 + here + s2) == skips + s1 + here + s2;
        if r.Ok? { assert skips + s1 + here == skips + s1; }
        if rest.Kept? && r.Ok? && Keeps(parent, t[c]) { Lists.Associate(done, [r.entity], rest.entities); }
        if rest.Kept? { assert done + ([] + rest.entities) == done + rest.entities; }
      }
    }
  }
}
