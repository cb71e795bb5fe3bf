/** `union_accessor_impls`: the interface members a property's or event's
    accessors implement, one entry per member. */
module AccessorUnion {
  import opened Options

  /** A row whose member was not resolved stays a row of its own. */
  datatype Member = Resolved(id: nat) | Unresolved(id: nat)

  datatype Impl = Impl(interface: nat, member: Member, declarations: Option<seq<nat>>)

  /** Two rows for one resolved interface member. */
  predicate Same(a: Impl, b: Impl) {
    b.member.Resolved? && a.interface == b.interface && a.member == b.member
  }

  // ---- the fold, one row at a time ----

  function Append(a: seq<nat>, b: seq<nat>): seq<nat>
    decreases b
  {
    if b == [] then a
    else Append(if b[0] in a then a else a + [b[0]], b[1..])
  }

  function Combine(a: Option<seq<nat>>, b: Option<seq<nat>>): Option<seq<nat>> {
    if a.Some? && b.Some? then Some(Append(a.value, b.value)) else None
  }

  /** The first entry for the same member, or the length when there is none. */
  function Find(out: seq<Impl>, ei: Impl): (k: nat)
    ensures k <= |out|
    ensures k < |out| ==> Same(out[k], ei)
    ensures forall i :: 0 <= i < k ==> !Same(out[i], ei)
  {
    if out == [] || Same(out[0], ei) then 0 else 1 + Find(out[1..], ei)
  }

  function AddRow(out: seq<Impl>, ei: Impl): seq<Impl> {
    var k := Find(out, ei);
    if k == |out| then out + [ei]
    else out[k := out[k].(declarations := Combine(out[k].declarations, ei.declarations))]
  }

  function Union(impls: seq<Impl>): seq<Impl> {
    if impls == [] then [] else AddRow(Union(impls[..|impls| - 1]), impls[|impls| - 1])
  }

  // ---- the grouping it amounts to ----

  /** Rows of one interface member: resolved to the same one, under the same
      interface. */
  ghost predicate OneMember(a: Impl, b: Impl) {
    a.interface == b.interface && exists id :: a.member == Resolved(id) && b.member == Resolved(id)
  }

  ghost predicate Mentions(impls: seq<Impl>, x: Impl) {
    exists i :: 0 <= i < |impls| && OneMember(impls[i], x)
  }

  /** The rows that open a group: unresolved ones, and the first row for each
      resolved member, in order. */
  ghost function Heads(impls: seq<Impl>): seq<Impl> {
    if impls == [] then []
    else
      var init, last := impls[..|impls| - 1], impls[|impls| - 1];
      Heads(init) + (if Mentions(init, last) then [] else [last])
  }

  ghost function Bare(e: Impl): Impl { e.(declarations := None) }

  ghost predicate SameGroups(out: seq<Impl>, heads: seq<Impl>) {
    |out| == |heads| && forall i :: 0 <= i < |out| ==> Bare(out[i]) == Bare(heads[i])
  }

  lemma {:induction false} HeadsMention(impls: seq<Impl>, x: Impl)
    ensures Mentions(impls, x) <==> Mentions(Heads(impls), x)
    decreases |impls|
  {
    if impls != [] {
      var init, last := impls[..|impls| - 1], impls[|impls| - 1];
      HeadsMention(init, x);
      HeadsMention(init, last);
      var heads := Heads(impls);
      if i :| 0 <= i < |impls| && OneMember(impls[i], x) {
        if i < |init| {
          assert OneMember(init[i], x);
          var j :| 0 <= j < |Heads(init)| && OneMember(Heads(init)[j], x);
          assert OneMember(heads[j], x);
        } else if Mentions(init, last) {
          var j :| 0 <= j < |Heads(init)| && OneMember(Heads(init)[j], last);
          assert OneMember(heads[j], x);
        } else {
          assert OneMember(heads[|heads| - 1], x);
        }
      }
      if j :| 0 <= j < |heads| && OneMember(heads[j], x) {
        if j < |Heads(init)| {
          assert OneMember(Heads(init)[j], x);
          var i :| 0 <= i < |init| && OneMember(init[i], x);
          assert OneMember(impls[i], x);
        } else {
          assert OneMember(impls[|impls| - 1], x);
        }
      }
    }
  }

  lemma GroupsMention(out: seq<Impl>, heads: seq<Impl>, x: Impl)
    requires SameGroups(out, heads)
    ensures Mentions(out, x) <==> Mentions(heads, x)
  {
    if i :| 0 <= i < |out| && OneMember(out[i], x) {
      assert Bare(out[i]) == Bare(heads[i]) && OneMember(heads[i], x);
    }
    if i :| 0 <= i < |heads| && OneMember(heads[i], x) {
      assert Bare(out[i]) == Bare(heads[i]) && OneMember(out[i], x);
    }
  }

  lemma FindTells(out: seq<Impl>, x: Impl)
    ensures Find(out, x) == |out| <==> !Mentions(out, x)
    ensures Find(out, x) < |out| ==> OneMember(out[Find(out, x)], x)
  {
    var k := Find(out, x);
    SameIsOneMember(x);
    if i :| 0 <= i < |out| && OneMember(out[i], x) { assert Same(out[i], x); }
    if k < |out| { assert OneMember(out[k], x); }
  }

  lemma SameIsOneMember(x: Impl)
    ensures forall e :: Same(e, x) <==> OneMember(e, x)
  {
    forall e ensures Same(e, x) <==> OneMember(e, x) {
      if Same(e, x) { assert e.member == Resolved(x.member.id); }
    }
  }

  /** Every row has its entry. */
  lemma EveryRowIsThere(impls: seq<Impl>, i: nat)
    requires i < |impls|
    ensures exists k :: 0 <= k < |Union(impls)|
              && Union(impls)[k].interface == impls[i].interface && Union(impls)[k].member == impls[i].member
  {
    UnionHasHeads(impls);
    HeadsMention(impls, impls[i]);
    if impls[i].member.Resolved? {
      assert impls[i].member == Resolved(impls[i].member.id);
      assert OneMember(impls[i], impls[i]);
      var k :| 0 <= k < |Heads(impls)| && OneMember(Heads(impls)[k], impls[i]);
      assert Bare(Union(impls)[k]) == Bare(Heads(impls)[k]);
    } else {
      var k := UnresolvedOpens(impls, i);
      assert Bare(Union(impls)[k]) == Bare(Heads(impls)[k]);
    }
  }

  lemma {:induction false} UnresolvedOpens(impls: seq<Impl>, i: nat) returns (k: nat)
    requires i < |impls| && impls[i].member.Unresolved?
    ensures k < |Heads(impls)| && Heads(impls)[k] == impls[i]
    decreases |impls|
  {
    var init := impls[..|impls| - 1];
    if i < |init| {
      k := UnresolvedOpens(init, i);
    } else {
      assert !Mentions(init, impls[i]);
      k := |Heads(init)|;
    }
  }

  /** The result has exactly one entry per group, in first-seen order. */
  lemma {:induction false} UnionHasHeads(impls: seq<Impl>)
    ensures SameGroups(Union(impls), Heads(impls))
    decreases |impls|
  {
    if impls != [] {
      var init, last := impls[..|impls| - 1], impls[|impls| - 1];
      UnionHasHeads(init);
      HeadsMention(init, last);
      GroupsMention(Union(init), Heads(init), last);
      FindTells(Union(init), last);
    }
  }

  /** No two entries are for one resolved member. */
  lemma {:induction false} HeadsAreDistinct(impls: seq<Impl>, i: nat, j: nat)
    requires i < j < |Heads(impls)|
    ensures !OneMember(Heads(impls)[i], Heads(impls)[j])
    decreases |impls|
  {
    var init, last := impls[..|impls| - 1], impls[|impls| - 1];
    if j < |Heads(init)| {
      HeadsAreDistinct(init, i, j);
    } else {
      HeadsMention(init, last);
      assert Heads(impls)[j] == last;
      assert Heads(impls)[i] == Heads(init)[i];
    }
  }

  lemma EntriesAreDistinct(impls: seq<Impl>, i: nat, j: nat)
    requires i < j < |Union(impls)|
    ensures !OneMember(Union(impls)[i], Union(impls)[j])
  {
    UnionHasHeads(impls);
    HeadsAreDistinct(impls, i, j);
    assert Bare(Union(impls)[i]) == Bare(Heads(impls)[i]) && Bare(Union(impls)[j]) == Bare(Heads(impls)[j]);
  }

  // ---- unresolved rows ----

  function OnlyUnresolved(impls: seq<Impl>): seq<Impl> {
    if impls == [] then []
    else
      var last := impls[|impls| - 1];
      OnlyUnresolved(impls[..|impls| - 1]) + (if last.member.Unresolved? then [last] else [])
  }

  lemma {:induction false} UpdateKeepsUnresolved(out: seq<Impl>, k: nat, e: Impl)
    requires k < |out| && out[k].member.Resolved? && e.member.Resolved?
    ensures OnlyUnresolved(out[k := e]) == OnlyUnresolved(out)
    decreases |out|
  {
    var n := |out| - 1;
    if k < n {
      UpdateKeepsUnresolved(out[..n], k, e);
      assert out[k := e][..n] == out[..n][k := e];
    } else {
      assert out[k := e][..n] == out[..n];
    }
  }

  /** Every unresolved row survives, as it was, in order and as often. */
  lemma {:induction false} UnresolvedSurvive(impls: seq<Impl>)
    ensures OnlyUnresolved(Union(impls)) == OnlyUnresolved(impls)
    decreases |impls|
  {
    if impls != [] {
      var init, last := impls[..|impls| - 1], impls[|impls| - 1];
      UnresolvedSurvive(init);
      var out, k := Union(init), Find(Union(init), last);
      if k == |out| {
        assert (out + [last])[..|out|] == out;
      } else {
        UpdateKeepsUnresolved(out, k, out[k].(declarations := Combine(out[k].declarations, last.declarations)));
      }
    }
  }

  // ---- declarations ----

  /** Every row of this member knows its declarations. */
  ghost predicate AllKnown(impls: seq<Impl>, x: Impl) {
    forall i :: 0 <= i < |impls| && OneMember(impls[i], x) ==> impls[i].declarations.Some?
  }

  ghost predicate Declares(e: Impl, d: nat) { e.declarations.Some? && d in e.declarations.value }

  ghost predicate Declared(impls: seq<Impl>, x: Impl, d: nat) {
    exists i :: 0 <= i < |impls| && OneMember(impls[i], x) && Declares(impls[i], d)
  }

  ghost predicate NoRepeats(s: seq<nat>) {
    forall i, j :: 0 <= i < j < |s| ==> s[i] != s[j]
  }

  lemma {:induction false} AppendIsUnion(a: seq<nat>, b: seq<nat>)
    ensures a <= Append(a, b)
    ensures forall d :: d in Append(a, b) <==> d in a || d in b
    ensures NoRepeats(a) <==> NoRepeats(Append(a, b))
    decreases |b|
  {
    if b != [] {
      AppendIsUnion(if b[0] in a then a else a + [b[0]], b[1..]);
      assert forall d :: d in b <==> d == b[0] || d in b[1..];
    }
  }

  /** What is appended comes in the order of the row, each at its first place. */
  lemma {:induction false} AppendKeepsOrder(a: seq<nat>, b: seq<nat>, i: nat, j: nat) returns (u: nat, v: nat)
    requires |a| <= i < j < |Append(a, b)|
    ensures u < v < |b| && b[u] == Append(a, b)[i] && b[v] == Append(a, b)[j]
    ensures forall w :: 0 <= w < v ==> b[w] != Append(a, b)[j]
    decreases |b|
  {
    var a' := if b[0] in a then a else a + [b[0]];
    AppendIsUnion(a', b[1..]);
    if i >= |a'| {
      u, v := AppendKeepsOrder(a', b[1..], i, j);
      u, v := u + 1, v + 1;
      assert b[0] in a';
      NotAgain(a', b[1..], b[0], j);
    } else {
      assert Append(a, b)[i] == b[0];
      u := 0;
      v := AppendFirst(a', b[1..], j);
      v := v + 1;
      NotAgain(a', b[1..], b[0], j);
    }
  }

  lemma {:induction false} AppendFirst(a: seq<nat>, b: seq<nat>, j: nat) returns (v: nat)
    requires |a| <= j < |Append(a, b)|
    ensures v < |b| && b[v] == Append(a, b)[j] && forall w :: 0 <= w < v ==> b[w] != Append(a, b)[j]
    decreases |b|
  {
    var a' := if b[0] in a then a else a + [b[0]];
    AppendIsUnion(a', b[1..]);
    if j < |a'| {
      v := 0;
    } else {
      v := AppendFirst(a', b[1..], j);
      v := v + 1;
      NotAgain(a', b[1..], b[0], j);
    }
  }

  /** Nothing already there is appended again. */
  lemma {:induction false} NotAgain(a: seq<nat>, b: seq<nat>, d: nat, j: nat)
    requires d in a && |a| <= j < |Append(a, b)|
    ensures Append(a, b)[j] != d
    decreases |b|
  {
    var a' := if b[0] in a then a else a + [b[0]];
    AppendIsUnion(a', b[1..]);
    if j >= |a'| { NotAgain(a', b[1..], d, j); }
  }

  /** An entry's declarations are the union over its group when every row of
      the group knows its own, and unknown as soon as one does not. */
  ghost predicate Gathers(impls: seq<Impl>, o: Impl) {
    && (o.declarations.Some? <==> AllKnown(impls, o))
    && (o.declarations.Some? ==> forall d :: d in o.declarations.value <==> Declared(impls, o, d))
  }

  lemma MentionLast(impls: seq<Impl>, x: Impl)
    requires impls != []
    ensures var init, last := impls[..|impls| - 1], impls[|impls| - 1];
      && (AllKnown(impls, x) <==> AllKnown(init, x) && (OneMember(last, x) ==> last.declarations.Some?))
      && (forall d :: Declared(impls, x, d) <==>
            Declared(init, x, d) || (OneMember(last, x) && Declares(last, d)))
      && (Mentions(impls, x) <==> Mentions(init, x) || OneMember(last, x))
  {
    var init, n := impls[..|impls| - 1], |impls| - 1;
    assert forall i :: 0 <= i < n ==> init[i] == impls[i];
    forall d ensures Declared(impls, x, d) <==>
      Declared(init, x, d) || (OneMember(impls[n], x) && Declares(impls[n], d))
    {
      if i :| 0 <= i < |init| && OneMember(init[i], x) && Declares(init[i], d) {
        assert OneMember(impls[i], x);
      }
    }
    if i :| 0 <= i < |init| && OneMember(init[i], x) { assert OneMember(impls[i], x); }
  }

  lemma SameKeyGathers(impls: seq<Impl>, o: Impl, p: Impl)
    requires Bare(o) == Bare(p)
    ensures AllKnown(impls, o) <==> AllKnown(impls, p)
    ensures forall d :: Declared(impls, o, d) <==> Declared(impls, p, d)
  {
    assert forall e :: OneMember(e, o) <==> OneMember(e, p);
  }

  lemma NotMentioned(impls: seq<Impl>, x: Impl)
    requires !Mentions(impls, x)
    ensures AllKnown(impls, x) && forall d :: !Declared(impls, x, d)
  {
  }

  lemma {:induction false} EntriesGather(impls: seq<Impl>, k: nat)
    requires k < |Union(impls)| && Union(impls)[k].member.Resolved?
    ensures Gathers(impls, Union(impls)[k])
    decreases |impls|
  {
    var init, last := impls[..|impls| - 1], impls[|impls| - 1];
    var out, at, o := Union(init), Find(Union(init), last), Union(impls)[k];
    MentionLast(impls, o);
    UnionHasHeads(init);
    HeadsMention(init, last);
    GroupsMention(out, Heads(init), last);
    FindTells(out, last);
    if at == |out| && k == |out| {
      NotMentioned(init, last);
    } else {
      EntriesGather(init, k);
      SameKeyGathers(init, o, out[k]);
      if k == at {
        if out[k].declarations.Some? && last.declarations.Some? {
          AppendIsUnion(out[k].declarations.value, last.declarations.value);
        }
      } else if at < |out| {
        assert OneMember(out[at], last);
        if k < at { EntriesAreDistinct(init, k, at); } else { EntriesAreDistinct(init, at, k); }
      }
    }
  }

  /** The gathered list is duplicate-free exactly when the list of the group's
      first row is: that list is taken over as it stands. */
  lemma {:induction false} RepeatsComeFromHead(impls: seq<Impl>, k: nat)
    requires k < |Union(impls)| && Union(impls)[k].declarations.Some?
    ensures k < |Heads(impls)| && Heads(impls)[k].declarations.Some?
    ensures Heads(impls)[k].declarations.value <= Union(impls)[k].declarations.value
    ensures NoRepeats(Union(impls)[k].declarations.value) <==> NoRepeats(Heads(impls)[k].declarations.value)
    decreases |impls|
  {
    var init, last := impls[..|impls| - 1], impls[|impls| - 1];
    var out, at := Union(init), Find(Union(init), last);
    UnionHasHeads(init);
    UnionHasHeads(impls);
    HeadsMention(init, last);
    GroupsMention(out, Heads(init), last);
    FindTells(out, last);
    if k < |out| {
      RepeatsComeFromHead(init, k);
      if k == at { AppendIsUnion(out[k].declarations.value, last.declarations.value); }
    }
  }

  /** `project_implements` makes every row that is folded: of its one `MethodImpl`
      declaration it knows the signature, or nothing. */
  datatype MethodImpl = MethodImpl(interface: Option<nat>, member: Member, declaration: Option<nat>)

  /** A row whose interface does not project is dropped. */
  function ProjectImplements(rows: seq<MethodImpl>): (r: seq<Impl>)
    ensures forall i :: 0 <= i < |r| && r[i].declarations.Some? ==> |r[i].declarations.value| == 1
  {
    if rows == [] then []
    else
      var declarations := match rows[0].declaration case None => None case Some(d) => Some([d]);
      (match rows[0].interface case None => [] case Some(t) => [Impl(t, rows[0].member, declarations)])
      + ProjectImplements(rows[1..])
  }

  /** The rows whose interface projects. */
  ghost function Projecting(rows: seq<MethodImpl>): (r: seq<MethodImpl>)
    ensures forall i :: 0 <= i < |r| ==> r[i].interface.Some?
  {
    if rows == [] then []
    else (if rows[0].interface.Some? then [rows[0]] else []) + Projecting(rows[1..])
  }

  /** One row each, in order, with its interface, its member and at most its own
      declaration. */
  lemma {:induction false} ImplementsRowByRow(rows: seq<MethodImpl>)
    ensures var impls, kept := ProjectImplements(rows), Projecting(rows);
      |impls| == |kept| && forall i :: 0 <= i < |kept| ==>
        && impls[i].interface == kept[i].interface.value && impls[i].member == kept[i].member
        && (impls[i].declarations.Some? <==> kept[i].declaration.Some?)
        && (kept[i].declaration.Some? ==> impls[i].declarations == Some([kept[i].declaration.value]))
    decreases |rows|
  {
    if rows != [] { ImplementsRowByRow(rows[1..]); }
  }

  lemma {:induction false} HeadsAreRows(impls: seq<Impl>, k: nat)
    requires k < |Heads(impls)|
    ensures Heads(impls)[k] in impls
    decreases |impls|
  {
    var init := impls[..|impls| - 1];
    if k < |Heads(init)| { HeadsAreRows(init, k); }
  }

  /** So on every list the projector folds, a merged entry's declarations are
      the union of its group's, each exactly once. */
  lemma MergedDeclarationsAreDistinct(rows: seq<MethodImpl>, k: nat)
    requires k < |Union(ProjectImplements(rows))|
    ensures var impls := ProjectImplements(rows);
      var entry := Union(impls)[k];
      && (entry.declarations.Some? ==> NoRepeats(entry.declarations.value))
      && (entry.member.Resolved? ==> Gathers(impls, entry))
  {
    var impls := ProjectImplements(rows);
    if Union(impls)[k].declarations.Some? {
      RepeatsComeFromHead(impls, k);
      HeadsAreRows(impls, k);
    }
    if Union(impls)[k].member.Resolved? { EntriesGather(impls, k); }
  }

  // ---- the loop ----

  method MergeDeclarations(a: seq<nat>, b: seq<nat>) returns (r: seq<nat>)
    ensures r == Append(a, b)
  {
    r := a;
    var i := 0;
    while i < |b|
      invariant 0 <= i <= |b|
      invariant Append(r, b[i..]) == Append(a, b)
    {
      assert b[i..][1..] == b[i + 1..];
      if b[i] !in r {
        r := r + [b[i]];
      }
      i := i + 1;
    }
  }

  method UnionAccessorImpls(impls: seq<Impl>) returns (out: seq<Impl>)
    ensures out == Union(impls)
  {
    out := [];
    var i := 0;
    while i < |impls|
      invariant 0 <= i <= |impls|
      invariant out == Union(impls[..i])
    {
      var ei := impls[i];
      var k := 0;
      while k < |out| && !Same(out[k], ei)
        invariant 0 <= k <= |out|
        invariant forall j :: 0 <= j < k ==> !Same(out[j], ei)
      {
        k := k + 1;
      }
      FirstIsFind(out, ei, k);
      assert impls[..i + 1][..i] == impls[..i];
      if k == |out| {
        out := out + [ei];
      } else if out[k].declarations.Some? && ei.declarations.Some? {
        var merged := MergeDeclarations(out[k].declarations.value, ei.declarations.value);
        out := out[k := out[k].(declarations := Some(merged))];
      } else {
        out := out[k := out[k].(declarations := None)];
      }
      i := i + 1;
    }
    assert impls[..i] == impls;
  }

  lemma FirstIsFind(out: seq<Impl>, ei: Impl, k: nat)
    requires k <= |out| && (k < |out| ==> Same(out[k], ei)) && forall i :: 0 <= i < k ==> !Same(out[i], ei)
    ensures Find(out, ei) == k
  {
  }
}
