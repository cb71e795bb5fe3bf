/** What it takes for two encodings to fit: the strings they are written from,
    and the rule for the ranks between their brackets. */
module ArrayLaws {
  import opened Options
  import opened Text
  import opened ArraySuffixes
  import Lists

  // ---- what a parsed string is ----

  /** Text, a bracket group, and what follows. */
  ghost function Grouped(text: string, dims: string, rest: string): string { text + (['['] + (dims + ([']'] + rest))) }

  /** The string a parse stands for. */
  ghost function Spelled(groups: seq<Group>, tail: string): string {
    if groups == [] then tail else Grouped(groups[0].text, groups[0].dims, Spelled(groups[1..], tail))
  }

  ghost predicate Cleft(groups: seq<Group>, tail: string) {
    '[' !in tail && forall i :: 0 <= i < |groups| ==> '[' !in groups[i].text && ']' !in groups[i].dims
  }

  /** A string parses exactly as the texts and groups it is written from. */
  lemma ParseIsExact(s: string, groups: seq<Group>, tail: string)
    ensures Parse(s) == Some(Parsed(groups, tail)) <==> Cleft(groups, tail) && s == Spelled(groups, tail)
  {
    ParseWrites(s);
    if Cleft(groups, tail) && s == Spelled(groups, tail) { SpelledParses(groups, tail); }
  }

  /** A mark stands where the text without it ends. */
  lemma MarkStands(front: string, c: char, back: string)
    requires c !in front
    ensures var s := front + ([c] + back);
      IndexOf(s, c) == Some(|front|) && s[..|front|] == front && s[|front|..] == [c] + back && s[|front| + 1..] == back
  {
    IndexOfAbsent(front, c);
    IndexOfPrefix(front, [c] + back, c);
    Lists.Cut(front, c, back);
  }

  lemma CutGrouped(text: string, dims: string, rest: string)
    requires '[' !in text && ']' !in dims
    ensures CutGroup(Grouped(text, dims, rest)) == Cut(text, dims, rest)
  {
    MarkStands(text, '[', dims + ([']'] + rest));
    CutFromGrouped(text, dims, rest);
  }

  lemma CutFromGrouped(text: string, dims: string, rest: string)
    requires ']' !in dims
    ensures CutFrom(text, ['['] + (dims + ([']'] + rest))) == Cut(text, dims, rest)
  {
    var from := ['['] + (dims + ([']'] + rest));
    MarkStands(['['] + dims, ']', rest);
    Lists.Associate(['['], dims, [']'] + rest);
    assert from[1..|dims| + 1] == dims;
  }

  lemma {:induction false} SpelledParses(groups: seq<Group>, tail: string)
    requires Cleft(groups, tail)
    ensures Parse(Spelled(groups, tail)) == Some(Parsed(groups, tail))
    decreases |groups|
  {
    if groups == [] {
      IndexOfAbsent(tail, '[');
    } else {
      SpelledParses(groups[1..], tail);
      ParseGrouped(groups[0], Spelled(groups[1..], tail));
      Lists.Uncons(groups);
    }
  }

  lemma ParseGrouped(g: Group, rest: string)
    requires '[' !in g.text && ']' !in g.dims && Parse(rest).Some?
    ensures Parse(Grouped(g.text, g.dims, rest)) == Some(Parsed([g] + Parse(rest).value.groups, Parse(rest).value.tail))
  {
    CutGrouped(g.text, g.dims, rest);
  }

  lemma CutIsGrouped(s: string)
    requires CutGroup(s).Cut?
    ensures var g := CutGroup(s); '[' !in g.text && ']' !in g.dims && s == Grouped(g.text, g.dims, g.rest)
  {
    var k := IndexOf(s, '[').value;
    FirstIndex(s, '[');
    CutFromIsGrouped(s[..k], s[k..]);
    InTwo(s, k);
  }

  lemma InTwo(s: string, k: nat)
    requires k <= |s|
    ensures s == s[..k] + s[k..]
  {
  }

  lemma CutFromIsGrouped(text: string, from: string)
    requires from != [] && from[0] == '[' && CutFrom(text, from).Cut?
    ensures var g := CutFrom(text, from);
      g.text == text && ']' !in g.dims && from == ['['] + (g.dims + ([']'] + g.rest))
  {
    FirstIndex(from, ']');
    FromIsGrouped(from, IndexOf(from, ']').value);
  }

  lemma FromIsGrouped(from: string, c: nat)
    requires 0 < c < |from| && from[0] == '[' && from[c] == ']' && ']' !in from[..c]
    ensures ']' !in from[1..c] && from == ['['] + (from[1..c] + ([']'] + from[c + 1..]))
  {
    assert from[..c] == ['['] + from[1..c];
    assert from[c..] == [']'] + from[c + 1..];
    assert from == from[..c] + from[c..];
    Lists.Associate(['['], from[1..c], from[c..]);
  }

  lemma {:induction false} ParseWrites(s: string)
    ensures Parse(s).Some? ==>
      Cleft(Parse(s).value.groups, Parse(s).value.tail) && s == Spelled(Parse(s).value.groups, Parse(s).value.tail)
    decreases |s|
  {
    IndexOfAbsent(s, '[');
    var g := CutGroup(s);
    if g.Cut? && Parse(g.rest).Some? {
      CutIsGrouped(s);
      ParseWrites(g.rest);
      var p := Parse(g.rest).value;
      InFront(Group(g.text, g.dims), p.groups, p.tail);
    }
  }

  lemma InFront(g: Group, groups: seq<Group>, tail: string)
    requires Cleft(groups, tail) && '[' !in g.text && ']' !in g.dims
    ensures Cleft([g] + groups, tail) && Spelled([g] + groups, tail) == Grouped(g.text, g.dims, Spelled(groups, tail))
  {
    var all := [g] + groups;
    assert all[1..] == groups;
  }

  // ---- the rule for ranks ----

  /** The white space of Unicode. */
  ghost predicate IsBlank(c: char) {
    c as int in {9, 10, 11, 12, 13, 0x20, 0x85, 0xA0, 0x1680, 0x2000, 0x2001, 0x2002, 0x2003, 0x2004, 0x2005, 0x2006,
                 0x2007, 0x2008, 0x2009, 0x200A, 0x2028, 0x2029, 0x202F, 0x205F, 0x3000}
  }

  /** Nothing but white space between the brackets, as of a vector. */
  ghost predicate IsVector(dims: string) { forall c :: c in dims ==> IsBlank(c) }

  /** A vector for a vector; otherwise as many commas, or one fewer. */
  ghost predicate RanksAgree(key: string, il: string) {
    && (IsVector(key) <==> IsVector(il))
    && (!IsVector(key) ==> multiset(key)[','] <= multiset(il)[','] <= multiset(key)[','] + 1)
  }

  lemma {:induction false} CommasAreCounted(s: string)
    ensures Commas(s) == multiset(s)[',']
    decreases |s|
  {
    if s != [] {
      CommasAreCounted(s[1..]);
      assert s == [s[0]] + s[1..];
    }
  }

  lemma VectorIsBlank(s: string)
    ensures Blank(s) <==> IsVector(s)
  {
    if Blank(s) {
      forall c | c in s ensures IsBlank(c) { var i :| 0 <= i < |s| && s[i] == c; }
    } else {
      var i :| 0 <= i < |s| && !IsBlank(s[i]);
      assert s[i] in s;
    }
  }

  lemma RankRule(key: string, il: string)
    ensures RankFits(Specs(key), Specs(il)) <==> RanksAgree(key, il)
  {
    CommasAreCounted(key);
    CommasAreCounted(il);
    VectorIsBlank(key);
    VectorIsBlank(il);
  }

  /** Two encodings fit exactly when they are written with the same text outside
      their brackets and with ranks that agree inside. */
  lemma ArraysFitExactly(key: string, il: string)
    ensures ArraysFit(key, il) <==> exists gs, hs, tail :: FitsAs(key, il, gs, hs, tail)
  {
    ArraysFitIsExact(key, il);
    if ArraysFit(key, il) {
      var p, q := Parse(key).value, Parse(il).value;
      ParseIsExact(key, p.groups, p.tail);
      ParseIsExact(il, q.groups, q.tail);
      forall i | 0 <= i < |p.groups| ensures RanksAgree(p.groups[i].dims, q.groups[i].dims) {
        RankRule(p.groups[i].dims, q.groups[i].dims);
      }
      assert FitsAs(key, il, p.groups, q.groups, p.tail);
    }
    if gs: seq<Group>, hs: seq<Group>, tail: string :| FitsAs(key, il, gs, hs, tail) {
      ParseIsExact(key, gs, tail);
      ParseIsExact(il, hs, tail);
      forall i | 0 <= i < |gs| ensures RankFits(Specs(gs[i].dims), Specs(hs[i].dims)) {
        RankRule(gs[i].dims, hs[i].dims);
      }
    }
  }

  ghost predicate FitsAs(key: string, il: string, gs: seq<Group>, hs: seq<Group>, tail: string) {
    && Cleft(gs, tail) && Cleft(hs, tail) && key == Spelled(gs, tail) && il == Spelled(hs, tail)
    && |gs| == |hs| && forall i :: 0 <= i < |gs| ==> gs[i].text == hs[i].text && RanksAgree(gs[i].dims, hs[i].dims)
  }
}
