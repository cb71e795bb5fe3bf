/** `arrays_fit`: comparing two encoded types everywhere but in their array
    suffixes, where the two compilers count dimensions differently. */
module ArraySuffixes {
  import opened Options
  import opened Text

  /** `char::is_whitespace`. */
  predicate IsWhitespace(c: char) {
    var n := c as int;
    9 <= n <= 13 || n == 0x20 || n == 0x85 || n == 0xA0 || n == 0x1680 || 0x2000 <= n <= 0x200A
    || n == 0x2028 || n == 0x2029 || n == 0x202F || n == 0x205F || n == 0x3000
  }

  predicate Blank(s: string) { forall i :: 0 <= i < |s| ==> IsWhitespace(s[i]) }

  function Commas(s: string): nat {
    if s == [] then 0 else (if s[0] == ',' then 1 else 0) + Commas(s[1..])
  }

  /** The dimension specs between one pair of brackets; a vector has none. */
  function Specs(dims: string): nat { if Blank(dims) then 0 else Commas(dims) + 1 }

  /** A key's `d` specs against the IL's `r`: a vector only a vector, otherwise
      as many, or one fewer as current fsc writes them. */
  predicate RankFits(d: nat, r: nat) {
    if d == 0 || r == 0 then d == r else d == r || d + 1 == r
  }

  /** The first bracket group of a string. */
  datatype FirstGroup = NoBracket | Unclosed | Cut(text: string, dims: string, rest: string)

  function CutGroup(s: string): (r: FirstGroup)
    ensures r.Cut? ==> |r.rest| < |s|
  {
    match IndexOf(s, '[')
    case None => NoBracket
    case Some(k) => CutFrom(s[..k], s[k..])
  }

  /** The group `from` starts with, behind `text`. */
  function CutFrom(text: string, from: string): (r: FirstGroup)
    ensures r.Cut? ==> |r.rest| < |from|
  {
    match IndexOf(from, ']')
    case None => Unclosed
    case Some(c) => if c == 0 then Unclosed else Cut(text, from[1..c], from[c + 1..])
  }

  // ---- specification: texts and bracket groups ----

  datatype Group = Group(text: string, dims: string)

  /** A string as text, bracket group, text, …, with the text behind the last
      group; `None` when a bracket is never closed. */
  datatype Parsed = Parsed(groups: seq<Group>, tail: string)

  ghost function Parse(s: string): Option<Parsed>
    decreases |s|
  {
    match CutGroup(s)
    case NoBracket => Some(Parsed([], s))
    case Unclosed => None
    case Cut(text, dims, rest) =>
      match Parse(rest)
      case None => None
      case Some(p) => Some(Parsed([Group(text, dims)] + p.groups, p.tail))
  }

  /** The two agree outside brackets, and group by group the ranks fit. */
  ghost predicate Fits(p: Parsed, q: Parsed) {
    && p.tail == q.tail && |p.groups| == |q.groups|
    && forall i :: 0 <= i < |p.groups| ==>
         p.groups[i].text == q.groups[i].text && RankFits(Specs(p.groups[i].dims), Specs(q.groups[i].dims))
  }

  /** `arrays_fit` as a recursion over the remaining slices. */
  predicate ArraysFit(key: string, il: string)
    decreases |key|
  {
    match (CutGroup(key), CutGroup(il))
    case (NoBracket, NoBracket) => key == il
    case (Cut(t, d, rest), Cut(u, e, rest')) => t == u && RankFits(Specs(d), Specs(e)) && ArraysFit(rest, rest')
    case _ => false
  }

  /** It accepts exactly the pairs that parse and fit. */
  lemma {:induction false} ArraysFitIsExact(key: string, il: string)
    ensures ArraysFit(key, il) <==> Parse(key).Some? && Parse(il).Some? && Fits(Parse(key).value, Parse(il).value)
    decreases |key|
  {
    var k, i := CutGroup(key), CutGroup(il);
    if k.Cut? && i.Cut? {
      ArraysFitIsExact(k.rest, i.rest);
      if Parse(k.rest).Some? && Parse(i.rest).Some? {
        FitsFront(Parse(key).value, Parse(il).value, Parse(k.rest).value, Parse(i.rest).value);
      }
    }
  }

  lemma FitsFront(p: Parsed, q: Parsed, p': Parsed, q': Parsed)
    requires |p.groups| > 0 && |q.groups| > 0
    requires p.groups[1..] == p'.groups && q.groups[1..] == q'.groups && p.tail == p'.tail && q.tail == q'.tail
    ensures Fits(p, q) <==>
      && p.groups[0].text == q.groups[0].text && RankFits(Specs(p.groups[0].dims), Specs(q.groups[0].dims))
      && Fits(p', q')
  {
    if Fits(p, q) {
      forall j | 0 <= j < |p'.groups|
        ensures p'.groups[j].text == q'.groups[j].text
          && RankFits(Specs(p'.groups[j].dims), Specs(q'.groups[j].dims))
      {
        assert p'.groups[j] == p.groups[j + 1] && q'.groups[j] == q.groups[j + 1];
      }
    }
    if p.groups[0].text == q.groups[0].text && RankFits(Specs(p.groups[0].dims), Specs(q.groups[0].dims))
      && Fits(p', q') {
      forall j | 0 <= j < |p.groups|
        ensures p.groups[j].text == q.groups[j].text && RankFits(Specs(p.groups[j].dims), Specs(q.groups[j].dims))
      {
        if j > 0 { assert p'.groups[j - 1] == p.groups[j] && q'.groups[j - 1] == q.groups[j]; }
      }
    }
  }

  // ---- fitting strings may be joined ----

  lemma CutConcat(a: string, b: string)
    ensures match CutGroup(a)
            case Unclosed => true
            case Cut(t, d, rest) => CutGroup(a + b) == Cut(t, d, rest + b)
            case NoBracket =>
              match CutGroup(b)
              case NoBracket => CutGroup(a + b) == NoBracket
              case Unclosed => CutGroup(a + b) == Unclosed
              case Cut(t, d, rest) => CutGroup(a + b) == Cut(a + t, d, rest)
  {
    if CutGroup(a).Cut? {
      CutStays(a, b);
    } else if CutGroup(a).NoBracket? {
      CutMoves(a, b);
    }
  }

  lemma CutStays(a: string, b: string)
    requires CutGroup(a).Cut?
    ensures CutGroup(a + b) == Cut(CutGroup(a).text, CutGroup(a).dims, CutGroup(a).rest + b)
  {
    var k := IndexOf(a, '[').value;
    var c := IndexOf(a[k..], ']').value;
    IndexOfPrefix(a, b, '[');
    DropConcat(a, b, k);
    IndexOfPrefix(a[k..], b, ']');
    SliceConcat(a[k..], b, c);
  }

  lemma CutMoves(a: string, b: string)
    requires CutGroup(a).NoBracket?
    ensures CutGroup(b).NoBracket? ==> CutGroup(a + b).NoBracket?
    ensures CutGroup(b).Unclosed? ==> CutGroup(a + b).Unclosed?
    ensures CutGroup(b).Cut? ==> CutGroup(a + b) == CutGroup(b).(text := a + CutGroup(b).text)
  {
    IndexOfPrefix(a, b, '[');
    var at := IndexOf(b, '[');
    if at.Some? {
      DropBeyond(a, b, at.value);
      assert CutGroup(a + b) == CutFrom(a + b[..at.value], b[at.value..]);
      assert CutGroup(b) == CutFrom(b[..at.value], b[at.value..]);
      CutFromMoves(a, b[..at.value], b[at.value..]);
    }
  }

  /** The text in front of a group plays no part in cutting it. */
  lemma CutFromMoves(a: string, text: string, from: string)
    ensures match CutFrom(text, from)
            case Cut(t, d, rest) => CutFrom(a + text, from) == Cut(a + t, d, rest)
            case other => CutFrom(a + text, from) == other
  {
  }

  lemma DropConcat(a: string, b: string, k: nat)
    requires k <= |a|
    ensures (a + b)[k..] == a[k..] + b && (a + b)[..k] == a[..k]
  {
  }

  lemma DropBeyond(a: string, b: string, k: nat)
    requires k <= |b|
    ensures (a + b)[|a| + k..] == b[k..] && (a + b)[..|a| + k] == a + b[..k]
  {
  }

  lemma SliceConcat(a: string, b: string, c: nat)
    requires c < |a|
    ensures c > 0 ==> (a + b)[1..c] == a[1..c]
    ensures (a + b)[c + 1..] == a[c + 1..] + b
  {
  }

  /** `arrays_fit` is a congruence: fitting prefixes and fitting suffixes fit. */
  lemma {:induction false} FitsConcat(a: string, b: string, c: string, d: string)
    requires ArraysFit(a, b) && ArraysFit(c, d)
    ensures ArraysFit(a + c, b + d)
    decreases |a|
  {
    CutConcat(a, c);
    CutConcat(b, d);
    if CutGroup(a).Cut? {
      FitsConcat(CutGroup(a).rest, CutGroup(b).rest, c, d);
    }
  }

  lemma TextFitsItself(t: string)
    requires '[' !in t
    ensures ArraysFit(t, t)
  {
    IndexOfAbsent(t, '[');
  }

  /** One bracket group against another. */
  lemma GroupFits(x: string, y: string)
    requires ']' !in x && ']' !in y && RankFits(Specs(x), Specs(y))
    ensures ArraysFit("[" + x + "]", "[" + y + "]")
  {
    OneGroup(x);
    OneGroup(y);
    assert ArraysFit([], []);
  }

  lemma OneGroup(x: string)
    requires ']' !in x
    ensures CutGroup("[" + x + "]") == Cut([], x, [])
  {
    var a := "[" + x + "]";
    assert a == ("[" + x) + "]" && a[0..] == a && a[..0] == [];
    IndexOfPrefix("[" + x, "]", ']');
    IndexOfAbsent("[" + x, ']');
    assert a[1..|x| + 1] == x && a[|x| + 2..] == [];
  }

  // ---- the loop ----

  method ArraysFitLoop(key0: string, il0: string) returns (fits: bool)
    ensures fits == ArraysFit(key0, il0)
  {
    var key, il := key0, il0;
    while true
      invariant ArraysFit(key, il) == ArraysFit(key0, il0)
      decreases |key|
    {
      var k, i := IndexOf(key, '['), IndexOf(il, '[');
      if k.None? && i.None? {
        return key == il;
      }
      if k.None? || i.None? || key[..k.value] != il[..i.value] {
        return false;
      }
      var kc, ic := IndexOf(key[k.value..], ']'), IndexOf(il[i.value..], ']');
      if kc.None? || ic.None? {
        return false;
      }
      var keyGroup, ilGroup := CutGroup(key), CutGroup(il);
      assert keyGroup.Cut? && ilGroup.Cut?;
      if !RankFits(Specs(keyGroup.dims), Specs(ilGroup.dims)) {
        return false;
      }
      key, il := keyGroup.rest, ilGroup.rest;
    }
  }
}
