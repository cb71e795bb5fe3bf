/** What it takes for a recorded key to fit a member, and how its parts are
    found, apart from the scanners that find them. */
module KeyLaws {
  import opened Options
  import opened Decimals
  import opened Text
  import opened Signatures
  import opened DocIds

  // ---- names of primitives ----

  const VALUE_PRIMITIVES: seq<string> :=
    ["Void", "Boolean", "Char", "SByte", "Byte", "Int16", "UInt16", "Int32", "UInt32", "Int64", "UInt64",
     "Single", "Double", "IntPtr", "UIntPtr"]

  lemma PrimitivesAreNamed(code: nat)
    requires code < 15
    ensures |VALUE_PRIMITIVES| == 15
    ensures PrimitiveName(ValuePrimitive(code)) == "System." + VALUE_PRIMITIVES[code]
    ensures PrimitiveName(Object) == "System.Object" && PrimitiveName(String) == "System.String"
  {
    assert "System." + "Object" == "System.Object" && "System." + "String" == "System.String";
  }

  // ---- taking a key apart ----

  /** Splitting loses nothing but the commas it splits at. */
  lemma SplitKeepsText(list: string)
    ensures Join(SplitTopLevel(list), ",") == list
  {
    SplitFromKeepsText(list, 0, []);
    assert [] + list == list;
  }

  lemma {:induction false} SplitFromKeepsText(s: string, d: int, part: string)
    ensures Join(SplitFrom(s, d, part), ",") == part + s
    decreases |s|
  {
    if s == [] {
      assert part + s == part;
    } else if s[0] == ',' && d == 0 {
      SplitFromKeepsText(s[1..], 0, []);
      var rest := SplitFrom(s[1..], 0, []);
      assert ([part] + rest)[1..] == rest;
      assert part + "," + ([] + s[1..]) == part + s;
    } else {
      var d' := if s[0] == '{' || s[0] == '[' then d + 1 else if s[0] == '}' || s[0] == ']' then d - 1 else d;
      SplitFromKeepsText(s[1..], d', part + [s[0]]);
      assert part + [s[0]] + s[1..] == part + s;
    }
  }

  /** How deep in braces and brackets a text ends; closing more than was opened
      counts below zero. */
  ghost function Depth(s: string): int {
    var n := multiset(s);
    (n['{'] + n['[']) as int - (n['}'] + n[']']) as int
  }

  /** Every comma of a part stands inside something. */
  ghost predicate OnePart(s: string) { forall i :: 0 <= i < |s| && s[i] == ',' ==> Depth(s[..i]) != 0 }

  ghost predicate Parted(parts: seq<string>) {
    && (forall i :: 0 <= i < |parts| ==> OnePart(parts[i]))
    && (forall i :: 0 <= i < |parts| - 1 ==> Depth(parts[i]) == 0)
  }

  /** It splits at the commas of depth zero and at no other. */
  lemma SplitsAtDepthZero(list: string)
    ensures Parted(SplitTopLevel(list))
  {
    SplitFromAtDepthZero(list, 0, "");
  }

  lemma PartedInFront(part: string, rest: seq<string>)
    requires OnePart(part) && Depth(part) == 0 && Parted(rest)
    ensures Parted([part] + rest)
  {
    var all := [part] + rest;
    assert forall i :: 0 < i < |all| ==> all[i] == rest[i - 1];
  }

  lemma DepthGrows(s: string, c: char)
    ensures Depth(s + [c]) == Depth(s)
      + if c == '{' || c == '[' then 1 else if c == '}' || c == ']' then -1 else 0
  {
  }

  lemma PartGrows(part: string, c: char)
    requires OnePart(part) && (c == ',' ==> Depth(part) != 0)
    ensures OnePart(part + [c])
  {
    var s := part + [c];
    forall i | 0 <= i < |s| && s[i] == ',' ensures Depth(s[..i]) != 0 {
      if i < |part| { assert s[..i] == part[..i]; } else { assert s[..i] == part; }
    }
  }

  lemma {:induction false} SplitFromAtDepthZero(s: string, d: int, part: string)
    requires OnePart(part) && Depth(part) == d
    ensures Parted(SplitFrom(s, d, part))
    decreases |s|
  {
    if s != [] {
      if s[0] == ',' && d == 0 {
        SplitFromAtDepthZero(s[1..], 0, "");
        PartedInFront(part, SplitFrom(s[1..], 0, ""));
      } else {
        DepthGrows(part, s[0]);
        PartGrows(part, s[0]);
        var d' := if s[0] == '{' || s[0] == '[' then d + 1 else if s[0] == '}' || s[0] == ']' then d - 1 else d;
        SplitFromAtDepthZero(s[1..], d', part + [s[0]]);
      }
    }
  }

  /** A key has no parts exactly when a list is opened that the last character
      does not close; without a list the name is all of it. */
  lemma SplitKeyRefuses(key: string)
    ensures SplitKey(key).None? <==> '(' in key && key[|key| - 1] != ')'
    ensures '(' !in key ==> SplitKey(key) == Some((key, []))
  {
    IndexOfAbsent(key, '(');
    if '(' in key {
      var inner := key[IndexOf(key, '(').value + 1..];
      assert inner == [] || inner[|inner| - 1] == key[|key| - 1];
    }
  }

  /** What is closed is the list: the name ends at the first parenthesis. */
  lemma SplitKeyParts(key: string) returns (name: string, list: string)
    requires '(' in key && key[|key| - 1] == ')'
    ensures '(' !in name && key == name + ("(" + (list + ")"))
    ensures SplitKey(key) == Some((name, SplitTopLevel(list)))
  {
    IndexOfAbsent(key, '(');
    FirstIndex(key, '(');
    var open := IndexOf(key, '(').value;
    var inner := key[open + 1..];
    assert key[|key| - 1] == ')' && open < |key| - 1;
    name, list := key[..open], inner[..|inner| - 1];
    assert inner == list + ")";
    assert key == name + ("(" + inner);
    ListSplits(name, list);
  }

  /** Two backticks together. */
  ghost predicate TicksAt(s: string, i: int) { 0 <= i < |s| - 1 && s[i] == '`' && s[i + 1] == '`' }

  lemma {:induction false} LastTicks(s: string)
    ensures match LastDoubleTick(s)
      case Some(i) => TicksAt(s, i) && forall j :: i < j ==> !TicksAt(s, j)
      case None => forall j :: !TicksAt(s, j)
    decreases |s|
  {
    if |s| >= 2 && !TicksAt(s, |s| - 2) {
      var front := s[..|s| - 1];
      LastTicks(front);
      forall j ensures TicksAt(s, j) <==> TicksAt(front, j) { if TicksAt(s, j) { assert j != |s| - 2; } }
    }
  }

  /** A numeral with an optional plus sign. */
  ghost predicate Numeral(s: string, digits: string) {
    digits != [] && AllDigits(digits) && (s == digits || s == "+" + digits)
  }

  /** Exactly the numerals that fit a machine word are numbers. */
  lemma ParseUsizeExact(s: string, n: nat)
    ensures ParseUsize(s) == Some(n) <==>
      n <= 0xFFFF_FFFF_FFFF_FFFF && exists digits :: Numeral(s, digits) && DecimalValue(digits) == n
  {
    forall digits | Numeral(s, digits) ensures digits == if s[0] == '+' then s[1..] else s {
      assert IsDigit(digits[0]);
      assert ("+" + digits)[1..] == digits;
    }
    if ParseUsize(s) == Some(n) {
      var digits := if s[0] == '+' then s[1..] else s;
      assert s[0] == '+' ==> s == "+" + s[1..];
      assert Numeral(s, digits);
    }
  }

  lemma DigitsOf(s: string, n: nat) returns (digits: string)
    requires ParseUsize(s) == Some(n)
    ensures Numeral(s, digits) && DecimalValue(digits) == n
  {
    ParseUsizeExact(s, n);
    digits :| Numeral(s, digits) && DecimalValue(digits) == n;
  }

  /** The arity is the number behind the last two backticks, and zero without. */
  lemma KeyArityExact(name: string) returns (i: nat, digits: string)
    requires KeyArity(name) != 0
    ensures TicksAt(name, i) && forall j :: i < j ==> !TicksAt(name, j)
    ensures Numeral(name[i + 2..], digits) && DecimalValue(digits) == KeyArity(name)
  {
    LastTicks(name);
    i := LastDoubleTick(name).value;
    digits := DigitsOf(name[i + 2..], KeyArity(name));
  }

  // ---- when a key fits ----

  ghost predicate NamesWitness(s: string) { "Microsoft.FSharp.Core.FSharpFunc{" <= s }

  /** The key is a name and parameters of which the first are witnesses and the
      others fit the member's, one by one. */
  ghost predicate FitsAs(
    key: string, name: string, witnesses: seq<string>, own: seq<string>, il: seq<string>,
    arity: nat, erasedTypars: nat, isMethod: bool) {
    && SplitKey(key) == Some((name, witnesses + own))
    && (witnesses != [] ==> isMethod)
    && (forall i :: 0 <= i < |witnesses| ==> NamesWitness(witnesses[i]))
    && arity <= KeyArity(name) <= arity + erasedTypars
    && |own| == |il| && forall i :: 0 <= i < |il| ==> ParamFits(own[i], il[i])
  }

  lemma KeyFitsExactly(key: string, il: seq<string>, arity: nat, erasedTypars: nat, isMethod: bool)
    ensures KeyFits(key, il, arity, erasedTypars, isMethod) <==>
      exists name, witnesses, own :: FitsAs(key, name, witnesses, own, il, arity, erasedTypars, isMethod)
  {
    if KeyFits(key, il, arity, erasedTypars, isMethod) {
      var (name, params) := SplitKey(key).value;
      FittingKeySplits(key, name, params, il, arity, erasedTypars, isMethod);
    }
    if name, witnesses, own :| FitsAs(key, name, witnesses, own, il, arity, erasedTypars, isMethod) {
      PartsFit(key, name, witnesses, own, il, arity, erasedTypars, isMethod);
    }
  }

  lemma FittingKeySplits(
    key: string, name: string, params: seq<string>, il: seq<string>, arity: nat, erasedTypars: nat, isMethod: bool)
    requires KeyFits(key, il, arity, erasedTypars, isMethod) && SplitKey(key) == Some((name, params))
    ensures var w := |params| - |il|;
      w >= 0 && FitsAs(key, name, params[..w], params[w..], il, arity, erasedTypars, isMethod)
  {
    var w := |params| - |il|;
    assert params == params[..w] + params[w..];
    forall i | 0 <= i < w ensures NamesWitness(params[..w][i]) { assert IsWitness(params[i]); }
    AlignedFit(params, w, params[w..], il);
  }

  lemma PartsFit(
    key: string, name: string, witnesses: seq<string>, own: seq<string>, il: seq<string>,
    arity: nat, erasedTypars: nat, isMethod: bool)
    requires FitsAs(key, name, witnesses, own, il, arity, erasedTypars, isMethod)
    ensures KeyFits(key, il, arity, erasedTypars, isMethod)
  {
    forall i | 0 <= i < |witnesses| ensures IsWitness(witnesses[i]) { assert NamesWitness(witnesses[i]); }
    SplitFits(key, name, witnesses, own, il, arity, erasedTypars);
    OnlyMethodsHaveWitnesses(key, name, witnesses + own, il, arity, erasedTypars);
  }

  /** A property's or an event's key fits exactly when it would fit a method
      without witnesses. */
  lemma OnlyMethodsHaveWitnesses(
    key: string, name: string, params: seq<string>, il: seq<string>, arity: nat, erasedTypars: nat)
    requires SplitKey(key) == Some((name, params))
    ensures KeyFits(key, il, arity, erasedTypars, false) <==>
      KeyFits(key, il, arity, erasedTypars, true) && |params| == |il|
  {
  }
}
