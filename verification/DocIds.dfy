/** Documentation-comment IDs: the encoder Roslyn's keys follow, and the
    scanners that take a recorded key apart and check it against a member. */
module DocIds {
  import Lists
  import opened Options
  import opened Decimals
  import opened Text
  import opened Signatures
  import opened SegmentArgs
  import opened ArraySuffixes

  // ---- the type encoder ----

  /** The value-type primitives, in element-type order. */
  function SmallPrimitiveName(code: nat): string {
    if code == 0 then "Void" else if code == 1 then "Boolean" else if code == 2 then "Char"
    else if code == 3 then "SByte" else if code == 4 then "Byte" else if code == 5 then "Int16" else "UInt16"
  }

  function WidePrimitiveName(code: nat): string {
    if code == 7 then "Int32" else if code == 8 then "UInt32" else if code == 9 then "Int64"
    else if code == 10 then "UInt64" else if code == 11 then "Single" else if code == 12 then "Double"
    else if code == 13 then "IntPtr" else "UIntPtr"
  }

  function SimpleName(p: Primitive): string {
    match p
    case Object => "Object"
    case String => "String"
    case ValuePrimitive(code) => if code < 7 then SmallPrimitiveName(code) else WidePrimitiveName(code)
  }

  function PrimitiveName(p: Primitive): string { "System." + SimpleName(p) }

  function SignedText(n: int): string { if n < 0 then "-" + DecimalText(-n) else DecimalText(n) }

  /** One dimension: its lower bound, and its size when it has one. */
  function DimSpec(i: nat, sizes: seq<nat>, lowerBounds: seq<int>): string {
    SignedText(if i < |lowerBounds| then lowerBounds[i] else 0) + ":"
    + (if i < |sizes| then DecimalText(sizes[i]) else "")
  }

  function DimSpecs(n: nat, sizes: seq<nat>, lowerBounds: seq<int>): (r: seq<string>)
    ensures |r| == n && forall i :: 0 <= i < n ==> r[i] == DimSpec(i, sizes, lowerBounds)
  {
    seq(n, i requires 0 <= i < n => DimSpec(i, sizes, lowerBounds))
  }

  /** `array_suffix`; with `fewer`, as current fsc writes an unbounded
      multi-dimensional array: one dimension spec less. */
  function ArraySuffix(rank: nat, sizes: seq<nat>, lowerBounds: seq<int>, fewer: bool): string {
    if rank <= 1 && sizes == [] && lowerBounds == [] then "[" + "" + "]"
    else if fewer && rank >= 2 && sizes == [] && lowerBounds == []
      then "[" + Join(DimSpecs(rank - 1, [], []), ",") + "]"
    else "[" + Join(DimSpecs(rank, sizes, lowerBounds), ",") + "]"
  }

  /** Which array nodes are written with one spec less. */
  type Dialect = TypeRef -> bool

  function Roslyn(t: TypeRef): bool { false }

  /** `type_enc`, under a dialect; the code's own encoding is `Roslyn`'s. */
  function Enc(t: TypeRef, fewer: Dialect): string
    decreases t
  {
    match t
    case PrimRef(p) => PrimitiveName(p)
    case Var(i, isMethod) => (if isMethod then "``" else "`") + DecimalText(i)
    case NamedRef(name, args) =>
      Namespace(name.namespace) + NameEnc(Split(name.name, '/'), name.arities, EncAll(args, fewer))
    case ArrayRef(e, rank, sizes, lows) => EncNullable(e, fewer) + ArraySuffix(rank, sizes, lows, fewer(t))
    case PtrRef(p) => Enc(p, fewer) + "*"
    case VoidPtrRef => "System.Void*"
    case ByRefRef(i, _) => Enc(i, fewer) + "@"
  }

  function EncNullable(n: NullableType, fewer: Dialect): string
    decreases n
  {
    Enc(n.ty, fewer)
  }

  function EncAll(args: seq<NullableType>, fewer: Dialect): (r: seq<string>)
    ensures |r| == |args|
    decreases args
  {
    if args == [] then [] else [EncNullable(args[0], fewer)] + EncAll(args[1..], fewer)
  }

  function TypeEnc(t: TypeRef): string { Enc(t, Roslyn) }

  function Namespace(segs: seq<string>): string {
    if segs == [] then [] else segs[0] + "." + Namespace(segs[1..])
  }

  function Braced(args: seq<string>): string { "{" + Join(args, ",") + "}" }

  /** A segment with the arguments it introduces. */
  function SegmentEnc(seg: string, args: seq<string>): string {
    if args == [] then StripArity(seg) else StripArity(seg) + Braced(args)
  }

  function SegmentsEnc(segs: seq<string>, slices: seq<seq<string>>): (r: seq<string>)
    requires |segs| == |slices|
    ensures |r| == |segs|
  {
    seq(|segs|, i requires 0 <= i < |segs| => SegmentEnc(segs[i], slices[i]))
  }

  function StripAll(segs: seq<string>): (r: seq<string>)
    ensures |r| == |segs| && forall i :: 0 <= i < |segs| ==> r[i] == StripArity(segs[i])
  {
    seq(|segs|, i requires 0 <= i < |segs| => StripArity(segs[i]))
  }

  /** The dotted name: arguments on their segments when the arities account for
      them, else the whole list behind the whole name. */
  function NameEnc(segs: seq<string>, arities: seq<nat>, args: Vec<string>): string {
    if Distributable(|segs|, arities, |args|) then
      GuardIsExact(|segs|, arities, |args|);
      Join(SegmentsEnc(segs, Slices(arities, args)), ".")
    else
      Join(StripAll(segs), ".") + (if args == [] then "" else Braced(args))
  }

  // ---- scanning at the top level ----

  /** The nesting depth behind `s`, entered at depth `d`; `None` once a comma or
      a closing mark stands at depth zero. */
  function Scan(s: string, d: nat): Option<nat> {
    if s == [] then Some(d)
    else if s[0] == '{' || s[0] == '[' then Scan(s[1..], d + 1)
    else if s[0] == '}' || s[0] == ']' then if d == 0 then None else Scan(s[1..], d - 1)
    else if s[0] == ',' && d == 0 then None
    else Scan(s[1..], d)
  }

  /** `split_top_level` from the middle: the part being read is `part`. */
  function SplitFrom(s: string, d: int, part: string): (r: seq<string>)
    ensures |r| >= 1 && |r[0]| <= |part| + |s|
    decreases |s|
  {
    if s == [] then [part]
    else if s[0] == ',' && d == 0 then [part] + SplitFrom(s[1..], 0, [])
    else
      var d' := if s[0] == '{' || s[0] == '[' then d + 1 else if s[0] == '}' || s[0] == ']' then d - 1 else d;
      SplitFrom(s[1..], d', part + [s[0]])
  }

  function SplitTopLevel(list: string): seq<string> { SplitFrom(list, 0, []) }

  lemma {:induction false} ScanConcat(a: string, b: string, d: nat)
    ensures Scan(a + b, d) == match Scan(a, d) case None => None case Some(e) => Scan(b, e)
    decreases |a|
  {
    if a == [] {
      assert a + b == b;
    } else {
      assert (a + b)[1..] == a[1..] + b;
      ScanConcat(a[1..], b, d + 1);
      if d > 0 { ScanConcat(a[1..], b, d - 1); }
      ScanConcat(a[1..], b, d);
    }
  }

  /** At any depth, `s` opens and closes what it opens, and its commas are all
      inside. */
  ghost predicate Closed(s: string) {
    forall d: nat :: Scan(s, d) == Some(d)
  }

  lemma ClosedConcat(a: string, b: string)
    requires Closed(a) && Closed(b)
    ensures Closed(a + b)
  {
    forall d: nat ensures Scan(a + b, d) == Some(d) { ScanConcat(a, b, d); }
  }

  /** Characters that mean nothing to any of the scanners. */
  predicate PlainChar(c: char) {
    c != '{' && c != '}' && c != '[' && c != ']' && c != ',' && c != '(' && c != ')'
  }

  predicate Plain(s: string) { forall i :: 0 <= i < |s| ==> PlainChar(s[i]) }

  lemma {:induction false} PlainIsClosed(s: string)
    requires Plain(s)
    ensures Closed(s)
    decreases |s|
  {
    if s != [] {
      PlainIsClosed(s[1..]);
      forall d: nat ensures Scan(s, d) == Some(d) { assert PlainChar(s[0]); }
    }
  }

  lemma {:induction false} JoinInside(parts: seq<string>, d: nat)
    requires d > 0 && forall i :: 0 <= i < |parts| ==> Closed(parts[i])
    ensures Scan(Join(parts, ","), d) == Some(d)
    decreases |parts|
  {
    if |parts| > 1 {
      JoinInside(parts[1..], d);
      ScanConcat(parts[0] + ",", Join(parts[1..], ","), d);
      ScanConcat(parts[0], ",", d);
      assert Closed(parts[0]);
      assert ","[1..] == [];
    }
  }

  lemma BracketedAt(open: string, close: string, parts: seq<string>, d: nat)
    requires (open == "{" && close == "}") || (open == "[" && close == "]")
    requires forall i :: 0 <= i < |parts| ==> Closed(parts[i])
    ensures Scan(open + Join(parts, ",") + close, d) == Some(d)
  {
    var inner := Join(parts, ",");
    ScanConcat(open + inner, close, d);
    ScanConcat(open, inner, d);
    JoinInside(parts, d + 1);
    assert Scan(open, d) == Scan([], d + 1);
    assert Scan(close, d + 1) == Scan([], d);
  }

  lemma BracketedIsClosed(open: string, close: string, parts: seq<string>)
    requires (open == "{" && close == "}") || (open == "[" && close == "]")
    requires forall i :: 0 <= i < |parts| ==> Closed(parts[i])
    ensures Closed(open + Join(parts, ",") + close)
  {
    forall d: nat ensures Scan(open + Join(parts, ",") + close, d) == Some(d) {
      BracketedAt(open, close, parts, d);
    }
  }

  lemma {:induction false} SplitRest(s: string, rest: string, d: nat, part: string)
    requires Scan(s, d) == Some(0)
    ensures SplitFrom(s + rest, d, part) == SplitFrom(rest, 0, part + s)
    decreases |s|
  {
    if s == [] {
      assert s + rest == rest && part + s == part;
    } else {
      assert (s + rest)[1..] == s[1..] + rest;
      assert part + [s[0]] + s[1..] == part + s;
      var d' := if s[0] == '{' || s[0] == '[' then d + 1 else if s[0] == '}' || s[0] == ']' then d - 1 else d;
      SplitRest(s[1..], rest, d', part + [s[0]]);
    }
  }

  /** Splitting a comma-joined list of closed parts gives the parts back. */
  lemma {:induction false} SplitUndoesJoin(parts: seq<string>)
    requires parts != [] && forall i :: 0 <= i < |parts| ==> Closed(parts[i])
    ensures SplitTopLevel(Join(parts, ",")) == parts
    decreases |parts|
  {
    assert Closed(parts[0]) && Scan(parts[0], 0) == Some(0);
    if |parts| == 1 {
      SplitRest(parts[0], [], 0, []);
      assert parts[0] + [] == parts[0] && [] + parts[0] == parts[0];
    } else {
      var rest := "," + Join(parts[1..], ",");
      assert Join(parts, ",") == parts[0] + rest;
      SplitRest(parts[0], rest, 0, []);
      assert [] + parts[0] == parts[0] && rest[1..] == Join(parts[1..], ",");
      SplitUndoesJoin(parts[1..]);
    }
  }

  // ---- encodings are closed ----

  /** Every name in the type avoids the delimiter characters. */
  ghost predicate PlainNames(t: TypeRef)
    decreases t
  {
    match t
    case NamedRef(name, args) =>
      Plain(name.name) && (forall i :: 0 <= i < |name.namespace| ==> Plain(name.namespace[i])) && PlainNamesAll(args)
    case ArrayRef(e, _, _, _) => PlainNamesIn(e)
    case PtrRef(p) => PlainNames(p)
    case ByRefRef(i, _) => PlainNames(i)
    case _ => true
  }

  ghost predicate PlainNamesIn(n: NullableType)
    decreases n
  {
    PlainNames(n.ty)
  }

  ghost predicate PlainNamesAll(args: seq<NullableType>)
    decreases args
  {
    args == [] || (PlainNamesIn(args[0]) && PlainNamesAll(args[1..]))
  }

  lemma {:induction false} NamespaceIsPlain(segs: seq<string>)
    requires forall i :: 0 <= i < |segs| ==> Plain(segs[i])
    ensures Plain(Namespace(segs))
    decreases |segs|
  {
    if segs != [] { NamespaceIsPlain(segs[1..]); }
  }

  lemma {:induction false} SplitIsPlain(s: string, c: char)
    requires Plain(s)
    ensures forall i :: 0 <= i < |Split(s, c)| ==> Plain(Split(s, c)[i])
    decreases |s|
  {
    match IndexOf(s, c)
    case None =>
    case Some(i) => SplitIsPlain(s[i + 1..], c);
  }

  lemma StripIsPlain(s: string)
    requires Plain(s)
    ensures Plain(StripArity(s))
  {
  }

  lemma DigitsArePlain(s: string)
    requires AllDigits(s)
    ensures Plain(s)
  {
    forall i | 0 <= i < |s| ensures PlainChar(s[i]) { assert IsDigit(s[i]); }
  }

  lemma DimSpecIsPlain(i: nat, sizes: seq<nat>, lows: seq<int>)
    ensures Plain(DimSpec(i, sizes, lows)) && ':' in DimSpec(i, sizes, lows)
  {
    var low := if i < |lows| then lows[i] else 0;
    DigitsArePlain(DecimalText(if low < 0 then -low else low));
    var a, b := SignedText(low), if i < |sizes| then DecimalText(sizes[i]) else "";
    if i < |sizes| { DigitsArePlain(DecimalText(sizes[i])); }
    assert Plain(a) && Plain(b);
    assert DimSpec(i, sizes, lows) == a + ":" + b;
    assert (a + ":" + b)[|a|] == ':';
  }

  lemma SmallNamesArePlain(code: nat)
    ensures Plain(SmallPrimitiveName(code))
  {
  }

  lemma WideNamesArePlain(code: nat)
    ensures Plain(WidePrimitiveName(code))
  {
  }

  lemma PlainConcat(a: string, b: string)
    requires Plain(a) && Plain(b)
    ensures Plain(a + b)
  {
  }

  lemma PrimitiveNamesArePlain(p: Primitive)
    ensures Plain(PrimitiveName(p))
  {
    match p
    case Object => PlainConcat("System.", "Object");
    case String => PlainConcat("System.", "String");
    case ValuePrimitive(code) =>
      SmallNamesArePlain(code);
      WideNamesArePlain(code);
      PlainConcat("System.", if code < 7 then SmallPrimitiveName(code) else WidePrimitiveName(code));
  }

  lemma {:induction false} JoinDotsClosed(parts: seq<string>)
    requires forall i :: 0 <= i < |parts| ==> Closed(parts[i])
    ensures Closed(Join(parts, "."))
    decreases |parts|
  {
    if parts == [] {
      PlainIsClosed([]);
    } else if |parts| > 1 {
      JoinDotsClosed(parts[1..]);
      PlainIsClosed(".");
      ClosedConcat(parts[0], ".");
      ClosedConcat(parts[0] + ".", Join(parts[1..], "."));
    }
  }

  lemma {:induction false} SlicesClosed(arities: seq<nat>, args: seq<string>)
    requires Sum(arities) == |args| && forall i :: 0 <= i < |args| ==> Closed(args[i])
    ensures forall i, j :: 0 <= i < |arities| && 0 <= j < |Slices(arities, args)[i]| ==>
      Closed(Slices(arities, args)[i][j])
    decreases |arities|
  {
    if arities != [] { SlicesClosed(arities[1..], args[arities[0]..]); }
  }

  lemma SegmentClosed(seg: string, args: seq<string>)
    requires Plain(seg) && forall i :: 0 <= i < |args| ==> Closed(args[i])
    ensures Closed(SegmentEnc(seg, args))
  {
    StripIsPlain(seg);
    PlainIsClosed(StripArity(seg));
    if args != [] {
      BracketedIsClosed("{", "}", args);
      ClosedConcat(StripArity(seg), Braced(args));
    }
  }

  lemma NameClosed(segs: seq<string>, arities: seq<nat>, args: Vec<string>)
    requires forall i :: 0 <= i < |segs| ==> Plain(segs[i])
    requires forall i :: 0 <= i < |args| ==> Closed(args[i])
    ensures Closed(NameEnc(segs, arities, args))
  {
    GuardIsExact(|segs|, arities, |args|);
    if Distributable(|segs|, arities, |args|) {
      var slices := Slices(arities, args);
      SlicesClosed(arities, args);
      forall i | 0 <= i < |segs| ensures Closed(SegmentsEnc(segs, slices)[i]) { SegmentClosed(segs[i], slices[i]); }
      JoinDotsClosed(SegmentsEnc(segs, slices));
    } else {
      forall i | 0 <= i < |segs| ensures Closed(StripAll(segs)[i]) {
        StripIsPlain(segs[i]);
        PlainIsClosed(StripArity(segs[i]));
      }
      JoinDotsClosed(StripAll(segs));
      if args == [] {
        PlainIsClosed("");
        ClosedConcat(Join(StripAll(segs), "."), "");
      } else {
        BracketedIsClosed("{", "}", args);
        ClosedConcat(Join(StripAll(segs), "."), Braced(args));
      }
    }
  }

  lemma SuffixClosed(rank: nat, sizes: seq<nat>, lows: seq<int>, fewer: bool)
    ensures Closed(ArraySuffix(rank, sizes, lows, fewer))
  {
    var n := if fewer && rank >= 2 && sizes == [] && lows == [] then rank - 1 else rank;
    forall i | 0 <= i < n ensures Closed(DimSpecs(n, sizes, lows)[i]) {
      DimSpecIsPlain(i, sizes, lows);
      PlainIsClosed(DimSpec(i, sizes, lows));
    }
    BracketedIsClosed("[", "]", DimSpecs(n, sizes, lows));
    BracketedIsClosed("[", "]", []);
  }

  /** In any dialect an encoded type is closed, however deeply it nests. */
  lemma {:induction false} EncClosed(t: TypeRef, fewer: Dialect)
    requires PlainNames(t)
    ensures Closed(Enc(t, fewer))
    decreases t
  {
    match t
    case PrimRef(p) =>
      PrimitiveNamesArePlain(p);
      PlainIsClosed(PrimitiveName(p));
    case Var(i, isMethod) =>
      DigitsArePlain(DecimalText(i));
      PlainIsClosed(Enc(t, fewer));
    case NamedRef(name, args) =>
      NamespaceIsPlain(name.namespace);
      PlainIsClosed(Namespace(name.namespace));
      SplitIsPlain(name.name, '/');
      EncAllClosed(args, fewer);
      NameClosed(Split(name.name, '/'), name.arities, EncAll(args, fewer));
      ClosedConcat(Namespace(name.namespace), NameEnc(Split(name.name, '/'), name.arities, EncAll(args, fewer)));
    case ArrayRef(e, rank, sizes, lows) =>
      EncNullableClosed(e, fewer);
      SuffixClosed(rank, sizes, lows, fewer(t));
      ClosedConcat(EncNullable(e, fewer), ArraySuffix(rank, sizes, lows, fewer(t)));
    case PtrRef(p) =>
      EncClosed(p, fewer);
      PlainIsClosed("*");
      ClosedConcat(Enc(p, fewer), "*");
    case VoidPtrRef => PlainIsClosed("System.Void*");
    case ByRefRef(i, r) =>
      EncClosed(i, fewer);
      PlainIsClosed("@");
      ClosedConcat(Enc(i, fewer), "@");
  }

  lemma {:induction false} EncNullableClosed(n: NullableType, fewer: Dialect)
    requires PlainNamesIn(n)
    ensures Closed(EncNullable(n, fewer))
    decreases n
  {
    EncClosed(n.ty, fewer);
  }

  lemma {:induction false} EncAllClosed(args: seq<NullableType>, fewer: Dialect)
    requires PlainNamesAll(args)
    ensures forall i :: 0 <= i < |args| ==> Closed(EncAll(args, fewer)[i])
    decreases args
  {
    if args != [] {
      EncNullableClosed(args[0], fewer);
      EncAllClosed(args[1..], fewer);
    }
  }

  // ---- dialects fit ----

  lemma {:induction false} JoinFits(xs: seq<string>, ys: seq<string>, sep: string)
    requires |xs| == |ys| && '[' !in sep && forall i :: 0 <= i < |xs| ==> ArraysFit(xs[i], ys[i])
    ensures ArraysFit(Join(xs, sep), Join(ys, sep))
    decreases |xs|
  {
    if xs == [] {
      TextFitsItself([]);
    } else if |xs| > 1 {
      JoinFits(xs[1..], ys[1..], sep);
      TextFitsItself(sep);
      FitsConcat(xs[0], ys[0], sep, sep);
      FitsConcat(xs[0] + sep, ys[0] + sep, Join(xs[1..], sep), Join(ys[1..], sep));
    }
  }

  lemma PlainFitsItself(s: string)
    requires Plain(s)
    ensures ArraysFit(s, s)
  {
    TextFitsItself(s);
  }

  lemma BracedFits(xs: seq<string>, ys: seq<string>)
    requires |xs| == |ys| && forall i :: 0 <= i < |xs| ==> ArraysFit(xs[i], ys[i])
    ensures ArraysFit(Braced(xs), Braced(ys))
  {
    JoinFits(xs, ys, ",");
    TextFitsItself("{");
    TextFitsItself("}");
    FitsConcat("{", "{", Join(xs, ","), Join(ys, ","));
    FitsConcat("{" + Join(xs, ","), "{" + Join(ys, ","), "}", "}");
  }

  lemma SegmentFits(seg: string, xs: seq<string>, ys: seq<string>)
    requires Plain(seg) && |xs| == |ys| && forall i :: 0 <= i < |xs| ==> ArraysFit(xs[i], ys[i])
    ensures ArraysFit(SegmentEnc(seg, xs), SegmentEnc(seg, ys))
  {
    StripIsPlain(seg);
    PlainFitsItself(StripArity(seg));
    BracedFits(xs, ys);
    FitsConcat(StripArity(seg), StripArity(seg), Braced(xs), Braced(ys));
  }

  lemma {:induction false} SlicesFit(arities: seq<nat>, xs: seq<string>, ys: seq<string>)
    requires Sum(arities) == |xs| == |ys| && forall i :: 0 <= i < |xs| ==> ArraysFit(xs[i], ys[i])
    ensures forall i :: 0 <= i < |arities| ==> |Slices(arities, xs)[i]| == |Slices(arities, ys)[i]|
    ensures forall i, j :: 0 <= i < |arities| && 0 <= j < |Slices(arities, xs)[i]| ==>
      ArraysFit(Slices(arities, xs)[i][j], Slices(arities, ys)[i][j])
    decreases |arities|
  {
    if arities != [] { SlicesFit(arities[1..], xs[arities[0]..], ys[arities[0]..]); }
  }

  lemma NameFits(segs: seq<string>, arities: seq<nat>, xs: Vec<string>, ys: Vec<string>)
    requires forall i :: 0 <= i < |segs| ==> Plain(segs[i])
    requires |xs| == |ys| && forall i :: 0 <= i < |xs| ==> ArraysFit(xs[i], ys[i])
    ensures ArraysFit(NameEnc(segs, arities, xs), NameEnc(segs, arities, ys))
  {
    GuardIsExact(|segs|, arities, |xs|);
    if Distributable(|segs|, arities, |xs|) {
      SlicesFit(arities, xs, ys);
      var a, b := SegmentsEnc(segs, Slices(arities, xs)), SegmentsEnc(segs, Slices(arities, ys));
      forall i | 0 <= i < |segs| ensures ArraysFit(a[i], b[i]) {
        SegmentFits(segs[i], Slices(arities, xs)[i], Slices(arities, ys)[i]);
      }
      JoinFits(a, b, ".");
    } else {
      forall i | 0 <= i < |segs| ensures ArraysFit(StripAll(segs)[i], StripAll(segs)[i]) {
        StripIsPlain(segs[i]);
        PlainFitsItself(StripArity(segs[i]));
      }
      JoinFits(StripAll(segs), StripAll(segs), ".");
      TextFitsItself("");
      BracedFits(xs, ys);
      FitsConcat(Join(StripAll(segs), "."), Join(StripAll(segs), "."),
                 if xs == [] then "" else Braced(xs), if ys == [] then "" else Braced(ys));
    }
  }

  lemma {:induction false} CommasConcat(a: string, b: string)
    ensures Commas(a + b) == Commas(a) + Commas(b)
    decreases |a|
  {
    if a == [] {
      assert a + b == b;
    } else {
      CommasConcat(a[1..], b);
      assert (a + b)[1..] == a[1..] + b;
    }
  }

  lemma {:induction false} PlainHasNoCommas(s: string)
    requires Plain(s)
    ensures Commas(s) == 0
    decreases |s|
  {
    if s != [] { assert PlainChar(s[0]); PlainHasNoCommas(s[1..]); }
  }

  /** The dimension text between the brackets. */
  ghost function Dims(n: nat, sizes: seq<nat>, lows: seq<int>): string { Join(DimSpecs(n, sizes, lows), ",") }

  lemma {:induction false} JoinedSpecs(parts: seq<string>)
    requires parts != [] && forall i :: 0 <= i < |parts| ==> Plain(parts[i]) && ':' in parts[i]
    ensures var s := Join(parts, ","); Commas(s) == |parts| - 1 && ':' in s && ']' !in s
    decreases |parts|
  {
    PlainHasNoCommas(parts[0]);
    assert ']' !in parts[0];
    if |parts| > 1 {
      JoinedSpecs(parts[1..]);
      CommasConcat(parts[0] + ",", Join(parts[1..], ","));
      CommasConcat(parts[0], ",");
      assert Commas(",") == 1 + Commas([]);
    }
  }

  /** A suffix with `n` dimensions counts as `n` specs. */
  lemma DimsCount(n: nat, sizes: seq<nat>, lows: seq<int>)
    ensures Specs(Dims(n, sizes, lows)) == n && ']' !in Dims(n, sizes, lows)
  {
    if n > 0 {
      forall i | 0 <= i < n ensures Plain(DimSpecs(n, sizes, lows)[i]) && ':' in DimSpecs(n, sizes, lows)[i] {
        DimSpecIsPlain(i, sizes, lows);
      }
      JoinedSpecs(DimSpecs(n, sizes, lows));
      var s := Dims(n, sizes, lows);
      var k :| 0 <= k < |s| && s[k] == ':';
      assert !IsWhitespace(s[k]);
    }
  }

  lemma SuffixFits(rank: nat, sizes: seq<nat>, lows: seq<int>, fewer: bool)
    ensures ArraysFit(ArraySuffix(rank, sizes, lows, fewer), ArraySuffix(rank, sizes, lows, false))
  {
    DimsCount(rank, sizes, lows);
    if rank <= 1 && sizes == [] && lows == [] {
      GroupFits("", "");
    } else if fewer && sizes == [] && lows == [] {
      DimsCount(rank - 1, [], []);
      GroupFits(Dims(rank - 1, [], []), Dims(rank, [], []));
    } else {
      GroupFits(Dims(rank, sizes, lows), Dims(rank, sizes, lows));
    }
  }

  /** Whichever array nodes a compiler writes with one spec less, at whatever
      depth, the key it writes for a type fits the type's IL encoding. */
  lemma {:induction false} DialectFits(t: TypeRef, fewer: Dialect)
    requires PlainNames(t)
    ensures ArraysFit(Enc(t, fewer), TypeEnc(t))
    decreases t
  {
    match t
    case PrimRef(p) =>
      PrimitiveNamesArePlain(p);
      PlainFitsItself(PrimitiveName(p));
    case Var(i, isMethod) =>
      DigitsArePlain(DecimalText(i));
      PlainFitsItself(Enc(t, fewer));
    case NamedRef(name, args) =>
      var segs := Split(name.name, '/');
      NamespaceIsPlain(name.namespace);
      PlainFitsItself(Namespace(name.namespace));
      SplitIsPlain(name.name, '/');
      DialectFitsAll(args, fewer);
      NameFits(segs, name.arities, EncAll(args, fewer), EncAll(args, Roslyn));
      FitsConcat(Namespace(name.namespace), Namespace(name.namespace),
                 NameEnc(segs, name.arities, EncAll(args, fewer)), NameEnc(segs, name.arities, EncAll(args, Roslyn)));
    case ArrayRef(e, rank, sizes, lows) =>
      DialectFitsIn(e, fewer);
      SuffixFits(rank, sizes, lows, fewer(t));
      FitsConcat(EncNullable(e, fewer), EncNullable(e, Roslyn),
                 ArraySuffix(rank, sizes, lows, fewer(t)), ArraySuffix(rank, sizes, lows, false));
    case PtrRef(p) =>
      DialectFits(p, fewer);
      TextFitsItself("*");
      FitsConcat(Enc(p, fewer), TypeEnc(p), "*", "*");
    case VoidPtrRef => TextFitsItself("System.Void*");
    case ByRefRef(i, r) =>
      DialectFits(i, fewer);
      TextFitsItself("@");
      FitsConcat(Enc(i, fewer), TypeEnc(i), "@", "@");
  }

  lemma {:induction false} DialectFitsIn(n: NullableType, fewer: Dialect)
    requires PlainNamesIn(n)
    ensures ArraysFit(EncNullable(n, fewer), EncNullable(n, Roslyn))
    decreases n
  {
    DialectFits(n.ty, fewer);
  }

  lemma FrontFits(x: string, y: string, xs: seq<string>, ys: seq<string>)
    requires ArraysFit(x, y) && |xs| == |ys| && forall i :: 0 <= i < |xs| ==> ArraysFit(xs[i], ys[i])
    ensures forall i :: 0 <= i < |[x] + xs| ==> ArraysFit(([x] + xs)[i], ([y] + ys)[i])
  {
  }

  lemma {:induction false} DialectFitsAll(args: seq<NullableType>, fewer: Dialect)
    requires PlainNamesAll(args)
    ensures forall i :: 0 <= i < |args| ==> ArraysFit(EncAll(args, fewer)[i], EncAll(args, Roslyn)[i])
    decreases args
  {
    if args != [] {
      DialectFitsIn(args[0], fewer);
      DialectFitsAll(args[1..], fewer);
      FrontFits(EncNullable(args[0], fewer), EncNullable(args[0], Roslyn),
                EncAll(args[1..], fewer), EncAll(args[1..], Roslyn));
    }
  }

  // ---- method keys ----

  datatype Param = Param(ty: TypeRef, isByref: bool)

  datatype Method = Method(
    name: string,
    genericArity: nat,
    parameters: seq<Param>,
    returnType: TypeRef,
    moduleValue: bool)

  /** `param_enc`. */
  function ParamEnc(p: Param): string { TypeEnc(p.ty) + (if p.isByref then "@" else "") }

  function ParamEncs(ps: seq<Param>): (r: seq<string>)
    ensures |r| == |ps| && forall i :: 0 <= i < |ps| ==> r[i] == ParamEnc(ps[i])
  {
    seq(|ps|, i requires 0 <= i < |ps| => ParamEnc(ps[i]))
  }

  /** `args_enc`: no parentheses at all for a method without parameters. */
  function ArgsEnc(ps: seq<Param>): string { ArgList(ParamEncs(ps)) }

  function ArgList(encs: seq<string>): string {
    if encs == [] then "" else "(" + (Join(encs, ",") + ")")
  }

  function EscapeChar(c: char): char { if c == '.' then '#' else if c == '<' then '{' else if c == '>' then '}' else c }

  function Escape(name: string): (r: string)
    ensures |r| == |name| && forall i :: 0 <= i < |name| ==> r[i] == EscapeChar(name[i])
  {
    seq(|name|, i requires 0 <= i < |name| => EscapeChar(name[i]))
  }

  predicate IsConversionOperator(name: string) {
    name == "op_Implicit" || name == "op_Explicit" || name == "op_CheckedImplicit" || name == "op_CheckedExplicit"
  }

  function Stem(decl: string, m: Method): string {
    (if m.moduleValue then "P" else "M") + ":" + decl + "." + Escape(m.name)
  }

  /** Everything before the parameter list. */
  function Head(decl: string, m: Method): string { HeadWith(decl, m, m.genericArity) }

  /** The same, written with a generic arity that need not be the IL's. */
  function HeadWith(decl: string, m: Method, arity: nat): string {
    if arity == 0 then Stem(decl, m) else Stem(decl, m) + "``" + DecimalText(arity)
  }

  /** `computed_member_doc_id` of a method declared on the type named `decl`. */
  function MethodId(decl: string, m: Method): string {
    Head(decl, m) + ArgsEnc(m.parameters) + (if IsConversionOperator(m.name) then "~" + TypeEnc(m.returnType) else "")
  }

  // ---- taking a key apart ----

  /** `split_key`: the text before the parameter list, and its parameters. */
  function SplitKey(key: string): Option<(string, seq<string>)> {
    match IndexOf(key, '(')
    case None => Some((key, []))
    case Some(open) =>
      var inner := key[open + 1..];
      if inner == [] || inner[|inner| - 1] != ')' then None
      else Some((key[..open], SplitTopLevel(inner[..|inner| - 1])))
  }

  /** The last place where two backticks stand together. */
  function LastDoubleTick(s: string): (r: Option<nat>)
    ensures r.Some? ==> r.value + 2 <= |s|
  {
    if |s| < 2 then None
    else if s[|s| - 2] == '`' && s[|s| - 1] == '`' then Some(|s| - 2)
    else LastDoubleTick(s[..|s| - 1])
  }

  /** `str::parse::<usize>`. */
  function ParseUsize(s: string): Option<nat> {
    var digits := if s != [] && s[0] == '+' then s[1..] else s;
    if digits == [] || !AllDigits(digits) || DecimalValue(digits) > USIZE_MAX then None else Some(DecimalValue(digits))
  }

  function KeyArity(name: string): nat {
    match LastDoubleTick(name)
    case None => 0
    case Some(i) => match ParseUsize(name[i + 2..]) case None => 0 case Some(n) => n
  }

  function StripPrefix(s: string, prefix: string): Option<string> {
    if prefix <= s then Some(s[|prefix|..]) else None
  }

  function StripSuffix(s: string, c: char): Option<string> {
    if s != [] && s[|s| - 1] == c then Some(s[..|s| - 1]) else None
  }

  /** The first type argument of an F# abbreviation such as `byref{T,Kind}`. */
  function FirstArg(key: string, abbrev: string): (r: Option<string>)
    requires abbrev != []
    ensures r.Some? ==> |r.value| < |key|
  {
    match StripPrefix(key, abbrev)
    case None => None
    case Some(s) => match StripSuffix(s, '}') case None => None case Some(inner) => Some(SplitTopLevel(inner)[0])
  }

  function FirstByrefArg(key: string): (r: Option<string>)
    ensures r.Some? ==> |r.value| < |key|
  {
    var b := FirstArg(key, "Microsoft.FSharp.Core.byref{");
    if b.Some? then b
    else
      var i := FirstArg(key, "Microsoft.FSharp.Core.inref{");
      if i.Some? then i else FirstArg(key, "Microsoft.FSharp.Core.outref{")
  }

  /** `param_fits`: one key parameter, in fsc's dialect, against the IL's. */
  predicate ParamFits(key: string, il: string)
    decreases |key|
  {
    if ArraysFit(key, il) then true
    else if il == "System.IntPtr" && key != [] && key[|key| - 1] == '*' then true
    else if key == "Microsoft.FSharp.Core.voidptr" && il == "System.Void*" then true
    else
      match FirstArg(key, "Microsoft.FSharp.Core.ilsigptr{")
      case Some(t) => (match StripSuffix(il, '*') case None => false case Some(i) => ParamFits(t, i))
      case None =>
        match FirstByrefArg(key)
        case Some(t) => (match StripSuffix(il, '@') case None => false case Some(i) => ParamFits(t, i))
        case None => false
  }

  predicate IsWitness(s: string) { "Microsoft.FSharp.Core.FSharpFunc{" <= s }

  /** `key_fits`. */
  predicate KeyFits(key: string, ilParams: seq<string>, ilArity: nat, erasedTypars: nat, isMethod: bool) {
    match SplitKey(key)
    case None => false
    case Some((name, keyParams)) =>
      var arity := KeyArity(name);
      if arity < ilArity || arity > ilArity + erasedTypars || |keyParams| < |ilParams| then false
      else
        var w := |keyParams| - |ilParams|;
        (w == 0 || (isMethod && forall i :: 0 <= i < w ==> IsWitness(keyParams[i])))
        && forall i :: 0 <= i < |ilParams| ==> ParamFits(keyParams[w + i], ilParams[i])
  }

  /** `recorded_method_key_fits`. */
  predicate MethodKeyFits(key: string, m: Method, erasedTypars: nat) {
    KeyFits(key, ParamEncs(m.parameters), m.genericArity, erasedTypars, true)
  }

  // ---- a method's own key ----

  lemma {:induction false} LastTickOfArity(stem: string, digits: string)
    requires AllDigits(digits)
    ensures LastDoubleTick(stem + "``" + digits) == Some(|stem|)
    decreases |digits|
  {
    var s := stem + "``" + digits;
    if digits == [] {
      assert s == stem + "``";
    } else {
      var n := |digits| - 1;
      assert s[|s| - 1] == digits[n] && IsDigit(digits[n]);
      assert s[..|s| - 1] == stem + "``" + digits[..n];
      LastTickOfArity(stem, digits[..n]);
    }
  }

  /** A generic method's arity reads back, whatever its name holds. */
  lemma ArityReadsBack(stem: string, n: nat)
    requires n <= USIZE_MAX
    ensures KeyArity(stem + "``" + DecimalText(n)) == n
  {
    var s := stem + "``" + DecimalText(n);
    LastTickOfArity(stem, DecimalText(n));
    assert s[|stem| + 2..] == DecimalText(n);
    assert IsDigit(DecimalText(n)[0]);
    DecimalRoundTrip(n);
  }

  lemma {:induction false} NoTickNoArity(s: string)
    requires forall i :: 0 <= i < |s| - 1 ==> !(s[i] == '`' && s[i + 1] == '`')
    ensures KeyArity(s) == 0 && LastDoubleTick(s).None?
    decreases |s|
  {
    if |s| >= 2 { NoTickNoArity(s[..|s| - 1]); }
  }

  lemma ParamClosed(p: Param)
    requires PlainNames(p.ty)
    ensures Closed(ParamEnc(p)) && ArraysFit(ParamEnc(p), ParamEnc(p))
  {
    EncClosed(p.ty, Roslyn);
    DialectFits(p.ty, Roslyn);
    PlainIsClosed("@");
    PlainIsClosed("");
    TextFitsItself("@");
    TextFitsItself("");
    ClosedConcat(TypeEnc(p.ty), if p.isByref then "@" else "");
    FitsConcat(TypeEnc(p.ty), TypeEnc(p.ty), if p.isByref then "@" else "", if p.isByref then "@" else "");
  }

  ghost predicate PlainParams(m: Method) {
    forall i :: 0 <= i < |m.parameters| ==> PlainNames(m.parameters[i].ty)
  }

  lemma HeadHasNoParen(decl: string, m: Method, arity: nat)
    requires '(' !in decl && '(' !in m.name
    ensures '(' !in HeadWith(decl, m, arity)
  {
    var e := Escape(m.name);
    forall i | 0 <= i < |e| ensures e[i] != '(' { assert m.name[i] in m.name; }
    DigitsArePlain(DecimalText(arity));
  }

  /** A key splits into the text before its parameter list and its parameters. */
  lemma KeySplits(head: string, params: seq<string>)
    requires '(' !in head && forall i :: 0 <= i < |params| ==> Closed(params[i])
    ensures SplitKey(head + ArgList(params)) == Some((head, params))
  {
    if params == [] {
      assert head + "" == head;
      IndexOfAbsent(head, '(');
    } else {
      SplitUndoesJoin(params);
      ListSplits(head, Join(params, ","));
    }
  }

  lemma ListSplits(head: string, inner: string)
    requires '(' !in head
    ensures SplitKey(head + ("(" + (inner + ")"))) == Some((head, SplitTopLevel(inner)))
  {
    ParenOpensBehind(head, inner + ")");
    assert (inner + ")")[..|inner|] == inner;
  }

  /** Splitting the computed key gives back exactly the text before the
      parameters and the encoded parameters. */
  lemma OwnKeySplits(decl: string, m: Method)
    requires '(' !in decl && '(' !in m.name && !IsConversionOperator(m.name) && PlainParams(m)
    ensures SplitKey(MethodId(decl, m)) == Some((Head(decl, m), ParamEncs(m.parameters)))
  {
    HeadHasNoParen(decl, m, m.genericArity);
    forall i | 0 <= i < |m.parameters| ensures Closed(ParamEncs(m.parameters)[i]) { ParamClosed(m.parameters[i]); }
    KeySplits(Head(decl, m), ParamEncs(m.parameters));
    assert MethodId(decl, m) == Head(decl, m) + ArgsEnc(m.parameters);
  }

  /** The checker accepts a method's own computed key exactly when the arity
      read from it is not too large: always for a generic method, and for a
      non-generic one when its name does not itself end in such a suffix. */
  lemma OwnKeyFits(decl: string, m: Method, erasedTypars: nat)
    requires '(' !in decl && '(' !in m.name && !IsConversionOperator(m.name) && PlainParams(m)
    requires m.genericArity <= USIZE_MAX
    ensures MethodKeyFits(MethodId(decl, m), m, erasedTypars) <==>
      m.genericArity > 0 || KeyArity(Stem(decl, m)) <= erasedTypars
  {
    var encs := ParamEncs(m.parameters);
    OwnKeySplits(decl, m);
    ArityOfHead(decl, m, m.genericArity);
    OwnParamsFit(m);
    assert [] + encs == encs;
    SplitFits(MethodId(decl, m), Head(decl, m), [], encs, encs, m.genericArity, erasedTypars);
  }

  lemma ArityOfHead(decl: string, m: Method, arity: nat)
    requires arity <= USIZE_MAX
    ensures KeyArity(HeadWith(decl, m, arity)) == if arity > 0 then arity else KeyArity(Stem(decl, m))
  {
    if arity > 0 { ArityReadsBack(Stem(decl, m), arity); }
  }

  lemma OwnParamsFit(m: Method)
    requires PlainParams(m)
    ensures var encs := ParamEncs(m.parameters); forall i :: 0 <= i < |encs| ==> ParamFits(encs[i], encs[i])
  {
    var encs := ParamEncs(m.parameters);
    forall i | 0 <= i < |encs| ensures ParamFits(encs[i], encs[i]) { ParamClosed(m.parameters[i]); }
  }

  /** A key that splits into witnesses and parameters fits exactly when its
      parameters do and its arity does. */
  lemma SplitFits(
    key: string, name: string, witnesses: seq<string>, own: seq<string>, il: seq<string>, arity: nat, erasedTypars: nat)
    requires SplitKey(key) == Some((name, witnesses + own))
    requires |own| == |il| && forall i :: 0 <= i < |witnesses| ==> IsWitness(witnesses[i])
    ensures KeyFits(key, il, arity, erasedTypars, true) <==>
      && arity <= KeyArity(name) <= arity + erasedTypars
      && forall i :: 0 <= i < |il| ==> ParamFits(own[i], il[i])
  {
    var params, w := witnesses + own, |witnesses|;
    forall i | 0 <= i < w ensures IsWitness(params[i]) { assert params[i] == witnesses[i]; }
    SplitKeyFits(key, name, params, w, own, il, arity, erasedTypars);
  }

  /** `key_fits` of a method, once its key is split. */
  lemma SplitKeyFits(
    key: string, name: string, params: seq<string>, w: nat, own: seq<string>, il: seq<string>,
    arity: nat, erasedTypars: nat)
    requires SplitKey(key) == Some((name, params)) && |params| == w + |il| && |own| == |il| && own == params[w..]
    requires forall i :: 0 <= i < w ==> IsWitness(params[i])
    ensures KeyFits(key, il, arity, erasedTypars, true) <==>
      && arity <= KeyArity(name) <= arity + erasedTypars
      && forall i :: 0 <= i < |il| ==> ParamFits(own[i], il[i])
  {
    AlignedFit(params, w, own, il);
  }

  lemma AlignedFit(params: seq<string>, w: nat, own: seq<string>, il: seq<string>)
    requires |params| == w + |il| && |own| == |il| && own == params[w..]
    ensures (forall i :: 0 <= i < |il| ==> ParamFits(params[w + i], il[i]))
        <==> (forall i :: 0 <= i < |il| ==> ParamFits(own[i], il[i]))
  {
    assert forall i :: 0 <= i < |il| ==> own[i] == params[w + i];
  }

  /** In particular whenever no two backticks stand together in its name. */
  lemma OwnKeyFitsPlainName(decl: string, m: Method, erasedTypars: nat)
    requires '(' !in decl && '(' !in m.name && !IsConversionOperator(m.name) && PlainParams(m)
    requires m.genericArity <= USIZE_MAX
    requires var s := Stem(decl, m); forall i :: 0 <= i < |s| - 1 ==> !(s[i] == '`' && s[i + 1] == '`')
    ensures MethodKeyFits(MethodId(decl, m), m, erasedTypars)
  {
    OwnKeyFits(decl, m, erasedTypars);
    NoTickNoArity(Stem(decl, m));
  }

  lemma EscapeKeepsArity(base: string, n: nat)
    ensures Escape(base + "``" + DecimalText(n)) == Escape(base) + "``" + DecimalText(n)
  {
    var digits := DecimalText(n);
    forall i | 0 <= i < |digits| ensures EscapeChar(digits[i]) == digits[i] { assert IsDigit(digits[i]); }
  }

  lemma Reassociate(front: string, a: string, b: string, c: string)
    ensures front + (a + b + c) == (front + a) + b + c
  {
  }

  lemma TickedStemArity(decl: string, m: Method, base: string, n: nat)
    requires m.name == base + "``" + DecimalText(n) && n <= USIZE_MAX
    ensures KeyArity(Stem(decl, m)) == n
  {
    var front := (if m.moduleValue then "P" else "M") + ":" + decl + ".";
    EscapeKeepsArity(base, n);
    Reassociate(front, Escape(base), "``", DecimalText(n));
    ArityReadsBack(front + Escape(base), n);
  }

  /** A non-generic method may be named like a generic key; the number it
      carries then refutes its own key. */
  lemma TickedNameIsRefused(decl: string, m: Method, base: string, n: nat, erasedTypars: nat)
    requires m.name == base + "``" + DecimalText(n) && m.genericArity == 0 && erasedTypars < n <= USIZE_MAX
    requires '(' !in decl && '(' !in m.name && !IsConversionOperator(m.name) && PlainParams(m)
    ensures !MethodKeyFits(MethodId(decl, m), m, erasedTypars)
  {
    OwnKeyFits(decl, m, erasedTypars);
    TickedStemArity(decl, m, base, n);
  }

  ghost predicate NoParens(s: string) { forall i :: 0 <= i < |s| ==> s[i] != '(' && s[i] != ')' }

  lemma {:induction false} JoinHasNoParens(parts: seq<string>, sep: string)
    requires NoParens(sep) && forall i :: 0 <= i < |parts| ==> NoParens(parts[i])
    ensures NoParens(Join(parts, sep))
    decreases |parts|
  {
    if |parts| > 1 { JoinHasNoParens(parts[1..], sep); }
  }

  lemma BracedHasNoParens(args: seq<string>)
    requires forall i :: 0 <= i < |args| ==> NoParens(args[i])
    ensures NoParens(Braced(args))
  {
    JoinHasNoParens(args, ",");
  }

  lemma {:induction false} SlicesHaveNoParens(arities: seq<nat>, args: seq<string>)
    requires Sum(arities) == |args| && forall i :: 0 <= i < |args| ==> NoParens(args[i])
    ensures forall i, j :: 0 <= i < |arities| && 0 <= j < |Slices(arities, args)[i]| ==>
      NoParens(Slices(arities, args)[i][j])
    decreases |arities|
  {
    if arities != [] { SlicesHaveNoParens(arities[1..], args[arities[0]..]); }
  }

  lemma NameHasNoParens(segs: seq<string>, arities: seq<nat>, args: Vec<string>)
    requires forall i :: 0 <= i < |segs| ==> Plain(segs[i])
    requires forall i :: 0 <= i < |args| ==> NoParens(args[i])
    ensures NoParens(NameEnc(segs, arities, args))
  {
    forall i | 0 <= i < |segs| ensures NoParens(StripArity(segs[i])) { StripIsPlain(segs[i]); }
    GuardIsExact(|segs|, arities, |args|);
    if Distributable(|segs|, arities, |args|) {
      SlicesHaveNoParens(arities, args);
      var slices := Slices(arities, args);
      forall i | 0 <= i < |segs| ensures NoParens(SegmentEnc(segs[i], slices[i])) { BracedHasNoParens(slices[i]); }
      JoinHasNoParens(SegmentsEnc(segs, slices), ".");
    } else {
      JoinHasNoParens(StripAll(segs), ".");
      BracedHasNoParens(args);
    }
  }

  lemma SuffixHasNoParens(rank: nat, sizes: seq<nat>, lows: seq<int>)
    ensures NoParens(ArraySuffix(rank, sizes, lows, false))
  {
    var specs := DimSpecs(rank, sizes, lows);
    forall i | 0 <= i < rank ensures NoParens(specs[i]) { DimSpecIsPlain(i, sizes, lows); }
    JoinHasNoParens(specs, ",");
  }

  lemma {:induction false} EncHasNoParens(t: TypeRef)
    requires PlainNames(t)
    ensures NoParens(TypeEnc(t))
    decreases t
  {
    match t
    case PrimRef(p) => PrimitiveNamesArePlain(p);
    case Var(i, isMethod) => DigitsArePlain(DecimalText(i));
    case NamedRef(name, args) =>
      NamespaceIsPlain(name.namespace);
      SplitIsPlain(name.name, '/');
      EncAllHasNoParens(args);
      NameHasNoParens(Split(name.name, '/'), name.arities, EncAll(args, Roslyn));
    case ArrayRef(e, rank, sizes, lows) =>
      EncNullableHasNoParens(e);
      SuffixHasNoParens(rank, sizes, lows);
    case PtrRef(p) => EncHasNoParens(p);
    case VoidPtrRef => assert TypeEnc(t) == "System.Void*";
    case ByRefRef(i, r) => EncHasNoParens(i);
  }

  lemma {:induction false} EncNullableHasNoParens(n: NullableType)
    requires PlainNamesIn(n)
    ensures NoParens(EncNullable(n, Roslyn))
    decreases n
  {
    EncHasNoParens(n.ty);
  }

  lemma {:induction false} EncAllHasNoParens(args: seq<NullableType>)
    requires PlainNamesAll(args)
    ensures forall i :: 0 <= i < |args| ==> NoParens(EncAll(args, Roslyn)[i])
    decreases args
  {
    if args != [] {
      EncNullableHasNoParens(args[0]);
      EncAllHasNoParens(args[1..]);
    }
  }

  lemma ConversionNamesHaveNoParen(name: string)
    requires IsConversionOperator(name)
    ensures '(' !in name
  {
  }

  lemma ParenOpensBehind(head: string, after: string)
    requires '(' !in head
    ensures IndexOf(head + ("(" + after), '(') == Some(|head|)
    ensures (head + ("(" + after))[|head| + 1..] == after && (head + ("(" + after))[..|head|] == head
  {
    IndexOfAbsent(head, '(');
    IndexOfPrefix(head, "(" + after, '(');
    Lists.Cut(head, '(', after);
  }

  /** A key with text behind its parameter list does not split. */
  lemma TrailingTextDoesNotSplit(head: string, inner: string, ret: string)
    requires '(' !in head && NoParens(ret)
    ensures SplitKey(head + ("(" + (inner + ")")) + ("~" + ret)).None?
  {
    var after := inner + ")" + ("~" + ret);
    assert head + ("(" + (inner + ")")) + ("~" + ret) == head + ("(" + after);
    ParenOpensBehind(head, after);
    assert after[|after| - 1] == if ret == [] then '~' else ret[|ret| - 1];
  }

  /** Without parameters the whole key is its name. */
  lemma NoListSplitsWhole(head: string, ret: string)
    requires '(' !in head && NoParens(ret)
    ensures SplitKey(head + "" + ("~" + ret)) == Some((head + "" + ("~" + ret), []))
  {
    IndexOfAbsent(head + "" + ("~" + ret), '(');
  }

  /** A conversion operator's computed key ends in its return type, so the
      checker refuses it as soon as the operator has a parameter. Without one,
      the whole key is the name, and only the arity read from it decides. */
  lemma ConversionKeyFits(decl: string, m: Method, erasedTypars: nat)
    requires '(' !in decl && IsConversionOperator(m.name) && PlainNames(m.returnType)
    ensures MethodKeyFits(MethodId(decl, m), m, erasedTypars) <==>
      m.parameters == [] && m.genericArity <= KeyArity(MethodId(decl, m)) <= m.genericArity + erasedTypars
  {
    ConversionNamesHaveNoParen(m.name);
    HeadHasNoParen(decl, m, m.genericArity);
    EncHasNoParens(m.returnType);
    if m.parameters == [] {
      NoListSplitsWhole(Head(decl, m), TypeEnc(m.returnType));
    } else {
      TrailingTextDoesNotSplit(Head(decl, m), Join(ParamEncs(m.parameters), ","), TypeEnc(m.returnType));
    }
  }

  // ---- the scanner as a loop ----

  method SplitTopLevelLoop(list: string) returns (parts: seq<string>)
    ensures parts == SplitTopLevel(list)
  {
    parts := [];
    var depth, start := 0, 0;
    var i := 0;
    while i < |list|
      invariant 0 <= start <= i <= |list|
      invariant parts + SplitFrom(list[i..], depth, list[start..i]) == SplitTopLevel(list)
    {
      var c := list[i];
      assert list[i..][0] == c && list[i..][1..] == list[i + 1..];
      assert list[start..i + 1] == list[start..i] + [c];
      if c == '{' || c == '[' {
        depth := depth + 1;
      } else if c == '}' || c == ']' {
        depth := depth - 1;
      } else if c == ',' && depth == 0 {
        parts := parts + [list[start..i]];
        start := i + 1;
        assert list[start..i + 1] == [];
      }
      i := i + 1;
    }
    assert list[i..] == [] && list[start..i] == list[start..];
    parts := parts + [list[start..]];
  }

  // ---- the name of a constructed type as a loop ----

  /** The named branch of `type_enc`: the arguments land on their segments
      exactly when the saturating total passes for their number. */
  method EncodeName(segs: seq<string>, arities: seq<nat>, args: Vec<NullableType>) returns (full: string)
    ensures full == NameEnc(segs, arities, EncAll(args, Roslyn))
  {
    var encs := EncAll(args, Roslyn);
    var slices := Distribute(|segs|, arities, encs);
    GuardIsExact(|segs|, arities, |args|);
    if slices.None? {
      return Join(StripAll(segs), ".") + (if encs == [] then "" else Braced(encs));
    }
    var parts := [];
    var i := 0;
    while i < |segs|
      invariant 0 <= i <= |segs|
      invariant parts == SegmentsEnc(segs, slices.value)[..i]
    {
      parts := parts + [SegmentEnc(segs[i], slices.value[i])];
      i := i + 1;
    }
    assert parts == SegmentsEnc(segs, slices.value);
    full := Join(parts, ".");
  }
}
