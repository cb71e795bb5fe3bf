/** What a documentation ID identifies: two types have one encoding exactly when
    they agree on everything but what the encoding drops, so overloads that
    differ otherwise have different IDs. */
module TypeIdentity {
  import opened Options
  import opened Decimals
  import opened Text
  import opened Signatures
  import opened SegmentArgs
  import opened DocIds
  import opened Skeletons
  import Lists

  // ---- what is left of a type ----

  datatype Dim = Dim(low: int, size: Option<nat>)

  datatype Part = Part(name: string, args: seq<Shape>)

  /** A type without its assembly, its annotations, the read-only mark of a byref
      and the boundary between namespace and nesting. */
  datatype Shape =
    | Dotted(parts: seq<Part>)
    | Variable(index: nat, isMethod: bool)
    | ArrayOf(element: Shape, dims: seq<Dim>)
    | PointerTo(of: Shape)
    | ByrefTo(of: Shape)

  function Bare(names: seq<string>): (r: seq<Part>)
    ensures |r| == |names| && forall i :: 0 <= i < |names| ==> r[i] == Part(names[i], [])
  {
    seq(|names|, i requires 0 <= i < |names| => Part(names[i], []))
  }

  /** A dimension's lower bound, zero where none is given, and its size. */
  function Dimensions(rank: nat, sizes: seq<nat>, lows: seq<int>): (r: seq<Dim>) {
    if rank <= 1 && sizes == [] && lows == [] then []
    else seq(rank, i requires 0 <= i < rank => DimAt(i, sizes, lows))
  }

  function DimAt(i: nat, sizes: seq<nat>, lows: seq<int>): Dim {
    Dim(if i < |lows| then lows[i] else 0, if i < |sizes| then Some(sizes[i]) else None)
  }

  /** The segments with the arguments each of them introduces, or the last one
      with all of them where the arities do not account for them. */
  function NameParts(segs: seq<string>, arities: seq<nat>, args: Vec<Shape>): (r: seq<Part>)
    requires segs != []
    ensures |r| == |segs|
  {
    if Distributable(|segs|, arities, |args|) then
      GuardIsExact(|segs|, arities, |args|);
      var slices := Slices(arities, args);
      seq(|segs|, i requires 0 <= i < |segs| => Part(StripArity(segs[i]), slices[i]))
    else
      var names := StripAll(segs);
      Bare(names[..|names| - 1]) + [Part(names[|names| - 1], args)]
  }

  function ShapeOf(t: TypeRef): Shape
    decreases t
  {
    match t
    case PrimRef(p) => Dotted(Bare(["System", SimpleName(p)]))
    case Var(i, isMethod) => Variable(i, isMethod)
    case NamedRef(name, args) =>
      Dotted(Bare(name.namespace) + NameParts(Split(name.name, '/'), name.arities, ShapesOf(args)))
    case ArrayRef(e, rank, sizes, lows) => ArrayOf(ShapeIn(e), Dimensions(rank, sizes, lows))
    case PtrRef(p) => PointerTo(ShapeOf(p))
    case VoidPtrRef => PointerTo(Dotted(Bare(["System", "Void"])))
    case ByRefRef(i, _) => ByrefTo(ShapeOf(i))
  }

  function ShapeIn(n: NullableType): Shape
    decreases n
  {
    ShapeOf(n.ty)
  }

  function ShapesOf(args: seq<NullableType>): (r: seq<Shape>)
    ensures |r| == |args|
    decreases args
  {
    if args == [] then [] else [ShapeIn(args[0])] + ShapesOf(args[1..])
  }

  // ---- its text ----

  function DimText(d: Dim): string {
    SignedText(d.low) + ":" + (match d.size case None => "" case Some(n) => DecimalText(n))
  }

  function DimTexts(dims: seq<Dim>): (r: seq<string>)
    ensures |r| == |dims| && forall i :: 0 <= i < |dims| ==> r[i] == DimText(dims[i])
  {
    seq(|dims|, i requires 0 <= i < |dims| => DimText(dims[i]))
  }

  function ShapeText(s: Shape): string
    decreases s
  {
    match s
    case Dotted(parts) => PartsText(parts)
    case Variable(i, isMethod) => (if isMethod then "``" else "`") + DecimalText(i)
    case ArrayOf(e, dims) => ShapeText(e) + ("[" + Join(DimTexts(dims), ",") + "]")
    case PointerTo(of) => ShapeText(of) + "*"
    case ByrefTo(of) => ShapeText(of) + "@"
  }

  function PartsText(parts: seq<Part>): string
    decreases parts, 0
  {
    if parts == [] then "" else PartText(parts[0]) + Behind(parts[1..])
  }

  function Behind(parts: seq<Part>): string
    decreases parts, 1
  {
    if parts == [] then "" else "." + PartsText(parts)
  }

  function PartText(p: Part): string
    decreases p
  {
    p.name + ArgsText(p.args)
  }

  function ArgsText(args: seq<Shape>): string
    decreases args, 1
  {
    if args == [] then "" else Braced(ShapeTexts(args))
  }

  function ShapeTexts(args: seq<Shape>): (r: seq<string>)
    ensures |r| == |args|
    decreases args, 0
  {
    if args == [] then [] else [ShapeText(args[0])] + ShapeTexts(args[1..])
  }

  // ---- the encoding is that text ----

  lemma {:induction false} PartsConcat(a: seq<Part>, b: seq<Part>)
    requires a != [] && b != []
    ensures PartsText(a + b) == PartsText(a) + "." + PartsText(b)
    decreases |a|
  {
    assert (a + b)[0] == a[0] && (a + b)[1..] == a[1..] + b;
    if |a| == 1 {
      assert a[1..] + b == b;
    } else {
      PartsConcat(a[1..], b);
    }
  }

  lemma {:induction false} NamespaceText(names: seq<string>, parts: seq<Part>)
    requires parts != []
    ensures PartsText(Bare(names) + parts) == Namespace(names) + PartsText(parts)
    decreases |names|
  {
    var all := Bare(names) + parts;
    if names == [] {
      assert all == parts;
    } else {
      assert all[0] == Part(names[0], []) && all[1..] == Bare(names[1..]) + parts;
      NamespaceText(names[1..], parts);
      BarePartText(names[0]);
      Lists.Associate(names[0] + ".", Namespace(names[1..]), PartsText(parts));
      Lists.Associate(names[0], ".", PartsText(all[1..]));
    }
  }

  lemma BarePartText(name: string)
    ensures PartText(Part(name, [])) == name
  {
    assert name + "" == name;
  }

  lemma {:induction false} JoinText(parts: seq<Part>, texts: seq<string>)
    requires |parts| == |texts| && forall i :: 0 <= i < |parts| ==> PartText(parts[i]) == texts[i]
    ensures PartsText(parts) == Join(texts, ".")
    decreases |parts|
  {
    if |parts| > 1 {
      JoinText(parts[1..], texts[1..]);
    } else if |parts| == 1 {
      assert parts[1..] == [];
    }
  }

  lemma {:induction false} TextsOfSlices(arities: seq<nat>, args: seq<Shape>, i: nat)
    requires Sum(arities) == |args| && i < |arities|
    ensures Slices(arities, ShapeTexts(args))[i] == ShapeTexts(Slices(arities, args)[i])
    decreases i
  {
    var k := arities[0];
    TextsOfSlice(args, k);
    if i > 0 { TextsOfSlices(arities[1..], args[k..], i - 1); }
  }

  lemma {:induction false} TextsOfSlice(args: seq<Shape>, k: nat)
    requires k <= |args|
    ensures ShapeTexts(args)[..k] == ShapeTexts(args[..k]) && ShapeTexts(args)[k..] == ShapeTexts(args[k..])
    decreases |args|
  {
    if k > 0 {
      TextsOfSlice(args[1..], k - 1);
      assert args[..k][1..] == args[1..][..k - 1] && args[k..] == args[1..][k - 1..];
    }
  }

  lemma NameText(segs: seq<string>, arities: seq<nat>, args: Vec<Shape>)
    requires segs != []
    ensures PartsText(NameParts(segs, arities, args)) == NameEnc(segs, arities, ShapeTexts(args))
  {
    GuardIsExact(|segs|, arities, |args|);
    var parts := NameParts(segs, arities, args);
    if Distributable(|segs|, arities, |args|) {
      var slices := Slices(arities, args);
      var texts := SegmentsEnc(segs, Slices(arities, ShapeTexts(args)));
      forall i | 0 <= i < |segs| ensures PartText(parts[i]) == texts[i] { TextsOfSlices(arities, args, i); }
      JoinText(parts, texts);
    } else {
      FallbackText(StripAll(segs), args);
    }
  }

  lemma FallbackText(names: seq<string>, args: seq<Shape>)
    requires names != []
    ensures PartsText(Bare(names[..|names| - 1]) + [Part(names[|names| - 1], args)])
         == Join(names, ".") + ArgsText(args)
  {
    var n := |names| - 1;
    var last := Part(names[n], args);
    assert [last][1..] == [];
    assert PartsText([last]) == PartText(last) + "" == PartText(last);
    NamespaceText(names[..n], [last]);
    JoinIsNamespace(names);
    Lists.Associate(Namespace(names[..n]), names[n], ArgsText(args));
  }

  lemma {:induction false} JoinIsNamespace(names: seq<string>)
    requires names != []
    ensures Join(names, ".") == Namespace(names[..|names| - 1]) + names[|names| - 1]
    decreases |names|
  {
    if |names| > 1 {
      JoinIsNamespace(names[1..]);
      assert names[..|names| - 1][1..] == names[1..][..|names| - 2];
    }
  }

  lemma SuffixText(rank: nat, sizes: seq<nat>, lows: seq<int>)
    ensures ArraySuffix(rank, sizes, lows, false) == "[" + Join(DimTexts(Dimensions(rank, sizes, lows)), ",") + "]"
  {
    var dims := Dimensions(rank, sizes, lows);
    if rank <= 1 && sizes == [] && lows == [] {
      assert DimTexts(dims) == [];
    } else {
      assert DimTexts(dims) == DimSpecs(rank, sizes, lows);
    }
  }

  lemma SystemText(name: string)
    ensures PartsText(Bare(["System", name])) == "System." + name
  {
    var parts := Bare(["System", name]);
    var last := Part(name, []);
    assert parts[0] == Part("System", []) && parts[1..] == [last] && [last][1..] == [];
    assert PartText(parts[0]) == "System" + "" == "System";
    assert PartText(last) == name + "" == name;
    assert PartsText([last]) == name + "" == name;
    assert "System" + ("." + name) == "System." + name;
  }

  /** The encoding shows a type's shape and nothing else. */
  lemma {:induction false} EncIsShapeText(t: TypeRef)
    ensures TypeEnc(t) == ShapeText(ShapeOf(t))
    decreases t
  {
    match t
    case PrimRef(p) => SystemText(SimpleName(p));
    case Var(_, _) =>
    case NamedRef(name, args) =>
      EncsAreShapeTexts(args);
      var parts := NameParts(Split(name.name, '/'), name.arities, ShapesOf(args));
      NameText(Split(name.name, '/'), name.arities, ShapesOf(args));
      NamespaceText(name.namespace, parts);
    case ArrayRef(e, rank, sizes, lows) =>
      EncInIsShapeText(e);
      SuffixText(rank, sizes, lows);
    case PtrRef(p) => EncIsShapeText(p);
    case VoidPtrRef => VoidPtrText();
    case ByRefRef(i, _) => EncIsShapeText(i);
  }

  lemma VoidPtrText()
    ensures PartsText(Bare(["System", "Void"])) + "*" == "System.Void*"
  {
    SystemText("Void");
    assert "System." + "Void" + "*" == "System.Void*";
  }

  lemma {:induction false} EncInIsShapeText(n: NullableType)
    ensures EncNullable(n, Roslyn) == ShapeText(ShapeIn(n))
    decreases n
  {
    EncIsShapeText(n.ty);
  }

  lemma {:induction false} EncsAreShapeTexts(args: seq<NullableType>)
    ensures EncAll(args, Roslyn) == ShapeTexts(ShapesOf(args))
    decreases args
  {
    if args != [] {
      EncInIsShapeText(args[0]);
      EncsAreShapeTexts(args[1..]);
      assert ShapesOf(args)[1..] == ShapesOf(args[1..]);
    }
  }

  // ---- proper names ----

  /** A name that cannot be taken for anything else. */
  predicate ProperName(s: string) {
    && s != [] && s[0] != '`' && Plain(s)
    && forall i :: 0 <= i < |s| ==> s[i] != '.' && s[i] != '*' && s[i] != '@'
  }

  ghost predicate Proper(s: Shape)
    decreases s
  {
    match s
    case Dotted(parts) => parts != [] && ProperParts(parts)
    case Variable(_, _) => true
    case ArrayOf(e, _) => Proper(e)
    case PointerTo(of) => Proper(of)
    case ByrefTo(of) => Proper(of)
  }

  ghost predicate ProperParts(parts: seq<Part>)
    decreases parts
  {
    parts == [] || (ProperPart(parts[0]) && ProperParts(parts[1..]))
  }

  ghost predicate ProperPart(p: Part)
    decreases p
  {
    ProperName(p.name) && ProperShapes(p.args)
  }

  ghost predicate ProperShapes(args: seq<Shape>)
    decreases args
  {
    args == [] || (Proper(args[0]) && ProperShapes(args[1..]))
  }

  // ---- texts are closed ----

  lemma DimTextIsPlain(d: Dim)
    ensures Plain(DimText(d))
  {
    DigitsArePlain(DecimalText(if d.low < 0 then -d.low else d.low));
    if d.size.Some? { DigitsArePlain(DecimalText(d.size.value)); }
  }

  lemma DimsAreClosed(dims: seq<Dim>)
    ensures Closed("[" + Join(DimTexts(dims), ",") + "]")
  {
    forall i | 0 <= i < |dims| ensures Closed(DimTexts(dims)[i]) {
      DimTextIsPlain(dims[i]);
      PlainIsClosed(DimText(dims[i]));
    }
    BracketedIsClosed("[", "]", DimTexts(dims));
  }

  lemma {:induction false} TextIsClosed(s: Shape)
    requires Proper(s)
    ensures Closed(ShapeText(s))
    decreases s
  {
    match s
    case Dotted(parts) => PartsAreClosed(parts);
    case Variable(i, isMethod) =>
      DigitsArePlain(DecimalText(i));
      PlainIsClosed(ShapeText(s));
    case ArrayOf(e, dims) =>
      TextIsClosed(e);
      DimsAreClosed(dims);
      ClosedConcat(ShapeText(e), "[" + Join(DimTexts(dims), ",") + "]");
    case PointerTo(of) =>
      TextIsClosed(of);
      PlainIsClosed("*");
      ClosedConcat(ShapeText(of), "*");
    case ByrefTo(of) =>
      TextIsClosed(of);
      PlainIsClosed("@");
      ClosedConcat(ShapeText(of), "@");
  }

  lemma {:induction false} PartsAreClosed(parts: seq<Part>)
    requires ProperParts(parts)
    ensures Closed(PartsText(parts)) && Closed(Behind(parts))
    decreases parts, 1
  {
    PlainIsClosed("");
    if parts != [] {
      PartIsClosed(parts[0]);
      PartsAreClosed(parts[1..]);
      ClosedConcat(PartText(parts[0]), Behind(parts[1..]));
      PlainIsClosed(".");
      ClosedConcat(".", PartsText(parts));
    }
  }

  lemma {:induction false} PartIsClosed(p: Part)
    requires ProperPart(p)
    ensures Closed(PartText(p))
    decreases p, 0
  {
    PlainIsClosed(p.name);
    PlainIsClosed("");
    TextsAreClosed(p.args);
    BracketedIsClosed("{", "}", ShapeTexts(p.args));
    ClosedConcat(p.name, ArgsText(p.args));
  }

  lemma {:induction false} TextsAreClosed(args: seq<Shape>)
    requires ProperShapes(args)
    ensures forall i :: 0 <= i < |args| ==> Closed(ShapeTexts(args)[i])
    decreases args, 0
  {
    if args != [] {
      TextIsClosed(args[0]);
      TextsAreClosed(args[1..]);
    }
  }

  // ---- texts identify shapes ----

  /** What kind of shape a text shows, by its ends. */
  function KindOf(s: string): nat
    requires s != []
  {
    if s[|s| - 1] == '*' then 3 else if s[|s| - 1] == '@' then 4 else if s[|s| - 1] == ']' then 2
    else if s[0] == '`' then 1 else 0
  }

  function Kind(s: Shape): nat {
    match s
    case Dotted(_) => 0
    case Variable(_, _) => 1
    case ArrayOf(_, _) => 2
    case PointerTo(_) => 3
    case ByrefTo(_) => 4
  }

  lemma {:induction false} KindShows(s: Shape)
    requires Proper(s)
    ensures ShapeText(s) != [] && KindOf(ShapeText(s)) == Kind(s)
    decreases s
  {
    match s
    case Dotted(parts) => PartsEnd(parts);
    case Variable(i, isMethod) =>
      var digits := DecimalText(i);
      assert IsDigit(digits[|digits| - 1]);
    case ArrayOf(e, dims) =>
      var suffix := "[" + Join(DimTexts(dims), ",") + "]";
      assert suffix[|suffix| - 1] == ']';
    case PointerTo(of) =>
    case ByrefTo(of) =>
  }

  ghost predicate DottedEnd(c: char) { c != '*' && c != '@' && c != ']' }

  lemma {:induction false} PartsEnd(parts: seq<Part>)
    requires parts != [] && ProperParts(parts)
    ensures var s := PartsText(parts); s != [] && s[0] != '`' && DottedEnd(s[|s| - 1])
    decreases |parts|
  {
    var first, rest := PartText(parts[0]), Behind(parts[1..]);
    PartEnds(parts[0]);
    if |parts| > 1 {
      PartsEnd(parts[1..]);
      assert rest[|rest| - 1] == PartsText(parts[1..])[|PartsText(parts[1..])| - 1];
    } else {
      assert rest == "" && first + rest == first;
    }
  }

  lemma PartEnds(p: Part)
    requires ProperPart(p)
    ensures var s := PartText(p); s != [] && s[0] == p.name[0] && DottedEnd(s[|s| - 1])
  {
    var args := ArgsText(p.args);
    assert PlainChar(p.name[|p.name| - 1]);
    if args == [] {
      assert p.name + args == p.name;
    } else {
      assert args[|args| - 1] == '}';
    }
  }

  lemma SignedIsUnique(m: int, n: int)
    requires SignedText(m) == SignedText(n)
    ensures m == n
  {
    var a, b := if m < 0 then -m else m, if n < 0 then -n else n;
    DecimalRoundTrip(a);
    DecimalRoundTrip(b);
    assert IsDigit(DecimalText(a)[0]) && IsDigit(DecimalText(b)[0]);
    if m < 0 && n < 0 { Lists.Cancel("-", DecimalText(a), DecimalText(b)); }
  }

  lemma SignedHasNoColon(n: int)
    ensures ':' !in SignedText(n)
  {
    var digits := DecimalText(if n < 0 then -n else n);
    forall i | 0 <= i < |digits| ensures digits[i] != ':' { assert IsDigit(digits[i]); }
  }

  lemma DimIsUnique(a: Dim, b: Dim)
    requires DimText(a) == DimText(b)
    ensures a == b
  {
    var r := match a.size case None => "" case Some(n) => DecimalText(n);
    var s := match b.size case None => "" case Some(n) => DecimalText(n);
    SignedHasNoColon(a.low);
    SignedHasNoColon(b.low);
    Lists.Associate(SignedText(a.low), ":", r);
    Lists.Associate(SignedText(b.low), ":", s);
    MarkIsUnique(SignedText(a.low), r, SignedText(b.low), s, ':');
    SignedIsUnique(a.low, b.low);
    if a.size.Some? { DecimalRoundTrip(a.size.value); }
    if b.size.Some? { DecimalRoundTrip(b.size.value); }
  }

  lemma DimsAreUnique(a: seq<Dim>, b: seq<Dim>)
    requires Join(DimTexts(a), ",") == Join(DimTexts(b), ",")
    ensures a == b
  {
    DimsReadBack(a);
    DimsReadBack(b);
    assert |a| == |b|;
    forall i | 0 <= i < |a| ensures a[i] == b[i] {
      assert DimTexts(a)[i] == DimTexts(b)[i];
      DimIsUnique(a[i], b[i]);
    }
  }

  lemma DimsReadBack(a: seq<Dim>)
    ensures a == [] ==> Join(DimTexts(a), ",") == ""
    ensures a != [] ==> Join(DimTexts(a), ",") != "" && Split(Join(DimTexts(a), ","), ',') == DimTexts(a)
  {
    if a != [] {
      forall i | 0 <= i < |a| ensures ',' !in DimTexts(a)[i] {
        DimTextIsPlain(a[i]);
        forall j | 0 <= j < |DimText(a[i])| ensures DimText(a[i])[j] != ',' { assert PlainChar(DimText(a[i])[j]); }
      }
      SplitUndoesSeparator(DimTexts(a), ',');
      assert DimText(a[0])[|SignedText(a[0].low)|] == ':';
    }
  }

  lemma GroupIsUnique(x: string, d: string, y: string, e: string)
    requires '[' !in d && '[' !in e && x + ("[" + d + "]") == y + ("[" + e + "]")
    ensures x == y && d == e
  {
    var s, t := x + ("[" + d + "]"), y + ("[" + e + "]");
    if |x| < |y| {
      LaterBracket(x, d, s, |y|);
    } else if |y| < |x| {
      LaterBracket(y, e, t, |x|);
    }
    assert x == s[..|x|] && y == t[..|y|];
    assert d == s[|x| + 1..|s| - 1] && e == t[|y| + 1..|t| - 1];
  }

  lemma LaterBracket(x: string, d: string, s: string, k: nat)
    requires s == x + ("[" + d + "]") && '[' !in d && |x| < k < |s|
    ensures s[k] != '['
  {
    if k < |s| - 1 { assert s[k] == d[k - |x| - 1]; }
  }

  lemma DimsHaveNoBracket(dims: seq<Dim>)
    ensures '[' !in Join(DimTexts(dims), ",")
  {
    forall i | 0 <= i < |dims| ensures '[' !in DimTexts(dims)[i] {
      DimTextIsPlain(dims[i]);
      forall j | 0 <= j < |DimText(dims[i])| ensures DimText(dims[i])[j] != '[' {
        assert PlainChar(DimText(dims[i])[j]);
      }
    }
    JoinLacks(DimTexts(dims), '[');
  }

  lemma {:induction false} JoinLacks(parts: seq<string>, c: char)
    requires c != ',' && forall i :: 0 <= i < |parts| ==> c !in parts[i]
    ensures c !in Join(parts, ",")
    decreases |parts|
  {
    if |parts| > 1 { JoinLacks(parts[1..], c); }
  }

  /** A text shows one shape. */
  lemma {:induction false} ShapeIsUnique(a: Shape, b: Shape)
    requires Proper(a) && Proper(b) && ShapeText(a) == ShapeText(b)
    ensures a == b
    decreases a
  {
    KindShows(a);
    KindShows(b);
    match a
    case Dotted(parts) => PartsAreUnique(parts, b.parts);
    case Variable(i, isMethod) => VariableIsUnique(i, isMethod, b.index, b.isMethod);
    case ArrayOf(e, dims) =>
      DimsHaveNoBracket(dims);
      DimsHaveNoBracket(b.dims);
      GroupIsUnique(ShapeText(e), Join(DimTexts(dims), ","), ShapeText(b.element), Join(DimTexts(b.dims), ","));
      ShapeIsUnique(e, b.element);
      DimsAreUnique(dims, b.dims);
    case PointerTo(of) =>
      Lists.CancelBack(ShapeText(of), ShapeText(b.of), "*");
      ShapeIsUnique(of, b.of);
    case ByrefTo(of) =>
      Lists.CancelBack(ShapeText(of), ShapeText(b.of), "@");
      ShapeIsUnique(of, b.of);
  }

  lemma VariableIsUnique(i: nat, isMethod: bool, j: nat, isMethod': bool)
    requires (if isMethod then "``" else "`") + DecimalText(i) == (if isMethod' then "``" else "`") + DecimalText(j)
    ensures i == j && isMethod == isMethod'
  {
    var a, b := DecimalText(i), DecimalText(j);
    assert IsDigit(a[0]) && IsDigit(b[0]);
    assert ((if isMethod then "``" else "`") + a)[1] == if isMethod then '`' else a[0];
    assert ((if isMethod' then "``" else "`") + b)[1] == if isMethod' then '`' else b[0];
    Lists.Cancel(if isMethod then "``" else "`", a, b);
    DecimalRoundTrip(i);
    DecimalRoundTrip(j);
  }

  ghost predicate NameStops(s: string) { s == [] || s[0] == '.' || s[0] == '{' }

  lemma NameFrontIsUnique(x: string, r: string, y: string, s: string)
    requires ProperName(x) && ProperName(y) && NameStops(r) && NameStops(s) && x + r == y + s
    ensures x == y && r == s
  {
    if |x| < |y| {
      NameFrontIsLongest(x, r, y, s);
    } else if |y| < |x| {
      NameFrontIsLongest(y, s, x, r);
    }
    assert x == (x + r)[..|x|] && y == (y + s)[..|y|];
    assert r == (x + r)[|x|..] && s == (y + s)[|y|..];
  }

  lemma NameFrontIsLongest(x: string, r: string, y: string, s: string)
    requires NameStops(r) && x + r == y + s && |x| < |y|
    ensures !ProperName(y)
  {
    assert y[|x|] == (y + s)[|x|] == (x + r)[|x|] == r[0];
    assert !PlainChar(y[|x|]) || y[|x|] == '.';
  }

  lemma {:induction false} PartsAreUnique(a: seq<Part>, b: seq<Part>)
    requires a != [] && b != [] && ProperParts(a) && ProperParts(b) && PartsText(a) == PartsText(b)
    ensures a == b
    decreases a, 1
  {
    PartIsUnique(a[0], Behind(a[1..]), b[0], Behind(b[1..]));
    BehindIsUnique(a[1..], b[1..]);
    Lists.Uncons(a);
    Lists.Uncons(b);
  }

  lemma {:induction false} BehindIsUnique(a: seq<Part>, b: seq<Part>)
    requires ProperParts(a) && ProperParts(b) && Behind(a) == Behind(b)
    ensures a == b
    decreases a, 2
  {
    if a != [] && b != [] {
      Lists.Cancel(".", PartsText(a), PartsText(b));
      PartsAreUnique(a, b);
    }
  }

  lemma {:induction false} PartIsUnique(p: Part, r: string, q: Part, s: string)
    requires ProperPart(p) && ProperPart(q) && PartText(p) + r == PartText(q) + s
    requires (r == [] || r[0] == '.') && (s == [] || s[0] == '.')
    ensures p == q && r == s
    decreases p, 0
  {
    var x, y := ArgsText(p.args) + r, ArgsText(q.args) + s;
    Lists.Associate(p.name, ArgsText(p.args), r);
    Lists.Associate(q.name, ArgsText(q.args), s);
    assert p.args != [] ==> x[0] == '{';
    assert q.args != [] ==> y[0] == '{';
    assert p.args == [] ==> x == r;
    assert q.args == [] ==> y == s;
    NameFrontIsUnique(p.name, x, q.name, y);
    if p.args != [] {
      TextsAreClosed(p.args);
      TextsAreClosed(q.args);
      BracedIsUnique(ShapeTexts(p.args), r, ShapeTexts(q.args), s);
      ShapesAreUnique(p.args, q.args);
    }
  }

  lemma {:induction false} ShapesAreUnique(a: seq<Shape>, b: seq<Shape>)
    requires ProperShapes(a) && ProperShapes(b) && ShapeTexts(a) == ShapeTexts(b)
    ensures a == b
    decreases a, 0
  {
    assert |a| == |b|;
    if a != [] {
      assert ShapeTexts(a)[0] == ShapeTexts(b)[0] && ShapeTexts(a)[1..] == ShapeTexts(b)[1..];
      ShapeIsUnique(a[0], b[0]);
      ShapesAreUnique(a[1..], b[1..]);
      Lists.Uncons(a);
      Lists.Uncons(b);
    }
  }

  // ---- types ----

  /** Every name in the type is proper, once its arity suffix is dropped. */
  ghost predicate ProperType(t: TypeRef)
    decreases t
  {
    match t
    case NamedRef(name, args) =>
      && (forall i :: 0 <= i < |name.namespace| ==> ProperName(name.namespace[i]))
      && (forall i :: 0 <= i < |Split(name.name, '/')| ==> ProperName(StripArity(Split(name.name, '/')[i])))
      && ProperTypes(args)
    case ArrayRef(e, _, _, _) => ProperTypeIn(e)
    case PtrRef(p) => ProperType(p)
    case ByRefRef(i, _) => ProperType(i)
    case _ => true
  }

  ghost predicate ProperTypeIn(n: NullableType)
    decreases n
  {
    ProperType(n.ty)
  }

  ghost predicate ProperTypes(args: seq<NullableType>)
    decreases args
  {
    args == [] || (ProperTypeIn(args[0]) && ProperTypes(args[1..]))
  }

  lemma {:induction false} AllPartsProper(parts: seq<Part>)
    requires forall i :: 0 <= i < |parts| ==> ProperPart(parts[i])
    ensures ProperParts(parts)
    decreases |parts|
  {
    if parts != [] { AllPartsProper(parts[1..]); }
  }

  lemma {:induction false} ProperSlice(args: seq<Shape>, a: nat, b: nat)
    requires ProperShapes(args) && a <= b <= |args|
    ensures ProperShapes(args[a..b])
    decreases |args|
  {
    if a > 0 {
      ProperSlice(args[1..], a - 1, b - 1);
      Lists.SliceBehind(args, 1, a - 1, b - 1);
    } else if b > 0 {
      ProperSlice(args[1..], 0, b - 1);
      Lists.TailOfTake(args, b);
    }
  }

  lemma ProperNameParts(segs: seq<string>, arities: seq<nat>, args: Vec<Shape>)
    requires segs != [] && (forall i :: 0 <= i < |segs| ==> ProperName(StripArity(segs[i]))) && ProperShapes(args)
    ensures forall i :: 0 <= i < |segs| ==> ProperPart(NameParts(segs, arities, args)[i])
  {
    var parts := NameParts(segs, arities, args);
    GuardIsExact(|segs|, arities, |args|);
    forall i | 0 <= i < |segs| ensures ProperPart(parts[i]) {
      if Distributable(|segs|, arities, |args|) {
        SliceAt(arities, args, i);
        ProperSlice(args, Sum(arities[..i]), Sum(arities[..i]) + arities[i]);
      }
    }
  }

  lemma SystemIsProper()
    ensures ProperName("System") && ProperName("Void") && ProperName("Object") && ProperName("String")
  {
  }

  lemma SmallIsProper(code: nat)
    ensures ProperName(SmallPrimitiveName(code))
  {
  }

  lemma WideIsProper(code: nat)
    ensures ProperName(WidePrimitiveName(code))
  {
  }

  lemma SimpleNameIsProper(p: Primitive)
    ensures ProperName(SimpleName(p))
  {
    SystemIsProper();
    if p.ValuePrimitive? {
      SmallIsProper(p.code);
      WideIsProper(p.code);
    }
  }

  lemma SystemPartsAreProper(name: string)
    requires ProperName(name)
    ensures Proper(Dotted(Bare(["System", name])))
  {
    SystemIsProper();
    AllPartsProper(Bare(["System", name]));
  }

  lemma {:induction false} ProperTypeHasProperShape(t: TypeRef)
    requires ProperType(t)
    ensures Proper(ShapeOf(t))
    decreases t
  {
    match t
    case PrimRef(p) =>
      SimpleNameIsProper(p);
      SystemPartsAreProper(SimpleName(p));
    case Var(_, _) =>
    case NamedRef(name, args) =>
      ProperTypesHaveProperShapes(args);
      ProperNameParts(Split(name.name, '/'), name.arities, ShapesOf(args));
      AllPartsProper(Bare(name.namespace) + NameParts(Split(name.name, '/'), name.arities, ShapesOf(args)));
    case ArrayRef(e, _, _, _) => ProperTypeInHasProperShape(e);
    case PtrRef(p) => ProperTypeHasProperShape(p);
    case VoidPtrRef =>
      SystemIsProper();
      SystemPartsAreProper("Void");
    case ByRefRef(i, _) => ProperTypeHasProperShape(i);
  }

  lemma {:induction false} ProperTypeInHasProperShape(n: NullableType)
    requires ProperTypeIn(n)
    ensures Proper(ShapeIn(n))
    decreases n
  {
    ProperTypeHasProperShape(n.ty);
  }

  lemma {:induction false} ProperTypesHaveProperShapes(args: seq<NullableType>)
    requires ProperTypes(args)
    ensures ProperShapes(ShapesOf(args))
    decreases args
  {
    if args != [] {
      ProperTypeInHasProperShape(args[0]);
      ProperTypesHaveProperShapes(args[1..]);
      assert ShapesOf(args)[1..] == ShapesOf(args[1..]);
    }
  }

  /** Two types have one encoding exactly when they have one shape. */
  lemma EncodingIdentifiesShape(a: TypeRef, b: TypeRef)
    requires ProperType(a) && ProperType(b)
    ensures TypeEnc(a) == TypeEnc(b) <==> ShapeOf(a) == ShapeOf(b)
  {
    EncIsShapeText(a);
    EncIsShapeText(b);
    ProperTypeHasProperShape(a);
    ProperTypeHasProperShape(b);
    if TypeEnc(a) == TypeEnc(b) { ShapeIsUnique(ShapeOf(a), ShapeOf(b)); }
  }

  /** Nullability is part of no shape, so of no encoding. */
  lemma {:induction false} ErasingKeepsShape(t: TypeRef)
    ensures ShapeOf(Erase(t)) == ShapeOf(t)
    decreases t
  {
    match t
    case NamedRef(_, args) => ErasingKeepsShapes(args);
    case ArrayRef(e, _, _, _) => ErasingKeepsShapeIn(e);
    case PtrRef(p) => ErasingKeepsShape(p);
    case ByRefRef(i, _) => ErasingKeepsShape(i);
    case _ =>
  }

  lemma {:induction false} ErasingKeepsShapeIn(n: NullableType)
    ensures ShapeIn(EraseNullable(n)) == ShapeIn(n)
    decreases n
  {
    ErasingKeepsShape(n.ty);
  }

  lemma {:induction false} ErasingKeepsShapes(args: seq<NullableType>)
    ensures ShapesOf(EraseAll(args)) == ShapesOf(args)
    decreases args
  {
    if args != [] {
      ErasingKeepsShapeIn(args[0]);
      ErasingKeepsShapes(args[1..]);
      assert EraseAll(args)[1..] == EraseAll(args[1..]);
    }
  }

  // ---- overloads ----

  function ParamShape(p: Param): Shape { if p.isByref then ByrefTo(ShapeOf(p.ty)) else ShapeOf(p.ty) }

  lemma ParamIsShapeText(p: Param)
    ensures ParamEnc(p) == ShapeText(ParamShape(p))
  {
    EncIsShapeText(p.ty);
    if !p.isByref { assert TypeEnc(p.ty) + "" == TypeEnc(p.ty); }
  }

  lemma ParamIsIdentified(p: Param, q: Param)
    requires ProperType(p.ty) && ProperType(q.ty)
    ensures ParamEnc(p) == ParamEnc(q) <==> ParamShape(p) == ParamShape(q)
  {
    ParamIsShapeText(p);
    ParamIsShapeText(q);
    ProperTypeHasProperShape(p.ty);
    ProperTypeHasProperShape(q.ty);
    if ParamEnc(p) == ParamEnc(q) { ShapeIsUnique(ParamShape(p), ParamShape(q)); }
  }

  ghost predicate ProperParams(m: Method) {
    forall i :: 0 <= i < |m.parameters| ==> ProperType(m.parameters[i].ty)
  }

  ghost predicate ProperMethod(m: Method) {
    '(' !in m.name && !IsConversionOperator(m.name) && PlainParams(m) && ProperParams(m)
  }

  /** Same parameters, up to what the encoding drops. */
  ghost predicate SameParameters(m: Method, n: Method) {
    && |m.parameters| == |n.parameters|
    && forall i :: 0 <= i < |m.parameters| ==> ParamShape(m.parameters[i]) == ParamShape(n.parameters[i])
  }

  /** Two methods of a type share a documentation ID exactly when they share the
      text before their parameters and have the same parameters. */
  lemma IdIdentifiesOverload(decl: string, m: Method, n: Method)
    requires '(' !in decl && ProperMethod(m) && ProperMethod(n)
    ensures MethodId(decl, m) == MethodId(decl, n) <==> Head(decl, m) == Head(decl, n) && SameParameters(m, n)
  {
    OwnKeySplits(decl, m);
    OwnKeySplits(decl, n);
    SameTextsSameParameters(m, n);
    assert MethodId(decl, m) == Head(decl, m) + ArgsEnc(m.parameters);
    assert MethodId(decl, n) == Head(decl, n) + ArgsEnc(n.parameters);
  }

  lemma SameTextsSameParameters(m: Method, n: Method)
    requires ProperParams(m) && ProperParams(n)
    ensures ParamEncs(m.parameters) == ParamEncs(n.parameters) <==> SameParameters(m, n)
  {
    var xs, ys := ParamEncs(m.parameters), ParamEncs(n.parameters);
    if |xs| == |ys| {
      forall i | 0 <= i < |xs|
        ensures xs[i] == ys[i] <==> ParamShape(m.parameters[i]) == ParamShape(n.parameters[i])
      {
        ParamIsIdentified(m.parameters[i], n.parameters[i]);
      }
    }
  }
}
