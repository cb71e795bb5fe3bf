/** What `arrays_fit` compares exactly: the text with the contents of its
    bracket groups left out. Encodings can be taken apart by it, so two texts
    that differ anywhere outside brackets never fit. */
module Skeletons {
  import opened Options
  import opened Decimals
  import opened Text
  import opened Signatures
  import opened SegmentArgs
  import opened ArraySuffixes
  import opened DocIds
  import Lists

  // ---- the skeleton of a text ----

  /** The text without what stands between brackets, entered inside them or not. */
  function SkeletonFrom(s: string, inside: bool): string {
    if s == [] then []
    else if inside then
      if s[0] == ']' then "]" + SkeletonFrom(s[1..], false) else SkeletonFrom(s[1..], true)
    else [s[0]] + SkeletonFrom(s[1..], s[0] == '[')
  }

  function Skeleton(s: string): string { SkeletonFrom(s, false) }

  /** Whether the text ends inside brackets. */
  predicate Inside(s: string, inside: bool) {
    if s == [] then inside else Inside(s[1..], if inside then s[0] != ']' else s[0] == '[')
  }

  lemma {:induction false} SkeletonFromConcat(a: string, b: string, inside: bool)
    ensures SkeletonFrom(a + b, inside) == SkeletonFrom(a, inside) + SkeletonFrom(b, Inside(a, inside))
    ensures Inside(a + b, inside) == Inside(b, Inside(a, inside))
    decreases |a|
  {
    if a == [] {
      assert a + b == b;
    } else {
      assert (a + b)[0] == a[0] && (a + b)[1..] == a[1..] + b;
      SkeletonFromConcat(a[1..], b, if inside then a[0] != ']' else a[0] == '[');
    }
  }

  lemma SkeletonConcat(a: string, b: string)
    requires !Inside(a, false)
    ensures Skeleton(a + b) == Skeleton(a) + Skeleton(b) && Inside(a + b, false) == Inside(b, false)
  {
    SkeletonFromConcat(a, b, false);
  }

  lemma {:induction false} SkeletonOfText(s: string)
    requires '[' !in s
    ensures Skeleton(s) == s && !Inside(s, false)
    decreases |s|
  {
    if s != [] {
      SkeletonOfText(s[1..]);
      Lists.Uncons(s);
    }
  }

  lemma {:induction false} SkeletonOfDims(dims: string, rest: string)
    requires ']' !in dims
    ensures SkeletonFrom(dims + ("]" + rest), true) == "]" + Skeleton(rest)
    ensures Inside(dims + ("]" + rest), true) == Inside(rest, false)
    decreases |dims|
  {
    var s := dims + ("]" + rest);
    if dims == [] {
      assert s == "]" + rest && s[1..] == rest;
    } else {
      assert s[0] == dims[0] && s[1..] == dims[1..] + ("]" + rest);
      SkeletonOfDims(dims[1..], rest);
    }
  }

  /** A bracket group leaves its two brackets. */
  lemma SkeletonOfGroup(dims: string, rest: string)
    requires ']' !in dims
    ensures Skeleton("[" + dims + "]" + rest) == "[]" + Skeleton(rest)
    ensures Inside("[" + dims + "]" + rest, false) == Inside(rest, false)
  {
    var s := "[" + dims + "]" + rest;
    assert s[0] == '[' && s[1..] == dims + ("]" + rest);
    SkeletonOfDims(dims, rest);
    assert "[" + ("]" + Skeleton(rest)) == "[]" + Skeleton(rest);
  }

  // ---- fitting texts have one skeleton ----

  lemma SkeletonOfCut(s: string)
    requires CutGroup(s).Cut?
    ensures var c := CutGroup(s); Skeleton(s) == c.text + ("[]" + Skeleton(c.rest))
  {
    var k := IndexOf(s, '[').value;
    var text, from := s[..k], s[k..];
    var c := IndexOf(from, ']').value;
    var dims, rest := from[1..c], from[c + 1..];
    FirstIsFree(s, '[');
    FirstIsFree(from, ']');
    assert ']' !in dims by {
      forall i | 0 <= i < |dims| ensures dims[i] != ']' { assert dims[i] == from[..c][i + 1]; }
    }
    CutApart(s, k, c);
    SkeletonOfText(text);
    SkeletonConcat(text, "[" + dims + "]" + rest);
    SkeletonOfGroup(dims, rest);
  }

  lemma {:induction false} FirstIsFree(s: string, c: char)
    ensures IndexOf(s, c).Some? ==> c !in s[..IndexOf(s, c).value]
    decreases |s|
  {
    if s != [] && s[0] != c && IndexOf(s, c).Some? {
      FirstIsFree(s[1..], c);
      var k := IndexOf(s, c).value;
      assert s[..k] == [s[0]] + s[1..][..k - 1];
    }
  }

  lemma CutApart(s: string, k: nat, c: nat)
    requires k < |s| && s[k] == '[' && 0 < c < |s| - k && s[k..][c] == ']'
    ensures s == s[..k] + ("[" + s[k..][1..c] + "]" + s[k..][c + 1..])
  {
    var from := s[k..];
    assert from == [from[0]] + from[1..c] + [from[c]] + from[c + 1..];
    assert s == s[..k] + from;
  }

  /** `arrays_fit` never overlooks a difference outside brackets. */
  lemma {:induction false} FittingHasOneSkeleton(key: string, il: string)
    requires ArraysFit(key, il)
    ensures Skeleton(key) == Skeleton(il)
    decreases |key|
  {
    match CutGroup(key)
    case NoBracket =>
    case Unclosed =>
    case Cut(text, dims, rest) =>
      SkeletonOfCut(key);
      SkeletonOfCut(il);
      FittingHasOneSkeleton(rest, CutGroup(il).rest);
  }

  // ---- tidy texts: brackets and braces close, commas are inside ----

  ghost predicate Tidy(s: string) { !Inside(s, false) && Closed(Skeleton(s)) }

  lemma TidyConcat(a: string, b: string)
    requires Tidy(a) && Tidy(b)
    ensures Tidy(a + b) && Skeleton(a + b) == Skeleton(a) + Skeleton(b)
  {
    SkeletonConcat(a, b);
    ClosedConcat(Skeleton(a), Skeleton(b));
  }

  lemma PlainIsTidy(s: string)
    requires Plain(s)
    ensures Tidy(s) && Skeleton(s) == s
  {
    SkeletonOfText(s);
    PlainIsClosed(s);
  }

  lemma GroupIsTidy(dims: string)
    requires ']' !in dims
    ensures Tidy("[" + dims + "]") && Skeleton("[" + dims + "]") == "[]"
  {
    SkeletonOfGroup(dims, []);
    assert "[" + dims + "]" + [] == "[" + dims + "]";
    var none: seq<string> := [];
    BracketedIsClosed("[", "]", none);
    assert Join(none, ",") == "" && "[" + "" + "]" == "[]";
    assert Skeleton("[" + dims + "]") == "[]" + Skeleton([]) == "[]";
  }

  function SkeletonsOf(ss: seq<string>): (r: seq<string>)
    ensures |r| == |ss| && forall i :: 0 <= i < |ss| ==> r[i] == Skeleton(ss[i])
  {
    seq(|ss|, i requires 0 <= i < |ss| => Skeleton(ss[i]))
  }

  lemma SkeletonsRest(ss: seq<string>)
    requires ss != []
    ensures SkeletonsOf(ss) == [Skeleton(ss[0])] + SkeletonsOf(ss[1..]) && SkeletonsOf(ss)[1..] == SkeletonsOf(ss[1..])
  {
  }

  lemma {:induction false} SkeletonOfJoin(parts: seq<string>, sep: string)
    requires '[' !in sep && forall i :: 0 <= i < |parts| ==> !Inside(parts[i], false)
    ensures Skeleton(Join(parts, sep)) == Join(SkeletonsOf(parts), sep) && !Inside(Join(parts, sep), false)
    decreases |parts|
  {
    if |parts| > 1 {
      SkeletonsRest(parts);
      SkeletonOfJoin(parts[1..], sep);
      SkeletonOfText(sep);
      SkeletonConcat(parts[0], sep);
      SkeletonConcat(parts[0] + sep, Join(parts[1..], sep));
    }
  }

  lemma SkeletonOfBraced(args: seq<string>)
    requires forall i :: 0 <= i < |args| ==> !Inside(args[i], false)
    ensures Skeleton(Braced(args)) == Braced(SkeletonsOf(args)) && !Inside(Braced(args), false)
  {
    SkeletonOfJoin(args, ",");
    SkeletonOfText("{");
    SkeletonOfText("}");
    SkeletonConcat("{", Join(args, ","));
    SkeletonConcat("{" + Join(args, ","), "}");
  }

  lemma SkeletonOfSegment(seg: string, args: seq<string>)
    requires Plain(seg) && forall i :: 0 <= i < |args| ==> !Inside(args[i], false)
    ensures Skeleton(SegmentEnc(seg, args)) == SegmentEnc(seg, SkeletonsOf(args))
    ensures !Inside(SegmentEnc(seg, args), false)
  {
    StripIsPlain(seg);
    PlainIsTidy(StripArity(seg));
    SkeletonOfBraced(args);
    SkeletonConcat(StripArity(seg), Braced(args));
  }

  lemma {:induction false} SkeletonsOfSlices(arities: seq<nat>, args: seq<string>)
    requires Sum(arities) == |args|
    ensures forall i :: 0 <= i < |arities| ==>
      Slices(arities, SkeletonsOf(args))[i] == SkeletonsOf(Slices(arities, args)[i])
    decreases |arities|
  {
    if arities != [] {
      var k := arities[0];
      SkeletonsOfSlices(arities[1..], args[k..]);
      assert SkeletonsOf(args)[k..] == SkeletonsOf(args[k..]) && SkeletonsOf(args)[..k] == SkeletonsOf(args[..k]);
    }
  }

  /** A name's skeleton is the name over its arguments' skeletons. */
  lemma SkeletonOfName(segs: seq<string>, arities: seq<nat>, args: Vec<string>)
    requires forall i :: 0 <= i < |segs| ==> Plain(segs[i])
    requires forall i :: 0 <= i < |args| ==> !Inside(args[i], false)
    ensures Skeleton(NameEnc(segs, arities, args)) == NameEnc(segs, arities, SkeletonsOf(args))
    ensures !Inside(NameEnc(segs, arities, args), false)
  {
    GuardIsExact(|segs|, arities, |args|);
    if Distributable(|segs|, arities, |args|) {
      SkeletonOfSegments(segs, arities, args);
    } else {
      var names := StripAll(segs);
      forall i | 0 <= i < |names| ensures !Inside(names[i], false) && Skeleton(names[i]) == names[i] {
        StripIsPlain(segs[i]);
        PlainIsTidy(names[i]);
      }
      assert SkeletonsOf(names) == names;
      SkeletonOfJoin(names, ".");
      SkeletonOfBraced(args);
      SkeletonConcat(Join(names, "."), if args == [] then "" else Braced(args));
    }
  }

  lemma SkeletonOfSegments(segs: seq<string>, arities: seq<nat>, args: seq<string>)
    requires |arities| == |segs| && Sum(arities) == |args|
    requires forall i :: 0 <= i < |segs| ==> Plain(segs[i])
    requires forall i :: 0 <= i < |args| ==> !Inside(args[i], false)
    ensures Skeleton(Join(SegmentsEnc(segs, Slices(arities, args)), "."))
         == Join(SegmentsEnc(segs, Slices(arities, SkeletonsOf(args))), ".")
    ensures !Inside(Join(SegmentsEnc(segs, Slices(arities, args)), "."), false)
  {
    var slices := Slices(arities, args);
    var parts := SegmentsEnc(segs, slices);
    SkeletonsOfSlices(arities, args);
    forall i | 0 <= i < |segs|
      ensures !Inside(parts[i], false) && Skeleton(parts[i]) == SegmentEnc(segs[i], SkeletonsOf(slices[i]))
    {
      forall j | 0 <= j < |slices[i]| ensures !Inside(slices[i][j], false) { SliceAt(arities, args, i); }
      SkeletonOfSegment(segs[i], slices[i]);
    }
    assert SkeletonsOf(parts) == SegmentsEnc(segs, Slices(arities, SkeletonsOf(args)));
    SkeletonOfJoin(parts, ".");
  }

  // ---- closed arguments can be told apart ----

  /** A text that ends, or goes on behind an argument. */
  ghost predicate Stops(s: string) { s == [] || s[0] == ',' || s[0] == '}' }

  /** A closed text ends where it ends: nothing longer is closed too. */
  lemma FrontIsUnique(x: string, r: string, y: string, s: string)
    requires Closed(x) && Closed(y) && Stops(r) && Stops(s) && x + r == y + s
    ensures x == y && r == s
  {
    if |x| < |y| {
      FrontIsLongest(x, r, y, s);
    } else if |y| < |x| {
      FrontIsLongest(y, s, x, r);
    } else {
      assert x == (x + r)[..|x|] && y == (y + s)[..|y|];
      assert r == (x + r)[|x|..] && s == (y + s)[|y|..];
    }
  }

  lemma FrontIsLongest(x: string, r: string, y: string, s: string)
    requires Closed(x) && Stops(r) && x + r == y + s && |x| < |y|
    ensures !Closed(y)
  {
    var z := y[|x|..];
    assert y == (x + r)[..|y|] && y == x + z;
    assert z[0] == (x + r)[|x|] == r[0];
    ScanConcat(x, z, 0);
    assert Scan(x, 0) == Some(0);
    assert Scan(y, 0) == None;
  }

  lemma {:induction false} JoinIsUnique(xs: seq<string>, r: string, ys: seq<string>, s: string)
    requires xs != [] && ys != []
    requires (forall i :: 0 <= i < |xs| ==> Closed(xs[i])) && (forall i :: 0 <= i < |ys| ==> Closed(ys[i]))
    requires Join(xs, ",") + ("}" + r) == Join(ys, ",") + ("}" + s)
    ensures xs == ys && r == s
    decreases |xs|
  {
    var x, y := BehindFirst(xs, r), BehindFirst(ys, s);
    Listed(xs, r);
    Listed(ys, s);
    FrontIsUnique(xs[0], x, ys[0], y);
    assert x[0] == y[0];
    assert x[1..] == y[1..];
    if |xs| > 1 {
      assert x[1..] == Join(xs[1..], ",") + ("}" + r) && y[1..] == Join(ys[1..], ",") + ("}" + s);
      JoinIsUnique(xs[1..], r, ys[1..], s);
      Lists.Uncons(xs);
      Lists.Uncons(ys);
    } else {
      assert x[1..] == r && y[1..] == s;
      assert xs == [xs[0]] && ys == [ys[0]];
    }
  }

  /** What stands behind the first of a braced list. */
  function BehindFirst(xs: seq<string>, r: string): (b: string)
    requires xs != []
    ensures b != [] && b[0] == if |xs| == 1 then '}' else ','
  {
    if |xs| == 1 then "}" + r else "," + (Join(xs[1..], ",") + ("}" + r))
  }

  lemma Listed(xs: seq<string>, r: string)
    requires xs != []
    ensures Join(xs, ",") + ("}" + r) == xs[0] + BehindFirst(xs, r)
  {
  }

  /** A braced list of closed parts, and what follows it, are determined. */
  lemma BracedIsUnique(xs: seq<string>, r: string, ys: seq<string>, s: string)
    requires xs != [] && ys != []
    requires (forall i :: 0 <= i < |xs| ==> Closed(xs[i])) && (forall i :: 0 <= i < |ys| ==> Closed(ys[i]))
    requires Braced(xs) + r == Braced(ys) + s
    ensures xs == ys && r == s
  {
    assert (Braced(xs) + r)[1..] == Join(xs, ",") + ("}" + r);
    assert (Braced(ys) + s)[1..] == Join(ys, ",") + ("}" + s);
    JoinIsUnique(xs, r, ys, s);
  }

  lemma SegmentIsUnique(seg: string, xs: seq<string>, r: string, ys: seq<string>, s: string)
    requires |xs| == |ys| && forall i :: 0 <= i < |xs| ==> Closed(xs[i]) && Closed(ys[i])
    requires SegmentEnc(seg, xs) + r == SegmentEnc(seg, ys) + s
    ensures xs == ys && r == s
  {
    var name := StripArity(seg);
    if xs == [] {
      Lists.Cancel(name, r, s);
    } else {
      Lists.Associate(name, Braced(xs), r);
      Lists.Associate(name, Braced(ys), s);
      Lists.Cancel(name, Braced(xs) + r, Braced(ys) + s);
      BracedIsUnique(xs, r, ys, s);
    }
  }

  lemma {:induction false} SegmentsAreUnique(segs: seq<string>, xss: seq<seq<string>>, yss: seq<seq<string>>)
    requires |segs| == |xss| == |yss|
    requires forall i :: 0 <= i < |segs| ==> |xss[i]| == |yss[i]|
    requires forall i, j :: 0 <= i < |segs| && 0 <= j < |xss[i]| ==> Closed(xss[i][j]) && Closed(yss[i][j])
    requires Join(SegmentsEnc(segs, xss), ".") == Join(SegmentsEnc(segs, yss), ".")
    ensures xss == yss
    decreases |segs|
  {
    if |segs| == 1 {
      SegmentIsUnique(segs[0], xss[0], [], yss[0], []);
      assert SegmentEnc(segs[0], xss[0]) + [] == SegmentEnc(segs[0], xss[0]);
      assert SegmentEnc(segs[0], yss[0]) + [] == SegmentEnc(segs[0], yss[0]);
    } else if |segs| > 1 {
      var x, y := Join(SegmentsEnc(segs[1..], xss[1..]), "."), Join(SegmentsEnc(segs[1..], yss[1..]), ".");
      FirstSegment(segs, xss);
      FirstSegment(segs, yss);
      SegmentIsUnique(segs[0], xss[0], "." + x, yss[0], "." + y);
      assert x == ("." + x)[1..] && y == ("." + y)[1..];
      SegmentsAreUnique(segs[1..], xss[1..], yss[1..]);
      Lists.Uncons(xss);
      Lists.Uncons(yss);
    }
  }

  lemma FirstSegment(segs: seq<string>, xss: seq<seq<string>>)
    requires |segs| == |xss| > 1
    ensures Join(SegmentsEnc(segs, xss), ".")
         == SegmentEnc(segs[0], xss[0]) + ("." + Join(SegmentsEnc(segs[1..], xss[1..]), "."))
  {
    assert SegmentsEnc(segs, xss)[1..] == SegmentsEnc(segs[1..], xss[1..]);
  }

  lemma DistributedIsUnique(segs: seq<string>, arities: seq<nat>, xs: seq<string>, ys: seq<string>)
    requires |segs| == |arities| && Sum(arities) == |xs| == |ys|
    requires forall i :: 0 <= i < |xs| ==> Closed(xs[i]) && Closed(ys[i])
    requires Join(SegmentsEnc(segs, Slices(arities, xs)), ".") == Join(SegmentsEnc(segs, Slices(arities, ys)), ".")
    ensures xs == ys
  {
    SlicesPlaceEachOnce(arities, xs);
    SlicesPlaceEachOnce(arities, ys);
    var xss, yss := Slices(arities, xs), Slices(arities, ys);
    forall i, j | 0 <= i < |segs| && 0 <= j < |xss[i]| ensures Closed(xss[i][j]) && Closed(yss[i][j]) {
      SliceAt(arities, xs, i);
      SliceAt(arities, ys, i);
    }
    SegmentsAreUnique(segs, xss, yss);
  }

  /** A name written over closed arguments determines them. */
  lemma NameIsUnique(segs: seq<string>, arities: seq<nat>, xs: Vec<string>, ys: Vec<string>)
    requires |xs| == |ys| && forall i :: 0 <= i < |xs| ==> Closed(xs[i]) && Closed(ys[i])
    requires NameEnc(segs, arities, xs) == NameEnc(segs, arities, ys)
    ensures xs == ys
  {
    GuardIsExact(|segs|, arities, |xs|);
    if Distributable(|segs|, arities, |xs|) {
      DistributedIsUnique(segs, arities, xs, ys);
    } else if xs != [] {
      Lists.Cancel(Join(StripAll(segs), "."), Braced(xs), Braced(ys));
      assert Braced(xs) + [] == Braced(xs) && Braced(ys) + [] == Braced(ys);
      BracedIsUnique(xs, [], ys, []);
    }
  }

  // ---- encodings are closed, and so are their skeletons ----

  ghost predicate Sound(s: string) { Closed(s) && Tidy(s) }

  lemma SoundConcat(a: string, b: string)
    requires Sound(a) && Sound(b)
    ensures Sound(a + b) && Skeleton(a + b) == Skeleton(a) + Skeleton(b)
  {
    ClosedConcat(a, b);
    TidyConcat(a, b);
  }

  lemma PlainIsSound(s: string)
    requires Plain(s)
    ensures Sound(s) && Skeleton(s) == s
  {
    PlainIsClosed(s);
    PlainIsTidy(s);
  }

  lemma BracedIsSound(args: seq<string>)
    requires forall i :: 0 <= i < |args| ==> Sound(args[i])
    ensures Sound(Braced(args)) && Skeleton(Braced(args)) == Braced(SkeletonsOf(args))
  {
    BracketedIsClosed("{", "}", args);
    SkeletonOfBraced(args);
    BracketedIsClosed("{", "}", SkeletonsOf(args));
  }

  lemma NameIsSound(name: TypeName, args: Vec<string>)
    requires Plain(name.name) && forall i :: 0 <= i < |name.namespace| ==> Plain(name.namespace[i])
    requires forall i :: 0 <= i < |args| ==> Sound(args[i])
    ensures var s := Namespace(name.namespace) + NameEnc(Split(name.name, '/'), name.arities, args);
      && Sound(s)
      && Skeleton(s)
         == Namespace(name.namespace) + NameEnc(Split(name.name, '/'), name.arities, SkeletonsOf(args))
  {
    var segs := Split(name.name, '/');
    NamespaceIsPlain(name.namespace);
    PlainIsSound(Namespace(name.namespace));
    SplitIsPlain(name.name, '/');
    NameClosed(segs, name.arities, args);
    SkeletonOfName(segs, name.arities, args);
    NameClosed(segs, name.arities, SkeletonsOf(args));
    SoundConcat(Namespace(name.namespace), NameEnc(segs, name.arities, args));
  }

  lemma SuffixIsSound(rank: nat, sizes: seq<nat>, lows: seq<int>, fewer: bool)
    ensures var s := ArraySuffix(rank, sizes, lows, fewer); Sound(s) && Skeleton(s) == "[]"
  {
    SuffixClosed(rank, sizes, lows, fewer);
    var n := if fewer && rank >= 2 && sizes == [] && lows == [] then rank - 1 else rank;
    DimsCount(n, sizes, lows);
    GroupIsTidy(Dims(n, sizes, lows));
    GroupIsTidy("");
  }

  lemma {:induction false} EncIsSound(t: TypeRef, fewer: Dialect)
    requires PlainNames(t)
    ensures Sound(Enc(t, fewer))
    decreases t
  {
    match t
    case PrimRef(p) =>
      PrimitiveNamesArePlain(p);
      PlainIsSound(PrimitiveName(p));
    case Var(i, isMethod) =>
      DigitsArePlain(DecimalText(i));
      PlainIsSound(Enc(t, fewer));
    case NamedRef(name, args) =>
      EncsAreSound(args, fewer);
      NameIsSound(name, EncAll(args, fewer));
    case ArrayRef(e, rank, sizes, lows) =>
      EncIsSoundIn(e, fewer);
      SuffixIsSound(rank, sizes, lows, fewer(t));
      SoundConcat(EncNullable(e, fewer), ArraySuffix(rank, sizes, lows, fewer(t)));
    case PtrRef(p) =>
      EncIsSound(p, fewer);
      PlainIsSound("*");
      SoundConcat(Enc(p, fewer), "*");
    case VoidPtrRef => PlainIsSound("System.Void*");
    case ByRefRef(i, _) =>
      EncIsSound(i, fewer);
      PlainIsSound("@");
      SoundConcat(Enc(i, fewer), "@");
  }

  lemma {:induction false} EncIsSoundIn(n: NullableType, fewer: Dialect)
    requires PlainNamesIn(n)
    ensures Sound(EncNullable(n, fewer))
    decreases n
  {
    EncIsSound(n.ty, fewer);
  }

  lemma {:induction false} EncsAreSound(args: seq<NullableType>, fewer: Dialect)
    requires PlainNamesAll(args)
    ensures forall i :: 0 <= i < |args| ==> Sound(EncAll(args, fewer)[i])
    decreases args
  {
    if args != [] {
      EncIsSoundIn(args[0], fewer);
      EncsAreSound(args[1..], fewer);
    }
  }
}
