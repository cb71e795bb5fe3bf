/** The rules of `param_fits`, one at a time: what each abbreviation is taken
    for, and texts that no rule speaks about. */
module ParamRules {
  import opened Options
  import opened Text
  import opened Signatures
  import opened SegmentArgs
  import opened ArraySuffixes
  import opened DocIds

  datatype ByrefName = Byref | Inref | Outref

  const SIG_PTR := "Microsoft.FSharp.Core.ilsigptr{"

  function Abbreviation(b: ByrefName): string {
    match b
    case Byref => "Microsoft.FSharp.Core.byref{"
    case Inref => "Microsoft.FSharp.Core.inref{"
    case Outref => "Microsoft.FSharp.Core.outref{"
  }

  ghost predicate Last(s: string, c: char) { s != [] && s[|s| - 1] == c }

  /** The first argument of an abbreviation is read back. */
  lemma FirstArgReadsBack(abbrev: string, args: seq<string>)
    requires abbrev != [] && args != [] && forall i :: 0 <= i < |args| ==> Closed(args[i])
    ensures FirstArg(abbrev + Join(args, ",") + "}", abbrev) == Some(args[0])
  {
    Stripped(abbrev, Join(args, ","));
    SplitUndoesJoin(args);
  }

  lemma Stripped(abbrev: string, inner: string)
    ensures abbrev <= abbrev + inner + "}" && StripPrefix(abbrev + inner + "}", abbrev) == Some(inner + "}")
    ensures StripSuffix(inner + "}", '}') == Some(inner)
  {
    var key := abbrev + inner + "}";
    assert key[..|abbrev|] == abbrev && key[|abbrev|..] == inner + "}";
    assert (inner + "}")[..|inner|] == inner;
  }

  lemma NoFirstArg(key: string, abbrev: string)
    requires abbrev != [] && !(abbrev <= key)
    ensures FirstArg(key, abbrev) == None
  {
  }

  lemma OtherPrefix(key: string, own: string, other: string, i: nat)
    requires own <= key && i < |own| && i < |other| && own[i] != other[i]
    ensures !(other <= key)
  {
    assert key[i] == own[i];
  }

  /** Each abbreviation is taken for itself and for no other. */
  lemma AbbreviationsDiffer(b: ByrefName, key: string)
    requires Abbreviation(b) <= key
    ensures !(SIG_PTR <= key)
    ensures forall other :: other != b ==> !(Abbreviation(other) <= key)
  {
    OtherPrefix(key, Abbreviation(b), SIG_PTR, if b == Inref then 23 else 22);
    forall other | other != b ensures !(Abbreviation(other) <= key) {
      OtherPrefix(key, Abbreviation(b), Abbreviation(other), 22);
    }
  }

  lemma ByrefReadsBack(b: ByrefName, args: seq<string>)
    requires args != [] && forall i :: 0 <= i < |args| ==> Closed(args[i])
    ensures var key := Abbreviation(b) + Join(args, ",") + "}";
      FirstArg(key, SIG_PTR) == None && FirstByrefArg(key) == Some(args[0])
  {
    var abbrev, inner := Abbreviation(b), Join(args, ",");
    FirstArgReadsBack(abbrev, args);
    Stripped(abbrev, inner);
    ByrefTakenForItself(b, abbrev + inner + "}");
  }

  lemma ByrefTakenForItself(b: ByrefName, key: string)
    requires Abbreviation(b) <= key
    ensures FirstArg(key, SIG_PTR) == None
    ensures FirstArg(key, Abbreviation(b)).Some? ==> FirstByrefArg(key) == FirstArg(key, Abbreviation(b))
  {
    AbbreviationsDiffer(b, key);
    NoFirstArg(key, SIG_PTR);
    if b != Byref { NoFirstArg(key, Abbreviation(Byref)); }
    if b != Inref { NoFirstArg(key, Abbreviation(Inref)); }
  }

  /** A byref abbreviation fits exactly when its first argument does. */
  lemma ByrefFits(key: string, first: string, il: string)
    requires !ArraysFit(key, il + "@") && FirstArg(key, SIG_PTR) == None && FirstByrefArg(key) == Some(first)
    ensures ParamFits(key, il + "@") <==> ParamFits(first, il)
  {
    assert Last(il + "@", '@') && Last("System.IntPtr", 'r') && Last("System.Void*", '*');
    assert (il + "@")[..|il|] == il;
    assert StripSuffix(il + "@", '@') == Some(il);
  }

  /** The same for `ilsigptr`. */
  lemma SigPtrFits(key: string, first: string, il: string)
    requires !ArraysFit(key, il + "*") && FirstArg(key, SIG_PTR) == Some(first) && Last(key, '}')
    ensures ParamFits(key, il + "*") <==> ParamFits(first, il)
  {
    assert Last(il + "*", '*') && Last("System.IntPtr", 'r') && Last("Microsoft.FSharp.Core.voidptr", 'r');
    assert (il + "*")[..|il|] == il;
    assert StripSuffix(il + "*", '*') == Some(il);
  }

  lemma SameTextFits(key: string, il: string)
    requires ArraysFit(key, il)
    ensures ParamFits(key, il)
  {
  }

  lemma NativePtrFits(pointee: string)
    ensures ParamFits(pointee + "*", "System.IntPtr")
  {
    assert Last(pointee + "*", '*');
  }

  lemma VoidPtrFits()
    ensures ParamFits("Microsoft.FSharp.Core.voidptr", "System.Void*")
  {
  }

  lemma FirstArgEndsInBrace(key: string, abbrev: string)
    requires abbrev != [] && FirstArg(key, abbrev).Some?
    ensures Last(key, '}')
  {
    var s := StripPrefix(key, abbrev).value;
    assert key == abbrev + s && s[|s| - 1] == '}';
  }

  /** Two texts no rule speaks about. */
  lemma NoRuleFits(key: string, il: string)
    requires !ArraysFit(key, il)
    requires il == "System.IntPtr" ==> !Last(key, '*')
    requires il == "System.Void*" ==> key != "Microsoft.FSharp.Core.voidptr"
    requires Last(key, '}') ==> !Last(il, '*') && !Last(il, '@')
    ensures !ParamFits(key, il)
  {
    if FirstArg(key, SIG_PTR).Some? {
      FirstArgEndsInBrace(key, SIG_PTR);
    } else if FirstByrefArg(key).Some? {
      ByrefArgEndsInBrace(key);
    }
  }

  lemma ByrefArgEndsInBrace(key: string)
    requires FirstByrefArg(key).Some?
    ensures Last(key, '}')
  {
    var b: ByrefName :| FirstArg(key, Abbreviation(b)).Some?;
    FirstArgEndsInBrace(key, Abbreviation(b));
  }

  lemma NoRuleForNames(key: string, il: string)
    requires !ArraysFit(key, il) && '{' in il && (Last(key, '}') ==> Last(il, '}'))
    ensures !ParamFits(key, il)
  {
    NoBraceInPointers();
    NoRuleFits(key, il);
  }

  lemma NoBraceInPointers()
    ensures '{' !in "System.IntPtr" && '{' !in "System.Void*"
  {
  }

  lemma NoRuleBehindMark(key: string, il: string, c: char)
    requires !ArraysFit(key, il) && Last(key, c) && Last(il, c) && (c == ']' || c == '*' || c == '@')
    ensures !ParamFits(key, il)
  {
    assert Last("System.IntPtr", 'r') && Last("Microsoft.FSharp.Core.voidptr", 'r');
    NoRuleFits(key, il);
  }

  lemma AbbreviatedByrefFits(key: string, abbrev: ByrefName, first: string, kinds: seq<string>, il: string)
    requires Closed(first) && forall i :: 0 <= i < |kinds| ==> Closed(kinds[i])
    requires key == Abbreviation(abbrev) + Join([first] + kinds, ",") + "}" && !ArraysFit(key, il + "@")
    ensures ParamFits(key, il + "@") <==> ParamFits(first, il)
  {
    ByrefReadsBack(abbrev, [first] + kinds);
    ByrefFits(key, first, il);
  }

  lemma AbbreviatedSigPtrFits(first: string, il: string)
    requires Closed(first) && !ArraysFit(SIG_PTR + Join([first], ",") + "}", il + "*")
    ensures ParamFits(SIG_PTR + Join([first], ",") + "}", il + "*") <==> ParamFits(first, il)
  {
    FirstArgReadsBack(SIG_PTR, [first]);
    assert Last(SIG_PTR + Join([first], ",") + "}", '}');
    SigPtrFits(SIG_PTR + Join([first], ",") + "}", first, il);
  }

  // ---- where a name ends ----

  lemma {:induction false} JoinEndsAsLast(parts: seq<string>)
    requires parts != []
    ensures Last(Join(parts, "."), '}') <==> Last(parts[|parts| - 1], '}')
    decreases |parts|
  {
    if |parts| > 1 {
      JoinEndsAsLast(parts[1..]);
      var rest := Join(parts[1..], ".");
      var s := parts[0] + "." + rest;
      assert s[|s| - 1] == if rest == [] then '.' else rest[|rest| - 1];
    }
  }

  /** Whether a name ends in a brace does not depend on what its arguments are. */
  lemma NamesEndAlike(segs: seq<string>, arities: seq<nat>, xs: Vec<string>, ys: Vec<string>)
    requires segs != [] && |xs| == |ys|
    ensures Last(NameEnc(segs, arities, xs), '}') <==> Last(NameEnc(segs, arities, ys), '}')
  {
    GuardIsExact(|segs|, arities, |xs|);
    if Distributable(|segs|, arities, |xs|) {
      SlicesPlaceEachOnce(arities, xs);
      SlicesPlaceEachOnce(arities, ys);
      var k := |segs| - 1;
      JoinEndsAsLast(SegmentsEnc(segs, Slices(arities, xs)));
      JoinEndsAsLast(SegmentsEnc(segs, Slices(arities, ys)));
      SegmentsEndAlike(segs[k], Slices(arities, xs)[k], Slices(arities, ys)[k]);
    } else if xs != [] {
      EndsInBrace(Join(StripAll(segs), "."), xs);
      EndsInBrace(Join(StripAll(segs), "."), ys);
    }
  }

  lemma EndsInBrace(front: string, args: seq<string>)
    ensures Last(front + Braced(args), '}')
  {
    assert Last(Braced(args), '}');
  }

  lemma SegmentsEndAlike(seg: string, xs: seq<string>, ys: seq<string>)
    requires |xs| == |ys|
    ensures Last(SegmentEnc(seg, xs), '}') <==> Last(SegmentEnc(seg, ys), '}')
  {
    if xs != [] {
      EndsInBrace(StripArity(seg), xs);
      EndsInBrace(StripArity(seg), ys);
    }
  }

  /** A name with arguments shows a brace. */
  lemma NameShowsBrace(segs: seq<string>, arities: seq<nat>, xs: Vec<string>)
    requires xs != []
    ensures '{' in NameEnc(segs, arities, xs)
  {
    GuardIsExact(|segs|, arities, |xs|);
    assert Braced(xs)[0] == '{';
    if Distributable(|segs|, arities, |xs|) {
      var k := SomeArity(arities);
      SlicesPlaceEachOnce(arities, xs);
      var part := SegmentEnc(segs[k], Slices(arities, xs)[k]);
      assert Braced(Slices(arities, xs)[k])[0] == '{';
      assert '{' in part;
      PartInJoin(SegmentsEnc(segs, Slices(arities, xs)), k, '{');
    }
  }

  lemma {:induction false} SomeArity(arities: seq<nat>) returns (k: nat)
    requires Sum(arities) > 0
    ensures k < |arities| && arities[k] > 0
    decreases |arities|
  {
    if arities[0] > 0 {
      k := 0;
    } else {
      var j := SomeArity(arities[1..]);
      k := j + 1;
    }
  }

  lemma {:induction false} PartInJoin(parts: seq<string>, k: nat, c: char)
    requires k < |parts| && c in parts[k]
    ensures c in Join(parts, ".")
    decreases |parts|
  {
    if |parts| > 1 && k > 0 {
      PartInJoin(parts[1..], k - 1, c);
    }
  }

  lemma FrontEnds(front: string, s: string)
    requires Plain(front)
    ensures Last(front + s, '}') <==> Last(s, '}')
  {
    if s == [] {
      assert front + s == front;
    } else {
      assert (front + s)[|front + s| - 1] == s[|s| - 1];
    }
  }
}
