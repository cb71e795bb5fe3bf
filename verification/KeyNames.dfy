/** A method whose name holds an opening parenthesis: the key is split inside
    the name, and the checker refuses the method its own key. */
module KeyNames {
  import opened Options
  import opened Decimals
  import opened Text
  import opened Signatures
  import opened ArraySuffixes
  import opened DocIds
  import opened Skeletons
  import opened ParamRules
  import Lists

  /** Characters that no scanner counts; parentheses are among them. */
  predicate QuietChar(c: char) { c != '{' && c != '}' && c != '[' && c != ']' && c != ',' }

  predicate Quiet(s: string) { forall i :: 0 <= i < |s| ==> QuietChar(s[i]) }

  lemma {:induction false} QuietIsClosed(s: string)
    requires Quiet(s)
    ensures Closed(s)
    decreases |s|
  {
    if s != [] {
      QuietIsClosed(s[1..]);
      forall d: nat ensures Scan(s, d) == Some(d) { assert QuietChar(s[0]); }
    }
  }

  // ---- the parameter that swallowed the rest of the name ----

  lemma FrontIsNoAbbreviation(x: string, il: string, abbrev: string)
    requires Quiet(x) && Last(x, '(') && '(' !in abbrev && Last(abbrev, '{')
    ensures !(abbrev <= x + il)
  {
    var key := x + il;
    assert key[|x| - 1] == '(';
    if |abbrev| < |x| { assert QuietChar(x[|abbrev| - 1]) && key[|abbrev| - 1] == x[|abbrev| - 1]; }
  }

  lemma AbbreviationsAreShort()
    ensures '(' !in SIG_PTR && Last(SIG_PTR, '{')
    ensures forall b :: '(' !in Abbreviation(b) && Last(Abbreviation(b), '{')
  {
    forall b ensures '(' !in Abbreviation(b) && Last(Abbreviation(b), '{') {
      match b
      case Byref =>
      case Inref =>
      case Outref =>
    }
  }

  /** Text in front of an encoding never fits that encoding. */
  lemma FrontNeverFitsAsText(x: string, il: string)
    requires Quiet(x) && x != [] && Sound(il)
    ensures !ArraysFit(x + il, il)
  {
    SkeletonOfText(x);
    SkeletonConcat(x, il);
    if ArraysFit(x + il, il) {
      FittingHasOneSkeleton(x + il, il);
    }
  }

  lemma FrontNeverFits(x: string, il: string)
    requires Quiet(x) && Last(x, '(') && Sound(il)
    ensures !ParamFits(x + il, il)
  {
    FrontNeverFitsAsText(x, il);
    AbbreviationsAreShort();
    FrontIsNoAbbreviation(x, il, SIG_PTR);
    forall b ensures !(Abbreviation(b) <= x + il) { FrontIsNoAbbreviation(x, il, Abbreviation(b)); }
    NoAbbreviationFits(x, il);
  }

  lemma NoAbbreviationFits(x: string, il: string)
    requires Last(x, '(') && !ArraysFit(x + il, il)
    requires !(SIG_PTR <= x + il) && forall b :: !(Abbreviation(b) <= x + il)
    ensures !ParamFits(x + il, il)
  {
    var key := x + il;
    assert key[|x| - 1] == '(';
    NoFirstArg(key, SIG_PTR);
    NoFirstArg(key, Abbreviation(Byref));
    NoFirstArg(key, Abbreviation(Inref));
    NoFirstArg(key, Abbreviation(Outref));
    VoidPtrHasNoParen();
    if il == "System.IntPtr" { assert Last(il, 'r') && key[|key| - 1] == il[|il| - 1]; }
  }

  lemma VoidPtrHasNoParen()
    ensures '(' !in "Microsoft.FSharp.Core.voidptr"
  {
  }

  // ---- the key ----

  /** A key with parameters whose head opens a parenthesis splits there. */
  lemma SplitsInHead(head: string, k: nat, params: seq<string>)
    requires IndexOf(head, '(') == Some(k) && Quiet(head[k + 1..])
    requires params != [] && forall i :: 0 <= i < |params| ==> Closed(params[i])
    ensures var x := head[k + 1..] + "(";
      SplitKey(head + ArgList(params)) == Some((head[..k], [x + params[0]] + params[1..]))
  {
    var x := head[k + 1..] + "(";
    var parts := [x + params[0]] + params[1..];
    QuietIsClosed(x);
    ClosedConcat(x, params[0]);
    SplitUndoesJoin(parts);
    JoinBehind(x, params);
    OpensInHead(head, k, Join(params, ","));
  }

  lemma JoinBehind(x: string, params: seq<string>)
    requires params != []
    ensures Join([x + params[0]] + params[1..], ",") == x + Join(params, ",")
  {
    var parts := [x + params[0]] + params[1..];
    if |params| > 1 {
      assert parts[1..] == params[1..];
      Lists.Associate4(x, params[0], ",", Join(params[1..], ","));
    }
  }

  lemma OpensInHead(head: string, k: nat, inner: string)
    requires IndexOf(head, '(') == Some(k)
    ensures SplitKey(head + ("(" + (inner + ")")))
         == Some((head[..k], SplitTopLevel(head[k + 1..] + "(" + inner)))
  {
    var key := head + ("(" + (inner + ")"));
    IndexOfPrefix(head, "(" + (inner + ")"), '(');
    var behind := head[k + 1..] + "(" + inner;
    assert key[..k] == head[..k] && key[k + 1..] == behind + ")";
    assert (behind + ")")[..|behind|] == behind;
  }

  /** Without parameters the rest of the head is at most one parameter, and no
      witness. */
  lemma RestOfHeadIsNoWitness(head: string, k: nat)
    requires IndexOf(head, '(') == Some(k) && Quiet(head[k + 1..])
    ensures match SplitKey(head)
            case None => true
            case Some((_, params)) => |params| == 1 && !IsWitness(params[0])
  {
    var inner := head[k + 1..];
    if inner != [] && inner[|inner| - 1] == ')' {
      var part := inner[..|inner| - 1];
      QuietIsClosed(part);
      SplitUndoesJoin([part]);
      assert Join([part], ",") == part;
      WitnessShowsBrace(part);
    }
  }

  lemma WitnessShowsBrace(s: string)
    requires Quiet(s)
    ensures !IsWitness(s)
  {
    assert "Microsoft.FSharp.Core.FSharpFunc{"[32] == '{';
    if |s| > 32 { assert QuietChar(s[32]); }
  }

  lemma HeadOpens(decl: string, m: Method) returns (k: nat)
    requires '(' !in decl && '(' in m.name && Quiet(Escape(m.name))
    ensures IndexOf(Head(decl, m), '(') == Some(k) && Quiet(Head(decl, m)[k + 1..])
  {
    var front := (if m.moduleValue then "P" else "M") + ":" + decl + ".";
    var suffix := if m.genericArity == 0 then "" else "``" + DecimalText(m.genericArity);
    var e := Escape(m.name);
    DigitsArePlain(DecimalText(m.genericArity));
    var n :| 0 <= n < |m.name| && m.name[n] == '(';
    assert e[n] == '(';
    HeadInPieces(decl, m, front, e, suffix);
    k := OpensBehind(front, e, suffix);
  }

  lemma OpensBehind(front: string, e: string, suffix: string) returns (k: nat)
    requires '(' !in front && '(' in e && Quiet(e) && Quiet(suffix)
    ensures IndexOf(front + (e + suffix), '(') == Some(k) && Quiet((front + (e + suffix))[k + 1..])
  {
    IndexOfAbsent(front, '(');
    IndexOfAbsent(e, '(');
    IndexOfPrefix(front, e + suffix, '(');
    IndexOfPrefix(e, suffix, '(');
    var j := IndexOf(e, '(').value;
    k := |front| + j;
    assert (front + (e + suffix))[k + 1..] == (e + suffix)[j + 1..];
  }

  lemma HeadInPieces(decl: string, m: Method, front: string, e: string, suffix: string)
    requires front == (if m.moduleValue then "P" else "M") + ":" + decl + "." && e == Escape(m.name)
    requires suffix == if m.genericArity == 0 then "" else "``" + DecimalText(m.genericArity)
    ensures Head(decl, m) == front + (e + suffix)
  {
    if m.genericArity == 0 {
      assert e + suffix == e;
    } else {
      Lists.Associate(front + e, "``", DecimalText(m.genericArity));
      Lists.Associate(front, e, suffix);
    }
  }

  /** A name that holds an opening parenthesis, and nothing the scanners count,
      costs a method its own key, whatever its parameters and arity. */
  lemma ParenInNameIsRefused(decl: string, m: Method, erasedTypars: nat)
    requires '(' !in decl && '(' in m.name && Quiet(Escape(m.name)) && PlainParams(m)
    ensures !MethodKeyFits(MethodId(decl, m), m, erasedTypars)
  {
    var k := HeadOpens(decl, m);
    var head, encs := Head(decl, m), ParamEncs(m.parameters);
    ParenIsNoConversion(m.name);
    assert MethodId(decl, m) == head + ArgList(encs);
    forall i | 0 <= i < |encs| ensures Closed(encs[i]) && Sound(encs[i]) { ParamIsSound(m.parameters[i]); }
    if encs == [] {
      assert head + "" == head;
      RestOfHeadIsNoWitness(head, k);
    } else {
      SplitsInHead(head, k, encs);
      FrontNeverFits(head[k + 1..] + "(", encs[0]);
      FirstMisfits(MethodId(decl, m), head[..k], [head[k + 1..] + "(" + encs[0]] + encs[1..], encs,
                   m.genericArity, erasedTypars);
    }
  }

  lemma FirstMisfits(
    key: string, name: string, params: seq<string>, il: seq<string>, arity: nat, erasedTypars: nat)
    requires SplitKey(key) == Some((name, params)) && |params| == |il| > 0 && !ParamFits(params[0], il[0])
    ensures !KeyFits(key, il, arity, erasedTypars, true)
  {
    assert [] + params == params;
    SplitFits(key, name, [], params, il, arity, erasedTypars);
  }

  lemma ParenIsNoConversion(name: string)
    requires '(' in name
    ensures !IsConversionOperator(name)
  {
    if IsConversionOperator(name) { ConversionNamesHaveNoParen(name); }
  }

  lemma ParamIsSound(p: Param)
    requires PlainNames(p.ty)
    ensures Sound(ParamEnc(p))
  {
    EncIsSound(p.ty, Roslyn);
    PlainIsSound("@");
    PlainIsSound("");
    SoundConcat(TypeEnc(p.ty), if p.isByref then "@" else "");
  }
}
