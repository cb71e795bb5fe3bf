/** What a computed documentation ID says: a reader written apart from the
    encoder gets back the kind, the declaring type, the method's own name, its
    arity and its parameters, and a conversion operator's return type. */
module MethodIds {
  import opened Options
  import opened Decimals
  import opened Text
  import opened DocIds
  import opened TypeIdentity
  import Lists

  // ---- escaped names ----

  /** How a reader takes an escaped character. */
  function Meant(c: char): char {
    match c
    case '#' => '.'
    case '{' => '<'
    case '}' => '>'
    case _ => c
  }

  function MeantBy(name: string): (r: string)
    ensures |r| == |name| && forall i :: 0 <= i < |name| ==> r[i] == Meant(name[i])
  {
    seq(|name|, i requires 0 <= i < |name| => Meant(name[i]))
  }

  /** The name holds none of the characters that stand for others. */
  ghost predicate Unmarked(name: string) { '#' !in name && '{' !in name && '}' !in name }

  /** An escaped name holds no '.', '<' or '>', so nothing in it is taken for a
      separator. */
  lemma EscapedHoldsNone(name: string)
    ensures '.' !in Escape(name) && '<' !in Escape(name) && '>' !in Escape(name)
    ensures |Escape(name)| == |name|
  {
  }

  /** Reading an escaped name restores it exactly when it held none of the
      characters the others are written as. */
  lemma EscapeReadsBack(name: string)
    ensures MeantBy(Escape(name)) == name <==> Unmarked(name)
  {
    var back := MeantBy(Escape(name));
    assert forall i :: 0 <= i < |name| ==>
      (back[i] == name[i] <==> name[i] != '#' && name[i] != '{' && name[i] != '}');
    if back != name {
      var i :| 0 <= i < |name| && back[i] != name[i];
      assert name[i] in name;
    }
  }

  // ---- the reader ----

  datatype Reading = Reading(isProperty: bool, decl: string, name: string, arity: nat, parameters: seq<string>)

  /** The last '.' parts the declaring type from the member. */
  function ReadHead(head: string, parameters: seq<string>): Option<Reading> {
    match LastIndexOf(head, '.')
    case None => None
    case Some(dot) =>
      if dot < 2 || head[1] != ':' || (head[0] != 'P' && head[0] != 'M') then None
      else ReadMember(head[0] == 'P', head[2..dot], head[dot + 1..], parameters)
  }

  /** The last double backtick parts the member's name from its arity. */
  function ReadMember(isProperty: bool, decl: string, member: string, parameters: seq<string>): Option<Reading> {
    match LastDoubleTick(member)
    case None => Some(Reading(isProperty, decl, MeantBy(member), 0, parameters))
    case Some(tick) =>
      if !AllDigits(member[tick + 2..]) then None
      else Some(Reading(isProperty, decl, MeantBy(member[..tick]), DecimalValue(member[tick + 2..]), parameters))
  }

  function ReadId(id: string): Option<Reading> {
    match SplitKey(id)
    case None => None
    case Some((head, parameters)) => ReadHead(head, parameters)
  }

  /** What there is to read. */
  function Written(decl: string, m: Method): Reading {
    Reading(m.moduleValue, decl, m.name, m.genericArity, ParamEncs(m.parameters))
  }

  ghost predicate NoDoubleTick(s: string) { forall i :: 0 <= i < |s| - 1 ==> !(s[i] == '`' && s[i + 1] == '`') }

  /** Names that a reader can tell: unmarked, without a parenthesis, and without
      two backticks where no arity follows. */
  ghost predicate Readable(m: Method) {
    '(' !in m.name && Unmarked(m.name) && (m.genericArity > 0 || NoDoubleTick(m.name))
  }

  lemma {:induction false} LastIndexBehind(a: string, c: char, b: string)
    requires c !in b
    ensures LastIndexOf(a + [c] + b, c) == Some(|a|)
    decreases |b|
  {
    var s := a + [c] + b;
    if b != [] {
      var n := |b| - 1;
      assert b[n] in b;
      assert s[..|s| - 1] == a + [c] + b[..n];
      LastIndexBehind(a, c, b[..n]);
    }
  }

  /** What follows the last '.'. */
  function MemberText(m: Method): string {
    if m.genericArity == 0 then Escape(m.name) else Escape(m.name) + "``" + DecimalText(m.genericArity)
  }

  lemma MemberHasNoDot(m: Method)
    ensures '.' !in MemberText(m)
  {
    EscapedHoldsNone(m.name);
    assert AllDigits(DecimalText(m.genericArity));
  }

  /** The text before the parameters is the kind, the declaring type, a '.' and
      the member, which holds no other. */
  lemma HeadParts(decl: string, m: Method)
    ensures Head(decl, m) == [if m.moduleValue then 'P' else 'M', ':'] + decl + ['.'] + MemberText(m)
    ensures '.' !in MemberText(m)
  {
    var kind := [if m.moduleValue then 'P' else 'M', ':'];
    MemberHasNoDot(m);
    assert (if m.moduleValue then "P" else "M") + ":" == kind;
    assert Stem(decl, m) == kind + decl + ['.'] + Escape(m.name);
    if m.genericArity > 0 {
      Lists.Associate(kind + decl + ['.'], Escape(m.name), "``");
      Lists.Associate(kind + decl + ['.'], Escape(m.name) + "``", DecimalText(m.genericArity));
    }
  }

  lemma MemberReads(decl: string, m: Method, parameters: seq<string>)
    requires Readable(m)
    ensures ReadMember(m.moduleValue, decl, MemberText(m), parameters)
      == Some(Reading(m.moduleValue, decl, m.name, m.genericArity, parameters))
  {
    EscapeReadsBack(m.name);
    var escaped, arity := Escape(m.name), DecimalText(m.genericArity);
    if m.genericArity == 0 {
      assert forall i :: 0 <= i < |escaped| ==> (escaped[i] == '`' <==> m.name[i] == '`');
      NoTickNoArity(escaped);
    } else {
      LastTickOfArity(escaped, arity);
      var member := escaped + "``" + arity;
      assert member[|escaped| + 2..] == arity && member[..|escaped|] == escaped;
      DecimalRoundTrip(m.genericArity);
    }
  }

  lemma HeadReads(decl: string, m: Method, parameters: seq<string>)
    requires Readable(m)
    ensures ReadHead(Head(decl, m), parameters)
      == Some(Reading(m.moduleValue, decl, m.name, m.genericArity, parameters))
  {
    HeadParts(decl, m);
    MemberReads(decl, m, parameters);
    HeadCuts(if m.moduleValue then 'P' else 'M', decl, MemberText(m), parameters);
  }

  lemma HeadCuts(kind: char, decl: string, member: string, parameters: seq<string>)
    requires (kind == 'P' || kind == 'M') && '.' !in member
    ensures ReadHead([kind, ':'] + decl + ['.'] + member, parameters)
      == ReadMember(kind == 'P', decl, member, parameters)
  {
    var head := [kind, ':'] + decl + ['.'] + member;
    LastIndexBehind([kind, ':'] + decl, '.', member);
    assert head[0] == kind && head[1] == ':';
    assert head[2..2 + |decl|] == decl;
    assert head[2 + |decl| + 1..] == member;
  }

  /** A reader gets back everything a method's ID is made of. */
  lemma IdReadsBack(decl: string, m: Method)
    requires '(' !in decl && Readable(m) && !IsConversionOperator(m.name) && PlainParams(m)
    ensures ReadId(MethodId(decl, m)) == Some(Written(decl, m))
  {
    OwnKeySplits(decl, m);
    HeadReads(decl, m, ParamEncs(m.parameters));
  }

  // ---- conversion operators ----

  ghost predicate Converts(name: string) {
    name in {"op_Implicit", "op_Explicit", "op_CheckedImplicit", "op_CheckedExplicit"}
  }

  lemma ConversionNames(name: string)
    ensures IsConversionOperator(name) <==> Converts(name)
  {
  }

  /** A conversion operator's ID, and no other, names its return type: a '~' and
      the encoded type behind everything else. */
  lemma ConversionReadsBack(decl: string, m: Method) returns (front: string)
    requires '(' !in decl && Converts(m.name) && PlainParams(m)
    ensures MethodId(decl, m) == front + ("~" + TypeEnc(m.returnType))
    ensures ReadId(front) == Some(Written(decl, m))
  {
    ConversionNamesAreReadable(m);
    front := Head(decl, m) + ArgsEnc(m.parameters);
    var encs := ParamEncs(m.parameters);
    HeadHasNoParen(decl, m, m.genericArity);
    forall i | 0 <= i < |encs| ensures Closed(encs[i]) { ParamClosed(m.parameters[i]); }
    KeySplits(Head(decl, m), encs);
    HeadReads(decl, m, encs);
  }

  lemma ConversionNamesAreReadable(m: Method)
    requires Converts(m.name)
    ensures Readable(m) && IsConversionOperator(m.name)
  {
    var name := m.name;
    assert forall i :: 0 <= i < |name| ==>
      name[i] != '(' && name[i] != '#' && name[i] != '{' && name[i] != '}' && name[i] != '`';
  }

  // ---- so an ID identifies its method ----

  ghost predicate SameMethod(m: Method, n: Method) {
    m.name == n.name && m.genericArity == n.genericArity && m.moduleValue == n.moduleValue && SameParameters(m, n)
  }

  /** Two methods, of whatever types, share an ID exactly when they agree on the
      declaring type, the name, the arity and the parameters. */
  lemma IdIdentifiesMethod(d: string, m: Method, e: string, n: Method)
    requires '(' !in d && '(' !in e && ProperMethod(m) && ProperMethod(n) && Readable(m) && Readable(n)
    ensures MethodId(d, m) == MethodId(e, n) <==> d == e && SameMethod(m, n)
  {
    IdReadsBack(d, m);
    IdReadsBack(e, n);
    SameTextsSameParameters(m, n);
    if d == e && SameMethod(m, n) { SameHead(d, m, n); }
  }

  ghost predicate ProperConversion(m: Method) {
    && Converts(m.name) && PlainParams(m) && ProperParams(m)
    && PlainNames(m.returnType) && ProperType(m.returnType)
  }

  /** Conversion operators share an ID exactly when they agree on the return type
      besides: those that differ in it alone are told apart. */
  lemma ConversionIdIdentifies(d: string, m: Method, n: Method)
    requires '(' !in d && ProperConversion(m) && ProperConversion(n)
    ensures MethodId(d, m) == MethodId(d, n) <==> SameMethod(m, n) && ShapeOf(m.returnType) == ShapeOf(n.returnType)
  {
    EncodingIdentifiesShape(m.returnType, n.returnType);
    SameTextsSameParameters(m, n);
    if MethodId(d, m) == MethodId(d, n) {
      var x := ConversionReadsBack(d, m);
      var y := ConversionReadsBack(d, n);
      SameReturn(d, m, n);
      Lists.CancelBack(x, y, "~" + TypeEnc(m.returnType));
    } else if SameMethod(m, n) {
      ConversionNames(m.name);
      SameHead(d, m, n);
    }
  }

  /** The text behind the '~' that follows the last ')', or with no list at all
      behind the first '~' after the declaring type. */
  ghost function ReturnText(d: string, id: string): string {
    if '(' in id then
      match LastIndexOf(id, ')') case None => "" case Some(i) => if i + 2 <= |id| then id[i + 2..] else ""
    else if |id| < 3 + |d| then ""
    else match IndexOf(id[3 + |d|..], '~') case None => "" case Some(i) => id[3 + |d| + i + 1..]
  }

  /** A conversion operator's ID from its parts, with no mark in any of them. */
  ghost predicate Composed(d: string, kind: char, member: string, encs: seq<string>, ret: string, id: string) {
    && '(' !in [kind, ':'] + d + ['.'] + member && '~' !in member && NoParens(ret)
    && id == [kind, ':'] + d + ['.'] + member + ArgList(encs) + ("~" + ret)
  }

  lemma ReturnReadsBack(d: string, kind: char, member: string, encs: seq<string>, ret: string, id: string)
    requires Composed(d, kind, member, encs, ret, id)
    ensures ReturnText(d, id) == ret
  {
    if encs == [] {
      ReturnWithoutList(d, kind, member, ret);
    } else {
      ReturnBehindList(d, [kind, ':'] + d + ['.'] + member, Join(encs, ","), ret);
    }
  }

  lemma SameReturn(d: string, m: Method, n: Method)
    requires '(' !in d && ProperConversion(m) && ProperConversion(n) && MethodId(d, m) == MethodId(d, n)
    ensures TypeEnc(m.returnType) == TypeEnc(n.returnType)
  {
    var j, k := if m.moduleValue then 'P' else 'M', if n.moduleValue then 'P' else 'M';
    ConversionText(d, m, j);
    ConversionText(d, n, k);
    ReturnReadsBack(d, j, MemberText(m), ParamEncs(m.parameters), TypeEnc(m.returnType), MethodId(d, m));
    ReturnReadsBack(d, k, MemberText(n), ParamEncs(n.parameters), TypeEnc(n.returnType), MethodId(d, n));
  }

  lemma ConversionText(d: string, m: Method, kind: char)
    requires '(' !in d && ProperConversion(m) && kind == if m.moduleValue then 'P' else 'M'
    ensures Composed(d, kind, MemberText(m), ParamEncs(m.parameters), TypeEnc(m.returnType), MethodId(d, m))
  {
    HeadParts(d, m);
    ConversionNamesAreReadable(m);
    HeadHasNoParen(d, m, m.genericArity);
    EncHasNoParens(m.returnType);
    MemberHasNoTilde(m);
  }

  lemma ReturnWithoutList(d: string, kind: char, member: string, ret: string)
    requires '(' !in [kind, ':'] + d + ['.'] + member && '~' !in member && NoParens(ret)
    ensures ReturnText(d, [kind, ':'] + d + ['.'] + member + "" + ("~" + ret)) == ret
  {
    var head := [kind, ':'] + d + ['.'] + member;
    var id := head + "" + ("~" + ret);
    assert '(' !in id;
    assert id[3 + |d|..] == member + ("~" + ret);
    IndexOfAbsent(member, '~');
    IndexOfPrefix(member, "~" + ret, '~');
    assert id[|head| + 1..] == ret;
  }

  lemma ReturnBehindList(d: string, head: string, list: string, ret: string)
    requires NoParens(ret)
    ensures ReturnText(d, head + ("(" + (list + ")")) + ("~" + ret)) == ret
  {
    var front := head + ("(" + list);
    var id := head + ("(" + (list + ")")) + ("~" + ret);
    assert id == front + [')'] + ("~" + ret);
    assert id[|head|] == '(';
    LastIndexBehind(front, ')', "~" + ret);
    assert id[|front| + 2..] == ret;
  }

  lemma MemberHasNoTilde(m: Method)
    requires Converts(m.name)
    ensures '~' !in MemberText(m)
  {
    assert '~' !in m.name;
    assert forall i :: 0 <= i < |m.name| ==> Escape(m.name)[i] != '~';
    assert AllDigits(DecimalText(m.genericArity));
  }

  lemma SameHead(d: string, m: Method, n: Method)
    requires SameMethod(m, n)
    ensures Head(d, m) == Head(d, n) && IsConversionOperator(m.name) == IsConversionOperator(n.name)
  {
  }
}
