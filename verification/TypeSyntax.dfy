/** The F# type expressions the pretty-printer writes: their trees, their
    printed token sequences, and a parser for the arrow / postfix / atom
    grammar that reads any printed sequence back. */
module TypeSyntax {
  import Lists

  datatype Token =
    | Ident(text: string) | Dot | LAngle | RAngle | Comma | LParen | RParen
    | Arrow | Star | LBracket | RBracket | Question | Struct

  /** A segment of a dotted name with the arguments written on it. */
  datatype Seg = Seg(name: string, args: seq<Shown>)

  /** A type as it reads, with no parentheses left to choose. */
  datatype Shown =
    | Path(segs: seq<Seg>)
    | Postfix(arg: Shown, name: seq<string>)
    | Fun(from: Shown, to: Shown)
    | Tuple(isStruct: bool, elems: seq<Shown>)
    | ArrayOf(elem: Shown, commas: nat)
    | Maybe(inner: Shown)

  ghost predicate WellFormed(s: Shown)
    decreases s
  {
    match s
    case Path(segs) => segs != [] && WellFormedSegs(segs)
    case Postfix(a, name) => name != [] && WellFormed(a)
    case Fun(a, b) => WellFormed(a) && WellFormed(b)
    case Tuple(_, es) => |es| >= 2 && WellFormedAll(es)
    case ArrayOf(e, _) => WellFormed(e)
    case Maybe(i) => WellFormed(i)
  }

  ghost predicate WellFormedAll(es: seq<Shown>)
    decreases es
  {
    es == [] || (WellFormed(es[0]) && WellFormedAll(es[1..]))
  }

  ghost predicate WellFormedSegs(segs: seq<Seg>)
    decreases segs
  {
    segs == [] || (WellFormedSeg(segs[0]) && WellFormedSegs(segs[1..]))
  }

  ghost predicate WellFormedSeg(g: Seg)
    decreases g
  {
    WellFormedAll(g.args)
  }

  // ---- printing ----

  /** Looser forms need parentheses where a tighter one is expected. */
  datatype Prec = ArrowPrec | PostfixPrec | AtomPrec

  predicate Looser(a: Prec, b: Prec) { a != b && (a == ArrowPrec || b == AtomPrec) }

  function PrecOf(s: Shown): Prec {
    match s
    case Fun(_, _) => ArrowPrec
    case Postfix(_, _) => PostfixPrec
    case _ => AtomPrec
  }

  function Paren(ts: seq<Token>): seq<Token> { [LParen] + ts + [RParen] }

  function Print(s: Shown): seq<Token>
    decreases s, 0
  {
    match s
    case Path(segs) => PrintSegs(segs)
    case Postfix(a, name) => PrintAt(PostfixPrec, a) + PrintName(name)
    case Fun(a, b) => PrintAt(PostfixPrec, a) + [Arrow] + Print(b)
    case Tuple(isStruct, es) => (if isStruct then [Struct] else []) + Paren(PrintElems(es))
    case ArrayOf(e, commas) => PrintAt(AtomPrec, e) + Brackets(commas)
    case Maybe(i) => PrintAt(AtomPrec, i) + [Question]
  }

  /** Parenthesised when looser than the context expects. */
  function PrintAt(min: Prec, s: Shown): seq<Token>
    decreases s, 1
  {
    if Looser(PrecOf(s), min) then Paren(Print(s)) else Print(s)
  }

  function Commas(n: nat): seq<Token> { if n == 0 then [] else [Comma] + Commas(n - 1) }

  function Brackets(n: nat): seq<Token> { [LBracket] + Commas(n) + [RBracket] }

  function PrintName(name: seq<string>): seq<Token> {
    if name == [] then []
    else if |name| == 1 then [Ident(name[0])]
    else [Ident(name[0]), Dot] + PrintName(name[1..])
  }

  function PrintElems(es: seq<Shown>): seq<Token>
    decreases es
  {
    if es == [] then []
    else if |es| == 1 then PrintAt(PostfixPrec, es[0])
    else PrintAt(PostfixPrec, es[0]) + [Star] + PrintElems(es[1..])
  }

  function PrintArgs(es: seq<Shown>): seq<Token>
    decreases es
  {
    if es == [] then []
    else if |es| == 1 then Print(es[0])
    else Print(es[0]) + [Comma] + PrintArgs(es[1..])
  }

  function PrintSeg(g: Seg): seq<Token>
    decreases g
  {
    [Ident(g.name)] + (if g.args == [] then [] else [LAngle] + PrintArgs(g.args) + [RAngle])
  }

  function PrintSegs(segs: seq<Seg>): seq<Token>
    decreases segs
  {
    if segs == [] then []
    else if |segs| == 1 then PrintSeg(segs[0])
    else PrintSeg(segs[0]) + [Dot] + PrintSegs(segs[1..])
  }

  // ---- parsing ----

  /** What was read, and the tokens behind it. */
  datatype Read<+T> = Fail | Got(value: T, rest: seq<Token>)

  predicate Starts(ts: seq<Token>, t: Token) { ts != [] && ts[0] == t }

  predicate StartsIdent(ts: seq<Token>) { ts != [] && ts[0].Ident? }

  function ParseType(ts: seq<Token>): (r: Read<Shown>)
    ensures r.Got? ==> |r.rest| < |ts|
    decreases |ts|, 4
  {
    match ParsePost(ts)
    case Fail => Fail
    case Got(a, rest) =>
      if Starts(rest, Arrow) then
        match ParseType(rest[1..])
        case Fail => Fail
        case Got(b, rest') => Got(Fun(a, b), rest')
      else Got(a, rest)
  }

  function ParsePost(ts: seq<Token>): (r: Read<Shown>)
    ensures r.Got? ==> |r.rest| < |ts|
    decreases |ts|, 3
  {
    match ParseAtom(ts)
    case Fail => Fail
    case Got(a, rest) => ParseNames(a, rest)
  }

  function ParseNames(a: Shown, ts: seq<Token>): (r: Read<Shown>)
    ensures r.Got? ==> |r.rest| <= |ts|
    decreases |ts|
  {
    if StartsIdent(ts) then
      var (name, rest) := TakeName(ts);
      ParseNames(Postfix(a, name), rest)
    else Got(a, ts)
  }

  function TakeName(ts: seq<Token>): (r: (seq<string>, seq<Token>))
    requires StartsIdent(ts)
    ensures |r.1| < |ts|
    decreases |ts|
  {
    if |ts| >= 3 && ts[1] == Dot && ts[2].Ident? then
      var (name, rest) := TakeName(ts[2..]);
      ([ts[0].text] + name, rest)
    else ([ts[0].text], ts[1..])
  }

  function ParseAtom(ts: seq<Token>): (r: Read<Shown>)
    ensures r.Got? ==> |r.rest| < |ts|
    decreases |ts|, 2
  {
    match ParseBase(ts)
    case Fail => Fail
    case Got(a, rest) => ParseSuffixes(a, rest)
  }

  function ParseSuffixes(a: Shown, ts: seq<Token>): (r: Read<Shown>)
    ensures r.Got? ==> |r.rest| <= |ts|
    decreases |ts|
  {
    if Starts(ts, Question) then ParseSuffixes(Maybe(a), ts[1..])
    else if Starts(ts, LBracket) then
      var (n, rest) := TakeCommas(ts[1..]);
      if Starts(rest, RBracket) then ParseSuffixes(ArrayOf(a, n), rest[1..]) else Fail
    else Got(a, ts)
  }

  function TakeCommas(ts: seq<Token>): (r: (nat, seq<Token>))
    ensures |r.1| <= |ts|
  {
    if Starts(ts, Comma) then var (n, rest) := TakeCommas(ts[1..]); (n + 1, rest) else (0, ts)
  }

  function ParseBase(ts: seq<Token>): (r: Read<Shown>)
    ensures r.Got? ==> |r.rest| < |ts|
    decreases |ts|, 1
  {
    if StartsIdent(ts) then
      match ParseSegs(ts)
      case Fail => Fail
      case Got(segs, rest) => Got(Path(segs), rest)
    else if Starts(ts, LParen) then ParseParen(ts[1..], false)
    else if Starts(ts, Struct) && Starts(ts[1..], LParen) then ParseParen(ts[2..], true)
    else Fail
  }

  /** Behind an opening parenthesis: a parenthesised type, or a tuple. */
  function ParseParen(ts: seq<Token>, isStruct: bool): (r: Read<Shown>)
    ensures r.Got? ==> |r.rest| < |ts|
    decreases |ts|, 5
  {
    match ParseType(ts)
    case Fail => Fail
    case Got(a, rest) =>
      if Starts(rest, Star) then
        match ParseElems(rest)
        case Fail => Fail
        case Got(es, rest') => Got(Tuple(isStruct, [a] + es), rest')
      else if Starts(rest, RParen) && !isStruct then Got(a, rest[1..])
      else Fail
  }

  /** `* elem * elem )`. */
  function ParseElems(ts: seq<Token>): (r: Read<seq<Shown>>)
    requires Starts(ts, Star)
    ensures r.Got? ==> |r.rest| < |ts|
    decreases |ts|, 0
  {
    match ParsePost(ts[1..])
    case Fail => Fail
    case Got(a, rest) =>
      if Starts(rest, Star) then
        match ParseElems(rest)
        case Fail => Fail
        case Got(es, rest') => Got([a] + es, rest')
      else if Starts(rest, RParen) then Got([a], rest[1..])
      else Fail
  }

  /** `type , type >`. */
  function ParseArgs(ts: seq<Token>): (r: Read<seq<Shown>>)
    ensures r.Got? ==> |r.rest| < |ts|
    decreases |ts|, 5
  {
    match ParseType(ts)
    case Fail => Fail
    case Got(a, rest) =>
      if Starts(rest, Comma) then
        match ParseArgs(rest[1..])
        case Fail => Fail
        case Got(es, rest') => Got([a] + es, rest')
      else if Starts(rest, RAngle) then Got([a], rest[1..])
      else Fail
  }

  function ParseSegs(ts: seq<Token>): (r: Read<seq<Seg>>)
    requires StartsIdent(ts)
    ensures r.Got? ==> |r.rest| < |ts|
    decreases |ts|, 0
  {
    match ParseSegArgs(ts[1..])
    case Fail => Fail
    case Got(args, rest) =>
      var g := Seg(ts[0].text, args);
      if Starts(rest, Dot) && StartsIdent(rest[1..]) then
        match ParseSegs(rest[1..])
        case Fail => Fail
        case Got(gs, rest') => Got([g] + gs, rest')
      else Got([g], rest)
  }

  function ParseSegArgs(ts: seq<Token>): (r: Read<seq<Shown>>)
    ensures r.Got? ==> |r.rest| <= |ts|
    decreases |ts|, 6
  {
    if Starts(ts, LAngle) then ParseArgs(ts[1..]) else Got([], ts)
  }

  // ---- reading back what was printed ----

  /** Tokens that may follow a dotted name, an atom, a postfix form, a type. */
  ghost predicate AfterName(ts: seq<Token>) { !Starts(ts, Dot) && !Starts(ts, LAngle) }
  ghost predicate AfterAtom(ts: seq<Token>) { AfterName(ts) && !Starts(ts, LBracket) && !Starts(ts, Question) }
  ghost predicate AfterPost(ts: seq<Token>) { AfterAtom(ts) && !StartsIdent(ts) }
  ghost predicate AfterType(ts: seq<Token>) { AfterPost(ts) && !Starts(ts, Arrow) }

  lemma {:induction false} CommasReadBack(n: nat, rest: seq<Token>)
    requires !Starts(rest, Comma)
    ensures TakeCommas(Commas(n) + rest) == (n, rest)
    decreases n
  {
    if n == 0 {
      assert Commas(0) + rest == rest;
    } else {
      CommasReadBack(n - 1, rest);
      Lists.Associate([Comma], Commas(n - 1), rest);
      Lists.Cons(Comma, Commas(n - 1) + rest);
    }
  }

  lemma BracketsReadBack(a: Shown, n: nat, rest: seq<Token>)
    ensures ParseSuffixes(a, Brackets(n) + rest) == ParseSuffixes(ArrayOf(a, n), rest)
  {
    var ts := Brackets(n) + rest;
    assert ts[1..] == Commas(n) + ([RBracket] + rest);
    CommasReadBack(n, [RBracket] + rest);
    assert ([RBracket] + rest)[1..] == rest;
  }

  lemma {:induction false} NameReadsBack(name: seq<string>, rest: seq<Token>)
    requires name != [] && !Starts(rest, Dot)
    ensures StartsIdent(PrintName(name) + rest) && TakeName(PrintName(name) + rest) == (name, rest)
    decreases |name|
  {
    if |name| == 1 {
      Lists.Cons(Ident(name[0]), rest);
      assert rest != [] ==> ([Ident(name[0])] + rest)[1] == rest[0];
      assert name == [name[0]];
    } else {
      var more := PrintName(name[1..]) + rest;
      Lists.Associate([Ident(name[0]), Dot], PrintName(name[1..]), rest);
      Lists.Cons2(Ident(name[0]), Dot, more);
      NameReadsBack(name[1..], rest);
      Lists.Uncons(name);
    }
  }

  lemma {:induction false} TypeReadsBack(s: Shown, rest: seq<Token>)
    requires WellFormed(s) && AfterType(rest)
    ensures ParseType(Print(s) + rest) == Got(s, rest)
    decreases s, 2
  {
    if s.Fun? {
      var tail := [Arrow] + (Print(s.to) + rest);
      Separated(PrintAt(PostfixPrec, s.from), Arrow, Print(s.to), rest);
      PostReadsBackAt(s.from, tail);
      Lists.Cons(Arrow, Print(s.to) + rest);
      TypeReadsBack(s.to, rest);
    } else {
      PostReadsBack(s, rest);
    }
  }

  lemma {:induction false} PostReadsBack(s: Shown, rest: seq<Token>)
    requires WellFormed(s) && !s.Fun? && AfterAtom(rest)
    ensures ParsePost(Print(s) + rest) == ParseNames(s, rest)
    decreases s, 1
  {
    if s.Postfix? {
      var tail := PrintName(s.name) + rest;
      assert Print(s) + rest == PrintAt(PostfixPrec, s.arg) + tail;
      NameReadsBack(s.name, rest);
      PostReadsBackAt(s.arg, tail);
    } else {
      AtomReadsBack(s, rest);
    }
  }

  lemma {:induction false} AtomReadsBack(s: Shown, rest: seq<Token>)
    requires WellFormed(s) && PrecOf(s) == AtomPrec && AfterName(rest)
    ensures ParseAtom(Print(s) + rest) == ParseSuffixes(s, rest)
    decreases s, 0
  {
    match s
    case Path(segs) => SegsReadBack(segs, rest);
    case Tuple(isStruct, es) => TupleReadsBack(s, rest);
    case ArrayOf(e, n) =>
      assert Print(s) + rest == PrintAt(AtomPrec, e) + (Brackets(n) + rest);
      AtomReadsBackAt(e, Brackets(n) + rest);
      BracketsReadBack(e, n, rest);
    case Maybe(i) =>
      assert Print(s) + rest == PrintAt(AtomPrec, i) + ([Question] + rest);
      AtomReadsBackAt(i, [Question] + rest);
      assert ([Question] + rest)[1..] == rest;
  }

  /** Parentheses read back as the type they hold. */
  lemma {:induction false} ParenReadsBack(s: Shown, rest: seq<Token>)
    requires WellFormed(s)
    ensures ParseAtom(Paren(Print(s)) + rest) == ParseSuffixes(s, rest)
    decreases s, 3
  {
    var ts := Paren(Print(s)) + rest;
    assert ts[1..] == Print(s) + ([RParen] + rest);
    TypeReadsBack(s, [RParen] + rest);
    assert ([RParen] + rest)[1..] == rest;
    assert ParseParen(ts[1..], false) == Got(s, rest);
    assert ParseBase(ts) == Got(s, rest);
  }

  lemma {:induction false} AtomReadsBackAt(s: Shown, rest: seq<Token>)
    requires WellFormed(s) && AfterName(rest)
    ensures ParseAtom(PrintAt(AtomPrec, s) + rest) == ParseSuffixes(s, rest)
    decreases s, 4
  {
    if PrecOf(s) == AtomPrec { AtomReadsBack(s, rest); } else { ParenReadsBack(s, rest); }
  }

  lemma {:induction false} PostReadsBackAt(s: Shown, rest: seq<Token>)
    requires WellFormed(s) && AfterAtom(rest)
    ensures ParsePost(PrintAt(PostfixPrec, s) + rest) == ParseNames(s, rest)
    decreases s, 4
  {
    if s.Fun? { ParenReadsBack(s, rest); } else { PostReadsBack(s, rest); }
  }

  /** The tokens behind a tuple's opening parenthesis. */
  ghost function TupleInner(es: seq<Shown>, rest: seq<Token>): seq<Token>
    requires es != []
  {
    PrintAt(PostfixPrec, es[0]) + ([Star] + (PrintElems(es[1..]) + ([RParen] + rest)))
  }

  lemma TupleTokens(s: Shown, rest: seq<Token>)
    requires s.Tuple? && |s.elems| >= 2
    ensures var ts := Print(s) + rest;
      ts == (if s.isStruct then [Struct, LParen] else [LParen]) + TupleInner(s.elems, rest)
  {
    var inner := TupleInner(s.elems, rest);
    assert Paren(PrintElems(s.elems)) + rest == [LParen] + inner;
    assert [Struct] + ([LParen] + inner) == [Struct, LParen] + inner;
    assert ([Struct] + Paren(PrintElems(s.elems))) + rest == [Struct] + (Paren(PrintElems(s.elems)) + rest);
    assert [] + Paren(PrintElems(s.elems)) == Paren(PrintElems(s.elems));
  }

  lemma BaseOpens(isStruct: bool, inner: seq<Token>)
    ensures ParseBase((if isStruct then [Struct, LParen] else [LParen]) + inner) == ParseParen(inner, isStruct)
  {
    var ts := (if isStruct then [Struct, LParen] else [LParen]) + inner;
    if isStruct {
      assert ts[1..][0] == LParen && ts[2..] == inner;
    } else {
      assert ts[1..] == inner;
    }
  }

  lemma {:induction false} TupleReadsBack(s: Shown, rest: seq<Token>)
    requires s.Tuple? && WellFormed(s)
    ensures ParseAtom(Print(s) + rest) == ParseSuffixes(s, rest)
    decreases s, -1
  {
    var es := s.elems;
    var tail := [Star] + (PrintElems(es[1..]) + ([RParen] + rest));
    TupleTokens(s, rest);
    BaseOpens(s.isStruct, TupleInner(es, rest));
    PostReadsBackAt(es[0], tail);
    assert ParseType(TupleInner(es, rest)) == Got(es[0], tail);
    ElemsReadBack(es[1..], rest);
    assert es == [es[0]] + es[1..];
  }

  lemma Separated(first: seq<Token>, sep: Token, others: seq<Token>, rest: seq<Token>)
    ensures first + [sep] + others + rest == first + ([sep] + (others + rest))
  {
  }

  lemma {:induction false} ElemsReadBack(es: seq<Shown>, rest: seq<Token>)
    requires es != [] && WellFormedAll(es)
    ensures ParseElems([Star] + (PrintElems(es) + ([RParen] + rest))) == Got(es, rest)
    decreases es
  {
    var close := [RParen] + rest;
    Lists.Cons(Star, PrintElems(es) + close);
    if |es| == 1 {
      PostReadsBackAt(es[0], close);
      assert close[1..] == rest && es == [es[0]];
    } else {
      var tail := [Star] + (PrintElems(es[1..]) + close);
      Separated(PrintAt(PostfixPrec, es[0]), Star, PrintElems(es[1..]), close);
      PostReadsBackAt(es[0], tail);
      ElemsReadBack(es[1..], rest);
      Lists.Uncons(es);
    }
  }

  lemma {:induction false} ArgsReadBack(es: seq<Shown>, rest: seq<Token>)
    requires es != [] && WellFormedAll(es)
    ensures ParseArgs(PrintArgs(es) + ([RAngle] + rest)) == Got(es, rest)
    decreases es
  {
    var close := [RAngle] + rest;
    if |es| == 1 {
      TypeReadsBack(es[0], close);
      assert close[1..] == rest && es == [es[0]];
    } else {
      var tail := [Comma] + (PrintArgs(es[1..]) + close);
      Separated(Print(es[0]), Comma, PrintArgs(es[1..]), close);
      TypeReadsBack(es[0], tail);
      Lists.Cons(Comma, PrintArgs(es[1..]) + close);
      ArgsReadBack(es[1..], rest);
      Lists.Uncons(es);
    }
  }

  lemma {:induction false} SegReadsBack(g: Seg, rest: seq<Token>)
    requires WellFormedSeg(g) && !Starts(rest, LAngle)
    ensures var ts := PrintSeg(g) + rest;
      ts[0] == Ident(g.name) && ParseSegArgs(ts[1..]) == Got(g.args, rest)
    decreases g
  {
    var ts := PrintSeg(g) + rest;
    if g.args == [] {
      assert ts[1..] == rest;
    } else {
      assert ts[1..] == [LAngle] + (PrintArgs(g.args) + ([RAngle] + rest));
      assert ts[1..][1..] == PrintArgs(g.args) + ([RAngle] + rest);
      ArgsReadBack(g.args, rest);
    }
  }

  lemma {:induction false} SegsReadBack(segs: seq<Seg>, rest: seq<Token>)
    requires segs != [] && WellFormedSegs(segs) && AfterName(rest)
    ensures StartsIdent(PrintSegs(segs) + rest) && ParseSegs(PrintSegs(segs) + rest) == Got(segs, rest)
    decreases segs
  {
    if |segs| == 1 {
      SegReadsBack(segs[0], rest);
      assert segs == [segs[0]];
    } else {
      var tail := [Dot] + (PrintSegs(segs[1..]) + rest);
      Separated(PrintSeg(segs[0]), Dot, PrintSegs(segs[1..]), rest);
      SegReadsBack(segs[0], tail);
      SegsReadBack(segs[1..], rest);
      Lists.Cons(Dot, PrintSegs(segs[1..]) + rest);
      Lists.Uncons(segs);
    }
  }

  /** Printing is unambiguous: the parser recovers exactly the printed tree. */
  lemma PrintIsUnambiguous(s: Shown)
    requires WellFormed(s)
    ensures ParseType(Print(s)) == Got(s, [])
  {
    TypeReadsBack(s, []);
    assert Print(s) + [] == Print(s);
  }
}
