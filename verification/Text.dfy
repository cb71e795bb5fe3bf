/** Searching, splitting and joining text, and the arity suffix of a metadata
    name, as the doc-ID encoder, the printer and the projector share them. */
module Text {
  import opened Options
  import opened Decimals
  import Lists

  /** `str::find` of one character. */
  function IndexOf(s: string, c: char): (r: Option<nat>)
    ensures r.Some? ==> r.value < |s| && s[r.value] == c
  {
    if s == [] then None
    else if s[0] == c then Some(0)
    else match IndexOf(s[1..], c)
         case None => None
         case Some(i) => Some(i + 1)
  }

  lemma {:induction false} IndexOfAbsent(s: string, c: char)
    ensures IndexOf(s, c).None? <==> c !in s
    decreases |s|
  {
    if s != [] {
      IndexOfAbsent(s[1..], c);
      assert s == [s[0]] + s[1..];
    }
  }

  /** The index found is the first. */
  lemma {:induction false} FirstIndex(s: string, c: char)
    ensures IndexOf(s, c).Some? ==> c !in s[..IndexOf(s, c).value]
    decreases |s|
  {
    if s != [] && s[0] != c {
      FirstIndex(s[1..], c);
      if IndexOf(s, c).Some? {
        var i := IndexOf(s, c).value;
        assert s[..i] == [s[0]] + s[1..][..i - 1];
      }
    }
  }

  lemma {:induction false} IndexOfPrefix(a: string, b: string, c: char)
    ensures IndexOf(a + b, c) == (match IndexOf(a, c)
                                  case Some(i) => Some(i)
                                  case None => match IndexOf(b, c) case None => None case Some(i) => Some(|a| + i))
    decreases |a|
  {
    if a == [] {
      assert a + b == b;
    } else {
      IndexOfPrefix(a[1..], b, c);
      assert (a + b)[1..] == a[1..] + b;
    }
  }

  /** `str::rfind` of one character. */
  function LastIndexOf(s: string, c: char): (r: Option<nat>)
    ensures r.Some? ==> r.value < |s|
  {
    if s == [] then None
    else if s[|s| - 1] == c then Some(|s| - 1)
    else LastIndexOf(s[..|s| - 1], c)
  }

  /** The index found is the last. */
  lemma {:induction false} LastIndex(s: string, c: char)
    ensures LastIndexOf(s, c).None? <==> c !in s
    ensures LastIndexOf(s, c).Some? ==> s[LastIndexOf(s, c).value] == c && c !in s[LastIndexOf(s, c).value + 1..]
    decreases |s|
  {
    if s != [] && s[|s| - 1] != c {
      var front := s[..|s| - 1];
      LastIndex(front, c);
      assert s == front + [s[|s| - 1]];
      if LastIndexOf(front, c).Some? {
        var i := LastIndexOf(front, c).value;
        assert s[i + 1..] == front[i + 1..] + [s[|s| - 1]];
      }
    }
  }

  function Join(parts: seq<string>, sep: string): string {
    if parts == [] then []
    else if |parts| == 1 then parts[0]
    else parts[0] + sep + Join(parts[1..], sep)
  }

  function Split(s: string, c: char): (r: seq<string>)
    ensures |r| >= 1
  {
    match IndexOf(s, c)
    case None => [s]
    case Some(i) => [s[..i]] + Split(s[i + 1..], c)
  }

  /** Parts free of the separator are what splitting their join gives back. */
  lemma {:induction false} SplitUndoesSeparator(parts: seq<string>, c: char)
    requires parts != [] && forall i :: 0 <= i < |parts| ==> c !in parts[i]
    ensures Split(Join(parts, [c]), c) == parts
    decreases |parts|
  {
    IndexOfAbsent(parts[0], c);
    if |parts| > 1 {
      SplitUndoesSeparator(parts[1..], c);
      SplitAtFirst(parts[0], c, Join(parts[1..], [c]));
      Lists.Uncons(parts);
    }
  }

  lemma SplitAtFirst(first: string, c: char, rest: string)
    requires c !in first
    ensures Split(first + [c] + rest, c) == [first] + Split(rest, c)
  {
    IndexOfAbsent(first, c);
    Lists.Associate(first, [c], rest);
    IndexOfPrefix(first, [c] + rest, c);
    Lists.Cut(first, c, rest);
  }

  /** A text up to a mark it does not hold. */
  lemma MarkIsUnique(x: string, r: string, y: string, s: string, c: char)
    requires c !in x && c !in y && x + ([c] + r) == y + ([c] + s)
    ensures x == y && r == s
  {
    IndexOfAbsent(x, c);
    IndexOfAbsent(y, c);
    IndexOfPrefix(x, [c] + r, c);
    IndexOfPrefix(y, [c] + s, c);
    Lists.Cut(x, c, r);
    Lists.Cut(y, c, s);
  }

  /** Where a backtick stands that nothing but digits follow. */
  function ArityMark(name: string): (r: Option<nat>)
    ensures r.Some? ==> r.value + 1 < |name| && AllDigits(name[r.value + 1..])
  {
    match LastIndexOf(name, '`')
    case None => None
    case Some(i) => if name[i + 1..] != [] && AllDigits(name[i + 1..]) then Some(i) else None
  }

  /** The mark is there exactly when a backtick has nothing but digits, and at
      least one, behind it. */
  lemma ArityMarkExact(name: string, i: nat)
    ensures ArityMark(name) == Some(i) <==> i + 1 < |name| && name[i] == '`' && AllDigits(name[i + 1..])
  {
    LastIndex(name, '`');
    if i + 1 < |name| && name[i] == '`' && AllDigits(name[i + 1..]) {
      forall k | i < k < |name| ensures name[k] != '`' { assert IsDigit(name[i + 1..][k - i - 1]); }
      assert name[i] in name;
      var last := LastIndexOf(name, '`').value;
      forall k | last < k < |name| ensures name[k] != '`' { assert name[k] == name[last + 1..][k - last - 1]; }
    }
  }

  /** `demangle_segment` and `strip_arity`: the name without that suffix. */
  function StripArity(name: string): string {
    match ArityMark(name) case None => name case Some(i) => name[..i]
  }

  /** A suffix is dropped, and only a suffix. */
  lemma StripsSuffix(base: string, digits: string)
    requires digits != [] && AllDigits(digits)
    ensures StripArity(base + "`" + digits) == base
  {
    var name := base + "`" + digits;
    assert name[|base| + 1..] == digits && name[..|base|] == base;
    ArityMarkExact(name, |base|);
  }

  lemma KeepsUnsuffixed(name: string)
    requires !exists i :: 0 <= i < |name| - 1 && name[i] == '`' && AllDigits(name[i + 1..])
    ensures StripArity(name) == name && ArityMark(name) == None
  {
    if ArityMark(name).Some? { ArityMarkExact(name, ArityMark(name).value); }
  }
}
