/** What a header means, apart from how the reader gets at it: where it ends,
    how it falls into lines, which line announces a length, and which texts are
    numbers. */
module FramingLaws {
  import opened Decimals
  import opened Options
  import opened RecordStream
  import opened Text
  import opened Framing
  import Lists

  // ---- where a header ends ----

  /** CR LF CR LF ends at `n`. */
  ghost predicate TerminatedAt(data: seq<Byte>, n: int) { 4 <= n <= |data| && data[n - 4..n] == [13, 10, 13, 10] }

  /** A header ends at its first terminator, and without one there is none. */
  lemma HeaderEndsFirst(data: seq<Byte>)
    ensures match HeaderEndFrom(data, 0)
      case Some(n) => TerminatedAt(data, n) && forall k :: k < n ==> !TerminatedAt(data, k)
      case None => forall k :: !TerminatedAt(data, k)
  {
    HeaderEndsFrom(data, 0);
  }

  lemma {:induction false} HeaderEndsFrom(data: seq<Byte>, n: nat)
    requires n <= |data|
    ensures match HeaderEndFrom(data, n)
      case Some(end) => TerminatedAt(data, end) && forall k :: n <= k < end ==> !TerminatedAt(data, k)
      case None => forall k :: n <= k ==> !TerminatedAt(data, k)
    decreases |data| - n
  {
    if !TerminatedAt(data, n) && n < |data| { HeaderEndsFrom(data, n + 1); }
  }

  ghost predicate FirstHeader(data: seq<Byte>, n: nat) {
    TerminatedAt(data, n) && forall k :: k < n ==> !TerminatedAt(data, k)
  }

  /** A header, a body of the length it announces, and what follows. */
  ghost predicate Framed(data: seq<Byte>, n: nat, body: seq<Byte>, rest: seq<Byte>) {
    FirstHeader(data, n) && ContentLength(data[..n]) == Some(|body|) && data == data[..n] + body + rest
  }

  /** A header without a length, behind which reading goes on; or too short a
      body, which swallows the stream. */
  ghost predicate Misframed(data: seq<Byte>, n: nat, rest: seq<Byte>) {
    && FirstHeader(data, n)
    && match ContentLength(data[..n])
       case None => rest == data[n..]
       case Some(len) => len > |data| - n && rest == []
  }

  /** A read gives a message exactly where one stands in front. */
  lemma ReadFrameExact(data: seq<Byte>)
    ensures var r := ReadFrame(data);
      && (r.Eof? <==> data == [])
      && (r.Message? ==> exists n: nat :: Framed(data, n, r.body, r.rest))
      && (r.Malformed? ==>
          || (r.rest == [] && data != [] && forall n :: !TerminatedAt(data, n))
          || exists n: nat :: Misframed(data, n, r.rest))
  {
    HeaderEndsFirst(data);
    match HeaderEndFrom(data, 0)
    case None =>
    case Some(n) => BehindHeader(data, n);
  }

  lemma BehindHeader(data: seq<Byte>, n: nat)
    requires HeaderEndFrom(data, 0) == Some(n) && FirstHeader(data, n)
    ensures var r := ReadFrame(data);
      && !r.Eof?
      && (r.Message? ==> Framed(data, n, r.body, r.rest))
      && (r.Malformed? ==> Misframed(data, n, r.rest))
  {
    var length := ContentLength(data[..n]);
    if length.Some? && length.value <= |data| - n {
      ThreeParts(data, n, n + length.value);
    }
  }

  lemma ThreeParts(data: seq<Byte>, n: nat, m: nat)
    requires n <= m <= |data|
    ensures data == data[..n] + data[n..m] + data[m..]
  {
  }

  // ---- lines ----

  ghost predicate HoldsBreak(s: string) { exists i :: 0 <= i < |s| - 1 && s[i] == '\r' && s[i + 1] == '\n' }

  /** The lines are the text between its breaks, all of it. */
  lemma LinesBreak(s: string)
    ensures Join(Lines(s), "\r\n") == s
    ensures forall i :: 0 <= i < |Lines(s)| ==> !HoldsBreak(Lines(s)[i])
  {
    LinesBreakFrom(s, []);
  }

  lemma {:induction false} LinesBreakFrom(s: string, line: string)
    requires !HoldsBreak(line)
    requires s != [] && s[0] == '\n' ==> line == [] || line[|line| - 1] != '\r'
    ensures Join(LinesFrom(s, line), "\r\n") == line + s
    ensures forall i :: 0 <= i < |LinesFrom(s, line)| ==> !HoldsBreak(LinesFrom(s, line)[i])
    decreases |s|
  {
    if s == [] {
      assert line + s == line;
    } else if |s| >= 2 && s[0] == '\r' && s[1] == '\n' {
      LinesBreakFrom(s[2..], []);
      var all, rest := LinesFrom(s, line), LinesFrom(s[2..], []);
      assert all[1..] == rest;
      assert s == "\r\n" + s[2..];
      assert line + "\r\n" + ([] + s[2..]) == line + s;
    } else {
      assert !HoldsBreak(line + [s[0]]);
      LinesBreakFrom(s[1..], line + [s[0]]);
      assert line + [s[0]] + s[1..] == line + s;
    }
  }

  /** A byte beyond ASCII is read as a question mark. */
  lemma AsciiReads(bs: seq<Byte>, i: nat)
    requires i < |bs|
    ensures AsciiText(bs)[i] == if bs[i] <= 127 then bs[i] as char else '?'
  {
  }

  // ---- white space and case ----

  ghost predicate Blank(c: char) { c as int in {9, 10, 11, 12, 13, 32} }

  ghost predicate AllSpaces(s: string) { forall i :: 0 <= i < |s| ==> Blank(s[i]) }

  /** Trimming takes the white space at both ends and nothing else. */
  lemma TrimTakesEnds(s: string) returns (before: string, after: string)
    ensures s == before + Trim(s) + after && AllSpaces(before) && AllSpaces(after)
    ensures Trim(s) != [] ==> !Blank(Trim(s)[0]) && !Blank(Trim(s)[|Trim(s)| - 1])
  {
    before := TrimStartTakes(s);
    after := TrimEndTakes(TrimStart(s));
    Lists.Associate(before, Trim(s), after);
    FirstOfFront(Trim(s), after);
  }

  lemma FirstOfFront(a: string, b: string)
    ensures a != [] ==> (a + b)[0] == a[0]
  {
  }

  lemma {:induction false} TrimStartTakes(s: string) returns (before: string)
    ensures s == before + TrimStart(s) && AllSpaces(before)
    ensures TrimStart(s) != [] ==> !Blank(TrimStart(s)[0])
    decreases |s|
  {
    before := [];
    if s != [] && IsSpace(s[0]) {
      var more := TrimStartTakes(s[1..]);
      before := [s[0]] + more;
      Lists.Associate([s[0]], more, TrimStart(s));
      Lists.Uncons(s);
    }
  }

  lemma {:induction false} TrimEndTakes(s: string) returns (after: string)
    ensures s == TrimEnd(s) + after && AllSpaces(after)
    ensures TrimEnd(s) != [] ==> !Blank(TrimEnd(s)[|TrimEnd(s)| - 1])
    decreases |s|
  {
    after := [];
    if s != [] && IsSpace(s[|s| - 1]) {
      var front, last := s[..|s| - 1], [s[|s| - 1]];
      var more := TrimEndTakes(front);
      after := more + last;
      Lists.Associate(TrimEnd(front), more, last);
      assert s == front + last;
    }
  }

  function Lower(c: char): char { if 'A' <= c <= 'Z' then ('a' as int + (c as int - 'A' as int)) as char else c }

  function LowerCase(s: string): (r: string)
    ensures |r| == |s| && forall i :: 0 <= i < |s| ==> r[i] == Lower(s[i])
  {
    seq(|s|, i requires 0 <= i < |s| => Lower(s[i]))
  }

  /** Two texts are equal up to case exactly when they are equal in lower case. */
  lemma IgnoringCase(a: string, b: string)
    ensures EqualsIgnoreCase(a, b) <==> LowerCase(a) == LowerCase(b)
  {
    if |a| == |b| {
      forall i | 0 <= i < |a| ensures Upper(a[i]) == Upper(b[i]) <==> LowerCase(a)[i] == LowerCase(b)[i] {
        CaseAgrees(a[i], b[i]);
      }
    }
  }

  lemma CaseAgrees(c: char, d: char)
    ensures Upper(c) == Upper(d) <==> Lower(c) == Lower(d)
  {
    assert Upper(c) as int == if 97 <= c as int <= 122 then c as int - 32 else c as int;
    assert Upper(d) as int == if 97 <= d as int <= 122 then d as int - 32 else d as int;
    assert Lower(c) as int == if 65 <= c as int <= 90 then c as int + 32 else c as int;
    assert Lower(d) as int == if 65 <= d as int <= 90 then d as int + 32 else d as int;
  }

  // ---- numbers ----

  /** A number as the runtime reads one: white space, a sign, digits, white space,
      NULs. */
  datatype Numeral = Numeral(before: string, sign: string, digits: string, after: string, nuls: string)

  ghost predicate Proper(t: Numeral) {
    && AllSpaces(t.before) && (t.sign == "" || t.sign == "+" || t.sign == "-")
    && t.digits != [] && AllDigits(t.digits) && AllSpaces(t.after)
    && forall i :: 0 <= i < |t.nuls| ==> t.nuls[i] as int == 0
  }

  ghost function TextOf(t: Numeral): string { t.before + (t.sign + (t.digits + (t.after + t.nuls))) }

  ghost function ValueOf(t: Numeral): int
    requires Proper(t)
  {
    if t.sign == "-" then -(DecimalValue(t.digits) as int) else DecimalValue(t.digits)
  }

  ghost predicate IsInt32(v: int) { -0x8000_0000 <= v <= 0x7fff_ffff }

  /** Every numeral in the range of 32 bits is read as its value, and a numeral
      outside it is refused. */
  lemma NumeralsAreRead(t: Numeral)
    requires Proper(t)
    ensures TryParse(TextOf(t)) == if IsInt32(ValueOf(t)) then Some(ValueOf(t)) else None
  {
    SpaceIsSkipped(t.before, t.sign + (t.digits + (t.after + t.nuls)));
    SignedAreRead(t.sign, t.digits, t.after, t.nuls);
  }

  lemma SpaceIsSkipped(before: string, text: string)
    requires AllSpaces(before)
    ensures TryParse(before + text) == TryParse(text)
  {
    TrimStartSkips(before, text);
  }

  lemma TailIsDropped(after: string, nuls: string)
    requires AllSpaces(after) && forall i :: 0 <= i < |nuls| ==> nuls[i] as int == 0
    ensures DropZeroChars(TrimStart(after + nuls)) == [] && (after + nuls == [] || !IsDigit((after + nuls)[0]))
  {
    TrimStartSkips(after, nuls);
    assert TrimStart(nuls) == nuls;
    NulsAreDropped(nuls);
  }

  lemma SignedAreRead(sign: string, digits: string, after: string, nuls: string)
    requires Proper(Numeral("", sign, digits, after, nuls))
    ensures var v := ValueOf(Numeral("", sign, digits, after, nuls));
      TryParse(sign + (digits + (after + nuls))) == if IsInt32(v) then Some(v) else None
  {
    var tail := after + nuls;
    var body := digits + tail;
    TailIsDropped(after, nuls);
    DigitsEnd(digits, tail);
    assert IsDigit(digits[0]) && body[0] == digits[0];
    if sign == "" {
      assert sign + body == body;
    } else {
      assert (sign + body)[1..] == body && (sign + body)[0] == sign[0];
    }
  }

  lemma {:induction false} TrimStartSkips(a: string, b: string)
    requires AllSpaces(a)
    ensures TrimStart(a + b) == TrimStart(b)
    decreases |a|
  {
    if a == [] {
      assert a + b == b;
    } else {
      assert IsSpace(a[0]) && (a + b)[1..] == a[1..] + b;
      TrimStartSkips(a[1..], b);
    }
  }

  lemma {:induction false} NulsAreDropped(s: string)
    requires forall i :: 0 <= i < |s| ==> s[i] as int == 0
    ensures DropZeroChars(s) == []
    decreases |s|
  {
    if s != [] { NulsAreDropped(s[1..]); }
  }

  /** The digits are read as a decimal numeral, up to what is no digit. */
  lemma DigitsEnd(digits: string, tail: string)
    requires AllDigits(digits) && (tail == [] || !IsDigit(tail[0]))
    ensures Digits(digits + tail, 0) == (DecimalValue(digits), tail)
  {
    DigitsSplit(digits, tail, 0);
    DigitsAreDecimal(digits);
  }

  lemma {:induction false} DigitsAreDecimal(s: string)
    requires AllDigits(s)
    ensures Digits(s, 0) == (DecimalValue(s), [])
    decreases |s|
  {
    if s != [] {
      var front, last := s[..|s| - 1], [s[|s| - 1]];
      assert s == front + last;
      DigitsAreDecimal(front);
      DigitsSplit(front, last, 0);
      assert Digits(last, DecimalValue(front)) == Digits([], DecimalValue(front) * 10 + DigitValue(last[0]));
    }
  }

  /** And nothing else is read as a number. */
  lemma OnlyNumeralsAreRead(s: string) returns (t: Numeral)
    requires TryParse(s).Some?
    ensures Proper(t) && TextOf(t) == s && IsInt32(ValueOf(t)) && TryParse(s) == Some(ValueOf(t))
  {
    var before := TrimStartTakes(s);
    var signed := TrimStart(s);
    var sign, body := if signed[0] == '-' || signed[0] == '+' then signed[..1] else "", signed;
    if sign != "" {
      body := signed[1..];
      assert sign == "-" || sign == "+";
    }
    assert signed == sign + body;
    var digits, rest := DigitsTake(body);
    var after := TrimStartTakes(rest);
    NulsOnly(TrimStart(rest));
    t := Numeral(before, sign, digits, after, TrimStart(rest));
    assert digits[0] == body[0];
    NumeralsAreRead(t);
  }

  lemma DigitsTake(s: string) returns (digits: string, rest: string)
    ensures s == digits + rest && AllDigits(digits) && (rest == [] || !IsDigit(rest[0]))
    ensures Digits(s, 0) == (DecimalValue(digits), rest)
    ensures s != [] && IsDigit(s[0]) ==> digits != []
  {
    digits, rest := TakeDigits(s);
    DigitsEnd(digits, rest);
  }

  lemma {:induction false} TakeDigits(s: string) returns (digits: string, rest: string)
    ensures s == digits + rest && AllDigits(digits) && (rest == [] || !IsDigit(rest[0]))
    ensures s != [] && IsDigit(s[0]) ==> digits != []
    decreases |s|
  {
    digits, rest := [], s;
    if s != [] && IsDigit(s[0]) {
      digits, rest := TakeDigits(s[1..]);
      Lists.Associate([s[0]], digits, rest);
      Lists.Uncons(s);
      digits := [s[0]] + digits;
    }
  }

  lemma {:induction false} NulsOnly(s: string)
    requires DropZeroChars(s) == []
    ensures forall i :: 0 <= i < |s| ==> s[i] as int == 0
    decreases |s|
  {
    if s != [] { NulsOnly(s[1..]); }
  }

  // ---- the announced length ----

  /** The line is a field of this name. */
  ghost predicate NamesLength(line: string) {
    && IndexOf(line, ':').Some?
    && LowerCase(Trim(line[..IndexOf(line, ':').value])) == "content-length"
  }

  /** What it announces, when that is a length. */
  ghost function LengthIn(line: string): Option<int>
    requires NamesLength(line)
  {
    TryParse(Trim(line[IndexOf(line, ':').value + 1..]))
  }

  ghost predicate Acceptable(line: string) {
    line != [] ==> ':' in line && (NamesLength(line) ==> LengthIn(line).Some? && LengthIn(line).value >= 0)
  }

  /** A length is announced exactly by a header whose lines all have a colon and
      whose length fields all hold a length, and it is the last one's. */
  lemma LastLengthCounts(lines: seq<string>)
    ensures LengthOf(lines, None).Some? <==>
      (forall i :: 0 <= i < |lines| ==> Acceptable(lines[i])) && exists i :: 0 <= i < |lines| && NamesLength(lines[i])
    ensures LengthOf(lines, None).Some? ==>
      exists i :: 0 <= i < |lines| && LastIn(lines, i) && Some(LengthOf(lines, None).value) == LengthIn(lines[i])
  {
    LengthAccepted(lines, None);
    LengthAnnounced(lines, None);
  }

  /** The last line that names a length. */
  ghost predicate LastIn(lines: seq<string>, i: nat)
    requires i < |lines|
  {
    NamesLength(lines[i]) && forall k :: i < k < |lines| ==> !NamesLength(lines[k])
  }

  lemma LineRead(line: string)
    requires line != []
    ensures IndexOf(line, ':').None? <==> ':' !in line
    ensures IndexOf(line, ':').Some? ==>
      (NamesLength(line) <==> EqualsIgnoreCase(Trim(line[..IndexOf(line, ':').value]), "Content-Length"))
  {
    IndexOfAbsent(line, ':');
    if IndexOf(line, ':').Some? {
      IgnoringCase(Trim(line[..IndexOf(line, ':').value]), "Content-Length");
      assert LowerCase("Content-Length") == "content-length";
    }
  }

  /** What is known of the length behind a line. */
  ghost function NextLength(line: string, sofar: Option<nat>): Option<nat>
    requires Acceptable(line)
  {
    if line != [] && NamesLength(line) then Some(LengthIn(line).value) else sofar
  }

  lemma LengthStep(lines: seq<string>, sofar: Option<nat>)
    requires lines != []
    ensures LengthOf(lines, sofar)
      == if Acceptable(lines[0]) then LengthOf(lines[1..], NextLength(lines[0], sofar)) else None
  {
    if lines[0] != [] { LineRead(lines[0]); }
  }

  lemma {:induction false} LengthAccepted(lines: seq<string>, sofar: Option<nat>)
    ensures LengthOf(lines, sofar).Some? <==>
      && (forall i :: 0 <= i < |lines| ==> Acceptable(lines[i]))
      && (sofar.Some? || exists i :: 0 <= i < |lines| && NamesLength(lines[i]))
    decreases |lines|
  {
    if lines != [] {
      LengthStep(lines, sofar);
      if Acceptable(lines[0]) {
        LengthAccepted(lines[1..], NextLength(lines[0], sofar));
        EachInFront(lines);
      }
    }
  }

  lemma EachInFront(lines: seq<string>)
    requires lines != []
    ensures (forall i :: 0 <= i < |lines| ==> Acceptable(lines[i])) <==>
      Acceptable(lines[0]) && forall i :: 0 <= i < |lines[1..]| ==> Acceptable(lines[1..][i])
    ensures (exists i :: 0 <= i < |lines| && NamesLength(lines[i])) <==>
      NamesLength(lines[0]) || exists i :: 0 <= i < |lines[1..]| && NamesLength(lines[1..][i])
  {
    var rest := lines[1..];
    assert forall i :: 0 < i < |lines| ==> lines[i] == rest[i - 1];
    assert forall i :: 0 <= i < |rest| ==> rest[i] == lines[i + 1];
  }

  lemma {:induction false} LengthAnnounced(lines: seq<string>, sofar: Option<nat>)
    ensures LengthOf(lines, sofar).Some? ==> Announced(lines, sofar, LengthOf(lines, sofar).value)
    decreases |lines|
  {
    if lines != [] {
      LengthStep(lines, sofar);
      if LengthOf(lines, sofar).Some? {
        LengthAnnounced(lines[1..], NextLength(lines[0], sofar));
        LengthInFront(lines[0], lines[1..], sofar, LengthOf(lines, sofar).value);
        Lists.Uncons(lines);
      }
    }
  }

  /** The last announcement, or else what there was before. */
  ghost predicate Announced(lines: seq<string>, sofar: Option<nat>, n: nat) {
    || (exists i :: 0 <= i < |lines| && LastIn(lines, i) && Some(n) == LengthIn(lines[i]))
    || (sofar == Some(n) && forall i :: 0 <= i < |lines| ==> !NamesLength(lines[i]))
  }

  lemma LengthInFront(line: string, rest: seq<string>, sofar: Option<nat>, n: nat)
    requires Acceptable(line) && Announced(rest, NextLength(line, sofar), n)
    ensures Announced([line] + rest, sofar, n)
  {
    if i :| 0 <= i < |rest| && LastIn(rest, i) && Some(n) == LengthIn(rest[i]) {
      LastBehind(line, rest, i);
    } else {
      NoneBehind(line, rest);
    }
  }

  lemma LastBehind(line: string, rest: seq<string>, i: nat)
    requires i < |rest| && LastIn(rest, i)
    ensures ([line] + rest)[i + 1] == rest[i] && LastIn([line] + rest, i + 1)
  {
    var lines := [line] + rest;
    forall k | i + 1 < k < |lines| ensures !NamesLength(lines[k]) { assert lines[k] == rest[k - 1]; }
  }

  lemma NoneBehind(line: string, rest: seq<string>)
    requires forall i :: 0 <= i < |rest| ==> !NamesLength(rest[i])
    ensures var lines := [line] + rest;
      lines[0] == line && if NamesLength(line) then LastIn(lines, 0)
      else forall i :: 0 <= i < |lines| ==> !NamesLength(lines[i])
  {
    var lines := [line] + rest;
    forall k | 0 < k < |lines| ensures !NamesLength(lines[k]) { assert lines[k] == rest[k - 1]; }
  }

  // ---- what is written ----

  /** A frame is its header line, a blank one and the body. */
  lemma FrameText(body: seq<Byte>)
    ensures var text := "Content-Length: " + DecimalText(|body|) + "\r\n\r\n";
      && |Frame(body)| == |text| + |body| && Frame(body)[|text|..] == body
      && forall i :: 0 <= i < |text| ==> Frame(body)[i] == text[i] as int
  {
    var line := "Content-Length: " + DecimalText(|body|);
    var text := line + "\r\n\r\n";
    assert Frame(body)[|text|..] == body;
  }
}
