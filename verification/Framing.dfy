/** `ReadMessage` / `WriteMessage`: Content-Length framing over a byte stream
    that may deliver a body in any number of pieces. */
module Framing {
  import opened Decimals
  import opened Options
  import opened RecordStream
  import opened Text
  import Lists

  const INT32_MAX := 0x7fff_ffff

  // ---- the end of a header ----

  const CR: Byte := 13
  const LF: Byte := 10
  const TERMINATOR: seq<Byte> := [13, 10, 13, 10]

  /** The length of the longest prefix of CR LF CR LF that `s` ends with. */
  ghost function Overlap(s: seq<Byte>): nat {
    Longest(Ends(s, 1), Ends(s, 2), Ends(s, 3), Ends(s, 4))
  }

  /** `s` ends with the first `k` bytes of the terminator. */
  ghost predicate Ends(s: seq<Byte>, k: nat)
    requires k <= 4
  {
    k <= |s| && forall i :: 0 <= i < k ==> s[|s| - k + i] == TERMINATOR[i]
  }

  ghost function Longest(e1: bool, e2: bool, e3: bool, e4: bool): nat {
    if e4 then 4 else if e3 then 3 else if e2 then 2 else if e1 then 1 else 0
  }

  /** The reader's `crlfState` transition. */
  function NextState(state: nat, b: Byte): nat {
    if state == 0 && b == CR then 1
    else if state == 1 && b == LF then 2
    else if state == 2 && b == CR then 3
    else if state == 3 && b == LF then 4
    else if b == CR then 1
    else 0
  }

  lemma EndsAppend(s: seq<Byte>, b: Byte, k: nat)
    requires 1 <= k <= 4
    ensures Ends(s + [b], k) <==> Ends(s, k - 1) && b == TERMINATOR[k - 1]
  {
    var t := s + [b];
    if Ends(t, k) {
      assert t[|t| - k + (k - 1)] == b;
      forall i | 0 <= i < k - 1 ensures s[|s| - (k - 1) + i] == TERMINATOR[i] {
        assert t[|t| - k + i] == TERMINATOR[i];
      }
    }
  }

  /** The four-state matcher always knows the longest overlap, so it stops at
      the first terminator and nowhere else. */
  lemma MatcherTracksOverlap(s: seq<Byte>, b: Byte)
    requires Overlap(s) < 4
    ensures Overlap(s + [b]) == NextState(Overlap(s), b)
  {
    EndsAppend(s, b, 1);
    EndsAppend(s, b, 2);
    EndsAppend(s, b, 3);
    EndsAppend(s, b, 4);
    assert Ends(s, 0);
    OverlapsExclude(s);
    LongestAdvances(Ends(s, 1), Ends(s, 2), Ends(s, 3), Ends(s, 4), b);
  }

  /** The transition on the four overlaps alone. */
  lemma LongestAdvances(e1: bool, e2: bool, e3: bool, e4: bool, b: Byte)
    requires !e4 && (e3 ==> e1 && !e2) && (e2 ==> !e1)
    ensures Longest(b == CR, e1 && b == LF, e2 && b == CR, e3 && b == LF) == NextState(Longest(e1, e2, e3, e4), b)
  {
  }

  lemma OverlapsExclude(s: seq<Byte>)
    ensures Ends(s, 3) ==> Ends(s, 1) && !Ends(s, 2)
    ensures Ends(s, 2) ==> !Ends(s, 1)
  {
    LastByte(s, 1);
    LastByte(s, 2);
    LastByte(s, 3);
  }

  lemma LastByte(s: seq<Byte>, k: nat)
    requires 1 <= k <= 4
    ensures Ends(s, k) ==> s != [] && s[|s| - 1] == TERMINATOR[k - 1]
  {
    if Ends(s, k) {
      assert s[|s| - k + (k - 1)] == TERMINATOR[k - 1];
    }
  }

  /** The length of the shortest prefix, at least `n` long, that ends a header. */
  function HeaderEndFrom(data: seq<Byte>, n: nat): (r: Option<nat>)
    requires n <= |data|
    ensures r.Some? ==> n <= r.value <= |data| && 4 <= r.value
    decreases |data| - n
  {
    if n >= 4 && data[n - 4..n] == TERMINATOR then Some(n)
    else if n == |data| then None
    else HeaderEndFrom(data, n + 1)
  }

  // ---- the header's meaning ----

  predicate IsSpace(c: char) {
    c == ' ' || 9 as char <= c <= 13 as char
  }

  function TrimStart(s: string): string {
    if s != [] && IsSpace(s[0]) then TrimStart(s[1..]) else s
  }

  function TrimEnd(s: string): string {
    if s != [] && IsSpace(s[|s| - 1]) then TrimEnd(s[..|s| - 1]) else s
  }

  function Trim(s: string): string { TrimEnd(TrimStart(s)) }

  /** `Encoding.ASCII.GetString`: bytes outside ASCII become question marks. */
  function AsciiText(bs: seq<Byte>): (r: string)
    ensures |r| == |bs|
  {
    seq(|bs|, i requires 0 <= i < |bs| => if bs[i] < 128 then bs[i] as char else '?')
  }

  /** `Split("\r\n")`. */
  function Lines(s: string): (r: seq<string>)
    ensures |r| >= 1
  {
    LinesFrom(s, [])
  }

  function LinesFrom(s: string, line: string): (r: seq<string>)
    ensures |r| >= 1
  {
    if s == [] then [line]
    else if |s| >= 2 && s[0] == '\r' && s[1] == '\n' then [line] + LinesFrom(s[2..], [])
    else LinesFrom(s[1..], line + [s[0]])
  }

  function Upper(c: char): char {
    if 'a' <= c <= 'z' then (c as int - 32) as char else c
  }

  predicate EqualsIgnoreCase(a: string, b: string) {
    |a| == |b| && forall i :: 0 <= i < |a| ==> Upper(a[i]) == Upper(b[i])
  }

  /** Digits up to the first other character; the value and the remainder. */
  function Digits(s: string, acc: nat): (r: (nat, string))
    ensures |r.1| <= |s|
  {
    if s != [] && IsDigit(s[0]) then Digits(s[1..], acc * 10 + (s[0] as int - '0' as int)) else (acc, s)
  }

  function DropZeroChars(s: string): string {
    if s != [] && s[0] == 0 as char then DropZeroChars(s[1..]) else s
  }

  /** `int.TryParse` in its default style: a sign, digits, then white space and
      NUL padding; `None` outside the 32-bit range. */
  function TryParse(s: string): Option<int> {
    var t := TrimStart(s);
    var negative := t != [] && t[0] == '-';
    var body := if t != [] && (t[0] == '-' || t[0] == '+') then t[1..] else t;
    if body == [] || !IsDigit(body[0]) then None
    else
      var (n, rest) := Digits(body, 0);
      var v: int := if negative then -(n as int) else n;
      if DropZeroChars(TrimStart(rest)) != [] || v > INT32_MAX || v < -INT32_MAX - 1 then None else Some(v)
  }

  /** The length the header lines announce, the last one winning; `None` for a
      line without a colon, an unreadable or negative length, or no length. */
  function LengthOf(lines: seq<string>, sofar: Option<nat>): Option<nat> {
    if lines == [] then sofar
    else if lines[0] == [] then LengthOf(lines[1..], sofar)
    else match IndexOf(lines[0], ':')
         case None => None
         case Some(colon) =>
           if EqualsIgnoreCase(Trim(lines[0][..colon]), "Content-Length") then
             match TryParse(Trim(lines[0][colon + 1..]))
             case None => None
             case Some(n) => if n < 0 then None else LengthOf(lines[1..], Some(n))
           else LengthOf(lines[1..], sofar)
  }

  function ContentLength(header: seq<Byte>): Option<nat> {
    LengthOf(Lines(AsciiText(header)), None)
  }

  // ---- one message ----

  /** The three ways `ReadMessage` ends, with what is left of the stream. */
  datatype Read = Eof | Message(body: seq<Byte>, rest: seq<Byte>) | Malformed(rest: seq<Byte>)

  function ReadFrame(data: seq<Byte>): (r: Read)
    ensures r.Eof? <==> data == []
    ensures !r.Eof? ==> |r.rest| < |data|
  {
    match HeaderEndFrom(data, 0)
    case None => if data == [] then Eof else Malformed([])
    case Some(n) =>
      match ContentLength(data[..n])
      case None => Malformed(data[n..])
      case Some(len) =>
        if |data| - n < len then Malformed([]) else Message(data[n..n + len], data[n + len..])
  }

  function Bytes(s: string): (r: seq<Byte>)
    requires forall i :: 0 <= i < |s| ==> s[i] < 128 as char
    ensures |r| == |s|
  {
    seq(|s|, i requires 0 <= i < |s| => s[i] as int)
  }

  function HeaderLine(n: nat): (r: string)
    ensures forall i :: 0 <= i < |r| ==> r[i] != '\r' && r[i] < 128 as char
  {
    "Content-Length: " + DecimalText(n)
  }

  /** `WriteMessage`. */
  function Frame(body: seq<Byte>): seq<Byte> {
    Bytes(HeaderLine(|body|)) + TERMINATOR + body
  }

  // ---- what is written is what is read ----

  lemma {:induction false} DigitsOfDecimal(n: nat)
    ensures Digits(DecimalText(n), 0) == (n, [])
    decreases n
  {
    if n >= 10 {
      var last := [('0' as int + n % 10) as char];
      DigitsOfDecimal(n / 10);
      DigitsSplit(DecimalText(n / 10), last, 0);
      assert Digits(last, n / 10) == Digits([], n / 10 * 10 + n % 10);
    }
  }

  lemma {:induction false} DigitsSplit(ds: string, tail: string, acc: nat)
    requires forall i :: 0 <= i < |ds| ==> IsDigit(ds[i])
    ensures Digits(ds, acc).1 == [] && Digits(ds + tail, acc) == Digits(tail, Digits(ds, acc).0)
    decreases |ds|
  {
    if ds == [] {
      assert ds + tail == tail;
    } else {
      DigitsSplit(ds[1..], tail, acc * 10 + (ds[0] as int - '0' as int));
      assert (ds + tail)[1..] == ds[1..] + tail;
    }
  }

  lemma TryParseDecimal(n: nat)
    requires n <= INT32_MAX
    ensures TryParse(DecimalText(n)) == Some(n)
  {
    DigitsOfDecimal(n);
    assert IsDigit(DecimalText(n)[0]);
  }

  lemma TrimNoSpace(s: string)
    requires s != [] && !IsSpace(s[0]) && !IsSpace(s[|s| - 1])
    ensures Trim(s) == s
  {
  }

  lemma HeaderLineParses(n: nat)
    requires n <= INT32_MAX
    ensures LengthOf([HeaderLine(n), [], []], None) == Some(n)
  {
    var line := HeaderLine(n);
    assert line[14] == ':';
    FirstColon(line, 14);
    assert line[..14] == "Content-Length";
    TrimNoSpace("Content-Length");
    var digits := DecimalText(n);
    assert line[15..] == " " + digits;
    assert IsDigit(digits[0]) && IsDigit(digits[|digits| - 1]);
    assert (" " + digits)[1..] == digits;
    assert TrimStart(" " + digits) == TrimStart(digits) == digits;
    assert Trim(line[15..]) == digits;
    TryParseDecimal(n);
    var two: seq<string> := [[], []];
    var one: seq<string> := [[]];
    assert [line, [], []][1..] == two && two[1..] == one && one[1..] == [];
    assert LengthOf(one, Some(n)) == Some(n);
  }

  lemma {:induction false} FirstColon(s: string, k: nat)
    requires k < |s| && s[k] == ':' && forall i :: 0 <= i < k ==> s[i] != ':'
    ensures IndexOf(s, ':') == Some(k)
    decreases k
  {
    if k > 0 { FirstColon(s[1..], k - 1); }
  }

  lemma {:induction false} LinesOfHeader(line: string, sofar: string)
    requires forall i :: 0 <= i < |line| ==> line[i] != '\r'
    ensures LinesFrom(line + "\r\n\r\n", sofar) == [sofar + line, [], []]
    decreases |line|
  {
    var s := line + "\r\n\r\n";
    if line == [] {
      assert s[2..] == "\r\n" && s[2..][2..] == [];
      assert LinesFrom(s[2..], []) == [[]] + LinesFrom([], []);
      assert sofar + line == sofar;
    } else {
      assert s[1..] == line[1..] + "\r\n\r\n";
      LinesOfHeader(line[1..], sofar + [line[0]]);
      assert sofar + [line[0]] + line[1..] == sofar + line;
    }
  }

  lemma {:induction false} FirstTerminator(h: seq<Byte>, rest: seq<Byte>, n: nat)
    requires forall i :: 0 <= i < |h| ==> h[i] != CR
    requires n <= |h| + 4
    ensures HeaderEndFrom(h + TERMINATOR + rest, n) == Some(|h| + 4)
    decreases |h| + 4 - n
  {
    var data := h + TERMINATOR + rest;
    if n == |h| + 4 {
      assert data[n - 4..n] == TERMINATOR;
    } else {
      if n >= 4 { assert data[n - 4..n][0] == h[n - 4]; }
      FirstTerminator(h, rest, n + 1);
    }
  }

  /** Reading a written frame returns its body and stops right behind it. */
  lemma FrameRoundTrip(body: seq<Byte>, rest: seq<Byte>)
    requires |body| <= INT32_MAX
    ensures ReadFrame(Frame(body) + rest) == Message(body, rest)
  {
    var line := HeaderLine(|body|);
    var h := Bytes(line);
    var data := Frame(body) + rest;
    assert data == h + TERMINATOR + (body + rest);
    FirstTerminator(h, body + rest, 0);
    var n := |h| + 4;
    assert data[..n] == h + TERMINATOR;
    assert AsciiText(data[..n]) == line + "\r\n\r\n";
    LinesOfHeader(line, []);
    assert [] + line == line;
    HeaderLineParses(|body|);
    assert data[n..n + |body|] == body;
    assert data[n + |body|..] == rest;
  }

  /** All outcomes of reading a stream to its end. */
  function ReadAll(data: seq<Byte>): seq<Read>
    decreases |data|
  {
    var r := ReadFrame(data);
    if r.Eof? then [] else [r] + ReadAll(r.rest)
  }

  function Concat(bodies: seq<seq<Byte>>): seq<Byte> {
    if bodies == [] then [] else Frame(bodies[0]) + Concat(bodies[1..])
  }

  /** Reading a concatenation of frames returns exactly their bodies, in order,
      and then the end of the stream. */
  lemma {:induction false} FramesRoundTrip(bodies: seq<seq<Byte>>)
    requires forall b :: b in bodies ==> |b| <= INT32_MAX
    ensures var got := ReadAll(Concat(bodies));
      && |got| == |bodies|
      && forall i :: 0 <= i < |bodies| ==> got[i] == Message(bodies[i], Concat(bodies[i + 1..]))
    decreases |bodies|
  {
    if bodies != [] {
      var got, tail := ReadAll(Concat(bodies)), ReadAll(Concat(bodies[1..]));
      FrameRoundTrip(bodies[0], Concat(bodies[1..]));
      FramesRoundTrip(bodies[1..]);
      assert got == [Message(bodies[0], Concat(bodies[1..]))] + tail;
      forall i | 1 <= i < |bodies| ensures got[i] == Message(bodies[i], Concat(bodies[i + 1..])) {
        assert bodies[1..][i..] == bodies[i + 1..];
        assert tail[i - 1] == Message(bodies[1..][i - 1], Concat(bodies[1..][i - 1 + 1..]));
      }
    }
  }

  // ---- the reader ----

  class InputStream {
    const data: seq<Byte>
    var pos: nat

    ghost predicate Valid()
      reads this
    {
      pos <= |data|
    }

    ghost function Left(): seq<Byte>
      requires Valid()
      reads this
    {
      data[pos..]
    }

    constructor (bytes: seq<Byte>)
      ensures Valid() && Left() == bytes
    {
      data, pos := bytes, 0;
    }

    method ReadByte() returns (b: int)
      requires Valid()
      modifies this
      ensures Valid()
      ensures old(Left()) == [] ==> b == -1 && Left() == []
      ensures old(Left()) != [] ==> b == old(Left())[0] && Left() == old(Left())[1..]
    {
      if pos == |data| {
        b := -1;
      } else {
        b := data[pos];
        pos := pos + 1;
      }
    }

    /** A short read: any non-empty piece, or nothing at the end of the stream. */
    method Read(count: nat) returns (chunk: seq<Byte>)
      requires Valid() && count > 0
      modifies this
      ensures Valid() && |chunk| <= count
      ensures old(Left()) == chunk + Left()
      ensures chunk == [] <==> old(Left()) == []
    {
      if pos == |data| {
        chunk := [];
      } else {
        var n :| 1 <= n <= count && pos + n <= |data|;
        chunk := data[pos..pos + n];
        pos := pos + n;
      }
    }
  }

  method ReadHeader(stream: InputStream) returns (header: seq<Byte>, ended: bool)
    requires stream.Valid()
    modifies stream
    ensures stream.Valid()
    ensures match HeaderEndFrom(old(stream.Left()), 0)
            case None => !ended && header == old(stream.Left()) && stream.Left() == []
            case Some(n) => ended && header == old(stream.Left())[..n] && stream.Left() == old(stream.Left())[n..]
  {
    ghost var all := stream.Left();
    header := [];
    var crlfState := 0;
    ScanStart(all);
    while crlfState < 4
      invariant stream.Valid() && crlfState <= 4
      invariant Scanning(all, header, stream.Left(), crlfState)
      decreases |stream.Left()|, 4 - crlfState
    {
      ghost var left := stream.Left();
      var b := stream.ReadByte();
      if b == -1 {
        ScanEnd(all, header, left, crlfState);
        return header, false;
      }
      ScanOne(all, header, left, crlfState);
      header := header + [b];
      crlfState := NextState(crlfState, b);
    }
    ended := true;
    ScanEnd(all, header, stream.Left(), crlfState);
  }

  /** `header` was read, `left` was not, and the matcher stands at `state`. */
  ghost predicate Scanning(all: seq<Byte>, header: seq<Byte>, left: seq<Byte>, state: nat) {
    && all == header + left && state == Overlap(header)
    && HeaderEndFrom(all, 0) == if state < 4 then HeaderEndFrom(all, |header|) else Some(|header|)
  }

  lemma ScanStart(all: seq<Byte>)
    ensures Scanning(all, [], all, 0)
  {
    assert all == [] + all;
    assert !Ends([], 1) && !Ends([], 2) && !Ends([], 3) && !Ends([], 4);
  }

  lemma ScanOne(all: seq<Byte>, header: seq<Byte>, left: seq<Byte>, state: nat)
    requires Scanning(all, header, left, state) && state < 4 && left != []
    ensures Scanning(all, header + [left[0]], left[1..], NextState(state, left[0]))
  {
    var b := left[0];
    NotYet(all, header);
    MatcherTracksOverlap(header, b);
    MoveOne(header, b, left[1..], all);
    Next(all, header, b);
  }

  lemma ScanEnd(all: seq<Byte>, header: seq<Byte>, left: seq<Byte>, state: nat)
    requires Scanning(all, header, left, state)
    ensures state < 4 && left == [] ==> HeaderEndFrom(all, 0) == None && header == all
    ensures all[..|header|] == header && all[|header|..] == left
  {
    if state < 4 && left == [] {
      assert header == all;
      NotYet(all, header);
    }
  }

  lemma MoveOne(header: seq<Byte>, b: Byte, left: seq<Byte>, all: seq<Byte>)
    requires all == header + ([b] + left)
    ensures all == (header + [b]) + left && header + [b] <= all
  {
  }

  lemma TakeDrop(all: seq<Byte>, a: seq<Byte>, b: seq<Byte>)
    requires all == a + b
    ensures all[..|a|] == a && all[|a|..] == b
  {
  }

  lemma EndsIsTail(all: seq<Byte>, header: seq<Byte>)
    requires header <= all && |header| >= 4
    ensures all[|header| - 4..|header|] == TERMINATOR <==> Ends(header, 4)
  {
    var n := |header|;
    var tail := all[n - 4..n];
    forall i | 0 <= i < 4 ensures tail[i] == header[n - 4 + i] { }
  }

  lemma NotYet(all: seq<Byte>, header: seq<Byte>)
    requires header <= all && Overlap(header) < 4
    ensures HeaderEndFrom(all, |header|) == if |header| == |all| then None else HeaderEndFrom(all, |header| + 1)
  {
    if |header| >= 4 { EndsIsTail(all, header); }
  }

  lemma Next(all: seq<Byte>, header: seq<Byte>, b: Byte)
    requires header + [b] <= all
    ensures Overlap(header + [b]) == 4 ==> HeaderEndFrom(all, |header| + 1) == Some(|header| + 1)
  {
    var h := header + [b];
    if |h| >= 4 { EndsIsTail(all, h); }
  }

  /** What `ReadMessage` hands its caller: null, a body, or an exception. */
  datatype Received = EndOfInput | Body(bytes: seq<Byte>) | InvalidData

  function AsReceived(r: Read): Received {
    match r
    case Eof => EndOfInput
    case Message(body, _) => Body(body)
    case Malformed(_) => InvalidData
  }

  method ReadBody(stream: InputStream, contentLength: nat) returns (body: seq<Byte>, complete: bool)
    requires stream.Valid()
    modifies stream
    ensures stream.Valid()
    ensures complete <==> contentLength <= |old(stream.Left())|
    ensures complete ==>
      && body == old(stream.Left())[..contentLength]
      && stream.Left() == old(stream.Left())[contentLength..]
    ensures !complete ==> stream.Left() == []
  {
    ghost var all := stream.Left();
    body := [];
    while |body| < contentLength
      invariant stream.Valid() && |body| <= contentLength
      invariant all == body + stream.Left()
    {
      var chunk := stream.Read(contentLength - |body|);
      if chunk == [] {
        return body, false;
      }
      body := body + chunk;
    }
    complete := true;
    TakeDrop(all, body, stream.Left());
  }

  ghost function RestOf(r: Read): seq<Byte> {
    match r
    case Eof => []
    case Message(_, rest) => rest
    case Malformed(rest) => rest
  }

  lemma FrameRefused(all: seq<Byte>, n: nat)
    requires HeaderEndFrom(all, 0) == Some(n) && ContentLength(all[..n]) == None
    ensures ReadFrame(all) == Malformed(all[n..])
  {
  }

  lemma FrameCutShort(all: seq<Byte>, n: nat, len: nat)
    requires HeaderEndFrom(all, 0) == Some(n) && ContentLength(all[..n]) == Some(len) && |all| - n < len
    ensures ReadFrame(all) == Malformed([])
  {
  }

  lemma FrameRead(all: seq<Byte>, n: nat, len: nat)
    requires HeaderEndFrom(all, 0) == Some(n) && ContentLength(all[..n]) == Some(len) && n + len <= |all|
    ensures ReadFrame(all) == Message(all[n..][..len], all[n..][len..])
  {
    Lists.SplitBehind(all, n, len);
  }

  /** The loop over the header's lines, the last length winning. */
  method ReadContentLength(header: seq<Byte>) returns (contentLength: Option<nat>)
    ensures contentLength == ContentLength(header)
  {
    var lines := Lines(AsciiText(header));
    contentLength := None;
    var i := 0;
    while i < |lines|
      invariant 0 <= i <= |lines|
      invariant LengthOf(lines[i..], contentLength) == ContentLength(header)
    {
      Lists.From(lines, i);
      var rawLine := lines[i];
      i := i + 1;
      if rawLine != [] {
        var colon := IndexOf(rawLine, ':');
        if colon.None? {
          return None;
        }
        if EqualsIgnoreCase(Trim(rawLine[..colon.value]), "Content-Length") {
          var parsed := TryParse(Trim(rawLine[colon.value + 1..]));
          if parsed.None? || parsed.value < 0 {
            return None;
          }
          contentLength := Some(parsed.value);
        }
      }
    }
  }

  /** The reader does what `ReadFrame` says, however the body arrives. */
  method ReadMessage(stream: InputStream) returns (r: Received)
    requires stream.Valid()
    modifies stream
    ensures stream.Valid()
    ensures r == AsReceived(ReadFrame(old(stream.Left())))
    ensures stream.Left() == RestOf(ReadFrame(old(stream.Left())))
  {
    ghost var all := stream.Left();
    var header, ended := ReadHeader(stream);
    if !ended {
      return if header == [] then EndOfInput else InvalidData;
    }
    var announced := ReadContentLength(header);
    if announced.None? {
      FrameRefused(all, |header|);
      return InvalidData;
    }
    var body, complete := ReadBody(stream, announced.value);
    if !complete {
      FrameCutShort(all, |header|, announced.value);
      return InvalidData;
    }
    FrameRead(all, |header|, announced.value);
    r := Body(body);
  }
}
