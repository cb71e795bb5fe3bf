/** The byte stream behind a cache key: tagged, length-prefixed records,
    `[u32 BE tag length][tag][u64 BE data length][data]`, one after another. */
module RecordStream {
  import Lists

  type Byte = b: int | 0 <= b < 256

  // ---- fixed-width big-endian integers ----

  function Pow256(width: nat): (r: nat)
    ensures r > 0
  {
    if width == 0 then 1 else 256 * Pow256(width - 1)
  }

  /** The low `width` bytes of `n`, most significant first. */
  function BigEndian(n: nat, width: nat): (r: seq<Byte>)
    ensures |r| == width
    decreases width
  {
    if width == 0 then [] else BigEndian(n / 256, width - 1) + [n % 256]
  }

  function FromBigEndian(bs: seq<Byte>): nat {
    if bs == [] then 0 else FromBigEndian(bs[..|bs| - 1]) * 256 + bs[|bs| - 1]
  }

  lemma {:induction false} BigEndianRoundTrip(n: nat, width: nat)
    requires n < Pow256(width)
    ensures FromBigEndian(BigEndian(n, width)) == n
    decreases width
  {
    if width > 0 {
      assert n / 256 < Pow256(width - 1);
      BigEndianRoundTrip(n / 256, width - 1);
      assert BigEndian(n, width)[..width - 1] == BigEndian(n / 256, width - 1);
    }
  }

  /** The last byte is the least significant: what fits one byte stands there,
      behind zeros. */
  lemma {:induction false} SmallStandsLast(n: nat, width: nat)
    requires n < 256 && width > 0
    ensures BigEndian(n, width) == seq(width - 1, _ => 0) + [n]
    decreases width
  {
    if width > 1 { SmallStandsLast(0, width - 1); }
  }

  // ---- records ----

  datatype Record = Record(tag: seq<Byte>, data: seq<Byte>)

  /** Lengths the prefixes can hold; every .NET array length does. */
  ghost predicate Fits(r: Record) {
    |r.tag| < Pow256(4) && |r.data| < Pow256(8)
  }

  /** `AppendBytes`. */
  function EncodeRecord(r: Record): seq<Byte> {
    BigEndian(|r.tag|, 4) + r.tag + BigEndian(|r.data|, 8) + r.data
  }

  function Encode(rs: seq<Record>): seq<Byte> {
    if rs == [] then [] else EncodeRecord(rs[0]) + Encode(rs[1..])
  }

  /** The same bytes read as records from the front: the reference decoder. */
  ghost function Decode(bs: seq<Byte>): seq<Record>
    decreases |bs|
  {
    if |bs| < 12 then []
    else
      var t := FromBigEndian(bs[..4]);
      if |bs| < 12 + t then []
      else
        var d := FromBigEndian(bs[4 + t..12 + t]);
        if |bs| < 12 + t + d then []
        else [Record(bs[4..4 + t], bs[12 + t..12 + t + d])] + Decode(bs[12 + t + d..])
  }

  lemma DecodeOne(r: Record, rest: seq<Byte>)
    requires Fits(r)
    ensures Decode(EncodeRecord(r) + rest) == [r] + Decode(rest)
  {
    var t, d := |r.tag|, |r.data|;
    BigEndianRoundTrip(t, 4);
    BigEndianRoundTrip(d, 8);
    Pieces(BigEndian(t, 4), r.tag, BigEndian(d, 8), r.data, rest);
  }

  lemma Pieces(a: seq<Byte>, tag: seq<Byte>, b: seq<Byte>, data: seq<Byte>, rest: seq<Byte>)
    requires |a| == 4 && |b| == 8
    ensures var bs, t, d := a + tag + b + data + rest, |tag|, |data|;
      && |bs| == 12 + t + d + |rest|
      && bs[..4] == a && bs[4..4 + t] == tag && bs[4 + t..12 + t] == b
      && bs[12 + t..12 + t + d] == data && bs[12 + t + d..] == rest
  {
    var bs, t, d := a + tag + b + data + rest, |tag|, |data|;
    assert bs == a + (tag + b + data + rest);
    assert bs[4..] == tag + (b + data + rest);
    assert bs[4 + t..] == b + (data + rest);
    assert bs[12 + t..] == data + rest;
  }

  /** Reading back the stream gives exactly the records written. */
  lemma {:induction false} RecordsRoundTrip(rs: seq<Record>)
    requires forall r :: r in rs ==> Fits(r)
    ensures Decode(Encode(rs)) == rs
    decreases |rs|
  {
    if rs != [] {
      DecodeOne(rs[0], Encode(rs[1..]));
      RecordsRoundTrip(rs[1..]);
    }
  }

  lemma ConcatFront<T>(xs: seq<T>, ys: seq<T>)
    requires xs != []
    ensures (xs + ys)[0] == xs[0] && (xs + ys)[1..] == xs[1..] + ys
  {
  }

  lemma {:induction false} EncodeConcat(rs: seq<Record>, ss: seq<Record>)
    ensures Encode(rs + ss) == Encode(rs) + Encode(ss)
    decreases |rs|
  {
    if rs == [] {
      assert rs + ss == ss;
    } else {
      ConcatFront(rs, ss);
      EncodeConcat(rs[1..], ss);
      Lists.Associate(EncodeRecord(rs[0]), Encode(rs[1..]), Encode(ss));
    }
  }

  /** Appending one record to a stream, piece by piece. */
  lemma EncodeAppend(rs: seq<Record>, r: Record)
    ensures Encode(rs + [r]) == Encode(rs) + BigEndian(|r.tag|, 4) + r.tag + BigEndian(|r.data|, 8) + r.data
  {
    EncodeConcat(rs, [r]);
    EncodeSingle(r);
    FourPieces(Encode(rs), BigEndian(|r.tag|, 4), r.tag, BigEndian(|r.data|, 8), r.data);
  }

  lemma EncodeSingle(r: Record)
    ensures Encode([r]) == EncodeRecord(r)
  {
    assert [r][1..] == [];
    assert EncodeRecord(r) + [] == EncodeRecord(r);
  }

  lemma FourPieces(s: seq<Byte>, a: seq<Byte>, b: seq<Byte>, c: seq<Byte>, d: seq<Byte>)
    ensures s + (a + b + c + d) == s + a + b + c + d
  {
  }

  // ---- text ----

  function Utf8Char(c: char): seq<Byte> {
    var n := c as int;
    if n < 0x80 then [n]
    else if n < 0x800 then [0xC0 + n / 0x40, 0x80 + n % 0x40]
    else if n < 0x10000 then [0xE0 + n / 0x1000, 0x80 + n / 0x40 % 0x40, 0x80 + n % 0x40]
    else [0xF0 + n / 0x40000, 0x80 + n / 0x1000 % 0x40, 0x80 + n / 0x40 % 0x40, 0x80 + n % 0x40]
  }

  function Utf8(s: string): seq<Byte> {
    if s == [] then [] else Utf8Char(s[0]) + Utf8(s[1..])
  }

  /** The scalar value a well-formed character sequence stands for. */
  function FromUtf8Char(bs: seq<Byte>): int {
    if |bs| == 1 then bs[0]
    else if |bs| == 2 then (bs[0] as int - 0xC0) * 0x40 + (bs[1] as int - 0x80)
    else if |bs| == 3 then (bs[0] as int - 0xE0) * 0x1000 + (bs[1] as int - 0x80) * 0x40 + (bs[2] as int - 0x80)
    else if |bs| == 4 then (bs[0] as int - 0xF0) * 0x40000 + (bs[1] as int - 0x80) * 0x1000
      + (bs[2] as int - 0x80) * 0x40 + (bs[3] as int - 0x80)
    else 0
  }

  function LeadLength(b: Byte): nat {
    if b < 0x80 then 1 else if b < 0xE0 then 2 else if b < 0xF0 then 3 else 4
  }

  lemma Utf8CharRoundTrip(c: char)
    ensures FromUtf8Char(Utf8Char(c)) == c as int
    ensures |Utf8Char(c)| > 0 && |Utf8Char(c)| == LeadLength(Utf8Char(c)[0])
  {
    var n := c as int;
    assert n == n / 0x40 * 0x40 + n % 0x40;
    assert n / 0x40 == n / 0x1000 * 0x40 + n / 0x40 % 0x40;
    assert n / 0x1000 == n / 0x40000 * 0x40 + n / 0x1000 % 0x40;
  }

  lemma Utf8CharPrefixFree(a: char, b: char, x: seq<Byte>, y: seq<Byte>)
    requires Utf8Char(a) + x == Utf8Char(b) + y
    ensures a == b && x == y
  {
    Utf8CharRoundTrip(a);
    Utf8CharRoundTrip(b);
    SplitAgrees(Utf8Char(a), Utf8Char(b), x, y);
  }

  lemma SplitAgrees(u: seq<Byte>, v: seq<Byte>, x: seq<Byte>, y: seq<Byte>)
    requires u != [] && v != [] && (u[0] == v[0] ==> |u| == |v|)
    requires u + x == v + y
    ensures u == v && x == y
  {
    assert (u + x)[0] == u[0] && (v + y)[0] == v[0];
    assert u == (u + x)[..|u|] == v;
    assert x == (u + x)[|u|..] == y;
  }

  lemma {:induction false} Utf8Injective(s: string, t: string)
    requires Utf8(s) == Utf8(t)
    ensures s == t
    decreases |s|
  {
    if s != [] && t != [] {
      Utf8CharPrefixFree(s[0], t[0], Utf8(s[1..]), Utf8(t[1..]));
      Utf8Injective(s[1..], t[1..]);
      assert s == [s[0]] + s[1..] && t == [t[0]] + t[1..];
    }
  }
}
