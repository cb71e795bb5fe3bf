/** Where the sidecar puts a key's DLL, and where it writes before publishing. */
module CachePath {
  import opened RecordStream
  import opened CacheKey
  import opened Options
  import Lists
  import Text

  function HexDigit(n: nat): char
    requires n < 16
  {
    "0123456789abcdef"[n]
  }

  /** `Cache.ToHexLower`. */
  function ToHexLower(bs: seq<Byte>): (r: string)
    ensures |r| == 2 * |bs|
  {
    if bs == [] then [] else [HexDigit(bs[0] / 16), HexDigit(bs[0] % 16)] + ToHexLower(bs[1..])
  }

  lemma HexDigitInjective(m: nat, n: nat)
    requires m < 16 && n < 16 && HexDigit(m) == HexDigit(n)
    ensures m == n
  {
  }

  lemma {:induction false} ToHexLowerInjective(a: seq<Byte>, b: seq<Byte>)
    requires ToHexLower(a) == ToHexLower(b)
    ensures a == b
    decreases |a|
  {
    assert |a| == |b|;
    if a != [] {
      var x, y := ToHexLower(a), ToHexLower(b);
      assert x[0] == y[0];
      HexDigitInjective(a[0] / 16, b[0] / 16);
      assert x[1] == y[1];
      HexDigitInjective(a[0] % 16, b[0] % 16);
      assert ToHexLower(a[1..]) == x[2..] == y[2..] == ToHexLower(b[1..]);
      ToHexLowerInjective(a[1..], b[1..]);
      assert a == [a[0]] + a[1..] && b == [b[0]] + b[1..];
    }
  }

  /** The value of a lower-case hex digit. */
  function HexValue(c: char): Option<nat> {
    if '0' <= c <= '9' then Some(c as int - '0' as int)
    else if 'a' <= c <= 'f' then Some(c as int - 'a' as int + 10)
    else None
  }

  lemma HexDigitReadsBack(n: nat)
    requires n < 16
    ensures HexValue(HexDigit(n)) == Some(n) && HexDigit(n) != '/'
  {
  }

  /** Two lower-case digits a byte, the high half first. */
  lemma {:induction false} HexSpells(bs: seq<Byte>, i: nat)
    requires i < |bs|
    ensures var hex := ToHexLower(bs);
      && HexValue(hex[2 * i]).Some? && HexValue(hex[2 * i + 1]).Some?
      && bs[i] == 16 * HexValue(hex[2 * i]).value + HexValue(hex[2 * i + 1]).value
      && hex[2 * i] != '/' && hex[2 * i + 1] != '/'
    decreases |bs|
  {
    if i == 0 {
      HexDigitReadsBack(bs[0] / 16);
      HexDigitReadsBack(bs[0] % 16);
    } else {
      HexSpells(bs[1..], i - 1);
      var hex, rest := ToHexLower(bs), ToHexLower(bs[1..]);
      assert hex[2 * i] == rest[2 * (i - 1)] && hex[2 * i + 1] == rest[2 * (i - 1) + 1];
    }
  }

  lemma HexIsOneName(bs: seq<Byte>)
    ensures '/' !in ToHexLower(bs)
  {
    var hex := ToHexLower(bs);
    forall k | 0 <= k < |hex| ensures hex[k] != '/' {
      HexSpells(bs, k / 2);
      assert k == 2 * (k / 2) || k == 2 * (k / 2) + 1;
    }
  }

  // ---- paths ----

  /** `Path.Combine`. */
  function Combine(first: string, second: string): string {
    if second == "" then first
    else if first == "" || second[0] == '/' then second
    else if first[|first| - 1] == '/' then first + second
    else first + "/" + second
  }

  /** The names along a path. */
  function Names(path: string): seq<string> {
    NonEmpty(Text.Split(path, '/'))
  }

  function NonEmpty(parts: seq<string>): seq<string> {
    if parts == [] then []
    else (if parts[0] == "" then [] else [parts[0]]) + NonEmpty(parts[1..])
  }

  lemma {:induction false} NonEmptyConcat(a: seq<string>, b: seq<string>)
    ensures NonEmpty(a + b) == NonEmpty(a) + NonEmpty(b)
    decreases |a|
  {
    if a == [] {
      assert a + b == b;
    } else {
      NonEmptyConcat(a[1..], b);
      assert (a + b)[1..] == a[1..] + b;
      Lists.Associate(if a[0] == "" then [] else [a[0]], NonEmpty(a[1..]), NonEmpty(b));
    }
  }

  /** A separator between two paths puts their names one after the other. */
  lemma {:induction false} NamesAcross(a: string, b: string)
    ensures Names(a + "/" + b) == Names(a) + Names(b)
    decreases |a|
  {
    match Text.IndexOf(a, '/')
    case None =>
      Text.IndexOfAbsent(a, '/');
      Text.SplitAtFirst(a, '/', b);
      NonEmptyConcat([a], Text.Split(b, '/'));
    case Some(i) =>
      var x, y := a[..i], a[i + 1..];
      Text.FirstIndex(a, '/');
      NamesAcross(y, b);
      assert a + "/" + b == x + "/" + (y + "/" + b) && a == x + "/" + y;
      Text.SplitAtFirst(x, '/', y + "/" + b);
      Text.SplitAtFirst(x, '/', y);
      NonEmptyConcat([x], Text.Split(y + "/" + b, '/'));
      NonEmptyConcat([x], Text.Split(y, '/'));
      Lists.Associate(NonEmpty([x]), Names(y), Names(b));
  }

  /** Combining appends the names of a relative path, and what it gives is
      rooted exactly when the first part is. */
  lemma CombineAppends(first: string, second: string)
    requires second != "" && second[0] != '/'
    ensures Names(Combine(first, second)) == Names(first) + Names(second)
    ensures Combine(first, second)[..1] == "/" <==> first != "" && first[0] == '/'
  {
    if first == "" {
      assert Names(first) == [] by { assert Text.Split("", '/') == [""]; }
    } else if first[|first| - 1] == '/' {
      var front := first[..|first| - 1];
      assert first == front + "/" + "" && first + second == front + "/" + second;
      NamesAcross(front, "");
      NamesAcross(front, second);
      assert Names("") == [] by { assert Text.Split("", '/') == [""]; }
    } else {
      NamesAcross(first, second);
    }
  }

  lemma SingleName(name: string)
    requires name != "" && '/' !in name
    ensures Names(name) == [name]
  {
    Text.IndexOfAbsent(name, '/');
    var parts := [name];
    assert NonEmpty(parts[1..]) == [];
  }

  /** `<cacheRoot>/<two hex digits>/<hex>.dll`. */
  function FinalPath(cacheRoot: string, key: Digest): string {
    var hex := ToHexLower(key);
    Combine(Combine(cacheRoot, hex[..2]), hex + ".dll")
  }

  /** `<final>.<random>.tmp`. */
  function TempPath(finalPath: string, random: string): string {
    finalPath + "." + random + ".tmp"
  }

  /** Two levels below the cache root: a directory named by the first byte and
      a DLL named by the whole key. */
  lemma FinalPathNames(cacheRoot: string, key: Digest)
    ensures var hex := ToHexLower(key);
      |hex| == 64 && Names(FinalPath(cacheRoot, key)) == Names(cacheRoot) + [hex[..2], hex + ".dll"]
  {
    var hex := ToHexLower(key);
    HexIsOneName(key);
    var shard, file := hex[..2], hex + ".dll";
    assert '/' !in shard && '/' !in file;
    assert shard[0] in hex && file[0] in hex;
    SingleName(shard);
    SingleName(file);
    CombineAppends(cacheRoot, shard);
    CombineAppends(Combine(cacheRoot, shard), file);
    Lists.Associate(Names(cacheRoot), [shard], [file]);
  }

  lemma FinalPathInjective(cacheRoot: string, a: Digest, b: Digest)
    requires FinalPath(cacheRoot, a) == FinalPath(cacheRoot, b)
    ensures a == b
  {
    FinalPathNames(cacheRoot, a);
    FinalPathNames(cacheRoot, b);
    var x, y := ToHexLower(a), ToHexLower(b);
    Lists.Cancel(Names(cacheRoot), [x[..2], x + ".dll"], [y[..2], y + ".dll"]);
    assert [x[..2], x + ".dll"][1] == [y[..2], y + ".dll"][1];
    Lists.CancelBack(x, y, ".dll");
    ToHexLowerInjective(a, b);
  }

  /** A temporary file can never be mistaken for a published one. */
  lemma TempIsNeverFinal(cacheRoot: string, key: Digest, finalPath: string, random: string)
    ensures TempPath(finalPath, random) != FinalPath(cacheRoot, key)
  {
    var t, f := TempPath(finalPath, random), FinalPath(cacheRoot, key);
    assert t[|t| - 1] == 'p' && f[|f| - 1] == 'l';
  }

  /** A temporary file stands in the directory of the file it will become. */
  lemma TempStandsBeside(finalPath: string, random: string)
    requires finalPath != "" && finalPath[|finalPath| - 1] != '/' && '/' !in random
    ensures finalPath <= TempPath(finalPath, random) && '/' !in TempPath(finalPath, random)[|finalPath|..]
    ensures TempPath(finalPath, random)[|finalPath|..] == "." + random + ".tmp"
  {
    var t := TempPath(finalPath, random);
    assert t[|finalPath|..] == "." + random + ".tmp";
  }

  /** Where a workspace keeps the sidecar's cache. */
  function CacheRoot(workspaceRoot: string): string { Combine(workspaceRoot, "obj/borzoi/csharp-sidecar") }

  lemma CacheRootNames(workspaceRoot: string)
    ensures Names(CacheRoot(workspaceRoot)) == Names(workspaceRoot) + ["obj", "borzoi", "csharp-sidecar"]
    ensures CacheRoot(workspaceRoot)[..1] == "/" <==> workspaceRoot != "" && workspaceRoot[0] == '/'
  {
    var subdir := "obj" + ("/" + ("borzoi" + ("/" + "csharp-sidecar")));
    assert subdir == "obj/borzoi/csharp-sidecar";
    CombineAppends(workspaceRoot, subdir);
    ThreeNames(subdir, "obj", "borzoi", "csharp-sidecar");
  }

  lemma ThreeNames(path: string, a: string, b: string, c: string)
    requires a != "" && b != "" && c != "" && '/' !in a && '/' !in b && '/' !in c
    requires path == a + ("/" + (b + ("/" + c)))
    ensures Names(path) == [a, b, c]
  {
    assert path == a + "/" + (b + "/" + c);
    NamesAcross(a, b + "/" + c);
    NamesAcross(b, c);
    SingleName(a);
    SingleName(b);
    SingleName(c);
  }
}
