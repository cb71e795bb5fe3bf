/** Paths compared as `StringComparer.Ordinal` compares them, and the stable
    `OrderBy` the sidecar applies before anything order-sensitive. */
module Ordinal {
  import Lists

  type Path = string

  /** Ordinal comparison works on UTF-16 code units: a supplementary character
      starts with a surrogate, so it sorts below U+E000..U+FFFF. */
  function Rank(c: char): nat {
    if 0xE000 <= c as int <= 0xFFFF then c as int + 0x110000 else c as int
  }

  predicate AtMost(a: Path, b: Path) {
    a == [] || (b != [] && (Rank(a[0]) < Rank(b[0]) || (a[0] == b[0] && AtMost(a[1..], b[1..]))))
  }

  lemma {:induction false} AtMostTotal(a: Path, b: Path)
    ensures AtMost(a, b) || AtMost(b, a)
    decreases |a|
  {
    if a != [] && b != [] && a[0] == b[0] {
      AtMostTotal(a[1..], b[1..]);
    }
  }

  lemma {:induction false} AtMostAntisymmetric(a: Path, b: Path)
    requires AtMost(a, b) && AtMost(b, a)
    ensures a == b
    decreases |a|
  {
    if a != [] {
      AtMostAntisymmetric(a[1..], b[1..]);
      assert a == [a[0]] + a[1..] && b == [b[0]] + b[1..];
    }
  }

  lemma {:induction false} AtMostTransitive(a: Path, b: Path, c: Path)
    requires AtMost(a, b) && AtMost(b, c)
    ensures AtMost(a, c)
    decreases |a|
  {
    if a != [] && a[0] == b[0] == c[0] {
      AtMostTransitive(a[1..], b[1..], c[1..]);
    }
  }

  // ---- the order of code units ----

  /** The UTF-16 code units of a character. */
  function Utf16Char(c: char): seq<nat> {
    var n := c as int;
    if n < 0x10000 then [n] else [0xD800 + (n - 0x10000) / 0x400, 0xDC00 + (n - 0x10000) % 0x400]
  }

  function Utf16(s: string): seq<nat> {
    if s == [] then [] else Utf16Char(s[0]) + Utf16(s[1..])
  }

  predicate UnitsAtMost(a: seq<nat>, b: seq<nat>) {
    a == [] || (b != [] && (a[0] < b[0] || (a[0] == b[0] && UnitsAtMost(a[1..], b[1..]))))
  }

  /** Ordinal order is the lexicographic order of UTF-16 code units. */
  lemma {:induction false} AtMostComparesUnits(a: Path, b: Path)
    ensures AtMost(a, b) <==> UnitsAtMost(Utf16(a), Utf16(b))
    decreases |a|
  {
    if a != [] && b != [] {
      if a[0] == b[0] {
        AtMostComparesUnits(a[1..], b[1..]);
        SamePrefix(Utf16Char(a[0]), Utf16(a[1..]), Utf16(b[1..]));
      } else {
        FirstCharDecides(a[0], b[0], Utf16(a[1..]), Utf16(b[1..]));
      }
    }
  }

  lemma {:induction false} SamePrefix(u: seq<nat>, x: seq<nat>, y: seq<nat>)
    ensures UnitsAtMost(u + x, u + y) <==> UnitsAtMost(x, y)
    decreases |u|
  {
    if u == [] {
      assert u + x == x && u + y == y;
    } else {
      SamePrefix(u[1..], x, y);
      assert (u + x)[1..] == u[1..] + x && (u + y)[1..] == u[1..] + y;
    }
  }

  lemma FirstCharDecides(c: char, d: char, x: seq<nat>, y: seq<nat>)
    requires c != d
    ensures UnitsAtMost(Utf16Char(c) + x, Utf16Char(d) + y) <==> Rank(c) < Rank(d)
  {
    var u, v := Utf16Char(c) + x, Utf16Char(d) + y;
    if c as int >= 0x10000 && d as int >= 0x10000 {
      assert u[1..][0] == Utf16Char(c)[1] && v[1..][0] == Utf16Char(d)[1];
      var m, n := c as int - 0x10000, d as int - 0x10000;
      assert m == m / 0x400 * 0x400 + m % 0x400 && n == n / 0x400 * 0x400 + n % 0x400;
    }
  }

  // ---- sorting by an ordinal key ----

  ghost predicate SortedBy<T>(key: T -> Path, xs: seq<T>) {
    forall i, j :: 0 <= i < j < |xs| ==> AtMost(key(xs[i]), key(xs[j]))
  }

  ghost predicate DistinctBy<T>(key: T -> Path, xs: seq<T>) {
    forall i, j :: 0 <= i < j < |xs| ==> key(xs[i]) != key(xs[j])
  }

  /** Insert after every element that is not larger: the sort below is stable. */
  function Insert<T>(key: T -> Path, x: T, xs: seq<T>): (r: seq<T>)
    ensures multiset(r) == multiset(xs) + multiset{x}
  {
    if xs == [] then [x]
    else if AtMost(key(xs[|xs| - 1]), key(x)) then xs + [x]
    else
      assert xs == xs[..|xs| - 1] + [xs[|xs| - 1]];
      Insert(key, x, xs[..|xs| - 1]) + [xs[|xs| - 1]]
  }

  /** LINQ's `OrderBy(key, StringComparer.Ordinal)`. */
  function OrderBy<T>(key: T -> Path, xs: seq<T>): (r: seq<T>)
    ensures multiset(r) == multiset(xs)
  {
    if xs == [] then []
    else
      assert xs == xs[..|xs| - 1] + [xs[|xs| - 1]];
      Insert(key, xs[|xs| - 1], OrderBy(key, xs[..|xs| - 1]))
  }

  lemma SameElements<T>(xs: seq<T>, ys: seq<T>)
    requires multiset(xs) == multiset(ys)
    ensures |xs| == |ys|
    ensures forall x :: x in xs <==> x in ys
  {
    assert |multiset(xs)| == |multiset(ys)|;
    forall x ensures x in xs <==> x in ys {
      assert x in multiset(xs) <==> x in multiset(ys);
    }
  }

  lemma {:induction false} InsertSorted<T>(key: T -> Path, x: T, xs: seq<T>)
    requires SortedBy(key, xs)
    ensures SortedBy(key, Insert(key, x, xs))
    decreases |xs|
  {
    if xs != [] {
      var init, last := xs[..|xs| - 1], xs[|xs| - 1];
      if AtMost(key(last), key(x)) {
        forall i | 0 <= i < |xs| ensures AtMost(key(xs[i]), key(x)) {
          if i < |xs| - 1 { AtMostTransitive(key(xs[i]), key(last), key(x)); }
        }
      } else {
        InsertSorted(key, x, init);
        AtMostTotal(key(last), key(x));
        var r := Insert(key, x, init);
        forall i | 0 <= i < |r| ensures AtMost(key(r[i]), key(last)) {
          assert r[i] in multiset(r);
          assert r[i] == x || r[i] in init;
        }
      }
    }
  }

  lemma {:induction false} OrderBySorted<T>(key: T -> Path, xs: seq<T>)
    ensures SortedBy(key, OrderBy(key, xs))
    decreases |xs|
  {
    if xs != [] {
      OrderBySorted(key, xs[..|xs| - 1]);
      InsertSorted(key, xs[|xs| - 1], OrderBy(key, xs[..|xs| - 1]));
    }
  }

  /** The elements with a key, in the order they come. */
  ghost function WithKey<T>(key: T -> Path, xs: seq<T>, k: Path): seq<T> {
    if xs == [] then []
    else WithKey(key, xs[..|xs| - 1], k) + if key(xs[|xs| - 1]) == k then [xs[|xs| - 1]] else []
  }

  lemma WithKeySnoc<T>(key: T -> Path, xs: seq<T>, x: T, k: Path)
    ensures WithKey(key, xs + [x], k) == WithKey(key, xs, k) + if key(x) == k then [x] else []
  {
    assert (xs + [x])[..|xs|] == xs;
  }

  lemma {:induction false} InsertIsStable<T>(key: T -> Path, x: T, xs: seq<T>, k: Path)
    ensures WithKey(key, Insert(key, x, xs), k) == WithKey(key, xs, k) + if key(x) == k then [x] else []
    decreases |xs|
  {
    if xs == [] {
      WithKeySnoc(key, [], x, k);
      assert [] + [x] == [x];
    } else {
      var init, last := xs[..|xs| - 1], xs[|xs| - 1];
      if AtMost(key(last), key(x)) {
        WithKeySnoc(key, xs, x, k);
      } else {
        InsertIsStable(key, x, init, k);
        WithKeySnoc(key, Insert(key, x, init), last, k);
        AtMostTotal(key(last), key(last));
        assert key(last) != key(x);
      }
    }
  }

  /** The sort is stable: elements with one key keep their order. */
  lemma {:induction false} OrderByIsStable<T>(key: T -> Path, xs: seq<T>, k: Path)
    ensures WithKey(key, OrderBy(key, xs), k) == WithKey(key, xs, k)
    decreases |xs|
  {
    if xs != [] {
      var init, last := xs[..|xs| - 1], xs[|xs| - 1];
      OrderByIsStable(key, init, k);
      InsertIsStable(key, last, OrderBy(key, init), k);
    }
  }

  /** Elements with one key are one element. */
  ghost predicate KeyDetermines<T(!new)>(key: T -> Path, s: multiset<T>) {
    forall x, y :: x in s && y in s && key(x) == key(y) ==> x == y
  }

  lemma HeadIsLeast<T>(key: T -> Path, xs: seq<T>, x: T)
    requires xs != [] && SortedBy(key, xs) && x in xs
    ensures AtMost(key(xs[0]), key(x))
  {
    var i :| 0 <= i < |xs| && xs[i] == x;
    if i == 0 { AtMostTotal(key(x), key(x)); }
  }

  lemma HeadsAgree<T(!new)>(key: T -> Path, xs: seq<T>, ys: seq<T>)
    requires xs != [] && multiset(xs) == multiset(ys)
    requires SortedBy(key, xs) && SortedBy(key, ys)
    requires KeyDetermines(key, multiset(xs))
    ensures ys != [] && xs[0] == ys[0]
  {
    SameElements(xs, ys);
    HeadIsLeast(key, xs, ys[0]);
    HeadIsLeast(key, ys, xs[0]);
    AtMostAntisymmetric(key(xs[0]), key(ys[0]));
    assert xs[0] in multiset(xs) && ys[0] in multiset(xs);
  }

  /** A sorted arrangement is determined by its elements when equal keys mean
      equal elements: nothing of the input order survives the sort. */
  lemma {:induction false} SortedIsCanonical<T(!new)>(key: T -> Path, xs: seq<T>, ys: seq<T>)
    requires multiset(xs) == multiset(ys)
    requires SortedBy(key, xs) && SortedBy(key, ys)
    requires KeyDetermines(key, multiset(xs))
    ensures xs == ys
    decreases |xs|
  {
    SameElements(xs, ys);
    if xs != [] {
      HeadsAgree(key, xs, ys);
      TailElements(xs);
      TailElements(ys);
      SortedIsCanonical(key, xs[1..], ys[1..]);
      Lists.Uncons(xs);
      Lists.Uncons(ys);
    }
  }

  lemma TailElements<T>(xs: seq<T>)
    requires xs != []
    ensures multiset(xs[1..]) == multiset(xs) - multiset{xs[0]}
  {
    assert xs == [xs[0]] + xs[1..];
  }

  lemma DistinctKeys<T(!new)>(key: T -> Path, xs: seq<T>)
    requires DistinctBy(key, xs)
    ensures KeyDetermines(key, multiset(xs))
  {
    forall x, y | x in multiset(xs) && y in multiset(xs) && key(x) == key(y) ensures x == y {
      assert x in xs && y in xs;
    }
  }

  /** Sorting forgets the order it was given, for distinct keys. */
  lemma OrderByForgetsOrder<T(!new)>(key: T -> Path, xs: seq<T>, ys: seq<T>)
    requires multiset(xs) == multiset(ys) && DistinctBy(key, xs)
    ensures OrderBy(key, xs) == OrderBy(key, ys)
  {
    OrderBySorted(key, xs);
    OrderBySorted(key, ys);
    DistinctKeys(key, xs);
    SortedIsCanonical(key, OrderBy(key, xs), OrderBy(key, ys));
  }

  // ---- the ascending list of a set of paths ----

  function Id(p: Path): Path { p }

  /** The one strictly ascending list with these elements. */
  ghost predicate IsAscending(xs: seq<Path>, s: set<Path>) {
    && SortedBy(Id, xs)
    && DistinctBy(Id, xs)
    && (forall p :: p in xs <==> p in s)
  }

  ghost function Ascending(s: set<Path>): (r: seq<Path>)
    ensures IsAscending(r, s)
  {
    if s == {} then []
    else
      var m :| m in s;
      var rest := Ascending(s - {m});
      InsertAscends(m, rest, s);
      Insert(Id, m, rest)
  }

  lemma InsertAscends(m: Path, rest: seq<Path>, s: set<Path>)
    requires m in s && IsAscending(rest, s - {m})
    ensures IsAscending(Insert(Id, m, rest), s)
  {
    InsertSorted(Id, m, rest);
    InsertKeepsDistinct(m, rest);
    var r := Insert(Id, m, rest);
    forall p ensures p in r <==> p in s {
      assert p in r <==> p in multiset(r);
      assert p in rest <==> p in multiset(rest);
    }
  }

  lemma DistinctIffMultiset(xs: seq<Path>)
    ensures DistinctBy(Id, xs) <==> forall p :: p in xs ==> multiset(xs)[p] == 1
    decreases |xs|
  {
    if xs != [] {
      var init, last := xs[..|xs| - 1], xs[|xs| - 1];
      assert xs == init + [last];
      assert multiset(xs) == multiset(init) + multiset{last};
      DistinctIffMultiset(init);
      if DistinctBy(Id, xs) {
        assert last !in init;
        assert forall p :: p in xs ==> multiset(xs)[p] == 1;
      }
      if forall p :: p in xs ==> multiset(xs)[p] == 1 {
        assert multiset(xs)[last] == 1;
        assert last !in multiset(init);
        forall p | p in init ensures multiset(init)[p] == 1 {
          assert multiset(xs)[p] == 1;
        }
      }
    }
  }

  lemma InsertKeepsDistinct(x: Path, xs: seq<Path>)
    requires DistinctBy(Id, xs) && x !in xs
    ensures DistinctBy(Id, Insert(Id, x, xs))
  {
    DistinctIffMultiset(xs);
    var r := Insert(Id, x, xs);
    assert x !in multiset(xs);
    forall p | p in r ensures multiset(r)[p] == 1 {
      assert p in multiset(r);
    }
    DistinctIffMultiset(r);
  }

  lemma {:induction false} DistinctOnce<T(!new)>(key: T -> Path, xs: seq<T>)
    requires DistinctBy(key, xs)
    ensures forall x :: x in xs ==> multiset(xs)[x] == 1
    decreases |xs|
  {
    if xs != [] {
      var init, last := xs[..|xs| - 1], xs[|xs| - 1];
      assert xs == init + [last];
      DistinctOnce(key, init);
      assert last !in init;
    }
  }

  /** Two lists with distinct keys and the same elements are permutations. */
  lemma SameSetSameMultiset<T(!new)>(key: T -> Path, xs: seq<T>, ys: seq<T>)
    requires DistinctBy(key, xs) && DistinctBy(key, ys)
    requires forall p :: p in xs <==> p in ys
    ensures multiset(xs) == multiset(ys)
  {
    DistinctOnce(key, xs);
    DistinctOnce(key, ys);
    forall p ensures multiset(xs)[p] == multiset(ys)[p] {
      assert p in multiset(xs) <==> p in xs;
      assert p in multiset(ys) <==> p in ys;
    }
  }

  lemma AscendingIsUnique(xs: seq<Path>, s: set<Path>)
    requires IsAscending(xs, s)
    ensures xs == Ascending(s)
  {
    SameSetSameMultiset(Id, xs, Ascending(s));
    DistinctKeys(Id, xs);
    SortedIsCanonical(Id, xs, Ascending(s));
  }
}
