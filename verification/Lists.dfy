/** Sequence identities the larger proofs lean on. */
module Lists {

  lemma Associate<T>(a: seq<T>, b: seq<T>, c: seq<T>)
    ensures a + b + c == a + (b + c)
  {
  }

  lemma Associate4<T>(a: seq<T>, b: seq<T>, c: seq<T>, d: seq<T>)
    ensures a + b + c + d == a + (b + c + d)
  {
  }

  lemma Cancel<T>(a: seq<T>, x: seq<T>, y: seq<T>)
    requires a + x == a + y
    ensures x == y
  {
    assert x == (a + x)[|a|..] && y == (a + y)[|a|..];
  }

  lemma CancelBack<T>(x: seq<T>, y: seq<T>, b: seq<T>)
    requires x + b == y + b
    ensures x == y
  {
    assert |x + b| == |y + b|;
    assert x == (x + b)[..|x|] && y == (y + b)[..|y|];
  }

  /** A list behind its first element. */
  lemma Cons<T>(x: T, rest: seq<T>)
    ensures ([x] + rest)[0] == x && ([x] + rest)[1..] == rest
  {
  }

  lemma Uncons<T>(xs: seq<T>)
    requires xs != []
    ensures xs == [xs[0]] + xs[1..]
  {
  }

  /** A list behind its first two elements. */
  lemma Cons2<T>(x: T, y: T, rest: seq<T>)
    ensures var xs := [x, y] + rest; xs[0] == x && xs[1] == y && xs[2..] == rest
    ensures rest != [] ==> ([x, y] + rest)[2] == rest[0]
  {
  }

  lemma Snoc<T>(xs: seq<T>, i: nat)
    requires i < |xs|
    ensures xs[..i + 1] == xs[..i] + [xs[i]]
  {
  }

  lemma From<T>(xs: seq<T>, i: nat)
    requires i < |xs|
    ensures xs[i..] != [] && xs[i..][0] == xs[i] && xs[i..][1..] == xs[i + 1..]
  {
  }

  /** A slice of what is left behind `k` elements. */
  lemma SliceBehind<T>(xs: seq<T>, k: nat, a: nat, b: nat)
    requires k <= |xs| && a <= b <= |xs| - k
    ensures xs[k..][a..b] == xs[k + a..k + b]
  {
  }

  lemma SplitBehind<T>(xs: seq<T>, k: nat, a: nat)
    requires k + a <= |xs|
    ensures xs[k..][..a] == xs[k..k + a] && xs[k..][a..] == xs[k + a..]
  {
  }

  lemma TailOfTake<T>(xs: seq<T>, b: nat)
    requires 0 < b <= |xs|
    ensures xs[0..b][1..] == xs[1..][0..b - 1]
  {
  }

  /** A map that grew by one key. */
  lemma Grown<K, V>(small: map<K, V>, large: map<K, V>, k: K, v: V)
    requires large.Keys == small.Keys + {k} && k in large && large[k] == v
    requires forall q :: q in small && q != k ==> large[q] == small[q]
    ensures large == small[k := v]
  {
  }

  /** Text cut at a mark. */
  lemma Cut<T>(a: seq<T>, x: T, b: seq<T>)
    ensures var s := a + ([x] + b); s[|a| + 1..] == b && s[..|a|] == a
  {
  }
}
