/** Distributing a constructed type's generic arguments over the segments of
    its nested name by per-segment arity. The arities come from metadata and
    are not trusted: they are machine words whose sum may overflow. */
module SegmentArgs {
  import opened Options
  import opened Decimals
  import Lists

  function SaturatingAdd(a: nat, b: nat): nat {
    if a + b > USIZE_MAX then USIZE_MAX else a + b
  }

  /** The fold both consumers use: it stops growing at the largest word. */
  function ArityTotal(arities: seq<nat>, acc: nat): nat {
    if arities == [] then acc else ArityTotal(arities[1..], SaturatingAdd(acc, arities[0]))
  }

  /** The guard of the distributing branch, in `type_enc` and `render_nested` alike. */
  predicate Distributable(segments: nat, arities: seq<nat>, args: nat) {
    |arities| == segments && ArityTotal(arities, 0) == args
  }

  function Sum(arities: seq<nat>): nat {
    if arities == [] then 0 else arities[0] + Sum(arities[1..])
  }

  lemma {:induction false} TotalSaturates(arities: seq<nat>, acc: nat)
    requires acc <= USIZE_MAX
    ensures ArityTotal(arities, acc) == SaturatingAdd(acc, Sum(arities))
    decreases |arities|
  {
    if arities != [] { TotalSaturates(arities[1..], SaturatingAdd(acc, arities[0])); }
  }

  /** A list's length is below the largest word, so the saturating guard holds
      exactly when the true sum is right: overflow never passes for a match. */
  lemma GuardIsExact(segments: nat, arities: seq<nat>, args: nat)
    requires args < USIZE_MAX
    ensures Distributable(segments, arities, args) <==> |arities| == segments && Sum(arities) == args
  {
    TotalSaturates(arities, 0);
  }

  // ---- the slices ----

  function Slices<T>(arities: seq<nat>, args: seq<T>): (r: seq<seq<T>>)
    requires Sum(arities) == |args|
    ensures |r| == |arities|
  {
    if arities == [] then [] else [args[..arities[0]]] + Slices(arities[1..], args[arities[0]..])
  }

  function Flatten<T>(parts: seq<seq<T>>): seq<T> {
    if parts == [] then [] else parts[0] + Flatten(parts[1..])
  }

  /** Every argument is placed exactly once, in order, and each segment gets as
      many as its arity says. */
  lemma {:induction false} SlicesPlaceEachOnce<T>(arities: seq<nat>, args: seq<T>)
    requires Sum(arities) == |args|
    ensures Flatten(Slices(arities, args)) == args
    ensures forall i :: 0 <= i < |arities| ==> |Slices(arities, args)[i]| == arities[i]
    decreases |arities|
  {
    if arities != [] {
      SlicesPlaceEachOnce(arities[1..], args[arities[0]..]);
      assert args == args[..arities[0]] + args[arities[0]..];
    }
  }

  lemma {:induction false} SumOneMore(arities: seq<nat>, i: nat)
    requires i < |arities|
    ensures Sum(arities[..i + 1]) == Sum(arities[..i]) + arities[i]
    decreases i
  {
    if i > 0 {
      SumOneMore(arities[1..], i - 1);
      assert arities[..i][1..] == arities[1..][..i - 1] && arities[..i + 1][1..] == arities[1..][..i];
    }
  }

  /** Where each slice lies: right behind the slices before it. */
  lemma {:induction false} SliceAt<T>(arities: seq<nat>, args: seq<T>, i: nat)
    requires Sum(arities) == |args| && i < |arities|
    ensures Sum(arities[..i]) + arities[i] <= |args|
    ensures Slices(arities, args)[i] == args[Sum(arities[..i])..Sum(arities[..i]) + arities[i]]
    decreases i
  {
    if i > 0 {
      var k, tail := arities[0], arities[1..];
      SliceAt(tail, args[k..], i - 1);
      assert arities[..i][0] == k && arities[..i][1..] == tail[..i - 1] && tail[i - 1] == arities[i];
      Lists.SliceBehind(args, k, Sum(tail[..i - 1]), Sum(tail[..i - 1]) + arities[i]);
      assert Slices(arities, args)[i] == Slices(tail, args[k..])[i - 1];
    }
  }

  /** The saturating fold as the loop it is. */
  method TotalArity(arities: seq<nat>) returns (total: nat)
    ensures total == ArityTotal(arities, 0)
  {
    total := 0;
    var i := 0;
    while i < |arities|
      invariant 0 <= i <= |arities|
      invariant ArityTotal(arities[i..], total) == ArityTotal(arities, 0)
    {
      Lists.From(arities, i);
      total := SaturatingAdd(total, arities[i]);
      i := i + 1;
    }
  }

  /** The loop with a running offset: no slice ever leaves the list. */
  method Distribute<T>(segments: nat, arities: seq<nat>, args: seq<T>) returns (slices: Option<seq<seq<T>>>)
    requires |args| < USIZE_MAX
    ensures slices.Some? <==> |arities| == segments && Sum(arities) == |args|
    ensures slices.Some? ==> slices.value == Slices(arities, args)
  {
    var total := TotalArity(arities);
    GuardIsExact(segments, arities, |args|);
    if |arities| != segments || total != |args| {
      return None;
    }
    var cut: seq<seq<T>> := [];
    var next := 0;
    var i := 0;
    assert arities[..0] == [];
    while i < |arities|
      invariant 0 <= i <= |arities| && next == Sum(arities[..i])
      invariant cut == Slices(arities, args)[..i]
    {
      SliceAt(arities, args, i);
      SumOneMore(arities, i);
      cut := cut + [args[next..next + arities[i]]];
      next := next + arities[i];
      i := i + 1;
    }
    slices := Some(cut);
  }
}
