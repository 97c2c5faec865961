/** Shared vocabulary: options, fixed-width numbers and sequence helpers. */
module Prelude {

  datatype Option<+T> = None | Some(value: T)

  datatype Result<+T, +E> = Success(value: T) | Failure(error: E)

  type Byte = x: int | 0 <= x < 256

  const U32_MAX: int := 0xFFFF_FFFF

  type U32 = x: int | 0 <= x <= U32_MAX

  /** An IPv4 address as its big-endian 32-bit value. */
  type Ip = U32

  const UNSPECIFIED: Ip := 0

  /** Seconds since the epoch. */
  type UnixTime = nat

  ghost predicate NoDuplicates<T>(xs: seq<T>) {
    forall i, j :: 0 <= i < j < |xs| ==> xs[i] != xs[j]
  }

  /** The elements of `xs` that satisfy `keep`, in order. */
  function Filter<T(!new)>(keep: T -> bool, xs: seq<T>): (r: seq<T>)
    ensures forall x :: x in r <==> x in xs && keep(x)
    ensures NoDuplicates(xs) ==> NoDuplicates(r)
    ensures |r| <= |xs|
  {
    if xs == [] then []
    else
      var rest := Filter(keep, xs[1..]);
      if keep(xs[0]) then [xs[0]] + rest else rest
  }

  /** What is kept stays in order. */
  lemma {:induction false} FilterKeepsOrder<T(!new)>(keep: T -> bool, xs: seq<T>, m: nat, n: nat)
    returns (i: nat, j: nat)
    requires m < n < |Filter(keep, xs)|
    ensures i < j < |xs| && xs[i] == Filter(keep, xs)[m] && xs[j] == Filter(keep, xs)[n]
  {
    var rest := Filter(keep, xs[1..]);
    if keep(xs[0]) && m == 0 {
      i := 0;
      assert rest[n - 1] in rest;
      j :| 0 <= j < |xs[1..]| && xs[1..][j] == rest[n - 1];
      j := j + 1;
    } else {
      var skip := if keep(xs[0]) then 1 else 0;
      i, j := FilterKeepsOrder(keep, xs[1..], m - skip, n - skip);
      i, j := i + 1, j + 1;
    }
  }

  lemma {:induction false} NoDuplicatesConcat<T>(xs: seq<T>, ys: seq<T>)
    requires NoDuplicates(xs) && NoDuplicates(ys)
    requires forall x :: x in xs ==> x !in ys
    ensures NoDuplicates(xs + ys)
  {
    forall i, j | 0 <= i < j < |xs + ys|
      ensures (xs + ys)[i] != (xs + ys)[j]
    {
      if i < |xs| <= j {
        assert xs[i] in xs && ys[j - |xs|] in ys;
      }
    }
  }

  function ToSet<T>(xs: seq<T>): set<T> {
    set x | x in xs
  }

  lemma {:induction false} NoDuplicatesCardinality<T>(xs: seq<T>)
    requires NoDuplicates(xs)
    ensures |ToSet(xs)| == |xs|
  {
    if xs == [] {
    } else {
      var last := |xs| - 1;
      NoDuplicatesCardinality(xs[..last]);
      assert xs == xs[..last] + [xs[last]];
      assert ToSet(xs) == ToSet(xs[..last]) + {xs[last]};
      assert xs[last] !in xs[..last];
    }
  }

  lemma {:induction false} SubsetCardinality<T>(a: set<T>, b: set<T>)
    requires a <= b
    ensures |a| <= |b|
    ensures |a| == |b| ==> a == b
  {
    if a == {} {
    } else {
      var x :| x in a;
      SubsetCardinality(a - {x}, b - {x});
      assert a == (a - {x}) + {x} && b == (b - {x}) + {x};
    }
  }
}
