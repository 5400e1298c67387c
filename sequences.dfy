/**
 * Concatenating a list of lists, the shape of every "append what each
 * element contributes" loop and comprehension in the scanner.
 */
module Sequences {

  /** `f` applied to each element. */
  function Map<S, T>(f: S -> T, xs: seq<S>): (r: seq<T>)
    ensures |r| == |xs| && forall i :: 0 <= i < |xs| ==> r[i] == f(xs[i])
  {
    seq(|xs|, i requires 0 <= i < |xs| => f(xs[i]))
  }

  lemma MapAppend<S, T>(f: S -> T, xs: seq<S>, ys: seq<S>)
    ensures Map(f, xs + ys) == Map(f, xs) + Map(f, ys)
  {
    forall i | 0 <= i < |xs| + |ys|
      ensures Map(f, xs + ys)[i] == (Map(f, xs) + Map(f, ys))[i]
    {
      if i < |xs| {
        assert (xs + ys)[i] == xs[i];
      } else {
        assert (xs + ys)[i] == ys[i - |xs|];
      }
    }
  }

  /** The lists one after the other. */
  function Flatten<T>(xss: seq<seq<T>>): seq<T>
    decreases |xss|
  {
    if xss == [] then [] else Flatten(xss[..|xss| - 1]) + xss[|xss| - 1]
  }

  /** Taking one more list appends it. */
  lemma FlattenStep<T>(xss: seq<seq<T>>, i: nat)
    requires i < |xss|
    ensures Flatten(xss[..i + 1]) == Flatten(xss[..i]) + xss[i]
  {
    assert xss[..i + 1][..i] == xss[..i];
  }

  lemma {:induction false} FlattenAppend<T>(xss: seq<seq<T>>, yss: seq<seq<T>>)
    ensures Flatten(xss + yss) == Flatten(xss) + Flatten(yss)
    decreases |yss|
  {
    if yss == [] {
      assert xss + yss == xss;
    } else {
      var n := |yss| - 1;
      assert (xss + yss)[..|xss + yss| - 1] == xss + yss[..n];
      FlattenAppend(xss, yss[..n]);
    }
  }

  /** The flattening of a prefix is a prefix of the flattening. */
  lemma {:induction false} FlattenPrefix<T>(xss: seq<seq<T>>, m: nat)
    requires m <= |xss|
    ensures Flatten(xss[..m]) <= Flatten(xss)
    decreases |xss|
  {
    if m < |xss| {
      var n := |xss| - 1;
      FlattenPrefix(xss[..n], m);
      assert xss[..n][..m] == xss[..m];
    } else {
      assert xss[..m] == xss;
    }
  }

  /** An element of the flattening is an element of one of the lists, and conversely. */
  lemma {:induction false} FlattenMembership<T>(xss: seq<seq<T>>, x: T)
    ensures x in Flatten(xss) <==> exists i :: 0 <= i < |xss| && x in xss[i]
    decreases |xss|
  {
    if xss != [] {
      var n := |xss| - 1;
      FlattenMembership(xss[..n], x);
      forall i | 0 <= i < n ensures xss[..n][i] == xss[i] {
      }
    }
  }

  /** Lists of at most k elements flatten to at most k per list. */
  lemma {:induction false} FlattenLength<T>(xss: seq<seq<T>>, k: nat)
    requires forall i :: 0 <= i < |xss| ==> |xss[i]| <= k
    ensures |Flatten(xss)| <= k * |xss|
    decreases |xss|
  {
    if xss != [] {
      FlattenLength(xss[..|xss| - 1], k);
    }
  }

  /** When every list has k elements, element j of list i sits at k * i + j. */
  lemma {:induction false} FlattenIndex<T>(xss: seq<seq<T>>, k: nat, i: nat, j: nat)
    requires forall t :: 0 <= t < |xss| ==> |xss[t]| == k
    requires i < |xss| && j < k
    ensures |Flatten(xss)| == k * |xss|
    ensures k * i + j < |Flatten(xss)| && Flatten(xss)[k * i + j] == xss[i][j]
    decreases |xss|
  {
    var n := |xss| - 1;
    var front := xss[..n];
    assert Flatten(xss) == Flatten(front) + xss[n];
    FlattenLengthExact(front, k);
    MulStep(k, n);
    if i < n {
      FlattenIndex(front, k, i, j);
      MulBelow(k, i, n);
      assert Flatten(xss)[k * i + j] == Flatten(front)[k * i + j];
    } else {
      assert Flatten(xss)[k * n + j] == xss[n][j];
    }
  }

  lemma {:induction false} FlattenLengthExact<T>(xss: seq<seq<T>>, k: nat)
    requires forall t :: 0 <= t < |xss| ==> |xss[t]| == k
    ensures |Flatten(xss)| == k * |xss|
    decreases |xss|
  {
    if xss != [] {
      var n := |xss| - 1;
      FlattenLengthExact(xss[..n], k);
      MulStep(k, n);
    }
  }

  lemma MulStep(k: nat, n: nat)
    ensures k * (n + 1) == k * n + k
  {
  }

  lemma {:induction false} MulBelow(k: nat, i: nat, n: nat)
    requires i < n
    ensures k * i + k <= k * n
    decreases n
  {
    MulStep(k, n - 1);
    if i < n - 1 {
      MulBelow(k, i, n - 1);
    }
  }

  /** Appending one element to a list that extends a prefix of `xs` by the next element of `xs`. */
  lemma TakeOneMore<T>(front: seq<T>, xs: seq<T>, j: nat, x: T)
    requires j < |xs| && x == xs[j]
    ensures front + xs[..j] + [x] == front + xs[..j + 1]
  {
    assert xs[..j + 1] == xs[..j] + [x];
  }

  /** A prefix stays a prefix when more is appended. */
  lemma PrefixOfAppend<T>(p: seq<T>, xs: seq<T>, ys: seq<T>)
    requires p <= xs
    ensures p <= xs + ys
  {
    assert (xs + ys)[..|p|] == xs[..|p|];
  }
}
