/**
 * Generic sequence operations the extractor's output is built from: the
 * concatenation of the pieces produced for each element, the elements that
 * pass a test, and an element-wise map.
 */
module Seqs {

  /** The pieces `f(x)` of the elements `x` of `xs`, concatenated in order. */
  function Concat<T, U>(f: T -> seq<U>, xs: seq<T>): seq<U> {
    if xs == [] then [] else Concat(f, xs[..|xs| - 1]) + f(xs[|xs| - 1])
  }

  /** The elements of `xs` that pass `keep`, in their order in `xs`. */
  function Filter<T>(keep: T -> bool, xs: seq<T>): seq<T> {
    if xs == [] then []
    else Filter(keep, xs[..|xs| - 1]) + (if keep(xs[|xs| - 1]) then [xs[|xs| - 1]] else [])
  }

  function Map<A, B>(h: A -> B, xs: seq<A>): seq<B> {
    seq(|xs|, i requires 0 <= i < |xs| => h(xs[i]))
  }

  lemma ConcatPrefix<T, U>(f: T -> seq<U>, xs: seq<T>, j: nat)
    requires j < |xs|
    ensures Concat(f, xs[..j + 1]) == Concat(f, xs[..j]) + f(xs[j])
  {
    assert xs[..j + 1][..j] == xs[..j];
  }

  lemma {:induction false} ConcatAppend<T, U>(f: T -> seq<U>, p: seq<T>, q: seq<T>)
    ensures Concat(f, p + q) == Concat(f, p) + Concat(f, q)
  {
    if q == [] {
      assert p + q == p;
    } else {
      var init, last := q[..|q| - 1], q[|q| - 1];
      ConcatAppend(f, p, init);
      assert (p + q)[..|p + q| - 1] == p + init;
      assert (p + q)[|p + q| - 1] == last;
    }
  }

  /** When every element contributes exactly two pieces, element `k`'s pieces
      sit at positions `2k` and `2k + 1`. */
  lemma {:induction false} ConcatPairs<T, U>(f: T -> seq<U>, xs: seq<T>)
    requires forall x :: |f(x)| == 2
    ensures |Concat(f, xs)| == 2 * |xs|
    ensures forall k :: 0 <= k < |xs| ==>
      Concat(f, xs)[2 * k] == f(xs[k])[0] && Concat(f, xs)[2 * k + 1] == f(xs[k])[1]
  {
    if xs != [] {
      var init, last := xs[..|xs| - 1], xs[|xs| - 1];
      ConcatPairs(f, init);
      var e, e0 := Concat(f, xs), Concat(f, init);
      assert e == e0 + f(last);
      forall k | 0 <= k < |xs|
        ensures e[2 * k] == f(xs[k])[0] && e[2 * k + 1] == f(xs[k])[1]
      {
        if k < |init| {
          assert xs[k] == init[k];
          assert e[2 * k] == e0[2 * k] && e[2 * k + 1] == e0[2 * k + 1];
        }
      }
    }
  }

  /** Position `k` of a concatenation lies in the pieces of one element `i`,
      at offset `j` past the pieces of the elements before it. */
  lemma {:induction false} ConcatIndex<T, U>(f: T -> seq<U>, xs: seq<T>, k: nat) returns (i: nat, j: nat)
    requires k < |Concat(f, xs)|
    ensures i < |xs| && j < |f(xs[i])|
    ensures k == |Concat(f, xs[..i])| + j && Concat(f, xs)[k] == f(xs[i])[j]
  {
    var init, last := xs[..|xs| - 1], xs[|xs| - 1];
    var c0 := Concat(f, init);
    assert Concat(f, xs) == c0 + f(last);
    if k < |c0| {
      i, j := ConcatIndex(f, init, k);
      assert xs[..i] == init[..i] && xs[i] == init[i];
    } else {
      i, j := |xs| - 1, k - |c0|;
      assert xs[..i] == init;
    }
  }

  /** Every piece of an element's output is in the concatenation. */
  lemma ConcatMember<T, U>(f: T -> seq<U>, xs: seq<T>, i: nat, x: U)
    requires i < |xs| && x in f(xs[i])
    ensures x in Concat(f, xs)
  {
    assert xs == xs[..i + 1] + xs[i + 1..];
    ConcatAppend(f, xs[..i + 1], xs[i + 1..]);
    ConcatPrefix(f, xs, i);
  }

  /** The pieces of an earlier element all come before those of a later one. */
  lemma ConcatLengthMono<T, U>(f: T -> seq<U>, xs: seq<T>, i: nat, i2: nat)
    requires i < i2 <= |xs|
    ensures |Concat(f, xs[..i])| + |f(xs[i])| <= |Concat(f, xs[..i2])|
  {
    ConcatPrefix(f, xs, i);
    assert xs[..i2] == xs[..i + 1] + xs[i + 1..i2];
    ConcatAppend(f, xs[..i + 1], xs[i + 1..i2]);
  }

  /** Positions of a concatenation are ordered as their origins are: by
      element, then by offset within the element's pieces. */
  lemma ConcatIndexOrder<T, U>(f: T -> seq<U>, xs: seq<T>, i1: nat, j1: nat, i2: nat, j2: nat)
    requires i1 < |xs| && i2 < |xs| && j1 < |f(xs[i1])| && j2 < |f(xs[i2])|
    requires |Concat(f, xs[..i1])| + j1 < |Concat(f, xs[..i2])| + j2
    ensures i1 < i2 || (i1 == i2 && j1 < j2)
  {
    if i2 < i1 {
      ConcatLengthMono(f, xs, i2, i1);
    }
  }

  /** Concatenating pieces that are themselves concatenations is one flat
      concatenation. */
  lemma {:induction false} ConcatConcat<A, B, U>(f: A -> seq<U>, g: B -> seq<U>, h: A -> seq<B>, xs: seq<A>)
    requires forall x :: f(x) == Concat(g, h(x))
    ensures Concat(f, xs) == Concat(g, Concat(h, xs))
  {
    if xs != [] {
      var init, last := xs[..|xs| - 1], xs[|xs| - 1];
      ConcatConcat(f, g, h, init);
      ConcatAppend(g, Concat(h, init), h(last));
    }
  }

  lemma {:induction false} FilterAppend<T>(keep: T -> bool, p: seq<T>, q: seq<T>)
    ensures Filter(keep, p + q) == Filter(keep, p) + Filter(keep, q)
  {
    if q == [] {
      assert p + q == p;
    } else {
      var init, last := q[..|q| - 1], q[|q| - 1];
      FilterAppend(keep, p, init);
      assert (p + q)[..|p + q| - 1] == p + init;
      assert (p + q)[|p + q| - 1] == last;
    }
  }

  lemma {:induction false} FilterMember<T>(keep: T -> bool, xs: seq<T>, x: T)
    ensures x in Filter(keep, xs) <==> x in xs && keep(x)
  {
    if xs != [] {
      var init, last := xs[..|xs| - 1], xs[|xs| - 1];
      FilterMember(keep, init, x);
      assert xs == init + [last];
    }
  }

  lemma MapAppend<A, B>(h: A -> B, p: seq<A>, q: seq<A>)
    ensures Map(h, p + q) == Map(h, p) + Map(h, q)
  {
  }

  /** Mapping a prefix, then the slice after it, maps the longer prefix. */
  lemma MapSlices<A, B>(h: A -> B, xs: seq<A>, a: nat, b: nat)
    requires a <= b <= |xs|
    ensures Map(h, xs[..b]) == Map(h, xs[..a]) + Map(h, xs[a..b])
  {
    assert xs[..b] == xs[..a] + xs[a..b];
    MapAppend(h, xs[..a], xs[a..b]);
  }

  /** Producing `g(x)` for every element, where `g` yields `f(h(x))` for the
      elements that pass `keep` and nothing for the others, is the same as
      first keeping, then mapping by `h`, then concatenating the `f` pieces. */
  lemma {:induction false} ConcatFilterMap<A, B, U>(g: A -> seq<U>, f: B -> seq<U>, keep: A -> bool, h: A -> B, xs: seq<A>)
    requires forall x :: g(x) == if keep(x) then f(h(x)) else []
    ensures Concat(g, xs) == Concat(f, Map(h, Filter(keep, xs)))
  {
    if xs != [] {
      var init, last := xs[..|xs| - 1], xs[|xs| - 1];
      ConcatFilterMap(g, f, keep, h, init);
      var kept := if keep(last) then [last] else [];
      assert Filter(keep, xs) == Filter(keep, init) + kept;
      MapAppend(h, Filter(keep, init), kept);
      ConcatAppend(f, Map(h, Filter(keep, init)), Map(h, kept));
      if keep(last) {
        assert Map(h, kept) == [] + [h(last)];
      } else {
        assert Map(h, kept) == [];
      }
    }
  }
}
