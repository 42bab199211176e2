/** Sequence helpers shared by the insertion-ordered collections of the model. */
module Seqs {

  predicate NoDuplicates<T(==)>(xs: seq<T>) {
    forall i, j :: 0 <= i < j < |xs| ==> xs[i] != xs[j]
  }

  /** Position of the first occurrence of `x` in `xs`. */
  function FirstIndex<T(==)>(xs: seq<T>, x: T): (i: nat)
    requires x in xs
    ensures i < |xs| && xs[i] == x && x !in xs[..i]
  {
    if xs[0] == x then 0
    else
      assert x in xs[1..];
      var k := FirstIndex(xs[1..], x);
      assert xs[..k + 1] == [xs[0]] + xs[1..][..k];
      1 + k
  }

  /** The first occurrence is the only position with no earlier occurrence. */
  lemma FirstIndexUnique<T>(xs: seq<T>, x: T, i: nat)
    requires i < |xs| && xs[i] == x && x !in xs[..i]
    ensures FirstIndex(xs, x) == i
  {
    var k := FirstIndex(xs, x);
    assert xs[..i] <= xs && xs[..k] <= xs;
  }

  /** Appending an element moves no first occurrence that is already there. */
  lemma FirstIndexSnoc<T>(xs: seq<T>, y: T, x: T)
    requires x in xs
    ensures x in xs + [y] && FirstIndex(xs + [y], x) == FirstIndex(xs, x)
  {
    var i := FirstIndex(xs, x);
    assert (xs + [y])[..i] == xs[..i];
    FirstIndexUnique(xs + [y], x, i);
  }

  /**
   * The elements of `xs` without repetitions, each at the place where it
   * first occurs: the key order of a JavaScript `Map` or `Set` filled from `xs`.
   */
  function Distinct<T(==)>(xs: seq<T>): (r: seq<T>)
    ensures NoDuplicates(r)
    ensures forall i :: 0 <= i < |r| ==> r[i] in xs
    ensures forall i :: 0 <= i < |xs| ==> xs[i] in r
    ensures |r| <= |xs|
  {
    if xs == [] then []
    else
      var init := xs[..|xs| - 1];
      var d := Distinct(init);
      var x := xs[|xs| - 1];
      assert xs == init + [x];
      if x in d then d else d + [x]
  }

  lemma DistinctMembership<T>(xs: seq<T>, x: T)
    ensures x in Distinct(xs) <==> x in xs
  {
    var d := Distinct(xs);
    if x in d {
      var i :| 0 <= i < |d| && d[i] == x;
    }
    if x in xs {
      var i :| 0 <= i < |xs| && xs[i] == x;
    }
  }

  /** Adding one element to the input either leaves the result alone or appends it. */
  lemma DistinctSnoc<T>(xs: seq<T>, x: T)
    ensures Distinct(xs + [x]) == if x in xs then Distinct(xs) else Distinct(xs) + [x]
  {
    assert (xs + [x])[..|xs + [x]| - 1] == xs;
  }

  /** Distinct keeps first-appearance order. */
  lemma {:induction false} DistinctFirstAppearance<T>(xs: seq<T>, i: nat, j: nat)
    requires i < j < |Distinct(xs)|
    ensures Distinct(xs)[i] in xs && Distinct(xs)[j] in xs
    ensures FirstIndex(xs, Distinct(xs)[i]) < FirstIndex(xs, Distinct(xs)[j])
  {
    var init := xs[..|xs| - 1];
    var x := xs[|xs| - 1];
    assert xs == init + [x];
    var d := Distinct(init);
    if x in d {
      assert Distinct(xs) == d;
      DistinctFirstAppearance(init, i, j);
      FirstIndexSnoc(init, x, d[i]);
      FirstIndexSnoc(init, x, d[j]);
    } else {
      assert Distinct(xs) == d + [x];
      if j < |d| {
        DistinctFirstAppearance(init, i, j);
        FirstIndexSnoc(init, x, d[i]);
        FirstIndexSnoc(init, x, d[j]);
      } else {
        assert d[i] in init;
        FirstIndexSnoc(init, x, d[i]);
        assert xs[..|init|] == init;
        FirstIndexUnique(xs, x, |init|);
      }
    }
  }

  /** A non-empty sequence with a single value has that value as its only distinct element. */
  lemma DistinctOfConstant<T>(xs: seq<T>, k: T)
    requires |xs| > 0 && forall i :: 0 <= i < |xs| ==> xs[i] == k
    ensures Distinct(xs) == [k]
  {
    var d := Distinct(xs);
    assert k in xs by { assert xs[0] == k; }
    assert k in d;
    forall i | 0 <= i < |d| ensures d[i] == k {
      assert d[i] in xs;
    }
  }
}
