/** Removal of the first occurrence of an id from an ordered id list, as
    the scheduler does when it strips a topic from a block's active list. */
module Seqs {

  /** No id appears twice in the list. */
  ghost predicate NoDup(xs: seq<nat>) {
    forall i, j :: 0 <= i < j < |xs| ==> xs[i] != xs[j]
  }

  /** Position of the first occurrence of `x`. */
  function FirstIndex(xs: seq<nat>, x: nat): (i: nat)
    requires x in xs
    ensures i < |xs| && xs[i] == x
    ensures forall j :: 0 <= j < i ==> xs[j] != x
  {
    if xs[0] == x then 0 else 1 + FirstIndex(xs[1..], x)
  }

  /** `xs` with its first occurrence of `x` cut out; `xs` itself when `x`
      does not occur. */
  function RemoveFirst(xs: seq<nat>, x: nat): (r: seq<nat>)
    ensures x !in xs ==> r == xs
    ensures x in xs ==> |r| == |xs| - 1
    ensures x in xs ==> multiset(r) == multiset(xs) - multiset{x}
    ensures forall y :: y != x ==> (y in r <==> y in xs)
    ensures x in xs ==>
      var i := FirstIndex(xs, x);
      (forall j :: 0 <= j < i ==> r[j] == xs[j]) &&
      (forall j :: i <= j < |r| ==> r[j] == xs[j + 1])
  {
    if x in xs then
      var i := FirstIndex(xs, x);
      assert xs == xs[..i] + [xs[i]] + xs[i + 1..];
      xs[..i] + xs[i + 1..]
    else xs
  }

  /** Cutting one element out of a duplicate-free list keeps it duplicate-free
      and leaves no copy of that element behind. */
  lemma RemoveFirstNoDup(xs: seq<nat>, x: nat)
    requires NoDup(xs)
    ensures NoDup(RemoveFirst(xs, x))
    ensures x !in RemoveFirst(xs, x)
  {
    var r := RemoveFirst(xs, x);
    if x in xs {
      var i := FirstIndex(xs, x);
      forall a, b | 0 <= a < b < |r|
        ensures r[a] != r[b]
      {
        var a' := if a < i then a else a + 1;
        var b' := if b < i then b else b + 1;
        assert r[a] == xs[a'] && r[b] == xs[b'] && a' < b';
      }
    }
  }

  /** Appending a fresh element keeps a list duplicate-free. */
  lemma AppendFreshNoDup(xs: seq<nat>, x: nat)
    requires NoDup(xs) && x !in xs
    ensures NoDup(xs + [x])
  {
  }
}
