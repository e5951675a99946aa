/** Facts about sequences that several models use. */
module Sequences {

  predicate Distinct<T(==)>(q: seq<T>) {
    forall i, j :: 0 <= i < j < |q| ==> q[i] != q[j]
  }

  /** Distinct values drawn from a set are no more than the set has. */
  lemma {:induction false} DistinctFits<T>(q: seq<T>, among: set<T>)
    requires Distinct(q) && forall i :: 0 <= i < |q| ==> q[i] in among
    ensures |q| <= |among|
  {
    if q != [] {
      var last := q[|q| - 1];
      DistinctFits(q[..|q| - 1], among - {last});
    }
  }

  /** The position of a value that occurs. */
  function IndexOf<T(==)>(q: seq<T>, x: T): (i: nat)
    requires x in q
    ensures i < |q| && q[i] == x
    ensures forall j :: 0 <= j < i ==> q[j] != x
  {
    if q[0] == x then 0 else 1 + IndexOf(q[1..], x)
  }

  /** The values of a sequence, each at its first occurrence. */
  function Firsts<T(==)>(q: seq<T>): seq<T> {
    if q == [] then [] else
      var before := Firsts(q[..|q| - 1]);
      if q[|q| - 1] in before then before else before + [q[|q| - 1]]
  }

  lemma {:induction false} FirstsAreDistinct<T(!new)>(q: seq<T>)
    ensures Distinct(Firsts(q))
    ensures forall x :: x in Firsts(q) <==> x in q
    decreases |q|
  {
    if q != [] {
      FirstsAreDistinct(q[..|q| - 1]);
    }
  }

  /** A sequence without its element `i`. */
  function Cut<T>(s: seq<T>, i: nat): (r: seq<T>)
    requires i < |s|
    ensures |r| == |s| - 1
  {
    s[..i] + s[i + 1..]
  }
}
