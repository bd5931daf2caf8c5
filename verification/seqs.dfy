/** Generic facts about sequences used by the column bookkeeping. */
module Seqs {

  /** No element occurs twice. */
  predicate Distinct<T(==)>(s: seq<T>) {
    forall i, j :: 0 <= i < j < |s| ==> s[i] != s[j]
  }

  /** The set of elements of a sequence. */
  function Elements<T(!new)>(s: seq<T>): (r: set<T>)
    ensures forall x :: x in r <==> x in s
  {
    set x | x in s
  }

  /** The elements of `s` satisfying `p`, in their original order. */
  function Filter<T(!new)>(p: T -> bool, s: seq<T>): (r: seq<T>)
    ensures forall x :: x in r <==> x in s && p(x)
    ensures |r| <= |s|
  {
    if |s| == 0 then []
    else
      var n := |s| - 1;
      assert forall j :: 0 <= j < n ==> s[..n][j] == s[j];
      Filter(p, s[..n]) + (if p(s[n]) then [s[n]] else [])
  }

  /** Filtering keeps elements unique. */
  lemma {:induction false} FilterDistinct<T(!new)>(p: T -> bool, s: seq<T>)
    requires Distinct(s)
    ensures Distinct(Filter(p, s))
  {
    if |s| > 0 {
      var n := |s| - 1;
      assert Distinct(s[..n]);
      FilterDistinct(p, s[..n]);
      assert s[n] !in s[..n];
    }
  }

  /** Position `1 + j` of a list made of a head, a middle run and a tail run is in the middle. */
  lemma MidAt<T>(all: seq<T>, head: T, mid: seq<T>, tail: seq<T>, j: nat)
    requires all == [head] + mid + tail && j < |mid|
    ensures |all| == 1 + |mid| + |tail| && all[0] == head && all[1 + j] == mid[j]
  {
  }

  /** Position `1 + |mid| + j` of such a list is in the tail. */
  lemma TailAt<T>(all: seq<T>, head: T, mid: seq<T>, tail: seq<T>, j: nat)
    requires all == [head] + mid + tail && j < |tail|
    ensures |all| == 1 + |mid| + |tail| && all[1 + |mid| + j] == tail[j]
  {
  }
}
