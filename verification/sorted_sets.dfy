/** Python's `sorted(s)` for a finite set of non-negative integers (database ids). */
module SortedSets {

  predicate StrictlyIncreasing(s: seq<int>) {
    forall i, j :: 0 <= i < j < |s| ==> s[i] < s[j]
  }

  /** A slice of a strictly increasing list is strictly increasing. */
  lemma SliceIncreasing(s: seq<int>, lo: nat, hi: nat)
    requires StrictlyIncreasing(s) && lo <= hi <= |s|
    ensures StrictlyIncreasing(s[lo..hi])
  {
    var t := s[lo..hi];
    forall i, j | 0 <= i < j < |t|
      ensures t[i] < t[j]
    {
      assert t[i] == s[lo + i] && t[j] == s[lo + j];
    }
  }

  /** Every non-empty finite set of ids has a least element. */
  lemma {:induction false} LeastOf(s: set<nat>) returns (m: nat)
    requires s != {}
    ensures m in s && forall y :: y in s ==> m <= y
    decreases |s|
  {
    var x := Pick(s);
    var rest := s - {x};
    if rest == {} {
      m := x;
    } else {
      var m' := LeastOf(rest);
      m := if x < m' then x else m';
    }
    forall y | y in s
      ensures m <= y
    {
      if y != x {
        assert y in rest;
      }
    }
  }

  lemma HasMin(s: set<nat>)
    requires s != {}
    ensures exists m :: m in s && forall y :: y in s ==> m <= y
  {
    var m := LeastOf(s);
  }

  /** Some element of a non-empty set. */
  lemma Pick(s: set<nat>) returns (x: nat)
    requires s != {}
    ensures x in s
  {
    x :| x in s;
  }

  /** The least element of a non-empty set. */
  function Min(s: set<nat>): (m: nat)
    requires s != {}
    ensures m in s && forall y :: y in s ==> m <= y
  {
    HasMin(s);
    var m :| m in s && forall y :: y in s ==> m <= y;
    m
  }

  /** The elements of `s` in ascending order. */
  function Sorted(s: set<nat>): (r: seq<nat>)
    ensures |r| == |s|
    ensures StrictlyIncreasing(r)
    ensures forall x :: x in s <==> x in r
    decreases |s|
  {
    if s == {} then []
    else
      var m := Min(s);
      var rest := Sorted(s - {m});
      [m] + rest
  }

  /** The ids of a list, as a set. */
  function Elems(s: seq<nat>): set<nat> {
    if |s| == 0 then {} else {s[0]} + Elems(s[1..])
  }

  lemma {:induction false} ElemsIn(s: seq<nat>, x: nat)
    ensures x in Elems(s) <==> x in s
    decreases |s|
  {
    if |s| > 0 {
      ElemsIn(s[1..], x);
      assert s == [s[0]] + s[1..];
    }
  }

  lemma ElemsAll(s: seq<nat>)
    ensures forall x :: x in Elems(s) <==> x in s
  {
    forall x {
      ElemsIn(s, x);
    }
  }

  /** A strictly increasing list has as many distinct elements as entries. */
  lemma {:induction false} DistinctCount(s: seq<nat>)
    requires StrictlyIncreasing(s)
    ensures |Elems(s)| == |s|
    decreases |s|
  {
    if |s| > 0 {
      var t := s[1..];
      SliceIncreasing(s, 1, |s|);
      assert s[1..|s|] == t;
      DistinctCount(t);
      ElemsIn(t, s[0]);
    }
  }

  /** The ids of `ids` from `m` on. */
  function AtLeast(ids: set<nat>, m: nat): (r: set<nat>)
    ensures forall x :: x in r <==> x in ids && x >= m
  {
    set x | x in ids && x >= m
  }

  /** The ids of `ids` below `m`. */
  function Below(ids: set<nat>, m: nat): (r: set<nat>)
    ensures forall x :: x in r <==> x in ids && x < m
  {
    set x | x in ids && x < m
  }

  /** Cutting a strictly increasing list at `k` splits its ids at `s[k]`. */
  lemma CutSorted(s: seq<nat>, k: nat)
    requires StrictlyIncreasing(s) && k < |s|
    ensures Below(Elems(s), s[k]) == Elems(s[..k])
    ensures AtLeast(Elems(s), s[k]) == Elems(s[k..])
  {
    ElemsAll(s);
    ElemsAll(s[..k]);
    ElemsAll(s[k..]);
    forall x | x in Elems(s) && x < s[k]
      ensures x in s[..k]
    {
      var i :| 0 <= i < |s| && s[i] == x;
      assert s[..k][i] == x;
    }
    forall x | x in Elems(s) && x >= s[k]
      ensures x in s[k..]
    {
      var i :| 0 <= i < |s| && s[i] == x;
      assert s[k..][i - k] == x;
    }
  }

  /** Both halves of a strictly increasing list cut at `k` keep their lengths as sets. */
  lemma CutCounts(s: seq<nat>, k: nat)
    requires StrictlyIncreasing(s) && k <= |s|
    ensures |Elems(s[..k])| == k && |Elems(s[k..])| == |s| - k
  {
    SliceIncreasing(s, 0, k);
    SliceIncreasing(s, k, |s|);
    assert s[0..k] == s[..k];
    assert s[k..|s|] == s[k..];
    DistinctCount(s[..k]);
    DistinctCount(s[k..]);
  }

}
