/**
 * Post positions within a topic: the renumbering done by `Post.split`
 * when a set of posts moves to another topic, and the shift done by
 * `Post.delete`. The post table is an in-memory list of (id, topic,
 * position) rows; each bulk `UPDATE` of the source becomes a function
 * from table to table.
 */
module PostPositions {
  import opened Wrappers
  import opened SortedSets

  datatype Post = Post(id: nat, topic: nat, position: int)

  // ------------------------------------------------------------- counting

  /** How many of `ps` lie below `q`. */
  function CountBelow(ps: seq<int>, q: int): nat {
    if |ps| == 0 then 0
    else (if ps[0] < q then 1 else 0) + CountBelow(ps[1..], q)
  }

  /** How many of `ps` lie in `[lo, hi)`. */
  function CountIn(ps: seq<int>, lo: int, hi: int): nat {
    if |ps| == 0 then 0
    else (if lo <= ps[0] < hi then 1 else 0) + CountIn(ps[1..], lo, hi)
  }

  lemma {:induction false} CountBelowDiff(ps: seq<int>, a: int, b: int)
    requires a <= b
    ensures CountBelow(ps, b) == CountBelow(ps, a) + CountIn(ps, a, b)
    decreases |ps|
  {
    if |ps| > 0 {
      CountBelowDiff(ps[1..], a, b);
    }
  }

  lemma {:induction false} CountBelowAll(ps: seq<int>, q: int)
    requires forall i :: 0 <= i < |ps| ==> ps[i] < q
    ensures CountBelow(ps, q) == |ps|
    decreases |ps|
  {
    if |ps| > 0 {
      CountBelowAll(ps[1..], q);
    }
  }

  lemma {:induction false} CountBelowNone(ps: seq<int>, q: int)
    requires forall i :: 0 <= i < |ps| ==> ps[i] >= q
    ensures CountBelow(ps, q) == 0
    decreases |ps|
  {
    if |ps| > 0 {
      CountBelowNone(ps[1..], q);
    }
  }

  lemma {:induction false} CountBelowAppend(a: seq<int>, b: seq<int>, q: int)
    ensures CountBelow(a + b, q) == CountBelow(a, q) + CountBelow(b, q)
    decreases |a|
  {
    if |a| == 0 {
      assert a + b == b;
    } else {
      assert (a + b)[1..] == a[1..] + b;
      CountBelowAppend(a[1..], b, q);
    }
  }

  /** A value not among `ps` may be left out of the counted range. */
  lemma {:induction false} CountInSkip(ps: seq<int>, lo: int, hi: int)
    requires lo !in ps
    ensures CountIn(ps, lo, hi) == CountIn(ps, lo + 1, hi)
    decreases |ps|
  {
    if |ps| > 0 {
      CountInSkip(ps[1..], lo, hi);
    }
  }

  /** Nothing of `ps` lies below `lo` when all of it is at least `lo`. */
  lemma {:induction false} CountInFloor(ps: seq<int>, lo: int, lo': int, hi: int)
    requires lo <= lo' && forall i :: 0 <= i < |ps| ==> ps[i] >= lo'
    ensures CountIn(ps, lo, hi) == CountIn(ps, lo', hi)
    decreases |ps|
  {
    if |ps| > 0 {
      CountInFloor(ps[1..], lo, lo', hi);
    }
  }

  /** Distinct integers of a range `[lo, hi)` number at most `hi - lo`. */
  lemma {:induction false} CountInBound(ps: seq<int>, lo: int, hi: int)
    requires StrictlyIncreasing(ps)
    ensures CountIn(ps, lo, hi) <= if hi < lo then 0 else hi - lo
    decreases |ps|
  {
    if |ps| > 0 {
      var t := ps[1..];
      SliceIncreasing(ps, 1, |ps|);
      assert ps[1..|ps|] == t;
      CountInBound(t, lo, hi);
      if lo <= ps[0] < hi {
        CountInFloor(t, lo, ps[0] + 1, hi);
        CountInBound(t, ps[0] + 1, hi);
      } else if lo <= hi <= ps[0] {
        CountInFloor(t, lo, hi, hi);
        CountInBound(t, hi, hi);
      }
    }
  }

  // ------------------------------------------------------------- grouping

  /** The `groupby` key of the `k`-th moved post: its position less its index. */
  function Key(ps: seq<int>, k: nat): int
    requires k < |ps|
  {
    ps[k] - k
  }

  /**
   * `groupby` over the keys from index `k` on, the current group having
   * begun at `start`: the end index of each group.
   */
  function EndsFrom(ps: seq<int>, start: nat, k: nat): (ends: seq<nat>)
    requires start < k <= |ps|
    ensures |ends| > 0 && ends[|ends| - 1] == |ps| && ends[0] >= k
    decreases |ps| - k
  {
    if k == |ps| then [k]
    else if Key(ps, k) != Key(ps, k - 1) then [k] + EndsFrom(ps, k, k + 1)
    else EndsFrom(ps, start, k + 1)
  }

  lemma {:induction false} EndsFromBounds(ps: seq<int>, start: nat, k: nat)
    requires start < k <= |ps|
    ensures forall i :: 0 <= i < |EndsFrom(ps, start, k)| ==> k <= EndsFrom(ps, start, k)[i] <= |ps|
    ensures forall i, j :: 0 <= i < j < |EndsFrom(ps, start, k)| ==> EndsFrom(ps, start, k)[i] < EndsFrom(ps, start, k)[j]
    decreases |ps| - k
  {
    if k < |ps| {
      if Key(ps, k) != Key(ps, k - 1) {
        EndsFromBounds(ps, k, k + 1);
        var rest := EndsFrom(ps, k, k + 1);
        var ends := [k] + rest;
        assert EndsFrom(ps, start, k) == ends;
        forall i, j | 0 <= i < j < |ends|
          ensures ends[i] < ends[j]
        {
          assert ends[j] == rest[j - 1] && rest[j - 1] >= k + 1;
          if i > 0 {
            assert ends[i] == rest[i - 1];
          } else {
            assert ends[i] == k;
          }
        }
      } else {
        EndsFromBounds(ps, start, k + 1);
        assert EndsFrom(ps, start, k) == EndsFrom(ps, start, k + 1);
      }
    }
  }

  /** The groups of `posts` as `itertools.groupby` forms them, as end indices. */
  function RunEnds(ps: seq<int>): (ends: seq<nat>)
    ensures |ends| == 0 <==> |ps| == 0
    ensures |ends| > 0 ==> ends[|ends| - 1] == |ps|
  {
    if |ps| == 0 then [] else EndsFrom(ps, 0, 1)
  }

  /** The position after index `k` follows on from the one at `k`. */
  predicate FollowsOn(ps: seq<int>, k: nat)
    requires k + 1 < |ps|
  {
    ps[k + 1] == ps[k] + 1
  }

  /** `ps[lo..hi]` is a non-empty run of consecutive positions. */
  predicate Run(ps: seq<int>, lo: nat, hi: nat) {
    lo < hi <= |ps| && forall k :: lo <= k && k + 1 < hi ==> FollowsOn(ps, k)
  }

  /**
   * `ends` cuts `ps[s..]` into runs of consecutive positions, and cuts
   * only where the next position does not follow on.
   */
  predicate Grouping(ps: seq<int>, s: nat, ends: seq<nat>) {
    Runs(ps, s, ends) && Maximal(ps, ends)
  }

  predicate Runs(ps: seq<int>, s: nat, ends: seq<nat>) {
    && (|ends| > 0 ==> Run(ps, s, ends[0]))
    && (forall j :: 0 < j < |ends| ==> Run(ps, ends[j - 1], ends[j]))
  }

  predicate Maximal(ps: seq<int>, ends: seq<nat>) {
    forall j :: 0 <= j < |ends| && 0 < ends[j] < |ps| ==> !FollowsOn(ps, ends[j] - 1)
  }

  lemma {:induction false} EndsFromRuns(ps: seq<int>, start: nat, k: nat)
    requires start < k <= |ps|
    requires forall i :: start <= i && i + 1 < k ==> FollowsOn(ps, i)
    ensures Runs(ps, start, EndsFrom(ps, start, k))
    decreases |ps| - k
  {
    if k < |ps| {
      if Key(ps, k) != Key(ps, k - 1) {
        EndsFromRuns(ps, k, k + 1);
        var rest := EndsFrom(ps, k, k + 1);
        var ends := [k] + rest;
        assert Run(ps, start, k);
        forall j | 0 < j < |ends|
          ensures Run(ps, ends[j - 1], ends[j])
        {
          if j > 1 {
            assert ends[j - 1] == rest[j - 2] && ends[j] == rest[j - 1];
          }
        }
      } else {
        EndsFromRuns(ps, start, k + 1);
      }
    }
  }

  lemma {:induction false} EndsFromMaximal(ps: seq<int>, start: nat, k: nat)
    requires start < k <= |ps|
    ensures Maximal(ps, EndsFrom(ps, start, k))
    decreases |ps| - k
  {
    if k < |ps| {
      if Key(ps, k) != Key(ps, k - 1) {
        EndsFromMaximal(ps, k, k + 1);
        var rest := EndsFrom(ps, k, k + 1);
        var ends := [k] + rest;
        forall j | 0 <= j < |ends| && 0 < ends[j] < |ps|
          ensures !FollowsOn(ps, ends[j] - 1)
        {
          if j > 0 {
            assert ends[j] == rest[j - 1];
          }
        }
      } else {
        EndsFromMaximal(ps, start, k + 1);
      }
    }
  }

  /** `RunEnds` cuts the moved posts into the maximal runs of consecutive positions. */
  lemma RunEndsGrouping(ps: seq<int>)
    ensures Grouping(ps, 0, RunEnds(ps))
    ensures forall i, j :: 0 <= i < j < |RunEnds(ps)| ==> RunEnds(ps)[i] < RunEnds(ps)[j]
  {
    if |ps| > 0 {
      EndsFromBounds(ps, 0, 1);
      assert RunEnds(ps) == EndsFrom(ps, 0, 1);
      EndsFromRuns(ps, 0, 1);
      EndsFromMaximal(ps, 0, 1);
    }
  }

  // ------------------------------------------------------------ renumbering

  /** The positions of `ms`, in order. */
  function Positions(ms: seq<Post>): (ps: seq<int>)
    ensures |ps| == |ms| && forall k :: 0 <= k < |ms| ==> ps[k] == ms[k].position
  {
    seq(|ms|, k requires 0 <= k < |ms| => ms[k].position)
  }

  /** One row under `filter(topic=topic, position__gt=start).update(position=F('position') - dec)`. */
  function ShiftRow(p: Post, topic: nat, start: int, dec: int): Post {
    if p.topic == topic && p.position > start then p.(position := p.position - dec) else p
  }

  /** The bulk update `filter(topic=topic, position__gt=start).update(position=F('position') - dec)`. */
  function ShiftDown(t: seq<Post>, topic: nat, start: int, dec: int): (r: seq<Post>)
    ensures |r| == |t| && forall i :: 0 <= i < |t| ==> r[i] == ShiftRow(t[i], topic, start, dec)
  {
    seq(|t|, i requires 0 <= i < |t| => ShiftRow(t[i], topic, start, dec))
  }

  /**
   * The intended position of a post left in `topic` once the posts at
   * positions `ps` are gone: lowered by the number of them below it.
   */
  function Renumber(p: Post, ps: seq<int>, topic: nat): Post {
    if p.topic == topic then p.(position := p.position - CountBelow(ps, p.position)) else p
  }

  /** A run of consecutive positions covers every integer between its ends. */
  lemma {:induction false} RunCovers(ps: seq<int>, lo: nat, hi: nat)
    requires Run(ps, lo, hi)
    ensures ps[hi - 1] == ps[lo] + (hi - 1 - lo)
    ensures forall q :: ps[lo] <= q <= ps[hi - 1] ==> q in ps
    decreases hi - lo
  {
    if hi - lo > 1 {
      assert Run(ps, lo, hi - 1);
      RunCovers(ps, lo, hi - 1);
      assert FollowsOn(ps, hi - 2);
      assert ps[hi - 1] in ps;
    } else {
      assert ps[lo] in ps;
    }
  }

  /**
   * One round of the decrement loop: with the posts before index `lo`
   * already accounted for, shifting by the run `ps[lo..hi]` accounts for
   * the posts before `hi`.
   */
  lemma ShiftStep(p: Post, ps: seq<int>, lo: nat, hi: nat, topic: nat)
    requires StrictlyIncreasing(ps) && Run(ps, lo, hi)
    requires p.topic == topic ==> p.position !in ps
    ensures ShiftRow(Renumber(p, ps[..lo], topic), topic, ps[hi - 1] - lo, hi - lo) == Renumber(p, ps[..hi], topic)
  {
    if p.topic == topic {
      RunCovers(ps, lo, hi);
      if p.position > ps[hi - 1] {
        AboveRun(ps, lo, hi, p.position);
      } else {
        BelowRun(ps, lo, hi, p.position);
      }
    }
  }

  /** A post above the run had all of `ps[..lo]` and all of the run below it. */
  lemma AboveRun(ps: seq<int>, lo: nat, hi: nat, q: int)
    requires StrictlyIncreasing(ps) && lo < hi <= |ps| && q > ps[hi - 1]
    ensures CountBelow(ps[..lo], q) == lo && CountBelow(ps[..hi], q) == hi
  {
    CountBelowAll(ps[..lo], q);
    CountBelowAll(ps[..hi], q);
  }

  /** A post below the run gains nothing from it and already sits below where the run starts. */
  lemma BelowRun(ps: seq<int>, lo: nat, hi: nat, q: int)
    requires StrictlyIncreasing(ps) && lo < hi <= |ps| && q < ps[lo] && q !in ps
    ensures CountBelow(ps[..hi], q) == CountBelow(ps[..lo], q)
    ensures Closed(ps[..lo], q) < ps[lo] - lo
  {
    var before, group := ps[..lo], ps[lo..hi];
    assert ps[..hi] == before + group;
    CountBelowAppend(before, group, q);
    CountBelowNone(group, q);
    SliceIncreasing(ps, 0, lo);
    assert ps[0..lo] == before;
    assert q !in before;
    CountBelowAll(before, ps[lo]);
    ClosedOrder(before, q, ps[lo]);
  }

  /**
   * The decrement loop of `Post.split`: for each group of moved posts
   * with consecutive positions, every post of `topic` after the group
   * (allowing for earlier decrements) moves down by the group's size.
   * The result is every post of `topic` lowered by the number of moved
   * positions below it.
   */
  method CloseGaps(t0: seq<Post>, ps: seq<int>, topic: nat) returns (t: seq<Post>)
    requires StrictlyIncreasing(ps)
    requires forall i :: 0 <= i < |t0| && t0[i].topic == topic ==> t0[i].position !in ps
    ensures |t| == |t0|
    ensures forall i :: 0 <= i < |t0| ==> t[i] == Renumber(t0[i], ps, topic)
  {
    var groups := RunEnds(ps);
    RunEndsGrouping(ps);
    t := t0;
    var adjustStart := 0;
    for j := 0 to |groups|
      invariant adjustStart == if j == 0 then 0 else groups[j - 1]
      invariant |t| == |t0|
      invariant forall i :: 0 <= i < |t| ==> t[i] == Renumber(t0[i], ps[..adjustStart], topic)
    {
      var hi := groups[j];
      assert Run(ps, adjustStart, hi);
      var dec := hi - adjustStart;
      var start := ps[hi - 1] - adjustStart;
      forall i | 0 <= i < |t0|
        ensures ShiftRow(t[i], topic, start, dec) == Renumber(t0[i], ps[..hi], topic)
      {
        ShiftStep(t0[i], ps, adjustStart, hi, topic);
      }
      t := ShiftDown(t, topic, start, dec);
      adjustStart := adjustStart + dec;
    }
    assert ps[..adjustStart] == ps;
  }

  // ---------------------------------------------------------------- sorting

  /** Positions strictly ascending. */
  predicate Ascending(ms: seq<Post>) {
    forall i, j :: 0 <= i < j < |ms| ==> ms[i].position < ms[j].position
  }

  predicate DistinctPositions(ms: seq<Post>) {
    forall i, j :: 0 <= i < j < |ms| ==> ms[i].position != ms[j].position
  }

  function Insert(p: Post, ms: seq<Post>): (r: seq<Post>)
    requires Ascending(ms) && forall i :: 0 <= i < |ms| ==> ms[i].position != p.position
    ensures Ascending(r) && multiset(r) == multiset(ms) + multiset{p}
    ensures |r| > 0 && (r[0] == p || (|ms| > 0 && r[0] == ms[0]))
  {
    if |ms| == 0 || p.position < ms[0].position then [p] + ms
    else
      var rest := Insert(p, ms[1..]);
      assert ms == [ms[0]] + ms[1..];
      assert forall i :: 0 < i < |ms| ==> ms[0].position < ms[i].position;
      assert ms[0].position < rest[0].position;
      [ms[0]] + rest
  }

  lemma DistinctTail(ms: seq<Post>)
    requires DistinctPositions(ms) && |ms| > 0
    ensures DistinctPositions(ms[1..])
    ensures forall x :: x in multiset(ms[1..]) ==> x.position != ms[0].position
  {
    forall x | x in multiset(ms[1..])
      ensures x.position != ms[0].position
    {
      assert x in ms[1..];
      var i :| 0 <= i < |ms[1..]| && ms[1..][i] == x;
      assert ms[i + 1] == x;
    }
  }

  /** `sorted(posts, key=attrgetter('position'))`, for posts of distinct positions. */
  function SortByPosition(ms: seq<Post>): (r: seq<Post>)
    requires DistinctPositions(ms)
    ensures Ascending(r) && multiset(r) == multiset(ms)
  {
    if |ms| == 0 then []
    else
      DistinctTail(ms);
      var rest := SortByPosition(ms[1..]);
      assert forall i :: 0 <= i < |rest| ==> rest[i] in multiset(ms[1..]);
      assert ms == [ms[0]] + ms[1..];
      assert multiset(ms) == multiset(ms[1..]) + multiset{ms[0]};
      Insert(ms[0], rest)
  }

  /** Taking one entry out of a list lowers its count below `q` by that entry's share. */
  lemma CountBelowRemove(ps: seq<int>, j: nat, q: int)
    requires j < |ps|
    ensures CountBelow(ps, q) == CountBelow(ps[..j] + ps[j + 1..], q) + (if ps[j] < q then 1 else 0)
  {
    assert ps == ps[..j] + ([ps[j]] + ps[j + 1..]);
    CountBelowAppend(ps[..j], [ps[j]] + ps[j + 1..], q);
    CountBelowAppend(ps[..j], ps[j + 1..], q);
  }

  lemma PositionsRemove(b: seq<Post>, j: nat)
    requires j < |b|
    ensures Positions(b[..j] + b[j + 1..]) == Positions(b)[..j] + Positions(b)[j + 1..]
  {
  }

  /** The first post of `a` sits somewhere in its permutation `b`; the rest match up. */
  lemma PermutationHead(a: seq<Post>, b: seq<Post>) returns (j: nat)
    requires multiset(a) == multiset(b) && |a| > 0
    ensures j < |b| && b[j] == a[0]
    ensures multiset(a[1..]) == multiset(b[..j] + b[j + 1..])
  {
    var x := a[0];
    assert x in multiset(b);
    j :| 0 <= j < |b| && b[j] == x;
    assert b == b[..j] + [x] + b[j + 1..];
    assert a == [x] + a[1..];
    assert multiset(b) == multiset(b[..j]) + multiset{x} + multiset(b[j + 1..]);
    assert multiset(b[..j] + b[j + 1..]) == multiset(b[..j]) + multiset(b[j + 1..]);
    assert multiset(a) == multiset{x} + multiset(a[1..]);
    assert multiset(a[1..]) == multiset(a) - multiset{x};
    assert multiset(b[..j] + b[j + 1..]) == multiset(b) - multiset{x};
  }

  /** The count of positions below `q` does not depend on the order of the posts. */
  lemma {:induction false} CountBelowPermutation(a: seq<Post>, b: seq<Post>, q: int)
    requires multiset(a) == multiset(b)
    ensures CountBelow(Positions(a), q) == CountBelow(Positions(b), q)
    decreases |a|
  {
    if |a| == 0 {
      assert |b| == |multiset(b)| == 0;
    } else {
      var j := PermutationHead(a, b);
      var b' := b[..j] + b[j + 1..];
      CountBelowPermutation(a[1..], b', q);
      var pa, pb := Positions(a), Positions(b);
      assert pa[1..] == Positions(a[1..]);
      PositionsRemove(b, j);
      CountBelowRemove(pb, j, q);
    }
  }

  /** In position order, the `k`-th post has exactly `k` posts below it. */
  lemma RankInAscending(ms: seq<Post>, k: nat)
    requires Ascending(ms) && k < |ms|
    ensures CountBelow(Positions(ms), ms[k].position) == k
  {
    var ps := Positions(ms);
    assert ps == ps[..k] + ps[k..];
    CountBelowAppend(ps[..k], ps[k..], ms[k].position);
    CountBelowAll(ps[..k], ms[k].position);
    CountBelowNone(ps[k..], ms[k].position);
  }

  // ------------------------------------------------------------ no gaps

  /** The position a post at `q` gets once the posts at `ps` are gone. */
  function Closed(ps: seq<int>, q: int): int {
    q - CountBelow(ps, q)
  }

  /** A single value is counted once if present and not at all otherwise. */
  lemma {:induction false} CountInOne(ps: seq<int>, q: int)
    requires StrictlyIncreasing(ps)
    ensures CountIn(ps, q, q + 1) == if q in ps then 1 else 0
    decreases |ps|
  {
    if q !in ps {
      CountInSkip(ps, q, q + 1);
      CountInBound(ps, q + 1, q + 1);
    } else {
      CountInBound(ps, q, q + 1);
      CountInPositive(ps, q);
    }
  }

  lemma {:induction false} CountInPositive(ps: seq<int>, q: int)
    requires q in ps
    ensures CountIn(ps, q, q + 1) >= 1
    decreases |ps|
  {
    if ps[0] != q {
      assert q in ps[1..];
      CountInPositive(ps[1..], q);
    }
  }

  /** Stepping past `q` raises the closed position by one unless `q` itself is gone. */
  lemma ClosedStep(ps: seq<int>, q: int)
    requires StrictlyIncreasing(ps)
    ensures Closed(ps, q + 1) == Closed(ps, q) + (if q in ps then 0 else 1)
  {
    CountBelowDiff(ps, q, q + 1);
    CountInOne(ps, q);
  }

  /** Posts that stay keep their relative order, and no two land on one position. */
  lemma ClosedOrder(ps: seq<int>, q1: int, q2: int)
    requires StrictlyIncreasing(ps) && q1 < q2 && q1 !in ps
    ensures Closed(ps, q1) < Closed(ps, q2)
  {
    CountBelowDiff(ps, q1, q2);
    CountInSkip(ps, q1, q2);
    CountInBound(ps, q1 + 1, q2);
  }

  /** Where the closed position stands at `lo` and at `hi`, every value between is taken. */
  lemma {:induction false} ClosedReaches(ps: seq<int>, c: int, lo: int, hi: int)
    requires StrictlyIncreasing(ps) && lo < hi
    requires Closed(ps, lo) <= c < Closed(ps, hi)
    ensures exists q :: lo <= q < hi && q !in ps && Closed(ps, q) == c
    decreases hi - lo
  {
    ClosedStep(ps, lo);
    if Closed(ps, lo + 1) > c {
      assert lo !in ps && Closed(ps, lo) == c;
    } else {
      ClosedReaches(ps, c, lo + 1, hi);
    }
  }

  /** Some post of `[0, n)` that stays closes up onto position `c`. */
  predicate Taken(ps: seq<int>, n: int, c: int) {
    exists q :: 0 <= q < n && q !in ps && Closed(ps, q) == c
  }

  /**
   * Removing the posts at `ps` from a topic numbered `0 .. n-1` leaves the
   * others numbered `0 .. n-|ps|-1` without gaps: each lands in range, the
   * order is kept, and every position in range is taken.
   */
  lemma NoGaps(ps: seq<int>, n: int)
    requires StrictlyIncreasing(ps)
    requires forall k :: 0 <= k < |ps| ==> 0 <= ps[k] < n
    ensures forall q :: 0 <= q < n && q !in ps ==> 0 <= Closed(ps, q) < n - |ps|
    ensures forall q1, q2 :: q1 < q2 && q1 !in ps && q2 !in ps ==> Closed(ps, q1) < Closed(ps, q2)
    ensures forall c :: 0 <= c < n - |ps| ==> Taken(ps, n, c)
  {
    CountBelowNone(ps, 0);
    CountBelowAll(ps, n);
    assert Closed(ps, 0) == 0 && Closed(ps, n) == n - |ps|;
    forall q | 0 <= q < n && q !in ps
      ensures 0 <= Closed(ps, q) < n - |ps|
    {
      if 0 < q {
        CountBelowDiff(ps, 0, q);
        CountInBound(ps, 0, q);
      }
      ClosedOrder(ps, q, n);
    }
    forall q1, q2 | q1 < q2 && q1 !in ps && q2 !in ps
      ensures Closed(ps, q1) < Closed(ps, q2)
    {
      ClosedOrder(ps, q1, q2);
    }
    forall c | 0 <= c < n - |ps|
      ensures Taken(ps, n, c)
    {
      ClosedReaches(ps, c, 0, n);
    }
  }

  // ------------------------------------------------------------- split

  /** Every post row has its own id. */
  predicate UniquePostIds(t: seq<Post>) {
    forall i, j :: 0 <= i < j < |t| ==> t[i].id != t[j].id
  }

  /** No two posts of `topic` share a position. */
  predicate TopicPositionsDistinct(t: seq<Post>, topic: nat) {
    forall i, j :: 0 <= i < j < |t| && t[i].topic == topic && t[j].topic == topic ==> t[i].position != t[j].position
  }

  /** The `Max('position')` aggregate over the posts of `topic`; `None` when it has none. */
  function MaxPosition(t: seq<Post>, topic: nat): (m: Option<int>)
    ensures m.None? <==> forall i :: 0 <= i < |t| ==> t[i].topic != topic
    ensures m.Some? ==> exists i :: 0 <= i < |t| && t[i].topic == topic && t[i].position == m.value
    ensures m.Some? ==> forall i :: 0 <= i < |t| && t[i].topic == topic ==> t[i].position <= m.value
  {
    if |t| == 0 then None
    else
      var rest := MaxPosition(t[1..], topic);
      assert forall i :: 0 < i < |t| ==> t[i] == t[1..][i - 1];
      if t[0].topic != topic then rest
      else if rest.Some? && rest.value > t[0].position then rest
      else Some(t[0].position)
  }

  /** The moved posts follow the target topic's last position, or start at 0 in an empty topic. */
  function Base(t: seq<Post>, topic: nat): int {
    MaxPosition(t, topic).GetOr(-1)
  }

  /** The index of the post with this id in `ms`, if any. */
  function IndexOf(ms: seq<Post>, id: nat): (r: Option<nat>)
    ensures r.Some? ==> r.value < |ms| && ms[r.value].id == id
    ensures r.None? ==> forall k :: 0 <= k < |ms| ==> ms[k].id != id
  {
    if |ms| == 0 then None
    else if ms[0].id == id then Some(0)
    else match IndexOf(ms[1..], id)
      case None => None
      case Some(k) => Some(k + 1)
  }

  /** One row after the move loop: the `k`-th of `ms` joins `topic` at `base + 1 + k`. */
  function MoveRow(p: Post, ms: seq<Post>, topic: nat, base: int): Post {
    match IndexOf(ms, p.id)
    case Some(k) => Post(p.id, topic, base + 1 + k)
    case None => p
  }

  function Move(t: seq<Post>, ms: seq<Post>, topic: nat, base: int): (r: seq<Post>)
    ensures |r| == |t| && forall i :: 0 <= i < |t| ==> r[i] == MoveRow(t[i], ms, topic, base)
  {
    seq(|t|, i requires 0 <= i < |t| => MoveRow(t[i], ms, topic, base))
  }

  /** The final update putting the new topic's first post at position 0. */
  function SetFirst(t: seq<Post>, first: nat): (r: seq<Post>)
    ensures |r| == |t| && forall i :: 0 <= i < |t| ==> r[i] == if t[i].id == first then t[i].(position := 0) else t[i]
  {
    seq(|t|, i requires 0 <= i < |t| => if t[i].id == first then t[i].(position := 0) else t[i])
  }

  /** A post of least position among a non-empty list. */
  predicate IsLowest(p: Post, ms: seq<Post>) {
    p in ms && forall k :: 0 <= k < |ms| ==> p.position <= ms[k].position
  }

  /** The new topic's first post: the one it had, or else the lowest moved one. */
  predicate IsFirst(first: nat, moving: seq<Post>, newFirst: Option<nat>) {
    match newFirst
    case Some(id) => first == id
    case None => exists k :: 0 <= k < |moving| && IsLowest(moving[k], moving) && moving[k].id == first
  }

  datatype SplitError = NoPosts

  /** The moved posts, all rows of one topic with distinct ids, have distinct positions. */
  lemma MovingDistinct(table: seq<Post>, moving: seq<Post>, topic: nat)
    requires UniquePostIds(table) && UniquePostIds(moving) && TopicPositionsDistinct(table, topic)
    requires forall k :: 0 <= k < |moving| ==> moving[k] in table && moving[k].topic == topic
    ensures DistinctPositions(moving)
  {
    forall j, k | 0 <= j < k < |moving|
      ensures moving[j].position != moving[k].position
    {
      var a :| 0 <= a < |table| && table[a] == moving[j];
      var b :| 0 <= b < |table| && table[b] == moving[k];
      assert a != b;
    }
  }

  /** A row of the table is one of the moved posts exactly when its id is found among them. */
  lemma FoundIffMoving(table: seq<Post>, ms: seq<Post>, i: nat)
    requires UniquePostIds(table) && i < |table|
    requires forall k :: 0 <= k < |ms| ==> ms[k] in table
    ensures IndexOf(ms, table[i].id).Some? <==> table[i] in ms
    ensures IndexOf(ms, table[i].id).Some? ==> ms[IndexOf(ms, table[i].id).value] == table[i]
  {
    var r := IndexOf(ms, table[i].id);
    if r.Some? {
      var a :| 0 <= a < |table| && table[a] == ms[r.value];
      assert a == i;
    }
    if table[i] in ms {
      var k :| 0 <= k < |ms| && ms[k] == table[i];
      assert ms[k].id == table[i].id;
    }
  }

  /**
   * What the move loop and the decrement loop together make of one row:
   * a moved post joins the new topic after its maximum, in position order,
   * and a post staying in the old topic drops by the moved posts below it.
   */
  lemma SplitRow(table: seq<Post>, moving: seq<Post>, ms: seq<Post>, i: nat, oldTopic: nat, newTopic: nat, base: int)
    requires UniquePostIds(table) && i < |table| && oldTopic != newTopic
    requires forall k :: 0 <= k < |moving| ==> moving[k] in table
    requires Ascending(ms) && multiset(ms) == multiset(moving)
    ensures var r := Renumber(MoveRow(table[i], ms, newTopic, base), Positions(ms), oldTopic);
      && (table[i] in moving ==> r == Post(table[i].id, newTopic, base + 1 + CountBelow(Positions(moving), table[i].position)))
      && (table[i] !in moving && table[i].topic == oldTopic ==>
            r == table[i].(position := Closed(Positions(moving), table[i].position)))
      && (table[i] !in moving && table[i].topic != oldTopic ==> r == table[i])
  {
    assert forall k :: 0 <= k < |ms| ==> ms[k] in multiset(moving);
    FoundIffMoving(table, ms, i);
    assert table[i] in ms <==> table[i] in moving by {
      assert table[i] in ms <==> table[i] in multiset(ms);
    }
    var q := table[i].position;
    CountBelowPermutation(ms, moving, q);
    match IndexOf(ms, table[i].id)
    case Some(k) =>
      RankInAscending(ms, k);
    case None =>
  }

  /** After the move loop no post left in the old topic sits at a moved post's position. */
  lemma MovedClear(table: seq<Post>, ms: seq<Post>, oldTopic: nat, newTopic: nat, base: int)
    requires UniquePostIds(table) && TopicPositionsDistinct(table, oldTopic) && oldTopic != newTopic
    requires forall k :: 0 <= k < |ms| ==> ms[k] in table && ms[k].topic == oldTopic
    ensures var moved := Move(table, ms, newTopic, base);
      forall i :: 0 <= i < |moved| && moved[i].topic == oldTopic ==> moved[i].position !in Positions(ms)
  {
    var moved := Move(table, ms, newTopic, base);
    var ps := Positions(ms);
    forall i | 0 <= i < |moved| && moved[i].topic == oldTopic
      ensures moved[i].position !in ps
    {
      FoundIffMoving(table, ms, i);
      assert table[i] !in ms;
      forall k | 0 <= k < |ms|
        ensures ps[k] != moved[i].position
      {
        var a :| 0 <= a < |table| && table[a] == ms[k];
        assert a != i;
      }
    }
  }

  /** The head of the moved posts in position order is a lowest one. */
  lemma SortedHeadLowest(moving: seq<Post>, ms: seq<Post>)
    requires Ascending(ms) && multiset(ms) == multiset(moving) && |ms| > 0
    ensures exists k :: 0 <= k < |moving| && IsLowest(moving[k], moving) && moving[k].id == ms[0].id
  {
    assert ms[0] in multiset(moving);
    var j :| 0 <= j < |moving| && moving[j] == ms[0];
    forall k | 0 <= k < |moving|
      ensures ms[0].position <= moving[k].position
    {
      assert moving[k] in multiset(ms);
    }
    assert IsLowest(moving[j], moving);
  }

  /**
   * The table after a split, row by row against the table before: ids stay
   * put; the new topic's first post sits at 0 (in `newTopic` if it was
   * moved, where it was otherwise); every other moved post joins
   * `newTopic` after its highest position, in old position order; a post
   * staying in `oldTopic` drops by the number of moved posts below it; all
   * other rows are unchanged.
   */
  predicate SplitOutcome(table: seq<Post>, moving: seq<Post>, oldTopic: nat, newTopic: nat, first: nat, out: seq<Post>) {
    && |out| == |table|
    && forall i :: 0 <= i < |table| ==>
      var p := table[i];
      && out[i].id == p.id
      && (p.id == first ==> out[i] == if p in moving then Post(p.id, newTopic, 0) else p.(position := 0))
      && (p.id != first && p in moving ==>
            out[i] == Post(p.id, newTopic, Base(table, newTopic) + 1 + CountBelow(Positions(moving), p.position)))
      && (p.id != first && p !in moving && p.topic == oldTopic ==>
            out[i] == p.(position := Closed(Positions(moving), p.position)))
      && (p.id != first && p !in moving && p.topic != oldTopic ==> out[i] == p)
  }

  /** The rows after all updates of a split, given what each loop did to them. */
  lemma SplitRows(table: seq<Post>, moving: seq<Post>, ms: seq<Post>, oldTopic: nat, newTopic: nat, first: nat, closed: seq<Post>)
    requires UniquePostIds(table) && oldTopic != newTopic
    requires forall k :: 0 <= k < |moving| ==> moving[k] in table
    requires Ascending(ms) && multiset(ms) == multiset(moving)
    requires |closed| == |table|
    requires forall i :: 0 <= i < |table| ==>
      closed[i] == Renumber(MoveRow(table[i], ms, newTopic, Base(table, newTopic)), Positions(ms), oldTopic)
    ensures SplitOutcome(table, moving, oldTopic, newTopic, first, SetFirst(closed, first))
  {
    forall i | 0 <= i < |table|
      ensures closed[i].id == table[i].id
    {
      SplitRow(table, moving, ms, i, oldTopic, newTopic, Base(table, newTopic));
    }
    forall i | 0 <= i < |table|
      ensures var p := table[i];
        && (p in moving ==> closed[i] == Post(p.id, newTopic, Base(table, newTopic) + 1 + CountBelow(Positions(moving), p.position)))
        && (p !in moving && p.topic == oldTopic ==> closed[i] == p.(position := Closed(Positions(moving), p.position)))
        && (p !in moving && p.topic != oldTopic ==> closed[i] == p)
    {
      SplitRow(table, moving, ms, i, oldTopic, newTopic, Base(table, newTopic));
    }
  }

  /**
   * `Post.split` on the position column. Fails (the transaction is rolled
   * back) when no post is moved. Otherwise the moved posts join `newTopic`
   * after its highest position in their old order, the posts left in
   * `oldTopic` close up the gaps, and the new topic's first post is put at
   * position 0; nothing else changes.
   */
  method Split(table: seq<Post>, moving: seq<Post>, oldTopic: nat, newTopic: nat, newFirst: Option<nat>)
    returns (r: Result<seq<Post>, SplitError>)
    requires UniquePostIds(table) && TopicPositionsDistinct(table, oldTopic) && oldTopic != newTopic
    requires UniquePostIds(moving)
    requires forall k :: 0 <= k < |moving| ==> moving[k] in table && moving[k].topic == oldTopic
    ensures r.Err? <==> |moving| == 0
    ensures r.Ok? ==> exists first :: IsFirst(first, moving, newFirst) && SplitOutcome(table, moving, oldTopic, newTopic, first, r.value)
  {
    if |moving| == 0 {
      return Err(NoPosts);
    }
    MovingDistinct(table, moving, oldTopic);
    var ms := SortByPosition(moving);
    assert forall k :: 0 <= k < |ms| ==> ms[k] in multiset(moving);
    var base := Base(table, newTopic);
    var moved := Move(table, ms, newTopic, base);
    MovedClear(table, ms, oldTopic, newTopic, base);
    var closed := CloseGaps(moved, Positions(ms), oldTopic);
    var first := if newFirst.Some? then newFirst.value else ms[0].id;
    SortedHeadLowest(moving, ms);
    assert IsFirst(first, moving, newFirst);
    SplitRows(table, moving, ms, oldTopic, newTopic, first, closed);
    r := Ok(SetFirst(closed, first));
  }

  // ------------------------------------------------------------- delete

  /** The `k`-th row left once row `i` is gone. */
  function Remaining(t: seq<Post>, i: nat, k: nat): Post
    requires i < |t| && k < |t| - 1
  {
    if k < i then t[k] else t[k + 1]
  }

  /**
   * `Post.delete` on the position column: every later post of the same
   * topic moves up by one, then the row itself goes.
   */
  function Delete(t: seq<Post>, i: nat): (r: seq<Post>)
    requires i < |t|
    ensures |r| == |t| - 1
    ensures forall k :: 0 <= k < |r| ==>
      var p := Remaining(t, i, k);
      && r[k].id == p.id && r[k].topic == p.topic
      && r[k].position == (if p.topic == t[i].topic && p.position > t[i].position then p.position - 1 else p.position)
  {
    ShiftDown(t[..i] + t[i + 1..], t[i].topic, t[i].position, 1)
  }

  /** Deleting a post is the renumbering of a split that moves that single post away. */
  lemma DeleteIsRenumber(t: seq<Post>, i: nat)
    requires i < |t| && TopicPositionsDistinct(t, t[i].topic)
    ensures forall k :: 0 <= k < |t| - 1 ==>
      Delete(t, i)[k] == Renumber(Remaining(t, i, k), [t[i].position], t[i].topic)
  {
    var r := Delete(t, i);
    forall k | 0 <= k < |t| - 1
      ensures r[k] == Renumber(Remaining(t, i, k), [t[i].position], t[i].topic)
    {
      var j := if k < i then k else k + 1;
      assert j != i;
      var p := t[j];
      assert r[k] == p.(position := r[k].position);
      if p.topic == t[i].topic {
        assert p.position != t[i].position;
        assert CountBelow([t[i].position], p.position) == (if t[i].position < p.position then 1 else 0) by {
          assert [t[i].position][1..] == [];
        }
      }
    }
  }

  /** Deleting keeps the positions of the post's topic distinct. */
  lemma DeleteKeepsDistinct(t: seq<Post>, i: nat)
    requires i < |t| && TopicPositionsDistinct(t, t[i].topic)
    ensures TopicPositionsDistinct(Delete(t, i), t[i].topic)
  {
    var r := Delete(t, i);
    var topic, ps := t[i].topic, [t[i].position];
    DeleteIsRenumber(t, i);
    forall a, b | 0 <= a < b < |r| && r[a].topic == topic && r[b].topic == topic
      ensures r[a].position != r[b].position
    {
      var ja := if a < i then a else a + 1;
      var jb := if b < i then b else b + 1;
      assert ja < jb && ja != i && jb != i;
      var qa, qb := t[ja].position, t[jb].position;
      assert qa != qb && qa !in ps && qb !in ps;
      if qa < qb {
        ClosedOrder(ps, qa, qb);
      } else {
        ClosedOrder(ps, qb, qa);
      }
    }
  }
}
