/**
 * The forum hierarchy over the cached forum list: each forum names its
 * parent forum by id, and categories (top-level forums) have none. The
 * walks of the source loop or recurse forever when the parent links form
 * a cycle; here they report `Cycle` at the point where the source would
 * revisit a forum. A parent id with no forum in the list is the source's
 * `KeyError`.
 */
module ForumTree {
  import opened Wrappers

  datatype Forum = Forum(id: nat, parent: Option<nat>, lastPost: Option<nat>)

  datatype TreeError = MissingForum(id: nat) | Cycle

  /** Forum ids are primary keys. */
  predicate UniqueIds(forums: seq<Forum>) {
    forall i, j :: 0 <= i < j < |forums| ==> forums[i].id != forums[j].id
  }

  /** The ids of the forums of the list. */
  function Ids(forums: seq<Forum>): set<nat> {
    set g | g in forums :: g.id
  }

  /** The forum of the list with id `id`, if any. */
  function FindForum(forums: seq<Forum>, id: nat): (r: Option<Forum>)
    ensures r.Some? ==> r.value in forums && r.value.id == id
    ensures r.None? ==> forall i :: 0 <= i < |forums| ==> forums[i].id != id
  {
    if |forums| == 0 then None
    else if forums[0].id == id then Some(forums[0])
    else FindForum(forums[1..], id)
  }

  /** The forums whose parent is `parent`, in list order (`None`: the categories). */
  function WithParent(forums: seq<Forum>, parent: Option<nat>): (cs: seq<Forum>)
    ensures forall c :: c in cs <==> c in forums && c.parent == parent
  {
    if |forums| == 0 then []
    else if forums[0].parent == parent then [forums[0]] + WithParent(forums[1..], parent)
    else WithParent(forums[1..], parent)
  }

  /**
   * `idx` lists, in strictly increasing order, list positions of `forums`
   * holding the entries of `cs` one for one, and takes in every position
   * whose forum has parent `parent`.
   */
  predicate PicksInOrder(forums: seq<Forum>, parent: Option<nat>, cs: seq<Forum>, idx: seq<nat>) {
    && |idx| == |cs|
    && (forall k :: 0 <= k < |idx| ==> idx[k] < |forums| && forums[idx[k]] == cs[k])
    && (forall j, k :: 0 <= j < k < |idx| ==> idx[j] < idx[k])
    && (forall i :: 0 <= i < |forums| && forums[i].parent == parent ==> i in idx)
  }

  lemma {:induction false} WithParentPicks(forums: seq<Forum>, parent: Option<nat>) returns (idx: seq<nat>)
    ensures PicksInOrder(forums, parent, WithParent(forums, parent), idx)
    decreases |forums|
  {
    if |forums| == 0 {
      idx := [];
    } else {
      var cs := WithParent(forums[1..], parent);
      var tail := WithParentPicks(forums[1..], parent);
      var shifted := PicksShift(forums, parent, cs, tail);
      if forums[0].parent == parent {
        idx := [0] + shifted;
        PicksTake(forums, parent, cs, shifted);
      } else {
        idx := shifted;
      }
    }
  }

  /** Positions picked in the tail of a list, moved up by one. */
  lemma PicksShift(forums: seq<Forum>, parent: Option<nat>, cs: seq<Forum>, tail: seq<nat>) returns (shifted: seq<nat>)
    requires |forums| > 0 && PicksInOrder(forums[1..], parent, cs, tail)
    ensures |shifted| == |cs|
    ensures forall k :: 0 <= k < |shifted| ==> 0 < shifted[k] < |forums| && forums[shifted[k]] == cs[k]
    ensures forall j, k :: 0 <= j < k < |shifted| ==> shifted[j] < shifted[k]
    ensures forall i :: 0 < i < |forums| && forums[i].parent == parent ==> i in shifted
  {
    shifted := seq(|tail|, k requires 0 <= k < |tail| => tail[k] + 1);
    forall i | 0 < i < |forums| && forums[i].parent == parent
      ensures i in shifted
    {
      ShiftedHas(forums, parent, cs, tail, shifted, i);
    }
  }

  lemma ShiftedHas(forums: seq<Forum>, parent: Option<nat>, cs: seq<Forum>, tail: seq<nat>, shifted: seq<nat>, i: nat)
    requires |forums| > 0 && PicksInOrder(forums[1..], parent, cs, tail)
    requires |shifted| == |tail| && forall k :: 0 <= k < |tail| ==> shifted[k] == tail[k] + 1
    requires 0 < i < |forums| && forums[i].parent == parent
    ensures i in shifted
  {
    assert forums[1..][i - 1] == forums[i];
    var k :| 0 <= k < |tail| && tail[k] == i - 1;
    assert shifted[k] == i;
  }

  /** Picking position 0 in front of positions picked after it. */
  lemma PicksTake(forums: seq<Forum>, parent: Option<nat>, cs: seq<Forum>, shifted: seq<nat>)
    requires |forums| > 0 && forums[0].parent == parent && |shifted| == |cs|
    requires forall k :: 0 <= k < |shifted| ==> 0 < shifted[k] < |forums| && forums[shifted[k]] == cs[k]
    requires forall j, k :: 0 <= j < k < |shifted| ==> shifted[j] < shifted[k]
    requires forall i :: 0 < i < |forums| && forums[i].parent == parent ==> i in shifted
    ensures PicksInOrder(forums, parent, [forums[0]] + cs, [0] + shifted)
  {
    var idx := [0] + shifted;
    assert forall k :: 0 < k < |idx| ==> idx[k] == shifted[k - 1];
  }

  /**
   * The filter keeps the order of the list and repeats nothing: its result
   * is the list's forums with parent `parent`, picked at increasing positions.
   */
  lemma WithParentInOrder(forums: seq<Forum>, parent: Option<nat>)
    ensures exists idx :: PicksInOrder(forums, parent, WithParent(forums, parent), idx)
  {
    var idx := WithParentPicks(forums, parent);
  }

  /** `Forum.children`: the forums whose parent is `id`, in list order. */
  function Children(forums: seq<Forum>, id: nat): (cs: seq<Forum>)
    ensures forall c :: c in cs <==> c in forums && c.parent == Some(id)
  {
    WithParent(forums, Some(id))
  }

  // ---------------------------------------------------------------- parents

  /**
   * The parents of `f` from its direct parent up to the category,
   * `seen` holding the ids visited so far.
   */
  function ParentsFrom(forums: seq<Forum>, f: Forum, seen: set<nat>): Result<seq<Forum>, TreeError>
    decreases Ids(forums) - seen
  {
    match f.parent
    case None => Ok([])
    case Some(pid) =>
      match FindForum(forums, pid)
      case None => Err(MissingForum(pid))
      case Some(p) =>
        if p.id in seen then Err(Cycle)
        else
          var rest :- ParentsFrom(forums, p, seen + {p.id});
          Ok([p] + rest)
  }

  /** `Forum.get_parents`: every parent forum of forum `id` up to the root level. */
  function GetParents(forums: seq<Forum>, id: nat): (r: Result<seq<Forum>, TreeError>)
    ensures FindForum(forums, id).None? ==> r == Err(MissingForum(id))
    ensures r.Ok? ==> FindForum(forums, id).Some?
    ensures r.Ok? ==> var f := FindForum(forums, id).value;
      ParentChain(forums, f, r.value) && DistinctIds([f] + r.value)
  {
    match FindForum(forums, id)
    case None => Err(MissingForum(id))
    case Some(f) =>
      ParentsFromDistinct(forums, f, {f.id});
      ParentsFromChain(forums, f, {f.id});
      ParentsFrom(forums, f, {f.id})
  }

  /**
   * `ps` is the chain of parents of `f`: the first is `f`'s parent, each
   * next one the parent of the one before, and the last is a category.
   */
  predicate ParentChain(forums: seq<Forum>, f: Forum, ps: seq<Forum>) {
    && (forall i :: 0 <= i < |ps| ==> ps[i] in forums)
    && (|ps| == 0 ==> f.parent.None?)
    && (|ps| > 0 ==> f.parent == Some(ps[0].id) && ps[|ps| - 1].parent.None?)
    && (forall i :: 0 <= i < |ps| - 1 ==> ps[i].parent == Some(ps[i + 1].id))
  }

  /** No id occurs twice in the list. */
  predicate DistinctIds(fs: seq<Forum>) {
    forall i, j :: 0 <= i < j < |fs| ==> fs[i].id != fs[j].id
  }

  lemma {:induction false} ParentsFromChain(forums: seq<Forum>, f: Forum, seen: set<nat>)
    ensures var r := ParentsFrom(forums, f, seen);
      r.Ok? ==> ParentChain(forums, f, r.value) && forall i :: 0 <= i < |r.value| ==> r.value[i].id !in seen
    decreases Ids(forums) - seen
  {
    if f.parent.Some? {
      var p := FindForum(forums, f.parent.value);
      if p.Some? && p.value.id !in seen {
        ParentsFromChain(forums, p.value, seen + {p.value.id});
      }
    }
  }

  lemma {:induction false} ParentsFromDistinct(forums: seq<Forum>, f: Forum, seen: set<nat>)
    requires f.id in seen
    ensures var r := ParentsFrom(forums, f, seen);
      r.Ok? ==> DistinctIds([f] + r.value) && forall i :: 0 <= i < |r.value| ==> r.value[i].id !in seen
    decreases Ids(forums) - seen
  {
    var r := ParentsFrom(forums, f, seen);
    if f.parent.Some? && r.Ok? && |r.value| > 0 {
      var p := FindForum(forums, f.parent.value).value;
      ParentsFromDistinct(forums, p, seen + {p.id});
      var rest := ParentsFrom(forums, p, seen + {p.id}).value;
      assert r.value == [p] + rest;
      var xs := [f] + r.value;
      assert xs == [f, p] + rest;
      forall i, j | 0 <= i < j < |xs|
        ensures xs[i].id != xs[j].id
      {
        if i >= 1 {
          assert xs[i] == ([p] + rest)[i - 1];
        }
        assert xs[j] == ([p] + rest)[j - 1];
      }
    }
  }

  /** Conversely, every repeat-free chain of parents of a listed forum is what `get_parents` returns. */
  lemma ChainGetParents(forums: seq<Forum>, f: Forum, ps: seq<Forum>)
    requires UniqueIds(forums) && f in forums
    requires ParentChain(forums, f, ps) && DistinctIds([f] + ps)
    ensures GetParents(forums, f.id) == Ok(ps)
  {
    FoundIsUnique(forums, f);
    var xs := [f] + ps;
    forall i | 0 <= i < |ps|
      ensures ps[i].id != f.id
    {
      assert xs[0] == f && xs[i + 1] == ps[i];
    }
    forall i, j | 0 <= i < j < |ps|
      ensures ps[i].id != ps[j].id
    {
      assert xs[i + 1] == ps[i] && xs[j + 1] == ps[j];
    }
    ChainParentsFrom(forums, f, ps, {f.id});
  }

  /** With unique ids, looking up a listed forum's id finds that forum. */
  lemma FoundIsUnique(forums: seq<Forum>, f: Forum)
    requires UniqueIds(forums) && f in forums
    ensures FindForum(forums, f.id) == Some(f)
  {
    var g := FindForum(forums, f.id).value;
    var i :| 0 <= i < |forums| && forums[i] == f;
    var j :| 0 <= j < |forums| && forums[j] == g;
    assert i == j;
  }

  lemma {:induction false} ChainParentsFrom(forums: seq<Forum>, f: Forum, ps: seq<Forum>, seen: set<nat>)
    requires UniqueIds(forums)
    requires ParentChain(forums, f, ps) && forall i :: 0 <= i < |ps| ==> ps[i].id !in seen
    requires DistinctIds(ps)
    ensures ParentsFrom(forums, f, seen) == Ok(ps)
    decreases |ps|
  {
    if |ps| > 0 {
      var p := ps[0];
      FoundIsUnique(forums, p);
      var rest := ps[1..];
      assert ParentChain(forums, p, rest) by {
        forall i | 0 <= i < |rest| - 1
          ensures rest[i].parent == Some(rest[i + 1].id)
        {
          assert rest[i] == ps[i + 1] && rest[i + 1] == ps[i + 2];
        }
      }
      forall i | 0 <= i < |rest|
        ensures rest[i].id !in seen + {p.id}
      {
        assert rest[i] == ps[i + 1];
      }
      ChainParentsFrom(forums, p, rest, seen + {p.id});
      assert ps == [p] + rest;
    }
  }

  // ------------------------------------------------------------ descendants

  /** The descendants of forum `id`, `path` holding the ids from the start forum down to it. */
  function Descend(forums: seq<Forum>, id: nat, path: set<nat>): Result<seq<Forum>, TreeError>
    decreases Ids(forums) - path, 1, 0
  {
    DescendAll(forums, Children(forums, id), path)
  }

  /** Each forum of `cs` followed by its descendants, in order. */
  function DescendAll(forums: seq<Forum>, cs: seq<Forum>, path: set<nat>): Result<seq<Forum>, TreeError>
    requires forall c :: c in cs ==> c in forums
    decreases Ids(forums) - path, 0, |cs|
  {
    if |cs| == 0 then Ok([])
    else if cs[0].id in path then Err(Cycle)
    else
      assert cs[0] in forums;
      var below :- Descend(forums, cs[0].id, path + {cs[0].id});
      var rest :- DescendAll(forums, cs[1..], path);
      Ok([cs[0]] + below + rest)
  }

  /**
   * `Forum.descendants`: the children of `f`, each followed by its own
   * descendants. A successful walk lists forums of the list, each the child
   * of `f` or of a forum listed before it, and misses no child of `f` or of
   * a listed forum. With unique ids no forum is listed twice, and `f`
   * itself is not listed.
   */
  function Descendants(forums: seq<Forum>, f: Forum): (r: Result<seq<Forum>, TreeError>)
    ensures r.Ok? ==> && (forall g :: g in r.value ==> g in forums)
                      && ParentsBefore(r.value, f.id)
                      && ClosedUnder(forums, r.value, f.id)
    ensures UniqueIds(forums) && r.Ok? ==>
      DistinctIds(r.value) && forall g :: g in r.value ==> g.id != f.id
  {
    DescendSound(forums, f.id, {f.id});
    DescendClosed(forums, f.id, {f.id});
    var r := Descend(forums, f.id, {f.id});
    if UniqueIds(forums) then DescendDistinct(forums, f.id, {f.id}); r else r
  }

  /** Every forum of `xs` has parent `id` or a forum listed before it as parent. */
  predicate ParentsBefore(xs: seq<Forum>, id: nat) {
    forall i :: 0 <= i < |xs| ==>
      xs[i].parent == Some(id) || exists j :: 0 <= j < i && xs[i].parent == Some(xs[j].id)
  }

  /** Every child of `id` and of every forum of `xs` is in `xs`. */
  predicate ClosedUnder(forums: seq<Forum>, xs: seq<Forum>, id: nat) {
    && (forall c :: c in forums && c.parent == Some(id) ==> c in xs)
    && (forall g, c :: g in xs && c in forums && c.parent == Some(g.id) ==> c in xs)
  }

  lemma ParentsBeforeJoin(c: Forum, below: seq<Forum>, rest: seq<Forum>, id: nat)
    requires c.parent == Some(id) && ParentsBefore(below, c.id) && ParentsBefore(rest, id)
    ensures ParentsBefore([c] + below + rest, id)
  {
    var xs := [c] + below + rest;
    forall i | 0 <= i < |xs|
      ensures xs[i].parent == Some(id) || exists j :: 0 <= j < i && xs[i].parent == Some(xs[j].id)
    {
      if 1 <= i <= |below| {
        ParentBeforeBelow(c, below, rest, i);
      } else if i > |below| {
        ParentBeforeRest(c, below, rest, id, i);
      }
    }
  }

  /** An entry from `below` has `c` or an earlier entry of `below` as parent. */
  lemma ParentBeforeBelow(c: Forum, below: seq<Forum>, rest: seq<Forum>, i: nat)
    requires ParentsBefore(below, c.id) && 1 <= i <= |below|
    ensures var xs := [c] + below + rest;
      exists j :: 0 <= j < i && xs[i].parent == Some(xs[j].id)
  {
    var xs := [c] + below + rest;
    assert xs[i] == below[i - 1];
    if below[i - 1].parent != Some(c.id) {
      var j :| 0 <= j < i - 1 && below[i - 1].parent == Some(below[j].id);
      assert xs[j + 1] == below[j];
    } else {
      assert xs[0] == c;
    }
  }

  /** An entry from `rest` has parent `id` or an earlier entry of `rest` as parent. */
  lemma ParentBeforeRest(c: Forum, below: seq<Forum>, rest: seq<Forum>, id: nat, i: nat)
    requires ParentsBefore(rest, id) && |below| < i < 1 + |below| + |rest|
    ensures var xs := [c] + below + rest;
      xs[i].parent == Some(id) || exists j :: 0 <= j < i && xs[i].parent == Some(xs[j].id)
  {
    var xs := [c] + below + rest;
    var k := i - 1 - |below|;
    assert xs[i] == rest[k];
    if rest[k].parent != Some(id) {
      var j :| 0 <= j < k && rest[k].parent == Some(rest[j].id);
      assert xs[j + 1 + |below|] == rest[j];
    }
  }

  lemma {:induction false} DescendSound(forums: seq<Forum>, id: nat, path: set<nat>)
    ensures var r := Descend(forums, id, path);
      r.Ok? ==> ParentsBefore(r.value, id) && forall g :: g in r.value ==> g in forums
    decreases Ids(forums) - path, 1, 0
  {
    DescendAllSound(forums, Children(forums, id), path, id);
  }

  lemma {:induction false} DescendAllSound(forums: seq<Forum>, cs: seq<Forum>, path: set<nat>, id: nat)
    requires forall c :: c in cs ==> c in forums && c.parent == Some(id)
    ensures var r := DescendAll(forums, cs, path);
      r.Ok? ==> ParentsBefore(r.value, id) && forall g :: g in r.value ==> g in forums
    decreases Ids(forums) - path, 0, |cs|
  {
    if |cs| > 0 && cs[0].id !in path {
      assert cs[0] in forums;
      var below := Descend(forums, cs[0].id, path + {cs[0].id});
      var rest := DescendAll(forums, cs[1..], path);
      DescendSound(forums, cs[0].id, path + {cs[0].id});
      DescendAllSound(forums, cs[1..], path, id);
      if below.Ok? && rest.Ok? {
        ParentsBeforeJoin(cs[0], below.value, rest.value, id);
      }
    }
  }

  lemma {:induction false} DescendClosed(forums: seq<Forum>, id: nat, path: set<nat>)
    ensures var r := Descend(forums, id, path);
      r.Ok? ==> ClosedUnder(forums, r.value, id)
    decreases Ids(forums) - path, 1, 0
  {
    var cs := Children(forums, id);
    DescendAllClosed(forums, cs, path);
  }

  lemma {:induction false} DescendAllClosed(forums: seq<Forum>, cs: seq<Forum>, path: set<nat>)
    requires forall c :: c in cs ==> c in forums
    ensures var r := DescendAll(forums, cs, path);
      r.Ok? ==>
        && (forall c :: c in cs ==> c in r.value)
        && (forall g, c :: g in r.value && c in forums && c.parent == Some(g.id) ==> c in r.value)
    decreases Ids(forums) - path, 0, |cs|
  {
    var r := DescendAll(forums, cs, path);
    if |cs| > 0 && cs[0].id !in path && r.Ok? {
      assert cs[0] in forums;
      var below := Descend(forums, cs[0].id, path + {cs[0].id});
      var rest := DescendAll(forums, cs[1..], path);
      DescendClosed(forums, cs[0].id, path + {cs[0].id});
      DescendAllClosed(forums, cs[1..], path);
      assert r.value == [cs[0]] + below.value + rest.value;
      forall c | c in cs
        ensures c in r.value
      {
        if c != cs[0] {
          assert c in cs[1..];
        }
      }
    }
  }

  /** With unique ids, two listed forums with the same id are the same forum. */
  lemma IdsPickForum(forums: seq<Forum>, g: Forum, h: Forum)
    requires UniqueIds(forums) && g in forums && h in forums
    ensures g.id == h.id ==> g == h
  {
    var i :| 0 <= i < |forums| && forums[i] == g;
    var j :| 0 <= j < |forums| && forums[j] == h;
  }

  /** With unique ids, the forums below one parent have distinct ids. */
  lemma ChildrenDistinct(forums: seq<Forum>, parent: Option<nat>)
    requires UniqueIds(forums)
    ensures DistinctIds(WithParent(forums, parent))
  {
    var idx := WithParentPicks(forums, parent);
    var cs := WithParent(forums, parent);
    forall j, k | 0 <= j < k < |cs|
      ensures cs[j].id != cs[k].id
    {
      assert cs[j] == forums[idx[j]] && cs[k] == forums[idx[k]] && idx[j] < idx[k];
    }
  }

  /** The forum `n` parent links above `g` (`g` itself for 0), if the links lead that far. */
  function Up(forums: seq<Forum>, g: Forum, n: nat): Option<Forum>
    decreases n
  {
    if n == 0 then Some(g)
    else match g.parent
      case None => None
      case Some(p) =>
        match FindForum(forums, p)
        case None => None
        case Some(h) => Up(forums, h, n - 1)
  }

  lemma {:induction false} UpStep(forums: seq<Forum>, g: Forum, n: nat, a: Forum)
    requires Up(forums, g, n) == Some(a)
    ensures Up(forums, g, n + 1) == Up(forums, a, 1)
    decreases n
  {
    if n > 0 {
      var h := FindForum(forums, g.parent.value).value;
      UpStep(forums, h, n - 1, a);
    }
  }

  /** The first `n + 1` forums up from `g` are all in `xs`, and the last of them has parent `r`. */
  predicate RootedIn(forums: seq<Forum>, xs: seq<Forum>, r: nat, g: Forum, n: nat) {
    && (forall k :: 0 <= k <= n ==> Up(forums, g, k).Some? && Up(forums, g, k).value in xs)
    && Up(forums, g, n).Some? && Up(forums, g, n).value.parent == Some(r)
  }

  /** In a list where each forum's parent is `r` or listed earlier, every forum climbs within the list to a child of `r`. */
  lemma {:induction false} ReachesRoot(forums: seq<Forum>, xs: seq<Forum>, r: nat, i: nat) returns (n: nat)
    requires UniqueIds(forums) && ParentsBefore(xs, r) && i < |xs|
    requires forall x :: x in xs ==> x in forums
    ensures RootedIn(forums, xs, r, xs[i], n)
    decreases i
  {
    if xs[i].parent == Some(r) {
      n := 0;
      assert Up(forums, xs[i], 0) == Some(xs[i]);
    } else {
      var j :| 0 <= j < i && xs[i].parent == Some(xs[j].id);
      var m := ReachesRoot(forums, xs, r, j);
      FoundIsUnique(forums, xs[j]);
      n := m + 1;
      forall k | 0 <= k <= n
        ensures Up(forums, xs[i], k).Some? && Up(forums, xs[i], k).value in xs
      {
        if k > 0 {
          assert Up(forums, xs[i], k) == Up(forums, xs[j], k - 1);
        } else {
          assert xs[i] in xs;
        }
      }
      assert Up(forums, xs[i], n) == Up(forums, xs[j], m);
    }
  }

  /**
   * The descendants of a child `c` of `id` and those of the later children
   * share no forum: climbing from a shared one would reach `c` inside the
   * later part, or the forum `id` itself inside the part below `c`.
   */
  lemma BelowRestDisjoint(forums: seq<Forum>, c: Forum, below: seq<Forum>, rest: seq<Forum>, path: set<nat>, id: nat)
    requires UniqueIds(forums) && c in forums && c.parent == Some(id) && id in path && c.id !in path
    requires ParentsBefore(below, c.id) && ParentsBefore(rest, id)
    requires forall g :: g in below ==> g in forums && g.id !in path
    requires forall g :: g in rest ==> g in forums
    requires c !in rest
    ensures forall g :: g in below ==> g !in rest
  {
    forall g | g in below
      ensures g !in rest
    {
      if g in rest {
        var i1 :| 0 <= i1 < |below| && below[i1] == g;
        var i2 :| 0 <= i2 < |rest| && rest[i2] == g;
        var n1 := ReachesRoot(forums, below, c.id, i1);
        var n2 := ReachesRoot(forums, rest, id, i2);
        if n1 < n2 {
          UpStep(forums, g, n1, Up(forums, g, n1).value);
          var y := Up(forums, g, n1 + 1).value;
          IdsPickForum(forums, y, c);
        }
      }
    }
  }

  /** A forum, then the forums below it, then later ones: no id repeats when the parts share none. */
  lemma DistinctJoin(forums: seq<Forum>, c: Forum, below: seq<Forum>, rest: seq<Forum>)
    requires UniqueIds(forums) && c in forums
    requires forall g :: g in below ==> g in forums && g.id != c.id && g !in rest
    requires forall g :: g in rest ==> g in forums && g != c
    requires DistinctIds(below) && DistinctIds(rest)
    ensures DistinctIds([c] + below + rest)
  {
    var xs := [c] + below + rest;
    forall i, j | 0 <= i < j < |xs|
      ensures xs[i].id != xs[j].id
    {
      if i == 0 {
        JoinHead(forums, c, below, rest, j);
      } else if j <= |below| {
        assert xs[i] == below[i - 1] && xs[j] == below[j - 1];
      } else if i > |below| {
        assert xs[i] == rest[i - 1 - |below|] && xs[j] == rest[j - 1 - |below|];
      } else {
        assert xs[i] == below[i - 1] && xs[j] == rest[j - 1 - |below|];
        IdsPickForum(forums, xs[i], xs[j]);
      }
    }
  }

  lemma JoinHead(forums: seq<Forum>, c: Forum, below: seq<Forum>, rest: seq<Forum>, j: nat)
    requires UniqueIds(forums) && c in forums
    requires forall g :: g in below ==> g.id != c.id
    requires forall g :: g in rest ==> g in forums && g != c
    requires 0 < j < 1 + |below| + |rest|
    ensures ([c] + below + rest)[j].id != c.id
  {
    var xs := [c] + below + rest;
    if j <= |below| {
      assert xs[j] == below[j - 1];
    } else {
      assert xs[j] == rest[j - 1 - |below|];
      IdsPickForum(forums, xs[j], c);
    }
  }

  lemma {:induction false} DescendDistinct(forums: seq<Forum>, id: nat, path: set<nat>)
    requires UniqueIds(forums) && id in path
    ensures var r := Descend(forums, id, path);
      r.Ok? ==> DistinctIds(r.value) && forall g :: g in r.value ==> g.id !in path
    decreases Ids(forums) - path, 1, 0
  {
    ChildrenDistinct(forums, Some(id));
    DescendAllDistinct(forums, Children(forums, id), path, id);
  }

  lemma {:induction false} DescendAllDistinct(forums: seq<Forum>, cs: seq<Forum>, path: set<nat>, id: nat)
    requires UniqueIds(forums) && id in path && DistinctIds(cs)
    requires forall c :: c in cs ==> c in forums && c.parent == Some(id)
    ensures var r := DescendAll(forums, cs, path);
      r.Ok? ==> && DistinctIds(r.value)
                && (forall g :: g in r.value ==> g.id !in path)
                && (forall g :: g in r.value && g.parent == Some(id) ==> g in cs)
    decreases Ids(forums) - path, 0, |cs|
  {
    var r := DescendAll(forums, cs, path);
    if |cs| > 0 && cs[0].id !in path && r.Ok? {
      var c := cs[0];
      assert c in cs;
      var below := Descend(forums, c.id, path + {c.id}).value;
      var rest := DescendAll(forums, cs[1..], path).value;
      assert r.value == [c] + below + rest;
      assert DistinctIds(cs[1..]) by {
        forall j, k | 0 <= j < k < |cs| - 1
          ensures cs[1..][j].id != cs[1..][k].id
        {
          assert cs[1..][j] == cs[j + 1] && cs[1..][k] == cs[k + 1];
        }
      }
      assert c !in cs[1..] by {
        forall k | 0 <= k < |cs| - 1
          ensures cs[1..][k].id != c.id
        {
          assert cs[1..][k] == cs[k + 1];
        }
      }
      DescendDistinct(forums, c.id, path + {c.id});
      DescendAllDistinct(forums, cs[1..], path, id);
      DescendSound(forums, c.id, path + {c.id});
      DescendAllSound(forums, cs[1..], path, id);
      forall g | g in below
        ensures g.parent != Some(id)
      {
        var i :| 0 <= i < |below| && below[i] == g;
      }
      BelowRestDisjoint(forums, c, below, rest, path, id);
      DistinctJoin(forums, c, below, rest);
    }
  }

  // ------------------------------------------------- get_children_recursive

  /** An entry of the forum index: the indentation depth and the forum. */
  datatype Entry = Entry(offset: nat, forum: Forum)

  /**
   * The entries below `parent` (`None`: from the categories on) at depth
   * `offset`, `path` holding the ids of the forums above them.
   */
  function Indent(forums: seq<Forum>, parent: Option<nat>, offset: nat, path: set<nat>): Result<seq<Entry>, TreeError>
    decreases Ids(forums) - path, 1, 0
  {
    IndentAll(forums, WithParent(forums, parent), offset, path)
  }

  function IndentAll(forums: seq<Forum>, ms: seq<Forum>, offset: nat, path: set<nat>): Result<seq<Entry>, TreeError>
    requires forall c :: c in ms ==> c in forums
    decreases Ids(forums) - path, 0, |ms|
  {
    if |ms| == 0 then Ok([])
    else if ms[0].id in path then Err(Cycle)
    else
      assert ms[0] in forums;
      var below :- Indent(forums, Some(ms[0].id), offset + 1, path + {ms[0].id});
      var rest :- IndentAll(forums, ms[1..], offset, path);
      Ok([Entry(offset, ms[0])] + below + rest)
  }

  /**
   * `Forum.get_children_recursive(forums, parent, offset)`. The listing
   * starts at `offset`, steps at most one level deeper at a time, and its
   * entries at depth `offset` are exactly the forums below `parent`, in
   * list order. Every deeper entry is the child of an earlier entry one
   * level up, so each forum's offset is its depth below `parent`.
   */
  function ChildrenRecursive(forums: seq<Forum>, parent: Option<nat>, offset: nat): (r: Result<seq<Entry>, TreeError>)
    ensures r.Ok? ==> Indentation(r.value, offset) && AtDepth(r.value, offset) == WithParent(forums, parent)
    ensures r.Ok? ==> DepthLinked(r.value, offset, parent)
  {
    IndentShape(forums, parent, offset, if parent.Some? then {parent.value} else {});
    IndentLinked(forums, parent, offset, if parent.Some? then {parent.value} else {});
    Indent(forums, parent, offset, if parent.Some? then {parent.value} else {})
  }

  function ForumsOf(es: seq<Entry>): (fs: seq<Forum>)
    ensures |fs| == |es| && forall i :: 0 <= i < |es| ==> fs[i] == es[i].forum
  {
    if |es| == 0 then [] else [es[0].forum] + ForumsOf(es[1..])
  }

  /** The forums of the entries at depth `offset`, in order. */
  function AtDepth(es: seq<Entry>, offset: nat): seq<Forum> {
    if |es| == 0 then []
    else if es[0].offset == offset then [es[0].forum] + AtDepth(es[1..], offset)
    else AtDepth(es[1..], offset)
  }

  /**
   * Index indentation: entries start at depth `offset`, never go above it,
   * and go at most one level deeper from one entry to the next.
   */
  predicate Indentation(es: seq<Entry>, offset: nat) {
    && (|es| > 0 ==> es[0].offset == offset)
    && (forall i :: 0 <= i < |es| ==> es[i].offset >= offset)
    && (forall i :: 0 <= i < |es| - 1 ==> es[i + 1].offset <= es[i].offset + 1)
  }

  lemma ForumsOfAppend(a: seq<Entry>, b: seq<Entry>)
    ensures ForumsOf(a + b) == ForumsOf(a) + ForumsOf(b)
  {
  }

  lemma {:induction false} AtDepthAppend(a: seq<Entry>, b: seq<Entry>, offset: nat)
    ensures AtDepth(a + b, offset) == AtDepth(a, offset) + AtDepth(b, offset)
    decreases |a|
  {
    if |a| > 0 {
      assert (a + b)[1..] == a[1..] + b;
      AtDepthAppend(a[1..], b, offset);
    } else {
      assert a + b == b;
    }
  }

  lemma {:induction false} AtDepthDeeper(es: seq<Entry>, offset: nat)
    requires forall i :: 0 <= i < |es| ==> es[i].offset > offset
    ensures AtDepth(es, offset) == []
    decreases |es|
  {
    if |es| > 0 {
      AtDepthDeeper(es[1..], offset);
    }
  }

  lemma IndentationJoin(e: Entry, below: seq<Entry>, rest: seq<Entry>)
    requires Indentation(below, e.offset + 1) && Indentation(rest, e.offset)
    ensures Indentation([e] + below + rest, e.offset)
  {
    var xs := [e] + below + rest;
    forall i | 0 <= i < |xs| - 1
      ensures xs[i + 1].offset <= xs[i].offset + 1
    {
      if i == 0 {
        assert xs[1] == if |below| > 0 then below[0] else rest[0];
      } else if i < |below| {
        assert xs[i] == below[i - 1] && xs[i + 1] == below[i];
      } else if i == |below| {
        assert xs[i + 1] == rest[0];
      } else {
        assert xs[i] == rest[i - 1 - |below|] && xs[i + 1] == rest[i - |below|];
      }
    }
    forall i | 0 <= i < |xs|
      ensures xs[i].offset >= e.offset
    {
      if i > |below| {
        assert xs[i] == rest[i - 1 - |below|];
      }
    }
  }

  lemma {:induction false} IndentShape(forums: seq<Forum>, parent: Option<nat>, offset: nat, path: set<nat>)
    ensures var r := Indent(forums, parent, offset, path);
      r.Ok? ==> Indentation(r.value, offset) && AtDepth(r.value, offset) == WithParent(forums, parent)
    decreases Ids(forums) - path, 1, 0
  {
    IndentAllShape(forums, WithParent(forums, parent), offset, path);
  }

  lemma {:induction false} IndentAllShape(forums: seq<Forum>, ms: seq<Forum>, offset: nat, path: set<nat>)
    requires forall c :: c in ms ==> c in forums
    ensures var r := IndentAll(forums, ms, offset, path);
      r.Ok? ==> Indentation(r.value, offset) && AtDepth(r.value, offset) == ms
    decreases Ids(forums) - path, 0, |ms|
  {
    var r := IndentAll(forums, ms, offset, path);
    if |ms| > 0 && ms[0].id !in path && r.Ok? {
      assert ms[0] in forums;
      var below := Indent(forums, Some(ms[0].id), offset + 1, path + {ms[0].id}).value;
      var rest := IndentAll(forums, ms[1..], offset, path).value;
      IndentShape(forums, Some(ms[0].id), offset + 1, path + {ms[0].id});
      IndentAllShape(forums, ms[1..], offset, path);
      var e := Entry(offset, ms[0]);
      assert r.value == [e] + below + rest;
      IndentationJoin(e, below, rest);
      AtDepthAppend([e] + below, rest, offset);
      AtDepthAppend([e], below, offset);
      AtDepthDeeper(below, offset);
      assert ms == [ms[0]] + ms[1..];
    }
  }

  /** Both walks take the same route and stop at the same cycle. */
  predicate SameWalk(r: Result<seq<Entry>, TreeError>, d: Result<seq<Forum>, TreeError>) {
    && (r.Ok? <==> d.Ok?)
    && (r.Ok? ==> ForumsOf(r.value) == d.value)
    && (r.Err? ==> r.error == d.error)
  }

  lemma {:induction false} IndentDescend(forums: seq<Forum>, id: nat, offset: nat, path: set<nat>)
    ensures SameWalk(Indent(forums, Some(id), offset, path), Descend(forums, id, path))
    decreases Ids(forums) - path, 1, 0
  {
    IndentAllDescendAll(forums, Children(forums, id), offset, path);
  }

  lemma {:induction false} IndentAllDescendAll(forums: seq<Forum>, ms: seq<Forum>, offset: nat, path: set<nat>)
    requires forall c :: c in ms ==> c in forums
    ensures SameWalk(IndentAll(forums, ms, offset, path), DescendAll(forums, ms, path))
    decreases Ids(forums) - path, 0, |ms|
  {
    if |ms| > 0 && ms[0].id !in path {
      assert ms[0] in forums;
      IndentDescend(forums, ms[0].id, offset + 1, path + {ms[0].id});
      IndentAllDescendAll(forums, ms[1..], offset, path);
      var below := Indent(forums, Some(ms[0].id), offset + 1, path + {ms[0].id});
      var rest := IndentAll(forums, ms[1..], offset, path);
      if below.Ok? && rest.Ok? {
        ForumsOfAppend([Entry(offset, ms[0])] + below.value, rest.value);
        ForumsOfAppend([Entry(offset, ms[0])], below.value);
      }
    }
  }

  /** The forums listed by `get_children_recursive` below `f` are exactly `f.descendants`. */
  lemma ChildrenRecursiveAreDescendants(forums: seq<Forum>, f: Forum, offset: nat)
    ensures SameWalk(ChildrenRecursive(forums, Some(f.id), offset), Descendants(forums, f))
  {
    IndentDescend(forums, f.id, offset, {f.id});
  }

  /** The position of the last entry before position `i` at depth `d`, if any. */
  function LastAt(es: seq<Entry>, i: nat, d: nat): (r: Option<nat>)
    requires i <= |es|
    ensures r.Some? ==> r.value < i && es[r.value].offset == d
    ensures r.None? ==> forall k :: 0 <= k < i ==> es[k].offset != d
    decreases i
  {
    if i == 0 then None
    else if es[i - 1].offset == d then Some(i - 1)
    else LastAt(es, i - 1, d)
  }

  /**
   * The entries at depth `offset` have parent `parent`, and every deeper
   * entry is the child of the nearest earlier entry one level up.
   */
  predicate DepthLinked(es: seq<Entry>, offset: nat, parent: Option<nat>) {
    && (forall i :: 0 <= i < |es| && es[i].offset == offset ==> es[i].forum.parent == parent)
    && (forall i {:trigger LinkedUp(es, i)} :: 0 <= i < |es| && es[i].offset > offset ==> LinkedUp(es, i))
  }

  /** The entry at position `i` is a child of the nearest earlier entry one level up. */
  predicate LinkedUp(es: seq<Entry>, i: nat) {
    && i < |es| && es[i].offset > 0
    && var j := LastAt(es, i, es[i].offset - 1);
       j.Some? && es[i].forum.parent == Some(es[j.value].forum.id)
  }

  lemma {:induction false} LastAtPrefix(a: seq<Entry>, b: seq<Entry>, i: nat, d: nat)
    requires i <= |a|
    ensures LastAt(a + b, i, d) == LastAt(a, i, d)
    decreases i
  {
    if i > 0 {
      assert (a + b)[i - 1] == a[i - 1];
      LastAtPrefix(a, b, i - 1, d);
    }
  }

  lemma {:induction false} LastAtShift(a: seq<Entry>, b: seq<Entry>, k: nat, d: nat)
    requires k <= |b| && LastAt(b, k, d).Some?
    ensures LastAt(a + b, |a| + k, d) == Some(|a| + LastAt(b, k, d).value)
    decreases k
  {
    assert (a + b)[|a| + k - 1] == b[k - 1];
    if b[k - 1].offset != d {
      LastAtShift(a, b, k - 1, d);
    }
  }

  /** A child of `e` in `below` finds `e` as the nearest entry one level up. */
  lemma LinkedDirect(e: Entry, below: seq<Entry>, rest: seq<Entry>, k: nat)
    requires k < |below| && forall m :: 0 <= m < k ==> below[m].offset != e.offset
    ensures LastAt([e] + below + rest, 1 + k, e.offset) == Some(0)
  {
    var xs := [e] + below + rest;
    assert xs == [e] + (below + rest);
    LastAtPrefix(below, rest, k, e.offset);
    assert LastAt(below, k, e.offset).None?;
    assert LastAt(xs, 1, e.offset) == Some(0);
  }

  /** A deeper entry of `below` finds the same entry one level up once `e` is in front and `rest` after. */
  lemma LinkedDeep(e: Entry, below: seq<Entry>, rest: seq<Entry>, k: nat, d: nat)
    requires k < |below| && LastAt(below, k, d).Some?
    ensures LastAt([e] + below + rest, 1 + k, d) == Some(1 + LastAt(below, k, d).value)
  {
    assert [e] + below + rest == [e] + (below + rest);
    LastAtPrefix(below, rest, k, d);
    LastAtShift([e], below + rest, k, d);
  }

  /** A deeper entry taken from `below` keeps its parent link once `e` is put in front and `rest` after. */
  lemma LinkedBelow(e: Entry, below: seq<Entry>, rest: seq<Entry>, k: nat)
    requires Indentation(below, e.offset + 1) && DepthLinked(below, e.offset + 1, Some(e.forum.id))
    requires k < |below|
    ensures LinkedUp([e] + below + rest, 1 + k)
  {
    var xs := [e] + below + rest;
    assert xs[1 + k] == below[k];
    if below[k].offset == e.offset + 1 {
      LinkedDirect(e, below, rest, k);
      assert xs[0] == e;
    } else {
      var d := below[k].offset - 1;
      assert LinkedUp(below, k);
      LinkedDeep(e, below, rest, k, d);
      assert xs[1 + LastAt(below, k, d).value] == below[LastAt(below, k, d).value];
    }
  }

  /** An entry taken from `rest` keeps its parent link once `e` and `below` are put in front. */
  lemma LinkedRest(e: Entry, below: seq<Entry>, rest: seq<Entry>, parent: Option<nat>, k: nat)
    requires DepthLinked(rest, e.offset, parent) && k < |rest| && rest[k].offset > e.offset
    ensures LinkedUp([e] + below + rest, 1 + |below| + k)
  {
    var xs := [e] + below + rest;
    var d := rest[k].offset - 1;
    assert xs[1 + |below| + k] == rest[k];
    assert LinkedUp(rest, k);
    LastAtShift([e] + below, rest, k, d);
    assert xs[1 + |below| + LastAt(rest, k, d).value] == rest[LastAt(rest, k, d).value];
  }

  lemma DepthLinkedJoin(e: Entry, below: seq<Entry>, rest: seq<Entry>, parent: Option<nat>)
    requires e.forum.parent == parent
    requires Indentation(below, e.offset + 1) && DepthLinked(below, e.offset + 1, Some(e.forum.id))
    requires DepthLinked(rest, e.offset, parent)
    ensures DepthLinked([e] + below + rest, e.offset, parent)
  {
    var xs := [e] + below + rest;
    forall i | 0 <= i < |xs| && xs[i].offset == e.offset
      ensures xs[i].forum.parent == parent
    {
      if i > |below| {
        assert xs[i] == rest[i - 1 - |below|];
      }
    }
    forall i | 0 <= i < |xs| && xs[i].offset > e.offset
      ensures LinkedUp(xs, i)
    {
      if i <= |below| {
        LinkedBelow(e, below, rest, i - 1);
      } else {
        assert xs[i] == rest[i - 1 - |below|];
        LinkedRest(e, below, rest, parent, i - 1 - |below|);
      }
    }
  }

  lemma {:induction false} IndentLinked(forums: seq<Forum>, parent: Option<nat>, offset: nat, path: set<nat>)
    ensures var r := Indent(forums, parent, offset, path);
      r.Ok? ==> DepthLinked(r.value, offset, parent)
    decreases Ids(forums) - path, 1, 0
  {
    IndentAllLinked(forums, WithParent(forums, parent), offset, path, parent);
  }

  lemma {:induction false} IndentAllLinked(forums: seq<Forum>, ms: seq<Forum>, offset: nat, path: set<nat>, parent: Option<nat>)
    requires forall c :: c in ms ==> c in forums && c.parent == parent
    ensures var r := IndentAll(forums, ms, offset, path);
      r.Ok? ==> DepthLinked(r.value, offset, parent)
    decreases Ids(forums) - path, 0, |ms|
  {
    var r := IndentAll(forums, ms, offset, path);
    if |ms| > 0 && ms[0].id !in path && r.Ok? {
      assert ms[0] in ms;
      var below := Indent(forums, Some(ms[0].id), offset + 1, path + {ms[0].id}).value;
      var rest := IndentAll(forums, ms[1..], offset, path).value;
      IndentShape(forums, Some(ms[0].id), offset + 1, path + {ms[0].id});
      IndentLinked(forums, Some(ms[0].id), offset + 1, path + {ms[0].id});
      IndentAllLinked(forums, ms[1..], offset, path, parent);
      var e := Entry(offset, ms[0]);
      assert r.value == [e] + below + rest;
      DepthLinkedJoin(e, below, rest, parent);
    }
  }

  /** Every parent link leads to a forum of strictly lower rank: the links form no cycle. */
  predicate Ranked(forums: seq<Forum>, rank: nat -> nat) {
    forall c :: c in forums && c.parent.Some? ==> rank(c.parent.value) < rank(c.id)
  }

  lemma {:induction false} IndentOk(forums: seq<Forum>, parent: Option<nat>, offset: nat, path: set<nat>, rank: nat -> nat)
    requires Ranked(forums, rank)
    requires forall x :: x in path ==> parent.Some? && rank(x) <= rank(parent.value)
    ensures Indent(forums, parent, offset, path).Ok?
    decreases Ids(forums) - path, 1, 0
  {
    IndentAllOk(forums, WithParent(forums, parent), offset, path, rank);
  }

  lemma {:induction false} IndentAllOk(forums: seq<Forum>, ms: seq<Forum>, offset: nat, path: set<nat>, rank: nat -> nat)
    requires Ranked(forums, rank)
    requires forall c :: c in ms ==> c in forums && forall x :: x in path ==> rank(x) < rank(c.id)
    ensures IndentAll(forums, ms, offset, path).Ok?
    decreases Ids(forums) - path, 0, |ms|
  {
    if |ms| > 0 {
      assert ms[0] in ms;
      IndentOk(forums, Some(ms[0].id), offset + 1, path + {ms[0].id}, rank);
      IndentAllOk(forums, ms[1..], offset, path, rank);
    }
  }

  /** When the parent links form no cycle, `get_children_recursive` completes, from any parent or from the categories. */
  lemma ChildrenRecursiveOk(forums: seq<Forum>, parent: Option<nat>, offset: nat, rank: nat -> nat)
    requires Ranked(forums, rank)
    ensures ChildrenRecursive(forums, parent, offset).Ok?
  {
    IndentOk(forums, parent, offset, if parent.Some? then {parent.value} else {}, rank);
  }

  /** When the parent links form no cycle, `descendants` completes. */
  lemma DescendantsOk(forums: seq<Forum>, f: Forum, rank: nat -> nat)
    requires Ranked(forums, rank)
    ensures Descendants(forums, f).Ok?
  {
    ChildrenRecursiveOk(forums, Some(f.id), 0, rank);
    ChildrenRecursiveAreDescendants(forums, f, 0);
  }
}
