/**
 * Per-user read tracking of the forum. For every forum id the user's state
 * holds a row: a high-water mark (the last post id up to which everything
 * in the forum counts as read, possibly none) and the set of last-post ids
 * of topics read individually beyond that mark.
 *
 * The forum list and each forum's topic list are plain inputs instead of
 * database queries. Ids are database ids, so non-negative. Comparisons
 * follow Python 2, where `None` is smaller than every integer.
 */
module ReadStatus {
  import opened Wrappers
  import opened SortedSets
  import opened ForumTree

  datatype Row = Row(mark: Option<nat>, read: set<nat>)

  /** The decoded per-user state: forum id to row. */
  type Data = map<nat, Row>

  datatype Topic = Topic(forum: nat, lastPost: Option<nat>)
  datatype Item = ForumItem(f: Forum) | TopicItem(t: Topic)

  /**
   * The forums (in the order of the cached forum list), each forum's topics
   * in the order `-sticky, -last_post`, and the `FORUM_LIMIT_UNREAD` setting.
   */
  datatype Board = Board(forums: seq<Forum>, topics: map<nat, seq<Topic>>, limit: nat)

  /** Python 2 `a >= b` on optional ids: `None` is below every integer. */
  predicate PyGe(a: Option<nat>, b: Option<nat>) {
    match b
    case None => true
    case Some(y) => a.Some? && a.value >= y
  }

  /** `self.data.get(forum_id, (None, []))`. */
  function RowOf(data: Data, forumId: nat): Row {
    if forumId in data then data[forumId] else Row(None, {})
  }

  /** `ReadStatus.__call__`: whether a forum or a topic reads as read. */
  function IsRead(data: Data, item: Item): (r: bool)
    ensures item.ForumItem? ==>
      (r <==> item.f.lastPost.None? || (item.f.id in data && PyGe(data[item.f.id].mark, item.f.lastPost)))
    ensures item.TopicItem? ==>
      (r <==> item.t.lastPost.None?
              || (item.t.forum in data
                  && (PyGe(data[item.t.forum].mark, item.t.lastPost)
                      || item.t.lastPost.value in data[item.t.forum].read)))
  {
    match item
    case ForumItem(f) =>
      var row := RowOf(data, f.id);
      PyGe(row.mark, f.lastPost)
    case TopicItem(t) =>
      var row := RowOf(data, t.forum);
      if PyGe(row.mark, t.lastPost) then true
      else t.lastPost.Some? && t.lastPost.value in row.read
  }

  predicate ForumRead(data: Data, f: Forum) {
    IsRead(data, ForumItem(f))
  }

  predicate TopicRead(data: Data, t: Topic) {
    IsRead(data, TopicItem(t))
  }

  /** A row never holds individually read ids below its mark. */
  predicate RowWellFormed(row: Row) {
    row.mark.Some? ==> forall x :: x in row.read ==> x >= row.mark.value
  }

  predicate DataWellFormed(data: Data) {
    forall k :: k in data ==> RowWellFormed(data[k])
  }

  /** Every forum of the board has its own id, and every parent is a forum of the board. */
  predicate BoardWellFormed(b: Board) {
    && UniqueIds(b.forums)
    && (forall i :: 0 <= i < |b.forums| && b.forums[i].parent.Some? ==>
          exists j :: 0 <= j < |b.forums| && b.forums[j].id == b.forums[i].parent.value)
  }

  /** The first `FORUM_LIMIT_UNREAD` topics of a forum. */
  function TopTopics(b: Board, forumId: nat): seq<Topic> {
    var ts := if forumId in b.topics then b.topics[forumId] else [];
    if |ts| <= b.limit then ts else ts[..b.limit]
  }

  /** Positions in the forum list of the forums that read as unread. */
  function Unread(b: Board, data: Data): set<nat> {
    set i: nat | i < |b.forums| && !ForumRead(data, b.forums[i])
  }

  /** Every forum of the board that read as read in `d1` still does in `d2`. */
  predicate ForumsStayRead(b: Board, d1: Data, d2: Data) {
    forall g :: g in b.forums && ForumRead(d1, g) ==> ForumRead(d2, g)
  }

  /** The rows of forums of the board that read as read in `d1` are unchanged in `d2`. */
  predicate ReadRowsKept(b: Board, d1: Data, d2: Data) {
    forall g :: g in b.forums && ForumRead(d1, g) ==> RowOf(d2, g.id) == RowOf(d1, g.id)
  }

  /** No row holds more than `n` individually read ids. */
  predicate RowsBounded(data: Data, n: nat) {
    forall k :: k in data ==> |data[k].read| <= n
  }

  /** A topic whose forum is on the board and whose last post is not newer than the forum's. */
  predicate ConsistentTopic(b: Board, t: Topic) {
    var f := FindForum(b.forums, t.forum);
    f.Some? && PyGe(f.value.lastPost, t.lastPost)
  }

  /** Every consistent topic that read as read in `d1` still does in `d2`. */
  ghost predicate TopicsStayRead(b: Board, d1: Data, d2: Data) {
    forall t :: TopicRead(d1, t) && ConsistentTopic(b, t) ==> TopicRead(d2, t)
  }

  /** Rows of ids that are no forum of the board are left alone. */
  ghost predicate OtherRowsKept(b: Board, d1: Data, d2: Data) {
    forall k :: (forall i :: 0 <= i < |b.forums| ==> b.forums[i].id != k) ==>
      (k in d1 <==> k in d2) && (k in d1 ==> d1[k] == d2[k])
  }

  /** Storing a full-read row for an unread forum of the board reads it as read and unreads nothing. */
  lemma SetForumRow(b: Board, data: Data, f: Forum)
    requires BoardWellFormed(b) && f in b.forums && !ForumRead(data, f)
    ensures var d1 := data[f.id := Row(f.lastPost, {})];
      && ForumRead(d1, f)
      && ForumsStayRead(b, data, d1)
      && Unread(b, d1) < Unread(b, data)
      && OtherRowsKept(b, data, d1)
  {
    var d1 := data[f.id := Row(f.lastPost, {})];
    var k :| 0 <= k < |b.forums| && b.forums[k] == f;
    assert forall i :: 0 <= i < |b.forums| && b.forums[i].id == f.id ==> i == k;
    assert k in Unread(b, data) && k !in Unread(b, d1);
  }

  /** Whether every forum in `fs` reads as read (the `reduce` over the siblings). */
  predicate AllRead(data: Data, fs: seq<Forum>) {
    forall i :: 0 <= i < |fs| ==> ForumRead(data, fs[i])
  }

  /**
   * `mark` for a forum. An unread forum gets the row (its last post, no
   * topics); then its children are marked, and when every child of its
   * parent then reads as read, the parent is marked too. Returns whether
   * anything was marked.
   */
  function MarkForum(b: Board, data: Data, f: Forum): (r: (Data, bool))
    requires BoardWellFormed(b) && f in b.forums
    ensures r.1 <==> !ForumRead(data, f)
    ensures !r.1 ==> r.0 == data
    ensures ForumRead(r.0, f)
    ensures r.1 ==> forall c :: c in Children(b.forums, f.id) ==> ForumRead(r.0, c)
    ensures Unread(b, r.0) <= Unread(b, data)
    ensures r.1 && f.parent.Some? && f.parent.value != 0 && AllRead(r.0, Children(b.forums, f.parent.value)) ==>
      var parent := FindForum(b.forums, f.parent.value);
      parent.Some? && ForumRead(r.0, parent.value)
    decreases Unread(b, data), 0
  {
    if ForumRead(data, f) then (data, false)
    else
      SetForumRow(b, data, f);
      var d1 := data[f.id := Row(f.lastPost, {})];
      var d2 := MarkForums(b, d1, Children(b.forums, f.id));
      NotUnreadIsRead(b, d1, d2);
      var d3 := if f.parent.Some? && f.parent.value != 0 then ParentFound(b, f.parent.value); MarkParent(b, d2, f.parent.value) else d2;
      NotUnreadIsRead(b, d2, d3);
      (d3, true)
  }

  /**
   * The parent step of `mark` for a forum: the parent is marked when it
   * has children and all of them read as read.
   */
  function MarkParent(b: Board, data: Data, parentId: nat): (d: Data)
    requires BoardWellFormed(b)
    requires exists g :: g in b.forums && g.parent == Some(parentId)
    ensures Unread(b, d) <= Unread(b, data)
    decreases Unread(b, data), 1
  {
    var siblings := Children(b.forums, parentId);
    if |siblings| > 0 && AllRead(data, siblings) then
      ParentFound(b, parentId);
      MarkForum(b, data, FindForum(b.forums, parentId).value).0
    else data
  }

  /** The parent of a forum of the board is on the board. */
  lemma ParentFound(b: Board, parentId: nat)
    requires BoardWellFormed(b)
    requires exists g :: g in b.forums && g.parent == Some(parentId)
    ensures FindForum(b.forums, parentId).Some?
  {
    var g :| g in b.forums && g.parent == Some(parentId);
    var i :| 0 <= i < |b.forums| && b.forums[i] == g;
    var j :| 0 <= j < |b.forums| && b.forums[j].id == parentId;
  }

  /** `mark` applied to each forum of `fs` in turn. */
  function MarkForums(b: Board, data: Data, fs: seq<Forum>): (d: Data)
    requires BoardWellFormed(b) && forall c :: c in fs ==> c in b.forums
    ensures forall c :: c in fs ==> ForumRead(d, c)
    ensures Unread(b, d) <= Unread(b, data)
    decreases Unread(b, data), |fs| + 1
  {
    if |fs| == 0 then data
    else
      var d1 := MarkForum(b, data, fs[0]).0;
      var d := MarkForums(b, d1, fs[1..]);
      NotUnreadIsRead(b, d1, d);
      d
  }

  /** A forum of the board outside the unread set reads as read. */
  lemma NotUnreadIsRead(b: Board, d1: Data, d2: Data)
    requires Unread(b, d2) <= Unread(b, d1)
    ensures ForumsStayRead(b, d1, d2)
  {
    forall g | g in b.forums && ForumRead(d1, g)
      ensures ForumRead(d2, g)
    {
      var i :| 0 <= i < |b.forums| && b.forums[i] == g;
      assert i !in Unread(b, d1);
    }
  }

  /**
   * What marking forums never does: touch rows of ids that are no forum of
   * the board, break a well-formed state, or unread a consistent topic.
   */
  ghost predicate Preserves(b: Board, d1: Data, d2: Data) {
    && OtherRowsKept(b, d1, d2)
    && ReadRowsKept(b, d1, d2)
    && (DataWellFormed(d1) ==> DataWellFormed(d2))
    && (RowsBounded(d1, b.limit) ==> RowsBounded(d2, b.limit))
    && TopicsStayRead(b, d1, d2)
  }

  lemma PreservesTrans(b: Board, d1: Data, d2: Data, d3: Data)
    requires Preserves(b, d1, d2) && Preserves(b, d2, d3)
    ensures Preserves(b, d1, d3)
  {
  }

  /** Storing `(last post, {})` for an unread forum of the board preserves the invariants. */
  lemma ResetPreserves(b: Board, data: Data, f: Forum)
    requires BoardWellFormed(b) && f in b.forums && !ForumRead(data, f)
    ensures Preserves(b, data, data[f.id := Row(f.lastPost, {})])
  {
    var d1 := data[f.id := Row(f.lastPost, {})];
    var k :| 0 <= k < |b.forums| && b.forums[k] == f;
    assert forall i :: 0 <= i < |b.forums| && b.forums[i].id == f.id ==> i == k;
    forall t | TopicRead(data, t) && ConsistentTopic(b, t)
      ensures TopicRead(d1, t)
    {
      if t.forum == f.id && t.lastPost.Some? {
        var g := FindForum(b.forums, t.forum).value;
        var i :| 0 <= i < |b.forums| && b.forums[i] == g;
        assert g == f;
      }
    }
  }

  lemma {:induction false} MarkForumPreserves(b: Board, data: Data, f: Forum)
    requires BoardWellFormed(b) && f in b.forums
    ensures Preserves(b, data, MarkForum(b, data, f).0)
    decreases Unread(b, data), 0
  {
    if !ForumRead(data, f) {
      SetForumRow(b, data, f);
      ResetPreserves(b, data, f);
      var d1 := data[f.id := Row(f.lastPost, {})];
      var d2 := MarkForums(b, d1, Children(b.forums, f.id));
      MarkForumsPreserves(b, d1, Children(b.forums, f.id));
      PreservesTrans(b, data, d1, d2);
      if f.parent.Some? && f.parent.value != 0 {
        MarkParentPreserves(b, d2, f.parent.value);
        PreservesTrans(b, data, d2, MarkParent(b, d2, f.parent.value));
      }
    }
  }

  lemma {:induction false} MarkForumsPreserves(b: Board, data: Data, fs: seq<Forum>)
    requires BoardWellFormed(b) && forall c :: c in fs ==> c in b.forums
    ensures Preserves(b, data, MarkForums(b, data, fs))
    decreases Unread(b, data), |fs| + 1
  {
    if |fs| > 0 {
      MarkForumPreserves(b, data, fs[0]);
      var d1 := MarkForum(b, data, fs[0]).0;
      MarkForumsPreserves(b, d1, fs[1..]);
      PreservesTrans(b, data, d1, MarkForums(b, d1, fs[1..]));
    }
  }

  lemma {:induction false} MarkParentPreserves(b: Board, data: Data, parentId: nat)
    requires BoardWellFormed(b)
    requires exists g :: g in b.forums && g.parent == Some(parentId)
    ensures Preserves(b, data, MarkParent(b, data, parentId))
    decreases Unread(b, data), 1
  {
    var siblings := Children(b.forums, parentId);
    if |siblings| > 0 && AllRead(data, siblings) {
      ParentFound(b, parentId);
      MarkForumPreserves(b, data, FindForum(b.forums, parentId).value);
    }
  }

  /** After marking an unread forum its row is (its last post, no topics), whatever the cascade did. */
  lemma MarkForumRow(b: Board, data: Data, f: Forum)
    requires BoardWellFormed(b) && f in b.forums && !ForumRead(data, f)
    ensures RowOf(MarkForum(b, data, f).0, f.id) == Row(f.lastPost, {})
  {
    SetForumRow(b, data, f);
    var d1 := data[f.id := Row(f.lastPost, {})];
    var d2 := MarkForums(b, d1, Children(b.forums, f.id));
    MarkForumsPreserves(b, d1, Children(b.forums, f.id));
    NotUnreadIsRead(b, d1, d2);
    if f.parent.Some? && f.parent.value != 0 {
      MarkParentPreserves(b, d2, f.parent.value);
    }
  }

  /** Ids of a row that read as read: up to the mark, or individually. */
  predicate ReadIn(row: Row, x: nat) {
    PyGe(row.mark, Some(x)) || x in row.read
  }

  /**
   * The compaction of a row whose read set outgrew `limit`: over the
   * sorted ids `r`, the new mark is `r[limit // 2]` and the new set holds
   * `r[limit // 2:]`, i.e. the ids from the new mark on. Exactly
   * `limit // 2` ids, all below the new mark, leave the set.
   */
  function Compact(row: Row, limit: nat): (r: Row)
    requires |row.read| > limit
    ensures r.mark.Some? && r.mark.value in row.read
    ensures r.read == AtLeast(row.read, r.mark.value)
    ensures |Below(row.read, r.mark.value)| == limit / 2
    ensures |r.read| == |row.read| - limit / 2
    ensures RowWellFormed(r)
    ensures forall x :: x in row.read ==> ReadIn(r, x)
    ensures RowWellFormed(row) ==> PyGe(r.mark, row.mark)
    ensures RowWellFormed(row) ==> forall x :: ReadIn(row, x) ==> ReadIn(r, x)
  {
    var s := Sorted(row.read);
    var k := limit / 2;
    ElemsAll(s);
    assert Elems(s) == row.read;
    CutSorted(s, k);
    CutCounts(s, k);
    Row(Some(s[k]), Elems(s[k..]))
  }

  /**
   * The row stored back for a forum without children: compacted once it
   * outgrew the limit. Storing only ever drops ids from the read set, and
   * never one that read as read; a set that grew by one past a limit of at
   * least 2 is back within the limit.
   */
  function StoreRow(row: Row, limit: nat): (r: Row)
    ensures |row.read| <= limit ==> r == row
    ensures |row.read| > limit ==> r.mark.Some? && |r.read| == |row.read| - limit / 2
    ensures r.read <= row.read
    ensures forall x :: x in row.read ==> ReadIn(r, x)
    ensures RowWellFormed(row) ==> RowWellFormed(r) && forall x :: ReadIn(row, x) ==> ReadIn(r, x)
    ensures limit >= 2 && |row.read| <= limit + 1 ==> |r.read| <= limit
  {
    if |row.read| > limit then Compact(row, limit) else row
  }

  /** Whether every topic of `ts` reads as read (the loop over the newest topics). */
  predicate AllTopicsRead(data: Data, ts: seq<Topic>) {
    forall i :: 0 <= i < |ts| ==> TopicRead(data, ts[i])
  }

  /**
   * `mark` for a topic. The topic's last post id joins its forum's read
   * set. In a forum with children nothing more happens, and the set is
   * only updated in place: a forum without a row gets a fresh row that is
   * never stored, so the mark is lost. Otherwise the row is compacted if
   * needed and stored, and when the forum's `FORUM_LIMIT_UNREAD` newest
   * topics all read as read, the forum is marked as well.
   */
  function MarkTopic(b: Board, data: Data, t: Topic): (r: (Data, bool))
    requires BoardWellFormed(b) && FindForum(b.forums, t.forum).Some?
    ensures r.1 <==> !TopicRead(data, t)
    ensures !r.1 ==> r.0 == data
    ensures r.1 && |Children(b.forums, t.forum)| > 0 ==>
      (t.forum in data <==> TopicRead(r.0, t)) && (t.forum !in data ==> r.0 == data)
    ensures r.1 && |Children(b.forums, t.forum)| > 0 ==>
      forall k :: k != t.forum ==> RowOf(r.0, k) == RowOf(data, k)
  {
    if TopicRead(data, t) then (data, false)
    else
      var row := RowOf(data, t.forum);
      var added := Row(row.mark, row.read + {t.lastPost.value});
      if |Children(b.forums, t.forum)| > 0 then
        (if t.forum in data then data[t.forum := added] else data, true)
      else
        var d1 := data[t.forum := StoreRow(added, b.limit)];
        if !AllTopicsRead(d1, TopTopics(b, t.forum)) then (d1, true)
        else (MarkForum(b, d1, FindForum(b.forums, t.forum).value).0, true)
  }

  /** `ReadStatus.mark`: marks a forum or a topic; returns whether it was unread. */
  function Mark(b: Board, data: Data, item: Item): (r: (Data, bool))
    requires BoardWellFormed(b)
    requires item.ForumItem? ==> item.f in b.forums
    requires item.TopicItem? ==> FindForum(b.forums, item.t.forum).Some?
    ensures r.1 <==> !IsRead(data, item)
    ensures !r.1 ==> r.0 == data
    ensures item.ForumItem? ==> IsRead(r.0, item)
  {
    match item
    case ForumItem(f) => MarkForum(b, data, f)
    case TopicItem(t) => MarkTopic(b, data, t)
  }

  /** Adding the last post of an unread topic to its forum's row: the topic reads as read and nothing read is lost. */
  lemma AddReadKeeps(data: Data, t: Topic, limit: nat, stored: Row)
    requires !TopicRead(data, t)
    requires var row := RowOf(data, t.forum);
      stored == Row(row.mark, row.read + {t.lastPost.value}) || stored == StoreRow(Row(row.mark, row.read + {t.lastPost.value}), limit)
    ensures TopicRead(data[t.forum := stored], t)
    ensures DataWellFormed(data) ==> DataWellFormed(data[t.forum := stored])
    ensures DataWellFormed(data) ==> forall g :: ForumRead(data, g) ==> ForumRead(data[t.forum := stored], g)
    ensures DataWellFormed(data) ==> forall u :: TopicRead(data, u) ==> TopicRead(data[t.forum := stored], u)
  {
    var row := RowOf(data, t.forum);
    var added := Row(row.mark, row.read + {t.lastPost.value});
    assert ReadIn(added, t.lastPost.value);
    if DataWellFormed(data) {
      assert RowWellFormed(row);
      assert RowWellFormed(added);
      forall u | TopicRead(data, u) && u.forum == t.forum && u.lastPost.Some?
        ensures ReadIn(stored, u.lastPost.value)
      {
        assert ReadIn(added, u.lastPost.value);
      }
    }
  }

  /** Marking an unread consistent topic of a forum without children reads it as read. */
  lemma MarkTopicReads(b: Board, data: Data, t: Topic)
    requires BoardWellFormed(b) && ConsistentTopic(b, t)
    requires !TopicRead(data, t) && |Children(b.forums, t.forum)| == 0
    ensures TopicRead(MarkTopic(b, data, t).0, t)
  {
    var row := RowOf(data, t.forum);
    var added := Row(row.mark, row.read + {t.lastPost.value});
    var d1 := data[t.forum := StoreRow(added, b.limit)];
    AddReadKeeps(data, t, b.limit, StoreRow(added, b.limit));
    if AllTopicsRead(d1, TopTopics(b, t.forum)) {
      MarkForumPreserves(b, d1, FindForum(b.forums, t.forum).value);
    }
  }

  /**
   * Marking a topic in a well-formed state keeps it well-formed, unreads no
   * forum and no consistent topic, and touches no row of an id that is no
   * forum of the board, except the topic's own forum.
   */
  lemma MarkTopicPreserves(b: Board, data: Data, t: Topic)
    requires BoardWellFormed(b) && FindForum(b.forums, t.forum).Some?
    requires DataWellFormed(data)
    ensures var d := MarkTopic(b, data, t).0;
      && DataWellFormed(d)
      && ForumsStayRead(b, data, d)
      && TopicsStayRead(b, data, d)
      && forall k :: k != t.forum && (forall i :: 0 <= i < |b.forums| ==> b.forums[i].id != k) ==>
           RowOf(d, k) == RowOf(data, k)
  {
    if !TopicRead(data, t) {
      var row := RowOf(data, t.forum);
      var added := Row(row.mark, row.read + {t.lastPost.value});
      if |Children(b.forums, t.forum)| > 0 {
        if t.forum in data {
          AddReadKeeps(data, t, b.limit, added);
        }
      } else {
        var d1 := data[t.forum := StoreRow(added, b.limit)];
        AddReadKeeps(data, t, b.limit, StoreRow(added, b.limit));
        if AllTopicsRead(d1, TopTopics(b, t.forum)) {
          var f := FindForum(b.forums, t.forum).value;
          MarkForumPreserves(b, d1, f);
          NotUnreadIsRead(b, d1, MarkForum(b, d1, f).0);
        }
      }
    }
  }

  /**
   * Marking the last unread one of a childless forum's newest topics marks
   * the forum itself.
   */
  lemma MarkTopicCompletesForum(b: Board, data: Data, t: Topic)
    requires BoardWellFormed(b) && FindForum(b.forums, t.forum).Some? && DataWellFormed(data)
    requires !TopicRead(data, t) && |Children(b.forums, t.forum)| == 0
    requires forall u :: u in TopTopics(b, t.forum) && u != t ==> TopicRead(data, u)
    ensures ForumRead(MarkTopic(b, data, t).0, FindForum(b.forums, t.forum).value)
  {
    var row := RowOf(data, t.forum);
    var added := Row(row.mark, row.read + {t.lastPost.value});
    var d1 := data[t.forum := StoreRow(added, b.limit)];
    AddReadKeeps(data, t, b.limit, StoreRow(added, b.limit));
    var ts := TopTopics(b, t.forum);
    forall i | 0 <= i < |ts|
      ensures TopicRead(d1, ts[i])
    {
      if ts[i] != t {
        assert ts[i] in ts;
      }
    }
  }

  /**
   * For a limit of at least 2, marking a topic of a childless forum keeps
   * every read set within the limit: compaction drops `limit // 2` ids.
   */
  lemma MarkTopicBounded(b: Board, data: Data, t: Topic)
    requires BoardWellFormed(b) && FindForum(b.forums, t.forum).Some?
    requires b.limit >= 2 && RowsBounded(data, b.limit) && |Children(b.forums, t.forum)| == 0
    ensures RowsBounded(MarkTopic(b, data, t).0, b.limit)
  {
    if !TopicRead(data, t) {
      var row := RowOf(data, t.forum);
      var added := Row(row.mark, row.read + {t.lastPost.value});
      var d1 := data[t.forum := StoreRow(added, b.limit)];
      assert |row.read| <= b.limit;
      assert |added.read| <= |row.read| + 1;
      assert RowsBounded(d1, b.limit);
      if AllTopicsRead(d1, TopTopics(b, t.forum)) {
        MarkForumPreserves(b, d1, FindForum(b.forums, t.forum).value);
      }
    }
  }

  /**
   * In a forum with children a stored row is never compacted: every topic
   * marked there grows its read set by one, past any limit.
   */
  lemma MarkTopicGrowsRow(b: Board, data: Data, t: Topic)
    requires BoardWellFormed(b) && FindForum(b.forums, t.forum).Some?
    requires !TopicRead(data, t) && |Children(b.forums, t.forum)| > 0 && t.forum in data
    ensures |RowOf(MarkTopic(b, data, t).0, t.forum).read| == |data[t.forum].read| + 1
  {
    assert t.lastPost.value !in data[t.forum].read;
  }

  /**
   * `MarkTopic` with the fresh row of a forum with children stored rather
   * than dropped, so that a topic reported as marked reads as read.
   */
  function MarkTopicStored(b: Board, data: Data, t: Topic): (r: (Data, bool))
    requires BoardWellFormed(b) && FindForum(b.forums, t.forum).Some?
    ensures r.1 <==> !TopicRead(data, t)
    ensures !r.1 ==> r.0 == data
    ensures r.1 && |Children(b.forums, t.forum)| > 0 ==> TopicRead(r.0, t)
  {
    if !TopicRead(data, t) && |Children(b.forums, t.forum)| > 0 then
      var row := RowOf(data, t.forum);
      (data[t.forum := Row(row.mark, row.read + {t.lastPost.value})], true)
    else MarkTopic(b, data, t)
  }

  /** Every consistent topic that `MarkTopicStored` reports as marked reads as read. */
  lemma MarkTopicStoredReads(b: Board, data: Data, t: Topic)
    requires BoardWellFormed(b) && ConsistentTopic(b, t)
    ensures var r := MarkTopicStored(b, data, t); r.1 ==> TopicRead(r.0, t)
  {
    if !TopicRead(data, t) && |Children(b.forums, t.forum)| == 0 {
      MarkTopicReads(b, data, t);
    }
  }

  /**
   * A topic in forum 1, whose child is forum 2, with no row stored yet:
   * `mark` reports it as marked, yet it still reads as unread.
   */
  lemma LostTopicMark()
    ensures var b := Board([Forum(1, None, Some(10)), Forum(2, Some(1), Some(5))], map[], 100);
      var t := Topic(1, Some(7));
      && BoardWellFormed(b) && ConsistentTopic(b, t)
      && MarkTopic(b, map[], t).1
      && !TopicRead(MarkTopic(b, map[], t).0, t)
      && TopicRead(MarkTopicStored(b, map[], t).0, t)
  {
    var b := Board([Forum(1, None, Some(10)), Forum(2, Some(1), Some(5))], map[], 100);
    assert Children(b.forums, 1) == [Forum(2, Some(1), Some(5))];
  }
}
