/**
 * Where a post is shown and how long its author may still change it:
 * `Post.page`, the page part of `Post.url_for_post`, and
 * `Post.check_ownpost_limit` with the elapsed time given in whole seconds.
 */
module PostPages {
  import opened Wrappers

  /**
   * `Post.page`: the page (counted from 1) holding the post at `position`,
   * `perPage` posts to a page, or `None` for the first page. Python's `//`
   * floors, which is Dafny's `/` for a positive divisor.
   */
  function Page(position: int, perPage: int): (r: Option<int>)
    requires perPage > 0
    ensures r.None? <==> 0 <= position < perPage
    ensures r.Some? ==> (r.value - 1) * perPage <= position < r.value * perPage
  {
    var page := position / perPage + 1;
    if page == 1 then None else Some(page)
  }

  /** The link `url_for_post` builds: topic slug, page segment, query string, anchor. */
  datatype PostLink = PostLink(slug: string, page: Option<int>, query: Option<string>, anchor: nat)

  /**
   * `Post.url_for_post` for a post already looked up: a negative position
   * counts as the first page, the page segment is left out on page 1, and
   * the query string only appears for a non-empty `paramstr`.
   */
  function UrlForPost(id: nat, slug: string, position: int, perPage: int, paramstr: Option<string>): (r: PostLink)
    requires perPage > 0
    ensures r.slug == slug && r.anchor == id
    ensures r.page.None? <==> position < perPage
    ensures r.page.Some? ==> r.page.value >= 2 && (r.page.value - 1) * perPage <= position < r.page.value * perPage
    ensures r.query.Some? <==> paramstr.Some? && paramstr.value != ""
    ensures r.query.Some? ==> r.query == paramstr
  {
    var page := (if position < 0 then 0 else position) / perPage + 1;
    PostLink(
      slug,
      if page != 1 then Some(page) else None,
      if paramstr.Some? && paramstr.value != "" then paramstr else None,
      id)
  }

  /** For every real position the link and `Post.page` name the same page. */
  lemma LinkAgreesWithPage(id: nat, slug: string, position: int, perPage: int, paramstr: Option<string>)
    requires perPage > 0 && position >= 0
    ensures UrlForPost(id, slug, position, perPage, paramstr).page == Page(position, perPage)
  {
  }

  /** Below zero the two part ways: the link stays on page 1, `Post.page` reports page 0 or less. */
  lemma NegativePosition(perPage: int)
    requires perPage > 0
    ensures UrlForPost(0, "", -1, perPage, None).page == None
    ensures Page(-1, perPage) == Some(0)
  {
  }

  datatype LimitError = InvalidType

  /**
   * `Post.check_ownpost_limit`. Each limit pair holds the seconds allowed
   * for the topic's last post and for any other post; 0 forbids, -1 allows
   * forever. A kind other than "edit" or "delete" is a `KeyError`.
   */
  function CheckOwnpostLimit(kind: string, isLast: bool, elapsed: int, editLimit: (int, int), deleteLimit: (int, int)): (r: Result<bool, LimitError>)
    ensures r.Err? <==> kind != "edit" && kind != "delete"
    ensures r.Ok? ==>
      var limits := if kind == "edit" then editLimit else deleteLimit;
      var t := if isLast then limits.0 else limits.1;
      r.value <==> t == -1 || (t != 0 && elapsed < t)
  {
    var limits :-
      if kind == "edit" then Ok(editLimit)
      else if kind == "delete" then Ok(deleteLimit)
      else Err(InvalidType);
    var t := if isLast then limits.0 else limits.1;
    if t == 0 then Ok(false)
    else if t == -1 then Ok(true)
    else Ok(elapsed < t)
  }

  /** Once the time to act on a post has run out, it stays run out. */
  lemma OwnpostLimitExpires(kind: string, isLast: bool, e1: int, e2: int, editLimit: (int, int), deleteLimit: (int, int))
    requires e1 <= e2
    requires CheckOwnpostLimit(kind, isLast, e1, editLimit, deleteLimit) == Ok(false)
    ensures CheckOwnpostLimit(kind, isLast, e2, editLimit, deleteLimit) == Ok(false)
  {
  }
}
