# Inyoka forum bookkeeping, template message extraction and password migration in Dafny

This project models four pieces of sequential logic from the Inyoka portal (a
Django application, Python 2) and proves properties of them:

- **Forum read tracking** (`ReadStatus` in `inyoka/forum/models.py`). Each user
  keeps a map from forum id to a row. A row is a high-water-mark post id (or
  none) plus a set of individually read topic last-post ids. `__call__` decides
  whether a forum or topic reads as read. `mark` updates the map:
  - marking a forum resets its row, marks its children, and marks its parent
    once all of the parent's children read as read;
  - marking a topic adds its last post to the forum's set, compacts the set
    once it grows past the unread limit, and marks the forum once its top
    topics all read as read.

  Module `ReadStatus` (read_status.dfy), with the forum tree in `ForumTree`
  (forum_tree.dfy) and sorted id lists in `SortedSets` (sorted_sets.dfy).
- **Forum tree walks** (`Forum.get_parents`, `children`, `descendants` and
  `get_children_recursive`) over an in-memory list of forums. Module
  `ForumTree`.
- **Post positions**: how `Post.split` renumbers both topics, and how
  `Post.delete` shifts later posts. Module `PostPositions`
  (post_positions.dfy). `Post.page`, `url_for_post` and `check_ownpost_limit`
  are in module `PostPages` (post_pages.dfy).
- **The Django-template extractor** (`extract_django`, `strip_quotes`,
  `join_tokens` in `inyoka/locale/babel_django_templates.py`). It is a
  token-driven state machine that emits `(lineno, funcname, message)`
  records. Module `TemplateExtract` (template_extract.dfy), with Python
  string helpers in `PyStrings` (py_strings.dfy).
- **The password-hash data migration** (`0027_add_hash_algo_to_pwd`). Its two
  SQL updates are modelled as functions on one password value. Module
  `PasswordMigration` (password_migration.dfy).

Wrappers (wrappers.dfy) holds `Option` and `Result`.

A parent id of 0 counts as no parent when a forum is marked, as in the
source's truth test of `item.parent_id`.

Python 2 comparison of `None` is modelled exactly: `None` is below every
integer, so `None >= x` is false for an integer `x`. `x >= None` and
`None >= None` are true. Python's `//` with a positive divisor is Dafny's `/`.
Exceptions the source raises, and the transaction rollback they cause, become
`Err` results.

## Model

| member | source | states |
|---|---|---|
| ReadStatus.IsRead | inyoka/forum/models.py:1395-1413 | A forum reads as read exactly when it has no last post, or when its row exists and the mark is at least the last post. A missing row means unread. A topic reads as read when it has no last post, or when the forum's row has a mark at least its last post or holds that id in its read set. |
| ReadStatus.Mark | inyoka/forum/models.py:1415-1455 | `mark` reports true exactly when the item did not read as read. When it reports false, the state is unchanged. A marked forum reads as read afterwards. |
| ReadStatus.MarkForum | inyoka/forum/models.py:1420-1435 | Marking a forum reports true exactly when it was unread, and leaves the state alone otherwise. Afterwards the forum reads as read, every child of a forum actually marked reads as read, and no forum that read as read becomes unread. When the forum has a non-zero parent and afterwards every child of that parent reads as read, the parent reads as read too. |
| ReadStatus.MarkForums | inyoka/forum/models.py:1427-1428 | The child step of forum marking: afterwards every forum of the list reads as read, and the set of unread forums does not grow. |
| ReadStatus.MarkParent | inyoka/forum/models.py:1429-1434 | The parent step of forum marking, which marks the parent only when its children all read as read. It never makes the set of unread forums grow. |
| ReadStatus.MarkForumRow | inyoka/forum/models.py:1425-1426 | An unread forum's row becomes (its last post, empty set). |
| ReadStatus.MarkForumPreserves | inyoka/forum/models.py:1425-1434 | Forum marking keeps rows of ids outside the board and rows of read forums. It keeps every row well formed (no read id below the mark) and within the size bound, and no topic that read as read becomes unread. |
| ReadStatus.MarkForumsPreserves | inyoka/forum/models.py:1427-1428 | Marking a forum's children one after another keeps the same invariants. |
| ReadStatus.MarkParentPreserves | inyoka/forum/models.py:1429-1434 | The step up to the parent keeps the same invariants. |
| ReadStatus.Compact | inyoka/forum/models.py:1442-1445 | For a read set above the limit, the new mark is the id at index limit//2 of the sorted ids. The new set is exactly the ids from the mark on, so limit//2 ids are dropped. The new row is well formed, and every id that read as read still does. |
| ReadStatus.StoreRow | inyoka/forum/models.py:1442-1446 | A row within the limit is stored as is; a row above it gets a mark and loses limit//2 ids. Storing only drops ids from the read set and never one that read as read, a well-formed row stays well formed, and for a limit of at least 2 a set at most one over the limit is back within it. |
| ReadStatus.MarkTopic | inyoka/forum/models.py:1437-1455 | Marking a topic reports true exactly when it was unread, and leaves the state alone otherwise. For a forum with children, the topic reads as read afterwards exactly when the forum already had a row; without one nothing is stored, and other rows never change. |
| ReadStatus.MarkTopicReads | inyoka/forum/models.py:1437-1446 | In a forum without children, a marked unread topic reads as read afterwards. This requires `ConsistentTopic`: the topic's last post is not newer than its forum's. Without it, the forum reset at line 1454 stores the forum's older last post as the mark and unreads the topic again. |
| ReadStatus.MarkTopicPreserves | inyoka/forum/models.py:1437-1454 | Topic marking keeps every row well formed, keeps read forums and read topics read, and leaves rows of ids outside the board alone. |
| ReadStatus.MarkTopicCompletesForum | inyoka/forum/models.py:1448-1454 | When the marked topic was the last unread one among the forum's top topics, the forum itself reads as read afterwards. |
| ReadStatus.MarkTopicBounded | inyoka/forum/models.py:1442-1446 | For a limit of at least 2, in a forum without children, no read set grows past the limit. |
| ReadStatus.MarkTopicGrowsRow | inyoka/forum/models.py:1437-1441 | In a forum with children and an existing row, the read set grows by one id and is never compacted. |
| ReadStatus.LostTopicMark | inyoka/forum/models.py:1437-1441 | A concrete board where marking a topic of a forum with children and no row reports true, yet the topic still reads as unread. The corrected marking reads it as read. |
| ReadStatus.MarkTopicStored | inyoka/forum/models.py:1437-1446 | Corrected topic marking that stores the row in every case. It reports true exactly when the topic was unread, and a marked topic of a forum with children reads as read. |
| ReadStatus.MarkTopicStoredReads | inyoka/forum/models.py:1437-1446 | With the correction, every topic marked reads as read afterwards, with or without child forums. Like MarkTopicReads, this requires `ConsistentTopic` (the topic's last post is not newer than its forum's), because the forum reset at line 1454 would otherwise unread the topic. |
| ForumTree.FindForum | inyoka/forum/models.py:341-345 | The lookup in the id dictionary finds a forum with that id, or reports that none exists (the `KeyError`). |
| ForumTree.Children | inyoka/forum/models.py:357-361 | The children are exactly the forums whose parent is the given id. |
| ForumTree.WithParent | inyoka/forum/models.py:457 | The filter keeps exactly the forums with the given parent. |
| ForumTree.WithParentInOrder | inyoka/forum/models.py:457 | The filter keeps list order and repeats nothing: its entries are picked from strictly increasing list positions, and those positions include every forum with the given parent. |
| ForumTree.GetParents | inyoka/forum/models.py:337-347 | An unknown id is a `KeyError`. A successful `get_parents` is the chain of parents up to a category: each entry is the parent of the one before, the last has no parent, and no forum appears twice. |
| ForumTree.ChainGetParents | inyoka/forum/models.py:337-347 | Conversely, with unique ids, every such parent chain is what `get_parents` returns. |
| ForumTree.Descendants | inyoka/forum/models.py:363-372 | Every descendant is a forum of the board whose parent is the root or an earlier descendant. The list holds every child of the root and every child of each descendant. With unique ids no forum is listed twice and the root itself is not listed. |
| ForumTree.ChildrenRecursive | inyoka/forum/models.py:444-461 | The index listing starts at the given offset. Each entry is at most one level deeper than the one before and never shallower than the offset. The entries at the offset are exactly the forums with the given parent, in order. Every deeper entry is a child of the nearest earlier entry one level up, so an entry's offset is its depth below the parent. |
| ForumTree.ChildrenRecursiveOk | inyoka/forum/models.py:444-461 | When the parent links form no cycle (some rank drops along every link), the listing succeeds, from a forum or from the top (`parent=None`). |
| ForumTree.DescendantsOk | inyoka/forum/models.py:363-372 | When the parent links form no cycle, `descendants` succeeds. |
| ForumTree.ChildrenRecursiveAreDescendants | inyoka/forum/models.py:444-461 | Below a forum, the index listing without its offsets is exactly `descendants`; both fail together. |
| PostPositions.CountInBound | inyoka/forum/models.py:961-975 | Strictly increasing positions in a range number at most the range's width. |
| PostPositions.RunEndsGrouping | inyoka/forum/models.py:961-962 | `groupby` on position minus index cuts the sorted moved positions into maximal runs of consecutive positions. |
| PostPositions.ShiftStep | inyoka/forum/models.py:963-973 | One round of the decrement loop, with start and amount as the source computes them, turns "lowered by the moved positions before this run" into "lowered by the moved positions up to this run's end". |
| PostPositions.CloseGaps | inyoka/forum/models.py:957-975 | After the decrement loop, every post of the old topic sits lower by exactly the number of moved positions below it, and other topics are untouched. |
| PostPositions.NoGaps | inyoka/forum/models.py:957-975 | Once some positions are removed from a topic numbered 0..n-1, the remaining posts land in 0..n-k-1 in their old order. Every position in that range is taken. |
| PostPositions.MaxPosition | inyoka/forum/models.py:949-953 | The `Max('position')` aggregate is none exactly when the topic has no posts. Otherwise it is a position of the topic and no post of it is higher. |
| PostPositions.SortByPosition | inyoka/forum/models.py:936 | Sorting by position gives a permutation of the moved posts in strictly ascending position order. |
| PostPositions.CountBelowPermutation | inyoka/forum/models.py:936 | How many moved posts lie below a position does not depend on their order. |
| PostPositions.RankInAscending | inyoka/forum/models.py:955-957 | In position order, the k-th moved post has exactly k moved posts below it, so it receives the k-th new position. |
| PostPositions.SplitRow | inyoka/forum/models.py:955-975 | The move loop and the decrement loop together make one row either a moved post after the new topic's maximum, or an old-topic post lowered by the moved posts below it. Any other row is left alone. |
| PostPositions.Split | inyoka/forum/models.py:928-1012 | With no posts to move, the split fails and is rolled back. Otherwise every row keeps its id, and the new topic's first post is put at position 0: in the new topic if it was moved, else in its own topic with nothing else changed. The other moved posts get maxpos+1, maxpos+2, ... in old position order (maxpos is -1 for an empty topic). Posts left in the old topic drop by the number of moved posts below them, and all other rows are unchanged. |
| PostPositions.Delete | inyoka/forum/models.py:879-880 | Deleting a post removes its row, lowers by one every post of its topic above it, and keeps all other rows' positions. |
| PostPositions.DeleteIsRenumber | inyoka/forum/models.py:879-880 | Deleting is the same renumbering a split applies when one post moves away. |
| PostPositions.DeleteKeepsDistinct | inyoka/forum/models.py:879-880 | Deleting keeps the topic's positions distinct. |
| PostPages.Page | inyoka/forum/models.py:917-925 | `Post.page` is none exactly on page 1, i.e. for positions 0..perPage-1. Otherwise it is the page p with (p-1)*perPage <= position < p*perPage. |
| PostPages.UrlForPost | inyoka/forum/models.py:804-810 | The link leaves out the page segment exactly for positions below one page, counting negative positions as 0. Otherwise it names the page holding the position, which is at least 2. The query string appears exactly for a non-empty parameter string, and the anchor is the post id. |
| PostPages.LinkAgreesWithPage | inyoka/forum/models.py:808 | For every non-negative position the link and `Post.page` name the same page. |
| PostPages.NegativePosition | inyoka/forum/models.py:922 | At position -1 the two differ: the link stays on page 1, while `Post.page` reports page 0. |
| PostPages.CheckOwnpostLimit | inyoka/forum/models.py:1060-1079 | An action other than edit or delete is an error. Otherwise the limit is chosen by action and by whether the post is the topic's last. The answer is true exactly when the limit is -1, or when it is not 0 and the elapsed seconds are below it. |
| PostPages.OwnpostLimitExpires | inyoka/forum/models.py:1076-1079 | Once the answer is false, it stays false as time goes on. |
| TemplateExtract.JoinTokens | inyoka/locale/babel_django_templates.py:55-59 | Without trimming the message is the tokens laid end to end: its length is the summed token length, and each token is the slice of the message that starts after the tokens before it. With trimming it is the trim function applied to that join. |
| PyStrings.ConcatSlice | inyoka/locale/babel_django_templates.py:56 | In `''.join(parts)`, part i is the slice that starts at the summed length of the parts before it. |
| TemplateExtract.ConcatAppend | inyoka/locale/babel_django_templates.py:56 | Joining without trim distributes over concatenation of token lists. |
| TemplateExtract.StripQuotes | inyoka/locale/babel_django_templates.py:64-67 | The empty string is an `IndexError`. A string whose first and last characters are equal and are a quote loses them. Every other string is returned unchanged. |
| TemplateExtract.EndMessage | inyoka/locale/babel_django_templates.py:102-134 | The message at the end tag carries the current line. Its function name is npgettext, ngettext, pgettext or none by (plural, context), and its strings are the context, the joined singular and the joined plural as present. |
| TemplateExtract.InTrans | inyoka/locale/babel_django_templates.py:98-155 | Inside a trans block:<br>- a foreign block tag raises SyntaxError with no message;<br>- the end tag yields exactly the end message and resets the state;<br>- the plural tag switches to the plural part;<br>- text and `%(name)s` variables extend the current part. |
| TemplateExtract.InlineTrans | inyoka/locale/babel_django_templates.py:161-176 | An inline trans tag with an empty message raises. Otherwise it yields one message on the current line: pgettext with the unquoted context and message when a context is given, else a bare message. |
| TemplateExtract.ConstantMessages | inyoka/locale/babel_django_templates.py:188-191 | One record per constant, in order, each the unquoted constant with no function name on the current line. The first empty constant raises `IndexError` and ends the list there; with no empty constant every constant yields. |
| TemplateExtract.OpenBlock | inyoka/locale/babel_django_templates.py:177-187 | A block-open tag yields one record per constant, each the unquoted constant, and raises `IndexError` exactly when a constant is empty. Otherwise it enters the block outside the plural part with both buffers empty, sets trimmed exactly when `trimmed` is among its words, and sets the context from its context group. |
| TemplateExtract.OutsideBlock | inyoka/locale/babel_django_templates.py:157-191 | Outside a trans block an inline trans tag yields one message and raises exactly for an empty message. A block-open tag yields its unquoted constants and enters the block. Any other block tag yields its unquoted constants and leaves the state alone. An empty constant raises. |
| TemplateExtract.FilterMessage | inyoka/locale/babel_django_templates.py:199-206 | A filter part yields a message exactly when it contains `:_(`. |
| TemplateExtract.FilterQuotedCall | inyoka/locale/babel_django_templates.py:199-206 | A filter `name:_("text")` or `name:_('text')` yields exactly `text`. |
| TemplateExtract.FilterMessages | inyoka/locale/babel_django_templates.py:198-206 | One record per filter holding `:_(`, in order, each that filter's message on the current line. It raises exactly when one of those filters does, and then stops at the first one that raises. |
| TemplateExtract.OutsideVar | inyoka/locale/babel_django_templates.py:192-206 | A variable token outside a block leaves the state alone, and all its messages carry the current line. An empty leading constant raises `IndexError` with no message. Otherwise the unquoted constant comes first, followed by one record per `:_(` filter after the first `|`, each that filter's message. |
| TemplateExtract.VarQuotedFilter | inyoka/locale/babel_django_templates.py:192-206 | The token `name|filter:_("text")` yields exactly one record, `text` on the current line, and leaves the state alone. |
| TemplateExtract.Run | inyoka/locale/babel_django_templates.py:96-97 | Each token advances the line by its newlines. A run never moves the line backwards, and a run without an exception ends after all newlines of its tokens. |
| TemplateExtract.Step | inyoka/locale/babel_django_templates.py:96-97 | Each token advances the line by the newlines in its contents, and its messages carry the advanced line. |
| TemplateExtract.RunLines | inyoka/locale/babel_django_templates.py:89-97 | Over any token stream, yielded line numbers never decrease and lie between the starting and the final line. |
| TemplateExtract.Extract | inyoka/locale/babel_django_templates.py:70-206 | Extraction starts at line 1. Its messages have non-decreasing line numbers of at least 1, and a completed run ends at 1 plus the newlines of all tokens. |
| TemplateExtract.RunKeepsContextCleared | inyoka/locale/babel_django_templates.py:136-140 | Outside a block no message context survives any run of tokens. |
| TemplateExtract.TransBlockMessage | inyoka/locale/babel_django_templates.py:129-187 | A plain blocktrans block around text tokens yields exactly one message: the concatenated text, with no function name, on the end tag's line. The extractor then leaves the block with the buffers cleared. |
| TemplateExtract.RunAppend | inyoka/locale/babel_django_templates.py:96-97 | Running two token streams one after the other is running their concatenation. |
| PyStrings.Split | inyoka/locale/babel_django_templates.py:193 | `split` gives at least one part, and no part holds the separator. |
| PyStrings.SplitJoin | inyoka/locale/babel_django_templates.py:193 | Joining the parts of a `split` on the filter separator with that separator gives back the string. |
| PyStrings.SplitCount | inyoka/locale/babel_django_templates.py:193 | `split` gives one part more than there are separators. |
| PyStrings.StripLeft | inyoka/locale/babel_django_templates.py:204 | The result is a suffix. Every character removed is in the strip set, and the result does not start with one. |
| PyStrings.StripRight | inyoka/locale/babel_django_templates.py:204 | The result is a prefix. Every character removed is in the strip set, and the result does not end with one. |
| PyStrings.Strip | inyoka/locale/babel_django_templates.py:204 | `strip` keeps a contiguous piece of the string that neither starts nor ends with a strip character. Everything before and after that piece is a strip character. |
| PyStrings.StripWrapped | inyoka/locale/babel_django_templates.py:203-204 | Stripping parentheses off `(w)`, where `w` neither starts nor ends with one, gives `w`. |
| PyStrings.Inner | inyoka/locale/babel_django_templates.py:179 | `[1:-1]` drops exactly the first and last character. |
| PyStrings.AfterFirst | inyoka/locale/babel_django_templates.py:200 | `split(':', 1)[1]` is what follows the first colon. |
| PyStrings.ReplaceAll | inyoka/portal/migrations/0027_add_hash_algo_to_pwd.py:17 | `replace` never lengthens a string when the replacement is no longer than the pattern. |
| PyStrings.ReplaceAbsent | inyoka/portal/migrations/0027_add_hash_algo_to_pwd.py:17 | `replace` changes nothing when the pattern does not occur. |
| PyStrings.ReplaceSplits | inyoka/portal/migrations/0027_add_hash_algo_to_pwd.py:17 | For a pattern whose first character occurs only at its start, `replace` rewrites the first occurrence and carries on after it. |
| PyStrings.ReplaceJoin | inyoka/portal/migrations/0027_add_hash_algo_to_pwd.py:17 | Pattern-free pieces joined by the pattern come back joined by the replacement. |
| PasswordMigration.Forwards | inyoka/portal/migrations/0027_add_hash_algo_to_pwd.py:11-12 | `!$!` becomes `!`. `!` and values starting with `md5` are kept. Every other value gets the `sha1$` prefix. |
| PasswordMigration.Backwards | inyoka/portal/migrations/0027_add_hash_algo_to_pwd.py:16-17 | `!` becomes `!$!`. A value free of `sha1$` is kept. A value starting with `sha1$` loses that tag, and every later tag goes the same way. |
| PasswordMigration.UntagSplits | inyoka/portal/migrations/0027_add_hash_algo_to_pwd.py:17 | Up to the first `sha1$` the value is kept; that tag is removed and the rest is untagged the same way. |
| PasswordMigration.UntagRemovesEvery | inyoka/portal/migrations/0027_add_hash_algo_to_pwd.py:17 | Every `sha1$` goes: tag-free pieces joined by tags come back as the pieces concatenated. |
| PasswordMigration.ForwardsTagsEveryRow | inyoka/portal/migrations/0027_add_hash_algo_to_pwd.py:11-12 | After forwards every value is unusable, md5 or sha1 tagged. |
| PasswordMigration.RoundTrip | inyoka/portal/migrations/0027_add_hash_algo_to_pwd.py:11-17 | Backwards undoes forwards for every value that is not `!` and holds no `sha1$`. |
| PasswordMigration.UnusableNotRestored | inyoka/portal/migrations/0027_add_hash_algo_to_pwd.py:167 | Despite `symmetrical = True`, `!` comes back as `!$!`. |
| PasswordMigration.TaggedRowNotRestored | inyoka/portal/migrations/0027_add_hash_algo_to_pwd.py:12-17 | A value already holding `sha1$` does not survive the round trip. |

## Left out

- Database, cache and transactions are not modelled: the ORM queries, `QueryCounter` counters, cache invalidation, and the `last_post`/`first_post` recomputation in `delete` and `split`. Tables are in-memory lists, and a rolled-back transaction is an `Err`.
- `ReadStatus.__init__` and `serialize` (cPickle) are not modelled; the model starts from the decoded map.
- The `ValueError` for an item that is neither a forum nor a topic cannot occur, because an item is a forum or a topic by construction.
- The topics `mark` consults are passed in per forum, already ordered by `-sticky, -last_post`. The model keeps the first `limit` of them.
- ForumTree.GetParents: on a parent cycle the `while` loop of `get_parents` never ends, and `descendants` and `get_children_recursive` recurse until Python raises `RuntimeError` (maximum recursion depth). The model returns `Err(Cycle)` where a walk would revisit a forum, and a missing parent id is `Err(MissingForum)`, the `KeyError`.
- ForumTree.FindForum: the source's id dictionary keeps the last forum with an id, while the model finds the first; they agree because ids are unique.
- Forum tree listings are lists, not generators. The `isinstance(parent, Forum)` conversion is left out because the model passes ids.
- PostPositions.Split requires unique post ids in the table, distinct positions among all posts of the old topic (`TopicPositionsDistinct(table, oldTopic)`), moved posts with distinct ids that are rows of the old topic, and different old and new topics. The source assumes these without checking.
- PostPositions.Split leaves out attachments, post counters, polls, `remove_topic` and the topic rows. Only the post table's topic and position columns are modelled.
- The `if not self.topic` early return of `Post.delete` (a post without a topic) is left out, as are attachments and counters.
- `url_for_post` looks the post up by id and builds a URL string with `href`. The model takes the looked-up position and slug and returns the link's parts. `POSTS_PER_PAGE` is a parameter because the forum constants module is not part of this model.
- PostPages.CheckOwnpostLimit: the elapsed time is whole seconds passed in, in place of `datetime.utcnow()` and `timedelta_to_seconds`.
- The template lexer, the translation regexes and `trim_whitespace` are library code. A token carries the regex captures, and `trim` is an arbitrary function. `smart_str` is the identity here, and tuple-or-list message shapes are not distinguished.
- Comment tags, keywords, options and file decoding of `extract_django` are not modelled.
- PasswordMigration works on one value at a time; SQL `LIKE 'md5%'` is a prefix test and `replace` removes every occurrence. The column holds at most 128 characters (0027_add_hash_algo_to_pwd.py:145), so in the database `'sha1$' || password` fails on a value longer than 123 characters. The model prepends the tag without a length limit.
- ForumTree.Descendants: the contract says which forums are listed, and that each is listed once and after its parent. The sibling order of the preorder walk below the first level is not stated directly. It follows from ChildrenRecursiveAreDescendants together with ChildrenRecursive's in-order first-level entries and its depth links.

## Findings

| source | as written | input that shows it | evidently intended | confidence | as-written member | corrected member |
|---|---|---|---|---|---|---|
| inyoka/forum/models.py:1437-1441 | Marking a topic adds its id to the set of `self.data.get(forum_id, (None, set()))`. When the forum has child forums it returns True right after, without storing the row. A forum without a row therefore keeps none, and the topic stays unread although `mark` reports it marked. | Category 1 (last post 10) with child forum 2, no stored rows, topic of forum 1 with last post 7. | The row is stored before returning, so a marked topic reads as read. | medium, not executed | ReadStatus.LostTopicMark | ReadStatus.MarkTopicStoredReads |
