/**
 * The read side of the comment controller: what `getComments` and `getReplies` answer
 * for a given store, as functions of the stored comments, the lemmas that say what those
 * answers mean, and the handler bodies that compute them.
 */
module Listing {
  import opened Wrappers
  import opened Comments
  import opened NewestFirst
  import opened Hierarchy
  import opened Pagination

  const CommentNotFound := "Comment not found"

  /** The body of one page of the root listing. */
  datatype CommentsPage = CommentsPage(comments: seq<Node>, pagination: PageInfo)

  /** The body of one page of a reply listing. */
  datatype RepliesPage = RepliesPage(replies: seq<Node>, pagination: ReplyInfo)

  /** The root comments on one page, newest first, before their trees are built. */
  function RootWindow(comments: seq<Comment>, page: int, limit: int): seq<Comment>
  {
    var roots := SortNewestFirst(Roots(comments));
    var skip := PageOffset(page, limit);
    Slice(roots, skip, skip + limit)
  }

  /** What `getComments` answers for a parsed `page` and `limit`. */
  function RootListing(comments: seq<Comment>, page: int, limit: int): CommentsPage
    requires ParentsPrecede(comments) && limit != 0
  {
    CommentsPage(Hierarchy.Hierarchy(comments, RootWindow(comments, page, limit)),
                 RootPageInfo(page, limit, |Roots(comments)|))
  }

  lemma RootListingOf(comments: seq<Comment>, page: int, limit: int, window: seq<Comment>, tree: seq<Node>, info: PageInfo)
    requires ParentsPrecede(comments) && limit != 0
    requires window == RootWindow(comments, page, limit)
    requires tree == Hierarchy.Hierarchy(comments, window)
    requires info == RootPageInfo(page, limit, |Roots(comments)|)
    ensures CommentsPage(tree, info) == RootListing(comments, page, limit)
  {
  }

  /** The direct replies to comment `p` on one window, newest first, before their trees are built. */
  function ReplyWindow(comments: seq<Comment>, p: nat, skip: int, limit: int): seq<Comment>
  {
    Slice(SortNewestFirst(RepliesTo(comments, p)), skip, skip + limit)
  }

  /** What `getReplies` answers for a parsed comment id, `page`, `limit` and `skip`. */
  function ReplyListing(comments: seq<Comment>, id: int, page: int, limit: int, skip: int): Response<RepliesPage>
    requires ParentsPrecede(comments)
  {
    match FindIndex(comments, id)
    case None => NotFound(CommentNotFound)
    case Some(i) =>
      var p := comments[i].id;
      Ok(RepliesPage(Hierarchy.Hierarchy(comments, ReplyWindow(comments, p, skip, limit)),
                     ReplyPageInfo(page, limit, skip, |RepliesTo(comments, p)|)))
  }

  lemma ReplyListingOf(comments: seq<Comment>, id: int, page: int, limit: int, skip: int,
                       i: nat, window: seq<Comment>, tree: seq<Node>, info: ReplyInfo)
    requires ParentsPrecede(comments) && FindIndex(comments, id) == Some(i)
    requires window == ReplyWindow(comments, comments[i].id, skip, limit)
    requires tree == Hierarchy.Hierarchy(comments, window)
    requires info == ReplyPageInfo(page, limit, skip, |RepliesTo(comments, comments[i].id)|)
    ensures Ok(RepliesPage(tree, info)) == ReplyListing(comments, id, page, limit, skip)
  {
  }

  /** A sequence already newest first is left as it is by the sort. */
  lemma SortKeepsSorted(s: seq<Comment>)
    requires IsNewestFirst(s)
    ensures SortNewestFirst(s) == s
  {
    StableSortIsUnique(s, s);
  }

  /** Every slice of a newest-first sequence is newest first. */
  lemma SliceKeepsOrder(s: seq<Comment>, start: int, end: int)
    requires IsNewestFirst(s)
    ensures IsNewestFirst(Slice(s, start, end))
  {
  }

  /** The trees built for a newest-first list of comments: one per comment, in the same
      order, each a well-built tree of all its replies. */
  lemma SortedForest(all: seq<Comment>, level: seq<Comment>)
    requires ParentsPrecede(all) && IsNewestFirst(level)
    ensures Tops(Hierarchy.Hierarchy(all, level)) == level
    ensures forall n :: n in Hierarchy.Hierarchy(all, level) ==> WellBuilt(all, n)
  {
    SortKeepsSorted(level);
    ForestTops(all, level);
    HierarchyWellBuilt(all, level);
  }

  /** For page >= 1 and limit >= 1 over N root comments, the page holds
      `min(limit, max(0, N - (page - 1) * limit))` comments: the root comments sorted newest
      first, from position `(page - 1) * limit` on. */
  lemma RootWindowMeaning(comments: seq<Comment>, page: int, limit: int)
    requires page >= 1 && limit >= 1
    ensures var w := RootWindow(comments, page, limit);
      && |w| == Min(limit, Max(0, |Roots(comments)| - PageOffset(page, limit)))
      && (forall k :: 0 <= k < |w| ==> w[k] == SortNewestFirst(Roots(comments))[PageOffset(page, limit) + k])
  {
    RootWindowSize(comments, page, limit);
    forall k | 0 <= k < |RootWindow(comments, page, limit)|
      ensures RootWindow(comments, page, limit)[k] == SortNewestFirst(Roots(comments))[PageOffset(page, limit) + k]
    {
      RootWindowAt(comments, page, limit, k);
    }
  }

  lemma RootWindowSize(comments: seq<Comment>, page: int, limit: int)
    requires page >= 1 && limit >= 1
    ensures |RootWindow(comments, page, limit)| == Min(limit, Max(0, |Roots(comments)| - PageOffset(page, limit)))
  {
    SortedWindowSize(Roots(comments), PageOffset(page, limit), limit);
  }

  lemma RootWindowAt(comments: seq<Comment>, page: int, limit: int, k: int)
    requires page >= 1 && limit >= 1 && 0 <= k < |RootWindow(comments, page, limit)|
    ensures PageOffset(page, limit) + k < |SortNewestFirst(Roots(comments))|
    ensures RootWindow(comments, page, limit)[k] == SortNewestFirst(Roots(comments))[PageOffset(page, limit) + k]
  {
    SortedWindowAt(Roots(comments), PageOffset(page, limit), limit, k);
  }

  /** Every comment on a root page is a stored root comment, and the page is newest first. */
  lemma RootWindowMembers(comments: seq<Comment>, page: int, limit: int)
    ensures forall c :: c in RootWindow(comments, page, limit) ==> c in comments && IsRoot(c)
    ensures IsNewestFirst(RootWindow(comments, page, limit))
  {
    var roots := SortNewestFirst(Roots(comments));
    var skip := PageOffset(page, limit);
    SliceMembers(roots, skip, skip + limit);
    SliceKeepsOrder(roots, skip, skip + limit);
    SortedMembers(Roots(comments));
  }

  /** Sorting brings in no new comment. */
  lemma SortedMembers(s: seq<Comment>)
    ensures forall c :: c in SortNewestFirst(s) ==> c in s
  {
    forall c | c in SortNewestFirst(s) ensures c in s {
      assert c in multiset(s);
    }
  }

  /** The root listing is the forest of the page's root comments, in page order, each a
      well-built tree of all its replies, with the pagination of all N root comments. */
  lemma RootListingMeaning(comments: seq<Comment>, page: int, limit: int)
    requires ParentsPrecede(comments) && page >= 1 && limit >= 1
    ensures Tops(RootListing(comments, page, limit).comments) == RootWindow(comments, page, limit)
    ensures forall t :: t in RootListing(comments, page, limit).comments ==> WellBuilt(comments, t)
    ensures RootListing(comments, page, limit).pagination == RootPageInfo(page, limit, |Roots(comments)|)
  {
    RootWindowMembers(comments, page, limit);
    SortedForest(comments, RootWindow(comments, page, limit));
  }

  /** For skip >= 0 and limit >= 0 the reply window holds `min(limit, max(0, total - skip))`
      replies: the direct replies to `p` sorted newest first, from position `skip` on. */
  lemma ReplyWindowMeaning(comments: seq<Comment>, p: nat, skip: int, limit: int)
    requires skip >= 0 && limit >= 0
    ensures var w := ReplyWindow(comments, p, skip, limit);
      && |w| == Min(limit, Max(0, |RepliesTo(comments, p)| - skip))
      && (forall k :: 0 <= k < |w| ==> w[k] == SortNewestFirst(RepliesTo(comments, p))[skip + k])
  {
    ReplyWindowSize(comments, p, skip, limit);
    forall k | 0 <= k < |ReplyWindow(comments, p, skip, limit)|
      ensures ReplyWindow(comments, p, skip, limit)[k] == SortNewestFirst(RepliesTo(comments, p))[skip + k]
    {
      ReplyWindowAt(comments, p, skip, limit, k);
    }
  }

  lemma ReplyWindowSize(comments: seq<Comment>, p: nat, skip: int, limit: int)
    requires skip >= 0 && limit >= 0
    ensures |ReplyWindow(comments, p, skip, limit)| == Min(limit, Max(0, |RepliesTo(comments, p)| - skip))
  {
    SortedWindowSize(RepliesTo(comments, p), skip, limit);
  }

  lemma ReplyWindowAt(comments: seq<Comment>, p: nat, skip: int, limit: int, k: int)
    requires skip >= 0 && limit >= 0 && 0 <= k < |ReplyWindow(comments, p, skip, limit)|
    ensures skip + k < |SortNewestFirst(RepliesTo(comments, p))|
    ensures ReplyWindow(comments, p, skip, limit)[k] == SortNewestFirst(RepliesTo(comments, p))[skip + k]
  {
    SortedWindowAt(RepliesTo(comments, p), skip, limit, k);
  }

  /** The window of a sorted sequence holds `min(limit, max(0, |s| - skip))` elements. */
  lemma SortedWindowSize(s: seq<Comment>, skip: int, limit: int)
    requires skip >= 0 && limit >= 0
    ensures |Slice(SortNewestFirst(s), skip, skip + limit)| == Min(limit, Max(0, |s| - skip))
  {
    SliceWindowSize(SortNewestFirst(s), |s|, skip, limit, Slice(SortNewestFirst(s), skip, skip + limit));
  }

  /** Position `k` of the window of a sorted sequence is position `skip + k` of the sorted sequence. */
  lemma SortedWindowAt(s: seq<Comment>, skip: int, limit: int, k: int)
    requires skip >= 0 && limit >= 0 && 0 <= k < |Slice(SortNewestFirst(s), skip, skip + limit)|
    ensures skip + k < |SortNewestFirst(s)|
    ensures Slice(SortNewestFirst(s), skip, skip + limit)[k] == SortNewestFirst(s)[skip + k]
  {
    SliceWindowAt(SortNewestFirst(s), skip, limit, Slice(SortNewestFirst(s), skip, skip + limit), k);
  }

  /** Every comment in a reply window is a stored direct reply to `p`, and the window is
      newest first. */
  lemma ReplyWindowMembers(comments: seq<Comment>, p: nat, skip: int, limit: int)
    ensures forall c :: c in ReplyWindow(comments, p, skip, limit) ==> c in comments && IsReplyTo(c, p)
    ensures IsNewestFirst(ReplyWindow(comments, p, skip, limit))
  {
    var sorted := SortNewestFirst(RepliesTo(comments, p));
    SliceMembers(sorted, skip, skip + limit);
    SliceKeepsOrder(sorted, skip, skip + limit);
    SortedMembers(RepliesTo(comments, p));
  }

  /** The reply listing answers NotFound exactly when no comment has the id; otherwise it is
      the forest of the window of direct replies, each a well-built tree, and `total` counts
      the direct replies only. */
  lemma ReplyListingMeaning(comments: seq<Comment>, id: int, page: int, limit: int, skip: int)
    requires ParentsPrecede(comments) && limit >= 0 && skip >= 0
    ensures ReplyListing(comments, id, page, limit, skip).NotFound? <==> forall c :: c in comments ==> c.id != id
    ensures var r := ReplyListing(comments, id, page, limit, skip);
      r.Ok? ==>
        && id >= 0
        && Tops(r.value.replies) == ReplyWindow(comments, id, skip, limit)
        && (forall t :: t in r.value.replies ==> WellBuilt(comments, t))
        && r.value.pagination == ReplyPageInfo(page, limit, skip, |RepliesTo(comments, id)|)
        && r.value.pagination.total == |RepliesTo(comments, id)|
        && (r.value.pagination.hasMore <==> skip + limit < |RepliesTo(comments, id)|)
  {
    match FindIndex(comments, id)
    case None =>
    case Some(i) =>
      ReplyWindowMembers(comments, id, skip, limit);
      SortedForest(comments, ReplyWindow(comments, id, skip, limit));
  }

  /** The body of `getComments` once `page` and `limit` are parsed: count the root comments,
      sort and cut out the page, build its trees and the pagination object. */
  method ListRoots(comments: seq<Comment>, page: int, limit: int) returns (r: CommentsPage)
    requires ParentsPrecede(comments) && UniqueIds(comments) && limit != 0
    ensures r == RootListing(comments, page, limit)
  {
    var skip := PageOffset(page, limit);
    var rootComments := Roots(comments);
    var totalRootComments := |rootComments|;
    var totalPages := CeilDiv(totalRootComments, limit);
    var paginated := SortedSlice(rootComments, skip, skip + limit);
    assert paginated == RootWindow(comments, page, limit);
    RootWindowMembers(comments, page, limit);
    assert forall c :: c in paginated ==> c in comments;
    var tree := BuildHierarchy(comments, paginated, map[]);
    var info := PageInfo(page, limit, totalRootComments, totalPages, page < totalPages, page > 1);
    RootListingOf(comments, page, limit, paginated, tree, info);
    r := CommentsPage(tree, info);
  }

  /** The body of `getReplies` once the query is parsed: find the comment, then sort and cut
      out the window of its direct replies and build their trees. */
  method ListReplies(comments: seq<Comment>, id: int, page: int, limit: int, skip: int)
    returns (r: Response<RepliesPage>)
    requires ParentsPrecede(comments) && UniqueIds(comments)
    ensures r == ReplyListing(comments, id, page, limit, skip)
  {
    var found := FindIndex(comments, id);
    if found.None? {
      return NotFound(CommentNotFound);
    }
    var p := comments[found.value].id;
    var replies := RepliesTo(comments, p);
    var totalReplies := |replies|;
    var paginated := SortedSlice(replies, skip, skip + limit);
    assert paginated == ReplyWindow(comments, p, skip, limit);
    ReplyWindowMembers(comments, p, skip, limit);
    assert forall c :: c in paginated ==> c in comments;
    var tree := BuildHierarchy(comments, paginated, map[]);
    var info := ReplyInfo(page, limit, skip, totalReplies, skip + limit < totalReplies);
    ReplyListingOf(comments, id, page, limit, skip, found.value, paginated, tree, info);
    r := Ok(RepliesPage(tree, info));
  }

  /** `s.sort(newest first).slice(start, end)`, sorting a copy of `s` in place. */
  method SortedSlice(s: seq<Comment>, start: int, end: int) returns (w: seq<Comment>)
    ensures w == Slice(SortNewestFirst(s), start, end)
  {
    var sorted := SortedCopy(s);
    w := Slice(sorted, start, end);
  }
}
