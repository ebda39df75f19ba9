/**
 * The comment controller: the in-memory store (`comments` and `nextId`) and the
 * four request handlers `createComment`, `likeComment`, `getComments` and
 * `getReplies`, with HTTP replies modelled as `Response` values.
 */
module CommentController {
  import opened Wrappers
  import opened JsString
  import opened Comments
  import opened NewestFirst
  import opened Hierarchy
  import opened Pagination
  import opened Listing

  const MaxTextLength := 1000
  const MaxAuthorLength := 50

  const TextRequired := "Comment text is required"
  const AuthorRequired := "Author is required"
  const TextTooLong := "Comment text is too long (max 1000 characters)"
  const AuthorTooLong := "Author name is too long (max 50 characters)"
  const ParentNotFound := "Parent comment not found"

  /** `parentId || null`: the parent reference stored with a new comment. */
  function StoredParent(parentId: Option<nat>): Option<nat>
  {
    if parentId.Some? && parentId.value != 0 then parentId else None
  }

  /** The store invariant: ids strictly increase in storage order and stay below `nextId`,
      and every parent reference names a comment stored earlier. */
  ghost predicate WellFormedStore(s: seq<Comment>, nextId: nat)
  {
    && nextId >= 1
    && (forall i, j :: 0 <= i < j < |s| ==> s[i].id < s[j].id)
    && (forall i :: 0 <= i < |s| ==> 1 <= s[i].id < nextId)
    && (forall i :: 0 <= i < |s| && s[i].parentId.Some? ==>
          exists j :: 0 <= j < i && s[j].id == s[i].parentId.value)
  }

  /** A well-formed store has unique ids, every parent id below its child's id (so the parent
      graph has no cycle), and no stored reference to the falsy id 0. */
  lemma WellFormedStoreFacts(s: seq<Comment>, nextId: nat)
    requires WellFormedStore(s, nextId)
    ensures UniqueIds(s)
    ensures ParentsPrecede(s)
    ensures forall c :: c in s ==> (IsReply(c) <==> c.parentId.Some?)
  {
    forall c | c in s && c.parentId.Some?
      ensures 1 <= c.parentId.value < c.id
    {
      var i :| 0 <= i < |s| && s[i] == c;
      var j :| 0 <= j < i && s[j].id == s[i].parentId.value;
    }
  }

  /** Appending a comment that takes the next id and names a stored parent, or none, keeps
      the store well formed with the next id bumped. */
  lemma AppendKeepsWellFormed(s: seq<Comment>, nextId: nat, c: Comment)
    requires WellFormedStore(s, nextId)
    requires c.id == nextId
    requires c.parentId.Some? ==> exists j :: 0 <= j < |s| && s[j].id == c.parentId.value
    ensures WellFormedStore(s + [c], nextId + 1)
  {
    var t := s + [c];
    forall i | 0 <= i < |t| && t[i].parentId.Some?
      ensures exists j :: 0 <= j < i && t[j].id == t[i].parentId.value
    {
      if i < |s| {
        var j :| 0 <= j < i && s[j].id == s[i].parentId.value;
        assert t[j] == s[j];
      } else {
        var j :| 0 <= j < |s| && s[j].id == c.parentId.value;
        assert t[j] == s[j];
      }
    }
  }

  /** Changing the like count of one comment keeps the store well formed. */
  lemma LikeKeepsWellFormed(s: seq<Comment>, nextId: nat, i: nat, likes: nat)
    requires WellFormedStore(s, nextId) && i < |s|
    ensures WellFormedStore(s[i := s[i].(likes := likes)], nextId)
  {
    var t := s[i := s[i].(likes := likes)];
    forall k | 0 <= k < |t| && t[k].parentId.Some?
      ensures exists j :: 0 <= j < k && t[j].id == t[k].parentId.value
    {
      var j :| 0 <= j < k && s[j].id == s[k].parentId.value;
      assert t[j].id == s[j].id;
    }
  }

  /** The error `createComment` answers with, checking in the source's order: blank text,
      blank author, text over 1000 code units, author over 50 (both measured before
      trimming), then a parent id that names no stored comment. `None` means accepted. */
  function Rejection(comments: seq<Comment>, text: string, author: string, parentId: Option<nat>)
    : (r: Option<Response<Comment>>)
    ensures r.None? <==>
      && !IsBlank(text) && !IsBlank(author)
      && Utf16Length(text) <= MaxTextLength && Utf16Length(author) <= MaxAuthorLength
      && (StoredParent(parentId).Some? ==> exists c :: c in comments && c.id == parentId.value)
    ensures r.Some? && r.value.NotFound? <==>
      && !IsBlank(text) && !IsBlank(author)
      && Utf16Length(text) <= MaxTextLength && Utf16Length(author) <= MaxAuthorLength
      && StoredParent(parentId).Some? && forall c :: c in comments ==> c.id != parentId.value
    ensures r.Some? ==> !r.value.Ok?
    ensures IsBlank(text) ==> r == Some(BadRequest(TextRequired))
    ensures !IsBlank(text) && IsBlank(author) ==> r == Some(BadRequest(AuthorRequired))
    ensures !IsBlank(text) && !IsBlank(author) && Utf16Length(text) > MaxTextLength ==>
      r == Some(BadRequest(TextTooLong))
    ensures (&& !IsBlank(text) && !IsBlank(author) && Utf16Length(text) <= MaxTextLength
             && Utf16Length(author) > MaxAuthorLength) ==>
      r == Some(BadRequest(AuthorTooLong))
    ensures r.Some? && r.value.NotFound? ==> r.value == NotFound(ParentNotFound)
  {
    TrimBlank(text);
    TrimBlank(author);
    if Trim(text) == [] then Some(BadRequest(TextRequired))
    else if Trim(author) == [] then Some(BadRequest(AuthorRequired))
    else if Utf16Length(text) > MaxTextLength then Some(BadRequest(TextTooLong))
    else if Utf16Length(author) > MaxAuthorLength then Some(BadRequest(AuthorTooLong))
    else if StoredParent(parentId).Some? && FindIndex(comments, parentId.value).None? then
      Some(NotFound(ParentNotFound))
    else None
  }

  /** An accepted comment stores between 1 and 1000 code units of text and between 1 and
      50 of author name, both trimmed. */
  lemma AcceptedFieldsFit(comments: seq<Comment>, text: string, author: string, parentId: Option<nat>)
    requires Rejection(comments, text, author, parentId).None?
    ensures 1 <= Utf16Length(Trim(text)) <= MaxTextLength
    ensures 1 <= Utf16Length(Trim(author)) <= MaxAuthorLength
  {
    TrimSpec(text);
    TrimSpec(author);
    Utf16LengthTrim(text);
    Utf16LengthTrim(author);
  }

  /** The length limits look at the untrimmed input: an author name that fits the limit
      exactly, with one trailing space, is refused although its trimmed form would fit. */
  lemma PaddedAuthorRefused(comments: seq<Comment>, text: string, author: string, parentId: Option<nat>)
    requires !IsBlank(text) && Utf16Length(text) <= MaxTextLength
    requires !IsBlank(author) && Utf16Length(author) == MaxAuthorLength
    ensures Utf16Length(Trim(author + " ")) <= MaxAuthorLength
    ensures Rejection(comments, text, author + " ", parentId) == Some(BadRequest(AuthorTooLong))
  {
    var padded := author + " ";
    TrimIgnoresTrailingSpace(author);
    Utf16LengthTrim(author);
    PaddedNotBlank(author);
    Utf16LengthAppend(author, " ");
  }

  lemma PaddedNotBlank(s: string)
    requires !IsBlank(s)
    ensures !IsBlank(s + " ")
  {
    var k :| 0 <= k < |s| && !IsWhiteSpace(s[k]);
    assert (s + " ")[k] == s[k];
  }

  /** An accepted comment names no parent, or one stored at some position of `comments`. */
  lemma AcceptedParentStored(comments: seq<Comment>, text: string, author: string, parentId: Option<nat>)
    requires Rejection(comments, text, author, parentId).None?
    ensures StoredParent(parentId).Some? ==>
      exists j :: 0 <= j < |comments| && comments[j].id == parentId.value
  {
    if StoredParent(parentId).Some? {
      var c :| c in comments && c.id == parentId.value;
      var j :| 0 <= j < |comments| && comments[j] == c;
    }
  }

  /** The process-wide store of `commentController.js`. */
  class Store {
    var comments: seq<Comment>
    var nextId: nat

    ghost predicate Valid()
      reads this
    {
      WellFormedStore(comments, nextId)
    }

    /** Process start: no comments, and the first id handed out is 1. */
    constructor ()
      ensures Valid() && comments == [] && nextId == 1
    {
      comments := [];
      nextId := 1;
    }

    /** `createComment`: validate, then append one record with the next id. `now` is the
        creation instant in milliseconds, which the source reads from the clock. */
    method CreateComment(text: string, author: string, parentId: Option<nat>, now: int)
      returns (r: Response<Comment>)
      requires Valid()
      modifies this
      ensures Valid()
      ensures var rejected := Rejection(old(comments), text, author, parentId);
        && (rejected.Some? ==> r == rejected.value && comments == old(comments) && nextId == old(nextId))
        && (rejected.None? ==>
              && r == Ok(Comment(old(nextId), Trim(text), Trim(author), StoredParent(parentId), 0, now))
              && comments == old(comments) + [r.value]
              && nextId == old(nextId) + 1)
    {
      var rejected := Validate(text, author, parentId);
      if rejected.Some? {
        return rejected.value;
      }
      var comment := Comment(nextId, Trim(text), Trim(author), StoredParent(parentId), 0, now);
      AcceptedParentStored(comments, text, author, parentId);
      Append(comment);
      r := Ok(comment);
    }

    /** `comments.push(newComment)` with `nextId++`, for a record that takes the next id. */
    method Append(comment: Comment)
      requires Valid() && comment.id == nextId
      requires comment.parentId.Some? ==>
        exists j :: 0 <= j < |comments| && comments[j].id == comment.parentId.value
      modifies this
      ensures Valid()
      ensures comments == old(comments) + [comment] && nextId == old(nextId) + 1
    {
      AppendKeepsWellFormed(comments, nextId, comment);
      nextId := nextId + 1;
      comments := comments + [comment];
    }

    /** The checks of `createComment`, in the source's order; `None` lets the comment through. */
    method Validate(text: string, author: string, parentId: Option<nat>) returns (r: Option<Response<Comment>>)
      ensures r == Rejection(comments, text, author, parentId)
    {
      if Trim(text) == [] {
        return Some(BadRequest(TextRequired));
      }
      if Trim(author) == [] {
        return Some(BadRequest(AuthorRequired));
      }
      if Utf16Length(text) > MaxTextLength {
        return Some(BadRequest(TextTooLong));
      }
      if Utf16Length(author) > MaxAuthorLength {
        return Some(BadRequest(AuthorTooLong));
      }
      if StoredParent(parentId).Some? {
        var parent := FindIndex(comments, parentId.value);
        if parent.None? {
          return Some(NotFound(ParentNotFound));
        }
      }
      r := None;
    }

    /** `likeComment`: add one like to the first comment with this id and answer the new count. */
    method LikeComment(id: int) returns (r: Response<nat>)
      requires Valid()
      modifies this
      ensures Valid() && nextId == old(nextId)
      ensures match FindIndex(old(comments), id)
        case None => r == NotFound(CommentNotFound) && comments == old(comments)
        case Some(i) =>
          && r == Ok(old(comments)[i].likes + 1)
          && comments == old(comments)[i := old(comments)[i].(likes := old(comments)[i].likes + 1)]
    {
      var found := FindIndex(comments, id);
      if found.None? {
        return NotFound(CommentNotFound);
      }
      var i := found.value;
      var liked := comments[i].(likes := comments[i].likes + 1);
      LikeKeepsWellFormed(comments, nextId, i, liked.likes);
      comments := comments[i := liked];
      r := Ok(liked.likes);
    }

    /** `getComments` with the raw query values: `None` is a missing or non-numeric one. */
    method GetComments(pageQuery: Option<int>, limitQuery: Option<int>) returns (r: CommentsPage)
      requires Valid()
      ensures WellFormedStore(comments, nextId)
      ensures r == RootListing(comments, QueryInt(pageQuery, 1), QueryInt(limitQuery, 10))
    {
      WellFormedStoreFacts(comments, nextId);
      var page := QueryInt(pageQuery, 1);
      var limit := QueryInt(limitQuery, 10);
      r := ListRoots(comments, page, limit);
    }

    /** `getReplies` for comment `id` with the raw query values. */
    method GetReplies(id: int, pageQuery: Option<int>, limitQuery: Option<int>, skipQuery: Option<int>)
      returns (r: Response<RepliesPage>)
      requires Valid()
      ensures WellFormedStore(comments, nextId)
      ensures r == ReplyListing(comments, id, QueryInt(pageQuery, 1), QueryInt(limitQuery, 5), QueryInt(skipQuery, 0))
    {
      WellFormedStoreFacts(comments, nextId);
      var page := QueryInt(pageQuery, 1);
      var limit := QueryInt(limitQuery, 5);
      var skip := QueryInt(skipQuery, 0);
      r := ListReplies(comments, id, page, limit, skip);
    }
  }

  /** An empty store lists no roots: total 0, no pages, no next and no previous page. */
  method EmptyStoreScenario()
  {
    var store := new Store();
    var page := store.GetComments(None, None);
    assert page.comments == [];
    assert page.pagination == PageInfo(1, 10, 0, 0, false, false);
  }

  /** Liking the same comment twice adds exactly two likes and changes nothing else. */
  method LikeTwice(store: Store, id: int) returns (r: Response<nat>)
    requires store.Valid() && FindIndex(store.comments, id).Some?
    modifies store
    ensures store.Valid() && store.nextId == old(store.nextId)
    ensures var i := FindIndex(old(store.comments), id).value;
      && r == Ok(old(store.comments)[i].likes + 2)
      && store.comments == old(store.comments)[i := old(store.comments)[i].(likes := old(store.comments)[i].likes + 2)]
  {
    var first := store.LikeComment(id);
    SameIdsSameIndex(old(store.comments), store.comments, id);
    r := store.LikeComment(id);
  }
}
