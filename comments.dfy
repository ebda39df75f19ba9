/**
 * The records the comment service stores, the tree nodes it hands out and the
 * outcomes of its operations.
 */
module Comments {
  import opened Wrappers

  /** One stored comment. `timestamp` is the creation instant in milliseconds. */
  datatype Comment = Comment(
    id: nat,
    text: string,
    author: string,
    parentId: Option<nat>,
    likes: nat,
    timestamp: int)

  /** A comment with the replies attached beneath it (the derived `children` list). */
  datatype Node = Node(comment: Comment, children: seq<Node>)

  /** Outcome of a request: a value, a validation failure (400) or a missing record (404). */
  datatype Response<T> = Ok(value: T) | BadRequest(error: string) | NotFound(error: string)

  /** JavaScript truthiness of `comment.parentId`: both null and 0 mean "a root comment". */
  predicate IsReply(c: Comment)
  {
    c.parentId.Some? && c.parentId.value != 0
  }

  predicate IsReplyTo(c: Comment, p: nat)
  {
    IsReply(c) && c.parentId.value == p
  }

  /** The comments of `s` that reply directly to comment `p`, in the order of `s`. */
  function RepliesTo(s: seq<Comment>, p: nat): (r: seq<Comment>)
    ensures |r| <= |s|
    ensures forall c :: c in r <==> c in s && IsReplyTo(c, p)
  {
    if s == [] then []
    else
      var last := s[|s| - 1];
      assert s == s[..|s| - 1] + [last];
      RepliesTo(s[..|s| - 1], p) + (if IsReplyTo(last, p) then [last] else [])
  }

  /** Every direct reply occurs in `RepliesTo(s, p)` exactly as often as in `s`, and nothing else occurs. */
  lemma {:induction false} RepliesToCounts(s: seq<Comment>, p: nat, c: Comment)
    ensures multiset(RepliesTo(s, p))[c] == if IsReplyTo(c, p) then multiset(s)[c] else 0
  {
    if s != [] {
      assert s == s[..|s| - 1] + [s[|s| - 1]];
      RepliesToCounts(s[..|s| - 1], p, c);
    }
  }

  /** Every root comment occurs in `Roots(s)` exactly as often as in `s`, and nothing else occurs. */
  lemma {:induction false} RootsCounts(s: seq<Comment>, c: Comment)
    ensures multiset(Roots(s))[c] == if IsRoot(c) then multiset(s)[c] else 0
  {
    if s != [] {
      assert s == s[..|s| - 1] + [s[|s| - 1]];
      RootsCounts(s[..|s| - 1], c);
    }
  }

  /** A root comment: `!comment.parentId`. */
  predicate IsRoot(c: Comment)
  {
    !IsReply(c)
  }

  /** The root comments of `s`, in the order of `s`. */
  function Roots(s: seq<Comment>): (r: seq<Comment>)
    ensures |r| <= |s|
    ensures forall c :: c in r <==> c in s && IsRoot(c)
  {
    if s == [] then []
    else
      var last := s[|s| - 1];
      assert s == s[..|s| - 1] + [last];
      Roots(s[..|s| - 1]) + (if IsRoot(last) then [last] else [])
  }

  /** `comments.find(c => c.id == id)`, as the position of the first match. */
  function FindIndex(s: seq<Comment>, id: int): (r: Option<nat>)
    ensures r.Some? ==> r.value < |s| && s[r.value].id == id
    ensures r.Some? ==> forall j :: 0 <= j < r.value ==> s[j].id != id
    ensures r.None? <==> forall j :: 0 <= j < |s| ==> s[j].id != id
  {
    if s == [] then None
    else if s[0].id == id then Some(0)
    else
      match FindIndex(s[1..], id)
      case None => None
      case Some(k) => Some(k + 1)
  }

  /** The lookup depends only on the ids, position by position. */
  lemma {:induction false} SameIdsSameIndex(s: seq<Comment>, t: seq<Comment>, id: int)
    requires |s| == |t| && forall k :: 0 <= k < |s| ==> s[k].id == t[k].id
    ensures FindIndex(s, id) == FindIndex(t, id)
  {
    if s != [] {
      SameIdsSameIndex(s[1..], t[1..], id);
    }
  }
}
