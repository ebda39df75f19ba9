/**
 * `buildHierarchy(allComments, rootCommentsToProcess)`: turns the flat list of
 * stored comments into reply trees rooted at a chosen page of comments.
 *
 * The tree it returns is described here by the value `Hierarchy(all, subset)`;
 * the method `BuildHierarchy` follows the source step by step (reset every
 * `children` list, index the comments by id, append each reply to its parent's
 * list, then sort every list newest first) and is proved to return that value.
 */
module Hierarchy {
  import opened Wrappers
  import opened Comments
  import opened NewestFirst

  /** The largest id in `all` (0 when there is none). */
  function MaxId(all: seq<Comment>): (m: nat)
    ensures forall c :: c in all ==> c.id <= m
  {
    if all == [] then 0
    else
      var rest := MaxId(all[..|all| - 1]);
      assert all == all[..|all| - 1] + [all[|all| - 1]];
      if all[|all| - 1].id > rest then all[|all| - 1].id else rest
  }

  /** Every reply names a parent with a smaller id, so following parents always ends. */
  predicate ParentsPrecede(all: seq<Comment>)
  {
    forall c :: c in all && IsReply(c) ==> c.parentId.value < c.id
  }

  predicate UniqueIds(all: seq<Comment>)
  {
    forall i, j :: 0 <= i < j < |all| ==> all[i].id != all[j].id
  }

  /** The comment `c` with all of its replies in `all` attached beneath it, at every depth,
      each list newest first. */
  function Subtree(all: seq<Comment>, c: Comment): Node
    requires ParentsPrecede(all)
    decreases MaxId(all) + 1 - c.id
  {
    var kids := SortNewestFirst(RepliesTo(all, c.id));
    Node(c, seq(|kids|, i requires 0 <= i < |kids| =>
      SortedReplyAt(all, c.id, i);
      Subtree(all, kids[i])))
  }

  /** The `i`-th reply to `p`, newest first, is a stored reply to `p`; its id exceeds `p`. */
  lemma SortedReplyAt(all: seq<Comment>, p: nat, i: nat)
    requires ParentsPrecede(all) && i < |SortNewestFirst(RepliesTo(all, p))|
    ensures var x := SortNewestFirst(RepliesTo(all, p))[i];
      x in all && IsReplyTo(x, p) && p < x.id <= MaxId(all)
  {
    var x := SortNewestFirst(RepliesTo(all, p))[i];
    assert x in multiset(RepliesTo(all, p));
  }

  /** The comments of `level`, newest first, each with its subtree. */
  function Forest(all: seq<Comment>, level: seq<Comment>): (f: seq<Node>)
    requires ParentsPrecede(all)
    ensures |f| == |level|
  {
    var sorted := SortNewestFirst(level);
    seq(|sorted|, i requires 0 <= i < |sorted| => Subtree(all, sorted[i]))
  }

  /** What `buildHierarchy(all, subset)` returns: the subset, newest first, with subtrees. */
  function Hierarchy(all: seq<Comment>, subset: seq<Comment>): seq<Node>
    requires ParentsPrecede(all)
  {
    Forest(all, subset)
  }

  /** The comments at the top of a list of nodes, in order. */
  function Tops(ns: seq<Node>): (r: seq<Comment>)
    ensures |r| == |ns| && forall i :: 0 <= i < |ns| ==> r[i] == ns[i].comment
  {
    seq(|ns|, i requires 0 <= i < |ns| => ns[i].comment)
  }

  lemma SubtreeUnfold(all: seq<Comment>, c: Comment)
    requires ParentsPrecede(all)
    ensures Subtree(all, c) == Node(c, Forest(all, RepliesTo(all, c.id)))
  {
    var kids := SortNewestFirst(RepliesTo(all, c.id));
    var n := Subtree(all, c);
    var f := Forest(all, RepliesTo(all, c.id));
    assert |n.children| == |f|;
    forall i | 0 <= i < |f| ensures n.children[i] == f[i] {
    }
  }

  /** The top of a forest is its level sorted newest first. */
  lemma ForestTops(all: seq<Comment>, level: seq<Comment>)
    requires ParentsPrecede(all)
    ensures Tops(Forest(all, level)) == SortNewestFirst(level)
  {
    var f := Forest(all, level);
    forall i | 0 <= i < |f| ensures Tops(f)[i] == SortNewestFirst(level)[i] {
    }
  }

  /** A node is well built when its children are exactly the direct replies to it in `all`
      (each as often as it is stored), newest first, equal timestamps in stored order,
      and every child is well built in turn. */
  ghost predicate WellBuilt(all: seq<Comment>, n: Node)
  {
    && ChildrenOrdered(all, n)
    && forall i :: 0 <= i < |n.children| ==> WellBuilt(all, n.children[i])
  }

  /** The first level of `WellBuilt`: the children of `n` are its replies, sorted stably. */
  ghost predicate ChildrenOrdered(all: seq<Comment>, n: Node)
  {
    var kids := Tops(n.children);
    var replies := RepliesTo(all, n.comment.id);
    && multiset(kids) == multiset(replies)
    && IsNewestFirst(kids)
    && (forall t :: WithTimestamp(kids, t) == WithTimestamp(replies, t))
  }

  lemma SubtreeChildrenOrdered(all: seq<Comment>, c: Comment)
    requires ParentsPrecede(all)
    ensures Subtree(all, c).comment == c
    ensures ChildrenOrdered(all, Subtree(all, c))
  {
    var replies := RepliesTo(all, c.id);
    var n := Subtree(all, c);
    SubtreeUnfold(all, c);
    ForestTops(all, replies);
    forall t ensures WithTimestamp(Tops(n.children), t) == WithTimestamp(replies, t) {
      SortIsStable(replies, t);
    }
  }

  /** The `i`-th child of the tree of `c` is the tree of the `i`-th reply, newest first. */
  lemma SubtreeChild(all: seq<Comment>, c: Comment, i: nat)
    requires ParentsPrecede(all) && i < |Subtree(all, c).children|
    ensures i < |SortNewestFirst(RepliesTo(all, c.id))|
    ensures Subtree(all, c).children[i] == Subtree(all, SortNewestFirst(RepliesTo(all, c.id))[i])
  {
  }

  lemma {:induction false} SubtreeWellBuilt(all: seq<Comment>, c: Comment)
    requires ParentsPrecede(all)
    ensures Subtree(all, c).comment == c
    ensures WellBuilt(all, Subtree(all, c))
    decreases MaxId(all) + 1 - c.id
  {
    var n := Subtree(all, c);
    SubtreeChildrenOrdered(all, c);
    forall i | 0 <= i < |n.children| ensures WellBuilt(all, n.children[i]) {
      SubtreeChild(all, c, i);
      SortedReplyAt(all, c.id, i);
      SubtreeWellBuilt(all, SortNewestFirst(RepliesTo(all, c.id))[i]);
    }
  }

  /** Each top-level node of `Hierarchy(all, subset)` is a well-built tree, and the top level
      is the subset, newest first, equal timestamps in the subset's order. */
  lemma HierarchyWellBuilt(all: seq<Comment>, subset: seq<Comment>)
    requires ParentsPrecede(all)
    ensures multiset(Tops(Hierarchy(all, subset))) == multiset(subset)
    ensures IsNewestFirst(Tops(Hierarchy(all, subset)))
    ensures forall t :: WithTimestamp(Tops(Hierarchy(all, subset)), t) == WithTimestamp(subset, t)
    ensures forall n :: n in Hierarchy(all, subset) ==> WellBuilt(all, n)
  {
    var h := Hierarchy(all, subset);
    ForestTops(all, subset);
    forall t ensures WithTimestamp(Tops(h), t) == WithTimestamp(subset, t) {
      SortIsStable(subset, t);
    }
    forall n | n in h ensures WellBuilt(all, n) {
      var i :| 0 <= i < |h| && h[i] == n;
      SubtreeWellBuilt(all, SortNewestFirst(subset)[i]);
    }
  }

  /** `d` hangs somewhere below `n` (as a child, grandchild, ...). */
  ghost predicate Below(d: Comment, n: Node)
  {
    exists k :: k in n.children && (k.comment == d || Below(d, k))
  }

  /** Whatever hangs below the tree of `c` is a stored reply whose parent is `c`
      or another stored comment. */
  lemma {:induction false} BelowHasStoredParent(all: seq<Comment>, c: Comment, d: Comment)
    requires ParentsPrecede(all)
    requires Below(d, Subtree(all, c))
    ensures d in all && IsReply(d)
    ensures d.parentId.value == c.id || exists e :: e in all && e.id == d.parentId.value
    decreases MaxId(all) + 1 - c.id
  {
    var n := Subtree(all, c);
    var k :| k in n.children && (k.comment == d || Below(d, k));
    var i :| 0 <= i < |n.children| && n.children[i] == k;
    SubtreeChild(all, c, i);
    SortedReplyAt(all, c.id, i);
    var kid := SortNewestFirst(RepliesTo(all, c.id))[i];
    if k.comment != d {
      BelowHasStoredParent(all, kid, d);
    }
  }

  /** A reply whose parent id belongs to no comment of `all` or `subset` is silently
      dropped: it hangs below none of the returned trees. */
  lemma DanglingReplyDropped(all: seq<Comment>, subset: seq<Comment>, d: Comment)
    requires ParentsPrecede(all)
    requires IsReply(d)
    requires forall e :: e in all ==> e.id != d.parentId.value
    requires forall e :: e in subset ==> e.id != d.parentId.value
    ensures forall n :: n in Hierarchy(all, subset) ==> !Below(d, n)
  {
    var h := Hierarchy(all, subset);
    var sorted := SortNewestFirst(subset);
    forall n | n in h ensures !Below(d, n) {
      var i :| 0 <= i < |h| && h[i] == n;
      assert sorted[i] in multiset(subset);
      if Below(d, n) {
        BelowHasStoredParent(all, sorted[i], d);
      }
    }
  }

  /** The `children` lists, keyed by comment id, hold exactly the direct replies in `all`
      for every comment of `all`. */
  ghost predicate ListsComplete(all: seq<Comment>, children: map<nat, seq<Comment>>)
  {
    forall c :: c in all ==> c.id in children && children[c.id] == RepliesTo(all, c.id)
  }

  /** `sortComments(level)`: sort the list newest first, then recurse into every non-empty
      `children` list; the result is the level with its subtrees attached. */
  method SortLevel(ghost all: seq<Comment>, level: seq<Comment>, children: map<nat, seq<Comment>>, ghost lo: int)
    returns (nodes: seq<Node>)
    requires ParentsPrecede(all)
    requires ListsComplete(all, children)
    requires forall c :: c in level ==> c in all && c.id >= lo
    ensures nodes == Forest(all, level)
    decreases MaxId(all) + 1 - lo, 1
  {
    var sorted := SortedCopy(level);
    nodes := [];
    for i := 0 to |sorted|
      invariant nodes == Forest(all, level)[..i]
    {
      SortedMember(level, sorted, i);
      var n := SortNode(all, sorted[i], children);
      ForestExtend(all, level, sorted, i, nodes, n);
      nodes := nodes + [n];
    }
    PrefixWhole(Forest(all, level), nodes);
  }

  /** Whatever sits at position `i` of the sorted level is a comment of the level. */
  lemma SortedMember(level: seq<Comment>, sorted: seq<Comment>, i: nat)
    requires sorted == SortNewestFirst(level) && i < |sorted|
    ensures sorted[i] in level
  {
    assert sorted[i] in multiset(level);
  }

  /** The forest of a level is built one sorted comment at a time. */
  lemma ForestExtend(all: seq<Comment>, level: seq<Comment>, sorted: seq<Comment>, i: nat, nodes: seq<Node>, n: Node)
    requires ParentsPrecede(all)
    requires sorted == SortNewestFirst(level) && i < |sorted|
    requires nodes == Forest(all, level)[..i] && n == Subtree(all, sorted[i])
    ensures nodes + [n] == Forest(all, level)[..i + 1]
  {
    ForestAt(all, level, i);
    PrefixStep(Forest(all, level), nodes, i, n);
  }

  lemma PrefixWhole<T>(f: seq<T>, p: seq<T>)
    requires p == f[..|f|]
    ensures p == f
  {
  }

  lemma PrefixStep<T>(f: seq<T>, p: seq<T>, i: nat, x: T)
    requires i < |f| && p == f[..i] && x == f[i]
    ensures p + [x] == f[..i + 1]
  {
    assert f[..i + 1] == f[..i] + [f[i]];
  }

  lemma ForestAt(all: seq<Comment>, level: seq<Comment>, i: nat)
    requires ParentsPrecede(all) && i < |level|
    ensures |SortNewestFirst(level)| == |level|
    ensures Forest(all, level)[i] == Subtree(all, SortNewestFirst(level)[i])
  {
  }

  /** One comment of a level, with its `children` list sorted beneath it when non-empty. */
  method SortNode(ghost all: seq<Comment>, c: Comment, children: map<nat, seq<Comment>>)
    returns (n: Node)
    requires ParentsPrecede(all)
    requires ListsComplete(all, children)
    requires c in all
    ensures n == Subtree(all, c)
    decreases MaxId(all) + 1 - c.id, 0
  {
    var kids := children[c.id];
    n := Node(c, []);
    if |kids| > 0 {
      var sub := SortLevel(all, kids, children, c.id + 1);
      n := Node(c, sub);
    }
    SubtreeUnfold(all, c);
  }

  /** `buildHierarchy(all, subset)` for a non-null subset. `stale` stands for the `children`
      lists the stored objects still carry from an earlier request; the result does not
      depend on it, because every list is reset before replies are appended. The model keys
      lists by id, which matches the source's object identity when ids are unique and the
      subset is drawn from `all`, as both callers guarantee. */
  method BuildHierarchy(all: seq<Comment>, subset: seq<Comment>, stale: map<nat, seq<Comment>>)
    returns (forest: seq<Node>)
    requires ParentsPrecede(all) && UniqueIds(all)
    requires forall c :: c in subset ==> c in all
    ensures forest == Hierarchy(all, subset)
  {
    var children, commentMap := ResetLists(all, subset, stale);
    children := AttachReplies(all, children, commentMap);
    forest := SortLevel(all, subset, children, 0);
  }

  /** The first two passes of `buildHierarchy`: every comment of `all` and of the subset gets
      an empty `children` list and is entered in `commentMap` under its id. */
  method ResetLists(all: seq<Comment>, subset: seq<Comment>, stale: map<nat, seq<Comment>>)
    returns (children: map<nat, seq<Comment>>, commentMap: map<nat, Comment>)
    ensures forall p :: p in commentMap ==> p in children && children[p] == []
    ensures forall c :: c in all ==> c.id in commentMap
    ensures forall c :: c in subset ==> c.id in commentMap
  {
    children := stale;
    commentMap := map[];
    for i := 0 to |all|
      invariant forall p :: p in commentMap ==> p in children && children[p] == []
      invariant forall k :: 0 <= k < i ==> all[k].id in commentMap
    {
      children := children[all[i].id := []];
      commentMap := commentMap[all[i].id := all[i]];
    }
    for i := 0 to |subset|
      invariant forall p :: p in commentMap ==> p in children && children[p] == []
      invariant forall c :: c in all ==> c.id in commentMap
      invariant forall k :: 0 <= k < i ==> subset[k].id in commentMap
    {
      children := children[subset[i].id := []];
      commentMap := commentMap[subset[i].id := subset[i]];
    }
  }

  /** The third pass of `buildHierarchy`: each reply of `all` whose parent is in `commentMap`
      is appended to its parent's list, so every list ends up holding the parent's replies. */
  method AttachReplies(all: seq<Comment>, children0: map<nat, seq<Comment>>, commentMap: map<nat, Comment>)
    returns (children: map<nat, seq<Comment>>)
    requires forall p :: p in commentMap ==> p in children0 && children0[p] == []
    requires forall c :: c in all ==> c.id in commentMap
    ensures ListsComplete(all, children)
  {
    children := children0;
    for i := 0 to |all|
      invariant forall p :: p in commentMap ==> p in children && children[p] == RepliesTo(all[..i], p)
    {
      var c := all[i];
      RepliesToExtend(all, i);
      if IsReply(c) && c.parentId.value in commentMap {
        var p := c.parentId.value;
        children := children[p := children[p] + [c]];
      }
    }
    assert all[..|all|] == all;
  }

  lemma RepliesToExtend(all: seq<Comment>, i: nat)
    requires i < |all|
    ensures forall p ::
      RepliesTo(all[..i + 1], p) == RepliesTo(all[..i], p) + (if IsReplyTo(all[i], p) then [all[i]] else [])
  {
    assert all[..i + 1][..i] == all[..i];
  }
}
