/**
 * The ordering used at every level of the comment tree:
 * `list.sort((a, b) => new Date(b.timestamp) - new Date(a.timestamp))`,
 * newest first. `Array.prototype.sort` is stable, so comments with equal
 * timestamps keep their original relative order.
 */
module NewestFirst {
  import opened Comments

  /** Timestamps never increase along `s`. */
  predicate IsNewestFirst(s: seq<Comment>)
  {
    forall i, j :: 0 <= i < j < |s| ==> s[i].timestamp >= s[j].timestamp
  }

  /** The comments of `s` stamped exactly `t`, in the order of `s`. */
  function WithTimestamp(s: seq<Comment>, t: int): seq<Comment>
  {
    if s == [] then [] else WithTimestamp(s[..|s| - 1], t) + Stamped(s[|s| - 1], t)
  }

  /** `[c]` when `c` is stamped `t`, otherwise nothing. */
  function Stamped(c: Comment, t: int): seq<Comment>
  {
    if c.timestamp == t then [c] else []
  }

  /** Every member of a timestamp class is stamped with it and sits at some index `k` of `s`. */
  lemma {:induction false} WithTimestampMember(s: seq<Comment>, t: int, c: Comment) returns (k: nat)
    requires c in WithTimestamp(s, t)
    ensures k < |s| && s[k] == c && c.timestamp == t
  {
    if c in Stamped(s[|s| - 1], t) {
      k := |s| - 1;
    } else {
      k := WithTimestampMember(s[..|s| - 1], t, c);
    }
  }

  /** Places `x` after every element of `s` that is at least as new as it, walking in from the end. */
  function Insert(s: seq<Comment>, x: Comment): (r: seq<Comment>)
    ensures |r| == |s| + 1
  {
    if s == [] || s[|s| - 1].timestamp >= x.timestamp then s + [x]
    else Insert(s[..|s| - 1], x) + [s[|s| - 1]]
  }

  lemma {:induction false} InsertPermutes(s: seq<Comment>, x: Comment)
    ensures multiset(Insert(s, x)) == multiset(s) + multiset{x}
  {
    if s != [] && s[|s| - 1].timestamp < x.timestamp {
      assert s == s[..|s| - 1] + [s[|s| - 1]];
      InsertPermutes(s[..|s| - 1], x);
    }
  }

  /** The stable newest-first sort, as insertion sort: a permutation of its input, newest first. */
  function SortNewestFirst(s: seq<Comment>): (r: seq<Comment>)
    ensures |r| == |s|
    ensures multiset(r) == multiset(s)
    ensures IsNewestFirst(r)
  {
    if s == [] then []
    else
      assert s == s[..|s| - 1] + [s[|s| - 1]];
      var sorted := SortNewestFirst(s[..|s| - 1]);
      InsertKeepsOrder(sorted, s[|s| - 1]);
      InsertPermutes(sorted, s[|s| - 1]);
      Insert(sorted, s[|s| - 1])
  }

  lemma {:induction false} InsertKeepsOrder(s: seq<Comment>, x: Comment)
    requires IsNewestFirst(s)
    ensures IsNewestFirst(Insert(s, x))
  {
    if s == [] || s[|s| - 1].timestamp >= x.timestamp {
    } else {
      var init, last := s[..|s| - 1], s[|s| - 1];
      InsertKeepsOrder(init, x);
      var r := Insert(init, x);
      InsertPermutes(init, x);
      forall i | 0 <= i < |r| ensures r[i].timestamp >= last.timestamp {
        assert r[i] in multiset(r);
        if r[i] != x {
          assert r[i] in multiset(init);
          assert r[i] in init;
        }
      }
    }
  }

  lemma WithTimestampAppend(a: seq<Comment>, b: seq<Comment>, t: int)
    ensures WithTimestamp(a + b, t) == WithTimestamp(a, t) + WithTimestamp(b, t)
    decreases |b|
  {
    if b == [] {
      assert a + b == a;
    } else {
      var init, last := b[..|b| - 1], b[|b| - 1];
      assert (a + b)[..|a + b| - 1] == a + init;
      WithTimestampAppend(a, init, t);
    }
  }

  /** Inserting `x` puts it after every element with its own timestamp. */
  lemma {:induction false} InsertIsStable(s: seq<Comment>, x: Comment, t: int)
    ensures WithTimestamp(Insert(s, x), t) == WithTimestamp(s, t) + Stamped(x, t)
  {
    if s == [] || s[|s| - 1].timestamp >= x.timestamp {
      assert (s + [x])[..|s|] == s;
    } else {
      var init, last := s[..|s| - 1], s[|s| - 1];
      var r := Insert(init, x);
      InsertIsStable(init, x, t);
      assert (r + [last])[..|r|] == r;
      assert WithTimestamp(r + [last], t) == WithTimestamp(r, t) + Stamped(last, t);
      assert WithTimestamp(s, t) == WithTimestamp(init, t) + Stamped(last, t);
    }
  }

  /** Stability: among comments with the same timestamp the input order survives. */
  lemma {:induction false} SortIsStable(s: seq<Comment>, t: int)
    ensures WithTimestamp(SortNewestFirst(s), t) == WithTimestamp(s, t)
  {
    if s != [] {
      var init, last := s[..|s| - 1], s[|s| - 1];
      SortIsStable(init, t);
      InsertIsStable(SortNewestFirst(init), last, t);
    }
  }

  /** The class of the last comment's timestamp ends with that comment. */
  lemma LastOfItsClass(s: seq<Comment>)
    requires s != []
    ensures var w := WithTimestamp(s, s[|s| - 1].timestamp);
      w != [] && w[|w| - 1] == s[|s| - 1]
  {
    var m := s[|s| - 1].timestamp;
    assert WithTimestamp(s, m) == WithTimestamp(s[..|s| - 1], m) + [s[|s| - 1]];
  }

  /** If the class of `a`'s last timestamp is the same in `b`, then `a` does not end with an
      older comment than a newest-first `b` does. */
  lemma LastNoOlder(a: seq<Comment>, b: seq<Comment>)
    requires IsNewestFirst(b) && a != [] && b != []
    requires WithTimestamp(a, a[|a| - 1].timestamp) == WithTimestamp(b, a[|a| - 1].timestamp)
    ensures a[|a| - 1].timestamp >= b[|b| - 1].timestamp
  {
    LastOfItsClass(a);
    var w := WithTimestamp(a, a[|a| - 1].timestamp);
    assert a[|a| - 1] in w;
    var k := WithTimestampMember(b, a[|a| - 1].timestamp, a[|a| - 1]);
    assert b[k].timestamp >= b[|b| - 1].timestamp;
  }

  /** Two newest-first sequences that agree on every timestamp class end with equally old comments. */
  lemma SameClassesSameLastStamp(a: seq<Comment>, b: seq<Comment>)
    requires IsNewestFirst(a) && IsNewestFirst(b) && a != [] && b != []
    requires forall t :: WithTimestamp(a, t) == WithTimestamp(b, t)
    ensures a[|a| - 1].timestamp == b[|b| - 1].timestamp
  {
    LastNoOlder(a, b);
    LastNoOlder(b, a);
  }

  /** Two newest-first sequences that agree on every timestamp class end with the same comment. */
  lemma SameClassesSameLast(a: seq<Comment>, b: seq<Comment>)
    requires IsNewestFirst(a) && IsNewestFirst(b) && a != [] && b != []
    requires forall t :: WithTimestamp(a, t) == WithTimestamp(b, t)
    ensures a[|a| - 1] == b[|b| - 1]
  {
    SameClassesSameLastStamp(a, b);
    LastOfItsClass(a);
    LastOfItsClass(b);
    assert WithTimestamp(a, a[|a| - 1].timestamp) == WithTimestamp(b, b[|b| - 1].timestamp);
  }

  /** Dropping a common last comment keeps every timestamp class equal. */
  lemma SameClassesWithoutLast(a: seq<Comment>, b: seq<Comment>, t: int)
    requires a != [] && b != [] && a[|a| - 1] == b[|b| - 1]
    requires WithTimestamp(a, t) == WithTimestamp(b, t)
    ensures WithTimestamp(a[..|a| - 1], t) == WithTimestamp(b[..|b| - 1], t)
  {
    var wa, wb := WithTimestamp(a[..|a| - 1], t), WithTimestamp(b[..|b| - 1], t);
    var tail := Stamped(a[|a| - 1], t);
    assert WithTimestamp(a, t) == wa + tail && WithTimestamp(b, t) == wb + tail;
    assert wa == (wa + tail)[..|wa|] && wb == (wb + tail)[..|wb|];
  }

  /** Two newest-first sequences that agree on every timestamp class are equal. */
  lemma {:induction false} SameClassesSameSequence(a: seq<Comment>, b: seq<Comment>)
    requires IsNewestFirst(a) && IsNewestFirst(b)
    requires forall t :: WithTimestamp(a, t) == WithTimestamp(b, t)
    ensures a == b
    decreases |a|
  {
    if a == [] || b == [] {
      if a != [] {
        LastOfItsClass(a);
      } else if b != [] {
        LastOfItsClass(b);
      }
    } else {
      SameClassesSameLast(a, b);
      var a', b' := a[..|a| - 1], b[..|b| - 1];
      SameClassesWithoutLastAll(a, b, a', b');
      NewestFirstInit(a);
      NewestFirstInit(b);
      SameClassesSameSequence(a', b');
      SameInitSameLast(a, b);
    }
  }

  /** Dropping the common last comment keeps every timestamp class in agreement. */
  lemma SameClassesWithoutLastAll(a: seq<Comment>, b: seq<Comment>, a': seq<Comment>, b': seq<Comment>)
    requires a != [] && b != [] && a[|a| - 1] == b[|b| - 1]
    requires a' == a[..|a| - 1] && b' == b[..|b| - 1]
    requires forall t :: WithTimestamp(a, t) == WithTimestamp(b, t)
    ensures forall t :: WithTimestamp(a', t) == WithTimestamp(b', t)
  {
    forall t ensures WithTimestamp(a', t) == WithTimestamp(b', t) {
      SameClassesWithoutLast(a, b, t);
    }
  }

  lemma NewestFirstInit(s: seq<Comment>)
    requires IsNewestFirst(s) && s != []
    ensures IsNewestFirst(s[..|s| - 1])
  {
  }

  lemma SameInitSameLast(a: seq<Comment>, b: seq<Comment>)
    requires a != [] && b != [] && a[|a| - 1] == b[|b| - 1] && a[..|a| - 1] == b[..|b| - 1]
    ensures a == b
  {
    assert a == a[..|a| - 1] + [a[|a| - 1]];
    assert b == b[..|b| - 1] + [b[|b| - 1]];
  }

  /** Any stable newest-first sort of `s` (such as the engine's `Array.prototype.sort`)
      gives exactly `SortNewestFirst(s)`. */
  lemma StableSortIsUnique(s: seq<Comment>, r: seq<Comment>)
    requires IsNewestFirst(r)
    requires forall t :: WithTimestamp(r, t) == WithTimestamp(s, t)
    ensures r == SortNewestFirst(s)
  {
    forall t ensures WithTimestamp(r, t) == WithTimestamp(SortNewestFirst(s), t) {
      SortIsStable(s, t);
    }
    SameClassesSameSequence(r, SortNewestFirst(s));
  }

  /** `Insert` puts `x` right after the last comment at least as new as it, when every
      comment after position `j` is older than `x`. */
  lemma {:induction false} InsertSplits(s: seq<Comment>, j: nat, x: Comment)
    requires j <= |s|
    requires j == 0 || s[j - 1].timestamp >= x.timestamp
    requires forall k :: j <= k < |s| ==> s[k].timestamp < x.timestamp
    ensures Insert(s, x) == s[..j] + [x] + s[j..]
  {
    if j == |s| {
      assert s[..j] == s && s[j..] == [];
    } else {
      var init := s[..|s| - 1];
      assert init[..j] == s[..j];
      InsertSplits(init, j, x);
      assert s[j..] == init[j..] + [s[|s| - 1]];
    }
  }

  /** The inner loop of insertion sort: `a[..i]` is sorted, `a[i]` moves to its place. */
  method InsertInPlace(a: array<Comment>, i: nat)
    requires i < a.Length
    modifies a
    ensures a[..i + 1] == Insert(old(a[..i]), old(a[i]))
    ensures forall k :: i < k < a.Length ==> a[k] == old(a[k])
  {
    ghost var sorted := a[..i];
    var x := a[i];
    var j := OpenSlot(a, i, x);
    a[j] := x;
    ghost var placed := sorted[..j] + [x] + sorted[j..];
    forall k | 0 <= k <= i ensures a[k] == placed[k] {
      PlacedAt(sorted, j, x, k);
    }
    InsertSplits(sorted, j, x);
    SameElements(a[..i + 1], placed);
  }

  /** Shifts the comments of `a[..i]` older than `x` one slot to the right, walking in from
      position `i`, and returns the slot left open for `x`. */
  method OpenSlot(a: array<Comment>, i: nat, x: Comment) returns (j: nat)
    requires i < a.Length
    modifies a
    ensures j <= i
    ensures j == 0 || old(a[j - 1]).timestamp >= x.timestamp
    ensures forall k :: j <= k < i ==> old(a[k]).timestamp < x.timestamp
    ensures forall k :: 0 <= k < j ==> a[k] == old(a[k])
    ensures forall k :: j < k <= i ==> a[k] == old(a[k - 1])
    ensures forall k :: i < k < a.Length ==> a[k] == old(a[k])
  {
    j := i;
    while j > 0 && a[j - 1].timestamp < x.timestamp
      invariant 0 <= j <= i
      invariant forall k :: 0 <= k < j ==> a[k] == old(a[k])
      invariant forall k :: j < k <= i ==> a[k] == old(a[k - 1])
      invariant forall k :: i < k < a.Length ==> a[k] == old(a[k])
      invariant forall k :: j <= k < i ==> old(a[k]).timestamp < x.timestamp
    {
      a[j] := a[j - 1];
      j := j - 1;
    }
  }

  /** Where each element of `s` ends up once `x` is placed at position `j`. */
  lemma PlacedAt<T>(s: seq<T>, j: nat, x: T, k: nat)
    requires j <= |s| && k <= |s|
    ensures (s[..j] + [x] + s[j..])[k] == if k < j then s[k] else if k == j then x else s[k - 1]
  {
  }

  lemma SameElements<T>(a: seq<T>, b: seq<T>)
    requires |a| == |b| && forall k :: 0 <= k < |a| ==> a[k] == b[k]
    ensures a == b
  {
  }

  /** The sort of one more element is the insertion of that element into the sort of the rest. */
  lemma SortExtend(s: seq<Comment>, i: nat)
    requires i < |s|
    ensures SortNewestFirst(s[..i + 1]) == Insert(SortNewestFirst(s[..i]), s[i])
  {
    assert s[..i + 1][..i] == s[..i];
  }

  /** `list.sort(newest first)` on an array, in place: an insertion sort that shifts
      older comments one slot to the right. */
  method SortInPlace(a: array<Comment>)
    modifies a
    ensures a[..] == SortNewestFirst(old(a[..]))
  {
    ghost var input := a[..];
    var i := 0;
    while i < a.Length
      invariant 0 <= i <= a.Length
      invariant a[..i] == SortNewestFirst(input[..i])
      invariant forall k :: i <= k < a.Length ==> a[k] == input[k]
    {
      InsertInPlace(a, i);
      SortExtend(input, i);
      i := i + 1;
    }
    assert a[..] == a[..a.Length] && input == input[..a.Length];
  }

  /** A sorted copy of `s`: `s` is copied into a fresh array, which is sorted in place. */
  method SortedCopy(s: seq<Comment>) returns (r: seq<Comment>)
    ensures r == SortNewestFirst(s)
  {
    var a := new Comment[|s|](i requires 0 <= i < |s| => s[i]);
    assert a[..] == s;
    SortInPlace(a);
    r := a[..];
  }
}
