/**
 * The fail-fast iterators: PrivateEntryIterator (behind the whole map's
 * entry, value, key and descending key iterators) and SubMapIterator
 * (behind the views' iterators).
 *
 * The source's iterators hold references to tree nodes. The model holds the
 * node's key instead and finds the node again when it is needed. This is
 * faithful because deleteEntry keeps every surviving node's key, except
 * that a node with two children takes over its successor's mapping while
 * the successor's node leaves the tree. The remove methods spell that case
 * out.
 *
 * Fail-fast checking is modelled with the map's `history`, the key set at
 * every modCount value. While an iterator's expectedModCount equals the
 * map's modCount, the keys the iterator holds are keys of the map.
 */
module Iterators {
  import opened Wrappers
  import opened RedBlackTrees
  import opened Navigation
  import opened EntryLists
  import opened TreeMaps
  import opened SubMaps

  /** The elements of `s` above `k`. */
  ghost function Over(s: set<int>, k: int): set<int>
  {
    set x | x in s && x > k
  }

  /** The elements of `s` below `k`. */
  ghost function Under(s: set<int>, k: int): set<int>
  {
    set x | x in s && x < k
  }

  /** `n` is the least key of `s` above `k`: where an ascending walk goes after `k`. */
  ghost predicate IsNextAbove(s: set<int>, k: int, n: Option<int>)
  {
    IsLeast(Over(s, k), n)
  }

  /** `n` is the greatest key of `s` below `k`: where a descending walk goes after `k`. */
  ghost predicate IsNextBelow(s: set<int>, k: int, n: Option<int>)
  {
    IsGreatest(Under(s, k), n)
  }

  /** Both children present: the case in which deleteEntry moves the successor's mapping into the node. */
  predicate TwoChildren<V>(t: Tree<V>)
  {
    t.Node? && t.left.Node? && t.right.Node?
  }

  /** In sorted entries, the key at the next index is the next key above. */
  lemma NextIndexAbove<V>(es: seq<Pair<V>>, i: int)
    requires Sorted(es) && 0 <= i < |es|
    ensures IsNextAbove(KeySet(es), es[i].key, if i + 1 < |es| then Some(es[i + 1].key) else None)
  {
    var over := Over(KeySet(es), es[i].key);
    if i + 1 < |es| {
      assert es[i + 1].key in over;
      forall x | x in over
        ensures es[i + 1].key <= x
      {
        var j :| 0 <= j < |es| && es[j].key == x;
        assert i < j;
      }
    } else {
      forall x | x in KeySet(es)
        ensures x <= es[i].key
      {
        var j :| 0 <= j < |es| && es[j].key == x;
        assert j <= i;
      }
      assert over == {};
    }
  }

  /** In sorted entries, the key at the previous index is the next key below. */
  lemma PreviousIndexBelow<V>(es: seq<Pair<V>>, i: int)
    requires Sorted(es) && 0 <= i < |es|
    ensures IsNextBelow(KeySet(es), es[i].key, if i > 0 then Some(es[i - 1].key) else None)
  {
    var under := Under(KeySet(es), es[i].key);
    if i > 0 {
      assert es[i - 1].key in under;
      forall x | x in under
        ensures x <= es[i - 1].key
      {
        var j :| 0 <= j < |es| && es[j].key == x;
        assert j < i;
      }
    } else {
      forall x | x in KeySet(es)
        ensures es[i].key <= x
      {
        var j :| 0 <= j < |es| && es[j].key == x;
        assert i <= j;
      }
      assert under == {};
    }
  }

  /** successor's step to the next index is a step to the next key above. */
  lemma SuccessorKeys<V>(root: Tree<V>, c: Cursor<V>, s: Option<Cursor<V>>)
    requires Sorted(Entries(root)) && Designates(root, c)
    requires s.Some? <==> Index(c) + 1 < |Entries(root)|
    requires s.Some? ==> Whole(s.value) == root && s.value.focus.Node? && Index(s.value) == Index(c) + 1
    ensures IsNextAbove(MapOf(Entries(root)).Keys, c.focus.key, CursorKey(s))
  {
    CursorEntry(c);
    if s.Some? {
      CursorEntry(s.value);
    }
    MapOfKeys(Entries(root));
    NextIndexAbove(Entries(root), Index(c));
  }

  /** predecessor's step to the previous index is a step to the next key below. */
  lemma PredecessorKeys<V>(root: Tree<V>, c: Cursor<V>, s: Option<Cursor<V>>)
    requires Sorted(Entries(root)) && Designates(root, c)
    requires s.Some? <==> Index(c) > 0
    requires s.Some? ==> Whole(s.value) == root && s.value.focus.Node? && Index(s.value) == Index(c) - 1
    ensures IsNextBelow(MapOf(Entries(root)).Keys, c.focus.key, CursorKey(s))
  {
    CursorEntry(c);
    if s.Some? {
      CursorEntry(s.value);
    }
    MapOfKeys(Entries(root));
    PreviousIndexBelow(Entries(root), Index(c));
  }

  /** The node of a key the map holds, found again as getEntry finds it. */
  method Locate<V(==)>(m: TreeIntObjectMap<V>, key: int) returns (c: Cursor<V>)
    requires m.Valid() && key in m.Contents()
    ensures Designates(m.root, c) && c.focus.key == key && c.focus == NodeOf(m.root, key)
    ensures m.Contents()[key] == c.focus.value
  {
    ContentsOfEntries(Entries(m.root));
    assert Pair(key, m.Contents()[key]) in Entries(m.root);
    var e := GetEntry(m.root, key);
    c := e.value;
    CursorMapping(m.root, c);
  }

  /** successor(e), read as a key. */
  method StepUp<V(==)>(m: TreeIntObjectMap<V>, c: Cursor<V>) returns (n: Option<int>)
    requires m.Valid() && Designates(m.root, c)
    ensures IsNextAbove(m.Contents().Keys, c.focus.key, n)
  {
    var s := Successor(c);
    SuccessorKeys(m.root, c, s);
    n := CursorKey(s);
  }

  /** predecessor(e), read as a key. */
  method StepDown<V(==)>(m: TreeIntObjectMap<V>, c: Cursor<V>) returns (n: Option<int>)
    requires m.Valid() && Designates(m.root, c)
    ensures IsNextBelow(m.Contents().Keys, c.focus.key, n)
  {
    var s := Predecessor(c);
    PredecessorKeys(m.root, c, s);
    n := CursorKey(s);
  }

  /** Taking out a key other than `k` changes nothing about what comes after `k` in either direction. */
  lemma NextAfterRemoval(s: set<int>, k: int, n: Option<int>)
    ensures IsNextAbove(s, k, n) <==> IsNextAbove(s - {k}, k, n)
    ensures IsNextBelow(s, k, n) <==> IsNextBelow(s - {k}, k, n)
  {
    assert Over(s, k) == Over(s - {k}, k);
    assert Under(s, k) == Under(s - {k}, k);
  }

  // ---------------------------------------------------------------------
  // The whole map's iterators

  /**
   * PrivateEntryIterator. With `descending` false it is EntryIterator,
   * ValueIterator or KeyIterator, which walk up with nextEntry; with
   * `descending` true it is DescendingKeyIterator, which walks down with
   * prevEntry. All four inherit the same remove.
   */
  class PrivateEntryIterator<V(==)> {
    const m: TreeIntObjectMap<V>
    const descending: bool
    var next: Option<int>
    var lastReturned: Option<int>
    var expectedModCount: int

    /** The map's key set when it last had modCount `expectedModCount`. */
    ghost function Snapshot(): set<int>
      reads this, m
    {
      if 0 <= expectedModCount < |m.history| then m.history[expectedModCount] else {}
    }

    ghost predicate Valid()
      reads this, m
    {
      m.Valid() && 0 <= expectedModCount <= m.modCount &&
      (next.Some? ==> next.value in Snapshot()) &&
      (lastReturned.Some? ==>
         lastReturned.value in Snapshot() &&
         (if descending then IsNextBelow(Snapshot(), lastReturned.value, next)
          else IsNextAbove(Snapshot(), lastReturned.value, next)))
    }

    /** keyIterator(), and the entry and value iterators: the walk starts at getFirstEntry. */
    constructor Ascending(m: TreeIntObjectMap<V>)
      requires m.Valid()
      ensures Valid() && this.m == m && !descending
      ensures IsLeast(m.Contents().Keys, next) && lastReturned.None? && expectedModCount == m.modCount
    {
      var e := GetFirstEntry(m.root);
      FirstKeys(m.root, e);
      this.m := m;
      descending := false;
      next := CursorKey(e);
      lastReturned := None;
      expectedModCount := m.modCount;
    }

    /** descendingKeyIterator(): the walk starts at getLastEntry. */
    constructor Descending(m: TreeIntObjectMap<V>)
      requires m.Valid()
      ensures Valid() && this.m == m && descending
      ensures IsGreatest(m.Contents().Keys, next) && lastReturned.None? && expectedModCount == m.modCount
    {
      var e := GetLastEntry(m.root);
      LastKeys(m.root, e);
      this.m := m;
      descending := true;
      next := CursorKey(e);
      lastReturned := None;
      expectedModCount := m.modCount;
    }

    /** hasNext: whether `next` is present; it does not check for modification. */
    method HasNext() returns (b: bool)
      requires Valid()
      ensures b <==> next.Some?
      ensures b && m.modCount == expectedModCount ==> next.value in m.Contents()
    {
      b := next.Some?;
    }

    /** nextEntry: return the entry at `next` and move to the next key above. */
    method NextEntry() returns (r: Result<Pair<V>>)
      requires Valid() && !descending
      modifies this
      ensures Valid()
      ensures old(next).None? ==> r == Err(NoSuchElement) && unchanged(this)
      ensures old(next).Some? && m.modCount != old(expectedModCount) ==>
                r == Err(ConcurrentModification) && unchanged(this)
      ensures old(next).Some? && m.modCount == old(expectedModCount) ==>
                r == Ok(Pair(old(next).value, m.Contents()[old(next).value])) &&
                lastReturned == old(next) && expectedModCount == old(expectedModCount) &&
                IsNextAbove(m.Contents().Keys, old(next).value, next)
    {
      if next.None? {
        return Err(NoSuchElement);
      }
      if m.modCount != expectedModCount {
        return Err(ConcurrentModification);
      }
      var c := Locate(m, next.value);
      lastReturned := next;
      next := StepUp(m, c);
      r := Ok(Pair(c.focus.key, c.focus.value));
    }

    /** prevEntry: return the entry at `next` and move to the next key below. */
    method PrevEntry() returns (r: Result<Pair<V>>)
      requires Valid() && descending
      modifies this
      ensures Valid()
      ensures old(next).None? ==> r == Err(NoSuchElement) && unchanged(this)
      ensures old(next).Some? && m.modCount != old(expectedModCount) ==>
                r == Err(ConcurrentModification) && unchanged(this)
      ensures old(next).Some? && m.modCount == old(expectedModCount) ==>
                r == Ok(Pair(old(next).value, m.Contents()[old(next).value])) &&
                lastReturned == old(next) && expectedModCount == old(expectedModCount) &&
                IsNextBelow(m.Contents().Keys, old(next).value, next)
    {
      if next.None? {
        return Err(NoSuchElement);
      }
      if m.modCount != expectedModCount {
        return Err(ConcurrentModification);
      }
      var c := Locate(m, next.value);
      lastReturned := next;
      next := StepDown(m, c);
      r := Ok(Pair(c.focus.key, c.focus.value));
    }

    /**
     * remove as the source writes it, for both directions: when the last
     * returned node has two children, `next` is pointed at that node, which
     * deleteEntry fills with the successor's mapping. So `next` becomes the
     * key above the removed one, which is right only for an ascending walk.
     */
    method RemoveAsWritten() returns (r: Result<()>)
      requires Valid()
      modifies this, m
      ensures Valid()
      ensures old(lastReturned).None? ==> r == Err(IllegalState) && unchanged(this, m)
      ensures old(lastReturned).Some? && m.modCount != expectedModCount ==>
                r == Err(ConcurrentModification) && unchanged(this, m)
      ensures old(lastReturned).Some? && old(m.modCount) == old(expectedModCount) ==>
                r == Ok(()) && m.Contents() == old(m.Contents()) - {old(lastReturned).value} &&
                lastReturned.None? && expectedModCount == m.modCount &&
                (TwoChildren(NodeOf(old(m.root), old(lastReturned).value)) ==>
                   IsNextAbove(old(m.Contents()).Keys, old(lastReturned).value, next)) &&
                (!TwoChildren(NodeOf(old(m.root), old(lastReturned).value)) ==> next == old(next))
    {
      if lastReturned.None? {
        return Err(IllegalState);
      }
      if m.modCount != expectedModCount {
        return Err(ConcurrentModification);
      }
      var k := lastReturned.value;
      var c := Locate(m, k);
      ghost var before := m.Contents().Keys;
      if c.focus.left.Node? && c.focus.right.Node? {
        next := StepUp(m, c);
      }
      NextAfterRemoval(before, k, next);
      m.DeleteEntry(c);
      expectedModCount := m.modCount;
      lastReturned := None;
      r := Ok(());
    }

    /**
     * remove with the node adjustment made for ascending walks only, as in
     * java.util.TreeMap: a descending walk then carries on at the key below
     * the removed one.
     */
    method Remove() returns (r: Result<()>)
      requires Valid()
      modifies this, m
      ensures Valid()
      ensures old(lastReturned).None? ==> r == Err(IllegalState) && unchanged(this, m)
      ensures old(lastReturned).Some? && m.modCount != expectedModCount ==>
                r == Err(ConcurrentModification) && unchanged(this, m)
      ensures old(lastReturned).Some? && old(m.modCount) == old(expectedModCount) ==>
                r == Ok(()) && m.Contents() == old(m.Contents()) - {old(lastReturned).value} &&
                lastReturned.None? && expectedModCount == m.modCount &&
                (if descending then IsNextBelow(m.Contents().Keys, old(lastReturned).value, next)
                 else IsNextAbove(m.Contents().Keys, old(lastReturned).value, next))
    {
      if lastReturned.None? {
        return Err(IllegalState);
      }
      if m.modCount != expectedModCount {
        return Err(ConcurrentModification);
      }
      var k := lastReturned.value;
      var c := Locate(m, k);
      ghost var before := m.Contents().Keys;
      if !descending && c.focus.left.Node? && c.focus.right.Node? {
        next := StepUp(m, c);
      }
      NextAfterRemoval(before, k, next);
      m.DeleteEntry(c);
      expectedModCount := m.modCount;
      lastReturned := None;
      r := Ok(());
    }
  }

  /**
   * An iterator stays valid while other code changes its map: modCount and
   * history only grow, so its snapshot is still there, and the next call
   * reports the concurrent modification.
   */
  twostate lemma EntryIteratorSurvives<V>(it: PrivateEntryIterator<V>)
    requires old(it.Valid()) && unchanged(it) && it.m.Valid()
    requires old(it.m.modCount) <= it.m.modCount && old(it.m.history) <= it.m.history
    ensures it.Valid()
  {
    assert it.m.history[it.expectedModCount] == old(it.m.history)[it.expectedModCount];
  }

  /**
   * Putting 1, 2 and 3 into an empty map leaves 2 at the root with a child
   * on each side, whatever rotations and recolourings put performs.
   */
  method PutOneTwoThree<V>(a: V, b: V, c: V) returns (m: TreeIntObjectMap<V>)
    ensures m.Valid() && Entries(m.root) == [Pair(1, a), Pair(2, b), Pair(3, c)]
    ensures TwoChildren(NodeOf(m.root, 2))
  {
    m := new TreeIntObjectMap();
    var _ := m.Put(1, a);
    assert Entries(m.root) == [Pair(1, a)];
    var _ := m.Put(2, b);
    assert [Pair(1, a)][1..] == [];
    assert Entries(m.root) == [Pair(1, a), Pair(2, b)];
    var _ := m.Put(3, c);
    assert [Pair(1, a), Pair(2, b)][1..] == [Pair(2, b)] && [Pair(2, b)][1..] == [];
    assert Upsert([Pair(2, b)], 3, c) == [Pair(2, b), Pair(3, c)];
    assert Entries(m.root) == [Pair(1, a), Pair(2, b), Pair(3, c)];
    ThreeEntryShape(m.root);
  }

  /**
   * A descending walk over {1, 2, 3} returns 3, then 2; removing 2 through
   * the iterator finds a node with two children (in every red-black tree of
   * these three keys), so the as-written remove sets `next` to the key above
   * 2. That is 3, which the walk already returned, where it should have gone
   * on with 1.
   */
  lemma DescendingRemoveRevisits<V>(t: Tree<V>, a: V, b: V, c: V, n: Option<int>)
    requires IsRedBlack(t) && Entries(t) == [Pair(1, a), Pair(2, b), Pair(3, c)]
    requires IsNextAbove(MapOf(Entries(t)).Keys, 2, n)
    ensures TwoChildren(NodeOf(t, 2))
    ensures n == Some(3)
    ensures !IsNextBelow(MapOf(Entries(t)).Keys - {2}, 2, n)
    ensures IsNextBelow(MapOf(Entries(t)).Keys - {2}, 2, Some(1))
  {
    var es := Entries(t);
    ThreeEntryShape(t);
    assert es[1..] == [Pair(2, b), Pair(3, c)] && es[1..][1..] == [Pair(3, c)] && es[1..][1..][1..] == [];
    assert MapOf(es[1..][1..]) == map[3 := c];
    assert MapOf(es[1..]) == map[3 := c, 2 := b];
    assert MapOf(es).Keys == {1, 2, 3};
    assert Over({1, 2, 3}, 2) == {3};
    assert Under({1, 2, 3} - {2}, 2) == {1};
  }

  // ---------------------------------------------------------------------
  // The views' iterators

  /** The source's fenceKey: the fence entry's key, or 0 when there is no fence. */
  function FenceKeyAsWritten(fence: Option<int>): (r: int)
    ensures fence.Some? ==> r == fence.value
  {
    if fence.None? then 0 else fence.value
  }

  /** The source's hasNext: `next` is present and its key is not the fence key. */
  predicate HasNextAsWritten(next: Option<int>, fenceKey: int)
  {
    next.Some? && next.value != fenceKey
  }

  /** The keys a sub-map walk returns, as written, over the keys `order` it meets in walk order. */
  function WalkAsWritten(order: seq<int>, fenceKey: int): (r: seq<int>)
    ensures r <= order
    ensures fenceKey !in r
  {
    if order == [] || order[0] == fenceKey then [] else [order[0]] + WalkAsWritten(order[1..], fenceKey)
  }

  /** hasNext with the fence kept as an entry that may be missing. */
  predicate HasNextBefore(next: Option<int>, fence: Option<int>)
  {
    next.Some? && (fence.None? || next.value != fence.value)
  }

  /** The keys a sub-map walk returns over the keys `order` it meets in walk order. */
  function Walk(order: seq<int>, fence: Option<int>): (r: seq<int>)
    ensures r <= order
    ensures fence.None? ==> r == order
  {
    if order == [] || (fence.Some? && order[0] == fence.value) then [] else [order[0]] + Walk(order[1..], fence)
  }

  /** A walk that meets the fence returns exactly the keys before it. */
  lemma {:induction false} WalkStopsAtFence(a: seq<int>, f: int, b: seq<int>)
    requires f !in a
    ensures Walk(a + [f] + b, Some(f)) == a
  {
    if a != [] {
      assert (a + [f] + b)[1..] == a[1..] + [f] + b;
      WalkStopsAtFence(a[1..], f, b);
    }
  }

  /**
   * With no fence the key 0 still stops a walk as written. The descending
   * view of {-1, 0, 1} walks 1, 0, -1 with no low fence and returns only 1;
   * tailMap(-5) of {-5, 0, 3} walks -5, 0, 3 with no high fence and returns
   * only -5. The same views, walked with an optional fence, return every key.
   */
  lemma ZeroKeyEndsWalk()
    ensures InRange(MapWholeBounds(), 0) && !HasNextAsWritten(Some(0), FenceKeyAsWritten(None))
    ensures WalkAsWritten([1, 0, -1], FenceKeyAsWritten(None)) == [1]
    ensures WalkAsWritten([-5, 0, 3], FenceKeyAsWritten(None)) == [-5]
    ensures Walk([1, 0, -1], None) == [1, 0, -1] && Walk([-5, 0, 3], None) == [-5, 0, 3]
  {
    assert [1, 0, -1][1..] == [0, -1];
    assert [-5, 0, 3][1..] == [0, 3];
  }

  /**
   * SubMapIterator. With `descending` false it is SubMapEntryIterator or
   * SubMapKeyIterator (nextEntry, removeAscending); with `descending` true
   * it is DescendingSubMapEntryIterator or DescendingSubMapKeyIterator
   * (prevEntry, removeDescending). The walk runs over the whole map and
   * stops at `fence`, the first key past the view's far end.
   */
  class SubMapIterator<V(==)> {
    const m: TreeIntObjectMap<V>
    const bounds: Bounds
    const descending: bool
    var next: Option<int>
    var lastReturned: Option<int>
    const fence: Option<int>
    var expectedModCount: int

    /** The map's key set when it last had modCount `expectedModCount`. */
    ghost function Snapshot(): set<int>
      reads this, m
    {
      if 0 <= expectedModCount < |m.history| then m.history[expectedModCount] else {}
    }

    ghost predicate Valid()
      reads this, m
    {
      m.Valid() && 0 <= expectedModCount <= m.modCount &&
      (next.Some? ==> next.value in Snapshot()) &&
      (lastReturned.Some? ==> lastReturned.value in Snapshot() && InRange(bounds, lastReturned.value)) &&
      if descending then
        IsGreatest(PastLow(Snapshot(), bounds), fence) &&
        (next.Some? ==> !TooHigh(bounds, next.value) && (fence.Some? ==> fence.value <= next.value)) &&
        (lastReturned.Some? ==> IsNextBelow(Snapshot(), lastReturned.value, next))
      else
        IsLeast(PastHigh(Snapshot(), bounds), fence) &&
        (next.Some? ==> !TooLow(bounds, next.value) && (fence.Some? ==> next.value <= fence.value)) &&
        (lastReturned.Some? ==> IsNextAbove(Snapshot(), lastReturned.value, next))
    }

    /**
     * The iterator over view `v`: ascending from absLowest to absHighFence,
     * or descending from absHighest to absLowFence.
     */
    constructor (v: NavigableSubMap<V>, descending: bool)
      requires v.m.Valid()
      ensures Valid() && m == v.m && bounds == v.bounds && this.descending == descending
      ensures lastReturned.None? && expectedModCount == m.modCount
      ensures if descending then IsGreatest(v.View().Keys, next) else IsLeast(v.View().Keys, next)
    {
      var first, last;
      if descending {
        first := v.AbsHighest();
        last := v.AbsLowFence();
      } else {
        first := v.AbsLowest();
        last := v.AbsHighFence();
      }
      m := v.m;
      bounds := v.bounds;
      this.descending := descending;
      next := CursorKey(first);
      fence := CursorKey(last);
      lastReturned := None;
      expectedModCount := v.m.modCount;
      new;
      assert Snapshot() == m.Contents().Keys;
    }

    /** hasNext: the walk has a next key exactly when that key lies in the view. */
    method HasNext() returns (b: bool)
      requires Valid()
      ensures b <==> next.Some? && InRange(bounds, next.value)
    {
      b := HasNextBefore(next, fence);
      if next.Some? {
        var k := next.value;
        assert TooHigh(bounds, k) ==> k in PastHigh(Snapshot(), bounds);
        assert TooLow(bounds, k) ==> k in PastLow(Snapshot(), bounds);
      }
    }

    /** nextEntry: return the entry at `next` and move to the next key above. */
    method NextEntry() returns (r: Result<Pair<V>>)
      requires Valid() && !descending
      modifies this
      ensures Valid()
      ensures !(old(next).Some? && InRange(bounds, old(next).value)) ==> r == Err(NoSuchElement) && unchanged(this)
      ensures old(next).Some? && InRange(bounds, old(next).value) && m.modCount != old(expectedModCount) ==>
                r == Err(ConcurrentModification) && unchanged(this)
      ensures old(next).Some? && InRange(bounds, old(next).value) && m.modCount == old(expectedModCount) ==>
                r == Ok(Pair(old(next).value, m.Contents()[old(next).value])) &&
                lastReturned == old(next) && expectedModCount == old(expectedModCount) &&
                IsNextAbove(m.Contents().Keys, old(next).value, next)
    {
      var more := HasNext();
      if !more {
        return Err(NoSuchElement);
      }
      if m.modCount != expectedModCount {
        return Err(ConcurrentModification);
      }
      var c := Locate(m, next.value);
      assert fence.Some? ==> fence.value in PastHigh(Snapshot(), bounds) && fence.value in Over(Snapshot(), c.focus.key);
      lastReturned := next;
      next := StepUp(m, c);
      r := Ok(Pair(c.focus.key, c.focus.value));
    }

    /** prevEntry: return the entry at `next` and move to the next key below. */
    method PrevEntry() returns (r: Result<Pair<V>>)
      requires Valid() && descending
      modifies this
      ensures Valid()
      ensures !(old(next).Some? && InRange(bounds, old(next).value)) ==> r == Err(NoSuchElement) && unchanged(this)
      ensures old(next).Some? && InRange(bounds, old(next).value) && m.modCount != old(expectedModCount) ==>
                r == Err(ConcurrentModification) && unchanged(this)
      ensures old(next).Some? && InRange(bounds, old(next).value) && m.modCount == old(expectedModCount) ==>
                r == Ok(Pair(old(next).value, m.Contents()[old(next).value])) &&
                lastReturned == old(next) && expectedModCount == old(expectedModCount) &&
                IsNextBelow(m.Contents().Keys, old(next).value, next)
    {
      var more := HasNext();
      if !more {
        return Err(NoSuchElement);
      }
      if m.modCount != expectedModCount {
        return Err(ConcurrentModification);
      }
      var c := Locate(m, next.value);
      assert fence.Some? ==> fence.value in PastLow(Snapshot(), bounds) && fence.value in Under(Snapshot(), c.focus.key);
      lastReturned := next;
      next := StepDown(m, c);
      r := Ok(Pair(c.focus.key, c.focus.value));
    }

    /**
     * removeAscending (`descending` false) and removeDescending (`descending`
     * true): only the ascending one moves `next` onto the node that takes
     * over the successor's mapping.
     */
    method Remove() returns (r: Result<()>)
      requires Valid()
      modifies this, m
      ensures Valid()
      ensures old(lastReturned).None? ==> r == Err(IllegalState) && unchanged(this, m)
      ensures old(lastReturned).Some? && m.modCount != expectedModCount ==>
                r == Err(ConcurrentModification) && unchanged(this, m)
      ensures old(lastReturned).Some? && old(m.modCount) == old(expectedModCount) ==>
                r == Ok(()) && m.Contents() == old(m.Contents()) - {old(lastReturned).value} &&
                ViewOf(m.Contents(), bounds) == ViewOf(old(m.Contents()), bounds) - {old(lastReturned).value} &&
                lastReturned.None? && expectedModCount == m.modCount &&
                (if descending then IsNextBelow(m.Contents().Keys, old(lastReturned).value, next)
                 else IsNextAbove(m.Contents().Keys, old(lastReturned).value, next))
    {
      if lastReturned.None? {
        return Err(IllegalState);
      }
      if m.modCount != expectedModCount {
        return Err(ConcurrentModification);
      }
      var k := lastReturned.value;
      var c := Locate(m, k);
      ghost var before := m.Contents().Keys;
      if !descending && c.focus.left.Node? && c.focus.right.Node? {
        next := StepUp(m, c);
      }
      NextAfterRemoval(before, k, next);
      assert PastHigh(before - {k}, bounds) == PastHigh(before, bounds);
      assert PastLow(before - {k}, bounds) == PastLow(before, bounds);
      ViewOfRemove(m.Contents(), bounds, k);
      m.DeleteEntry(c);
      expectedModCount := m.modCount;
      lastReturned := None;
      r := Ok(());
    }
  }

  /** keyIterator() of a view: in the view's own order. */
  method ViewKeyIterator<V(==)>(v: NavigableSubMap<V>) returns (it: SubMapIterator<V>)
    requires v.m.Valid()
    ensures fresh(it) && it.Valid() && it.m == v.m && it.bounds == v.bounds && it.descending == v.descending
    ensures v.IsFirst(v.View().Keys, it.next)
  {
    it := new SubMapIterator(v, v.descending);
  }

  /** descendingKeyIterator() of a view: against the view's own order. */
  method ViewDescendingKeyIterator<V(==)>(v: NavigableSubMap<V>) returns (it: SubMapIterator<V>)
    requires v.m.Valid()
    ensures fresh(it) && it.Valid() && it.m == v.m && it.bounds == v.bounds && it.descending == !v.descending
    ensures v.IsLast(v.View().Keys, it.next)
  {
    it := new SubMapIterator(v, !v.descending);
  }
}
