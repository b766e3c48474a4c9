/**
 * NavigableSubMap and its two orientations, AscendingSubMap and
 * DescendingSubMap: live views of a key range of a TreeIntObjectMap. A view
 * holds no entries of its own; every query and update goes to the backing
 * map, restricted to the range.
 */
module SubMaps {
  import opened Wrappers
  import opened RedBlackTrees
  import opened Navigation
  import opened EntryLists
  import opened TreeMaps

  /**
   * The endpoints of a view, as the triples (fromStart, lo, loInclusive) and
   * (toEnd, hi, hiInclusive). When fromStart (toEnd) holds the view is
   * unbounded below (above) and lo and loInclusive (hi, hiInclusive) are ignored.
   */
  datatype Bounds = Bounds(fromStart: bool, lo: int, loInclusive: bool, toEnd: bool, hi: int, hiInclusive: bool)

  /** tooLow */
  predicate TooLow(b: Bounds, key: int)
  {
    !b.fromStart && (key < b.lo || (key == b.lo && !b.loInclusive))
  }

  /** tooHigh */
  predicate TooHigh(b: Bounds, key: int)
  {
    !b.toEnd && (key > b.hi || (key == b.hi && !b.hiInclusive))
  }

  /** inRange(key) */
  predicate InRange(b: Bounds, key: int)
  {
    !TooLow(b, key) && !TooHigh(b, key)
  }

  /** inClosedRange: the range with both present ends made inclusive. */
  predicate InClosedRange(b: Bounds, key: int)
  {
    (b.fromStart || key >= b.lo) && (b.toEnd || b.hi >= key)
  }

  /** inRange(key, inclusive): how a nested view's requested end is checked. */
  predicate InRangeIf(b: Bounds, key: int, inclusive: bool)
  {
    if inclusive then InRange(b, key) else InClosedRange(b, key)
  }

  /** `k` lies above the requested lower end `from`. */
  predicate Above(from: int, inclusive: bool, k: int)
  {
    k > from || (inclusive && k == from)
  }

  /** `k` lies below the requested upper end `to`. */
  predicate Below(to: int, inclusive: bool, k: int)
  {
    k < to || (inclusive && k == to)
  }

  /** The mappings of `c` that a view with bounds `b` shows. */
  ghost function ViewOf<V>(c: map<int, V>, b: Bounds): map<int, V>
  {
    map k | k in c && InRange(b, k) :: c[k]
  }

  /** A put inside the range is seen through the view as the same put. */
  lemma ViewOfUpdate<V>(c: map<int, V>, b: Bounds, key: int, value: V)
    requires InRange(b, key)
    ensures ViewOf(c[key := value], b) == ViewOf(c, b)[key := value]
  {
    assert ViewOf(c[key := value], b).Keys == ViewOf(c, b).Keys + {key};
  }

  /** A removal is seen through every view as the same removal. */
  lemma ViewOfRemove<V>(c: map<int, V>, b: Bounds, key: int)
    ensures ViewOf(c - {key}, b) == ViewOf(c, b) - {key}
  {
    assert ViewOf(c - {key}, b).Keys == ViewOf(c, b).Keys - {key};
  }

  /**
   * What a view's entry set is asked to remove: an IntObjectPair, a
   * java.util.Map.Entry, or any other object. No object is both of the
   * first two: Map.Entry declares getKey() returning an Object, while
   * IntObjectPair declares getKey() returning an int.
   */
  datatype EntryArgument<V> = PairArgument(pair: Pair<V>) | MapEntryArgument | OtherArgument

  /**
   * The view entry set's remove as the code stands: it lets through only a
   * java.util.Map.Entry and then casts it to IntObjectPair. A pair is
   * therefore refused before the lookup and the backing map is never
   * touched, while a Map.Entry fails the cast.
   */
  function EntrySetRemoveAsWritten<V>(o: EntryArgument<V>): (r: Result<bool>)
    ensures r.Ok? ==> !r.value
    ensures r.Err? <==> o.MapEntryArgument?
    ensures r.Err? ==> r.error == ClassCast
  {
    if !o.MapEntryArgument? then Ok(false)
    else Err(ClassCast)
  }

  /**
   * Over {1 -> v}, tailMap(0, true) shows the mapping 1 -> v, so removing
   * the pair (1, v) from its entry set should delete it (and
   * NavigableSubMap.EntrySetRemove answers true for it); the code as
   * written answers false and keeps it.
   */
  lemma EntrySetRemoveKeepsPair<V>(v: V)
    ensures var view := ViewOf(map[1 := v], MapTailBounds(0, true));
      1 in view && view[1] == v
    ensures EntrySetRemoveAsWritten(PairArgument(Pair(1, v))) == Ok(false)
  {
    assert InRange(MapTailBounds(0, true), 1);
  }

  /** The keys of `c` above the range. */
  ghost function PastHigh(c: set<int>, b: Bounds): set<int>
  {
    set k | k in c && TooHigh(b, k)
  }

  /** The keys of `c` below the range. */
  ghost function PastLow(c: set<int>, b: Bounds): set<int>
  {
    set k | k in c && TooLow(b, k)
  }

  /** The elements of `a` not above the range. */
  ghost function CutAbove(a: set<int>, b: Bounds): set<int>
  {
    set k | k in a && !TooHigh(b, k)
  }

  /** The elements of `a` not below the range. */
  ghost function CutBelow(a: set<int>, b: Bounds): set<int>
  {
    set k | k in a && !TooLow(b, k)
  }

  /** Dropping the keys above the range from a set keeps its least element, or leaves nothing. */
  lemma CutHigh(a: set<int>, b: Bounds, c: Option<int>)
    requires IsLeast(a, c)
    ensures IsLeast(CutAbove(a, b), if c.None? || TooHigh(b, c.value) then None else c)
  {
    if c.Some? && !TooHigh(b, c.value) {
      assert c.value in CutAbove(a, b);
    } else if c.Some? {
      forall k | k in a
        ensures TooHigh(b, k)
      {
        assert c.value <= k;
      }
      assert CutAbove(a, b) == {};
    }
  }

  /** Dropping the keys below the range from a set keeps its greatest element, or leaves nothing. */
  lemma CutLow(a: set<int>, b: Bounds, c: Option<int>)
    requires IsGreatest(a, c)
    ensures IsGreatest(CutBelow(a, b), if c.None? || TooLow(b, c.value) then None else c)
  {
    if c.Some? && !TooLow(b, c.value) {
      assert c.value in CutBelow(a, b);
    } else if c.Some? {
      forall k | k in a
        ensures TooLow(b, k)
      {
        assert k <= c.value;
      }
      assert CutBelow(a, b) == {};
    }
  }

  /** The keys a view shows are the map's keys past its lower end, cut at its upper end. */
  lemma LowestCut<V>(c: map<int, V>, b: Bounds)
    ensures ViewOf(c, b).Keys == CutAbove(if b.fromStart then c.Keys else KeysAbove(c, b.lo, !b.loInclusive), b)
  {
  }

  /** The keys a view shows are the map's keys before its upper end, cut at its lower end. */
  lemma HighestCut<V>(c: map<int, V>, b: Bounds)
    ensures ViewOf(c, b).Keys == CutBelow(if b.toEnd then c.Keys else KeysBelow(c, b.hi, !b.hiInclusive), b)
  {
  }

  /** From a key inside the lower end, the view keys above it are the map's, cut at the upper end. */
  lemma AboveCut<V>(c: map<int, V>, b: Bounds, key: int, strict: bool)
    ensures TooLow(b, key) ==> KeysAbove(ViewOf(c, b), key, strict) == ViewOf(c, b).Keys
    ensures !TooLow(b, key) ==> KeysAbove(ViewOf(c, b), key, strict) == CutAbove(KeysAbove(c, key, strict), b)
  {
  }

  /** From a key inside the upper end, the view keys below it are the map's, cut at the lower end. */
  lemma BelowCut<V>(c: map<int, V>, b: Bounds, key: int, strict: bool)
    ensures TooHigh(b, key) ==> KeysBelow(ViewOf(c, b), key, strict) == ViewOf(c, b).Keys
    ensures !TooHigh(b, key) ==> KeysBelow(ViewOf(c, b), key, strict) == CutBelow(KeysBelow(c, key, strict), b)
  {
  }

  // ---------------------------------------------------------------------
  // Bounds of new views

  /** The NavigableSubMap constructor: two present ends in the wrong order are refused. */
  function NewBounds(fromStart: bool, lo: int, loInclusive: bool, toEnd: bool, hi: int, hiInclusive: bool): (r: Result<Bounds>)
    ensures r.Err? <==> !fromStart && !toEnd && lo > hi
    ensures r.Err? ==> r.error == IllegalArgument
    ensures r.Ok? ==> r.value == Bounds(fromStart, lo, loInclusive, toEnd, hi, hiInclusive)
  {
    if !fromStart && !toEnd && lo > hi then Err(IllegalArgument)
    else Ok(Bounds(fromStart, lo, loInclusive, toEnd, hi, hiInclusive))
  }

  /** The whole map's subMap(from, fi, to, ti): exactly the keys between the two ends. */
  function MapSubBounds(from: int, fromInclusive: bool, to: int, toInclusive: bool): (r: Result<Bounds>)
    ensures r.Err? <==> from > to
    ensures r.Ok? ==> forall k :: InRange(r.value, k) <==> Above(from, fromInclusive, k) && Below(to, toInclusive, k)
  {
    NewBounds(false, from, fromInclusive, false, to, toInclusive)
  }

  /** The whole map's headMap(to, inclusive): exactly the keys below `to`. */
  function MapHeadBounds(to: int, inclusive: bool): (r: Bounds)
    ensures forall k :: InRange(r, k) <==> Below(to, inclusive, k)
  {
    Bounds(true, 0, true, false, to, inclusive)
  }

  /** The whole map's tailMap(from, inclusive): exactly the keys above `from`. */
  function MapTailBounds(from: int, inclusive: bool): (r: Bounds)
    ensures forall k :: InRange(r, k) <==> Above(from, inclusive, k)
  {
    Bounds(false, from, inclusive, true, 0, true)
  }

  /** The whole map's descendingMap(): every key. */
  function MapWholeBounds(): (r: Bounds)
    ensures forall k :: InRange(r, k)
  {
    Bounds(true, 0, true, true, 0, true)
  }

  /**
   * AscendingSubMap.subMap: both requested ends must lie in the view; the new
   * view is the old one cut to the keys between them.
   */
  function AscendingSubBounds(b: Bounds, from: int, fromInclusive: bool, to: int, toInclusive: bool): (r: Result<Bounds>)
    ensures r.Err? <==> !InRangeIf(b, from, fromInclusive) || !InRangeIf(b, to, toInclusive) || from > to
    ensures r.Err? ==> r.error == IllegalArgument
    ensures r.Ok? ==> forall k :: InRange(r.value, k) <==>
                                 InRange(b, k) && Above(from, fromInclusive, k) && Below(to, toInclusive, k)
  {
    if !InRangeIf(b, from, fromInclusive) then Err(IllegalArgument)
    else if !InRangeIf(b, to, toInclusive) then Err(IllegalArgument)
    else NewBounds(false, from, fromInclusive, false, to, toInclusive)
  }

  /** AscendingSubMap.headMap: the view cut to the keys below `to`; it never fails once `to` is accepted. */
  function AscendingHeadBounds(b: Bounds, to: int, inclusive: bool): (r: Result<Bounds>)
    ensures r.Err? <==> !InRangeIf(b, to, inclusive)
    ensures r.Err? ==> r.error == IllegalArgument
    ensures r.Ok? ==> forall k :: InRange(r.value, k) <==> InRange(b, k) && Below(to, inclusive, k)
  {
    if !InRangeIf(b, to, inclusive) then Err(IllegalArgument)
    else NewBounds(b.fromStart, b.lo, b.loInclusive, false, to, inclusive)
  }

  /** AscendingSubMap.tailMap: the view cut to the keys above `from`. */
  function AscendingTailBounds(b: Bounds, from: int, inclusive: bool): (r: Result<Bounds>)
    ensures r.Err? <==> !InRangeIf(b, from, inclusive)
    ensures r.Err? ==> r.error == IllegalArgument
    ensures r.Ok? ==> forall k :: InRange(r.value, k) <==> InRange(b, k) && Above(from, inclusive, k)
  {
    if !InRangeIf(b, from, inclusive) then Err(IllegalArgument)
    else NewBounds(false, from, inclusive, b.toEnd, b.hi, b.hiInclusive)
  }

  /**
   * DescendingSubMap.subMap: in descending order `from` is the upper end
   * and `to` the lower one.
   */
  function DescendingSubBounds(b: Bounds, from: int, fromInclusive: bool, to: int, toInclusive: bool): (r: Result<Bounds>)
    ensures r.Err? <==> !InRangeIf(b, from, fromInclusive) || !InRangeIf(b, to, toInclusive) || to > from
    ensures r.Err? ==> r.error == IllegalArgument
    ensures r.Ok? ==> forall k :: InRange(r.value, k) <==>
                                 InRange(b, k) && Above(to, toInclusive, k) && Below(from, fromInclusive, k)
  {
    if !InRangeIf(b, from, fromInclusive) then Err(IllegalArgument)
    else if !InRangeIf(b, to, toInclusive) then Err(IllegalArgument)
    else NewBounds(false, to, toInclusive, false, from, fromInclusive)
  }

  /** DescendingSubMap.headMap: the keys that come before `to` in descending order, those above it. */
  function DescendingHeadBounds(b: Bounds, to: int, inclusive: bool): (r: Result<Bounds>)
    ensures r.Err? <==> !InRangeIf(b, to, inclusive)
    ensures r.Err? ==> r.error == IllegalArgument
    ensures r.Ok? ==> forall k :: InRange(r.value, k) <==> InRange(b, k) && Above(to, inclusive, k)
  {
    if !InRangeIf(b, to, inclusive) then Err(IllegalArgument)
    else NewBounds(false, to, inclusive, b.toEnd, b.hi, b.hiInclusive)
  }

  /** DescendingSubMap.tailMap: the keys that come after `from` in descending order, those below it. */
  function DescendingTailBounds(b: Bounds, from: int, inclusive: bool): (r: Result<Bounds>)
    ensures r.Err? <==> !InRangeIf(b, from, inclusive)
    ensures r.Err? ==> r.error == IllegalArgument
    ensures r.Ok? ==> forall k :: InRange(r.value, k) <==> InRange(b, k) && Below(from, inclusive, k)
  {
    if !InRangeIf(b, from, inclusive) then Err(IllegalArgument)
    else NewBounds(b.fromStart, b.lo, b.loInclusive, false, from, inclusive)
  }

  /** getCeilingEntry (`strict` false) or getHigherEntry (`strict` true), with its key-set meaning. */
  method GetAboveEntry<V>(root: Tree<V>, key: int, strict: bool) returns (e: Option<Cursor<V>>)
    requires IsRedBlack(root)
    ensures e.Some? ==> Designates(root, e.value)
    ensures IsLeast(KeysAbove(MapOf(Entries(root)), key, strict), CursorKey(e))
  {
    if strict {
      e := GetHigherEntry(root, key);
    } else {
      e := GetCeilingEntry(root, key);
    }
    AboveKeys(root, key, strict, e);
  }

  /** getFloorEntry (`strict` false) or getLowerEntry (`strict` true), with its key-set meaning. */
  method GetBelowEntry<V>(root: Tree<V>, key: int, strict: bool) returns (e: Option<Cursor<V>>)
    requires IsRedBlack(root)
    ensures e.Some? ==> Designates(root, e.value)
    ensures IsGreatest(KeysBelow(MapOf(Entries(root)), key, strict), CursorKey(e))
  {
    if strict {
      e := GetLowerEntry(root, key);
    } else {
      e := GetFloorEntry(root, key);
    }
    BelowKeys(root, key, strict, e);
  }

  // ---------------------------------------------------------------------
  // The view

  /**
   * A view of `m` restricted to `bounds`. The source's AscendingSubMap and
   * DescendingSubMap are this class with `descending` false and true: they
   * differ only in how the sub* relays map to the abs* operations and in
   * the orientation of nested views.
   */
  class NavigableSubMap<V(==)> {
    const m: TreeIntObjectMap<V>
    const bounds: Bounds
    const descending: bool

    constructor (m: TreeIntObjectMap<V>, bounds: Bounds, descending: bool)
      ensures this.m == m && this.bounds == bounds && this.descending == descending
    {
      this.m := m;
      this.bounds := bounds;
      this.descending := descending;
    }

    /** The mappings the view shows. */
    ghost function View(): map<int, V>
      reads m
    {
      ViewOf(m.Contents(), bounds)
    }

    /** `r` comes first among `s` in the view's order. */
    ghost predicate IsFirst(s: set<int>, r: Option<int>)
    {
      if descending then IsGreatest(s, r) else IsLeast(s, r)
    }

    /** `r` comes last among `s` in the view's order. */
    ghost predicate IsLast(s: set<int>, r: Option<int>)
    {
      if descending then IsLeast(s, r) else IsGreatest(s, r)
    }

    /** The view's keys at or after `key` in the view's order (after it when `strict`). */
    ghost function KeysAfter(key: int, strict: bool): set<int>
      reads m
    {
      if descending then KeysBelow(View(), key, strict) else KeysAbove(View(), key, strict)
    }

    /** The view's keys at or before `key` in the view's order (before it when `strict`). */
    ghost function KeysBefore(key: int, strict: bool): set<int>
      reads m
    {
      if descending then KeysAbove(View(), key, strict) else KeysBelow(View(), key, strict)
    }

    // absolute relations, in ascending key order

    /** absLowest: the least key of the view. */
    method AbsLowest() returns (e: Option<Cursor<V>>)
      requires m.Valid()
      ensures e.Some? ==> Designates(m.root, e.value)
      ensures IsLeast(View().Keys, CursorKey(e))
    {
      if bounds.fromStart {
        e := GetFirstEntry(m.root);
        FirstKeys(m.root, e);
      } else {
        e := GetAboveEntry(m.root, bounds.lo, !bounds.loInclusive);
      }
      LowestCut(m.Contents(), bounds);
      CutHigh(if bounds.fromStart then m.Contents().Keys else KeysAbove(m.Contents(), bounds.lo, !bounds.loInclusive),
              bounds, CursorKey(e));
      if e.Some? && TooHigh(bounds, e.value.focus.key) {
        e := None;
      }
    }

    /** absHighest: the greatest key of the view. */
    method AbsHighest() returns (e: Option<Cursor<V>>)
      requires m.Valid()
      ensures e.Some? ==> Designates(m.root, e.value)
      ensures IsGreatest(View().Keys, CursorKey(e))
    {
      if bounds.toEnd {
        e := GetLastEntry(m.root);
        LastKeys(m.root, e);
      } else {
        e := GetBelowEntry(m.root, bounds.hi, !bounds.hiInclusive);
      }
      HighestCut(m.Contents(), bounds);
      CutLow(if bounds.toEnd then m.Contents().Keys else KeysBelow(m.Contents(), bounds.hi, !bounds.hiInclusive),
             bounds, CursorKey(e));
      if e.Some? && TooLow(bounds, e.value.focus.key) {
        e := None;
      }
    }

    /** absCeiling (`strict` false) and absHigher (`strict` true): the least view key at or above `key`. */
    method AbsAbove(key: int, strict: bool) returns (e: Option<Cursor<V>>)
      requires m.Valid()
      ensures e.Some? ==> Designates(m.root, e.value)
      ensures IsLeast(KeysAbove(View(), key, strict), CursorKey(e))
    {
      AboveCut(m.Contents(), bounds, key, strict);
      if TooLow(bounds, key) {
        e := AbsLowest();
        return;
      }
      e := GetAboveEntry(m.root, key, strict);
      CutHigh(KeysAbove(m.Contents(), key, strict), bounds, CursorKey(e));
      if e.Some? && TooHigh(bounds, e.value.focus.key) {
        e := None;
      }
    }

    /** absFloor (`strict` false) and absLower (`strict` true): the greatest view key at or below `key`. */
    method AbsBelow(key: int, strict: bool) returns (e: Option<Cursor<V>>)
      requires m.Valid()
      ensures e.Some? ==> Designates(m.root, e.value)
      ensures IsGreatest(KeysBelow(View(), key, strict), CursorKey(e))
    {
      BelowCut(m.Contents(), bounds, key, strict);
      if TooHigh(bounds, key) {
        e := AbsHighest();
        return;
      }
      e := GetBelowEntry(m.root, key, strict);
      CutLow(KeysBelow(m.Contents(), key, strict), bounds, CursorKey(e));
      if e.Some? && TooLow(bounds, e.value.focus.key) {
        e := None;
      }
    }

    /** absHighFence: the first key of the map past the view's upper end, where an ascending walk stops. */
    method AbsHighFence() returns (e: Option<Cursor<V>>)
      requires m.Valid()
      ensures e.Some? ==> Designates(m.root, e.value)
      ensures IsLeast(PastHigh(m.Contents().Keys, bounds), CursorKey(e))
    {
      if bounds.toEnd {
        e := None;
        assert PastHigh(m.Contents().Keys, bounds) == {};
      } else {
        e := GetAboveEntry(m.root, bounds.hi, bounds.hiInclusive);
        assert PastHigh(m.Contents().Keys, bounds) == KeysAbove(m.Contents(), bounds.hi, bounds.hiInclusive);
      }
    }

    /** absLowFence: the first key of the map past the view's lower end, where a descending walk stops. */
    method AbsLowFence() returns (e: Option<Cursor<V>>)
      requires m.Valid()
      ensures e.Some? ==> Designates(m.root, e.value)
      ensures IsGreatest(PastLow(m.Contents().Keys, bounds), CursorKey(e))
    {
      if bounds.fromStart {
        e := None;
        assert PastLow(m.Contents().Keys, bounds) == {};
      } else {
        e := GetBelowEntry(m.root, bounds.lo, bounds.loInclusive);
        assert PastLow(m.Contents().Keys, bounds) == KeysBelow(m.Contents(), bounds.lo, bounds.loInclusive);
      }
    }

    // relations in the view's own order (the sub* relays)

    /** subLowest: absLowest, or absHighest for a descending view. */
    method SubLowest() returns (e: Option<Cursor<V>>)
      requires m.Valid()
      ensures e.Some? ==> Designates(m.root, e.value)
      ensures IsFirst(View().Keys, CursorKey(e))
    {
      if descending {
        e := AbsHighest();
      } else {
        e := AbsLowest();
      }
    }

    /** subHighest: absHighest, or absLowest for a descending view. */
    method SubHighest() returns (e: Option<Cursor<V>>)
      requires m.Valid()
      ensures e.Some? ==> Designates(m.root, e.value)
      ensures IsLast(View().Keys, CursorKey(e))
    {
      if descending {
        e := AbsLowest();
      } else {
        e := AbsHighest();
      }
    }

    /** subCeiling (`strict` false) and subHigher (`strict` true): absCeiling/absHigher, or absFloor/absLower when descending. */
    method SubAfter(key: int, strict: bool) returns (e: Option<Cursor<V>>)
      requires m.Valid()
      ensures e.Some? ==> Designates(m.root, e.value)
      ensures IsFirst(KeysAfter(key, strict), CursorKey(e))
    {
      if descending {
        e := AbsBelow(key, strict);
      } else {
        e := AbsAbove(key, strict);
      }
    }

    /** subFloor (`strict` false) and subLower (`strict` true): absFloor/absLower, or absCeiling/absHigher when descending. */
    method SubBefore(key: int, strict: bool) returns (e: Option<Cursor<V>>)
      requires m.Valid()
      ensures e.Some? ==> Designates(m.root, e.value)
      ensures IsLast(KeysBefore(key, strict), CursorKey(e))
    {
      if descending {
        e := AbsAbove(key, strict);
      } else {
        e := AbsBelow(key, strict);
      }
    }

    // public operations

    /** containsKey: in range and in the map. */
    method ContainsKey(key: int) returns (b: bool)
      requires m.Valid()
      ensures b <==> key in View()
    {
      b := InRange(bounds, key);
      if b {
        b := m.ContainsKey(key);
      }
    }

    /** get: null outside the range. */
    method Get(key: int) returns (r: Option<V>)
      requires m.Valid()
      ensures r == (if key in View() then Some(View()[key]) else None)
    {
      if !InRange(bounds, key) {
        return None;
      }
      r := m.Get(key);
    }

    /** put: refused outside the range; otherwise the backing map's put, seen through the view. */
    method Put(key: int, value: V) returns (r: Result<Option<V>>)
      requires m.Valid()
      modifies m
      ensures m.Valid()
      ensures !InRange(bounds, key) ==> r == Err(IllegalArgument) && unchanged(m)
      ensures InRange(bounds, key) ==>
                r == Ok(if key in old(View()) then Some(old(View())[key]) else None) &&
                m.Contents() == old(m.Contents())[key := value] && View() == old(View())[key := value] &&
                old(m.history) <= m.history
    {
      if !InRange(bounds, key) {
        return Err(IllegalArgument);
      }
      var prior := m.Put(key, value);
      ViewOfUpdate(old(m.Contents()), bounds, key, value);
      r := Ok(prior);
    }

    /** remove: null and no change outside the range. */
    method Remove(key: int) returns (r: Option<V>)
      requires m.Valid()
      modifies m
      ensures m.Valid()
      ensures r == (if key in old(View()) then Some(old(View())[key]) else None)
      ensures View() == old(View()) - {key}
      ensures !InRange(bounds, key) ==> unchanged(m)
      ensures InRange(bounds, key) ==> m.Contents() == old(m.Contents()) - {key} && old(m.history) <= m.history
    {
      if !InRange(bounds, key) {
        assert View() - {key} == View();
        return None;
      }
      r := m.Remove(key);
      ViewOfRemove(old(m.Contents()), bounds, key);
    }

    /** firstKey: the view's first key in its order, which must exist. */
    method FirstKey() returns (r: Result<int>)
      requires m.Valid()
      ensures IsFirst(View().Keys, OkKey(r))
      ensures r.Err? ==> r.error == NoSuchElement
    {
      var e := SubLowest();
      r := Key(e);
    }

    /** lastKey: the view's last key in its order, which must exist. */
    method LastKey() returns (r: Result<int>)
      requires m.Valid()
      ensures IsLast(View().Keys, OkKey(r))
      ensures r.Err? ==> r.error == NoSuchElement
    {
      var e := SubHighest();
      r := Key(e);
    }

    /** firstEntry */
    method FirstEntry() returns (r: Option<Pair<V>>)
      requires m.Valid()
      ensures IsFirst(View().Keys, KeyOf(r))
      ensures r.Some? ==> View()[r.value.key] == r.value.value
    {
      var e := SubLowest();
      if e.Some? {
        CursorMapping(m.root, e.value);
      }
      r := ExportEntry(e);
    }

    /** lastEntry */
    method LastEntry() returns (r: Option<Pair<V>>)
      requires m.Valid()
      ensures IsLast(View().Keys, KeyOf(r))
      ensures r.Some? ==> View()[r.value.key] == r.value.value
    {
      var e := SubHighest();
      if e.Some? {
        CursorMapping(m.root, e.value);
      }
      r := ExportEntry(e);
    }

    /** ceilingEntry (`strict` false) and higherEntry (`strict` true), in the view's order. */
    method AfterEntry(key: int, strict: bool) returns (r: Option<Pair<V>>)
      requires m.Valid()
      ensures IsFirst(KeysAfter(key, strict), KeyOf(r))
      ensures r.Some? ==> r.value.key in View() && View()[r.value.key] == r.value.value
    {
      var e := SubAfter(key, strict);
      if e.Some? {
        CursorMapping(m.root, e.value);
      }
      r := ExportEntry(e);
    }

    /** ceilingKey (`strict` false) and higherKey (`strict` true); a missing key throws on unboxing. */
    method AfterKey(key: int, strict: bool) returns (r: Result<int>)
      requires m.Valid()
      ensures IsFirst(KeysAfter(key, strict), OkKey(r))
      ensures r.Err? ==> r.error == NullPointer
    {
      var e := SubAfter(key, strict);
      r := KeyOrNull(e);
    }

    /** floorEntry (`strict` false) and lowerEntry (`strict` true), in the view's order. */
    method BeforeEntry(key: int, strict: bool) returns (r: Option<Pair<V>>)
      requires m.Valid()
      ensures IsLast(KeysBefore(key, strict), KeyOf(r))
      ensures r.Some? ==> r.value.key in View() && View()[r.value.key] == r.value.value
    {
      var e := SubBefore(key, strict);
      if e.Some? {
        CursorMapping(m.root, e.value);
      }
      r := ExportEntry(e);
    }

    /** floorKey (`strict` false) and lowerKey (`strict` true); a missing key throws on unboxing. */
    method BeforeKey(key: int, strict: bool) returns (r: Result<int>)
      requires m.Valid()
      ensures IsLast(KeysBefore(key, strict), OkKey(r))
      ensures r.Err? ==> r.error == NullPointer
    {
      var e := SubBefore(key, strict);
      r := KeyOrNull(e);
    }

    /** pollFirstEntry: remove and return the view's first mapping in its order. */
    method PollFirstEntry() returns (r: Option<Pair<V>>)
      requires m.Valid()
      modifies m
      ensures m.Valid()
      ensures IsFirst(old(View()).Keys, KeyOf(r))
      ensures r.Some? ==> old(View())[r.value.key] == r.value.value &&
                          m.Contents() == old(m.Contents()) - {r.value.key} &&
                          m.modCount == old(m.modCount) + 1 && m.history == old(m.history) + [m.Contents().Keys]
      ensures r.None? ==> unchanged(m)
    {
      var e := SubLowest();
      r := ExportEntry(e);
      if e.Some? {
        CursorMapping(m.root, e.value);
        m.DeleteEntry(e.value);
      }
    }

    /** pollLastEntry: remove and return the view's last mapping in its order. */
    method PollLastEntry() returns (r: Option<Pair<V>>)
      requires m.Valid()
      modifies m
      ensures m.Valid()
      ensures IsLast(old(View()).Keys, KeyOf(r))
      ensures r.Some? ==> old(View())[r.value.key] == r.value.value &&
                          m.Contents() == old(m.Contents()) - {r.value.key} &&
                          m.modCount == old(m.modCount) + 1 && m.history == old(m.history) + [m.Contents().Keys]
      ensures r.None? ==> unchanged(m)
    {
      var e := SubHighest();
      r := ExportEntry(e);
      if e.Some? {
        CursorMapping(m.root, e.value);
        m.DeleteEntry(e.value);
      }
    }

    /** The entry-set view's isEmpty. */
    method IsEmpty() returns (b: bool)
      requires m.Valid()
      ensures b <==> View() == map[]
    {
      var n := AbsLowest();
      b := n.None? || TooHigh(bounds, n.value.focus.key);
      if !b {
        assert n.value.focus.key in View();
      }
    }

    /** The entry-set view's contains: the pair's key is in range and mapped to an equal value. */
    method EntrySetContains(p: Pair<V>) returns (b: bool)
      requires m.Valid()
      ensures b <==> p.key in View() && View()[p.key] == p.value
    {
      if !InRange(bounds, p.key) {
        return false;
      }
      var node := GetEntry(m.root, p.key);
      ContentsOfEntries(Entries(m.root));
      if node.Some? {
        CursorMapping(m.root, node.value);
      }
      b := node.Some? && node.value.focus.value == p.value;
    }

    /**
     * The entry-set view's remove, with the argument checked to be a pair
     * as contains does (EntrySetRemoveAsWritten is the code as it stands):
     * delete the mapping only when it is in range and matches.
     */
    method EntrySetRemove(p: Pair<V>) returns (b: bool)
      requires m.Valid()
      modifies m
      ensures m.Valid()
      ensures b <==> p.key in old(View()) && old(View())[p.key] == p.value
      ensures b ==> m.Contents() == old(m.Contents()) - {p.key} && m.history == old(m.history) + [m.Contents().Keys]
      ensures !b ==> unchanged(m)
    {
      if !InRange(bounds, p.key) {
        return false;
      }
      var node := GetEntry(m.root, p.key);
      ContentsOfEntries(Entries(m.root));
      if node.Some? {
        CursorMapping(m.root, node.value);
      }
      if node.Some? && node.value.focus.value == p.value {
        m.DeleteEntry(node.value);
        return true;
      }
      b := false;
    }

    // nested views

    /** subMap(from, fi, to, ti), for either orientation. */
    method SubMap(from: int, fromInclusive: bool, to: int, toInclusive: bool) returns (r: Result<NavigableSubMap<V>>)
      ensures var nb := if descending then DescendingSubBounds(bounds, from, fromInclusive, to, toInclusive)
                        else AscendingSubBounds(bounds, from, fromInclusive, to, toInclusive);
        (r.Err? <==> nb.Err?) && (r.Err? ==> r.error == IllegalArgument) &&
        (r.Ok? ==> fresh(r.value) && r.value.m == m && r.value.bounds == nb.value && r.value.descending == descending)
    {
      var nb := if descending then DescendingSubBounds(bounds, from, fromInclusive, to, toInclusive)
                else AscendingSubBounds(bounds, from, fromInclusive, to, toInclusive);
      if nb.Err? {
        return Err(IllegalArgument);
      }
      var v := new NavigableSubMap(m, nb.value, descending);
      r := Ok(v);
    }

    /** headMap(to, inclusive), for either orientation. */
    method HeadMap(to: int, inclusive: bool) returns (r: Result<NavigableSubMap<V>>)
      ensures var nb := if descending then DescendingHeadBounds(bounds, to, inclusive)
                        else AscendingHeadBounds(bounds, to, inclusive);
        (r.Err? <==> nb.Err?) && (r.Err? ==> r.error == IllegalArgument) &&
        (r.Ok? ==> fresh(r.value) && r.value.m == m && r.value.bounds == nb.value && r.value.descending == descending)
    {
      var nb := if descending then DescendingHeadBounds(bounds, to, inclusive)
                else AscendingHeadBounds(bounds, to, inclusive);
      if nb.Err? {
        return Err(IllegalArgument);
      }
      var v := new NavigableSubMap(m, nb.value, descending);
      r := Ok(v);
    }

    /** tailMap(from, inclusive), for either orientation. */
    method TailMap(from: int, inclusive: bool) returns (r: Result<NavigableSubMap<V>>)
      ensures var nb := if descending then DescendingTailBounds(bounds, from, inclusive)
                        else AscendingTailBounds(bounds, from, inclusive);
        (r.Err? <==> nb.Err?) && (r.Err? ==> r.error == IllegalArgument) &&
        (r.Ok? ==> fresh(r.value) && r.value.m == m && r.value.bounds == nb.value && r.value.descending == descending)
    {
      var nb := if descending then DescendingTailBounds(bounds, from, inclusive)
                else AscendingTailBounds(bounds, from, inclusive);
      if nb.Err? {
        return Err(IllegalArgument);
      }
      var v := new NavigableSubMap(m, nb.value, descending);
      r := Ok(v);
    }

    /** descendingMap: the same range in the other order. */
    method DescendingMap() returns (v: NavigableSubMap<V>)
      ensures fresh(v) && v.m == m && v.bounds == bounds && v.descending == !descending
    {
      v := new NavigableSubMap(m, bounds, !descending);
    }
  }

  // ---------------------------------------------------------------------
  // The views the whole map hands out

  /** TreeIntObjectMap.descendingMap: every key, in descending order. */
  method DescendingMapOf<V(==)>(m: TreeIntObjectMap<V>) returns (v: NavigableSubMap<V>)
    ensures fresh(v) && v.m == m && v.bounds == MapWholeBounds() && v.descending
  {
    v := new NavigableSubMap(m, Bounds(true, 0, true, true, 0, true), true);
  }

  /** TreeIntObjectMap.subMap(from, fi, to, ti): refused when `from` exceeds `to`. */
  method SubMapOf<V(==)>(m: TreeIntObjectMap<V>, from: int, fromInclusive: bool, to: int, toInclusive: bool)
      returns (r: Result<NavigableSubMap<V>>)
    ensures var nb := MapSubBounds(from, fromInclusive, to, toInclusive);
      (r.Err? <==> nb.Err?) && (r.Err? ==> r.error == IllegalArgument) &&
      (r.Ok? ==> fresh(r.value) && r.value.m == m && r.value.bounds == nb.value && !r.value.descending)
  {
    var nb := NewBounds(false, from, fromInclusive, false, to, toInclusive);
    if nb.Err? {
      return Err(IllegalArgument);
    }
    var v := new NavigableSubMap(m, nb.value, false);
    r := Ok(v);
  }

  /** TreeIntObjectMap.headMap(to, inclusive) */
  method HeadMapOf<V(==)>(m: TreeIntObjectMap<V>, to: int, inclusive: bool) returns (v: NavigableSubMap<V>)
    ensures fresh(v) && v.m == m && v.bounds == MapHeadBounds(to, inclusive) && !v.descending
  {
    v := new NavigableSubMap(m, Bounds(true, 0, true, false, to, inclusive), false);
  }

  /** TreeIntObjectMap.tailMap(from, inclusive) */
  method TailMapOf<V(==)>(m: TreeIntObjectMap<V>, from: int, inclusive: bool) returns (v: NavigableSubMap<V>)
    ensures fresh(v) && v.m == m && v.bounds == MapTailBounds(from, inclusive) && !v.descending
  {
    v := new NavigableSubMap(m, Bounds(false, from, inclusive, true, 0, true), false);
  }
}
