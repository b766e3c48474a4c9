/**
 * TreeIntObjectMap: a map from int keys to values kept in a red-black tree
 * ordered by the natural order of the keys. The map keeps the tree's root,
 * its size and a count of structural modifications, which the iterators and
 * views read to fail fast.
 */
module TreeMaps {
  import opened Wrappers
  import opened RedBlackTrees
  import opened Navigation
  import opened Insertion
  import opened Deletion
  import opened EntryLists
  import Builds

  /** exportEntry: an immutable copy of an entry, or null; the copy is one of the tree's mappings. */
  function ExportEntry<V>(e: Option<Cursor<V>>): (r: Option<Pair<V>>)
    requires e.Some? ==> e.value.focus.Node?
    ensures r.Some? <==> e.Some?
    ensures r.Some? ==> r.value.key == e.value.focus.key && r.value in Entries(Whole(e.value))
  {
    if e.None? then None
    else
      CursorEntry(e.value);
      Some(Pair(e.value.focus.key, e.value.focus.value))
  }

  /**
   * keyOrNull: the key of an entry. The int result cannot hold the null
   * returned for a null entry, so unboxing it throws.
   */
  function KeyOrNull<V>(e: Option<Cursor<V>>): (r: Result<int>)
    requires e.Some? ==> e.value.focus.Node?
    ensures r.Err? <==> e.None?
    ensures r.Err? ==> r.error == NullPointer
    ensures r.Ok? ==> Pair(r.value, e.value.focus.value) in Entries(Whole(e.value))
  {
    if e.None? then Err(NullPointer)
    else
      CursorEntry(e.value);
      Ok(e.value.focus.key)
  }

  /** key: the key of an entry, which must exist. */
  function Key<V>(e: Option<Cursor<V>>): (r: Result<int>)
    requires e.Some? ==> e.value.focus.Node?
    ensures r.Err? <==> e.None?
    ensures r.Err? ==> r.error == NoSuchElement
    ensures r.Ok? ==> Pair(r.value, e.value.focus.value) in Entries(Whole(e.value))
  {
    if e.None? then Err(NoSuchElement)
    else
      CursorEntry(e.value);
      Ok(e.value.focus.key)
  }

  function KeyOf<V>(p: Option<Pair<V>>): Option<int>
  {
    if p.None? then None else Some(p.value.key)
  }

  function OkKey(r: Result<int>): Option<int>
  {
    if r.Err? then None else Some(r.value)
  }

  /** The entry a cursor designates is one of the tree's mappings. */
  lemma CursorMapping<V>(root: Tree<V>, c: Cursor<V>)
    requires Sorted(Entries(root)) && Designates(root, c)
    ensures c.focus.key in MapOf(Entries(root))
    ensures MapOf(Entries(root))[c.focus.key] == c.focus.value
  {
    CursorEntry(c);
    MapOfAt(Entries(root), Index(c));
  }

  /** The key of an entry, or none for null. */
  function CursorKey<V>(e: Option<Cursor<V>>): Option<int>
    requires e.Some? ==> e.value.focus.Node?
  {
    if e.None? then None else Some(e.value.focus.key)
  }

  /** getFirstEntry, read as a statement about the map's keys. */
  lemma FirstKeys<V>(root: Tree<V>, e: Option<Cursor<V>>)
    requires Sorted(Entries(root))
    requires e.None? <==> root.Leaf?
    requires e.Some? ==> Designates(root, e.value)
    requires e.Some? ==> forall x :: x in Entries(root) ==> e.value.focus.key <= x.key
    ensures IsLeast(MapOf(Entries(root)).Keys, CursorKey(e))
    ensures e.Some? ==> e.value.focus.key in MapOf(Entries(root)) &&
                        MapOf(Entries(root))[e.value.focus.key] == e.value.focus.value
  {
    ContentsOfEntries(Entries(root));
    if e.Some? {
      CursorMapping(root, e.value);
    } else {
      MapOfKeys(Entries(root));
    }
  }

  /** getLastEntry, read as a statement about the map's keys. */
  lemma LastKeys<V>(root: Tree<V>, e: Option<Cursor<V>>)
    requires Sorted(Entries(root))
    requires e.None? <==> root.Leaf?
    requires e.Some? ==> Designates(root, e.value)
    requires e.Some? ==> forall x :: x in Entries(root) ==> x.key <= e.value.focus.key
    ensures IsGreatest(MapOf(Entries(root)).Keys, CursorKey(e))
    ensures e.Some? ==> e.value.focus.key in MapOf(Entries(root)) &&
                        MapOf(Entries(root))[e.value.focus.key] == e.value.focus.value
  {
    ContentsOfEntries(Entries(root));
    if e.Some? {
      CursorMapping(root, e.value);
    } else {
      MapOfKeys(Entries(root));
    }
  }

  /** getCeilingEntry (`strict` false) and getHigherEntry (`strict` true), read on the map's keys. */
  lemma AboveKeys<V>(root: Tree<V>, key: int, strict: bool, e: Option<Cursor<V>>)
    requires Sorted(Entries(root))
    requires e.Some? ==> Designates(root, e.value) && (if strict then key < e.value.focus.key else key <= e.value.focus.key)
    requires e.Some? ==> forall x :: x in Entries(root) && (if strict then key < x.key else key <= x.key) ==>
                                     e.value.focus.key <= x.key
    requires e.None? <==> forall x :: x in Entries(root) ==> (if strict then x.key <= key else x.key < key)
    ensures IsLeast(KeysAbove(MapOf(Entries(root)), key, strict), CursorKey(e))
    ensures e.Some? ==> e.value.focus.key in MapOf(Entries(root)) &&
                        MapOf(Entries(root))[e.value.focus.key] == e.value.focus.value
  {
    ContentsOfEntries(Entries(root));
    if e.Some? {
      CursorMapping(root, e.value);
      assert e.value.focus.key in KeysAbove(MapOf(Entries(root)), key, strict);
    } else {
      assert forall k :: k !in KeysAbove(MapOf(Entries(root)), key, strict);
    }
  }

  /** getFloorEntry (`strict` false) and getLowerEntry (`strict` true), read on the map's keys. */
  lemma BelowKeys<V>(root: Tree<V>, key: int, strict: bool, e: Option<Cursor<V>>)
    requires Sorted(Entries(root))
    requires e.Some? ==> Designates(root, e.value) && (if strict then e.value.focus.key < key else e.value.focus.key <= key)
    requires e.Some? ==> forall x :: x in Entries(root) && (if strict then x.key < key else x.key <= key) ==>
                                     x.key <= e.value.focus.key
    requires e.None? <==> forall x :: x in Entries(root) ==> (if strict then x.key >= key else x.key > key)
    ensures IsGreatest(KeysBelow(MapOf(Entries(root)), key, strict), CursorKey(e))
    ensures e.Some? ==> e.value.focus.key in MapOf(Entries(root)) &&
                        MapOf(Entries(root))[e.value.focus.key] == e.value.focus.value
  {
    ContentsOfEntries(Entries(root));
    if e.Some? {
      CursorMapping(root, e.value);
      assert e.value.focus.key in KeysBelow(MapOf(Entries(root)), key, strict);
    } else {
      assert forall k :: k !in KeysBelow(MapOf(Entries(root)), key, strict);
    }
  }

  /** setValue on a found entry: the map is updated at that key and stays red-black. */
  lemma SetValueFacts<V>(root: Tree<V>, p: Cursor<V>, value: V)
    requires IsRedBlack(root) && Designates(root, p)
    ensures var t := Whole(Cursor(p.focus.(value := value), p.path));
      var E := Entries(root);
      IsRedBlack(t) && Entries(t) == Upsert(E, p.focus.key, value) && |Entries(t)| == |E| &&
      p.focus.key in MapOf(E) && MapOf(E)[p.focus.key] == p.focus.value &&
      MapOf(Entries(t)) == MapOf(E)[p.focus.key := value]
  {
    var E := Entries(root);
    CursorMapping(root, p);
    CursorEntry(p);
    ReplacePair(p, p.focus.key, value);
    UpsertAt(E, Index(p), value);
    UpsertSorted(E, p.focus.key, value);
    UpsertMap(E, p.focus.key, value);
  }

  /**
   * Linking a new node where a search for `key` fell off the tree puts the
   * pair in its ordered place; the tree around it is what fixAfterInsertion needs.
   */
  lemma LinkFacts<V>(root: Tree<V>, p: Cursor<V>, key: int, value: V)
    requires IsRedBlack(root) && Whole(p) == root && p.focus.Leaf?
    requires forall e :: e in Before(p.path) ==> e.key < key
    requires forall e :: e in After(p.path) ==> e.key > key
    ensures var e := Cursor(Node(Black, Leaf, key, value, Leaf), p.path);
      var E := Entries(root);
      FreshLeaf(e) && Entries(Whole(e)) == Upsert(E, key, value) && Sorted(Upsert(E, key, value)) &&
      |Upsert(E, key, value)| == |E| + 1 && key !in MapOf(E) &&
      MapOf(Upsert(E, key, value)) == MapOf(E)[key := value]
  {
    var E := Entries(root);
    LinkEntries(root, p, key, value);
    UpsertSorted(E, key, value);
    UpsertMap(E, key, value);
    forall e | e in E
      ensures e.key != key
    {
      if e !in Before(p.path) {
        assert e in After(p.path);
      }
    }
    AbsentKey(E, key);
  }

  /** The listing of the tree with the new node linked in is the old listing with the pair inserted. */
  lemma LinkEntries<V>(root: Tree<V>, p: Cursor<V>, key: int, value: V)
    requires Whole(p) == root && p.focus.Leaf?
    requires forall e :: e in Before(p.path) ==> e.key < key
    requires forall e :: e in After(p.path) ==> e.key > key
    ensures Entries(root) == Before(p.path) + After(p.path)
    ensures Entries(Whole(Cursor(Node(Black, Leaf, key, value, Leaf), p.path))) == Upsert(Entries(root), key, value)
    ensures |Upsert(Entries(root), key, value)| == |Entries(root)| + 1
  {
    var b, a := Before(p.path), After(p.path);
    var n := Node(Black, Leaf, key, value, Leaf);
    PlugEntries(Leaf, p.path);
    assert b + [] == b;
    assert Entries(root) == b + a;
    PlugEntries(n, p.path);
    assert Entries(n) == [Pair(key, value)];
    assert Entries(Whole(Cursor(n, p.path))) == b + [Pair(key, value)] + a;
    UpsertBetween(b, a, key, value);
  }

  /** Putting into a merged map is putting into its right-hand side. */
  lemma MergeUpdate<V>(a: map<int, V>, b: map<int, V>, k: int, v: V)
    ensures (a + b)[k := v] == a + b[k := v]
  {
  }

  lemma AbsentKey<V>(es: seq<Pair<V>>, key: int)
    requires forall e :: e in es ==> e.key != key
    ensures key !in MapOf(es)
  {
    MapOfKeys(es);
    forall i | 0 <= i < |es|
      ensures es[i].key != key
    {
      assert es[i] in es;
    }
  }

  class TreeIntObjectMap<V(==)> {
    var root: Tree<V>
    var size: int
    var modCount: int
    /** The key set after each structural modification, indexed by modCount. */
    ghost var history: seq<set<int>>

    ghost predicate Valid()
      reads this
    {
      IsRedBlack(root) && size == |Entries(root)| &&
      0 <= modCount && |history| == modCount + 1 && history[modCount] == Contents().Keys
    }

    /** The mappings the map holds. */
    ghost function Contents(): map<int, V>
      reads this
    {
      MapOf(Entries(root))
    }

    /** The empty map, ordered naturally. */
    constructor ()
      ensures Valid() && Entries(root) == [] && Contents() == map[] && modCount == 0
    {
      root := Leaf;
      size := 0;
      modCount := 0;
      history := [{}];
    }

    /** The map built from a sorted map's entries, in linear time. */
    constructor FromSorted(entries: seq<Pair<V>>)
      requires Sorted(entries)
      ensures Valid() && Entries(root) == entries && modCount == 0
    {
      modCount := 0;
      history := [{}];
      new;
      BuildFromSorted(|entries|, entries);
    }

    /** size: the number of mappings. */
    method Size() returns (n: int)
      requires Valid()
      ensures n == |Contents()|
    {
      KeyCount(Entries(root));
      n := size;
    }

    /** get: the value mapped to `key`, or null. */
    method Get(key: int) returns (r: Option<V>)
      requires Valid()
      ensures r == (if key in Contents() then Some(Contents()[key]) else None)
    {
      var p := GetEntry(root, key);
      ContentsOfEntries(Entries(root));
      if p.None? {
        r := None;
      } else {
        CursorMapping(root, p.value);
        r := Some(p.value.focus.value);
      }
    }

    /** containsKey */
    method ContainsKey(key: int) returns (b: bool)
      requires Valid()
      ensures b <==> key in Contents()
    {
      var p := GetEntry(root, key);
      ContentsOfEntries(Entries(root));
      if p.Some? {
        CursorMapping(root, p.value);
      }
      b := p.Some?;
    }

    /** containsValue: a walk from the first entry through successors. */
    method ContainsValue(value: V) returns (b: bool)
      requires Valid()
      ensures b <==> exists k :: k in Contents() && Contents()[k] == value
    {
      ghost var E := Entries(root);
      ContentsOfEntries(E);
      var e := GetFirstEntry(root);
      ghost var i := 0;
      while e.Some?
        invariant 0 <= i <= |E|
        invariant e.Some? ==> Designates(root, e.value) && Index(e.value) == i
        invariant e.None? ==> i == |E|
        invariant forall j :: 0 <= j < i ==> E[j].value != value
        decreases |E| - i
      {
        CursorEntry(e.value);
        if e.value.focus.value == value {
          CursorMapping(root, e.value);
          assert Contents()[e.value.focus.key] == value;
          return true;
        }
        e := Successor(e.value);
        i := i + 1;
      }
      forall k | k in Contents()
        ensures Contents()[k] != value
      {
        var j :| 0 <= j < |E| && E[j] == Pair(k, Contents()[k]);
      }
      b := false;
    }

    /** firstKey: the least key; an empty map has none. */
    method FirstKey() returns (r: Result<int>)
      requires Valid()
      ensures IsLeast(Contents().Keys, OkKey(r))
      ensures r.Err? ==> r.error == NoSuchElement
    {
      var e := GetFirstEntry(root);
      FirstKeys(root, e);
      r := Key(e);
    }

    /** lastKey: the greatest key; an empty map has none. */
    method LastKey() returns (r: Result<int>)
      requires Valid()
      ensures IsGreatest(Contents().Keys, OkKey(r))
      ensures r.Err? ==> r.error == NoSuchElement
    {
      var e := GetLastEntry(root);
      LastKeys(root, e);
      r := Key(e);
    }

    /** firstEntry: the mapping with the least key, or null. */
    method FirstEntry() returns (r: Option<Pair<V>>)
      requires Valid()
      ensures IsLeast(Contents().Keys, KeyOf(r))
      ensures r.Some? ==> Contents()[r.value.key] == r.value.value
    {
      var e := GetFirstEntry(root);
      FirstKeys(root, e);
      r := ExportEntry(e);
    }

    /** lastEntry: the mapping with the greatest key, or null. */
    method LastEntry() returns (r: Option<Pair<V>>)
      requires Valid()
      ensures IsGreatest(Contents().Keys, KeyOf(r))
      ensures r.Some? ==> Contents()[r.value.key] == r.value.value
    {
      var e := GetLastEntry(root);
      LastKeys(root, e);
      r := ExportEntry(e);
    }

    /** ceilingEntry: the mapping with the least key at or above `key`, or null. */
    method CeilingEntry(key: int) returns (r: Option<Pair<V>>)
      requires Valid()
      ensures IsLeast(KeysAbove(Contents(), key, false), KeyOf(r))
      ensures r.Some? ==> Contents()[r.value.key] == r.value.value
    {
      var e := GetCeilingEntry(root, key);
      AboveKeys(root, key, false, e);
      r := ExportEntry(e);
    }

    /** higherEntry: the mapping with the least key above `key`, or null. */
    method HigherEntry(key: int) returns (r: Option<Pair<V>>)
      requires Valid()
      ensures IsLeast(KeysAbove(Contents(), key, true), KeyOf(r))
      ensures r.Some? ==> Contents()[r.value.key] == r.value.value
    {
      var e := GetHigherEntry(root, key);
      AboveKeys(root, key, true, e);
      r := ExportEntry(e);
    }

    /** floorEntry: the mapping with the greatest key at or below `key`, or null. */
    method FloorEntry(key: int) returns (r: Option<Pair<V>>)
      requires Valid()
      ensures IsGreatest(KeysBelow(Contents(), key, false), KeyOf(r))
      ensures r.Some? ==> Contents()[r.value.key] == r.value.value
    {
      var e := GetFloorEntry(root, key);
      BelowKeys(root, key, false, e);
      r := ExportEntry(e);
    }

    /** lowerEntry: the mapping with the greatest key below `key`, or null. */
    method LowerEntry(key: int) returns (r: Option<Pair<V>>)
      requires Valid()
      ensures IsGreatest(KeysBelow(Contents(), key, true), KeyOf(r))
      ensures r.Some? ==> Contents()[r.value.key] == r.value.value
    {
      var e := GetLowerEntry(root, key);
      BelowKeys(root, key, true, e);
      r := ExportEntry(e);
    }

    /** ceilingKey: the least key at or above `key`; when there is none the source's unboxing throws. */
    method CeilingKey(key: int) returns (r: Result<int>)
      requires Valid()
      ensures IsLeast(KeysAbove(Contents(), key, false), OkKey(r))
      ensures r.Err? ==> r.error == NullPointer
    {
      var e := GetCeilingEntry(root, key);
      AboveKeys(root, key, false, e);
      r := KeyOrNull(e);
    }

    /** higherKey: the least key above `key`, or NullPointer. */
    method HigherKey(key: int) returns (r: Result<int>)
      requires Valid()
      ensures IsLeast(KeysAbove(Contents(), key, true), OkKey(r))
      ensures r.Err? ==> r.error == NullPointer
    {
      var e := GetHigherEntry(root, key);
      AboveKeys(root, key, true, e);
      r := KeyOrNull(e);
    }

    /** floorKey: the greatest key at or below `key`, or NullPointer. */
    method FloorKey(key: int) returns (r: Result<int>)
      requires Valid()
      ensures IsGreatest(KeysBelow(Contents(), key, false), OkKey(r))
      ensures r.Err? ==> r.error == NullPointer
    {
      var e := GetFloorEntry(root, key);
      BelowKeys(root, key, false, e);
      r := KeyOrNull(e);
    }

    /** lowerKey: the greatest key below `key`, or NullPointer. */
    method LowerKey(key: int) returns (r: Result<int>)
      requires Valid()
      ensures IsGreatest(KeysBelow(Contents(), key, true), OkKey(r))
      ensures r.Err? ==> r.error == NullPointer
    {
      var e := GetLowerEntry(root, key);
      BelowKeys(root, key, true, e);
      r := KeyOrNull(e);
    }

    /**
     * put: replace the value of an existing key (no structural change), or
     * link a new node where the search fell off the tree and rebalance.
     */
    method Put(key: int, value: V) returns (prior: Option<V>)
      requires Valid()
      modifies this
      ensures Valid()
      ensures Contents() == old(Contents())[key := value]
      ensures Entries(root) == Upsert(old(Entries(root)), key, value)
      ensures prior == (if key in old(Contents()) then Some(old(Contents())[key]) else None)
      ensures prior.None? ==> size == old(size) + 1 && modCount == old(modCount) + 1 &&
                              history == old(history) + [Contents().Keys]
      ensures prior.Some? ==> size == old(size) && modCount == old(modCount) && history == old(history)
    {
      ghost var E := Entries(root);
      ContentsOfEntries(E);
      if root.Leaf? {
        root := Node(Black, Leaf, key, value, Leaf);
        size := 1;
        modCount := modCount + 1;
        history := history + [Contents().Keys];
        return None;
      }
      var p := Cursor(root, []);
      while p.focus.Node?
        invariant unchanged(this)
        invariant Whole(p) == root
        invariant forall e :: e in Before(p.path) ==> e.key < key
        invariant forall e :: e in After(p.path) ==> e.key > key
        decreases p.focus
      {
        if key < p.focus.key {
          DescendLeft(p, key, true);
          p := Left(p);
        } else if key > p.focus.key {
          DescendRight(p, key, true);
          p := Right(p);
        } else {
          SetValueFacts(root, p, value);
          prior := Some(p.focus.value);
          root := Whole(Cursor(p.focus.(value := value), p.path));
          return;
        }
      }
      var e := Cursor(Node(Black, Leaf, key, value, Leaf), p.path);
      LinkFacts(root, p, key, value);
      root := FixAfterInsertion(e);
      size := size + 1;
      modCount := modCount + 1;
      history := history + [Contents().Keys];
      prior := None;
    }

    /** deleteEntry: unlink the entry `p` designates and count the modification. */
    method DeleteEntry(p: Cursor<V>)
      requires Valid() && Designates(root, p)
      modifies this
      ensures Valid()
      ensures Contents() == old(Contents()) - {p.focus.key}
      ensures Entries(root) == Delete(old(Entries(root)), p.focus.key)
      ensures size == old(size) - 1 && modCount == old(modCount) + 1
      ensures history == old(history) + [Contents().Keys]
    {
      ghost var E := Entries(root);
      CursorEntry(p);
      DeleteAt(E, Index(p));
      DeleteMap(E, p.focus.key);
      modCount := modCount + 1;
      size := size - 1;
      root := DeleteNode(root, p);
      history := history + [Contents().Keys];
    }

    /** remove: delete the mapping for `key`, returning its value, or null when absent. */
    method Remove(key: int) returns (prior: Option<V>)
      requires Valid()
      modifies this
      ensures Valid()
      ensures Contents() == old(Contents()) - {key}
      ensures prior == (if key in old(Contents()) then Some(old(Contents())[key]) else None)
      ensures prior.Some? ==> size == old(size) - 1 && modCount == old(modCount) + 1 &&
                              history == old(history) + [Contents().Keys]
      ensures prior.None? ==> unchanged(this)
    {
      var p := GetEntry(root, key);
      ContentsOfEntries(Entries(root));
      if p.None? {
        return None;
      }
      CursorMapping(root, p.value);
      prior := Some(p.value.focus.value);
      DeleteEntry(p.value);
    }

    /** clear: drop every mapping. */
    method Clear()
      requires Valid()
      modifies this
      ensures Valid() && Contents() == map[] && size == 0
      ensures modCount == old(modCount) + 1 && history == old(history) + [{}]
    {
      modCount := modCount + 1;
      size := 0;
      root := Leaf;
      history := history + [{}];
    }

    /** pollFirstEntry: remove and return the mapping with the least key, or null. */
    method PollFirstEntry() returns (r: Option<Pair<V>>)
      requires Valid()
      modifies this
      ensures Valid()
      ensures IsLeast(old(Contents()).Keys, KeyOf(r))
      ensures r.Some? ==> old(Contents())[r.value.key] == r.value.value &&
                          Contents() == old(Contents()) - {r.value.key} &&
                          modCount == old(modCount) + 1 && history == old(history) + [Contents().Keys]
      ensures r.None? ==> unchanged(this)
    {
      var p := GetFirstEntry(root);
      FirstKeys(root, p);
      r := ExportEntry(p);
      if p.Some? {
        DeleteEntry(p.value);
      }
    }

    /** pollLastEntry: remove and return the mapping with the greatest key, or null. */
    method PollLastEntry() returns (r: Option<Pair<V>>)
      requires Valid()
      modifies this
      ensures Valid()
      ensures IsGreatest(old(Contents()).Keys, KeyOf(r))
      ensures r.Some? ==> old(Contents())[r.value.key] == r.value.value &&
                          Contents() == old(Contents()) - {r.value.key} &&
                          modCount == old(modCount) + 1 && history == old(history) + [Contents().Keys]
      ensures r.None? ==> unchanged(this)
    {
      var p := GetLastEntry(root);
      LastKeys(root, p);
      r := ExportEntry(p);
      if p.Some? {
        DeleteEntry(p.value);
      }
    }

    /**
     * buildFromSorted(size, it): replace the tree by one built from `entries`
     * in linear time. Callers count the modification themselves.
     */
    method BuildFromSorted(n: int, entries: seq<Pair<V>>)
      requires n == |entries| && Sorted(entries)
      requires 0 <= modCount && |history| == modCount + 1
      modifies this
      ensures Valid() && Entries(root) == entries && Contents() == MapOf(entries)
      ensures modCount == old(modCount) && history == old(history)[modCount := Contents().Keys]
    {
      size := n;
      root := Builds.BuildFromSorted(n, entries);
      history := history[modCount := Contents().Keys];
    }

    /**
     * putAll: an empty map fed from a sorted map with the same order is rebuilt
     * in linear time; otherwise every mapping is put in turn. `source` is the
     * other map's entries in its iteration order, and `sortedSource` says
     * whether it is a sorted map with an equal comparator.
     */
    method PutAll(source: seq<Pair<V>>, sortedSource: bool)
      requires Valid()
      requires forall i, j :: 0 <= i < j < |source| ==> source[i].key != source[j].key
      requires sortedSource ==> Sorted(source)
      modifies this
      ensures Valid()
      ensures Contents() == old(Contents()) + MapOf(source)
      ensures old(modCount) <= modCount && old(history) <= history
    {
      if size == 0 && |source| != 0 && sortedSource {
        modCount := modCount + 1;
        history := history + [{}];
        BuildFromSorted(|source|, source);
        KeyCount(old(Entries(root)));
        assert old(Contents()) == map[];
        assert old(history) <= history by {
          assert history[..|old(history)|] == old(history);
        }
        return;
      }
      var i := 0;
      while i < |source|
        invariant 0 <= i <= |source| && Valid()
        invariant Contents() == old(Contents()) + MapOf(source[..i])
        invariant old(modCount) <= modCount && old(history) <= history
      {
        assert source[i].key !in KeySet(source[..i]) by {
          forall j | 0 <= j < i
            ensures source[..i][j].key != source[i].key
          {
            assert source[..i][j] == source[j];
          }
        }
        MapOfSnoc(source[..i], source[i]);
        assert source[..i + 1] == source[..i] + [source[i]];
        var _ := Put(source[i].key, source[i].value);
        MergeUpdate(old(Contents()), MapOf(source[..i]), source[i].key, source[i].value);
        i := i + 1;
      }
      assert source[..i] == source;
    }
  }

  /** The key set view's pollFirst: the least key, removed; its mapping's absence throws on unboxing. */
  method KeySetPollFirst<V(==)>(m: TreeIntObjectMap<V>) returns (r: Result<int>)
    requires m.Valid()
    modifies m
    ensures m.Valid()
    ensures IsLeast(old(m.Contents()).Keys, OkKey(r))
    ensures r.Err? ==> r.error == NullPointer && unchanged(m)
    ensures r.Ok? ==> m.Contents() == old(m.Contents()) - {r.value}
  {
    var e := m.PollFirstEntry();
    r := if e.None? then Err(NullPointer) else Ok(e.value.key);
  }

  /** The key set view's pollLast: the greatest key, removed, or NullPointer. */
  method KeySetPollLast<V(==)>(m: TreeIntObjectMap<V>) returns (r: Result<int>)
    requires m.Valid()
    modifies m
    ensures m.Valid()
    ensures IsGreatest(old(m.Contents()).Keys, OkKey(r))
    ensures r.Err? ==> r.error == NullPointer && unchanged(m)
    ensures r.Ok? ==> m.Contents() == old(m.Contents()) - {r.value}
  {
    var e := m.PollLastEntry();
    r := if e.None? then Err(NullPointer) else Ok(e.value.key);
  }
}
