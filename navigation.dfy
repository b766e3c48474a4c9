/**
 * The navigation getters of TreeIntObjectMap: each descends from the root
 * comparing keys and, where the source does, walks back up parent links.
 * Every result is a cursor on the whole tree, specified by the key it holds.
 */
module Navigation {
  import opened Wrappers
  import opened RedBlackTrees

  /** A cursor that designates an entry of `root`. */
  ghost predicate Designates<V>(root: Tree<V>, c: Cursor<V>)
  {
    Whole(c) == root && c.focus.Node?
  }

  /** Going left from a node whose key exceeds `key` keeps everything after the cursor above `key`. */
  lemma DescendLeft<V>(p: Cursor<V>, key: int, strict: bool)
    requires p.focus.Node? && Sorted(Entries(Whole(p)))
    requires if strict then key < p.focus.key else key <= p.focus.key
    requires forall e :: e in After(p.path) ==> if strict then e.key > key else e.key >= key
    ensures Whole(Left(p)) == Whole(p) && Before(Left(p).path) == Before(p.path)
    ensures forall e :: e in After(Left(p).path) ==> if strict then e.key > key else e.key >= key
  {
    FocusBounds(p);
    LeftRightWhole(p);
    var after := After(Left(p).path);
    assert after == [Pair(p.focus.key, p.focus.value)] + Entries(p.focus.right) + After(p.path);
    forall e | e in after
      ensures if strict then e.key > key else e.key >= key
    {
      if e in Entries(p.focus.right) {
        assert e.key > p.focus.key;
      }
    }
  }

  /** Going right from a node whose key is below `key` keeps everything before the cursor below `key`. */
  lemma DescendRight<V>(p: Cursor<V>, key: int, strict: bool)
    requires p.focus.Node? && Sorted(Entries(Whole(p)))
    requires if strict then p.focus.key < key else p.focus.key <= key
    requires forall e :: e in Before(p.path) ==> if strict then e.key < key else e.key <= key
    ensures Whole(Right(p)) == Whole(p) && After(Right(p).path) == After(p.path)
    ensures forall e :: e in Before(Right(p).path) ==> if strict then e.key < key else e.key <= key
  {
    FocusBounds(p);
    LeftRightWhole(p);
    var before := Before(Right(p).path);
    assert before == Before(p.path) + Entries(p.focus.left) + [Pair(p.focus.key, p.focus.value)];
    forall e | e in before
      ensures if strict then e.key < key else e.key <= key
    {
      if e in Entries(p.focus.left) {
        assert e.key < p.focus.key;
      }
    }
  }

  /** The subtree a search for `key` ends at: the node holding it, or a leaf. */
  function NodeOf<V>(t: Tree<V>, key: int): Tree<V>
  {
    match t
    case Leaf => Leaf
    case Node(_, l, k, _, r) => if key < k then NodeOf(l, key) else if key > k then NodeOf(r, key) else t
  }

  /** getEntry: the entry holding `key`, or null. */
  method GetEntry<V>(root: Tree<V>, key: int) returns (r: Option<Cursor<V>>)
    requires Sorted(Entries(root))
    ensures r.Some? ==> Designates(root, r.value) && r.value.focus.key == key
    ensures r.Some? ==> r.value.focus == NodeOf(root, key)
    ensures r.None? <==> forall e :: e in Entries(root) ==> e.key != key
  {
    var p := Cursor(root, []);
    while p.focus.Node?
      invariant Whole(p) == root
      invariant NodeOf(p.focus, key) == NodeOf(root, key)
      invariant forall e :: e in Before(p.path) ==> e.key < key
      invariant forall e :: e in After(p.path) ==> e.key > key
      decreases p.focus
    {
      if key < p.focus.key {
        DescendLeft(p, key, true);
        p := Left(p);
      } else if key > p.focus.key {
        DescendRight(p, key, true);
        p := Right(p);
      } else {
        CursorEntry(p);
        return Some(p);
      }
    }
    PlugEntries(p.focus, p.path);
    return None;
  }

  /** In a sorted listing, the first entry at or above `b` is the least such. */
  lemma LeastAtOrAbove<V>(a: seq<Pair<V>>, c: seq<Pair<V>>, x: Pair<V>, z: seq<Pair<V>>, b: int)
    requires Sorted(a + c + [x] + z)
    requires forall e :: e in a ==> e.key < b
    requires forall e :: e in c ==> e.key < b
    ensures forall e :: e in a + c + [x] + z && b <= e.key ==> x.key <= e.key
  {
    SortedSplit(a + c + [x], z);
    assert x in a + c + [x];
    forall e | e in a + c + [x] + z && b <= e.key
      ensures x.key <= e.key
    {
      if e !in z {
        assert e in a + c + [x];
        assert e !in a + c;
      }
    }
  }

  /** In a sorted listing, the last entry at or below `b` is the greatest such. */
  lemma GreatestAtOrBelow<V>(a: seq<Pair<V>>, x: Pair<V>, c: seq<Pair<V>>, z: seq<Pair<V>>, b: int)
    requires Sorted(a + [x] + (c + z))
    requires forall e :: e in c ==> e.key > b
    requires forall e :: e in z ==> e.key > b
    ensures forall e :: e in a + [x] + (c + z) && e.key <= b ==> e.key <= x.key
  {
    assert a + [x] + (c + z) == a + ([x] + (c + z));
    SortedSplit(a, [x] + (c + z));
    assert x in [x] + (c + z);
    forall e | e in a + [x] + (c + z) && e.key <= b
      ensures e.key <= x.key
    {
      if e !in a {
        assert e in [x] + (c + z);
        assert e !in c + z;
      }
    }
  }

  /** The listing of the whole tree around a left child and its parent's entry. */
  lemma AroundLeftChild<V>(ch: Cursor<V>)
    requires ch.path != [] && ch.path[0].isLeft
    ensures Entries(Whole(ch)) == Before(ch.path) + Entries(ch.focus) +
      [Pair(ch.path[0].key, ch.path[0].value)] + (Entries(ch.path[0].sibling) + After(ch.path[1..]))
  {
    PlugEntries(ch.focus, ch.path);
  }

  /** The listing of the whole tree around a right child and its parent's entry. */
  lemma AroundRightChild<V>(ch: Cursor<V>)
    requires ch.path != [] && !ch.path[0].isLeft
    ensures Entries(Whole(ch)) == (Before(ch.path[1..]) + Entries(ch.path[0].sibling)) +
      [Pair(ch.path[0].key, ch.path[0].value)] + (Entries(ch.focus) + After(ch.path))
  {
    PlugEntries(ch.focus, ch.path);
  }

  /** parentOf keeps the cursor on the same tree and lands on the parent's entry. */
  lemma UpWhole<V>(ch: Cursor<V>)
    requires ch.path != []
    ensures Whole(Up(ch)) == Whole(ch) && Up(ch).focus.Node?
    ensures Up(ch).focus.key == ch.path[0].key && Up(ch).focus.value == ch.path[0].value
  {
  }

  /** The climb for the ceiling of `b` stops below a parent holding that ceiling. */
  lemma CeilingAtParent<V>(root: Tree<V>, ch: Cursor<V>, b: int)
    requires Sorted(Entries(root)) && Whole(ch) == root
    requires ch.path != [] && ch.path[0].isLeft
    requires forall e :: e in Before(ch.path) ==> e.key < b
    requires forall e :: e in Entries(ch.focus) ==> e.key < b
    requires forall e :: e in After(ch.path) ==> e.key >= b
    ensures Designates(root, Up(ch)) && b <= Up(ch).focus.key
    ensures forall e :: e in Entries(root) && b <= e.key ==> Up(ch).focus.key <= e.key
    ensures Pair(Up(ch).focus.key, Up(ch).focus.value) in Entries(root)
  {
    var f := ch.path[0];
    var x := Pair(f.key, f.value);
    assert x in After(ch.path);
    AroundLeftChild(ch);
    LeastAtOrAbove(Before(ch.path), Entries(ch.focus), x, Entries(f.sibling) + After(ch.path[1..]), b);
    UpWhole(ch);
  }

  /** The climb for the floor of `b` stops below a parent holding that floor. */
  lemma FloorAtParent<V>(root: Tree<V>, ch: Cursor<V>, b: int)
    requires Sorted(Entries(root)) && Whole(ch) == root
    requires ch.path != [] && !ch.path[0].isLeft
    requires forall e :: e in Entries(ch.focus) ==> e.key > b
    requires forall e :: e in After(ch.path) ==> e.key > b
    requires forall e :: e in Before(ch.path) ==> e.key <= b
    ensures Designates(root, Up(ch)) && Up(ch).focus.key <= b
    ensures forall e :: e in Entries(root) && e.key <= b ==> e.key <= Up(ch).focus.key
    ensures Pair(Up(ch).focus.key, Up(ch).focus.value) in Entries(root)
  {
    var f := ch.path[0];
    var x := Pair(f.key, f.value);
    assert x in Before(ch.path);
    AroundRightChild(ch);
    GreatestAtOrBelow(Before(ch.path[1..]) + Entries(f.sibling), x, Entries(ch.focus), After(ch.path), b);
    UpWhole(ch);
  }

  /** A climb that reaches the root has seen every entry on one side of `b`. */
  lemma ClimbAtRoot<V>(root: Tree<V>, ch: Cursor<V>)
    requires Whole(ch) == root && ch.path == []
    ensures Entries(root) == Entries(ch.focus)
  {
  }

  /**
   * The walk up parent links that getCeilingEntry and getHigherEntry make
   * from a node with no right child: climb while the child is a right child;
   * the parent reached, if any, holds the least key at or above `b` (the
   * ceiling of `b`; the higher entry of `key` is the ceiling of `key + 1`).
   */
  method ClimbRight<V>(root: Tree<V>, p: Cursor<V>, b: int) returns (r: Option<Cursor<V>>)
    requires Sorted(Entries(root)) && Whole(p) == root
    requires forall e :: e in Before(p.path) ==> e.key < b
    requires forall e :: e in Entries(p.focus) ==> e.key < b
    requires forall e :: e in After(p.path) ==> e.key >= b
    ensures r.Some? ==> Designates(root, r.value) && b <= r.value.focus.key
    ensures r.Some? ==> forall e :: e in Entries(root) && b <= e.key ==> r.value.focus.key <= e.key
    ensures r.None? <==> forall e :: e in Entries(root) ==> e.key < b
  {
    var ch := p;
    while ch.path != [] && !ch.path[0].isLeft
      invariant Whole(ch) == root
      invariant After(ch.path) == After(p.path)
      invariant forall e :: e in Before(ch.path) ==> e.key < b
      invariant forall e :: e in Entries(ch.focus) ==> e.key < b
      decreases |ch.path|
    {
      PlugEntries(ch.focus, ch.path);
      ch := Up(ch);
    }
    if ch.path == [] {
      ClimbAtRoot(root, ch);
      forall e | e in Entries(root)
        ensures e.key < b
      {
        assert e in Entries(ch.focus);
      }
      return None;
    }
    CeilingAtParent(root, ch, b);
    return Some(Up(ch));
  }

  /**
   * The walk up parent links that getFloorEntry and getLowerEntry make from
   * a node with no left child: climb while the child is a left child; the
   * parent reached, if any, holds the greatest key at or below `b` (the
   * floor of `b`; the lower entry of `key` is the floor of `key - 1`).
   */
  method ClimbLeft<V>(root: Tree<V>, p: Cursor<V>, b: int) returns (r: Option<Cursor<V>>)
    requires Sorted(Entries(root)) && Whole(p) == root
    requires forall e :: e in Entries(p.focus) ==> e.key > b
    requires forall e :: e in After(p.path) ==> e.key > b
    requires forall e :: e in Before(p.path) ==> e.key <= b
    ensures r.Some? ==> Designates(root, r.value) && r.value.focus.key <= b
    ensures r.Some? ==> forall e :: e in Entries(root) && e.key <= b ==> e.key <= r.value.focus.key
    ensures r.None? <==> forall e :: e in Entries(root) ==> e.key > b
  {
    var ch := p;
    while ch.path != [] && ch.path[0].isLeft
      invariant Whole(ch) == root
      invariant Before(ch.path) == Before(p.path)
      invariant forall e :: e in Entries(ch.focus) ==> e.key > b
      invariant forall e :: e in After(ch.path) ==> e.key > b
      decreases |ch.path|
    {
      PlugEntries(ch.focus, ch.path);
      ch := Up(ch);
    }
    if ch.path == [] {
      ClimbAtRoot(root, ch);
      forall e | e in Entries(root)
        ensures e.key > b
      {
        assert e in Entries(ch.focus);
      }
      return None;
    }
    FloorAtParent(root, ch, b);
    return Some(Up(ch));
  }

  /** getCeilingEntry: the entry with the least key >= `key`, or null. */
  method GetCeilingEntry<V>(root: Tree<V>, key: int) returns (r: Option<Cursor<V>>)
    requires Sorted(Entries(root))
    ensures r.Some? ==> Designates(root, r.value) && key <= r.value.focus.key
    ensures r.Some? ==> forall e :: e in Entries(root) && key <= e.key ==> r.value.focus.key <= e.key
    ensures r.None? <==> forall e :: e in Entries(root) ==> e.key < key
  {
    var p := Cursor(root, []);
    while p.focus.Node?
      invariant Whole(p) == root
      invariant p.focus.Node? || p.path == []
      invariant forall e :: e in Before(p.path) ==> e.key < key
      invariant forall e :: e in After(p.path) ==> e.key > key
      decreases p.focus
    {
      FocusBounds(p);
      LeftRightWhole(p);
      if key < p.focus.key {
        if p.focus.left.Node? {
          DescendLeft(p, key, true);
          p := Left(p);
        } else {
          return Some(p);
        }
      } else if key > p.focus.key {
        if p.focus.right.Node? {
          DescendRight(p, key, true);
          p := Right(p);
        } else {
          r := ClimbRight(root, p, key);
          return;
        }
      } else {
        return Some(p);
      }
    }
    PlugEntries(p.focus, p.path);
    return None;
  }

  /** getFloorEntry: the entry with the greatest key <= `key`, or null. */
  method GetFloorEntry<V>(root: Tree<V>, key: int) returns (r: Option<Cursor<V>>)
    requires Sorted(Entries(root))
    ensures r.Some? ==> Designates(root, r.value) && r.value.focus.key <= key
    ensures r.Some? ==> forall e :: e in Entries(root) && e.key <= key ==> e.key <= r.value.focus.key
    ensures r.None? <==> forall e :: e in Entries(root) ==> e.key > key
  {
    var p := Cursor(root, []);
    while p.focus.Node?
      invariant Whole(p) == root
      invariant p.focus.Node? || p.path == []
      invariant forall e :: e in Before(p.path) ==> e.key < key
      invariant forall e :: e in After(p.path) ==> e.key > key
      decreases p.focus
    {
      FocusBounds(p);
      LeftRightWhole(p);
      if key > p.focus.key {
        if p.focus.right.Node? {
          DescendRight(p, key, true);
          p := Right(p);
        } else {
          return Some(p);
        }
      } else if key < p.focus.key {
        if p.focus.left.Node? {
          DescendLeft(p, key, true);
          p := Left(p);
        } else {
          r := ClimbLeft(root, p, key);
          return;
        }
      } else {
        return Some(p);
      }
    }
    PlugEntries(p.focus, p.path);
    return None;
  }

  /** getHigherEntry: the entry with the least key > `key`, or null. */
  method GetHigherEntry<V>(root: Tree<V>, key: int) returns (r: Option<Cursor<V>>)
    requires Sorted(Entries(root))
    ensures r.Some? ==> Designates(root, r.value) && key < r.value.focus.key
    ensures r.Some? ==> forall e :: e in Entries(root) && key < e.key ==> r.value.focus.key <= e.key
    ensures r.None? <==> forall e :: e in Entries(root) ==> e.key <= key
  {
    var p := Cursor(root, []);
    while p.focus.Node?
      invariant Whole(p) == root
      invariant p.focus.Node? || p.path == []
      invariant forall e :: e in Before(p.path) ==> e.key <= key
      invariant forall e :: e in After(p.path) ==> e.key > key
      decreases p.focus
    {
      FocusBounds(p);
      LeftRightWhole(p);
      if key < p.focus.key {
        if p.focus.left.Node? {
          DescendLeft(p, key, true);
          p := Left(p);
        } else {
          return Some(p);
        }
      } else {
        if p.focus.right.Node? {
          DescendRight(p, key, false);
          p := Right(p);
        } else {
          r := ClimbRight(root, p, key + 1);
          return;
        }
      }
    }
    PlugEntries(p.focus, p.path);
    return None;
  }

  /** getLowerEntry: the entry with the greatest key < `key`, or null. */
  method GetLowerEntry<V>(root: Tree<V>, key: int) returns (r: Option<Cursor<V>>)
    requires Sorted(Entries(root))
    ensures r.Some? ==> Designates(root, r.value) && r.value.focus.key < key
    ensures r.Some? ==> forall e :: e in Entries(root) && e.key < key ==> e.key <= r.value.focus.key
    ensures r.None? <==> forall e :: e in Entries(root) ==> e.key >= key
  {
    var p := Cursor(root, []);
    while p.focus.Node?
      invariant Whole(p) == root
      invariant p.focus.Node? || p.path == []
      invariant forall e :: e in Before(p.path) ==> e.key < key
      invariant forall e :: e in After(p.path) ==> e.key >= key
      decreases p.focus
    {
      FocusBounds(p);
      LeftRightWhole(p);
      if key > p.focus.key {
        if p.focus.right.Node? {
          DescendRight(p, key, true);
          p := Right(p);
        } else {
          return Some(p);
        }
      } else {
        if p.focus.left.Node? {
          DescendLeft(p, key, false);
          p := Left(p);
        } else {
          r := ClimbLeft(root, p, key - 1);
          return;
        }
      }
    }
    PlugEntries(p.focus, p.path);
    return None;
  }

  /** getFirstEntry: the leftmost entry, holding the least key; null on an empty tree. */
  method GetFirstEntry<V>(root: Tree<V>) returns (r: Option<Cursor<V>>)
    requires Sorted(Entries(root))
    ensures r.None? <==> root.Leaf?
    ensures r.Some? ==> Designates(root, r.value) && Index(r.value) == 0
    ensures r.Some? ==> forall e :: e in Entries(root) ==> r.value.focus.key <= e.key
  {
    if root.Leaf? {
      return None;
    }
    var p := Cursor(root, []);
    while p.focus.left.Node?
      invariant Whole(p) == root && p.focus.Node?
      invariant Before(p.path) == []
      decreases p.focus
    {
      LeftRightWhole(p);
      p := Left(p);
    }
    CursorEntry(p);
    LeastFirst(Entries(root));
    return Some(p);
  }

  /** getLastEntry: the rightmost entry, holding the greatest key; null on an empty tree. */
  method GetLastEntry<V>(root: Tree<V>) returns (r: Option<Cursor<V>>)
    requires Sorted(Entries(root))
    ensures r.None? <==> root.Leaf?
    ensures r.Some? ==> Designates(root, r.value) && Index(r.value) == |Entries(root)| - 1
    ensures r.Some? ==> forall e :: e in Entries(root) ==> e.key <= r.value.focus.key
  {
    if root.Leaf? {
      return None;
    }
    var p := Cursor(root, []);
    while p.focus.right.Node?
      invariant Whole(p) == root && p.focus.Node?
      invariant After(p.path) == []
      decreases p.focus
    {
      LeftRightWhole(p);
      p := Right(p);
    }
    RightmostIndex(p);
    CursorEntry(p);
    GreatestLast(Entries(root));
    return Some(p);
  }

  /** A node with no right child and nothing after its subtree is the last entry. */
  lemma RightmostIndex<V>(p: Cursor<V>)
    requires p.focus.Node? && p.focus.right.Leaf? && After(p.path) == []
    ensures Index(p) == |Entries(Whole(p))| - 1
  {
    PlugEntries(p.focus, p.path);
  }

  lemma LeastFirst<V>(es: seq<Pair<V>>)
    requires Sorted(es) && es != []
    ensures forall e :: e in es ==> es[0].key <= e.key
  {
    forall e | e in es
      ensures es[0].key <= e.key
    {
      var i :| 0 <= i < |es| && es[i] == e;
      assert i == 0 || es[0].key < es[i].key;
    }
  }

  lemma GreatestLast<V>(es: seq<Pair<V>>)
    requires Sorted(es) && es != []
    ensures forall e :: e in es ==> e.key <= es[|es| - 1].key
  {
    forall e | e in es
      ensures e.key <= es[|es| - 1].key
    {
      var i :| 0 <= i < |es| && es[i] == e;
      assert i == |es| - 1 || es[i].key < es[|es| - 1].key;
    }
  }

  /**
   * `s` is the leftmost node of `t`'s right subtree: its path is a run of
   * left links followed by the link from `t` to its right child.
   */
  ghost predicate LeftmostOfRight<V>(t: Cursor<V>, s: Cursor<V>)
    requires t.focus.Node?
  {
    var k := |s.path| - |t.path| - 1;
    0 <= k && s.path[k..] == Right(t).path &&
    Plug(s.focus, s.path[..k]) == t.focus.right &&
    forall i :: 0 <= i < k ==> s.path[i].isLeft
  }

  /** One step down and to the left keeps the cursor on the left spine of `t`'s right subtree. */
  lemma LeftmostStep<V>(t: Cursor<V>, p: Cursor<V>)
    requires t.focus.Node? && p.focus.Node? && p.focus.left.Node?
    requires Whole(p) == Whole(t) && Before(p.path) == Before(Right(t).path) && LeftmostOfRight(t, p)
    ensures Whole(Left(p)) == Whole(t) && Before(Left(p).path) == Before(Right(t).path)
    ensures LeftmostOfRight(t, Left(p))
  {
    LeftRightWhole(p);
    var k := |p.path| - |t.path| - 1;
    var q := Left(p);
    assert q.path[k + 1..] == p.path[k..];
    assert q.path[..k + 1] == [q.path[0]] + p.path[..k];
    assert q.path[..k + 1][1..] == p.path[..k];
    assert Attach(q.focus, q.path[0]) == p.focus;
  }

  /** successor: the entry that follows `t` in key order, or null when `t` is the last. */
  method Successor<V>(t: Cursor<V>) returns (r: Option<Cursor<V>>)
    requires t.focus.Node?
    ensures r.Some? <==> Index(t) + 1 < |Entries(Whole(t))|
    ensures r.Some? ==> Whole(r.value) == Whole(t) && r.value.focus.Node? && Index(r.value) == Index(t) + 1
    ensures t.focus.right.Node? ==> r.Some? && r.value.focus.left.Leaf? && LeftmostOfRight(t, r.value)
  {
    if t.focus.right.Node? {
      LeftRightWhole(t);
      var p := Right(t);
      while p.focus.left.Node?
        invariant p.focus.Node? && Whole(p) == Whole(t)
        invariant Before(p.path) == Before(Right(t).path)
        invariant LeftmostOfRight(t, p)
        decreases p.focus
      {
        LeftmostStep(t, p);
        p := Left(p);
      }
      CursorEntry(p);
      return Some(p);
    } else {
      var ch := t;
      while ch.path != [] && !ch.path[0].isLeft
        invariant Whole(ch) == Whole(t)
        invariant |Before(ch.path)| + |Entries(ch.focus)| == Index(t) + 1
        decreases |ch.path|
      {
        ch := Up(ch);
      }
      PlugEntries(ch.focus, ch.path);
      if ch.path == [] {
        return None;
      }
      CursorEntry(Up(ch));
      return Some(Up(ch));
    }
  }

  /** predecessor: the entry that precedes `t` in key order, or null when `t` is the first. */
  method Predecessor<V>(t: Cursor<V>) returns (r: Option<Cursor<V>>)
    requires t.focus.Node?
    ensures r.Some? <==> Index(t) > 0
    ensures r.Some? ==> Whole(r.value) == Whole(t) && r.value.focus.Node? && Index(r.value) == Index(t) - 1
  {
    if t.focus.left.Node? {
      LeftRightWhole(t);
      var p := Left(t);
      while p.focus.right.Node?
        invariant p.focus.Node? && Whole(p) == Whole(t)
        invariant |Before(p.path)| + |Entries(p.focus)| == Index(t)
        decreases p.focus
      {
        LeftRightWhole(p);
        p := Right(p);
      }
      return Some(p);
    } else {
      var ch := t;
      while ch.path != [] && ch.path[0].isLeft
        invariant Whole(ch) == Whole(t)
        invariant Before(ch.path) == Before(t.path)
        decreases |ch.path|
      {
        ch := Up(ch);
      }
      if ch.path == [] {
        return None;
      }
      return Some(Up(ch));
    }
  }
}
