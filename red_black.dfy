/**
 * The node store of TreeIntObjectMap as a value: a red-black tree of int keys.
 *
 * A Java `Entry` reference is a `Cursor`: the subtree rooted at that entry
 * (`focus`) together with the chain of its ancestors (`path`, nearest first).
 * Following `parent` is popping a frame; each frame remembers on which side
 * the child hangs, the ancestor's colour, key and value, and the other child.
 */
module RedBlackTrees {

  // RED = false and BLACK = true in the source; only the distinction matters.
  datatype Color = Red | Black

  /** A key and its value, in the order the map iterates them. */
  datatype Pair<V> = Pair(key: int, value: V)

  datatype Tree<V> = Leaf | Node(color: Color, left: Tree<V>, key: int, value: V, right: Tree<V>)

  /** colorOf: a missing (null) node counts as black. */
  function ColorOf<V>(t: Tree<V>): Color
  {
    if t.Node? then t.color else Black
  }

  /** setColor: recolour a node; does nothing to a missing one. */
  function Paint<V>(t: Tree<V>, c: Color): Tree<V>
  {
    if t.Node? then t.(color := c) else t
  }

  /** The in-order sequence of the tree's entries. */
  function Entries<V>(t: Tree<V>): seq<Pair<V>>
  {
    match t
    case Leaf => []
    case Node(_, l, k, v, r) => Entries(l) + [Pair(k, v)] + Entries(r)
  }

  function KeysOf<V>(es: seq<Pair<V>>): seq<int>
  {
    seq(|es|, i requires 0 <= i < |es| => es[i].key)
  }

  /** Strict binary-search-tree order: keys strictly increase in order. */
  predicate Sorted<V>(es: seq<Pair<V>>)
  {
    forall i, j :: 0 <= i < j < |es| ==> es[i].key < es[j].key
  }

  /** Number of black nodes on the leftmost path (the black height). */
  function BlackHeight<V>(t: Tree<V>): nat
  {
    match t
    case Leaf => 0
    case Node(c, l, _, _, _) => BlackHeight(l) + (if c == Black then 1 else 0)
  }

  /** Every path from a node down to a leaf crosses the same number of black nodes. */
  predicate Balanced<V>(t: Tree<V>)
  {
    match t
    case Leaf => true
    case Node(_, l, _, _, r) => Balanced(l) && Balanced(r) && BlackHeight(l) == BlackHeight(r)
  }

  /** No red node has a red child. */
  predicate NoRedRed<V>(t: Tree<V>)
  {
    match t
    case Leaf => true
    case Node(c, l, _, _, r) =>
      NoRedRed(l) && NoRedRed(r) && (c == Red ==> ColorOf(l) == Black && ColorOf(r) == Black)
  }

  /** The red-black invariants the map keeps between operations. */
  predicate IsRedBlack<V>(t: Tree<V>)
  {
    Sorted(Entries(t)) && Balanced(t) && NoRedRed(t) && ColorOf(t) == Black
  }

  // ---------------------------------------------------------------------
  // Rotations (rotateLeft / rotateRight, on the subtree they restructure)

  function RotateLeft<V>(t: Tree<V>): Tree<V>
    requires t.Node? && t.right.Node?
  {
    var r := t.right;
    Node(r.color, Node(t.color, t.left, t.key, t.value, r.left), r.key, r.value, r.right)
  }

  function RotateRight<V>(t: Tree<V>): Tree<V>
    requires t.Node? && t.left.Node?
  {
    var l := t.left;
    Node(l.color, l.left, l.key, l.value, Node(t.color, l.right, t.key, t.value, t.right))
  }

  /** Rotations preserve the in-order sequence. */
  lemma RotateLeftEntries<V>(t: Tree<V>)
    requires t.Node? && t.right.Node?
    ensures Entries(RotateLeft(t)) == Entries(t)
  {
    var r := t.right;
    var a, b, c := Entries(t.left), [Pair(t.key, t.value)], Entries(r.left);
    var d, e := [Pair(r.key, r.value)], Entries(r.right);
    assert Entries(r) == c + d + e;
    assert Entries(t) == a + b + (c + d + e);
    assert Entries(RotateLeft(t)) == (a + b + c) + d + e;
    RegroupFive(a, b, c, d, e);
  }

  lemma RotateRightEntries<V>(t: Tree<V>)
    requires t.Node? && t.left.Node?
    ensures Entries(RotateRight(t)) == Entries(t)
  {
    var l := t.left;
    var a, b, c := Entries(l.left), [Pair(l.key, l.value)], Entries(l.right);
    var d, e := [Pair(t.key, t.value)], Entries(t.right);
    assert Entries(l) == a + b + c;
    assert Entries(t) == (a + b + c) + d + e;
    assert Entries(RotateRight(t)) == a + b + (c + d + e);
    RegroupFive(a, b, c, d, e);
  }

  /** Regrouping five concatenated pieces. */
  lemma RegroupFive<T>(a: seq<T>, b: seq<T>, c: seq<T>, d: seq<T>, e: seq<T>)
    ensures (a + b + c) + d + e == a + b + (c + d + e)
  {
  }

  // ---------------------------------------------------------------------
  // Cursors: an entry together with its chain of parents

  /** One parent link: the child hangs on the left iff `isLeft`. */
  datatype Frame<V> = Frame(isLeft: bool, color: Color, key: int, value: V, sibling: Tree<V>)

  datatype Cursor<V> = Cursor(focus: Tree<V>, path: seq<Frame<V>>)

  /** The parent's subtree, rebuilt around the child `t`. */
  function Attach<V>(t: Tree<V>, f: Frame<V>): Tree<V>
  {
    if f.isLeft then Node(f.color, t, f.key, f.value, f.sibling)
    else Node(f.color, f.sibling, f.key, f.value, t)
  }

  /** The whole tree, rebuilt from a subtree and its ancestors. */
  function Plug<V>(t: Tree<V>, path: seq<Frame<V>>): Tree<V>
    decreases |path|
  {
    if path == [] then t else Plug(Attach(t, path[0]), path[1..])
  }

  function Whole<V>(c: Cursor<V>): Tree<V>
  {
    Plug(c.focus, c.path)
  }

  /** parentOf: move the cursor one link up. */
  function Up<V>(c: Cursor<V>): Cursor<V>
    requires c.path != []
  {
    Cursor(Attach(c.focus, c.path[0]), c.path[1..])
  }

  /** The entries of the whole tree that come before the focus subtree. */
  function Before<V>(path: seq<Frame<V>>): seq<Pair<V>>
    decreases |path|
  {
    if path == [] then []
    else if path[0].isLeft then Before(path[1..])
    else Before(path[1..]) + Entries(path[0].sibling) + [Pair(path[0].key, path[0].value)]
  }

  /** The entries of the whole tree that come after the focus subtree. */
  function After<V>(path: seq<Frame<V>>): seq<Pair<V>>
    decreases |path|
  {
    if path == [] then []
    else if path[0].isLeft then [Pair(path[0].key, path[0].value)] + Entries(path[0].sibling) + After(path[1..])
    else After(path[1..])
  }

  lemma {:induction false} PlugEntries<V>(t: Tree<V>, path: seq<Frame<V>>)
    ensures Entries(Plug(t, path)) == Before(path) + Entries(t) + After(path)
    decreases |path|
  {
    if path != [] {
      PlugEntries(Attach(t, path[0]), path[1..]);
    }
  }

  /** Position of the cursor's entry in the in-order sequence. */
  function Index<V>(c: Cursor<V>): nat
    requires c.focus.Node?
  {
    |Before(c.path)| + |Entries(c.focus.left)|
  }

  lemma CursorEntry<V>(c: Cursor<V>)
    requires c.focus.Node?
    ensures Index(c) < |Entries(Whole(c))|
    ensures Entries(Whole(c))[Index(c)] == Pair(c.focus.key, c.focus.value)
  {
    PlugEntries(c.focus, c.path);
  }

  /** Plugging along a concatenated path is plugging twice. */
  lemma {:induction false} PlugAppend<V>(t: Tree<V>, a: seq<Frame<V>>, b: seq<Frame<V>>)
    ensures Plug(t, a + b) == Plug(Plug(t, a), b)
    decreases |a|
  {
    if a == [] {
      assert a + b == b;
    } else {
      assert (a + b)[1..] == a[1..] + b;
      PlugAppend(Attach(t, a[0]), a[1..], b);
    }
  }

  // ---------------------------------------------------------------------
  // The invariants seen from a cursor

  /** Plugging along a path of two or more frames, two frames at a time. */
  lemma PlugTwo<V>(t: Tree<V>, path: seq<Frame<V>>)
    requires |path| >= 2
    ensures Plug(t, path) == Plug(Attach(Attach(t, path[0]), path[1]), path[2..])
  {
    assert path[1..][0] == path[1] && path[1..][1..] == path[2..];
  }

  /** Subtrees with the same entries give whole trees with the same entries. */
  lemma SameEntries<V>(a: Tree<V>, b: Tree<V>, path: seq<Frame<V>>)
    requires Entries(a) == Entries(b)
    ensures Entries(Plug(a, path)) == Entries(Plug(b, path))
  {
    PlugEntries(a, path);
    PlugEntries(b, path);
  }

  /** A subtree of black height 0 is empty or a single red node. */
  lemma ZeroHeightSmall<V>(t: Tree<V>)
    requires Balanced(t) && NoRedRed(t) && BlackHeight(t) == 0
    ensures |Entries(t)| <= 1
  {
    if t.Node? {
      assert t.left.Leaf? && t.right.Leaf?;
    }
  }

  /**
   * Whatever shape balancing gives it, a tree with three entries that keeps
   * the black-height and red-red rules has the middle entry at its root and
   * one entry on each side.
   */
  lemma ThreeEntryShape<V>(t: Tree<V>)
    requires Balanced(t) && NoRedRed(t) && |Entries(t)| == 3
    ensures t.Node? && t.left.Node? && t.right.Node?
    ensures Pair(t.key, t.value) == Entries(t)[1]
  {
    if BlackHeight(t.left) == 0 {
      ZeroHeightSmall(t.left);
      ZeroHeightSmall(t.right);
    }
    assert |Entries(t.left)| == 1;
  }

  /** Black height the parent subtree has when the child subtree has black height h. */
  function Above<V>(f: Frame<V>, h: nat): nat
  {
    h + (if f.color == Black then 1 else 0)
  }

  /** Every sibling along the path is balanced with the black height its level needs. */
  predicate PathBalanced<V>(path: seq<Frame<V>>, h: nat)
    decreases |path|
  {
    path == [] ||
    (Balanced(path[0].sibling) && BlackHeight(path[0].sibling) == h &&
     PathBalanced(path[1..], Above(path[0], h)))
  }

  /** No red-red link along the path, when the focus subtree has root colour c. */
  predicate PathNoRedRed<V>(path: seq<Frame<V>>, c: Color)
    decreases |path|
  {
    path == [] ||
    (NoRedRed(path[0].sibling) &&
     (path[0].color == Red ==> c == Black && ColorOf(path[0].sibling) == Black) &&
     PathNoRedRed(path[1..], path[0].color))
  }

  lemma {:induction false} PlugBalanced<V>(t: Tree<V>, path: seq<Frame<V>>)
    ensures Balanced(Plug(t, path)) <==> Balanced(t) && PathBalanced(path, BlackHeight(t))
    decreases |path|
  {
    if path != [] {
      PlugBalanced(Attach(t, path[0]), path[1..]);
    }
  }

  lemma {:induction false} PlugNoRedRed<V>(t: Tree<V>, path: seq<Frame<V>>)
    ensures NoRedRed(Plug(t, path)) <==> NoRedRed(t) && PathNoRedRed(path, ColorOf(t))
    decreases |path|
  {
    if path != [] {
      PlugNoRedRed(Attach(t, path[0]), path[1..]);
    }
  }

  /** The colour of the root, as seen from a cursor. */
  lemma {:induction false} PlugColor<V>(t: Tree<V>, path: seq<Frame<V>>)
    ensures ColorOf(Plug(t, path)) == if path == [] then ColorOf(t) else path[|path| - 1].color
    decreases |path|
  {
    if path != [] {
      PlugColor(Attach(t, path[0]), path[1..]);
    }
  }

  // ---------------------------------------------------------------------
  // Moving a cursor down, and what the search-tree order then tells

  /** p.left, as a cursor. */
  function Left<V>(c: Cursor<V>): Cursor<V>
    requires c.focus.Node?
  {
    Cursor(c.focus.left, [Frame(true, c.focus.color, c.focus.key, c.focus.value, c.focus.right)] + c.path)
  }

  /** p.right, as a cursor. */
  function Right<V>(c: Cursor<V>): Cursor<V>
    requires c.focus.Node?
  {
    Cursor(c.focus.right, [Frame(false, c.focus.color, c.focus.key, c.focus.value, c.focus.left)] + c.path)
  }

  lemma LeftRightWhole<V>(c: Cursor<V>)
    requires c.focus.Node?
    ensures Whole(Left(c)) == Whole(c) && Whole(Right(c)) == Whole(c)
    ensures Up(Left(c)) == c && Up(Right(c)) == c
    ensures Before(Left(c).path) == Before(c.path)
    ensures After(Left(c).path) == [Pair(c.focus.key, c.focus.value)] + Entries(c.focus.right) + After(c.path)
    ensures Before(Right(c).path) == Before(c.path) + Entries(c.focus.left) + [Pair(c.focus.key, c.focus.value)]
    ensures After(Right(c).path) == After(c.path)
  {
    assert Left(c).path[1..] == c.path;
    assert Right(c).path[1..] == c.path;
  }

  lemma {:induction false} SortedSplit<V>(a: seq<Pair<V>>, b: seq<Pair<V>>)
    requires Sorted(a + b)
    ensures Sorted(a) && Sorted(b)
    ensures forall x, y :: x in a && y in b ==> x.key < y.key
  {
    assert forall i :: 0 <= i < |a| ==> (a + b)[i] == a[i];
    assert forall i :: 0 <= i < |b| ==> (a + b)[|a| + i] == b[i];
    forall x, y | x in a && y in b
      ensures x.key < y.key
    {
      var i :| 0 <= i < |a| && a[i] == x;
      var j :| 0 <= j < |b| && b[j] == y;
      assert (a + b)[i] == x && (a + b)[|a| + j] == y;
    }
  }

  /** The in-order sequence around a node: before, left subtree, the node, right subtree, after. */
  lemma FocusEntries<V>(c: Cursor<V>)
    requires c.focus.Node?
    ensures Entries(Whole(c)) == Before(c.path) + Entries(c.focus.left) +
              [Pair(c.focus.key, c.focus.value)] + Entries(c.focus.right) + After(c.path)
    ensures Entries(Whole(c)) == (Before(c.path) + Entries(c.focus.left)) +
              ([Pair(c.focus.key, c.focus.value)] + (Entries(c.focus.right) + After(c.path)))
  {
    var p := Pair(c.focus.key, c.focus.value);
    var a, l, r, z := Before(c.path), Entries(c.focus.left), Entries(c.focus.right), After(c.path);
    PlugEntries(c.focus, c.path);
    assert Entries(c.focus) == l + [p] + r;
    Regroup(a, l, [p], r, z);
  }

  lemma Regroup<T>(a: seq<T>, l: seq<T>, p: seq<T>, r: seq<T>, z: seq<T>)
    ensures a + (l + p + r) + z == a + l + p + r + z
    ensures a + l + p + r + z == (a + l) + (p + (r + z))
  {
  }

  /**
   * Around a node of a search tree: everything before it has a smaller key,
   * everything after it a larger one.
   */
  lemma FocusBounds<V>(c: Cursor<V>)
    requires c.focus.Node? && Sorted(Entries(Whole(c)))
    ensures Entries(Whole(c)) == Before(c.path) + Entries(c.focus.left) +
              [Pair(c.focus.key, c.focus.value)] + Entries(c.focus.right) + After(c.path)
    ensures forall e :: e in Before(c.path) ==> e.key < c.focus.key
    ensures forall e :: e in Entries(c.focus.left) ==> e.key < c.focus.key
    ensures forall e :: e in Entries(c.focus.right) ==> e.key > c.focus.key
    ensures forall e :: e in After(c.path) ==> e.key > c.focus.key
  {
    var p := Pair(c.focus.key, c.focus.value);
    var a, l, r, z := Before(c.path), Entries(c.focus.left), Entries(c.focus.right), After(c.path);
    FocusEntries(c);
    SortedSplit(a + l, [p] + (r + z));
    SortedSplit([p], r + z);
    assert p in [p] + (r + z);
    forall e | e in a || e in l
      ensures e.key < c.focus.key
    {
      assert e in a + l;
    }
    forall e | e in r || e in z
      ensures e.key > c.focus.key
    {
      assert e in r + z;
    }
  }

  lemma SplitAround<T>(a: seq<T>, x: T, b: seq<T>, y: T)
    ensures (a + ([x] + b))[..|a|] == a && (a + ([x] + b))[|a| + 1..] == b
    ensures (a + ([x] + b))[|a| := y] == a + ([y] + b)
  {
  }

  /**
   * Overwriting the key and value of the cursor's node (setValue, or the
   * successor copy in deleteEntry) overwrites one position of the in-order
   * sequence and keeps the shape and colours.
   */
  lemma ReplacePair<V>(c: Cursor<V>, k: int, v: V)
    requires c.focus.Node?
    ensures var d := Cursor(c.focus.(key := k, value := v), c.path);
      Index(d) == Index(c) && Index(c) < |Entries(Whole(c))| &&
      Entries(Whole(d)) == Entries(Whole(c))[Index(c) := Pair(k, v)] &&
      Balanced(Whole(d)) == Balanced(Whole(c)) && NoRedRed(Whole(d)) == NoRedRed(Whole(c)) &&
      ColorOf(Whole(d)) == ColorOf(Whole(c))
  {
    var d := Cursor(c.focus.(key := k, value := v), c.path);
    FocusEntries(c);
    FocusEntries(d);
    var a := Before(c.path) + Entries(c.focus.left);
    SplitAround(a, Pair(c.focus.key, c.focus.value), Entries(c.focus.right) + After(c.path), Pair(k, v));
    PlugBalanced(c.focus, c.path);
    PlugBalanced(d.focus, d.path);
    PlugNoRedRed(c.focus, c.path);
    PlugNoRedRed(d.focus, d.path);
    PlugColor(c.focus, c.path);
    PlugColor(d.focus, d.path);
  }
}
