/**
 * deleteEntry and fixAfterDeletion. The node removed from the tree is
 * replaced by its only child, or by an empty position when it has none;
 * fixAfterDeletion then repairs the black height, one recolouring or
 * rotation at a time, as a move of the cursor `x`.
 */
module Deletion {
  import opened RedBlackTrees
  import opened Navigation

  /**
   * What the loop keeps: the subtree at `x` is one black node short of what
   * its position needs, and it has no red-red link once its root is black.
   */
  ghost predicate Deficient<V>(x: Cursor<V>)
  {
    Balanced(x.focus) && PathBalanced(x.path, BlackHeight(x.focus) + 1) &&
    NoRedRed(Paint(x.focus, Black)) && PathNoRedRed(x.path, Black) &&
    (x.path != [] ==> x.path[|x.path| - 1].color == Black)
  }

  /** Case 1, x a left child: sibling black, parent red, rotateLeft at the parent. */
  function RedSiblingLeft<V>(x: Cursor<V>): Cursor<V>
    requires x.path != [] && x.path[0].sibling.Node?
  {
    var p := x.path[0];
    var s := p.sibling;
    Cursor(x.focus, [Frame(true, Red, p.key, p.value, s.left), Frame(true, Black, s.key, s.value, s.right)] + x.path[1..])
  }

  /** Case 1, x a right child: sibling black, parent red, rotateRight at the parent. */
  function RedSiblingRight<V>(x: Cursor<V>): Cursor<V>
    requires x.path != [] && x.path[0].sibling.Node?
  {
    var p := x.path[0];
    var s := p.sibling;
    Cursor(x.focus, [Frame(false, Red, p.key, p.value, s.right), Frame(false, Black, s.key, s.value, s.left)] + x.path[1..])
  }

  /** Case 2: the sibling turns red and `x` moves to the parent. */
  function RecolorUp<V>(x: Cursor<V>): Cursor<V>
    requires x.path != []
  {
    var p := x.path[0];
    Cursor(Attach(x.focus, p.(sibling := Paint(p.sibling, Red))), x.path[1..])
  }

  /** Case 3, x a left child: the sibling's left child black, the sibling red, rotateRight at the sibling. */
  function NearNephewLeft<V>(x: Cursor<V>): Cursor<V>
    requires x.path != [] && x.path[0].sibling.Node? && x.path[0].sibling.left.Node?
  {
    var p := x.path[0];
    var s := p.sibling;
    var n := s.left;
    Cursor(x.focus, [p.(sibling := Node(Black, n.left, n.key, n.value, Node(Red, n.right, s.key, s.value, s.right)))] + x.path[1..])
  }

  /** Case 3, x a right child: the sibling's right child black, the sibling red, rotateLeft at the sibling. */
  function NearNephewRight<V>(x: Cursor<V>): Cursor<V>
    requires x.path != [] && x.path[0].sibling.Node? && x.path[0].sibling.right.Node?
  {
    var p := x.path[0];
    var s := p.sibling;
    var n := s.right;
    Cursor(x.focus, [p.(sibling := Node(Black, Node(Red, s.left, s.key, s.value, n.left), n.key, n.value, n.right))] + x.path[1..])
  }

  /**
   * Case 4, x a left child: the sibling takes the parent's colour, the parent
   * and the far nephew turn black, rotateLeft at the parent; x = root.
   */
  function FarNephewLeft<V>(x: Cursor<V>): Cursor<V>
    requires x.path != [] && x.path[0].sibling.Node?
  {
    var p := x.path[0];
    var s := p.sibling;
    var top := Node(p.color, Node(Black, x.focus, p.key, p.value, s.left), s.key, s.value, Paint(s.right, Black));
    Cursor(Plug(top, x.path[1..]), [])
  }

  /** Case 4, x a right child: the mirror image, with rotateRight at the parent. */
  function FarNephewRight<V>(x: Cursor<V>): Cursor<V>
    requires x.path != [] && x.path[0].sibling.Node?
  {
    var p := x.path[0];
    var s := p.sibling;
    var top := Node(p.color, Paint(s.left, Black), s.key, s.value, Node(Black, s.right, p.key, p.value, x.focus));
    Cursor(Plug(top, x.path[1..]), [])
  }

  // ---------------------------------------------------------------------
  // What each step keeps

  /** The facts about the parent frame that every case reads. */
  lemma ParentFacts<V>(x: Cursor<V>)
    requires Deficient(x) && x.path != []
    ensures Balanced(x.path[0].sibling) && BlackHeight(x.path[0].sibling) == BlackHeight(x.focus) + 1
    ensures x.path[0].sibling.Node? && NoRedRed(x.path[0].sibling)
    ensures x.path[0].color == Red ==> ColorOf(x.path[0].sibling) == Black
    ensures PathBalanced(x.path[1..], Above(x.path[0], BlackHeight(x.focus) + 1))
    ensures PathNoRedRed(x.path[1..], x.path[0].color)
    ensures x.path[1..] != [] ==> x.path[1..][|x.path[1..]| - 1].color == Black
    ensures x.path[1..] == [] ==> x.path[0].color == Black
  {
  }

  /** A path is checked less strictly below a black node than below a red one. */
  lemma {:induction false} PathNoRedRedBlack<V>(path: seq<Frame<V>>, c: Color)
    requires PathNoRedRed(path, c)
    ensures PathNoRedRed(path, Black)
  {
  }

  lemma RedSiblingLeftKeeps<V>(x: Cursor<V>)
    requires Deficient(x) && x.path != [] && x.path[0].isLeft
    requires ColorOf(x.focus) == Black && ColorOf(x.path[0].sibling) == Red
    ensures x.path[0].sibling.Node?
    ensures Deficient(RedSiblingLeft(x)) && Entries(Whole(RedSiblingLeft(x))) == Entries(Whole(x))
    ensures var y := RedSiblingLeft(x);
      y.focus == x.focus && |y.path| == |x.path| + 1 && y.path[0].isLeft && y.path[0].color == Red &&
      ColorOf(y.path[0].sibling) == Black
  {
    ParentFacts(x);
    var p, s := x.path[0], x.path[0].sibling;
    var y := RedSiblingLeft(x);
    assert y.path[1..] == [y.path[1]] + x.path[1..] && y.path[1..][1..] == x.path[1..];
    assert y.path[2..] == x.path[1..];
    var old1 := Attach(x.focus, p);
    var new2 := Attach(Attach(x.focus, y.path[0]), y.path[1]);
    var rotated := RotateLeft(old1);
    assert Entries(new2) == Entries(rotated.left) + [Pair(rotated.key, rotated.value)] + Entries(rotated.right);
    RotateLeftEntries(old1);
    PlugTwo(x.focus, y.path);
    SameEntries(new2, old1, x.path[1..]);
  }

  lemma RedSiblingRightKeeps<V>(x: Cursor<V>)
    requires Deficient(x) && x.path != [] && !x.path[0].isLeft
    requires ColorOf(x.focus) == Black && ColorOf(x.path[0].sibling) == Red
    ensures x.path[0].sibling.Node?
    ensures Deficient(RedSiblingRight(x)) && Entries(Whole(RedSiblingRight(x))) == Entries(Whole(x))
    ensures var y := RedSiblingRight(x);
      y.focus == x.focus && |y.path| == |x.path| + 1 && !y.path[0].isLeft && y.path[0].color == Red &&
      ColorOf(y.path[0].sibling) == Black
  {
    ParentFacts(x);
    var p, s := x.path[0], x.path[0].sibling;
    var y := RedSiblingRight(x);
    assert y.path[1..] == [y.path[1]] + x.path[1..] && y.path[1..][1..] == x.path[1..];
    assert y.path[2..] == x.path[1..];
    var old1 := Attach(x.focus, p);
    var new2 := Attach(Attach(x.focus, y.path[0]), y.path[1]);
    var rotated := RotateRight(old1);
    assert Entries(new2) == Entries(rotated.left) + [Pair(rotated.key, rotated.value)] + Entries(rotated.right);
    RotateRightEntries(old1);
    PlugTwo(x.focus, y.path);
    SameEntries(new2, old1, x.path[1..]);
  }

  lemma RecolorUpKeeps<V>(x: Cursor<V>)
    requires Deficient(x) && x.path != [] && ColorOf(x.focus) == Black
    requires ColorOf(x.path[0].sibling) == Black
    requires ColorOf(x.path[0].sibling.left) == Black && ColorOf(x.path[0].sibling.right) == Black
    ensures Deficient(RecolorUp(x)) && Entries(Whole(RecolorUp(x))) == Entries(Whole(x))
    ensures RecolorUp(x).path == x.path[1..] && ColorOf(RecolorUp(x).focus) == x.path[0].color
  {
    ParentFacts(x);
    var p := x.path[0];
    var y := RecolorUp(x);
    PathNoRedRedBlack(x.path[1..], p.color);
    assert Entries(y.focus) == Entries(Attach(x.focus, p));
    SameEntries(y.focus, Attach(x.focus, p), x.path[1..]);
  }

  lemma NearNephewLeftKeeps<V>(x: Cursor<V>)
    requires Deficient(x) && x.path != [] && x.path[0].isLeft && ColorOf(x.focus) == Black
    requires ColorOf(x.path[0].sibling) == Black
    requires ColorOf(x.path[0].sibling.left) == Red && ColorOf(x.path[0].sibling.right) == Black
    ensures x.path[0].sibling.Node? && x.path[0].sibling.left.Node?
    ensures Deficient(NearNephewLeft(x)) && Entries(Whole(NearNephewLeft(x))) == Entries(Whole(x))
    ensures var y := NearNephewLeft(x);
      y.focus == x.focus && y.path[1..] == x.path[1..] && y.path[0].isLeft && y.path[0].color == x.path[0].color &&
      ColorOf(y.path[0].sibling) == Black && y.path[0].sibling.Node? && ColorOf(y.path[0].sibling.right) == Red
  {
    ParentFacts(x);
    var p, s := x.path[0], x.path[0].sibling;
    var y := NearNephewLeft(x);
    var h := BlackHeight(x.focus);
    var n := s.left;
    assert BlackHeight(s.left) == h && BlackHeight(s.right) == h && Balanced(n) && NoRedRed(n);
    assert BlackHeight(n.left) == h && BlackHeight(n.right) == h;
    var inner := Node(Red, n.right, s.key, s.value, s.right);
    assert Balanced(inner) && BlackHeight(inner) == h && NoRedRed(inner);
    var s2 := y.path[0].sibling;
    assert Balanced(s2) && BlackHeight(s2) == h + 1 && NoRedRed(s2);
    assert y.path[1..] == x.path[1..];
    var rotated := RotateRight(s);
    RotateRightEntries(s);
    assert Entries(y.path[0].sibling) == Entries(rotated.left) + [Pair(rotated.key, rotated.value)] + Entries(rotated.right);
    assert Entries(Attach(x.focus, y.path[0])) == Entries(Attach(x.focus, p));
    SameEntries(Attach(x.focus, y.path[0]), Attach(x.focus, p), x.path[1..]);
  }

  lemma NearNephewRightKeeps<V>(x: Cursor<V>)
    requires Deficient(x) && x.path != [] && !x.path[0].isLeft && ColorOf(x.focus) == Black
    requires ColorOf(x.path[0].sibling) == Black
    requires ColorOf(x.path[0].sibling.right) == Red && ColorOf(x.path[0].sibling.left) == Black
    ensures x.path[0].sibling.Node? && x.path[0].sibling.right.Node?
    ensures Deficient(NearNephewRight(x)) && Entries(Whole(NearNephewRight(x))) == Entries(Whole(x))
    ensures var y := NearNephewRight(x);
      y.focus == x.focus && y.path[1..] == x.path[1..] && !y.path[0].isLeft && y.path[0].color == x.path[0].color &&
      ColorOf(y.path[0].sibling) == Black && y.path[0].sibling.Node? && ColorOf(y.path[0].sibling.left) == Red
  {
    ParentFacts(x);
    var p, s := x.path[0], x.path[0].sibling;
    var y := NearNephewRight(x);
    var h := BlackHeight(x.focus);
    var n := s.right;
    assert BlackHeight(s.left) == h && BlackHeight(s.right) == h && Balanced(n) && NoRedRed(n);
    assert BlackHeight(n.left) == h && BlackHeight(n.right) == h;
    var inner := Node(Red, s.left, s.key, s.value, n.left);
    assert Balanced(inner) && BlackHeight(inner) == h && NoRedRed(inner);
    var s2 := y.path[0].sibling;
    assert Balanced(s2) && BlackHeight(s2) == h + 1 && NoRedRed(s2);
    assert y.path[1..] == x.path[1..];
    var rotated := RotateLeft(s);
    RotateLeftEntries(s);
    assert Entries(y.path[0].sibling) == Entries(rotated.left) + [Pair(rotated.key, rotated.value)] + Entries(rotated.right);
    assert Entries(Attach(x.focus, y.path[0])) == Entries(Attach(x.focus, p));
    SameEntries(Attach(x.focus, y.path[0]), Attach(x.focus, p), x.path[1..]);
  }

  lemma FarNephewLeftKeeps<V>(x: Cursor<V>)
    requires Deficient(x) && x.path != [] && x.path[0].isLeft && ColorOf(x.focus) == Black
    requires ColorOf(x.path[0].sibling) == Black && ColorOf(x.path[0].sibling.right) == Red
    ensures x.path[0].sibling.Node?
    ensures Deficient(FarNephewLeft(x)) && Entries(Whole(FarNephewLeft(x))) == Entries(Whole(x))
    ensures FarNephewLeft(x).path == []
  {
    ParentFacts(x);
    var p, s := x.path[0], x.path[0].sibling;
    var h := BlackHeight(x.focus);
    var inner := Node(Black, x.focus, p.key, p.value, s.left);
    var far := Paint(s.right, Black);
    assert NoRedRed(x.focus);
    assert BlackHeight(s.left) == h && BlackHeight(s.right) == h && Balanced(s.left) && Balanced(s.right);
    assert Balanced(inner) && BlackHeight(inner) == h + 1 && NoRedRed(inner);
    assert Balanced(far) && BlackHeight(far) == h + 1 && NoRedRed(far);
    var t := Node(p.color, inner, s.key, s.value, far);
    assert Balanced(t) && BlackHeight(t) == Above(p, h + 1) && NoRedRed(t);
    PlugBalanced(t, x.path[1..]);
    PlugNoRedRed(t, x.path[1..]);
    var old1 := Attach(x.focus, p);
    var rotated := RotateLeft(old1);
    RotateLeftEntries(old1);
    assert Entries(t) == Entries(rotated.left) + [Pair(rotated.key, rotated.value)] + Entries(rotated.right);
    SameEntries(t, old1, x.path[1..]);
  }

  lemma FarNephewRightKeeps<V>(x: Cursor<V>)
    requires Deficient(x) && x.path != [] && !x.path[0].isLeft && ColorOf(x.focus) == Black
    requires ColorOf(x.path[0].sibling) == Black && ColorOf(x.path[0].sibling.left) == Red
    ensures x.path[0].sibling.Node?
    ensures Deficient(FarNephewRight(x)) && Entries(Whole(FarNephewRight(x))) == Entries(Whole(x))
    ensures FarNephewRight(x).path == []
  {
    ParentFacts(x);
    var p, s := x.path[0], x.path[0].sibling;
    var h := BlackHeight(x.focus);
    var inner := Node(Black, s.right, p.key, p.value, x.focus);
    var far := Paint(s.left, Black);
    assert NoRedRed(x.focus);
    assert BlackHeight(s.left) == h && BlackHeight(s.right) == h && Balanced(s.left) && Balanced(s.right);
    assert Balanced(inner) && BlackHeight(inner) == h + 1 && NoRedRed(inner);
    assert Balanced(far) && BlackHeight(far) == h + 1 && NoRedRed(far);
    var t := Node(p.color, far, s.key, s.value, inner);
    assert Balanced(t) && BlackHeight(t) == Above(p, h + 1) && NoRedRed(t);
    PlugBalanced(t, x.path[1..]);
    PlugNoRedRed(t, x.path[1..]);
    var old1 := Attach(x.focus, p);
    var rotated := RotateRight(old1);
    RotateRightEntries(old1);
    assert Entries(t) == Entries(rotated.left) + [Pair(rotated.key, rotated.value)] + Entries(rotated.right);
    SameEntries(t, old1, x.path[1..]);
  }

  /** One pass of fixAfterDeletion's loop when `x` is a left child. */
  method FixLeftStep<V>(x0: Cursor<V>) returns (x: Cursor<V>)
    requires Deficient(x0) && x0.path != [] && x0.path[0].isLeft && ColorOf(x0.focus) == Black
    ensures Deficient(x) && Entries(Whole(x)) == Entries(Whole(x0))
    ensures |x.path| + (if ColorOf(x.focus) == Black then 1 else 0) < |x0.path| + 1
  {
    x := x0;
    if ColorOf(x.path[0].sibling) == Red {
      RedSiblingLeftKeeps(x);
      x := RedSiblingLeft(x);
    }
    ParentFacts(x);
    var sib := x.path[0].sibling;
    if ColorOf(sib.left) == Black && ColorOf(sib.right) == Black {
      RecolorUpKeeps(x);
      x := RecolorUp(x);
    } else {
      if ColorOf(sib.right) == Black {
        NearNephewLeftKeeps(x);
        x := NearNephewLeft(x);
      }
      FarNephewLeftKeeps(x);
      x := FarNephewLeft(x);
    }
  }

  /** One pass of fixAfterDeletion's loop when `x` is a right child: the mirror image. */
  method FixRightStep<V>(x0: Cursor<V>) returns (x: Cursor<V>)
    requires Deficient(x0) && x0.path != [] && !x0.path[0].isLeft && ColorOf(x0.focus) == Black
    ensures Deficient(x) && Entries(Whole(x)) == Entries(Whole(x0))
    ensures |x.path| + (if ColorOf(x.focus) == Black then 1 else 0) < |x0.path| + 1
  {
    x := x0;
    if ColorOf(x.path[0].sibling) == Red {
      RedSiblingRightKeeps(x);
      x := RedSiblingRight(x);
    }
    ParentFacts(x);
    var sib := x.path[0].sibling;
    if ColorOf(sib.right) == Black && ColorOf(sib.left) == Black {
      RecolorUpKeeps(x);
      x := RecolorUp(x);
    } else {
      if ColorOf(sib.left) == Black {
        NearNephewRightKeeps(x);
        x := NearNephewRight(x);
      }
      FarNephewRightKeeps(x);
      x := FarNephewRight(x);
    }
  }

  /** fixAfterDeletion: repair a subtree one black node short; the result is the new root. */
  method FixAfterDeletion<V>(x0: Cursor<V>) returns (root: Tree<V>)
    requires Deficient(x0)
    ensures Entries(root) == Entries(Whole(x0))
    ensures Balanced(root) && NoRedRed(root) && ColorOf(root) == Black
  {
    var x := x0;
    while x.path != [] && ColorOf(x.focus) == Black
      invariant Deficient(x) && Entries(Whole(x)) == Entries(Whole(x0))
      decreases |x.path| + (if ColorOf(x.focus) == Black then 1 else 0)
    {
      if x.path[0].isLeft {
        x := FixLeftStep(x);
      } else {
        x := FixRightStep(x);
      }
    }
    // setColor(x, BLACK)
    var y := Cursor(Paint(x.focus, Black), x.path);
    PlugBalanced(y.focus, y.path);
    PlugNoRedRed(y.focus, y.path);
    PlugColor(y.focus, y.path);
    SameEntries(y.focus, x.focus, x.path);
    root := Whole(y);
  }

  // ---------------------------------------------------------------------
  // deleteEntry

  /** A run of left links adds nothing before the focus. */
  lemma {:induction false} BeforeLeftRun<V>(run: seq<Frame<V>>, rest: seq<Frame<V>>)
    requires forall i :: 0 <= i < |run| ==> run[i].isLeft
    ensures Before(run + rest) == Before(rest)
    decreases |run|
  {
    if run != [] {
      assert (run + rest)[0] == run[0] && (run + rest)[1..] == run[1..] + rest;
      assert run[0].isLeft;
      assert Before(run + rest) == Before(run[1..] + rest);
      BeforeLeftRun(run[1..], rest);
    } else {
      assert run + rest == rest;
    }
  }

  /** The red-black shape, without the key order. */
  ghost predicate Shaped<V>(t: Tree<V>)
  {
    Balanced(t) && NoRedRed(t) && ColorOf(t) == Black
  }

  /** p with the successor's key and value copied into it. */
  function CopyInto<V>(p: Cursor<V>, s: Cursor<V>): Cursor<V>
    requires p.focus.Node? && s.focus.Node?
  {
    Cursor(p.focus.(key := s.focus.key, value := s.focus.value), p.path)
  }

  /**
   * After copying the successor `s` into `p`, the successor's node, seen in
   * the changed tree, is the entry just after `p`, and the tree's entries are
   * the old ones with the successor's pair written over p's.
   */
  lemma CopySuccessor<V>(p: Cursor<V>, s: Cursor<V>)
    requires Shaped(Whole(p)) && p.focus.Node? && p.focus.left.Node? && p.focus.right.Node?
    requires Whole(s) == Whole(p) && s.focus.Node? && s.focus.left.Leaf? && Index(s) == Index(p) + 1
    requires LeftmostOfRight(p, s)
    ensures var k := |s.path| - |p.path| - 1;
      var c := Cursor(s.focus, s.path[..k] + Right(CopyInto(p, s)).path);
      var E := Entries(Whole(p));
      Shaped(Whole(c)) && Index(c) == Index(p) + 1 && Index(p) + 1 < |E| &&
      Entries(Whole(c)) == E[Index(p) := E[Index(p) + 1]]
  {
    var k := |s.path| - |p.path| - 1;
    var q := CopyInto(p, s);
    var c := Cursor(s.focus, s.path[..k] + Right(q).path);
    var E := Entries(Whole(p));
    assert s.path == s.path[..k] + Right(p).path;
    PlugAppend(s.focus, s.path[..k], Right(q).path);
    LeftRightWhole(q);
    assert Whole(c) == Whole(q);
    BeforeLeftRun(s.path[..k], Right(q).path);
    CursorEntry(s);
    ReplacePair(p, s.focus.key, s.focus.value);
  }

  /** The entry's only child (or nothing) taking its place. */
  function Replacement<V>(t: Tree<V>): Tree<V>
    requires t.Node?
  {
    if t.left.Node? then t.left else t.right
  }

  /** Unlinking an entry with at most one child drops exactly that entry. */
  lemma UnlinkEntries<V>(c: Cursor<V>)
    requires c.focus.Node? && (c.focus.left.Leaf? || c.focus.right.Leaf?)
    ensures Index(c) < |Entries(Whole(c))|
    ensures var E := Entries(Whole(c));
      Entries(Plug(Replacement(c.focus), c.path)) == E[..Index(c)] + E[Index(c) + 1..]
  {
    var x := Pair(c.focus.key, c.focus.value);
    var B, L, R, A := Before(c.path), Entries(c.focus.left), Entries(c.focus.right), After(c.path);
    FocusEntries(c);
    assert Entries(Whole(c)) == (B + L) + ([x] + (R + A));
    PlugEntries(Replacement(c.focus), c.path);
    assert Entries(Replacement(c.focus)) == L + R by {
      if c.focus.left.Node? { assert R == [] && L + R == L; } else { assert L == [] && L + R == R; }
    }
    assert B + (L + R) + A == (B + L) + (R + A);
    SplitAround(B + L, x, R + A, x);
    assert Index(c) == |B + L|;
  }

  /**
   * Unlinking a black entry leaves its replacement one black node short;
   * unlinking a red one (which has no children) leaves a red-black tree.
   */
  lemma UnlinkShape<V>(c: Cursor<V>)
    requires Shaped(Whole(c)) && c.focus.Node? && (c.focus.left.Leaf? || c.focus.right.Leaf?)
    ensures c.focus.color == Black ==> Deficient(Cursor(Replacement(c.focus), c.path))
    ensures c.focus.color == Red ==> Shaped(Plug(Replacement(c.focus), c.path))
  {
    var r := Replacement(c.focus);
    PlugBalanced(c.focus, c.path);
    PlugNoRedRed(c.focus, c.path);
    PlugColor(c.focus, c.path);
    assert BlackHeight(r) == BlackHeight(c.focus.left);
    PlugBalanced(r, c.path);
    PlugNoRedRed(r, c.path);
    PlugColor(r, c.path);
    if c.focus.color == Red {
      PathNoRedRedBlack(c.path, Red);
    }
  }

  lemma DropAfterCopy<V>(E: seq<Pair<V>>, i: int)
    requires 0 <= i && i + 1 < |E|
    ensures E[i := E[i + 1]][..i + 1] + E[i := E[i + 1]][i + 2..] == E[..i] + E[i + 1..]
  {
  }

  lemma SortedDrop<V>(E: seq<Pair<V>>, i: int)
    requires Sorted(E) && 0 <= i < |E|
    ensures Sorted(E[..i] + E[i + 1..])
  {
    var D := E[..i] + E[i + 1..];
    forall a, b | 0 <= a < b < |D|
      ensures D[a].key < D[b].key
    {
      var a' := if a < i then a else a + 1;
      var b' := if b < i then b else b + 1;
      assert D[a] == E[a'] && D[b] == E[b'];
    }
  }

  /**
   * The node deleteEntry unlinks: `p0` itself when it has at most one child;
   * otherwise its successor, after `p0` has taken over the successor's
   * mapping. Either way, dropping that node drops exactly the entry at `p0`.
   */
  method UnlinkTarget<V>(root: Tree<V>, p0: Cursor<V>) returns (p: Cursor<V>)
    requires IsRedBlack(root) && Designates(root, p0)
    ensures Index(p0) < |Entries(root)|
    ensures p.focus.Node? && (p.focus.left.Leaf? || p.focus.right.Leaf?) && Shaped(Whole(p))
    ensures Index(p) < |Entries(Whole(p))|
    ensures Entries(Whole(p))[..Index(p)] + Entries(Whole(p))[Index(p) + 1..] ==
            Entries(root)[..Index(p0)] + Entries(root)[Index(p0) + 1..]
  {
    ghost var E, i := Entries(root), Index(p0);
    CursorEntry(p0);
    p := p0;
    if p.focus.left.Node? && p.focus.right.Node? {
      // strictly internal: copy the successor into p, then delete the successor
      var s := Successor(p);
      var sc := s.value;
      CopySuccessor(p, sc);
      var k := |sc.path| - |p.path| - 1;
      var c := Cursor(sc.focus, sc.path[..k] + Right(CopyInto(p, sc)).path);
      ghost var F := Entries(Whole(c));
      assert F == E[i := E[i + 1]] && Index(c) == i + 1;
      DropAfterCopy(E, i);
      assert F[..i + 1] + F[i + 2..] == E[..i] + E[i + 1..];
      p := c;
    }
    CursorEntry(p);
  }

  /** deleteEntry, on the tree: remove the entry at `p0` and rebalance; the result is the new root. */
  method DeleteNode<V>(root: Tree<V>, p0: Cursor<V>) returns (newRoot: Tree<V>)
    requires IsRedBlack(root) && Designates(root, p0)
    ensures Index(p0) < |Entries(root)|
    ensures IsRedBlack(newRoot)
    ensures Entries(newRoot) == Entries(root)[..Index(p0)] + Entries(root)[Index(p0) + 1..]
  {
    var p := UnlinkTarget(root, p0);
    UnlinkEntries(p);
    UnlinkShape(p);
    var replacement := Replacement(p.focus);
    if replacement.Leaf? && p.path == [] {
      // the only node
      newRoot := Leaf;
    } else {
      // link the replacement (or, with no children, the empty position) to the parent
      var x := Cursor(replacement, p.path);
      if p.focus.color == Black {
        newRoot := FixAfterDeletion(x);
      } else {
        newRoot := Whole(x);
      }
    }
    SortedDrop(Entries(root), Index(p0));
  }
}
