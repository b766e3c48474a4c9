/**
 * fixAfterInsertion: restoring the red-black invariants after a new node
 * has been linked in as a leaf. Each loop step is one of the source's
 * recolourings or rotations, written as a move of the cursor `x`.
 */
module Insertion {
  import opened RedBlackTrees

  /**
   * What the loop keeps: `x` is a red node and the only possible violation
   * is a red parent (the path is checked as if `x` were black).
   */
  ghost predicate RedAtFocus<V>(x: Cursor<V>)
  {
    x.focus.Node? && x.focus.color == Red && NoRedRed(x.focus) && Balanced(x.focus) &&
    PathBalanced(x.path, BlackHeight(x.focus)) && PathNoRedRed(x.path, Black) &&
    (x.path != [] ==> x.path[|x.path| - 1].color == Black)
  }

  /** Parent and uncle turn black, the grandparent red; `x` moves to the grandparent. */
  function Recolor<V>(x: Cursor<V>): Cursor<V>
    requires |x.path| >= 2
  {
    var p, g := x.path[0], x.path[1];
    Cursor(Attach(Attach(x.focus, p.(color := Black)), g.(color := Red, sibling := Paint(g.sibling, Black))),
           x.path[2..])
  }

  /** x = parentOf(x); rotateLeft(x): `x` is a right child and moves to the old parent, now its left child. */
  function RotateUpLeft<V>(x: Cursor<V>): Cursor<V>
    requires x.focus.Node? && x.path != [] && !x.path[0].isLeft
  {
    var p := x.path[0];
    Cursor(Node(p.color, p.sibling, p.key, p.value, x.focus.left),
           [Frame(true, x.focus.color, x.focus.key, x.focus.value, x.focus.right)] + x.path[1..])
  }

  /** x = parentOf(x); rotateRight(x): `x` is a left child and moves to the old parent, now its right child. */
  function RotateUpRight<V>(x: Cursor<V>): Cursor<V>
    requires x.focus.Node? && x.path != [] && x.path[0].isLeft
  {
    var p := x.path[0];
    Cursor(Node(p.color, x.focus.right, p.key, p.value, p.sibling),
           [Frame(false, x.focus.color, x.focus.key, x.focus.value, x.focus.left)] + x.path[1..])
  }

  /** Parent black, grandparent red, rotateRight at the grandparent (`x` and its parent are left children). */
  function RotateGrandRight<V>(x: Cursor<V>): Cursor<V>
    requires |x.path| >= 2 && x.path[0].isLeft && x.path[1].isLeft
  {
    var p, g := x.path[0], x.path[1];
    Cursor(x.focus, [Frame(true, Black, p.key, p.value, Node(Red, p.sibling, g.key, g.value, g.sibling))] + x.path[2..])
  }

  /** Parent black, grandparent red, rotateLeft at the grandparent (`x` and its parent are right children). */
  function RotateGrandLeft<V>(x: Cursor<V>): Cursor<V>
    requires |x.path| >= 2 && !x.path[0].isLeft && !x.path[1].isLeft
  {
    var p, g := x.path[0], x.path[1];
    Cursor(x.focus, [Frame(false, Black, p.key, p.value, Node(Red, g.sibling, g.key, g.value, p.sibling))] + x.path[2..])
  }

  // ---------------------------------------------------------------------
  // What each step keeps

  /** A red parent is never the root, so it has a parent: the grandparent, which is black. */
  lemma RedParent<V>(x: Cursor<V>)
    requires RedAtFocus(x) && x.path != [] && x.path[0].color == Red
    ensures |x.path| >= 2 && x.path[1].color == Black
    ensures ColorOf(x.path[0].sibling) == Black && NoRedRed(x.path[0].sibling)
    ensures Balanced(x.path[0].sibling) && BlackHeight(x.path[0].sibling) == BlackHeight(x.focus)
    ensures Balanced(x.path[1].sibling) && BlackHeight(x.path[1].sibling) == BlackHeight(x.focus)
    ensures NoRedRed(x.path[1].sibling)
    ensures PathBalanced(x.path[2..], BlackHeight(x.focus) + 1) && PathNoRedRed(x.path[2..], Black)
  {
    var h := BlackHeight(x.focus);
    assert PathNoRedRed(x.path[1..], Red);
    assert PathBalanced(x.path[1..], h);
    assert x.path[1..][0] == x.path[1] && x.path[1..][1..] == x.path[2..];
  }

  lemma RecolorKeeps<V>(x: Cursor<V>)
    requires RedAtFocus(x) && x.path != [] && x.path[0].color == Red
    requires |x.path| >= 2 && ColorOf(x.path[1].sibling) == Red
    ensures RedAtFocus(Recolor(x))
    ensures Entries(Whole(Recolor(x))) == Entries(Whole(x))
  {
    RedParent(x);
    var p, g := x.path[0], x.path[1];
    var h := BlackHeight(x.focus);
    var below := Attach(x.focus, p.(color := Black));
    var uncle := Paint(g.sibling, Black);
    assert Balanced(below) && BlackHeight(below) == h + 1 && NoRedRed(below);
    assert Balanced(uncle) && BlackHeight(uncle) == h + 1 && NoRedRed(uncle);
    var y := Recolor(x);
    assert y.focus == Attach(below, g.(color := Red, sibling := uncle));
    assert BlackHeight(y.focus) == h + 1;
    PlugTwo(x.focus, x.path);
    SameEntries(y.focus, Attach(Attach(x.focus, p), g), x.path[2..]);
  }

  lemma RotateUpLeftKeeps<V>(x: Cursor<V>)
    requires RedAtFocus(x) && x.path != [] && x.path[0].color == Red && !x.path[0].isLeft
    ensures RedAtFocus(RotateUpLeft(x))
    ensures Entries(Whole(RotateUpLeft(x))) == Entries(Whole(x))
    ensures |RotateUpLeft(x).path| == |x.path| && RotateUpLeft(x).path[0].color == Red
    ensures RotateUpLeft(x).path[0].isLeft && RotateUpLeft(x).path[1..] == x.path[1..]
  {
    RedParent(x);
    var y := RotateUpLeft(x);
    var h := BlackHeight(x.focus);
    assert y.path[1..] == x.path[1..];
    assert BlackHeight(y.focus) == h;
    var up := Attach(x.focus, x.path[0]);
    assert Attach(y.focus, y.path[0]) == RotateLeft(up);
    RotateLeftEntries(up);
    SameEntries(RotateLeft(up), up, x.path[1..]);
  }

  lemma RotateUpRightKeeps<V>(x: Cursor<V>)
    requires RedAtFocus(x) && x.path != [] && x.path[0].color == Red && x.path[0].isLeft
    ensures RedAtFocus(RotateUpRight(x))
    ensures Entries(Whole(RotateUpRight(x))) == Entries(Whole(x))
    ensures |RotateUpRight(x).path| == |x.path| && RotateUpRight(x).path[0].color == Red
    ensures !RotateUpRight(x).path[0].isLeft && RotateUpRight(x).path[1..] == x.path[1..]
  {
    RedParent(x);
    var y := RotateUpRight(x);
    var h := BlackHeight(x.focus);
    assert y.path[1..] == x.path[1..];
    assert BlackHeight(y.focus) == h;
    var up := Attach(x.focus, x.path[0]);
    assert Attach(y.focus, y.path[0]) == RotateRight(up);
    RotateRightEntries(up);
    SameEntries(RotateRight(up), up, x.path[1..]);
  }

  lemma RotateGrandRightKeeps<V>(x: Cursor<V>)
    requires RedAtFocus(x) && x.path != [] && x.path[0].color == Red
    requires |x.path| >= 2 && x.path[0].isLeft && x.path[1].isLeft && ColorOf(x.path[1].sibling) == Black
    ensures RedAtFocus(RotateGrandRight(x))
    ensures Entries(Whole(RotateGrandRight(x))) == Entries(Whole(x))
    ensures |RotateGrandRight(x).path| < |x.path| && RotateGrandRight(x).path[0].color == Black
  {
    RedParent(x);
    var p, g := x.path[0], x.path[1];
    var y := RotateGrandRight(x);
    var h := BlackHeight(x.focus);
    var gnode := Node(Red, p.sibling, g.key, g.value, g.sibling);
    assert Balanced(gnode) && BlackHeight(gnode) == h && NoRedRed(gnode);
    assert y.path[1..] == x.path[2..];
    var old2 := Attach(Attach(x.focus, p), g);
    var new2 := Attach(x.focus, y.path[0]);
    var rotated := RotateRight(old2);
    assert Entries(gnode) == Entries(rotated.right);
    assert Entries(new2) == Entries(rotated.left) + [Pair(rotated.key, rotated.value)] + Entries(gnode);
    RotateRightEntries(old2);
    PlugTwo(x.focus, x.path);
    SameEntries(new2, old2, x.path[2..]);
  }

  lemma RotateGrandLeftKeeps<V>(x: Cursor<V>)
    requires RedAtFocus(x) && x.path != [] && x.path[0].color == Red
    requires |x.path| >= 2 && !x.path[0].isLeft && !x.path[1].isLeft && ColorOf(x.path[1].sibling) == Black
    ensures RedAtFocus(RotateGrandLeft(x))
    ensures Entries(Whole(RotateGrandLeft(x))) == Entries(Whole(x))
    ensures |RotateGrandLeft(x).path| < |x.path| && RotateGrandLeft(x).path[0].color == Black
  {
    RedParent(x);
    var p, g := x.path[0], x.path[1];
    var y := RotateGrandLeft(x);
    var h := BlackHeight(x.focus);
    var gnode := Node(Red, g.sibling, g.key, g.value, p.sibling);
    assert Balanced(gnode) && BlackHeight(gnode) == h && NoRedRed(gnode);
    assert y.path[1..] == x.path[2..];
    var old2 := Attach(Attach(x.focus, p), g);
    var new2 := Attach(x.focus, y.path[0]);
    var rotated := RotateLeft(old2);
    assert Entries(gnode) == Entries(rotated.left);
    assert Entries(new2) == Entries(gnode) + [Pair(rotated.key, rotated.value)] + Entries(rotated.right);
    RotateLeftEntries(old2);
    PlugTwo(x.focus, x.path);
    SameEntries(new2, old2, x.path[2..]);
  }

  /**
   * The tree right after a new entry `x0.focus` (no children) has been linked
   * in where a leaf was: everything but the new node is a red-black tree.
   */
  ghost predicate FreshLeaf<V>(x0: Cursor<V>)
  {
    x0.focus.Node? && x0.focus.left.Leaf? && x0.focus.right.Leaf? &&
    Balanced(Plug(Leaf, x0.path)) && NoRedRed(Plug(Leaf, x0.path)) && ColorOf(Plug(Leaf, x0.path)) == Black
  }

  /** fixAfterInsertion: paint the new node red, then repair upwards; the result is the new root. */
  method FixAfterInsertion<V>(x0: Cursor<V>) returns (root: Tree<V>)
    requires FreshLeaf(x0)
    ensures Entries(root) == Entries(Whole(x0))
    ensures Balanced(root) && NoRedRed(root) && ColorOf(root) == Black
  {
    PlugBalanced(Leaf, x0.path);
    PlugNoRedRed(Leaf, x0.path);
    PlugColor(Leaf, x0.path);
    var x := Cursor(Paint(x0.focus, Red), x0.path);
    SameEntries(x.focus, x0.focus, x.path);
    while x.path != [] && x.path[0].color == Red
      invariant RedAtFocus(x) && Entries(Whole(x)) == Entries(Whole(x0))
      decreases |x.path|
    {
      RedParent(x);
      if x.path[1].isLeft {
        if ColorOf(x.path[1].sibling) == Red {
          RecolorKeeps(x);
          x := Recolor(x);
        } else {
          if !x.path[0].isLeft {
            RotateUpLeftKeeps(x);
            x := RotateUpLeft(x);
          }
          RotateGrandRightKeeps(x);
          x := RotateGrandRight(x);
        }
      } else {
        if ColorOf(x.path[1].sibling) == Red {
          RecolorKeeps(x);
          x := Recolor(x);
        } else {
          if x.path[0].isLeft {
            RotateUpRightKeeps(x);
            x := RotateUpRight(x);
          }
          RotateGrandLeftKeeps(x);
          x := RotateGrandLeft(x);
        }
      }
    }
    // root.color = BLACK
    PlugBalanced(x.focus, x.path);
    PlugNoRedRed(x.focus, x.path);
    PlugColor(x.focus, x.path);
    root := Paint(Whole(x), Black);
  }
}
