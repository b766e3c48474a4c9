/**
 * buildFromSorted: the linear-time construction of a tree from entries that
 * arrive in ascending key order. The tree is complete except for its bottom
 * level, and exactly the nodes on that incomplete level are red.
 */
module Builds {
  import opened RedBlackTrees

  /** 2 to the power n; never 0, which Build's size bound relies on. */
  function Pow2(n: nat): (r: nat)
    ensures 1 <= r
  {
    if n == 0 then 1 else 2 * Pow2(n - 1)
  }

  /** The number of rounds computeRedLevel's loop makes when it starts from `m`. */
  function Rounds(m: int): nat
    decreases m + 1
  {
    if m < 0 then 0 else 1 + Rounds(m / 2 - 1)
  }

  /** The rounds taken for `sz` entries pin `sz + 1` between two powers of two. */
  lemma {:induction false} RoundsBounds(sz: int)
    requires 0 <= sz
    ensures Pow2(Rounds(sz - 1)) <= sz + 1 < Pow2(Rounds(sz - 1) + 1)
    decreases sz
  {
    if sz > 0 {
      var half := (sz - 1) / 2;
      RoundsBounds(half);
      assert Rounds(sz - 1) == 1 + Rounds(half - 1);
    }
  }

  /**
   * computeRedLevel: the depth of the bottom level of a complete-but-last-level
   * tree of `sz` nodes (the root is at depth 0).
   */
  method ComputeRedLevel(sz: int) returns (level: nat)
    ensures sz <= 0 ==> level == 0
    ensures 0 <= sz ==> Pow2(level) <= sz + 1 < Pow2(level + 1)
  {
    level := 0;
    var m := sz - 1;
    while m >= 0
      invariant level + Rounds(m) == Rounds(sz - 1)
      decreases m + 1
    {
      level := level + 1;
      m := m / 2 - 1;
    }
    if 0 <= sz {
      RoundsBounds(sz);
    }
  }

  /**
   * The recursive buildFromSorted: a subtree at depth `level` over the index
   * range [lo, hi], reading its entries from `input` starting at `pos`.
   * `next` is where the reading stops. The size bound is what the caller's
   * red level guarantees: the subtree is complete down to depth `redLevel`.
   */
  method Build<V>(level: nat, lo: int, hi: int, redLevel: nat, input: seq<Pair<V>>, pos: nat)
      returns (t: Tree<V>, next: nat)
    requires 0 <= lo && level <= redLevel
    requires Pow2(redLevel - level) <= hi - lo + 2 <= Pow2(redLevel - level + 1)
    requires pos + (hi - lo + 1) <= |input|
    ensures next == pos + (hi - lo + 1)
    ensures Entries(t) == input[pos..next]
    ensures Balanced(t) && NoRedRed(t) && BlackHeight(t) == redLevel - level
    ensures ColorOf(t) == Red ==> level == redLevel
    decreases hi - lo + 1
  {
    if hi < lo {
      return Leaf, pos;
    }
    var mid := (lo + hi) / 2;
    var d := redLevel - level;
    var left: Tree<V> := Leaf;
    var p := pos;
    if lo < mid {
      assert d >= 1 && Pow2(d) == 2 * Pow2(d - 1);
      left, p := Build(level + 1, lo, mid - 1, redLevel, input, pos);
    }
    assert p == pos + (mid - lo);
    var key, value := input[p].key, input[p].value;
    var right: Tree<V> := Leaf;
    var q := p + 1;
    if mid < hi {
      assert d >= 1 && Pow2(d) == 2 * Pow2(d - 1);
      right, q := Build(level + 1, mid + 1, hi, redLevel, input, p + 1);
    }
    var color := if level == redLevel then Red else Black;
    t := Node(color, left, key, value, right);
    next := q;
    assert input[pos..next] == input[pos..p] + [input[p]] + input[p + 1..next];
  }

  /** buildFromSorted(size, it): the whole tree over the `size` entries of `input`. */
  method BuildFromSorted<V>(size: int, input: seq<Pair<V>>) returns (t: Tree<V>)
    requires size == |input|
    ensures Entries(t) == input
    ensures Balanced(t) && NoRedRed(t) && ColorOf(t) == Black
  {
    var redLevel := ComputeRedLevel(size);
    var next;
    t, next := Build(0, 0, size - 1, redLevel, input, 0);
    assert input[0..next] == input;
  }
}
