/**
 * Red-black insertion. The new item goes in as a red leaf where the search
 * for its key ends. On the way back up, a black grandparent `g` whose child
 * `p` and grandchild `z` are both red is fixed as in the pointer-based
 * fix-up: when the uncle (the other child of `g`) is red, `p` and the uncle
 * turn black and `g` red, and the red-red edge may reappear one level
 * higher; otherwise one rotation (`z` an outer grandchild) or two (`z` an
 * inner grandchild) put a black node above two red ones and the fix-up is
 * over. Finally the root is painted black.
 */
module Insertion {
  import opened Trees

  /** At most one child of a red node is red: the shape insertion leaves below a black node. */
  ghost predicate HasBlackChild<V>(t: Tree<V>) {
    t.Leaf? || ColorOf(t.left) == Black || ColorOf(t.right) == Black
  }

  /** Fix-up at a black node `x` whose left subtree may be a red node with a red child. */
  function FixLeft<V>(l: Tree<V>, x: Item<V>, r: Tree<V>): Tree<V> {
    if l.Node? && l.color == Red && (ColorOf(l.left) == Red || ColorOf(l.right) == Red) then
      if ColorOf(r) == Red then
        Node(Red, Paint(Black, l), x, Paint(Black, r))
      else if ColorOf(l.left) == Red then
        RotateRight(Node(Red, Paint(Black, l), x, r))
      else
        RotateRight(Node(Red, Paint(Black, RotateLeft(l)), x, r))
    else
      Node(Black, l, x, r)
  }

  /** Mirror image of FixLeft. */
  function FixRight<V>(l: Tree<V>, x: Item<V>, r: Tree<V>): Tree<V> {
    if r.Node? && r.color == Red && (ColorOf(r.left) == Red || ColorOf(r.right) == Red) then
      if ColorOf(l) == Red then
        Node(Red, Paint(Black, l), x, Paint(Black, r))
      else if ColorOf(r.right) == Red then
        RotateLeft(Node(Red, l, x, Paint(Black, r)))
      else
        RotateLeft(Node(Red, l, x, Paint(Black, RotateRight(r))))
    else
      Node(Black, l, x, r)
  }

  lemma PaintKeepsContents<V>(c: Color, t: Tree<V>)
    ensures InOrder(Paint(c, t)) == InOrder(t)
    ensures Entries(Paint(c, t)) == Entries(t) && Keys(Paint(c, t)) == Keys(t)
  {
  }

  /** The fix-up keeps the in-order sequence. */
  lemma FixLeftInOrder<V>(l: Tree<V>, x: Item<V>, r: Tree<V>)
    ensures InOrder(FixLeft(l, x, r)) == InOrder(l) + [x] + InOrder(r)
  {
    PaintKeepsContents(Black, l);
    PaintKeepsContents(Black, r);
    if l.Node? && l.color == Red && ColorOf(l.left) != Red && ColorOf(l.right) == Red {
      PaintKeepsContents(Black, RotateLeft(l));
    }
  }

  lemma FixRightInOrder<V>(l: Tree<V>, x: Item<V>, r: Tree<V>)
    ensures InOrder(FixRight(l, x, r)) == InOrder(l) + [x] + InOrder(r)
  {
    PaintKeepsContents(Black, l);
    PaintKeepsContents(Black, r);
    if r.Node? && r.color == Red && ColorOf(r.right) != Red && ColorOf(r.left) == Red {
      PaintKeepsContents(Black, RotateRight(r));
    }
  }

  /** The fix-up keeps the stored items and their keys. */
  lemma FixLeftEntries<V>(l: Tree<V>, x: Item<V>, r: Tree<V>)
    ensures Entries(FixLeft(l, x, r)) == Entries(l) + {x} + Entries(r)
    ensures Keys(FixLeft(l, x, r)) == Keys(l) + {x.key} + Keys(r)
  {
    PaintKeepsContents(Black, l);
    PaintKeepsContents(Black, r);
    if l.Node? && l.color == Red && ColorOf(l.left) != Red && ColorOf(l.right) == Red {
      PaintKeepsContents(Black, RotateLeft(l));
    }
  }

  lemma FixRightEntries<V>(l: Tree<V>, x: Item<V>, r: Tree<V>)
    ensures Entries(FixRight(l, x, r)) == Entries(l) + {x} + Entries(r)
    ensures Keys(FixRight(l, x, r)) == Keys(l) + {x.key} + Keys(r)
  {
    PaintKeepsContents(Black, l);
    PaintKeepsContents(Black, r);
    if r.Node? && r.color == Red && ColorOf(r.right) != Red && ColorOf(r.left) == Red {
      PaintKeepsContents(Black, RotateRight(r));
    }
  }

  /** The fix-up keeps the in-order sequence, hence the search order. */
  lemma FixLeftOrdered<V>(l: Tree<V>, x: Item<V>, r: Tree<V>)
    requires Ordered(Node(Black, l, x, r))
    ensures Ordered(FixLeft(l, x, r))
  {
    FixLeftInOrder(l, x, r);
    InOrderSorted(Node(Black, l, x, r));
    SortedInOrderIsOrdered(FixLeft(l, x, r));
  }

  lemma FixRightOrdered<V>(l: Tree<V>, x: Item<V>, r: Tree<V>)
    requires Ordered(Node(Black, l, x, r))
    ensures Ordered(FixRight(l, x, r))
  {
    FixRightInOrder(l, x, r);
    InOrderSorted(Node(Black, l, x, r));
    SortedInOrderIsOrdered(FixRight(l, x, r));
  }

  /**
   * A left subtree with at most one red-red edge, at its top, is repaired:
   * the result has no red-red edge and is one black level higher.
   */
  lemma FixLeftColors<V>(l: Tree<V>, x: Item<V>, r: Tree<V>)
    requires NoRedRedBelowRoot(l) && (ColorOf(l) == Red ==> HasBlackChild(l)) && NoRedRed(r)
    requires BlackBalanced(l) && BlackBalanced(r) && BlackHeight(l) == BlackHeight(r)
    ensures NoRedRed(FixLeft(l, x, r))
    ensures BlackBalanced(FixLeft(l, x, r))
    ensures BlackHeight(FixLeft(l, x, r)) == BlackHeight(l) + 1
  {
    if l.Node? && l.color == Red && (ColorOf(l.left) == Red || ColorOf(l.right) == Red) {
      var Node(_, t1, a1, t2) := l;
      assert NoRedRed(t1) && NoRedRed(t2);
      if ColorOf(r) == Red {
        assert NoRedRed(Paint(Black, r));
      } else if ColorOf(t1) == Red {
        assert NoRedRed(Node(Red, t2, x, r));
      } else {
        var Node(_, u1, b, u2) := t2;
        assert NoRedRed(Node(Red, t1, a1, u1));
        assert NoRedRed(Node(Red, u2, x, r));
      }
    } else if l.Node? {
      assert NoRedRed(Node(Black, l.left, l.item, l.right));
    }
  }

  lemma FixRightColors<V>(l: Tree<V>, x: Item<V>, r: Tree<V>)
    requires NoRedRed(l) && NoRedRedBelowRoot(r) && (ColorOf(r) == Red ==> HasBlackChild(r))
    requires BlackBalanced(l) && BlackBalanced(r) && BlackHeight(l) == BlackHeight(r)
    ensures NoRedRed(FixRight(l, x, r))
    ensures BlackBalanced(FixRight(l, x, r))
    ensures BlackHeight(FixRight(l, x, r)) == BlackHeight(r) + 1
  {
    if r.Node? && r.color == Red && (ColorOf(r.left) == Red || ColorOf(r.right) == Red) {
      var Node(_, t2, a2, t3) := r;
      assert NoRedRed(t2) && NoRedRed(t3);
      if ColorOf(l) == Red {
        assert NoRedRed(Paint(Black, l));
      } else if ColorOf(t3) == Red {
        assert NoRedRed(Node(Red, l, x, t2));
      } else {
        var Node(_, u1, b, u2) := t2;
        assert NoRedRed(Node(Red, l, x, u1));
        assert NoRedRed(Node(Red, u2, a2, t3));
      }
    } else if r.Node? {
      assert NoRedRed(Node(Black, r.left, r.item, r.right));
    }
  }

  /** Insertion below the root; a key already present leaves the subtree as it is. */
  function Ins<V>(t: Tree<V>, x: Item<V>): Tree<V> {
    match t
    case Leaf => NewNode(x)
    case Node(c, l, y, r) =>
      if x.key < y.key then
        if c == Black then FixLeft(Ins(l, x), y, r) else Node(Red, Ins(l, x), y, r)
      else if y.key < x.key then
        if c == Black then FixRight(l, y, Ins(r, x)) else Node(Red, l, y, Ins(r, x))
      else t
  }

  /** Inserting an absent key below the root adds exactly the new item. */
  lemma {:induction false} InsEntries<V>(t: Tree<V>, x: Item<V>)
    requires x.key !in Keys(t)
    ensures Keys(Ins(t, x)) == Keys(t) + {x.key}
    ensures Entries(Ins(t, x)) == Entries(t) + {x}
  {
    match t
    case Leaf =>
    case Node(c, l, y, r) =>
      if x.key < y.key {
        var l' := Ins(l, x);
        InsEntries(l, x);
        FixLeftEntries(l', y, r);
        assert Ins(t, x) == if c == Black then FixLeft(l', y, r) else Node(Red, l', y, r);
      } else {
        var r' := Ins(r, x);
        InsEntries(r, x);
        FixRightEntries(l, y, r');
        assert Ins(t, x) == if c == Black then FixRight(l, y, r') else Node(Red, l, y, r');
      }
  }

  /** Inserting an absent key below the root keeps the search order. */
  lemma {:induction false} InsOrdered<V>(t: Tree<V>, x: Item<V>)
    requires Ordered(t) && x.key !in Keys(t)
    ensures Ordered(Ins(t, x))
  {
    match t
    case Leaf =>
    case Node(c, l, y, r) =>
      if x.key < y.key {
        InsOrdered(l, x);
        InsEntries(l, x);
        assert Ordered(Node(Black, Ins(l, x), y, r));
        if c == Black {
          FixLeftOrdered(Ins(l, x), y, r);
        }
      } else {
        InsOrdered(r, x);
        InsEntries(r, x);
        assert Ordered(Node(Black, l, y, Ins(r, x)));
        if c == Black {
          FixRightOrdered(l, y, Ins(r, x));
        }
      }
  }

  /**
   * Below the root, insertion keeps the black-height; the only possible
   * red-red edge is at the top of a subtree whose root was red, and then
   * the new top still has a black child.
   */
  lemma {:induction false} InsColors<V>(t: Tree<V>, x: Item<V>)
    requires NoRedRed(t) && BlackBalanced(t)
    ensures NoRedRedBelowRoot(Ins(t, x))
    ensures ColorOf(t) == Black ==> NoRedRed(Ins(t, x))
    ensures ColorOf(Ins(t, x)) == Red ==> HasBlackChild(Ins(t, x))
    ensures BlackBalanced(Ins(t, x)) && BlackHeight(Ins(t, x)) == BlackHeight(t)
  {
    match t
    case Leaf =>
    case Node(c, l, y, r) =>
      if x.key < y.key {
        InsColors(l, x);
        if c == Black {
          FixLeftColors(Ins(l, x), y, r);
        }
      } else if y.key < x.key {
        InsColors(r, x);
        if c == Black {
          FixRightColors(l, y, Ins(r, x));
        }
      }
  }

  /** Insertion of an absent key: `Ins` followed by painting the root black. */
  function InsertTree<V>(t: Tree<V>, x: Item<V>): (r: Tree<V>)
    requires IsRedBlack(t) && Ordered(t) && x.key !in Keys(t)
    ensures IsRedBlack(r) && Ordered(r)
    ensures Keys(r) == Keys(t) + {x.key}
    ensures Entries(r) == Entries(t) + {x}
    ensures Count(r) == Count(t) + 1
  {
    InsEntries(t, x);
    InsOrdered(t, x);
    InsColors(t, x);
    var r := Paint(Black, Ins(t, x));
    PaintKeepsContents(Black, Ins(t, x));
    CountIsKeys(t);
    CountIsKeys(r);
    r
  }

  /**
   * `Ins` is the plain search-tree insertion followed by recolourings and
   * rotations only: both list the same items in the same order.
   */
  lemma {:induction false} InsIsBSTInsert<V>(t: Tree<V>, x: Item<V>)
    requires Ordered(t) && x.key !in Keys(t)
    ensures InOrder(Ins(t, x)) == InOrder(BSTInsert(t, x))
  {
    match t
    case Leaf =>
    case Node(c, l, y, r) =>
      assert Ordered(l) && Ordered(r) && x.key !in Keys(l) && x.key !in Keys(r);
      if x.key < y.key {
        var l' := Ins(l, x);
        InsIsBSTInsert(l, x);
        if c == Black {
          FixLeftInOrder(l', y, r);
          assert Ins(t, x) == FixLeft(l', y, r);
        } else {
          assert Ins(t, x) == Node(Red, l', y, r);
        }
        assert InOrder(Ins(t, x)) == InOrder(l') + [y] + InOrder(r);
        assert BSTInsert(t, x) == Node(c, BSTInsert(l, x), y, r);
      } else {
        var r' := Ins(r, x);
        InsIsBSTInsert(r, x);
        if c == Black {
          FixRightInOrder(l, y, r');
          assert Ins(t, x) == FixRight(l, y, r');
        } else {
          assert Ins(t, x) == Node(Red, l, y, r');
        }
        assert InOrder(Ins(t, x)) == InOrder(l) + [y] + InOrder(r');
        assert BSTInsert(t, x) == Node(c, l, y, BSTInsert(r, x));
      }
  }

  /** Insert places the item where the plain search-tree insertion would and then only repairs colours and shape. */
  lemma InsertTreeIsBSTInsert<V>(t: Tree<V>, x: Item<V>)
    requires IsRedBlack(t) && Ordered(t) && x.key !in Keys(t)
    ensures InOrder(InsertTree(t, x)) == InOrder(BSTInsert(t, x))
  {
    InsIsBSTInsert(t, x);
    PaintKeepsContents(Black, Ins(t, x));
  }
}
