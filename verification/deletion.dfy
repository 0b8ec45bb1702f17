/**
 * Red-black deletion. The item to remove is found by key; a node with a left
 * child takes over the in-order predecessor (the rightmost item of its left
 * subtree), which is unlinked instead. Removing a black node leaves a subtree
 * one black level short; on the way back up that deficit is either absorbed
 * by recolouring a red node or passed on, and the rebuilds below play the
 * part of the pointer-based delete fix-up (its recolourings and single and
 * double rotations). Finally the root is painted black.
 */
module Deletion {
  import opened Trees

  // ---------------------------------------------------------------------
  // Rebuilding a black node above a red-red edge
  // ---------------------------------------------------------------------

  /**
   * Rebuilds a black node whose left subtree may be a red node with a red
   * child: the two red nodes and this one become a red node with two black
   * children, whatever the colour of the right subtree.
   */
  function BalanceLeft<V>(l: Tree<V>, x: Item<V>, r: Tree<V>): Tree<V> {
    if l.Node? && l.color == Red && l.left.Node? && l.left.color == Red then
      Node(Red, Node(Black, l.left.left, l.left.item, l.left.right), l.item, Node(Black, l.right, x, r))
    else if l.Node? && l.color == Red && l.right.Node? && l.right.color == Red then
      Node(Red, Node(Black, l.left, l.item, l.right.left), l.right.item, Node(Black, l.right.right, x, r))
    else
      Node(Black, l, x, r)
  }

  /** Mirror image of BalanceLeft. */
  function BalanceRight<V>(l: Tree<V>, x: Item<V>, r: Tree<V>): Tree<V> {
    if r.Node? && r.color == Red && r.right.Node? && r.right.color == Red then
      Node(Red, Node(Black, l, x, r.left), r.item, Node(Black, r.right.left, r.right.item, r.right.right))
    else if r.Node? && r.color == Red && r.left.Node? && r.left.color == Red then
      Node(Red, Node(Black, l, x, r.left.left), r.left.item, Node(Black, r.left.right, r.item, r.right))
    else
      Node(Black, l, x, r)
  }

  /** Moving the middle of two joins from one side to the other keeps the sequence. */
  lemma Reassociate<T>(p: seq<T>, a: T, q: seq<T>, b: T, r: seq<T>)
    ensures p + [a] + (q + [b] + r) == (p + [a] + q) + [b] + r
  {
  }

  lemma RebuildLeftLeaning<V>(t1: Tree<V>, a1: Item<V>, t2: Tree<V>, a2: Item<V>, t3: Tree<V>, x: Item<V>, r: Tree<V>)
    ensures InOrder(Node(Red, Node(Black, t1, a1, t2), a2, Node(Black, t3, x, r)))
         == InOrder(Node(Red, Node(Red, t1, a1, t2), a2, t3)) + [x] + InOrder(r)
    ensures InOrder(Node(Red, Node(Black, t1, a1, t2), a2, Node(Black, t3, x, r)))
         == InOrder(Node(Red, t1, a1, Node(Red, t2, a2, t3))) + [x] + InOrder(r)
  {
    var s1, s2, s3, s4 := InOrder(t1), InOrder(t2), InOrder(t3), InOrder(r);
    Reassociate(s1 + [a1] + s2, a2, s3, x, s4);
    Reassociate(s1, a1, s2, a2, s3);
  }

  lemma RebuildRightLeaning<V>(l: Tree<V>, x: Item<V>, t2: Tree<V>, a2: Item<V>, t3: Tree<V>, a3: Item<V>, t4: Tree<V>)
    ensures InOrder(Node(Red, Node(Black, l, x, t2), a2, Node(Black, t3, a3, t4)))
         == InOrder(l) + [x] + InOrder(Node(Red, t2, a2, Node(Red, t3, a3, t4)))
    ensures InOrder(Node(Red, Node(Black, l, x, t2), a2, Node(Black, t3, a3, t4)))
         == InOrder(l) + [x] + InOrder(Node(Red, Node(Red, t2, a2, t3), a3, t4))
  {
    var s1, s2, s3, s4 := InOrder(l), InOrder(t2), InOrder(t3), InOrder(t4);
    Reassociate(s1, x, s2, a2, s3 + [a3] + s4);
    Reassociate(s2, a2, s3, a3, s4);
  }

  /** Rebuilding keeps the stored items. */
  lemma BalanceLeftEntries<V>(l: Tree<V>, x: Item<V>, r: Tree<V>)
    ensures Keys(BalanceLeft(l, x, r)) == Keys(l) + {x.key} + Keys(r)
    ensures Entries(BalanceLeft(l, x, r)) == Entries(l) + {x} + Entries(r)
  {
  }

  lemma BalanceRightEntries<V>(l: Tree<V>, x: Item<V>, r: Tree<V>)
    ensures Keys(BalanceRight(l, x, r)) == Keys(l) + {x.key} + Keys(r)
    ensures Entries(BalanceRight(l, x, r)) == Entries(l) + {x} + Entries(r)
  {
  }

  /** Rebuilding keeps the in-order sequence. */
  lemma BalanceLeftInOrder<V>(l: Tree<V>, x: Item<V>, r: Tree<V>)
    ensures InOrder(BalanceLeft(l, x, r)) == InOrder(l) + [x] + InOrder(r)
  {
    if l.Node? && l.color == Red && l.left.Node? && l.left.color == Red {
      var Node(_, Node(_, t1, a1, t2), a2, t3) := l;
      RebuildLeftLeaning(t1, a1, t2, a2, t3, x, r);
    } else if l.Node? && l.color == Red && l.right.Node? && l.right.color == Red {
      var Node(_, t1, a1, Node(_, t2, a2, t3)) := l;
      RebuildLeftLeaning(t1, a1, t2, a2, t3, x, r);
    }
  }

  lemma BalanceRightInOrder<V>(l: Tree<V>, x: Item<V>, r: Tree<V>)
    ensures InOrder(BalanceRight(l, x, r)) == InOrder(l) + [x] + InOrder(r)
  {
    if r.Node? && r.color == Red && r.right.Node? && r.right.color == Red {
      var Node(_, t2, a2, Node(_, t3, a3, t4)) := r;
      RebuildRightLeaning(l, x, t2, a2, t3, a3, t4);
    } else if r.Node? && r.color == Red && r.left.Node? && r.left.color == Red {
      var Node(_, Node(_, t2, a2, t3), a3, t4) := r;
      RebuildRightLeaning(l, x, t2, a2, t3, a3, t4);
    }
  }

  /** A left subtree with at most a red-red edge at its top is repaired, one black level higher. */
  lemma BalanceLeftColors<V>(l: Tree<V>, x: Item<V>, r: Tree<V>)
    requires NoRedRedBelowRoot(l) && NoRedRed(r)
    requires BlackBalanced(l) && BlackBalanced(r) && BlackHeight(l) == BlackHeight(r)
    ensures NoRedRed(BalanceLeft(l, x, r))
    ensures BlackBalanced(BalanceLeft(l, x, r))
    ensures BlackHeight(BalanceLeft(l, x, r)) == BlackHeight(l) + 1
  {
    if l.Node? && l.color == Red && l.left.Node? && l.left.color == Red {
      var Node(_, Node(_, t1, a1, t2), a2, t3) := l;
      assert NoRedRed(Node(Black, Node(Red, t1, a1, t2), a2, t3));
      assert NoRedRed(Node(Red, t1, a1, t2));
      assert BlackBalanced(Node(Red, t1, a1, t2));
    } else if l.Node? && l.color == Red && l.right.Node? && l.right.color == Red {
      var Node(_, t1, a1, Node(_, t2, a2, t3)) := l;
      assert NoRedRed(Node(Black, t1, a1, Node(Red, t2, a2, t3)));
      assert NoRedRed(Node(Red, t2, a2, t3));
      assert BlackBalanced(Node(Red, t2, a2, t3));
    } else if l.Node? {
      assert NoRedRed(Node(Black, l.left, l.item, l.right));
    }
  }

  lemma BalanceRightColors<V>(l: Tree<V>, x: Item<V>, r: Tree<V>)
    requires NoRedRed(l) && NoRedRedBelowRoot(r)
    requires BlackBalanced(l) && BlackBalanced(r) && BlackHeight(l) == BlackHeight(r)
    ensures NoRedRed(BalanceRight(l, x, r))
    ensures BlackBalanced(BalanceRight(l, x, r))
    ensures BlackHeight(BalanceRight(l, x, r)) == BlackHeight(l) + 1
  {
    if r.Node? && r.color == Red && r.right.Node? && r.right.color == Red {
      var Node(_, t2, a2, Node(_, t3, a3, t4)) := r;
      assert NoRedRed(Node(Black, t2, a2, Node(Red, t3, a3, t4)));
      assert NoRedRed(Node(Red, t3, a3, t4));
      assert BlackBalanced(Node(Red, t3, a3, t4));
    } else if r.Node? && r.color == Red && r.left.Node? && r.left.color == Red {
      var Node(_, Node(_, t2, a2, t3), a3, t4) := r;
      assert NoRedRed(Node(Black, Node(Red, t2, a2, t3), a3, t4));
      assert NoRedRed(Node(Red, t2, a2, t3));
      assert BlackBalanced(Node(Red, t2, a2, t3));
    } else if r.Node? {
      assert NoRedRed(Node(Black, r.left, r.item, r.right));
    }
  }

  // ---------------------------------------------------------------------
  // Rebalancing a subtree that lost one black level
  // ---------------------------------------------------------------------

  /** Rebuilds a node whose left subtree `l` is one black level short of `r`. */
  function BalanceDelLeft<V>(l: Tree<V>, a: Item<V>, r: Tree<V>): Tree<V> {
    if l.Node? && l.color == Red then
      Node(Red, Paint(Black, l), a, r)
    else if r.Node? && r.color == Black then
      BalanceRight(l, a, Paint(Red, r))
    else if r.Node? && r.left.Node? && r.left.color == Black then
      Node(Red, Node(Black, l, a, r.left.left), r.left.item,
           BalanceRight(r.left.right, r.item, Paint(Red, r.right)))
    else
      Node(Red, l, a, r)
  }

  /** Mirror image of BalanceDelLeft: the right subtree `r` is one black level short of `l`. */
  function BalanceDelRight<V>(l: Tree<V>, a: Item<V>, r: Tree<V>): Tree<V> {
    if r.Node? && r.color == Red then
      Node(Red, l, a, Paint(Black, r))
    else if l.Node? && l.color == Black then
      BalanceLeft(Paint(Red, l), a, r)
    else if l.Node? && l.right.Node? && l.right.color == Black then
      Node(Red, BalanceLeft(Paint(Red, l.left), l.item, l.right.left), l.right.item,
           Node(Black, l.right.right, a, r))
    else
      Node(Red, l, a, r)
  }

  /** Regrouping of the in-order sequence done by the double rotations of the deletion rebuilds. */
  lemma Regroup<V>(p: seq<Item<V>>, a: Item<V>, q: seq<Item<V>>, b: Item<V>, s: seq<Item<V>>, c: Item<V>, u: seq<Item<V>>)
    ensures (p + [a] + q) + [b] + (s + [c] + u) == p + [a] + ((q + [b] + s) + [c] + u)
    ensures (p + [a] + q) + [b] + (s + [c] + u) == ((p + [a] + (q + [b] + s)) + [c] + u)
  {
  }

  lemma BalanceDelLeftInOrder<V>(l: Tree<V>, a: Item<V>, r: Tree<V>)
    ensures InOrder(BalanceDelLeft(l, a, r)) == InOrder(l) + [a] + InOrder(r)
  {
    if l.Node? && l.color == Red {
      assert InOrder(Paint(Black, l)) == InOrder(l);
    } else if r.Node? && r.color == Black {
      assert InOrder(Paint(Red, r)) == InOrder(r);
      BalanceRightInOrder(l, a, Paint(Red, r));
    } else if r.Node? && r.left.Node? && r.left.color == Black {
      var Node(_, Node(_, t2, b, t3), c, t4) := r;
      assert InOrder(Paint(Red, t4)) == InOrder(t4);
      BalanceRightInOrder(t3, c, Paint(Red, t4));
      Regroup(InOrder(l), a, InOrder(t2), b, InOrder(t3), c, InOrder(t4));
    }
  }

  lemma BalanceDelRightInOrder<V>(l: Tree<V>, a: Item<V>, r: Tree<V>)
    ensures InOrder(BalanceDelRight(l, a, r)) == InOrder(l) + [a] + InOrder(r)
  {
    if r.Node? && r.color == Red {
      assert InOrder(Paint(Black, r)) == InOrder(r);
    } else if l.Node? && l.color == Black {
      assert InOrder(Paint(Red, l)) == InOrder(l);
      BalanceLeftInOrder(Paint(Red, l), a, r);
    } else if l.Node? && l.right.Node? && l.right.color == Black {
      var Node(_, t1, a1, Node(_, t2, b, t3)) := l;
      assert InOrder(Paint(Red, t1)) == InOrder(t1);
      BalanceLeftInOrder(Paint(Red, t1), a1, t2);
      Regroup(InOrder(t1), a1, InOrder(t2), b, InOrder(t3), a, InOrder(r));
    }
  }

  /** Rebalancing keeps the stored items. */
  lemma BalanceDelLeftEntries<V>(l: Tree<V>, a: Item<V>, r: Tree<V>)
    ensures Keys(BalanceDelLeft(l, a, r)) == Keys(l) + {a.key} + Keys(r)
    ensures Entries(BalanceDelLeft(l, a, r)) == Entries(l) + {a} + Entries(r)
  {
    if l.Node? && l.color == Red {
    } else if r.Node? && r.color == Black {
      BalanceRightEntries(l, a, Paint(Red, r));
    } else if r.Node? && r.left.Node? && r.left.color == Black {
      BalanceRightEntries(r.left.right, r.item, Paint(Red, r.right));
    }
  }

  lemma BalanceDelRightEntries<V>(l: Tree<V>, a: Item<V>, r: Tree<V>)
    ensures Keys(BalanceDelRight(l, a, r)) == Keys(l) + {a.key} + Keys(r)
    ensures Entries(BalanceDelRight(l, a, r)) == Entries(l) + {a} + Entries(r)
  {
    if r.Node? && r.color == Red {
    } else if l.Node? && l.color == Black {
      BalanceLeftEntries(Paint(Red, l), a, r);
    } else if l.Node? && l.right.Node? && l.right.color == Black {
      BalanceLeftEntries(Paint(Red, l.left), l.item, l.right.left);
    }
  }

  /** Rebalancing keeps the in-order sequence, hence the search order. */
  lemma BalanceDelLeftOrdered<V>(l: Tree<V>, a: Item<V>, r: Tree<V>)
    requires Ordered(Node(Black, l, a, r))
    ensures Ordered(BalanceDelLeft(l, a, r))
  {
    BalanceDelLeftInOrder(l, a, r);
    InOrderSorted(Node(Black, l, a, r));
    SortedInOrderIsOrdered(BalanceDelLeft(l, a, r));
  }

  lemma BalanceDelRightOrdered<V>(l: Tree<V>, a: Item<V>, r: Tree<V>)
    requires Ordered(Node(Black, l, a, r))
    ensures Ordered(BalanceDelRight(l, a, r))
  {
    BalanceDelRightInOrder(l, a, r);
    InOrderSorted(Node(Black, l, a, r));
    SortedInOrderIsOrdered(BalanceDelRight(l, a, r));
  }

  /** Painting the root black never creates a red-red edge. */
  lemma PaintBlackKeepsNoRedRed<V>(t: Tree<V>)
    requires NoRedRed(t)
    ensures NoRedRedBelowRoot(t)
  {
    if t.Node? {
      assert NoRedRed(t.left) && NoRedRed(t.right);
    }
  }

  /**
   * A left subtree one black level short is made up for: the result has the
   * black-height of `r`, at most a red-red edge at its top, and none at all
   * when `r` is black.
   */
  lemma BalanceDelLeftColors<V>(l: Tree<V>, a: Item<V>, r: Tree<V>)
    requires BlackBalanced(l) && BlackBalanced(r) && BlackHeight(l) + 1 == BlackHeight(r)
    requires NoRedRedBelowRoot(l) && NoRedRed(r)
    ensures BlackBalanced(BalanceDelLeft(l, a, r))
    ensures BlackHeight(BalanceDelLeft(l, a, r)) == BlackHeight(r)
    ensures NoRedRedBelowRoot(BalanceDelLeft(l, a, r))
    ensures ColorOf(r) == Black ==> NoRedRed(BalanceDelLeft(l, a, r))
  {
    if l.Node? && l.color == Red {
      assert NoRedRed(Paint(Black, l));
    } else if r.Node? && r.color == Black {
      var Node(_, t2, b, t3) := r;
      assert NoRedRed(l);
      BalanceRightColors(l, a, Node(Red, t2, b, t3));
      PaintBlackKeepsNoRedRed(BalanceDelLeft(l, a, r));
    } else if r.Node? && r.left.Node? && r.left.color == Black {
      var Node(_, Node(_, t2, b, t3), c, t4) := r;
      assert NoRedRed(l);
      assert NoRedRed(Node(Black, t2, b, t3));
      assert t4.Node? && t4.color == Black;
      assert NoRedRedBelowRoot(Paint(Red, t4)) by {
        assert Paint(Black, Paint(Red, t4)) == t4;
      }
      BalanceRightColors(t3, c, Paint(Red, t4));
      assert NoRedRed(Node(Black, l, a, t2));
    }
  }

  lemma BalanceDelRightColors<V>(l: Tree<V>, a: Item<V>, r: Tree<V>)
    requires BlackBalanced(l) && BlackBalanced(r) && BlackHeight(l) == BlackHeight(r) + 1
    requires NoRedRed(l) && NoRedRedBelowRoot(r)
    ensures BlackBalanced(BalanceDelRight(l, a, r))
    ensures BlackHeight(BalanceDelRight(l, a, r)) == BlackHeight(l)
    ensures NoRedRedBelowRoot(BalanceDelRight(l, a, r))
    ensures ColorOf(l) == Black ==> NoRedRed(BalanceDelRight(l, a, r))
  {
    if r.Node? && r.color == Red {
      assert NoRedRed(Paint(Black, r));
    } else if l.Node? && l.color == Black {
      var Node(_, t1, a1, t2) := l;
      assert NoRedRed(r);
      BalanceLeftColors(Node(Red, t1, a1, t2), a, r);
      PaintBlackKeepsNoRedRed(BalanceDelRight(l, a, r));
    } else if l.Node? && l.right.Node? && l.right.color == Black {
      var Node(_, t1, a1, Node(_, t2, b, t3)) := l;
      assert NoRedRed(r);
      assert NoRedRed(Node(Black, t2, b, t3));
      assert t1.Node? && t1.color == Black;
      assert NoRedRedBelowRoot(Paint(Red, t1)) by {
        assert Paint(Black, Paint(Red, t1)) == t1;
      }
      BalanceLeftColors(Paint(Red, t1), a1, t2);
      assert NoRedRed(Node(Black, t3, a, r));
    }
  }

  // ---------------------------------------------------------------------
  // Unlinking the rightmost item
  // ---------------------------------------------------------------------

  /** Removes the rightmost item of a non-empty subtree, returning it and the rebalanced rest. */
  function SplitMax<V>(t: Tree<V>): (Item<V>, Tree<V>)
    requires t.Node?
  {
    var Node(_, l, a, r) := t;
    if r.Leaf? then (a, l)
    else
      var (m, r') := SplitMax(r);
      (m, if ColorOf(r) == Black then BalanceDelRight(l, a, r') else Node(Red, l, a, r'))
  }

  /** The item split off is the rightmost one, and the rest holds every other item. */
  lemma {:induction false} SplitMaxEntries<V>(t: Tree<V>)
    requires t.Node? && Ordered(t)
    ensures SplitMax(t).0 == Rightmost(t)
    ensures Entries(t) == Entries(SplitMax(t).1) + {SplitMax(t).0}
  {
    var Node(c, l, a, r) := t;
    if r.Node? {
      SplitMaxEntries(r);
      var (m, r') := SplitMax(r);
      BalanceDelRightEntries(l, a, r');
    }
  }

  /** The rest is a search tree whose keys all lie below the key split off. */
  lemma {:induction false} SplitMaxOrdered<V>(t: Tree<V>)
    requires t.Node? && Ordered(t)
    ensures Ordered(SplitMax(t).1)
    ensures Keys(t) == Keys(SplitMax(t).1) + {SplitMax(t).0.key}
    ensures forall j :: j in Keys(SplitMax(t).1) ==> j < SplitMax(t).0.key
  {
    var Node(c, l, a, r) := t;
    SplitMaxEntries(t);
    KeysOfAdded(t, SplitMax(t).1, SplitMax(t).0);
    if r.Node? {
      SplitMaxOrdered(r);
      var (m, r') := SplitMax(r);
      assert m.key in Keys(r);
      assert Ordered(Node(Black, l, a, r'));
      BalanceDelRightEntries(l, a, r');
      if ColorOf(r) == Black {
        BalanceDelRightOrdered(l, a, r');
      }
    }
  }

  /**
   * Splitting off the rightmost item keeps the black balance; the black-height
   * drops by one exactly when the root was black, and then at most a red-red
   * edge at the top remains.
   */
  lemma {:induction false} SplitMaxColors<V>(t: Tree<V>)
    requires t.Node? && NoRedRed(t) && BlackBalanced(t)
    ensures BlackBalanced(SplitMax(t).1)
    ensures t.color == Red ==> BlackHeight(SplitMax(t).1) == BlackHeight(t) && NoRedRed(SplitMax(t).1)
    ensures t.color == Black ==> BlackHeight(SplitMax(t).1) + 1 == BlackHeight(t) && NoRedRedBelowRoot(SplitMax(t).1)
  {
    var Node(c, l, a, r) := t;
    if r.Leaf? {
      if c == Black {
        PaintBlackKeepsNoRedRed(l);
      }
    } else {
      SplitMaxColors(r);
      var (m, r') := SplitMax(r);
      if ColorOf(r) == Black {
        BalanceDelRightColors(l, a, r');
      } else {
        assert NoRedRed(Node(Black, l, a, r'));
      }
    }
  }

  // ---------------------------------------------------------------------
  // Deletion
  // ---------------------------------------------------------------------

  /** Deletion below the root; an absent key changes no item, though colours may move. */
  function Del<V>(t: Tree<V>, k: int): Tree<V> {
    match t
    case Leaf => Leaf
    case Node(_, l, a, r) =>
      if k < a.key then
        var l' := Del(l, k);
        if l.Node? && l.color == Black then BalanceDelLeft(l', a, r) else Node(Red, l', a, r)
      else if a.key < k then
        var r' := Del(r, k);
        if r.Node? && r.color == Black then BalanceDelRight(l, a, r') else Node(Red, l, a, r')
      else if l.Leaf? then r
      else
        var (m, l') := SplitMax(l);
        if l.color == Black then BalanceDelLeft(l', m, r) else Node(Red, l', m, r)
  }

  /** Removing the items of key `k` from the three parts of an ordered node. */
  lemma WithoutNode<V>(l: Tree<V>, a: Item<V>, r: Tree<V>, k: int)
    requires Ordered(Node(Black, l, a, r))
    ensures k < a.key ==> Without(Entries(Node(Black, l, a, r)), k) == Without(Entries(l), k) + {a} + Entries(r)
    ensures a.key < k ==> Without(Entries(Node(Black, l, a, r)), k) == Entries(l) + {a} + Without(Entries(r), k)
    ensures a.key == k ==> Without(Entries(Node(Black, l, a, r)), k) == Entries(l) + Entries(r)
  {
    EntryKeys(l);
    EntryKeys(r);
  }

  /** Deletion in the left subtree keeps the search order, given that it does so there. */
  lemma DelLeftOrdered<V>(c: Color, l: Tree<V>, a: Item<V>, r: Tree<V>, k: int)
    requires Ordered(Node(c, l, a, r)) && k < a.key
    requires Ordered(Del(l, k)) && Keys(Del(l, k)) == Keys(l) - {k}
    ensures Ordered(Del(Node(c, l, a, r), k))
  {
    var l' := Del(l, k);
    assert Ordered(Node(Black, l', a, r));
    if l.Node? && l.color == Black {
      BalanceDelLeftOrdered(l', a, r);
    }
  }

  /** Deletion in the left subtree rebuilds the node from the same parts. */
  lemma DelLeftParts<V>(c: Color, l: Tree<V>, a: Item<V>, r: Tree<V>, k: int)
    requires k < a.key
    ensures Entries(Del(Node(c, l, a, r), k)) == Entries(Del(l, k)) + {a} + Entries(r)
  {
    BalanceDelLeftEntries(Del(l, k), a, r);
  }

  /** Deletion in the left subtree removes the items of key `k`, given that it does so there. */
  lemma DelLeftEntries<V>(c: Color, l: Tree<V>, a: Item<V>, r: Tree<V>, k: int)
    requires Ordered(Node(c, l, a, r)) && k < a.key
    requires Entries(Del(l, k)) == Without(Entries(l), k)
    ensures Entries(Del(Node(c, l, a, r), k)) == Without(Entries(Node(c, l, a, r)), k)
  {
    DelLeftParts(c, l, a, r, k);
    WithoutNode(l, a, r, k);
  }

  lemma DelRightOrdered<V>(c: Color, l: Tree<V>, a: Item<V>, r: Tree<V>, k: int)
    requires Ordered(Node(c, l, a, r)) && a.key < k
    requires Ordered(Del(r, k)) && Keys(Del(r, k)) == Keys(r) - {k}
    ensures Ordered(Del(Node(c, l, a, r), k))
  {
    var r' := Del(r, k);
    assert Ordered(Node(Black, l, a, r'));
    if r.Node? && r.color == Black {
      BalanceDelRightOrdered(l, a, r');
    }
  }

  /** Deletion in the right subtree rebuilds the node from the same parts. */
  lemma DelRightParts<V>(c: Color, l: Tree<V>, a: Item<V>, r: Tree<V>, k: int)
    requires a.key < k
    ensures Entries(Del(Node(c, l, a, r), k)) == Entries(l) + {a} + Entries(Del(r, k))
  {
    BalanceDelRightEntries(l, a, Del(r, k));
  }

  lemma DelRightEntries<V>(c: Color, l: Tree<V>, a: Item<V>, r: Tree<V>, k: int)
    requires Ordered(Node(c, l, a, r)) && a.key < k
    requires Entries(Del(r, k)) == Without(Entries(r), k)
    ensures Entries(Del(Node(c, l, a, r), k)) == Without(Entries(Node(c, l, a, r)), k)
  {
    DelRightParts(c, l, a, r, k);
    WithoutNode(l, a, r, k);
  }

  /** Deleting the node's own key: its predecessor, if any, takes its place, in search order. */
  lemma DelHereOrdered<V>(c: Color, l: Tree<V>, a: Item<V>, r: Tree<V>)
    requires Ordered(Node(c, l, a, r))
    ensures Ordered(Del(Node(c, l, a, r), a.key))
  {
    if l.Node? {
      SplitMaxOrdered(l);
      var (m, l') := SplitMax(l);
      assert m.key in Keys(l);
      assert Ordered(Node(Black, l', m, r));
      if l.color == Black {
        BalanceDelLeftOrdered(l', m, r);
      }
    }
  }

  /** Deleting the node's own key removes exactly that node's item. */
  lemma DelHereEntries<V>(c: Color, l: Tree<V>, a: Item<V>, r: Tree<V>)
    requires Ordered(Node(c, l, a, r))
    ensures Entries(Del(Node(c, l, a, r), a.key)) == Without(Entries(Node(c, l, a, r)), a.key)
  {
    WithoutNode(l, a, r, a.key);
    if l.Node? {
      SplitMaxEntries(l);
      var (m, l') := SplitMax(l);
      BalanceDelLeftEntries(l', m, r);
    }
  }

  /** Deletion removes exactly the items of key `k` and keeps the search order. */
  lemma {:induction false} DelContents<V>(t: Tree<V>, k: int)
    requires Ordered(t)
    ensures Ordered(Del(t, k))
    ensures Keys(Del(t, k)) == Keys(t) - {k}
    ensures Entries(Del(t, k)) == Without(Entries(t), k)
  {
    match t
    case Leaf =>
    case Node(c, l, a, r) =>
      if k < a.key {
        DelContents(l, k);
        DelLeftOrdered(c, l, a, r, k);
        DelLeftEntries(c, l, a, r, k);
      } else if a.key < k {
        DelContents(r, k);
        DelRightOrdered(c, l, a, r, k);
        DelRightEntries(c, l, a, r, k);
      } else {
        DelHereOrdered(c, l, a, r);
        DelHereEntries(c, l, a, r);
      }
      KeysOfWithout(Del(t, k), t, k);
  }

  /**
   * Deletion keeps the black balance; below a black node the black-height
   * drops by one and at most a red-red edge at the top remains, below a red
   * one neither happens.
   */
  lemma {:induction false} DelColors<V>(t: Tree<V>, k: int)
    requires NoRedRed(t) && BlackBalanced(t)
    ensures BlackBalanced(Del(t, k))
    ensures ColorOf(t) == Red ==> BlackHeight(Del(t, k)) == BlackHeight(t) && NoRedRed(Del(t, k))
    ensures t.Node? && t.color == Black ==>
      BlackHeight(Del(t, k)) + 1 == BlackHeight(t) && NoRedRedBelowRoot(Del(t, k))
  {
    match t
    case Leaf =>
    case Node(c, l, a, r) =>
      if k < a.key {
        DelColors(l, k);
        var l' := Del(l, k);
        if l.Node? && l.color == Black {
          BalanceDelLeftColors(l', a, r);
        } else {
          assert NoRedRed(Node(Black, l', a, r));
        }
      } else if a.key < k {
        DelColors(r, k);
        var r' := Del(r, k);
        if r.Node? && r.color == Black {
          BalanceDelRightColors(l, a, r');
        } else {
          assert NoRedRed(Node(Black, l, a, r'));
        }
      } else if l.Leaf? {
        PaintBlackKeepsNoRedRed(r);
      } else {
        SplitMaxColors(l);
        var (m, l') := SplitMax(l);
        if l.color == Black {
          BalanceDelLeftColors(l', m, r);
        } else {
          assert NoRedRed(Node(Black, l', m, r));
        }
      }
  }

  /** Deletion of key `k`: `Del` followed by painting the root black. */
  function DeleteTree<V>(t: Tree<V>, k: int): (r: Tree<V>)
    requires IsRedBlack(t) && Ordered(t)
    ensures IsRedBlack(r) && Ordered(r)
    ensures Keys(r) == Keys(t) - {k}
    ensures Entries(r) == Without(Entries(t), k)
    ensures Count(r) == Count(t) - (if k in Keys(t) then 1 else 0)
  {
    DelContents(t, k);
    DelColors(t, k);
    var r := Paint(Black, Del(t, k));
    CountIsKeys(t);
    CountIsKeys(r);
    r
  }
}
