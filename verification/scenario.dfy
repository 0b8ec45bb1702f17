/**
 * A worked example on concrete trees: seven insertions that build a perfectly
 * balanced tree of height 3 rooted at 50, two removals from it (the second
 * one of the root), and a write through a retrieved item. Every step is
 * computed by the verifier from the definitions of the operations, one
 * operation per lemma so that each computation stays small.
 */
module Scenario {
  import opened Options
  import opened Trees
  import opened Deletion
  import opened RedBlackTrees

  /** A red node with no children holding key `k`. */
  function R(k: int): Tree<int> {
    Node(Red, Leaf, Item(k, 0), Leaf)
  }

  /** A black node holding key `k`. */
  function B(l: Tree<int>, k: int, r: Tree<int>): Tree<int> {
    Node(Black, l, Item(k, 0), r)
  }

  /** The tree the seven insertions build. */
  function Seven(): RedBlackTree<int> {
    RedBlackTree(B(B(R(20), 30, R(40)), 50, B(R(60), 70, R(80))), 7)
  }

  /** The tree left after removing 20. */
  function Six(): RedBlackTree<int> {
    RedBlackTree(B(B(Leaf, 30, R(40)), 50, B(R(60), 70, R(80))), 6)
  }

  /** The tree left after removing 20 and then 50. */
  function Five(): RedBlackTree<int> {
    RedBlackTree(B(B(Leaf, 30, Leaf), 40, B(R(60), 70, R(80))), 5)
  }

  // ---------------------------------------------------------------------
  // Seven insertions
  // ---------------------------------------------------------------------

  lemma Step1()
    ensures Insert(Empty(), Item(50, 0)) == (RedBlackTree(B(Leaf, 50, Leaf), 1), true)
  {
  }

  lemma Step2()
    ensures Valid(RedBlackTree(B(Leaf, 50, Leaf), 1))
    ensures Insert(RedBlackTree(B(Leaf, 50, Leaf), 1), Item(30, 0))
         == (RedBlackTree(B(R(30), 50, Leaf), 2), true)
  {
  }

  lemma Step3()
    ensures Valid(RedBlackTree(B(R(30), 50, Leaf), 2))
    ensures Insert(RedBlackTree(B(R(30), 50, Leaf), 2), Item(70, 0))
         == (RedBlackTree(B(R(30), 50, R(70)), 3), true)
  {
  }

  /** The red uncle 70 is recoloured: 30 and 70 turn black. */
  lemma Step4()
    ensures Valid(RedBlackTree(B(R(30), 50, R(70)), 3))
    ensures Insert(RedBlackTree(B(R(30), 50, R(70)), 3), Item(20, 0))
         == (RedBlackTree(B(B(R(20), 30, Leaf), 50, B(Leaf, 70, Leaf)), 4), true)
  {
  }

  lemma Step5()
    ensures Valid(RedBlackTree(B(B(R(20), 30, Leaf), 50, B(Leaf, 70, Leaf)), 4))
    ensures Insert(RedBlackTree(B(B(R(20), 30, Leaf), 50, B(Leaf, 70, Leaf)), 4), Item(40, 0))
         == (RedBlackTree(B(B(R(20), 30, R(40)), 50, B(Leaf, 70, Leaf)), 5), true)
  {
  }

  lemma Step6()
    ensures Valid(RedBlackTree(B(B(R(20), 30, R(40)), 50, B(Leaf, 70, Leaf)), 5))
    ensures Insert(RedBlackTree(B(B(R(20), 30, R(40)), 50, B(Leaf, 70, Leaf)), 5), Item(60, 0))
         == (RedBlackTree(B(B(R(20), 30, R(40)), 50, B(R(60), 70, Leaf)), 6), true)
  {
  }

  lemma Step7()
    ensures Valid(RedBlackTree(B(B(R(20), 30, R(40)), 50, B(R(60), 70, Leaf)), 6))
    ensures Insert(RedBlackTree(B(B(R(20), 30, R(40)), 50, B(R(60), 70, Leaf)), 6), Item(80, 0))
         == (Seven(), true)
  {
  }

  /**
   * Inserting 50, 30, 70, 20, 40, 60 and 80 into an empty tree, in that
   * order, builds Seven(): every insertion succeeds, and the root is black
   * and holds 50.
   */
  lemma SevenInsertions()
    ensures
      var t1 := Insert(Empty(), Item(50, 0)).0;
      var t2 := Insert(t1, Item(30, 0)).0;
      var t3 := Insert(t2, Item(70, 0)).0;
      var t4 := Insert(t3, Item(20, 0)).0;
      var t5 := Insert(t4, Item(40, 0)).0;
      var t6 := Insert(t5, Item(60, 0)).0;
      var t7 := Insert(t6, Item(80, 0)).0;
      && t7 == Seven()
      && t7.root.item.key == 50 && t7.root.color == Black
  {
    Step1(); Step2(); Step3(); Step4(); Step5(); Step6(); Step7();
  }

  lemma SevenValid()
    ensures Valid(Seven())
  {
    Step7();
  }

  lemma SevenListing()
    ensures InOrder(Seven().root)
         == [Item(20, 0), Item(30, 0), Item(40, 0), Item(50, 0), Item(60, 0), Item(70, 0), Item(80, 0)]
  {
    assert InOrder(B(R(20), 30, R(40))) == [Item(20, 0), Item(30, 0), Item(40, 0)];
    assert InOrder(B(R(60), 70, R(80))) == [Item(60, 0), Item(70, 0), Item(80, 0)];
  }

  lemma SevenHeight()
    ensures Height(Seven().root) == 3
  {
    assert Height(B(R(20), 30, R(40))) == 2;
    assert Height(B(R(60), 70, R(80))) == 2;
  }

  /** The tree the insertions build has size 7, height 3 and an ascending listing. */
  lemma SevenShape()
    ensures Valid(Seven())
    ensures Size(Seven()) == 7 && TreeHeight(Seven()) == 3
    ensures Dump(Seven())
         == [Item(20, 0), Item(30, 0), Item(40, 0), Item(50, 0), Item(60, 0), Item(70, 0), Item(80, 0)]
  {
    SevenValid();
    SevenListing();
    SevenHeight();
  }

  // ---------------------------------------------------------------------
  // Two removals
  // ---------------------------------------------------------------------

  /** Removing 20, a red node with no children, needs no rebalancing. */
  lemma DelTwenty()
    ensures Del(Seven().root, 20) == Node(Red, B(Leaf, 30, R(40)), Item(50, 0), B(R(60), 70, R(80)))
  {
    assert Del(B(R(20), 30, R(40)), 20) == Node(Red, Leaf, Item(30, 0), R(40));
  }

  /** Removing the root 50: its predecessor 40 takes its place. */
  lemma DelFifty()
    ensures Del(Six().root, 50) == Node(Red, B(Leaf, 30, Leaf), Item(40, 0), B(R(60), 70, R(80)))
  {
    assert SplitMax(B(Leaf, 30, R(40))) == (Item(40, 0), Node(Red, Leaf, Item(30, 0), Leaf));
  }

  lemma RemoveTwenty()
    ensures Valid(Seven())
    ensures Remove(Seven(), 20) == (Six(), true)
  {
    SevenValid();
    DelTwenty();
  }

  lemma RemoveFifty()
    ensures Valid(Six())
    ensures Remove(Six(), 50) == (Five(), true)
  {
    RemoveTwenty();
    DelFifty();
  }

  lemma FiveListing()
    ensures InOrder(Five().root) == [Item(30, 0), Item(40, 0), Item(60, 0), Item(70, 0), Item(80, 0)]
  {
    assert InOrder(B(R(60), 70, R(80))) == [Item(60, 0), Item(70, 0), Item(80, 0)];
  }

  /**
   * After removing 20 and then the root 50 from the seven-item tree, both
   * removals succeed, five items remain, listed in ascending order, and 50
   * is no longer found.
   */
  lemma RemoveTwentyThenRoot()
    ensures Valid(Seven())
    ensures
      var (t1, ok1) := Remove(Seven(), 20);
      var (t2, ok2) := Remove(t1, 50);
      && ok1 && ok2
      && Valid(t2)
      && Size(t2) == 5
      && Dump(t2) == [Item(30, 0), Item(40, 0), Item(60, 0), Item(70, 0), Item(80, 0)]
      && !Search(t2, 50)
  {
    RemoveTwenty();
    RemoveFifty();
    FiveListing();
  }

  // ---------------------------------------------------------------------
  // Writing through a retrieved item
  // ---------------------------------------------------------------------

  /** Seven() with the value under 40 replaced by 1. */
  function SevenWritten(): RedBlackTree<int> {
    RedBlackTree(B(B(R(20), 30, Node(Red, Leaf, Item(40, 1), Leaf)), 50, B(R(60), 70, R(80))), 7)
  }

  lemma WriteForty()
    ensures Valid(Seven())
    ensures Retrieve(Seven(), 40) == Some(Item(40, 0))
    ensures WriteRetrieved(Seven(), 40, 1) == SevenWritten()
  {
    SevenValid();
  }

  lemma SevenWrittenListing()
    ensures InOrder(SevenWritten().root)
         == [Item(20, 0), Item(30, 0), Item(40, 1), Item(50, 0), Item(60, 0), Item(70, 0), Item(80, 0)]
  {
    assert InOrder(B(R(20), 30, Node(Red, Leaf, Item(40, 1), Leaf))) == [Item(20, 0), Item(30, 0), Item(40, 1)];
    assert InOrder(B(R(60), 70, R(80))) == [Item(60, 0), Item(70, 0), Item(80, 0)];
  }

  /**
   * Writing a new value through the item retrieved under 40 is seen by the
   * next retrieval, and the size and the order of the keys stay as they were.
   */
  lemma WriteThroughRetrieved()
    ensures Valid(Seven())
    ensures Retrieve(Seven(), 40) == Some(Item(40, 0))
    ensures
      var t := WriteRetrieved(Seven(), 40, 1);
      && Retrieve(t, 40) == Some(Item(40, 1))
      && Size(t) == 7
      && Dump(t) == [Item(20, 0), Item(30, 0), Item(40, 1), Item(50, 0), Item(60, 0), Item(70, 0), Item(80, 0)]
  {
    WriteForty();
    SevenWrittenListing();
  }
}
