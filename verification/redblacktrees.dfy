/**
 * The public face of the red-black tree class: a root together with the
 * size counter the class keeps, and the operations callers use. Items are
 * compared by key only, so "the item is in the tree" means "an item with an
 * equal key is stored", and `Search`, `Retrieve` and `Remove` need only the
 * key.
 */
module RedBlackTrees {
  import opened Options
  import opened Trees
  import opened Insertion
  import opened Deletion

  datatype RedBlackTree<V> = RedBlackTree(root: Tree<V>, size: nat)

  /** The class invariant: a red-black search tree whose size counter is its node count. */
  ghost predicate Valid<V>(t: RedBlackTree<V>) {
    IsRedBlack(t.root) && Ordered(t.root) && t.size == Count(t.root)
  }

  /** Outside key `k`, two search trees with the same items apart from key `k` answer lookups alike. */
  lemma LookupAwayFrom<V>(s: Tree<V>, t: Tree<V>, k: int)
    requires Ordered(s) && Ordered(t) && Without(Entries(s), k) == Without(Entries(t), k)
    ensures forall j :: j != k ==> Lookup(s, j) == Lookup(t, j)
  {
    forall j | j != k
      ensures Lookup(s, j) == Lookup(t, j)
    {
      if Lookup(s, j).Some? {
        assert Item(j, Lookup(s, j).value) in Without(Entries(t), k);
      } else if Lookup(t, j).Some? {
        assert Item(j, Lookup(t, j).value) in Without(Entries(s), k);
      }
    }
  }

  // ---------------------------------------------------------------------
  // Construction
  // ---------------------------------------------------------------------

  /** The default constructor: no root, size 0. */
  function Empty<V>(): (t: RedBlackTree<V>)
    ensures Valid(t) && t.size == 0 && Entries(t.root) == {}
  {
    RedBlackTree(Leaf, 0)
  }

  /** The copy constructor (and assignment): an independent tree with the same items and size. */
  function Copy<V>(t: RedBlackTree<V>): (c: RedBlackTree<V>)
    requires Valid(t)
    ensures Valid(c) && c.size == t.size
    ensures Entries(c.root) == Entries(t.root)
    ensures InOrder(c.root) == InOrder(t.root)
  {
    RedBlackTree(CopyTree(t.root), t.size)
  }

  // ---------------------------------------------------------------------
  // Accessors
  // ---------------------------------------------------------------------

  /** Whether an item with key `k` is stored. */
  function Search<V>(t: RedBlackTree<V>, k: int): (found: bool)
    requires Valid(t)
    ensures found <==> k in Keys(t.root)
    ensures found <==> exists e :: e in Entries(t.root) && e.key == k
  {
    EntryKeys(t.root);
    Lookup(t.root, k).Some?
  }

  /** The stored item with key `k`, or None (the null pointer) when there is none. */
  function Retrieve<V>(t: RedBlackTree<V>, k: int): (r: Option<Item<V>>)
    requires Valid(t)
    ensures r.Some? <==> Search(t, k)
    ensures r.Some? ==> r.value in Entries(t.root) && r.value.key == k
    ensures forall e :: e in Entries(t.root) && e.key == k ==> r == Some(e)
  {
    match Lookup(t.root, k)
    case None => None
    case Some(v) => Some(Item(k, v))
  }

  /** The in-order listing of the stored items. */
  function Dump<V>(t: RedBlackTree<V>): (s: seq<Item<V>>)
    requires Valid(t)
    ensures |s| == t.size
    ensures StrictlyAscending(s)
    ensures forall i :: 0 <= i < |s| ==> Retrieve(t, s[i].key) == Some(s[i])
    ensures forall k :: Search(t, k) ==> ListsKey(s, k)
  {
    var s := InOrder(t.root);
    InOrderSorted(t.root);
    InOrderKeys(t.root);
    KeysInOrder(t.root);
    s
  }

  /** The number of stored items. */
  function Size<V>(t: RedBlackTree<V>): (n: nat)
    requires Valid(t)
    ensures n == |Keys(t.root)|
  {
    CountIsKeys(t.root);
    t.size
  }

  /**
   * The number of nodes on the longest path from the root to a nil child:
   * 0 for an empty tree, 1 for a single node, and, by the red-black
   * invariants, at most about twice the logarithm of the size.
   */
  function TreeHeight<V>(t: RedBlackTree<V>): (h: nat)
    requires Valid(t)
    ensures t.root.Leaf? ==> h == 0
    ensures t.root.Node? && t.root.left.Leaf? && t.root.right.Leaf? ==> h == 1
    ensures forall p :: IsNullPath(t.root, p) ==> |p| <= h
    ensures exists p :: IsNullPath(t.root, p) && |p| == h
    ensures Pow2(h) <= (t.size + 1) * (t.size + 1)
  {
    HeightIsLongestPath(t.root);
    HeightBound(t.root);
    Height(t.root)
  }

  // ---------------------------------------------------------------------
  // Mutators
  // ---------------------------------------------------------------------

  /**
   * Inserts `x` unless an item with its key is already stored; reports
   * whether it did.
   */
  function Insert<V>(t: RedBlackTree<V>, x: Item<V>): (res: (RedBlackTree<V>, bool))
    requires Valid(t)
    ensures Valid(res.0)
    ensures res.1 <==> !Search(t, x.key)
    ensures !res.1 ==> res.0 == t
    ensures res.1 ==> res.0.size == t.size + 1 && Entries(res.0.root) == Entries(t.root) + {x}
    ensures Search(res.0, x.key)
    ensures res.1 ==> Retrieve(res.0, x.key) == Some(x)
    ensures forall k :: k != x.key ==> Retrieve(res.0, k) == Retrieve(t, k)
  {
    if Search(t, x.key) then (t, false)
    else
      var r := InsertTree(t.root, x);
      LookupAwayFrom(r, t.root, x.key);
      (RedBlackTree(r, t.size + 1), true)
  }

  /**
   * Removes the item with key `k` if there is one; reports whether there
   * was.
   */
  function Remove<V>(t: RedBlackTree<V>, k: int): (res: (RedBlackTree<V>, bool))
    requires Valid(t)
    ensures Valid(res.0)
    ensures res.1 <==> Search(t, k)
    ensures !res.1 ==> res.0 == t
    ensures res.1 ==> res.0.size == t.size - 1
    ensures Entries(res.0.root) == Without(Entries(t.root), k)
    ensures !Search(res.0, k)
    ensures forall j :: j != k ==> Retrieve(res.0, j) == Retrieve(t, j)
  {
    if !Search(t, k) then
      assert Without(Entries(t.root), k) == Entries(t.root) by { EntryKeys(t.root); }
      (t, false)
    else
      var r := DeleteTree(t.root, k);
      LookupAwayFrom(r, t.root, k);
      (RedBlackTree(r, t.size - 1), true)
  }

  /** Deletes every node: the tree is left empty with size 0. */
  function RemoveAll<V>(t: RedBlackTree<V>): (r: RedBlackTree<V>)
    ensures Valid(r) && r.size == 0
    ensures forall k :: !Search(r, k)
  {
    Empty()
  }

  /**
   * Writing a new value through the handle `Retrieve` returned: the item
   * with key `k` now holds `v`, nothing else changes, and the tree stays
   * valid because the key is left alone.
   */
  function WriteRetrieved<V>(t: RedBlackTree<V>, k: int, v: V): (r: RedBlackTree<V>)
    requires Valid(t)
    ensures Valid(r) && r.size == t.size
    ensures Search(t, k) ==> Retrieve(r, k) == Some(Item(k, v))
    ensures !Search(t, k) ==> r == t
    ensures forall j :: j != k ==> Retrieve(r, j) == Retrieve(t, j)
  {
    if Search(t, k) then
      var root := SetValue(t.root, k, v);
      CountIsKeys(t.root);
      CountIsKeys(root);
      RedBlackTree(root, t.size)
    else t
  }

  // ---------------------------------------------------------------------
  // Relations between the operations
  // ---------------------------------------------------------------------

  /** Removing a freshly inserted item gives back the original items and size. */
  lemma RemoveUndoesInsert<V>(t: RedBlackTree<V>, x: Item<V>)
    requires Valid(t) && !Search(t, x.key)
    ensures Remove(Insert(t, x).0, x.key).1
    ensures Entries(Remove(Insert(t, x).0, x.key).0.root) == Entries(t.root)
    ensures Remove(Insert(t, x).0, x.key).0.size == t.size
  {
    var t1 := Insert(t, x).0;
    var t2 := Remove(t1, x.key).0;
    EntryKeys(t.root);
    assert Entries(t2.root) == Without(Entries(t.root) + {x}, x.key);
  }

  /** Re-inserting an item just removed restores the original items and size. */
  lemma InsertUndoesRemove<V>(t: RedBlackTree<V>, x: Item<V>)
    requires Valid(t) && Retrieve(t, x.key) == Some(x)
    ensures Insert(Remove(t, x.key).0, x).1
    ensures Entries(Insert(Remove(t, x.key).0, x).0.root) == Entries(t.root)
    ensures Insert(Remove(t, x.key).0, x).0.size == t.size
  {
    var t1 := Remove(t, x.key).0;
    var t2 := Insert(t1, x).0;
    EntryKeys(t.root);
    assert Entries(t2.root) == Without(Entries(t.root), x.key) + {x};
    forall e | e in Entries(t.root)
      ensures e in Entries(t2.root)
    {
      if e.key == x.key {
        assert Retrieve(t, x.key) == Some(e);
      }
    }
  }

  /** The listing of a copy is the listing of the original. */
  lemma CopyDumpsAlike<V>(t: RedBlackTree<V>)
    requires Valid(t)
    ensures Dump(Copy(t)) == Dump(t)
  {
  }
}
