/**
 * The node-level model of the red-black tree: the node datatype, the
 * abstraction of a tree to the set of items it stores, the search-tree order,
 * the red-black invariants, and the read-only traversals and helpers of the
 * tree class (search, in-order walk, height, predecessor, copy, rotations,
 * plain BST insertion, and writing through a retrieved handle).
 *
 * The C++ nodes are linked by pointers with parent back-links; here a tree
 * is an immutable value, so parent links and deallocation do not appear.
 */
module Trees {
  import opened Options

  datatype Color = Red | Black

  /** A stored element: the key the tree is ordered by, and the rest of it. */
  datatype Item<V> = Item(key: int, value: V)

  datatype Tree<V> = Leaf | Node(color: Color, left: Tree<V>, item: Item<V>, right: Tree<V>)

  /** Absent children ("nil leaves") count as black. */
  function ColorOf<V>(t: Tree<V>): Color {
    if t.Leaf? then Black else t.color
  }

  function Paint<V>(c: Color, t: Tree<V>): Tree<V> {
    match t
    case Leaf => Leaf
    case Node(_, l, x, r) => Node(c, l, x, r)
  }

  function Max(a: nat, b: nat): nat {
    if a < b then b else a
  }

  // ---------------------------------------------------------------------
  // Abstraction: the keys and items stored in a tree
  // ---------------------------------------------------------------------

  ghost function Keys<V>(t: Tree<V>): set<int> {
    match t
    case Leaf => {}
    case Node(_, l, x, r) => Keys(l) + {x.key} + Keys(r)
  }

  ghost function Entries<V>(t: Tree<V>): set<Item<V>> {
    match t
    case Leaf => {}
    case Node(_, l, x, r) => Entries(l) + {x} + Entries(r)
  }

  /** The items of `s` whose key is not `k`. */
  ghost function Without<V>(s: set<Item<V>>, k: int): set<Item<V>> {
    set e | e in s && e.key != k
  }

  /** The number of real (non-nil) nodes. */
  function Count<V>(t: Tree<V>): nat {
    match t
    case Leaf => 0
    case Node(_, l, _, r) => Count(l) + 1 + Count(r)
  }

  lemma {:induction false} EntryKeys<V>(t: Tree<V>)
    ensures forall e :: e in Entries(t) ==> e.key in Keys(t)
    ensures forall k :: k in Keys(t) ==> exists v :: Item(k, v) in Entries(t)
  {
    match t
    case Leaf =>
    case Node(_, l, x, r) =>
      EntryKeys(l);
      EntryKeys(r);
      forall k | k in Keys(t)
        ensures exists v :: Item(k, v) in Entries(t)
      {
        if k == x.key {
          assert Item(k, x.value) in Entries(t);
        }
      }
  }

  /** Adding one item adds its key. */
  lemma KeysOfAdded<V>(a: Tree<V>, b: Tree<V>, x: Item<V>)
    requires Entries(a) == Entries(b) + {x}
    ensures Keys(a) == Keys(b) + {x.key}
  {
    EntryKeys(a);
    EntryKeys(b);
    forall k | k in Keys(a)
      ensures k in Keys(b) + {x.key}
    {
      var v :| Item(k, v) in Entries(a);
    }
    forall k | k in Keys(b)
      ensures k in Keys(a)
    {
      var v :| Item(k, v) in Entries(b);
    }
  }

  /** Dropping the items of key `k` drops exactly that key. */
  lemma KeysOfWithout<V>(a: Tree<V>, b: Tree<V>, k: int)
    requires Entries(a) == Without(Entries(b), k)
    ensures Keys(a) == Keys(b) - {k}
  {
    EntryKeys(a);
    EntryKeys(b);
    forall j | j in Keys(a)
      ensures j in Keys(b) - {k}
    {
      var v :| Item(j, v) in Entries(a);
    }
    forall j | j in Keys(b) - {k}
      ensures j in Keys(a)
    {
      var v :| Item(j, v) in Entries(b);
      assert Item(j, v) in Entries(a);
    }
  }

  // ---------------------------------------------------------------------
  // Invariants
  // ---------------------------------------------------------------------

  /** Global BST order: every key in a left subtree is below the node's, every key on the right above. */
  ghost predicate Ordered<V>(t: Tree<V>) {
    match t
    case Leaf => true
    case Node(_, l, x, r) =>
      && Ordered(l)
      && Ordered(r)
      && (forall k :: k in Keys(l) ==> k < x.key)
      && (forall k :: k in Keys(r) ==> x.key < k)
  }

  /** Number of black nodes from the root down to a nil leaf along the leftmost path. */
  ghost function BlackHeight<V>(t: Tree<V>): nat {
    match t
    case Leaf => 0
    case Node(c, l, _, _) => BlackHeight(l) + (if c == Black then 1 else 0)
  }

  /** Both children of every node have the same black-height. */
  ghost predicate BlackBalanced<V>(t: Tree<V>) {
    match t
    case Leaf => true
    case Node(_, l, _, r) => BlackBalanced(l) && BlackBalanced(r) && BlackHeight(l) == BlackHeight(r)
  }

  /** No red node has a red child. */
  ghost predicate NoRedRed<V>(t: Tree<V>) {
    match t
    case Leaf => true
    case Node(c, l, _, r) =>
      && (c == Red ==> ColorOf(l) == Black && ColorOf(r) == Black)
      && NoRedRed(l)
      && NoRedRed(r)
  }

  /** No red-red edge, except possibly between the root and a child. */
  ghost predicate NoRedRedBelowRoot<V>(t: Tree<V>) {
    NoRedRed(Paint(Black, t))
  }

  /** The red-black invariants: black root, no red-red edge, uniform black-height. */
  ghost predicate IsRedBlack<V>(t: Tree<V>) {
    ColorOf(t) == Black && NoRedRed(t) && BlackBalanced(t)
  }

  lemma {:induction false} CountIsKeys<V>(t: Tree<V>)
    requires Ordered(t)
    ensures Count(t) == |Keys(t)|
  {
    match t
    case Leaf =>
    case Node(_, l, x, r) =>
      CountIsKeys(l);
      CountIsKeys(r);
      var b := Keys(l) + {x.key};
      assert |b| == |Keys(l)| + 1;
      forall k | k in b * Keys(r)
        ensures false
      {
      }
      assert b * Keys(r) == {};
  }

  // ---------------------------------------------------------------------
  // Node constructor
  // ---------------------------------------------------------------------

  /** A freshly created node: red, with no children. */
  function NewNode<V>(x: Item<V>): (n: Tree<V>)
    ensures n.Node? && n.color == Red && n.left == Leaf && n.right == Leaf && n.item == x
    ensures Entries(n) == {x} && Ordered(n)
    ensures NoRedRed(n) && BlackBalanced(n) && BlackHeight(n) == 0
  {
    Node(Red, Leaf, x, Leaf)
  }

  // ---------------------------------------------------------------------
  // Search and retrieval
  // ---------------------------------------------------------------------

  /** BST descent: the value stored under key `k`, if any. */
  function Lookup<V>(t: Tree<V>, k: int): (r: Option<V>)
    requires Ordered(t)
    ensures r.Some? <==> k in Keys(t)
    ensures r.Some? ==> Item(k, r.value) in Entries(t)
    ensures forall e :: e in Entries(t) && e.key == k ==> r == Some(e.value)
  {
    match t
    case Leaf => None
    case Node(_, l, x, r) =>
      EntryKeys(l);
      EntryKeys(r);
      if k < x.key then Lookup(l, k)
      else if x.key < k then Lookup(r, k)
      else Some(x.value)
  }

  // ---------------------------------------------------------------------
  // In-order traversal
  // ---------------------------------------------------------------------

  ghost predicate StrictlyAscending<V>(s: seq<Item<V>>) {
    forall i, j :: 0 <= i < j < |s| ==> s[i].key < s[j].key
  }

  function InOrder<V>(t: Tree<V>): (s: seq<Item<V>>)
    ensures |s| == Count(t)
  {
    match t
    case Leaf => []
    case Node(_, l, x, r) => InOrder(l) + [x] + InOrder(r)
  }

  /** The in-order walk lists exactly the stored items. */
  lemma {:induction false} InOrderEntries<V>(t: Tree<V>)
    ensures forall e :: e in InOrder(t) <==> e in Entries(t)
  {
    match t
    case Leaf =>
    case Node(_, l, x, r) =>
      InOrderEntries(l);
      InOrderEntries(r);
  }

  /** Every item listed by the in-order walk is stored in the tree, and so is its key. */
  lemma {:induction false} InOrderKeys<V>(t: Tree<V>)
    ensures forall i :: 0 <= i < |InOrder(t)| ==> InOrder(t)[i].key in Keys(t)
    ensures forall i :: 0 <= i < |InOrder(t)| ==> InOrder(t)[i] in Entries(t)
  {
    match t
    case Leaf =>
    case Node(_, l, x, r) =>
      InOrderKeys(l);
      InOrderKeys(r);
      var sl, sr := InOrder(l), InOrder(r);
      var s := InOrder(t);
      forall i | 0 <= i < |s|
        ensures s[i].key in Keys(t) && s[i] in Entries(t)
      {
        if i < |sl| {
          assert s[i] == sl[i];
        } else if i > |sl| {
          assert s[i] == sr[i - |sl| - 1];
        }
      }
  }

  lemma JoinAscending<V>(a: seq<Item<V>>, x: Item<V>, b: seq<Item<V>>)
    requires StrictlyAscending(a) && StrictlyAscending(b)
    requires forall i :: 0 <= i < |a| ==> a[i].key < x.key
    requires forall i :: 0 <= i < |b| ==> x.key < b[i].key
    ensures StrictlyAscending(a + [x] + b)
  {
    var s := a + [x] + b;
    forall i, j | 0 <= i < j < |s|
      ensures s[i].key < s[j].key
    {
      if j < |a| {
        assert s[i] == a[i] && s[j] == a[j];
      } else if i > |a| {
        assert s[i] == b[i - |a| - 1] && s[j] == b[j - |a| - 1];
      } else if i == |a| {
        assert s[j] == b[j - |a| - 1];
      } else if j == |a| {
        assert s[i] == a[i];
      } else {
        assert s[i] == a[i] && s[j] == b[j - |a| - 1];
      }
    }
  }

  /** The in-order walk of a search tree ascends strictly by key. */
  lemma {:induction false} InOrderSorted<V>(t: Tree<V>)
    requires Ordered(t)
    ensures StrictlyAscending(InOrder(t))
  {
    match t
    case Leaf =>
    case Node(_, l, x, r) =>
      InOrderSorted(l);
      InOrderSorted(r);
      InOrderKeys(l);
      InOrderKeys(r);
      JoinAscending(InOrder(l), x, InOrder(r));
  }

  /** Every stored key appears in the in-order walk. */
  ghost predicate ListsKey<V>(s: seq<Item<V>>, k: int) {
    exists i :: 0 <= i < |s| && s[i].key == k
  }

  lemma {:induction false} KeysInOrder<V>(t: Tree<V>)
    ensures forall k :: k in Keys(t) ==> ListsKey(InOrder(t), k)
  {
    match t
    case Leaf =>
    case Node(_, l, x, r) =>
      KeysInOrder(l);
      KeysInOrder(r);
      var sl, sr := InOrder(l), InOrder(r);
      var s := InOrder(t);
      forall k | k in Keys(t)
        ensures ListsKey(s, k)
      {
        if k in Keys(l) {
          var i :| 0 <= i < |sl| && sl[i].key == k;
          assert s[i] == sl[i];
          assert 0 <= i < |s| && s[i].key == k;
        } else if k == x.key {
          assert s[|sl|] == x;
          assert 0 <= |sl| < |s| && s[|sl|].key == k;
        } else {
          assert k in Keys(r);
          var i :| 0 <= i < |sr| && sr[i].key == k;
          assert s[|sl| + 1 + i] == sr[i];
          assert 0 <= |sl| + 1 + i < |s| && s[|sl| + 1 + i].key == k;
        }
      }
  }

  /** The parts of a strictly ascending sequence around one element ascend and lie on its two sides. */
  lemma SplitAscending<V>(a: seq<Item<V>>, x: Item<V>, b: seq<Item<V>>)
    requires StrictlyAscending(a + [x] + b)
    ensures StrictlyAscending(a) && StrictlyAscending(b)
    ensures forall i :: 0 <= i < |a| ==> a[i].key < x.key
    ensures forall i :: 0 <= i < |b| ==> x.key < b[i].key
  {
    var s := a + [x] + b;
    assert s[|a|] == x;
    forall i, j | 0 <= i < j < |a|
      ensures a[i].key < a[j].key
    {
      assert s[i] == a[i] && s[j] == a[j];
    }
    forall i, j | 0 <= i < j < |b|
      ensures b[i].key < b[j].key
    {
      assert s[|a| + 1 + i] == b[i] && s[|a| + 1 + j] == b[j];
    }
    forall i | 0 <= i < |a|
      ensures a[i].key < x.key
    {
      assert s[i] == a[i];
    }
    forall i | 0 <= i < |b|
      ensures x.key < b[i].key
    {
      assert s[|a| + 1 + i] == b[i];
    }
  }

  /** The converse: a tree whose in-order walk ascends strictly is a search tree. */
  lemma {:induction false} SortedInOrderIsOrdered<V>(t: Tree<V>)
    requires StrictlyAscending(InOrder(t))
    ensures Ordered(t)
  {
    match t
    case Leaf =>
    case Node(_, l, x, r) =>
      var sl, sr := InOrder(l), InOrder(r);
      SplitAscending(sl, x, sr);
      SortedInOrderIsOrdered(l);
      SortedInOrderIsOrdered(r);
      KeysInOrder(l);
      KeysInOrder(r);
      forall k | k in Keys(l)
        ensures k < x.key
      {
        var i :| 0 <= i < |sl| && sl[i].key == k;
      }
      forall k | k in Keys(r)
        ensures x.key < k
      {
        var i :| 0 <= i < |sr| && sr[i].key == k;
      }
  }

  // ---------------------------------------------------------------------
  // Height and root-to-null paths
  // ---------------------------------------------------------------------

  /** Node count on the longest root-to-null path; 0 for the empty tree. */
  function Height<V>(t: Tree<V>): nat {
    match t
    case Leaf => 0
    case Node(_, l, _, r) => 1 + Max(Height(l), Height(r))
  }

  /**
   * `p` leads from the root of `t` to a nil leaf: `true` steps left,
   * `false` steps right; |p| is the number of nodes passed.
   */
  ghost predicate IsNullPath<V>(t: Tree<V>, p: seq<bool>) {
    match t
    case Leaf => p == []
    case Node(_, l, _, r) => |p| > 0 && IsNullPath(if p[0] then l else r, p[1..])
  }

  /** Number of black nodes passed along a path. */
  ghost function BlacksOnPath<V>(t: Tree<V>, p: seq<bool>): nat
    requires IsNullPath(t, p)
  {
    match t
    case Leaf => 0
    case Node(c, l, _, r) =>
      (if c == Black then 1 else 0) + BlacksOnPath(if p[0] then l else r, p[1..])
  }

  /** A path that always descends into a child of maximal height. */
  ghost function LongestPath<V>(t: Tree<V>): (p: seq<bool>)
    ensures IsNullPath(t, p) && |p| == Height(t)
  {
    match t
    case Leaf => []
    case Node(_, l, _, r) =>
      if Height(r) <= Height(l) then
        var p := [true] + LongestPath(l);
        assert p[1..] == LongestPath(l);
        p
      else
        var p := [false] + LongestPath(r);
        assert p[1..] == LongestPath(r);
        p
  }

  /** Height is the length of the longest root-to-null path. */
  lemma {:induction false} HeightIsLongestPath<V>(t: Tree<V>)
    ensures forall p :: IsNullPath(t, p) ==> |p| <= Height(t)
    ensures exists p :: IsNullPath(t, p) && |p| == Height(t)
  {
    var w := LongestPath(t);
    match t
    case Leaf =>
    case Node(_, l, _, r) =>
      HeightIsLongestPath(l);
      HeightIsLongestPath(r);
      forall p | IsNullPath(t, p)
        ensures |p| <= Height(t)
      {
        assert IsNullPath(if p[0] then l else r, p[1..]);
      }
  }

  /** Uniform black-height: every root-to-null path passes the same number of black nodes. */
  lemma {:induction false} BalancedPathsAgree<V>(t: Tree<V>, p: seq<bool>)
    requires BlackBalanced(t) && IsNullPath(t, p)
    ensures BlacksOnPath(t, p) == BlackHeight(t)
  {
    match t
    case Leaf =>
    case Node(_, l, _, r) =>
      BalancedPathsAgree(if p[0] then l else r, p[1..]);
  }

  /** And conversely: a tree all of whose null paths agree on the black count is black-balanced. */
  lemma {:induction false} AgreeingPathsBalanced<V>(t: Tree<V>, n: nat)
    requires forall p :: IsNullPath(t, p) ==> BlacksOnPath(t, p) == n
    ensures BlackBalanced(t) && BlackHeight(t) == n
  {
    match t
    case Leaf =>
      assert IsNullPath(t, []);
    case Node(c, l, _, r) =>
      var b := if c == Black then 1 else 0;
      var wl, wr := LongestPath(l), LongestPath(r);
      assert ([true] + wl)[1..] == wl;
      assert ([false] + wr)[1..] == wr;
      assert IsNullPath(t, [true] + wl);
      assert BlacksOnPath(t, [true] + wl) == b + BlacksOnPath(l, wl);
      forall q | IsNullPath(l, q)
        ensures BlacksOnPath(l, q) == n - b
      {
        assert ([true] + q)[1..] == q;
        assert BlacksOnPath(t, [true] + q) == b + BlacksOnPath(l, q);
      }
      forall q | IsNullPath(r, q)
        ensures BlacksOnPath(r, q) == n - b
      {
        assert ([false] + q)[1..] == q;
        assert BlacksOnPath(t, [false] + q) == b + BlacksOnPath(r, q);
      }
      AgreeingPathsBalanced(l, n - b);
      AgreeingPathsBalanced(r, n - b);
  }

  function Pow2(n: nat): nat {
    if n == 0 then 1 else 2 * Pow2(n - 1)
  }

  lemma {:induction false} Pow2Monotone(a: nat, b: nat)
    requires a <= b
    ensures Pow2(a) <= Pow2(b)
  {
    if a < b {
      Pow2Monotone(a, b - 1);
    }
  }

  /** Without red-red edges, at least every other node on a path is black. */
  lemma {:induction false} HeightAtMostTwiceBlackHeight<V>(t: Tree<V>)
    requires NoRedRed(t) && BlackBalanced(t)
    ensures Height(t) <= 2 * BlackHeight(t) + (if ColorOf(t) == Red then 1 else 0)
  {
    match t
    case Leaf =>
    case Node(_, l, _, r) =>
      HeightAtMostTwiceBlackHeight(l);
      HeightAtMostTwiceBlackHeight(r);
  }

  /** A black-balanced tree of black-height h holds at least 2^h - 1 nodes. */
  lemma {:induction false} CountAtLeastPow2BlackHeight<V>(t: Tree<V>)
    requires BlackBalanced(t)
    ensures Pow2(BlackHeight(t)) <= Count(t) + 1
  {
    match t
    case Leaf =>
    case Node(_, l, _, r) =>
      CountAtLeastPow2BlackHeight(l);
      CountAtLeastPow2BlackHeight(r);
  }

  lemma {:induction false} Pow2Add(a: nat, b: nat)
    ensures Pow2(a + b) == Pow2(a) * Pow2(b)
  {
    if a > 0 {
      Pow2Add(a - 1, b);
    }
  }

  /** The logarithmic height bound: 2^height <= (n + 1)^2, that is, height <= 2 log2(n + 1). */
  lemma HeightBound<V>(t: Tree<V>)
    requires IsRedBlack(t)
    ensures Pow2(Height(t)) <= (Count(t) + 1) * (Count(t) + 1)
  {
    var b := BlackHeight(t);
    HeightAtMostTwiceBlackHeight(t);
    CountAtLeastPow2BlackHeight(t);
    Pow2Monotone(Height(t), b + b);
    Pow2Add(b, b);
    SquareMonotone(Pow2(b), Count(t) + 1);
  }

  lemma SquareMonotone(p: nat, n: nat)
    requires p <= n
    ensures p * p <= n * n
  {
    assert p * p <= p * n;
  }

  // ---------------------------------------------------------------------
  // Predecessor
  // ---------------------------------------------------------------------

  /** The item with the greatest key strictly below `k`, if there is one. */
  function Predecessor<V>(t: Tree<V>, k: int): (r: Option<Item<V>>)
    requires Ordered(t)
    ensures r.Some? ==> r.value in Entries(t) && r.value.key < k
    ensures r.Some? ==> forall j :: j in Keys(t) && j < k ==> j <= r.value.key
    ensures r.None? ==> forall j :: j in Keys(t) ==> k <= j
  {
    match t
    case Leaf => None
    case Node(_, l, x, r) =>
      EntryKeys(r);
      if k <= x.key then Predecessor(l, k)
      else
        match Predecessor(r, k)
        case None => Some(x)
        case Some(y) => Some(y)
  }

  /** The rightmost item of a non-empty tree, which is its greatest. */
  function Rightmost<V>(t: Tree<V>): (m: Item<V>)
    requires t.Node? && Ordered(t)
    ensures m in Entries(t)
    ensures forall j :: j in Keys(t) ==> j <= m.key
  {
    EntryKeys(t);
    if t.right.Leaf? then t.item else Rightmost(t.right)
  }

  /** For a node with a left child, the predecessor of its key is the rightmost item of the left subtree. */
  lemma PredecessorOfNode<V>(t: Tree<V>)
    requires t.Node? && t.left.Node? && Ordered(t)
    ensures Predecessor(t, t.item.key) == Some(Rightmost(t.left))
  {
    var p := Predecessor(t, t.item.key);
    var m := Rightmost(t.left);
    EntryKeys(t.left);
    assert p.Some?;
    assert p.value.key == m.key;
    assert p.value in Entries(t.left);
    assert m in Entries(t.left);
    assert Lookup(t.left, m.key) == Some(m.value) == Some(p.value.value);
  }

  // ---------------------------------------------------------------------
  // Deep copy
  // ---------------------------------------------------------------------

  /** Rebuilds every node, copying its item and colour. */
  function CopyTree<V>(t: Tree<V>): (c: Tree<V>)
    ensures c == t
  {
    match t
    case Leaf => Leaf
    case Node(col, l, x, r) => Node(col, CopyTree(l), x, CopyTree(r))
  }

  // ---------------------------------------------------------------------
  // Rotations
  // ---------------------------------------------------------------------

  /** Lifts the right child into the node's place; colours stay with their nodes. */
  function RotateLeft<V>(t: Tree<V>): (r: Tree<V>)
    requires t.Node? && t.right.Node?
    ensures r.Node? && r.left.Node?
    ensures r.item == t.right.item && r.color == t.right.color && r.right == t.right.right
    ensures r.left.item == t.item && r.left.color == t.color
    ensures r.left.left == t.left && r.left.right == t.right.left
    ensures InOrder(r) == InOrder(t) && Entries(r) == Entries(t) && Keys(r) == Keys(t)
    ensures Ordered(t) ==> Ordered(r)
  {
    var Node(c, a, x, Node(d, b, y, g)) := t;
    var r := Node(d, Node(c, a, x, b), y, g);
    assert Ordered(t) ==> Ordered(r) by {
      if Ordered(t) {
        assert InOrder(r) == InOrder(t);
        InOrderSorted(t);
        SortedInOrderIsOrdered(r);
      }
    }
    r
  }

  /** Lifts the left child into the node's place; colours stay with their nodes. */
  function RotateRight<V>(t: Tree<V>): (r: Tree<V>)
    requires t.Node? && t.left.Node?
    ensures r.Node? && r.right.Node?
    ensures r.item == t.left.item && r.color == t.left.color && r.left == t.left.left
    ensures r.right.item == t.item && r.right.color == t.color
    ensures r.right.left == t.left.right && r.right.right == t.right
    ensures InOrder(r) == InOrder(t) && Entries(r) == Entries(t) && Keys(r) == Keys(t)
    ensures Ordered(t) ==> Ordered(r)
  {
    var Node(c, Node(d, a, y, b), x, g) := t;
    var r := Node(d, a, y, Node(c, b, x, g));
    assert Ordered(t) ==> Ordered(r) by {
      if Ordered(t) {
        assert InOrder(r) == InOrder(t);
        InOrderSorted(t);
        SortedInOrderIsOrdered(r);
      }
    }
    r
  }

  lemma RotationsAreInverse<V>(t: Tree<V>)
    ensures t.Node? && t.right.Node? ==> RotateRight(RotateLeft(t)) == t
    ensures t.Node? && t.left.Node? ==> RotateLeft(RotateRight(t)) == t
  {
  }

  // ---------------------------------------------------------------------
  // Plain BST insertion
  // ---------------------------------------------------------------------

  /** Places a new red leaf holding `x` where the search for its key ends. */
  function BSTInsert<V>(t: Tree<V>, x: Item<V>): (r: Tree<V>)
    requires Ordered(t) && x.key !in Keys(t)
    ensures Ordered(r)
    ensures Keys(r) == Keys(t) + {x.key}
    ensures Entries(r) == Entries(t) + {x}
    ensures Count(r) == Count(t) + 1
    ensures BlackBalanced(t) ==> BlackBalanced(r) && BlackHeight(r) == BlackHeight(t)
  {
    match t
    case Leaf => NewNode(x)
    case Node(c, l, y, r) =>
      if x.key < y.key then Node(c, BSTInsert(l, x), y, r)
      else Node(c, l, y, BSTInsert(r, x))
  }

  // ---------------------------------------------------------------------
  // Writing through a retrieved handle
  // ---------------------------------------------------------------------

  /** The same nodes with the same colours and keys, differing at most in stored values. */
  ghost predicate SameShape<V>(a: Tree<V>, b: Tree<V>) {
    match a
    case Leaf => b.Leaf?
    case Node(c, l, x, r) =>
      b.Node? && b.color == c && b.item.key == x.key && SameShape(l, b.left) && SameShape(r, b.right)
  }

  lemma {:induction false} SameShapeReflexive<V>(t: Tree<V>)
    ensures SameShape(t, t)
  {
    match t
    case Leaf =>
    case Node(_, l, _, r) =>
      SameShapeReflexive(l);
      SameShapeReflexive(r);
  }

  /** The listing `s` with the value of every item keyed `k` replaced by `v`. */
  function WriteAt<V>(s: seq<Item<V>>, k: int, v: V): (w: seq<Item<V>>)
    ensures |w| == |s|
  {
    seq(|s|, i requires 0 <= i < |s| => if s[i].key == k then Item(k, v) else s[i])
  }

  lemma WriteAtJoin<V>(a: seq<Item<V>>, x: Item<V>, b: seq<Item<V>>, k: int, v: V)
    ensures WriteAt(a + [x] + b, k, v) == WriteAt(a, k, v) + WriteAt([x], k, v) + WriteAt(b, k, v)
  {
    var s := a + [x] + b;
    var w := WriteAt(a, k, v) + WriteAt([x], k, v) + WriteAt(b, k, v);
    forall i | 0 <= i < |s|
      ensures WriteAt(s, k, v)[i] == w[i]
    {
      if i < |a| {
        assert s[i] == a[i];
      } else if i > |a| {
        assert s[i] == b[i - |a| - 1];
      }
    }
  }

  /**
   * Replaces the value stored under key `k`: the key itself, every colour
   * and the shape of the tree stay as they were.
   */
  function SetValue<V>(t: Tree<V>, k: int, v: V): (r: Tree<V>)
    requires Ordered(t)
    ensures Keys(r) == Keys(t) && Ordered(r) && Count(r) == Count(t)
    ensures ColorOf(r) == ColorOf(t) && BlackHeight(r) == BlackHeight(t)
    ensures NoRedRed(r) == NoRedRed(t) && BlackBalanced(r) == BlackBalanced(t)
    ensures k in Keys(t) ==> Lookup(r, k) == Some(v)
    ensures forall j :: j != k ==> Lookup(r, j) == Lookup(t, j)
  {
    match t
    case Leaf => Leaf
    case Node(c, l, x, r) =>
      if k < x.key then Node(c, SetValue(l, k, v), x, r)
      else if x.key < k then Node(c, l, x, SetValue(r, k, v))
      else Node(c, l, Item(k, v), r)
  }

  /** Writing under a key the tree does not hold changes nothing. */
  lemma {:induction false} SetValueAbsent<V>(t: Tree<V>, k: int, v: V)
    requires Ordered(t) && k !in Keys(t)
    ensures SetValue(t, k, v) == t
  {
    match t
    case Leaf =>
    case Node(c, l, x, r) =>
      if k < x.key {
        SetValueAbsent(l, k, v);
      } else if x.key < k {
        SetValueAbsent(r, k, v);
      }
  }

  /** Writing a value leaves every node, colour and key in place. */
  lemma {:induction false} SetValueShape<V>(t: Tree<V>, k: int, v: V)
    requires Ordered(t)
    ensures SameShape(SetValue(t, k, v), t) && Height(SetValue(t, k, v)) == Height(t)
  {
    match t
    case Leaf =>
    case Node(c, l, x, r) =>
      if k < x.key {
        SetValueShape(l, k, v);
        assert SetValue(t, k, v) == Node(c, SetValue(l, k, v), x, r);
        SameShapeReflexive(r);
      } else if x.key < k {
        SetValueShape(r, k, v);
        assert SetValue(t, k, v) == Node(c, l, x, SetValue(r, k, v));
        SameShapeReflexive(l);
      } else {
        SameShapeReflexive(l);
        SameShapeReflexive(r);
      }
  }

  /** In the listing, exactly the item keyed `k` takes the new value. */
  lemma {:induction false} SetValueListing<V>(t: Tree<V>, k: int, v: V)
    requires Ordered(t)
    ensures InOrder(SetValue(t, k, v)) == WriteAt(InOrder(t), k, v)
  {
    match t
    case Leaf =>
    case Node(c, l, x, r) =>
      var sl, sr := InOrder(l), InOrder(r);
      WriteAtJoin(sl, x, sr, k, v);
      if k < x.key {
        SetValueListing(l, k, v);
        SetValueListing(r, k, v);
        SetValueAbsent(r, k, v);
        assert WriteAt([x], k, v) == [x];
        assert SetValue(t, k, v) == Node(c, SetValue(l, k, v), x, r);
      } else if x.key < k {
        SetValueListing(l, k, v);
        SetValueListing(r, k, v);
        SetValueAbsent(l, k, v);
        assert WriteAt([x], k, v) == [x];
        assert SetValue(t, k, v) == Node(c, l, x, SetValue(r, k, v));
      } else {
        SetValueListing(l, k, v);
        SetValueListing(r, k, v);
        SetValueAbsent(l, k, v);
        SetValueAbsent(r, k, v);
        assert WriteAt([x], k, v) == [Item(k, v)];
      }
  }
}
