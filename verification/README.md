# Red-black tree and stock system, modelled in Dafny

The model covers two layers of a small C++ inventory simulator.

**The generic red-black tree** (`RedBlackTree<T>` and `Node<T>` in `redblacktree.h`):
- It is an ordered set with no duplicates. Items are compared by key only.
- `Insert` refuses an item whose key is already present.
- `Remove`, `Search` and `Retrieve` take only the key. `Retrieve` hands back the stored item, and a caller may overwrite its non-key part.
- `Dump` lists the items in order. `Size` counts them.
- `Height` counts the nodes on the longest path from the root to a nil child.
- `RemoveAll` empties the tree, and the copy constructor makes a deep copy.

In the model a tree is an immutable value, `Tree<V> = Leaf | Node(color, left, Item(key, value), right)`. The public object is `RedBlackTree(root, size)`. Its invariant `Valid` says four things:
- the root is black;
- no red node has a red child;
- every path from the root to a nil leaf passes the same number of black nodes;
- the keys are in search-tree order, and `size` equals the number of nodes.

Every public operation preserves `Valid`. Each one is stated against the abstraction of a tree to the set of items it stores (`Entries`) and to its keys (`Keys`).

**The inventory** (`StockSystem` in `stocksystem.cpp`) is a catalogue of stock items keyed by SKU, stored in such a tree, together with a cash balance:
- items are added with no stock;
- descriptions and prices are edited in place through `Retrieve`;
- `Restock` buys up to the 1000-unit ceiling and is all or nothing when funds are short;
- `Sell` sells at most what is in stock.

Every public operation keeps each item's stock within 0..1000, and so does every sequence of them from a new system. As long as no operation sets a negative price, the balance also stays non-negative.

Files:
- `options.dfy`: the optional value that stands for a possibly-null pointer.
- `trees.dfy`: the node datatype and the invariants. It also holds the read-only helpers of the tree class: lookup, in-order walk, height, predecessor, deep copy, rotations, plain BST insertion and write-through.
- `insertion.dfy`: insertion with the red-black fix-up, and its relation to plain BST insertion.
- `deletion.dfy`: deletion by key, with the in-order predecessor replacing an inner node, and rebalancing on the way back up.
- `redblacktrees.dfy`: the public tree operations and how they relate.
- `inventory.dfy`: the stock system, its operations and its stock-level invariant.
- `scenario.dfy`: a worked example on concrete keys. It inserts 50, 30, 70, 20, 40, 60 and 80, which gives a black root 50 and height 3. It then removes 20 and then the root. Finally it writes through an item handed back by `Retrieve`.

SKUs, quantities and stock levels are C++ `unsigned int`s. They are modelled as `u32`, and the wrap-around of the unsigned subtraction `1000 - stock` is written out. Money is a `double` in C++ and an exact `real` here.

## Model

| member | source | states |
|---|---|---|
| Trees.NewNode | redblacktree.h:27-33 | A new node is red, has no children, and holds exactly the given item. It is a valid one-item search tree of black-height 0. |
| Trees.Lookup | redblacktree.h:103-111 | Descending the search tree by key finds a value exactly when the key is stored, and the value found is the one stored under that key. |
| Trees.CountIsKeys | redblacktree.h:117-118 | In a search tree the number of nodes equals the number of distinct keys, so the size counter counts items. |
| Trees.InOrderEntries | redblacktree.h:57-58 | The in-order walk lists exactly the stored items. |
| Trees.InOrderSorted | redblacktree.h:57-58 | The in-order walk of a search tree ascends strictly by key. |
| Trees.KeysInOrder | redblacktree.h:113-115 | Every stored key appears in the in-order walk. |
| Trees.SortedInOrderIsOrdered | redblacktree.h:57-58 | Conversely, a tree whose in-order walk ascends strictly is a search tree. |
| Trees.HeightIsLongestPath | redblacktree.h:71-73 | The recursive height is the number of nodes on the longest root-to-nil path: no path is longer and one path is that long. |
| Trees.BalancedPathsAgree | redblacktree.h:67-69 | In a black-balanced tree every root-to-nil path passes exactly black-height black nodes. |
| Trees.AgreeingPathsBalanced | redblacktree.h:67-69 | Conversely, if all root-to-nil paths pass the same number of black nodes, the tree is black-balanced with that black-height. |
| Trees.HeightAtMostTwiceBlackHeight | redblacktree.h:71-73 | Without red-red edges, the height is at most twice the black-height, plus one under a red root. |
| Trees.CountAtLeastPow2BlackHeight | redblacktree.h:71-73 | A black-balanced tree has at least 2^bh - 1 nodes. |
| Trees.HeightBound | redblacktree.h:120-122 | A red-black tree with n nodes has 2^height <= (n+1)^2, so its height is at most about twice log2(n+1). |
| Trees.Predecessor | redblacktree.h:64-65 | The result is the stored item with the greatest key strictly below the given key. None means no stored key is below it. |
| Trees.Rightmost | redblacktree.h:64-65 | The rightmost item of a non-empty search tree is stored in it and has its greatest key. |
| Trees.PredecessorOfNode | redblacktree.h:64-65 | For a node with a left child, the predecessor is the rightmost item of the left subtree. |
| Trees.RotateLeft | redblacktree.h:60-62 | A left rotation lifts the right child into the node's place with the child's own item and colour. The old node becomes its left child, keeping its item and colour and taking the child's left subtree as its right one. The in-order sequence, the items and the keys are kept, so search order is preserved. |
| Trees.RotateRight | redblacktree.h:60-62 | A right rotation lifts the left child into the node's place with the child's own item and colour. The old node becomes its right child, keeping its item and colour and taking the child's right subtree as its left one. The in-order sequence, the items and the keys are kept, so search order is preserved. |
| Trees.RotationsAreInverse | redblacktree.h:60-62 | A right rotation undoes a left rotation, and a left rotation undoes a right one. |
| Trees.BSTInsert | redblacktree.h:52-55 | For an absent key, plain BST insertion adds exactly the new item. It keeps search order, adds one node, and leaves black-heights unchanged. |
| Trees.CopyTree | redblacktree.h:43-46 | The deep copy equals the source tree node for node: same colours, items and children. |
| Trees.SetValue | redblacktree.h:107-111 | Writing through a retrieved item gives the new value under that key and leaves every other lookup, the key set, the node count, the search order, the root colour, the black-height and the red-black colour rules as they were. |
| Trees.SetValueShape | redblacktree.h:107-111 | Writing through a retrieved item leaves every node in place with its colour and key, and the height unchanged. |
| Trees.SetValueListing | redblacktree.h:107-111 | After writing through a retrieved item, the in-order listing is the old one with only the item under that key carrying the new value. |
| Trees.SetValueAbsent | redblacktree.h:107-111 | Writing under a key the tree does not hold leaves the tree unchanged. |
| Insertion.FixLeftColors | redblacktree.h:89-92 | At a black node, the fix-up repairs a red-red edge at the top of the left subtree. It recolours under a red uncle and rotates once or twice otherwise, leaving no red-red edge and one more black level. |
| Insertion.FixRightColors | redblacktree.h:89-92 | The same repair for a red-red edge at the top of the right subtree. |
| Insertion.FixLeftInOrder | redblacktree.h:89-92 | The fix-up keeps the in-order sequence. |
| Insertion.FixRightInOrder | redblacktree.h:89-92 | The right-hand fix-up keeps the in-order sequence. |
| Insertion.FixLeftEntries | redblacktree.h:89-92 | The fix-up keeps the stored items and their keys. |
| Insertion.FixRightEntries | redblacktree.h:89-92 | The right-hand fix-up keeps the stored items and their keys. |
| Insertion.InsEntries | redblacktree.h:89-92 | Inserting an absent key below the root adds exactly the new item and its key. |
| Insertion.InsOrdered | redblacktree.h:89-92 | Inserting an absent key below the root keeps the search order. |
| Insertion.InsColors | redblacktree.h:89-92 | Below the root, insertion keeps black-heights. It leaves at most one red-red edge, at the top of a subtree whose root was red. |
| Insertion.InsertTree | redblacktree.h:89-92 | Insertion of an absent key yields a red-black search tree with exactly one more item and one more node. |
| Insertion.InsIsBSTInsert | redblacktree.h:52-55 | Below the root, insertion with fix-up lists the same items in the same order as plain BST insertion of the same item. |
| Insertion.InsertTreeIsBSTInsert | redblacktree.h:89-92 | Insert is plain BST insertion followed only by recolouring and rotations: its in-order listing equals that of the plain BST insertion. |
| Deletion.BalanceDelLeftColors | redblacktree.h:67-69 | When the left subtree is one black level short, rebuilding the node restores black balance. It introduces no red-red edge below the root, and none at all when the right subtree's root was black. |
| Deletion.BalanceDelRightColors | redblacktree.h:67-69 | The same when the right subtree is one black level short. |
| Deletion.BalanceDelLeftInOrder | redblacktree.h:67-69 | Rebalancing after a deletion on the left keeps the in-order sequence. |
| Deletion.BalanceDelRightInOrder | redblacktree.h:67-69 | Rebalancing after a deletion on the right keeps the in-order sequence. |
| Deletion.SplitMaxEntries | redblacktree.h:64-65 | Splitting off the maximum of a non-empty search tree yields its rightmost item, which is the predecessor that replaces a removed node, and a tree holding all the other items. |
| Deletion.SplitMaxOrdered | redblacktree.h:64-65 | The tree left after splitting off the maximum is in search order, holds every other key, and all its keys lie below the key split off. |
| Deletion.SplitMaxColors | redblacktree.h:67-69 | Splitting off the maximum keeps black balance. Under a red root the black-height and the absence of red-red edges are kept. Under a black root the black-height drops by exactly one, and a red-red edge can only appear at the top. |
| Deletion.DelContents | redblacktree.h:94-96 | Deletion by key keeps search order and removes exactly the items with that key. |
| Deletion.DelColors | redblacktree.h:67-69 | Deletion by key keeps black balance. Under a red root it keeps the black-height and leaves no red-red edge. Under a black root the black-height drops by exactly one, and a red-red edge can only appear at the top. |
| Deletion.DeleteTree | redblacktree.h:94-96 | Deletion yields a red-black search tree whose keys are the old ones minus the key, whose items are the old ones without that key, and which has one node fewer exactly when the key was present. |
| RedBlackTrees.Empty | redblacktree.h:77-78 | The default constructor gives a valid tree with no items and size 0. |
| RedBlackTrees.Copy | redblacktree.h:80-81 | The copy is a valid tree with the same size, the same items and the same in-order listing. |
| RedBlackTrees.Search | redblacktree.h:103-105 | The result is true exactly when an item with an equal key is stored. |
| RedBlackTrees.Retrieve | redblacktree.h:107-111 | Returns the stored item with the given key, and null (None) exactly when there is none. |
| RedBlackTrees.Dump | redblacktree.h:113-115 | The listing has `size` elements and ascends strictly by key. Every element is the stored item under its key, and every stored key is listed. |
| RedBlackTrees.Size | redblacktree.h:117-118 | The size is the number of stored keys. |
| RedBlackTrees.TreeHeight | redblacktree.h:120-122 | The height is 0 for an empty tree and 1 for a single node. In general it is the node count on the longest root-to-nil path, and 2^height <= (size+1)^2. |
| RedBlackTrees.Insert | redblacktree.h:89-92 | A present key gives false and an unchanged tree. Otherwise the result is true, the item is added, the size grows by one, and the tree stays valid. Retrieval under every other key is unchanged. |
| RedBlackTrees.Remove | redblacktree.h:94-96 | An absent key gives false and an unchanged tree. Otherwise the result is true, the size shrinks by one, and the key is no longer found. Every other item stays and the tree stays valid. |
| RedBlackTrees.RemoveAll | redblacktree.h:98-99 | Afterwards the tree is valid and empty, with size 0. |
| RedBlackTrees.WriteRetrieved | redblacktree.h:107-111 | Modifying the item handed back by Retrieve is seen by the next Retrieve. Size and validity are kept, and the other keys are untouched. |
| RedBlackTrees.RemoveUndoesInsert | redblacktree.h:89-96 | Removing a freshly inserted item restores the original items and size. |
| RedBlackTrees.InsertUndoesRemove | redblacktree.h:89-96 | Re-inserting an item just removed restores the original items and size. |
| RedBlackTrees.CopyDumpsAlike | redblacktree.h:80-81 | The listing of a copy equals the listing of the original. |
| RedBlackTrees.LookupAwayFrom | redblacktree.h:94-96 | If two search trees hold the same items once those with key k are set aside, every lookup of a key other than k returns the same result in both. |
| Scenario.SevenInsertions | redblacktree.h:89-92 | Inserting 50, 30, 70, 20, 40, 60 and 80 into an empty tree gives one particular perfectly balanced tree, with a black root holding 50. |
| Scenario.SevenShape | redblacktree.h:113-122 | That tree is valid, has size 7 and height 3, and lists its items in ascending key order. |
| Scenario.RemoveTwentyThenRoot | redblacktree.h:94-96 | Removing 20 and then the root 50 from that tree leaves five valid items listed in ascending order, and 50 is no longer found. |
| Scenario.WriteThroughRetrieved | redblacktree.h:107-111 | A value written through the item retrieved under 40 is seen by the next retrieval. The size and the key order are unchanged. |
| Inventory.Init | stocksystem.cpp:20-21 | A new system has an empty catalogue and a balance of 100000.00, and satisfies the stock invariant. |
| Inventory.StockNewItem | stocksystem.cpp:49-53 | A catalogued SKU gives false and no change. Otherwise the item is stored with stock 0, the catalogue grows by one, the balance is unchanged, and no other item changes. |
| Inventory.EditStockItemDescription | stocksystem.cpp:69-79 | An unknown SKU gives false and no change. Otherwise only that item's description changes. |
| Inventory.EditStockItemPrice | stocksystem.cpp:95-103 | An unknown SKU gives false and no change. Otherwise only that item's price changes. |
| Inventory.BuyIn | stocksystem.cpp:136-152 | For a stock of at most 1000, the units bought are min(quantity, 1000 - stock), their cost is that many times the unit price, and the new stock is the old one plus the units bought, so it never exceeds 1000. |
| Inventory.Restock | stocksystem.cpp:122-165 | An unknown SKU gives false and changes nothing. Otherwise the units bought are min(quantity, 1000 - stock), and the call succeeds exactly when the balance minus bought × unit price is not negative. On success only that item's stock changes in the catalogue, the balance drops by that cost and the stock rises by the units bought; on failure nothing changes. No other item changes. |
| Inventory.SellOff | stocksystem.cpp:194-201 | The units sold are min(quantity, stock), the takings are that many times the price, and the new stock is the old one minus the units sold, so it never drops below 0. |
| Inventory.Sell | stocksystem.cpp:181-208 | An unknown SKU is the only failure, and it changes nothing. Otherwise it sells min(quantity, stock) units at the item's price: the balance rises by sold × price, the stock falls by sold and never below 0, and no other item changes. |
| Inventory.BoundedAfterUpdate | stocksystem.cpp:136-152 | A catalogue that differs from a bounded one only at one SKU, and is within 0..1000 there, is bounded. |
| Inventory.Apply | stocksystem.cpp:49-208 | Every public operation keeps the catalogue valid and every item's stock in 0..1000. |
| Inventory.RunKeepsStocksBounded | stocksystem.cpp:136-201 | Any sequence of public operations from a state that satisfies the invariant keeps it. |
| Inventory.ReachableStocksBounded | stocksystem.cpp:20-208 | In every state reachable from a new system, each catalogued item's stock lies in 0..1000. |
| Inventory.PricesAfterUpdate | stocksystem.cpp:95-103 | A catalogue that differs from one with non-negative prices only at one SKU, and has a non-negative price there, has only non-negative prices. |
| Inventory.ApplyKeepsSolvent | stocksystem.cpp:141-208 | From a state with a non-negative balance and only non-negative prices, every public operation that sets no negative price keeps both. |
| Inventory.RunKeepsSolvent | stocksystem.cpp:141-208 | Any sequence of such operations keeps the balance and every price non-negative. |
| Inventory.ReachableSolvent | stocksystem.cpp:189-208 | From a new system, the balance stays non-negative as long as no operation sets a negative price, as the comment in Sell assumes. |

## Left out

- The bodies of the tree's algorithms (`rbtreepartial.cpp`, `redblacktree.cpp`) are not part of this model. Insertion and deletion are modelled against the header's contracts by functional red-black algorithms:
  - Insertion follows the pointer-based scheme: a red leaf, then recolouring under a red uncle, and one or two rotations otherwise.
  - Deletion rebalances on the way back up, in the functional style of Kahrs. The trees it builds can differ in shape from those of the pointer-based `RBDeleteFixUp`. The delete fix-up is not modelled as its (node-or-nil, parent, side) state machine.
- Parent back-pointers, node deallocation, the destructor and the post-order `RemoveAll` helper are left out: the tree is an immutable value, so there is nothing to free.
- `GetRoot` is left out: it exposes raw internal nodes.
- The interactive front ends (`main.cpp`, the menu loop in `stocksystemdriver.cpp`) and the debug printers are left out, since they are console I/O.
- `GetBalance` and `GetCatalogue` are left out. `GetBalance` is a field read. `GetCatalogue` only formats the catalogue as a string.
- `stockitem.h` is not part of this model. A stock item is a SKU with a description, a price and a stock level, and items are ordered by SKU.
- IEEE `double` rounding in balance and price arithmetic is not modelled: money is an exact real.
- Trees.Predecessor: takes a key rather than a node pointer. `PredecessorOfNode` and `SplitMaxEntries` tie it to the node-based use in removal.
- Inventory.Restock: the arithmetic of the units bought and the funds check is stated only for items whose stock is at most 1000. Stock can never exceed 1000 by `ReachableStocksBounded`. The body still performs the unsigned wrap-around of `1000 - stock` that the C++ would do beyond that.
- Inventory.BuyIn: its contract covers only stocks of at most 1000, for the same reason as `Restock`. The body keeps the wrap-around.
- Inventory.Init: the comment at stocksystem.cpp:17 speaks of $1,000,000.00, but the code initialises the balance to 100000.00. The model follows the code.
- A non-negative balance is not an unconditional invariant: a sale at a negative price lowers the balance. `ReachableSolvent` states the invariant under the condition that no operation sets a negative price.
