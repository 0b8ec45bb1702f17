/**
 * The inventory system: a catalogue of stock items kept in a red-black tree
 * ordered by SKU, and a cash balance. Items are added with no stock, their
 * description and price are edited in place, stock is bought in (never
 * beyond 1000 units of an item, and never overdrawing the balance) and sold
 * (never below zero units).
 *
 * SKUs, quantities and stock levels are C++ `unsigned int`s, modelled as
 * `u32` with the wrap-around of unsigned subtraction written out. Money is a
 * `double` in the C++ and an exact `real` here.
 */
module Inventory {
  import opened Options
  import opened Trees
  import opened RedBlackTrees

  const Modulus: int := 0x1_0000_0000

  type u32 = x: int | 0 <= x < 0x1_0000_0000

  /** No item is ever stocked beyond this many units. */
  const MaxStock: u32 := 1000

  /** The balance a new system starts with. */
  const InitialBalance: real := 100000.0

  /** What the catalogue stores under a SKU. */
  datatype Record = Record(description: string, price: real, stock: u32)

  /** An item as handed in by a caller: its stock, if any, is ignored when it is stocked. */
  datatype StockItem = StockItem(sku: u32, description: string, price: real, stock: u32)

  datatype StockSystem = StockSystem(records: RedBlackTree<Record>, balance: real)

  function Min(a: int, b: int): int {
    if a < b then a else b
  }

  /** The record stored under `sku`. */
  function RecordOf(t: RedBlackTree<Record>, sku: int): Record
    requires Valid(t) && Search(t, sku)
  {
    Retrieve(t, sku).value.value
  }

  /** Every item's stock lies in 0..MaxStock. */
  ghost predicate StocksBounded(t: RedBlackTree<Record>)
    requires Valid(t)
  {
    forall k :: Search(t, k) ==> RecordOf(t, k).stock <= MaxStock
  }

  /** The invariant of a system: a valid catalogue whose stock levels are all in range. */
  ghost predicate Invariant(s: StockSystem) {
    Valid(s.records) && StocksBounded(s.records)
  }

  /**
   * A catalogue that differs from a bounded one only at `sku`, and is in
   * range there, is bounded.
   */
  lemma BoundedAfterUpdate(t: RedBlackTree<Record>, t': RedBlackTree<Record>, sku: int)
    requires Valid(t) && Valid(t')
    requires forall k :: k != sku ==> Retrieve(t', k) == Retrieve(t, k)
    requires StocksBounded(t) && Search(t', sku) ==> RecordOf(t', sku).stock <= MaxStock
    ensures StocksBounded(t) ==> StocksBounded(t')
  {
    if StocksBounded(t) {
      forall k | Search(t', k)
        ensures RecordOf(t', k).stock <= MaxStock
      {
        if k != sku {
          assert Retrieve(t', k) == Retrieve(t, k);
        }
      }
    }
  }

  // ---------------------------------------------------------------------
  // Operations
  // ---------------------------------------------------------------------

  /** A new system: an empty catalogue and the initial balance. */
  function Init(): (s: StockSystem)
    ensures Invariant(s)
    ensures s.balance == InitialBalance
    ensures forall k :: !Search(s.records, k)
  {
    StockSystem(Empty(), InitialBalance)
  }

  /**
   * Adds an item with stock 0 under its SKU; fails, changing nothing, when
   * that SKU is already catalogued.
   */
  function StockNewItem(s: StockSystem, item: StockItem): (res: (StockSystem, bool))
    requires Valid(s.records)
    ensures Valid(res.0.records) && res.0.balance == s.balance
    ensures res.1 <==> !Search(s.records, item.sku)
    ensures !res.1 ==> res.0 == s
    ensures Search(res.0.records, item.sku)
    ensures res.1 ==> RecordOf(res.0.records, item.sku) == Record(item.description, item.price, 0)
    ensures res.1 ==> res.0.records.size == s.records.size + 1
    ensures forall k :: k != item.sku ==> Retrieve(res.0.records, k) == Retrieve(s.records, k)
  {
    var (records, ok) := Insert(s.records, Item(item.sku, Record(item.description, item.price, 0)));
    (StockSystem(records, s.balance), ok)
  }

  /** Replaces the description of the item with SKU `sku`; fails when there is none. */
  function EditStockItemDescription(s: StockSystem, sku: u32, desc: string): (res: (StockSystem, bool))
    requires Valid(s.records)
    ensures Valid(res.0.records) && res.0.balance == s.balance
    ensures res.1 <==> Search(s.records, sku)
    ensures !res.1 ==> res.0 == s
    ensures res.1 ==> Search(res.0.records, sku)
    ensures res.1 ==> RecordOf(res.0.records, sku) == RecordOf(s.records, sku).(description := desc)
    ensures forall k :: k != sku ==> Retrieve(res.0.records, k) == Retrieve(s.records, k)
  {
    match Retrieve(s.records, sku)
    case None => (s, false)
    case Some(item) =>
      (StockSystem(WriteRetrieved(s.records, sku, item.value.(description := desc)), s.balance), true)
  }

  /** Replaces the price of the item with SKU `sku`; fails when there is none. */
  function EditStockItemPrice(s: StockSystem, sku: u32, retailprice: real): (res: (StockSystem, bool))
    requires Valid(s.records)
    ensures Valid(res.0.records) && res.0.balance == s.balance
    ensures res.1 <==> Search(s.records, sku)
    ensures !res.1 ==> res.0 == s
    ensures res.1 ==> Search(res.0.records, sku)
    ensures res.1 ==> RecordOf(res.0.records, sku) == RecordOf(s.records, sku).(price := retailprice)
    ensures forall k :: k != sku ==> Retrieve(res.0.records, k) == Retrieve(s.records, k)
  {
    match Retrieve(s.records, sku)
    case None => (s, false)
    case Some(item) =>
      (StockSystem(WriteRetrieved(s.records, sku, item.value.(price := retailprice)), s.balance), true)
  }

  /**
   * The purchase arithmetic: the cost and the new stock level when buying
   * `quantity` units at `unitprice` into a stock of `stock`, filling up to
   * MaxStock at most. The free space `MaxStock - stock` is an unsigned
   * subtraction, which wraps when the stock is above MaxStock.
   */
  function BuyIn(stock: u32, quantity: u32, unitprice: real): (r: (real, u32))
    ensures stock <= MaxStock ==>
      var bought := Min(quantity, MaxStock - stock);
      && r.0 == bought as real * unitprice
      && r.1 == stock + bought
      && r.1 <= MaxStock
  {
    var emptySpace: u32 := (MaxStock - stock) % Modulus;
    assert stock <= MaxStock ==> emptySpace == MaxStock - stock;
    if quantity < emptySpace then (quantity as real * unitprice, (stock + quantity) % Modulus)
    else (emptySpace as real * unitprice, MaxStock)
  }

  /**
   * Buys `quantity` units of the item at `unitprice` each, or only as many
   * as fit below MaxStock. All or nothing: when the purchase would leave the
   * balance negative, or the SKU is unknown, nothing changes.
   */
  function Restock(s: StockSystem, sku: u32, quantity: u32, unitprice: real): (res: (StockSystem, bool))
    requires Valid(s.records)
    ensures Valid(res.0.records)
    ensures !res.1 ==> res.0 == s
    ensures !Search(s.records, sku) ==> !res.1
    ensures res.1 ==> res.0.balance >= 0.0
    ensures res.1 ==> Search(res.0.records, sku)
    ensures res.1 ==> RecordOf(res.0.records, sku) == RecordOf(s.records, sku).(stock := RecordOf(res.0.records, sku).stock)
    ensures forall k :: k != sku ==> Retrieve(res.0.records, k) == Retrieve(s.records, k)
    ensures Search(s.records, sku) && RecordOf(s.records, sku).stock <= MaxStock ==>
      var r := RecordOf(s.records, sku);
      var bought := Min(quantity, MaxStock - r.stock);
      && (res.1 <==> s.balance - bought as real * unitprice >= 0.0)
      && (res.1 ==> res.0.balance == s.balance - bought as real * unitprice)
      && (res.1 ==> RecordOf(res.0.records, sku) == r.(stock := r.stock + bought))
  {
    match Retrieve(s.records, sku)
    case None => (s, false)
    case Some(item) =>
      var r := item.value;
      assert r == RecordOf(s.records, sku);
      var (cost, stock) := BuyIn(r.stock, quantity, unitprice);
      var balance := s.balance - cost;
      if balance < 0.0 then (s, false)
      else (StockSystem(WriteRetrieved(s.records, sku, r.(stock := stock)), balance), true)
  }

  /**
   * The sale arithmetic: the takings and the new stock level when selling
   * `quantity` units at `price` from a stock of `stock`, or all of it when
   * fewer are in stock.
   */
  function SellOff(stock: u32, quantity: u32, price: real): (r: (real, u32))
    ensures var sold := Min(quantity, stock);
      && r.0 == sold as real * price
      && r.1 == stock - sold
      && r.1 <= stock
  {
    if quantity < stock then (quantity as real * price, stock - quantity)
    else (stock as real * price, 0)
  }

  /**
   * Sells `quantity` units of the item at its catalogue price, or all there
   * are when fewer are in stock; fails only for an unknown SKU.
   */
  function Sell(s: StockSystem, sku: u32, quantity: u32): (res: (StockSystem, bool))
    requires Valid(s.records)
    ensures Valid(res.0.records)
    ensures res.1 <==> Search(s.records, sku)
    ensures !res.1 ==> res.0 == s
    ensures res.1 ==> Search(res.0.records, sku)
    ensures forall k :: k != sku ==> Retrieve(res.0.records, k) == Retrieve(s.records, k)
    ensures res.1 ==>
      var r := RecordOf(s.records, sku);
      var sold := Min(quantity, r.stock);
      && res.0.balance == s.balance + sold as real * r.price
      && RecordOf(res.0.records, sku) == r.(stock := r.stock - sold)
  {
    match Retrieve(s.records, sku)
    case None => (s, false)
    case Some(item) =>
      var r := item.value;
      assert r == RecordOf(s.records, sku);
      var (income, stock) := SellOff(r.stock, quantity, r.price);
      (StockSystem(WriteRetrieved(s.records, sku, r.(stock := stock)), s.balance + income), true)
  }

  // ---------------------------------------------------------------------
  // The stock-level invariant
  // ---------------------------------------------------------------------

  datatype Op =
    | NewItem(item: StockItem)
    | EditDescription(sku: u32, desc: string)
    | EditPrice(sku: u32, retailprice: real)
    | Buy(sku: u32, quantity: u32, unitprice: real)
    | Sale(sku: u32, quantity: u32)

  /** One call of a public operation; every one keeps all stock levels in 0..MaxStock. */
  function Apply(s: StockSystem, op: Op): (res: (StockSystem, bool))
    requires Valid(s.records)
    ensures Valid(res.0.records)
    ensures Invariant(s) ==> Invariant(res.0)
  {
    match op
    case NewItem(item) =>
      var res := StockNewItem(s, item);
      BoundedAfterUpdate(s.records, res.0.records, item.sku); res
    case EditDescription(sku, desc) =>
      var res := EditStockItemDescription(s, sku, desc);
      BoundedAfterUpdate(s.records, res.0.records, sku); res
    case EditPrice(sku, price) =>
      var res := EditStockItemPrice(s, sku, price);
      BoundedAfterUpdate(s.records, res.0.records, sku); res
    case Buy(sku, quantity, unitprice) =>
      var res := Restock(s, sku, quantity, unitprice);
      BoundedAfterUpdate(s.records, res.0.records, sku); res
    case Sale(sku, quantity) =>
      var res := Sell(s, sku, quantity);
      BoundedAfterUpdate(s.records, res.0.records, sku); res
  }

  /** The state after a sequence of calls. */
  function Run(s: StockSystem, ops: seq<Op>): StockSystem
    requires Valid(s.records)
    decreases |ops|
  {
    if ops == [] then s else Run(Apply(s, ops[0]).0, ops[1..])
  }

  /** Every state reachable from a new system keeps each item's stock in 0..MaxStock. */
  lemma {:induction false} RunKeepsStocksBounded(s: StockSystem, ops: seq<Op>)
    requires Invariant(s)
    ensures Invariant(Run(s, ops))
    decreases |ops|
  {
    if ops != [] {
      RunKeepsStocksBounded(Apply(s, ops[0]).0, ops[1..]);
    }
  }

  lemma ReachableStocksBounded(ops: seq<Op>)
    ensures Invariant(Run(Init(), ops))
    ensures forall k :: Search(Run(Init(), ops).records, k) ==> RecordOf(Run(Init(), ops).records, k).stock <= MaxStock
  {
    RunKeepsStocksBounded(Init(), ops);
  }

  // ---------------------------------------------------------------------
  // The balance
  // ---------------------------------------------------------------------

  /** Every catalogued price is non-negative. */
  ghost predicate PricesNonNegative(t: RedBlackTree<Record>)
    requires Valid(t)
  {
    forall k :: Search(t, k) ==> RecordOf(t, k).price >= 0.0
  }

  /**
   * The sense in which the balance never goes negative: it holds while no
   * item carries a negative price. Purchases are refused when they would
   * overdraw, and sales at such prices only add to the balance.
   */
  ghost predicate Solvent(s: StockSystem) {
    Valid(s.records) && s.balance >= 0.0 && PricesNonNegative(s.records)
  }

  /** The call sets no negative price. */
  predicate SetsNoNegativePrice(op: Op) {
    match op
    case NewItem(item) => item.price >= 0.0
    case EditPrice(_, retailprice) => retailprice >= 0.0
    case _ => true
  }

  lemma PricesAfterUpdate(t: RedBlackTree<Record>, t': RedBlackTree<Record>, sku: int)
    requires Valid(t) && Valid(t') && PricesNonNegative(t)
    requires forall k :: k != sku ==> Retrieve(t', k) == Retrieve(t, k)
    requires Search(t', sku) ==> RecordOf(t', sku).price >= 0.0
    ensures PricesNonNegative(t')
  {
    forall k | Search(t', k)
      ensures RecordOf(t', k).price >= 0.0
    {
      if k != sku {
        assert Retrieve(t', k) == Retrieve(t, k);
      }
    }
  }

  /** A call that sets no negative price keeps the balance and every price non-negative. */
  lemma ApplyKeepsSolvent(s: StockSystem, op: Op)
    requires Solvent(s) && SetsNoNegativePrice(op)
    ensures Solvent(Apply(s, op).0)
  {
    var res := Apply(s, op);
    match op
    case NewItem(item) =>
      PricesAfterUpdate(s.records, res.0.records, item.sku);
    case EditDescription(sku, desc) =>
      PricesAfterUpdate(s.records, res.0.records, sku);
    case EditPrice(sku, price) =>
      PricesAfterUpdate(s.records, res.0.records, sku);
    case Buy(sku, quantity, unitprice) =>
      PricesAfterUpdate(s.records, res.0.records, sku);
    case Sale(sku, quantity) =>
      if res.1 {
        var r := RecordOf(s.records, sku);
        var sold := Min(quantity, r.stock);
        assert sold as real * r.price >= 0.0;
      }
      PricesAfterUpdate(s.records, res.0.records, sku);
  }

  lemma {:induction false} RunKeepsSolvent(s: StockSystem, ops: seq<Op>)
    requires Solvent(s)
    requires forall i :: 0 <= i < |ops| ==> SetsNoNegativePrice(ops[i])
    ensures Solvent(Run(s, ops))
    decreases |ops|
  {
    if ops != [] {
      ApplyKeepsSolvent(s, ops[0]);
      RunKeepsSolvent(Apply(s, ops[0]).0, ops[1..]);
    }
  }

  /** From a new system, the balance stays non-negative as long as no call sets a negative price. */
  lemma ReachableSolvent(ops: seq<Op>)
    requires forall i :: 0 <= i < |ops| ==> SetsNoNegativePrice(ops[i])
    ensures Run(Init(), ops).balance >= 0.0
    ensures Solvent(Run(Init(), ops))
  {
    RunKeepsSolvent(Init(), ops);
  }
}
