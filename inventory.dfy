/** The rows of the inventory database (products, inventory_transactions, users)
    and the invariants that tie the stock counters to the ledger. */
module Inventory {

  datatype Option<T> = None | Some(value: T)

  /** A row of `products`; `stock` is the column `stock_quantity`. */
  datatype Product = Product(categoryId: Option<int>, name: string, stock: int, minStock: int)

  /** A row of `inventory_transactions`. A positive quantity is goods in, a negative one goods out. */
  datatype Entry = Entry(id: int, productId: int, datetime: string, userId: int, quantity: int)

  /** A row of `users`; the password column is NULL or text. */
  datatype User = User(username: string, password: Option<string>)

  /** The two tables the stock engine writes, with the largest rowid handed out in each so far.
      There is no delete path, so a new row's rowid (one more than the largest) is `last + 1`. */
  datatype Tables = Tables(
    products: map<int, Product>,
    ledger: seq<Entry>,
    lastProductId: int,
    lastTransactionId: int)

  /** The sum of the quantities of the ledger entries recorded for `productId`. */
  function LedgerSum(ledger: seq<Entry>, productId: int): int
  {
    if ledger == [] then 0
    else (if ledger[0].productId == productId then ledger[0].quantity else 0) + LedgerSum(ledger[1..], productId)
  }

  /** Appending one entry changes only the sum of its own product, by its quantity. */
  lemma {:induction false} LedgerSumAppend(ledger: seq<Entry>, e: Entry, productId: int)
    ensures LedgerSum(ledger + [e], productId)
         == LedgerSum(ledger, productId) + (if e.productId == productId then e.quantity else 0)
  {
    if ledger == [] {
      assert ledger + [e] == [e];
    } else {
      assert (ledger + [e])[1..] == ledger[1..] + [e];
      LedgerSumAppend(ledger[1..], e, productId);
    }
  }

  /** A product with no ledger entries has a ledger sum of zero. */
  lemma {:induction false} LedgerSumWithoutEntries(ledger: seq<Entry>, productId: int)
    requires forall i :: 0 <= i < |ledger| ==> ledger[i].productId != productId
    ensures LedgerSum(ledger, productId) == 0
  {
    if ledger != [] {
      assert ledger[0].productId != productId;
      LedgerSumWithoutEntries(ledger[1..], productId);
    }
  }

  /** The number of ledger entries recorded for `productId`. */
  function Count(ledger: seq<Entry>, productId: int): nat
  {
    if ledger == [] then 0
    else (if ledger[0].productId == productId then 1 else 0) + Count(ledger[1..], productId)
  }

  /** Appending one entry adds one to the count of its own product and to no other. */
  lemma {:induction false} CountAppend(ledger: seq<Entry>, e: Entry, productId: int)
    ensures Count(ledger + [e], productId) == Count(ledger, productId) + (if e.productId == productId then 1 else 0)
  {
    if ledger == [] {
      assert ledger + [e] == [e];
    } else {
      assert (ledger + [e])[1..] == ledger[1..] + [e];
      CountAppend(ledger[1..], e, productId);
    }
  }

  /** Rowid bookkeeping: the counters bound every id in use, and ledger ids grow along the ledger. */
  ghost predicate WellFormed(t: Tables)
  {
    && (forall pid :: pid in t.products ==> pid <= t.lastProductId)
    && (forall i :: 0 <= i < |t.ledger| ==> t.ledger[i].id <= t.lastTransactionId)
    && (forall i, j :: 0 <= i < j < |t.ledger| ==> t.ledger[i].id < t.ledger[j].id)
  }

  /** The sum-consistency invariant: every ledger entry names an existing product, and every
      product's stock is the sum of the quantities recorded for it. */
  ghost predicate Consistent(t: Tables)
  {
    && WellFormed(t)
    && (forall i :: 0 <= i < |t.ledger| ==> t.ledger[i].productId in t.products)
    && (forall pid :: pid in t.products ==> t.products[pid].stock == LedgerSum(t.ledger, pid))
  }

  /** No product's stock is negative. */
  ghost predicate NonNegative(t: Tables)
  {
    forall pid :: pid in t.products ==> t.products[pid].stock >= 0
  }
}
