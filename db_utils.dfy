/** The stock-mutation engine: `add_transaction` applies a signed quantity to one
    product's stock and records it in the ledger, or fails and changes nothing. */
module DbUtils {
  import opened Inventory

  /** "product not found" and the insufficient-stock error raised by `add_transaction`. */
  datatype Error = ProductNotFound | InsufficientStock

  datatype Outcome = Ok | Err(error: Error)

  /** What a call did, and the tables after it. */
  datatype Step = Step(outcome: Outcome, after: Tables)

  /** The effect of `add_transaction(productId, userId, quantity)` stamped with `now`. */
  function ApplyDelta(t: Tables, productId: int, userId: int, quantity: int, now: string): (s: Step)
    ensures productId !in t.products ==> s == Step(Err(ProductNotFound), t)
    ensures productId in t.products && t.products[productId].stock + quantity < 0
            ==> s == Step(Err(InsufficientStock), t)
    ensures s.outcome == Ok <==> productId in t.products && t.products[productId].stock + quantity >= 0
    ensures s.outcome == Ok ==>
              && s.after.products.Keys == t.products.Keys
              && s.after.products[productId].stock == t.products[productId].stock + quantity
              && s.after.products[productId].stock >= 0
              && s.after.products[productId] == t.products[productId].(stock := s.after.products[productId].stock)
              && (forall pid :: pid in t.products && pid != productId ==> s.after.products[pid] == t.products[pid])
              && s.after.ledger == t.ledger + [Entry(t.lastTransactionId + 1, productId, now, userId, quantity)]
              && s.after.lastProductId == t.lastProductId
              && s.after.lastTransactionId == t.lastTransactionId + 1
  {
    if productId !in t.products then Step(Err(ProductNotFound), t)
    else
      var newStock := t.products[productId].stock + quantity;
      if newStock < 0 then Step(Err(InsufficientStock), t)
      else
        var id := t.lastTransactionId + 1;
        Step(Ok, t.(products := t.products[productId := t.products[productId].(stock := newStock)],
                    ledger := t.ledger + [Entry(id, productId, now, userId, quantity)],
                    lastTransactionId := id))
  }

  /** `add_transaction` keeps the rowid bookkeeping, the sum-consistency invariant and
      non-negative stock. */
  lemma ApplyDeltaPreservesInvariants(t: Tables, productId: int, userId: int, quantity: int, now: string)
    ensures WellFormed(t) ==> WellFormed(ApplyDelta(t, productId, userId, quantity, now).after)
    ensures Consistent(t) ==> Consistent(ApplyDelta(t, productId, userId, quantity, now).after)
    ensures NonNegative(t) ==> NonNegative(ApplyDelta(t, productId, userId, quantity, now).after)
  {
    var s := ApplyDelta(t, productId, userId, quantity, now);
    if s.outcome == Ok {
      var e := Entry(t.lastTransactionId + 1, productId, now, userId, quantity);
      forall pid | pid in s.after.products
        ensures LedgerSum(s.after.ledger, pid)
             == LedgerSum(t.ledger, pid) + (if pid == productId then quantity else 0)
      {
        LedgerSumAppend(t.ledger, e, pid);
      }
    }
  }

  /** A successful call adds exactly one entry to the product's ledger, a failed one none,
      and no other product's entries change in number. */
  lemma ApplyDeltaRecordsOneEntry(t: Tables, productId: int, userId: int, quantity: int, now: string, pid: int)
    ensures Count(ApplyDelta(t, productId, userId, quantity, now).after.ledger, pid)
         == Count(t.ledger, pid)
            + (if pid == productId && ApplyDelta(t, productId, userId, quantity, now).outcome == Ok then 1 else 0)
  {
    if ApplyDelta(t, productId, userId, quantity, now).outcome == Ok {
      CountAppend(t.ledger, Entry(t.lastTransactionId + 1, productId, now, userId, quantity), pid);
    }
  }

  /** A zero quantity is not rejected: it succeeds, leaves the stock as it is and still
      records a zero-quantity entry. */
  lemma ZeroQuantityIsRecorded(t: Tables, productId: int, userId: int, now: string)
    requires productId in t.products && t.products[productId].stock >= 0
    ensures ApplyDelta(t, productId, userId, 0, now).outcome == Ok
    ensures ApplyDelta(t, productId, userId, 0, now).after.products == t.products
    ensures ApplyDelta(t, productId, userId, 0, now).after.ledger
         == t.ledger + [Entry(t.lastTransactionId + 1, productId, now, userId, 0)]
  {
    var s := ApplyDelta(t, productId, userId, 0, now);
    assert s.after.products[productId] == t.products[productId];
  }

  /** The database the web application and the migration script share. */
  class Store {
    var products: map<int, Product>
    var ledger: seq<Entry>
    var users: map<int, User>
    var lastProductId: int
    var lastTransactionId: int

    /** The inventory tables as a value. */
    function State(): Tables
      reads this
    {
      Tables(products, ledger, lastProductId, lastTransactionId)
    }

    ghost predicate Valid()
      reads this
    {
      WellFormed(State())
    }

    /** An empty database. */
    constructor ()
      ensures Valid() && Consistent(State()) && NonNegative(State())
      ensures products == map[] && ledger == [] && users == map[]
    {
      products, ledger, users := map[], [], map[];
      lastProductId, lastTransactionId := 0, 0;
    }

    /** `add_transaction`: reads the product's stock, refuses a missing product or a result
        below zero, and otherwise writes the new stock and appends one ledger row. */
    method AddTransaction(productId: int, userId: int, quantity: int, now: string) returns (r: Outcome)
      requires Valid()
      modifies this`products, this`ledger, this`lastTransactionId
      ensures Valid()
      ensures Step(r, State()) == ApplyDelta(old(State()), productId, userId, quantity, now)
      ensures r.Err? ==> State() == old(State())
      ensures old(Consistent(State())) ==> Consistent(State())
      ensures old(NonNegative(State())) ==> NonNegative(State())
    {
      ApplyDeltaPreservesInvariants(State(), productId, userId, quantity, now);
      if productId !in products {
        return Err(ProductNotFound);
      }
      var newStock := products[productId].stock + quantity;
      if newStock < 0 {
        return Err(InsufficientStock);
      }
      products := products[productId := products[productId].(stock := newStock)];
      lastTransactionId := lastTransactionId + 1;
      ledger := ledger + [Entry(lastTransactionId, productId, now, userId, quantity)];
      r := Ok;
    }
  }
}
