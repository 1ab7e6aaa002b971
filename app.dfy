/** The request handlers of the web application that feed the stock engine: the in/out
    form, setting an absolute stock, registering a product, and the per-product history. */
module App {
  import opened Inventory
  import opened DbUtils

  // ---------------------------------------------------------------------------
  // The in/out form (`transaction`)
  // ---------------------------------------------------------------------------

  /** The signed quantity the in/out form hands to `add_transaction`, or None when the
      entered quantity is not positive. */
  function SignedQuantity(direction: string, quantity: int): (d: Option<int>)
    ensures d.Some? <==> quantity > 0
    ensures d.Some? ==> d.value != 0 && (d.value < 0 <==> direction == "out")
    ensures d.Some? ==> d.value == quantity || d.value == -quantity
  {
    if quantity <= 0 then None
    else if direction == "out" then Some(-quantity)
    else Some(quantity)
  }

  datatype TransactionResult = QuantityNotPositive | Submitted(outcome: Outcome)

  /** `transaction` (POST): refuses a quantity below 1, otherwise applies it with the sign
      given by the direction, through `add_transaction`. */
  method Transaction(db: Store, productId: int, direction: string, quantity: int, userId: int, now: string)
    returns (r: TransactionResult)
    requires db.Valid()
    modifies db`products, db`ledger, db`lastTransactionId
    ensures db.Valid()
    ensures quantity <= 0 ==> r == QuantityNotPositive && db.State() == old(db.State())
    ensures quantity > 0 ==>
              && r.Submitted?
              && Step(r.outcome, db.State())
                 == ApplyDelta(old(db.State()), productId, userId, SignedQuantity(direction, quantity).value, now)
    ensures forall i :: |old(db.ledger)| <= i < |db.ledger| ==> db.ledger[i].quantity != 0
    ensures old(Consistent(db.State())) ==> Consistent(db.State())
    ensures old(NonNegative(db.State())) ==> NonNegative(db.State())
  {
    var signed := SignedQuantity(direction, quantity);
    if signed.None? {
      return QuantityNotPositive;
    }
    var outcome := db.AddTransaction(productId, userId, signed.value, now);
    r := Submitted(outcome);
  }

  // ---------------------------------------------------------------------------
  // Setting an absolute stock (`set_stock`)
  // ---------------------------------------------------------------------------

  /** The change `set_stock` asks for to reach `target` from `current`, or None when there
      is nothing to change. */
  function StockDelta(current: int, target: int): (d: Option<int>)
    ensures d.None? <==> target == current
    ensures d.Some? ==> d.value != 0 && current + d.value == target
  {
    if target - current == 0 then None else Some(target - current)
  }

  datatype SetStockResult = ProductMissing | NotANumber | NoChange | StockSet(outcome: Outcome)

  /** `set_stock` (POST). `newStock` is the submitted field after `int(...)`: None when it
      is not a number. */
  method SetStock(db: Store, productId: int, newStock: Option<int>, userId: int, now: string)
    returns (r: SetStockResult)
    requires db.Valid()
    modifies db`products, db`ledger, db`lastTransactionId
    ensures db.Valid()
    ensures productId !in old(db.products) ==> r == ProductMissing && db.State() == old(db.State())
    ensures productId in old(db.products) && newStock.None? ==> r == NotANumber && db.State() == old(db.State())
    ensures productId in old(db.products) && newStock == Some(old(db.products[productId].stock))
            ==> r == NoChange && db.State() == old(db.State())
    ensures productId in old(db.products) && newStock.Some? && newStock.value != old(db.products[productId].stock)
            ==> && r.StockSet?
                && Step(r.outcome, db.State())
                   == ApplyDelta(old(db.State()), productId, userId,
                                 newStock.value - old(db.products[productId].stock), now)
    ensures r.StockSet? ==> (r.outcome == Ok <==> newStock.Some? && newStock.value >= 0)
    ensures r == StockSet(Ok) ==> productId in db.products && db.products[productId].stock == newStock.value
    ensures r.StockSet? && r.outcome.Err?
            ==> r.outcome.error == InsufficientStock && db.State() == old(db.State())
    ensures old(Consistent(db.State())) ==> Consistent(db.State())
    ensures old(NonNegative(db.State())) ==> NonNegative(db.State())
  {
    if productId !in db.products {
      return ProductMissing;
    }
    if newStock.None? {
      return NotANumber;
    }
    var currentStock := db.products[productId].stock;
    var delta := StockDelta(currentStock, newStock.value);
    if delta.None? {
      return NoChange;
    }
    var outcome := db.AddTransaction(productId, userId, delta.value, now);
    r := StockSet(outcome);
  }

  // ---------------------------------------------------------------------------
  // Registering a product (`add_product`)
  // ---------------------------------------------------------------------------

  /** `int(field)` with a ValueError falling back to 0; None stands for a field that is not
      a number. */
  function IntOrZero(field: Option<int>): (n: int)
    ensures field.Some? ==> n == field.value
    ensures field.None? ==> n == 0
  {
    match field
    case Some(v) => v
    case None => 0
  }

  datatype AddProductResult = NameMissing | Added(productId: int)

  datatype ProductStep = ProductStep(result: AddProductResult, after: Tables)

  /** The effect of `add_product` (POST) on the tables: the product row is written with the
      initial stock as given, and one ledger row follows only when that stock is not zero. */
  function AddProductStep(t: Tables, name: string, categoryId: Option<int>, initialField: Option<int>,
                          minField: Option<int>, userId: int, now: string): (s: ProductStep)
    ensures name == "" ==> s == ProductStep(NameMissing, t)
    ensures name != "" ==>
              var id := t.lastProductId + 1;
              var initial := IntOrZero(initialField);
              && s.result == Added(id)
              && (WellFormed(t) ==> id !in t.products)
              && s.after.products == t.products[id := Product(categoryId, name, initial, IntOrZero(minField))]
              && s.after.ledger
                 == t.ledger + (if initial != 0 then [Entry(t.lastTransactionId + 1, id, now, userId, initial)] else [])
  {
    if name == "" then ProductStep(NameMissing, t)
    else
      var id := t.lastProductId + 1;
      var initial := IntOrZero(initialField);
      var products := t.products[id := Product(categoryId, name, initial, IntOrZero(minField))];
      if initial != 0 then
        var tid := t.lastTransactionId + 1;
        ProductStep(Added(id), Tables(products, t.ledger + [Entry(tid, id, now, userId, initial)], id, tid))
      else
        ProductStep(Added(id), t.(products := products, lastProductId := id))
  }

  /** A new product row keeps the rowid bookkeeping: its id is one past every id in use. */
  lemma AddProductKeepsWellFormed(t: Tables, name: string, categoryId: Option<int>, initialField: Option<int>,
                                  minField: Option<int>, userId: int, now: string)
    requires WellFormed(t)
    ensures WellFormed(AddProductStep(t, name, categoryId, initialField, minField, userId, now).after)
  {
    var s := AddProductStep(t, name, categoryId, initialField, minField, userId, now);
    if name != "" {
      assert s.after.lastProductId == t.lastProductId + 1;
      assert s.after.lastTransactionId == t.lastTransactionId + (if IntOrZero(initialField) != 0 then 1 else 0);
    }
  }

  /** The seed ledger row, when there is one, matches the stock the new product row holds. */
  lemma AddProductKeepsConsistent(t: Tables, name: string, categoryId: Option<int>, initialField: Option<int>,
                                  minField: Option<int>, userId: int, now: string)
    requires Consistent(t)
    ensures Consistent(AddProductStep(t, name, categoryId, initialField, minField, userId, now).after)
  {
    var s := AddProductStep(t, name, categoryId, initialField, minField, userId, now);
    AddProductKeepsWellFormed(t, name, categoryId, initialField, minField, userId, now);
    if name != "" {
      var id := t.lastProductId + 1;
      var initial := IntOrZero(initialField);
      assert s.after.products[id].stock == initial;
      LedgerSumWithoutEntries(t.ledger, id);
      if initial != 0 {
        var e := Entry(t.lastTransactionId + 1, id, now, userId, initial);
        assert s.after.ledger == t.ledger + [e];
        forall pid | pid in s.after.products
          ensures s.after.products[pid].stock == LedgerSum(s.after.ledger, pid)
        {
          LedgerSumAppend(t.ledger, e, pid);
        }
      } else {
        assert s.after.ledger == t.ledger;
      }
    }
  }

  /** `add_product` keeps the rowid bookkeeping and the sum-consistency invariant, and keeps
      stock non-negative exactly when the initial stock is not negative. */
  lemma AddProductPreservesInvariants(t: Tables, name: string, categoryId: Option<int>, initialField: Option<int>,
                                      minField: Option<int>, userId: int, now: string)
    ensures WellFormed(t) ==> WellFormed(AddProductStep(t, name, categoryId, initialField, minField, userId, now).after)
    ensures Consistent(t) ==> Consistent(AddProductStep(t, name, categoryId, initialField, minField, userId, now).after)
    ensures NonNegative(t) ==>
              (NonNegative(AddProductStep(t, name, categoryId, initialField, minField, userId, now).after)
               <==> name == "" || IntOrZero(initialField) >= 0)
  {
    var s := AddProductStep(t, name, categoryId, initialField, minField, userId, now);
    if WellFormed(t) {
      AddProductKeepsWellFormed(t, name, categoryId, initialField, minField, userId, now);
    }
    if Consistent(t) {
      AddProductKeepsConsistent(t, name, categoryId, initialField, minField, userId, now);
    }
    if name != "" {
      var id := t.lastProductId + 1;
      assert s.after.products[id].stock == IntOrZero(initialField);
    }
  }

  /** `add_product` (POST). `name` is the stripped product name; `categoryId` the category
      the form resolved to. The product row and the ledger row are two separate writes. */
  method AddProduct(db: Store, name: string, categoryId: Option<int>, initialField: Option<int>,
                    minField: Option<int>, userId: int, now: string)
    returns (r: AddProductResult)
    requires db.Valid()
    modifies db`products, db`ledger, db`lastProductId, db`lastTransactionId
    ensures db.Valid()
    ensures ProductStep(r, db.State())
         == AddProductStep(old(db.State()), name, categoryId, initialField, minField, userId, now)
    ensures old(Consistent(db.State())) ==> Consistent(db.State())
    ensures old(NonNegative(db.State())) ==>
              (NonNegative(db.State()) <==> name == "" || IntOrZero(initialField) >= 0)
  {
    AddProductPreservesInvariants(db.State(), name, categoryId, initialField, minField, userId, now);
    var initialStock := IntOrZero(initialField);
    var minStock := IntOrZero(minField);
    if name == "" {
      return NameMissing;
    }
    db.lastProductId := db.lastProductId + 1;
    var newProductId := db.lastProductId;
    db.products := db.products[newProductId := Product(categoryId, name, initialStock, minStock)];
    if initialStock != 0 {
      db.lastTransactionId := db.lastTransactionId + 1;
      db.ledger := db.ledger + [Entry(db.lastTransactionId, newProductId, now, userId, initialStock)];
    }
    r := Added(newProductId);
  }

  // ---------------------------------------------------------------------------
  // The per-product history (`history`)
  // ---------------------------------------------------------------------------

  /** A row of the history query: the ledger columns and the LEFT JOINed username. */
  datatype HistoryRow = HistoryRow(transactionId: int, datetime: string, quantity: int, username: Option<string>)

  /** One ledger entry joined with `users`; the username is NULL when no user has its id. */
  function ToRow(e: Entry, users: map<int, User>): (r: HistoryRow)
    ensures r.transactionId == e.id && r.datetime == e.datetime && r.quantity == e.quantity
    ensures r.username.Some? <==> e.userId in users
    ensures r.username.Some? ==> r.username.value == users[e.userId].username
  {
    HistoryRow(e.id, e.datetime, e.quantity, if e.userId in users then Some(users[e.userId].username) else None)
  }

  /** The joined rows of the entries of `productId`, in ledger order. */
  function Rows(ledger: seq<Entry>, users: map<int, User>, productId: int): (r: seq<HistoryRow>)
    ensures |r| == Count(ledger, productId) <= |ledger|
  {
    if ledger == [] then []
    else (if ledger[0].productId == productId then [ToRow(ledger[0], users)] else [])
         + Rows(ledger[1..], users, productId)
  }

  /** SQLite's order on TEXT: character by character, a proper prefix first. */
  predicate TimeLe(a: string, b: string)
  {
    a == [] || (b != [] && (a[0] < b[0] || (a[0] == b[0] && TimeLe(a[1..], b[1..]))))
  }

  lemma {:induction false} TimeLeTotal(a: string, b: string)
    ensures TimeLe(a, b) || TimeLe(b, a)
  {
    if a != [] && b != [] && a[0] == b[0] {
      TimeLeTotal(a[1..], b[1..]);
    }
  }

  lemma {:induction false} TimeLeTransitive(a: string, b: string, c: string)
    requires TimeLe(a, b) && TimeLe(b, c)
    ensures TimeLe(a, c)
  {
    if a != [] && a[0] == b[0] && b[0] == c[0] {
      TimeLeTransitive(a[1..], b[1..], c[1..]);
    }
  }

  /** Newest first: no row is followed by a row with a later datetime. */
  ghost predicate SortedDesc(rows: seq<HistoryRow>)
  {
    forall i, j :: 0 <= i < j < |rows| ==> TimeLe(rows[j].datetime, rows[i].datetime)
  }

  /** Places `x` before the first row of `rows` whose datetime is not later than its own. */
  function Insert(x: HistoryRow, rows: seq<HistoryRow>): (r: seq<HistoryRow>)
    ensures multiset(r) == multiset(rows) + multiset{x}
  {
    if rows == [] then [x]
    else if TimeLe(rows[0].datetime, x.datetime) then [x] + rows
    else
      assert rows == [rows[0]] + rows[1..];
      [rows[0]] + Insert(x, rows[1..])
  }

  /** ORDER BY datetime DESC. */
  function SortDesc(rows: seq<HistoryRow>): (r: seq<HistoryRow>)
    ensures multiset(r) == multiset(rows)
  {
    if rows == [] then []
    else
      assert rows == [rows[0]] + rows[1..];
      Insert(rows[0], SortDesc(rows[1..]))
  }

  /** The history query: the entries of `productId` joined with their usernames, newest first. */
  function History(ledger: seq<Entry>, users: map<int, User>, productId: int): (h: seq<HistoryRow>)
    ensures multiset(h) == multiset(Rows(ledger, users, productId))
  {
    SortDesc(Rows(ledger, users, productId))
  }

  /** Inserting a row no later than `top` into rows no later than `top` keeps them all no later. */
  lemma {:induction false} InsertBelow(x: HistoryRow, rows: seq<HistoryRow>, top: string)
    requires TimeLe(x.datetime, top)
    requires forall i :: 0 <= i < |rows| ==> TimeLe(rows[i].datetime, top)
    ensures forall i :: 0 <= i < |Insert(x, rows)| ==> TimeLe(Insert(x, rows)[i].datetime, top)
  {
    if rows != [] && !TimeLe(rows[0].datetime, x.datetime) {
      InsertBelow(x, rows[1..], top);
      var r := Insert(x, rows);
      assert r == [rows[0]] + Insert(x, rows[1..]);
      forall i | 0 < i < |r| ensures TimeLe(r[i].datetime, top) {
        assert r[i] == Insert(x, rows[1..])[i - 1];
      }
    }
  }

  /** A row no earlier than the first of rows ordered newest first can go in front. */
  lemma InsertInFront(x: HistoryRow, rows: seq<HistoryRow>)
    requires SortedDesc(rows)
    requires rows == [] || TimeLe(rows[0].datetime, x.datetime)
    ensures SortedDesc([x] + rows)
  {
    var r := [x] + rows;
    forall i, j | 0 <= i < j < |r| ensures TimeLe(r[j].datetime, r[i].datetime) {
      if i == 0 {
        if j > 1 {
          TimeLeTransitive(rows[j - 1].datetime, rows[0].datetime, x.datetime);
        }
      } else {
        assert r[i] == rows[i - 1] && r[j] == rows[j - 1];
      }
    }
  }

  /** A first row no earlier than every row of the ordered rest keeps the whole ordered. */
  lemma PrependAbove(top: HistoryRow, rest: seq<HistoryRow>)
    requires SortedDesc(rest)
    requires forall i :: 0 <= i < |rest| ==> TimeLe(rest[i].datetime, top.datetime)
    ensures SortedDesc([top] + rest)
  {
    var r := [top] + rest;
    forall i, j | 0 <= i < j < |r| ensures TimeLe(r[j].datetime, r[i].datetime) {
      if i == 0 {
        assert r[j] == rest[j - 1];
      } else {
        assert r[i] == rest[i - 1] && r[j] == rest[j - 1];
      }
    }
  }

  lemma {:induction false} InsertSorted(x: HistoryRow, rows: seq<HistoryRow>)
    requires SortedDesc(rows)
    ensures SortedDesc(Insert(x, rows))
  {
    if rows == [] || TimeLe(rows[0].datetime, x.datetime) {
      InsertInFront(x, rows);
    } else {
      TimeLeTotal(x.datetime, rows[0].datetime);
      assert SortedDesc(rows[1..]) by {
        forall i, j | 0 <= i < j < |rows[1..]| ensures TimeLe(rows[1..][j].datetime, rows[1..][i].datetime) {
          assert rows[1..][i] == rows[i + 1] && rows[1..][j] == rows[j + 1];
        }
      }
      forall i | 0 <= i < |rows[1..]| ensures TimeLe(rows[1..][i].datetime, rows[0].datetime) {
        assert rows[1..][i] == rows[i + 1];
      }
      InsertSorted(x, rows[1..]);
      InsertBelow(x, rows[1..], rows[0].datetime);
      PrependAbove(rows[0], Insert(x, rows[1..]));
    }
  }

  lemma {:induction false} SortDescSorted(rows: seq<HistoryRow>)
    ensures SortedDesc(SortDesc(rows))
  {
    if rows != [] {
      SortDescSorted(rows[1..]);
      InsertSorted(rows[0], SortDesc(rows[1..]));
    }
  }

  /** The sum of the quantities shown in `rows`. */
  function QuantitySum(rows: seq<HistoryRow>): int
  {
    if rows == [] then 0 else rows[0].quantity + QuantitySum(rows[1..])
  }

  lemma {:induction false} InsertQuantitySum(x: HistoryRow, rows: seq<HistoryRow>)
    ensures QuantitySum(Insert(x, rows)) == x.quantity + QuantitySum(rows)
  {
    if rows != [] && !TimeLe(rows[0].datetime, x.datetime) {
      InsertQuantitySum(x, rows[1..]);
      assert ([rows[0]] + Insert(x, rows[1..]))[1..] == Insert(x, rows[1..]);
    } else {
      assert ([x] + rows)[1..] == rows;
    }
  }

  lemma {:induction false} SortDescQuantitySum(rows: seq<HistoryRow>)
    ensures QuantitySum(SortDesc(rows)) == QuantitySum(rows)
  {
    if rows != [] {
      SortDescQuantitySum(rows[1..]);
      InsertQuantitySum(rows[0], SortDesc(rows[1..]));
    }
  }

  lemma {:induction false} RowsFacts(ledger: seq<Entry>, users: map<int, User>, productId: int)
    ensures QuantitySum(Rows(ledger, users, productId)) == LedgerSum(ledger, productId)
    ensures forall r :: r in Rows(ledger, users, productId)
                        <==> exists e :: e in ledger && e.productId == productId && r == ToRow(e, users)
  {
    if ledger != [] {
      RowsFacts(ledger[1..], users, productId);
      var head := if ledger[0].productId == productId then [ToRow(ledger[0], users)] else [];
      var tail := Rows(ledger[1..], users, productId);
      assert Rows(ledger, users, productId) == head + tail;
      if head != [] {
        assert (head + tail)[1..] == tail;
      } else {
        assert head + tail == tail;
      }
      forall r | r in Rows(ledger, users, productId)
        ensures exists e :: e in ledger && e.productId == productId && r == ToRow(e, users)
      {
        if r in tail {
          var e :| e in ledger[1..] && e.productId == productId && r == ToRow(e, users);
          assert e in ledger;
        } else {
          assert ledger[0] in ledger;
        }
      }
      forall r | exists e :: e in ledger && e.productId == productId && r == ToRow(e, users)
        ensures r in Rows(ledger, users, productId)
      {
        var e :| e in ledger && e.productId == productId && r == ToRow(e, users);
        if e != ledger[0] {
          assert e in ledger[1..];
        }
      }
    }
  }

  /** The history lists exactly the product's ledger entries, newest first, and its
      quantities add up to the product's ledger sum. */
  lemma HistorySpec(ledger: seq<Entry>, users: map<int, User>, productId: int)
    ensures SortedDesc(History(ledger, users, productId))
    ensures |History(ledger, users, productId)| == Count(ledger, productId)
    ensures forall r :: r in History(ledger, users, productId)
                        <==> exists e :: e in ledger && e.productId == productId && r == ToRow(e, users)
    ensures QuantitySum(History(ledger, users, productId)) == LedgerSum(ledger, productId)
  {
    var rows := Rows(ledger, users, productId);
    RowsFacts(ledger, users, productId);
    SortDescSorted(rows);
    SortDescQuantitySum(rows);
    assert |SortDesc(rows)| == |multiset(SortDesc(rows))| == |multiset(rows)| == |rows|;
    forall r ensures r in SortDesc(rows) <==> r in rows {
      assert r in SortDesc(rows) <==> r in multiset(SortDesc(rows));
      assert r in rows <==> r in multiset(rows);
    }
  }

  /** Under the sum-consistency invariant, a product's stock is the sum of the quantities its
      history shows. */
  lemma StockMatchesHistory(t: Tables, users: map<int, User>, productId: int)
    requires Consistent(t) && productId in t.products
    ensures QuantitySum(History(t.ledger, users, productId)) == t.products[productId].stock
  {
    HistorySpec(t.ledger, users, productId);
  }
}
