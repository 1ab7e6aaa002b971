# Café inventory stock engine in Dafny

This project models the stock engine of a small Flask and SQLite inventory application for a café. It covers four pieces:

- `add_transaction`, the one routine that changes a product's stock. It reads the current stock. It refuses an unknown product and any change that would take the stock below zero. Otherwise it writes the new stock and appends one row to the `inventory_transactions` ledger.
- The handlers that feed that routine:
  - the in/out form (`transaction`), which signs a positive quantity by its direction;
  - `set_stock`, which turns an absolute target into a delta;
  - `add_product`, which writes a new product with its initial stock and seeds the ledger directly when that stock is not zero.
- The per-product `history` query: the product's ledger rows joined with usernames, newest first.
- The one-off migration `hash_existing_passwords.py`, which hashes every password that is neither NULL nor already hash-like.

Modules:

- `Inventory` (`inventory.dfy`): the rows and invariants.
  - Datatypes for the rows of `products`, `inventory_transactions` and `users`.
  - `Tables`, which holds the two tables the engine writes plus the largest rowid handed out in each. There is no delete path, so SQLite gives a new row the rowid `last + 1`.
  - `LedgerSum` and `Count` over the ledger.
  - `WellFormed`: the rowid bookkeeping.
  - `Consistent`: the sum-consistency invariant. Every ledger row names an existing product, and each product's stock equals the sum of its ledger quantities.
  - `NonNegative`: no product's stock is below zero.
- `DbUtils` (`db_utils.dfy`):
  - `ApplyDelta` is the effect of `add_transaction` on `Tables`, stated as a pure function, with lemmas about it.
  - The class `Store` is the database whose fields the handlers update in place. Its method `AddTransaction` is proved equal to `ApplyDelta`.
- `App` (`app.dfy`): the handlers as methods that take the `Store`, each proved against a pure function or against `ApplyDelta`. Also the history query as a function on the ledger.
- `PasswordMigration` (`hash_existing_passwords.dfy`): the hash-likeness test and the migration loop, proved against `MigratedUsers`, the table it is meant to produce.

`Store.Valid()` is `WellFormed` of the store's tables. The handler methods require it and keep it. It is the model's account of SQLite's rowid assignment, not a demand the application makes of its callers. `Consistent` and `NonNegative` are not required. Each handler method, and `Store.AddTransaction`, keeps `Consistent` when it held before. Each of them keeps `NonNegative` when it held before, with one exception: `App.AddProduct` keeps it only when the name is empty or the initial stock is not negative.

Two facts about the code shape what the model states:

- `add_transaction` has no check for a zero quantity (db_utils.py:29-39). When the product's stock is not negative, a quantity of 0 succeeds and appends a zero-quantity ledger row (`DbUtils.ZeroQuantityIsRecorded`). When the stock is negative, it fails with the insufficient-stock error. Its two callers never pass 0: `transaction` rejects quantities below 1 and `set_stock` returns early when the delta is 0. `add_product`, which writes its ledger row directly, skips that row when the initial stock is 0.
- `add_product` stores the initial stock without a sign check (app.py:144-161). It writes that stock, and the matching ledger row, directly, without going through `add_transaction`. So a negative initial stock is stored. `App.AddProductPreservesInvariants` proves that non-negativity survives exactly when the initial stock is not negative.

## Model

| member | source | states |
|---|---|---|
| Inventory.LedgerSumAppend | db_utils.py:33-39 | Appending one ledger row changes the ledger sum of its own product by its quantity. It changes no other product's sum. |
| Inventory.CountAppend | db_utils.py:36-39 | Appending one ledger row adds one to its own product's row count and nothing to any other's. |
| Inventory.LedgerSumWithoutEntries | app.py:144-149 | A product with no ledger rows, such as one just inserted, has ledger sum zero. |
| DbUtils.ApplyDelta | db_utils.py:19-40 | Unknown product: "product not found", tables unchanged. Stock plus quantity below zero: insufficient stock, tables unchanged. Success exactly when the product exists and the result is at least zero. On success: that product's stock becomes old stock plus quantity (and is at least zero); its other columns and every other product are unchanged; exactly one row (next id, product, time, user, quantity) is appended to the ledger. |
| DbUtils.ApplyDeltaPreservesInvariants | db_utils.py:25-39 | `add_transaction` keeps the rowid bookkeeping, the sum-consistency invariant and non-negative stock. |
| DbUtils.ApplyDeltaRecordsOneEntry | db_utils.py:27-39 | A successful call adds exactly one ledger row for its product. A failed call adds none. No other product's row count changes. |
| DbUtils.ZeroQuantityIsRecorded | db_utils.py:29-39 | A zero quantity on an existing product with non-negative stock succeeds. It leaves every product as it was and still appends a zero-quantity ledger row. |
| DbUtils.Store.AddTransaction | db_utils.py:19-40 | The in-place update is exactly `ApplyDelta` of the old tables. An error leaves the database unchanged. Rowid bookkeeping, sum-consistency and non-negativity are kept. |
| App.SignedQuantity | app.py:91-96 | A signed quantity exists exactly when the entered quantity is positive. It is never zero, equals plus or minus the entered quantity, and is negative exactly when the direction is "out". |
| App.Transaction | app.py:86-102 | A quantity below 1 is rejected and nothing changes. Otherwise the effect is `add_transaction` with the signed quantity. No zero-quantity ledger row is ever added. The invariants are kept. |
| App.StockDelta | app.py:189-193 | There is no delta exactly when the target equals the current stock. Otherwise the delta is non-zero and takes the current stock to the target. |
| App.SetStock | app.py:174-201 | Missing product, non-numeric field and unchanged stock each end early with nothing changed. Otherwise the effect is `add_transaction` with target minus current. It succeeds exactly when the target is non-negative, and the stock then equals the target. Failure is insufficient stock with nothing changed. The invariants are kept. |
| App.IntOrZero | app.py:117-124 | A numeric field gives its value. A field that fails `int(...)` gives 0. |
| App.AddProductStep | app.py:111-161 | An empty name changes nothing. Otherwise the product gets the next rowid, which is fresh. The product row holds the initial stock as given. One ledger row with that quantity is appended exactly when the initial stock is not zero. |
| App.AddProductKeepsWellFormed | app.py:143-161 | The new product's rowid and its seed ledger row's rowid lie beyond every id in use, so the rowid bookkeeping holds afterwards. |
| App.AddProductKeepsConsistent | app.py:143-161 | The seed ledger row, present exactly when the initial stock is not zero, makes the new product's ledger sum equal its stored stock. Other products' sums are unchanged. |
| App.AddProductPreservesInvariants | app.py:143-161 | `add_product` keeps the rowid bookkeeping and sum-consistency. Non-negativity survives exactly when the name is empty or the initial stock is not negative. |
| App.AddProduct | app.py:111-164 | The in-place inserts are exactly `AddProductStep` of the old tables. The invariants are kept as that lemma states. |
| App.Rows | app.py:210-214 | The WHERE filter and LEFT JOIN of the history query: one joined row per ledger row of the product, so never more rows than the ledger holds. `App.RowsFacts` proves which rows these are and that their quantities sum to the product's ledger sum. |
| App.History | app.py:208-218 | The whole history query: ORDER BY only reorders the filtered, joined rows, so the result is a permutation of them. `App.HistorySpec` proves the newest-first order, the contents and the quantity sum. |
| App.ToRow | app.py:210-213 | A history row carries the ledger row's id, time and quantity. The LEFT JOIN gives a username exactly when the user id exists, and then it is that user's name. |
| App.TimeLeTotal | app.py:215 | Any two datetime texts are comparable in SQLite's TEXT order. |
| App.TimeLeTransitive | app.py:215 | SQLite's TEXT order is transitive. |
| App.Insert | app.py:215 | Inserting into the ordered rows adds exactly that row: the result is a permutation. |
| App.SortDesc | app.py:215 | ORDER BY returns a permutation of its input rows. |
| App.InsertSorted | app.py:215 | Inserting a row into rows ordered newest first keeps them ordered. |
| App.SortDescSorted | app.py:215 | ORDER BY datetime DESC yields rows ordered newest first. |
| App.SortDescQuantitySum | app.py:215 | Reordering the rows does not change the sum of their quantities. |
| App.RowsFacts | app.py:210-214 | The filtered, joined rows are exactly the joins of the product's ledger rows, and their quantities sum to the product's ledger sum. |
| App.HistorySpec | app.py:208-218 | The history is ordered newest first. It has one row per ledger row of the product and contains exactly the joins of those rows. Its quantities sum to the product's ledger sum. |
| App.StockMatchesHistory | app.py:208-218 | Under the sum-consistency invariant, a product's stock equals the sum of the quantities its history shows. |
| PasswordMigration.LooksLikeWerkzeugHash | hash_existing_passwords.py:11-18 | Only strings can look like a hash. A string does exactly when it contains ':' and is longer than 30 characters. |
| PasswordMigration.MigratedPassword | hash_existing_passwords.py:33-41 | A plaintext password (not NULL, not hash-like) is replaced by its hash. A NULL or hash-like one is kept. |
| PasswordMigration.MigratedUsers | hash_existing_passwords.py:29-43 | The migrated table has the same user ids. Each row keeps its username and gets its migrated password. |
| PasswordMigration.PlaintextIds | hash_existing_passwords.py:33-38 | The ids the migration hashes are exactly the user ids whose password is plaintext. |
| PasswordMigration.MigrationIsIdempotent | hash_existing_passwords.py:33-41 | If every hash the hasher produces looks like a hash, a second run finds no plaintext password and changes nothing. |
| PasswordMigration.HashExistingPasswords | hash_existing_passwords.py:25-43 | The loop leaves `users` equal to `MigratedUsers` of the table it read. The count it reports is the number of plaintext passwords in it. |

## Left out

- Flask routing, `login_required`, the session, `flash` messages, redirects and templates are not modelled. The acting user id is a parameter. An error the handlers flash is the returned `Outcome` or result value.
- `register`, `login`, `logout`, the `products` listing and the GET branches of `transaction`, `add_product` and `set_stock` are not modelled. They only read and render.
- `get_db` and `close_db` (connection caching on `g`) are not modelled, and neither is the migration's connection handling. The `Store` object plays the database.
- The SQL text is not modelled. Each statement is modelled by its effect on the tables.
- `datetime.utcnow().isoformat()` is not modelled. The time is a parameter `now`.
- Category creation in `add_product` (app.py:130-141) is not modelled. The model takes the category id the form resolved to. The `categories` table is not modelled.
- Form parsing is not modelled:
  - the stripping of the product name: the model takes the stripped name;
  - `int(...)` on form fields: a numeric field is `Some(n)`, a failing one `None`.
  - In `set_stock` a missing `new_stock` field parses as 0, so the caller passes `Some(0)`.
  - In `transaction` a non-numeric `product_id` or `quantity` raises before any check. The model takes integers.
- `generate_password_hash` is a parameter function. Its random salt is not modelled, and neither are the migration's `print` lines.
- `PasswordMigration.HashExistingPasswords`: the order in which SELECT returns user rows is not modelled. The loop takes the ids in an arbitrary order, and every order gives the same table and count.
- `PasswordMigration.HashExistingPasswords`: a password column holding something other than NULL or text is not modelled. `LooksLikeWerkzeugHash` itself does handle such a value.
- Concurrency is not modelled. Two requests interleaving between `add_transaction`'s read and its write could lose an update, and the model treats each call as atomic.
- `AddProduct`: storage failures are not modelled. `add_product` commits the product row and the ledger row separately. A failure between the two commits would leave a product without its seed row.
- SQLite's 64-bit INTEGER limit is not modelled. Stock, quantities and rowids are unbounded integers.
- `App.History`: for rows with equal datetimes, SQLite leaves the order unspecified. The model fixes one order (stable insertion). `App.HistorySpec` states only what holds for every order: newest-first ordering, contents and sums.
