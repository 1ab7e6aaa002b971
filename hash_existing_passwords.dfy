/** The one-off migration that replaces plaintext passwords in `users` with hashes. */
module PasswordMigration {
  import opened Inventory
  import opened DbUtils

  /** A Python value as the migration sees it: None, a string, or anything else. */
  datatype Value = NoneValue | Str(s: string) | Other

  /** `looks_like_werkzeug_hash`: a string that holds a ':' and is longer than 30 characters. */
  function LooksLikeWerkzeugHash(v: Value): (r: bool)
    ensures r ==> v.Str?
    ensures v.Str? ==> (r <==> |v.s| > 30 && exists i :: 0 <= i < |v.s| && v.s[i] == ':')
  {
    v.Str? && ':' in v.s && |v.s| > 30
  }

  /** A password the loop hashes: not NULL and not already hash-like. */
  predicate IsPlaintext(password: Option<string>)
  {
    password.Some? && !LooksLikeWerkzeugHash(Str(password.value))
  }

  /** The password a row holds after the migration, `hash` standing for `generate_password_hash`. */
  function MigratedPassword(password: Option<string>, hash: string -> string): (p: Option<string>)
    ensures IsPlaintext(password) ==> p == Some(hash(password.value))
    ensures !IsPlaintext(password) ==> p == password
  {
    if IsPlaintext(password) then Some(hash(password.value)) else password
  }

  /** The `users` table after the migration. */
  function MigratedUsers(users: map<int, User>, hash: string -> string): (m: map<int, User>)
    ensures m.Keys == users.Keys
    ensures forall uid :: uid in users ==>
              m[uid] == users[uid].(password := MigratedPassword(users[uid].password, hash))
  {
    map uid | uid in users :: users[uid].(password := MigratedPassword(users[uid].password, hash))
  }

  /** The ids of the rows whose password the loop hashes. */
  function PlaintextIds(users: map<int, User>): (ids: set<int>)
    ensures ids <= users.Keys
    ensures forall uid :: uid in users ==> (uid in ids <==> IsPlaintext(users[uid].password))
  {
    set uid | uid in users && IsPlaintext(users[uid].password)
  }

  /** When every hash is itself hash-like, a second run finds nothing to do and changes nothing. */
  lemma MigrationIsIdempotent(users: map<int, User>, hash: string -> string)
    requires forall s :: LooksLikeWerkzeugHash(Str(hash(s)))
    ensures PlaintextIds(MigratedUsers(users, hash)) == {}
    ensures MigratedUsers(MigratedUsers(users, hash), hash) == MigratedUsers(users, hash)
  {
    var m := MigratedUsers(users, hash);
    forall uid | uid in m ensures !IsPlaintext(m[uid].password) {
      var p := users[uid].password;
      if IsPlaintext(p) {
        assert LooksLikeWerkzeugHash(Str(hash(p.value)));
      }
    }
  }

  /** Taking one more id out of the pending ones adds one to the count of processed
      marked ids exactly when it is marked. */
  lemma CountOneMore(marked: set<int>, pending: set<int>, uid: int)
    requires uid in pending
    ensures |marked - (pending - {uid})| == |marked - pending| + (if uid in marked then 1 else 0)
  {
    var before, after := marked - pending, marked - (pending - {uid});
    // Set and map equalities in this module are asked for as "pointwise facts ==> a == b":
    // a bare `assert a == b` here runs the solver out of its resource budget.
    if uid in marked {
      assert forall u :: u in after <==> u in before + {uid};
      assert (forall u :: u in after <==> u in before + {uid}) ==> after == before + {uid};
    } else {
      assert forall u :: u in after <==> u in before;
      assert (forall u :: u in after <==> u in before) ==> after == before;
    }
  }

  /** The table once every row outside `pending` has been migrated. */
  function MigratedExcept(rows: map<int, User>, pending: set<int>, hash: string -> string): map<int, User>
  {
    map uid | uid in rows :: if uid in pending then rows[uid] else rows[uid].(password := MigratedPassword(rows[uid].password, hash))
  }

  /** Migrating one more row rewrites the password of that row when it is plaintext, and
      changes nothing otherwise. */
  lemma MigratedExceptStep(rows: map<int, User>, pending: set<int>, uid: int, hash: string -> string)
    requires uid in pending && uid in rows
    ensures IsPlaintext(rows[uid].password) ==>
              MigratedExcept(rows, pending - {uid}, hash)
              == MigratedExcept(rows, pending, hash)[uid := rows[uid].(password := Some(hash(rows[uid].password.value)))]
    ensures !IsPlaintext(rows[uid].password) ==>
              MigratedExcept(rows, pending - {uid}, hash) == MigratedExcept(rows, pending, hash)
  {
    var a := MigratedExcept(rows, pending - {uid}, hash);
    var b := if IsPlaintext(rows[uid].password)
             then MigratedExcept(rows, pending, hash)[uid := rows[uid].(password := Some(hash(rows[uid].password.value)))]
             else MigratedExcept(rows, pending, hash);
    assert forall u :: u in a <==> u in b;
    assert forall u :: u in a ==> a[u] == b[u];
    assert (forall u :: u in a <==> u in b) && (forall u :: u in a ==> a[u] == b[u]) ==> a == b;
  }

  /** Before the loop nothing is migrated; after it everything is. */
  lemma MigratedExceptEnds(rows: map<int, User>, hash: string -> string)
    ensures MigratedExcept(rows, rows.Keys, hash) == rows
    ensures MigratedExcept(rows, {}, hash) == MigratedUsers(rows, hash)
  {
    var first, last := MigratedExcept(rows, rows.Keys, hash), MigratedExcept(rows, {}, hash);
    var target := MigratedUsers(rows, hash);
    assert forall u :: u in first <==> u in rows;
    assert forall u :: u in first ==> first[u] == rows[u];
    assert (forall u :: u in first <==> u in rows) && (forall u :: u in first ==> first[u] == rows[u]) ==> first == rows;
    assert forall u :: u in last <==> u in target;
    assert forall u :: u in last ==> last[u] == target[u];
    assert (forall u :: u in last <==> u in target) && (forall u :: u in last ==> last[u] == target[u]) ==> last == target;
  }

  /** `main`: walks the rows of `users` (in whatever order the SELECT returns them), skips
      NULL and hash-like passwords, hashes the rest and counts them. */
  method HashExistingPasswords(db: Store, hash: string -> string) returns (updated: nat)
    modifies db`users
    ensures db.users == MigratedUsers(old(db.users), hash)
    ensures updated == |PlaintextIds(old(db.users))|
  {
    var rows := db.users;
    ghost var plaintext := PlaintextIds(rows);
    var pending := rows.Keys;
    updated := 0;
    MigratedExceptEnds(rows, hash);
    assert plaintext - pending == {} by {
      assert (forall u :: u !in plaintext - pending) ==> plaintext - pending == {};
    }
    while pending != {}
      invariant pending <= rows.Keys
      invariant db.users == MigratedExcept(rows, pending, hash)
      invariant updated == |plaintext - pending|
      decreases pending
    {
      assert (forall u :: u !in pending) ==> pending == {};
      var uid :| uid in pending;
      CountOneMore(plaintext, pending, uid);
      MigratedExceptStep(rows, pending, uid, hash);
      var pw := rows[uid].password;
      if pw.Some? && !LooksLikeWerkzeugHash(Str(pw.value)) {
        db.users := db.users[uid := db.users[uid].(password := Some(hash(pw.value)))];
        updated := updated + 1;
      }
      pending := pending - {uid};
    }
    assert plaintext - pending == plaintext by {
      assert (forall u :: u in plaintext - pending <==> u in plaintext) ==> plaintext - pending == plaintext;
    }
  }
}
