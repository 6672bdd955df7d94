/** The user repository of src/data/repositories/user.py: a store keyed by
    `username` whose rows hold the user name and a password hash. The bcrypt
    hashing and checking are calls this model cannot see; the hash is a
    parameter of `Insert` and the check a parameter of `VerifyPassword`. */
module UserRepo {
  import opened Results
  import opened Store
  import opened Consistency

  const KeyCol: string := "username"
  const Fields: seq<string> := ["username", "password_hash"]

  /** The constructor: a store over the user files, opened with the
      corrected index loader. */
  function Open(stored: Stored): (r: Result<Db, Error>)
    ensures r.Success?
    ensures r.value.keyCol == KeyCol && r.value.schema == Fields + [Deleted]
    ensures r.value.rows == stored.data.GetOr([]) && r.value.index.Keys == LoggedKeys(r.value.log)
  {
    Store.Open(KeyCol, Fields, stored)
  }

  /** A store opened by this repository. */
  predicate IsUserStore(db: Db) {
    db.keyCol == KeyCol && db.schema == Fields + [Deleted]
  }

  /** The fields of a user row. */
  lemma UserFields(db: Db)
    requires IsUserStore(db)
    ensures FieldSet(db.schema) == {"username", "password_hash", Deleted}
  {
    assert db.schema == ["username", "password_hash", Deleted];
  }

  /** The record `insert` hands to the store. */
  function Record(username: string, hash: string): Row {
    map["username" := username, "password_hash" := hash]
  }

  /** `insert`: stores the user name with the hash of the password. On a
      user store it raises exactly when the key is already in the index,
      which includes the key of a deleted user: the tombstone keeps its
      entry. */
  function Insert(db: Db, username: string, hash: string): (r: Step)
    ensures r.raised.Some? ==> r.db == db
    ensures IsUserStore(db) ==> (r.raised.Some? <==> InsertKey(db, Record(username, hash)) in db.index)
  {
    assert IsUserStore(db) ==> Record(username, hash).Keys + {db.keyCol, Deleted} <= FieldSet(db.schema) by {
      if IsUserStore(db) {
        UserFields(db);
      }
    }
    Store.Insert(db, Record(username, hash))
  }

  /** `get`: `None` for a name the index lacks or has deleted. On a
      consistent store a row comes back exactly for an active user, and it
      is that user's row. */
  function Get(db: Db, username: string): (r: Option<Row>)
    ensures username !in db.index || db.index[username].flag == 1 ==> r.None?
    ensures Consistent(db) ==> (r.Some? <==> username in ActiveKeys(db.index))
    ensures Consistent(db) && r.Some? ==> KeyOf(db.keyCol, r.value) == username
  {
    assert Consistent(db) ==> (Store.Get(db, username).Some? <==> username in ActiveKeys(db.index)) by {
      if Consistent(db) {
        GetFindsActive(db, username);
      }
    }
    Store.Get(db, username)
  }

  /** `is_username_taken`: whether `get` answers with a row. A name never
      stored is free; on a consistent store a name is taken exactly when
      the index holds it with flag 0, so a deleted user's name is free. */
  function IsUsernameTaken(db: Db, username: string): (taken: bool)
    ensures username !in db.index ==> !taken
    ensures Consistent(db) ==> (taken <==> username in ActiveKeys(db.index))
  {
    Get(db, username).Some?
  }

  /** `count`: on a consistent store, the number of user rows `get_all`
      lists. */
  function Count(db: Db): (c: nat)
    ensures c <= |db.index|
    ensures Consistent(db) ==> GetAll(db).Success? && c == |GetAll(db).value|
  {
    assert Consistent(db) ==> GetAll(db).Success? && Store.Count(db) == |GetAll(db).value| by {
      if Consistent(db) {
        CountIsActiveRows(db);
      }
    }
    Store.Count(db)
  }

  /** `verify_password`: false for a user `get` does not find, otherwise
      whatever the hash check says about the stored hash. */
  function VerifyPassword(db: Db, username: string, password: string, checkpw: (string, string) -> bool): (ok: bool)
    requires IsUserStore(db) && Shaped(db.schema, db.rows)
    ensures Get(db, username).None? ==> !ok
    ensures Get(db, username).Some? ==> ok == checkpw(password, Get(db, username).value["password_hash"])
  {
    var rec := Get(db, username);
    if Falsy(rec) then false
    else
      assert "password_hash" in FieldSet(db.schema);
      checkpw(password, rec.value["password_hash"])
  }

  /** The row `insert` writes for a user under `key`. */
  lemma UserRow(db: Db, username: string, hash: string, key: string)
    requires IsUserStore(db)
    ensures StoredForm(db, Record(username, hash), key) == map["username" := key, "password_hash" := hash, Deleted := "0"]
  {
    var full := Record(username, hash)[db.keyCol := key][Deleted := "0"];
    assert full.Keys == FieldSet(db.schema);
    assert full == map["username" := key, "password_hash" := hash, Deleted := "0"];
    WriteShapedRow(db.schema, full);
  }

  /** After a successful insert, `get` of the new key answers with the user
      name as stored, the given hash and flag 0; the key is the user name
      itself unless that name is the text `None`. Count grows by one. */
  lemma InsertThenFind(db: Db, username: string, hash: string)
    requires Consistent(db) && IsUserStore(db) && Insert(db, username, hash).raised.None?
    ensures username != "None" ==> InsertKey(db, Record(username, hash)) == username
    ensures var key := InsertKey(db, Record(username, hash));
            Get(Insert(db, username, hash).db, key) == Some(map["username" := key, "password_hash" := hash, Deleted := "0"])
    ensures Count(Insert(db, username, hash).db) == Count(db) + 1
  {
    var record := Record(username, hash);
    InsertThenGet(db, record);
    InsertKeepsConsistent(db, record);
    UserRow(db, username, hash, InsertKey(db, record));
  }
}
