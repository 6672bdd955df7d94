/** The server repository of src/data/repositories/server.py: a store keyed
    by `id` over the sixteen server settings. `insert`, `get`, `delete` and
    `count` hand their arguments to the store unchanged; `update` and
    `get_server_properties` do work of their own. */
module ServerRepo {
  import opened Results
  import opened Store
  import opened Consistency

  const KeyCol: string := "id"
  const Fields: seq<string> :=
    ["id", "name", "motd", "version", "slots", "difficulty", "online_mode", "enable_command_block",
     "spawn_monsters", "force_gamemode", "gamemode", "white_list", "pvp", "allow_flight",
     "allow_nether", "spawn_protection"]

  /** The fields `get_server_properties` leaves out. */
  const Hidden: set<string> := {"id", "name", Deleted}

  /** The constructor: a store over the server files, opened with the
      corrected index loader. */
  function Open(stored: Stored): (r: Result<Db, Error>)
    ensures r.Success?
    ensures r.value.keyCol == KeyCol && r.value.schema == Fields + [Deleted]
    ensures r.value.rows == stored.data.GetOr([]) && r.value.index.Keys == LoggedKeys(r.value.log)
  {
    Store.Open(KeyCol, Fields, stored)
  }

  /** A store opened by this repository. */
  predicate IsServerStore(db: Db) {
    db.keyCol == KeyCol && db.schema == Fields + [Deleted]
  }

  /** `insert`: the data as given. On a server store a new key is refused
      only for a field outside the sixteen settings; on a consistent store
      the server is then found under its key. */
  function Insert(db: Db, data: Row): (r: Step)
    ensures r.raised.Some? ==> r.db == db
    ensures IsServerStore(db) && InsertKey(db, data) !in db.index ==>
              (r.raised.None? <==> data.Keys <= FieldSet(db.schema))
    ensures Consistent(db) && r.raised.None? ==>
              Consistent(r.db) && Get(r.db, InsertKey(db, data)) == Some(StoredForm(db, data, InsertKey(db, data)))
  {
    assert IsServerStore(db) ==> {db.keyCol, Deleted} <= FieldSet(db.schema) by {
      if IsServerStore(db) {
        SchemaFields();
        assert KeyCol in Fields;
      }
    }
    assert Consistent(db) && Store.Insert(db, data).raised.None? ==>
             && Consistent(Store.Insert(db, data).db)
             && Store.Get(Store.Insert(db, data).db, InsertKey(db, data)) == Some(StoredForm(db, data, InsertKey(db, data))) by {
      if Consistent(db) && Store.Insert(db, data).raised.None? {
        InsertKeepsConsistent(db, data);
        InsertThenGet(db, data);
      }
    }
    Store.Insert(db, data)
  }

  /** `get`: `None` for an id the index lacks or has deleted. On a
      consistent store the answer is falsy exactly when no active server
      has the id: a stored row always holds its id. */
  function Get(db: Db, id: string): (r: Option<Row>)
    ensures id !in db.index || db.index[id].flag == 1 ==> r.None?
    ensures Consistent(db) ==> (Falsy(r) <==> id !in ActiveKeys(db.index))
  {
    assert Consistent(db) ==> (Falsy(Store.Get(db, id)) <==> id !in ActiveKeys(db.index)) by {
      if Consistent(db) {
        GetFindsActive(db, id);
        if Store.Get(db, id).Some? {
          assert db.keyCol in FieldSet(db.schema);
          assert db.keyCol in Store.Get(db, id).value;
        }
      }
    }
    Store.Get(db, id)
  }

  /** `delete`: nothing happens for an id the index lacks or has deleted.
      On a consistent store an active server is tombstoned: the store stays
      consistent, `get` no longer finds it, and the count drops by one. */
  function Delete(db: Db, id: string): (r: Step)
    ensures id !in db.index || db.index[id].flag == 1 ==> r == Step(db, None)
    ensures Consistent(db) && id in ActiveKeys(db.index) ==>
              && r.raised.None? && Consistent(r.db)
              && Get(r.db, id).None? && Store.Count(r.db) == Store.Count(db) - 1
  {
    assert Consistent(db) && id in ActiveKeys(db.index) ==>
             && Store.Delete(db, id).raised.None? && Consistent(Store.Delete(db, id).db)
             && Store.Get(Store.Delete(db, id).db, id).None?
             && Store.Count(Store.Delete(db, id).db) == Store.Count(db) - 1 by {
      if Consistent(db) && id in ActiveKeys(db.index) {
        DeleteTombstones(db, id);
        DeleteKeepsConsistent(db, id);
      }
    }
    Store.Delete(db, id)
  }

  /** `count`: on a consistent store, the number of server rows `get_all`
      lists. */
  function Count(db: Db): (c: nat)
    ensures c <= |db.index|
    ensures Consistent(db) ==> GetAll(db).Success? && c == |GetAll(db).value|
  {
    assert Consistent(db) ==> GetAll(db).Success? && Store.Count(db) == |GetAll(db).value| by {
      if Consistent(db) {
        CountIsActiveRows(db);
      }
    }
    Store.Count(db)
  }

  /** A server inserted into a consistent store is found under its key with
      flag 0, and counted; deleting it again hides it from `get` and takes
      the count back to where it was. */
  lemma InsertThenDelete(db: Db, data: Row)
    requires Consistent(db) && Insert(db, data).raised.None?
    ensures var id := InsertKey(db, data);
            var db' := Insert(db, data).db;
            && Get(db', id) == Some(StoredForm(db, data, id))
            && Count(db') == Count(db) + 1
            && Delete(db', id).raised.None?
            && Get(Delete(db', id).db, id).None?
            && Count(Delete(db', id).db) == Count(db)
  {
    var id := InsertKey(db, data);
    var db' := Insert(db, data).db;
    InsertThenGet(db, data);
    InsertKeepsConsistent(db, data);
    GetFindsActive(db', id);
    DeleteTombstones(db', id);
    DeleteKeepsConsistent(db', id);
  }

  /** `get_server_properties`: nothing for a server `get` does not find,
      otherwise the record without its id, name and tombstone flag. */
  function Properties(db: Db, id: string): (r: Option<Row>)
    ensures Falsy(Get(db, id)) <==> r.None?
    ensures r.Some? ==> r.value.Keys == Get(db, id).value.Keys - Hidden
    ensures r.Some? ==> forall f :: f in r.value ==> r.value[f] == Get(db, id).value[f]
  {
    var server := Get(db, id);
    if Falsy(server) then None
    else Some(map f | f in server.value && f !in Hidden :: server.value[f])
  }

  /** For a stored server the properties are exactly the fourteen settings
      other than id and name. */
  lemma PropertiesOfServer(db: Db, id: string)
    requires Consistent(db) && IsServerStore(db) && id in ActiveKeys(db.index)
    ensures Properties(db, id).Some?
    ensures Properties(db, id).value.Keys == FieldSet(Fields) - {"id", "name"}
  {
    GetFindsActive(db, id);
    SchemaFields();
  }

  /** The tombstone column is not one of the server fields. */
  lemma SchemaFields()
    ensures FieldSet(Fields + [Deleted]) == FieldSet(Fields) + {Deleted}
    ensures Deleted !in FieldSet(Fields)
  {
    assert Deleted !in Fields;
  }

  /** `update` as written: the stored record, `id` included, merged with the
      new data and handed to the store's `update`, which refuses any update
      naming the key column. */
  function UpdateAsWritten(db: Db, id: string, data: Row): (r: Step)
    ensures Falsy(Get(db, id)) ==> r == Step(db, Some(ServerNotFound(id)))
  {
    var server := Get(db, id);
    if Falsy(server) then Step(db, Some(ServerNotFound(id)))
    else Store.Update(db, id, server.value + data)
  }

  /** In a store of this repository every `update` as written raises and
      leaves the store as it was: a missing server is reported, and a found
      one carries its `id`, which the store refuses to change. */
  lemma UpdateAsWrittenAlwaysRaises(db: Db, id: string, data: Row)
    requires IsServerStore(db) && Shaped(db.schema, db.rows)
    ensures UpdateAsWritten(db, id, data).db == db
    ensures UpdateAsWritten(db, id, data).raised == Some(ServerNotFound(id))
         || UpdateAsWritten(db, id, data).raised == Some(KeyImmutable)
  {
    var server := Get(db, id);
    if server.Some? {
      assert KeyCol in FieldSet(db.schema);
      assert KeyCol in server.value + data;
    }
  }

  /** `update` corrected: the merged record without its key column. */
  function Update(db: Db, id: string, data: Row): (r: Step)
    ensures Falsy(Get(db, id)) ==> r == Step(db, Some(ServerNotFound(id)))
  {
    var server := Get(db, id);
    if Falsy(server) then Step(db, Some(ServerNotFound(id)))
    else Store.Update(db, id, (server.value + data) - {KeyCol})
  }

  /** The key column dropped from the merge leaves the stored record with
      its own id and the new data's other fields. */
  lemma MergeWithoutKey(server: Row, data: Row)
    ensures server + ((server + data) - {KeyCol}) == server + (data - {KeyCol})
  {
  }

  /** The merged record without its key stays inside the schema exactly
      when the new data does. */
  lemma MergeInSchema(server: Row, data: Row, fields: set<string>)
    requires server.Keys == fields && KeyCol in fields
    ensures ((server + data) - {KeyCol}).Keys <= fields <==> data.Keys <= fields
  {
  }

  /** The corrected `update` of a stored server succeeds exactly when the
      data stays inside the schema. */
  lemma UpdateOutcomes(db: Db, id: string, data: Row)
    requires Consistent(db) && IsServerStore(db) && id in ActiveKeys(db.index)
    ensures Update(db, id, data).raised.None? <==> data.Keys <= FieldSet(db.schema)
    ensures Update(db, id, data).raised.Some? ==> Update(db, id, data) == Step(db, Some(UnknownField))
  {
    GetFindsActive(db, id);
    var server := Get(db, id).value;
    assert KeyCol in FieldSet(db.schema);
    MergeInSchema(server, data, FieldSet(db.schema));
    UpdateOutcome(db, id, (server + data) - {KeyCol});
  }

  /** After a corrected `update` that succeeds, `get` answers with the stored
      record overlaid by the data, except that the id never changes, and
      every other server reads as before. */
  lemma UpdateMerges(db: Db, id: string, data: Row)
    requires Consistent(db) && IsServerStore(db) && id in ActiveKeys(db.index)
    requires Update(db, id, data).raised.None?
    ensures Get(Update(db, id, data).db, id) == Some(Get(db, id).value + (data - {KeyCol}))
    ensures forall k :: k != id ==> Get(Update(db, id, data).db, k) == Get(db, k)
  {
    GetFindsActive(db, id);
    var server := Get(db, id).value;
    UpdateThenGet(db, id, (server + data) - {KeyCol});
    MergeWithoutKey(server, data);
  }
}
