/** Concrete stores over the schema `["id"]` that exhibit two edge cases of
    `Database`.

    The cold-load defect of `_load_index`: the loader keeps only the index
    lines whose flag is 0, while `insert` files each new key at line
    `len(index)`. Once a row has been deleted, a store reopened from its
    files therefore has fewer index entries than data rows, and the next
    insert is filed at the line of an older row.

    The synthetic key of `insert` is `str(len(index) + 1)`, which a key
    given earlier by a caller may already occupy. */
module StoreFindings {
  import opened Results
  import opened Store
  import opened Consistency
  import Text

  const Fields: seq<string> := ["id"]

  /** The store a fresh pair of files holds after `insert({"id": "a"})`. */
  function Inserted(): Db {
    Insert(Open("id", Fields, Stored(None, None)).value, map["id" := "a"]).db
  }

  /** The insert succeeded: the store is consistent and files `a` at line 0
      with flag 0. */
  lemma InsertedRows()
    ensures Insert(Open("id", Fields, Stored(None, None)).value, map["id" := "a"]).raised.None?
    ensures Consistent(Inserted()) && Inserted().keyCol == "id" && Inserted().schema == Fields + [Deleted]
    ensures Inserted().index == map["a" := Entry(0, 0)]
  {
    OpenFresh("id", Fields);
    var db0 := Open("id", Fields, Stored(None, None)).value;
    IdFields(db0.schema);
    var a := map["id" := "a"];
    assert InsertKey(db0, a) == "a";
    InsertKeepsConsistent(db0, a);
  }

  /** The store those files hold after `delete("a")` follows. */
  function Tombstoned(): Db {
    Delete(Inserted(), "a").db
  }

  /** The files of `Tombstoned()` hold one data row, the tombstone of `a`,
      and one index line recording it with flag 1. */
  lemma TombstonedRows()
    ensures Consistent(Tombstoned())
    ensures Tombstoned().schema == Fields + [Deleted]
    ensures |Tombstoned().rows| == 1
    ensures KeyOf("id", Tombstoned().rows[0]) == "a" && FlagOf(Tombstoned().rows[0]) == Some(1)
    ensures Tombstoned().log == [LogEntry("a", 0, 1)]
  {
    InsertedRows();
    var db1 := Inserted();
    assert "a" in ActiveKeys(db1.index);
    DeleteKeepsConsistent(db1, "a");
    DeleteTombstones(db1, "a");
    var db2 := Tombstoned();
    assert db2.index == map["a" := Entry(0, 1)];
    assert Resolves(db2, "a");
    ConsistentIsRebuilt(db2);
    RebuildLogLines(db2.keyCol, db2.rows);
    assert |db2.log| == 1;
  }

  lemma IdFields(schema: seq<string>)
    requires schema == Fields + [Deleted]
    ensures FieldSet(schema) == {"id", Deleted}
  {
    assert schema == ["id", Deleted];
  }

  /** The files `Tombstoned()` leaves on disk. */
  function TombstonedFiles(): Stored {
    Stored(Some(Tombstoned().rows), Some(Tombstoned().log))
  }

  /** As written, the reopened store has an empty index over one data row,
      so it is no longer consistent. */
  lemma ColdReopenForgets()
    ensures OpenAsWritten("id", Fields, TombstonedFiles()).Success?
    ensures var cold := OpenAsWritten("id", Fields, TombstonedFiles()).value;
            && cold.index == map[] && cold.rows == Tombstoned().rows && cold.schema == Fields + [Deleted]
            && !Consistent(cold)
  {
    TombstonedRows();
  }

  /** A store whose index is empty while its one data row is the tombstone
      of `a` files an insert of `b` at line 0, so `get("b")` answers with
      that tombstone. */
  lemma InsertOverTombstone(cold: Db)
    requires cold.index == map[] && |cold.rows| == 1
    requires cold.keyCol == "id" && cold.schema == Fields + [Deleted]
    requires KeyOf("id", cold.rows[0]) == "a" && FlagOf(cold.rows[0]) == Some(1)
    ensures var s := Insert(cold, map["id" := "b"]);
            && s.raised.None?
            && Get(s.db, "b") == Some(cold.rows[0])
  {
    IdFields(cold.schema);
    var b := map["id" := "b"];
    assert InsertKey(cold, b) == "b";
  }

  /** As written: after the cold reopen, inserting `b` files it at line 0,
      and `get("b")` answers with the deleted row of `a`. */
  lemma ColdReopenMisaddresses()
    ensures var cold := OpenAsWritten("id", Fields, TombstonedFiles()).value;
            var s := Insert(cold, map["id" := "b"]);
            && s.raised.None?
            && Get(s.db, "b").Some?
            && KeyOf("id", Get(s.db, "b").value) == "a"
            && FlagOf(Get(s.db, "b").value) == Some(1)
  {
    ColdReopenForgets();
    TombstonedRows();
    InsertOverTombstone(OpenAsWritten("id", Fields, TombstonedFiles()).value);
  }

  /** The index of a consistent one-row store holds that row's key alone. */
  lemma SingleRowKey(t: Db)
    requires Consistent(t) && |t.rows| == 1
    ensures t.index.Keys == {KeyOf(t.keyCol, t.rows[0])}
  {
    ConsistentRowKeys(t);
    assert RowKeys(t.keyCol, t.rows) == {KeyOf(t.keyCol, t.rows[0])};
  }

  /** A consistent store that holds only `a` accepts `b`, and `get("b")`
      then answers with the stored form of `b`. */
  lemma InsertBesideTombstone(t: Db)
    requires Consistent(t) && t.keyCol == "id" && t.schema == Fields + [Deleted]
    requires |t.rows| == 1 && KeyOf("id", t.rows[0]) == "a"
    ensures Insert(t, map["id" := "b"]).raised.None?
    ensures Get(Insert(t, map["id" := "b"]).db, "b") == Some(StoredForm(t, map["id" := "b"], "b"))
  {
    SingleRowKey(t);
    IdFields(t.schema);
    var b := map["id" := "b"];
    assert InsertKey(t, b) == "b";
    InsertThenGet(t, b);
  }

  /** Corrected: the loader that keeps every index line reopens the same
      files as exactly the store that wrote them, and `get("b")` after the
      insert answers with the row of `b`. */
  lemma WarmReopenFindsInsert()
    ensures Open("id", Fields, TombstonedFiles()) == Success(Tombstoned())
    ensures var s := Insert(Tombstoned(), map["id" := "b"]);
            && s.raised.None?
            && Get(s.db, "b").Some?
            && KeyOf("id", Get(s.db, "b").value) == "b"
            && FlagOf(Get(s.db, "b").value) == Some(0)
  {
    TombstonedRows();
    ReopenRestores(Tombstoned(), Fields);
    InsertBesideTombstone(Tombstoned());
    StoredFormReads(Tombstoned(), map["id" := "b"], "b");
  }

  /** Corrected, for every store: reopening the files of a consistent store
      and inserting a record yields the record's stored form under its key,
      and leaves every other key's answer as it was before the reopen. */
  lemma ReopenThenInsert(db: Db, fields: seq<string>, record: Row)
    requires Consistent(db) && db.schema == fields + [Deleted]
    requires Insert(db, record).raised.None?
    ensures var warm := Open(db.keyCol, fields, Stored(Some(db.rows), Some(db.log)));
            && warm.Success?
            && var s := Insert(warm.value, record);
               && s.raised.None?
               && Get(s.db, InsertKey(db, record)) == Some(StoredForm(db, record, InsertKey(db, record)))
               && forall k :: k != InsertKey(db, record) ==> Get(s.db, k) == Get(db, k)
  {
    ReopenRestores(db, fields);
    InsertThenGet(db, record);
  }

  /** A record without an `id` inserted after `{"id": "2"}` gets the
      synthetic key `"2"`, which is taken, so the insert raises and neither
      file changes. */
  lemma SyntheticKeyCollides()
    ensures var db0 := Open("id", Fields, Stored(None, None)).value;
            var db1 := Insert(db0, map["id" := "2"]).db;
            && Insert(db0, map["id" := "2"]).raised.None?
            && Insert(db1, map[]) == Step(db1, Some(DuplicateKey("2")))
  {
    OpenFresh("id", Fields);
    var db0 := Open("id", Fields, Stored(None, None)).value;
    IdFields(db0.schema);
    var two := map["id" := "2"];
    assert InsertKey(db0, two) == "2";
    var db1 := Insert(db0, two).db;
    assert db1.index == map["2" := Entry(0, 0)];
    assert Text.DecimalString(|db1.index| + 1) == "2";
    assert InsertKey(db1, map[]) == "2";
  }
}
