/** The invariant that ties the in-memory index to the data file, and the
    lemmas showing which operations of src/data/database/database.py keep
    it and what they then guarantee to callers. */
module Consistency {
  import opened Results
  import opened Store
  import Text

  /** The key column is a schema field other than the tombstone column, and
      the tombstone column is present. */
  predicate SchemaOk(db: Db) {
    db.keyCol in db.schema && db.keyCol != Deleted && Deleted in db.schema
  }

  /** Data row `i` is filed in the index under its own key at line `i`. */
  predicate Indexed(db: Db, i: int)
    requires 0 <= i < |db.rows|
  {
    var k := KeyOf(db.keyCol, db.rows[i]);
    k in db.index && db.index[k].line == i
  }

  /** The index entry of `k` names a data row whose key is `k` and whose
      `deleted` column reads as the entry's flag, which is 0 or 1. */
  predicate Resolves(db: Db, k: string)
    requires k in db.index
  {
    var e := db.index[k];
    && e.line < |db.rows|
    && KeyOf(db.keyCol, db.rows[e.line]) == k
    && FlagOf(db.rows[e.line]) == Some(e.flag)
    && (e.flag == 0 || e.flag == 1)
  }

  /** Index and files agree: every row is indexed at its line, every index
      entry resolves to its row, and a cold load of the index file gives
      back the in-memory index. That there are then as many entries as rows
      is `ConsistentSize`. */
  predicate Consistent(db: Db) {
    && SchemaOk(db)
    && Shaped(db.schema, db.rows)
    && (forall i :: 0 <= i < |db.rows| ==> Indexed(db, i))
    && (forall k :: k in db.index ==> Resolves(db, k))
    && LoadIndex(db.log) == db.index
  }

  predicate DistinctKeys(keyCol: string, rows: seq<Row>) {
    forall i, j :: 0 <= i < j < |rows| ==> KeyOf(keyCol, rows[i]) != KeyOf(keyCol, rows[j])
  }

  function RowKeys(keyCol: string, rows: seq<Row>): set<string> {
    set i | 0 <= i < |rows| :: KeyOf(keyCol, rows[i])
  }

  /** Every row's flag reads as 0 or 1. */
  predicate BinaryFlags(rows: seq<Row>) {
    forall i :: 0 <= i < |rows| ==> FlagOf(rows[i]) == Some(0) || FlagOf(rows[i]) == Some(1)
  }

  // ------------------------------------------------------------ basic facts

  lemma ParseFlags()
    ensures Text.ParseInt("0") == Some(0) && Text.ParseInt("1") == Some(1)
  {
    assert Text.DecimalString(0) == "0";
    assert Text.DecimalString(1) == "1";
    Text.DecimalRoundTrip(0);
    Text.DecimalRoundTrip(1);
  }

  /** Every row of a consistent store is filed under its own key, so no
      two rows share a key. */
  lemma ConsistentDistinct(db: Db)
    requires Consistent(db)
    ensures DistinctKeys(db.keyCol, db.rows)
  {
    forall i, j | 0 <= i < j < |db.rows|
      ensures KeyOf(db.keyCol, db.rows[i]) != KeyOf(db.keyCol, db.rows[j])
    {
      assert Indexed(db, i) && Indexed(db, j);
    }
  }

  /** Every row of a consistent store reads flag 0 or 1. */
  lemma ConsistentBinary(db: Db)
    requires Consistent(db)
    ensures BinaryFlags(db.rows)
  {
    forall i | 0 <= i < |db.rows|
      ensures FlagOf(db.rows[i]) == Some(0) || FlagOf(db.rows[i]) == Some(1)
    {
      assert Indexed(db, i);
      assert Resolves(db, KeyOf(db.keyCol, db.rows[i]));
    }
  }

  /** The index of a consistent store files exactly the rows' keys. */
  lemma ConsistentRowKeys(db: Db)
    requires Consistent(db)
    ensures db.index.Keys == RowKeys(db.keyCol, db.rows)
  {
    forall k | k in db.index ensures k in RowKeys(db.keyCol, db.rows) {
      assert Resolves(db, k);
    }
    forall k | k in RowKeys(db.keyCol, db.rows) ensures k in db.index {
      var i :| 0 <= i < |db.rows| && KeyOf(db.keyCol, db.rows[i]) == k;
      assert Indexed(db, i);
    }
  }

  /** Rows with distinct keys carry as many keys as there are rows. */
  lemma {:induction false} DistinctKeysCount(keyCol: string, rows: seq<Row>)
    requires DistinctKeys(keyCol, rows)
    ensures |RowKeys(keyCol, rows)| == |rows|
    decreases |rows|
  {
    if |rows| == 0 {
      assert RowKeys(keyCol, rows) == {};
    } else {
      LastKeyFresh(keyCol, rows);
      DistinctKeysCount(keyCol, rows[..|rows| - 1]);
      RowKeysStep(keyCol, rows);
    }
  }

  /** A consistent store has one index entry per data row, so `insert`'s
      `len(index)` is the line the appended row lands on. */
  lemma ConsistentSize(db: Db)
    requires Consistent(db)
    ensures |db.index| == |db.rows|
  {
    ConsistentDistinct(db);
    ConsistentRowKeys(db);
    DistinctKeysCount(db.keyCol, db.rows);
    assert |db.index| == |db.index.Keys|;
  }

  lemma ConsistentFacts(db: Db)
    requires Consistent(db)
    ensures DistinctKeys(db.keyCol, db.rows)
    ensures BinaryFlags(db.rows)
    ensures db.index.Keys == RowKeys(db.keyCol, db.rows)
    ensures |db.index| == |db.rows|
  {
    ConsistentDistinct(db);
    ConsistentBinary(db);
    ConsistentRowKeys(db);
    ConsistentSize(db);
  }

  /** A row written for a full record reads back as that record. */
  lemma WriteShapedRow(schema: seq<string>, row: Row)
    requires row.Keys == FieldSet(schema)
    ensures WriteRow(schema, row) == row
  {
  }

  // ------------------------------------------------------------ rebuilding

  /** One step of `rebuild_index`: the last row's entry is added to what
      the scan of the rows before it produced. */
  lemma RebuildStep(keyCol: string, rows: seq<Row>)
    requires 0 < |rows|
    requires RebuildIndex(keyCol, rows[..|rows| - 1]).complete && FlagOf(rows[|rows| - 1]).Some?
    ensures var n := |rows| - 1;
            var prev := RebuildIndex(keyCol, rows[..n]);
            var k := KeyOf(keyCol, rows[n]);
            RebuildIndex(keyCol, rows)
              == Rebuilt(prev.index[k := Entry(n, FlagOf(rows[n]).value)], prev.log + [LogEntry(k, n, FlagOf(rows[n]).value)], true)
  {
  }

  lemma RowKeysStep(keyCol: string, rows: seq<Row>)
    requires 0 < |rows|
    ensures RowKeys(keyCol, rows) == RowKeys(keyCol, rows[..|rows| - 1]) + {KeyOf(keyCol, rows[|rows| - 1])}
  {
    var n := |rows| - 1;
    var pre := rows[..n];
    forall k | k in RowKeys(keyCol, rows) ensures k in RowKeys(keyCol, pre) + {KeyOf(keyCol, rows[n])} {
      var i :| 0 <= i < |rows| && KeyOf(keyCol, rows[i]) == k;
      if i < n {
        assert pre[i] == rows[i];
      }
    }
    forall k | k in RowKeys(keyCol, pre) ensures k in RowKeys(keyCol, rows) {
      var i :| 0 <= i < n && KeyOf(keyCol, pre[i]) == k;
      assert pre[i] == rows[i];
    }
  }

  /** The rows before the last keep distinct keys, and the last row's key
      is not among them. */
  lemma LastKeyFresh(keyCol: string, rows: seq<Row>)
    requires DistinctKeys(keyCol, rows) && 0 < |rows|
    ensures DistinctKeys(keyCol, rows[..|rows| - 1])
    ensures KeyOf(keyCol, rows[|rows| - 1]) !in RowKeys(keyCol, rows[..|rows| - 1])
  {
    var n := |rows| - 1;
    assert forall i :: 0 <= i < n ==> rows[..n][i] == rows[i];
  }

  /** Loading an index file with one more line files that line's entry. */
  lemma LoadIndexAppend(log: seq<LogEntry>, e: LogEntry)
    ensures LoadIndex(log + [e]) == LoadIndex(log)[e.key := Entry(e.line, e.flag)]
  {
    assert (log + [e])[..|log|] == log;
  }

  /** Loading an index file with one more line under `_load_index` as
      written: a flag-0 line files its entry, any other line is skipped. */
  lemma LoadActiveIndexAppend(log: seq<LogEntry>, e: LogEntry)
    ensures LoadActiveIndex(log + [e]) ==
            if e.flag == 0 then LoadActiveIndex(log)[e.key := Entry(e.line, 0)] else LoadActiveIndex(log)
  {
    assert (log + [e])[..|log|] == log;
  }

  /** The loader as written agrees with the corrected one on every key whose
      last line carries flag 0. */
  lemma {:induction false} ActiveLoadAgrees(log: seq<LogEntry>)
    ensures forall k :: k in LoadIndex(log) && LoadIndex(log)[k].flag == 0 ==>
              k in LoadActiveIndex(log) && LoadActiveIndex(log)[k] == LoadIndex(log)[k]
    decreases |log|
  {
    if |log| > 0 {
      var n := |log| - 1;
      ActiveLoadAgrees(log[..n]);
      assert log[..n] + [log[n]] == log;
      LoadIndexAppend(log[..n], log[n]);
      LoadActiveIndexAppend(log[..n], log[n]);
    }
  }

  /** Over rows with distinct keys and readable flags, `rebuild_index`
      completes and files exactly the rows' keys, one entry per row. */
  lemma {:induction false} RebuildKeys(keyCol: string, rows: seq<Row>)
    requires DistinctKeys(keyCol, rows)
    requires forall i :: 0 <= i < |rows| ==> FlagOf(rows[i]).Some?
    ensures RebuildIndex(keyCol, rows).complete
    ensures RebuildIndex(keyCol, rows).index.Keys == RowKeys(keyCol, rows)
    ensures |RebuildIndex(keyCol, rows).index| == |rows|
    decreases |rows|
  {
    if |rows| > 0 {
      var n := |rows| - 1;
      var pre := rows[..n];
      assert forall i :: 0 <= i < n ==> FlagOf(pre[i]).Some? by {
        assert forall i :: 0 <= i < n ==> pre[i] == rows[i];
      }
      LastKeyFresh(keyCol, rows);
      RebuildKeys(keyCol, pre);
      RebuildKeysStep(keyCol, rows);
    }
  }

  /** One step of `RebuildKeys`: a last row with a fresh key and a readable
      flag adds exactly its key to a complete scan of the rows before it. */
  lemma RebuildKeysStep(keyCol: string, rows: seq<Row>)
    requires 0 < |rows| && FlagOf(rows[|rows| - 1]).Some?
    requires var pre := RebuildIndex(keyCol, rows[..|rows| - 1]);
             && pre.complete && pre.index.Keys == RowKeys(keyCol, rows[..|rows| - 1])
             && |pre.index| == |rows| - 1
    requires KeyOf(keyCol, rows[|rows| - 1]) !in RowKeys(keyCol, rows[..|rows| - 1])
    ensures RebuildIndex(keyCol, rows).complete
    ensures RebuildIndex(keyCol, rows).index.Keys == RowKeys(keyCol, rows)
    ensures |RebuildIndex(keyCol, rows).index| == |rows|
  {
    var n := |rows| - 1;
    RebuildStep(keyCol, rows);
    RowKeysStep(keyCol, rows);
    var prev := RebuildIndex(keyCol, rows[..n]).index;
    var k := KeyOf(keyCol, rows[n]);
    assert RebuildIndex(keyCol, rows).index == prev[k := Entry(n, FlagOf(rows[n]).value)];
  }

  /** Where the scan of the rows before the last stopped, or the last
      row's flag does not parse, the rebuild leaves the earlier scan's
      index and index file as they were, and is incomplete. */
  lemma RebuildHalts(keyCol: string, rows: seq<Row>)
    requires 0 < |rows|
    requires !RebuildIndex(keyCol, rows[..|rows| - 1]).complete || FlagOf(rows[|rows| - 1]).None?
    ensures var prev := RebuildIndex(keyCol, rows[..|rows| - 1]);
            RebuildIndex(keyCol, rows) == prev.(complete := false)
  {
  }

  /** Over rows with distinct keys and readable flags, `rebuild_index`
      files every row's key at its own line with its own flag. */
  lemma {:induction false} RebuildEntries(keyCol: string, rows: seq<Row>)
    requires DistinctKeys(keyCol, rows)
    requires forall i :: 0 <= i < |rows| ==> FlagOf(rows[i]).Some?
    ensures forall i :: 0 <= i < |rows| ==>
              && KeyOf(keyCol, rows[i]) in RebuildIndex(keyCol, rows).index
              && RebuildIndex(keyCol, rows).index[KeyOf(keyCol, rows[i])] == Entry(i, FlagOf(rows[i]).value)
    decreases |rows|
  {
    if |rows| > 0 {
      var n := |rows| - 1;
      var pre := rows[..n];
      assert forall i :: 0 <= i < n ==> pre[i] == rows[i];
      LastKeyFresh(keyCol, rows);
      RebuildEntries(keyCol, pre);
      RebuildKeys(keyCol, pre);
      RebuildStep(keyCol, rows);
      var m := RebuildIndex(keyCol, rows).index;
      var k := KeyOf(keyCol, rows[n]);
      assert m == RebuildIndex(keyCol, pre).index[k := Entry(n, FlagOf(rows[n]).value)];
      forall i | 0 <= i < |rows|
        ensures KeyOf(keyCol, rows[i]) in m && m[KeyOf(keyCol, rows[i])] == Entry(i, FlagOf(rows[i]).value)
      {
        if i < n {
          assert KeyOf(keyCol, pre[i]) in RowKeys(keyCol, pre);
        }
      }
    }
  }

  /** The index file `rebuild_index` writes lists the scanned rows in file
      order, one line per row, each with the row's key, line and flag; the
      scan covers every row, or stops exactly at the first row whose flag
      does not parse. */
  lemma {:induction false} RebuildLogLines(keyCol: string, rows: seq<Row>)
    ensures var rb := RebuildIndex(keyCol, rows);
            forall i :: 0 <= i < |rb.log| ==>
              FlagOf(rows[i]).Some? && rb.log[i] == LogEntry(KeyOf(keyCol, rows[i]), i, FlagOf(rows[i]).value)
    ensures var rb := RebuildIndex(keyCol, rows);
            !rb.complete ==> FlagOf(rows[|rb.log|]).None?
    decreases |rows|
  {
    if |rows| > 0 {
      var n := |rows| - 1;
      var pre := rows[..n];
      assert forall i :: 0 <= i < n ==> pre[i] == rows[i];
      RebuildLogLines(keyCol, pre);
    }
  }

  /** Whatever the rows, a cold load of the index file `rebuild_index`
      writes gives back the index it leaves in memory. */
  lemma {:induction false} RebuildLog(keyCol: string, rows: seq<Row>)
    ensures LoadIndex(RebuildIndex(keyCol, rows).log) == RebuildIndex(keyCol, rows).index
    decreases |rows|
  {
    if |rows| > 0 {
      var n := |rows| - 1;
      RebuildLog(keyCol, rows[..n]);
      var prev := RebuildIndex(keyCol, rows[..n]);
      if prev.complete && FlagOf(rows[n]).Some? {
        RebuildStep(keyCol, rows);
        LoadIndexAppend(prev.log, LogEntry(KeyOf(keyCol, rows[n]), n, FlagOf(rows[n]).value));
      } else {
        RebuildHalts(keyCol, rows);
      }
    }
  }

  /** Whatever the rows, every entry `rebuild_index` files names a row that
      carries the entry's key and whose flag reads as the entry's flag. */
  lemma {:induction false} RebuildResolves(keyCol: string, rows: seq<Row>)
    ensures var m := RebuildIndex(keyCol, rows).index;
            forall k :: k in m ==>
              m[k].line < |rows| && KeyOf(keyCol, rows[m[k].line]) == k && FlagOf(rows[m[k].line]) == Some(m[k].flag)
    decreases |rows|
  {
    if |rows| > 0 {
      var n := |rows| - 1;
      var pre := rows[..n];
      RebuildResolves(keyCol, pre);
      var prev := RebuildIndex(keyCol, pre);
      if prev.complete && FlagOf(rows[n]).Some? {
        RebuildStep(keyCol, rows);
        var m := RebuildIndex(keyCol, rows).index;
        forall k | k in m
          ensures m[k].line < |rows| && KeyOf(keyCol, rows[m[k].line]) == k && FlagOf(rows[m[k].line]) == Some(m[k].flag)
        {
          if k != KeyOf(keyCol, rows[n]) {
            assert m[k] == prev.index[k];
            assert pre[m[k].line] == rows[m[k].line];
          }
        }
      } else {
        RebuildHalts(keyCol, rows);
        assert forall i :: 0 <= i < n ==> pre[i] == rows[i];
      }
    }
  }

  /** A store whose rows have distinct keys and 0/1 flags is consistent
      once its index is rebuilt. */
  lemma RebuiltConsistent(db: Db)
    requires SchemaOk(db) && Shaped(db.schema, db.rows)
    requires DistinctKeys(db.keyCol, db.rows) && BinaryFlags(db.rows)
    ensures RebuildIndex(db.keyCol, db.rows).complete
    ensures Consistent(db.(index := RebuildIndex(db.keyCol, db.rows).index, log := RebuildIndex(db.keyCol, db.rows).log))
  {
    RebuildKeys(db.keyCol, db.rows);
    RebuildEntries(db.keyCol, db.rows);
    RebuildLog(db.keyCol, db.rows);
    RebuildResolves(db.keyCol, db.rows);
    var rb := RebuildIndex(db.keyCol, db.rows);
    var db' := db.(index := rb.index, log := rb.log);
    forall i | 0 <= i < |db.rows| ensures Indexed(db', i) {
    }
    forall k | k in db'.index ensures Resolves(db', k) {
    }
  }

  /** Two indexes with the same keys and the same entry under every key
      are the same index. */
  lemma SameIndex(m1: Index, m2: Index)
    requires m1.Keys == m2.Keys
    requires forall k :: k in m1 ==> m1[k] == m2[k]
    ensures m1 == m2
  {
  }

  /** Rows that carry the same keys line by line have the same key set,
      and distinct keys in one mean distinct keys in the other. */
  lemma SameKeys(keyCol: string, a: seq<Row>, b: seq<Row>)
    requires |a| == |b|
    requires forall i :: 0 <= i < |a| ==> KeyOf(keyCol, a[i]) == KeyOf(keyCol, b[i])
    ensures RowKeys(keyCol, a) == RowKeys(keyCol, b)
    ensures DistinctKeys(keyCol, a) ==> DistinctKeys(keyCol, b)
  {
  }

  /** On a consistent store `rebuild_index` reproduces the index already in
      memory. */
  lemma ConsistentIsRebuilt(db: Db)
    requires Consistent(db)
    ensures RebuildIndex(db.keyCol, db.rows).complete
    ensures RebuildIndex(db.keyCol, db.rows).index == db.index
  {
    ConsistentFacts(db);
    RebuildKeys(db.keyCol, db.rows);
    RebuildEntries(db.keyCol, db.rows);
    var m := RebuildIndex(db.keyCol, db.rows).index;
    forall k | k in m ensures m[k] == db.index[k] {
      assert Resolves(db, k);
      var i := db.index[k].line;
      assert KeyOf(db.keyCol, db.rows[i]) == k;
    }
    SameIndex(m, db.index);
  }

  // --------------------------------------------------------------- opening

  /** A store opened on fresh files is empty and consistent. */
  lemma OpenFresh(keyCol: string, fields: seq<string>)
    requires keyCol in fields && keyCol != Deleted
    ensures Open(keyCol, fields, Stored(None, None)).Success?
    ensures Consistent(Open(keyCol, fields, Stored(None, None)).value)
    ensures Count(Open(keyCol, fields, Stored(None, None)).value) == 0
  {
    var db := Open(keyCol, fields, Stored(None, None)).value;
    assert db.log == [];
    assert ActiveKeys(db.index) == {};
  }

  /** Reopening the files a consistent store left behind restores exactly
      that store, with the corrected loader. */
  lemma ReopenRestores(db: Db, fields: seq<string>)
    requires Consistent(db) && db.schema == fields + [Deleted]
    ensures Open(db.keyCol, fields, Stored(Some(db.rows), Some(db.log))) == Success(db)
  {
    assert db.keyCol in fields by {
      assert db.keyCol in db.schema;
    }
  }

  /** Reopening the files a consistent store left behind with the loader as
      written gives back that store exactly when it holds no tombstone. */
  lemma ColdReopenRestoresIff(db: Db, fields: seq<string>)
    requires Consistent(db) && db.schema == fields + [Deleted]
    ensures OpenAsWritten(db.keyCol, fields, Stored(Some(db.rows), Some(db.log))) == Success(db)
            <==> forall k :: k in db.index ==> db.index[k].flag == 0
  {
    assert db.keyCol in fields by {
      assert db.keyCol in db.schema;
    }
    if forall k :: k in db.index ==> db.index[k].flag == 0 {
      ActiveLoadIsFull(db.log);
    }
  }

  /** Without a tombstone among the last lines of the keys, the loader as
      written loads the whole index. */
  lemma ActiveLoadIsFull(log: seq<LogEntry>)
    requires forall k :: k in LoadIndex(log) ==> LoadIndex(log)[k].flag == 0
    ensures LoadActiveIndex(log) == LoadIndex(log)
  {
    ActiveLoadAgrees(log);
    assert LoadActiveIndex(log).Keys == LoadIndex(log).Keys;
  }

  // ---------------------------------------------------------------- insert

  /** The row `insert` appends for `record` under `key`. */
  function StoredForm(db: Db, record: Row, key: string): Row {
    WriteRow(db.schema, record[db.keyCol := key][Deleted := "0"])
  }

  /** The stored form of a record that stays inside the schema holds every
      schema field: the key under the key column, flag 0, the record's own
      value for each other field it gives, and empty text for the rest. */
  lemma StoredFormReads(db: Db, record: Row, key: string)
    requires SchemaOk(db) && record.Keys + {db.keyCol, Deleted} <= FieldSet(db.schema)
    ensures var row := StoredForm(db, record, key);
            && row.Keys == FieldSet(db.schema)
            && row[db.keyCol] == key && KeyOf(db.keyCol, row) == key
            && row[Deleted] == "0" && FlagOf(row) == Some(0)
            && (forall f :: f in record && f != db.keyCol && f != Deleted ==> row[f] == record[f])
            && (forall f :: f in row && f !in record && f != db.keyCol && f != Deleted ==> row[f] == "")
  {
    ParseFlags();
  }

  /** A successful insert into a consistent store filed a new key: it
      appended the stored form of the record as the last row, one index
      line, and the entry (that row's line, flag 0). */
  lemma InsertAppends(db: Db, record: Row)
    requires Consistent(db) && Insert(db, record).raised.None?
    ensures InsertKey(db, record) !in db.index
    ensures record.Keys + {db.keyCol, Deleted} <= FieldSet(db.schema)
    ensures var key := InsertKey(db, record);
            Insert(db, record).db == Appended(db, StoredForm(db, record, key), key)
  {
    ConsistentSize(db);
  }

  /** The store after appending `row` under a new `key` with flag 0,
      together with its index line and entry. */
  function Appended(db: Db, row: Row, key: string): Db {
    db.(rows := db.rows + [row], log := db.log + [LogEntry(key, |db.rows|, 0)],
        index := db.index[key := Entry(|db.rows|, 0)])
  }

  lemma AppendIndexed(db: Db, row: Row, key: string)
    requires forall i :: 0 <= i < |db.rows| ==> Indexed(db, i)
    requires key !in db.index && KeyOf(db.keyCol, row) == key
    ensures forall i :: 0 <= i < |db.rows| + 1 ==> Indexed(Appended(db, row, key), i)
  {
    var db' := Appended(db, row, key);
    forall i | 0 <= i < |db'.rows| ensures Indexed(db', i) {
      if i < |db.rows| {
        assert db'.rows[i] == db.rows[i];
        assert Indexed(db, i);
      }
    }
  }

  lemma AppendResolves(db: Db, row: Row, key: string)
    requires forall k :: k in db.index ==> Resolves(db, k)
    requires key !in db.index && KeyOf(db.keyCol, row) == key && FlagOf(row) == Some(0)
    ensures forall k :: k in Appended(db, row, key).index ==> Resolves(Appended(db, row, key), k)
  {
    var db' := Appended(db, row, key);
    forall k | k in db'.index ensures Resolves(db', k) {
      if k != key {
        assert Resolves(db, k);
        assert db'.rows[db.index[k].line] == db.rows[db.index[k].line];
      }
    }
  }

  lemma AppendShaped(schema: seq<string>, rows: seq<Row>, row: Row)
    requires Shaped(schema, rows) && row.Keys == FieldSet(schema)
    ensures Shaped(schema, rows + [row])
  {
    assert forall i :: 0 <= i < |rows| ==> (rows + [row])[i] == rows[i];
  }

  /** Appending a row under a new key with flag 0, together with its index
      line and entry, keeps a store consistent. */
  lemma AppendKeepsConsistent(db: Db, row: Row, key: string)
    requires Consistent(db) && key !in db.index
    requires row.Keys == FieldSet(db.schema) && KeyOf(db.keyCol, row) == key && FlagOf(row) == Some(0)
    ensures Consistent(Appended(db, row, key))
  {
    AppendIndexed(db, row, key);
    AppendResolves(db, row, key);
    AppendShaped(db.schema, db.rows, row);
    LoadIndexAppend(db.log, LogEntry(key, |db.rows|, 0));
  }

  /** A successful insert keeps the store consistent and adds one active
      key. */
  lemma InsertKeepsConsistent(db: Db, record: Row)
    requires Consistent(db) && Insert(db, record).raised.None?
    ensures Consistent(Insert(db, record).db)
    ensures Count(Insert(db, record).db) == Count(db) + 1
  {
    InsertAppends(db, record);
    var key := InsertKey(db, record);
    StoredFormReads(db, record, key);
    AppendKeepsConsistent(db, StoredForm(db, record, key), key);
    ActiveKeysAdd(db.index, key, Entry(|db.rows|, 0));
  }

  /** After appending `row` under a new `key`, `get` of the key reads the
      row and every other key reads as before. */
  lemma AppendThenGet(db: Db, row: Row, key: string)
    requires forall k :: k in db.index ==> Resolves(db, k)
    requires key !in db.index
    ensures Get(Appended(db, row, key), key) == Some(row)
    ensures forall k :: k != key ==> Get(Appended(db, row, key), k) == Get(db, k)
  {
    var db' := Appended(db, row, key);
    forall k | k != key ensures Get(db', k) == Get(db, k) {
      if k in db.index {
        assert Resolves(db, k);
        assert db'.rows[db.index[k].line] == db.rows[db.index[k].line];
      }
    }
  }

  /** Insert then get: the new key reads back the stored form of the
      record, and every other key reads as before. */
  lemma InsertThenGet(db: Db, record: Row)
    requires Consistent(db) && Insert(db, record).raised.None?
    ensures Get(Insert(db, record).db, InsertKey(db, record)) == Some(StoredForm(db, record, InsertKey(db, record)))
    ensures forall k :: k != InsertKey(db, record) ==> Get(Insert(db, record).db, k) == Get(db, k)
  {
    InsertAppends(db, record);
    var key := InsertKey(db, record);
    AppendThenGet(db, StoredForm(db, record, key), key);
  }

  // ------------------------------------------------------------------- get

  /** On a consistent store `get` finds exactly the active keys, and what
      it returns is the row carrying that key with flag 0. */
  lemma GetFindsActive(db: Db, key: string)
    requires Consistent(db)
    ensures Get(db, key).Some? <==> key in ActiveKeys(db.index)
    ensures Get(db, key).Some? ==>
              KeyOf(db.keyCol, Get(db, key).value) == key && FlagOf(Get(db, key).value) == Some(0)
  {
    if key in db.index {
      assert Resolves(db, key);
    }
  }

  // ---------------------------------------------------------------- update

  /** A rewrite whose step hands back every row writes one line per row. */
  lemma {:induction false} RewriteKeepsEveryRow(schema: seq<string>, rows: seq<Row>, op: Row -> Result<Option<Row>, Error>)
    requires forall i :: 0 <= i < |rows| ==>
               op(rows[i]).Success? && op(rows[i]).value.Some? && op(rows[i]).value.value.Keys <= FieldSet(schema)
    ensures AtomicRewrite(schema, rows, op).Success?
    ensures |AtomicRewrite(schema, rows, op).value| == |rows|
    ensures forall i :: 0 <= i < |rows| ==>
              AtomicRewrite(schema, rows, op).value[i] == WriteRow(schema, op(rows[i]).value.value)
    decreases |rows|
  {
    if |rows| > 0 {
      var n := |rows| - 1;
      var pre := rows[..n];
      forall i | 0 <= i < n
        ensures op(pre[i]).Success? && op(pre[i]).value.Some? && op(pre[i]).value.value.Keys <= FieldSet(schema)
      {
        assert pre[i] == rows[i];
      }
      RewriteKeepsEveryRow(schema, pre, op);
      RewriteStep(schema, rows, op);
      var out := AtomicRewrite(schema, rows, op).value;
      forall i | 0 <= i < |rows| ensures out[i] == WriteRow(schema, op(rows[i]).value.value) {
        if i < n {
          assert pre[i] == rows[i];
        }
      }
    }
  }

  /** One step of the rewrite: a kept last row inside the schema is
      written after the rows before it. */
  lemma RewriteStep(schema: seq<string>, rows: seq<Row>, op: Row -> Result<Option<Row>, Error>)
    requires 0 < |rows| && AtomicRewrite(schema, rows[..|rows| - 1], op).Success?
    requires var last := op(rows[|rows| - 1]);
             last.Success? && last.value.Some? && last.value.value.Keys <= FieldSet(schema)
    ensures AtomicRewrite(schema, rows, op)
              == Success(AtomicRewrite(schema, rows[..|rows| - 1], op).value + [WriteRow(schema, op(rows[|rows| - 1]).value.value)])
  {
  }


  /** A rewrite whose step hands back every row fails, with the CSV
      writer's error, as soon as one handed-back row has a field outside the
      schema. */
  lemma {:induction false} RewriteRejectsUnknown(schema: seq<string>, rows: seq<Row>, op: Row -> Result<Option<Row>, Error>, j: int)
    requires forall i :: 0 <= i < |rows| ==> op(rows[i]).Success? && op(rows[i]).value.Some?
    requires 0 <= j < |rows| && !(op(rows[j]).value.value.Keys <= FieldSet(schema))
    ensures AtomicRewrite(schema, rows, op) == Failure(UnknownField)
    decreases |rows|
  {
    var n := |rows| - 1;
    assert forall i :: 0 <= i < n ==> rows[..n][i] == rows[i];
    if j < n {
      RewriteRejectsUnknown(schema, rows[..n], op, j);
    } else if AtomicRewrite(schema, rows[..n], op).Failure? {
      RewriteErrorIsUnknown(schema, rows[..n], op);
    }
  }

  lemma {:induction false} RewriteErrorIsUnknown(schema: seq<string>, rows: seq<Row>, op: Row -> Result<Option<Row>, Error>)
    requires forall i :: 0 <= i < |rows| ==> op(rows[i]).Success?
    ensures AtomicRewrite(schema, rows, op).Failure? ==> AtomicRewrite(schema, rows, op).error == UnknownField
    decreases |rows|
  {
    if |rows| > 0 {
      var n := |rows| - 1;
      assert forall i :: 0 <= i < n ==> rows[..n][i] == rows[i];
      RewriteErrorIsUnknown(schema, rows[..n], op);
    }
  }

  /** With updates inside the schema, the rewrite of `update` writes one
      line per row: the merged row. */
  lemma MergeRewrite(schema: seq<string>, rows: seq<Row>, keyCol: string, key: string, updates: Row)
    requires Shaped(schema, rows) && updates.Keys <= FieldSet(schema)
    ensures AtomicRewrite(schema, rows, MergeOp(keyCol, key, updates)).Success?
    ensures var out := AtomicRewrite(schema, rows, MergeOp(keyCol, key, updates)).value;
            |out| == |rows| && forall i :: 0 <= i < |rows| ==> out[i] == Merged(keyCol, key, updates, rows[i])
  {
    var op := MergeOp(keyCol, key, updates);
    forall i | 0 <= i < |rows|
      ensures op(rows[i]) == Success(Some(Merged(keyCol, key, updates, rows[i])))
      ensures Merged(keyCol, key, updates, rows[i]).Keys == FieldSet(schema)
    {
    }
    RewriteKeepsEveryRow(schema, rows, op);
    forall i | 0 <= i < |rows|
      ensures WriteRow(schema, Merged(keyCol, key, updates, rows[i])) == Merged(keyCol, key, updates, rows[i])
    {
      WriteShapedRow(schema, Merged(keyCol, key, updates, rows[i]));
    }
  }

  /** Under distinct keys only the row at `line` carries its key. */
  lemma OnlyLineHasKey(keyCol: string, rows: seq<Row>, line: int)
    requires DistinctKeys(keyCol, rows) && 0 <= line < |rows|
    ensures forall i :: 0 <= i < |rows| && i != line ==> KeyOf(keyCol, rows[i]) != KeyOf(keyCol, rows[line])
  {
    forall i | 0 <= i < |rows| && i != line
      ensures KeyOf(keyCol, rows[i]) != KeyOf(keyCol, rows[line])
    {
      if i < line {
        assert KeyOf(keyCol, rows[i]) != KeyOf(keyCol, rows[line]);
      } else {
        assert KeyOf(keyCol, rows[line]) != KeyOf(keyCol, rows[i]);
      }
    }
  }

  /** `update` of an active key with updates that leave the key column
      alone succeeds exactly when the updates stay inside the schema; it
      then rewrites the data rows with the updates merged into the matching
      one, and otherwise raises the CSV writer's error. */
  lemma UpdateOutcome(db: Db, key: string, updates: Row)
    requires Consistent(db) && key in ActiveKeys(db.index) && db.keyCol !in updates
    ensures Update(db, key, updates).raised.None? <==> updates.Keys <= FieldSet(db.schema)
    ensures Update(db, key, updates).raised.Some? ==> Update(db, key, updates).raised == Some(UnknownField)
    ensures Update(db, key, updates).raised.None? ==>
              Update(db, key, updates).db == db.(rows := AtomicRewrite(db.schema, db.rows, MergeOp(db.keyCol, key, updates)).value)
  {
    var op := MergeOp(db.keyCol, key, updates);
    if updates.Keys <= FieldSet(db.schema) {
      MergeRewrite(db.schema, db.rows, db.keyCol, key, updates);
    } else {
      assert Resolves(db, key);
      RewriteRejectsUnknown(db.schema, db.rows, op, db.index[key].line);
    }
  }

  /** `update` of an active key on a consistent store, with updates inside
      the schema that leave the key column alone: the row count is
      unchanged, the matching row has `updates` merged in, and every other
      row is copied unchanged and in order. */
  lemma UpdateRewrites(db: Db, key: string, updates: Row)
    requires Consistent(db) && key in ActiveKeys(db.index)
    requires db.keyCol !in updates && updates.Keys <= FieldSet(db.schema)
    ensures Update(db, key, updates).raised.None?
    ensures var line := db.index[key].line;
            line < |db.rows| && Update(db, key, updates).db.rows == db.rows[line := db.rows[line] + updates]
  {
    UpdateOutcome(db, key, updates);
    assert Resolves(db, key);
    ConsistentDistinct(db);
    MergedRowsAt(db.schema, db.keyCol, db.rows, db.index[key].line, updates);
  }

  /** Over rows with distinct keys, the rewrite of `update` for the key of
      row `line` changes that row alone. */
  lemma MergedRowsAt(schema: seq<string>, keyCol: string, rows: seq<Row>, line: nat, updates: Row)
    requires Shaped(schema, rows) && DistinctKeys(keyCol, rows)
    requires line < |rows| && updates.Keys <= FieldSet(schema)
    ensures AtomicRewrite(schema, rows, MergeOp(keyCol, KeyOf(keyCol, rows[line]), updates))
              == Success(rows[line := rows[line] + updates])
  {
    var key := KeyOf(keyCol, rows[line]);
    MergeRewrite(schema, rows, keyCol, key, updates);
    OnlyLineHasKey(keyCol, rows, line);
    var out := AtomicRewrite(schema, rows, MergeOp(keyCol, key, updates)).value;
    assert out == rows[line := rows[line] + updates];
  }

  /** The updates leave the tombstone flag of `key` as it was. */
  predicate KeepsFlag(db: Db, key: string, updates: Row)
    requires key in db.index
  {
    Deleted in updates ==> Text.ParseInt(updates[Deleted]) == Some(db.index[key].flag)
  }

  /** Replacing the rows by rows with the same keys, flags and fields, line
      by line, keeps a store consistent without touching the index. */
  lemma ReplaceRowsKeepsConsistent(db: Db, rows: seq<Row>)
    requires Consistent(db) && |rows| == |db.rows|
    requires forall i :: 0 <= i < |rows| ==>
               && KeyOf(db.keyCol, rows[i]) == KeyOf(db.keyCol, db.rows[i])
               && FlagOf(rows[i]) == FlagOf(db.rows[i])
               && rows[i].Keys == FieldSet(db.schema)
    ensures Consistent(db.(rows := rows))
  {
    var db' := db.(rows := rows);
    forall i | 0 <= i < |rows| ensures Indexed(db', i) {
      assert Indexed(db, i);
    }
    forall k | k in db.index ensures Resolves(db', k) {
      assert Resolves(db, k);
    }
  }

  /** Replacing one row by a row with the same key, flag and fields keeps
      a store consistent. */
  lemma ReplaceOneKeepsConsistent(db: Db, line: nat, row: Row)
    requires Consistent(db) && line < |db.rows|
    requires KeyOf(db.keyCol, row) == KeyOf(db.keyCol, db.rows[line])
    requires FlagOf(row) == FlagOf(db.rows[line]) && row.Keys == FieldSet(db.schema)
    ensures Consistent(db.(rows := db.rows[line := row]))
  {
    var rows := db.rows[line := row];
    forall i | 0 <= i < |rows|
      ensures KeyOf(db.keyCol, rows[i]) == KeyOf(db.keyCol, db.rows[i])
      ensures FlagOf(rows[i]) == FlagOf(db.rows[i])
      ensures rows[i].Keys == FieldSet(db.schema)
    {
    }
    ReplaceRowsKeepsConsistent(db, rows);
  }

  /** After the row of an active key is replaced, `get` of that key answers
      with the new row and every other key reads as before. */
  lemma ReplaceThenGet(db: Db, key: string, row: Row)
    requires forall k :: k in db.index ==> Resolves(db, k)
    requires key in ActiveKeys(db.index)
    ensures db.index[key].line < |db.rows|
    ensures Get(db.(rows := db.rows[db.index[key].line := row]), key) == Some(row)
    ensures forall k :: k != key ==> Get(db.(rows := db.rows[db.index[key].line := row]), k) == Get(db, k)
  {
    assert Resolves(db, key);
    var db' := db.(rows := db.rows[db.index[key].line := row]);
    forall k | k != key ensures Get(db', k) == Get(db, k) {
      if k in db.index {
        assert Resolves(db, k);
      }
    }
  }

  /** Merging updates that leave the key column alone, stay inside the
      schema and keep the flag gives a row with the same key, flag and
      fields. */
  lemma MergeKeepsShape(schema: seq<string>, keyCol: string, row: Row, updates: Row)
    requires row.Keys == FieldSet(schema) && updates.Keys <= FieldSet(schema) && keyCol !in updates
    requires Deleted in updates ==> Text.ParseInt(updates[Deleted]) == FlagOf(row)
    ensures KeyOf(keyCol, row + updates) == KeyOf(keyCol, row)
    ensures FlagOf(row + updates) == FlagOf(row)
    ensures (row + updates).Keys == FieldSet(schema)
  {
  }

  /** `update` needs no index rebuild: as long as the updates do not change
      the row's tombstone flag, a successful update keeps the store
      consistent and the count unchanged. */
  lemma UpdateKeepsConsistent(db: Db, key: string, updates: Row)
    requires Consistent(db) && key in ActiveKeys(db.index) && KeepsFlag(db, key, updates)
    requires Update(db, key, updates).raised.None?
    ensures Consistent(Update(db, key, updates).db)
    ensures Count(Update(db, key, updates).db) == Count(db)
  {
    UpdateOutcome(db, key, updates);
    UpdateRewrites(db, key, updates);
    var line := db.index[key].line;
    assert Resolves(db, key);
    MergeKeepsShape(db.schema, db.keyCol, db.rows[line], updates);
    ReplaceOneKeepsConsistent(db, line, db.rows[line] + updates);
  }

  /** Update then get: the key reads its old row with `updates` merged in,
      and every other key reads as before. */
  lemma UpdateThenGet(db: Db, key: string, updates: Row)
    requires Consistent(db) && key in ActiveKeys(db.index)
    requires Update(db, key, updates).raised.None?
    ensures Get(Update(db, key, updates).db, key) == Some(Get(db, key).value + updates)
    ensures forall k :: k != key ==> Get(Update(db, key, updates).db, k) == Get(db, k)
  {
    UpdateOutcome(db, key, updates);
    UpdateRewrites(db, key, updates);
    ReplaceThenGet(db, key, db.rows[db.index[key].line] + updates);
  }

  // ---------------------------------------------------------------- delete

  /** Merging a one-field map sets that field. */
  lemma MergeOne(row: Row, f: string, v: string)
    ensures row + map[f := v] == row[f := v]
  {
  }

  /** The rows `delete` writes for an active key: that key's row with
      `deleted = 1`, every other row as it was. */
  lemma DeleteRewrites(db: Db, key: string)
    requires Consistent(db) && key in ActiveKeys(db.index)
    ensures Update(db, key, map[Deleted := "1"]).raised.None?
    ensures var line := db.index[key].line;
            line < |db.rows| && Update(db, key, map[Deleted := "1"]).db.rows == db.rows[line := db.rows[line][Deleted := "1"]]
  {
    UpdateRewrites(db, key, map[Deleted := "1"]);
    MergeOne(db.rows[db.index[key].line], Deleted, "1");
  }

  /** Every row's flag parses. */
  predicate ReadableFlags(rows: seq<Row>) {
    forall i :: 0 <= i < |rows| ==> FlagOf(rows[i]).Some?
  }

  /** Replacing one row by a row with the same key and a readable flag
      keeps the keys distinct and every flag readable. */
  lemma ReplaceKeepsKeys(keyCol: string, rows: seq<Row>, line: nat, row: Row)
    requires DistinctKeys(keyCol, rows) && ReadableFlags(rows) && line < |rows|
    requires KeyOf(keyCol, row) == KeyOf(keyCol, rows[line]) && FlagOf(row).Some?
    ensures DistinctKeys(keyCol, rows[line := row]) && ReadableFlags(rows[line := row])
    ensures RowKeys(keyCol, rows[line := row]) == RowKeys(keyCol, rows)
  {
    SameKeys(keyCol, rows, rows[line := row]);
  }

  /** The rebuilt index of rows with one row replaced by a row with the same
      key: the old rebuilt index with that key's flag taken from the new row. */
  lemma RebuildReplace(keyCol: string, rows: seq<Row>, line: nat, row: Row)
    requires DistinctKeys(keyCol, rows) && ReadableFlags(rows) && line < |rows|
    requires KeyOf(keyCol, row) == KeyOf(keyCol, rows[line]) && FlagOf(row).Some?
    ensures RebuildIndex(keyCol, rows[line := row]).complete
    ensures RebuildIndex(keyCol, rows[line := row]).index
              == RebuildIndex(keyCol, rows).index[KeyOf(keyCol, rows[line]) := Entry(line, FlagOf(row).value)]
  {
    RebuildReplaceKeys(keyCol, rows, line, row);
    var m' := RebuildIndex(keyCol, rows[line := row]).index;
    var want := RebuildIndex(keyCol, rows).index[KeyOf(keyCol, rows[line]) := Entry(line, FlagOf(row).value)];
    forall k | k in m' ensures m'[k] == want[k] {
      RebuildReplaceEntry(keyCol, rows, line, row, k);
    }
    SameIndex(m', want);
  }

  /** The keys of `RebuildReplace`: both rebuilds file exactly the rows'
      keys, among them the replaced row's. */
  lemma RebuildReplaceKeys(keyCol: string, rows: seq<Row>, line: nat, row: Row)
    requires DistinctKeys(keyCol, rows) && ReadableFlags(rows) && line < |rows|
    requires KeyOf(keyCol, row) == KeyOf(keyCol, rows[line]) && FlagOf(row).Some?
    ensures RebuildIndex(keyCol, rows[line := row]).complete
    ensures RebuildIndex(keyCol, rows[line := row]).index.Keys == RowKeys(keyCol, rows)
    ensures RebuildIndex(keyCol, rows).index.Keys == RowKeys(keyCol, rows)
    ensures KeyOf(keyCol, rows[line]) in RowKeys(keyCol, rows)
  {
    ReplaceKeepsKeys(keyCol, rows, line, row);
    RebuildKeys(keyCol, rows);
    RebuildKeys(keyCol, rows[line := row]);
  }

  /** One entry of `RebuildReplace`. */
  lemma RebuildReplaceEntry(keyCol: string, rows: seq<Row>, line: nat, row: Row, k: string)
    requires DistinctKeys(keyCol, rows) && ReadableFlags(rows) && line < |rows|
    requires KeyOf(keyCol, row) == KeyOf(keyCol, rows[line]) && FlagOf(row).Some?
    requires k in RowKeys(keyCol, rows)
    ensures k in RebuildIndex(keyCol, rows).index && k in RebuildIndex(keyCol, rows[line := row]).index
    ensures RebuildIndex(keyCol, rows[line := row]).index[k]
              == RebuildIndex(keyCol, rows).index[KeyOf(keyCol, rows[line]) := Entry(line, FlagOf(row).value)][k]
  {
    var rows' := rows[line := row];
    ReplaceKeepsKeys(keyCol, rows, line, row);
    RebuildEntries(keyCol, rows);
    RebuildEntries(keyCol, rows');
    var i :| 0 <= i < |rows| && KeyOf(keyCol, rows[i]) == k;
    assert KeyOf(keyCol, rows'[i]) == k;
    if i != line {
      assert k != KeyOf(keyCol, rows[line]);
    }
  }

  /** The tombstoned row keeps its key and reads flag 1. */
  lemma TombstoneRow(db: Db, line: nat)
    requires SchemaOk(db) && line < |db.rows|
    ensures KeyOf(db.keyCol, db.rows[line][Deleted := "1"]) == KeyOf(db.keyCol, db.rows[line])
    ensures FlagOf(db.rows[line][Deleted := "1"]) == Some(1)
  {
    ParseFlags();
  }

  /** Retiring an active key removes exactly one active key. */
  lemma ActiveKeysRetire(index: Index, key: string, line: nat)
    requires key in ActiveKeys(index)
    ensures |ActiveKeys(index[key := Entry(line, 1)])| == |ActiveKeys(index)| - 1
  {
    assert ActiveKeys(index[key := Entry(line, 1)]) == ActiveKeys(index) - {key};
  }

  /** The index that rows of a consistent store rebuild to, with the row of
      an active key tombstoned: the old index with that key's flag set to 1. */
  lemma TombstoneRebuild(db: Db, key: string)
    requires Consistent(db) && key in ActiveKeys(db.index)
    ensures var line := db.index[key].line;
            && line < |db.rows|
            && RebuildIndex(db.keyCol, db.rows[line := db.rows[line][Deleted := "1"]]).complete
            && RebuildIndex(db.keyCol, db.rows[line := db.rows[line][Deleted := "1"]]).index
                 == db.index[key := Entry(line, 1)]
  {
    var line := db.index[key].line;
    assert Resolves(db, key);
    ConsistentDistinct(db);
    ConsistentIsRebuilt(db);
    assert ReadableFlags(db.rows) by {
      ConsistentBinary(db);
    }
    TombstoneRow(db, line);
    RebuildReplace(db.keyCol, db.rows, line, db.rows[line][Deleted := "1"]);
  }

  /** Soft delete of an active key on a consistent store: nothing is
      raised, the row stays physically present with `deleted = 1`, every
      other row is unchanged, and the rebuilt index flags the key 1 and
      keeps every other entry. */
  lemma DeleteTombstones(db: Db, key: string)
    requires Consistent(db) && key in ActiveKeys(db.index)
    ensures Delete(db, key).raised.None?
    ensures var db' := Delete(db, key).db;
            var line := db.index[key].line;
            && line < |db.rows|
            && db'.rows == db.rows[line := db.rows[line][Deleted := "1"]]
            && db'.index == db.index[key := Entry(line, 1)]
            && db'.log == RebuildIndex(db.keyCol, db'.rows).log
  {
    DeleteRewrites(db, key);
    TombstoneRebuild(db, key);
  }

  /** A consistent store's rows with one row tombstoned keep their shape,
      distinct keys and 0/1 flags. */
  lemma TombstoneShape(db: Db, line: nat)
    requires Consistent(db) && line < |db.rows|
    ensures var rows := db.rows[line := db.rows[line][Deleted := "1"]];
            Shaped(db.schema, rows) && DistinctKeys(db.keyCol, rows) && BinaryFlags(rows)
  {
    var rows := db.rows[line := db.rows[line][Deleted := "1"]];
    ConsistentDistinct(db);
    ConsistentBinary(db);
    TombstoneRow(db, line);
    SameKeys(db.keyCol, db.rows, rows);
    assert BinaryFlags(rows) by {
      forall i | 0 <= i < |rows| ensures FlagOf(rows[i]) == Some(0) || FlagOf(rows[i]) == Some(1) {
        if i != line {
          assert rows[i] == db.rows[i];
        }
      }
    }
  }

  /** After deleting an active key the store is still consistent, `get` of
      the key is `None`, and the count drops by exactly one. */
  lemma DeleteKeepsConsistent(db: Db, key: string)
    requires Consistent(db) && key in ActiveKeys(db.index)
    ensures Consistent(Delete(db, key).db)
    ensures Get(Delete(db, key).db, key).None?
    ensures Count(Delete(db, key).db) == Count(db) - 1
  {
    DeleteTombstones(db, key);
    TombstoneRebuild(db, key);
    var db' := Delete(db, key).db;
    var line := db.index[key].line;
    TombstoneShape(db, line);
    RebuiltConsistent(db');
    ActiveKeysRetire(db.index, key, line);
  }

  // ---------------------------------------------------------------- vacuum

  /** The vacuum rewrite writes exactly what `get_all` returns, and fails
      exactly when `get_all` does. */
  lemma {:induction false} VacuumRewriteIsGetAll(schema: seq<string>, rows: seq<Row>)
    requires Shaped(schema, rows)
    ensures AtomicRewrite(schema, rows, VacuumStep) == SelectActive(rows)
    decreases |rows|
  {
    if |rows| > 0 {
      var n := |rows| - 1;
      var pre := rows[..n];
      forall i | 0 <= i < n ensures pre[i].Keys == FieldSet(schema) {
        assert pre[i] == rows[i];
      }
      VacuumRewriteIsGetAll(schema, pre);
      WriteShapedRow(schema, rows[n]);
    }
  }

  /** The active rows of a sequence all of whose rows are active are the
      sequence itself. */
  lemma {:induction false} SelectAllActive(rows: seq<Row>)
    requires forall i :: 0 <= i < |rows| ==> FlagOf(rows[i]) == Some(0)
    ensures SelectActive(rows) == Success(rows)
    decreases |rows|
  {
    if |rows| > 0 {
      var n := |rows| - 1;
      assert forall i :: 0 <= i < n ==> rows[..n][i] == rows[i];
      SelectAllActive(rows[..n]);
      assert rows[..n] + [rows[n]] == rows;
    }
  }

  lemma SelectKeepsDistinct(keyCol: string, rows: seq<Row>)
    requires SelectActive(rows).Success? && DistinctKeys(keyCol, rows)
    ensures DistinctKeys(keyCol, SelectActive(rows).value)
  {
    SelectKeepsOrder(rows);
    var out := SelectActive(rows).value;
    var pos := ActiveLines(rows);
    forall j, j' | 0 <= j < j' < |out| ensures KeyOf(keyCol, out[j]) != KeyOf(keyCol, out[j']) {
      assert pos[j] < pos[j'];
    }
  }

  /** `vacuum` succeeds exactly when `get_all` does, and then the data file
      holds exactly the rows `get_all` returns: the flag-0 rows, in their
      original order. */
  lemma VacuumKeepsActive(db: Db)
    requires Shaped(db.schema, db.rows)
    ensures Vacuum(db).raised.None? <==> GetAll(db).Success?
    ensures Vacuum(db).raised.None? ==> Vacuum(db).db.rows == GetAll(db).value
  {
    VacuumRewriteIsGetAll(db.schema, db.rows);
    if GetAll(db).Success? {
      SelectedAreActive(db.rows);
    }
  }

  /** A second vacuum leaves the store exactly as the first one did. */
  lemma VacuumIdempotent(db: Db)
    requires Shaped(db.schema, db.rows) && Vacuum(db).raised.None?
    ensures Vacuum(Vacuum(db).db) == Vacuum(db)
  {
    VacuumKeepsActive(db);
    var db' := Vacuum(db).db;
    var rows := db'.rows;
    SelectedAreActive(db.rows);
    VacuumRewriteIsGetAll(db'.schema, rows);
    SelectAllActive(rows);
    assert AtomicRewrite(db'.schema, rows, VacuumStep) == Success(rows);
    var rb := RebuildIndex(db.keyCol, rows);
    assert db' == db.(rows := rows, index := rb.index, log := rb.log);
  }

  /** Vacuum of a consistent store raises nothing and leaves it
      consistent. */
  lemma VacuumConsistent(db: Db)
    requires Consistent(db)
    ensures Vacuum(db).raised.None?
    ensures Consistent(Vacuum(db).db)
  {
    ConsistentFacts(db);
    CountIsActiveRows(db);
    VacuumKeepsActive(db);
    VacuumRewriteIsGetAll(db.schema, db.rows);
    SelectKeepsDistinct(db.keyCol, db.rows);
    SelectedAreActive(db.rows);
    var x := db.(rows := GetAll(db).value);
    RebuiltConsistent(x);
  }

  /** After a vacuum of a consistent store the count is unchanged and the
      data file holds exactly `count()` rows. */
  lemma VacuumCompacts(db: Db)
    requires Consistent(db)
    ensures Vacuum(db).raised.None?
    ensures |Vacuum(db).db.rows| == Count(Vacuum(db).db) == Count(db)
  {
    VacuumConsistent(db);
    CountIsActiveRows(db);
    VacuumKeepsActive(db);
    var db' := Vacuum(db).db;
    CountIsActiveRows(db');
    SelectedAreActive(db.rows);
    SelectAllActive(db'.rows);
  }

  // ----------------------------------------------------------------- count

  /** Filing a new key adds one active key exactly when its flag is 0. */
  lemma ActiveKeysAdd(index: Index, k: string, e: Entry)
    requires k !in index
    ensures |ActiveKeys(index[k := e])| == |ActiveKeys(index)| + (if e.flag == 0 then 1 else 0)
  {
    if e.flag == 0 {
      assert ActiveKeys(index[k := e]) == ActiveKeys(index) + {k};
    } else {
      assert ActiveKeys(index[k := e]) == ActiveKeys(index);
    }
  }

  lemma {:induction false} ActiveCountOfRebuild(keyCol: string, rows: seq<Row>)
    requires DistinctKeys(keyCol, rows)
    requires forall i :: 0 <= i < |rows| ==> FlagOf(rows[i]).Some?
    ensures SelectActive(rows).Success?
    ensures |ActiveKeys(RebuildIndex(keyCol, rows).index)| == |SelectActive(rows).value|
    decreases |rows|
  {
    if |rows| == 0 {
      assert ActiveKeys(RebuildIndex(keyCol, rows).index) == {};
    } else {
      var n := |rows| - 1;
      var pre := rows[..n];
      assert forall i :: 0 <= i < n ==> FlagOf(pre[i]).Some? by {
        assert forall i :: 0 <= i < n ==> pre[i] == rows[i];
      }
      LastKeyFresh(keyCol, rows);
      ActiveCountOfRebuild(keyCol, pre);
      RebuildKeys(keyCol, pre);
      RebuildStep(keyCol, rows);
      SelectStep(rows);
      ActiveKeysAdd(RebuildIndex(keyCol, pre).index, KeyOf(keyCol, rows[n]), Entry(n, FlagOf(rows[n]).value));
    }
  }

  /** `count()` (index entries with flag 0) equals the number of rows
      `get_all()` returns on a consistent store. */
  lemma CountIsActiveRows(db: Db)
    requires Consistent(db)
    ensures GetAll(db).Success?
    ensures Count(db) == |GetAll(db).value|
  {
    ConsistentFacts(db);
    ConsistentIsRebuilt(db);
    ActiveCountOfRebuild(db.keyCol, db.rows);
  }

  // ------------------------------------------------------------------ drop

  /** `drop` leaves an empty, consistent store in which nothing is found. */
  lemma DropEmpties(db: Db)
    requires SchemaOk(db)
    ensures Consistent(Drop(db))
    ensures Count(Drop(db)) == 0
    ensures forall k :: Get(Drop(db), k).None?
  {
    assert ActiveKeys(Drop(db).index) == {};
  }
}
