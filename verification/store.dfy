/** The flat-file record store of src/data/database/database.py: a data file
    of rows under a header naming the schema, an append-only index log, and
    the in-memory index mapping each key to its line and tombstone flag.

    Both files are modelled as sequences: `rows` holds the data lines after
    the header, `log` the index lines after the header `key,line_number,deleted`.
    A row is the dictionary the CSV reader yields for a line, keyed by the
    schema. A call that raises is a `Step` whose `raised` field names the
    error; `db` is then the state the call left behind. */
module Store {
  import opened Results
  import Text

  type Row = map<string, string>

  /** The reserved tombstone column every schema ends with. */
  const Deleted: string := "deleted"

  /** An in-memory index value: zero-based line among the data rows, and
      the tombstone flag as read from the file. */
  datatype Entry = Entry(line: nat, flag: int)

  /** One line of the index file. */
  datatype LogEntry = LogEntry(key: string, line: nat, flag: int)

  type Index = map<string, Entry>

  datatype Db = Db(keyCol: string, schema: seq<string>, rows: seq<Row>, log: seq<LogEntry>, index: Index)

  datatype Step = Step(db: Db, raised: Option<Error>)

  /** What a controller call that answers with a boolean leaves behind: the
      store, and either the boolean or the store error it lets through. */
  datatype Reply = Reply(db: Db, outcome: Result<bool, Error>)

  /** The two files as found on disk when the store is constructed; `None`
      is a file that does not exist yet. */
  datatype Stored = Stored(data: Option<seq<Row>>, indexLog: Option<seq<LogEntry>>)

  /** What a scan of the data file leaves in memory and in the index file;
      `complete` is false when the scan stopped at a row whose flag does not
      parse. */
  datatype Rebuilt = Rebuilt(index: Index, log: seq<LogEntry>, complete: bool)

  function FieldSet(schema: seq<string>): set<string> {
    set f | f in schema
  }

  /** Every data row carries exactly the schema's fields. */
  predicate Shaped(schema: seq<string>, rows: seq<Row>) {
    forall i :: 0 <= i < |rows| ==> rows[i].Keys == FieldSet(schema)
  }

  /** `row[key_column]`; rows written by the store always hold the column. */
  function KeyOf(keyCol: string, row: Row): string {
    if keyCol in row then row[keyCol] else ""
  }

  /** `int(row.get('deleted', 0))`, `None` where `int` raises. */
  function FlagOf(row: Row): Option<int> {
    if Deleted in row then Text.ParseInt(row[Deleted]) else Some(0)
  }

  /** The line `csv.DictWriter(fieldnames=schema)` writes for `record`, as the
      reader gives it back: every schema field, empty where the record has
      none. */
  function WriteRow(schema: seq<string>, record: Row): (r: Row)
    ensures r.Keys == FieldSet(schema)
    ensures forall f :: f in record && f in r ==> r[f] == record[f]
  {
    map f | f in FieldSet(schema) :: if f in record then record[f] else ""
  }

  // ---------------------------------------------------------------- opening

  /** The keys the index file mentions. */
  function LoggedKeys(log: seq<LogEntry>): set<string> {
    set i | 0 <= i < |log| :: log[i].key
  }

  /** Reads the index file keeping every entry; a later line for a key
      replaces an earlier one. */
  function LoadIndex(log: seq<LogEntry>): (m: Index)
    ensures m.Keys == LoggedKeys(log)
    decreases |log|
  {
    if |log| == 0 then map[]
    else
      var e := log[|log| - 1];
      var prev := LoadIndex(log[..|log| - 1]);
      assert LoggedKeys(log) == LoggedKeys(log[..|log| - 1]) + {e.key} by {
        assert forall i :: 0 <= i < |log| - 1 ==> log[..|log| - 1][i] == log[i];
      }
      prev[e.key := Entry(e.line, e.flag)]
  }

  /** `_load_index` as written: the comprehension keeps only the lines
      whose flag is 0, so every tombstone read from the file is dropped. */
  function LoadActiveIndex(log: seq<LogEntry>): (m: Index)
    ensures m.Keys <= LoggedKeys(log)
    ensures forall k :: k in m ==> m[k].flag == 0
    ensures forall i :: 0 <= i < |log| && log[i].flag == 0 ==> log[i].key in m
    decreases |log|
  {
    if |log| == 0 then map[]
    else
      var n := |log| - 1;
      var e := log[n];
      var prev := LoadActiveIndex(log[..n]);
      assert forall i :: 0 <= i < n ==> log[..n][i] == log[i];
      if e.flag == 0 then prev[e.key := Entry(e.line, 0)] else prev
  }

  /** The constructor with an index loader: appends `deleted` to the schema,
      then checks the key column against the extended schema, creates a
      missing file as an empty one under its header, and loads the index. */
  function OpenWith(keyCol: string, fields: seq<string>, stored: Stored, load: seq<LogEntry> -> Index): (r: Result<Db, Error>)
    ensures r.Failure? <==> keyCol !in fields && keyCol != Deleted
    ensures r.Failure? ==> r.error == KeyNotInSchema
    ensures r.Success? ==> r.value.keyCol == keyCol && r.value.schema == fields + [Deleted]
    ensures r.Success? ==> r.value.rows == stored.data.GetOr([]) && r.value.log == stored.indexLog.GetOr([])
    ensures r.Success? ==> r.value.index == load(r.value.log)
  {
    var schema := fields + [Deleted];
    if keyCol !in schema then Failure(KeyNotInSchema)
    else
      var log := stored.indexLog.GetOr([]);
      Success(Db(keyCol, schema, stored.data.GetOr([]), log, load(log)))
  }

  /** `Database.__init__` with the loader corrected to keep tombstoned
      entries (see the findings in README.md). */
  function Open(keyCol: string, fields: seq<string>, stored: Stored): (r: Result<Db, Error>)
    ensures r.Failure? <==> keyCol !in fields && keyCol != Deleted
    ensures r.Success? ==> r.value.schema == fields + [Deleted] && r.value.index.Keys == LoggedKeys(r.value.log)
  {
    OpenWith(keyCol, fields, stored, LoadIndex)
  }

  /** `Database.__init__` as written, with the tombstone-dropping loader. */
  function OpenAsWritten(keyCol: string, fields: seq<string>, stored: Stored): (r: Result<Db, Error>)
    ensures r.Failure? <==> keyCol !in fields && keyCol != Deleted
    ensures r.Success? ==> forall k :: k in r.value.index ==> r.value.index[k].flag == 0
  {
    OpenWith(keyCol, fields, stored, LoadActiveIndex)
  }

  // ---------------------------------------------------------- file rewrite

  /** `_atomic_rewrite` without the index rebuild: runs `op` over every data
      row in order; `op` either fails, drops the row, or hands back a row to
      write, and writing fails on a field outside the schema. On any failure
      the temporary file is discarded and the data file is untouched, so the
      whole rewrite fails. */
  function AtomicRewrite(schema: seq<string>, rows: seq<Row>, op: Row -> Result<Option<Row>, Error>): (r: Result<seq<Row>, Error>)
    ensures r.Success? ==> |r.value| <= |rows| && Shaped(schema, r.value)
    decreases |rows|
  {
    if |rows| == 0 then Success([])
    else
      match AtomicRewrite(schema, rows[..|rows| - 1], op)
      case Failure(e) => Failure(e)
      case Success(out) =>
        match op(rows[|rows| - 1])
        case Failure(e) => Failure(e)
        case Success(None) => Success(out)
        case Success(Some(row)) =>
          if row.Keys <= FieldSet(schema) then Success(out + [WriteRow(schema, row)])
          else Failure(UnknownField)
  }

  /** `rebuild_index`: clears the index and the index file, then scans the
      data file top to bottom giving every row, tombstones included, the
      entry (its line, its flag); a later row with the same key replaces an
      earlier one. The scan stops where a flag does not parse. */
  function RebuildIndex(keyCol: string, rows: seq<Row>): (r: Rebuilt)
    ensures r.complete <==> forall i :: 0 <= i < |rows| ==> FlagOf(rows[i]).Some?
    ensures |r.log| <= |rows|
    ensures r.complete ==> |r.log| == |rows|
    decreases |rows|
  {
    if |rows| == 0 then Rebuilt(map[], [], true)
    else
      var n := |rows| - 1;
      var prev := RebuildIndex(keyCol, rows[..n]);
      assert forall i :: 0 <= i < n ==> rows[..n][i] == rows[i];
      if !prev.complete then prev
      else
        match FlagOf(rows[n])
        case None => prev.(complete := false)
        case Some(d) =>
          var k := KeyOf(keyCol, rows[n]);
          Rebuilt(prev.index[k := Entry(n, d)], prev.log + [LogEntry(k, n, d)], true)
  }

  // -------------------------------------------------------------- operations

  /** The key `insert` files a record under: the record's own key, unless
      `str(record.get(key_column))` is `'None'`, in which case the synthetic
      key `str(len(index) + 1)`. */
  function InsertKey(db: Db, record: Row): (key: string)
    ensures db.keyCol in record && record[db.keyCol] != "None" ==> key == record[db.keyCol]
    ensures db.keyCol !in record || record[db.keyCol] == "None" ==> key == Text.DecimalString(|db.index| + 1)
  {
    var given := if db.keyCol in record then record[db.keyCol] else "None";
    if given == "None" then Text.DecimalString(|db.index| + 1) else given
  }

  /** `insert`: a key already in the index raises before either file is
      touched, and so does a record field outside the schema (the CSV
      writer's check). Otherwise one row with `deleted = 0` is appended to
      the data file, one line to the index file, and the key is filed at
      line `len(index)`. */
  function Insert(db: Db, record: Row): (r: Step)
    ensures r.raised.Some? ==> r.db == db
    ensures InsertKey(db, record) in db.index ==> r.raised == Some(DuplicateKey(InsertKey(db, record)))
    ensures InsertKey(db, record) !in db.index ==>
              (r.raised.Some? <==> !(record.Keys + {db.keyCol, Deleted} <= FieldSet(db.schema)))
    ensures r.raised.None? ==>
              && |r.db.rows| == |db.rows| + 1 && r.db.rows[..|db.rows|] == db.rows
              && r.db.index == db.index[InsertKey(db, record) := Entry(|db.index|, 0)]
  {
    var key := InsertKey(db, record);
    if key in db.index then Step(db, Some(DuplicateKey(key)))
    else
      var full := record[db.keyCol := key][Deleted := "0"];
      assert full.Keys == record.Keys + {db.keyCol, Deleted};
      if !(full.Keys <= FieldSet(db.schema)) then Step(db, Some(UnknownField))
      else
        var line := |db.index|;
        var rows := db.rows + [WriteRow(db.schema, full)];
        assert rows[..|db.rows|] == db.rows;
        Step(db.(rows := rows, log := db.log + [LogEntry(key, line, 0)], index := db.index[key := Entry(line, 0)]), None)
  }

  /** `get`: `None` for a key the index lacks or flags 1; otherwise the data
      row at the indexed line (read back as schema field to value), or
      `None` if the file is shorter than that. */
  function Get(db: Db, key: string): (r: Option<Row>)
    ensures key !in db.index || db.index[key].flag == 1 ==> r.None?
    ensures r.Some? ==> key in db.index && db.index[key].line < |db.rows| && r.value == db.rows[db.index[key].line]
    ensures key in db.index && db.index[key].flag != 1 && db.index[key].line < |db.rows| ==>
              r == Some(db.rows[db.index[key].line])
  {
    if key !in db.index || db.index[key].flag == 1 then None
    else
      var line := db.index[key].line;
      if line < |db.rows| then Some(db.rows[line]) else None
  }

  /** Python's `not record` for what `get` returns: `None` or an empty
      dictionary. */
  predicate Falsy(record: Option<Row>) {
    record.None? || record.value == map[]
  }

  /** The rows whose flag is 0, in file order; a flag that does not parse
      raises. */
  function SelectActive(rows: seq<Row>): (r: Result<seq<Row>, Error>)
    ensures r.Success? ==> |r.value| <= |rows|
    ensures r.Failure? <==> exists i :: 0 <= i < |rows| && FlagOf(rows[i]).None?
    ensures r.Failure? ==> r.error == BadFlag
    decreases |rows|
  {
    if |rows| == 0 then Success([])
    else
      var n := |rows| - 1;
      assert forall i :: 0 <= i < n ==> rows[..n][i] == rows[i];
      match SelectActive(rows[..n])
      case Failure(e) => Failure(e)
      case Success(out) =>
        match FlagOf(rows[n])
        case None => Failure(BadFlag)
        case Some(d) => if d == 0 then Success(out + [rows[n]]) else Success(out)
  }

  /** One step of the selection of active rows. */
  lemma SelectStep(rows: seq<Row>)
    requires 0 < |rows| && SelectActive(rows[..|rows| - 1]).Success? && FlagOf(rows[|rows| - 1]).Some?
    ensures var n := |rows| - 1;
            var prev := SelectActive(rows[..n]).value;
            SelectActive(rows) == Success(if FlagOf(rows[n]).value == 0 then prev + [rows[n]] else prev)
  {
  }

  /** `out` lists the rows of `rows` at the strictly increasing lines
      `pos`. */
  predicate SubseqAt(out: seq<Row>, rows: seq<Row>, pos: seq<nat>) {
    && |pos| == |out|
    && (forall j :: 0 <= j < |pos| ==> pos[j] < |rows| && out[j] == rows[pos[j]])
    && (forall j, j' :: 0 <= j < j' < |pos| ==> pos[j] < pos[j'])
  }

  /** `pos` holds exactly the lines of `rows` whose flag is 0. */
  predicate AtActiveLines(rows: seq<Row>, pos: seq<nat>) {
    forall i :: 0 <= i < |rows| ==> (i in pos <==> FlagOf(rows[i]) == Some(0))
  }

  /** The flag-0 lines of `rows`, in increasing order. */
  ghost function ActiveLines(rows: seq<Row>): seq<nat>
    decreases |rows|
  {
    if |rows| == 0 then []
    else
      var n := |rows| - 1;
      ActiveLines(rows[..n]) + (if FlagOf(rows[n]) == Some(0) then [n] else [])
  }

  /** The selection is exact: it lists the rows at precisely the flag-0
      lines, each once, in their original order. */
  lemma {:induction false} SelectKeepsOrder(rows: seq<Row>)
    requires SelectActive(rows).Success?
    ensures SubseqAt(SelectActive(rows).value, rows, ActiveLines(rows)) && AtActiveLines(rows, ActiveLines(rows))
    decreases |rows|
  {
    if |rows| > 0 {
      var n := |rows| - 1;
      SelectKeepsOrder(rows[..n]);
      SelectStep(rows);
      SelectLinesStep(SelectActive(rows[..n]).value, rows, ActiveLines(rows[..n]));
    }
  }

  /** The positions of the selection over all rows but the last extend to
      all rows: by the last line when its flag is 0, unchanged otherwise. */
  lemma SelectLinesStep(prev: seq<Row>, rows: seq<Row>, pos: seq<nat>)
    requires 0 < |rows| && FlagOf(rows[|rows| - 1]).Some?
    requires SubseqAt(prev, rows[..|rows| - 1], pos) && AtActiveLines(rows[..|rows| - 1], pos)
    ensures var n := |rows| - 1;
            if FlagOf(rows[n]) == Some(0)
            then SubseqAt(prev + [rows[n]], rows, pos + [n]) && AtActiveLines(rows, pos + [n])
            else SubseqAt(prev, rows, pos) && AtActiveLines(rows, pos)
  {
    var n := |rows| - 1;
    var pre := rows[..n];
    assert forall i :: 0 <= i < n ==> pre[i] == rows[i];
    assert n !in pos by {
      forall j | 0 <= j < |pos| ensures pos[j] != n {
        assert pos[j] < |pre|;
      }
    }
    if FlagOf(rows[n]) == Some(0) {
      var out := prev + [rows[n]];
      var pos': seq<nat> := pos + [n];
      assert forall j :: 0 <= j < |pos| ==> pos'[j] == pos[j] && out[j] == prev[j];
      forall i | 0 <= i < n ensures (i in pos' <==> i in pos) {
        assert i in pos' <==> i in pos || i == n;
      }
    }
  }

  /** Every row the selection keeps has flag 0. */
  lemma {:induction false} SelectedAreActive(rows: seq<Row>)
    requires SelectActive(rows).Success?
    ensures forall j :: 0 <= j < |SelectActive(rows).value| ==> FlagOf(SelectActive(rows).value[j]) == Some(0)
    decreases |rows|
  {
    if |rows| > 0 {
      var n := |rows| - 1;
      assert forall i :: 0 <= i < n ==> rows[..n][i] == rows[i];
      SelectedAreActive(rows[..n]);
    }
  }

  /** `get_all`: the rows whose flag is 0, each once and in file order; a
      flag that does not parse raises. */
  function GetAll(db: Db): (r: Result<seq<Row>, Error>)
    ensures r.Failure? <==> exists i :: 0 <= i < |db.rows| && FlagOf(db.rows[i]).None?
    ensures r.Failure? ==> r.error == BadFlag
    ensures r.Success? ==> exists pos :: SubseqAt(r.value, db.rows, pos) && AtActiveLines(db.rows, pos)
  {
    assert SelectActive(db.rows).Success? ==>
             var pos := ActiveLines(db.rows);
             SubseqAt(SelectActive(db.rows).value, db.rows, pos) && AtActiveLines(db.rows, pos) by {
      if SelectActive(db.rows).Success? {
        SelectKeepsOrder(db.rows);
      }
    }
    SelectActive(db.rows)
  }

  /** The row `update` writes back: the row whose key matches has
      `updates` merged in, every other row is unchanged. */
  function Merged(keyCol: string, key: string, updates: Row, row: Row): Row {
    if KeyOf(keyCol, row) == key then row + updates else row
  }

  /** The per-row step of `update`'s rewrite: every row is written. */
  function MergeStep(keyCol: string, key: string, updates: Row, row: Row): Result<Option<Row>, Error> {
    Success(Some(Merged(keyCol, key, updates, row)))
  }

  /** The per-row step of `update`'s rewrite as a function value. */
  function MergeOp(keyCol: string, key: string, updates: Row): Row -> Result<Option<Row>, Error> {
    (row: Row) => MergeStep(keyCol, key, updates, row)
  }

  /** `update`: raises when the key is absent or tombstoned, then when
      `updates` names the key column; otherwise rewrites the data file with
      `updates` merged into the matching row. The index is left as it is. */
  function Update(db: Db, key: string, updates: Row): (r: Step)
    ensures r.raised.Some? ==> r.db == db
    ensures key !in db.index || db.index[key].flag == 1 ==> r.raised == Some(NotFound(key))
    ensures key in db.index && db.index[key].flag != 1 && db.keyCol in updates ==> r.raised == Some(KeyImmutable)
    ensures r.raised.None? ==> r.db == db.(rows := r.db.rows) && |r.db.rows| == |db.rows|
  {
    MergeRewriteKeepsCount(db.schema, db.rows, db.keyCol, key, updates);
    if key !in db.index || db.index[key].flag == 1 then Step(db, Some(NotFound(key)))
    else if db.keyCol in updates then Step(db, Some(KeyImmutable))
    else
      match AtomicRewrite(db.schema, db.rows, MergeOp(db.keyCol, key, updates))
      case Failure(e) => Step(db, Some(e))
      case Success(rows) => Step(db.(rows := rows), None)
  }

  /** The rewrite of `update` writes every row it reads, so when it
      succeeds the data file keeps its number of rows. */
  lemma {:induction false} MergeRewriteKeepsCount(schema: seq<string>, rows: seq<Row>, keyCol: string, key: string, updates: Row)
    ensures var r := AtomicRewrite(schema, rows, MergeOp(keyCol, key, updates));
            r.Success? ==> |r.value| == |rows|
    decreases |rows|
  {
    if |rows| > 0 {
      MergeRewriteKeepsCount(schema, rows[..|rows| - 1], keyCol, key, updates);
    }
  }

  /** `delete`: an absent or already tombstoned key is a silent no-op.
      Otherwise the row is rewritten with `deleted = 1` by `update` and the
      index is rebuilt from the data file. (The interim assignment of
      `(line, 1)` to the key is erased by the rebuild's first step, which
      clears the index.) */
  function Delete(db: Db, key: string): (r: Step)
    ensures key !in db.index || db.index[key].flag == 1 ==> r == Step(db, None)
    ensures r.db.keyCol == db.keyCol && r.db.schema == db.schema && |r.db.rows| <= |db.rows|
  {
    if key !in db.index || db.index[key].flag == 1 then Step(db, None)
    else
      var u := Update(db, key, map[Deleted := "1"]);
      if u.raised.Some? then u
      else
        var rb := RebuildIndex(db.keyCol, u.db.rows);
        Step(u.db.(index := rb.index, log := rb.log), if rb.complete then None else Some(BadFlag))
  }

  /** `drop`: both files are recreated holding only their headers and the
      index is cleared. */
  function Drop(db: Db): (r: Db)
    ensures r.keyCol == db.keyCol && r.schema == db.schema
    ensures |r.rows| == 0 && |r.log| == 0 && |r.index| == 0
  {
    db.(rows := [], log := [], index := map[])
  }

  /** The keys whose index flag is 0. */
  function ActiveKeys(index: Index): set<string> {
    set k | k in index && index[k].flag == 0
  }

  /** A subset is no larger than its superset, and smaller when it misses
      an element. */
  lemma {:induction false} SubsetSize(a: set<string>, b: set<string>)
    requires a <= b
    ensures |a| <= |b|
    ensures a != b ==> |a| < |b|
    decreases |b|
  {
    if b != {} {
      var x :| x in b;
      SubsetSize(a - {x}, b - {x});
      if a != b && x in a {
        var y :| y in b && y !in a;
        assert y in b - {x} && y !in a - {x};
      }
    }
  }

  /** `count`: index entries whose flag is 0. It reaches the size of the
      index exactly when no entry is a tombstone. */
  function Count(db: Db): (c: nat)
    ensures c <= |db.index|
    ensures c == |db.index| <==> forall k :: k in db.index ==> db.index[k].flag == 0
  {
    SubsetSize(ActiveKeys(db.index), db.index.Keys);
    assert |db.index| == |db.index.Keys|;
    |ActiveKeys(db.index)|
  }

  /** What the rewrite of `vacuum` does to one row: keep it if its flag is
      0, drop it otherwise; `int()` of the flag may raise. */
  function VacuumStep(row: Row): Result<Option<Row>, Error> {
    match FlagOf(row)
    case None => Failure(BadFlag)
    case Some(d) => Success(if d == 0 then Some(row) else None)
  }

  /** `vacuum`: rewrites the data file without its tombstoned rows, then
      rebuilds the index. */
  function Vacuum(db: Db): (r: Step)
    ensures r.db.keyCol == db.keyCol && r.db.schema == db.schema
    ensures |r.db.rows| <= |db.rows|
    ensures r.raised.None? ==> |r.db.log| == |r.db.rows|
  {
    match AtomicRewrite(db.schema, db.rows, VacuumStep)
    case Failure(e) => Step(db, Some(e))
    case Success(rows) =>
      var rb := RebuildIndex(db.keyCol, rows);
      Step(db.(rows := rows, index := rb.index, log := rb.log), if rb.complete then None else Some(BadFlag))
  }
}
