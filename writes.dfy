/** What `save`, `update` and `delete` write into a table: the values put,
    the audit stamps, the column defaults the synthesized DDL declares,
    and what a finder reads back afterwards. */
module Writes {
  import opened Types
  import opened Schema
  import opened Codec
  import opened Query

  /** The cell a `DEFAULT 0` column default leaves in a column of each
      storage class, after SQLite's type affinity. */
  function ZeroIn(s: StorageClass): Cell {
    match s
    case INTEGER => SqlInteger(0)
    case TEXT => SqlText("0")
    case REAL => SqlReal(0.0)
    case BLOB => SqlInteger(0)
  }

  /** The column defaults of the synthesized DDL: `DEFAULT 0` on every
      primitive boolean field. */
  function Defaults(fields: seq<Field>): (d: Row)
    ensures forall c :: c in d ==> exists i :: 0 <= i < |fields| && fields[i].name == c
  {
    if fields == [] then map[]
    else
      var n := |fields| - 1;
      var m := Defaults(fields[..n]);
      if fields[n].trueType == BooleanType(false) then m[fields[n].name := ZeroIn(fields[n].storage)] else m
  }

  /** With distinct field names, a field's column has a default exactly
      when the field is a primitive boolean. */
  lemma {:induction false} DefaultsAt(fields: seq<Field>, i: int)
    requires DistinctFieldNames(fields) && 0 <= i < |fields|
    ensures fields[i].name in Defaults(fields) <==> fields[i].trueType == BooleanType(false)
    ensures fields[i].name in Defaults(fields) ==> Defaults(fields)[fields[i].name] == ZeroIn(fields[i].storage)
    decreases |fields|
  {
    var n := |fields| - 1;
    var prefix := fields[..n];
    if i < n {
      assert DistinctFieldNames(prefix) by {
        forall a, b | 0 <= a < b < n ensures prefix[a].name != prefix[b].name {
          assert prefix[a] == fields[a] && prefix[b] == fields[b];
        }
      }
      DefaultsAt(prefix, i);
      assert prefix[i] == fields[i];
      assert fields[i].name != fields[n].name;
    } else {
      forall c | c in Defaults(prefix) ensures c != fields[n].name {
        var k :| 0 <= k < n && prefix[k].name == c;
        assert prefix[k] == fields[k];
      }
    }
  }

  /** What a fresh row holds in a field's column when nothing is put:
      the default 0 of a primitive boolean, NULL otherwise. */
  function DefaultOf(f: Field): Cell {
    if f.trueType == BooleanType(false) then ZeroIn(f.storage) else SqlNull
  }

  /** A column holding an integer timestamp put into `cv` when `stamp` is on. */
  function Stamped(cv: Row, stamp: bool, column: string, now: int): Row {
    if stamp then cv[column := SqlInteger(now)] else cv
  }

  /** The `ContentValues` `save` inserts: the record's values, and the
      creation time with record log. */
  function SaveValues(t: TableDef, data: seq<Value>, now: int): Row
    requires |t.fields| <= |data| && AllConform(t.fields, data)
  {
    Stamped(Encode(t.fields, data), t.recordLog, CREATED_AT, now)
  }

  /** The `ContentValues` `update` writes: the record's values, and the
      update time with record log. */
  function UpdateValues(t: TableDef, data: seq<Value>, now: int): Row
    requires |t.fields| <= |data| && AllConform(t.fields, data)
  {
    Stamped(Encode(t.fields, data), t.recordLog, UPDATED_AT, now)
  }

  /** The row an insert of `cv` stores: the column defaults, under the
      values put. */
  function InsertedRow(t: TableDef, cv: Row): Row {
    Defaults(t.fields) + cv
  }

  /** The row an update of `cv` leaves: the values put replace the old
      ones, every other column keeps its value. */
  function UpdatedRow(row: Row, cv: Row): Row {
    row + cv
  }

  /** The `ContentValues` of a soft delete: the deletion time alone. */
  function SoftDeleteValues(now: int): Row {
    map[DELETED_AT := SqlInteger(now)]
  }

  /** The cell put for a value, or `otherwise` when nothing is put. */
  function PutOr(f: Field, v: Value, otherwise: Cell): Cell
    requires Conforms(f, v)
  {
    if EncodeField(f, v).Some? then EncodeField(f, v).value else otherwise
  }

  /** The column names of a stored record never collide with the engine's
      columns, so the values put and the stamps are apart. */
  lemma FieldIsNotEngineColumn(t: TableDef, i: int)
    requires WellFormed(t) && 0 <= i < |t.fields|
    ensures t.fields[i].name != ID && t.fields[i].name != CREATED_AT
    ensures t.fields[i].name != UPDATED_AT && t.fields[i].name != DELETED_AT
  {
  }

  /** The row `save` stores holds, in each field's column, what was put for
      it, the default 0 of a primitive boolean that was null, or NULL; with
      record log the creation time; and no update or deletion time. */
  lemma {:induction false} InsertedRowAt(t: TableDef, data: seq<Value>, now: int)
    requires WellFormed(t) && |t.fields| <= |data| && AllConform(t.fields, data)
    ensures var row := InsertedRow(t, SaveValues(t, data, now));
      (forall i :: 0 <= i < |t.fields| ==> CellOf(row, t.fields[i].name) == PutOr(t.fields[i], data[i], DefaultOf(t.fields[i]))) &&
      CellOf(row, CREATED_AT) == (if t.recordLog then SqlInteger(now) else SqlNull) &&
      CellOf(row, UPDATED_AT) == SqlNull && CellOf(row, DELETED_AT) == SqlNull
  {
    var cv := Encode(t.fields, data);
    var row := InsertedRow(t, SaveValues(t, data, now));
    forall i | 0 <= i < |t.fields|
      ensures CellOf(row, t.fields[i].name) == PutOr(t.fields[i], data[i], DefaultOf(t.fields[i]))
    {
      EncodeAt(t.fields, data, i);
      DefaultsAt(t.fields, i);
      FieldIsNotEngineColumn(t, i);
    }
    forall i | 0 <= i < |t.fields|
      ensures t.fields[i].name != CREATED_AT && t.fields[i].name != UPDATED_AT && t.fields[i].name != DELETED_AT
    {
      FieldIsNotEngineColumn(t, i);
    }
  }

  /** The row `save` stores fits the table. */
  lemma InsertedFits(t: TableDef, data: seq<Value>, now: int)
    requires WellFormed(t) && |t.fields| <= |data| && AllConform(t.fields, data)
    ensures RowFits(t.fields, InsertedRow(t, SaveValues(t, data, now)))
    ensures AuditFits(InsertedRow(t, SaveValues(t, data, now)))
  {
    var row := InsertedRow(t, SaveValues(t, data, now));
    InsertedRowAt(t, data, now);
    forall i | 0 <= i < |t.fields| ensures CellFits(t.fields[i], CellOf(row, t.fields[i].name)) {
      EncodeFieldFits(t.fields[i], data[i]);
    }
  }

  /** The row `update` leaves holds, in each field's column, what was put
      for it, or its old cell when the value was null; with record log the
      update time; the creation and deletion times are kept. */
  lemma UpdatedRowAt(t: TableDef, row: Row, data: seq<Value>, now: int)
    requires WellFormed(t) && |t.fields| <= |data| && AllConform(t.fields, data)
    ensures var r := UpdatedRow(row, UpdateValues(t, data, now));
      (forall i :: 0 <= i < |t.fields| ==> CellOf(r, t.fields[i].name) == PutOr(t.fields[i], data[i], CellOf(row, t.fields[i].name))) &&
      CellOf(r, UPDATED_AT) == (if t.recordLog then SqlInteger(now) else CellOf(row, UPDATED_AT)) &&
      CellOf(r, CREATED_AT) == CellOf(row, CREATED_AT) && CellOf(r, DELETED_AT) == CellOf(row, DELETED_AT)
  {
    var cv := Encode(t.fields, data);
    var r := UpdatedRow(row, UpdateValues(t, data, now));
    forall i | 0 <= i < |t.fields|
      ensures CellOf(r, t.fields[i].name) == PutOr(t.fields[i], data[i], CellOf(row, t.fields[i].name))
    {
      EncodeAt(t.fields, data, i);
      FieldIsNotEngineColumn(t, i);
    }
    forall i | 0 <= i < |t.fields|
      ensures t.fields[i].name != CREATED_AT && t.fields[i].name != UPDATED_AT && t.fields[i].name != DELETED_AT
    {
      FieldIsNotEngineColumn(t, i);
    }
  }

  /** The row `update` leaves fits the table. */
  lemma UpdatedFits(t: TableDef, row: Row, data: seq<Value>, now: int)
    requires WellFormed(t) && |t.fields| <= |data| && AllConform(t.fields, data)
    requires RowFits(t.fields, row) && AuditFits(row)
    ensures RowFits(t.fields, UpdatedRow(row, UpdateValues(t, data, now)))
    ensures AuditFits(UpdatedRow(row, UpdateValues(t, data, now)))
  {
    var r := UpdatedRow(row, UpdateValues(t, data, now));
    UpdatedRowAt(t, row, data, now);
    forall i | 0 <= i < |t.fields| ensures CellFits(t.fields[i], CellOf(r, t.fields[i].name)) {
      EncodeFieldFits(t.fields[i], data[i]);
    }
  }

  /** A soft delete changes the deletion time and nothing else: the row
      fits as before and is no longer visible. */
  lemma SoftDeletedFits(t: TableDef, row: Row, now: int)
    requires WellFormed(t) && RowFits(t.fields, row) && AuditFits(row)
    ensures var r := UpdatedRow(row, SoftDeleteValues(now));
      RowFits(t.fields, r) && AuditFits(r) && (t.softDelete ==> !Visible(t, r)) &&
      forall c :: c != DELETED_AT ==> CellOf(r, c) == CellOf(row, c)
  {
    var r := UpdatedRow(row, SoftDeleteValues(now));
    forall i | 0 <= i < |t.fields| ensures CellOf(r, t.fields[i].name) == CellOf(row, t.fields[i].name) {
      FieldIsNotEngineColumn(t, i);
    }
  }

  /** A later update cannot clear a column: a field whose value is null
      keeps whatever its column held. */
  lemma UpdateKeepsNulledColumn(t: TableDef, row: Row, data: seq<Value>, now: int, i: int)
    requires WellFormed(t) && |t.fields| <= |data| && AllConform(t.fields, data)
    requires 0 <= i < |t.fields| && data[i] == NullValue
    ensures CellOf(UpdatedRow(row, UpdateValues(t, data, now)), t.fields[i].name) == CellOf(row, t.fields[i].name)
  {
    UpdatedRowAt(t, row, data, now);
  }

  /** The store with one table's rows replaced. */
  function WithRows(store: Store, name: string, rows: Rows): Store {
    store[name := rows]
  }

  /** Replacing a registered table's rows by rows that fit keeps the store
      fitting. */
  lemma WithRowsFits(tables: Tables, store: Store, name: string, rows: Rows)
    requires StoreFits(tables, store)
    requires name in tables ==> TableFits(tables[name], rows)
    ensures StoreFits(tables, WithRows(store, name, rows))
  {
    var s := WithRows(store, name, rows);
    forall n | n in tables ensures TableFits(tables[n], RowsOf(s, n)) {
      if n != name {
        assert RowsOf(s, n) == RowsOf(store, n);
      }
    }
  }

  /** Two rows that agree on every field's column fetch alike. */
  lemma {:induction false} FetchAgree(fields: seq<Field>, fks: seq<ForeignKey>, a: Row, b: Row, parent: ParentLookup)
    requires RowFits(fields, a) && RowFits(fields, b)
    requires forall i :: 0 <= i < |fields| ==> CellOf(a, fields[i].name) == CellOf(b, fields[i].name)
    ensures Fetch(fields, fks, a, parent) == Fetch(fields, fks, b, parent)
    decreases |fields|
  {
    if fields != [] {
      var n := |fields| - 1;
      var prefix := fields[..n];
      forall i | 0 <= i < n
        ensures prefix[i] == fields[i]
      {
      }
      FetchAgree(prefix, fks, a, b, parent);
    }
  }

  /** When every field is handled and no primitive boolean is null, the
      stored row agrees with the values put on every field's column. */
  lemma InsertedAgrees(t: TableDef, data: seq<Value>, now: int)
    requires WellFormed(t) && |t.fields| <= |data| && AllConform(t.fields, data)
    requires forall i :: 0 <= i < |t.fields| ==>
      Handled(t.fields[i]) && (t.fields[i].trueType == BooleanType(false) ==> data[i] != NullValue)
    ensures var row, cv := InsertedRow(t, SaveValues(t, data, now)), Encode(t.fields, data);
      forall i :: 0 <= i < |t.fields| ==> CellOf(row, t.fields[i].name) == CellOf(cv, t.fields[i].name)
  {
    var row, cv := InsertedRow(t, SaveValues(t, data, now)), Encode(t.fields, data);
    InsertedRowAt(t, data, now);
    forall i | 0 <= i < |t.fields| ensures CellOf(row, t.fields[i].name) == CellOf(cv, t.fields[i].name) {
      EncodeAt(t.fields, data, i);
      EncodedUnlessNull(t.fields[i], data[i]);
    }
  }

  /** When no value is null, the updated row agrees with the values put on
      every field's column. */
  lemma UpdatedAgrees(t: TableDef, row: Row, data: seq<Value>, now: int)
    requires WellFormed(t) && |t.fields| <= |data| && AllConform(t.fields, data)
    requires forall i :: 0 <= i < |t.fields| ==> Handled(t.fields[i]) && data[i] != NullValue
    ensures var r, cv := UpdatedRow(row, UpdateValues(t, data, now)), Encode(t.fields, data);
      forall i :: 0 <= i < |t.fields| ==> CellOf(r, t.fields[i].name) == CellOf(cv, t.fields[i].name)
  {
    var r, cv := UpdatedRow(row, UpdateValues(t, data, now)), Encode(t.fields, data);
    UpdatedRowAt(t, row, data, now);
    forall i | 0 <= i < |t.fields| ensures CellOf(r, t.fields[i].name) == CellOf(cv, t.fields[i].name) {
      EncodeAt(t.fields, data, i);
      EncodedUnlessNull(t.fields[i], data[i]);
    }
  }

  /** A handled field puts a cell for every value but null. */
  lemma EncodedUnlessNull(f: Field, v: Value)
    requires Handled(f) && Conforms(f, v)
    ensures EncodeField(f, v).Some? <==> v != NullValue
  {
  }

  /** A freshly saved row is visible and carries the creation time alone. */
  lemma InsertedLog(t: TableDef, data: seq<Value>, now: int)
    requires WellFormed(t) && |t.fields| <= |data| && AllConform(t.fields, data)
    ensures var row := InsertedRow(t, SaveValues(t, data, now));
      AuditFits(row) && Visible(t, row) &&
      FetchRecordLog(t, row, RecordLog(None, None)) == RecordLog(if t.recordLog then Some(now) else None, None)
  {
    InsertedRowAt(t, data, now);
  }

  /** The store after inserting `row` into table `name` under `id`. */
  function Inserted(store: Store, name: string, id: int, row: Row): Store {
    WithRows(store, name, RowsOf(store, name)[id := row])
  }

  /** The row `save` stores for `data`, read back through `fetchRow` in
      the database holding it, gives `data` back. */
  lemma SavedRowFetches(tables: Tables, s: Store, t: TableDef, data: seq<Value>, now: int)
    requires WellFormed(t) && |t.fields| == |data| && AllConform(t.fields, data)
    requires forall i :: 0 <= i < |t.fields| ==>
      RoundTrips(t.fields[i], data[i], t.foreignKeys, ParentOf(tables, s)) &&
      (t.fields[i].trueType == BooleanType(false) ==> data[i] != NullValue)
    ensures var row := InsertedRow(t, SaveValues(t, data, now));
      RowFits(t.fields, row) && Fetch(t.fields, t.foreignKeys, row, ParentOf(tables, s)) == data
  {
    var row, cv := InsertedRow(t, SaveValues(t, data, now)), Encode(t.fields, data);
    DecodeEncode(t.fields, t.foreignKeys, data, ParentOf(tables, s));
    InsertedFits(t, data, now);
    InsertedAgrees(t, data, now);
    FetchAgree(t.fields, t.foreignKeys, row, cv, ParentOf(tables, s));
  }

  /** After `save` stores a record under a fresh `_id`, `findById` reads
      the record back: its values (when each survives the codec in the new
      database and no primitive boolean is null), the creation time with
      record log, and no update time; unless the row has a parent in a
      table that is not registered, when the read fails. */
  lemma FindSaved(tables: Tables, store: Store, name: string, id: int, data: seq<Value>, now: int)
    requires name in tables && StoreFits(tables, store) && WellFormed(tables[name])
    requires id !in RowsOf(store, name)
    requires |tables[name].fields| == |data| && AllConform(tables[name].fields, data)
    requires var t, s := tables[name], Inserted(store, name, id, InsertedRow(tables[name], SaveValues(tables[name], data, now)));
      forall i :: 0 <= i < |t.fields| ==>
        RoundTrips(t.fields[i], data[i], t.foreignKeys, ParentOf(tables, s)) &&
        (t.fields[i].trueType == BooleanType(false) ==> data[i] != NullValue)
    ensures var t := tables[name];
      var row := InsertedRow(t, SaveValues(t, data, now));
      var s := Inserted(store, name, id, row);
      StoreFits(tables, s) &&
      FindById(tables, s, name, id) ==
        if RowReadable(tables, t, row) then Ok(Fetched(id, data, RecordLog(if t.recordLog then Some(now) else None, None)))
        else Err(UnknownParent)
  {
    var t := tables[name];
    var row := InsertedRow(t, SaveValues(t, data, now));
    var s := Inserted(store, name, id, row);
    SavedRowFetches(tables, s, t, data, now);
    InsertedLog(t, data, now);
    WithRowsFits(tables, store, name, RowsOf(store, name)[id := row]);
    assert RowsOf(s, name)[id] == row;
  }

  /** After `update` writes a visible record's values, `findById` reads
      them back (when none is null and each survives the codec in the new
      database), with the creation time kept and, with record log, the
      update time; unless the row has a parent in a table that is not
      registered, when the read fails. */
  lemma FindUpdated(tables: Tables, store: Store, name: string, id: int, data: seq<Value>, now: int)
    requires name in tables && StoreFits(tables, store) && WellFormed(tables[name])
    requires id in RowsOf(store, name) && Visible(tables[name], RowsOf(store, name)[id])
    requires |tables[name].fields| == |data| && AllConform(tables[name].fields, data)
    requires var t, row := tables[name], RowsOf(store, name)[id];
      var s := Inserted(store, name, id, UpdatedRow(row, UpdateValues(t, data, now)));
      forall i :: 0 <= i < |t.fields| ==>
        RoundTrips(t.fields[i], data[i], t.foreignKeys, ParentOf(tables, s)) && data[i] != NullValue
    ensures var t, row := tables[name], RowsOf(store, name)[id];
      var after := UpdatedRow(row, UpdateValues(t, data, now));
      var s := Inserted(store, name, id, after);
      var before := FetchRecordLog(t, row, RecordLog(None, None));
      StoreFits(tables, s) &&
      FindById(tables, s, name, id) ==
        if RowReadable(tables, t, after) then Ok(Fetched(id, data, before.(updatedAt := if t.recordLog then Some(now) else before.updatedAt)))
        else Err(UnknownParent)
  {
    var t, old_row := tables[name], RowsOf(store, name)[id];
    var row := UpdatedRow(old_row, UpdateValues(t, data, now));
    var s := Inserted(store, name, id, row);
    var parent := ParentOf(tables, s);
    var cv := Encode(t.fields, data);
    DecodeEncode(t.fields, t.foreignKeys, data, parent);
    UpdatedFits(t, old_row, data, now);
    UpdatedRowAt(t, old_row, data, now);
    WithRowsFits(tables, store, name, RowsOf(store, name)[id := row]);
    UpdatedAgrees(t, old_row, data, now);
    FetchAgree(t.fields, t.foreignKeys, row, cv, parent);
    assert RowsOf(s, name)[id] == row;
    assert FetchRecord(tables, s, name, id).data == data;
  }

  /** After a soft delete, `findById` no longer finds the row, while
      `count`, which adds no visibility condition, still counts it. */
  lemma SoftDeletedHidden(tables: Tables, store: Store, name: string, id: int, now: int)
    requires name in tables && StoreFits(tables, store) && WellFormed(tables[name]) && tables[name].softDelete
    requires id in RowsOf(store, name)
    ensures var s := Inserted(store, name, id, UpdatedRow(RowsOf(store, name)[id], SoftDeleteValues(now)));
      StoreFits(tables, s) && FindById(tables, s, name, id) == Err(EmptyCursor) &&
      Count(s, name, None) == Count(store, name, None)
  {
    var t, rows := tables[name], RowsOf(store, name);
    var row := UpdatedRow(rows[id], SoftDeleteValues(now));
    var s := Inserted(store, name, id, row);
    SoftDeletedFits(t, rows[id], now);
    WithRowsFits(tables, store, name, rows[id := row]);
    CountSelected(store, name, None);
    CountSelected(s, name, None);
    assert (set k | k in RowsOf(s, name) && Matches(None, k, RowsOf(s, name)[k])) ==
           (set k | k in rows && Matches(None, k, rows[k]));
  }

  /** The store after removing the row `id` of table `name`. */
  function Removed(store: Store, name: string, id: int): Store {
    WithRows(store, name, RowsOf(store, name) - {id})
  }

  /** After a hard delete the row is gone and every other row is as it was. */
  lemma RemovedGone(tables: Tables, store: Store, name: string, id: int)
    requires name in tables && StoreFits(tables, store)
    ensures var s := Removed(store, name, id);
      StoreFits(tables, s) && FindById(tables, s, name, id) == Err(EmptyCursor) &&
      forall k :: k != id ==> (k in RowsOf(s, name) <==> k in RowsOf(store, name))
  {
    WithRowsFits(tables, store, name, RowsOf(store, name) - {id});
  }

  // ---------------------------------------------------------------------
  // Writes through a where clause

  /** The columns the synthesized DDL gives a table besides `_id`: its
      fields, then the audit columns. */
  function Columns(t: TableDef): set<string> {
    (set f | f in t.fields :: f.name)
      + (if t.recordLog then {CREATED_AT, UPDATED_AT} else {})
      + (if t.softDelete then {DELETED_AT} else {})
  }

  /** Whether a where clause selects some row, deleted ones included. */
  predicate AnySelected(rows: Rows, sel: Option<Cond>) {
    exists k :: k in rows && Matches(sel, k, rows[k])
  }

  /** An UPDATE with a where clause: every selected row, visible or
      soft-deleted, takes the values put. */
  function UpdatedWhere(rows: Rows, sel: Option<Cond>, cv: Row): Rows {
    map k | k in rows :: if Matches(sel, k, rows[k]) then UpdatedRow(rows[k], cv) else rows[k]
  }

  /** Values that are each of the storage class of the column they write,
      as SQLite stores them after applying the column's affinity. */
  predicate ValuesFit(t: TableDef, cv: Row) {
    RowFits(t.fields, cv) && AuditFits(cv)
  }

  /** An update whose values fit the table keeps its rows fitting. */
  lemma UpdatedWhereFits(t: TableDef, rows: Rows, sel: Option<Cond>, cv: Row)
    requires TableFits(t, rows) && ValuesFit(t, cv)
    ensures TableFits(t, UpdatedWhere(rows, sel, cv))
  {
    var after := UpdatedWhere(rows, sel, cv);
    forall k | k in after ensures RowFits(t.fields, after[k]) && AuditFits(after[k]) {
      if Matches(sel, k, rows[k]) {
        forall i | 0 <= i < |t.fields| ensures CellFits(t.fields[i], CellOf(after[k], t.fields[i].name)) {
          assert RowFits(t.fields, rows[k]);
        }
      }
    }
  }

  /** A DELETE with a where clause: the rows it does not select. */
  function RemovedWhere(rows: Rows, sel: Option<Cond>): Rows {
    map k | k in rows && !Matches(sel, k, rows[k]) :: rows[k]
  }

  /** A row a where clause leaves visible: it was visible and the clause
      does not select it. */
  predicate LeftVisible(t: TableDef, rows: Rows, sel: Option<Cond>, id: int) {
    id in rows && Visible(t, rows[id]) && !Matches(sel, id, rows[id])
  }

  /** A soft delete writes no field's column, so a row reads after it
      exactly when it read before. */
  lemma SoftDeleteKeepsReadable(tables: Tables, t: TableDef, row: Row, now: int)
    requires WellFormed(t)
    ensures RowReadable(tables, t, UpdatedRow(row, SoftDeleteValues(now))) <==> RowReadable(tables, t, row)
  {
    var after := UpdatedRow(row, SoftDeleteValues(now));
    forall i | 0 <= i < |t.fields| ensures CellOf(after, t.fields[i].name) == CellOf(row, t.fields[i].name) {
      FieldIsNotEngineColumn(t, i);
    }
  }

  /** A soft delete through a where clause hides exactly the selected rows
      and leaves every other row as it was: `findAll` afterwards answers
      the visible rows the clause did not select, and fails exactly when
      one of them does not read. */
  lemma SoftDeletedWhere(tables: Tables, store: Store, name: string, sel: Option<Cond>, now: int)
    requires name in tables && StoreFits(tables, store) && WellFormed(tables[name]) && tables[name].softDelete
    ensures var t, rows := tables[name], RowsOf(store, name);
      var s := WithRows(store, name, UpdatedWhere(rows, sel, SoftDeleteValues(now)));
      StoreFits(tables, s) &&
      (var r := FindAll(tables, s, name);
       (r.Err? <==> exists id :: LeftVisible(t, rows, sel, id) && !RowReadable(tables, t, rows[id])) &&
       (r.Ok? ==> forall id :: id in IdsOf(r.value) <==> LeftVisible(t, rows, sel, id)))
  {
    var t, rows := tables[name], RowsOf(store, name);
    var after := UpdatedWhere(rows, sel, SoftDeleteValues(now));
    forall k | k in after
      ensures RowFits(t.fields, after[k]) && AuditFits(after[k])
      ensures Visible(t, after[k]) <==> Visible(t, rows[k]) && !Matches(sel, k, rows[k])
      ensures RowReadable(tables, t, after[k]) <==> RowReadable(tables, t, rows[k])
    {
      SoftDeletedFits(t, rows[k], now);
      SoftDeleteKeepsReadable(tables, t, rows[k], now);
    }
    WithRowsFits(tables, store, name, after);
    var s := WithRows(store, name, after);
    assert RowsOf(s, name) == after;
    FindAllVisible(tables, s, name);
  }

  /** A hard delete through a where clause removes exactly the selected
      rows: `findAll` afterwards answers the visible rows it did not
      select, and fails exactly when one of them does not read. */
  lemma RemovedWhereLeaves(tables: Tables, store: Store, name: string, sel: Option<Cond>)
    requires name in tables && StoreFits(tables, store)
    ensures var t, rows := tables[name], RowsOf(store, name);
      var s := WithRows(store, name, RemovedWhere(rows, sel));
      StoreFits(tables, s) &&
      (var r := FindAll(tables, s, name);
       (r.Err? <==> exists id :: LeftVisible(t, rows, sel, id) && !RowReadable(tables, t, rows[id])) &&
       (r.Ok? ==> forall id :: id in IdsOf(r.value) <==> LeftVisible(t, rows, sel, id)))
  {
    var t, rows := tables[name], RowsOf(store, name);
    var after := RemovedWhere(rows, sel);
    WithRowsFits(tables, store, name, after);
    var s := WithRows(store, name, after);
    assert RowsOf(s, name) == after;
    assert forall id :: id in after && Visible(t, after[id]) <==> LeftVisible(t, rows, sel, id);
    FindAllVisible(tables, s, name);
    var r := FindAll(tables, s, name);
    if r.Err? {
      var id :| id in after && Visible(t, after[id]) && !RowReadable(tables, t, after[id]);
      assert LeftVisible(t, rows, sel, id);
    }
    if exists id :: LeftVisible(t, rows, sel, id) && !RowReadable(tables, t, rows[id]) {
      var id :| LeftVisible(t, rows, sel, id) && !RowReadable(tables, t, rows[id]);
      assert id in after && after[id] == rows[id];
    }
  }

  /** `deleteAll` leaves no visible row, whichever kind of delete the table
      uses. */
  lemma DeleteAllHidesAll(tables: Tables, store: Store, name: string, now: int)
    requires name in tables && StoreFits(tables, store) && WellFormed(tables[name])
    ensures var rows := RowsOf(store, name);
      var after := if tables[name].softDelete then UpdatedWhere(rows, None, SoftDeleteValues(now)) else RemovedWhere(rows, None);
      var s := WithRows(store, name, after);
      StoreFits(tables, s) && FindAll(tables, s, name) == Ok([])
  {
    var rows := RowsOf(store, name);
    var after := if tables[name].softDelete then UpdatedWhere(rows, None, SoftDeleteValues(now)) else RemovedWhere(rows, None);
    var s := WithRows(store, name, after);
    if tables[name].softDelete {
      SoftDeletedWhere(tables, store, name, None, now);
    } else {
      RemovedWhereLeaves(tables, store, name, None);
    }
    var r := FindAll(tables, s, name);
    assert forall id :: !LeftVisible(tables[name], rows, None, id);
    var ids := IdsOf(r.value);
    EmptyOrHead(ids);
  }
}
