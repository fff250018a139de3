/** The wrapper object and the record object a caller saves. The wrapper
    holds the registered tables and manages one database, modelled as an
    in-memory store of rows; its methods create and migrate the schema
    and write records. The database engine's verdict on a statement
    (a constraint it violates) is a parameter, `accepted`, and the clock
    is the parameter `now`. */
module Wrapper {
  import opened Types
  import opened Schema
  import opened Codec
  import opened Query
  import opened Writes
  import opened Ddl
  import opened Migration

  /** A `TableClass` object: its table, `_id` (`None` until it is saved),
      the audit dates a finder fills in, and the values `getObjectData`
      lists, one per field of its table. */
  class Record {
    const tableName: string
    var id: Option<int>
    var createdAt: Option<int>
    var updatedAt: Option<int>
    var data: seq<Value>

    constructor (tableName: string, data: seq<Value>)
      ensures this.tableName == tableName && this.data == data
      ensures id.None? && createdAt.None? && updatedAt.None?
    {
      this.tableName := tableName;
      this.data := data;
      id, createdAt, updatedAt := None, None, None;
    }
  }

  /** A table's AUTOINCREMENT sequence: 0 before its first insert. */
  function NextBase(lastId: map<string, int>, name: string): int {
    if name in lastId then lastId[name] else 0
  }

  /** Every stored `_id` is positive and no larger than its table's
      sequence. */
  predicate IdsBounded(store: Store, lastId: map<string, int>) {
    (forall name :: name in lastId ==> lastId[name] >= 0) &&
    forall name, id :: name in store && id in store[name] ==> 0 < id <= NextBase(lastId, name)
  }

  /** Inserting under the next identity of the sequence finds it unused
      and keeps every identity bounded. */
  lemma InsertNext(store: Store, lastId: map<string, int>, name: string, row: Row)
    requires IdsBounded(store, lastId)
    ensures var id := NextBase(lastId, name) + 1;
      id !in RowsOf(store, name) && IdsBounded(Inserted(store, name, id, row), lastId[name := id])
  {
  }

  /** Rewriting rows in place keeps every identity bounded. */
  lemma SameIds(store: Store, lastId: map<string, int>, name: string, rows: Rows)
    requires IdsBounded(store, lastId) && rows.Keys <= RowsOf(store, name).Keys
    ensures IdsBounded(WithRows(store, name, rows), lastId)
  {
  }

  class SQLiteWrapper {
    const databaseName: string
    /** The files under the application's assets. */
    const assets: Assets
    var tableMap: Tables
    var indexList: seq<Index>
    var migrationPlan: Option<MigrationPlan>
    /** The database's rows, table by table. */
    var store: Store
    /** The largest `_id` each table has handed out: SQLite's
        AUTOINCREMENT sequence, which never reuses an identity. */
    var lastId: map<string, int>

    function LastId(name: string): int
      reads this
    {
      NextBase(lastId, name)
    }

    /** Every stored `_id` is positive and no larger than its table's
        sequence, so the next identity is fresh. */
    predicate Valid()
      reads this
    {
      IdsBounded(store, lastId)
    }

    /** `new Builder().setDatabaseName(…).create(context)`: no tables, no
        indexes, no plan and an empty database. */
    constructor (databaseName: string, assets: Assets)
      ensures this.databaseName == databaseName && this.assets == assets
      ensures tableMap == map[] && indexList == [] && migrationPlan == None
      ensures store == map[] && lastId == map[]
      ensures Valid()
    {
      this.databaseName := databaseName;
      this.assets := assets;
      tableMap, indexList, migrationPlan := map[], [], None;
      store, lastId := map[], map[];
    }

    /** `addTable`: registers the table under its name, replacing a table
        registered under the same name. */
    method AddTable(table: Table)
      modifies this`tableMap
      ensures tableMap == old(tableMap)[table.name := table.Snapshot()]
    {
      tableMap := tableMap[table.name := table.Snapshot()];
    }

    /** `addIndex`: appends an index to the wrapper's own list, which
        `onCreate` writes after the tables and before the tables' own
        indexes. */
    method AddIndex(index: Index)
      modifies this`indexList
      ensures indexList == old(indexList) + [index]
    {
      indexList := indexList + [index];
    }

    /** `setMigrationPlan`. */
    method SetMigrationPlan(plan: Option<MigrationPlan>)
      modifies this`migrationPlan
      ensures migrationPlan == plan
    {
      migrationPlan := plan;
    }

    /** `onCreate`: the scripts run in one transaction, the tables taken in
        the order `keys` lists them (the key set's iteration order). */
    method OnCreate(keys: seq<string>) returns (scripts: seq<string>)
      requires KeyOrder(tableMap, keys)
      ensures scripts == CreateScripts(tableMap, keys, indexList)
    {
      scripts := [];
      var tableIndexList: seq<Index> := [];
      var i := 0;
      while i < |keys|
        invariant 0 <= i <= |keys|
        invariant scripts == TableScripts(tableMap, keys[..i])
        invariant tableIndexList == TableIndexes(tableMap, keys[..i])
      {
        var table := tableMap[keys[i]];
        TableScriptsSnoc(tableMap, keys, i);
        scripts := scripts + [CreateTableScript(table)];
        tableIndexList := tableIndexList + table.indexes;
        i := i + 1;
      }
      assert keys[..i] == keys;
      var tableScripts := scripts;
      var j := 0;
      while j < |indexList|
        invariant 0 <= j <= |indexList|
        invariant scripts == tableScripts + IndexScripts(indexList[..j])
      {
        IndexScriptsSnoc(indexList, j);
        scripts := scripts + [CreateIndexScript(indexList[j])];
        j := j + 1;
      }
      assert indexList[..j] == indexList;
      var globalScripts := scripts;
      var k := 0;
      while k < |tableIndexList|
        invariant 0 <= k <= |tableIndexList|
        invariant scripts == globalScripts + IndexScripts(tableIndexList[..k])
      {
        IndexScriptsSnoc(tableIndexList, k);
        scripts := scripts + [CreateIndexScript(tableIndexList[k])];
        k := k + 1;
      }
      assert tableIndexList[..k] == tableIndexList;
    }

    /** What a migration of this wrapper reads. */
    function MigrationEnv(): Env
      reads this
    {
      Env(tableMap, migrationPlan, assets, databaseName)
    }

    /** `onUpgrade`: the scripts run in one transaction, version step by
        version step. */
    method OnUpgrade(oldVersion: int, newVersion: int) returns (scripts: seq<string>)
      ensures scripts == UpgradeScripts(MigrationEnv(), oldVersion, newVersion)
    {
      var env := MigrationEnv();
      scripts := [];
      var i := oldVersion;
      while i < newVersion
        invariant oldVersion <= i && (i <= newVersion || i == oldVersion)
        invariant scripts == UpgradeScripts(env, oldVersion, i)
        decreases newVersion - i
      {
        var s := VersionStepScripts(env, Upgrade, i, i + 1);
        UpgradeNext(env, oldVersion, i);
        scripts := scripts + s;
        i := i + 1;
      }
    }

    /** `onDowngrade`: the scripts run in one transaction, version step by
        version step. */
    method OnDowngrade(oldVersion: int, newVersion: int) returns (scripts: seq<string>)
      ensures scripts == DowngradeScripts(MigrationEnv(), oldVersion, newVersion)
    {
      var env := MigrationEnv();
      scripts := [];
      var i := oldVersion;
      while i > newVersion
        invariant i <= oldVersion && (newVersion <= i || i == oldVersion)
        invariant scripts == DowngradeScripts(env, oldVersion, i)
        decreases i - newVersion
      {
        var s := VersionStepScripts(env, Downgrade, i, i - 1);
        DowngradeNext(env, oldVersion, i);
        scripts := scripts + s;
        i := i - 1;
      }
    }

    /** `save`: inserts the record's values, with the creation time under
        record log. The insert fails when it puts no value at all (the
        statement has no column) or the engine rejects it; otherwise the
        row takes the next identity of the table's sequence, which is
        written back into the record and nowhere else. */
    method Save(rec: Record, now: int, accepted: bool) returns (ok: bool)
      requires Valid() && rec.tableName in tableMap
      requires |tableMap[rec.tableName].fields| <= |rec.data|
      requires AllConform(tableMap[rec.tableName].fields, rec.data)
      modifies this`store, this`lastId, rec`id
      ensures Valid()
      ensures var name, t := rec.tableName, tableMap[rec.tableName];
        var cv := SaveValues(t, rec.data, now);
        (ok <==> accepted && cv != map[]) &&
        (ok ==> rec.id == Some(old(LastId(rec.tableName)) + 1) && rec.id.value !in old(RowsOf(store, name)) &&
                store == Inserted(old(store), name, rec.id.value, InsertedRow(t, cv)) &&
                lastId == old(lastId)[name := rec.id.value]) &&
        (!ok ==> rec.id == old(rec.id) && store == old(store) && lastId == old(lastId))
    {
      var name, t := rec.tableName, tableMap[rec.tableName];
      var cv := GetContentValues(t, rec.data);
      if t.recordLog {
        cv := cv[CREATED_AT := SqlInteger(now)];
      }
      if !accepted || cv == map[] {
        return false;
      }
      var id := LastId(name) + 1;
      InsertNext(store, lastId, name, InsertedRow(t, cv));
      store := Inserted(store, name, id, InsertedRow(t, cv));
      lastId := lastId[name := id];
      rec.id := Some(id);
      ok := true;
    }

    /** `update` of a record: writes its values, with the update time
        under record log, into the row with its `_id`, soft-deleted or
        not. No values at all is an illegal argument; a missing row or a
        rejected statement answers false. */
    method Update(rec: Record, now: int, accepted: bool) returns (r: Result<bool, Failure>)
      requires Valid() && rec.tableName in tableMap && rec.id.Some?
      requires |tableMap[rec.tableName].fields| <= |rec.data|
      requires AllConform(tableMap[rec.tableName].fields, rec.data)
      modifies this`store
      ensures Valid()
      ensures var name, t, id := rec.tableName, tableMap[rec.tableName], rec.id.value;
        var cv, rows := UpdateValues(t, rec.data, now), old(RowsOf(store, name));
        (r == Err(EmptyValues) <==> cv == map[]) &&
        (r == Ok(true) <==> cv != map[] && accepted && id in rows) &&
        (r == Ok(true) ==> store == Inserted(old(store), name, id, UpdatedRow(rows[id], cv))) &&
        (r != Ok(true) ==> store == old(store))
    {
      var name, t, id := rec.tableName, tableMap[rec.tableName], rec.id.value;
      var cv := GetContentValues(t, rec.data);
      if t.recordLog {
        cv := cv[UPDATED_AT := SqlInteger(now)];
      }
      if cv == map[] {
        return Err(EmptyValues);
      }
      var rows := RowsOf(store, name);
      if !accepted || id !in rows {
        return Ok(false);
      }
      SameIds(store, lastId, name, rows[id := UpdatedRow(rows[id], cv)]);
      store := Inserted(store, name, id, UpdatedRow(rows[id], cv));
      r := Ok(true);
    }

    /** `delete` of a record: nothing for an `_id` that is not positive;
        on a soft-delete table the row with the record's `_id` is stamped
        with the deletion time, otherwise it is removed. False when no row
        has that `_id` or the engine rejects the statement. */
    method Delete(rec: Record, now: int, accepted: bool) returns (ok: bool)
      requires Valid() && rec.tableName in tableMap && rec.id.Some?
      modifies this`store
      ensures Valid()
      ensures var name, t, id := rec.tableName, tableMap[rec.tableName], rec.id.value;
        var rows := old(RowsOf(store, name));
        (ok <==> id > 0 && accepted && id in rows) &&
        (ok && t.softDelete ==> store == Inserted(old(store), name, id, UpdatedRow(rows[id], SoftDeleteValues(now)))) &&
        (ok && !t.softDelete ==> store == Removed(old(store), name, id)) &&
        (!ok ==> store == old(store))
    {
      var name, t, id := rec.tableName, tableMap[rec.tableName], rec.id.value;
      if id <= 0 {
        return false;
      }
      var rows := RowsOf(store, name);
      if !accepted || id !in rows {
        return false;
      }
      if t.softDelete {
        store := Inserted(store, name, id, UpdatedRow(rows[id], SoftDeleteValues(now)));
      } else {
        store := Removed(store, name, id);
      }
      ok := true;
    }

    /** `delete(tableName, clazz, whereClause, whereArgs)`: stamps the
        deletion time on every selected row of a soft-delete table,
        deleted ones included, or removes the selected rows; a rejected
        statement changes nothing and is not reported. */
    method DeleteWhere(name: string, sel: Option<Cond>, now: int, accepted: bool)
      requires Valid() && name in tableMap
      modifies this`store
      ensures Valid()
      ensures var rows := old(RowsOf(store, name));
        if !accepted then store == old(store)
        else if tableMap[name].softDelete then store == WithRows(old(store), name, UpdatedWhere(rows, sel, SoftDeleteValues(now)))
        else store == WithRows(old(store), name, RemovedWhere(rows, sel))
    {
      if !accepted {
        return;
      }
      var rows := RowsOf(store, name);
      if tableMap[name].softDelete {
        store := WithRows(store, name, UpdatedWhere(rows, sel, SoftDeleteValues(now)));
      } else {
        store := WithRows(store, name, RemovedWhere(rows, sel));
      }
    }

    /** `deleteAll`: a delete with no where clause. */
    method DeleteAll(name: string, now: int, accepted: bool)
      requires Valid() && name in tableMap
      modifies this`store
      ensures Valid()
      ensures var rows := old(RowsOf(store, name));
        if !accepted then store == old(store)
        else if tableMap[name].softDelete then store == WithRows(old(store), name, UpdatedWhere(rows, None, SoftDeleteValues(now)))
        else store == WithRows(old(store), name, RemovedWhere(rows, None))
    {
      DeleteWhere(name, None, now, accepted);
    }

    /** `update(tableName, clazz, contentValues, whereClause, whereArgs)`:
        writes the caller's values into every selected row, soft-deleted
        ones included. No values at all is an illegal argument; a column a
        registered table does not have, no selected row or a rejected
        statement answers false. The table need not be registered: the
        statement goes to the database directly, and for a table without a
        `Table` the engine's own checks are in `accepted`. */
    method UpdateWhere(name: string, cv: Row, sel: Option<Cond>, accepted: bool) returns (r: Result<bool, Failure>)
      requires Valid() && ID !in cv
      modifies this`store
      ensures Valid()
      ensures var rows := old(RowsOf(store, name));
        (r == Err(EmptyValues) <==> cv == map[]) &&
        (r == Ok(true) <==> cv != map[] && (name in tableMap ==> cv.Keys <= Columns(tableMap[name])) &&
                            accepted && AnySelected(rows, sel)) &&
        (r == Ok(true) ==> store == WithRows(old(store), name, UpdatedWhere(rows, sel, cv))) &&
        (r != Ok(true) ==> store == old(store))
      ensures old(StoreFits(tableMap, store)) && (name in tableMap ==> ValuesFit(tableMap[name], cv)) ==>
        StoreFits(tableMap, store)
    {
      if cv == map[] {
        return Err(EmptyValues);
      }
      if name in tableMap && !(cv.Keys <= Columns(tableMap[name])) {
        return Ok(false);
      }
      var rows := RowsOf(store, name);
      if !accepted || !AnySelected(rows, sel) {
        return Ok(false);
      }
      if StoreFits(tableMap, store) && (name in tableMap ==> ValuesFit(tableMap[name], cv)) {
        if name in tableMap {
          UpdatedWhereFits(tableMap[name], rows, sel, cv);
        }
        WithRowsFits(tableMap, store, name, UpdatedWhere(rows, sel, cv));
      }
      store := WithRows(store, name, UpdatedWhere(rows, sel, cv));
      r := Ok(true);
    }
  }
}
