/** DDL synthesis: the CREATE TABLE and CREATE INDEX statements generated
    from the metamodel. The script functions follow the StringBuilder
    appends of the source; the lemmas give the layout as a comma-separated
    list of clauses and pin down what each clause holds. */
module Ddl {
  import opened Strings
  import opened Schema
  import opened Types

  /** The identity column, always the first column. */
  const IdColumn := ID + " " + INTEGER.Keyword() + " PRIMARY KEY AUTOINCREMENT"

  /** One declared column: name and storage class, then ` NOT NULL`,
      ` UNIQUE` and, for a primitive boolean field only, ` DEFAULT 0`. */
  function ColumnDef(f: Field): string {
    f.name + " " + f.storage.Keyword()
      + (if f.notNull then " NOT NULL" else "")
      + (if f.unique then " UNIQUE" else "")
      + (if f.trueType == BooleanType(false) then " DEFAULT 0" else "")
  }

  /** The clauses of the declared fields, in declaration order. */
  function FieldClauses(fields: seq<Field>): seq<string> {
    seq(|fields|, i requires 0 <= i < |fields| => ColumnDef(fields[i]))
  }

  /** The auxiliary columns: created-at and updated-at with record log,
      then deleted-at with soft delete. */
  function AuditClauses(t: TableDef): seq<string> {
    (if t.recordLog then [CreatedAtColumn, UpdatedAtColumn] else [])
      + (if t.softDelete then [DeletedAtColumn] else [])
  }

  const CreatedAtColumn := CREATED_AT + " " + INTEGER.Keyword()
  const UpdatedAtColumn := UPDATED_AT + " " + INTEGER.Keyword()
  const DeletedAtColumn := DELETED_AT + " " + INTEGER.Keyword()

  function UniqueDef(u: Unique): string {
    "UNIQUE(" + Join(",", u.columns) + ")"
  }

  function CheckDef(c: Check): string {
    "CHECK(" + c.conditionalLogic + ")"
  }

  function ForeignKeyDef(fk: ForeignKey): string {
    "FOREIGN KEY (" + fk.childColumn + ") " + "REFERENCES " + fk.parentTable + " "
      + "(" + fk.parentColumn + ") " + "ON UPDATE " + fk.onUpdate + " " + "ON DELETE " + fk.onDelete
  }

  function UniqueClauses(us: seq<Unique>): seq<string> {
    seq(|us|, i requires 0 <= i < |us| => UniqueDef(us[i]))
  }

  function CheckClauses(cs: seq<Check>): seq<string> {
    seq(|cs|, i requires 0 <= i < |cs| => CheckDef(cs[i]))
  }

  function ForeignKeyClauses(fks: seq<ForeignKey>): seq<string> {
    seq(|fks|, i requires 0 <= i < |fks| => ForeignKeyDef(fks[i]))
  }

  /** The clauses `getCreateTableScript` appends after the identity
      column, each preceded by a comma: field columns, audit columns, then
      UNIQUE, CHECK and FOREIGN KEY clauses, each group in list order. */
  function TrailingClauses(t: TableDef): seq<string> {
    FieldClauses(t.fields) + AuditClauses(t)
      + UniqueClauses(t.uniques) + CheckClauses(t.checks) + ForeignKeyClauses(t.foreignKeys)
  }

  /** The frame of a CREATE TABLE statement around its clause list. */
  function CreateTableFrame(name: string, body: string): string {
    "CREATE TABLE " + name + " (" + body + ")"
  }

  /** `getCreateTableScript`: the opening, the identity column, `,` and a
      clause for each trailing clause, and a closing parenthesis. */
  function CreateTableScript(t: TableDef): string {
    CreateTableFrame(t.name, IdColumn + Prefixed(",", TrailingClauses(t)))
  }

  /** The column clauses of a table: the identity column, one clause per
      declared field in order, then the audit columns. */
  function ColumnClauses(t: TableDef): seq<string> {
    [IdColumn] + FieldClauses(t.fields) + AuditClauses(t)
  }

  /** The table constraints: UNIQUE clauses, then CHECK clauses, then
      FOREIGN KEY clauses, each group in list order. */
  function ConstraintClauses(t: TableDef): seq<string> {
    UniqueClauses(t.uniques) + CheckClauses(t.checks) + ForeignKeyClauses(t.foreignKeys)
  }

  /** The column list: the identity column first, then a column per
      declared field in declaration order, then the audit columns, each
      with INTEGER storage. */
  lemma ColumnClausesAt(t: TableDef)
    ensures var r := ColumnClauses(t);
      |r| == 1 + |t.fields| + (if t.recordLog then 2 else 0) + (if t.softDelete then 1 else 0) &&
      r[0] == IdColumn &&
      (forall i :: 0 <= i < |t.fields| ==> r[1 + i] == ColumnDef(t.fields[i])) &&
      (t.recordLog ==> r[1 + |t.fields|] == CreatedAtColumn && r[2 + |t.fields|] == UpdatedAtColumn) &&
      (t.softDelete ==> r[|r| - 1] == DeletedAtColumn)
  {
  }

  /** The constraint list: a UNIQUE clause per unique constraint, a CHECK
      clause per check, a FOREIGN KEY clause per foreign key, in that order. */
  lemma ConstraintClausesAt(t: TableDef)
    ensures var r := ConstraintClauses(t);
      |r| == |t.uniques| + |t.checks| + |t.foreignKeys| &&
      (forall i :: 0 <= i < |t.uniques| ==> r[i] == "UNIQUE(" + Join(",", t.uniques[i].columns) + ")") &&
      (forall i :: 0 <= i < |t.checks| ==> r[|t.uniques| + i] == "CHECK(" + t.checks[i].conditionalLogic + ")") &&
      (forall i :: 0 <= i < |t.foreignKeys| ==> r[|t.uniques| + |t.checks| + i] == ForeignKeyDef(t.foreignKeys[i]))
  {
  }

  /** The whole CREATE TABLE statement is the column clauses followed by
      the constraint clauses, joined by commas, inside one pair of
      parentheses. */
  lemma CreateTableScriptLayout(t: TableDef)
    ensures CreateTableScript(t) == CreateTableFrame(t.name, Join(",", ColumnClauses(t) + ConstraintClauses(t)))
  {
    var rest := TrailingClauses(t);
    assert ColumnClauses(t) + ConstraintClauses(t) == [IdColumn] + rest;
    JoinIsPrefixed(",", IdColumn, rest);
  }

  /** The index name: `idx_`, the table name, `_`, the columns joined by `_`. */
  function IndexName(index: Index): string {
    "idx_" + index.tableName + "_" + Join("_", index.columns)
  }

  /** `getCreateIndexScript`: `CREATE INDEX`, the index name, `ON`, the
      table and the columns joined by `, ` in parentheses. */
  function CreateIndexScript(index: Index): string {
    "CREATE INDEX " + IndexName(index) + " ON " + index.tableName + " (" + Join(", ", index.columns) + ")"
  }

  /** Index names determine the table and its column list as long as no
      identifier contains an underscore and the index has a column. */
  lemma IndexNameInjective(a: Index, b: Index)
    requires |a.columns| >= 1 && |b.columns| >= 1
    requires '_' !in a.tableName && '_' !in b.tableName
    requires forall i :: 0 <= i < |a.columns| ==> '_' !in a.columns[i]
    requires forall i :: 0 <= i < |b.columns| ==> '_' !in b.columns[i]
    requires IndexName(a) == IndexName(b)
    ensures a == b
  {
    NameParts(a);
    NameParts(b);
    var pa, pb := ["idx", a.tableName] + a.columns, ["idx", b.tableName] + b.columns;
    assert pa == pb;
    assert a.tableName == pa[1] == pb[1] == b.tableName;
    assert a.columns == pa[2..] == pb[2..] == b.columns;
  }

  /** The index name is the join, by `_`, of `idx`, the table and the columns. */
  lemma NameParts(ix: Index)
    requires |ix.columns| >= 1
    requires '_' !in ix.tableName
    requires forall i :: 0 <= i < |ix.columns| ==> '_' !in ix.columns[i]
    ensures Split(IndexName(ix), '_') == ["idx", ix.tableName] + ix.columns
  {
    var parts := ["idx", ix.tableName] + ix.columns;
    JoinIsPrefixed("_", ix.tableName, ix.columns[1..]);
    JoinIsPrefixed("_", ix.columns[0], ix.columns[1..]);
    assert ix.columns == [ix.columns[0]] + ix.columns[1..];
    assert parts[1..] == [ix.tableName] + ix.columns;
    JoinIsPrefixed("_", "idx", parts[1..]);
    JoinIsPrefixed("_", ix.tableName, ix.columns);
    assert Join("_", parts) == IndexName(ix);
    SplitJoin(parts, '_');
  }

  /** Different indexes can share a name when identifiers contain `_`:
      keeping index names apart is the caller's responsibility. */
  lemma IndexNamesCanCollide()
    ensures IndexName(Index("a_b", ["c"])) == IndexName(Index("a", ["b", "c"]))
  {
  }

  /** The CREATE TABLE scripts of the listed tables, in list order. */
  function TableScripts(tables: map<string, TableDef>, keys: seq<string>): seq<string>
    requires forall i :: 0 <= i < |keys| ==> keys[i] in tables
  {
    seq(|keys|, i requires 0 <= i < |keys| => CreateTableScript(tables[keys[i]]))
  }

  /** The CREATE INDEX scripts of the listed indexes, in list order. */
  function IndexScripts(indexes: seq<Index>): seq<string> {
    seq(|indexes|, i requires 0 <= i < |indexes| => CreateIndexScript(indexes[i]))
  }

  /** The per-table indexes of the listed tables, table after table. */
  function TableIndexes(tables: map<string, TableDef>, keys: seq<string>): seq<Index>
    requires forall i :: 0 <= i < |keys| ==> keys[i] in tables
  {
    if keys == [] then []
    else TableIndexes(tables, keys[..|keys| - 1]) + tables[keys[|keys| - 1]].indexes
  }

  /** The scripts `onCreate` runs in one transaction, the tables taken in
      the order `keys` lists them: the table scripts, then the scripts of
      the wrapper's own indexes, then those of the tables' indexes. */
  function CreateScripts(tables: map<string, TableDef>, keys: seq<string>, indexList: seq<Index>): seq<string>
    requires forall i :: 0 <= i < |keys| ==> keys[i] in tables
  {
    TableScripts(tables, keys) + IndexScripts(indexList) + IndexScripts(TableIndexes(tables, keys))
  }

  /** The loops of `onCreate` build the script lists one entry at a time. */
  lemma TableScriptsSnoc(tables: map<string, TableDef>, keys: seq<string>, i: int)
    requires 0 <= i < |keys| && forall k :: 0 <= k < |keys| ==> keys[k] in tables
    ensures TableScripts(tables, keys[..i + 1]) == TableScripts(tables, keys[..i]) + [CreateTableScript(tables[keys[i]])]
    ensures TableIndexes(tables, keys[..i + 1]) == TableIndexes(tables, keys[..i]) + tables[keys[i]].indexes
  {
    assert keys[..i + 1][..i] == keys[..i];
  }

  lemma IndexScriptsSnoc(indexes: seq<Index>, j: int)
    requires 0 <= j < |indexes|
    ensures IndexScripts(indexes[..j + 1]) == IndexScripts(indexes[..j]) + [CreateIndexScript(indexes[j])]
  {
  }

  /** `keys` lists every registered table name exactly once, as iterating
      the key set of the table map does. */
  predicate KeyOrder(tables: map<string, TableDef>, keys: seq<string>) {
    (forall i :: 0 <= i < |keys| ==> keys[i] in tables) &&
    (forall name :: name in tables ==> name in keys) &&
    Distinct(keys)
  }

  /** A per-table index is listed exactly when one of the listed tables
      declares it. */
  lemma {:induction false} TableIndexesIn(tables: map<string, TableDef>, keys: seq<string>, ix: Index)
    requires forall i :: 0 <= i < |keys| ==> keys[i] in tables
    ensures ix in TableIndexes(tables, keys) <==> exists i :: 0 <= i < |keys| && ix in tables[keys[i]].indexes
    decreases |keys|
  {
    if keys != [] {
      var n := |keys| - 1;
      var front := keys[..n];
      TableIndexesIn(tables, front, ix);
      if ix in TableIndexes(tables, keys) && ix !in tables[keys[n]].indexes {
        var i :| 0 <= i < n && ix in tables[front[i]].indexes;
        assert front[i] == keys[i];
      }
      if exists i :: 0 <= i < |keys| && ix in tables[keys[i]].indexes {
        var i :| 0 <= i < |keys| && ix in tables[keys[i]].indexes;
        if i < n {
          assert front[i] == keys[i];
        }
      }
    }
  }

  /** Every registered table's script is among the table scripts, at the
      position of its name. */
  lemma TableScriptsCover(tables: map<string, TableDef>, keys: seq<string>)
    requires KeyOrder(tables, keys)
    ensures var r := TableScripts(tables, keys);
      forall name :: name in tables ==>
        exists i :: 0 <= i < |keys| && keys[i] == name && r[i] == CreateTableScript(tables[name])
  {
    var r := TableScripts(tables, keys);
    forall name | name in tables
      ensures exists i :: 0 <= i < |keys| && keys[i] == name && r[i] == CreateTableScript(tables[name])
    {
      var i :| 0 <= i < |keys| && keys[i] == name;
      assert r[i] == CreateTableScript(tables[keys[i]]);
    }
  }

  /** The per-table indexes are exactly those the registered tables declare. */
  lemma TableIndexesCover(tables: map<string, TableDef>, keys: seq<string>)
    requires KeyOrder(tables, keys)
    ensures forall ix :: ix in TableIndexes(tables, keys) <==> exists name :: name in tables && ix in tables[name].indexes
  {
    forall ix ensures ix in TableIndexes(tables, keys) <==> exists name :: name in tables && ix in tables[name].indexes {
      TableIndexesIn(tables, keys, ix);
      if exists name :: name in tables && ix in tables[name].indexes {
        var name :| name in tables && ix in tables[name].indexes;
        var i :| 0 <= i < |keys| && keys[i] == name;
      }
    }
  }

  /** `onCreate` runs a script per registered table, in key order,
      before any index script; then one per wrapper index, in their order;
      then one per table index, table after table. */
  lemma CreateScriptsLayout(tables: map<string, TableDef>, keys: seq<string>, indexList: seq<Index>)
    requires KeyOrder(tables, keys)
    ensures var r, n, g := CreateScripts(tables, keys, indexList), |keys|, |indexList|;
      var own := TableIndexes(tables, keys);
      |r| == |tables| + g + |own| &&
      (forall i :: 0 <= i < n ==> r[i] == CreateTableScript(tables[keys[i]])) &&
      (forall j :: 0 <= j < g ==> r[n + j] == CreateIndexScript(indexList[j])) &&
      (forall j :: 0 <= j < |own| ==> r[n + g + j] == CreateIndexScript(own[j]))
  {
    KeyOrderCard(tables, keys);
    TablesSection(tables, keys, indexList);
    WrapperIndexSection(tables, keys, indexList);
    TableIndexSection(tables, keys, indexList);
  }

  lemma TablesSection(tables: map<string, TableDef>, keys: seq<string>, indexList: seq<Index>)
    requires forall i :: 0 <= i < |keys| ==> keys[i] in tables
    ensures var r := CreateScripts(tables, keys, indexList);
      |r| == |keys| + |indexList| + |TableIndexes(tables, keys)| &&
      forall i :: 0 <= i < |keys| ==> r[i] == CreateTableScript(tables[keys[i]])
  {
    var ts, gs, os := TableScripts(tables, keys), IndexScripts(indexList), IndexScripts(TableIndexes(tables, keys));
    assert |ts| == |keys|;
    forall i | 0 <= i < |keys| ensures CreateScripts(tables, keys, indexList)[i] == CreateTableScript(tables[keys[i]]) {
      FirstPartAt(ts, gs, os, i);
    }
  }

  lemma WrapperIndexSection(tables: map<string, TableDef>, keys: seq<string>, indexList: seq<Index>)
    requires forall i :: 0 <= i < |keys| ==> keys[i] in tables
    ensures var r := CreateScripts(tables, keys, indexList);
      forall j :: 0 <= j < |indexList| ==> |keys| + j < |r| && r[|keys| + j] == CreateIndexScript(indexList[j])
  {
    var ts, gs, os := TableScripts(tables, keys), IndexScripts(indexList), IndexScripts(TableIndexes(tables, keys));
    assert |ts| == |keys| && |gs| == |indexList|;
    forall j | 0 <= j < |indexList|
      ensures |keys| + j < |CreateScripts(tables, keys, indexList)|
      ensures CreateScripts(tables, keys, indexList)[|keys| + j] == CreateIndexScript(indexList[j])
    {
      MiddlePartAt(ts, gs, os, j);
    }
  }

  lemma TableIndexSection(tables: map<string, TableDef>, keys: seq<string>, indexList: seq<Index>)
    requires forall i :: 0 <= i < |keys| ==> keys[i] in tables
    ensures var r, own := CreateScripts(tables, keys, indexList), TableIndexes(tables, keys);
      forall j :: 0 <= j < |own| ==> |keys| + |indexList| + j < |r| && r[|keys| + |indexList| + j] == CreateIndexScript(own[j])
  {
    var own := TableIndexes(tables, keys);
    var ts, gs, os := TableScripts(tables, keys), IndexScripts(indexList), IndexScripts(own);
    assert |ts| == |keys| && |gs| == |indexList| && |os| == |own|;
    forall j | 0 <= j < |own|
      ensures |keys| + |indexList| + j < |CreateScripts(tables, keys, indexList)|
      ensures CreateScripts(tables, keys, indexList)[|keys| + |indexList| + j] == CreateIndexScript(own[j])
    {
      LastPartAt(ts, gs, os, j);
    }
  }

  /** Where the parts of a three-part concatenation sit, one index at a time. */
  lemma FirstPartAt<T>(a: seq<T>, b: seq<T>, c: seq<T>, i: int)
    requires 0 <= i < |a|
    ensures (a + b + c)[i] == a[i]
  {
  }

  lemma MiddlePartAt<T>(a: seq<T>, b: seq<T>, c: seq<T>, j: int)
    requires 0 <= j < |b|
    ensures (a + b + c)[|a| + j] == b[j]
  {
  }

  lemma LastPartAt<T>(a: seq<T>, b: seq<T>, c: seq<T>, j: int)
    requires 0 <= j < |c|
    ensures (a + b + c)[|a| + |b| + j] == c[j]
  {
  }

  /** A list naming every key of a map exactly once is as long as the map. */
  lemma KeyOrderCard(tables: map<string, TableDef>, keys: seq<string>)
    requires KeyOrder(tables, keys)
    ensures |keys| == |tables|
  {
    DistinctCard(keys);
    assert (set x | x in keys) == tables.Keys;
  }
}
