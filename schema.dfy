/** The schema metamodel: fields with their storage class and Java type,
    indexes, UNIQUE and CHECK constraints, foreign keys, and the `Table`
    builder that accumulates them. */
module Schema {
  import opened Types

  /** The surrogate identity column every table starts with. */
  const ID := "_id"
  /** Audit columns present when record log is enabled. */
  const CREATED_AT := "_created_at"
  const UPDATED_AT := "_updated_at"
  /** Deletion-timestamp column present when soft delete is enabled. */
  const DELETED_AT := "_deleted_at"

  /** The referential actions `ForeignKey` offers as constants. */
  const SET_NULL := "SET NULL"
  const SET_DEFAULT := "SET DEFAULT"
  const RESTRICT := "RESTRICT"
  const NO_ACTION := "NO ACTION"
  const CASCADE := "CASCADE"

  /** The SQL storage class a field declares. */
  datatype StorageClass = TEXT | INTEGER | REAL | BLOB {
    /** The keyword written into the DDL. */
    function Keyword(): string {
      match this
      case TEXT => "TEXT"
      case INTEGER => "INTEGER"
      case REAL => "REAL"
      case BLOB => "BLOB"
    }
  }

  /** The Java class a field's values have (the field's "true type").
      A primitive and its boxed class are treated alike by the engine,
      except for `boolean`, whose primitive form alone gets `DEFAULT 0`. */
  datatype TrueType =
    | IntType            // int, Integer
    | LongType           // long, Long
    | StringType         // String
    | FloatType          // float, Float
    | DoubleType         // double, Double
    | BooleanType(boxed: bool)   // boolean (boxed == false), Boolean
    | DateType           // java.util.Date
    | OtherType          // any other class, such as a byte array

  /** One declared column. */
  datatype Field = Field(name: string, storage: StorageClass, trueType: TrueType, notNull: bool, unique: bool)

  /** A (possibly composite) index on one table; column order matters. */
  datatype Index = Index(tableName: string, columns: seq<string>)

  /** A table-level UNIQUE constraint over a list of columns. */
  datatype Unique = Unique(columns: seq<string>)

  /** A table-level CHECK constraint holding a literal SQL expression. */
  datatype Check = Check(conditionalLogic: string)

  /** A foreign key from a child column to a parent table's column. The
      parent's record class is kept by its simple name. */
  datatype ForeignKey = ForeignKey(
    childColumn: string,
    parentTable: string,
    parentClass: string,
    parentColumn: string,
    onUpdate: string,
    onDelete: string)

  /** The value of a `Table`: everything the DDL synthesizer, the codec and
      the query engine read from it. */
  datatype TableDef = TableDef(
    name: string,
    softDelete: bool,
    recordLog: bool,
    fields: seq<Field>,
    indexes: seq<Index>,
    uniques: seq<Unique>,
    foreignKeys: seq<ForeignKey>,
    checks: seq<Check>)

  /** A freshly constructed table: no fields, no constraints, flags off. */
  function EmptyTable(name: string): TableDef {
    TableDef(name, false, false, [], [], [], [], [])
  }

  /** The `Index` constructor: an empty table name falls back to the
      simple name of the record class. */
  function NewIndex(tableName: string, className: string, columns: seq<string>): Index {
    Index(if tableName == "" then className else tableName, columns)
  }

  /** The `ForeignKey` constructor: an empty parent table name falls back
      to the simple name of the parent record class. */
  function NewForeignKey(childColumn: string, parentTable: string, parentClass: string,
                         parentColumn: string, onUpdate: string, onDelete: string): ForeignKey
  {
    ForeignKey(childColumn, if parentTable == "" then parentClass else parentTable,
               parentClass, parentColumn, onUpdate, onDelete)
  }

  /** The invariant the caller must keep: field names are unique in a table. */
  predicate DistinctFieldNames(fields: seq<Field>) {
    forall i, j :: 0 <= i < j < |fields| ==> fields[i].name != fields[j].name
  }

  /** The first foreign key whose child column is `column`: what `fetchRow`
      finds through `childColumnNameList.indexOf`. */
  function FirstForeignKey(fks: seq<ForeignKey>, column: string): (r: Option<ForeignKey>)
    ensures r.None? <==> forall k :: 0 <= k < |fks| ==> fks[k].childColumn != column
    ensures r.Some? ==> exists k :: 0 <= k < |fks| && fks[k] == r.value && r.value.childColumn == column
                           && forall j :: 0 <= j < k ==> fks[j].childColumn != column
  {
    if fks == [] then None
    else if fks[0].childColumn == column then Some(fks[0])
    else
      var r := FirstForeignKey(fks[1..], column);
      if r.Some? then
        var k :| 0 <= k < |fks[1..]| && fks[1..][k] == r.value && r.value.childColumn == column
                 && forall j :: 0 <= j < k ==> fks[1..][j].childColumn != column;
        assert fks[k + 1] == r.value;
        r
      else r
  }

  /** The mutable table description, built by appending to its lists. */
  class Table {
    var name: string
    var isSoftDeleteEnabled: bool
    var isRecordLogEnabled: bool
    var fieldList: seq<Field>
    var indexList: seq<Index>
    var uniqueList: seq<Unique>
    var foreignKeyList: seq<ForeignKey>
    var checkList: seq<Check>

    /** The table's current value. */
    function Snapshot(): TableDef
      reads this
    {
      TableDef(name, isSoftDeleteEnabled, isRecordLogEnabled, fieldList, indexList,
               uniqueList, foreignKeyList, checkList)
    }

    /** `new Table(name)`; `new Table(clazz)` is the same with the class's
        simple name. */
    constructor (name: string)
      ensures Snapshot() == EmptyTable(name)
    {
      this.name := name;
      isSoftDeleteEnabled, isRecordLogEnabled := false, false;
      fieldList, indexList, uniqueList, foreignKeyList, checkList := [], [], [], [], [];
    }

    method SetName(name: string)
      modifies this
      ensures Snapshot() == old(Snapshot()).(name := name)
    {
      this.name := name;
    }

    /** Appends a caller-built field. */
    method AddField(field: Field)
      modifies this
      ensures fieldList == old(fieldList) + [field]
      ensures Snapshot() == old(Snapshot()).(fields := fieldList)
    {
      fieldList := fieldList + [field];
    }

    method AddIntField(name: string, isNotNull: bool, isUnique: bool)
      modifies this
      ensures fieldList == old(fieldList) + [Field(name, INTEGER, IntType, isNotNull, isUnique)]
      ensures Snapshot() == old(Snapshot()).(fields := fieldList)
    {
      AddField(Field(name, INTEGER, IntType, isNotNull, isUnique));
    }

    method AddLongField(name: string, isNotNull: bool, isUnique: bool)
      modifies this
      ensures fieldList == old(fieldList) + [Field(name, INTEGER, LongType, isNotNull, isUnique)]
      ensures Snapshot() == old(Snapshot()).(fields := fieldList)
    {
      AddField(Field(name, INTEGER, LongType, isNotNull, isUnique));
    }

    method AddStringField(name: string, isNotNull: bool, isUnique: bool)
      modifies this
      ensures fieldList == old(fieldList) + [Field(name, TEXT, StringType, isNotNull, isUnique)]
      ensures Snapshot() == old(Snapshot()).(fields := fieldList)
    {
      AddField(Field(name, TEXT, StringType, isNotNull, isUnique));
    }

    method AddFloatField(name: string, isNotNull: bool, isUnique: bool)
      modifies this
      ensures fieldList == old(fieldList) + [Field(name, REAL, FloatType, isNotNull, isUnique)]
      ensures Snapshot() == old(Snapshot()).(fields := fieldList)
    {
      AddField(Field(name, REAL, FloatType, isNotNull, isUnique));
    }

    method AddDoubleField(name: string, isNotNull: bool, isUnique: bool)
      modifies this
      ensures fieldList == old(fieldList) + [Field(name, REAL, DoubleType, isNotNull, isUnique)]
      ensures Snapshot() == old(Snapshot()).(fields := fieldList)
    {
      AddField(Field(name, REAL, DoubleType, isNotNull, isUnique));
    }

    method AddBooleanField(name: string, isNotNull: bool, isUnique: bool)
      modifies this
      ensures fieldList == old(fieldList) + [Field(name, INTEGER, BooleanType(false), isNotNull, isUnique)]
      ensures Snapshot() == old(Snapshot()).(fields := fieldList)
    {
      AddField(Field(name, INTEGER, BooleanType(false), isNotNull, isUnique));
    }

    method AddDateField(name: string, isNotNull: bool, isUnique: bool)
      modifies this
      ensures fieldList == old(fieldList) + [Field(name, INTEGER, DateType, isNotNull, isUnique)]
      ensures Snapshot() == old(Snapshot()).(fields := fieldList)
    {
      AddField(Field(name, INTEGER, DateType, isNotNull, isUnique));
    }

    method EnableRecordLog()
      modifies this
      ensures Snapshot() == old(Snapshot()).(recordLog := true)
    {
      isRecordLogEnabled := true;
    }

    method EnableSoftDelete()
      modifies this
      ensures Snapshot() == old(Snapshot()).(softDelete := true)
    {
      isSoftDeleteEnabled := true;
    }

    /** Appends an index on this table. The source builds it with a null
        record class, so an empty table name would fail there. */
    method AddIndex(columns: seq<string>)
      requires name != ""
      modifies this
      ensures indexList == old(indexList) + [Index(name, columns)]
      ensures Snapshot() == old(Snapshot()).(indexes := indexList)
    {
      indexList := indexList + [NewIndex(name, "", columns)];
    }

    method AddUnique(columns: seq<string>)
      modifies this
      ensures uniqueList == old(uniqueList) + [Unique(columns)]
      ensures Snapshot() == old(Snapshot()).(uniques := uniqueList)
    {
      uniqueList := uniqueList + [Unique(columns)];
    }

    method AddCheck(conditionalLogic: string)
      modifies this
      ensures checkList == old(checkList) + [Check(conditionalLogic)]
      ensures Snapshot() == old(Snapshot()).(checks := checkList)
    {
      checkList := checkList + [Check(conditionalLogic)];
    }

    method AddForeignKey(childColumn: string, parentTable: string, parentClass: string,
                         parentColumn: string, onUpdate: string, onDelete: string)
      modifies this
      ensures foreignKeyList == old(foreignKeyList) +
        [ForeignKey(childColumn, if parentTable == "" then parentClass else parentTable,
                    parentClass, parentColumn, onUpdate, onDelete)]
      ensures Snapshot() == old(Snapshot()).(foreignKeys := foreignKeyList)
    {
      foreignKeyList := foreignKeyList +
        [NewForeignKey(childColumn, parentTable, parentClass, parentColumn, onUpdate, onDelete)];
    }
  }
}
