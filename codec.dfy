/** The row codec: `getContentValues` turns a record's ordered value list
    into a column-to-cell map, `fetchRow` turns a stored row back into an
    ordered value list, resolving foreign keys through a supplied lookup,
    and `fetchRecordLog` reads the audit timestamps. */
module Codec {
  import opened Types
  import opened Schema

  /** A Java value held by a record field. Dates are their millisecond
      value; `RecordRef(id)` is a referenced record, of which the codec only
      reads the `_id`; float and double values are kept as opaque reals. */
  datatype Value =
    | NullValue
    | TextValue(s: string)
    | IntValue(i: int)
    | LongValue(l: int)
    | BoolValue(b: bool)
    | DateValue(millis: int)
    | RealValue(r: real)
    | RecordRef(id: Option<int>)
    | BlobValue(bytes: seq<bv8>)

  /** A value as SQLite stores it. */
  datatype Cell = SqlNull | SqlInteger(n: int) | SqlText(t: string) | SqlReal(x: real)

  /** A row, or a `ContentValues`: a map from column name to cell. A column
      the map does not hold is NULL in a row, and is not written by an
      insert or update. */
  type Row = map<string, Cell>

  /** The cell a row holds in `column`. */
  function CellOf(row: Row, column: string): Cell {
    if column in row then row[column] else SqlNull
  }

  const TWO_31: int := 0x8000_0000
  const TWO_32: int := 0x1_0000_0000
  const TWO_63: int := 0x8000_0000_0000_0000

  predicate IsInt32(i: int) {
    -TWO_31 <= i < TWO_31
  }

  predicate IsInt64(i: int) {
    -TWO_63 <= i < TWO_63
  }

  /** `Cursor.getInt` on a 64-bit integer cell keeps the low 32 bits, as a
      Java `(int)` cast does. */
  function ToInt32(i: int): (r: int)
    ensures IsInt32(r)
    ensures (r - i) % TWO_32 == 0
    ensures IsInt32(i) ==> r == i
  {
    (i + TWO_31) % TWO_32 - TWO_31
  }

  /** The value a record supplies for a field can be cast to the class the
      codec casts it to; any value fits a field whose combination of
      storage class and Java type the codec does not handle. */
  predicate Conforms(f: Field, v: Value) {
    v == NullValue ||
    match f.storage
    case TEXT => v.TextValue?
    case INTEGER =>
      (match f.trueType
       case IntType => v.IntValue? && IsInt32(v.i)
       case LongType => (v.LongValue? && IsInt64(v.l)) || (v.RecordRef? && (v.id.Some? ==> IsInt64(v.id.value)))
       case BooleanType(_) => v.BoolValue?
       case DateType => v.DateValue? && IsInt64(v.millis)
       case _ => true)
    case REAL => (f.trueType == FloatType || f.trueType == DoubleType) ==> v.RealValue?
    case BLOB => true
  }

  /** Every value of the list conforms to its field. */
  predicate AllConform(fields: seq<Field>, data: seq<Value>)
    requires |fields| <= |data|
  {
    forall i :: 0 <= i < |fields| ==> Conforms(fields[i], data[i])
  }

  /** The cell `getContentValues` puts for one field, or `None` when it puts
      nothing: for a null value, and for a combination of storage class and
      Java type it does not handle (including BLOB). */
  function EncodeField(f: Field, v: Value): (r: Option<Cell>)
    requires Conforms(f, v)
  {
    if v == NullValue then None
    else match f.storage
      case TEXT => Some(SqlText(v.s))
      case INTEGER =>
        (match f.trueType
         case IntType => Some(SqlInteger(v.i))
         case LongType =>
           if v.RecordRef? then
             (if v.id.Some? then Some(SqlInteger(v.id.value)) else Some(SqlNull))
           else Some(SqlInteger(v.l))
         case BooleanType(_) => Some(SqlInteger(if v.b then 1 else 0))
         case DateType => Some(SqlInteger(v.millis))
         case _ => None)
      case REAL => if f.trueType == FloatType || f.trueType == DoubleType then Some(SqlReal(v.r)) else None
      case BLOB => None
  }

  /** The `ContentValues` for the first `|fields|` values, put in field
      order, so that a later field of the same name overwrites an earlier
      one. */
  function Encode(fields: seq<Field>, data: seq<Value>): (cv: Row)
    requires |fields| <= |data| && AllConform(fields, data)
    ensures forall c :: c in cv ==> exists i :: 0 <= i < |fields| && fields[i].name == c
  {
    if fields == [] then map[]
    else
      var n := |fields| - 1;
      var m := Encode(fields[..n], data);
      match EncodeField(fields[n], data[n])
      case None => m
      case Some(c) => m[fields[n].name := c]
  }

  /** `getContentValues`. */
  method GetContentValues(t: TableDef, data: seq<Value>) returns (cv: Row)
    requires |t.fields| <= |data| && AllConform(t.fields, data)
    ensures cv == Encode(t.fields, data)
  {
    cv := map[];
    var i := 0;
    while i < |t.fields|
      invariant 0 <= i <= |t.fields|
      invariant cv == Encode(t.fields[..i], data)
    {
      var field := t.fields[i];
      var cell := EncodeField(field, data[i]);
      assert t.fields[..i + 1][..i] == t.fields[..i];
      if cell.Some? {
        cv := cv[field.name := cell.value];
      }
      i := i + 1;
    }
    assert t.fields[..i] == t.fields;
  }

  /** With distinct field names, field `i`'s column is present exactly when
      its value is put, and holds that cell: each value lands under its own
      field's name and nulls are omitted. */
  lemma {:induction false} EncodeAt(fields: seq<Field>, data: seq<Value>, i: int)
    requires |fields| <= |data| && AllConform(fields, data)
    requires DistinctFieldNames(fields)
    requires 0 <= i < |fields|
    ensures fields[i].name in Encode(fields, data) <==> EncodeField(fields[i], data[i]).Some?
    ensures fields[i].name in Encode(fields, data) ==> Encode(fields, data)[fields[i].name] == EncodeField(fields[i], data[i]).value
    decreases |fields|
  {
    var n := |fields| - 1;
    var prefix := fields[..n];
    assert AllConform(prefix, data);
    if i < n {
      assert DistinctFieldNames(prefix);
      EncodeAt(prefix, data, i);
      assert fields[n].name != fields[i].name;
    } else {
    }
  }

  /** A null value leaves the column out, so an update keeps what the row
      held there. */
  lemma NullIsOmitted(fields: seq<Field>, data: seq<Value>, i: int)
    requires |fields| <= |data| && AllConform(fields, data)
    requires DistinctFieldNames(fields)
    requires 0 <= i < |fields| && data[i] == NullValue
    ensures fields[i].name !in Encode(fields, data)
  {
    EncodeAt(fields, data, i);
  }

  /** A cell has the kind SQLite keeps in a column of the field's storage
      class; integers are 64-bit. */
  predicate CellFits(f: Field, c: Cell) {
    match f.storage
    case TEXT => c.SqlNull? || c.SqlText?
    case INTEGER => c.SqlNull? || (c.SqlInteger? && IsInt64(c.n))
    case REAL => c.SqlNull? || c.SqlReal?
    case BLOB => true
  }

  /** Every declared field's column holds a cell of its kind. */
  predicate RowFits(fields: seq<Field>, row: Row) {
    forall i :: 0 <= i < |fields| ==> CellFits(fields[i], CellOf(row, fields[i].name))
  }

  /** The cell a column holds after a put of `o`, on a fresh row. */
  function Stored(o: Option<Cell>): Cell {
    if o.Some? then o.value else SqlNull
  }

  /** The cell a conforming value is stored as fits its column. */
  lemma EncodeFieldFits(f: Field, v: Value)
    requires Conforms(f, v)
    ensures CellFits(f, Stored(EncodeField(f, v)))
  {
  }

  /** The values the engine writes fit their columns. */
  lemma EncodeFits(fields: seq<Field>, data: seq<Value>)
    requires |fields| <= |data| && AllConform(fields, data)
    requires DistinctFieldNames(fields)
    ensures RowFits(fields, Encode(fields, data))
  {
    var row := Encode(fields, data);
    forall i | 0 <= i < |fields|
      ensures CellFits(fields[i], CellOf(row, fields[i].name))
    {
      EncodeAt(fields, data, i);
      assert CellOf(row, fields[i].name) == Stored(EncodeField(fields[i], data[i]));
      EncodeFieldFits(fields[i], data[i]);
    }
  }

  /** The field has a combination of storage class and Java type the
      codec handles, so `fetchRow` produces a value for it. */
  predicate Handled(f: Field) {
    match f.storage
    case TEXT => true
    case INTEGER => f.trueType.IntType? || f.trueType.LongType? || f.trueType.BooleanType? || f.trueType.DateType?
    case REAL => f.trueType == FloatType || f.trueType == DoubleType
    case BLOB => false
  }

  /** The parent lookup `fetchRow` performs for a foreign-key column: the
      `_id` of the first parent row whose parent column equals the stored
      value, or `None` when there is none. */
  type ParentLookup = (ForeignKey, int) -> Option<int>

  /** The value `fetchRow` appends for one field, or `None` when it
      appends nothing. */
  function DecodeField(f: Field, c: Cell, fks: seq<ForeignKey>, parent: ParentLookup): (r: Option<Value>)
    requires CellFits(f, c)
    ensures r.Some? <==> Handled(f)
  {
    match f.storage
    case TEXT => Some(if c.SqlNull? then NullValue else TextValue(c.t))
    case INTEGER =>
      (match f.trueType
       case IntType => Some(if c.SqlNull? then NullValue else IntValue(ToInt32(c.n)))
       case LongType =>
         if c.SqlNull? then Some(NullValue)
         else
           (match FirstForeignKey(fks, f.name)
            case Some(fk) =>
              (match parent(fk, c.n)
               case None => Some(NullValue)
               case Some(id) => Some(RecordRef(Some(id))))
            case None => Some(LongValue(c.n)))
       case BooleanType(_) => Some(if c.SqlNull? then NullValue else BoolValue(ToInt32(c.n) == 1))
       case DateType => Some(if c.SqlNull? then NullValue else DateValue(c.n))
       case _ => None)
    case REAL =>
      if f.trueType == FloatType || f.trueType == DoubleType then
        Some(if c.SqlNull? then NullValue else RealValue(c.x))
      else None
    case BLOB => None
  }

  /** The value list `fetchRow` builds for the first `|fields|` fields. */
  function Fetch(fields: seq<Field>, fks: seq<ForeignKey>, row: Row, parent: ParentLookup): (data: seq<Value>)
    requires RowFits(fields, row)
    ensures |data| <= |fields|
  {
    if fields == [] then []
    else
      var n := |fields| - 1;
      assert RowFits(fields[..n], row) by {
        forall i | 0 <= i < n ensures CellFits(fields[..n][i], CellOf(row, fields[..n][i].name)) {
          assert fields[..n][i] == fields[i];
        }
      }
      var front := Fetch(fields[..n], fks, row, parent);
      match DecodeField(fields[n], CellOf(row, fields[n].name), fks, parent)
      case None => front
      case Some(v) => front + [v]
  }

  /** `fetchRow`: the value list of a row of `t`, in field order. */
  method FetchRow(t: TableDef, row: Row, parent: ParentLookup) returns (data: seq<Value>)
    requires RowFits(t.fields, row)
    ensures data == Fetch(t.fields, t.foreignKeys, row, parent)
  {
    data := [];
    var i := 0;
    while i < |t.fields|
      invariant 0 <= i <= |t.fields|
      invariant RowFits(t.fields[..i], row)
      invariant data == Fetch(t.fields[..i], t.foreignKeys, row, parent)
    {
      var field := t.fields[i];
      assert t.fields[..i + 1][..i] == t.fields[..i];
      var next := t.fields[..i + 1];
      assert RowFits(next, row) by {
        forall k | 0 <= k < i + 1 ensures CellFits(next[k], CellOf(row, next[k].name)) {
          assert next[k] == t.fields[k];
        }
      }
      var v := DecodeField(field, CellOf(row, field.name), t.foreignKeys, parent);
      if v.Some? {
        data := data + [v.value];
      }
      i := i + 1;
    }
    assert t.fields[..i] == t.fields;
  }

  /** Every field is one the codec handles. */
  predicate AllHandled(fields: seq<Field>) {
    forall i :: 0 <= i < |fields| ==> Handled(fields[i])
  }

  /** When every field is handled, `fetchRow` yields exactly one value per
      field, in field order, each the decoding of that field's cell. */
  lemma {:induction false} FetchAt(fields: seq<Field>, fks: seq<ForeignKey>, row: Row, parent: ParentLookup)
    requires RowFits(fields, row) && AllHandled(fields)
    ensures |Fetch(fields, fks, row, parent)| == |fields|
    ensures forall i :: 0 <= i < |fields| ==>
      Fetch(fields, fks, row, parent)[i] == DecodeField(fields[i], CellOf(row, fields[i].name), fks, parent).value
    decreases |fields|
  {
    if fields != [] {
      var n := |fields| - 1;
      var prefix := fields[..n];
      assert RowFits(prefix, row) by {
        forall i | 0 <= i < n ensures CellFits(prefix[i], CellOf(row, prefix[i].name)) {
          assert prefix[i] == fields[i];
        }
      }
      assert AllHandled(prefix) by {
        forall i | 0 <= i < n ensures Handled(prefix[i]) {
          assert prefix[i] == fields[i];
        }
      }
      FetchAt(prefix, fks, row, parent);
    }
  }

  /** The value a field of the record holds survives a store and a fetch:
      null in any handled field; text, int, non-reference long, boolean,
      date and real values as they are; a reference in a foreign-key
      column when the lookup maps the stored `_id` back to itself. */
  predicate RoundTrips(f: Field, v: Value, fks: seq<ForeignKey>, parent: ParentLookup) {
    Handled(f) && Conforms(f, v) &&
    (v == NullValue ||
     match f.storage
     case INTEGER =>
       (f.trueType.LongType? ==>
         match FirstForeignKey(fks, f.name)
         case None => v.LongValue?
         case Some(fk) => v.RecordRef? && v.id.Some? && parent(fk, v.id.value) == Some(v.id.value))
     case _ => true)
  }

  /** Decoding inverts encoding for one field. */
  lemma DecodeEncodeField(f: Field, v: Value, fks: seq<ForeignKey>, parent: ParentLookup)
    requires RoundTrips(f, v, fks, parent)
    ensures CellFits(f, Stored(EncodeField(f, v)))
    ensures DecodeField(f, Stored(EncodeField(f, v)), fks, parent) == Some(v)
  {
  }

  /** Decoding inverts encoding for a whole record: fetching the row that
      `getContentValues` produced gives back the record's value list. */
  lemma DecodeEncode(fields: seq<Field>, fks: seq<ForeignKey>, data: seq<Value>, parent: ParentLookup)
    requires |fields| == |data|
    requires DistinctFieldNames(fields)
    requires forall i :: 0 <= i < |fields| ==> RoundTrips(fields[i], data[i], fks, parent)
    ensures AllConform(fields, data)
    ensures RowFits(fields, Encode(fields, data))
    ensures Fetch(fields, fks, Encode(fields, data), parent) == data
  {
    var row := Encode(fields, data);
    EncodeFits(fields, data);
    assert AllHandled(fields);
    FetchAt(fields, fks, row, parent);
    forall i | 0 <= i < |fields|
      ensures Fetch(fields, fks, row, parent)[i] == data[i]
    {
      EncodeAt(fields, data, i);
      DecodeEncodeField(fields[i], data[i], fks, parent);
    }
  }

  /** The audit timestamps of a record, in milliseconds. */
  datatype RecordLog = RecordLog(createdAt: Option<int>, updatedAt: Option<int>)

  /** The audit columns hold integers or NULL, as their INTEGER
      declaration makes SQLite keep them. */
  predicate AuditFits(row: Row) {
    var c, u := CellOf(row, CREATED_AT), CellOf(row, UPDATED_AT);
    (c.SqlNull? || c.SqlInteger?) && (u.SqlNull? || u.SqlInteger?)
  }

  /** `fetchRecordLog`: with record log enabled, each non-null audit column
      of the row replaces the record's timestamp; otherwise the record
      keeps what it had. */
  function FetchRecordLog(t: TableDef, row: Row, log: RecordLog): (r: RecordLog)
    requires AuditFits(row)
    ensures !t.recordLog ==> r == log
    ensures t.recordLog && CellOf(row, CREATED_AT).SqlInteger? ==> r.createdAt == Some(CellOf(row, CREATED_AT).n)
    ensures t.recordLog && CellOf(row, UPDATED_AT).SqlInteger? ==> r.updatedAt == Some(CellOf(row, UPDATED_AT).n)
    ensures CellOf(row, CREATED_AT).SqlNull? ==> r.createdAt == log.createdAt
    ensures CellOf(row, UPDATED_AT).SqlNull? ==> r.updatedAt == log.updatedAt
  {
    if !t.recordLog then log
    else
      var created := CellOf(row, CREATED_AT);
      var updated := CellOf(row, UPDATED_AT);
      RecordLog(if created.SqlInteger? then Some(created.n) else log.createdAt,
                if updated.SqlInteger? then Some(updated.n) else log.updatedAt)
  }
}
