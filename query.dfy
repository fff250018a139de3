/** The query engine over an in-memory image of the database: the WHERE
    conditions the finders compose (their SQL text and what they select),
    the finders themselves, and the row updates behind save, update and
    delete. A table's rows are a map from `_id` to the other columns. */
module Query {
  import opened Types
  import opened Strings
  import opened Schema
  import opened Codec

  /** One table's rows, by `_id`. */
  type Rows = map<int, Row>

  /** Every table's rows, by table name. */
  type Store = map<string, Rows>

  /** The registered tables (`tableMap`), by name. */
  type Tables = map<string, TableDef>

  /** The rows of a table; a table never written to has none. */
  function RowsOf(store: Store, name: string): Rows {
    if name in store then store[name] else map[]
  }

  /** What a column holds in the row with identity `id`. */
  function ColumnValue(id: int, row: Row, column: string): Cell {
    if column == ID then SqlInteger(id) else CellOf(row, column)
  }

  /** A row the standard finders return: on a soft-delete table, one whose
      deletion timestamp is NULL. */
  predicate Visible(t: TableDef, row: Row) {
    !t.softDelete || CellOf(row, DELETED_AT).SqlNull?
  }

  /** Why a read fails. */
  datatype Failure =
    | EmptyCursor    // a row was read from a cursor positioned on no row
    | SqlError       // the statement is not valid SQL
    | UnknownTable   // the inferred table is not registered
    | UnknownParent  // a row read has a parent in a table that is not registered
    | EmptyValues    // an update was handed no values to write

  /** A WHERE condition: its SQL text and what it selects. `Criteria` is a
      caller's SQL fragment with its meaning given beside it; `NullLiteral`
      is what a null criteria string becomes when concatenated. */
  datatype Cond =
    | Criteria(sql: string, test: (int, Row) -> bool)
    | NullLiteral
    | IdIsArg(id: int)
    | DeletedAtIsNull
    | Parens(inner: Cond)
    | And(left: Cond, right: Cond)
  {
    /** The SQL text of the condition, with `?` for a bound argument. */
    function Render(): string {
      match this
      case Criteria(sql, _) => sql
      case NullLiteral => "null"
      case IdIsArg(_) => IdIsArgSql
      case DeletedAtIsNull => DeletedAtIsNullSql
      case Parens(c) => "(" + c.Render() + ")"
      case And(a, b) => a.Render() + " AND " + b.Render()
    }

    /** Whether the row with identity `id` satisfies the condition. */
    predicate Holds(id: int, row: Row) {
      match this
      case Criteria(_, test) => test(id, row)
      case NullLiteral => false
      case IdIsArg(x) => id == x
      case DeletedAtIsNull => CellOf(row, DELETED_AT).SqlNull?
      case Parens(c) => c.Holds(id, row)
      case And(a, b) => a.Holds(id, row) && b.Holds(id, row)
    }
  }

  /** `_id=?` */
  const IdIsArgSql := ID + "=?"
  /** `_deleted_at IS NULL` */
  const DeletedAtIsNullSql := DELETED_AT + " IS NULL"

  /** `TextUtils.isEmpty` on a selection string. */
  predicate IsEmpty(sel: Option<Cond>) {
    sel.None? || sel.value.Render() == ""
  }

  /** A row matches a selection: an empty selection selects every row. */
  predicate Matches(sel: Option<Cond>, id: int, row: Row) {
    IsEmpty(sel) || sel.value.Holds(id, row)
  }

  /** The selection `selectQuery` hands to the driver: on a soft-delete
      table the caller's selection, parenthesized, and visibility. */
  function SelectSelection(t: TableDef, sel: Option<Cond>): (r: Option<Cond>)
    ensures !t.softDelete ==> r == sel
    ensures t.softDelete ==> r.Some? && r.value.Render() != ""
  {
    if t.softDelete then
      if IsEmpty(sel) then Some(DeletedAtIsNull) else Some(And(Parens(sel.value), DeletedAtIsNull))
    else sel
  }

  /** The SQL text of `selectQuery`'s selection on a soft-delete table:
      `_deleted_at IS NULL` alone, or after the caller's selection in
      parentheses and `AND`. */
  lemma SelectSelectionSql(t: TableDef, sel: Option<Cond>)
    requires t.softDelete
    ensures SelectSelection(t, sel).value.Render() ==
      if IsEmpty(sel) then DeletedAtIsNullSql else "(" + sel.value.Render() + ")" + " AND " + DeletedAtIsNullSql
  {
  }

  /** `selectQuery` selects what the caller's selection selects, restricted
      to visible rows; on a table without soft delete that is everything the
      selection selects. */
  lemma SelectSelectionMeaning(t: TableDef, sel: Option<Cond>, id: int, row: Row)
    ensures Matches(SelectSelection(t, sel), id, row) <==> Matches(sel, id, row) && Visible(t, row)
  {
    if t.softDelete && !IsEmpty(sel) {
      var r := SelectSelection(t, sel).value;
      assert r.Holds(id, row) == (sel.value.Holds(id, row) && CellOf(row, DELETED_AT).SqlNull?);
    }
  }

  /** The condition of `findById`. */
  function FindByIdWhere(t: TableDef, id: int): (c: Cond)
    ensures forall k: int, row: Row :: c.Holds(k, row) <==> k == id && Visible(t, row)
  {
    if t.softDelete then And(IdIsArg(id), DeletedAtIsNull) else IdIsArg(id)
  }

  /** The SQL text of `findById`'s condition: `_id=?`, and on a
      soft-delete table ` AND _deleted_at IS NULL`. */
  lemma FindByIdSql(t: TableDef, id: int)
    ensures FindByIdWhere(t, id).Render() ==
      if t.softDelete then IdIsArgSql + " AND " + DeletedAtIsNullSql else IdIsArgSql
  {
  }

  /** The condition of `findAll`: none, or visibility on a soft-delete table. */
  function FindAllWhere(t: TableDef): (c: Option<Cond>)
    ensures c.Some? <==> t.softDelete
    ensures forall k: int, row: Row :: Matches(c, k, row) <==> Visible(t, row)
  {
    if t.softDelete then Some(DeletedAtIsNull) else None
  }

  /** The condition `findAllWithCriteria` writes after ` WHERE `: the
      criteria in parentheses, and visibility on a soft-delete table. A
      null criteria string becomes the SQL literal `null`, which is never
      true. */
  function CriteriaWhere(t: TableDef, criteria: Option<Cond>): (c: Cond)
    ensures c.Render() != ""
    ensures forall k: int, row: Row :: c.Holds(k, row) <==>
      criteria.Some? && criteria.value.Holds(k, row) && Visible(t, row)
  {
    var crit := Parens(if criteria.Some? then criteria.value else NullLiteral);
    var c := if t.softDelete then And(crit, DeletedAtIsNull) else crit;
    assert forall k: int, row: Row :: c.Holds(k, row) <==> crit.inner.Holds(k, row) && Visible(t, row);
    c
  }

  /** The SQL text of `findAllWithCriteria`'s condition: the criteria, or
      `null`, in parentheses, then ` AND _deleted_at IS NULL` on a
      soft-delete table. */
  lemma CriteriaWhereSql(t: TableDef, criteria: Option<Cond>)
    ensures var crit := "(" + (if criteria.Some? then criteria.value.Render() else "null") + ")";
      CriteriaWhere(t, criteria).Render() == if t.softDelete then crit + " AND " + DeletedAtIsNullSql else crit
  {
  }

  /** The order a query asks for: none, `_id ASC` or `_id DESC`. SQLite
      promises no order for a query without `ORDER BY`; the model answers
      such a query in ascending `_id`, the order of a rowid table scan. */
  datatype Ordering = RowOrder | IdAscending | IdDescending

  /** `s` is strictly increasing. */
  predicate Increasing(s: seq<int>) {
    forall i, j :: 0 <= i < j < |s| ==> s[i] < s[j]
  }

  /** `m` is the least element of `s`. */
  predicate IsLeast(m: int, s: set<int>) {
    m in s && forall y :: y in s ==> m <= y
  }

  /** Some element of a nonempty set. */
  lemma Element(s: set<int>) returns (x: int)
    requires s != {}
    ensures x in s
  {
    if forall y :: y !in s { assert false; }
    x :| x in s;
  }

  /** The least element of a finite nonempty set exists. */
  lemma {:induction false} MinExists(s: set<int>)
    requires s != {}
    ensures exists m :: IsLeast(m, s)
    decreases |s|
  {
    var x := Element(s);
    var rest := s - {x};
    if rest == {} {
      assert IsLeast(x, s) by {
        forall y | y in s ensures x <= y {
          assert y !in rest;
        }
      }
    } else {
      MinExists(rest);
      var m :| IsLeast(m, rest);
      var w := if x < m then x else m;
      assert IsLeast(w, s) by {
        forall y | y in s ensures w <= y {
          if y != x { assert y in rest; }
        }
      }
    }
  }

  /** The least element of a finite nonempty set. */
  function Min(s: set<int>): (m: int)
    requires s != {}
    ensures IsLeast(m, s)
  {
    MinExists(s);
    var m :| IsLeast(m, s);
    m
  }

  /** The elements of a finite set in ascending order. */
  function Ascending(s: set<int>): seq<int>
    decreases |s|
  {
    if s == {} then []
    else
      var m := Min(s);
      [m] + Ascending(s - {m})
  }

  /** `Ascending` lists every element once, in increasing order. */
  lemma {:induction false} AscendingSpec(s: set<int>)
    ensures var r := Ascending(s);
      Increasing(r) && |r| == |s| && forall x :: x in r <==> x in s
    decreases |s|
  {
    if s != {} {
      var m := Min(s);
      var rest := s - {m};
      AscendingSpec(rest);
      var r := Ascending(rest);
      forall i | 0 <= i < |r| ensures m < r[i] {
        assert r[i] in rest;
      }
      assert Ascending(s) == [m] + r;
    }
  }

  /** The row with identity `x` exists and matches `sel`. */
  predicate Hit(rows: Rows, sel: Option<Cond>, x: int) {
    x in rows && Matches(sel, x, rows[x])
  }

  /** `ids` with the ones whose rows are missing or do not match `sel`
      dropped, in order. */
  function Matching(ids: seq<int>, rows: Rows, sel: Option<Cond>): seq<int> {
    if ids == [] then []
    else
      var rest := Matching(ids[1..], rows, sel);
      if Hit(rows, sel, ids[0]) then [ids[0]] + rest else rest
  }

  /** `Matching` keeps exactly the listed identities that match, and keeps
      an increasing list increasing. */
  lemma {:induction false} MatchingSpec(ids: seq<int>, rows: Rows, sel: Option<Cond>)
    ensures var r := Matching(ids, rows, sel);
      (forall x :: x in r <==> x in ids && Hit(rows, sel, x)) && (Increasing(ids) ==> Increasing(r))
  {
    if ids != [] {
      var tail := ids[1..];
      MatchingSpec(tail, rows, sel);
      var rest := Matching(tail, rows, sel);
      assert ids == [ids[0]] + tail;
      if Increasing(ids) {
        assert Increasing(tail) by {
          forall i, j | 0 <= i < j < |tail| ensures tail[i] < tail[j] {
            assert tail[i] == ids[i + 1] && tail[j] == ids[j + 1];
          }
        }
        forall i | 0 <= i < |rest| ensures ids[0] < rest[i] {
          assert rest[i] in rest;
          var k :| 0 <= k < |tail| && tail[k] == rest[i];
          assert ids[k + 1] == rest[i];
        }
      }
    }
  }

  /** The identities of a table's rows that match `sel`, in row order. */
  function MatchingIds(rows: Rows, sel: Option<Cond>): seq<int> {
    Matching(Ascending(rows.Keys), rows, sel)
  }

  /** The matching identities are increasing and are exactly the rows that
      match; there are none exactly when no row matches. */
  lemma MatchingIdsSpec(rows: Rows, sel: Option<Cond>)
    ensures var r := MatchingIds(rows, sel);
      Increasing(r) && (forall x :: x in r <==> Hit(rows, sel, x)) &&
      (r == [] <==> forall x :: !Hit(rows, sel, x))
  {
    AscendingSpec(rows.Keys);
    MatchingSpec(Ascending(rows.Keys), rows, sel);
    var r := MatchingIds(rows, sel);
    if r != [] {
      assert r[0] in r;
    }
  }

  function Reverse(s: seq<int>): seq<int> {
    if s == [] then [] else Reverse(s[1..]) + [s[0]]
  }

  /** `Reverse` lists the same elements back to front. */
  lemma {:induction false} ReverseSpec(s: seq<int>)
    ensures |Reverse(s)| == |s| && forall i :: 0 <= i < |s| ==> Reverse(s)[i] == s[|s| - 1 - i]
  {
    if s != [] {
      ReverseSpec(s[1..]);
    }
  }

  /** The first `limit` elements, or all of them without a limit. */
  function Take(s: seq<int>, limit: Option<nat>): seq<int> {
    if limit.Some? && limit.value < |s| then s[..limit.value] else s
  }

  /** The identities a selection picks from a table's rows, in the asked
      order, up to the limit, with no soft-delete condition. */
  function SelectIds(rows: Rows, sel: Option<Cond>, order: Ordering, limit: Option<nat>): seq<int> {
    var ids := MatchingIds(rows, sel);
    Take(if order == IdDescending then Reverse(ids) else ids, limit)
  }

  /** All identities listed match. */
  predicate AllHit(rows: Rows, sel: Option<Cond>, ids: seq<int>) {
    forall i :: 0 <= i < |ids| ==> Hit(rows, sel, ids[i])
  }

  lemma MatchingIdsHit(rows: Rows, sel: Option<Cond>)
    ensures AllHit(rows, sel, MatchingIds(rows, sel))
  {
    MatchingIdsSpec(rows, sel);
    var ids := MatchingIds(rows, sel);
    forall i | 0 <= i < |ids| ensures Hit(rows, sel, ids[i]) { assert ids[i] in ids; }
  }

  /** Reversing and truncating keep every listed identity matching. */
  lemma AllHitKept(rows: Rows, sel: Option<Cond>, ids: seq<int>, limit: Option<nat>)
    requires AllHit(rows, sel, ids)
    ensures AllHit(rows, sel, Reverse(ids)) && AllHit(rows, sel, Take(ids, limit))
  {
    ReverseSpec(ids);
  }

  /** Every identity a selection picks has a row that matches. */
  lemma SelectIdsIn(rows: Rows, sel: Option<Cond>, order: Ordering, limit: Option<nat>)
    ensures AllHit(rows, sel, SelectIds(rows, sel, order, limit))
  {
    var ids := MatchingIds(rows, sel);
    MatchingIdsHit(rows, sel);
    AllHitKept(rows, sel, ids, limit);
    AllHitKept(rows, sel, Reverse(ids), limit);
  }

  /** Without a limit and in ascending order, a selection picks exactly
      the matching rows, in order. */
  lemma SelectIdsAll(rows: Rows, sel: Option<Cond>, order: Ordering)
    requires order != IdDescending
    ensures var r := SelectIds(rows, sel, order, None);
      Increasing(r) && forall x :: x in r <==> Hit(rows, sel, x)
  {
    MatchingIdsSpec(rows, sel);
  }

  /** The first element of an increasing list is its least. */
  lemma IncreasingFirst(s: seq<int>)
    requires Increasing(s) && s != []
    ensures forall x :: x in s ==> s[0] <= x
  {
    forall x | x in s ensures s[0] <= x {
      var i :| 0 <= i < |s| && s[i] == x;
      if i > 0 { assert s[0] < s[i]; }
    }
  }

  /** The last element of an increasing list is its greatest. */
  lemma IncreasingLast(s: seq<int>)
    requires Increasing(s) && s != []
    ensures forall x :: x in s ==> x <= s[|s| - 1]
  {
    forall x | x in s ensures x <= s[|s| - 1] {
      var i :| 0 <= i < |s| && s[i] == x;
      if i < |s| - 1 { assert s[i] < s[|s| - 1]; }
    }
  }

  /** Ascending with limit 1 picks the least matching row, or nothing when
      no row matches. */
  lemma FirstMatching(rows: Rows, sel: Option<Cond>)
    ensures var ids := SelectIds(rows, sel, IdAscending, Some(1));
      (ids == [] <==> forall x :: !Hit(rows, sel, x)) &&
      (ids != [] ==> |ids| == 1 && Hit(rows, sel, ids[0]) &&
                     forall x :: Hit(rows, sel, x) ==> ids[0] <= x)
  {
    var all := MatchingIds(rows, sel);
    MatchingIdsSpec(rows, sel);
    if all != [] {
      assert SelectIds(rows, sel, IdAscending, Some(1)) == [all[0]];
      assert all[0] in all;
      IncreasingFirst(all);
    }
  }

  /** Descending with limit 1 picks the greatest matching row, or nothing
      when no row matches. */
  lemma LastMatching(rows: Rows, sel: Option<Cond>)
    ensures var ids := SelectIds(rows, sel, IdDescending, Some(1));
      (ids == [] <==> forall x :: !Hit(rows, sel, x)) &&
      (ids != [] ==> |ids| == 1 && Hit(rows, sel, ids[0]) &&
                     forall x :: Hit(rows, sel, x) ==> x <= ids[0])
  {
    var all := MatchingIds(rows, sel);
    MatchingIdsSpec(rows, sel);
    ReverseSpec(all);
    if all != [] {
      var last := all[|all| - 1];
      assert SelectIds(rows, sel, IdDescending, Some(1)) == [last];
      assert last in all;
      IncreasingLast(all);
    }
  }

  /** Every row is of the kind its table's schema gives its columns. */
  predicate TableFits(t: TableDef, rows: Rows) {
    forall id :: id in rows ==> RowFits(t.fields, rows[id]) && AuditFits(rows[id])
  }

  /** Every registered table's rows fit the table. */
  predicate StoreFits(tables: Tables, store: Store) {
    forall name :: name in tables ==> TableFits(tables[name], RowsOf(store, name))
  }

  /** The visible rows of a table that a selection selects. */
  predicate Selected(t: TableDef, rows: Rows, sel: Option<Cond>, id: int) {
    id in rows && Matches(sel, id, rows[id]) && Visible(t, rows[id])
  }

  /** A row matches `selectQuery`'s selection exactly when it is a selected
      visible row. */
  lemma SelectedMeaning(t: TableDef, rows: Rows, sel: Option<Cond>)
    ensures forall id :: Hit(rows, SelectSelection(t, sel), id) <==> Selected(t, rows, sel, id)
  {
    forall id ensures Hit(rows, SelectSelection(t, sel), id) <==> Selected(t, rows, sel, id) {
      if id in rows {
        SelectSelectionMeaning(t, sel, id, rows[id]);
      }
    }
  }

  /** `selectQuery` with `_id ASC` and limit 1 picks the least selected
      visible row, or nothing when there is none. */
  lemma PickedFirst(t: TableDef, rows: Rows, sel: Option<Cond>)
    ensures var ids := SelectIds(rows, SelectSelection(t, sel), IdAscending, Some(1));
      (ids == [] <==> forall id :: !Selected(t, rows, sel, id)) &&
      (ids != [] ==> |ids| == 1 && Selected(t, rows, sel, ids[0]) &&
                     forall id :: Selected(t, rows, sel, id) ==> ids[0] <= id)
  {
    FirstMatching(rows, SelectSelection(t, sel));
    SelectedMeaning(t, rows, sel);
  }

  /** `selectQuery` with `_id DESC` and limit 1 picks the greatest selected
      visible row, or nothing when there is none. */
  lemma PickedLast(t: TableDef, rows: Rows, sel: Option<Cond>)
    ensures var ids := SelectIds(rows, SelectSelection(t, sel), IdDescending, Some(1));
      (ids == [] <==> forall id :: !Selected(t, rows, sel, id)) &&
      (ids != [] ==> |ids| == 1 && Selected(t, rows, sel, ids[0]) &&
                     forall id :: Selected(t, rows, sel, id) ==> id <= ids[0])
  {
    LastMatching(rows, SelectSelection(t, sel));
    SelectedMeaning(t, rows, sel);
  }

  /** The condition `parentColumn=?` bound to `v`. */
  function ParentColumnIs(column: string, v: int): Cond {
    Criteria(column + "=?", (id: int, row: Row) => ColumnValue(id, row, column) == SqlInteger(v))
  }

  /** The parent lookup of `fetchRow`: `findFirstWithCriteria` on the parent
      table with `parentColumn=?`, answered by the parent's `_id`. A parent
      table that is not registered is never looked up: reading such a row
      fails first (`ParentMissing`). */
  function ParentId(tables: Tables, store: Store, fk: ForeignKey, v: int): Option<int> {
    if fk.parentTable !in tables then None
    else
      var ids := SelectIds(RowsOf(store, fk.parentTable),
                           SelectSelection(tables[fk.parentTable], Some(ParentColumnIs(fk.parentColumn, v))),
                           IdAscending, Some(1));
      if ids == [] then None else Some(ids[0])
  }

  /** The parent lookup finders use on a store. */
  function ParentOf(tables: Tables, store: Store): ParentLookup {
    (fk, v) => ParentId(tables, store, fk, v)
  }

  /** The row with identity `id` is a visible parent row holding `v` in
      the parent column. */
  predicate ParentHolds(p: TableDef, rows: Rows, column: string, v: int, id: int) {
    id in rows && Visible(p, rows[id]) && ColumnValue(id, rows[id], column) == SqlInteger(v)
  }

  /** The parent found is the least visible parent row holding `v` in the
      parent column; there is none exactly when no visible parent row holds it. */
  lemma ParentIdIsFirst(tables: Tables, store: Store, fk: ForeignKey, v: int)
    requires fk.parentTable in tables
    ensures var p, rows, r := tables[fk.parentTable], RowsOf(store, fk.parentTable), ParentId(tables, store, fk, v);
      (r.None? <==> forall id :: !ParentHolds(p, rows, fk.parentColumn, v, id)) &&
      (r.Some? ==> ParentHolds(p, rows, fk.parentColumn, v, r.value) &&
                   forall id :: ParentHolds(p, rows, fk.parentColumn, v, id) ==> r.value <= id)
  {
    var p, rows := tables[fk.parentTable], RowsOf(store, fk.parentTable);
    var sel := Some(ParentColumnIs(fk.parentColumn, v));
    PickedFirst(p, rows, sel);
    assert !IsEmpty(sel) by { assert |sel.value.Render()| >= 2; }
    assert forall id :: Selected(p, rows, sel, id) <==> ParentHolds(p, rows, fk.parentColumn, v, id);
  }

  /** Reading the cell `c` of field `f` looks up a parent in a table that
      is not registered: `c` is a non-null value of a `long` column that is
      the child column of a foreign key (the first one naming it), and the
      parent table has no `Table`. The nested `selectQuery` then
      dereferences the missing `Table`, and the exception reaches the
      caller of the finder. */
  predicate ParentMissing(tables: Tables, fks: seq<ForeignKey>, f: Field, c: Cell) {
    f.storage == INTEGER && f.trueType == LongType && !c.SqlNull? &&
    FirstForeignKey(fks, f.name).Some? && FirstForeignKey(fks, f.name).value.parentTable !in tables
  }

  /** A row of `t` reads without an exception. */
  predicate RowReadable(tables: Tables, t: TableDef, row: Row) {
    forall i :: 0 <= i < |t.fields| ==> !ParentMissing(tables, t.foreignKeys, t.fields[i], CellOf(row, t.fields[i].name))
  }

  /** Every foreign key of `t` names a registered parent table. */
  predicate ParentsKnown(tables: Tables, t: TableDef) {
    forall k :: 0 <= k < |t.foreignKeys| ==> t.foreignKeys[k].parentTable in tables
  }

  /** When every parent table of `t` is registered, every row of `t` reads. */
  lemma KnownParentsReadable(tables: Tables, t: TableDef, row: Row)
    requires ParentsKnown(tables, t)
    ensures RowReadable(tables, t, row)
  {
    forall i | 0 <= i < |t.fields|
      ensures !ParentMissing(tables, t.foreignKeys, t.fields[i], CellOf(row, t.fields[i].name))
    {
      var r := FirstForeignKey(t.foreignKeys, t.fields[i].name);
      if r.Some? {
        var k :| 0 <= k < |t.foreignKeys| && t.foreignKeys[k] == r.value;
      }
    }
  }

  /** A record as a finder returns it: its `_id`, its value list and its
      audit timestamps. */
  datatype Fetched = Fetched(id: int, data: seq<Value>, log: RecordLog)

  /** The identities of a result list, in order. */
  function IdsOf(rs: seq<Fetched>): seq<int> {
    seq(|rs|, i requires 0 <= i < |rs| => rs[i].id)
  }

  /** Reads the row `row`, answered with identity `id`, into a fresh record
      of `t`: `fetchRow`, the `_id` column and `fetchRecordLog`, as every
      finder and `rawSelectQuery` do for each row of the cursor. */
  function ReadRecord(tables: Tables, store: Store, t: TableDef, id: int, row: Row): (r: Fetched)
    requires RowFits(t.fields, row) && AuditFits(row)
    ensures r.id == id && |r.data| <= |t.fields|
    ensures AllHandled(t.fields) ==> |r.data| == |t.fields| && forall i :: 0 <= i < |t.fields| ==>
      r.data[i] == DecodeField(t.fields[i], CellOf(row, t.fields[i].name), t.foreignKeys, ParentOf(tables, store)).value
    ensures !t.recordLog ==> r.log == RecordLog(None, None)
    ensures t.recordLog && CellOf(row, CREATED_AT).SqlInteger? ==> r.log.createdAt == Some(CellOf(row, CREATED_AT).n)
    ensures t.recordLog && CellOf(row, UPDATED_AT).SqlInteger? ==> r.log.updatedAt == Some(CellOf(row, UPDATED_AT).n)
    ensures CellOf(row, CREATED_AT).SqlNull? ==> r.log.createdAt == None
    ensures CellOf(row, UPDATED_AT).SqlNull? ==> r.log.updatedAt == None
  {
    var r := Fetched(id, Fetch(t.fields, t.foreignKeys, row, ParentOf(tables, store)),
                     FetchRecordLog(t, row, RecordLog(None, None)));
    if AllHandled(t.fields) then FetchAt(t.fields, t.foreignKeys, row, ParentOf(tables, store)); r else r
  }

  /** Reads the stored row with identity `id` of table `name`. */
  function FetchRecord(tables: Tables, store: Store, name: string, id: int): (r: Fetched)
    requires name in tables && StoreFits(tables, store) && id in RowsOf(store, name)
    ensures var t, row := tables[name], RowsOf(store, name)[id];
      r.id == id && |r.data| <= |t.fields| &&
      (AllHandled(t.fields) ==> |r.data| == |t.fields| && forall i :: 0 <= i < |t.fields| ==>
         r.data[i] == DecodeField(t.fields[i], CellOf(row, t.fields[i].name), t.foreignKeys, ParentOf(tables, store)).value) &&
      (!t.recordLog ==> r.log == RecordLog(None, None))
  {
    ReadRecord(tables, store, tables[name], id, RowsOf(store, name)[id])
  }

  /** Reads the listed rows of a table, in order. */
  function FetchAll(tables: Tables, store: Store, name: string, ids: seq<int>): (r: seq<Fetched>)
    requires name in tables && StoreFits(tables, store)
    requires forall i :: 0 <= i < |ids| ==> ids[i] in RowsOf(store, name)
    ensures |r| == |ids| && forall i :: 0 <= i < |ids| ==> r[i] == FetchRecord(tables, store, name, ids[i])
  {
    if ids == [] then [] else [FetchRecord(tables, store, name, ids[0])] + FetchAll(tables, store, name, ids[1..])
  }

  /** Reading rows in turn keeps their identities in turn. */
  lemma FetchAllIds(tables: Tables, store: Store, name: string, ids: seq<int>)
    requires name in tables && StoreFits(tables, store)
    requires forall i :: 0 <= i < |ids| ==> ids[i] in RowsOf(store, name)
    ensures IdsOf(FetchAll(tables, store, name, ids)) == ids
  {
    var r := FetchAll(tables, store, name, ids);
    assert forall i :: 0 <= i < |ids| ==> IdsOf(r)[i] == r[i].id == ids[i];
  }

  /** The cursor loop of `selectQuery` over the listed rows: their records,
      in order, unless one of them does not read. */
  function ReadAll(tables: Tables, store: Store, name: string, ids: seq<int>): Result<seq<Fetched>, Failure>
    requires name in tables && StoreFits(tables, store)
    requires forall i :: 0 <= i < |ids| ==> ids[i] in RowsOf(store, name)
  {
    if (forall i :: 0 <= i < |ids| ==> RowReadable(tables, tables[name], RowsOf(store, name)[ids[i]]))
    then Ok(FetchAll(tables, store, name, ids))
    else Err(UnknownParent)
  }

  /** Reads the rows a selection matches, in row order. */
  function ReadMatching(tables: Tables, store: Store, name: string, sel: Option<Cond>): Result<seq<Fetched>, Failure>
    requires name in tables && StoreFits(tables, store)
  {
    MatchingIdsHit(RowsOf(store, name), sel);
    ReadAll(tables, store, name, MatchingIds(RowsOf(store, name), sel))
  }

  /** Reading listed rows fails exactly when one of them does not read. */
  lemma ReadAllFails(tables: Tables, store: Store, name: string, ids: seq<int>)
    requires name in tables && StoreFits(tables, store)
    requires forall i :: 0 <= i < |ids| ==> ids[i] in RowsOf(store, name)
    ensures var r := ReadAll(tables, store, name, ids);
      (r.Err? <==> exists i :: 0 <= i < |ids| && !RowReadable(tables, tables[name], RowsOf(store, name)[ids[i]])) &&
      (r.Err? ==> r.error == UnknownParent)
  {
  }

  /** Reading the rows a selection matches fails exactly when one of them
      does not read. */
  lemma ReadMatchingFails(tables: Tables, store: Store, name: string, sel: Option<Cond>)
    requires name in tables && StoreFits(tables, store)
    ensures var t, rows, r := tables[name], RowsOf(store, name), ReadMatching(tables, store, name, sel);
      (r.Err? <==> exists id :: Hit(rows, sel, id) && !RowReadable(tables, t, rows[id])) &&
      (r.Err? ==> r.error == UnknownParent)
  {
    var t, rows := tables[name], RowsOf(store, name);
    var ids := MatchingIds(rows, sel);
    MatchingIdsSpec(rows, sel);
    MatchingIdsHit(rows, sel);
    ReadAllFails(tables, store, name, ids);
    assert ReadMatching(tables, store, name, sel) == ReadAll(tables, store, name, ids);
    if exists id :: Hit(rows, sel, id) && !RowReadable(tables, t, rows[id]) {
      var id :| Hit(rows, sel, id) && !RowReadable(tables, t, rows[id]);
      assert id in ids;
      var i :| 0 <= i < |ids| && ids[i] == id;
    }
    if exists i :: 0 <= i < |ids| && !RowReadable(tables, t, rows[ids[i]]) {
      var i :| 0 <= i < |ids| && !RowReadable(tables, t, rows[ids[i]]);
      assert ids[i] in ids;
    }
  }

  /** Reading the rows a selection matches answers, when it does not fail,
      one record per matching row, read from it, in ascending `_id`. */
  lemma ReadMatchingAnswers(tables: Tables, store: Store, name: string, sel: Option<Cond>)
    requires name in tables && StoreFits(tables, store)
    ensures var rows, r := RowsOf(store, name), ReadMatching(tables, store, name, sel);
      r.Ok? ==> Increasing(IdsOf(r.value)) && (forall id :: id in IdsOf(r.value) <==> Hit(rows, sel, id)) &&
                forall i :: 0 <= i < |r.value| ==> r.value[i].id in rows && r.value[i] == FetchRecord(tables, store, name, r.value[i].id)
  {
    var rows := RowsOf(store, name);
    var ids := MatchingIds(rows, sel);
    MatchingIdsSpec(rows, sel);
    MatchingIdsHit(rows, sel);
    FetchAllIds(tables, store, name, ids);
  }

  /** Reading the rows a selection matches fails exactly when one of them
      does not read; otherwise it answers one record per matching row, read
      from it, in ascending `_id`. */
  lemma ReadMatchingSpec(tables: Tables, store: Store, name: string, sel: Option<Cond>)
    requires name in tables && StoreFits(tables, store)
    ensures var t, rows, r := tables[name], RowsOf(store, name), ReadMatching(tables, store, name, sel);
      (r.Err? <==> exists id :: Hit(rows, sel, id) && !RowReadable(tables, t, rows[id])) &&
      (r.Err? ==> r.error == UnknownParent) &&
      (r.Ok? ==> Increasing(IdsOf(r.value)) && (forall id :: id in IdsOf(r.value) <==> Hit(rows, sel, id)) &&
                 forall i :: 0 <= i < |r.value| ==> r.value[i].id in rows && r.value[i] == FetchRecord(tables, store, name, r.value[i].id))
  {
    ReadMatchingFails(tables, store, name, sel);
    ReadMatchingAnswers(tables, store, name, sel);
  }

  /** `selectQuery` with an `_id` ordering (or none) and an optional limit. */
  function SelectQuery(tables: Tables, store: Store, name: string, sel: Option<Cond>,
                       order: Ordering, limit: Option<nat>): (r: Result<seq<Fetched>, Failure>)
    requires name in tables && StoreFits(tables, store)
    ensures var ids := SelectIds(RowsOf(store, name), SelectSelection(tables[name], sel), order, limit);
      (r.Err? <==> exists i :: 0 <= i < |ids| && ids[i] in RowsOf(store, name) &&
                               !RowReadable(tables, tables[name], RowsOf(store, name)[ids[i]])) &&
      (r.Err? ==> r.error == UnknownParent) &&
      (r.Ok? ==> IdsOf(r.value) == ids) &&
      (r.Ok? ==> forall i :: 0 <= i < |ids| ==>
                   ids[i] in RowsOf(store, name) && r.value[i] == FetchRecord(tables, store, name, ids[i]))
  {
    var rows := RowsOf(store, name);
    var ids := SelectIds(rows, SelectSelection(tables[name], sel), order, limit);
    SelectIdsIn(rows, SelectSelection(tables[name], sel), order, limit);
    FetchAllIds(tables, store, name, ids);
    ReadAll(tables, store, name, ids)
  }

  /** `findAll`: every visible row, in row order. */
  function FindAll(tables: Tables, store: Store, name: string): Result<seq<Fetched>, Failure>
    requires name in tables && StoreFits(tables, store)
  {
    ReadMatching(tables, store, name, FindAllWhere(tables[name]))
  }

  /** `findAll` fails exactly when a visible row does not read; otherwise
      it returns one record per visible row, each read from its row, in
      ascending `_id` order. */
  lemma FindAllVisible(tables: Tables, store: Store, name: string)
    requires name in tables && StoreFits(tables, store)
    ensures var t, rows, r := tables[name], RowsOf(store, name), FindAll(tables, store, name);
      (r.Err? <==> exists id :: id in rows && Visible(t, rows[id]) && !RowReadable(tables, t, rows[id])) &&
      (r.Err? ==> r.error == UnknownParent) &&
      (r.Ok? ==> Increasing(IdsOf(r.value)) &&
                 (forall id :: id in IdsOf(r.value) <==> id in rows && Visible(t, rows[id])) &&
                 forall i :: 0 <= i < |r.value| ==> r.value[i].id in rows && r.value[i] == FetchRecord(tables, store, name, r.value[i].id))
  {
    ReadMatchingSpec(tables, store, name, FindAllWhere(tables[name]));
  }

  /** `findAllWithCriteria`: the visible rows the criteria select, in row
      order; empty criteria make the statement `... WHERE ()`, which is not
      valid SQL, and the finder answers `null`. */
  function FindAllWithCriteria(tables: Tables, store: Store, name: string, criteria: Option<Cond>): (r: Result<seq<Fetched>, Failure>)
    requires name in tables && StoreFits(tables, store)
    ensures r == Err(SqlError) <==> criteria.Some? && criteria.value.Render() == ""
    ensures r.Err? ==> r.error == SqlError || r.error == UnknownParent
  {
    if criteria.Some? && criteria.value.Render() == "" then Err(SqlError)
    else ReadMatching(tables, store, name, Some(CriteriaWhere(tables[name], criteria)))
  }

  /** A row the criteria select that `findAllWithCriteria` returns: it
      exists, satisfies the criteria and is visible. */
  predicate CriteriaSelect(t: TableDef, rows: Rows, criteria: Option<Cond>, id: int) {
    id in rows && criteria.Some? && criteria.value.Holds(id, rows[id]) && Visible(t, rows[id])
  }

  /** For a valid statement, `findAllWithCriteria` fails exactly when a row
      it selects does not read; otherwise it returns one record per visible
      row the criteria select, in ascending `_id` order. */
  lemma FindAllWithCriteriaMeaning(tables: Tables, store: Store, name: string, criteria: Option<Cond>)
    requires name in tables && StoreFits(tables, store)
    requires !(criteria.Some? && criteria.value.Render() == "")
    ensures var t, rows, r := tables[name], RowsOf(store, name), FindAllWithCriteria(tables, store, name, criteria);
      (r.Err? <==> exists id :: CriteriaSelect(t, rows, criteria, id) && !RowReadable(tables, t, rows[id])) &&
      (r.Err? ==> r.error == UnknownParent) &&
      (r.Ok? ==> Increasing(IdsOf(r.value)) &&
                 (forall id :: id in IdsOf(r.value) <==> CriteriaSelect(t, rows, criteria, id)) &&
                 forall i :: 0 <= i < |r.value| ==> r.value[i].id in rows && r.value[i] == FetchRecord(tables, store, name, r.value[i].id))
  {
    var t, rows := tables[name], RowsOf(store, name);
    var sel := Some(CriteriaWhere(t, criteria));
    ReadMatchingSpec(tables, store, name, sel);
    assert forall id :: Hit(rows, sel, id) <==> CriteriaSelect(t, rows, criteria, id);
  }

  /** A null criteria string selects nothing. */
  lemma NullCriteriaSelectsNothing(tables: Tables, store: Store, name: string)
    requires name in tables && StoreFits(tables, store)
    ensures FindAllWithCriteria(tables, store, name, None) == Ok([])
  {
    var rows := RowsOf(store, name);
    var sel := Some(CriteriaWhere(tables[name], None));
    MatchingIdsSpec(rows, sel);
  }

  /** `findById` as written: the cursor is read even when it holds no row,
      which fails. */
  function FindById(tables: Tables, store: Store, name: string, id: int): (r: Result<Fetched, Failure>)
    requires name in tables && StoreFits(tables, store)
    ensures var t, rows := tables[name], RowsOf(store, name);
      (r == Err(EmptyCursor) <==> !(id in rows && Visible(t, rows[id]))) &&
      (r == Err(UnknownParent) <==> id in rows && Visible(t, rows[id]) && !RowReadable(tables, t, rows[id])) &&
      (r.Ok? <==> id in rows && Visible(t, rows[id]) && RowReadable(tables, t, rows[id])) &&
      (r.Ok? ==> r.value == FetchRecord(tables, store, name, id))
  {
    var t, rows := tables[name], RowsOf(store, name);
    if !(id in rows && FindByIdWhere(t, id).Holds(id, rows[id])) then Err(EmptyCursor)
    else if !RowReadable(tables, t, rows[id]) then Err(UnknownParent)
    else Ok(FetchRecord(tables, store, name, id))
  }

  /** `findById` as evidently intended: `null` for a missing or deleted row. */
  function FindByIdOrNull(tables: Tables, store: Store, name: string, id: int): (r: Result<Option<Fetched>, Failure>)
    requires name in tables && StoreFits(tables, store)
    ensures var t, rows := tables[name], RowsOf(store, name);
      (r == Ok(None) <==> !(id in rows && Visible(t, rows[id]))) &&
      (r == Err(UnknownParent) <==> id in rows && Visible(t, rows[id]) && !RowReadable(tables, t, rows[id])) &&
      (r.Ok? && r.value.Some? <==> id in rows && Visible(t, rows[id]) && RowReadable(tables, t, rows[id])) &&
      (r.Ok? && r.value.Some? ==> r.value.value == FetchRecord(tables, store, name, id))
  {
    var t, rows := tables[name], RowsOf(store, name);
    if !(id in rows && FindByIdWhere(t, id).Holds(id, rows[id])) then Ok(None)
    else if !RowReadable(tables, t, rows[id]) then Err(UnknownParent)
    else Ok(Some(FetchRecord(tables, store, name, id)))
  }

  /** Looking up an identity that has no row fails instead of answering
      `null`. */
  lemma FindByIdMissingFails(tables: Tables, name: string)
    requires name in tables
    ensures StoreFits(tables, map[])
    ensures FindById(tables, map[], name, 1) == Err(EmptyCursor)
    ensures FindByIdOrNull(tables, map[], name, 1) == Ok(None)
  {
    assert StoreFits(tables, map[]);
  }

  /** The first element of a result list, or `null` for an empty one. */
  function PickFirst(rs: seq<Fetched>): (r: Option<Fetched>)
    ensures r.None? <==> rs == []
    ensures r.Some? ==> r.value == rs[0]
  {
    if |rs| > 0 then Some(rs[0]) else None
  }

  /** The last element of a result list, or `null` for an empty one. */
  function PickLast(rs: seq<Fetched>): (r: Option<Fetched>)
    ensures r.None? <==> rs == []
    ensures r.Some? ==> r.value == rs[|rs| - 1]
  {
    if |rs| > 0 then Some(rs[|rs| - 1]) else None
  }

  /** `findFirstWithCriteria`: `_id ASC`, limit 1, first of the list. */
  function FindFirstWithCriteria(tables: Tables, store: Store, name: string, sel: Option<Cond>): Result<Option<Fetched>, Failure>
    requires name in tables && StoreFits(tables, store)
  {
    match SelectQuery(tables, store, name, sel, IdAscending, Some(1))
    case Ok(rs) => Ok(PickFirst(rs))
    case Err(e) => Err(e)
  }

  /** `findLastWithCriteria`: `_id DESC`, limit 1, last of the list. */
  function FindLastWithCriteria(tables: Tables, store: Store, name: string, sel: Option<Cond>): Result<Option<Fetched>, Failure>
    requires name in tables && StoreFits(tables, store)
  {
    match SelectQuery(tables, store, name, sel, IdDescending, Some(1))
    case Ok(rs) => Ok(PickLast(rs))
    case Err(e) => Err(e)
  }

  /** `findFirst`. */
  function FindFirst(tables: Tables, store: Store, name: string): (r: Result<Option<Fetched>, Failure>)
    requires name in tables && StoreFits(tables, store)
    ensures var t, rows := tables[name], RowsOf(store, name);
      (r == Ok(None) <==> forall id :: !(id in rows && Visible(t, rows[id]))) &&
      (r.Ok? && r.value.Some? ==> var v := r.value.value;
         v.id in rows && Visible(t, rows[v.id]) && forall id :: id in rows && Visible(t, rows[id]) ==> v.id <= id)
  {
    FindFirstIsLeast(tables, store, name, None);
    assert forall id :: Selected(tables[name], RowsOf(store, name), None, id) <==>
      id in RowsOf(store, name) && Visible(tables[name], RowsOf(store, name)[id]);
    FindFirstWithCriteria(tables, store, name, None)
  }

  /** `findLast`. */
  function FindLast(tables: Tables, store: Store, name: string): (r: Result<Option<Fetched>, Failure>)
    requires name in tables && StoreFits(tables, store)
    ensures var t, rows := tables[name], RowsOf(store, name);
      (r == Ok(None) <==> forall id :: !(id in rows && Visible(t, rows[id]))) &&
      (r.Ok? && r.value.Some? ==> var v := r.value.value;
         v.id in rows && Visible(t, rows[v.id]) && forall id :: id in rows && Visible(t, rows[id]) ==> id <= v.id)
  {
    FindLastIsGreatest(tables, store, name, None);
    assert forall id :: Selected(tables[name], RowsOf(store, name), None, id) <==>
      id in RowsOf(store, name) && Visible(tables[name], RowsOf(store, name)[id]);
    FindLastWithCriteria(tables, store, name, None)
  }

  /** `id` is the least selected visible row. */
  ghost predicate LeastSelected(t: TableDef, rows: Rows, sel: Option<Cond>, id: int) {
    Selected(t, rows, sel, id) && forall k :: Selected(t, rows, sel, k) ==> id <= k
  }

  /** `id` is the greatest selected visible row. */
  ghost predicate GreatestSelected(t: TableDef, rows: Rows, sel: Option<Cond>, id: int) {
    Selected(t, rows, sel, id) && forall k :: Selected(t, rows, sel, k) ==> k <= id
  }

  /** With limit 1, `selectQuery` reads at most the one row picked: it
      fails exactly when that row does not read, and otherwise answers its
      record alone. */
  lemma PickedRead(tables: Tables, store: Store, name: string, sel: Option<Cond>, order: Ordering)
    requires name in tables && StoreFits(tables, store)
    ensures var t, rows := tables[name], RowsOf(store, name);
      var ids, r := SelectIds(rows, SelectSelection(t, sel), order, Some(1)), SelectQuery(tables, store, name, sel, order, Some(1));
      |ids| <= 1 && (ids == [] ==> r == Ok([])) &&
      (ids != [] ==> ids[0] in rows &&
                     (r.Err? <==> !RowReadable(tables, t, rows[ids[0]])) &&
                     (r.Ok? ==> r.value == [FetchRecord(tables, store, name, ids[0])]))
  {
    var t, rows := tables[name], RowsOf(store, name);
    var ids := SelectIds(rows, SelectSelection(t, sel), order, Some(1));
    SelectIdsIn(rows, SelectSelection(t, sel), order, Some(1));
    assert SelectQuery(tables, store, name, sel, order, Some(1)) == ReadAll(tables, store, name, ids);
    if ids != [] {
      var x := ids[0];
      assert ids == [x];
      assert Hit(rows, SelectSelection(t, sel), x);
      assert FetchAll(tables, store, name, ids) == [FetchRecord(tables, store, name, x)];
    }
  }

  /** `findFirstWithCriteria` answers the least selected visible row, and
      `null` exactly when there is none; it fails exactly when that row
      does not read (only the one row the limit keeps is read). */
  lemma FindFirstIsLeast(tables: Tables, store: Store, name: string, sel: Option<Cond>)
    requires name in tables && StoreFits(tables, store)
    ensures var t, rows, r := tables[name], RowsOf(store, name), FindFirstWithCriteria(tables, store, name, sel);
      (r == Ok(None) <==> forall id :: !Selected(t, rows, sel, id)) &&
      (r.Err? <==> exists id :: LeastSelected(t, rows, sel, id) && !RowReadable(tables, t, rows[id])) &&
      (r.Err? ==> r.error == UnknownParent) &&
      (r.Ok? && r.value.Some? ==> var v := r.value.value;
         LeastSelected(t, rows, sel, v.id) && v == FetchRecord(tables, store, name, v.id))
  {
    var t, rows := tables[name], RowsOf(store, name);
    var ids := SelectIds(rows, SelectSelection(t, sel), IdAscending, Some(1));
    PickedFirst(t, rows, sel);
    PickedRead(tables, store, name, sel, IdAscending);
    if ids != [] {
      assert LeastSelected(t, rows, sel, ids[0]);
      forall id | LeastSelected(t, rows, sel, id) ensures id == ids[0] {
        assert id <= ids[0] && ids[0] <= id;
      }
    }
  }

  /** `findLastWithCriteria` answers the greatest selected visible row, and
      `null` exactly when there is none; it fails exactly when that row
      does not read. */
  lemma FindLastIsGreatest(tables: Tables, store: Store, name: string, sel: Option<Cond>)
    requires name in tables && StoreFits(tables, store)
    ensures var t, rows, r := tables[name], RowsOf(store, name), FindLastWithCriteria(tables, store, name, sel);
      (r == Ok(None) <==> forall id :: !Selected(t, rows, sel, id)) &&
      (r.Err? <==> exists id :: GreatestSelected(t, rows, sel, id) && !RowReadable(tables, t, rows[id])) &&
      (r.Err? ==> r.error == UnknownParent) &&
      (r.Ok? && r.value.Some? ==> var v := r.value.value;
         GreatestSelected(t, rows, sel, v.id) && v == FetchRecord(tables, store, name, v.id))
  {
    var t, rows := tables[name], RowsOf(store, name);
    var ids := SelectIds(rows, SelectSelection(t, sel), IdDescending, Some(1));
    PickedLast(t, rows, sel);
    PickedRead(tables, store, name, sel, IdDescending);
    if ids != [] {
      assert GreatestSelected(t, rows, sel, ids[0]);
      forall id | GreatestSelected(t, rows, sel, id) ensures id == ids[0] {
        assert id <= ids[0] && ids[0] <= id;
      }
    }
  }

  /** The table `rawSelectQuery` reads the result as: the word after the
      first ` from `, once `FROM` is lowered, cut at the next space. */
  function InferTable(sql: string): string {
    SubstringBetween(" from ", " ", Replace(sql, "FROM", "from") + " ")
  }

  /** A statement with neither `FROM` nor ` from ` in it is taken whole,
      with the appended space, as the table name. */
  lemma InferTableFallback(sql: string)
    requires forall j :: !OccursAt(sql, "FROM", j)
    requires forall j :: !OccursAt(sql + " ", " from ", j)
    ensures InferTable(sql) == sql + " "
  {
    ReplaceNone(sql, "FROM", "from");
    SubstringBetweenMissing(" from ", " ", sql + " ");
  }

  /** Where the pieces of `<pre> from <name> <tail>` sit. */
  lemma FromNameLayout(pre: string, name: string, tail: string)
    requires ' ' !in name && tail != [] && tail[0] == ' '
    ensures var s, p := pre + " from " + name + tail, |pre|;
      OccursAt(s, " from ", p) && s[p + 6..p + 6 + |name|] == name && OccursAt(s, " ", p + 6 + |name|) &&
      forall j :: p + 6 <= j < p + 6 + |name| ==> !OccursAt(s, " ", j)
  {
    var s, p := pre + " from " + name + tail, |pre|;
    var q, e := p + 6, p + 6 + |name|;
    assert s[p..q] == " from ";
    assert s[q..e] == name;
    assert s[e..e + 1] == [tail[0]];
    forall j | q <= j < e ensures !OccursAt(s, " ", j) {
      assert s[j] == name[j - q];
      assert s[j..j + 1][0] == s[j];
    }
  }

  /** The name after the first ` from ` of the lowered statement is cut
      out at the next space. */
  lemma FromNameCut(pre: string, name: string, rest: string)
    requires name != [] && ' ' !in name && name[0] > ' ' && name[|name| - 1] > ' '
    requires forall j :: 0 <= j < |pre| ==> !OccursAt(pre + " from " + name + " " + rest + " ", " from ", j)
    ensures SubstringBetween(" from ", " ", pre + " from " + name + " " + rest + " ") == name
  {
    var s := pre + " from " + name + " " + rest + " ";
    assert s == pre + " from " + name + (" " + rest + " ");
    FromNameLayout(pre, name, " " + rest + " ");
    SubstringBetweenFinds(" from ", " ", s, |pre|, |pre| + 6 + |name|);
    TrimOfTrimmed(name);
  }

  /** The table is found for a statement `<pre> from <name> <rest>`
      whose first ` from ` is the one before the name and which holds no
      upper-case `FROM`. */
  lemma InferTableFinds(pre: string, name: string, rest: string)
    requires name != [] && ' ' !in name && name[0] > ' ' && name[|name| - 1] > ' '
    requires forall j :: !OccursAt(pre + " from " + name + " " + rest, "FROM", j)
    requires forall j :: 0 <= j < |pre| ==> !OccursAt(pre + " from " + name + " " + rest + " ", " from ", j)
    ensures InferTable(pre + " from " + name + " " + rest) == name
  {
    ReplaceNone(pre + " from " + name + " " + rest, "FROM", "from");
    FromNameCut(pre, name, rest);
  }

  /** Lowering `FROM` in `<pre> FROM <tail>` turns the first `FROM` into
      `from` when it is the only one. */
  lemma LowerFrom(pre: string, tail: string)
    requires forall j :: 0 <= j <= |pre| ==> !OccursAt(pre + " FROM" + tail, "FROM", j)
    requires forall j :: !OccursAt(tail, "FROM", j)
    ensures Replace(pre + " FROM" + tail, "FROM", "from") == pre + " from" + tail
  {
    var lead := pre + " ";
    assert pre + " FROM" + tail == lead + "FROM" + tail;
    ReplaceFirst(lead, "FROM", "from", tail);
    ReplaceNone(tail, "FROM", "from");
    assert lead + "from" + tail == pre + " from" + tail;
  }

  /** The table is found for a statement `<pre> FROM <name> <rest>`: the
      upper-case `FROM` is lowered, and the name is found when this is the
      first `FROM`, no other follows it, and no ` from ` comes before it. */
  lemma InferTableFindsUpper(pre: string, name: string, rest: string)
    requires name != [] && ' ' !in name && name[0] > ' ' && name[|name| - 1] > ' '
    requires forall j :: 0 <= j <= |pre| ==> !OccursAt(pre + " FROM " + name + " " + rest, "FROM", j)
    requires forall j :: !OccursAt(" " + name + " " + rest, "FROM", j)
    requires forall j :: 0 <= j < |pre| ==> !OccursAt(pre + " from " + name + " " + rest + " ", " from ", j)
    ensures InferTable(pre + " FROM " + name + " " + rest) == name
  {
    var tail := " " + name + " " + rest;
    assert pre + " FROM " + name + " " + rest == pre + " FROM" + tail;
    LowerFrom(pre, tail);
    assert pre + " from" + tail == pre + " from " + name + " " + rest;
    FromNameCut(pre, name, rest);
  }

  /** `rawSelectQuery`: the rows the driver answers for the statement, each
      read as a row of the inferred table, with no soft-delete condition.
      Reading a row of a table that is not registered fails, and so does
      reading a row with a parent in a table that is not registered. */
  function RawSelectQuery(tables: Tables, store: Store, sql: string, result: seq<(int, Row)>): (r: Result<seq<Fetched>, Failure>)
    requires StoreFits(tables, store)
    requires InferTable(sql) in tables ==>
      forall i :: 0 <= i < |result| ==> RowFits(tables[InferTable(sql)].fields, result[i].1) && AuditFits(result[i].1)
    ensures r == Err(UnknownTable) <==> result != [] && InferTable(sql) !in tables
    ensures r == Err(UnknownParent) <==>
      (InferTable(sql) in tables && exists i :: 0 <= i < |result| && !RowReadable(tables, tables[InferTable(sql)], result[i].1))
    ensures r.Err? ==> r.error == UnknownTable || r.error == UnknownParent
    ensures r.Ok? ==> |r.value| == |result| && forall i :: 0 <= i < |result| ==> r.value[i].id == result[i].0
    ensures r.Ok? && InferTable(sql) in tables ==> forall i :: 0 <= i < |result| ==>
      r.value[i] == ReadRecord(tables, store, tables[InferTable(sql)], result[i].0, result[i].1)
    ensures r.Ok? && InferTable(sql) in tables ==> forall i ::
      (0 <= i < |result| && result[i].0 in RowsOf(store, InferTable(sql)) &&
       result[i].1 == RowsOf(store, InferTable(sql))[result[i].0]) ==>
      r.value[i] == FetchRecord(tables, store, InferTable(sql), result[i].0)
  {
    var name := InferTable(sql);
    if result == [] then Ok([])
    else if name !in tables then Err(UnknownTable)
    else if exists i :: 0 <= i < |result| && !RowReadable(tables, tables[name], result[i].1) then Err(UnknownParent)
    else Ok(RawFetch(tables, store, tables[name], result))
  }

  /** Reads each answered row as a row of `t`. */
  function RawFetch(tables: Tables, store: Store, t: TableDef, result: seq<(int, Row)>): (r: seq<Fetched>)
    requires forall i :: 0 <= i < |result| ==> RowFits(t.fields, result[i].1) && AuditFits(result[i].1)
    ensures |r| == |result| && forall i :: 0 <= i < |result| ==> r[i] == ReadRecord(tables, store, t, result[i].0, result[i].1)
  {
    if result == [] then []
    else [ReadRecord(tables, store, t, result[0].0, result[0].1)] + RawFetch(tables, store, t, result[1..])
  }

  /** `count`: the rows a selection selects, deleted ones included. */
  function Count(store: Store, name: string, sel: Option<Cond>): nat {
    |MatchingIds(RowsOf(store, name), sel)|
  }

  /** A strictly increasing list has as many elements as distinct values. */
  lemma IncreasingCard(s: seq<int>)
    requires Increasing(s)
    ensures |set x | x in s| == |s|
  {
    DistinctCard(s);
  }

  /** `count` is the number of rows the selection selects, whether
      soft-deleted or not. */
  lemma CountSelected(store: Store, name: string, sel: Option<Cond>)
    ensures Count(store, name, sel) == |set id | id in RowsOf(store, name) && Matches(sel, id, RowsOf(store, name)[id])|
  {
    var rows := RowsOf(store, name);
    var ids := MatchingIds(rows, sel);
    MatchingIdsSpec(rows, sel);
    IncreasingCard(ids);
    var a, b := set x | x in ids, set id | id in rows && Matches(sel, id, rows[id]);
    assert forall x :: x in a <==> Hit(rows, sel, x);
    assert forall x :: x in b <==> Hit(rows, sel, x);
    assert a == b;
  }

  /** A table whose columns can all be created: distinct field names, none
      of them an engine column. */
  predicate WellFormed(t: TableDef) {
    DistinctFieldNames(t.fields) &&
    forall i :: 0 <= i < |t.fields| ==> t.fields[i].name !in {ID, CREATED_AT, UPDATED_AT, DELETED_AT}
  }
}
