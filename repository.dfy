/**
 * The generic soft-delete repository `BaseRepository` (app/repositories/base.py).
 *
 * A table is a sequence of rows in key order. The queries carry no ORDER BY, so
 * PostgreSQL may return their rows in any order; the model fixes key order, one
 * of the orders the database may return, and pages over it. Reads are pure
 * selections over the rows; `create`, `update` and `delete` are methods of the
 * class `Table`, each proved equal to a specification function (`InsertRow`,
 * `UpdateRow`, `DeleteRow`) about which the lemmas below are stated. UNIQUE constraints are
 * enforced by the store at the write, as the database does: a write that would
 * duplicate a unique value is refused (the IntegrityError of a flush) and
 * leaves the table as it was.
 */
module Repository {
  import opened Wrappers
  import opened Records

  function Min(a: nat, b: nat): nat { if a <= b then a else b }

  /** How many of `n` rows OFFSET `skip` LIMIT `limit` keeps: none when
      `skip` passes them all, otherwise `limit` of them or what is left. */
  function PageLength(n: nat, skip: nat, limit: nat): nat {
    if skip < n then Min(limit, n - skip) else 0
  }

  /** The exceptions a service call can end with: a `ValueError` raised by the
      service itself, or the `IntegrityError` of a flush the store refused. */
  datatype ServiceError = ValueError(msg: string) | IntegrityError

  // ---------------------------------------------------------------------------
  // Selections

  /** Keys strictly increase along `s`: storage order is key order. */
  predicate IdsIncreasing(s: seq<Row>) {
    forall i, j :: 0 <= i < j < |s| ==> s[i].id < s[j].id
  }

  /** Putting at most the first row of `rows` in front of a selection from
      the rest keeps keys increasing. */
  lemma PrependIncreasing(rows: seq<Row>, head: seq<Row>, rest: seq<Row>)
    requires rows != [] && IdsIncreasing(rows)
    requires head == [] || head == [rows[0]]
    requires IdsIncreasing(rows[1..]) ==> IdsIncreasing(rest)
    requires forall x :: x in rest ==> x in rows[1..]
    ensures IdsIncreasing(head + rest)
  {
    assert IdsIncreasing(rows[1..]) by {
      forall i, j | 0 <= i < j < |rows[1..]| ensures rows[1..][i].id < rows[1..][j].id {
        assert rows[1..][i] == rows[i + 1] && rows[1..][j] == rows[j + 1];
      }
    }
    forall x | x in rest ensures rows[0].id < x.id {
      var k :| 0 <= k < |rows[1..]| && rows[1..][k] == x;
      assert x == rows[k + 1];
    }
    var s := head + rest;
    forall i, j | 0 <= i < j < |s| ensures s[i].id < s[j].id {
      if head != [] && i == 0 {
        assert s[j] == rest[j - 1];
        assert s[j] in rest;
      } else {
        assert s[i] == rest[i - |head|] && s[j] == rest[j - |head|];
      }
    }
  }

  /** The rows passing `is_active IS TRUE`, in storage order: a table whose
      keys increase keeps them increasing, so the result is the active rows
      sorted by key. */
  function ActiveRows(rows: seq<Row>): (r: seq<Row>)
    ensures |r| <= |rows|
    ensures forall x :: x in r <==> x in rows && Active(x)
    ensures IdsIncreasing(rows) ==> IdsIncreasing(r)
  {
    if rows == [] then []
    else
      assert rows == [rows[0]] + rows[1..];
      var rest := ActiveRows(rows[1..]);
      var head := if Active(rows[0]) then [rows[0]] else [];
      if IdsIncreasing(rows) then PrependIncreasing(rows, head, rest); head + rest else head + rest
  }

  /** Appending a row extends the selection by that row exactly when it is
      active: the selection is the stored sequence filtered in place. */
  lemma {:induction false} ActiveRowsAppend(rows: seq<Row>, x: Row)
    ensures ActiveRows(rows + [x]) == ActiveRows(rows) + (if Active(x) then [x] else [])
    decreases |rows|
  {
    if rows == [] {
      assert [x][1..] == [];
    } else {
      assert (rows + [x])[1..] == rows[1..] + [x];
      ActiveRowsAppend(rows[1..], x);
    }
  }

  /** The rows whose column `c` equals `v`, in storage order. */
  function Where(rows: seq<Row>, c: string, v: Value): (r: seq<Row>)
    ensures |r| <= |rows|
    ensures forall x :: x in r <==> x in rows && Column(x, c) == v
    ensures IdsIncreasing(rows) ==> IdsIncreasing(r)
  {
    if rows == [] then []
    else
      assert rows == [rows[0]] + rows[1..];
      var rest := Where(rows[1..], c, v);
      var head := if Column(rows[0], c) == v then [rows[0]] else [];
      if IdsIncreasing(rows) then PrependIncreasing(rows, head, rest); head + rest else head + rest
  }

  /** `scalar_one_or_none()`: the single result, or None for no result. The
      query raises for two or more results; callers prove that cannot happen. */
  function ScalarOneOrNone(s: seq<Row>): (r: Option<Row>)
    requires |s| <= 1
    ensures r.Some? <==> s != []
    ensures r.Some? ==> s == [r.value]
  {
    if s == [] then None else Some(s[0])
  }

  /** `get_by_id`: the row with key `id`, provided it is active. */
  function GetById(rows: seq<Row>, id: int): (r: Option<Row>)
    ensures r.Some? ==> r.value in rows && r.value.id == id && Active(r.value)
    ensures r.None? ==> forall x :: x in rows && x.id == id ==> !Active(x)
  {
    if rows == [] then None
    else if rows[0].id == id && Active(rows[0]) then Some(rows[0])
    else
      assert forall x :: x in rows ==> x == rows[0] || x in rows[1..];
      GetById(rows[1..], id)
  }

  /** OFFSET `skip` LIMIT `limit` over `s`. */
  function Page(s: seq<Row>, skip: nat, limit: nat): (r: seq<Row>)
    ensures |r| <= limit
    ensures skip >= |s| ==> r == []
    ensures |r| == PageLength(|s|, skip, limit)
    ensures forall k :: 0 <= k < |r| ==> skip + k < |s| && r[k] == s[skip + k]
  {
    if skip >= |s| then [] else s[skip .. skip + Min(limit, |s| - skip)]
  }

  /** `get_all`: the page of active rows, after skipping `skip` active ones. */
  function GetAll(rows: seq<Row>, skip: nat, limit: nat): (r: seq<Row>)
    ensures |r| <= limit
    ensures |r| == PageLength(|ActiveRows(rows)|, skip, limit)
    ensures forall x :: x in r ==> x in rows && Active(x)
    ensures forall k :: 0 <= k < |r| ==> skip + k < |ActiveRows(rows)| && r[k] == ActiveRows(rows)[skip + k]
  {
    Page(ActiveRows(rows), skip, limit)
  }

  /** `count`: `SELECT count(id) ... WHERE is_active IS TRUE`, 0 for an empty table. */
  function Count(rows: seq<Row>): (n: nat)
    ensures n == |ActiveRows(rows)|
    ensures n <= |rows|
    ensures n == 0 <==> forall x :: x in rows ==> !Active(x)
  {
    if rows == [] then 0
    else (if Active(rows[0]) then 1 else 0) + Count(rows[1..])
  }

  // ---------------------------------------------------------------------------
  // Table invariants

  /** Serial primary keys: the row at position i has key i + 1. */
  predicate Keyed(rows: seq<Row>) {
    forall i :: 0 <= i < |rows| ==> rows[i].id == i + 1
  }

  /** Serial keys increase along the table. */
  lemma KeyedIdsIncreasing(rows: seq<Row>)
    requires Keyed(rows)
    ensures IdsIncreasing(rows)
  {
  }

  /** A UNIQUE constraint on column `c` (NULLs never clash). */
  predicate UniqueOn(rows: seq<Row>, c: string) {
    forall i, j :: 0 <= i < |rows| && 0 <= j < |rows| && i != j && Column(rows[i], c) != Null ==>
      Column(rows[i], c) != Column(rows[j], c)
  }

  /** What a well-formed table of `schema` satisfies at every step. */
  ghost predicate TableInvariant(schema: Schema, rows: seq<Row>) {
    && schema.WellFormed()
    && Keyed(rows)
    && (forall i :: 0 <= i < |rows| ==> rows[i].columns.Keys == schema.columns)
    && (forall c :: c in schema.unique ==> UniqueOn(rows, c))
  }

  /** `row` would duplicate a UNIQUE value held by a row other than the one at
      position `except` (-1 for an insert). */
  predicate Collides(schema: Schema, rows: seq<Row>, row: Row, except: int) {
    exists c, j :: c in schema.unique && 0 <= j < |rows| && j != except &&
      Column(row, c) != Null && Column(rows[j], c) == Column(row, c)
  }

  // ---------------------------------------------------------------------------
  // Writes, as functions of the old rows

  /** The "skip None" patch of `update`: each column named in `patch` with a
      non-None value takes that value; every other column keeps its own. */
  function Patched(cols: Dict, patch: Dict): (r: Dict)
    requires patch.Keys <= cols.Keys
    ensures r.Keys == cols.Keys
    ensures forall c :: c in cols && (c !in patch || patch[c] == Null) ==> r[c] == cols[c]
    ensures forall c :: c in patch && patch[c] != Null ==> r[c] == patch[c]
  {
    map c | c in cols :: if c in patch && patch[c] != Null then patch[c] else cols[c]
  }

  /** `create`: the new row (or None when a UNIQUE constraint refuses it) and
      the rows afterwards. */
  function InsertRow(schema: Schema, rows: seq<Row>, data: Dict, now: nat): (Option<Row>, seq<Row>) {
    var row := NewRow(schema, |rows| + 1, now, data);
    if Collides(schema, rows, row, -1) then (None, rows) else (Some(row), rows + [row])
  }

  /** `update` of the row with key `id`. */
  function UpdateRow(schema: Schema, rows: seq<Row>, id: nat, patch: Dict, now: nat): (Option<Row>, seq<Row>)
    requires 1 <= id <= |rows|
    requires patch.Keys <= rows[id - 1].columns.Keys
  {
    var row := Refreshed(rows[id - 1], Patched(rows[id - 1].columns, patch), now);
    if Collides(schema, rows, row, id - 1) then (None, rows) else (Some(row), rows[id - 1 := row])
  }

  /** `delete` of the row with key `id`: `is_active` becomes False. */
  function DeleteRow(rows: seq<Row>, id: nat, now: nat): (Row, seq<Row>)
    requires 1 <= id <= |rows|
  {
    var row := Refreshed(rows[id - 1], rows[id - 1].columns[IsActive := Bool(false)], now);
    (row, rows[id - 1 := row])
  }

  // ---------------------------------------------------------------------------
  // Lemmas

  /** With serial keys, `get_by_id` is the row at position id - 1 when that row
      is active, and None otherwise. */
  lemma GetByIdExact(rows: seq<Row>, id: int)
    requires Keyed(rows)
    ensures GetById(rows, id) ==
      if 1 <= id <= |rows| && Active(rows[id - 1]) then Some(rows[id - 1]) else None
  {
    var r := GetById(rows, id);
    if r.Some? {
      var k :| 0 <= k < |rows| && rows[k] == r.value;
      assert rows[k].id == k + 1;
    } else if 1 <= id <= |rows| {
      assert rows[id - 1] in rows && rows[id - 1].id == id;
    }
  }

  /** Replacing one row changes the count by the change of that row's flag. */
  lemma {:induction false} CountReplace(rows: seq<Row>, i: nat, r: Row)
    requires i < |rows|
    ensures Count(rows[i := r]) ==
      Count(rows) - (if Active(rows[i]) then 1 else 0) + (if Active(r) then 1 else 0)
  {
    if i > 0 {
      CountReplace(rows[1..], i - 1, r);
      assert rows[i := r][1..] == rows[1..][i - 1 := r];
    } else {
      assert rows[i := r][1..] == rows[1..];
    }
  }

  /** Appending one row adds one to the count exactly when that row is active. */
  lemma {:induction false} CountAppend(rows: seq<Row>, r: Row)
    ensures Count(rows + [r]) == Count(rows) + (if Active(r) then 1 else 0)
  {
    if rows != [] {
      CountAppend(rows[1..], r);
      assert (rows + [r])[1..] == rows[1..] + [r];
    }
  }

  /** No row matches, so the selection is empty. */
  lemma NoneWhere(rows: seq<Row>, c: string, v: Value)
    requires forall x :: x in rows ==> Column(x, c) != v
    ensures Where(rows, c, v) == []
  {
  }

  /** The selection is empty exactly when no row matches. */
  lemma WhereEmpty(rows: seq<Row>, c: string, v: Value)
    ensures Where(rows, c, v) == [] <==> forall x :: x in rows ==> Column(x, c) != v
  {
    if Where(rows, c, v) != [] {
      assert Where(rows, c, v)[0] in Where(rows, c, v);
    }
  }

  /** Active rows with a given non-NULL value of a UNIQUE column: at most one. */
  lemma {:induction false} UniqueWhere(rows: seq<Row>, c: string, v: Value)
    requires UniqueOn(rows, c) && v != Null
    ensures |Where(rows, c, v)| <= 1
    ensures |Where(ActiveRows(rows), c, v)| <= 1
  {
    if rows != [] {
      assert UniqueOn(rows[1..], c) by {
        forall i, j | 0 <= i < |rows[1..]| && 0 <= j < |rows[1..]| && i != j && Column(rows[1..][i], c) != Null
          ensures Column(rows[1..][i], c) != Column(rows[1..][j], c)
        {
          assert rows[1..][i] == rows[i + 1] && rows[1..][j] == rows[j + 1];
        }
      }
      UniqueWhere(rows[1..], c, v);
      if Column(rows[0], c) == v {
        forall x | x in rows[1..] ensures Column(x, c) != v {
          var j :| 0 <= j < |rows[1..]| && rows[1..][j] == x;
          assert rows[j + 1] == x;
        }
        NoneWhere(rows[1..], c, v);
        var a := ActiveRows(rows[1..]);
        NoneWhere(a, c, v);
        if Active(rows[0]) {
          assert ActiveRows(rows) == [rows[0]] + a;
          assert Where(ActiveRows(rows), c, v) == [rows[0]] + Where(a, c, v);
        } else {
          assert ActiveRows(rows) == a;
        }
      } else {
        var a := ActiveRows(rows[1..]);
        UniqueWhere(rows[1..], c, v);
        if Active(rows[0]) {
          assert ActiveRows(rows) == [rows[0]] + a;
          assert Where(ActiveRows(rows), c, v) == Where(a, c, v);
        } else {
          assert ActiveRows(rows) == a;
        }
      }
    }
  }

  /** `create` adds exactly one row, built from the data (active unless the data
      says otherwise, with a fresh key), or, when a UNIQUE constraint refuses it,
      changes nothing; and it keeps the table invariant. */
  lemma InsertRowSpec(schema: Schema, rows: seq<Row>, data: Dict, now: nat)
    requires TableInvariant(schema, rows)
    ensures var (r, rows') := InsertRow(schema, rows, data, now);
      && TableInvariant(schema, rows')
      && (r.None? ==> rows' == rows)
      && (r.Some? ==>
            && rows' == rows + [r.value]
            && r.value == NewRow(schema, |rows| + 1, now, data)
            && (forall x :: x in rows ==> x.id != r.value.id)
            && (forall c :: c in data && c in schema.columns && data[c] != Null ==> Column(r.value, c) == data[c])
            && (forall c :: c in data && c in schema.columns && c !in schema.defaults ==> Column(r.value, c) == data[c])
            && ((IsActive !in data || data[IsActive] == Null) ==> Active(r.value))
            && Count(rows') == Count(rows) + (if Active(r.value) then 1 else 0))
  {
    var row := NewRow(schema, |rows| + 1, now, data);
    NewRowShape(schema, |rows| + 1, now, data);
    if !Collides(schema, rows, row, -1) {
      assert InsertRow(schema, rows, data, now) == (Some(row), rows + [row]);
      CountAppend(rows, row);
      AppendKeepsInvariant(schema, rows, row);
    }
  }

  /** Appending a row with the next key and the table's columns that collides
      with no stored row keeps the table invariant; its key is new. */
  lemma AppendKeepsInvariant(schema: Schema, rows: seq<Row>, row: Row)
    requires TableInvariant(schema, rows)
    requires row.id == |rows| + 1 && row.columns.Keys == schema.columns
    requires !Collides(schema, rows, row, -1)
    ensures TableInvariant(schema, rows + [row])
    ensures forall x :: x in rows ==> x.id != row.id
  {
    var rows' := rows + [row];
    AppendKeepsUnique(schema, rows, row);
    forall i | 0 <= i < |rows'|
      ensures rows'[i].id == i + 1 && rows'[i].columns.Keys == schema.columns
    {
      if i < |rows| {
        assert rows'[i] == rows[i];
      }
    }
    forall x | x in rows ensures x.id != row.id {
      var k :| 0 <= k < |rows| && rows[k] == x;
    }
  }

  /** On a table whose only UNIQUE column is `c`, `create` with a non-NULL
      value for `c` succeeds exactly when no stored row, active or not, holds
      that value already. */
  lemma InsertSingleUniqueIff(schema: Schema, rows: seq<Row>, data: Dict, now: nat, c: string)
    requires schema.unique == {c} && c in schema.columns
    requires c in data && data[c] != Null
    ensures InsertRow(schema, rows, data, now).0.Some? <==> Where(rows, c, data[c]) == []
  {
    var row := NewRow(schema, |rows| + 1, now, data);
    assert Column(row, c) == data[c];
    if Collides(schema, rows, row, -1) {
      var c', j :| c' in schema.unique && 0 <= j < |rows| && j != -1 &&
        Column(row, c') != Null && Column(rows[j], c') == Column(row, c');
      assert rows[j] in Where(rows, c, data[c]);
    } else {
      forall x | x in rows ensures Column(x, c) != data[c] {
        var j :| 0 <= j < |rows| && rows[j] == x;
      }
      NoneWhere(rows, c, data[c]);
    }
  }

  /** An appended row that collides with no row keeps every UNIQUE constraint. */
  lemma AppendKeepsUnique(schema: Schema, rows: seq<Row>, row: Row)
    requires forall c :: c in schema.unique ==> UniqueOn(rows, c)
    requires !Collides(schema, rows, row, -1)
    ensures forall c :: c in schema.unique ==> UniqueOn(rows + [row], c)
  {
    var rows' := rows + [row];
    forall c | c in schema.unique ensures UniqueOn(rows', c) {
      forall i, j | 0 <= i < |rows'| && 0 <= j < |rows'| && i != j && Column(rows'[i], c) != Null
        ensures Column(rows'[i], c) != Column(rows'[j], c)
      {
        if i == |rows| {
          assert !(Column(rows[j], c) == Column(row, c));
        } else if j == |rows| {
          assert !(Column(rows[i], c) == Column(row, c));
        } else {
          assert rows'[i] == rows[i] && rows'[j] == rows[j];
        }
      }
    }
  }

  /** `update` assigns exactly the non-None values of the patch to the row with
      key `id`, refreshes `updated_at` when something changed, keeps the key and
      `created_at`, leaves every other row alone; or, when a UNIQUE constraint
      refuses the result, changes nothing. It keeps the table invariant. */
  lemma UpdateRowSpec(schema: Schema, rows: seq<Row>, id: nat, patch: Dict, now: nat)
    requires TableInvariant(schema, rows)
    requires 1 <= id <= |rows| && patch.Keys <= schema.columns
    ensures var (r, rows') := UpdateRow(schema, rows, id, patch, now);
      && TableInvariant(schema, rows')
      && |rows'| == |rows|
      && (r.None? ==> rows' == rows)
      && (r.Some? ==>
            && rows'[id - 1] == r.value
            && r.value.id == id && r.value.createdAt == rows[id - 1].createdAt
            && (forall c :: c in patch && patch[c] != Null ==> Column(r.value, c) == patch[c])
            && (forall c :: c !in patch || patch[c] == Null ==> Column(r.value, c) == Column(rows[id - 1], c))
            && (forall k :: 0 <= k < |rows| && k != id - 1 ==> rows'[k] == rows[k]))
  {
    var (r, rows') := UpdateRow(schema, rows, id, patch, now);
    var row := Refreshed(rows[id - 1], Patched(rows[id - 1].columns, patch), now);
    if r.Some? {
      forall c | c in schema.unique ensures UniqueOn(rows', c) {
        forall i, j | 0 <= i < |rows'| && 0 <= j < |rows'| && i != j && Column(rows'[i], c) != Null
          ensures Column(rows'[i], c) != Column(rows'[j], c)
        {
          if i == id - 1 {
            assert !(Column(rows[j], c) == Column(row, c));
          } else if j == id - 1 {
            assert !(Column(rows[i], c) == Column(row, c));
          } else {
            assert rows'[i] == rows[i] && rows'[j] == rows[j];
          }
        }
      }
    }
  }

  /** `delete` clears `is_active` of the row with key `id` and nothing else:
      the row stays stored with the same key, `created_at` and other columns. */
  lemma DeleteRowSpec(schema: Schema, rows: seq<Row>, id: nat, now: nat)
    requires TableInvariant(schema, rows)
    requires 1 <= id <= |rows|
    ensures var (r, rows') := DeleteRow(rows, id, now);
      && TableInvariant(schema, rows')
      && |rows'| == |rows| && rows'[id - 1] == r
      && Column(r, IsActive) == Bool(false) && r.id == id && r.createdAt == rows[id - 1].createdAt
      && (forall c :: c != IsActive ==> Column(r, c) == Column(rows[id - 1], c))
      && (forall k :: 0 <= k < |rows| && k != id - 1 ==> rows'[k] == rows[k])
  {
    var (r, rows') := DeleteRow(rows, id, now);
    forall c | c in schema.unique ensures UniqueOn(rows', c) {
      forall i, j | 0 <= i < |rows'| && 0 <= j < |rows'| && i != j && Column(rows'[i], c) != Null
        ensures Column(rows'[i], c) != Column(rows'[j], c)
      {
        assert Column(rows'[i], c) == Column(rows[i], c);
        assert Column(rows'[j], c) == Column(rows[j], c);
      }
    }
  }

  /** After `delete` of an active row, `get_by_id` no longer finds it and
      `count` has dropped by exactly one. */
  lemma DeleteHidesRow(schema: Schema, rows: seq<Row>, id: nat, now: nat)
    requires TableInvariant(schema, rows)
    requires GetById(rows, id).Some?
    ensures 1 <= id <= |rows|
    ensures var rows' := DeleteRow(rows, id, now).1;
      GetById(rows', id).None? && Count(rows') == Count(rows) - 1
  {
    GetByIdExact(rows, id);
    var rows' := DeleteRow(rows, id, now).1;
    DeleteRowSpec(schema, rows, id, now);
    GetByIdExact(rows', id);
    CountReplace(rows, id - 1, rows'[id - 1]);
    assert rows' == rows[id - 1 := rows'[id - 1]];
  }

  /** `delete` is idempotent on the flag: deleting again leaves the columns as
      they were after the first delete, and no longer moves `updated_at`. */
  lemma DeleteIdempotent(rows: seq<Row>, id: nat, now: nat, later: nat)
    requires 1 <= id <= |rows|
    ensures var once := DeleteRow(rows, id, now).1;
      DeleteRow(once, id, later).1 == once
  {
    var once := DeleteRow(rows, id, now).1;
    assert once[id - 1].columns[IsActive := Bool(false)] == once[id - 1].columns;
  }

  /** `delete` is the update `{"is_active": False}` of the same row. */
  lemma DeleteIsPatch(schema: Schema, rows: seq<Row>, id: nat, now: nat)
    requires TableInvariant(schema, rows)
    requires 1 <= id <= |rows|
    ensures var (r, rows') := UpdateRow(schema, rows, id, map[IsActive := Bool(false)], now);
      r == Some(DeleteRow(rows, id, now).0) && rows' == DeleteRow(rows, id, now).1
  {
    var patch := map[IsActive := Bool(false)];
    assert Patched(rows[id - 1].columns, patch) == rows[id - 1].columns[IsActive := Bool(false)];
    var row := Refreshed(rows[id - 1], Patched(rows[id - 1].columns, patch), now);
    forall c, j | c in schema.unique && 0 <= j < |rows| && j != id - 1 && Column(row, c) != Null
      ensures Column(rows[j], c) != Column(row, c)
    {
      assert Column(row, c) == Column(rows[id - 1], c);
    }
    assert !Collides(schema, rows, row, id - 1);
  }

  /** Applying the same patch twice is the same as applying it once. */
  lemma PatchIdempotent(cols: Dict, patch: Dict)
    requires patch.Keys <= cols.Keys
    ensures Patched(Patched(cols, patch), patch) == Patched(cols, patch)
  {
  }

  // ---------------------------------------------------------------------------
  // Lookup, then write: the shape of every service's update and delete

  /** `get_by_id(id)` followed, when it finds the row, by `update(row, patch)`:
      `Success(None)` with nothing written for a missing or inactive id, and
      `IntegrityError` when a UNIQUE constraint refuses the new values. */
  function UpdateById(schema: Schema, rows: seq<Row>, id: int, patch: Dict, now: nat)
    : (Result<Option<Row>, ServiceError>, seq<Row>)
    requires TableInvariant(schema, rows) && patch.Keys <= schema.columns
  {
    GetByIdExact(rows, id);
    match GetById(rows, id)
    case None => (Success(None), rows)
    case Some(p) =>
      var (r, rows') := UpdateRow(schema, rows, p.id, patch, now);
      if r.None? then (Failure(IntegrityError), rows') else (Success(r), rows')
  }

  /** `get_by_id(id)` followed, when it finds the row, by `delete(row)`. */
  function DeleteById(rows: seq<Row>, id: int, now: nat): (Option<Row>, seq<Row>)
    requires Keyed(rows)
  {
    GetByIdExact(rows, id);
    match GetById(rows, id)
    case None => (None, rows)
    case Some(p) =>
      var (r, rows') := DeleteRow(rows, p.id, now);
      (Some(r), rows')
  }

  /** A missing or inactive id gives `Success(None)` and changes nothing; a
      refused write gives `IntegrityError` and changes nothing, and happens
      only when the patch writes a UNIQUE column; otherwise the row with key
      `id` takes exactly the patch's non-None values and the other rows stay
      as they were. The table invariant is kept. */
  lemma UpdateByIdOutcome(schema: Schema, rows: seq<Row>, id: int, patch: Dict, now: nat)
    requires TableInvariant(schema, rows) && patch.Keys <= schema.columns
    ensures var (r, rows') := UpdateById(schema, rows, id, patch, now);
      && TableInvariant(schema, rows')
      && (r == Success(None) <==> GetById(rows, id).None?)
      && (r.Success? && r.value.None? ==> rows' == rows)
      && (r.Failure? ==> r.error == IntegrityError && rows' == rows)
      && (r.Failure? ==> exists c :: c in schema.unique && c in patch && patch[c] != Null)
      && (r.Success? && r.value.Some? ==>
            var prev := rows[id - 1];
            && 1 <= id <= |rows| && GetById(rows, id) == Some(prev)
            && |rows'| == |rows| && rows'[id - 1] == r.value.value
            && r.value.value.id == id && r.value.value.createdAt == prev.createdAt
            && (forall c :: c in patch && patch[c] != Null ==> Column(r.value.value, c) == patch[c])
            && (forall c :: c !in patch || patch[c] == Null ==> Column(r.value.value, c) == Column(prev, c))
            && (forall k :: 0 <= k < |rows| && k != id - 1 ==> rows'[k] == rows[k]))
  {
    GetByIdExact(rows, id);
    if GetById(rows, id).Some? {
      var prev := rows[id - 1];
      UpdateRowSpec(schema, rows, id, patch, now);
      var row := Refreshed(prev, Patched(prev.columns, patch), now);
      if Collides(schema, rows, row, id - 1) {
        var c, j :| c in schema.unique && 0 <= j < |rows| && j != id - 1 &&
          Column(row, c) != Null && Column(rows[j], c) == Column(row, c);
        if !(c in patch && patch[c] != Null) {
          assert false;
        }
      }
    }
  }

  /** A missing or inactive id gives None and changes nothing; otherwise the
      row is returned inactive, `get_by_id` no longer finds it, the active
      count drops by one, and nothing else changes. The invariant is kept. */
  lemma DeleteByIdOutcome(schema: Schema, rows: seq<Row>, id: int, now: nat)
    requires TableInvariant(schema, rows)
    ensures var (r, rows') := DeleteById(rows, id, now);
      && TableInvariant(schema, rows')
      && (r.None? <==> GetById(rows, id).None?)
      && (r.None? ==> rows' == rows)
      && (r.Some? ==>
            && 1 <= id <= |rows| && |rows'| == |rows| && rows'[id - 1] == r.value
            && Column(r.value, IsActive) == Bool(false) && r.value.id == id
            && (forall c :: c != IsActive ==> Column(r.value, c) == Column(rows[id - 1], c))
            && (forall k :: 0 <= k < |rows| && k != id - 1 ==> rows'[k] == rows[k])
            && GetById(rows', id).None?
            && Count(rows') == Count(rows) - 1)
  {
    GetByIdExact(rows, id);
    if GetById(rows, id).Some? {
      DeleteRowSpec(schema, rows, id, now);
      DeleteHidesRow(schema, rows, id, now);
    }
  }

  // ---------------------------------------------------------------------------
  // The repository object

  /** A `BaseRepository` bound to one table: reads go through the functions
      above on `rows`; writes are these methods. */
  class Table {
    const schema: Schema
    var rows: seq<Row>

    ghost predicate Valid()
      reads this
    {
      TableInvariant(schema, rows)
    }

    constructor (schema: Schema)
      requires schema.WellFormed()
      ensures Valid() && this.schema == schema && rows == []
    {
      this.schema := schema;
      rows := [];
    }

    /** `create(obj_data)`: `Model(**obj_data)` refuses unknown keywords, so
        the data names columns only. */
    method Create(data: Dict, now: nat) returns (r: Option<Row>)
      requires Valid() && data.Keys <= schema.columns
      modifies this
      ensures Valid()
      ensures (r, rows) == InsertRow(schema, old(rows), data, now)
    {
      InsertRowSpec(schema, rows, data, now);
      var row := NewRow(schema, |rows| + 1, now, data);
      if Collides(schema, rows, row, -1) {
        r := None;
      } else {
        rows := rows + [row];
        r := Some(row);
      }
    }

    /** `update(db_obj, obj_data)` on the row with key `id`: the `setattr`
        loop over the dictionary, skipping None values, then the flush. */
    method Update(id: nat, patch: Dict, now: nat) returns (r: Option<Row>)
      requires Valid() && 1 <= id <= |rows| && patch.Keys <= schema.columns
      modifies this
      ensures Valid()
      ensures (r, rows) == UpdateRow(schema, old(rows), id, patch, now)
    {
      UpdateRowSpec(schema, rows, id, patch, now);
      var current := rows[id - 1];
      var cols := current.columns;
      var pending := patch.Keys;
      while pending != {}
        invariant pending <= patch.Keys
        invariant cols.Keys == current.columns.Keys
        invariant forall c :: c in cols ==>
          cols[c] == if c in patch && c !in pending && patch[c] != Null then patch[c] else current.columns[c]
        decreases pending
      {
        var field :| field in pending;
        if patch[field] != Null {
          cols := cols[field := patch[field]];
        }
        pending := pending - {field};
      }
      assert cols == Patched(current.columns, patch);
      var row := Refreshed(current, cols, now);
      if Collides(schema, rows, row, id - 1) {
        r := None;
      } else {
        rows := rows[id - 1 := row];
        r := Some(row);
      }
    }

    /** `delete(db_obj)` on the row with key `id`: `is_active = False`. */
    method Delete(id: nat, now: nat) returns (r: Row)
      requires Valid() && 1 <= id <= |rows|
      modifies this
      ensures Valid()
      ensures (r, rows) == DeleteRow(old(rows), id, now)
    {
      DeleteRowSpec(schema, rows, id, now);
      var current := rows[id - 1];
      r := Refreshed(current, current.columns[IsActive := Bool(false)], now);
      rows := rows[id - 1 := r];
    }
  }
}
