/**
 * The audit columns every table inherits from `BaseModel` (app/models/base.py)
 * and the dynamic attribute dictionaries the repositories pass around.
 *
 * A stored row has a store-assigned integer primary key and two store-assigned
 * timestamps; every other attribute, `is_active` included, is a mapped column.
 * The timestamps come from an abstract clock (`now: nat`) that the caller of a
 * write supplies in place of the database's `now()`.
 */
module Records {
  import opened Wrappers

  /** A column value as the ORM sees it. Python's None is `Null`; members of the
      string enums are stored as their string value; Decimal amounts are integer
      cents. */
  datatype Value = Null | Str(s: string) | Int(i: int) | Bool(b: bool)

  /** An attribute dictionary: what `model_dump` yields and what a model
      constructor or a `setattr` loop consumes. */
  type Dict = map<string, Value>

  const IsActive: string := "is_active"

  /** A field of a request schema whose default is None: either never sent, or
      sent with a value, None included. `model_dump(exclude_unset=True)` keeps
      exactly the sent fields. */
  datatype Field<+T> = Unset | Given(value: Option<T>)

  /** The dump entry of a sent string field (None when it was not sent). */
  function SentStr(f: Field<string>): Option<Value> {
    if f.Unset? then None else Some(OptStr(f.value))
  }

  /** The dump entry of a sent boolean field (None when it was not sent). */
  function SentBool(f: Field<bool>): Option<Value> {
    if f.Unset? then None else Some(if f.value.Some? then Bool(f.value.value) else Null)
  }

  /** An optional value as a column value. */
  function OptStr(o: Option<string>): Value {
    if o.Some? then Str(o.value) else Null
  }

  /** A string of at most `n` characters, or None. */
  predicate OptAtMost(o: Option<string>, n: nat) {
    o.Some? ==> |o.value| <= n
  }

  /** A sent string field of at most `n` characters (an explicit None passes). */
  predicate FieldAtMost(f: Field<string>, n: nat) {
    f.Given? && f.value.Some? ==> |f.value.value| <= n
  }

  /** The column value is NULL or a string of at most `n` characters. */
  predicate NullOrStrAtMost(v: Value, n: nat) {
    v == Null || (v.Str? && |v.s| <= n)
  }

  /** The mapped columns of one table, the Python-side column defaults, and the
      columns that carry a UNIQUE constraint. */
  datatype Schema = Schema(columns: set<string>, defaults: Dict, unique: set<string>)
  {
    /** What every table inherits from BaseModel: an `is_active` column whose
        default is True, and which is not a UNIQUE column. */
    predicate WellFormed() {
      && IsActive in columns
      && defaults.Keys <= columns
      && IsActive in defaults && defaults[IsActive] == Bool(true)
      && unique <= columns
      && IsActive !in unique
    }
  }

  /** A stored row: primary key, `created_at`, `updated_at`, and the columns. */
  datatype Row = Row(id: nat, createdAt: nat, updatedAt: nat, columns: Dict)

  /** The value of column `c` of `r` (NULL for a column the row does not map). */
  function Column(r: Row, c: string): Value {
    if c in r.columns then r.columns[c] else Null
  }

  /** The filter `is_active IS TRUE`. */
  predicate Active(r: Row) {
    Column(r, IsActive) == Bool(true)
  }

  /** The column values an INSERT writes for `Model(**data)`: a non-None value
      given in `data` wins; a column left out, or given as None (the ORM leaves
      a None attribute out of the INSERT), takes its default, otherwise NULL. */
  function InsertValues(schema: Schema, data: Dict): Dict {
    map c | c in schema.columns ::
      if c in data && data[c] != Null then data[c]
      else if c in schema.defaults then schema.defaults[c]
      else Null
  }

  /** The row the store builds for `Model(**data)` with primary key `id`;
      both timestamps take the store's clock (`server_default=func.now()`). */
  function NewRow(schema: Schema, id: nat, now: nat, data: Dict): Row {
    Row(id, now, now, InsertValues(schema, data))
  }

  /** A row after its columns were set to `cols`: `updated_at` takes the clock
      when an UPDATE is emitted, i.e. when some column really changed
      (`onupdate=func.now()`); `created_at` and the key never change. */
  function Refreshed(r: Row, cols: Dict, now: nat): Row {
    Row(r.id, r.createdAt, if cols == r.columns then r.updatedAt else now, cols)
  }

  /** A new record is active unless the data says otherwise, maps exactly the
      table's columns, holds every given non-None value (and a None where the
      column has no default), takes the default where the data is silent or
      None, and its audit fields come from the store, whatever the data holds. */
  lemma NewRowShape(schema: Schema, id: nat, now: nat, data: Dict)
    requires schema.WellFormed()
    ensures var r := NewRow(schema, id, now, data);
      && r.columns.Keys == schema.columns
      && ((IsActive !in data || data[IsActive] == Null) ==> Active(r))
      && (forall c :: c in data && c in schema.columns && data[c] != Null ==> Column(r, c) == data[c])
      && (forall c :: c in data && c in schema.columns && c !in schema.defaults ==> Column(r, c) == data[c])
      && (forall c :: c in schema.columns && (c !in data || data[c] == Null) && c in schema.defaults ==>
            Column(r, c) == schema.defaults[c])
      && (forall c :: c in schema.columns && c !in data && c !in schema.defaults ==> Column(r, c) == Null)
      && r.id == id && r.createdAt == now && r.updatedAt == now
  {
  }

  /** An update never touches `created_at` or the key, and moves `updated_at`
      to the clock exactly when the columns change. */
  lemma RefreshedAudit(r: Row, cols: Dict, now: nat)
    ensures var r' := Refreshed(r, cols, now);
      && r'.id == r.id && r'.createdAt == r.createdAt && r'.columns == cols
      && (cols != r.columns ==> r'.updatedAt == now)
      && (cols == r.columns ==> r' == r)
  {
  }
}
