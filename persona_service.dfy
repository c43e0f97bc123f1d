/**
 * `PersonaService` (app/services/persona_service.py): the party registry's
 * business rules over the `persona` and `identificacion` tables.
 *
 * Each writing operation is a method of the class `PersonaService` proved
 * equal to a specification function of the old rows (`CreatePersonaSpec`,
 * and the repository's `UpdateById` and `DeleteById`); the lemmas state what
 * the service promises about those functions.
 *
 * Divergences of the source, modelled by their evident intent:
 * - the service reads `data.identificacion`; the schema field is
 *   `identificaciones`;
 * - it imports `IdentificacionRepository`, which
 *   app/repositories/persona_repository.py does not define; the model gives
 *   the service a second `Table` over `identificacion`;
 * - `update_persona` guards on a key `numero_identificacion` that no
 *   `PersonaUpdate` dump contains (`DeadIdentificationCheck`), so that branch
 *   is never taken and is not modelled.
 */
module PersonaService {
  import opened Wrappers
  import opened Records
  import opened Repository
  import opened PersonaModel
  import opened PersonaSchemas
  import opened PersonaRepository

  const NoIdentificacion: string := "No identificacion found"
  const NumberExists: string := "Identification number already exists"

  // ---------------------------------------------------------------------------
  // Specification functions

  /** The pre-check of `create_persona`: some submitted number is already
      held by an active persona. */
  predicate AnyNumberExists(personas: seq<Row>, idents: seq<Row>, entries: seq<IdentificacionCreate>)
    requires UniqueOn(idents, Numero)
  {
    exists k :: 0 <= k < |entries| && IdentificacionExists(personas, idents, entries[k].numero)
  }

  /** The write loop of `create_persona`: one `create` per entry, in order,
      stopping at the first one the UNIQUE constraint refuses. */
  function InsertAll(idents: seq<Row>, entries: seq<IdentificacionCreate>, pid: nat, now: nat): (bool, seq<Row>)
    decreases |entries|
  {
    if entries == [] then (true, idents)
    else
      var (ok, rows) := InsertAll(idents, entries[..|entries| - 1], pid, now);
      if !ok then (false, rows)
      else
        var (r, rows') := InsertRow(IdentificacionSchema, rows, IdentificacionColumns(entries[|entries| - 1], pid), now);
        (r.Some?, rows')
  }

  /** `create_persona(data)`: the outcome, the `persona` rows and the
      `identificacion` rows afterwards. After an IntegrityError the rows hold
      what was written before the refused flush; the request's transaction
      discards them (see the persona router). */
  function CreatePersonaSpec(personas: seq<Row>, idents: seq<Row>, data: PersonaCreate, now: nat)
    : (Result<Option<Row>, ServiceError>, seq<Row>, seq<Row>)
    requires UniqueOn(idents, Numero)
  {
    if data.identificaciones == [] then (Failure(ValueError(NoIdentificacion)), personas, idents)
    else if AnyNumberExists(personas, idents, data.identificaciones) then
      (Failure(ValueError(NumberExists)), personas, idents)
    else
      var (p, personas') := InsertRow(PersonaSchema, personas, PersonaCreateColumns(data), now);
      if p.None? then (Failure(IntegrityError), personas', idents)
      else
        var (ok, idents') := InsertAll(idents, data.identificaciones, p.value.id, now);
        if !ok then (Failure(IntegrityError), personas', idents')
        else (Success(GetById(personas', p.value.id)), personas', idents')
  }

  // ---------------------------------------------------------------------------
  // Lemmas

  /** No submitted number occurs in `idents`, and no number is submitted
      twice. */
  predicate NumbersFresh(idents: seq<Row>, entries: seq<IdentificacionCreate>) {
    && (forall k :: 0 <= k < |entries| ==> Where(idents, Numero, Str(entries[k].numero)) == [])
    && (forall k, l :: 0 <= k < l < |entries| ==> entries[k].numero != entries[l].numero)
  }

  /** `rows` is `idents` followed by one new row per entry, in order. */
  predicate Appended(idents: seq<Row>, rows: seq<Row>, entries: seq<IdentificacionCreate>, pid: nat, now: nat) {
    && |rows| == |idents| + |entries|
    && rows[..|idents|] == idents
    && forall k :: 0 <= k < |entries| ==>
         rows[|idents| + k] == NewRow(IdentificacionSchema, |idents| + k + 1, now, IdentificacionColumns(entries[k], pid))
  }

  /** Once the write loop has failed, later entries change nothing. */
  lemma {:induction false} InsertAllStops(idents: seq<Row>, entries: seq<IdentificacionCreate>, m: nat, pid: nat, now: nat)
    requires m <= |entries|
    requires !InsertAll(idents, entries[..m], pid, now).0
    ensures InsertAll(idents, entries, pid, now) == InsertAll(idents, entries[..m], pid, now)
    decreases |entries| - m
  {
    if m < |entries| {
      var shorter := entries[..|entries| - 1];
      assert shorter[..m] == entries[..m];
      InsertAllStops(idents, shorter, m, pid, now);
    } else {
      assert entries[..m] == entries;
    }
  }

  /** The write loop succeeds exactly when the numbers are fresh, both against
      the stored rows (active or not) and among themselves; it then appends one
      row per entry, owned by `pid`. It keeps the table invariant. */
  lemma {:induction false} InsertAllSpec(idents: seq<Row>, entries: seq<IdentificacionCreate>, pid: nat, now: nat)
    requires TableInvariant(IdentificacionSchema, idents)
    ensures TableInvariant(IdentificacionSchema, InsertAll(idents, entries, pid, now).1)
    ensures InsertAll(idents, entries, pid, now).0 <==> NumbersFresh(idents, entries)
    ensures InsertAll(idents, entries, pid, now).0 ==> Appended(idents, InsertAll(idents, entries, pid, now).1, entries, pid, now)
    decreases |entries|
  {
    if entries != [] {
      var m := |entries| - 1;
      var front := entries[..m];
      var e := entries[m];
      assert entries == front + [e];
      InsertAllSpec(idents, front, pid, now);
      var (ok, rows) := InsertAll(idents, front, pid, now);
      FreshStep(idents, front, e);
      if ok {
        var data := IdentificacionColumns(e, pid);
        InsertRowSpec(IdentificacionSchema, rows, data, now);
        InsertSingleUniqueIff(IdentificacionSchema, rows, data, now, Numero);
        StoredNumbers(idents, rows, front, pid, now, e.numero);
        AppendedStep(idents, rows, front, e, pid, now);
      }
    }
  }

  /** Freshness of a list grown by one entry. */
  lemma FreshStep(idents: seq<Row>, front: seq<IdentificacionCreate>, e: IdentificacionCreate)
    ensures NumbersFresh(idents, front + [e]) <==>
      && NumbersFresh(idents, front)
      && Where(idents, Numero, Str(e.numero)) == []
      && (forall j :: 0 <= j < |front| ==> front[j].numero != e.numero)
  {
    var entries := front + [e];
    assert forall k :: 0 <= k < |front| ==> entries[k] == front[k];
    assert entries[|front|] == e;
  }

  /** Each appended row is owned by `pid` and carries its entry's number. */
  lemma AppendedNumbers(idents: seq<Row>, rows: seq<Row>, entries: seq<IdentificacionCreate>, pid: nat, now: nat)
    requires Appended(idents, rows, entries, pid, now)
    ensures forall i :: |idents| <= i < |rows| ==>
      Owner(rows[i]) == Int(pid) && Column(rows[i], Numero) == Str(entries[i - |idents|].numero)
  {
    forall i | |idents| <= i < |rows|
      ensures Owner(rows[i]) == Int(pid) && Column(rows[i], Numero) == Str(entries[i - |idents|].numero)
    {
      var k := i - |idents|;
      assert rows[|idents| + k] == NewRow(IdentificacionSchema, |idents| + k + 1, now, IdentificacionColumns(entries[k], pid));
      NewIdentificacionColumn(entries[k], pid, |idents| + k + 1, now);
    }
  }

  /** The numbers stored after the write loop succeeded on `front`: the old
      ones and the entries' own. */
  lemma StoredNumbers(idents: seq<Row>, rows: seq<Row>, front: seq<IdentificacionCreate>, pid: nat, now: nat, n: string)
    requires Appended(idents, rows, front, pid, now)
    ensures Where(rows, Numero, Str(n)) == [] <==>
      Where(idents, Numero, Str(n)) == [] && forall j :: 0 <= j < |front| ==> front[j].numero != n
  {
    AppendedNumbers(idents, rows, front, pid, now);
    var numbers := seq(|front|, j requires 0 <= j < |front| => front[j].numero);
    StoredValues(idents, rows, numbers, n);
  }

  /** `rows` extends `idents` by rows whose numbers are `numbers`. */
  lemma StoredValues(idents: seq<Row>, rows: seq<Row>, numbers: seq<string>, n: string)
    requires |rows| == |idents| + |numbers| && rows[..|idents|] == idents
    requires forall j :: 0 <= j < |numbers| ==> Column(rows[|idents| + j], Numero) == Str(numbers[j])
    ensures Where(rows, Numero, Str(n)) == [] <==>
      Where(idents, Numero, Str(n)) == [] && forall j :: 0 <= j < |numbers| ==> numbers[j] != n
  {
    WhereEmpty(rows, Numero, Str(n));
    WhereEmpty(idents, Numero, Str(n));
    if forall x :: x in rows ==> Column(x, Numero) != Str(n) {
      forall x | x in idents ensures Column(x, Numero) != Str(n) {
        var i :| 0 <= i < |idents| && idents[i] == x;
        assert rows[..|idents|][i] == x;
      }
      forall j | 0 <= j < |numbers| ensures numbers[j] != n {
        assert rows[|idents| + j] in rows;
      }
    } else {
      var x :| x in rows && Column(x, Numero) == Str(n);
      var i :| 0 <= i < |rows| && rows[i] == x;
      if i < |idents| {
        assert rows[..|idents|][i] == x;
        assert x in idents;
      } else {
        assert numbers[i - |idents|] == n;
      }
    }
  }

  /** One more successful insert extends the appended rows. */
  lemma AppendedStep(idents: seq<Row>, rows: seq<Row>, front: seq<IdentificacionCreate>, e: IdentificacionCreate, pid: nat, now: nat)
    requires Appended(idents, rows, front, pid, now)
    ensures Appended(idents, rows + [NewRow(IdentificacionSchema, |rows| + 1, now, IdentificacionColumns(e, pid))], front + [e], pid, now)
  {
    var rows' := rows + [NewRow(IdentificacionSchema, |rows| + 1, now, IdentificacionColumns(e, pid))];
    var entries := front + [e];
    assert rows'[..|idents|] == rows[..|idents|];
    forall k | 0 <= k < |entries|
      ensures rows'[|idents| + k] == NewRow(IdentificacionSchema, |idents| + k + 1, now, IdentificacionColumns(entries[k], pid))
    {
      if k < |front| {
        assert entries[k] == front[k];
        assert rows'[|idents| + k] == rows[|idents| + k];
      }
    }
  }

  /** The stored number of a new identification row. */
  lemma NewIdentificacionColumn(i: IdentificacionCreate, pid: nat, id: nat, now: nat)
    ensures Column(NewRow(IdentificacionSchema, id, now, IdentificacionColumns(i, pid)), Numero) == Str(i.numero)
    ensures Owner(NewRow(IdentificacionSchema, id, now, IdentificacionColumns(i, pid))) == Int(pid)
  {
  }

  /** A number held by an active persona is stored. */
  lemma ExistsIsStored(personas: seq<Row>, idents: seq<Row>, numero: string)
    requires UniqueOn(idents, Numero)
    requires IdentificacionExists(personas, idents, numero)
    ensures Where(idents, Numero, Str(numero)) != []
  {
    var x, p :| x in idents && Column(x, Numero) == Str(numero) && p in personas && Owner(x) == Int(p.id) && Active(p);
    WhereEmpty(idents, Numero, Str(numero));
  }

  /** The four outcomes of `create_persona`:
      - an empty identification list: ValueError, nothing written;
      - a number held by an active persona: ValueError, nothing written (every
        check precedes the first write);
      - otherwise, a number stored for an inactive persona or submitted twice:
        the UNIQUE constraint refuses an insert (IntegrityError);
      - otherwise success.
      Every table invariant is kept. */
  lemma CreatePersonaOutcome(personas: seq<Row>, idents: seq<Row>, data: PersonaCreate, now: nat)
    requires TableInvariant(PersonaSchema, personas) && TableInvariant(IdentificacionSchema, idents)
    ensures var (r, personas', idents') := CreatePersonaSpec(personas, idents, data, now);
      && TableInvariant(PersonaSchema, personas') && TableInvariant(IdentificacionSchema, idents')
      && (r == Failure(ValueError(NoIdentificacion)) <==> data.identificaciones == [])
      && (r == Failure(ValueError(NumberExists)) <==>
            data.identificaciones != [] && AnyNumberExists(personas, idents, data.identificaciones))
      && (r == Failure(IntegrityError) <==>
            data.identificaciones != [] && !AnyNumberExists(personas, idents, data.identificaciones) &&
            !NumbersFresh(idents, data.identificaciones))
      && (r.Success? <==> data.identificaciones != [] && NumbersFresh(idents, data.identificaciones))
      && (r.Failure? && r.error.ValueError? ==> personas' == personas && idents' == idents)
  {
    assert Numero in IdentificacionSchema.unique;
    var ids := data.identificaciones;
    if ids != [] {
      if AnyNumberExists(personas, idents, ids) {
        var k :| 0 <= k < |ids| && IdentificacionExists(personas, idents, ids[k].numero);
        ExistsIsStored(personas, idents, ids[k].numero);
      } else {
        InsertRowSpec(PersonaSchema, personas, PersonaCreateColumns(data), now);
        var (p, personas') := InsertRow(PersonaSchema, personas, PersonaCreateColumns(data), now);
        assert p.Some?;
        InsertAllSpec(idents, ids, p.value.id, now);
      }
    }
  }

  /** A successful `create_persona` writes one active, well-typed persona row
      built from the request, and exactly one identification row per entry,
      each owned by the new persona and carrying the entry's number; it returns
      the new persona. Contacts are not written. */
  lemma CreatePersonaWrites(personas: seq<Row>, idents: seq<Row>, data: PersonaCreate, now: nat)
    requires TableInvariant(PersonaSchema, personas) && TableInvariant(IdentificacionSchema, idents)
    requires data.Valid()
    requires CreatePersonaSpec(personas, idents, data, now).0.Success?
    ensures var (r, personas', idents') := CreatePersonaSpec(personas, idents, data, now);
      var row := NewRow(PersonaSchema, |personas| + 1, now, PersonaCreateColumns(data));
      && r == Success(Some(row))
      && personas' == personas + [row]
      && Active(row) && PersonaRowTyped(row)
      && Appended(idents, idents', data.identificaciones, row.id, now)
      && (forall k :: 0 <= k < |data.identificaciones| ==>
            Owner(idents'[|idents| + k]) == Int(row.id) &&
            Column(idents'[|idents| + k], Numero) == Str(data.identificaciones[k].numero))
  {
    assert Numero in IdentificacionSchema.unique;
    var ids := data.identificaciones;
    CreatePersonaOutcome(personas, idents, data, now);
    assert ids != [] && !AnyNumberExists(personas, idents, ids);
    var row := NewRow(PersonaSchema, |personas| + 1, now, PersonaCreateColumns(data));
    NewPersonaRowTyped(data, |personas| + 1, now);
    assert !Collides(PersonaSchema, personas, row, -1);
    var personas' := personas + [row];
    assert InsertRow(PersonaSchema, personas, PersonaCreateColumns(data), now) == (Some(row), personas');
    InsertAllSpec(idents, ids, row.id, now);
    var idents' := InsertAll(idents, ids, row.id, now).1;
    AppendedNumbers(idents, idents', ids, row.id, now);
    GetByIdExact(personas, row.id);
    assert Keyed(personas') by {
      InsertRowSpec(PersonaSchema, personas, PersonaCreateColumns(data), now);
    }
    GetByIdExact(personas', row.id);
    assert GetById(personas', row.id) == Some(row);
    assert CreatePersonaSpec(personas, idents, data, now) == (Success(Some(row)), personas', idents');
  }

  /** The number of a soft-deleted persona can be neither reused nor reported:
      after `delete_person`, the pre-check calls it free, and creating a persona
      with it ends in an IntegrityError rather than the ValueError. */
  lemma DeletedNumberNotReusable(personas: seq<Row>, idents: seq<Row>, id: int, e: IdentificacionCreate,
                                 data: PersonaCreate, now: nat, later: nat)
    requires TableInvariant(PersonaSchema, personas) && TableInvariant(IdentificacionSchema, idents)
    requires GetById(personas, id).Some?
    requires exists x :: x in idents && Column(x, Numero) == Str(e.numero) && Owner(x) == Int(id)
    requires data.identificaciones == [e]
    ensures var personas' := DeleteById(personas, id, now).1;
      && !IdentificacionExists(personas', idents, e.numero)
      && CreatePersonaSpec(personas', idents, data, later).0 == Failure(IntegrityError)
  {
    NumberFreeAfterDelete(personas, idents, id, e.numero, now);
    var personas' := DeleteById(personas, id, now).1;
    assert Where(idents, Numero, Str(e.numero)) != [] by {
      WhereEmpty(idents, Numero, Str(e.numero));
    }
    assert data.identificaciones[0] == e;
    assert !AnyNumberExists(personas', idents, data.identificaciones);
    assert !NumbersFresh(idents, data.identificaciones);
    var p := InsertRow(PersonaSchema, personas', PersonaCreateColumns(data), later).0;
    if p.Some? {
      InsertAllSpec(idents, data.identificaciones, p.value.id, later);
    }
  }

  /** After the soft delete of the persona owning a number, no active
      persona holds that number. */
  lemma NumberFreeAfterDelete(personas: seq<Row>, idents: seq<Row>, id: int, numero: string, now: nat)
    requires TableInvariant(PersonaSchema, personas) && TableInvariant(IdentificacionSchema, idents)
    requires GetById(personas, id).Some?
    requires exists x :: x in idents && Column(x, Numero) == Str(numero) && Owner(x) == Int(id)
    ensures TableInvariant(PersonaSchema, DeleteById(personas, id, now).1)
    ensures !IdentificacionExists(DeleteById(personas, id, now).1, idents, numero)
  {
    GetByIdExact(personas, id);
    var personas' := DeleteRow(personas, id, now).1;
    assert DeleteById(personas, id, now).1 == personas';
    DeleteRowSpec(PersonaSchema, personas, id, now);
    assert !Active(personas'[id - 1]);
    assert UniqueOn(idents, Numero) by {
      assert Numero in IdentificacionSchema.unique;
    }
    var x :| x in idents && Column(x, Numero) == Str(numero) && Owner(x) == Int(id);
    forall y, p | y in idents && Column(y, Numero) == Str(numero) && p in personas' && Owner(y) == Int(p.id)
      ensures !Active(p)
    {
      var i :| 0 <= i < |idents| && idents[i] == x;
      var j :| 0 <= j < |idents| && idents[j] == y;
      assert i == j;
      var k :| 0 <= k < |personas'| && personas'[k] == p;
      assert p.id == k + 1;
    }
  }

  /** `update_persona` (the lookup and the update, `UpdateById`) never fails:
      a persona has no UNIQUE column. On a missing or inactive id it returns
      None and changes nothing (see `UpdateByIdOutcome`); otherwise it assigns
      exactly the sent, non-None fields, and a valid request keeps the row
      well typed. */
  lemma UpdatePersonaOutcome(personas: seq<Row>, id: int, data: PersonaUpdate, now: nat)
    requires TableInvariant(PersonaSchema, personas)
    ensures var (r, personas') := UpdateById(PersonaSchema, personas, id, UpdateDump(data), now);
      && r.Success?
      && (r.value.Some? ==>
            var d := UpdateDump(data);
            && (forall c :: c in d && d[c] != Null ==> Column(r.value.value, c) == d[c])
            && (forall c :: c !in d || d[c] == Null ==> Column(r.value.value, c) == Column(personas[id - 1], c))
            && (data.Valid() && PersonaRowTyped(personas[id - 1]) ==> PersonaRowTyped(r.value.value)))
  {
    var d := UpdateDump(data);
    UpdateByIdOutcome(PersonaSchema, personas, id, d, now);
    GetByIdExact(personas, id);
    if GetById(personas, id).Some? {
      var prev := personas[id - 1];
      var row := Refreshed(prev, Patched(prev.columns, d), now);
      if data.Valid() && PersonaRowTyped(prev) {
        UpdateKeepsTyped(prev, data);
        assert forall c :: Column(row, c) == Column(prev.(columns := Patched(prev.columns, d)), c);
      }
    }
  }

  /** The identification check of `update_persona` is dead: no update dump
      holds the key it tests. */
  lemma DeadIdentificationCheck(data: PersonaUpdate)
    ensures "numero_identificacion" !in UpdateDump(data)
  {
  }

  // ---------------------------------------------------------------------------
  // The service object

  class PersonaService {
    const repository: Table
    const identificacionRepository: Table

    ghost predicate Valid()
      reads this, repository, identificacionRepository
    {
      && repository != identificacionRepository
      && repository.schema == PersonaSchema && identificacionRepository.schema == IdentificacionSchema
      && repository.Valid() && identificacionRepository.Valid()
    }

    constructor (repository: Table, identificacionRepository: Table)
      requires repository != identificacionRepository
      requires repository.schema == PersonaSchema && identificacionRepository.schema == IdentificacionSchema
      requires repository.Valid() && identificacionRepository.Valid()
      ensures Valid()
      ensures this.repository == repository && this.identificacionRepository == identificacionRepository
    {
      this.repository := repository;
      this.identificacionRepository := identificacionRepository;
    }

    /** `create_persona(data)`: the lookup loop, then the persona, then the
        write loop. */
    method CreatePersona(data: PersonaCreate, now: nat) returns (r: Result<Option<Row>, ServiceError>)
      requires Valid()
      modifies repository, identificacionRepository
      ensures Valid()
      ensures (r, repository.rows, identificacionRepository.rows) ==
        CreatePersonaSpec(old(repository.rows), old(identificacionRepository.rows), data, now)
    {
      var ids := data.identificaciones;
      if ids == [] {
        return Failure(ValueError(NoIdentificacion));
      }
      var taken := AnyNumberTaken(ids);
      if taken {
        return Failure(ValueError(NumberExists));
      }
      var persona := repository.Create(PersonaCreateColumns(data), now);
      if persona.None? {
        return Failure(IntegrityError);
      }
      var ok := CreateIdentifications(ids, persona.value.id, now);
      if !ok {
        return Failure(IntegrityError);
      }
      r := Success(GetPersona(persona.value.id));
    }

    /** The lookup loop of `create_persona`: does some submitted number belong
        to an active persona already? */
    method AnyNumberTaken(ids: seq<IdentificacionCreate>) returns (taken: bool)
      requires Valid()
      ensures taken == AnyNumberExists(repository.rows, identificacionRepository.rows, ids)
    {
      var k := 0;
      while k < |ids|
        invariant 0 <= k <= |ids|
        invariant forall j :: 0 <= j < k ==>
          !IdentificacionExists(repository.rows, identificacionRepository.rows, ids[j].numero)
      {
        if IdentificacionExists(repository.rows, identificacionRepository.rows, ids[k].numero) {
          return true;
        }
        k := k + 1;
      }
      return false;
    }

    /** The write loop of `create_persona`: one identification per entry,
        owned by persona `pid`, stopping at the first refused insert. */
    method CreateIdentifications(ids: seq<IdentificacionCreate>, pid: nat, now: nat) returns (ok: bool)
      requires Valid()
      modifies identificacionRepository
      ensures Valid()
      ensures (ok, identificacionRepository.rows) == InsertAll(old(identificacionRepository.rows), ids, pid, now)
    {
      ghost var idents0 := identificacionRepository.rows;
      var i := 0;
      while i < |ids|
        invariant 0 <= i <= |ids|
        invariant Valid()
        invariant InsertAll(idents0, ids[..i], pid, now) == (true, identificacionRepository.rows)
      {
        var created := identificacionRepository.Create(IdentificacionColumns(ids[i], pid), now);
        assert ids[..i + 1][..i] == ids[..i];
        if created.None? {
          InsertAllStops(idents0, ids, i + 1, pid, now);
          return false;
        }
        i := i + 1;
      }
      assert ids[..|ids|] == ids;
      return true;
    }

    /** `get_persona(persona_id)`. */
    function GetPersona(id: int): (r: Option<Row>)
      reads repository
      ensures r.Some? ==> r.value in repository.rows && r.value.id == id && Active(r.value)
      ensures r.None? ==> forall x :: x in repository.rows && x.id == id ==> !Active(x)
    {
      GetById(repository.rows, id)
    }

    /** `get_persona_by_identification(numero)`. */
    function GetPersonaByIdentification(numero: string): (r: Option<Row>)
      requires Valid()
      reads this, repository, identificacionRepository
      ensures r.Some? <==> HeldByActive(repository.rows, identificacionRepository.rows, numero)
      ensures r.Some? ==> r.value in repository.rows && Active(r.value)
    {
      assert Numero in IdentificacionSchema.unique;
      GetByIdentificacion(repository.rows, identificacionRepository.rows, numero)
    }

    /** `get_person_list(skip, limit, tipo)`: filtered by type when one is
        given. */
    function GetPersonList(skip: nat, limit: nat, tipo: Option<TipoPersona>): (r: seq<Row>)
      reads repository
      ensures |r| <= limit
      ensures forall x :: x in r ==> x in repository.rows && Active(x)
      ensures tipo.Some? ==> forall x :: x in r ==> Column(x, TipoPersonaCol) == Str(tipo.value.Value())
      ensures |r| == PageLength(|Listed(repository.rows, tipo)|, skip, limit)
      ensures forall k :: 0 <= k < |r| ==>
        skip + k < |Listed(repository.rows, tipo)| && r[k] == Listed(repository.rows, tipo)[skip + k]
    {
      if tipo.Some? then GetByTipo(repository.rows, tipo.value, skip, limit)
      else GetAll(repository.rows, skip, limit)
    }

    /** `count_persons()`: all active personas, whatever their type. */
    function CountPersons(): (n: nat)
      reads repository
      ensures n == |ActiveRows(repository.rows)|
    {
      Count(repository.rows)
    }

    /** `update_persona(persona_id, data)`. */
    method UpdatePersona(id: int, data: PersonaUpdate, now: nat) returns (r: Result<Option<Row>, ServiceError>)
      requires Valid()
      modifies repository
      ensures Valid()
      ensures (r, repository.rows) == UpdateById(PersonaSchema, old(repository.rows), id, UpdateDump(data), now)
    {
      GetByIdExact(repository.rows, id);
      var persona := GetPersona(id);
      if persona.None? {
        return Success(None);
      }
      var updated := repository.Update(persona.value.id, UpdateDump(data), now);
      if updated.None? {
        return Failure(IntegrityError);
      }
      r := Success(updated);
    }

    /** `delete_person(persona_id)`. */
    method DeletePerson(id: int, now: nat) returns (r: Option<Row>)
      requires Valid()
      modifies repository
      ensures Valid()
      ensures (r, repository.rows) == DeleteById(old(repository.rows), id, now)
    {
      GetByIdExact(repository.rows, id);
      var persona := GetPersona(id);
      if persona.None? {
        return None;
      }
      var deleted := repository.Delete(persona.value.id, now);
      r := Some(deleted);
    }
  }
}
