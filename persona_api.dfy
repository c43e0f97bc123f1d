/**
 * The persona router (app/api/v1/persona.py). Every route depends on
 * `get_current_user`, whose refusal comes first; then the request is
 * validated (422); then the handler runs and maps the service's outcome to a
 * status. A handler returns the party store after a success, and the store it
 * was given after any error (the request's session rolls back).
 */
module PersonaApi {
  import opened Wrappers
  import opened Records
  import opened Repository
  import opened PersonaModel
  import opened PersonaSchemas
  import opened PersonaRepository
  import opened PersonaService
  import opened Numerals
  import opened Http
  import opened Dependencies

  const PersonNotFound: string := "Person not found"

  /** The 404 detail of `update_person`. */
  function PersonNotFoundWithId(id: int): string {
    "Person with id " + DecimalString(id) + " not found"
  }

  /** `PersonaResponse`. Its two lists are always the default empty list:
      the `Persona` relationships are named `identificacion` and `contacto`,
      not `identificaciones` and `contactos`, so serialisation from the ORM
      object never finds them. The model leaves them out. */
  datatype PersonaResponse = PersonaResponse(
    createdAt: nat,
    updatedAt: nat,
    isActive: bool,
    tipoPersona: TipoPersona,
    nombre: Option<string>,
    apellido: Option<string>,
    razonSocial: Option<string>,
    nombreComercial: Option<string>)

  /** `PersonaList`. */
  datatype PersonaList = PersonaList(personas: seq<PersonaResponse>, total: nat, page: nat, perPage: nat)

  /** A NULL or string column as an optional string. */
  function OptionalStr(v: Value): Option<string>
    requires v == Null || v.Str?
  {
    if v.Str? then Some(v.s) else None
  }

  /** Serialising a row through `PersonaResponse`; None when a value does
      not fit. A well-typed row always serialises, and the response holds the
      row's values. */
  function ToPersonaResponse(r: Row): (o: Option<PersonaResponse>)
    ensures PersonaRowTyped(r) ==> o.Some?
    ensures o.Some? ==>
      && o.value.createdAt == r.createdAt && o.value.updatedAt == r.updatedAt
      && Bool(o.value.isActive) == Column(r, IsActive)
      && Str(o.value.tipoPersona.Value()) == Column(r, TipoPersonaCol)
      && OptStr(o.value.nombre) == Column(r, Nombre) && OptStr(o.value.apellido) == Column(r, Apellido)
      && OptStr(o.value.razonSocial) == Column(r, RazonSocial)
      && OptStr(o.value.nombreComercial) == Column(r, NombreComercial)
  {
    var active := Column(r, IsActive);
    var tipo := Column(r, TipoPersonaCol);
    var n := Column(r, Nombre);
    var a := Column(r, Apellido);
    var rs := Column(r, RazonSocial);
    var nc := Column(r, NombreComercial);
    if active.Bool? && tipo.Str? && ParseTipoPersona(tipo.s).Some?
       && (n == Null || n.Str?) && (a == Null || a.Str?) && (rs == Null || rs.Str?) && (nc == Null || nc.Str?)
    then
      Some(PersonaResponse(r.createdAt, r.updatedAt, active.b, ParseTipoPersona(tipo.s).value,
                           OptionalStr(n), OptionalStr(a), OptionalStr(rs), OptionalStr(nc)))
    else None
  }

  /** What the routes keep: the store is consistent and every persona row is
      well typed. */
  ghost predicate ApiInvariant(s: PartyStore) {
    Consistent(s) && forall x :: x in s.personas ==> PersonaRowTyped(x)
  }

  // ---------------------------------------------------------------------------
  // Routes

  /** `POST /persona/create` (201). A ValueError of the service becomes 400
      with its message; an IntegrityError is not handled (500). */
  function CreatePerson(payload: Option<Dict>, users: seq<Row>, s: PartyStore, data: PersonaCreate, now: nat)
    : (out: (Result<PersonaResponse, HttpError>, PartyStore))
    requires Consistent(s)
    ensures GetCurrentUser(payload, users).Failure? ==> out == (Failure(GetCurrentUser(payload, users).error), s)
    ensures GetCurrentUser(payload, users).Success? && !data.Valid() ==> out == (Failure(ValidationFailed), s)
    ensures out.0.Failure? ==> out.1 == s
    ensures out.0.Success? ==>
      && GetCurrentUser(payload, users).Success? && data.Valid()
      && CreatePersonaSpec(s.personas, s.identificaciones, data, now).0.Success?
      && out.1 == s.(personas := CreatePersonaSpec(s.personas, s.identificaciones, data, now).1,
                     identificaciones := CreatePersonaSpec(s.personas, s.identificaciones, data, now).2)
  {
    var current := GetCurrentUser(payload, users);
    if current.Failure? then (Failure(current.error), s)
    else if !data.Valid() then (Failure(ValidationFailed), s)
    else
      var (r, personas', idents') := CreatePersonaSpec(s.personas, s.identificaciones, data, now);
      match r
      case Failure(ValueError(msg)) => (Failure(HttpError(BadRequest, msg)), s)
      case Failure(IntegrityError) => (Failure(InternalError), s)
      case Success(None) => (Failure(InternalError), s)
      case Success(Some(row)) =>
        match ToPersonaResponse(row)
        case None => (Failure(InternalError), s)
        case Some(v) => (Success(v), s.(personas := personas', identificaciones := idents'))
  }

  /** `GET /persona/`: 422 unless `skip >= 0`, `1 <= limit <= 100` and `tipo`
      (when given) is a `TipoPersona` value; then a page of the active
      personas (of that type, when given), the count of ALL active personas,
      `page = skip // limit + 1` and `per_page = limit`. */
  function ListPersons(payload: Option<Dict>, users: seq<Row>, s: PartyStore, skip: int, limit: int, tipo: Option<string>)
    : (r: Result<PersonaList, HttpError>)
    ensures GetCurrentUser(payload, users).Failure? ==> r == Failure(GetCurrentUser(payload, users).error)
    ensures GetCurrentUser(payload, users).Success? ==>
      (r == Failure(ValidationFailed) <==>
         skip < 0 || limit < 1 || limit > 100 || (tipo.Some? && ParseTipoPersona(tipo.value).None?))
    ensures r.Success? ==>
      && 0 <= skip && 1 <= limit <= 100
      && r.value.total == |ActiveRows(s.personas)|
      && r.value.perPage == limit
      && r.value.page >= 1 && OnPage(r.value.page, skip, limit)
      && |r.value.personas| <= limit
    ensures r.Success? ==>
      var source := Listed(s.personas, if tipo.None? then None else ParseTipoPersona(tipo.value));
      && |r.value.personas| == PageLength(|source|, skip, limit)
      && forall k :: 0 <= k < |r.value.personas| ==>
        skip + k < |source| && ToPersonaResponse(source[skip + k]) == Some(r.value.personas[k])
    ensures GetCurrentUser(payload, users).Success? && 0 <= skip && 1 <= limit <= 100 &&
            (tipo.Some? ==> ParseTipoPersona(tipo.value).Some?) ==>
      var source := Listed(s.personas, if tipo.None? then None else ParseTipoPersona(tipo.value));
      (r.Success? <==> forall x :: x in Page(source, skip, limit) ==> ToPersonaResponse(x).Some?)
  {
    var current := GetCurrentUser(payload, users);
    if current.Failure? then Failure(current.error)
    else if skip < 0 || limit < 1 || limit > 100 then Failure(ValidationFailed)
    else if tipo.Some? && ParseTipoPersona(tipo.value).None? then Failure(ValidationFailed)
    else
      var source := Listed(s.personas, if tipo.None? then None else ParseTipoPersona(tipo.value));
      match ConvertPage(source, skip, limit, ToPersonaResponse)
      case None => Failure(InternalError)
      case Some(views) => Success(PersonaList(views, Count(s.personas), PageNumber(skip, limit), limit))
  }

  /** `GET /persona/{persona_id}`: 404 for a missing or inactive id. */
  function GetPerson(payload: Option<Dict>, users: seq<Row>, s: PartyStore, id: int): (r: Result<PersonaResponse, HttpError>)
    ensures GetCurrentUser(payload, users).Failure? ==> r == Failure(GetCurrentUser(payload, users).error)
    ensures GetCurrentUser(payload, users).Success? ==>
      (r == Failure(HttpError(NotFound, PersonNotFound)) <==> forall x :: x in s.personas && x.id == id ==> !Active(x))
    ensures r.Success? ==> exists x :: x in s.personas && x.id == id && Active(x) && ToPersonaResponse(x) == Some(r.value)
    ensures GetCurrentUser(payload, users).Success? && GetById(s.personas, id).Some? && PersonaRowTyped(GetById(s.personas, id).value) ==>
      r == Success(ToPersonaResponse(GetById(s.personas, id).value).value)
  {
    var current := GetCurrentUser(payload, users);
    if current.Failure? then Failure(current.error)
    else match GetById(s.personas, id)
      case None => Failure(HttpError(NotFound, PersonNotFound))
      case Some(p) =>
        match ToPersonaResponse(p)
        case None => Failure(InternalError)
        case Some(v) => Success(v)
  }

  /** `PUT /persona/{persona_id}`: 404 "Person with id {id} not found" for a
      missing or inactive id; otherwise the updated persona. */
  function UpdatePerson(payload: Option<Dict>, users: seq<Row>, s: PartyStore, id: int, data: PersonaUpdate, now: nat)
    : (out: (Result<PersonaResponse, HttpError>, PartyStore))
    requires Consistent(s)
    ensures GetCurrentUser(payload, users).Failure? ==> out == (Failure(GetCurrentUser(payload, users).error), s)
    ensures GetCurrentUser(payload, users).Success? && !data.Valid() ==> out == (Failure(ValidationFailed), s)
    ensures GetCurrentUser(payload, users).Success? && data.Valid() ==>
      (out.0 == Failure(HttpError(NotFound, PersonNotFoundWithId(id))) <==>
         forall x :: x in s.personas && x.id == id ==> !Active(x))
    ensures out.0.Failure? ==> out.1 == s
    ensures var u := UpdateById(PersonaSchema, s.personas, id, UpdateDump(data), now);
      out.0.Success? ==>
        && u.0.Success? && u.0.value.Some?
        && ToPersonaResponse(u.0.value.value) == Some(out.0.value)
        && out.1 == s.(personas := u.1)
    ensures (GetCurrentUser(payload, users).Success? && data.Valid() &&
             GetById(s.personas, id).Some? && PersonaRowTyped(GetById(s.personas, id).value)) ==> out.0.Success?
  {
    var current := GetCurrentUser(payload, users);
    if current.Failure? then (Failure(current.error), s)
    else if !data.Valid() then (Failure(ValidationFailed), s)
    else
      UpdateByIdOutcome(PersonaSchema, s.personas, id, UpdateDump(data), now);
      UpdatePersonaOutcome(s.personas, id, data, now);
      GetByIdExact(s.personas, id);
      var (r, personas') := UpdateById(PersonaSchema, s.personas, id, UpdateDump(data), now);
      match r
      case Success(None) => (Failure(HttpError(NotFound, PersonNotFoundWithId(id))), s)
      case Failure(ValueError(msg)) => (Failure(HttpError(BadRequest, msg)), s)
      case Failure(IntegrityError) => (Failure(InternalError), s)
      case Success(Some(row)) =>
        match ToPersonaResponse(row)
        case None => (Failure(InternalError), s)
        case Some(v) => (Success(v), s.(personas := personas'))
  }

  /** `DELETE /persona/{persona_id}` (204): 404 for a missing or inactive
      id; otherwise the persona is soft-deleted. */
  function DeletePerson(payload: Option<Dict>, users: seq<Row>, s: PartyStore, id: int, now: nat)
    : (out: (Result<(), HttpError>, PartyStore))
    requires Consistent(s)
    ensures GetCurrentUser(payload, users).Failure? ==> out == (Failure(GetCurrentUser(payload, users).error), s)
    ensures GetCurrentUser(payload, users).Success? ==>
      (out.0 == Failure(HttpError(NotFound, PersonNotFound)) <==> forall x :: x in s.personas && x.id == id ==> !Active(x))
    ensures out.0.Failure? ==> out.1 == s
    ensures out.0.Success? ==> out.1 == s.(personas := DeleteById(s.personas, id, now).1)
    ensures out.0.Success? <==>
      GetCurrentUser(payload, users).Success? && exists x :: x in s.personas && x.id == id && Active(x)
  {
    var current := GetCurrentUser(payload, users);
    if current.Failure? then (Failure(current.error), s)
    else
      GetByIdExact(s.personas, id);
      var (r, personas') := DeleteById(s.personas, id, now);
      if r.None? then (Failure(HttpError(NotFound, PersonNotFound)), s)
      else (Success(()), s.(personas := personas'))
  }

  // ---------------------------------------------------------------------------
  // The two routes as written

  /** `create_person` as written: `create_persona` reads
      `data.identificacion`, a field `PersonaCreate` does not have (and, past
      that, its pre-check queries `Persona.numero_identificacion`, a column the
      model no longer maps). The AttributeError escapes `except ValueError`:
      every authenticated, valid request ends in 500 and writes nothing. */
  function CreatePersonAsWritten(payload: Option<Dict>, users: seq<Row>, s: PartyStore, data: PersonaCreate, now: nat)
    : (out: (Result<PersonaResponse, HttpError>, PartyStore))
    ensures GetCurrentUser(payload, users).Failure? ==> out == (Failure(GetCurrentUser(payload, users).error), s)
    ensures GetCurrentUser(payload, users).Success? && !data.Valid() ==> out == (Failure(ValidationFailed), s)
    ensures out.0.Failure? && out.1 == s
  {
    var current := GetCurrentUser(payload, users);
    if current.Failure? then (Failure(current.error), s)
    else if !data.Valid() then (Failure(ValidationFailed), s)
    else (Failure(InternalError), s)
  }

  /** `list_persons` as written: with a `tipo`, `get_by_tipo` filters on
      `Persona.tipo`, a column the model no longer maps, and the
      AttributeError ends the request in 500. Without one it is `ListPersons`. */
  function ListPersonsAsWritten(payload: Option<Dict>, users: seq<Row>, s: PartyStore, skip: int, limit: int, tipo: Option<string>)
    : (r: Result<PersonaList, HttpError>)
    ensures tipo.None? ==> r == ListPersons(payload, users, s, skip, limit, tipo)
    ensures ListPersons(payload, users, s, skip, limit, tipo).Failure? ==> r == ListPersons(payload, users, s, skip, limit, tipo)
    ensures tipo.Some? ==> r.Failure?
  {
    var intended := ListPersons(payload, users, s, skip, limit, tipo);
    if tipo.Some? && intended.Success? then Failure(InternalError) else intended
  }

  // ---------------------------------------------------------------------------
  // Lemmas

  /** How `create_person` refuses an authenticated, valid request:
      - no identification: 400 "No identificacion found";
      - a number held by an active persona: 400 "Identification number
        already exists";
      - a number stored for a soft-deleted persona, or submitted twice: 500.
      Nothing is written in any of these cases. */
  lemma CreatePersonStatuses(payload: Option<Dict>, users: seq<Row>, s: PartyStore, data: PersonaCreate, now: nat)
    requires ApiInvariant(s)
    requires GetCurrentUser(payload, users).Success? && data.Valid()
    ensures data.identificaciones == [] ==>
      CreatePerson(payload, users, s, data, now).0 == Failure(HttpError(BadRequest, NoIdentificacion))
    ensures data.identificaciones != [] && AnyNumberExists(s.personas, s.identificaciones, data.identificaciones) ==>
      CreatePerson(payload, users, s, data, now).0 == Failure(HttpError(BadRequest, NumberExists))
    ensures data.identificaciones != [] && !AnyNumberExists(s.personas, s.identificaciones, data.identificaciones)
              && !NumbersFresh(s.identificaciones, data.identificaciones) ==>
      CreatePerson(payload, users, s, data, now).0 == Failure(InternalError)
  {
    CreatePersonaOutcome(s.personas, s.identificaciones, data, now);
  }

  /** An authenticated, valid request whose numbers are fresh is answered 201:
      the new persona is stored, is what the response shows, and owns one new
      identification row per entry. */
  lemma CreatePersonCreates(payload: Option<Dict>, users: seq<Row>, s: PartyStore, data: PersonaCreate, now: nat)
    requires ApiInvariant(s)
    requires GetCurrentUser(payload, users).Success? && data.Valid()
    requires data.identificaciones != [] && NumbersFresh(s.identificaciones, data.identificaciones)
    ensures CreatePerson(payload, users, s, data, now).0.Success?
    ensures var s' := CreatePerson(payload, users, s, data, now).1;
      && s'.personas == s.personas + [NewRow(PersonaSchema, |s.personas| + 1, now, PersonaCreateColumns(data))]
      && ToPersonaResponse(s'.personas[|s.personas|]) == Some(CreatePerson(payload, users, s, data, now).0.value)
      && Appended(s.identificaciones, s'.identificaciones, data.identificaciones, |s.personas| + 1, now)
  {
    CreatePersonaOutcome(s.personas, s.identificaciones, data, now);
    CreatePersonaWrites(s.personas, s.identificaciones, data, now);
    NewPersonaRowTyped(data, |s.personas| + 1, now);
  }

  /** Adding a persona keeps every child's owner. */
  lemma OwnedByGrow(children: seq<Row>, personas: seq<Row>, row: Row)
    requires OwnedBy(children, personas)
    ensures OwnedBy(children, personas + [row])
  {
    forall x | x in children ensures Owner(x).Int? && Owner(x).i in Ids(personas + [row]) {
      var p :| p in personas && p.id as int == Owner(x).i;
      assert p in personas + [row];
    }
  }

  /** Replacing a persona by a row with the same key keeps every child's
      owner. */
  lemma OwnedByReplace(children: seq<Row>, personas: seq<Row>, i: nat, row: Row)
    requires i < |personas| && row.id == personas[i].id
    requires OwnedBy(children, personas)
    ensures OwnedBy(children, personas[i := row])
  {
    forall x | x in children ensures Owner(x).Int? && Owner(x).i in Ids(personas[i := row]) {
      var p :| p in personas && p.id as int == Owner(x).i;
      var k :| 0 <= k < |personas| && personas[k] == p;
      assert personas[i := row][k].id == p.id;
      assert personas[i := row][k] in personas[i := row];
    }
  }

  /** Replacing a persona by a well-typed row with the same key keeps the
      route invariant, given the persona table's own invariant. */
  lemma ReplacePersona(s: PartyStore, i: nat, row: Row, personas: seq<Row>)
    requires ApiInvariant(s)
    requires i < |s.personas| && row.id == s.personas[i].id && PersonaRowTyped(row)
    requires personas == s.personas[i := row] && TableInvariant(PersonaSchema, personas)
    ensures ApiInvariant(s.(personas := personas))
  {
    OwnedByReplace(s.identificaciones, s.personas, i, row);
    OwnedByReplace(s.contactos, s.personas, i, row);
    OwnedByReplace(s.clientes, s.personas, i, row);
    OwnedByReplace(s.proveedores, s.personas, i, row);
    OwnedByReplace(s.empleados, s.personas, i, row);
    forall x | x in personas ensures PersonaRowTyped(x) {
      var k :| 0 <= k < |personas| && personas[k] == x;
      if k != i {
        assert s.personas[k] in s.personas;
      }
    }
  }

  /** Appending a well-typed persona, and identifications it owns, keeps the
      route invariant, given the two tables' own invariants. */
  lemma AppendPersona(s: PartyStore, row: Row, idents: seq<Row>)
    requires ApiInvariant(s) && PersonaRowTyped(row)
    requires TableInvariant(PersonaSchema, s.personas + [row])
    requires TableInvariant(IdentificacionSchema, idents)
    requires |s.identificaciones| <= |idents| && idents[..|s.identificaciones|] == s.identificaciones
    requires forall i :: |s.identificaciones| <= i < |idents| ==> Owner(idents[i]) == Int(row.id)
    ensures ApiInvariant(s.(personas := s.personas + [row], identificaciones := idents))
  {
    var personas := s.personas + [row];
    OwnedByGrow(s.identificaciones, s.personas, row);
    OwnedByGrow(s.contactos, s.personas, row);
    OwnedByGrow(s.clientes, s.personas, row);
    OwnedByGrow(s.proveedores, s.personas, row);
    OwnedByGrow(s.empleados, s.personas, row);
    assert row in personas && row.id as int in Ids(personas);
    forall x | x in idents ensures Owner(x).Int? && Owner(x).i in Ids(personas) {
      var k :| 0 <= k < |idents| && idents[k] == x;
      if k < |s.identificaciones| {
        assert idents[..|s.identificaciones|][k] == x;
      }
    }
  }

  /** A successful create keeps the route invariant. */
  lemma CreateKeepsInvariant(payload: Option<Dict>, users: seq<Row>, s: PartyStore, data: PersonaCreate, now: nat)
    requires ApiInvariant(s)
    ensures ApiInvariant(CreatePerson(payload, users, s, data, now).1)
  {
    if CreatePerson(payload, users, s, data, now).0.Success? {
      CreatePersonaOutcome(s.personas, s.identificaciones, data, now);
      CreatePersonaWrites(s.personas, s.identificaciones, data, now);
      var (_, personas', idents') := CreatePersonaSpec(s.personas, s.identificaciones, data, now);
      var row := NewRow(PersonaSchema, |s.personas| + 1, now, PersonaCreateColumns(data));
      AppendedNumbers(s.identificaciones, idents', data.identificaciones, row.id, now);
      AppendPersona(s, row, idents');
    }
  }

  /** A successful update keeps the route invariant. */
  lemma UpdateKeepsInvariant(payload: Option<Dict>, users: seq<Row>, s: PartyStore, id: int, data: PersonaUpdate, now: nat)
    requires ApiInvariant(s)
    ensures ApiInvariant(UpdatePerson(payload, users, s, id, data, now).1)
  {
    var (r, s') := UpdatePerson(payload, users, s, id, data, now);
    if r.Success? {
      var d := UpdateDump(data);
      UpdateByIdOutcome(PersonaSchema, s.personas, id, d, now);
      UpdatePersonaOutcome(s.personas, id, data, now);
      var (u, personas') := UpdateById(PersonaSchema, s.personas, id, d, now);
      assert s.personas[id - 1] in s.personas;
      ReplacePersona(s, id - 1, u.value.value, personas');
    }
  }

  /** A well-typed persona stays well typed once soft-deleted. */
  lemma SoftDeletedTyped(prev: Row, row: Row)
    requires PersonaRowTyped(prev)
    requires Column(row, IsActive) == Bool(false)
    requires forall c :: c != IsActive ==> Column(row, c) == Column(prev, c)
    ensures PersonaRowTyped(row)
  {
    assert Column(row, TipoPersonaCol) == Column(prev, TipoPersonaCol);
    assert Column(row, Nombre) == Column(prev, Nombre) && Column(row, Apellido) == Column(prev, Apellido);
    assert Column(row, RazonSocial) == Column(prev, RazonSocial);
    assert Column(row, NombreComercial) == Column(prev, NombreComercial);
  }

  /** A soft delete keeps the route invariant: the identifications and
      contacts of the persona stay, owned by a row that is still stored. */
  lemma DeleteKeepsInvariant(payload: Option<Dict>, users: seq<Row>, s: PartyStore, id: int, now: nat)
    requires ApiInvariant(s)
    ensures ApiInvariant(DeletePerson(payload, users, s, id, now).1)
  {
    if DeletePerson(payload, users, s, id, now).0.Success? {
      DeleteByIdKeepsInvariant(s, id, now);
    }
  }

  /** Soft-deleting a persona by key keeps the route invariant. */
  lemma DeleteByIdKeepsInvariant(s: PartyStore, id: int, now: nat)
    requires ApiInvariant(s)
    ensures ApiInvariant(s.(personas := DeleteById(s.personas, id, now).1))
  {
    DeleteByIdOutcome(PersonaSchema, s.personas, id, now);
    var r := DeleteById(s.personas, id, now);
    if r.0.Some? {
      assert s.personas[id - 1] in s.personas;
      SoftDeletedTyped(s.personas[id - 1], r.0.value);
      assert r.1 == s.personas[id - 1 := r.0.value];
      ReplacePersona(s, id - 1, r.0.value, r.1);
    }
  }

  /** Under the invariant, listing never fails once the request is
      authenticated and its parameters are accepted: every row serialises. */
  lemma ListPersonsSucceeds(payload: Option<Dict>, users: seq<Row>, s: PartyStore, skip: int, limit: int, tipo: Option<string>)
    requires ApiInvariant(s)
    requires GetCurrentUser(payload, users).Success?
    requires 0 <= skip && 1 <= limit <= 100 && (tipo.Some? ==> ParseTipoPersona(tipo.value).Some?)
    ensures ListPersons(payload, users, s, skip, limit, tipo).Success?
  {
    var source := Listed(s.personas, if tipo.None? then None else ParseTipoPersona(tipo.value));
    var rows := Page(source, skip, limit);
    forall x | x in rows ensures ToPersonaResponse(x).Some? {
      var k :| 0 <= k < |rows| && rows[k] == x;
      assert source[skip + k] in source;
    }
  }

  /** The create route as written refuses exactly the requests the intended
      route accepts: an authenticated, valid request with fresh numbers is
      created by `CreatePerson` and answered 500 by `CreatePersonAsWritten`. */
  lemma CreatePersonAsWrittenRefusesFresh(payload: Option<Dict>, users: seq<Row>, s: PartyStore, data: PersonaCreate, now: nat)
    requires ApiInvariant(s)
    requires GetCurrentUser(payload, users).Success? && data.Valid()
    requires data.identificaciones != [] && NumbersFresh(s.identificaciones, data.identificaciones)
    ensures CreatePerson(payload, users, s, data, now).0.Success?
    ensures CreatePersonAsWritten(payload, users, s, data, now) == (Failure(InternalError), s)
  {
    CreatePersonCreates(payload, users, s, data, now);
  }

  /** The list route as written fails on every accepted request with a type
      filter, where the intended route always answers. */
  lemma ListByTipoAsWrittenFails(payload: Option<Dict>, users: seq<Row>, s: PartyStore, skip: int, limit: int, tipo: string)
    requires ApiInvariant(s)
    requires GetCurrentUser(payload, users).Success?
    requires 0 <= skip && 1 <= limit <= 100 && ParseTipoPersona(tipo).Some?
    ensures ListPersons(payload, users, s, skip, limit, Some(tipo)).Success?
    ensures ListPersonsAsWritten(payload, users, s, skip, limit, Some(tipo)) == Failure(InternalError)
  {
    ListPersonsSucceeds(payload, users, s, skip, limit, Some(tipo));
  }
}
