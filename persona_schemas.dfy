/**
 * The request schemas of app/schemas/persona.py: the field constraints that
 * validation enforces before a handler runs (as `Valid` predicates), and the
 * dictionaries `model_dump` hands to the repositories.
 *
 * A field with a default of None is an `Option`; a field of `PersonaUpdate`
 * is a `Field`, which also records whether the client sent it, because the
 * update dumps with `exclude_unset=True`. Decimal amounts are integer cents.
 */
module PersonaSchemas {
  import opened Wrappers
  import opened Records
  import opened Repository
  import opened PersonaModel

  // ---------------------------------------------------------------------------
  // Identifications, contacts and personas

  datatype IdentificacionCreate = IdentificacionCreate(tipo: TipoIdentificacion, numero: string, esPrincipal: bool)
  {
    /** `numero` has 5 to 30 characters. */
    predicate Valid() {
      5 <= |numero| <= 30
    }
  }

  datatype ContactoCreate = ContactoCreate(tipo: TipoContacto, valor: string, esPrincipal: bool)
  {
    /** `valor` has 1 to 300 characters. */
    predicate Valid() {
      1 <= |valor| <= 300
    }
  }

  /** The identification and contact lists default to empty. */
  datatype PersonaCreate = PersonaCreate(
    tipoPersona: TipoPersona,
    nombre: Option<string>,
    apellido: Option<string>,
    razonSocial: Option<string>,
    nombreComercial: Option<string>,
    identificaciones: seq<IdentificacionCreate>,
    contactos: seq<ContactoCreate>)
  {
    predicate Valid() {
      && OptAtMost(nombre, 250) && OptAtMost(apellido, 250)
      && OptAtMost(razonSocial, 400) && OptAtMost(nombreComercial, 400)
      && (forall k :: 0 <= k < |identificaciones| ==> identificaciones[k].Valid())
      && (forall k :: 0 <= k < |contactos| ==> contactos[k].Valid())
    }
  }

  /** Every field is optional and defaults to None. */
  datatype PersonaUpdate = PersonaUpdate(
    tipoPersona: Field<TipoPersona>,
    nombre: Field<string>,
    apellido: Field<string>,
    razonSocial: Field<string>,
    nombreComercial: Field<string>,
    isActive: Field<bool>)
  {
    predicate Valid() {
      && FieldAtMost(nombre, 250) && FieldAtMost(apellido, 250)
      && FieldAtMost(razonSocial, 400) && FieldAtMost(nombreComercial, 400)
    }
  }

  /** The schema accepts a persona with only `tipo_persona` sent: no names and
      no identification at all, and an update that sends nothing. */
  lemma DefaultsAccepted(tipo: TipoPersona)
    ensures PersonaCreate(tipo, None, None, None, None, [], []).Valid()
    ensures PersonaUpdate(Unset, Unset, Unset, Unset, Unset, Unset).Valid()
  {
  }

  /** The persona columns of a create request: the dump without the two lists.
      The service's `exclude` names `identificacion` and `contacto`, which are
      not the schema's field names `identificaciones` and `contactos`, so the
      dump it builds keeps both lists and `Persona(**persona_data)` refuses
      them (TypeError). The model follows the evident intent: the scalar
      fields only. */
  function PersonaCreateColumns(d: PersonaCreate): (r: Dict)
    ensures r.Keys == {TipoPersonaCol, Nombre, Apellido, RazonSocial, NombreComercial}
    ensures r.Keys <= PersonaSchema.columns && IsActive !in r
  {
    map[TipoPersonaCol := Str(d.tipoPersona.Value()),
        Nombre := OptStr(d.nombre), Apellido := OptStr(d.apellido),
        RazonSocial := OptStr(d.razonSocial), NombreComercial := OptStr(d.nombreComercial)]
  }

  /** `identificacion.model_dump()` with `persona_id` added. */
  function IdentificacionColumns(i: IdentificacionCreate, pid: nat): (r: Dict)
    ensures r.Keys == IdentificacionSchema.columns - {IsActive}
  {
    map[Tipo := Str(i.tipo.Value()), Numero := Str(i.numero),
        EsPrincipal := Bool(i.esPrincipal), PersonaId := Int(pid)]
  }

  /** The dump entry of field `c` of an update (None when it was not sent). */
  function SentField(u: PersonaUpdate, c: string): Option<Value> {
    if c == TipoPersonaCol then
      (if u.tipoPersona.Unset? then None
       else Some(if u.tipoPersona.value.Some? then Str(u.tipoPersona.value.value.Value()) else Null))
    else if c == Nombre then SentStr(u.nombre)
    else if c == Apellido then SentStr(u.apellido)
    else if c == RazonSocial then SentStr(u.razonSocial)
    else if c == NombreComercial then SentStr(u.nombreComercial)
    else if c == IsActive then SentBool(u.isActive)
    else None
  }

  /** `PersonaUpdate.model_dump(exclude_unset=True)`: exactly the sent fields,
      an explicit None as NULL. */
  function UpdateDump(u: PersonaUpdate): (d: Dict)
    ensures d.Keys <= PersonaSchema.columns
    ensures TipoPersonaCol in d <==> u.tipoPersona.Given?
    ensures Nombre in d <==> u.nombre.Given?
    ensures Apellido in d <==> u.apellido.Given?
    ensures RazonSocial in d <==> u.razonSocial.Given?
    ensures NombreComercial in d <==> u.nombreComercial.Given?
    ensures IsActive in d <==> u.isActive.Given?
    ensures TipoPersonaCol in d ==>
      d[TipoPersonaCol] == (if u.tipoPersona.value.Some? then Str(u.tipoPersona.value.value.Value()) else Null)
    ensures Nombre in d ==> d[Nombre] == OptStr(u.nombre.value)
    ensures Apellido in d ==> d[Apellido] == OptStr(u.apellido.value)
    ensures RazonSocial in d ==> d[RazonSocial] == OptStr(u.razonSocial.value)
    ensures NombreComercial in d ==> d[NombreComercial] == OptStr(u.nombreComercial.value)
    ensures IsActive in d ==> d[IsActive] == (if u.isActive.value.Some? then Bool(u.isActive.value.value) else Null)
  {
    map c | c in PersonaSchema.columns && SentField(u, c).Some? :: SentField(u, c).value
  }

  /** A new persona row built from a valid request is active and well typed. */
  lemma NewPersonaRowTyped(d: PersonaCreate, id: nat, now: nat)
    requires d.Valid()
    ensures var r := NewRow(PersonaSchema, id, now, PersonaCreateColumns(d));
      Active(r) && PersonaRowTyped(r) && ParseTipoPersona(Column(r, TipoPersonaCol).s) == Some(d.tipoPersona)
  {
    EnumRoundTrips();
  }

  /** A new identification row built from a valid entry is active, well typed,
      owned by `pid`, and carries the entry's number. */
  lemma NewIdentificacionRowTyped(i: IdentificacionCreate, pid: nat, id: nat, now: nat)
    requires i.Valid()
    ensures var r := NewRow(IdentificacionSchema, id, now, IdentificacionColumns(i, pid));
      && Active(r) && IdentificacionRowTyped(r)
      && Owner(r) == Int(pid) && Column(r, Numero) == Str(i.numero)
      && ParseTipoIdentificacion(Column(r, Tipo).s) == Some(i.tipo)
  {
    EnumRoundTrips();
  }

  /** A valid update keeps a persona row well typed: it writes only sent,
      non-None values, each within its column's bounds. */
  lemma UpdateKeepsTyped(r: Row, u: PersonaUpdate)
    requires u.Valid() && PersonaRowTyped(r)
    requires PersonaSchema.columns <= r.columns.Keys
    ensures UpdateDump(u).Keys <= r.columns.Keys
    ensures PersonaRowTyped(r.(columns := Patched(r.columns, UpdateDump(u))))
  {
    EnumRoundTrips();
    var d := UpdateDump(u);
    var r' := r.(columns := Patched(r.columns, d));
    assert Column(r', IsActive).Bool?;
    assert Column(r', TipoPersonaCol).Str? && ParseTipoPersona(Column(r', TipoPersonaCol).s).Some?;
    assert NullOrStrAtMost(Column(r', Nombre), 250);
    assert NullOrStrAtMost(Column(r', Apellido), 250);
    assert NullOrStrAtMost(Column(r', RazonSocial), 400);
    assert NullOrStrAtMost(Column(r', NombreComercial), 400);
  }

  // ---------------------------------------------------------------------------
  // Client, supplier and employee profiles (amounts are >= 0 wherever they
  // appear)

  datatype ClienteCreate = ClienteCreate(personaId: int, limiteCredito: int, diasCredito: int)
  {
    predicate Valid() { limiteCredito >= 0 && diasCredito >= 0 }
  }

  datatype ClienteCreateWithPersona = ClienteCreateWithPersona(persona: PersonaCreate, limiteCredito: int, diasCredito: int)
  {
    predicate Valid() { persona.Valid() && limiteCredito >= 0 && diasCredito >= 0 }
  }

  /** The two amounts default to 0 rather than None. */
  datatype ClienteUpdate = ClienteUpdate(limiteCredito: int, diasCredito: int, isActive: Option<bool>)
  {
    predicate Valid() { limiteCredito >= 0 && diasCredito >= 0 }
  }

  /** `cuenta_bancaria` and `banco` have no column in `proveedor`. */
  datatype ProveedorCreate = ProveedorCreate(personaId: int, diasCredito: int, cuentaBancaria: Option<string>, banco: Option<string>)
  {
    predicate Valid() { diasCredito >= 0 && OptAtMost(cuentaBancaria, 50) && OptAtMost(banco, 100) }
  }

  datatype ProveedorCreateWithPersona = ProveedorCreateWithPersona(persona: PersonaCreate, diasCredito: int, cuentaBancaria: Option<string>, banco: Option<string>)
  {
    predicate Valid() {
      persona.Valid() && diasCredito >= 0 && OptAtMost(cuentaBancaria, 50) && OptAtMost(banco, 100)
    }
  }

  datatype ProveedorUpdate = ProveedorUpdate(diasCredito: Option<int>, cuentaBancaria: Option<string>, banco: Option<string>, isActive: Option<bool>)
  {
    predicate Valid() {
      (diasCredito.Some? ==> diasCredito.value >= 0) && OptAtMost(cuentaBancaria, 50) && OptAtMost(banco, 100)
    }
  }

  datatype EmpleadoCreate = EmpleadoCreate(personaId: int, cargo: Option<string>, salario: int, fechaIngreso: Option<string>)
  {
    predicate Valid() { OptAtMost(cargo, 100) && salario >= 0 }
  }

  datatype EmpleadoCreateWithPersona = EmpleadoCreateWithPersona(persona: PersonaCreate, cargo: Option<string>, salario: int, fechaIngreso: Option<string>)
  {
    predicate Valid() { persona.Valid() && OptAtMost(cargo, 100) && salario >= 0 }
  }

  datatype EmpleadoUpdate = EmpleadoUpdate(cargo: Option<string>, salario: Option<int>, fechaIngreso: Option<string>, isActive: Option<bool>)
  {
    predicate Valid() { OptAtMost(cargo, 100) && (salario.Some? ==> salario.value >= 0) }
  }
}
