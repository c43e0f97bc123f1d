/**
 * The party tables of app/models/persona.py: a `persona` and the rows it owns.
 *
 * Every table inherits the audit columns of `BaseModel` (module Records).
 * Identifications and contacts are owned by their persona (relationship
 * cascade "all, delete-orphan"); the client, supplier and employee profiles are
 * optional one-to-one rows whose `persona_id` is UNIQUE and whose relationship
 * carries no cascade.
 *
 * Three declarations of the source are modelled one way and flagged here:
 * `Contacto.tipo` is typed `TipoIdentificacion` although contacts are typed
 * by `TipoContacto` in the request schema (the column is a plain string either
 * way, so the model stores the string); `Cliente.dias_credito` is declared
 * `Numeric(12,2)` (an integer here, like every amount); the contact request's
 * `es_principal` has no column in `Contacto`.
 */
module PersonaModel {
  import opened Wrappers
  import opened Records
  import opened Repository

  // ---------------------------------------------------------------------------
  // The string enums

  datatype TipoIdentificacion = Ruc | Cedula | Pasaporte
  {
    /** The stored string (`.value` of the Python member). */
    function Value(): string {
      match this
      case Ruc => "ruc"
      case Cedula => "cedula"
      case Pasaporte => "pasaporte"
    }
  }

  datatype TipoPersona = Natural | Juridica
  {
    function Value(): string {
      match this
      case Natural => "natural"
      case Juridica => "juridica"
    }
  }

  datatype TipoContacto = Telefono | Celular | Email | Direccion
  {
    function Value(): string {
      match this
      case Telefono => "telefono"
      case Celular => "celular"
      case Email => "email"
      case Direccion => "direccion"
    }
  }

  /** `TipoIdentificacion(s)`: the member whose value is `s`, if any. */
  function ParseTipoIdentificacion(s: string): (r: Option<TipoIdentificacion>)
    ensures r.Some? ==> r.value.Value() == s
    ensures r.None? ==> forall t: TipoIdentificacion :: t.Value() != s
  {
    if s == "ruc" then Some(Ruc)
    else if s == "cedula" then Some(Cedula)
    else if s == "pasaporte" then Some(Pasaporte)
    else None
  }

  /** `TipoPersona(s)`: the member whose value is `s`, if any. */
  function ParseTipoPersona(s: string): (r: Option<TipoPersona>)
    ensures r.Some? ==> r.value.Value() == s
    ensures r.None? ==> forall t: TipoPersona :: t.Value() != s
  {
    if s == "natural" then Some(Natural)
    else if s == "juridica" then Some(Juridica)
    else None
  }

  /** `TipoContacto(s)`: the member whose value is `s`, if any. */
  function ParseTipoContacto(s: string): (r: Option<TipoContacto>)
    ensures r.Some? ==> r.value.Value() == s
    ensures r.None? ==> forall t: TipoContacto :: t.Value() != s
  {
    if s == "telefono" then Some(Telefono)
    else if s == "celular" then Some(Celular)
    else if s == "email" then Some(Email)
    else if s == "direccion" then Some(Direccion)
    else None
  }

  /** Each member is recovered from its stored string, so distinct members
      have distinct strings. */
  lemma EnumRoundTrips()
    ensures forall t: TipoIdentificacion :: ParseTipoIdentificacion(t.Value()) == Some(t)
    ensures forall t: TipoPersona :: ParseTipoPersona(t.Value()) == Some(t)
    ensures forall t: TipoContacto :: ParseTipoContacto(t.Value()) == Some(t)
  {
  }

  // ---------------------------------------------------------------------------
  // Columns and tables

  const PersonaId: string := "persona_id"
  const TipoPersonaCol: string := "tipo_persona"
  const Nombre: string := "nombre"
  const Apellido: string := "apellido"
  const RazonSocial: string := "razon_social"
  const NombreComercial: string := "nombre_comercial"
  const Tipo: string := "tipo"
  const Numero: string := "numero"
  const EsPrincipal: string := "es_principal"
  const Valor: string := "valor"
  const LimiteCredito: string := "limite_credito"
  const DiasCredito: string := "dias_credito"
  const Cargo: string := "cargo"
  const Salario: string := "salario"
  const FechaIngreso: string := "fecha_ingreso"

  /** `persona`: no UNIQUE column (the identification columns of an earlier
      design are commented out in the source). */
  const PersonaSchema: Schema :=
    Schema({IsActive, TipoPersonaCol, Nombre, Apellido, RazonSocial, NombreComercial},
           map[IsActive := Bool(true)], {})

  /** `identificacion`: `numero` is UNIQUE, `es_principal` defaults to False. */
  const IdentificacionSchema: Schema :=
    Schema({IsActive, PersonaId, Tipo, Numero, EsPrincipal},
           map[IsActive := Bool(true), EsPrincipal := Bool(false)], {Numero})

  /** `contacto`: `valor` is UNIQUE. */
  const ContactoSchema: Schema :=
    Schema({IsActive, PersonaId, Tipo, Valor}, map[IsActive := Bool(true)], {Valor})

  /** `cliente`: one per persona. */
  const ClienteSchema: Schema :=
    Schema({IsActive, PersonaId, LimiteCredito, DiasCredito}, map[IsActive := Bool(true)], {PersonaId})

  /** `proveedor`: one per persona, `dias_credito` defaults to 0. */
  const ProveedorSchema: Schema :=
    Schema({IsActive, PersonaId, DiasCredito},
           map[IsActive := Bool(true), DiasCredito := Int(0)], {PersonaId})

  /** `empleado`: one per persona, `salario` defaults to 0. */
  const EmpleadoSchema: Schema :=
    Schema({IsActive, PersonaId, Cargo, Salario, FechaIngreso},
           map[IsActive := Bool(true), Salario := Int(0)], {PersonaId})

  lemma SchemasWellFormed()
    ensures PersonaSchema.WellFormed() && IdentificacionSchema.WellFormed()
    ensures ContactoSchema.WellFormed() && ClienteSchema.WellFormed()
    ensures ProveedorSchema.WellFormed() && EmpleadoSchema.WellFormed()
  {
  }

  /** A `persona` row whose values fit the declared columns: `tipo_persona`
      is a member of `TipoPersona`, the names fit `String(250)` and
      `String(400)`, and the flag is a boolean. */
  predicate PersonaRowTyped(r: Row) {
    && Column(r, IsActive).Bool?
    && Column(r, TipoPersonaCol).Str? && ParseTipoPersona(Column(r, TipoPersonaCol).s).Some?
    && NullOrStrAtMost(Column(r, Nombre), 250) && NullOrStrAtMost(Column(r, Apellido), 250)
    && NullOrStrAtMost(Column(r, RazonSocial), 400) && NullOrStrAtMost(Column(r, NombreComercial), 400)
  }

  /** An `identificacion` row whose values fit the declared columns. */
  predicate IdentificacionRowTyped(r: Row) {
    && Column(r, IsActive).Bool?
    && Column(r, PersonaId).Int?
    && Column(r, Tipo).Str? && ParseTipoIdentificacion(Column(r, Tipo).s).Some?
    && Column(r, Numero).Str? && |Column(r, Numero).s| <= 30
    && Column(r, EsPrincipal).Bool?
  }

  // ---------------------------------------------------------------------------
  // The party store

  /** The six tables of the party registry. */
  datatype PartyStore = PartyStore(
    personas: seq<Row>,
    identificaciones: seq<Row>,
    contactos: seq<Row>,
    clientes: seq<Row>,
    proveedores: seq<Row>,
    empleados: seq<Row>)

  /** The primary keys of `rows`. */
  function Ids(rows: seq<Row>): set<int> {
    set r | r in rows :: r.id as int
  }

  /** The `persona_id` of a child row. */
  function Owner(r: Row): Value {
    Column(r, PersonaId)
  }

  /** Every child carries a non-NULL key of an existing persona (the NOT NULL
      foreign key `persona_id`). */
  predicate OwnedBy(children: seq<Row>, personas: seq<Row>) {
    forall x :: x in children ==> Owner(x).Int? && Owner(x).i in Ids(personas)
  }

  /** Referential integrity of the whole store. */
  predicate Integrity(s: PartyStore) {
    && OwnedBy(s.identificaciones, s.personas)
    && OwnedBy(s.contactos, s.personas)
    && OwnedBy(s.clientes, s.personas)
    && OwnedBy(s.proveedores, s.personas)
    && OwnedBy(s.empleados, s.personas)
  }

  /** Every table keeps its own invariant, and the store is referentially
      sound. */
  ghost predicate Consistent(s: PartyStore) {
    && TableInvariant(PersonaSchema, s.personas)
    && TableInvariant(IdentificacionSchema, s.identificaciones)
    && TableInvariant(ContactoSchema, s.contactos)
    && TableInvariant(ClienteSchema, s.clientes)
    && TableInvariant(ProveedorSchema, s.proveedores)
    && TableInvariant(EmpleadoSchema, s.empleados)
    && Integrity(s)
  }

  /** The rows of `rows` whose key is not `id`, in storage order: increasing
      keys stay increasing. */
  function ExceptId(rows: seq<Row>, id: int): (r: seq<Row>)
    ensures |r| <= |rows|
    ensures forall x :: x in r <==> x in rows && x.id != id
    ensures IdsIncreasing(rows) ==> IdsIncreasing(r)
  {
    if rows == [] then []
    else
      assert rows == [rows[0]] + rows[1..];
      var rest := ExceptId(rows[1..], id);
      var head := if rows[0].id != id then [rows[0]] else [];
      if IdsIncreasing(rows) then PrependIncreasing(rows, head, rest); head + rest else head + rest
  }

  /** The rows of `rows` not owned by persona `pid`, in storage order:
      increasing keys stay increasing. */
  function NotOwnedBy(rows: seq<Row>, pid: int): (r: seq<Row>)
    ensures |r| <= |rows|
    ensures forall x :: x in r <==> x in rows && Owner(x) != Int(pid)
    ensures IdsIncreasing(rows) ==> IdsIncreasing(r)
  {
    if rows == [] then []
    else
      assert rows == [rows[0]] + rows[1..];
      var rest := NotOwnedBy(rows[1..], pid);
      var head := if Owner(rows[0]) != Int(pid) then [rows[0]] else [];
      if IdsIncreasing(rows) then PrependIncreasing(rows, head, rest); head + rest else head + rest
  }

  /** Some client, supplier or employee profile refers to persona `pid`. */
  predicate HasProfile(s: PartyStore, pid: int) {
    || (exists x :: x in s.clientes && Owner(x) == Int(pid))
    || (exists x :: x in s.proveedores && Owner(x) == Int(pid))
    || (exists x :: x in s.empleados && Owner(x) == Int(pid))
  }

  /** Removing persona `pid` from the session. Identifications and contacts go
      with it (cascade "all, delete-orphan"). The profiles have no cascade: the
      flush would set their NOT NULL `persona_id` to NULL, which the database
      refuses, so the removal fails (None) while a profile refers to the
      persona. The application itself only ever soft-deletes. */
  function RemovePersona(s: PartyStore, pid: int): (r: Option<PartyStore>)
    ensures r.None? <==> HasProfile(s, pid)
  {
    if HasProfile(s, pid) then None
    else Some(PartyStore(
      ExceptId(s.personas, pid),
      NotOwnedBy(s.identificaciones, pid),
      NotOwnedBy(s.contactos, pid),
      s.clientes, s.proveedores, s.empleados))
  }

  /** Removing an identification from its persona's list deletes the row
      (delete-orphan): it is not kept with a NULL owner. */
  function DetachIdentificacion(s: PartyStore, identId: int): (r: PartyStore)
    ensures forall x :: x in r.identificaciones ==> x.id != identId
    ensures forall x :: x in s.identificaciones && x.id != identId ==> x in r.identificaciones
    ensures forall x :: x in r.identificaciones ==> x in s.identificaciones
  {
    s.(identificaciones := ExceptId(s.identificaciones, identId))
  }

  /** Children that keep a key other than `pid` survive the removal of `pid`. */
  lemma OwnedByAfterRemoval(children: seq<Row>, personas: seq<Row>, pid: int)
    requires OwnedBy(children, personas)
    requires forall x :: x in children ==> Owner(x) != Int(pid)
    ensures OwnedBy(children, ExceptId(personas, pid))
  {
    var rest := ExceptId(personas, pid);
    forall x | x in children ensures Owner(x).Int? && Owner(x).i in Ids(rest) {
      var p :| p in personas && p.id as int == Owner(x).i;
      assert p in rest;
    }
  }

  /** Removing a persona keeps the store referentially sound, takes exactly its
      identifications and contacts with it, and leaves every profile row in
      place; it is refused while a profile still refers to the persona. */
  lemma RemovePersonaSpec(s: PartyStore, pid: int)
    requires Integrity(s)
    ensures var r := RemovePersona(s, pid);
      r.Some? ==>
        && Integrity(r.value)
        && pid !in Ids(r.value.personas)
        && (forall p :: p in s.personas && p.id != pid ==> p in r.value.personas)
        && (forall x :: x in r.value.identificaciones ==> x in s.identificaciones && Owner(x) != Int(pid))
        && (forall x :: x in s.identificaciones && Owner(x) != Int(pid) ==> x in r.value.identificaciones)
        && (forall x :: x in r.value.contactos ==> x in s.contactos && Owner(x) != Int(pid))
        && (forall x :: x in s.contactos && Owner(x) != Int(pid) ==> x in r.value.contactos)
        && r.value.clientes == s.clientes && r.value.proveedores == s.proveedores
        && r.value.empleados == s.empleados
  {
    var r := RemovePersona(s, pid);
    if r.Some? {
      var t := r.value;
      OwnedByAfterRemoval(t.identificaciones, s.personas, pid);
      OwnedByAfterRemoval(t.contactos, s.personas, pid);
      OwnedByAfterRemoval(t.clientes, s.personas, pid);
      OwnedByAfterRemoval(t.proveedores, s.personas, pid);
      OwnedByAfterRemoval(t.empleados, s.personas, pid);
    }
  }

  /** Detaching an identification never leaves a child without its persona. */
  lemma DetachKeepsIntegrity(s: PartyStore, identId: int)
    requires Integrity(s)
    ensures Integrity(DetachIdentificacion(s, identId))
  {
  }

  /** A persona has at most one client, one supplier and one employee profile;
      and a profile insert for persona `pid` succeeds exactly when that kind of
      profile does not exist yet, whatever the other two tables hold. */
  lemma OneProfilePerKind(s: PartyStore, pid: int, data: Dict, now: nat)
    requires Consistent(s)
    requires PersonaId in data && data[PersonaId] == Int(pid)
    ensures |Where(s.clientes, PersonaId, Int(pid))| <= 1
    ensures |Where(s.proveedores, PersonaId, Int(pid))| <= 1
    ensures |Where(s.empleados, PersonaId, Int(pid))| <= 1
    ensures InsertRow(ClienteSchema, s.clientes, data, now).0.Some? <==> Where(s.clientes, PersonaId, Int(pid)) == []
    ensures InsertRow(ProveedorSchema, s.proveedores, data, now).0.Some? <==> Where(s.proveedores, PersonaId, Int(pid)) == []
    ensures InsertRow(EmpleadoSchema, s.empleados, data, now).0.Some? <==> Where(s.empleados, PersonaId, Int(pid)) == []
  {
    assert PersonaId in ClienteSchema.unique && PersonaId in ProveedorSchema.unique && PersonaId in EmpleadoSchema.unique;
    UniqueWhere(s.clientes, PersonaId, Int(pid));
    UniqueWhere(s.proveedores, PersonaId, Int(pid));
    UniqueWhere(s.empleados, PersonaId, Int(pid));
    InsertSingleUniqueIff(ClienteSchema, s.clientes, data, now, PersonaId);
    InsertSingleUniqueIff(ProveedorSchema, s.proveedores, data, now, PersonaId);
    InsertSingleUniqueIff(EmpleadoSchema, s.empleados, data, now, PersonaId);
  }

  /** `numero` and `valor` are unique over their whole tables, rows of inactive
      personas included: a second row with a stored value is refused. */
  lemma NumberAndValueUnique(s: PartyStore, ident: Dict, contact: Dict, now: nat)
    requires Consistent(s)
    requires Numero in ident && ident[Numero] != Null
    requires Valor in contact && contact[Valor] != Null
    ensures |Where(s.identificaciones, Numero, ident[Numero])| <= 1
    ensures |Where(s.contactos, Valor, contact[Valor])| <= 1
    ensures InsertRow(IdentificacionSchema, s.identificaciones, ident, now).0.Some? <==>
      forall x :: x in s.identificaciones ==> Column(x, Numero) != ident[Numero]
    ensures InsertRow(ContactoSchema, s.contactos, contact, now).0.Some? <==>
      forall x :: x in s.contactos ==> Column(x, Valor) != contact[Valor]
  {
    assert Numero in IdentificacionSchema.unique && Valor in ContactoSchema.unique;
    UniqueWhere(s.identificaciones, Numero, ident[Numero]);
    UniqueWhere(s.contactos, Valor, contact[Valor]);
    InsertSingleUniqueIff(IdentificacionSchema, s.identificaciones, ident, now, Numero);
    InsertSingleUniqueIff(ContactoSchema, s.contactos, contact, now, Valor);
    if Where(s.identificaciones, Numero, ident[Numero]) != [] {
      assert Where(s.identificaciones, Numero, ident[Numero])[0] in Where(s.identificaciones, Numero, ident[Numero]);
    }
    if Where(s.contactos, Valor, contact[Valor]) != [] {
      assert Where(s.contactos, Valor, contact[Valor])[0] in Where(s.contactos, Valor, contact[Valor]);
    }
  }
}
