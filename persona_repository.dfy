/**
 * The persona queries of app/repositories/persona_repository.py.
 *
 * As written, both queries filter on columns the `Persona` model no longer
 * maps (`numero_identificacion` and `tipo` are commented out in
 * app/models/persona.py) and would fail. The model follows the evident intent:
 * the identification lookup goes through the `identificacion` rows and their
 * owning persona, and the type filter uses the live column `tipo_persona`.
 * (The service calls the lookup `get_by_identificacion`; the repository
 * spells it `get_by_identifacion`. Both name this one function.)
 */
module PersonaRepository {
  import opened Wrappers
  import opened Records
  import opened Repository
  import opened PersonaModel

  /** `get_by_identifacion(numero)`: the active persona owning the
      identification row with that number. The UNIQUE constraint on `numero`
      leaves at most one such row, so `scalar_one_or_none` never raises. */
  function GetByIdentificacion(personas: seq<Row>, idents: seq<Row>, numero: string): (r: Option<Row>)
    requires UniqueOn(idents, Numero)
    ensures r.Some? ==>
      && r.value in personas && Active(r.value)
      && exists x :: x in idents && Column(x, Numero) == Str(numero) && Owner(x) == Int(r.value.id)
    ensures r.None? ==>
      forall x, p :: x in idents && Column(x, Numero) == Str(numero) && p in personas && Owner(x) == Int(p.id) ==>
        !Active(p)
  {
    UniqueWhere(idents, Numero, Str(numero));
    var found := Where(idents, Numero, Str(numero));
    match ScalarOneOrNone(found)
    case None => None
    case Some(x) =>
      assert forall y :: y in found ==> y == x;
      if Owner(x).Int? then GetById(personas, Owner(x).i) else None
  }

  /** Some identification with that number belongs to an active persona. */
  predicate HeldByActive(personas: seq<Row>, idents: seq<Row>, numero: string) {
    exists x, p ::
      x in idents && Column(x, Numero) == Str(numero) && p in personas && Owner(x) == Int(p.id) && Active(p)
  }

  /** `identificacion_exists(numero)`: some active persona owns an
      identification with that number. A number whose owner was soft-deleted
      is reported as free. */
  function IdentificacionExists(personas: seq<Row>, idents: seq<Row>, numero: string): (b: bool)
    requires UniqueOn(idents, Numero)
    ensures b <==> HeldByActive(personas, idents, numero)
  {
    GetByIdentificacion(personas, idents, numero).Some?
  }

  /** The active personas of one type, in storage order. */
  function ActiveOfTipo(personas: seq<Row>, tipo: TipoPersona): (r: seq<Row>)
    ensures forall x :: x in r <==> x in personas && Active(x) && Column(x, TipoPersonaCol) == Str(tipo.Value())
    ensures IdsIncreasing(personas) ==> IdsIncreasing(r)
  {
    Where(ActiveRows(personas), TipoPersonaCol, Str(tipo.Value()))
  }

  /** The rows a persona listing pages over: the active personas, only those
      of the given type when one is given. */
  function Listed(personas: seq<Row>, tipo: Option<TipoPersona>): (r: seq<Row>)
    ensures forall x :: x in r <==>
      x in personas && Active(x) && (tipo.Some? ==> Column(x, TipoPersonaCol) == Str(tipo.value.Value()))
    ensures IdsIncreasing(personas) ==> IdsIncreasing(r)
  {
    if tipo.None? then ActiveRows(personas) else ActiveOfTipo(personas, tipo.value)
  }

  /** `get_by_tipo(tipo, skip, limit)`: a page of the active personas of that
      type. */
  function GetByTipo(personas: seq<Row>, tipo: TipoPersona, skip: nat, limit: nat): (r: seq<Row>)
    ensures |r| <= limit
    ensures |r| == PageLength(|ActiveOfTipo(personas, tipo)|, skip, limit)
    ensures forall x :: x in r ==> x in personas && Active(x) && Column(x, TipoPersonaCol) == Str(tipo.Value())
    ensures forall k :: 0 <= k < |r| ==> skip + k < |ActiveOfTipo(personas, tipo)| && r[k] == ActiveOfTipo(personas, tipo)[skip + k]
  {
    Page(ActiveOfTipo(personas, tipo), skip, limit)
  }

  /** A number held only by identifications of inactive personas is reported
      as free, yet it is still stored, so the UNIQUE constraint refuses a new
      identification with it. */
  lemma InactiveNumberFreeButTaken(personas: seq<Row>, idents: seq<Row>, numero: string, data: Dict, now: nat)
    requires UniqueOn(idents, Numero)
    requires exists x :: x in idents && Column(x, Numero) == Str(numero)
    requires forall x, p :: x in idents && Column(x, Numero) == Str(numero) && p in personas && Owner(x) == Int(p.id) ==>
      !Active(p)
    requires Numero in data && data[Numero] == Str(numero)
    ensures !IdentificacionExists(personas, idents, numero)
    ensures InsertRow(IdentificacionSchema, idents, data, now).0.None?
  {
    InsertSingleUniqueIff(IdentificacionSchema, idents, data, now, Numero);
    WhereEmpty(idents, Numero, Str(numero));
  }
}
