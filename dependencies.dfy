/**
 * The request dependencies of app/core/dependencies.py: who is calling
 * (`get_current_user`) and whether their role admits them (`require_roles`).
 *
 * `decode_token` lives in a module this model does not include: a handler
 * receives its result, the decoded payload or None for a token that is
 * missing, malformed or expired. A request without an `Authorization`
 * header is refused by the bearer scheme before this chain runs, and is not
 * part of this model.
 */
module Dependencies {
  import opened Wrappers
  import opened Records
  import opened Repository
  import opened UserModel
  import opened Numerals
  import opened Http
  import opened AuthService

  const TokenExpired: string := "Token not found invalid/expired"
  const TokenInvalid: string := "Token invalid"
  const UserNotFound: string := "User not found"

  /** `int(v)` for a claim value: an integer as itself, a boolean as 1 or 0,
      a string through `ParseInt`. */
  function SubjectId(v: Value): Option<int> {
    match v
    case Int(i) => Some(i)
    case Bool(b) => Some(if b then 1 else 0)
    case Str(s) => ParseInt(s)
    case Null => None
  }

  /** `get_current_user`: the decision chain over the decoded payload.
      - no payload: 401 "Token not found invalid/expired";
      - no `sub` (or a null one): 401 "Token invalid";
      - a `sub` that `int` refuses: the ValueError is not handled (500);
      - no active user with that id: 401 "User not found";
      - otherwise that user. */
  function GetCurrentUser(payload: Option<Dict>, users: seq<Row>): (r: Result<Row, HttpError>)
    ensures payload.None? ==> r == Failure(HttpError(Unauthorized, TokenExpired))
    ensures payload.Some? && (Sub !in payload.value || payload.value[Sub] == Null) ==>
      r == Failure(HttpError(Unauthorized, TokenInvalid))
    ensures payload.Some? && Sub in payload.value && payload.value[Sub] != Null ==>
      match SubjectId(payload.value[Sub])
      case None => r == Failure(InternalError)
      case Some(id) =>
        && (r.Success? ==> r.value in users && r.value.id == id && Active(r.value))
        && (r.Failure? <==> forall x :: x in users && x.id == id ==> !Active(x))
        && (r.Failure? ==> r.error == HttpError(Unauthorized, UserNotFound))
  {
    if payload.None? then Failure(HttpError(Unauthorized, TokenExpired))
    else if Sub !in payload.value || payload.value[Sub] == Null then Failure(HttpError(Unauthorized, TokenInvalid))
    else match SubjectId(payload.value[Sub])
      case None => Failure(InternalError)
      case Some(id) =>
        match GetById(users, id)
        case None => Failure(HttpError(Unauthorized, UserNotFound))
        case Some(u) => Success(u)
  }

  /** Python's `str` of a list of strings: `['a', 'b']`. */
  function StrList(vs: seq<string>): string {
    "[" + Quoted(vs) + "]"
  }

  function Quoted(vs: seq<string>): string {
    if vs == [] then ""
    else if |vs| == 1 then "'" + vs[0] + "'"
    else Quoted(vs[..|vs| - 1]) + ", '" + vs[|vs| - 1] + "'"
  }

  function RoleValues(allowed: seq<UserRole>): (vs: seq<string>)
    ensures |vs| == |allowed| && forall k :: 0 <= k < |vs| ==> vs[k] == allowed[k].Value()
  {
    seq(|allowed|, k requires 0 <= k < |allowed| => allowed[k].Value())
  }

  const RolesPrefix: string := "Se requiere uno de estos roles: "

  /** The detail of a refused role. */
  function RolesDetail(allowed: seq<UserRole>): string {
    RolesPrefix + StrList(RoleValues(allowed))
  }

  /** The detail `require_admin` produces. */
  lemma AdminDetail()
    ensures RolesDetail([Admin]) == RolesPrefix + "['admin']"
  {
    var vs := RoleValues([Admin]);
    assert vs[0] == "admin";
    assert vs == ["admin"];
    assert Quoted(vs) == "'admin'";
    assert StrList(vs) == "['admin']";
  }

  /** The detail `require_admin_or_contador` produces. */
  lemma AdminOrContadorDetail()
    ensures RolesDetail([Admin, Contador]) == RolesPrefix + "['admin', 'contador']"
  {
    var vs := RoleValues([Admin, Contador]);
    assert vs[0] == "admin" && vs[1] == "contador";
    assert vs == ["admin", "contador"];
    assert vs[..1] == ["admin"];
    assert Quoted(vs[..1]) == "'admin'";
    assert Quoted(vs) == "'admin', 'contador'";
  }

  /** The stored role of `u` is the value of one of `allowed`. */
  predicate HasRole(u: Row, allowed: seq<UserRole>) {
    exists k :: 0 <= k < |allowed| && Column(u, RoleCol) == Str(allowed[k].Value())
  }

  /** `require_roles(allowed)`'s `role_checker`, given the outcome of
      `get_current_user` it depends on: that outcome's error comes first (401
      before 403); then 403 exactly when the user's role is not allowed;
      otherwise the same user. */
  function RoleChecker(allowed: seq<UserRole>, current: Result<Row, HttpError>): (r: Result<Row, HttpError>)
    ensures current.Failure? ==> r == current
    ensures current.Success? ==> (r.Success? <==> HasRole(current.value, allowed))
    ensures r.Success? ==> r == current
    ensures current.Success? && r.Failure? ==> r.error == HttpError(Forbidden, RolesDetail(allowed))
  {
    if current.Failure? then current
    else if !HasRole(current.value, allowed) then Failure(HttpError(Forbidden, RolesDetail(allowed)))
    else current
  }

  function RequireRoles(allowed: seq<UserRole>, payload: Option<Dict>, users: seq<Row>): Result<Row, HttpError> {
    RoleChecker(allowed, GetCurrentUser(payload, users))
  }

  /** `require_admin`: admits exactly the authenticated admins. */
  function RequireAdmin(payload: Option<Dict>, users: seq<Row>): (r: Result<Row, HttpError>)
    ensures var current := GetCurrentUser(payload, users);
      && (current.Failure? ==> r == current)
      && (r.Success? <==> current.Success? && Column(current.value, RoleCol) == Str("admin"))
      && (r.Success? ==> r == current)
      && (current.Success? && r.Failure? ==>
            r.error == HttpError(Forbidden, RolesPrefix + "['admin']"))
  {
    AdminDetail();
    RequireRoles([Admin], payload, users)
  }

  /** `require_admin_or_contador`: admits exactly the authenticated admins
      and accountants. */
  function RequireAdminOrContador(payload: Option<Dict>, users: seq<Row>): (r: Result<Row, HttpError>)
    ensures var current := GetCurrentUser(payload, users);
      && (current.Failure? ==> r == current)
      && (r.Success? <==>
            current.Success? && Column(current.value, RoleCol) in {Str("admin"), Str("contador")})
      && (r.Success? ==> r == current)
      && (current.Success? && r.Failure? ==>
            r.error == HttpError(Forbidden, RolesPrefix + "['admin', 'contador']"))
  {
    AdminOrContadorDetail();
    var r := RequireRoles([Admin, Contador], payload, users);
    var current := GetCurrentUser(payload, users);
    assert current.Success? ==>
      (HasRole(current.value, [Admin, Contador]) <==>
         Column(current.value, RoleCol) == Str(Admin.Value()) || Column(current.value, RoleCol) == Str(Contador.Value()));
    r
  }
}
