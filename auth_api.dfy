/**
 * The authentication router (app/api/v1/auth.py): login, the caller's own
 * profile, and the public registration of the first administrator.
 *
 * `create_access_token` lives in a module this model does not include: the
 * login route takes the encoder as the parameter `encode`, applied to the
 * claims and lifetime `create_token_for_user` prepares.
 */
module AuthApi {
  import opened Wrappers
  import opened Records
  import opened Repository
  import opened UserModel
  import opened UserSchemas
  import opened UserRepository
  import opened UserService
  import opened AuthService
  import opened Numerals
  import opened Http
  import opened Dependencies

  const BadCredentials: string := "Incorrect email or password"
  const RegistrationClosed: string := "Ya existe usuarios. Use /auth/login y luego /users/ para crear mas."
  const Bearer: string := "bearer"

  /** `Token`. */
  datatype Token = Token(accessToken: string, tokenType: string)

  /** `POST /auth/login`: 422 unless the email is an `EmailStr`; 401
      "Incorrect email or password" (with `WWW-Authenticate: Bearer`) when no
      active user has that email or the password does not verify, the two
      cases alike; otherwise a bearer token for that user. */
  function Login(users: seq<Row>, email: string, password: string, isEmail: string -> bool,
                 verify: (string, Value) -> bool, encode: TokenRequest -> string, expireMinutes: nat)
    : (r: Result<Token, HttpError>)
    requires UniqueOn(users, EmailCol)
    ensures !isEmail(email) ==> r == Failure(ValidationFailed)
    ensures isEmail(email) ==>
      (r == Failure(HttpError(Unauthorized, BadCredentials)) <==>
         forall u :: u in users && Active(u) && Column(u, EmailCol) == Str(email) ==>
           !verify(password, Column(u, HashedPassword)))
    ensures r.Success? ==>
      && r.value.tokenType == Bearer
      && exists u :: u in users && Active(u) && Column(u, EmailCol) == Str(email) &&
           verify(password, Column(u, HashedPassword)) &&
           r.value.accessToken == encode(CreateTokenForUser(u, expireMinutes))
    ensures (isEmail(email) &&
             exists u :: u in users && Active(u) && Column(u, EmailCol) == Str(email) &&
               verify(password, Column(u, HashedPassword))) ==> r.Success?
  {
    if !isEmail(email) then Failure(ValidationFailed)
    else match Authenticate(users, email, password, verify)
      case None => Failure(HttpError(Unauthorized, BadCredentials))
      case Some(u) =>
        assert u in users && Active(u) && Column(u, EmailCol) == Str(email);
        Success(Token(encode(CreateTokenForUser(u, expireMinutes)), Bearer))
  }

  /** `GET /auth/me`: the authenticated user, as a `UserResponse`. */
  function Me(payload: Option<Dict>, users: seq<Row>): (r: Result<UserResponse, HttpError>)
    ensures GetCurrentUser(payload, users).Failure? ==> r == Failure(GetCurrentUser(payload, users).error)
    ensures GetCurrentUser(payload, users).Success? && UserRowTyped(GetCurrentUser(payload, users).value) ==>
      r.Success? && Some(r.value) == ToUserResponse(GetCurrentUser(payload, users).value)
  {
    var current := GetCurrentUser(payload, users);
    if current.Failure? then Failure(current.error)
    else match ToUserResponse(current.value)
      case None => Failure(InternalError)
      case Some(v) => Success(v)
  }

  /** `POST /auth/register` (201), public: 422 for an invalid body; 403
      while any active user exists; otherwise `create_user` with the role
      forced to admin. A ValueError would become 400; an IntegrityError is
      not handled (500). */
  function Register(users: seq<Row>, data: UserCreate, isEmail: string -> bool, hash: Value -> Value, now: nat)
    : (out: (Result<UserResponse, HttpError>, seq<Row>))
    requires TableInvariant(UserSchema, users)
    ensures !data.Valid(isEmail) ==> out == (Failure(ValidationFailed), users)
    ensures data.Valid(isEmail) && Count(users) > 0 ==> out == (Failure(HttpError(Forbidden, RegistrationClosed)), users)
    ensures out.0.Failure? ==> out.1 == users
    ensures out.0.Success? ==>
      && data.Valid(isEmail) && Count(users) == 0
      && CreateUserSpec(users, data.(role := Admin), hash, now).0.Success?
      && out.1 == CreateUserSpec(users, data.(role := Admin), hash, now).1
  {
    if !data.Valid(isEmail) then (Failure(ValidationFailed), users)
    else if Count(users) > 0 then (Failure(HttpError(Forbidden, RegistrationClosed)), users)
    else
      var firstAdmin := data.(role := Admin);
      var (r, users') := CreateUserSpec(users, firstAdmin, hash, now);
      match r
      case Failure(ValueError(msg)) => (Failure(HttpError(BadRequest, msg)), users)
      case Failure(IntegrityError) => (Failure(InternalError), users)
      case Success(row) =>
        match ToUserResponse(row)
        case None => (Failure(InternalError), users)
        case Some(v) => (Success(v), users')
  }

  // ---------------------------------------------------------------------------
  // Lemmas

  /** A token issued for an active user authenticates as that same user:
      the `sub` claim parses back to the user's id. */
  lemma {:induction false} LoginTokenIdentifiesUser(users: seq<Row>, u: Row, expireMinutes: nat)
    requires Keyed(users) && u in users && Active(u)
    ensures GetCurrentUser(Some(CreateTokenForUser(u, expireMinutes).claims), users) == Success(u)
  {
    var k :| 0 <= k < |users| && users[k] == u;
    GetByIdExact(users, u.id);
    var t := CreateTokenForUser(u, expireMinutes);
    assert SubjectId(t.claims[Sub]) == Some(u.id as int);
  }

  /** The 400 branch of registration cannot be taken: registration runs only
      when no user is active, and then no email is in use by an active user. */
  lemma RegisterNeverBadRequest(users: seq<Row>, data: UserCreate, isEmail: string -> bool, hash: Value -> Value, now: nat)
    requires TableInvariant(UserSchema, users)
    ensures Register(users, data, isEmail, hash, now).0.Failure? ==>
      Register(users, data, isEmail, hash, now).0.error.status != BadRequest
  {
    if data.Valid(isEmail) && Count(users) == 0 {
      CreateUserOutcome(users, data.(role := Admin), hash, now);
    }
  }

  /** Registration on a table with no active user, with an email no stored
      user holds: the account is created, active and admin, whatever role the
      request asked for. So registration reopens once every user has been
      soft-deleted. */
  lemma RegisterCreatesAdmin(users: seq<Row>, data: UserCreate, isEmail: string -> bool, hash: Value -> Value, now: nat)
    requires TableInvariant(UserSchema, users)
    requires data.Valid(isEmail) && Count(users) == 0
    requires forall x :: x in users ==> Column(x, EmailCol) != Str(data.email)
    ensures Register(users, data, isEmail, hash, now).0.Success?
    ensures var v := Register(users, data, isEmail, hash, now).0.value;
      v.role == Admin && v.email == data.email && v.isActive
    ensures var users' := Register(users, data, isEmail, hash, now).1;
      |users'| == |users| + 1 && Column(users'[|users|], RoleCol) == Str("admin") && Count(users') == 1
  {
    var admin := data.(role := Admin);
    var (r, users') := CreateUserSpec(users, admin, hash, now);
    assert r.Success? && users' == users + [r.value] && Active(r.value)
        && Column(r.value, RoleCol) == Str("admin") && Column(r.value, EmailCol) == Str(data.email)
        && Column(r.value, FullName) == Str(data.fullName) && Count(users') == Count(users) + 1 by {
      CreateUserOutcome(users, admin, hash, now);
      assert !EmailExists(users, admin.email);
    }
    assert ToUserResponse(r.value) == Some(UserResponse(r.value.createdAt, r.value.updatedAt, true, data.email, data.fullName, Admin)) by {
      RoleRoundTrip(Admin);
      assert ParseUserRole("admin") == Some(Admin);
    }
    assert Register(users, data, isEmail, hash, now) == (Success(ToUserResponse(r.value).value), users');
  }

  /** Registration on a table with no active user, with the email of a
      soft-deleted user: `create_user` finds no active holder, and the UNIQUE
      constraint refuses the insert (500). */
  lemma RegisterReusedEmail(users: seq<Row>, data: UserCreate, isEmail: string -> bool, hash: Value -> Value, now: nat)
    requires TableInvariant(UserSchema, users)
    requires data.Valid(isEmail) && Count(users) == 0
    requires exists x :: x in users && Column(x, EmailCol) == Str(data.email)
    ensures Register(users, data, isEmail, hash, now) == (Failure(InternalError), users)
  {
    var admin := data.(role := Admin);
    CreateUserOutcome(users, admin, hash, now);
    assert !EmailExists(users, admin.email);
  }

  /** The first registered user can administer: a token issued to them
      passes `require_admin`. */
  lemma FirstAdminPassesRequireAdmin(users: seq<Row>, data: UserCreate, isEmail: string -> bool, hash: Value -> Value,
                                     now: nat, expireMinutes: nat)
    requires TableInvariant(UserSchema, users)
    requires Register(users, data, isEmail, hash, now).0.Success?
    ensures var users' := Register(users, data, isEmail, hash, now).1;
      var u := users'[|users|];
      RequireAdmin(Some(CreateTokenForUser(u, expireMinutes).claims), users') == Success(u)
  {
    var admin := data.(role := Admin);
    CreateUserOutcome(users, admin, hash, now);
    var (r, users') := CreateUserSpec(users, admin, hash, now);
    assert users'[|users|] == r.value;
    assert r.value in users';
    LoginTokenIdentifiesUser(users', r.value, expireMinutes);
  }
}
