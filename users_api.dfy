/**
 * The users router (app/api/v1/users.py). Creating and deleting need the
 * admin role; reading and updating need any authenticated user, and the
 * update route adds its own permission rules. As in every route, a
 * dependency's refusal comes first, then request validation (422), then the
 * handler; an error leaves the table as it was (the session rolls back).
 */
module UsersApi {
  import opened Wrappers
  import opened Records
  import opened Repository
  import opened UserModel
  import opened UserSchemas
  import opened UserRepository
  import opened UserService
  import opened Http
  import opened Dependencies
  import opened AuthService

  const NotOwnProfile: string := "You can only edit your own profile"
  const RoleChangeAdminOnly: string := "Solo ADMIN puede cambiar roles"
  const CannotDeleteSelf: string := "You can't delete your own profile"

  /** `UserList`. */
  datatype UserList = UserList(users: seq<UserResponse>, total: nat, page: nat, perPage: nat)

  /** The stored role of `u` is "admin" (`role == UserRole.ADMIN`, a string
      enum compared with the stored string). */
  predicate IsAdmin(u: Row) {
    Column(u, RoleCol) == Str(Admin.Value())
  }

  /** What the routes keep: the table invariant, and every stored user
      serialises through `UserResponse`. */
  ghost predicate UsersInvariant(users: seq<Row>) {
    TableInvariant(UserSchema, users) && forall x :: x in users ==> ToUserResponse(x).Some?
  }

  // ---------------------------------------------------------------------------
  // Routes

  /** `POST /users/` (201), admins only. A ValueError of the service (the
      email of an active user) becomes 400 with its message; an
      IntegrityError is not handled (500). */
  function CreateUser(payload: Option<Dict>, users: seq<Row>, data: UserCreate, isEmail: string -> bool,
                      hash: Value -> Value, now: nat)
    : (out: (Result<UserResponse, HttpError>, seq<Row>))
    requires TableInvariant(UserSchema, users)
    ensures RequireAdmin(payload, users).Failure? ==> out == (Failure(RequireAdmin(payload, users).error), users)
    ensures RequireAdmin(payload, users).Success? && !data.Valid(isEmail) ==> out == (Failure(ValidationFailed), users)
    ensures RequireAdmin(payload, users).Success? && data.Valid(isEmail) ==>
      (out.0 == Failure(HttpError(BadRequest, EmailTaken)) <==> EmailExists(users, data.email))
    ensures out.0.Failure? ==> out.1 == users
    ensures out.0.Success? ==>
      && RequireAdmin(payload, users).Success? && data.Valid(isEmail)
      && CreateUserSpec(users, data, hash, now).0.Success?
      && out.1 == CreateUserSpec(users, data, hash, now).1
      && out.0.value.email == data.email && out.0.value.fullName == data.fullName
      && out.0.value.role == data.role && out.0.value.isActive
    ensures RequireAdmin(payload, users).Success? && data.Valid(isEmail) ==>
      (out.0 == Failure(InternalError) <==>
         !EmailExists(users, data.email) && exists x :: x in users && Column(x, EmailCol) == Str(data.email))
    ensures RequireAdmin(payload, users).Success? && data.Valid(isEmail) ==>
      (out.0.Success? <==> forall x :: x in users ==> Column(x, EmailCol) != Str(data.email))
  {
    var current := RequireAdmin(payload, users);
    if current.Failure? then (Failure(current.error), users)
    else if !data.Valid(isEmail) then (Failure(ValidationFailed), users)
    else
      CreateUserResults(users, data, hash, now);
      var (r, users') := CreateUserSpec(users, data, hash, now);
      match r
      case Failure(ValueError(msg)) => (Failure(HttpError(BadRequest, msg)), users)
      case Failure(IntegrityError) => (Failure(InternalError), users)
      case Success(row) =>
        match ToUserResponse(row)
        case None => (Failure(InternalError), users)
        case Some(v) => (Success(v), users')
  }

  /** `GET /users/?skip&limit` (defaults 0 and 10), any authenticated user.
      Neither parameter is bounded: a negative one is refused by the database
      (500), and `limit == 0` passes both queries and then divides by zero
      computing the page (500). Otherwise a page of the active users, their
      count, `page = skip // limit + 1` and `per_page = limit`. */
  function GetUsers(payload: Option<Dict>, users: seq<Row>, skip: int, limit: int): (r: Result<UserList, HttpError>)
    ensures GetCurrentUser(payload, users).Failure? ==> r == Failure(GetCurrentUser(payload, users).error)
    ensures GetCurrentUser(payload, users).Success? && (skip < 0 || limit <= 0) ==> r == Failure(InternalError)
    ensures r.Success? ==>
      && GetCurrentUser(payload, users).Success? && 0 <= skip && 1 <= limit
      && r.value.total == |ActiveRows(users)|
      && r.value.perPage == limit
      && r.value.page >= 1 && OnPage(r.value.page, skip, limit)
    ensures r.Success? ==>
      && |r.value.users| == PageLength(|ActiveRows(users)|, skip, limit)
      && forall k :: 0 <= k < |r.value.users| ==>
           skip + k < |ActiveRows(users)| && ToUserResponse(ActiveRows(users)[skip + k]) == Some(r.value.users[k])
    ensures GetCurrentUser(payload, users).Success? && 0 <= skip && 1 <= limit ==>
      (r.Success? <==> forall x :: x in Page(ActiveRows(users), skip, limit) ==> ToUserResponse(x).Some?)
  {
    var current := GetCurrentUser(payload, users);
    if current.Failure? then Failure(current.error)
    else if skip < 0 || limit < 0 then Failure(InternalError)
    else if limit == 0 then Failure(InternalError)
    else match UserPage(users, skip, limit)
      case None => Failure(InternalError)
      case Some(list) => Success(list)
  }

  /** The listing once both parameters are accepted: the page of active
      users, serialised (None when a row does not serialise), with their
      count and the page number. */
  function UserPage(users: seq<Row>, skip: nat, limit: nat): (r: Option<UserList>)
    requires limit >= 1
    ensures r.Some? <==> forall x :: x in Page(ActiveRows(users), skip, limit) ==> ToUserResponse(x).Some?
    ensures r.Some? ==>
      && r.value.total == |ActiveRows(users)|
      && r.value.perPage == limit
      && r.value.page >= 1 && OnPage(r.value.page, skip, limit)
      && |r.value.users| <= limit
    ensures r.Some? ==>
      && |r.value.users| == PageLength(|ActiveRows(users)|, skip, limit)
      && forall k :: 0 <= k < |r.value.users| ==>
           skip + k < |ActiveRows(users)| && ToUserResponse(ActiveRows(users)[skip + k]) == Some(r.value.users[k])
  {
    match ConvertPage(ActiveRows(users), skip, limit, ToUserResponse)
    case None => None
    case Some(views) => Some(UserList(views, Count(users), PageNumber(skip, limit), limit))
  }

  /** `GET /users/{user_id}`, any authenticated user: 404 for a missing or
      inactive id. */
  function GetUser(payload: Option<Dict>, users: seq<Row>, id: int): (r: Result<UserResponse, HttpError>)
    ensures GetCurrentUser(payload, users).Failure? ==> r == Failure(GetCurrentUser(payload, users).error)
    ensures GetCurrentUser(payload, users).Success? ==>
      (r == Failure(HttpError(NotFound, UserNotFound)) <==> forall x :: x in users && x.id == id ==> !Active(x))
    ensures r.Success? ==> exists x :: x in users && x.id == id && Active(x) && ToUserResponse(x) == Some(r.value)
    ensures (GetCurrentUser(payload, users).Success? && GetById(users, id).Some? && UserRowTyped(GetById(users, id).value)) ==>
      r == Success(ToUserResponse(GetById(users, id).value).value)
  {
    var current := GetCurrentUser(payload, users);
    if current.Failure? then Failure(current.error)
    else match GetById(users, id)
      case None => Failure(HttpError(NotFound, UserNotFound))
      case Some(u) =>
        match ToUserResponse(u)
        case None => Failure(InternalError)
        case Some(v) => Success(v)
  }

  /** `PUT /users/{user_id}`, any authenticated user. Two permission rules
      run before the lookup: a non-admin may edit only their own id (403),
      and only an admin may send a role (403). Then 404 for a missing or
      inactive id; an email held by another row breaks the UNIQUE constraint
      (500). */
  function UpdateUser(payload: Option<Dict>, users: seq<Row>, id: int, data: UserUpdate, isEmail: string -> bool,
                      hash: Value -> Value, now: nat)
    : (out: (Result<UserResponse, HttpError>, seq<Row>))
    requires TableInvariant(UserSchema, users)
    ensures GetCurrentUser(payload, users).Failure? ==> out == (Failure(GetCurrentUser(payload, users).error), users)
    ensures GetCurrentUser(payload, users).Success? && !data.Valid(isEmail) ==> out == (Failure(ValidationFailed), users)
    ensures GetCurrentUser(payload, users).Success? && data.Valid(isEmail) ==>
      var u := GetCurrentUser(payload, users).value;
      && (out.0 == Failure(HttpError(Forbidden, NotOwnProfile)) <==> u.id != id && !IsAdmin(u))
      && (out.0 == Failure(HttpError(Forbidden, RoleChangeAdminOnly)) <==> u.id == id && !IsAdmin(u) && data.SetsRole())
      && (out.0 == Failure(HttpError(NotFound, UserNotFound)) <==>
            (u.id == id || IsAdmin(u)) && (IsAdmin(u) || !data.SetsRole()) &&
            forall x :: x in users && x.id == id ==> !Active(x))
    ensures out.0.Failure? ==> out.1 == users
    ensures var w := UpdateById(UserSchema, users, id, UserUpdateDump(data, hash), now);
      out.0.Success? ==>
        && w.0.Success? && w.0.value.Some?
        && ToUserResponse(w.0.value.value) == Some(out.0.value)
        && out.1 == w.1
    ensures var w := UpdateById(UserSchema, users, id, UserUpdateDump(data, hash), now);
      out.0.Success? <==>
        && GetCurrentUser(payload, users).Success? && data.Valid(isEmail)
        && (GetCurrentUser(payload, users).value.id == id || IsAdmin(GetCurrentUser(payload, users).value))
        && (IsAdmin(GetCurrentUser(payload, users).value) || !data.SetsRole())
        && w.0.Success? && w.0.value.Some? && ToUserResponse(w.0.value.value).Some?
  {
    var current := GetCurrentUser(payload, users);
    if current.Failure? then (Failure(current.error), users)
    else if !data.Valid(isEmail) then (Failure(ValidationFailed), users)
    else if current.value.id != id && !IsAdmin(current.value) then (Failure(HttpError(Forbidden, NotOwnProfile)), users)
    else if data.SetsRole() && !IsAdmin(current.value) then (Failure(HttpError(Forbidden, RoleChangeAdminOnly)), users)
    else
      GetByIdExact(users, id);
      var (r, users') := UpdateById(UserSchema, users, id, UserUpdateDump(data, hash), now);
      match r
      case Success(None) => (Failure(HttpError(NotFound, UserNotFound)), users)
      case Failure(_) => (Failure(InternalError), users)
      case Success(Some(row)) =>
        match ToUserResponse(row)
        case None => (Failure(InternalError), users)
        case Some(v) => (Success(v), users')
  }

  /** `DELETE /users/{user_id}` (204), admins only: an admin may not delete
      their own account (400); 404 for a missing or inactive id; otherwise
      the user is soft-deleted. */
  function DeleteUser(payload: Option<Dict>, users: seq<Row>, id: int, now: nat)
    : (out: (Result<(), HttpError>, seq<Row>))
    requires TableInvariant(UserSchema, users)
    ensures RequireAdmin(payload, users).Failure? ==> out == (Failure(RequireAdmin(payload, users).error), users)
    ensures RequireAdmin(payload, users).Success? ==>
      && (out.0 == Failure(HttpError(BadRequest, CannotDeleteSelf)) <==> RequireAdmin(payload, users).value.id == id)
      && (out.0 == Failure(HttpError(NotFound, UserNotFound)) <==>
            RequireAdmin(payload, users).value.id != id && forall x :: x in users && x.id == id ==> !Active(x))
    ensures out.0.Failure? ==> out.1 == users
    ensures out.0.Success? ==> out.1 == DeleteById(users, id, now).1 && DeleteById(users, id, now).0.Some?
    ensures out.0.Success? <==>
      && RequireAdmin(payload, users).Success? && RequireAdmin(payload, users).value.id != id
      && exists x :: x in users && x.id == id && Active(x)
  {
    var current := RequireAdmin(payload, users);
    if current.Failure? then (Failure(current.error), users)
    else if current.value.id == id then (Failure(HttpError(BadRequest, CannotDeleteSelf)), users)
    else
      GetByIdExact(users, id);
      var (r, users') := DeleteById(users, id, now);
      if r.None? then (Failure(HttpError(NotFound, UserNotFound)), users)
      else (Success(()), users')
  }

  // ---------------------------------------------------------------------------
  // Lemmas

  /** The outcomes of `create_user` as the route sees them: the ValueError
      for an email of an active user, the IntegrityError for one held only by
      soft-deleted users, and otherwise a new user that serialises with the
      requested values. */
  lemma CreateUserResults(users: seq<Row>, data: UserCreate, hash: Value -> Value, now: nat)
    requires TableInvariant(UserSchema, users)
    ensures CreateUserSpec(users, data, hash, now).0.Failure? ==> CreateUserSpec(users, data, hash, now).1 == users
    ensures CreateUserSpec(users, data, hash, now).0 == Failure(ValueError(EmailTaken)) <==> EmailExists(users, data.email)
    ensures CreateUserSpec(users, data, hash, now).0 == Failure(IntegrityError) <==>
      !EmailExists(users, data.email) && exists x :: x in users && Column(x, EmailCol) == Str(data.email)
    ensures CreateUserSpec(users, data, hash, now).0.Success? <==>
      forall x :: x in users ==> Column(x, EmailCol) != Str(data.email)
    ensures CreateUserSpec(users, data, hash, now).0.Success? ==>
      var o := ToUserResponse(CreateUserSpec(users, data, hash, now).0.value);
      && o.Some? && o.value.email == data.email && o.value.fullName == data.fullName
      && o.value.role == data.role && o.value.isActive
  {
    CreateUserOutcome(users, data, hash, now);
    RoleRoundTrip(data.role);
  }

  /** An admin passes both permission rules of the update route: whatever
      they send, a valid request is never answered 403. */
  lemma AdminNeverForbiddenOnUpdate(payload: Option<Dict>, users: seq<Row>, id: int, data: UserUpdate,
                                    isEmail: string -> bool, hash: Value -> Value, now: nat)
    requires TableInvariant(UserSchema, users)
    requires GetCurrentUser(payload, users).Success? && IsAdmin(GetCurrentUser(payload, users).value)
    ensures UpdateUser(payload, users, id, data, isEmail, hash, now).0.Failure? ==>
      UpdateUser(payload, users, id, data, isEmail, hash, now).0.error.status != Forbidden
  {
  }

  /** A non-admin who edits their own account without sending a role reaches
      the update: the answer is the update's. */
  lemma OwnProfileUpdate(payload: Option<Dict>, users: seq<Row>, data: UserUpdate,
                         isEmail: string -> bool, hash: Value -> Value, now: nat)
    requires UsersInvariant(users)
    requires GetCurrentUser(payload, users).Success? && data.Valid(isEmail) && !data.SetsRole()
    ensures var u := GetCurrentUser(payload, users).value;
      var (r, users') := UpdateUser(payload, users, u.id, data, isEmail, hash, now);
      var (w, written) := UpdateById(UserSchema, users, u.id, UserUpdateDump(data, hash), now);
      && (r.Success? <==> w.Success?)
      && (r.Success? ==> users' == written && ToUserResponse(w.value.value) == Some(r.value))
  {
    var u := GetCurrentUser(payload, users).value;
    var d := UserUpdateDump(data, hash);
    UpdateByIdOutcome(UserSchema, users, u.id, d, now);
    GetByIdExact(users, u.id);
    var (w, written) := UpdateById(UserSchema, users, u.id, d, now);
    if w.Success? {
      assert w.value.Some?;
      PatchKeepsResponse(users, u.id, data, isEmail, hash, now);
    }
  }

  /** A valid update of a serialisable user leaves a serialisable user: the
      four response columns are either kept or written with a value of the
      right kind (an explicit None is skipped by the repository). */
  lemma PatchKeepsResponse(users: seq<Row>, id: int, data: UserUpdate, isEmail: string -> bool,
                           hash: Value -> Value, now: nat)
    requires UsersInvariant(users) && data.Valid(isEmail)
    ensures var (w, _) := UpdateById(UserSchema, users, id, UserUpdateDump(data, hash), now);
      w.Success? && w.value.Some? ==> ToUserResponse(w.value.value).Some?
  {
    var d := UserUpdateDump(data, hash);
    UpdateByIdOutcome(UserSchema, users, id, d, now);
    var (w, _) := UpdateById(UserSchema, users, id, d, now);
    if w.Success? && w.value.Some? {
      var prev := users[id - 1];
      var row := w.value.value;
      assert prev in users;
      assert ToUserResponse(prev).Some?;
      if RoleCol in d && d[RoleCol] != Null {
        RoleRoundTrip(data.role.value.value);
      }
      assert Column(row, RoleCol).Str? && ParseUserRole(Column(row, RoleCol).s).Some?;
    }
  }

  /** A successful create keeps the route invariant. */
  lemma CreateKeepsInvariant(payload: Option<Dict>, users: seq<Row>, data: UserCreate, isEmail: string -> bool,
                             hash: Value -> Value, now: nat)
    requires UsersInvariant(users)
    ensures UsersInvariant(CreateUser(payload, users, data, isEmail, hash, now).1)
  {
    CreateUserOutcome(users, data, hash, now);
    if CreateUser(payload, users, data, isEmail, hash, now).0.Success? {
      var (r, users') := CreateUserSpec(users, data, hash, now);
      RoleRoundTrip(data.role);
      assert ToUserResponse(r.value).Some?;
      forall x | x in users' ensures ToUserResponse(x).Some? {
        if x != r.value {
          assert x in users;
        }
      }
    }
  }

  /** A successful update keeps the route invariant. */
  lemma UpdateKeepsInvariant(payload: Option<Dict>, users: seq<Row>, id: int, data: UserUpdate,
                             isEmail: string -> bool, hash: Value -> Value, now: nat)
    requires UsersInvariant(users)
    ensures UsersInvariant(UpdateUser(payload, users, id, data, isEmail, hash, now).1)
  {
    if UpdateUser(payload, users, id, data, isEmail, hash, now).0.Success? {
      var d := UserUpdateDump(data, hash);
      UpdateByIdOutcome(UserSchema, users, id, d, now);
      PatchKeepsResponse(users, id, data, isEmail, hash, now);
      var (w, users') := UpdateById(UserSchema, users, id, d, now);
      forall x | x in users' ensures ToUserResponse(x).Some? {
        var k :| 0 <= k < |users'| && users'[k] == x;
        if k != id - 1 {
          assert users[k] in users;
        }
      }
    }
  }

  /** Replacing a user by a serialisable row keeps every user
      serialisable. */
  lemma ReplaceKeepsSerialisable(users: seq<Row>, i: nat, row: Row)
    requires i < |users| && ToUserResponse(row).Some?
    requires forall x :: x in users ==> ToUserResponse(x).Some?
    ensures forall x :: x in users[i := row] ==> ToUserResponse(x).Some?
  {
    forall x | x in users[i := row] ensures ToUserResponse(x).Some? {
      var k :| 0 <= k < |users[i := row]| && users[i := row][k] == x;
      if k != i {
        assert users[k] in users;
      }
    }
  }

  /** A soft delete keeps every user serialisable: the row keeps its
      columns and gets `is_active = False`. */
  lemma DeleteByIdKeepsInvariant(users: seq<Row>, id: int, now: nat)
    requires UsersInvariant(users)
    ensures UsersInvariant(DeleteById(users, id, now).1)
  {
    DeleteByIdOutcome(UserSchema, users, id, now);
    var (d, users') := DeleteById(users, id, now);
    if d.Some? {
      var prev := users[id - 1];
      assert prev in users;
      assert ToUserResponse(prev).Some?;
      assert Column(d.value, EmailCol) == Column(prev, EmailCol);
      assert Column(d.value, FullName) == Column(prev, FullName);
      assert Column(d.value, RoleCol) == Column(prev, RoleCol);
      assert users' == users[id - 1 := d.value];
      ReplaceKeepsSerialisable(users, id - 1, d.value);
    }
  }

  /** A successful delete keeps the route invariant. */
  lemma DeleteKeepsInvariant(payload: Option<Dict>, users: seq<Row>, id: int, now: nat)
    requires UsersInvariant(users)
    ensures UsersInvariant(DeleteUser(payload, users, id, now).1)
  {
    DeleteByIdKeepsInvariant(users, id, now);
  }

  /** Under the invariant, an authenticated listing with `skip >= 0` and
      `limit >= 1` always succeeds. */
  lemma ListUsersSucceeds(payload: Option<Dict>, users: seq<Row>, skip: int, limit: int)
    requires UsersInvariant(users) && GetCurrentUser(payload, users).Success?
    requires 0 <= skip && 1 <= limit
    ensures GetUsers(payload, users, skip, limit).Success?
  {
    var rows := Page(ActiveRows(users), skip, limit);
    forall x | x in rows ensures ToUserResponse(x).Some? {
      var k :| 0 <= k < |rows| && rows[k] == x;
      assert ActiveRows(users)[skip + k] in ActiveRows(users);
    }
  }

  /** After an admin deletes a user, a token for that user no longer
      authenticates: `get_current_user` answers 401 "User not found". */
  lemma DeletedUserLosesAccess(payload: Option<Dict>, users: seq<Row>, id: int, now: nat, token: Option<Dict>)
    requires TableInvariant(UserSchema, users)
    requires DeleteUser(payload, users, id, now).0.Success?
    requires token.Some? && Sub in token.value && token.value[Sub] != Null && SubjectId(token.value[Sub]) == Some(id)
    ensures GetCurrentUser(token, DeleteUser(payload, users, id, now).1) == Failure(HttpError(Unauthorized, UserNotFound))
  {
    DeleteByIdOutcome(UserSchema, users, id, now);
    var users' := DeleteUser(payload, users, id, now).1;
    GetByIdExact(users', id);
  }
}
