/**
 * The user request and response schemas of app/schemas/user.py, and the
 * dictionaries `UserService` builds from a request before it writes
 * (app/services/user_service.py): the plain `password` is popped and its hash
 * stored as `hashed_password`.
 *
 * `EmailStr` is pydantic's validator and `hash_password` lives in a module
 * this model does not include; both are parameters (`isEmail`, `hash`).
 */
module UserSchemas {
  import opened Wrappers
  import opened Records
  import opened UserModel

  const Password: string := "password"

  /** A length-bounded string field. */
  predicate Between(s: string, lo: nat, hi: nat) {
    lo <= |s| <= hi
  }

  datatype UserCreate = UserCreate(email: string, password: string, fullName: string, role: UserRole)
  {
    /** The email is an `EmailStr`, the password has 6 to 100 characters and
        the full name 2 to 100. */
    predicate Valid(isEmail: string -> bool) {
      isEmail(email) && Between(password, 6, 100) && Between(fullName, 2, 100)
    }
  }

  /** The role of a create request defaults to "vendedor". */
  function NewUserRequest(email: string, password: string, fullName: string, role: Option<UserRole>): (d: UserCreate)
    ensures role.None? ==> d.role == Vendedor
    ensures role.Some? ==> d.role == role.value
    ensures d.email == email && d.password == password && d.fullName == fullName
  {
    UserCreate(email, password, fullName, if role.Some? then role.value else Vendedor)
  }

  /** Every field is optional and defaults to None; a sent, non-None field
      carries the bounds of the create schema. */
  datatype UserUpdate = UserUpdate(
    email: Field<string>,
    password: Field<string>,
    fullName: Field<string>,
    role: Field<UserRole>,
    isActive: Field<bool>)
  {
    predicate Valid(isEmail: string -> bool) {
      && (email.Given? && email.value.Some? ==> isEmail(email.value.value))
      && (password.Given? && password.value.Some? ==> Between(password.value.value, 6, 100))
      && (fullName.Given? && fullName.value.Some? ==> Between(fullName.value.value, 2, 100))
    }

    /** The request asks for a role change (`role is not None`). */
    predicate SetsRole() {
      role.Given? && role.value.Some?
    }
  }

  /** `UserCreate.model_dump()`: the four fields, the role as its value. */
  function CreateDump(d: UserCreate): (r: Dict)
    ensures r.Keys == {EmailCol, Password, FullName, RoleCol}
    ensures r[Password] == Str(d.password)
  {
    map[EmailCol := Str(d.email), Password := Str(d.password), FullName := Str(d.fullName),
        RoleCol := Str(d.role.Value())]
  }

  /** Replacing the `password` entry of a dump by `hashed_password`, the hash
      of the popped value. */
  function HashPassword(m: Dict, hash: Value -> Value): (r: Dict)
    requires Password in m
    ensures r.Keys == m.Keys - {Password} + {HashedPassword}
    ensures r[HashedPassword] == hash(m[Password])
    ensures forall c :: c in m && c != Password && c != HashedPassword ==> r[c] == m[c]
  {
    (m - {Password})[HashedPassword := hash(m[Password])]
  }

  /** The user columns of `create_user`: the dump with `password` replaced by
      `hashed_password = hash_password(password)`. No plain password is
      stored, and every key names a column of `users`. */
  function CreateUserColumns(d: UserCreate, hash: Value -> Value): (r: Dict)
    ensures r.Keys == {EmailCol, FullName, RoleCol, HashedPassword}
    ensures r.Keys <= UserSchema.columns && Password !in r && IsActive !in r
    ensures r[HashedPassword] == hash(Str(d.password))
    ensures r[EmailCol] == Str(d.email) && r[FullName] == Str(d.fullName) && r[RoleCol] == Str(d.role.Value())
  {
    HashPassword(CreateDump(d), hash)
  }

  /** The dump entry of field `c` of an update (None when it was not sent). */
  function SentUserField(u: UserUpdate, c: string): Option<Value> {
    if c == EmailCol then SentStr(u.email)
    else if c == Password then SentStr(u.password)
    else if c == FullName then SentStr(u.fullName)
    else if c == RoleCol then
      (if u.role.Unset? then None
       else Some(if u.role.value.Some? then Str(u.role.value.value.Value()) else Null))
    else if c == IsActive then SentBool(u.isActive)
    else None
  }

  /** `UserUpdate.model_dump(exclude_unset=True)`: exactly the sent fields,
      an explicit None as NULL. */
  function UpdateDump(u: UserUpdate): (d: Dict)
    ensures d.Keys <= UserSchema.columns + {Password} && HashedPassword !in d
    ensures EmailCol in d <==> u.email.Given?
    ensures Password in d <==> u.password.Given?
    ensures FullName in d <==> u.fullName.Given?
    ensures RoleCol in d <==> u.role.Given?
    ensures IsActive in d <==> u.isActive.Given?
    ensures Password in d ==> d[Password] == OptStr(u.password.value)
  {
    map c | c in UserSchema.columns + {Password} && SentUserField(u, c).Some? :: SentUserField(u, c).value
  }

  /** The dictionary `update_user` passes to `update`: the dump, with a sent
      password replaced by its hash under `hashed_password`. */
  function UserUpdateDump(u: UserUpdate, hash: Value -> Value): (d: Dict)
    ensures d.Keys <= UserSchema.columns && Password !in d
    ensures EmailCol in d <==> u.email.Given?
    ensures FullName in d <==> u.fullName.Given?
    ensures RoleCol in d <==> u.role.Given?
    ensures IsActive in d <==> u.isActive.Given?
    ensures HashedPassword in d <==> u.password.Given?
    ensures EmailCol in d ==> d[EmailCol] == OptStr(u.email.value)
    ensures FullName in d ==> d[FullName] == OptStr(u.fullName.value)
    ensures RoleCol in d ==> d[RoleCol] == (if u.role.value.Some? then Str(u.role.value.value.Value()) else Null)
    ensures IsActive in d ==> d[IsActive] == (if u.isActive.value.Some? then Bool(u.isActive.value.value) else Null)
    ensures HashedPassword in d ==> d[HashedPassword] == hash(OptStr(u.password.value))
  {
    var m := UpdateDump(u);
    if Password in m then HashPassword(m, hash) else m
  }

  /** `UserResponse`: the audit fields (the id is commented out of the base
      response schema), email, full name and role; no password of any
      kind. */
  datatype UserResponse = UserResponse(
    createdAt: nat,
    updatedAt: nat,
    isActive: bool,
    email: string,
    fullName: string,
    role: UserRole)

  /** Serialising a row through `UserResponse`; None when a value does not
      fit the response schema. A well-typed row always serialises. */
  function ToUserResponse(r: Row): (o: Option<UserResponse>)
    ensures UserRowTyped(r) ==> o.Some?
    ensures o.Some? ==>
      && o.value.createdAt == r.createdAt && o.value.updatedAt == r.updatedAt
      && Bool(o.value.isActive) == Column(r, IsActive)
      && Str(o.value.email) == Column(r, EmailCol) && Str(o.value.fullName) == Column(r, FullName)
      && Str(o.value.role.Value()) == Column(r, RoleCol)
  {
    var active := Column(r, IsActive);
    var email := Column(r, EmailCol);
    var name := Column(r, FullName);
    var role := Column(r, RoleCol);
    if active.Bool? && email.Str? && name.Str? && role.Str? && ParseUserRole(role.s).Some? then
      Some(UserResponse(r.createdAt, r.updatedAt, active.b, email.s, name.s, ParseUserRole(role.s).value))
    else None
  }

  /** The response never depends on the stored password hash: replacing it
      leaves the response unchanged. */
  lemma ResponseHidesPassword(r: Row, h: Value)
    ensures ToUserResponse(r.(columns := r.columns[HashedPassword := h])) == ToUserResponse(r)
  {
    var r' := r.(columns := r.columns[HashedPassword := h]);
    assert Column(r', IsActive) == Column(r, IsActive);
    assert Column(r', EmailCol) == Column(r, EmailCol);
    assert Column(r', FullName) == Column(r, FullName);
    assert Column(r', RoleCol) == Column(r, RoleCol);
  }

  /** A user row written from a valid create request is well typed, active,
      and its stored role is the requested one. */
  lemma NewUserRowTyped(d: UserCreate, isEmail: string -> bool, hash: Value -> Value, id: nat, now: nat)
    requires d.Valid(isEmail) && hash(Str(d.password)).Str?
    ensures var r := NewRow(UserSchema, id, now, CreateUserColumns(d, hash));
      && UserRowTyped(r) && Active(r)
      && ToUserResponse(r).Some? && ToUserResponse(r).value.role == d.role
  {
    RoleRoundTrip(d.role);
  }
}
