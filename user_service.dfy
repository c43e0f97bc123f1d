/**
 * `UserService` (app/services/user_service.py): account management over the
 * `users` table.
 *
 * `create_user` and `update_user` rewrite a local dictionary (the plain
 * password is popped and its hash stored) and then write through the
 * repository; they are methods of the class `UserService` proved equal to
 * `CreateUserSpec` and to the repository's `UpdateById`. `delete_user` is
 * proved equal to `DeleteById`. The reads are functions of the rows.
 */
module UserService {
  import opened Wrappers
  import opened Records
  import opened Repository
  import opened UserModel
  import opened UserSchemas
  import opened UserRepository

  const EmailTaken: string := "Email already exists"

  /** `create_user(user_data)`: the outcome and the rows afterwards. */
  function CreateUserSpec(users: seq<Row>, data: UserCreate, hash: Value -> Value, now: nat)
    : (Result<Row, ServiceError>, seq<Row>)
    requires UniqueOn(users, EmailCol)
  {
    if EmailExists(users, data.email) then (Failure(ValueError(EmailTaken)), users)
    else
      var (r, users') := InsertRow(UserSchema, users, CreateUserColumns(data, hash), now);
      if r.None? then (Failure(IntegrityError), users') else (Success(r.value), users')
  }

  /** The three outcomes of `create_user`:
      - an active user has the email: ValueError, nothing written;
      - otherwise, a soft-deleted user still holds it: the UNIQUE constraint
        refuses the insert (IntegrityError), nothing written;
      - otherwise one new active row, holding the request's email, name and
        role and the hash of its password, and no plain password.
      The table invariant is kept. */
  lemma CreateUserOutcome(users: seq<Row>, data: UserCreate, hash: Value -> Value, now: nat)
    requires TableInvariant(UserSchema, users)
    ensures var (r, users') := CreateUserSpec(users, data, hash, now);
      && TableInvariant(UserSchema, users')
      && (r.Failure? ==> users' == users)
      && (r == Failure(ValueError(EmailTaken)) <==> EmailExists(users, data.email))
      && (r == Failure(IntegrityError) <==>
            !EmailExists(users, data.email) &&
            exists x :: x in users && Column(x, EmailCol) == Str(data.email))
      && (r.Success? ==>
            && users' == users + [r.value] && r.value.id == |users| + 1
            && Active(r.value) && Password !in r.value.columns
            && Column(r.value, EmailCol) == Str(data.email)
            && Column(r.value, FullName) == Str(data.fullName)
            && Column(r.value, RoleCol) == Str(data.role.Value())
            && Column(r.value, HashedPassword) == hash(Str(data.password))
            && Count(users') == Count(users) + 1)
  {
    assert UserSchema.unique == {EmailCol};
    var d := CreateUserColumns(data, hash);
    InsertRowSpec(UserSchema, users, d, now);
    NewUserColumns(data, hash, |users| + 1, now);
    InsertSingleUniqueIff(UserSchema, users, d, now, EmailCol);
    WhereEmpty(users, EmailCol, Str(data.email));
  }

  /** The row `create_user` builds: active, with the request's email, name and
      role, the hash of its password, and no plain password. */
  lemma NewUserColumns(data: UserCreate, hash: Value -> Value, id: nat, now: nat)
    ensures var r := NewRow(UserSchema, id, now, CreateUserColumns(data, hash));
      && Active(r) && Password !in r.columns
      && Column(r, EmailCol) == Str(data.email)
      && Column(r, FullName) == Str(data.fullName)
      && Column(r, RoleCol) == Str(data.role.Value())
      && Column(r, HashedPassword) == hash(Str(data.password))
  {
    var d := CreateUserColumns(data, hash);
    assert HashedPassword !in UserSchema.defaults && IsActive !in d;
  }

  /** `update_user` never fails, except when the request sets an email that
      another row, active or soft-deleted, already holds (IntegrityError).
      A sent password is stored only as its hash; without one, the stored
      hash is kept. Everything else is `UpdateByIdOutcome`. */
  lemma UpdateUserOutcome(users: seq<Row>, id: int, data: UserUpdate, hash: Value -> Value, now: nat)
    requires TableInvariant(UserSchema, users)
    ensures var (r, users') := UpdateById(UserSchema, users, id, UserUpdateDump(data, hash), now);
      && (r.Failure? <==>
            && GetById(users, id).Some? && data.email.Given? && data.email.value.Some?
            && exists j :: 0 <= j < |users| && j != id - 1 && Column(users[j], EmailCol) == Str(data.email.value.value))
      && (r.Success? && r.value.Some? ==>
            && Password !in r.value.value.columns
            && (data.password.Given? && hash(OptStr(data.password.value)) != Null ==>
                  Column(r.value.value, HashedPassword) == hash(OptStr(data.password.value)))
            && (!data.password.Given? ==> Column(r.value.value, HashedPassword) == Column(users[id - 1], HashedPassword)))
  {
    var d := UserUpdateDump(data, hash);
    UpdateByIdOutcome(UserSchema, users, id, d, now);
    GetByIdExact(users, id);
    if GetById(users, id).Some? {
      var prev := users[id - 1];
      var row := Refreshed(prev, Patched(prev.columns, d), now);
      assert Password !in row.columns;
      UserCollides(users, id - 1, row);
      if !(data.email.Given? && data.email.value.Some?) {
        assert Column(row, EmailCol) == Column(prev, EmailCol);
      }
    }
  }

  /** On the users table a row collides exactly when another row holds its
      non-NULL email. */
  lemma UserCollides(users: seq<Row>, i: nat, row: Row)
    requires i < |users|
    ensures Collides(UserSchema, users, row, i) <==>
      Column(row, EmailCol) != Null &&
      exists j :: 0 <= j < |users| && j != i && Column(users[j], EmailCol) == Column(row, EmailCol)
  {
    assert UserSchema.unique == {EmailCol};
  }

  class UserService {
    const repository: Table

    ghost predicate Valid()
      reads this, repository
    {
      repository.schema == UserSchema && repository.Valid()
    }

    constructor (repository: Table)
      requires repository.schema == UserSchema && repository.Valid()
      ensures Valid() && this.repository == repository
    {
      this.repository := repository;
    }

    /** `create_user(user_data)`: the duplicate check, then the dump with the
        password swapped for its hash, then the insert. */
    method CreateUser(data: UserCreate, hash: Value -> Value, now: nat) returns (r: Result<Row, ServiceError>)
      requires Valid()
      modifies repository
      ensures Valid()
      ensures (r, repository.rows) == CreateUserSpec(old(repository.rows), data, hash, now)
    {
      assert EmailCol in UserSchema.unique;
      if EmailExists(repository.rows, data.email) {
        return Failure(ValueError(EmailTaken));
      }
      var userDict := CreateDump(data);
      var password := userDict[Password];
      userDict := userDict - {Password};
      userDict := userDict[HashedPassword := hash(password)];
      assert userDict == CreateUserColumns(data, hash);
      var created := repository.Create(userDict, now);
      if created.None? {
        return Failure(IntegrityError);
      }
      r := Success(created.value);
    }

    /** `get_user(user_id)`. */
    function GetUser(id: int): (r: Option<Row>)
      reads repository
      ensures r.Some? ==> r.value in repository.rows && r.value.id == id && Active(r.value)
      ensures r.None? ==> forall x :: x in repository.rows && x.id == id ==> !Active(x)
    {
      GetById(repository.rows, id)
    }

    /** `get_user_by_email(email)`. */
    function GetUserByEmail(email: string): (r: Option<Row>)
      requires Valid()
      reads this, repository
      ensures r.Some? ==> r.value in repository.rows && Active(r.value) && Column(r.value, EmailCol) == Str(email)
      ensures r.None? ==> forall x :: x in repository.rows && Column(x, EmailCol) == Str(email) ==> !Active(x)
    {
      assert EmailCol in UserSchema.unique;
      GetByEmail(repository.rows, email)
    }

    /** `get_users(skip, limit)`. */
    function GetUsers(skip: nat, limit: nat): (r: seq<Row>)
      reads repository
      ensures |r| <= limit
      ensures |r| == PageLength(|ActiveRows(repository.rows)|, skip, limit)
      ensures forall k :: 0 <= k < |r| ==>
        skip + k < |ActiveRows(repository.rows)| && r[k] == ActiveRows(repository.rows)[skip + k]
    {
      GetAll(repository.rows, skip, limit)
    }

    /** `count_users()`: the active users. */
    function CountUsers(): (n: nat)
      reads repository
      ensures n == |ActiveRows(repository.rows)|
    {
      Count(repository.rows)
    }

    /** `update_user(user_id, user_data)`: the lookup, the dump with a sent
        password swapped for its hash, then the update. */
    method UpdateUser(id: int, data: UserUpdate, hash: Value -> Value, now: nat) returns (r: Result<Option<Row>, ServiceError>)
      requires Valid()
      modifies repository
      ensures Valid()
      ensures (r, repository.rows) == UpdateById(UserSchema, old(repository.rows), id, UserUpdateDump(data, hash), now)
    {
      GetByIdExact(repository.rows, id);
      var user := GetUser(id);
      if user.None? {
        return Success(None);
      }
      var updateDict := UpdateDump(data);
      if Password in updateDict {
        var password := updateDict[Password];
        updateDict := updateDict - {Password};
        updateDict := updateDict[HashedPassword := hash(password)];
      }
      assert updateDict == UserUpdateDump(data, hash);
      var updated := repository.Update(user.value.id, updateDict, now);
      if updated.None? {
        return Failure(IntegrityError);
      }
      r := Success(updated);
    }

    /** `delete_user(user_id)`. */
    method DeleteUser(id: int, now: nat) returns (r: Option<Row>)
      requires Valid()
      modifies repository
      ensures Valid()
      ensures (r, repository.rows) == DeleteById(old(repository.rows), id, now)
    {
      GetByIdExact(repository.rows, id);
      var user := GetUser(id);
      if user.None? {
        return None;
      }
      var deleted := repository.Delete(user.value.id, now);
      r := Some(deleted);
    }
  }
}
