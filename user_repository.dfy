/**
 * The user queries of app/repositories/user_repository.py.
 */
module UserRepository {
  import opened Wrappers
  import opened Records
  import opened Repository
  import opened UserModel

  /** `get_by_email(email)`: the active user with that email. The UNIQUE
      constraint on `email` leaves at most one, so `scalar_one_or_none` never
      raises. */
  function GetByEmail(users: seq<Row>, email: string): (r: Option<Row>)
    requires UniqueOn(users, EmailCol)
    ensures r.Some? ==> r.value in users && Active(r.value) && Column(r.value, EmailCol) == Str(email)
    ensures r.None? ==> forall x :: x in users && Column(x, EmailCol) == Str(email) ==> !Active(x)
  {
    UniqueWhere(users, EmailCol, Str(email));
    var found := Where(ActiveRows(users), EmailCol, Str(email));
    var r := ScalarOneOrNone(found);
    assert r.None? ==> forall x :: x in users && Active(x) ==> x in ActiveRows(users);
    r
  }

  /** `email_exists(email)`: some active user has that email. The email of a
      soft-deleted user is reported as free. */
  function EmailExists(users: seq<Row>, email: string): (b: bool)
    requires UniqueOn(users, EmailCol)
    ensures b <==> exists x :: x in users && Active(x) && Column(x, EmailCol) == Str(email)
  {
    GetByEmail(users, email).Some?
  }

  /** Under the UNIQUE constraint, the user `get_by_email` finds is the only
      row with that email, active or not. */
  lemma GetByEmailUnique(users: seq<Row>, email: string)
    requires UniqueOn(users, EmailCol) && GetByEmail(users, email).Some?
    ensures forall x :: x in users && Column(x, EmailCol) == Str(email) ==> x == GetByEmail(users, email).value
  {
    var u := GetByEmail(users, email).value;
    forall x | x in users && Column(x, EmailCol) == Str(email) ensures x == u {
      var i :| 0 <= i < |users| && users[i] == x;
      var j :| 0 <= j < |users| && users[j] == u;
      if i != j {
        assert false;
      }
    }
  }

  /** An email held only by soft-deleted users is reported as free, yet it is
      still stored, so the UNIQUE constraint refuses a new user with it. */
  lemma InactiveEmailFreeButTaken(users: seq<Row>, email: string, data: Dict, now: nat)
    requires UniqueOn(users, EmailCol)
    requires exists x :: x in users && Column(x, EmailCol) == Str(email)
    requires forall x :: x in users && Column(x, EmailCol) == Str(email) ==> !Active(x)
    requires EmailCol in data && data[EmailCol] == Str(email)
    ensures !EmailExists(users, email)
    ensures InsertRow(UserSchema, users, data, now).0.None?
  {
    InsertSingleUniqueIff(UserSchema, users, data, now, EmailCol);
    WhereEmpty(users, EmailCol, Str(email));
  }
}
