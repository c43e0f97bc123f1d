/**
 * The `users` table of app/models/user.py: an email that is UNIQUE over the
 * whole table (soft-deleted users included), a password hash, a full name,
 * and a role stored as the string value of a `UserRole` member, "vendedor"
 * by default.
 */
module UserModel {
  import opened Wrappers
  import opened Records

  datatype UserRole = Admin | Vendedor | Comprador | Almacenero | Contador
  {
    /** The stored string (`.value` of the Python member). */
    function Value(): string {
      match this
      case Admin => "admin"
      case Vendedor => "vendedor"
      case Comprador => "comprador"
      case Almacenero => "almacenero"
      case Contador => "contador"
    }
  }

  /** `UserRole(s)`: the member whose value is `s`, if any. */
  function ParseUserRole(s: string): (r: Option<UserRole>)
    ensures r.Some? ==> r.value.Value() == s
    ensures r.None? ==> forall t: UserRole :: t.Value() != s
  {
    if s == "admin" then Some(Admin)
    else if s == "vendedor" then Some(Vendedor)
    else if s == "comprador" then Some(Comprador)
    else if s == "almacenero" then Some(Almacenero)
    else if s == "contador" then Some(Contador)
    else None
  }

  /** Each role is recovered from its stored string. */
  lemma RoleRoundTrip(t: UserRole)
    ensures ParseUserRole(t.Value()) == Some(t)
  {
  }

  const EmailCol: string := "email"
  const HashedPassword: string := "hashed_password"
  const FullName: string := "full_name"
  const RoleCol: string := "role"

  /** `users`: `email` is UNIQUE, `role` defaults to "vendedor". */
  const UserSchema: Schema :=
    Schema({IsActive, EmailCol, HashedPassword, FullName, RoleCol},
           map[IsActive := Bool(true), RoleCol := Str(Vendedor.Value())], {EmailCol})

  /** The users table inherits the audit columns, its only UNIQUE column is
      `email`, and a user created without a role is a "vendedor". */
  lemma UserSchemaShape()
    ensures UserSchema.WellFormed()
    ensures UserSchema.unique == {EmailCol}
    ensures forall data: Dict, id: nat, now: nat :: RoleCol !in data ==>
      Column(NewRow(UserSchema, id, now, data), RoleCol) == Str("vendedor")
  {
  }

  /** A `users` row whose values fit the declared columns: the flag is a
      boolean, the three required strings are present (`nullable=False`), and
      the role is a member of `UserRole`. (Column lengths are the database's
      concern and are not modelled.) */
  predicate UserRowTyped(r: Row) {
    && Column(r, IsActive).Bool?
    && Column(r, EmailCol).Str?
    && Column(r, HashedPassword).Str?
    && Column(r, FullName).Str?
    && Column(r, RoleCol).Str? && ParseUserRole(Column(r, RoleCol).s).Some?
  }
}
