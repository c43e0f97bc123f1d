/**
 * `AuthService` (app/services/auth_services.py): credential check and the
 * claim set of an access token.
 *
 * `verify_password` and `create_access_token` live in a module this model
 * does not include. The first is the parameter `verify`; for the second the
 * model stops at what the service hands it, a `TokenRequest` (the claims
 * and the lifetime), and the router takes the encoder as a parameter.
 */
module AuthService {
  import opened Wrappers
  import opened Records
  import opened Repository
  import opened UserModel
  import opened UserRepository
  import opened Numerals

  const Sub: string := "sub"
  const ClaimEmail: string := "email"
  const ClaimRole: string := "role"

  /** `authenticate_user(email, password)`: the active user with that email
      whose stored hash verifies the password; None when there is no such
      user, or when the password does not verify. The two failures give the
      same None, so a caller cannot tell which one happened. */
  function Authenticate(users: seq<Row>, email: string, password: string, verify: (string, Value) -> bool)
    : (r: Option<Row>)
    requires UniqueOn(users, EmailCol)
    ensures r.Some? <==>
      exists u :: u in users && Active(u) && Column(u, EmailCol) == Str(email) && verify(password, Column(u, HashedPassword))
    ensures r.Some? ==> r == GetByEmail(users, email)
  {
    match GetByEmail(users, email)
    case None => None
    case Some(u) =>
      if !verify(password, Column(u, HashedPassword)) then
        GetByEmailUnique(users, email);
        None
      else Some(u)
  }

  /** What `create_token_for_user` hands to `create_access_token`. */
  datatype TokenRequest = TokenRequest(claims: Dict, expiresMinutes: nat)

  /** `create_token_for_user(user)`: the claims `sub` (the id as a decimal
      string), `email` and `role`, valid for `expireMinutes` minutes (the
      setting ACCESS_TOKEN_EXPIRE_MINUTES). */
  function CreateTokenForUser(user: Row, expireMinutes: nat): (t: TokenRequest)
    ensures t.claims.Keys == {Sub, ClaimEmail, ClaimRole}
    ensures t.claims[Sub].Str? && ParseInt(t.claims[Sub].s) == Some(user.id as int)
    ensures t.claims[ClaimEmail] == Column(user, EmailCol) && t.claims[ClaimRole] == Column(user, RoleCol)
    ensures t.expiresMinutes == expireMinutes
  {
    DecimalRoundTrip(user.id);
    TokenRequest(map[Sub := Str(DecimalString(user.id)), ClaimEmail := Column(user, EmailCol),
                     ClaimRole := Column(user, RoleCol)],
                 expireMinutes)
  }
}
