# Party registry and user accounts backend: a Dafny model

This project models the core of a FastAPI + SQLAlchemy backend. The backend keeps a party registry:

- `persona` rows, each with identification documents;
- optional client, supplier and employee profiles attached to a persona;
- the user accounts that may use the API.

Five parts of the backend are modelled:

- **The generic soft-delete repository** (`BaseRepository`). Reads see only rows whose `is_active` is true. `create`, `update` (skipping None values) and `delete` (clearing `is_active`) go through a class `Repository.Table`. Its methods are proved equal to specification functions of the old rows.
- **The data model and request schemas.** This covers the tables (`persona`, `identificacion`, `contacto`, `cliente`, `proveedor`, `empleado`, `users`) with their defaults and UNIQUE columns, the string enums, the field bounds that request validation enforces, and the dictionaries `model_dump` produces.
- **The persona, user and auth services.** Their writing operations are methods of the classes `PersonaService.PersonaService` and `UserService.UserService`, proved equal to specification functions. The reads are functions of the rows.
- **The request dependencies.** These are `get_current_user` and `require_roles` with its two predefined instances.
- **The three routers** (`/persona`, `/users`, `/auth`). Each handler is a function that returns the response and the tables afterwards. Every route's error order is modelled:
  - a dependency's refusal comes first;
  - then request validation (422);
  - then the handler's own checks.

  An error leaves the tables as they were, because the request's session rolls back. A success leaves the written tables.

## How the store is modelled

- **Rows.** A row is `Row(id, createdAt, updatedAt, columns)`. `columns` maps column names to values (`Null`, strings, integers, booleans), because the repository is generic over dictionaries (`Model(**data)`, a `setattr` loop).
- **Tables and keys.** A table is a sequence of rows in key order. The listing queries carry no ORDER BY, so PostgreSQL may return their rows in any order; the model fixes key order, one of the orders the database may return, and OFFSET/LIMIT pages over it (see "## Left out"). Primary keys are serial, and the model numbers them without gaps (`Keyed`): the n-th stored row has key n. The application only soft-deletes, so the row with key `id` sits at position `id - 1`. A PostgreSQL sequence can leave gaps (see "## Left out").
- **UNIQUE constraints.** The store checks them at the write, as the database does. A write that would duplicate a stored value, active or soft-deleted, is refused and changes nothing. The service then sees this as an `IntegrityError`; the client sees 500.
  - This is why a number or email held only by a soft-deleted row passes the services' "already exists" checks but cannot be stored again.
- **Collaborators as parameters.** `hash` (`hash_password`), `verify` (`verify_password`) and `isEmail` (pydantic's `EmailStr`) are parameters. So are the token encoder and the decoded token payload. The clock `now` is a parameter; timestamps are naturals. Emails are compared as given: `EmailStr`'s normalisation is not modelled (see "## Left out").

## Model

| member | source | states |
|---|---|---|
| Records.NewRowShape | app/models/base.py:8-17 | a new record maps exactly the table's columns, holds every given non-None value, takes the column default where the data is silent or None (so `is_active` is true unless the data sets it), NULL where there is no default, and takes both timestamps from the store clock |
| Records.RefreshedAudit | app/models/base.py:14-16 | an update never changes `created_at` or the key, and moves `updated_at` to the clock exactly when some column changed |
| Repository.ActiveRows | app/repositories/base.py:27-29 | exactly the rows with `is_active` true; when the table's keys increase along it (every serial table), so do the result's: the active rows in key order |
| Repository.PrependIncreasing | app/repositories/base.py:27-29 | keeping or dropping the first row in front of an order-preserving selection of the rest keeps increasing keys increasing |
| Repository.KeyedIdsIncreasing | app/models/base.py:13 | a table whose serial keys number its rows has strictly increasing keys along it |
| Repository.ActiveRowsAppend | app/repositories/base.py:27-29 | appending a row extends the selection by that row exactly when it is active: the selection is the table filtered in place |
| Repository.Where | app/repositories/persona_repository.py:14-17 | exactly the rows whose column equals the value; increasing keys stay increasing, so the matches come in key order |
| Repository.ScalarOneOrNone | app/repositories/base.py:22-23 | None for no result, the single row for one |
| Repository.GetById | app/repositories/base.py:16-23 | the found row is stored, has that key and is active; None means no active row has that key |
| Repository.GetByIdExact | app/repositories/base.py:16-23 | with serial keys, `get_by_id` is the row at position id-1 when it is active, None otherwise |
| Repository.Page | app/repositories/base.py:29 | OFFSET/LIMIT: min(limit, n - skip) of the n rows, none when skip >= n, the k-th being row `skip + k` |
| Repository.GetAll | app/repositories/base.py:25-31 | a page of the n active rows: min(limit, n - skip) rows when skip < n and none otherwise, element k being active row `skip + k` |
| Repository.Count | app/repositories/base.py:66-74 | the number of active rows; 0 exactly when no row is active |
| Repository.CountReplace | app/repositories/base.py:66-74 | replacing one row changes the count by the change of that row's flag |
| Repository.CountAppend | app/repositories/base.py:66-74 | appending a row adds one to the count exactly when it is active |
| Repository.NoneWhere | app/repositories/base.py:16-23 | no matching row gives an empty selection |
| Repository.WhereEmpty | app/repositories/base.py:16-23 | the selection is empty exactly when no row matches |
| Repository.UniqueWhere | app/repositories/user_repository.py:12-17 | under a UNIQUE constraint, at most one row holds a non-NULL value, so `scalar_one_or_none` never raises |
| Repository.Patched | app/repositories/base.py:41-45 | columns named with a non-None value take it; all others keep their value |
| Repository.PatchIdempotent | app/repositories/base.py:41-45 | applying the same patch twice equals applying it once |
| Repository.InsertRowSpec | app/repositories/base.py:33-39 | `create` appends exactly one row built from the data with a fresh key, or, when a UNIQUE constraint refuses it, changes nothing; the table invariant is kept |
| Repository.InsertSingleUniqueIff | app/repositories/base.py:33-39 | with one UNIQUE column, `create` succeeds iff no stored row, active or not, holds the value |
| Repository.AppendKeepsInvariant | app/repositories/base.py:33-39 | an appended row with the next key, the table's columns and no collision keeps the table invariant and has a new key |
| Repository.AppendKeepsUnique | app/repositories/base.py:33-39 | an appended row that collides with none keeps every UNIQUE constraint |
| Repository.UpdateRowSpec | app/repositories/base.py:41-48 | `update` writes exactly the patch's non-None values, keeps key and `created_at` and every other row, or changes nothing when refused; invariant kept |
| Repository.DeleteRowSpec | app/repositories/base.py:50-54 | `delete` sets `is_active` False and changes nothing else; invariant kept |
| Repository.DeleteHidesRow | app/repositories/base.py:50-54 | after `delete` of an active row `get_by_id` misses it and `count` drops by one |
| Repository.DeleteIdempotent | app/repositories/base.py:50-54 | a second `delete` of the same row, at any later time, changes nothing |
| Repository.DeleteIsPatch | app/repositories/base.py:41-54 | `delete` is the update `{is_active: False}` of the same row |
| Repository.UpdateByIdOutcome | app/services/user_service.py:45-56 | lookup then update: missing/inactive id gives None with nothing written; a refused write is an IntegrityError with nothing written and needs a UNIQUE column in the patch; otherwise exactly the non-None values are written; invariant kept |
| Repository.DeleteByIdOutcome | app/services/persona_service.py:78-85 | lookup then delete: None iff missing/inactive (nothing written); otherwise the row becomes inactive with other columns kept, `get_by_id` misses it, count drops by one, invariant kept |
| Repository.Table.Create | app/repositories/base.py:33-39 | the new rows and result are `InsertRow` of the old rows |
| Repository.Table.Update | app/repositories/base.py:41-48 | the `setattr` loop produces `UpdateRow` of the old rows |
| Repository.Table.Delete | app/repositories/base.py:50-54 | the new rows and result are `DeleteRow` of the old rows |
| PersonaModel.ParseTipoIdentificacion | app/models/persona.py:7-11 | the member whose value is the string; None iff no member has it |
| PersonaModel.ParseTipoPersona | app/models/persona.py:13-16 | the member whose value is the string; None iff no member has it |
| PersonaModel.ParseTipoContacto | app/models/persona.py:18-23 | the member whose value is the string; None iff no member has it |
| PersonaModel.EnumRoundTrips | app/models/persona.py:7-23 | every enum member is recovered from its stored string |
| PersonaModel.SchemasWellFormed | app/models/persona.py:25-190 | the six party tables have an `is_active` column defaulting to True that is not UNIQUE |
| PersonaModel.ExceptId | app/models/persona.py:58-62 | exactly the rows whose key differs; increasing keys stay increasing, so they come in key order |
| PersonaModel.NotOwnedBy | app/models/persona.py:58-68 | exactly the rows not owned by the persona; increasing keys stay increasing, so they come in key order |
| PersonaModel.RemovePersona | app/models/persona.py:58-86 | removing a persona fails iff a client, supplier or employee profile refers to it |
| PersonaModel.RemovePersonaSpec | app/models/persona.py:58-86 | a removal keeps referential integrity, takes exactly the persona's identifications and contacts (delete-orphan), keeps every profile |
| PersonaModel.DetachIdentificacion | app/models/persona.py:58-62 | an identification removed from its persona's list is deleted, all others kept |
| PersonaModel.DetachKeepsIntegrity | app/models/persona.py:58-62 | detaching keeps referential integrity |
| PersonaModel.OwnedByAfterRemoval | app/models/persona.py:106 | children not owned by the removed persona keep an existing owner |
| PersonaModel.OneProfilePerKind | app/models/persona.py:130-190 | at most one client/supplier/employee row per persona; a profile insert succeeds iff none of that kind exists |
| PersonaModel.NumberAndValueUnique | app/models/persona.py:108-122 | `numero` and `valor` are unique over whole tables; an insert succeeds iff no stored row holds the value |
| PersonaSchemas.DefaultsAccepted | app/schemas/persona.py:45-87 | a create with only `tipo_persona`, and an empty update, are valid |
| PersonaSchemas.PersonaCreateColumns | app/services/persona_service.py:25 | the intended dump without the two lists: exactly the five persona columns (as written the dump keeps both lists; see "## Findings") |
| PersonaSchemas.IdentificacionColumns | app/services/persona_service.py:30-31 | the entry's dump plus `persona_id`: every identification column but `is_active` |
| PersonaSchemas.UpdateDump | app/schemas/persona.py:70-87 | `exclude_unset`: a column is in the dump iff its field was sent, with the sent value |
| PersonaSchemas.NewPersonaRowTyped | app/schemas/persona.py:45-59 | a valid request builds an active, well-typed persona row of the requested type |
| PersonaSchemas.NewIdentificacionRowTyped | app/schemas/persona.py:11-15 | a valid entry builds an active, well-typed identification owned by the persona and carrying its number |
| PersonaSchemas.UpdateKeepsTyped | app/schemas/persona.py:70-87 | a valid update keeps a persona row well typed |
| PersonaRepository.GetByIdentificacion | app/repositories/persona_repository.py:12-20 | the active persona owning the identification with that number; None iff there is none |
| PersonaRepository.IdentificacionExists | app/repositories/persona_repository.py:33-36 | true iff some active persona owns an identification with that number |
| PersonaRepository.ActiveOfTipo | app/repositories/persona_repository.py:25-27 | exactly the active personas of that type, in key order when the table's keys increase |
| PersonaRepository.Listed | app/services/persona_service.py:52-60 | the rows a listing pages over: exactly the active personas, of the type when one is given, in key order when the table's keys increase |
| PersonaRepository.GetByTipo | app/repositories/persona_repository.py:22-31 | a page of the n active personas of that type: min(limit, n - skip) of them when skip < n and none otherwise, element k being the `skip + k`-th |
| PersonaRepository.InactiveNumberFreeButTaken | app/repositories/persona_repository.py:33-36 | a number held only under inactive personas is reported free, yet a new identification with it is refused |
| PersonaService.InsertAllStops | app/services/persona_service.py:29-32 | once the write loop has failed, later entries change nothing |
| PersonaService.InsertAllSpec | app/services/persona_service.py:29-32 | the write loop succeeds iff the numbers are fresh (stored and among themselves), then appends one owned row per entry; invariant kept |
| PersonaService.FreshStep | app/services/persona_service.py:29-32 | freshness of the list grown by one entry |
| PersonaService.AppendedNumbers | app/services/persona_service.py:29-32 | each appended row is owned by the persona and carries its entry's number |
| PersonaService.StoredNumbers | app/services/persona_service.py:29-32 | the numbers stored after the loop: the old ones and the entries' |
| PersonaService.StoredValues | app/services/persona_service.py:29-32 | a value is stored after appending iff it was stored before or appended |
| PersonaService.AppendedStep | app/services/persona_service.py:29-32 | one more insert extends the appended rows |
| PersonaService.NewIdentificacionColumn | app/services/persona_service.py:30-32 | the stored number and owner of a new identification |
| PersonaService.ExistsIsStored | app/repositories/persona_repository.py:33-36 | a number held by an active persona is stored |
| PersonaService.CreatePersonaOutcome | app/services/persona_service.py:14-41 | empty list gives ValueError; a number held by an active persona gives ValueError with nothing written; a number stored under an inactive persona or sent twice gives IntegrityError; otherwise success; invariants kept |
| PersonaService.CreatePersonaWrites | app/services/persona_service.py:24-41 | a success writes one active typed persona from the request and one owned identification per entry, and returns the persona |
| PersonaService.NumberFreeAfterDelete | app/services/persona_service.py:78-85 | after the soft delete of the persona owning a number, no active persona holds it |
| PersonaService.DeletedNumberNotReusable | app/services/persona_service.py:78-85 | after `delete_person`, the pre-check calls the persona's number free but re-creating it ends in IntegrityError |
| PersonaService.UpdatePersonaOutcome | app/services/persona_service.py:62-76 | `update_persona` never fails; it writes exactly the sent non-None fields, keeps the rest, and keeps a row well typed |
| PersonaService.DeadIdentificationCheck | app/services/persona_service.py:69-74 | no update dump holds `numero_identificacion`, so that branch is never taken |
| PersonaService.PersonaService.CreatePersona | app/services/persona_service.py:14-41 | the lookup loop, the persona write and the write loop produce `CreatePersonaSpec` of the old rows |
| PersonaService.PersonaService.AnyNumberTaken | app/services/persona_service.py:17-22 | the lookup loop answers true iff some submitted number belongs to an active persona |
| PersonaService.PersonaService.CreateIdentifications | app/services/persona_service.py:29-32 | the write loop's result and new rows are `InsertAll` of the old rows |
| PersonaService.PersonaService.GetPersona | app/services/persona_service.py:44-46 | the active persona with that key, or None iff none |
| PersonaService.PersonaService.GetPersonaByIdentification | app/services/persona_service.py:48-50 | the active owner of the number, or None iff none |
| PersonaService.PersonaService.GetPersonList | app/services/persona_service.py:52-60 | a page of the n active personas (of the type when one is given): min(limit, n - skip) of them when skip < n and none otherwise, element k being the `skip + k`-th |
| PersonaService.PersonaService.CountPersons | app/services/persona_service.py:87-89 | the number of active personas of any type |
| PersonaService.PersonaService.UpdatePersona | app/services/persona_service.py:62-76 | the result and new rows are `UpdateById` of the old rows with the update dump |
| PersonaService.PersonaService.DeletePerson | app/services/persona_service.py:78-85 | the result and new rows are `DeleteById` of the old rows |
| Numerals.DigitChar | app/services/auth_services.py:31 | a decimal digit character with the given value |
| Numerals.NatString | app/services/auth_services.py:31 | `str` of a natural: digits only, no leading zero, two or more digits iff n >= 10 |
| Numerals.DecimalString | app/services/auth_services.py:31 | `str` of an integer: digits, with a leading '-' when negative |
| Numerals.ParseInt | app/core/dependencies.py:37 | `int` of a string: it parses exactly a digit, or a sign followed by at least one digit, followed by digits; an all-digit string gives its decimal value, `-` and `+` followed by digits give the negated and the plain value |
| Numerals.NatStringValue | app/services/auth_services.py:31 | the digits of `str(n)` denote n |
| Numerals.DecimalRoundTrip | app/core/dependencies.py:37 | `int(str(i)) == i` |
| Numerals.DecimalInjective | app/services/auth_services.py:31 | distinct integers have distinct decimal strings |
| Http.PageNumber | app/api/v1/users.py:39 | `skip // limit + 1`: the page p with (p-1)·limit <= skip < p·limit |
| Http.ConvertAll | app/api/v1/users.py:36-41 | a list serialises iff every row does, elementwise |
| Http.ConvertPage | app/api/v1/users.py:36-41 | a page serialises iff every row of the page does; then it holds min(limit, n - skip) responses (none when skip >= n), the k-th from row `skip + k` |
| UserModel.ParseUserRole | app/models/user.py:6-12 | the role whose value is the string; None iff none |
| UserModel.RoleRoundTrip | app/models/user.py:6-12 | every role is recovered from its stored string |
| UserModel.UserSchemaShape | app/models/user.py:14-34 | `email` is the only UNIQUE column; a user created without a role is "vendedor" |
| UserSchemas.NewUserRequest | app/schemas/user.py:11-17 | the role defaults to vendedor, the other fields are as given |
| UserSchemas.CreateDump | app/services/user_service.py:22 | the dump holds exactly email, password, full name and role |
| UserSchemas.HashPassword | app/services/user_service.py:28 | the password entry is replaced by `hashed_password`, its hash; the rest is kept |
| UserSchemas.CreateUserColumns | app/services/user_service.py:22-28 | the insert data: the request's email, name and role, the hash of the password, no plain password |
| UserSchemas.UpdateDump | app/schemas/user.py:20-27 | `exclude_unset`: a key is present iff its field was sent |
| UserSchemas.UserUpdateDump | app/services/user_service.py:52-54 | sent fields only; a sent password is present only as its hash |
| UserSchemas.ToUserResponse | app/schemas/user.py:34-39 | a typed row always serialises; the response carries the row's audit fields, email, name and role |
| UserSchemas.ResponseHidesPassword | app/schemas/user.py:34-39 | the response never depends on the stored hash |
| UserSchemas.NewUserRowTyped | app/services/user_service.py:15-31 | a valid request stores a typed, active user with the requested role |
| UserRepository.GetByEmail | app/repositories/user_repository.py:12-17 | the active user with that email; None iff none |
| UserRepository.EmailExists | app/repositories/user_repository.py:19-22 | true iff an active user has that email |
| UserRepository.GetByEmailUnique | app/repositories/user_repository.py:12-17 | the found user is the only row, active or not, with that email |
| UserRepository.InactiveEmailFreeButTaken | app/repositories/user_repository.py:19-22 | an email held only by inactive users is reported free, yet a new user with it is refused |
| UserService.CreateUserOutcome | app/services/user_service.py:15-31 | ValueError iff an active user has the email; IntegrityError iff only an inactive one does; otherwise one new active row with the hash and no password, count + 1; failures write nothing |
| UserService.NewUserColumns | app/services/user_service.py:22-31 | the row `create_user` builds is active and holds the request's email, name and role and the hash of the password, with no plain password |
| UserService.UserCollides | app/models/user.py:21-23 | a row collides on the users table exactly when another row holds its non-NULL email |
| UserService.UpdateUserOutcome | app/services/user_service.py:45-56 | fails iff the user exists and a sent email is held by another row; a sent password is stored only as its hash; otherwise the hash is kept |
| UserService.UserService.CreateUser | app/services/user_service.py:15-31 | the email lookup, the dump with the password popped and hashed, and the insert produce `CreateUserSpec` |
| UserService.UserService.GetUser | app/services/user_service.py:33-35 | the active user with that key, or None iff none |
| UserService.UserService.GetUserByEmail | app/services/user_service.py:37-39 | the active user with that email, or None iff none |
| UserService.UserService.GetUsers | app/services/user_service.py:41-43 | a page of the n active users: min(limit, n - skip) of them when skip < n and none otherwise, element k being active user `skip + k` |
| UserService.UserService.CountUsers | app/services/user_service.py:66-71 | the number of active users |
| UserService.UserService.UpdateUser | app/services/user_service.py:45-56 | the result and new rows are `UpdateById` with the hashed dump |
| UserService.UserService.DeleteUser | app/services/user_service.py:58-64 | the result and new rows are `DeleteById` |
| AuthService.Authenticate | app/services/auth_services.py:16-26 | a user is returned iff an active user has the email and the password verifies against its hash; an unknown email and a wrong password look alike |
| AuthService.CreateTokenForUser | app/services/auth_services.py:28-37 | claims are exactly sub, email and role; `int(sub)` is the user's id; lifetime is the configured minutes |
| Dependencies.GetCurrentUser | app/core/dependencies.py:14-45 | no payload gives 401 "Token not found invalid/expired"; no sub gives 401 "Token invalid"; a non-numeric sub gives 500; 401 "User not found" iff no active user has the id; otherwise that user |
| Dependencies.RoleValues | app/core/dependencies.py:54 | the allowed roles' values, in order |
| Dependencies.AdminDetail | app/core/dependencies.py:54-60 | the detail is "Se requiere uno de estos roles: ['admin']" |
| Dependencies.AdminOrContadorDetail | app/core/dependencies.py:54-61 | the detail is "Se requiere uno de estos roles: ['admin', 'contador']" |
| Dependencies.RoleChecker | app/core/dependencies.py:48-57 | the authentication error passes through first; then success iff the stored role is allowed, else 403 with the roles detail |
| Dependencies.RequireAdmin | app/core/dependencies.py:60 | admits exactly authenticated users whose stored role is "admin" |
| Dependencies.RequireAdminOrContador | app/core/dependencies.py:61 | admits exactly authenticated users whose stored role is "admin" or "contador" |
| PersonaApi.ToPersonaResponse | app/schemas/persona.py:91-109 | a typed persona always serialises, carrying the row's values |
| PersonaApi.CreatePerson | app/api/v1/persona.py:15-27 | auth error first, then 422; a success stores what `create_persona` wrote; any error leaves the store unchanged |
| PersonaApi.CreatePersonStatuses | app/api/v1/persona.py:15-27 | no identification gives 400 "No identificacion found"; an active holder gives 400 "Identification number already exists"; an inactive holder or a duplicate gives 500; nothing is written in these cases |
| PersonaApi.CreatePersonCreates | app/api/v1/persona.py:15-27 | an authenticated valid request with fresh numbers gets 201; the new persona row is appended and is the response; one owned identification per entry |
| PersonaApi.ListPersons | app/api/v1/persona.py:29-46 | 422 iff skip < 0, limit outside 1..100 or an unknown tipo; accepted parameters succeed iff every row of the page serialises; a success holds min(limit, n - skip) personas (none when skip >= n) of the n listed rows, element k serialising row `skip + k`; total = all active personas, page = skip//limit+1 |
| PersonaApi.ListPersonsSucceeds | app/api/v1/persona.py:29-46 | under the invariant, accepted parameters always give an answer |
| PersonaApi.GetPerson | app/api/v1/persona.py:48-59 | 404 "Person not found" iff no active persona has the id; a success is that persona; an authenticated request for an active, well-typed persona is answered with it |
| PersonaApi.UpdatePerson | app/api/v1/persona.py:61-76 | 422 for invalid data; 404 "Person with id {id} not found" iff no active persona has the id; errors leave the store unchanged; a success stores `UpdateById` and answers the updated row; an authenticated valid update of an active, well-typed persona succeeds |
| PersonaApi.DeletePerson | app/api/v1/persona.py:78-88 | 404 "Person not found" iff no active persona has the id; success iff authenticated and an active persona has the id, and then the persona is soft-deleted |
| PersonaApi.OwnedByGrow | app/models/persona.py:106 | adding a persona keeps every child's owner |
| PersonaApi.OwnedByReplace | app/models/persona.py:106 | replacing a persona by a row with the same key keeps every child's owner |
| PersonaApi.ReplacePersona | app/models/persona.py:25-86 | replacing a persona by a typed row with its key keeps the store invariant |
| PersonaApi.AppendPersona | app/services/persona_service.py:24-32 | appending a typed persona and identifications it owns keeps the store invariant |
| PersonaApi.CreateKeepsInvariant | app/api/v1/persona.py:15-27 | the create route keeps every table invariant, referential integrity and typed personas |
| PersonaApi.UpdateKeepsInvariant | app/api/v1/persona.py:61-76 | the update route keeps the store invariant |
| PersonaApi.DeleteKeepsInvariant | app/api/v1/persona.py:78-88 | the delete route keeps the store invariant; the persona's children stay owned |
| PersonaApi.DeleteByIdKeepsInvariant | app/repositories/base.py:50-54 | soft-deleting a persona by key keeps the route invariant |
| PersonaApi.SoftDeletedTyped | app/repositories/base.py:50-54 | a row differing from a typed persona only in `is_active` (set false) is still typed |
| PersonaApi.CreatePersonAsWritten | app/services/persona_service.py:17-18 | as written, every authenticated valid create fails and writes nothing |
| PersonaApi.ListPersonsAsWritten | app/repositories/persona_repository.py:25-28 | as written, a list with a tipo always fails; without one it is the intended list |
| PersonaApi.CreatePersonAsWrittenRefusesFresh | app/services/persona_service.py:17-18 | a request the intended route creates is answered 500 as written |
| PersonaApi.ListByTipoAsWrittenFails | app/repositories/persona_repository.py:25-28 | an accepted typed list the intended route answers fails as written |
| UsersApi.CreateUserResults | app/services/user_service.py:15-31 | `create_user` as the route sees it: ValueError iff an active user has the email, IntegrityError iff only soft-deleted users hold it, success iff no row holds it, and the new user serialises with the requested email, name and role |
| UsersApi.CreateUser | app/api/v1/users.py:12-24 | admins only; 422 for invalid data; 400 "Email already exists" iff an active user has the email; 500 iff only soft-deleted users hold it; success iff no row holds it, answering the new active user with the requested email, name and role; errors write nothing |
| UsersApi.GetUsers | app/api/v1/users.py:26-41 | a negative skip/limit or limit 0 gives 500; accepted parameters succeed iff every row of the page serialises; a success holds min(limit, n - skip) of the n active users (none when skip >= n), element k serialising active user `skip + k`; total = n, page = skip//limit+1 |
| UsersApi.UserPage | app/api/v1/users.py:33-41 | the listing once the parameters are accepted: present iff every row of the page serialises, with the page's users, total = active users and the page number |
| UsersApi.ListUsersSucceeds | app/api/v1/users.py:26-41 | under the invariant, skip >= 0 and limit >= 1 always give an answer |
| UsersApi.GetUser | app/api/v1/users.py:43-54 | 404 "User not found" iff no active user has the id; a success is that user; an authenticated request for an active, well-typed user is answered with it |
| UsersApi.UpdateUser | app/api/v1/users.py:57-80 | 403 "You can only edit your own profile" iff a non-admin edits another id; 403 "Solo ADMIN puede cambiar roles" iff a non-admin editing themself sends a role; 404 iff both checks pass and the id is missing; success iff both checks pass and `UpdateById` writes a serialisable row, which is the answer |
| UsersApi.AdminNeverForbiddenOnUpdate | app/api/v1/users.py:64-71 | an admin is never answered 403 by the update route |
| UsersApi.OwnProfileUpdate | app/api/v1/users.py:64-80 | a non-admin editing themself without a role gets exactly the update's result |
| UsersApi.PatchKeepsResponse | app/repositories/base.py:41-48 | a valid update keeps a user serialisable |
| UsersApi.ReplaceKeepsSerialisable | app/repositories/base.py:41-54 | replacing a user by a serialisable row keeps all serialisable |
| UsersApi.DeleteUser | app/api/v1/users.py:82-99 | admins only; 400 "You can't delete your own profile" iff deleting oneself; 404 iff the id is missing; success iff an admin deletes another active user, by a soft delete |
| UsersApi.CreateKeepsInvariant | app/api/v1/users.py:12-24 | the create route keeps the table invariant and serialisable users |
| UsersApi.UpdateKeepsInvariant | app/api/v1/users.py:57-80 | the update route keeps the invariant |
| UsersApi.DeleteByIdKeepsInvariant | app/repositories/base.py:50-54 | a soft delete keeps the invariant |
| UsersApi.DeleteKeepsInvariant | app/api/v1/users.py:82-99 | the delete route keeps the invariant |
| UsersApi.DeletedUserLosesAccess | app/api/v1/users.py:82-99 | after a user is deleted, any token for them gets 401 "User not found" |
| AuthApi.Login | app/api/v1/auth.py:15-30 | 422 for a non-email; 401 "Incorrect email or password" iff no active user with the email verifies the password; when one does, a bearer token for that user |
| AuthApi.LoginTokenIdentifiesUser | app/services/auth_services.py:28-37 | a token issued to an active user authenticates as that same user |
| AuthApi.Me | app/api/v1/auth.py:32-35 | the authenticated user's response |
| AuthApi.Register | app/api/v1/auth.py:37-62 | 422 for invalid data; 403 while any user is active; otherwise `create_user` with the role forced to admin |
| AuthApi.RegisterNeverBadRequest | app/api/v1/auth.py:58-62 | the 400 branch is unreachable: with no active user no email is taken |
| AuthApi.RegisterCreatesAdmin | app/api/v1/auth.py:50-57 | with no active user and an unused email, one active admin is created whatever role was asked |
| AuthApi.RegisterReusedEmail | app/api/v1/auth.py:55-57 | with only inactive users, reusing one's email gives 500 and writes nothing |
| AuthApi.FirstAdminPassesRequireAdmin | app/api/v1/auth.py:50-56 | a token issued to the registered first user passes `require_admin` |

## Findings

| source | as written | input that shows it | evidently intended | confidence | as-written member | corrected member |
|---|---|---|---|---|---|---|
| app/services/persona_service.py:17-18 | `create_persona` reads `data.identificacion`, but `PersonaCreate` names the field `identificaciones` (app/schemas/persona.py:58). The AttributeError escapes `except ValueError`. Past it, the pre-check queries `Persona.numero_identificacion`, which is commented out of the model, and the create dump (line 25) keeps the two lists, which `Persona(**persona_data)` refuses with a TypeError. | An authenticated `POST /persona/create` with `{"tipo_persona": "natural", "identificaciones": [{"tipo": "cedula", "numero": "0102030405"}]}` on an empty store is answered 500. | Check the submitted numbers against identifications of active personas, then create the persona and its identifications. | high (not executed) | PersonaApi.CreatePersonAsWritten, PersonaApi.CreatePersonAsWrittenRefusesFresh | PersonaApi.CreatePerson, PersonaApi.CreatePersonStatuses |
| app/repositories/persona_repository.py:25-28 | `get_by_tipo` filters on `Persona.tipo`, which is commented out of the model (app/models/persona.py:55). | An authenticated `GET /persona/?tipo=natural` is answered 500. | Filter on the mapped column `tipo_persona`. | high (not executed) | PersonaApi.ListPersonsAsWritten, PersonaApi.ListByTipoAsWrittenFails | PersonaApi.ListPersons, PersonaApi.ListPersonsSucceeds |

Both rows presuppose that the application can be imported at all. As written it cannot: app/models/__init__.py:4 imports `Identifacion`, but app/models/persona.py defines `Identificacion`; app/services/persona_service.py:4 imports an `IdentificacionRepository` that app/repositories/persona_repository.py does not define. The model assumes both imports repaired, and each row's input then shows the failure.

The rest of the model follows the evident intent on four more points. Each is commented in its module:

- **The missing identification repository.** The service imports an `IdentificacionRepository` that app/repositories/persona_repository.py does not define. The model gives the service a second `Table` over `identificacion`.
- **The misspelled lookup.** The service calls `get_by_identificacion`; the repository spells it `get_by_identifacion`. Both are one function in the model.
- **The lookup's filter column.** The identification lookup goes through the `identificacion` rows and their owner, not the unmapped persona column.
- **The create dump.** app/services/persona_service.py:25 excludes `identificacion` and `contacto`, which are not fields of `PersonaCreate` (app/schemas/persona.py:58-59). As written the dump keeps `identificaciones` and `contactos`, and `Persona(**persona_data)` (app/repositories/base.py:35) raises a TypeError, because the relationships are named `identificacion` and `contacto`. PersonaSchemas.PersonaCreateColumns drops both lists.

## Left out

- **Outside effects.** The model does not include I/O, `async`, the event loop, database connections, the `print` in `delete_person`, or concurrent requests. Each request runs alone on the tables it is given.
- **Hashing, tokens and email validation.** `hash_password`, `verify_password`, `create_access_token`, `decode_token` and pydantic's `EmailStr` belong to modules this model does not include. They are parameters:
  - an exception raised by `hash` (e.g. for an explicit `"password": null` in an update) is not modelled;
  - a JWT's signature and expiry are summed up in the decoded payload, or None.
- **Missing bearer header.** A request without an `Authorization` header is refused by `HTTPBearer` before `get_current_user` runs. That refusal is not modelled.
- **`int()` leniency.** Dependencies.SubjectId parses `int(sub)` as an optional sign followed by ASCII digits. Python also accepts surrounding whitespace, `_` separators and non-ASCII digits. Tokens issued by this backend never contain them.
- **Database column constraints.** NOT NULL and `String(n)` length limits are not enforced by the store; only UNIQUE is. The request schemas' bounds are enforced.
- **`count_users` error wrapping.** Its `except` wrapping a database error into ValueError is not modelled: counting never fails here.
- **Profile routes and contacts.**
  - The client, supplier and employee profiles have schemas and tables but no service or route in the source, so only their tables and one-profile-per-kind rule are modelled.
  - Contacts are never written by the service; the contact loop is commented out.
- **Response lists.** `PersonaResponse.identificaciones` and `contactos` are always the default empty lists: the ORM relationships are named `identificacion` and `contacto`. PersonaApi.PersonaResponse omits them.
- **Value modelling choices.**
  - Decimal amounts are integers and timestamps are naturals.
  - Validation errors are a single 422 `ValidationFailed` without pydantic's error list.
  - The `WWW-Authenticate` header of the 401 answers is not modelled.
- UsersApi.CreateUser, UsersApi.UpdateUser, AuthApi.Login, AuthApi.Register: emails are taken as already normalised. Pydantic's `EmailStr` returns the validator's normalised address (domain lower-cased, surrounding spaces stripped, `Name <addr>` reduced to `addr`), and the source stores and looks up that form (app/schemas/user.py:14,23; app/schemas/auth.py:6). The model compares the raw string, so `a@X.com` after `a@x.com` is a second account here and a 400 in the source, and a login with `a@X.COM` is 401 here and 200 in the source.
- Repository.GetAll, PersonaRepository.GetByTipo, PersonaService.PersonaService.GetPersonList, PersonaApi.ListPersons, UsersApi.GetUsers: the page's elements are stated for key order, which the source does not promise. `get_all` (app/repositories/base.py:27-29) and `get_by_tipo` (app/repositories/persona_repository.py:25-28) have no ORDER BY, so PostgreSQL returns an unspecified order; after an UPDATE the changed row is typically scanned last, so `GET /users/?skip=0&limit=1` may answer user 2 where the model answers user 1. The length, the total and the page number do not depend on the order. Pages taken across requests may skip or repeat rows in the source; the model does not capture this.
- **Path parameters.** A non-integer path parameter (422) is not modelled; ids are integers.
- PersonaCreateColumns: models the intended dump, not the one at app/services/persona_service.py:25, which keeps the two lists and makes `Persona(**persona_data)` raise a TypeError (500). The create route as written already fails earlier, at line 17 (see "## Findings").
- Repository.Table.Create: requires the data's keys to be columns of the table. `Model(**obj_data)` raises a TypeError for any other key; the only caller that passes one is the create dump above.
- **Import errors.** The two failing imports named under "## Findings" are taken as repaired.
- Repository.Keyed: ids are gap-free. PostgreSQL does not roll back a serial sequence, so a refused insert (an IntegrityError, e.g. `POST /users/` with the email of a soft-deleted user) consumes a key. After that, the source gives the next row a key one higher than the model does, and a key the model finds at its position is missing in the source.
- Repository.GetById: keys are unbounded integers. The `INTEGER` key columns are 32-bit, so a path id or token subject outside -2147483648..2147483647 makes the query raise an unhandled database error (500), where the model answers 404 or 401.
