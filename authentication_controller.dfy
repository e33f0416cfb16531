/** The middleware's registration endpoint (GrillPizzeriaOrderMiddleware,
    Controllers/AuthenticationController.cs): a new user is stored with a
    hashed password and the role named "user", unless the username or the
    email is already held. */
module AuthenticationController {
  import opened Wrappers
  import opened Entities
  import opened Tables
  import opened Collation
  import opened Catalog
  import opened Store
  import opened Responses

  /** The request body. */
  datatype RegisterUser = RegisterUser(
    username: string,
    email: string,
    password: string,
    firstName: string,
    lastName: string,
    phone: string)

  datatype Outcome = Outcome(response: Response<string>, state: Snapshot)

  const UsernameTakenMessage := "Username already exists."
  const EmailTakenMessage := "Email already exists."
  const RegisteredMessage := "User registered successfully."
  /** What `First` throws when no role matches; nothing catches it. */
  const NoMatchMessage := "Sequence contains no matching element"
  const UserRoleName := "user"

  function Username(u: User): string { u.username }
  function Email(u: User): string { u.email }

  /** `Roles.First(r => r.Name == "user")`. */
  function UserRole(roles: seq<Role>): Option<Role> {
    First(roles, (r: Role) => DbEquals(r.name, UserRoleName))
  }

  /** The row built from the request. */
  function NewUser(id: int, req: RegisterUser, hash: string -> string, roleId: int): User {
    User(id, req.username, hash(req.password), req.email, req.firstName, req.lastName, req.phone, DefaultDateTime, roleId)
  }

  /** `[ApiController]` answers an invalid body with 400 before the action
      runs; the action itself checks the username, then the email. */
  function RegisterOutcome(s: Snapshot, modelValid: bool, req: RegisterUser, hash: string -> string): Outcome {
    if !modelValid then Outcome(InvalidModel, s)
    else if NameTaken(s.users, Username, req.username) then Outcome(BadRequest(UsernameTakenMessage), s)
    else if NameTaken(s.users, Email, req.email) then Outcome(BadRequest(EmailTakenMessage), s)
    else match UserRole(s.roles)
      case None => Outcome(ServerError(NoMatchMessage), s)
      case Some(role) =>
        Outcome(OkMessage(RegisteredMessage),
          s.(users := s.users + [NewUser(s.nextId, req, hash, role.id)], nextId := s.nextId + 1))
  }

  /** Registration succeeds exactly when the body is valid, the username and
      the email are both free and a role named "user" exists; the username is
      checked first. A refusal inserts nothing. */
  lemma RegisterChecks(s: Snapshot, modelValid: bool, req: RegisterUser, hash: string -> string)
    ensures !modelValid ==> RegisterOutcome(s, modelValid, req, hash) == Outcome(InvalidModel, s)
    ensures RegisterOutcome(s, modelValid, req, hash).response == OkMessage(RegisteredMessage) <==>
      modelValid && !NameTaken(s.users, Username, req.username) && !NameTaken(s.users, Email, req.email) &&
      exists i :: 0 <= i < |s.roles| && DbEquals(s.roles[i].name, UserRoleName)
    ensures modelValid && NameTaken(s.users, Username, req.username) ==>
      RegisterOutcome(s, modelValid, req, hash) == Outcome(BadRequest(UsernameTakenMessage), s)
    ensures modelValid && !NameTaken(s.users, Username, req.username) && NameTaken(s.users, Email, req.email) ==>
      RegisterOutcome(s, modelValid, req, hash) == Outcome(BadRequest(EmailTakenMessage), s)
    ensures !RegisterOutcome(s, modelValid, req, hash).response.OkMessage? ==> RegisterOutcome(s, modelValid, req, hash).state == s
  {
    if modelValid && !NameTaken(s.users, Username, req.username) && !NameTaken(s.users, Email, req.email) &&
      exists i :: 0 <= i < |s.roles| && DbEquals(s.roles[i].name, UserRoleName)
    {
      var i :| 0 <= i < |s.roles| && DbEquals(s.roles[i].name, UserRoleName);
      assert Any(s.roles, (r: Role) => DbEquals(r.name, UserRoleName));
    }
  }

  /** A successful registration appends exactly one user under a fresh id,
      with the request's profile fields, the hash of the password and the
      id of a stored role named "user"; nothing else changes. */
  lemma RegisterWrites(s: Snapshot, modelValid: bool, req: RegisterUser, hash: string -> string)
    requires RegisterOutcome(s, modelValid, req, hash).response.OkMessage?
    ensures var o := RegisterOutcome(s, modelValid, req, hash);
      |o.state.users| == |s.users| + 1 &&
      o.state.users[..|s.users|] == s.users &&
      o.state.(users := s.users, nextId := s.nextId) == s
    ensures var u := RegisterOutcome(s, modelValid, req, hash).state.users[|s.users|];
      u.id == s.nextId && u.username == req.username && u.email == req.email &&
      u.firstName == req.firstName && u.lastName == req.lastName && u.phone == req.phone &&
      u.passwordHash == hash(req.password) &&
      exists role :: role in s.roles && DbEquals(role.name, UserRoleName) && u.roleId == role.id
  {
    var o := RegisterOutcome(s, modelValid, req, hash);
    assert o.state.users[..|s.users|] == s.users;
  }

  /** Registration keeps keys, and keeps usernames and emails unique. */
  lemma RegisterKeepsInvariants(s: Snapshot, modelValid: bool, req: RegisterUser, hash: string -> string)
    requires ValidState(s)
    ensures ValidState(RegisterOutcome(s, modelValid, req, hash).state)
    ensures NamesUnique(s.users, Username) ==> NamesUnique(RegisterOutcome(s, modelValid, req, hash).state.users, Username)
    ensures NamesUnique(s.users, Email) ==> NamesUnique(RegisterOutcome(s, modelValid, req, hash).state.users, Email)
  {
    if RegisterOutcome(s, modelValid, req, hash).response.OkMessage? {
      var role := UserRole(s.roles).value;
      var u := NewUser(s.nextId, req, hash, role.id);
      assert RegisterOutcome(s, modelValid, req, hash).state == s.(users := s.users + [u], nextId := s.nextId + 1);
      InsertedUserValid(s, u);
      if NamesUnique(s.users, Username) {
        AppendKeepsNamesUnique(s.users, Username, u);
      }
      if NamesUnique(s.users, Email) {
        AppendKeepsNamesUnique(s.users, Email, u);
      }
    }
  }

  /** Appending a user under the next id keeps the store valid. */
  lemma InsertedUserValid(s: Snapshot, u: User)
    requires ValidState(s) && u.id == s.nextId
    ensures ValidState(s.(users := s.users + [u], nextId := s.nextId + 1))
  {
    AppendWellKeyed(s.users, UserId, s.nextId, u);
    WellKeyedRaise(s.foods, FoodId, s.nextId);
    WellKeyedRaise(s.categories, CategoryId, s.nextId);
    WellKeyedRaise(s.allergens, AllergenId, s.nextId);
    WellKeyedRaise(s.roles, RoleId, s.nextId);
    WellKeyedRaise(s.orders, OrderId, s.nextId);
    WellKeyedRaise(s.logs, LogId, s.nextId);
  }

  /** Registering the same request twice in a row fails the second time. */
  lemma RegisterTwiceRefused(s: Snapshot, modelValid: bool, req: RegisterUser, hash: string -> string)
    requires RegisterOutcome(s, modelValid, req, hash).response.OkMessage?
    ensures RegisterOutcome(RegisterOutcome(s, modelValid, req, hash).state, modelValid, req, hash).response == BadRequest(UsernameTakenMessage)
  {
    var t := RegisterOutcome(s, modelValid, req, hash).state;
    assert Username(t.users[|s.users|]) == req.username;
    DbEqualsFacts(req.username, req.username, req.username);
  }

  /** `Register(registerUser)`. */
  method Register(db: Database, modelValid: bool, req: RegisterUser, hash: string -> string) returns (r: Response<string>)
    requires db.Valid()
    modifies db
    ensures db.Valid()
    ensures r == RegisterOutcome(old(db.State()), modelValid, req, hash).response
    ensures db.State() == RegisterOutcome(old(db.State()), modelValid, req, hash).state
  {
    if !modelValid {
      return InvalidModel;
    }
    if NameTaken(db.users, Username, req.username) {
      return BadRequest(UsernameTakenMessage);
    }
    if NameTaken(db.users, Email, req.email) {
      return BadRequest(EmailTakenMessage);
    }
    var role := UserRole(db.roles);
    if role.None? {
      return ServerError(NoMatchMessage);
    }
    ghost var before := db.State();
    var user := NewUser(db.nextId, req, hash, role.value.id);
    assert RegisterOutcome(before, modelValid, req, hash) == Outcome(OkMessage(RegisteredMessage), before.(users := before.users + [user], nextId := before.nextId + 1));
    InsertedUserValid(before, user);
    var id := db.NewId();
    db.users := db.users + [user];
    r := OkMessage(RegisteredMessage);
  }
}
