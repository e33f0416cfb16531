/** The middleware's user endpoints (GrillPizzeriaOrderMiddleware,
    Controllers/UserController.cs): the admin listing with its clamped page
    size, and the caller's own profile, read and updated through the id in
    the caller's name-identifier claim. */
module UserController {
  import opened Wrappers
  import opened Text
  import opened Int32
  import opened Entities
  import opened Tables
  import opened Ordering
  import opened Collation
  import opened Catalog
  import opened Store
  import opened AppLogger
  import opened MappingProfile
  import opened Responses

  datatype Outcome = Outcome(response: Response<UserReadDto>, state: Snapshot)

  const DefaultTake := 50
  const MaxTake := 200
  const InvalidTokenMessage := "Invalid token."
  const EmailInUseMessage := "Email is already in use."

  function Email(u: User): string { u.email }

  // ---- GetAll ----------------------------------------------------------------

  /** `if (take is < 1 or > 200) take = 50`. */
  function ClampTake(take: int): (r: int)
    ensures 1 <= r <= MaxTake
    ensures 1 <= take <= MaxTake ==> r == take
    ensures take < 1 || take > MaxTake ==> r == DefaultTake
  {
    if take < 1 || take > MaxTake then DefaultTake else take
  }

  /** `OrderBy(u => u.Id)`. */
  function ById(u: User): SortKey {
    SortKey("", u.id)
  }

  function ReadAll(items: seq<User>, roles: seq<Role>): (r: seq<UserReadDto>)
    ensures |r| == |items|
    ensures forall k :: 0 <= k < |r| ==> r[k] == UserRead(items[k], roles)
  {
    seq(|items|, k requires 0 <= k < |items| => UserRead(items[k], roles))
  }

  datatype ListOutcome = ListOutcome(response: Response<seq<UserReadDto>>, state: Snapshot)

  const SqlErrorPrefix := "SQL error occurred: "
  const GetAllSqlErrorPrefix := "User.GetAll SQL error: "

  /** `GetAll(skip, take)`. The query runs on SQL Server, which refuses a
      negative OFFSET: the `SqlException` handler then logs the error and
      answers 500. Otherwise the page is returned and nothing is written. */
  function GetAllOutcome(s: Snapshot, skip: int, take: int, now: int): ListOutcome {
    if skip < 0 then
      ListOutcome(ServerError(SqlErrorPrefix + NegativeOffsetError), Logged(s, ErrorLevel, GetAllSqlErrorPrefix + NegativeOffsetError, now))
    else ListOutcome(Ok(GetAll(s, skip, take)), s)
  }

  /** A negative `skip` fails with one error log row; any other `skip` is a
      read that returns `GetAll` and changes nothing. */
  lemma GetAllOutcomeCases(s: Snapshot, skip: int, take: int, now: int)
    ensures skip < 0 <==> GetAllOutcome(s, skip, take, now).response.ServerError?
    ensures skip < 0 ==> (GetAllOutcome(s, skip, take, now) ==
        ListOutcome(ServerError(SqlErrorPrefix + NegativeOffsetError), Logged(s, ErrorLevel, GetAllSqlErrorPrefix + NegativeOffsetError, now)))
    ensures skip >= 0 ==> GetAllOutcome(s, skip, take, now) == ListOutcome(Ok(GetAll(s, skip, take)), s)
  {
  }

  /** The page of a non-negative `skip`: the users in id order, after `skip`
      of them, at most the clamped `take`. */
  function GetAll(s: Snapshot, skip: int, take: int): (r: seq<UserReadDto>)
    requires skip >= 0
    ensures |r| <= ClampTake(take)
    ensures forall k :: 0 <= k < |r| ==>
      skip + k < |s.users| && r[k] == UserRead(SortByKey(s.users, ById)[skip + k], s.roles)
  {
    ReadAll(Slice(SortByKey(s.users, ById), skip, ClampTake(take)), s.roles)
  }

  /** The listing is in strictly increasing id order. */
  lemma GetAllIncreasing(s: Snapshot, skip: int, take: int)
    requires skip >= 0
    requires ValidState(s)
    ensures var r := GetAll(s, skip, take);
      forall i, j :: 0 <= i < j < |r| ==> r[i].id < r[j].id
  {
    assert KeysUnique(s.users, UserId);
    assert GetAll(s, skip, take) == ReadAll(Slice(SortByKey(s.users, ById), skip, ClampTake(take)), s.roles);
    PageIdsIncrease(s.users, s.roles, skip, ClampTake(take));
  }

  /** A page of the users sorted by id, with unique ids, is in strictly
      increasing id order. */
  lemma PageIdsIncrease(users: seq<User>, roles: seq<Role>, o: nat, n: int)
    requires KeysUnique(users, UserId)
    ensures forall i, j :: 0 <= i < j < |ReadAll(Slice(SortByKey(users, ById), o, n), roles)| ==>
      ReadAll(Slice(SortByKey(users, ById), o, n), roles)[i].id < ReadAll(Slice(SortByKey(users, ById), o, n), roles)[j].id
  {
    var sorted := SortByKey(users, ById);
    SortedIdsStrict(users);
    var page := Slice(sorted, o, n);
    WindowIdsIncrease(sorted, o, page);
    var r := ReadAll(page, roles);
    assert forall k :: 0 <= k < |r| ==> r[k].id == page[k].id;
  }

  /** The users sorted by id, with unique ids, have strictly increasing ids. */
  lemma SortedIdsStrict(users: seq<User>)
    requires KeysUnique(users, UserId)
    ensures forall a, b :: 0 <= a < b < |SortByKey(users, ById)| ==> SortByKey(users, ById)[a].id < SortByKey(users, ById)[b].id
  {
    forall a, b | 0 <= a < b < |SortByKey(users, ById)| ensures SortByKey(users, ById)[a].id < SortByKey(users, ById)[b].id {
      SortedIdsIncrease(users, a, b);
    }
  }

  /** A window of a sequence with strictly increasing ids has strictly increasing ids. */
  lemma WindowIdsIncrease(rows: seq<User>, o: nat, window: seq<User>)
    requires forall k :: 0 <= k < |window| ==> o + k < |rows| && window[k] == rows[o + k]
    requires forall a, b :: 0 <= a < b < |rows| ==> rows[a].id < rows[b].id
    ensures forall i, j :: 0 <= i < j < |window| ==> window[i].id < window[j].id
  {
    forall i, j | 0 <= i < j < |window| ensures window[i].id < window[j].id {
      var x, y := window[i], window[j];
      assert o + i < |rows| && x == rows[o + i];
      assert o + j < |rows| && y == rows[o + j];
    }
  }

  /** Sorting by id with unique ids puts them in strictly increasing order. */
  lemma SortedIdsIncrease(users: seq<User>, i: int, j: int)
    requires KeysUnique(users, UserId)
    requires 0 <= i < j < |users|
    ensures SortByKey(users, ById)[i].id < SortByKey(users, ById)[j].id
  {
    var sorted := SortByKey(users, ById);
    SortByKeySorted(users, ById);
    assert KeyLe(ById(sorted[i]), ById(sorted[j]));
    SortedIdsDistinct(users, i, j);
  }

  /** Every entry is the read of a stored user. */
  lemma GetAllStored(s: Snapshot, skip: int, take: int)
    requires skip >= 0
    ensures forall k :: 0 <= k < |GetAll(s, skip, take)| ==> GetAll(s, skip, take)[k] in ReadAll(s.users, s.roles)
  {
    var r := ReadAll(Slice(SortByKey(s.users, ById), skip, ClampTake(take)), s.roles);
    assert GetAll(s, skip, take) == r;
    PageStored(s.users, s.roles, skip, ClampTake(take));
    forall k | 0 <= k < |GetAll(s, skip, take)| ensures GetAll(s, skip, take)[k] in ReadAll(s.users, s.roles) {
      assert r[k] in ReadAll(s.users, s.roles);
    }
  }

  /** Every entry of a page of the sorted users is the read of a stored user. */
  lemma PageStored(users: seq<User>, roles: seq<Role>, o: nat, n: int)
    ensures forall k :: 0 <= k < |ReadAll(Slice(SortByKey(users, ById), o, n), roles)| ==>
      ReadAll(Slice(SortByKey(users, ById), o, n), roles)[k] in ReadAll(users, roles)
  {
    var sorted := SortByKey(users, ById);
    var page := Slice(sorted, o, n);
    var r := ReadAll(page, roles);
    var all := ReadAll(users, roles);
    forall k | 0 <= k < |r| ensures r[k] in all {
      var x := page[k];
      assert o + k < |sorted| && x == sorted[o + k];
      assert x in multiset(users) by {
        assert x in multiset(sorted);
      }
      var p :| 0 <= p < |users| && users[p] == x;
      assert all[p] == r[k];
    }
  }

  /** The page is as long as it may be: the clamped `take`, or what is left
      after skipping. */
  lemma GetAllLength(s: Snapshot, skip: int, take: int)
    requires skip >= 0
    ensures |GetAll(s, skip, take)| == if skip >= |s.users| then 0
      else if |s.users| - skip < ClampTake(take) then |s.users| - skip
      else ClampTake(take)
  {
  }

  /** Two positions of the sorted users hold different ids. */
  lemma SortedIdsDistinct(users: seq<User>, i: int, j: int)
    requires KeysUnique(users, UserId)
    requires 0 <= i < j < |users|
    ensures SortByKey(users, ById)[i].id != SortByKey(users, ById)[j].id
  {
    var sorted := SortByKey(users, ById);
    forall i2, j2 | 0 <= i2 < j2 < |users| ensures users[i2] != users[j2] {
      assert UserId(users[i2]) != UserId(users[j2]);
    }
    SortKeepsDistinct(users, ById);
    var a := sorted[i];
    var b := sorted[j];
    assert a in multiset(users) && b in multiset(users);
    var p :| 0 <= p < |users| && users[p] == a;
    var q :| 0 <= q < |users| && users[q] == b;
    assert a != b;
    assert p != q;
    if p < q { assert UserId(users[p]) != UserId(users[q]); }
    else { assert UserId(users[q]) != UserId(users[p]); }
  }

  // ---- the id claim ----------------------------------------------------------

  /** The caller's id: the name-identifier claim, which must be present,
      non-empty and a 32-bit integer. */
  function CallerId(claim: Option<string>): (r: Option<int>)
    ensures r.Some? <==> claim.Some? && |claim.value| > 0 && ParseInt32(claim.value).Some?
    ensures r.Some? ==> r == ParseInt32(claim.value)
  {
    if claim.None? || |claim.value| == 0 then None else ParseInt32(claim.value)
  }

  /** A claim holding a user's id names that user; a missing claim or one
      that is not a number names nobody. */
  lemma CallerIdRoundTrip(id: int)
    requires Int32Min <= id <= Int32Max
    ensures CallerId(Some(IntToString(id))) == Some(id)
    ensures CallerId(None) == None && CallerId(Some("")) == None && CallerId(Some("abc")) == None
  {
    ParseIntToString(id);
    ParseRejectsNonNumbers();
  }

  // ---- GetMe -----------------------------------------------------------------

  /** `GetMe()`: 401 for a bad claim, 404 for an unknown id, else the caller's read. */
  function GetMe(s: Snapshot, claim: Option<string>): (r: Response<UserReadDto>)
    ensures r == Unauthorized(InvalidTokenMessage) <==> CallerId(claim).None?
    ensures r == NotFound <==> CallerId(claim).Some? && Find(s.users, UserId, CallerId(claim).value).None?
    ensures r.Ok? ==> CallerId(claim).Some? && Find(s.users, UserId, CallerId(claim).value).Some?
    ensures r.Ok? ==> r.body == UserRead(Find(s.users, UserId, CallerId(claim).value).value, s.roles)
    ensures r.Ok? ==> r.body.id == CallerId(claim).value
    ensures r.Ok? || r.NotFound? || r.Unauthorized?
  {
    match CallerId(claim)
    case None => Unauthorized(InvalidTokenMessage)
    case Some(userId) =>
      match Find(s.users, UserId, userId)
      case None => NotFound
      case Some(user) => Ok(UserRead(user, s.roles))
  }

  // ---- UpdateMe --------------------------------------------------------------

  /** `AnyAsync(u => u.Email == dto.email && u.Id != userId)`. */
  predicate EmailInUse(users: seq<User>, email: string, userId: int) {
    exists i | 0 <= i < |users| :: DbEquals(users[i].email, email) && users[i].id != userId
  }

  function UpdateMeOutcome(s: Snapshot, modelValid: bool, claim: Option<string>, dto: UserUpdateDto): Outcome {
    if !modelValid then Outcome(InvalidModel, s)
    else match CallerId(claim)
      case None => Outcome(Unauthorized(InvalidTokenMessage), s)
      case Some(userId) =>
        match Find(s.users, UserId, userId)
        case None => Outcome(NotFound, s)
        case Some(user) =>
          if EmailInUse(s.users, dto.email, userId) then Outcome(BadRequest(EmailInUseMessage), s)
          else
            var updated := ApplyUserUpdate(dto, user);
            Outcome(Ok(UserRead(updated, s.roles)), s.(users := ReplaceKey(s.users, UserId, userId, updated)))
  }

  /** `UpdateMe` succeeds exactly for a valid model, a valid claim naming a
      stored user, and an email no other user holds; every refusal leaves
      the database as it was and writes no log. */
  lemma UpdateMeChecks(s: Snapshot, modelValid: bool, claim: Option<string>, dto: UserUpdateDto)
    ensures UpdateMeOutcome(s, modelValid, claim, dto).response.Ok? <==>
      modelValid && CallerId(claim).Some? && Find(s.users, UserId, CallerId(claim).value).Some? &&
      !EmailInUse(s.users, dto.email, CallerId(claim).value)
    ensures modelValid && CallerId(claim).None? ==>
      UpdateMeOutcome(s, modelValid, claim, dto).response == Unauthorized(InvalidTokenMessage)
    ensures modelValid && CallerId(claim).Some? && Find(s.users, UserId, CallerId(claim).value).None? ==>
      UpdateMeOutcome(s, modelValid, claim, dto).response == NotFound
    ensures !UpdateMeOutcome(s, modelValid, claim, dto).response.Ok? ==> UpdateMeOutcome(s, modelValid, claim, dto).state == s
  {
  }

  /** Keeping one's own email is allowed when emails are unique; another
      user's email, in any letter case, is refused. */
  lemma OwnEmailAllowed(users: seq<User>, i: int, email: string)
    requires KeysUnique(users, UserId) && NamesUnique(users, Email) && 0 <= i < |users|
    ensures !EmailInUse(users, users[i].email, users[i].id)
    ensures forall j :: 0 <= j < |users| && users[j].id != users[i].id && DbEquals(users[j].email, email) ==>
      EmailInUse(users, email, users[i].id)
  {
    forall j | 0 <= j < |users| && users[j].id != users[i].id
      ensures !DbEquals(users[j].email, users[i].email)
    {
      if i < j {
        assert !DbEquals(Email(users[i]), Email(users[j]));
        DbEqualsFacts(users[j].email, users[i].email, users[i].email);
      } else {
        assert !DbEquals(Email(users[j]), Email(users[i]));
      }
    }
  }

  /** A successful `UpdateMe` rewrites the caller's record only, and only
      its email, names and phone; the response is the updated read. */
  lemma UpdateMeWrites(s: Snapshot, modelValid: bool, claim: Option<string>, dto: UserUpdateDto)
    requires KeysUnique(s.users, UserId)
    requires UpdateMeOutcome(s, modelValid, claim, dto).response.Ok?
    ensures var o := UpdateMeOutcome(s, modelValid, claim, dto);
      var userId := CallerId(claim).value;
      |o.state.users| == |s.users| &&
      (forall k :: 0 <= k < |s.users| ==>
        o.state.users[k] == if s.users[k].id == userId then ApplyUserUpdate(dto, s.users[k]) else s.users[k]) &&
      o.state.(users := s.users) == s &&
      o.response.body.id == userId && o.response.body.email == dto.email
  {
    var userId := CallerId(claim).value;
    var user := Find(s.users, UserId, userId).value;
    forall k | 0 <= k < |s.users| && s.users[k].id == userId
      ensures ApplyUserUpdate(dto, user) == ApplyUserUpdate(dto, s.users[k])
    {
      FindUnique(s.users, UserId, k);
    }
  }

  /** `UpdateMe` keeps keys and email uniqueness. */
  lemma UpdateMeKeepsInvariants(s: Snapshot, modelValid: bool, claim: Option<string>, dto: UserUpdateDto)
    requires ValidState(s)
    ensures ValidState(UpdateMeOutcome(s, modelValid, claim, dto).state)
    ensures NamesUnique(s.users, Email) ==> NamesUnique(UpdateMeOutcome(s, modelValid, claim, dto).state.users, Email)
  {
    if UpdateMeOutcome(s, modelValid, claim, dto).response.Ok? {
      var userId := CallerId(claim).value;
      var user := Find(s.users, UserId, userId).value;
      var updated := ApplyUserUpdate(dto, user);
      assert UpdateMeOutcome(s, modelValid, claim, dto).state == s.(users := ReplaceKey(s.users, UserId, userId, updated));
      assert !EmailInUse(s.users, dto.email, userId);
      ReplacedUserValid(s, userId, updated);
      if NamesUnique(s.users, Email) {
        EmailsStayUnique(s.users, userId, user, dto);
      }
    }
  }

  /** Replacing a stored user by one with the same id keeps the store valid. */
  lemma ReplacedUserValid(s: Snapshot, userId: int, updated: User)
    requires ValidState(s) && Find(s.users, UserId, userId).Some? && updated.id == userId
    ensures ValidState(s.(users := ReplaceKey(s.users, UserId, userId, updated)))
  {
    ReplaceWellKeyed(s.users, UserId, s.nextId, userId, updated);
  }

  /** Taking an email no other user holds keeps emails unique. */
  lemma EmailsStayUnique(users: seq<User>, userId: int, user: User, dto: UserUpdateDto)
    requires KeysUnique(users, UserId) && NamesUnique(users, Email)
    requires Find(users, UserId, userId) == Some(user)
    requires !EmailInUse(users, dto.email, userId)
    ensures NamesUnique(ReplaceKey(users, UserId, userId, ApplyUserUpdate(dto, user)), Email)
  {
    if NameTaken(users, Email, dto.email) {
      var i :| 0 <= i < |users| && DbEquals(Email(users[i]), dto.email);
      assert users[i].id == userId;
      FindUnique(users, UserId, i);
      DbEqualsFacts(user.email, dto.email, dto.email);
    }
    RenameKeepsNamesUnique(users, UserId, Email, userId, ApplyUserUpdate(dto, user));
  }

  method UpdateMe(db: Database, modelValid: bool, claim: Option<string>, dto: UserUpdateDto) returns (r: Response<UserReadDto>)
    requires db.Valid()
    modifies db
    ensures db.Valid()
    ensures r == UpdateMeOutcome(old(db.State()), modelValid, claim, dto).response
    ensures db.State() == UpdateMeOutcome(old(db.State()), modelValid, claim, dto).state
  {
    if !modelValid {
      return InvalidModel;
    }
    var userId := CallerId(claim);
    if userId.None? {
      return Unauthorized(InvalidTokenMessage);
    }
    var user := Find(db.users, UserId, userId.value);
    if user.None? {
      return NotFound;
    }
    var emailInUse := EmailInUse(db.users, dto.email, userId.value);
    if emailInUse {
      return BadRequest(EmailInUseMessage);
    }
    var updated := ApplyUserUpdate(dto, user.value);
    ReplaceWellKeyed(db.users, UserId, db.nextId, userId.value, updated);
    db.users := ReplaceKey(db.users, UserId, userId.value, updated);
    r := Ok(UserRead(updated, db.roles));
  }
}
