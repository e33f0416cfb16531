/** The middleware's allergen endpoints (Controllers/AllergenController.cs),
    in the same style as the food-category endpoints: each action is a
    function from the state before to the response and the state after,
    and a method performing the same steps on the database. An invalid body
    is answered 400 by `[ApiController]` before an action runs, so it writes
    no log row; a name conflict on `Update` logs "Allergen.Create failed",
    the text the action writes. */
module AllergenController {
  import opened Text
  import opened Entities
  import opened Tables
  import opened Collation
  import opened Catalog
  import opened Store
  import opened AppLogger
  import opened Ordering
  import opened Responses

  datatype Outcome = Outcome(response: Response<Allergen>, state: Snapshot)

  function AllergenName(a: Allergen): string { a.name }

  const DuplicateMessage := "Allergen with the same name already exists."

  // ---- Create --------------------------------------------------------------

  function CreateOutcome(s: Snapshot, modelValid: bool, name: string, now: int): Outcome {
    if !modelValid then Outcome(InvalidModel, s)
    else if NameTaken(s.allergens, AllergenName, name) then
      Outcome(BadRequest(DuplicateMessage), Logged(s, ErrorLevel, "Allergen.Create failed: Conflict with " + name, now))
    else
      var c := Allergen(s.nextId, name);
      var added := s.(allergens := s.allergens + [c], nextId := s.nextId + 1);
      Outcome(Created(c), Logged(added, InformationLevel, "Allergen.Create success: id=" + IntToString(c.id), now))
  }

  /** `Create` succeeds exactly for a valid model whose name is free; then
      it adds exactly one allergen, with that name and a fresh id. Every
      checked request appends one log row, while an invalid body is answered
      before the action runs and changes nothing; nothing else changes; keys
      and name uniqueness are kept. */
  lemma CreateEffect(s: Snapshot, modelValid: bool, name: string, now: int)
    requires ValidState(s)
    ensures var o := CreateOutcome(s, modelValid, name, now);
      ValidState(o.state) &&
      (NamesUnique(s.allergens, AllergenName) ==> NamesUnique(o.state.allergens, AllergenName)) &&
      (o.response.Created? <==> modelValid && !NameTaken(s.allergens, AllergenName, name)) &&
      (o.response.Created? ==> o.response.body == Allergen(s.nextId, name) &&
                               o.state.allergens == s.allergens + [Allergen(s.nextId, name)]) &&
      (!o.response.Created? ==> o.state.allergens == s.allergens) &&
      (!modelValid ==> o == Outcome(InvalidModel, s)) &&
      (modelValid ==> |o.state.logs| == |s.logs| + 1 && o.state.logs[..|s.logs|] == s.logs) &&
      o.state.(allergens := s.allergens, logs := s.logs, nextId := s.nextId) == s
  {
    var o := CreateOutcome(s, modelValid, name, now);
    if modelValid && !NameTaken(s.allergens, AllergenName, name) {
      var c := Allergen(s.nextId, name);
      AppendWellKeyed(s.allergens, AllergenId, s.nextId, c);
      var added := s.(allergens := s.allergens + [c], nextId := s.nextId + 1);
      WellKeyedRaise(s.foods, FoodId, s.nextId);
      WellKeyedRaise(s.allergens, AllergenId, s.nextId);
      WellKeyedRaise(s.roles, RoleId, s.nextId);
      WellKeyedRaise(s.users, UserId, s.nextId);
      WellKeyedRaise(s.orders, OrderId, s.nextId);
      WellKeyedRaise(s.logs, LogId, s.nextId);
      LoggedValid(added, InformationLevel, "Allergen.Create success: id=" + IntToString(c.id), now);
      if NamesUnique(s.allergens, AllergenName) {
        AppendKeepsNamesUnique(s.allergens, AllergenName, c);
      }
    } else if modelValid {
      LoggedValid(s, ErrorLevel, "Allergen.Create failed: Conflict with " + name, now);
    }
  }

  method Create(db: Database, modelValid: bool, name: string, now: int) returns (r: Response<Allergen>)
    requires db.Valid()
    modifies db
    ensures db.Valid()
    ensures r == CreateOutcome(old(db.State()), modelValid, name, now).response
    ensures db.State() == CreateOutcome(old(db.State()), modelValid, name, now).state
  {
    if !modelValid {
      return InvalidModel;
    }
    var taken := NameTaken(db.allergens, AllergenName, name);
    if taken {
      Error(db, "Allergen.Create failed: Conflict with " + name, now);
      return BadRequest(DuplicateMessage);
    }
    AppendWellKeyed(db.allergens, AllergenId, db.nextId, Allergen(db.nextId, name));
    var id := db.NewId();
    var entity := Allergen(id, name);
    db.allergens := db.allergens + [entity];
    Information(db, "Allergen.Create success: id=" + IntToString(id), now);
    r := Created(entity);
  }

  // ---- Reads ---------------------------------------------------------------

  function ByName(a: Allergen): SortKey {
    SortKey(a.name, 0)
  }

  /** `GetAll()`: every allergen, ordered by name. */
  function GetAll(s: Snapshot): (r: seq<Allergen>)
    ensures multiset(r) == multiset(s.allergens)
    ensures forall i, j :: 0 <= i < j < |r| ==> LexLe(r[i].name, r[j].name)
  {
    var sorted := SortByKey(s.allergens, ByName);
    SortByKeySorted(s.allergens, ByName);
    assert forall i, j :: 0 <= i < j < |sorted| ==> KeyLe(ByName(sorted[i]), ByName(sorted[j]));
    ByNameOrdersNames(sorted);
    sorted
  }

  lemma ByNameOrdersNames(sorted: seq<Allergen>)
    requires forall i, j :: 0 <= i < j < |sorted| ==> KeyLe(ByName(sorted[i]), ByName(sorted[j]))
    ensures forall i, j :: 0 <= i < j < |sorted| ==> LexLe(sorted[i].name, sorted[j].name)
  {
    forall i, j | 0 <= i < j < |sorted| ensures LexLe(sorted[i].name, sorted[j].name) {
      assert KeyLe(ByName(sorted[i]), ByName(sorted[j]));
      if sorted[i].name == sorted[j].name {
        LexLeTotal(sorted[i].name, sorted[i].name);
      }
    }
  }


  /** `GetById(id)`: the allergen, or 404. */
  function GetById(s: Snapshot, id: int): (r: Response<Allergen>)
    ensures r == NotFound <==> Find(s.allergens, AllergenId, id).None?
    ensures r.Ok? ==> r.body in s.allergens && r.body.id == id
    ensures r.NotFound? || r.Ok?
  {
    match Find(s.allergens, AllergenId, id)
    case None => NotFound
    case Some(c) => Ok(c)
  }

  // ---- Update --------------------------------------------------------------

  function UpdateOutcome(s: Snapshot, modelValid: bool, id: int, name: string, now: int): Outcome {
    if !modelValid then Outcome(InvalidModel, s)
    else match Find(s.allergens, AllergenId, id)
      case None => Outcome(NotFound, s)
      case Some(entity) =>
        if !EqualsIgnoreCase(entity.name, name) && NameTaken(s.allergens, AllergenName, name) then
          Outcome(BadRequest(DuplicateMessage), Logged(s, ErrorLevel, "Allergen.Create failed: Conflict with " + name, now))
        else
          var renamed := s.(allergens := ReplaceKey(s.allergens, AllergenId, id, Allergen(id, name)));
          Outcome(OkMessage("Successful update of " + name + " in " + IntToString(id)),
            Logged(renamed, InformationLevel, "Allergen.Update success: id=" + IntToString(id), now))
  }

  /** `Update` of an unknown id is 404 with no change. A case-only rename of an
      existing allergen skips the name check and succeeds. A success renames
      the target allergen only; a rejection keeps the table. Keys and name
      uniqueness are kept. */
  lemma UpdateEffect(s: Snapshot, modelValid: bool, id: int, name: string, now: int)
    requires ValidState(s)
    ensures var o := UpdateOutcome(s, modelValid, id, name, now);
      ValidState(o.state) &&
      (NamesUnique(s.allergens, AllergenName) ==> NamesUnique(o.state.allergens, AllergenName)) &&
      (!modelValid ==> o == Outcome(InvalidModel, s)) &&
      (modelValid && Find(s.allergens, AllergenId, id).None? ==> o == Outcome(NotFound, s)) &&
      (modelValid && Find(s.allergens, AllergenId, id).Some? && EqualsIgnoreCase(Find(s.allergens, AllergenId, id).value.name, name) ==>
        o.response.OkMessage?) &&
      (o.response.OkMessage? ==>
        |o.state.allergens| == |s.allergens| &&
        forall k :: 0 <= k < |s.allergens| ==>
          o.state.allergens[k] == if s.allergens[k].id == id then Allergen(id, name) else s.allergens[k]) &&
      (!o.response.OkMessage? ==> o.state.allergens == s.allergens) &&
      o.state.(allergens := s.allergens, logs := s.logs, nextId := s.nextId) == s
  {
    var o := UpdateOutcome(s, modelValid, id, name, now);
    if modelValid && Find(s.allergens, AllergenId, id).Some? {
      var entity := Find(s.allergens, AllergenId, id).value;
      if !EqualsIgnoreCase(entity.name, name) && NameTaken(s.allergens, AllergenName, name) {
        LoggedValid(s, ErrorLevel, "Allergen.Create failed: Conflict with " + name, now);
      } else {
        ReplaceWellKeyed(s.allergens, AllergenId, s.nextId, id, Allergen(id, name));
        var renamed := s.(allergens := ReplaceKey(s.allergens, AllergenId, id, Allergen(id, name)));
        LoggedValid(renamed, InformationLevel, "Allergen.Update success: id=" + IntToString(id), now);
        if NamesUnique(s.allergens, AllergenName) {
          DbEqualsFacts(entity.name, name, name);
          RenameKeepsNamesUnique(s.allergens, AllergenId, AllergenName, id, Allergen(id, name));
        }
      }
    }
  }

  method Update(db: Database, modelValid: bool, id: int, name: string, now: int) returns (r: Response<Allergen>)
    requires db.Valid()
    modifies db
    ensures db.Valid()
    ensures r == UpdateOutcome(old(db.State()), modelValid, id, name, now).response
    ensures db.State() == UpdateOutcome(old(db.State()), modelValid, id, name, now).state
  {
    if !modelValid {
      return InvalidModel;
    }
    var entity := Find(db.allergens, AllergenId, id);
    if entity.None? {
      return NotFound;
    }
    if !EqualsIgnoreCase(entity.value.name, name) {
      var nameTaken := NameTaken(db.allergens, AllergenName, name);
      if nameTaken {
        Error(db, "Allergen.Create failed: Conflict with " + name, now);
        return BadRequest(DuplicateMessage);
      }
    }
    ReplaceWellKeyed(db.allergens, AllergenId, db.nextId, id, Allergen(id, name));
    db.allergens := ReplaceKey(db.allergens, AllergenId, id, Allergen(id, name));
    Information(db, "Allergen.Update success: id=" + IntToString(id), now);
    r := OkMessage("Successful update of " + name + " in " + IntToString(id));
  }

  // ---- Delete --------------------------------------------------------------

  function DeleteOutcome(s: Snapshot, id: int, now: int): Outcome {
    match Find(s.allergens, AllergenId, id)
    case None => Outcome(NotFound, s)
    case Some(entity) =>
      var removed := s.(allergens := RemoveKey(s.allergens, AllergenId, id));
      Outcome(OkMessage("Successfully deletion of " + entity.name),
        Logged(removed, InformationLevel, "Allergen.Delete success: id=" + IntToString(id), now))
  }

  /** `Delete` of an unknown id is 404 with no change; otherwise exactly
      that allergen is removed and one log row is appended. */
  lemma DeleteEffect(s: Snapshot, id: int, now: int)
    requires ValidState(s)
    ensures ValidState(DeleteOutcome(s, id, now).state)
    ensures NamesUnique(s.allergens, AllergenName) ==> NamesUnique(DeleteOutcome(s, id, now).state.allergens, AllergenName)
    ensures Find(s.allergens, AllergenId, id).None? ==> DeleteOutcome(s, id, now) == Outcome(NotFound, s)
    ensures Find(s.allergens, AllergenId, id).Some? ==> DeleteOutcome(s, id, now).response.OkMessage?
    ensures Find(s.allergens, AllergenId, id).Some? ==> |DeleteOutcome(s, id, now).state.allergens| == |s.allergens| - 1
    ensures forall x :: x in DeleteOutcome(s, id, now).state.allergens <==> x in s.allergens && (Find(s.allergens, AllergenId, id).Some? ==> x.id != id)
    ensures DeleteOutcome(s, id, now).state.(allergens := s.allergens, logs := s.logs, nextId := s.nextId) == s
  {
    if Find(s.allergens, AllergenId, id).Some? {
      RemoveKeyWellKeyed(s.allergens, AllergenId, s.nextId, id);
      var removed := s.(allergens := RemoveKey(s.allergens, AllergenId, id));
      LoggedValid(removed, InformationLevel, "Allergen.Delete success: id=" + IntToString(id), now);
      if NamesUnique(s.allergens, AllergenName) {
        RemoveKeepsNamesUnique(s.allergens, AllergenId, AllergenName, id);
      }
    }
  }

  method Delete(db: Database, id: int, now: int) returns (r: Response<Allergen>)
    requires db.Valid()
    modifies db
    ensures db.Valid()
    ensures r == DeleteOutcome(old(db.State()), id, now).response
    ensures db.State() == DeleteOutcome(old(db.State()), id, now).state
  {
    var entity := Find(db.allergens, AllergenId, id);
    if entity.None? {
      return NotFound;
    }
    RemoveKeyWellKeyed(db.allergens, AllergenId, db.nextId, id);
    db.allergens := RemoveKey(db.allergens, AllergenId, id);
    Information(db, "Allergen.Delete success: id=" + IntToString(id), now);
    r := OkMessage("Successfully deletion of " + entity.value.name);
  }
}
