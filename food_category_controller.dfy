/** The middleware's food-category endpoints
    (Controllers/FoodCategoryController.cs). Each action is specified by a
    function from the database state before the call to its response and
    the state after; the method performs the same steps on the database. */
module FoodCategoryController {
  import opened Text
  import opened Entities
  import opened Tables
  import opened Collation
  import opened Catalog
  import opened Store
  import opened AppLogger
  import opened Responses

  datatype Outcome = Outcome(response: Response<FoodCategory>, state: Snapshot)

  function CategoryName(c: FoodCategory): string { c.name }

  const DuplicateMessage := "Category with the same name already exists."

  // ---- Create --------------------------------------------------------------

  function CreateOutcome(s: Snapshot, modelValid: bool, name: string, now: int): Outcome {
    if !modelValid then Outcome(InvalidModel, s)
    else if NameTaken(s.categories, CategoryName, name) then
      Outcome(BadRequest(DuplicateMessage), Logged(s, ErrorLevel, "FoodCategory.Create failed: Conflict with " + name, now))
    else
      var c := FoodCategory(s.nextId, name);
      var added := s.(categories := s.categories + [c], nextId := s.nextId + 1);
      Outcome(Created(c), Logged(added, InformationLevel, "FoodCategory.Create success: id=" + IntToString(c.id), now))
  }

  /** `Create` succeeds exactly for a valid model whose name is free; then
      it adds exactly one category, with that name and a fresh id. Every
      checked request appends one log row, while an invalid body is answered
      before the action runs and changes nothing; nothing else changes; keys
      and name uniqueness are kept. */
  lemma CreateEffect(s: Snapshot, modelValid: bool, name: string, now: int)
    requires ValidState(s)
    ensures var o := CreateOutcome(s, modelValid, name, now);
      ValidState(o.state) &&
      (NamesUnique(s.categories, CategoryName) ==> NamesUnique(o.state.categories, CategoryName)) &&
      (o.response.Created? <==> modelValid && !NameTaken(s.categories, CategoryName, name)) &&
      (o.response.Created? ==> o.response.body == FoodCategory(s.nextId, name) &&
                               o.state.categories == s.categories + [FoodCategory(s.nextId, name)]) &&
      (!o.response.Created? ==> o.state.categories == s.categories) &&
      (!modelValid ==> o == Outcome(InvalidModel, s)) &&
      (modelValid ==> |o.state.logs| == |s.logs| + 1 && o.state.logs[..|s.logs|] == s.logs) &&
      o.state.(categories := s.categories, logs := s.logs, nextId := s.nextId) == s
  {
    var o := CreateOutcome(s, modelValid, name, now);
    if modelValid && !NameTaken(s.categories, CategoryName, name) {
      var c := FoodCategory(s.nextId, name);
      AppendWellKeyed(s.categories, CategoryId, s.nextId, c);
      var added := s.(categories := s.categories + [c], nextId := s.nextId + 1);
      WellKeyedRaise(s.foods, FoodId, s.nextId);
      WellKeyedRaise(s.allergens, AllergenId, s.nextId);
      WellKeyedRaise(s.roles, RoleId, s.nextId);
      WellKeyedRaise(s.users, UserId, s.nextId);
      WellKeyedRaise(s.orders, OrderId, s.nextId);
      WellKeyedRaise(s.logs, LogId, s.nextId);
      LoggedValid(added, InformationLevel, "FoodCategory.Create success: id=" + IntToString(c.id), now);
      if NamesUnique(s.categories, CategoryName) {
        AppendKeepsNamesUnique(s.categories, CategoryName, c);
      }
    } else if modelValid {
      LoggedValid(s, ErrorLevel, "FoodCategory.Create failed: Conflict with " + name, now);
    }
  }

  method Create(db: Database, modelValid: bool, name: string, now: int) returns (r: Response<FoodCategory>)
    requires db.Valid()
    modifies db
    ensures db.Valid()
    ensures r == CreateOutcome(old(db.State()), modelValid, name, now).response
    ensures db.State() == CreateOutcome(old(db.State()), modelValid, name, now).state
  {
    if !modelValid {
      return InvalidModel;
    }
    var taken := NameTaken(db.categories, CategoryName, name);
    if taken {
      Error(db, "FoodCategory.Create failed: Conflict with " + name, now);
      return BadRequest(DuplicateMessage);
    }
    AppendWellKeyed(db.categories, CategoryId, db.nextId, FoodCategory(db.nextId, name));
    var id := db.NewId();
    var entity := FoodCategory(id, name);
    db.categories := db.categories + [entity];
    Information(db, "FoodCategory.Create success: id=" + IntToString(id), now);
    r := Created(entity);
  }

  // ---- Get -----------------------------------------------------------------

  /** `Get(id)`: the category, or 404. */
  function Get(s: Snapshot, id: int): (r: Response<FoodCategory>)
    ensures r == NotFound <==> Find(s.categories, CategoryId, id).None?
    ensures r.Ok? ==> r.body in s.categories && r.body.id == id
    ensures r.NotFound? || r.Ok?
  {
    match Find(s.categories, CategoryId, id)
    case None => NotFound
    case Some(c) => Ok(c)
  }

  // ---- Update --------------------------------------------------------------

  function UpdateOutcome(s: Snapshot, modelValid: bool, id: int, name: string, now: int): Outcome {
    if !modelValid then Outcome(InvalidModel, s)
    else match Find(s.categories, CategoryId, id)
      case None => Outcome(NotFound, s)
      case Some(entity) =>
        if !EqualsIgnoreCase(entity.name, name) && NameTaken(s.categories, CategoryName, name) then
          Outcome(BadRequest(DuplicateMessage), Logged(s, ErrorLevel, "FoodCategory.Update failed: Conflict with " + name, now))
        else
          var renamed := s.(categories := ReplaceKey(s.categories, CategoryId, id, FoodCategory(id, name)));
          Outcome(OkMessage("Successful update of " + name + " in " + IntToString(id)),
            Logged(renamed, InformationLevel, "FoodCategory.Update success: id=" + IntToString(id), now))
  }

  /** `Update` of an unknown id is 404 with no change. A case-only rename of an
      existing category skips the name check and succeeds. A success renames
      the target category only; a rejection keeps the table. Keys and name
      uniqueness are kept. */
  lemma UpdateEffect(s: Snapshot, modelValid: bool, id: int, name: string, now: int)
    requires ValidState(s)
    ensures var o := UpdateOutcome(s, modelValid, id, name, now);
      ValidState(o.state) &&
      (NamesUnique(s.categories, CategoryName) ==> NamesUnique(o.state.categories, CategoryName)) &&
      (!modelValid ==> o == Outcome(InvalidModel, s)) &&
      (modelValid && Find(s.categories, CategoryId, id).None? ==> o == Outcome(NotFound, s)) &&
      (modelValid && Find(s.categories, CategoryId, id).Some? && EqualsIgnoreCase(Find(s.categories, CategoryId, id).value.name, name) ==>
        o.response.OkMessage?) &&
      (o.response.OkMessage? ==>
        |o.state.categories| == |s.categories| &&
        forall k :: 0 <= k < |s.categories| ==>
          o.state.categories[k] == if s.categories[k].id == id then FoodCategory(id, name) else s.categories[k]) &&
      (!o.response.OkMessage? ==> o.state.categories == s.categories) &&
      o.state.(categories := s.categories, logs := s.logs, nextId := s.nextId) == s
  {
    var o := UpdateOutcome(s, modelValid, id, name, now);
    if modelValid && Find(s.categories, CategoryId, id).Some? {
      var entity := Find(s.categories, CategoryId, id).value;
      if !EqualsIgnoreCase(entity.name, name) && NameTaken(s.categories, CategoryName, name) {
        LoggedValid(s, ErrorLevel, "FoodCategory.Update failed: Conflict with " + name, now);
      } else {
        ReplaceWellKeyed(s.categories, CategoryId, s.nextId, id, FoodCategory(id, name));
        var renamed := s.(categories := ReplaceKey(s.categories, CategoryId, id, FoodCategory(id, name)));
        LoggedValid(renamed, InformationLevel, "FoodCategory.Update success: id=" + IntToString(id), now);
        if NamesUnique(s.categories, CategoryName) {
          DbEqualsFacts(entity.name, name, name);
          RenameKeepsNamesUnique(s.categories, CategoryId, CategoryName, id, FoodCategory(id, name));
        }
      }
    }
  }

  /** Renaming a category to its own name plus a trailing space is refused:
      the names differ in memory, but the database finds the category itself
      under the new name. */
  lemma PaddedRenameConflicts(s: Snapshot, id: int, now: int)
    requires Find(s.categories, CategoryId, id).Some?
    ensures var name := Find(s.categories, CategoryId, id).value.name + " ";
      UpdateOutcome(s, true, id, name, now).response == BadRequest(DuplicateMessage)
  {
    var entity := Find(s.categories, CategoryId, id).value;
    var name := entity.name + " ";
    var p :| 0 <= p < |s.categories| && s.categories[p] == entity;
    assert name[..|name| - 1] == entity.name;
    assert DbEquals(CategoryName(s.categories[p]), name);
  }

  method Update(db: Database, modelValid: bool, id: int, name: string, now: int) returns (r: Response<FoodCategory>)
    requires db.Valid()
    modifies db
    ensures db.Valid()
    ensures r == UpdateOutcome(old(db.State()), modelValid, id, name, now).response
    ensures db.State() == UpdateOutcome(old(db.State()), modelValid, id, name, now).state
  {
    if !modelValid {
      return InvalidModel;
    }
    var entity := Find(db.categories, CategoryId, id);
    if entity.None? {
      return NotFound;
    }
    if !EqualsIgnoreCase(entity.value.name, name) {
      var nameTaken := NameTaken(db.categories, CategoryName, name);
      if nameTaken {
        Error(db, "FoodCategory.Update failed: Conflict with " + name, now);
        return BadRequest(DuplicateMessage);
      }
    }
    ReplaceWellKeyed(db.categories, CategoryId, db.nextId, id, FoodCategory(id, name));
    db.categories := ReplaceKey(db.categories, CategoryId, id, FoodCategory(id, name));
    Information(db, "FoodCategory.Update success: id=" + IntToString(id), now);
    r := OkMessage("Successful update of " + name + " in " + IntToString(id));
  }

  // ---- Delete --------------------------------------------------------------

  function DeleteOutcome(s: Snapshot, id: int, now: int): Outcome {
    match Find(s.categories, CategoryId, id)
    case None => Outcome(NotFound, s)
    case Some(entity) =>
      var removed := s.(categories := RemoveKey(s.categories, CategoryId, id));
      Outcome(OkMessage("Successfully deletion of " + entity.name),
        Logged(removed, InformationLevel, "FoodCategory.Delete success: id=" + IntToString(id), now))
  }

  /** `Delete` of an unknown id is 404 with no change; otherwise exactly
      that category is removed and one log row is appended. */
  lemma DeleteEffect(s: Snapshot, id: int, now: int)
    requires ValidState(s)
    ensures ValidState(DeleteOutcome(s, id, now).state)
    ensures NamesUnique(s.categories, CategoryName) ==> NamesUnique(DeleteOutcome(s, id, now).state.categories, CategoryName)
    ensures Find(s.categories, CategoryId, id).None? ==> DeleteOutcome(s, id, now) == Outcome(NotFound, s)
    ensures Find(s.categories, CategoryId, id).Some? ==> DeleteOutcome(s, id, now).response.OkMessage?
    ensures Find(s.categories, CategoryId, id).Some? ==> |DeleteOutcome(s, id, now).state.categories| == |s.categories| - 1
    ensures forall x :: x in DeleteOutcome(s, id, now).state.categories <==> x in s.categories && (Find(s.categories, CategoryId, id).Some? ==> x.id != id)
    ensures DeleteOutcome(s, id, now).state.(categories := s.categories, logs := s.logs, nextId := s.nextId) == s
  {
    if Find(s.categories, CategoryId, id).Some? {
      RemoveKeyWellKeyed(s.categories, CategoryId, s.nextId, id);
      var removed := s.(categories := RemoveKey(s.categories, CategoryId, id));
      LoggedValid(removed, InformationLevel, "FoodCategory.Delete success: id=" + IntToString(id), now);
      if NamesUnique(s.categories, CategoryName) {
        RemoveKeepsNamesUnique(s.categories, CategoryId, CategoryName, id);
      }
    }
  }

  method Delete(db: Database, id: int, now: int) returns (r: Response<FoodCategory>)
    requires db.Valid()
    modifies db
    ensures db.Valid()
    ensures r == DeleteOutcome(old(db.State()), id, now).response
    ensures db.State() == DeleteOutcome(old(db.State()), id, now).state
  {
    var entity := Find(db.categories, CategoryId, id);
    if entity.None? {
      return NotFound;
    }
    RemoveKeyWellKeyed(db.categories, CategoryId, db.nextId, id);
    db.categories := RemoveKey(db.categories, CategoryId, id);
    Information(db, "FoodCategory.Delete success: id=" + IntToString(id), now);
    r := OkMessage("Successfully deletion of " + entity.value.name);
  }
}
