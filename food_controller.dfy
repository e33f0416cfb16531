/** The middleware's food endpoints (GrillPizzeriaOrderMiddleware,
    Controllers/FoodController.cs): the paged search, create and update
    with their name and category checks and the replacement of the food's
    allergen join rows, delete, and the reads. Each state-changing action is
    a function from the state before to the response and the state after,
    and a method performing the same steps on the database. */
module FoodController {
  import opened Wrappers
  import opened Text
  import opened Int32
  import opened Entities
  import opened Tables
  import opened Ordering
  import opened Collation
  import opened Catalog
  import opened Store
  import opened AppLogger
  import opened ValidationConstants
  import opened MappingProfile
  import opened Responses

  datatype Outcome<T> = Outcome(response: Response<T>, state: Snapshot)

  function FoodName(f: Food): string { f.name }

  const DuplicateMessage := "Food with the same name already exists."
  const InvalidCategoryMessage := "Invalid FoodCategoryId."

  // ---- join rows -------------------------------------------------------------

  /** The join rows `foreach (aid in ids) Add(new FoodAllergen(foodId, aid))` writes. */
  function LinkSet(foodId: int, ids: seq<int>): (r: set<FoodAllergen>)
    ensures forall l :: l in r <==> l.foodId == foodId && l.allergenId in ids
  {
    if |ids| == 0 then {}
    else LinkSet(foodId, ids[..|ids| - 1]) + {FoodAllergen(foodId, ids[|ids| - 1])}
  }

  /** The join rows left by `RemoveRange(entity.FoodAllergens)`. */
  function LinksNotOf(foodId: int, links: set<FoodAllergen>): (r: set<FoodAllergen>)
    ensures forall l :: l in r <==> l in links && l.foodId != foodId
  {
    set l | l in links && l.foodId != foodId
  }

  /** The join rows after attaching `ids` to `foodId`: the listed ids that
      are allergens are linked, unknown ids are dropped, and other foods'
      rows are kept. */
  lemma AttachExisting(foodId: int, allergens: seq<Allergen>, base: set<FoodAllergen>, ids: seq<int>)
    ensures forall a :: FoodAllergen(foodId, a) in base + LinkSet(foodId, KeysIn(allergens, AllergenId, ids)) <==>
      FoodAllergen(foodId, a) in base || (a in ids && HasKey(allergens, AllergenId, a))
    ensures forall l: FoodAllergen :: l.foodId != foodId ==> (l in base + LinkSet(foodId, KeysIn(allergens, AllergenId, ids)) <==> l in base)
  {
  }

  /** `foreach (var aid in ids) _context.FoodAllergen.Add(...)`. */
  method AddLinks(db: Database, foodId: int, ids: seq<int>)
    requires db.Valid() && foodId < db.nextId
    modifies db
    ensures db.Valid()
    ensures db.State() == old(db.State()).(foodAllergens := old(db.foodAllergens) + LinkSet(foodId, ids))
  {
    var k := 0;
    while k < |ids|
      invariant 0 <= k <= |ids|
      invariant db.State() == old(db.State()).(foodAllergens := old(db.foodAllergens) + LinkSet(foodId, ids[..k]))
      invariant db.Valid()
    {
      assert ids[..k + 1][..k] == ids[..k];
      db.foodAllergens := db.foodAllergens + {FoodAllergen(foodId, ids[k])};
      k := k + 1;
    }
    assert ids[..|ids|] == ids;
  }

  // ---- Search ----------------------------------------------------------------

  /** The anonymous search result object. */
  datatype SearchPage = SearchPage(
    total: int,
    currentPage: int,
    currentPageSize: int,
    pageSize: int,
    totalPages: int,
    data: seq<FoodReadDto>)

  predicate PagingValid(page: int, pageSize: int) {
    page >= 1 && 1 <= pageSize <= 100
  }

  /** Free-text match on the trimmed query, against name or description. */
  predicate MatchesText(f: Food, q: string) {
    DbContains(f.name, Trim(q)) || DbContains(f.description, Trim(q))
  }

  /** The query after the text filter (skipped for a blank `q`) and the
      category filter (skipped when no category is given). */
  function Filtered(foods: seq<Food>, q: Option<string>, categoryId: Option<int>): seq<Food> {
    var byText := if IsNullOrWhiteSpace(q) then foods else Filter(foods, (f: Food) => MatchesText(f, q.value));
    if categoryId.Some? then Filter(byText, (f: Food) => f.foodCategoryId == categoryId.value) else byText
  }

  /** `OrderBy(f => f.Name).ThenBy(f => f.Id)`. */
  function NameThenId(f: Food): SortKey {
    SortKey(f.name, f.id)
  }

  /** `(int)Math.Ceiling(total / (double)pageSize)`, in integers. */
  function CeilDiv(total: nat, size: int): nat
    requires size >= 1
  {
    DivisionOfNaturals(total + size - 1, size);
    (total + size - 1) / size
  }

  lemma DivisionOfNaturals(a: nat, b: int)
    requires b >= 1
    ensures a / b >= 0
  {
  }

  /** `CeilDiv` is the least page count covering `total`; it is 0 exactly
      when there is nothing to show. */
  lemma CeilDivIsCeiling(total: nat, size: int)
    requires size >= 1
    ensures CeilDiv(total, size) * size >= total
    ensures total > 0 ==> (CeilDiv(total, size) - 1) * size < total
    ensures CeilDiv(total, size) == 0 <==> total == 0
  {
    var n := total + size - 1;
    var c := n / size;
    var m := n % size;
    assert n == c * size + m && 0 <= m < size;
    assert c * size >= total;
    assert (c - 1) * size == c * size - size;
  }

  /** The offset `(page - 1) * pageSize` of a page, computed in C#'s
      unchecked 32-bit `int` before it reaches the query: a large page number
      wraps around, possibly to a negative offset. */
  function PageOffset(page: int, pageSize: int): (r: int)
    ensures InRange(r)
    ensures OffsetFits(page, pageSize) ==> r == (page - 1) * pageSize
  {
    Wrap((page - 1) * pageSize)
  }

  /** The page's offset is exact: the product does not wrap. */
  predicate OffsetFits(page: int, pageSize: int) {
    0 <= (page - 1) * pageSize <= Int32Max
  }

  /** The foods of one page: the sorted, filtered foods from the page's offset. */
  function PageOf(foods: seq<Food>, q: Option<string>, categoryId: Option<int>, page: int, pageSize: int): seq<Food>
    requires PagingValid(page, pageSize) && PageOffset(page, pageSize) >= 0
  {
    Slice(SortByKey(Filtered(foods, q, categoryId), NameThenId), PageOffset(page, pageSize), pageSize)
  }

  function ReadAll(items: seq<Food>, s: Snapshot): (r: seq<FoodReadDto>)
    ensures |r| == |items|
    ensures forall k :: 0 <= k < |r| ==> r[k] == FoodRead(items[k], s.categories, s.allergens, s.foodAllergens)
  {
    seq(|items|, k requires 0 <= k < |items| => FoodRead(items[k], s.categories, s.allergens, s.foodAllergens))
  }

  function OptionText(q: Option<string>): string {
    if q.Some? then q.value else "null"
  }

  function OptionNumber(n: Option<int>): string {
    if n.Some? then IntToString(n.value) else "null"
  }

  function SearchLogMessage(q: Option<string>, categoryId: Option<int>, page: int, pageSize: int, total: int, totalPages: int): string {
    "Food.Search filters (q=" + OptionText(q) + ", categoryId=" + OptionNumber(categoryId) + "), page=" + IntToString(page) +
    ", pageSize=" + IntToString(pageSize) + ", total=" + IntToString(total) + ", totalPages=" + IntToString(totalPages)
  }

  const BadPagingMessage := "Invalid paging parameters."
  const SearchFailedPrefix := "Food.Search failed: "
  const InternalErrorPrefix := "Internal server error: "

  function BadPagingLog(page: int, pageSize: int): string {
    "Food.Search failed: Invalid paging parameters. page=" + IntToString(page) + ", pageSize=" + IntToString(pageSize)
  }

  function SearchOutcome(s: Snapshot, q: Option<string>, categoryId: Option<int>, page: int, pageSize: int, now: int): Outcome<SearchPage> {
    if !PagingValid(page, pageSize) then
      Outcome(BadRequest(BadPagingMessage), Logged(s, ErrorLevel, BadPagingLog(page, pageSize), now))
    else SearchFound(s, q, categoryId, page, pageSize, now)
  }

  /** The reply and the log row of a search with valid paging. A negative
      offset makes the page query throw, which the catch-all handler logs
      and turns into a 500. A filter log message longer than the message
      column makes the log insert throw; the handler's own `log.Error` then
      saves the same refused row again and throws too, so the exception
      leaves the action, the server answers 500 and nothing is stored. */
  function SearchFound(s: Snapshot, q: Option<string>, categoryId: Option<int>, page: int, pageSize: int, now: int): Outcome<SearchPage>
    requires PagingValid(page, pageSize)
  {
    if PageOffset(page, pageSize) < 0 then
      Outcome(ServerError(InternalErrorPrefix + NegativeOffsetError),
        Logged(s, ErrorLevel, SearchFailedPrefix + NegativeOffsetError, now))
    else
      var total := |Filtered(s.foods, q, categoryId)|;
      var totalPages := CeilDiv(total, pageSize);
      var message := SearchLogMessage(q, categoryId, page, pageSize, total, totalPages);
      if |message| > MessageLogMaxLength then
        Outcome(ServerError(SaveRefusedError), s)
      else
        var dtos := ReadAll(PageOf(s.foods, q, categoryId, page, pageSize), s);
        Outcome(Ok(SearchPage(total, page, |dtos|, pageSize, totalPages, dtos)),
          Logged(s, InformationLevel, message, now))
  }

  /** A food survives the filters exactly when it matches the trimmed text
      (or the text is blank) and has the requested category (or none is
      requested). */
  lemma FilteredIff(foods: seq<Food>, q: Option<string>, categoryId: Option<int>, f: Food)
    ensures f in Filtered(foods, q, categoryId) <==>
      f in foods &&
      (IsNullOrWhiteSpace(q) || MatchesText(f, q.value)) &&
      (categoryId.None? || f.foodCategoryId == categoryId.value)
  {
  }

  /** Bad paging is refused with one error log and no other change. */
  lemma SearchRejectsBadPaging(s: Snapshot, q: Option<string>, categoryId: Option<int>, page: int, pageSize: int, now: int)
    requires page < 1 || pageSize < 1 || pageSize > 100
    ensures SearchOutcome(s, q, categoryId, page, pageSize, now).response == BadRequest(BadPagingMessage)
    ensures SearchOutcome(s, q, categoryId, page, pageSize, now).state.(logs := s.logs, nextId := s.nextId) == s
  {
  }

  /** The filter log row a valid search writes for the table it reads. */
  function SearchMessage(s: Snapshot, q: Option<string>, categoryId: Option<int>, page: int, pageSize: int): string
    requires PagingValid(page, pageSize)
  {
    var total := |Filtered(s.foods, q, categoryId)|;
    SearchLogMessage(q, categoryId, page, pageSize, total, CeilDiv(total, pageSize))
  }

  /** A valid search whose log row fits the message column counts every
      filtered food, reports the ceiling of total over pageSize as the page
      count, and returns at most pageSize foods: those at the page's offset
      in (Name, Id) order. Only that log row is written. `SearchLogTooLong`
      covers the row that does not fit. */
  lemma SearchPageContents(s: Snapshot, q: Option<string>, categoryId: Option<int>, page: int, pageSize: int, now: int)
    requires PagingValid(page, pageSize) && PageOffset(page, pageSize) >= 0
    requires |SearchMessage(s, q, categoryId, page, pageSize)| <= MessageLogMaxLength
    ensures var o := SearchOutcome(s, q, categoryId, page, pageSize, now);
      var sorted := SortByKey(Filtered(s.foods, q, categoryId), NameThenId);
      o.response.Ok? &&
      o.response.body.total == |Filtered(s.foods, q, categoryId)| &&
      o.response.body.totalPages == CeilDiv(o.response.body.total, pageSize) &&
      o.response.body.currentPageSize == |o.response.body.data| <= pageSize &&
      SortedByKey(sorted, NameThenId) &&
      multiset(sorted) == multiset(Filtered(s.foods, q, categoryId)) &&
      (forall k :: 0 <= k < |o.response.body.data| ==>
        PageOffset(page, pageSize) + k < |sorted| &&
        o.response.body.data[k] == FoodRead(sorted[PageOffset(page, pageSize) + k], s.categories, s.allergens, s.foodAllergens)) &&
      o.state.(logs := s.logs, nextId := s.nextId) == s
  {
    var filtered := Filtered(s.foods, q, categoryId);
    SortByKeySorted(filtered, NameThenId);
    var total := |filtered|;
    var dtos := ReadAll(PageOf(s.foods, q, categoryId, page, pageSize), s);
    assert SearchOutcome(s, q, categoryId, page, pageSize, now) == SearchFound(s, q, categoryId, page, pageSize, now);
    assert SearchFound(s, q, categoryId, page, pageSize, now) ==
      Outcome(Ok(SearchPage(total, page, |dtos|, pageSize, CeilDiv(total, pageSize), dtos)),
        Logged(s, InformationLevel, SearchMessage(s, q, categoryId, page, pageSize), now));
  }

  /** A log row longer than the message column leaves the action with the
      refused save: a 500 and no change, whatever the page holds. */
  lemma SearchLogTooLong(s: Snapshot, q: Option<string>, categoryId: Option<int>, page: int, pageSize: int, now: int)
    requires PagingValid(page, pageSize) && PageOffset(page, pageSize) >= 0
    requires |SearchMessage(s, q, categoryId, page, pageSize)| > MessageLogMaxLength
    ensures SearchOutcome(s, q, categoryId, page, pageSize, now) == Outcome(ServerError(SaveRefusedError), s)
  {
    assert SearchOutcome(s, q, categoryId, page, pageSize, now) == SearchFound(s, q, categoryId, page, pageSize, now);
  }

  /** Whatever the table holds, a search text of 175 or more characters
      makes the filter log row longer than the message column: every other
      part of the row takes at least 81 characters. */
  lemma SearchLongQueryFails(s: Snapshot, q: Option<string>, categoryId: Option<int>, page: int, pageSize: int, now: int)
    requires PagingValid(page, pageSize) && PageOffset(page, pageSize) >= 0
    requires q.Some? && |q.value| >= 175
    ensures SearchOutcome(s, q, categoryId, page, pageSize, now) == Outcome(ServerError(SaveRefusedError), s)
  {
    var total := |Filtered(s.foods, q, categoryId)|;
    SearchLogMessageLength(q, categoryId, page, pageSize, total, CeilDiv(total, pageSize));
    SearchLogTooLong(s, q, categoryId, page, pageSize, now);
  }

  /** Besides the search text, a filter log row has 76 characters of fixed
      text and at least one for the category and for each number. */
  lemma SearchLogMessageLength(q: Option<string>, categoryId: Option<int>, page: int, pageSize: int, total: int, totalPages: int)
    ensures |SearchLogMessage(q, categoryId, page, pageSize, total, totalPages)| >= 81 + |OptionText(q)|
  {
    assert |"Food.Search filters (q="| == 23;
    assert |", categoryId="| == 13;
    assert |"), page="| == 8;
    assert |", pageSize="| == 11;
    assert |", total="| == 8;
    assert |", totalPages="| == 13;
    assert |OptionNumber(categoryId)| >= 1;
  }

  /** A page whose 32-bit offset wraps below zero fails with a 500 and one
      error log row, whatever the table holds. */
  lemma SearchNegativeOffsetFails(s: Snapshot, q: Option<string>, categoryId: Option<int>, page: int, pageSize: int, now: int)
    requires PagingValid(page, pageSize) && PageOffset(page, pageSize) < 0
    ensures SearchOutcome(s, q, categoryId, page, pageSize, now) ==
      Outcome(ServerError(InternalErrorPrefix + NegativeOffsetError),
        Logged(s, ErrorLevel, SearchFailedPrefix + NegativeOffsetError, now))
  {
  }

  /** The offset wraps: page 33554433 of size 64 has offset -2^31 and fails,
      and page 67108865 of size 64 has offset 0, so it shows page 1 again. */
  lemma WrappedOffsets(s: Snapshot, q: Option<string>, categoryId: Option<int>, now: int)
    ensures SearchOutcome(s, q, categoryId, 33554433, 64, now).response.ServerError?
    ensures PageOffset(67108865, 64) == PageOffset(1, 64) == 0
    ensures PageOf(s.foods, q, categoryId, 67108865, 64) == PageOf(s.foods, q, categoryId, 1, 64)
  {
    assert (33554433 - 1) * 64 == 0x8000_0000;
    assert PageOffset(33554433, 64) == Int32Min;
    assert (67108865 - 1) * 64 == 0x1_0000_0000;
    assert PageOffset(67108865, 64) == 0;
  }

  /** Foods with unique ids form a duplicate-free sequence. */
  lemma KeyedDistinct(foods: seq<Food>)
    requires KeysUnique(foods, FoodId)
    ensures Distinct(foods)
  {
    forall i, j | 0 <= i < j < |foods| ensures foods[i] != foods[j] {
      assert FoodId(foods[i]) != FoodId(foods[j]);
    }
  }

  /** The filters keep the ids unique. */
  lemma FilteredKeysUnique(foods: seq<Food>, q: Option<string>, categoryId: Option<int>)
    requires KeysUnique(foods, FoodId)
    ensures KeysUnique(Filtered(foods, q, categoryId), FoodId)
  {
    var byText := if IsNullOrWhiteSpace(q) then foods else Filter(foods, (g: Food) => MatchesText(g, q.value));
    if !IsNullOrWhiteSpace(q) {
      FilterKeysUnique(foods, FoodId, (g: Food) => MatchesText(g, q.value));
    }
    if categoryId.Some? {
      FilterKeysUnique(byText, FoodId, (g: Food) => g.foodCategoryId == categoryId.value);
    }
  }

  /** Page `p1` ends where page `p1 + 1` starts, so before any later page. */
  lemma OffsetsApart(p1: int, p2: int, pageSize: int)
    requires PagingValid(p1, pageSize) && PagingValid(p2, pageSize) && p1 < p2 && OffsetFits(p2, pageSize)
    ensures OffsetFits(p1, pageSize)
    ensures PageOffset(p1, pageSize) + pageSize <= PageOffset(p2, pageSize)
  {
    PageEndsBeforeNext(p1 - 1, p2 - 1, pageSize);
  }

  /** Two different pages of the same search share no food. */
  lemma PagesDisjoint(s: Snapshot, q: Option<string>, categoryId: Option<int>, p1: int, p2: int, pageSize: int, f: Food)
    requires ValidState(s) && PagingValid(p1, pageSize) && PagingValid(p2, pageSize) && p1 < p2 && OffsetFits(p2, pageSize)
    requires PageOffset(p1, pageSize) >= 0 && f in PageOf(s.foods, q, categoryId, p1, pageSize)
    ensures f !in PageOf(s.foods, q, categoryId, p2, pageSize)
  {
    var filtered := Filtered(s.foods, q, categoryId);
    FilteredKeysUnique(s.foods, q, categoryId);
    KeyedDistinct(filtered);
    SortKeepsDistinct(filtered, NameThenId);
    OffsetsApart(p1, p2, pageSize);
    SlicesDisjoint(SortByKey(filtered, NameThenId), PageOffset(p1, pageSize), PageOffset(p2, pageSize), pageSize, f);
  }

  /** `Search(q, categoryId, page, pageSize)`. */
  method Search(db: Database, q: Option<string>, categoryId: Option<int>, page: int, pageSize: int, now: int)
    returns (r: Response<SearchPage>)
    requires db.Valid()
    modifies db
    ensures db.Valid()
    ensures r == SearchOutcome(old(db.State()), q, categoryId, page, pageSize, now).response
    ensures db.State() == SearchOutcome(old(db.State()), q, categoryId, page, pageSize, now).state
  {
    if page < 1 || pageSize < 1 || pageSize > 100 {
      Error(db, BadPagingLog(page, pageSize), now);
      return BadRequest(BadPagingMessage);
    }
    r := SearchValid(db, q, categoryId, page, pageSize, now);
  }

  /** `Search` once the paging parameters have passed their check. */
  method SearchValid(db: Database, q: Option<string>, categoryId: Option<int>, page: int, pageSize: int, now: int)
    returns (r: Response<SearchPage>)
    requires db.Valid() && PagingValid(page, pageSize)
    modifies db
    ensures db.Valid()
    ensures r == SearchFound(old(db.State()), q, categoryId, page, pageSize, now).response
    ensures db.State() == SearchFound(old(db.State()), q, categoryId, page, pageSize, now).state
  {
    var query := Filtered(db.foods, q, categoryId);
    var total := |query|;
    var totalPages := CeilDiv(total, pageSize);
    var offset := PageOffset(page, pageSize);
    if offset < 0 {
      Error(db, SearchFailedPrefix + NegativeOffsetError, now);
      return ServerError(InternalErrorPrefix + NegativeOffsetError);
    }
    var items := Slice(SortByKey(query, NameThenId), offset, pageSize);
    var dtos := ReadAll(items, db.State());
    var message := SearchLogMessage(q, categoryId, page, pageSize, total, totalPages);
    if |message| > MessageLogMaxLength {
      return ServerError(SaveRefusedError);
    }
    Information(db, message, now);
    r := Ok(SearchPage(total, page, |dtos|, pageSize, totalPages, dtos));
  }

  // ---- reads -----------------------------------------------------------------

  function ByName(f: Food): SortKey {
    SortKey(f.name, 0)
  }

  /** `GetAll()`: every food read, ordered by name. */
  function GetAll(s: Snapshot): (r: seq<FoodReadDto>)
    ensures |r| == |s.foods|
    ensures forall k :: 0 <= k < |r| ==> r[k] == FoodRead(SortByKey(s.foods, ByName)[k], s.categories, s.allergens, s.foodAllergens)
  {
    ReadAll(SortByKey(s.foods, ByName), s)
  }

  /** `GetById(id)`: the food read with its category and allergens, or 404. */
  function GetById(s: Snapshot, id: int): (r: Response<FoodReadDto>)
    ensures r == NotFound <==> Find(s.foods, FoodId, id).None?
    ensures r.Ok? ==> r.body.id == id
    ensures r.Ok? ==>
      forall a :: a in r.body.allergens <==> a in s.allergens && FoodAllergen(id, a.id) in s.foodAllergens
    ensures r.NotFound? || r.Ok?
  {
    match Find(s.foods, FoodId, id)
    case None => NotFound
    case Some(f) => Ok(FoodRead(f, s.categories, s.allergens, s.foodAllergens))
  }

  // ---- Create ----------------------------------------------------------------

  /** The join rows after `Create`: links are added only for a non-empty list. */
  function CreatedLinks(s: Snapshot, foodId: int, dto: FoodCreateDto): set<FoodAllergen> {
    if dto.allergenIds.Some? && |dto.allergenIds.value| > 0 then
      s.foodAllergens + LinkSet(foodId, KeysIn(s.allergens, AllergenId, dto.allergenIds.value))
    else s.foodAllergens
  }

  function CreateOutcome(s: Snapshot, modelValid: bool, dto: FoodCreateDto, now: int): Outcome<FoodReadDto> {
    if !modelValid then Outcome(InvalidModel, s)
    else if NameTaken(s.foods, FoodName, dto.name) then
      Outcome(BadRequest(DuplicateMessage), Logged(s, ErrorLevel, "Food.Create failed: Conflict with " + dto.name, now))
    else if !HasKey(s.categories, CategoryId, dto.foodCategoryId) then
      Outcome(BadRequest(InvalidCategoryMessage), Logged(s, ErrorLevel, "Food.Create failed: Invalid FoodCategoryId", now))
    else
      var food := FoodFromCreate(dto).(id := s.nextId);
      var stored := s.(foods := s.foods + [food], foodAllergens := CreatedLinks(s, food.id, dto), nextId := s.nextId + 1);
      Outcome(Created(FoodRead(food, stored.categories, stored.allergens, stored.foodAllergens)),
        Logged(stored, InformationLevel, "Food.Create success: id=" + IntToString(food.id), now))
  }

  /** `Create` succeeds exactly for a valid model with a free name and an
      existing category, checked in that order. An invalid body is answered
      before the action runs and changes nothing; each later rejection
      writes only its log row. */
  lemma CreateChecks(s: Snapshot, modelValid: bool, dto: FoodCreateDto, now: int)
    ensures CreateOutcome(s, modelValid, dto, now).response.Created? <==>
      modelValid && !NameTaken(s.foods, FoodName, dto.name) && HasKey(s.categories, CategoryId, dto.foodCategoryId)
    ensures modelValid && NameTaken(s.foods, FoodName, dto.name) ==>
      CreateOutcome(s, modelValid, dto, now).response == BadRequest(DuplicateMessage)
    ensures modelValid && !NameTaken(s.foods, FoodName, dto.name) && !HasKey(s.categories, CategoryId, dto.foodCategoryId) ==>
      CreateOutcome(s, modelValid, dto, now).response == BadRequest(InvalidCategoryMessage)
    ensures !modelValid ==> CreateOutcome(s, modelValid, dto, now) == Outcome(InvalidModel, s)
    ensures modelValid && !CreateOutcome(s, modelValid, dto, now).response.Created? ==>
      CreateOutcome(s, modelValid, dto, now).state.(logs := s.logs, nextId := s.nextId) == s &&
      |CreateOutcome(s, modelValid, dto, now).state.logs| == |s.logs| + 1
  {
  }

  /** A successful `Create` inserts the mapped food under a fresh id and
      links it to exactly the listed ids that are allergens; the read it
      returns lists exactly those allergens. Other foods' links are kept. */
  lemma CreateWrites(s: Snapshot, modelValid: bool, dto: FoodCreateDto, now: int)
    requires ValidState(s)
    requires CreateOutcome(s, modelValid, dto, now).response.Created?
    ensures var o := CreateOutcome(s, modelValid, dto, now);
      o.state.foods == s.foods + [FoodFromCreate(dto).(id := s.nextId)] &&
      (forall a :: FoodAllergen(s.nextId, a) in o.state.foodAllergens <==>
        dto.allergenIds.Some? && a in dto.allergenIds.value && HasKey(s.allergens, AllergenId, a)) &&
      (forall l: FoodAllergen :: l.foodId != s.nextId ==> (l in o.state.foodAllergens <==> l in s.foodAllergens)) &&
      (forall a :: a in o.response.body.allergens <==>
        a in s.allergens && dto.allergenIds.Some? && a.id in dto.allergenIds.value) &&
      o.state.(foods := s.foods, foodAllergens := s.foodAllergens, logs := s.logs, nextId := s.nextId) == s
  {
    var o := CreateOutcome(s, modelValid, dto, now);
    if dto.allergenIds.Some? && |dto.allergenIds.value| > 0 {
      AttachExisting(s.nextId, s.allergens, s.foodAllergens, dto.allergenIds.value);
    }
    forall a | a in s.allergens ensures HasKey(s.allergens, AllergenId, a.id) {
      var i :| 0 <= i < |s.allergens| && s.allergens[i] == a;
    }
  }

  /** `Create` keeps keys, link bounds and name uniqueness. */
  lemma CreateKeepsInvariants(s: Snapshot, modelValid: bool, dto: FoodCreateDto, now: int)
    requires ValidState(s)
    ensures ValidState(CreateOutcome(s, modelValid, dto, now).state)
    ensures NamesUnique(s.foods, FoodName) ==> NamesUnique(CreateOutcome(s, modelValid, dto, now).state.foods, FoodName)
  {
    if CreateOutcome(s, modelValid, dto, now).response.Created? {
      var food := FoodFromCreate(dto).(id := s.nextId);
      var mid := s.(foods := s.foods + [food], nextId := s.nextId + 1);
      StoredValid(s, food);
      CreatedLinksValid(mid, CreatedLinks(s, food.id, dto));
      var stored := mid.(foodAllergens := CreatedLinks(s, food.id, dto));
      assert CreateOutcome(s, modelValid, dto, now).state == Logged(stored, InformationLevel, "Food.Create success: id=" + IntToString(food.id), now);
      LoggedValid(stored, InformationLevel, "Food.Create success: id=" + IntToString(food.id), now);
      if NamesUnique(s.foods, FoodName) {
        AppendKeepsNamesUnique(s.foods, FoodName, food);
      }
    } else if modelValid && NameTaken(s.foods, FoodName, dto.name) {
      LoggedValid(s, ErrorLevel, "Food.Create failed: Conflict with " + dto.name, now);
    } else if modelValid {
      LoggedValid(s, ErrorLevel, "Food.Create failed: Invalid FoodCategoryId", now);
    }
  }

  /** Replacing the join rows by rows whose food ids are allocated keeps the store valid. */
  lemma CreatedLinksValid(s: Snapshot, links: set<FoodAllergen>)
    requires ValidState(s)
    requires forall l :: l in links ==> l.foodId < s.nextId
    ensures ValidState(s.(foodAllergens := links))
  {
  }

  /** The state between inserting the food row and adding its links. */
  lemma StoredValid(s: Snapshot, food: Food)
    requires ValidState(s) && food.id == s.nextId
    ensures ValidState(s.(foods := s.foods + [food], nextId := s.nextId + 1))
  {
    AppendWellKeyed(s.foods, FoodId, s.nextId, food);
    WellKeyedRaise(s.categories, CategoryId, s.nextId);
    WellKeyedRaise(s.allergens, AllergenId, s.nextId);
    WellKeyedRaise(s.roles, RoleId, s.nextId);
    WellKeyedRaise(s.users, UserId, s.nextId);
    WellKeyedRaise(s.orders, OrderId, s.nextId);
    WellKeyedRaise(s.logs, LogId, s.nextId);
  }

  method Create(db: Database, modelValid: bool, dto: FoodCreateDto, now: int) returns (r: Response<FoodReadDto>)
    requires db.Valid()
    modifies db
    ensures db.Valid()
    ensures r == CreateOutcome(old(db.State()), modelValid, dto, now).response
    ensures db.State() == CreateOutcome(old(db.State()), modelValid, dto, now).state
  {
    if !modelValid {
      return InvalidModel;
    }
    var nameTaken := NameTaken(db.foods, FoodName, dto.name);
    if nameTaken {
      Error(db, "Food.Create failed: Conflict with " + dto.name, now);
      return BadRequest(DuplicateMessage);
    }
    var categoryExists := HasKey(db.categories, CategoryId, dto.foodCategoryId);
    if !categoryExists {
      Error(db, "Food.Create failed: Invalid FoodCategoryId", now);
      return BadRequest(InvalidCategoryMessage);
    }
    r := SaveCreate(db, modelValid, dto, now);
  }

  /** The success path of `Create`, once every check has passed. */
  method SaveCreate(db: Database, modelValid: bool, dto: FoodCreateDto, now: int) returns (r: Response<FoodReadDto>)
    requires db.Valid() && modelValid
    requires !NameTaken(db.foods, FoodName, dto.name) && HasKey(db.categories, CategoryId, dto.foodCategoryId)
    modifies db
    ensures db.Valid()
    ensures r == CreateOutcome(old(db.State()), modelValid, dto, now).response
    ensures db.State() == CreateOutcome(old(db.State()), modelValid, dto, now).state
  {
    ghost var before := db.State();
    ghost var food := FoodFromCreate(dto).(id := before.nextId);
    ghost var stored := before.(foods := before.foods + [food], foodAllergens := CreatedLinks(before, food.id, dto), nextId := before.nextId + 1);
    assert CreateOutcome(before, modelValid, dto, now) ==
      Outcome(Created(FoodRead(food, stored.categories, stored.allergens, stored.foodAllergens)),
        Logged(stored, InformationLevel, "Food.Create success: id=" + IntToString(food.id), now));
    ghost var mid := before.(foods := before.foods + [food], nextId := before.nextId + 1);
    StoredValid(before, food);
    CreatedLinksValid(mid, stored.foodAllergens);
    var id := db.NewId();
    var entity := FoodFromCreate(dto).(id := id);
    db.foods := db.foods + [entity];
    assert db.State() == mid;
    if dto.allergenIds.Some? && |dto.allergenIds.value| > 0 {
      var validAllergenIds := KeysIn(db.allergens, AllergenId, dto.allergenIds.value);
      AddLinks(db, id, validAllergenIds);
    }
    assert db.State() == stored;
    var read := FoodRead(entity, db.categories, db.allergens, db.foodAllergens);
    Information(db, "Food.Create success: id=" + IntToString(id), now);
    r := Created(read);
  }

  // ---- Update ----------------------------------------------------------------

  /** The join rows after `Update`: replaced when a list is given (even an
      empty one), kept when it is null. */
  function UpdatedLinks(s: Snapshot, id: int, dto: FoodCreateDto): set<FoodAllergen> {
    if dto.allergenIds.Some? then
      LinksNotOf(id, s.foodAllergens) + LinkSet(id, KeysIn(s.allergens, AllergenId, dto.allergenIds.value))
    else s.foodAllergens
  }

  function UpdateOutcome(s: Snapshot, modelValid: bool, id: int, dto: FoodCreateDto, now: int): Outcome<FoodReadDto> {
    if !modelValid then Outcome(InvalidModel, s)
    else match Find(s.foods, FoodId, id)
      case None => Outcome(NotFound, s)
      case Some(entity) =>
        if !EqualsIgnoreCase(entity.name, dto.name) && NameTaken(s.foods, FoodName, dto.name) then
          Outcome(BadRequest(DuplicateMessage), Logged(s, ErrorLevel, "Food.Update failed: Conflict with " + dto.name, now))
        else if !HasKey(s.categories, CategoryId, dto.foodCategoryId) then
          Outcome(BadRequest(InvalidCategoryMessage), Logged(s, ErrorLevel, "Food.Update failed: Invalid FoodCategoryId", now))
        else
          var updated := ApplyFoodUpdate(dto, entity);
          var stored := s.(foods := ReplaceKey(s.foods, FoodId, id, updated), foodAllergens := UpdatedLinks(s, id, dto));
          Outcome(OkMessage("Successful update of " + updated.name + " in " + IntToString(id)),
            Logged(stored, InformationLevel, "Food.Update success: id=" + IntToString(id), now))
  }

  /** An invalid body is answered before the action runs and changes
      nothing; `Update` of an unknown id is 404 with no change; a case-only
      rename skips the name check; the category is checked after the name. */
  lemma UpdateChecks(s: Snapshot, modelValid: bool, id: int, dto: FoodCreateDto, now: int)
    ensures !modelValid ==> UpdateOutcome(s, modelValid, id, dto, now) == Outcome(InvalidModel, s)
    ensures modelValid && Find(s.foods, FoodId, id).None? ==> UpdateOutcome(s, modelValid, id, dto, now) == Outcome(NotFound, s)
    ensures modelValid && Find(s.foods, FoodId, id).Some? && EqualsIgnoreCase(Find(s.foods, FoodId, id).value.name, dto.name) ==>
      (UpdateOutcome(s, modelValid, id, dto, now).response.OkMessage? <==> HasKey(s.categories, CategoryId, dto.foodCategoryId))
    ensures UpdateOutcome(s, modelValid, id, dto, now).response.OkMessage? <==>
      modelValid && Find(s.foods, FoodId, id).Some? &&
      (EqualsIgnoreCase(Find(s.foods, FoodId, id).value.name, dto.name) || !NameTaken(s.foods, FoodName, dto.name)) &&
      HasKey(s.categories, CategoryId, dto.foodCategoryId)
    ensures !UpdateOutcome(s, modelValid, id, dto, now).response.OkMessage? ==>
      UpdateOutcome(s, modelValid, id, dto, now).state.(logs := s.logs, nextId := s.nextId) == s
  {
  }

  /** A successful `Update` overwrites the target food only, keeping its id.
      With a list of allergen ids its links become exactly the listed ids
      that are allergens; with none they are kept. Other foods' links are
      never touched. */
  lemma UpdateWrites(s: Snapshot, modelValid: bool, id: int, dto: FoodCreateDto, now: int)
    requires UpdateOutcome(s, modelValid, id, dto, now).response.OkMessage?
    ensures var o := UpdateOutcome(s, modelValid, id, dto, now);
      |o.state.foods| == |s.foods| &&
      (forall k :: 0 <= k < |s.foods| ==>
        o.state.foods[k] == if s.foods[k].id == id then ApplyFoodUpdate(dto, s.foods[k]) else s.foods[k]) &&
      (dto.allergenIds.Some? ==> forall a :: FoodAllergen(id, a) in o.state.foodAllergens <==>
        a in dto.allergenIds.value && HasKey(s.allergens, AllergenId, a)) &&
      (dto.allergenIds.None? ==> o.state.foodAllergens == s.foodAllergens) &&
      (forall l: FoodAllergen :: l.foodId != id ==> (l in o.state.foodAllergens <==> l in s.foodAllergens)) &&
      o.state.(foods := s.foods, foodAllergens := s.foodAllergens, logs := s.logs, nextId := s.nextId) == s
  {
    var entity := Find(s.foods, FoodId, id).value;
    forall k | 0 <= k < |s.foods| && s.foods[k].id == id
      ensures ApplyFoodUpdate(dto, entity) == ApplyFoodUpdate(dto, s.foods[k])
    {
      FoodUpdateIsCreateWithId(dto, entity, s.foods[k]);
    }
    if dto.allergenIds.Some? {
      AttachExisting(id, s.allergens, LinksNotOf(id, s.foodAllergens), dto.allergenIds.value);
    }
  }

  /** `Update` keeps keys, link bounds and name uniqueness. */
  lemma UpdateKeepsInvariants(s: Snapshot, modelValid: bool, id: int, dto: FoodCreateDto, now: int)
    requires ValidState(s)
    ensures ValidState(UpdateOutcome(s, modelValid, id, dto, now).state)
    ensures NamesUnique(s.foods, FoodName) ==> NamesUnique(UpdateOutcome(s, modelValid, id, dto, now).state.foods, FoodName)
  {
    var o := UpdateOutcome(s, modelValid, id, dto, now);
    if modelValid && Find(s.foods, FoodId, id).Some? {
      var entity := Find(s.foods, FoodId, id).value;
      if !EqualsIgnoreCase(entity.name, dto.name) && NameTaken(s.foods, FoodName, dto.name) {
        LoggedValid(s, ErrorLevel, "Food.Update failed: Conflict with " + dto.name, now);
      } else if !HasKey(s.categories, CategoryId, dto.foodCategoryId) {
        LoggedValid(s, ErrorLevel, "Food.Update failed: Invalid FoodCategoryId", now);
      } else {
        var updated := ApplyFoodUpdate(dto, entity);
        ReplacedValid(s, id, updated);
        var replaced := s.(foods := ReplaceKey(s.foods, FoodId, id, updated));
        CreatedLinksValid(replaced, UpdatedLinks(s, id, dto));
        var stored := replaced.(foodAllergens := UpdatedLinks(s, id, dto));
        LoggedValid(stored, InformationLevel, "Food.Update success: id=" + IntToString(id), now);
        if NamesUnique(s.foods, FoodName) {
          DbEqualsFacts(entity.name, dto.name, dto.name);
          RenameKeepsNamesUnique(s.foods, FoodId, FoodName, id, updated);
        }
      }
    }
  }

  /** Replacing a stored food by one with the same id keeps the store valid;
      the id is allocated. */
  lemma ReplacedValid(s: Snapshot, id: int, updated: Food)
    requires ValidState(s) && Find(s.foods, FoodId, id).Some? && updated.id == id
    ensures id < s.nextId
    ensures ValidState(s.(foods := ReplaceKey(s.foods, FoodId, id, updated)))
  {
    ReplaceWellKeyed(s.foods, FoodId, s.nextId, id, updated);
    var i :| 0 <= i < |s.foods| && s.foods[i] == Find(s.foods, FoodId, id).value;
  }

  method Update(db: Database, modelValid: bool, id: int, dto: FoodCreateDto, now: int) returns (r: Response<FoodReadDto>)
    requires db.Valid()
    modifies db
    ensures db.Valid()
    ensures r == UpdateOutcome(old(db.State()), modelValid, id, dto, now).response
    ensures db.State() == UpdateOutcome(old(db.State()), modelValid, id, dto, now).state
  {
    if !modelValid {
      return InvalidModel;
    }
    var entity := Find(db.foods, FoodId, id);
    if entity.None? {
      return NotFound;
    }
    if !EqualsIgnoreCase(entity.value.name, dto.name) {
      var nameTaken := NameTaken(db.foods, FoodName, dto.name);
      if nameTaken {
        Error(db, "Food.Update failed: Conflict with " + dto.name, now);
        return BadRequest(DuplicateMessage);
      }
    }
    var categoryExists := HasKey(db.categories, CategoryId, dto.foodCategoryId);
    if !categoryExists {
      Error(db, "Food.Update failed: Invalid FoodCategoryId", now);
      return BadRequest(InvalidCategoryMessage);
    }
    r := SaveUpdate(db, modelValid, id, entity.value, dto, now);
  }

  /** The success path of `Update`, once every check has passed. */
  method SaveUpdate(db: Database, modelValid: bool, id: int, entity: Food, dto: FoodCreateDto, now: int) returns (r: Response<FoodReadDto>)
    requires db.Valid() && modelValid && Find(db.foods, FoodId, id) == Some(entity)
    requires EqualsIgnoreCase(entity.name, dto.name) || !NameTaken(db.foods, FoodName, dto.name)
    requires HasKey(db.categories, CategoryId, dto.foodCategoryId)
    modifies db
    ensures db.Valid()
    ensures r == UpdateOutcome(old(db.State()), modelValid, id, dto, now).response
    ensures db.State() == UpdateOutcome(old(db.State()), modelValid, id, dto, now).state
  {
    ghost var before := db.State();
    var updated := ApplyFoodUpdate(dto, entity);
    ReplacedValid(before, id, updated);
    ghost var replaced := before.(foods := ReplaceKey(before.foods, FoodId, id, updated));
    ghost var stored := replaced.(foodAllergens := UpdatedLinks(before, id, dto));
    assert UpdateOutcome(before, modelValid, id, dto, now) ==
      Outcome(OkMessage("Successful update of " + updated.name + " in " + IntToString(id)),
        Logged(stored, InformationLevel, "Food.Update success: id=" + IntToString(id), now));
    CreatedLinksValid(replaced, UpdatedLinks(before, id, dto));
    db.foods := ReplaceKey(db.foods, FoodId, id, updated);
    if dto.allergenIds.Some? {
      db.foodAllergens := LinksNotOf(id, db.foodAllergens);
      CreatedLinksValid(replaced, LinksNotOf(id, before.foodAllergens));
      var validAllergenIds := KeysIn(db.allergens, AllergenId, dto.allergenIds.value);
      AddLinks(db, id, validAllergenIds);
    }
    assert db.State() == stored;
    Information(db, "Food.Update success: id=" + IntToString(id), now);
    r := OkMessage("Successful update of " + updated.name + " in " + IntToString(id));
  }

  // ---- Delete ----------------------------------------------------------------

  function DeleteOutcome(s: Snapshot, id: int, now: int): Outcome<FoodReadDto> {
    match Find(s.foods, FoodId, id)
    case None => Outcome(NotFound, s)
    case Some(entity) =>
      var removed := s.(foods := RemoveKey(s.foods, FoodId, id));
      Outcome(OkMessage("Successfully deletion of " + entity.name),
        Logged(removed, InformationLevel, "Food.Delete success: id=" + IntToString(id), now))
  }

  /** `Delete` of an unknown id is 404 with no change; otherwise exactly
      that food row is removed and one log row is appended. */
  lemma DeleteEffect(s: Snapshot, id: int, now: int)
    requires ValidState(s)
    ensures ValidState(DeleteOutcome(s, id, now).state)
    ensures Find(s.foods, FoodId, id).None? ==> DeleteOutcome(s, id, now) == Outcome(NotFound, s)
    ensures Find(s.foods, FoodId, id).Some? ==> DeleteOutcome(s, id, now).response.OkMessage?
    ensures Find(s.foods, FoodId, id).Some? ==> |DeleteOutcome(s, id, now).state.foods| == |s.foods| - 1
    ensures forall f :: f in DeleteOutcome(s, id, now).state.foods <==> f in s.foods && (Find(s.foods, FoodId, id).Some? ==> f.id != id)
    ensures DeleteOutcome(s, id, now).state.(foods := s.foods, logs := s.logs, nextId := s.nextId) == s
  {
    if Find(s.foods, FoodId, id).Some? {
      RemoveKeyWellKeyed(s.foods, FoodId, s.nextId, id);
      var removed := s.(foods := RemoveKey(s.foods, FoodId, id));
      LoggedValid(removed, InformationLevel, "Food.Delete success: id=" + IntToString(id), now);
    }
  }

  method Delete(db: Database, id: int, now: int) returns (r: Response<FoodReadDto>)
    requires db.Valid()
    modifies db
    ensures db.Valid()
    ensures r == DeleteOutcome(old(db.State()), id, now).response
    ensures db.State() == DeleteOutcome(old(db.State()), id, now).state
  {
    var entity := Find(db.foods, FoodId, id);
    if entity.None? {
      return NotFound;
    }
    RemoveKeyWellKeyed(db.foods, FoodId, db.nextId, id);
    db.foods := RemoveKey(db.foods, FoodId, id);
    Information(db, "Food.Delete success: id=" + IntToString(id), now);
    r := OkMessage("Successfully deletion of " + entity.value.name);
  }
}
