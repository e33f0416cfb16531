/** The middleware's order endpoints (GrillPizzeriaOrderMiddleware,
    Controllers/OrderController.cs, class OrdersController). `Create` runs
    every check before writing anything, then stores one order row and one
    line item per food; `Delete` removes an order with its line items. The
    request body is read as the controller reads it: a user id and a list
    of food ids. */
module OrdersController {
  import opened Wrappers
  import opened Entities
  import opened Tables
  import opened Ordering
  import opened Store
  import opened MappingProfile
  import opened Responses

  /** The outcome of the checks of `Create`, or `None` when all pass. */
  function CreateRejection(s: Snapshot, modelValid: bool, userId: int, foodIds: Option<seq<int>>): (r: Option<Response<OrderReadDto>>)
    ensures !modelValid ==> r == Some(InvalidModel)
    ensures r.Some? ==> r.value.InvalidModel? || r.value.BadRequest?
  {
    if !modelValid then Some(InvalidModel)
    else if Find(s.users, UserId, userId).None? then Some(BadRequest("Invalid UserId."))
    else if foodIds.None? || |foodIds.value| == 0 then Some(BadRequest("Order must contain at least one food item."))
    else if |KeysIn(s.foods, FoodId, foodIds.value)| != |foodIds.value| then Some(BadRequest("One or more provided FoodIds are invalid."))
    else None
  }

  /** The line items written for order `orderId`, one per food id, in order. */
  function LinesFor(orderId: int, foodIds: seq<int>): (r: seq<OrderFood>)
    ensures |r| == |foodIds|
    ensures forall k :: 0 <= k < |r| ==> r[k] == OrderFood(orderId, foodIds[k], 0)
  {
    if |foodIds| == 0 then [] else LinesFor(orderId, foodIds[..|foodIds| - 1]) + [OrderFood(orderId, foodIds[|foodIds| - 1], 0)]
  }

  /** The food-id check passes exactly when every listed id is a food and
      no id is listed twice: the matched catalog rows are distinct, so a
      repeated id makes the counts differ. */
  lemma FoodIdsAcceptedIff(foods: seq<Food>, foodIds: seq<int>)
    requires KeysUnique(foods, FoodId)
    ensures |KeysIn(foods, FoodId, foodIds)| == |foodIds| <==>
      (forall k :: 0 <= k < |foodIds| ==> HasKey(foods, FoodId, foodIds[k])) && Distinct(foodIds)
  {
    var valid := KeysIn(foods, FoodId, foodIds);
    KeysInUnique(foods, FoodId, foodIds);
    assert Distinct(valid);
    DistinctCardinality(valid);
    DistinctCardinality(foodIds);
    assert Elements(valid) <= Elements(foodIds);
    if |valid| == |foodIds| {
      SubsetCardinality(Elements(valid), Elements(foodIds));
      forall k | 0 <= k < |foodIds| ensures HasKey(foods, FoodId, foodIds[k]) {
        assert foodIds[k] in Elements(foodIds);
      }
    }
    if (forall k :: 0 <= k < |foodIds| ==> HasKey(foods, FoodId, foodIds[k])) && Distinct(foodIds) {
      assert Elements(foodIds) <= Elements(valid);
      assert Elements(foodIds) == Elements(valid);
    }
  }

  /** `Create` accepts exactly a valid model naming an existing user and a
      non-empty list of distinct existing food ids. */
  lemma CreateAcceptedIff(s: Snapshot, modelValid: bool, userId: int, foodIds: Option<seq<int>>)
    requires KeysUnique(s.foods, FoodId)
    ensures CreateRejection(s, modelValid, userId, foodIds).None? <==>
      modelValid && HasKey(s.users, UserId, userId) && foodIds.Some? && |foodIds.value| >= 1 &&
      (forall k :: 0 <= k < |foodIds.value| ==> HasKey(s.foods, FoodId, foodIds.value[k])) && Distinct(foodIds.value)
  {
    HasKeyIsFind(s.users, UserId, userId);
    if foodIds.Some? {
      FoodIdsAcceptedIff(s.foods, foodIds.value);
    }
  }

  /** The action checks the user before the food list, and the food list
      for emptiness before its ids are looked up: an unknown user is
      reported whatever the list holds. */
  lemma CreateCheckOrder(s: Snapshot, userId: int, foodIds: Option<seq<int>>)
    ensures Find(s.users, UserId, userId).None? ==>
      CreateRejection(s, true, userId, foodIds) == Some(BadRequest("Invalid UserId."))
    ensures Find(s.users, UserId, userId).Some? && (foodIds.None? || foodIds.value == []) ==>
      CreateRejection(s, true, userId, foodIds) == Some(BadRequest("Order must contain at least one food item."))
  {
  }

  /** `Create(dto)`: rejects without writing, or stores the order (dated
      `now`, total never assigned) and one line item per matched food id,
      and answers with the order re-read. */
  method Create(db: Database, modelValid: bool, userId: int, foodIds: Option<seq<int>>, now: int)
    returns (r: Response<OrderReadDto>)
    requires db.Valid()
    modifies db
    ensures db.Valid()
    ensures CreateRejection(old(db.State()), modelValid, userId, foodIds).Some? ==>
      r == CreateRejection(old(db.State()), modelValid, userId, foodIds).value && db.State() == old(db.State())
    ensures CreateRejection(old(db.State()), modelValid, userId, foodIds).None? ==>
      var order := Order(old(db.nextId), now, userId, 0);
      db.State() == old(db.State()).(
        orders := old(db.orders) + [order],
        orderFoods := old(db.orderFoods) + LinesFor(order.id, KeysIn(old(db.foods), FoodId, foodIds.value)),
        nextId := old(db.nextId) + 1) &&
      r == Created(OrderRead(order, db.orderFoods, db.foods))
  {
    if !modelValid {
      return InvalidModel;
    }
    if Find(db.users, UserId, userId).None? {
      return BadRequest("Invalid UserId.");
    }
    if foodIds.None? || |foodIds.value| == 0 {
      return BadRequest("Order must contain at least one food item.");
    }
    var validFoodIds := KeysIn(db.foods, FoodId, foodIds.value);
    if |validFoodIds| != |foodIds.value| {
      return BadRequest("One or more provided FoodIds are invalid.");
    }
    assert CreateRejection(db.State(), modelValid, userId, foodIds).None?;
    r := SaveOrder(db, userId, validFoodIds, now);
  }

  /** The writes of `Create` once every check has passed: the order row
      under a fresh id, then its line items. */
  method SaveOrder(db: Database, userId: int, foodIds: seq<int>, now: int) returns (r: Response<OrderReadDto>)
    requires db.Valid()
    modifies db
    ensures db.Valid()
    ensures var order := Order(old(db.nextId), now, userId, 0);
      db.State() == old(db.State()).(
        orders := old(db.orders) + [order],
        orderFoods := old(db.orderFoods) + LinesFor(order.id, foodIds),
        nextId := old(db.nextId) + 1) &&
      r == Created(OrderRead(order, db.orderFoods, db.foods))
  {
    AppendWellKeyed(db.orders, OrderId, db.nextId, Order(db.nextId, now, userId, 0));
    var id := db.NewId();
    var order := Order(id, now, userId, 0);
    db.orders := db.orders + [order];
    AddLines(db, id, foodIds);
    r := Created(OrderRead(order, db.orderFoods, db.foods));
  }

  /** The foreach adding one OrderFood row per valid food id, in order. */
  method AddLines(db: Database, id: int, ids: seq<int>)
    requires db.Valid()
    modifies db
    ensures db.Valid()
    ensures db.State() == old(db.State()).(orderFoods := old(db.orderFoods) + LinesFor(id, ids))
  {
    var k := 0;
    while k < |ids|
      invariant 0 <= k <= |ids|
      invariant db.State() == old(db.State()).(orderFoods := old(db.orderFoods) + LinesFor(id, ids[..k]))
      invariant db.Valid()
    {
      assert ids[..k + 1][..k] == ids[..k];
      db.orderFoods := db.orderFoods + [OrderFood(id, ids[k], 0)];
      k := k + 1;
    }
    assert ids[..|ids|] == ids;
  }

  /** The line items not belonging to order `id`. */
  function LinesNotOf(id: int, orderFoods: seq<OrderFood>): (r: seq<OrderFood>)
    ensures forall x :: x in r <==> x in orderFoods && x.orderId != id
  {
    Filter(orderFoods, (x: OrderFood) => x.orderId != id)
  }

  /** After a delete the order is gone, it has no line items left, the
      other orders' line items are all kept with their multiplicities, and
      exactly one order row fewer remains. */
  lemma DeleteEffect(s: Snapshot, id: int)
    requires WellKeyed(s.orders, OrderId, s.nextId) && Find(s.orders, OrderId, id).Some?
    ensures Find(RemoveKey(s.orders, OrderId, id), OrderId, id).None?
    ensures |RemoveKey(s.orders, OrderId, id)| == |s.orders| - 1
    ensures forall x :: x in RemoveKey(s.orders, OrderId, id) <==> x in s.orders && x.id != id
    ensures LinesOf(id, LinesNotOf(id, s.orderFoods)) == []
    ensures forall x: OrderFood :: x.orderId != id ==> multiset(LinesNotOf(id, s.orderFoods))[x] == multiset(s.orderFoods)[x]
  {
    RemoveKeyWellKeyed(s.orders, OrderId, s.nextId, id);
    NoLinesLeft(id, s.orderFoods);
    OtherLinesKept(id, s.orderFoods);
  }

  lemma NoLinesLeft(id: int, orderFoods: seq<OrderFood>)
    ensures LinesOf(id, LinesNotOf(id, orderFoods)) == []
  {
    var gone := LinesOf(id, LinesNotOf(id, orderFoods));
    assert forall x :: multiset(gone)[x] == 0;
    assert multiset(gone) == multiset{};
  }

  lemma OtherLinesKept(id: int, orderFoods: seq<OrderFood>)
    ensures forall x: OrderFood :: x.orderId != id ==> multiset(LinesNotOf(id, orderFoods))[x] == multiset(orderFoods)[x]
  {
  }

  /** `Delete(id)`: 404 for an unknown order, otherwise removes its line
      items and the order row and answers 204. */
  method Delete(db: Database, id: int) returns (r: Response<OrderReadDto>)
    requires db.Valid()
    modifies db
    ensures db.Valid()
    ensures Find(old(db.orders), OrderId, id).None? ==> r == NotFound && db.State() == old(db.State())
    ensures Find(old(db.orders), OrderId, id).Some? ==>
      r == NoContent &&
      db.State() == old(db.State()).(
        orders := RemoveKey(old(db.orders), OrderId, id),
        orderFoods := LinesNotOf(id, old(db.orderFoods)))
  {
    var order := Find(db.orders, OrderId, id);
    if order.None? {
      return NotFound;
    }
    RemoveKeyWellKeyed(db.orders, OrderId, db.nextId, id);
    db.orderFoods := LinesNotOf(id, db.orderFoods);
    db.orders := RemoveKey(db.orders, OrderId, id);
    r := NoContent;
  }

  function NewestOrderFirst(o: Order): SortKey {
    SortKey("", -o.orderDate)
  }

  /** `GetAll()`: every order, newest first, each read with its items. */
  function GetAll(s: Snapshot): (r: seq<OrderReadDto>)
    ensures |r| == |s.orders|
    ensures forall k :: 0 <= k < |r| ==> r[k] == OrderRead(SortByKey(s.orders, NewestOrderFirst)[k], s.orderFoods, s.foods)
  {
    var sorted := SortByKey(s.orders, NewestOrderFirst);
    seq(|sorted|, k requires 0 <= k < |sorted| => OrderRead(sorted[k], s.orderFoods, s.foods))
  }

  /** `GetAll` lists every order once, with dates not increasing. */
  lemma GetAllNewestFirst(s: Snapshot)
    ensures multiset(SortByKey(s.orders, NewestOrderFirst)) == multiset(s.orders)
    ensures forall i, j :: 0 <= i < j < |GetAll(s)| ==> GetAll(s)[i].orderDate >= GetAll(s)[j].orderDate
  {
    var sorted := SortByKey(s.orders, NewestOrderFirst);
    SortByKeySorted(s.orders, NewestOrderFirst);
    forall i, j | 0 <= i < j < |sorted| ensures sorted[i].orderDate >= sorted[j].orderDate {
      assert KeyLe(NewestOrderFirst(sorted[i]), NewestOrderFirst(sorted[j]));
    }
  }

  /** `GetById(id)`: the order read with its items, or 404. */
  function GetById(s: Snapshot, id: int): (r: Response<OrderReadDto>)
    ensures Find(s.orders, OrderId, id).None? <==> r == NotFound
    ensures r.Ok? ==> r.body.id == id
  {
    match Find(s.orders, OrderId, id)
    case None => NotFound
    case Some(o) => Ok(OrderRead(o, s.orderFoods, s.foods))
  }
}
