/** The shopping cart of the web front end (GrillPizzeriaOrderWebApp,
    Controllers/OrderController.cs). The cart lives in the "Cart" cookie as
    a list of (foodId, quantity) items; `AddItem` and `RemoveItem` update
    that list in place and answer with the total quantity, `GetCart` prices
    it against the menu, and `CreateOrder` submits it. JSON serialisation of
    the cookie is abstracted away: the cookie holds the item list itself. */
module WebOrderController {
  import opened Wrappers
  import opened ValidationConstants
  import opened ApiOperationResult
  import Int32

  datatype CartItem = CartItem(foodId: int, quantity: int)

  /** The JSON reply of an item update: `{ success = false, message }` or
      `{ success = true, count }`. */
  datatype CartReply = Rejected(message: string) | Counted(count: int)

  /** `Sum(i => i.quantity)`. */
  function QuantitySum(items: seq<CartItem>): int {
    if |items| == 0 then 0 else QuantitySum(items[..|items| - 1]) + items[|items| - 1].quantity
  }

  /** `FirstOrDefault(i => i.foodId == foodId)`, as a position. */
  function IndexOfFood(items: seq<CartItem>, foodId: int): (r: Option<nat>)
    ensures r.Some? ==> r.value < |items| && items[r.value].foodId == foodId
    ensures r.Some? ==> forall k :: 0 <= k < r.value ==> items[k].foodId != foodId
    ensures r.None? <==> forall k :: 0 <= k < |items| ==> items[k].foodId != foodId
  {
    if |items| == 0 then None
    else if items[0].foodId == foodId then Some(0)
    else
      var r := IndexOfFood(items[1..], foodId);
      assert forall k :: 1 <= k < |items| ==> items[1..][k - 1] == items[k];
      if r.Some? then Some(r.value + 1) else None
  }

  /** The items of the cart in the cookie; no cookie is no items. */
  function Stored(cookie: Option<seq<CartItem>>): seq<CartItem> {
    if cookie.Some? then cookie.value else []
  }

  /** The upsert of `AddItem`: a new item of quantity 1, or the first
      matching item's quantity plus one (a 32-bit addition, which wraps),
      clamped to the allowed range. */
  function Added(items: seq<CartItem>, foodId: int): seq<CartItem> {
    match IndexOfFood(items, foodId)
    case None => items + [CartItem(foodId, 1)]
    case Some(i) => items[i := CartItem(foodId, ClampQuantity(Int32.Wrap(items[i].quantity + 1)))]
  }

  /** The change of `RemoveItem` to a cart holding `foodId`: the quantity
      minus one (clamped) when above 1, else the item is removed. */
  function Removed(items: seq<CartItem>, foodId: int): seq<CartItem>
    requires IndexOfFood(items, foodId).Some?
  {
    var i := IndexOfFood(items, foodId).value;
    if items[i].quantity > 1 then items[i := CartItem(foodId, ClampQuantity(items[i].quantity - 1))]
    else items[..i] + items[i + 1..]
  }

  /** The cart invariant: positive food ids, at most one item per food and
      every quantity in range. */
  ghost predicate WellFormed(items: seq<CartItem>) {
    (forall k :: 0 <= k < |items| ==> items[k].foodId > 0) &&
    (forall k :: 0 <= k < |items| ==> QuantityOfFoodMin <= items[k].quantity <= QuantityOfFoodMax) &&
    (forall j, k :: 0 <= j < k < |items| ==> items[j].foodId != items[k].foodId)
  }

  // ---- sums ------------------------------------------------------------------

  lemma {:induction false} QuantitySumAppend(a: seq<CartItem>, b: seq<CartItem>)
    ensures QuantitySum(a + b) == QuantitySum(a) + QuantitySum(b)
    decreases |b|
  {
    if |b| == 0 {
      assert a + b == a;
    } else {
      assert (a + b)[..|a + b| - 1] == a + b[..|b| - 1];
      assert (a + b)[|a + b| - 1] == b[|b| - 1];
      QuantitySumAppend(a, b[..|b| - 1]);
      assert QuantitySum(a + b) == QuantitySum(a + b[..|b| - 1]) + b[|b| - 1].quantity;
    }
  }

  /** A cart is the items before `i`, item `i`, and the items after it. */
  lemma SplitAround(items: seq<CartItem>, i: int)
    requires 0 <= i < |items|
    ensures items == (items[..i] + [items[i]]) + items[i + 1..]
  {
    assert items[..i + 1] == items[..i] + [items[i]];
    assert items == items[..i + 1] + items[i + 1..];
  }

  /** Replacing item `i` changes the sum by the difference of the quantities. */
  lemma QuantitySumUpdate(items: seq<CartItem>, i: int, x: CartItem)
    requires 0 <= i < |items|
    ensures QuantitySum(items[i := x]) == QuantitySum(items) - items[i].quantity + x.quantity
  {
    var front := items[..i];
    var back := items[i + 1..];
    SplitAround(items, i);
    SplitAround(items[i := x], i);
    assert items[i := x][..i] == front && items[i := x][i + 1..] == back;
    QuantitySumAppend(front + [items[i]], back);
    QuantitySumAppend(front, [items[i]]);
    QuantitySumAppend(front + [x], back);
    QuantitySumAppend(front, [x]);
    assert QuantitySum([items[i]]) == items[i].quantity by {
      assert [items[i]][..0] == [];
    }
    assert QuantitySum([x]) == x.quantity by {
      assert [x][..0] == [];
    }
  }

  lemma QuantitySumRemove(items: seq<CartItem>, i: int)
    requires 0 <= i < |items|
    ensures QuantitySum(items[..i] + items[i + 1..]) == QuantitySum(items) - items[i].quantity
  {
    var front := items[..i];
    var back := items[i + 1..];
    SplitAround(items, i);
    QuantitySumAppend(front + [items[i]], back);
    QuantitySumAppend(front, [items[i]]);
    QuantitySumAppend(front, back);
    assert QuantitySum([items[i]]) == items[i].quantity by {
      assert [items[i]][..0] == [];
    }
  }

  // ---- properties of the cart operations -------------------------------------

  /** `AddItem` keeps the cart well formed and never leaves it empty. */
  lemma AddedWellFormed(items: seq<CartItem>, foodId: int)
    requires WellFormed(items) && foodId > 0
    ensures WellFormed(Added(items, foodId)) && |Added(items, foodId)| >= 1
  {
    var r := IndexOfFood(items, foodId);
    if r.None? {
      var a := items + [CartItem(foodId, 1)];
      assert Added(items, foodId) == a;
      assert forall k :: 0 <= k < |items| ==> a[k] == items[k];
    } else {
      var i := r.value;
      ReplaceWellFormed(items, i, ClampQuantity(Int32.Wrap(items[i].quantity + 1)));
      assert Added(items, foodId) == items[i := CartItem(items[i].foodId, ClampQuantity(Int32.Wrap(items[i].quantity + 1)))];
    }
  }

  /** Adding a new food appends one item of quantity 1; adding a present
      food raises its quantity by one up to 100; other items never change. */
  lemma AddedEffect(items: seq<CartItem>, foodId: int)
    ensures IndexOfFood(items, foodId).None? ==> Added(items, foodId) == items + [CartItem(foodId, 1)]
    ensures IndexOfFood(items, foodId).Some? ==>
      var i := IndexOfFood(items, foodId).value;
      |Added(items, foodId)| == |items| &&
      Added(items, foodId)[i].quantity == (var q := Int32.Wrap(items[i].quantity + 1);
                                           if q > QuantityOfFoodMax then QuantityOfFoodMax
                                           else if q < QuantityOfFoodMin then QuantityOfFoodMin
                                           else q) &&
      forall k :: 0 <= k < |items| && k != i ==> Added(items, foodId)[k] == items[k]
  {
  }

  /** A cookie item at `int.MaxValue` wraps to `int.MinValue` on the
      increment and is clamped up to 1, not down to 100. */
  lemma AddedAtMaxWraps()
    ensures Added([CartItem(7, Int32.Int32Max)], 7) == [CartItem(7, QuantityOfFoodMin)]
  {
    assert IndexOfFood([CartItem(7, Int32.Int32Max)], 7) == Some(0);
    assert Int32.Wrap(Int32.Int32Max + 1) == Int32.Int32Min;
  }

  /** In a well-formed cart the count grows by one, except at the 100 cap. */
  lemma AddedCount(items: seq<CartItem>, foodId: int)
    requires WellFormed(items)
    ensures QuantitySum(Added(items, foodId)) == QuantitySum(items) +
      (if IndexOfFood(items, foodId).Some? && items[IndexOfFood(items, foodId).value].quantity == QuantityOfFoodMax then 0 else 1)
  {
    var r := IndexOfFood(items, foodId);
    if r.None? {
      assert Added(items, foodId) == items + [CartItem(foodId, 1)];
      QuantitySumAppend(items, [CartItem(foodId, 1)]);
      assert QuantitySum([CartItem(foodId, 1)]) == 1;
    } else {
      var i := r.value;
      var q := items[i].quantity;
      assert QuantityOfFoodMin <= q <= QuantityOfFoodMax;
      assert Int32.Wrap(q + 1) == q + 1 by { assert Int32.InRange(q + 1); }
      var x := CartItem(foodId, ClampQuantity(Int32.Wrap(q + 1)));
      assert x.quantity == if q == QuantityOfFoodMax then q else q + 1;
      assert Added(items, foodId) == items[i := x];
      QuantitySumUpdate(items, i, x);
    }
  }

  /** The first item for a food is the one at `i` when no earlier item matches. */
  lemma IndexOfFoodAt(items: seq<CartItem>, foodId: int, i: int)
    requires 0 <= i < |items| && items[i].foodId == foodId
    requires forall k :: 0 <= k < i ==> items[k].foodId != foodId
    ensures IndexOfFood(items, foodId) == Some(i)
  {
  }

  /** Dropping one item of a well-formed cart leaves it well formed. */
  lemma DropWellFormed(items: seq<CartItem>, i: int)
    requires WellFormed(items) && 0 <= i < |items|
    ensures WellFormed(items[..i] + items[i + 1..])
  {
    var r := items[..i] + items[i + 1..];
    assert forall k :: 0 <= k < |r| ==> r[k] == if k < i then items[k] else items[k + 1];
  }

  /** Changing the quantity of one item, within range, keeps the cart well formed. */
  lemma ReplaceWellFormed(items: seq<CartItem>, i: int, q: int)
    requires WellFormed(items) && 0 <= i < |items|
    requires QuantityOfFoodMin <= q <= QuantityOfFoodMax
    ensures WellFormed(items[i := CartItem(items[i].foodId, q)])
  {
  }

  /** `RemoveItem` lowers a quantity above 1 by one and removes an item of
      quantity 1 (or less). */
  lemma RemovedShape(items: seq<CartItem>, foodId: int)
    requires WellFormed(items) && IndexOfFood(items, foodId).Some?
    ensures var i := IndexOfFood(items, foodId).value;
      if items[i].quantity > 1 then Removed(items, foodId) == items[i := CartItem(foodId, items[i].quantity - 1)]
      else Removed(items, foodId) == items[..i] + items[i + 1..]
  {
    var i := IndexOfFood(items, foodId).value;
    if items[i].quantity > 1 {
      assert items[i].quantity <= QuantityOfFoodMax;
      assert ClampQuantity(items[i].quantity - 1) == items[i].quantity - 1;
    }
  }

  /** `RemoveItem` keeps the cart well formed. */
  lemma RemovedWellFormed(items: seq<CartItem>, foodId: int)
    requires WellFormed(items) && IndexOfFood(items, foodId).Some?
    ensures WellFormed(Removed(items, foodId))
  {
    RemovedShape(items, foodId);
    var i := IndexOfFood(items, foodId).value;
    var q := items[i].quantity;
    if q > 1 {
      ReplaceWellFormed(items, i, q - 1);
      assert Removed(items, foodId) == items[i := CartItem(items[i].foodId, q - 1)];
    } else {
      DropWellFormed(items, i);
    }
  }

  /** In a well-formed cart the count goes down by exactly one. */
  lemma RemovedCount(items: seq<CartItem>, foodId: int)
    requires WellFormed(items) && IndexOfFood(items, foodId).Some?
    ensures QuantitySum(Removed(items, foodId)) == QuantitySum(items) - 1
  {
    var i := IndexOfFood(items, foodId).value;
    if items[i].quantity > 1 {
      QuantitySumUpdate(items, i, CartItem(foodId, ClampQuantity(items[i].quantity - 1)));
    } else {
      QuantitySumRemove(items, i);
    }
  }

  lemma RemoveUndoesAppend(items: seq<CartItem>, foodId: int)
    requires IndexOfFood(items, foodId).None?
    ensures IndexOfFood(items + [CartItem(foodId, 1)], foodId) == Some(|items|)
    ensures Removed(items + [CartItem(foodId, 1)], foodId) == items
  {
    var a := items + [CartItem(foodId, 1)];
    IndexOfFoodAt(a, foodId, |items|);
    assert a[..|items|] == items && a[|items| + 1..] == [];
  }

  lemma RemoveUndoesIncrement(items: seq<CartItem>, foodId: int, i: nat)
    requires IndexOfFood(items, foodId) == Some(i)
    requires QuantityOfFoodMin <= items[i].quantity < QuantityOfFoodMax
    ensures IndexOfFood(items[i := CartItem(foodId, items[i].quantity + 1)], foodId) == Some(i)
    ensures Removed(items[i := CartItem(foodId, items[i].quantity + 1)], foodId) == items
  {
    var a := items[i := CartItem(foodId, items[i].quantity + 1)];
    IndexOfFoodAt(a, foodId, i);
    assert ClampQuantity(items[i].quantity) == items[i].quantity;
    assert a[i := CartItem(foodId, items[i].quantity)] == items;
  }

  /** Removing a food just added undoes the addition (below the 100 cap). */
  lemma RemoveUndoesAdd(items: seq<CartItem>, foodId: int)
    requires WellFormed(items)
    requires forall k :: 0 <= k < |items| && items[k].foodId == foodId ==> items[k].quantity < QuantityOfFoodMax
    ensures IndexOfFood(Added(items, foodId), foodId).Some?
    ensures Removed(Added(items, foodId), foodId) == items
  {
    var r := IndexOfFood(items, foodId);
    if r.None? {
      assert Added(items, foodId) == items + [CartItem(foodId, 1)];
      RemoveUndoesAppend(items, foodId);
    } else {
      var i := r.value;
      assert QuantityOfFoodMin <= items[i].quantity < QuantityOfFoodMax;
      assert Int32.Wrap(items[i].quantity + 1) == items[i].quantity + 1 by { assert Int32.InRange(items[i].quantity + 1); }
      assert ClampQuantity(Int32.Wrap(items[i].quantity + 1)) == items[i].quantity + 1;
      assert Added(items, foodId) == items[i := CartItem(foodId, items[i].quantity + 1)];
      RemoveUndoesIncrement(items, foodId, i);
    }
  }

  // ---- pricing ---------------------------------------------------------------

  /** What the food service returns for a food id: name, price in
      hundredths, allergen names and category name. */
  datatype MenuFood = MenuFood(name: string, price: int, allergens: seq<string>, category: string)

  /** One priced line of the cart summary. */
  datatype CartLine = CartLine(
    foodId: int,
    foodName: string,
    quantity: int,
    unitPrice: int,
    totalPrice: int,
    allergens: seq<string>,
    category: string)

  datatype CartView = CartView(lines: seq<CartLine>, totalPrice: int)

  function LineOf(item: CartItem, food: MenuFood): (r: CartLine)
    ensures r.foodId == item.foodId && r.quantity == item.quantity
    ensures r.unitPrice == food.price && r.totalPrice == food.price * item.quantity
  {
    CartLine(item.foodId, food.name, item.quantity, food.price, food.price * item.quantity, food.allergens, food.category)
  }

  /** The priced lines: one per item whose food the menu knows, in cart order. */
  function Lines(items: seq<CartItem>, menu: map<int, MenuFood>): seq<CartLine> {
    if |items| == 0 then []
    else
      var last := items[|items| - 1];
      Lines(items[..|items| - 1], menu) + (if last.foodId in menu then [LineOf(last, menu[last.foodId])] else [])
  }

  /** Sum of price times quantity over the items whose food is known. */
  function CartTotal(items: seq<CartItem>, menu: map<int, MenuFood>): int {
    if |items| == 0 then 0
    else
      var last := items[|items| - 1];
      CartTotal(items[..|items| - 1], menu) + (if last.foodId in menu then menu[last.foodId].price * last.quantity else 0)
  }

  function LinesTotal(lines: seq<CartLine>): int {
    if |lines| == 0 then 0 else LinesTotal(lines[..|lines| - 1]) + lines[|lines| - 1].totalPrice
  }

  lemma {:induction false} LinesTotalAppend(a: seq<CartLine>, b: seq<CartLine>)
    ensures LinesTotal(a + b) == LinesTotal(a) + LinesTotal(b)
    decreases |b|
  {
    if |b| == 0 {
      assert a + b == a;
    } else {
      assert (a + b)[..|a + b| - 1] == a + b[..|b| - 1];
      assert (a + b)[|a + b| - 1] == b[|b| - 1];
      LinesTotalAppend(a, b[..|b| - 1]);
      assert LinesTotal(a + b) == LinesTotal(a + b[..|b| - 1]) + b[|b| - 1].totalPrice;
    }
  }

  /** The summary's total is the sum of its lines' totals, every line is
      for a known food and priced at the menu price, and there is one line
      per known item. */
  lemma {:induction false} CartTotalMatchesLines(items: seq<CartItem>, menu: map<int, MenuFood>)
    ensures CartTotal(items, menu) == LinesTotal(Lines(items, menu))
    ensures forall k :: 0 <= k < |Lines(items, menu)| ==>
      Lines(items, menu)[k].foodId in menu &&
      Lines(items, menu)[k].unitPrice == menu[Lines(items, menu)[k].foodId].price &&
      Lines(items, menu)[k].totalPrice == Lines(items, menu)[k].unitPrice * Lines(items, menu)[k].quantity
    ensures |Lines(items, menu)| <= |items|
    decreases |items|
  {
    if |items| > 0 {
      var front := items[..|items| - 1];
      var last := items[|items| - 1];
      CartTotalMatchesLines(front, menu);
      var extra := if last.foodId in menu then [LineOf(last, menu[last.foodId])] else [];
      LinesTotalAppend(Lines(front, menu), extra);
    }
  }

  /** An item whose food is unknown is skipped: it adds no line and nothing
      to the total. An empty cart costs 0. */
  lemma UnknownFoodSkipped(items: seq<CartItem>, item: CartItem, menu: map<int, MenuFood>)
    requires item.foodId !in menu
    ensures CartTotal(items + [item], menu) == CartTotal(items, menu)
    ensures Lines(items + [item], menu) == Lines(items, menu)
    ensures CartTotal([], menu) == 0 && Lines([], menu) == []
  {
    assert (items + [item])[..|items|] == items;
  }

  // ---- the controller ----------------------------------------------------------

  method SumQuantities(items: seq<CartItem>) returns (total: int)
    ensures total == QuantitySum(items)
  {
    total := 0;
    var k := 0;
    while k < |items|
      invariant 0 <= k <= |items|
      invariant total == QuantitySum(items[..k])
    {
      assert items[..k + 1][..k] == items[..k];
      total := total + items[k].quantity;
      k := k + 1;
    }
    assert items[..|items|] == items;
  }

  /** The search for the first item of a food: its position, or the
      length of the cart when there is none. */
  method FindFood(items: seq<CartItem>, foodId: int) returns (i: int)
    ensures 0 <= i <= |items|
    ensures i == |items| <==> IndexOfFood(items, foodId).None?
    ensures i < |items| ==> IndexOfFood(items, foodId) == Some(i)
  {
    i := 0;
    while i < |items| && items[i].foodId != foodId
      invariant 0 <= i <= |items|
      invariant forall k :: 0 <= k < i ==> items[k].foodId != foodId
    {
      i := i + 1;
    }
    if i < |items| {
      IndexOfFoodAt(items, foodId, i);
    }
  }

  /** The reply of `CreateOrder`. */
  datatype SubmitReply = SubmitRejected(message: string) | Submitted

  const InvalidFoodMessage := "Invalid food or quantity."

  class CartSession {
    /** The "Cart" cookie: its items, or `None` when the cookie is absent. */
    var cookie: Option<seq<CartItem>>

    /** Carts written by this controller are non-empty and well formed. */
    ghost predicate Valid()
      reads this
    {
      cookie.Some? ==> |cookie.value| >= 1 && WellFormed(cookie.value)
    }

    constructor ()
      ensures cookie.None? && Valid()
    {
      cookie := None;
    }

    /** `AddItem(foodId)`. */
    method AddItem(foodId: int) returns (reply: CartReply)
      modifies this
      ensures foodId <= 0 ==> reply == Rejected(InvalidFoodMessage) && cookie == old(cookie)
      ensures foodId > 0 ==> cookie == Some(Added(Stored(old(cookie)), foodId))
      ensures foodId > 0 ==> reply == Counted(QuantitySum(Added(Stored(old(cookie)), foodId)))
      ensures old(Valid()) ==> Valid()
    {
      if foodId <= 0 {
        return Rejected(InvalidFoodMessage);
      }
      var items := if cookie.Some? then cookie.value else [];
      ghost var before := items;
      var i := FindFood(items, foodId);
      if i == |items| {
        items := items + [CartItem(foodId, 1)];
      } else {
        var newQty := Int32.Wrap(items[i].quantity + 1);
        items := items[i := CartItem(foodId, ClampQuantity(newQty))];
      }
      assert items == Added(before, foodId);
      cookie := Some(items);
      if old(Valid()) { AddedWellFormed(before, foodId); }
      var count := SumQuantities(items);
      reply := Counted(count);
    }

    /** `RemoveItem(foodId)`; the cookie is deleted when the cart becomes empty. */
    method RemoveItem(foodId: int) returns (reply: CartReply)
      modifies this
      ensures foodId <= 0 ==> reply == Rejected(InvalidFoodMessage) && cookie == old(cookie)
      ensures foodId > 0 && Stored(old(cookie)) == [] ==> reply == Rejected("Cart is empty.") && cookie == old(cookie)
      ensures foodId > 0 && Stored(old(cookie)) != [] && IndexOfFood(Stored(old(cookie)), foodId).None? ==>
        reply == Rejected("Item not found in cart.") && cookie == old(cookie)
      ensures foodId > 0 && IndexOfFood(Stored(old(cookie)), foodId).Some? ==>
        var rest := Removed(Stored(old(cookie)), foodId);
        cookie == (if rest == [] then None else Some(rest)) && reply == Counted(QuantitySum(rest))
      ensures old(Valid()) ==> Valid()
    {
      if foodId <= 0 {
        return Rejected(InvalidFoodMessage);
      }
      if cookie.None? || |cookie.value| == 0 {
        return Rejected("Cart is empty.");
      }
      var items := cookie.value;
      ghost var before := items;
      var i := FindFood(items, foodId);
      if i == |items| {
        return Rejected("Item not found in cart.");
      }
      if items[i].quantity > 1 {
        var newQty := items[i].quantity - 1;
        items := items[i := CartItem(foodId, ClampQuantity(newQty))];
      } else {
        items := items[..i] + items[i + 1..];
      }
      assert items == Removed(before, foodId);
      if old(Valid()) { RemovedWellFormed(before, foodId); }
      if |items| > 0 {
        cookie := Some(items);
      } else {
        cookie := None;
      }
      var count := SumQuantities(items);
      reply := Counted(count);
    }

    /** `GetCart()`: prices each item through the food service (`menu`),
      skipping foods it does not return. */
    method GetCart(menu: map<int, MenuFood>) returns (view: CartView)
      ensures view == CartView(Lines(Stored(cookie), menu), CartTotal(Stored(cookie), menu))
    {
      var items := if cookie.Some? then cookie.value else [];
      if |items| == 0 {
        return CartView([], 0);
      }
      var lines: seq<CartLine> := [];
      var totalPrice := 0;
      var k := 0;
      while k < |items|
        invariant 0 <= k <= |items|
        invariant lines == Lines(items[..k], menu)
        invariant totalPrice == CartTotal(items[..k], menu)
      {
        assert items[..k + 1][..k] == items[..k];
        var item := items[k];
        if item.foodId in menu {
          var food := menu[item.foodId];
          var itemTotal := food.price * item.quantity;
          totalPrice := totalPrice + itemTotal;
          lines := lines + [LineOf(item, food)];
        }
        k := k + 1;
      }
      assert items[..|items|] == items;
      view := CartView(lines, totalPrice);
    }

    /** `CreateOrder()`: refuses an empty cart, otherwise submits it through
      the order service (`submit`) and deletes the cookie on success. */
    method CreateOrder(submit: seq<CartItem> -> ApiResult) returns (reply: SubmitReply)
      modifies this
      ensures Stored(old(cookie)) == [] ==> reply == SubmitRejected("Cart is empty") && cookie == old(cookie)
      ensures Stored(old(cookie)) != [] && submit(Stored(old(cookie))).succeeded ==> reply == Submitted && cookie.None?
      ensures Stored(old(cookie)) != [] && !submit(Stored(old(cookie))).succeeded ==>
        reply == SubmitRejected(submit(Stored(old(cookie))).message.GetOr("Order creation failed.")) && cookie == old(cookie)
      ensures old(Valid()) ==> Valid()
    {
      if cookie.None? || |cookie.value| == 0 {
        return SubmitRejected("Cart is empty");
      }
      var response := submit(cookie.value);
      if !response.succeeded {
        return SubmitRejected(response.message.GetOr("Order creation failed."));
      }
      cookie := None;
      reply := Submitted;
    }
  }

  /** The empty-cart guard only ever fires on a cart that has no cookie:
      a cart written by `AddItem` or `RemoveItem` has at least one item. */
  lemma GuardOnlyWithoutCookie(cookie: Option<seq<CartItem>>)
    requires cookie.Some? ==> |cookie.value| >= 1
    ensures Stored(cookie) == [] <==> cookie.None?
  {
  }
}
