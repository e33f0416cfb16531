/** The validation rules declared on the order request body
    (DTO/Order/OrderCreateDto.cs), as model binding applies them: `Items`
    is required and has at least `ItemsRequestMin` entries, and each item's
    `Quantity` lies in [QuantityOfFoodMin, QuantityOfFoodMax]. */
module OrderCreateDto {
  import opened Wrappers
  import opened ValidationConstants

  datatype OrderItemCreateDto = OrderItemCreateDto(foodId: int, quantity: int)

  /** One failed rule: the list is missing, too short, or item `index` has
      a quantity out of range. */
  datatype ValidationError = ItemsRequired | ItemsTooShort | QuantityOutOfRange(index: nat)

  /** `[Range(QuantityOfFoodMin, QuantityOfFoodMax)]` on Quantity. */
  predicate ItemValid(item: OrderItemCreateDto) {
    QuantityOfFoodMin <= item.quantity <= QuantityOfFoodMax
  }

  /** The quantity errors of `items`, whose first element has position `offset`. */
  function ItemErrors(items: seq<OrderItemCreateDto>, offset: nat): (r: seq<ValidationError>)
    ensures forall e :: e in r ==> e.QuantityOutOfRange? && offset <= e.index < offset + |items|
    ensures forall k :: 0 <= k < |items| ==> (QuantityOutOfRange(offset + k) in r <==> !ItemValid(items[k]))
    ensures |r| <= |items|
    decreases |items|
  {
    if |items| == 0 then []
    else
      var rest := ItemErrors(items[1..], offset + 1);
      assert forall k :: 1 <= k < |items| ==> items[1..][k - 1] == items[k];
      if ItemValid(items[0]) then rest else [QuantityOutOfRange(offset)] + rest
  }

  /** Every rule the request body breaks. */
  function Errors(items: Option<seq<OrderItemCreateDto>>): (r: seq<ValidationError>)
    ensures items.None? ==> r == [ItemsRequired]
    ensures items.Some? ==> (ItemsTooShort in r <==> |items.value| < ItemsRequestMin)
    ensures items.Some? ==> forall k :: 0 <= k < |items.value| ==>
      (QuantityOutOfRange(k) in r <==> !ItemValid(items.value[k]))
  {
    match items
    case None => [ItemsRequired]
    case Some(list) => (if |list| < ItemsRequestMin then [ItemsTooShort] else []) + ItemErrors(list, 0)
  }

  /** `ModelState.IsValid` after binding the body. */
  predicate OrderValid(items: Option<seq<OrderItemCreateDto>>) {
    Errors(items) == []
  }

  /** An order is valid exactly when it is present, non-empty and every item
      is valid; one bad item invalidates the whole order. */
  lemma OrderValidIff(items: Option<seq<OrderItemCreateDto>>)
    ensures OrderValid(items) <==>
      items.Some? && |items.value| >= 1 && forall k :: 0 <= k < |items.value| ==> ItemValid(items.value[k])
  {
    if items.Some? && |items.value| >= 1 && forall k :: 0 <= k < |items.value| ==> ItemValid(items.value[k]) {
      var r := Errors(items);
      if r != [] {
        assert r[0] in r;
      }
    }
  }

  /** The quantity bounds are inclusive: 1 and 100 pass, 0 and 101 fail. */
  lemma QuantityBoundaries(foodId: int)
    ensures ItemValid(OrderItemCreateDto(foodId, 1)) && ItemValid(OrderItemCreateDto(foodId, 100))
    ensures !ItemValid(OrderItemCreateDto(foodId, 0)) && !ItemValid(OrderItemCreateDto(foodId, 101))
  {
  }

  /** The empty list fails the minimum-length rule and nothing else. */
  lemma EmptyOrderInvalid()
    ensures Errors(Some([])) == [ItemsTooShort]
    ensures !OrderValid(Some([]))
  {
  }
}
