/** The bounds shared by the entities, DTOs and controllers (ModelConstants/ValidationConstants.cs). */
module ValidationConstants {

  // [Log]
  const LevelLogMaxLength := 20
  const MessageLogMaxLength := 255

  // [User] and every other name-like column
  const NameMaxLength := 100
  const DescriptionMaxLength := 1000
  const ImagePathMaxLength := 255
  const EmailMaxLength := 255
  const PasswordHashMaxLength := 255
  const PhoneMaxLength := 40
  const PasswordPlainMinLength := 6
  const PasswordPlainMaxLength := 100

  // [Role]
  const RoleNameMaxLength := 20

  // Price columns of [Food] and [Order]: decimal(10, 2)
  const PriceDecimalInteger := 10
  const PriceDecimalFraction := 2

  // [Order]: minimum number of items in a create request
  const ItemsRequestMin := 1

  // [OrderFood]: quantity range
  const QuantityOfFoodMin := 1
  const QuantityOfFoodMax := 100

  /** Clamps a quantity into [QuantityOfFoodMin, QuantityOfFoodMax], as
      `Math.Min(Max, Math.Max(Min, q))` does. */
  function ClampQuantity(q: int): (r: int)
    ensures QuantityOfFoodMin <= r <= QuantityOfFoodMax
    ensures QuantityOfFoodMin <= q <= QuantityOfFoodMax ==> r == q
    ensures q < QuantityOfFoodMin ==> r == QuantityOfFoodMin
    ensures q > QuantityOfFoodMax ==> r == QuantityOfFoodMax
  {
    var atLeastMin := if q < QuantityOfFoodMin then QuantityOfFoodMin else q;
    if atLeastMin < QuantityOfFoodMax then atLeastMin else QuantityOfFoodMax
  }
}
