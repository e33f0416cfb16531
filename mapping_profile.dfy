/** The object mappings of MappingProfile.cs, each as a function from the
    source object (and the rows its navigation properties load) to the
    destination. Where a navigation property has no row, AutoMapper's null
    substitution yields null (`None`) or zero. */
module MappingProfile {
  import opened Wrappers
  import opened Entities
  import opened Tables

  // ---- User ----------------------------------------------------------------

  datatype UserReadDto = UserReadDto(
    id: int,
    username: string,
    email: string,
    firstName: string,
    lastName: string,
    phone: string,
    creationDate: int,
    roleName: Option<string>)

  datatype UserUpdateDto = UserUpdateDto(email: string, firstName: string, lastName: string, phone: string)

  /** `User -> UserReadDto`; RoleName is the name of the user's role. The
      DTO's CreationDate matches no member of User (which has DateCreation),
      so it keeps its default. */
  function UserRead(u: User, roles: seq<Role>): (r: UserReadDto)
    ensures r.id == u.id && r.username == u.username && r.email == u.email
    ensures r.firstName == u.firstName && r.lastName == u.lastName && r.phone == u.phone
    ensures r.creationDate == DefaultDateTime
    ensures r.roleName.Some? <==> exists i :: 0 <= i < |roles| && roles[i].id == u.roleId
    ensures r.roleName.Some? ==> exists i :: 0 <= i < |roles| && roles[i].id == u.roleId && roles[i].name == r.roleName.value
  {
    var role := Find(roles, RoleId, u.roleId);
    UserReadDto(u.id, u.username, u.email, u.firstName, u.lastName, u.phone, DefaultDateTime,
      if role.Some? then Some(role.value.name) else None)
  }

  /** `Map(UserUpdateDto, User)`: copies Email, FirstName, LastName and Phone
      onto the tracked user; every other member is ignored. */
  function ApplyUserUpdate(dto: UserUpdateDto, u: User): (r: User)
    ensures r.id == u.id && r.username == u.username && r.passwordHash == u.passwordHash
    ensures r.roleId == u.roleId && r.dateCreation == u.dateCreation
    ensures r.email == dto.email && r.firstName == dto.firstName
    ensures r.lastName == dto.lastName && r.phone == dto.phone
  {
    u.(email := dto.email, firstName := dto.firstName, lastName := dto.lastName, phone := dto.phone)
  }

  /** Updating twice with the same DTO is updating once; the read model of
      an updated user shows the DTO's values and the unchanged role. */
  lemma UserUpdateFacts(dto: UserUpdateDto, u: User, roles: seq<Role>)
    ensures ApplyUserUpdate(dto, ApplyUserUpdate(dto, u)) == ApplyUserUpdate(dto, u)
    ensures UserRead(ApplyUserUpdate(dto, u), roles).email == dto.email
    ensures UserRead(ApplyUserUpdate(dto, u), roles).roleName == UserRead(u, roles).roleName
    ensures UserRead(ApplyUserUpdate(dto, u), roles).username == u.username
  {
  }

  /** An update that restates the user's own values changes nothing. */
  lemma UserUpdateWithOwnValues(u: User)
    ensures ApplyUserUpdate(UserUpdateDto(u.email, u.firstName, u.lastName, u.phone), u) == u
  {
  }

  // ---- Food ----------------------------------------------------------------

  /** The create/update request body; AllergenIds is optional. */
  datatype FoodCreateDto = FoodCreateDto(
    name: string,
    description: string,
    price: int,
    imagePath: Option<string>,
    foodCategoryId: int,
    allergenIds: Option<seq<int>>)

  /** `FoodCreateDto -> Food` for a new entity: the id is the default 0
      until the insert assigns one, and the allergen links are ignored. */
  function FoodFromCreate(dto: FoodCreateDto): (r: Food)
    ensures r.id == 0
    ensures r.name == dto.name && r.description == dto.description && r.price == dto.price
    ensures r.imagePath == dto.imagePath && r.foodCategoryId == dto.foodCategoryId
  {
    Food(0, dto.name, dto.description, dto.price, dto.imagePath, dto.foodCategoryId)
  }

  /** `Map(FoodCreateDto, Food)` onto a tracked entity: every mapped column
      is overwritten and the id is kept. */
  function ApplyFoodUpdate(dto: FoodCreateDto, f: Food): (r: Food)
    ensures r.id == f.id
    ensures r.name == dto.name && r.description == dto.description && r.price == dto.price
    ensures r.imagePath == dto.imagePath && r.foodCategoryId == dto.foodCategoryId
  {
    f.(name := dto.name, description := dto.description, price := dto.price,
       imagePath := dto.imagePath, foodCategoryId := dto.foodCategoryId)
  }

  /** An update is a fresh mapping that keeps the id: the result does not
      depend on the food's old columns at all. */
  lemma FoodUpdateIsCreateWithId(dto: FoodCreateDto, f: Food, g: Food)
    requires f.id == g.id
    ensures ApplyFoodUpdate(dto, f) == FoodFromCreate(dto).(id := f.id)
    ensures ApplyFoodUpdate(dto, f) == ApplyFoodUpdate(dto, g)
  {
  }

  datatype FoodReadDto = FoodReadDto(
    id: int,
    name: string,
    description: string,
    price: int,
    imagePath: Option<string>,
    foodCategoryId: int,
    category: Option<FoodCategory>,
    allergens: seq<Allergen>)

  /** The allergens of food `foodId`: the Allergen rows its FoodAllergen rows point to. */
  function AllergensOf(foodId: int, allergens: seq<Allergen>, links: set<FoodAllergen>): (r: seq<Allergen>)
    ensures forall a :: a in r <==> a in allergens && FoodAllergen(foodId, a.id) in links
    ensures |r| <= |allergens|
  {
    Filter(allergens, (a: Allergen) => FoodAllergen(foodId, a.id) in links)
  }

  /** `Food -> FoodReadDto`: Category is the food's category row and
      Allergens the allergens of its join rows. */
  function FoodRead(f: Food, categories: seq<FoodCategory>, allergens: seq<Allergen>, links: set<FoodAllergen>): (r: FoodReadDto)
    ensures r.id == f.id && r.name == f.name && r.description == f.description
    ensures r.price == f.price && r.imagePath == f.imagePath && r.foodCategoryId == f.foodCategoryId
    ensures r.category.Some? <==> exists i :: 0 <= i < |categories| && categories[i].id == f.foodCategoryId
    ensures r.category.Some? ==> r.category.value in categories && r.category.value.id == f.foodCategoryId
    ensures forall a :: a in r.allergens <==> a in allergens && FoodAllergen(f.id, a.id) in links
  {
    FoodReadDto(f.id, f.name, f.description, f.price, f.imagePath, f.foodCategoryId,
      Find(categories, CategoryId, f.foodCategoryId), AllergensOf(f.id, allergens, links))
  }

  /** Join rows of other foods do not change a food's allergens. */
  lemma AllergensOfIgnoresOtherFoods(foodId: int, allergens: seq<Allergen>, links: set<FoodAllergen>, other: FoodAllergen)
    requires other.foodId != foodId
    ensures AllergensOf(foodId, allergens, links + {other}) == AllergensOf(foodId, allergens, links)
    ensures AllergensOf(foodId, allergens, links - {other}) == AllergensOf(foodId, allergens, links)
  {
    FilterSamePredicate(allergens, (a: Allergen) => FoodAllergen(foodId, a.id) in links + {other}, (a: Allergen) => FoodAllergen(foodId, a.id) in links);
    FilterSamePredicate(allergens, (a: Allergen) => FoodAllergen(foodId, a.id) in links - {other}, (a: Allergen) => FoodAllergen(foodId, a.id) in links);
  }

  // ---- Order ---------------------------------------------------------------

  datatype OrderItemReadDto = OrderItemReadDto(
    foodId: int,
    foodName: Option<string>,
    quantity: int,
    unitPrice: int,
    lineTotal: int)

  datatype OrderReadDto = OrderReadDto(id: int, orderDate: int, items: seq<OrderItemReadDto>, orderTotal: int)

  /** `OrderFood -> OrderItemReadDto`: UnitPrice is the food's current price
      and LineTotal is Quantity times that price (both zero when the food
      row is missing). */
  function ItemRead(line: OrderFood, foods: seq<Food>): (r: OrderItemReadDto)
    ensures r.foodId == line.foodId && r.quantity == line.quantity
    ensures r.lineTotal == r.quantity * r.unitPrice
    ensures forall f :: f in foods && f.id == line.foodId && Find(foods, FoodId, line.foodId) == Some(f) ==>
      r.unitPrice == f.price && r.foodName == Some(f.name)
    ensures Find(foods, FoodId, line.foodId).None? ==> r.unitPrice == 0 && r.lineTotal == 0 && r.foodName.None?
  {
    var food := Find(foods, FoodId, line.foodId);
    var price := if food.Some? then food.value.price else 0;
    OrderItemReadDto(line.foodId, if food.Some? then Some(food.value.name) else None,
      line.quantity, price, line.quantity * price)
  }

  /** The line items of order `orderId`, in table order. */
  function LinesOf(orderId: int, orderFoods: seq<OrderFood>): (r: seq<OrderFood>)
    ensures forall x :: x in r <==> x in orderFoods && x.orderId == orderId
  {
    Filter(orderFoods, (x: OrderFood) => x.orderId == orderId)
  }

  /** `Order -> OrderReadDto`: one item per OrderFood row of the order, and
      OrderTotal is the stored OrderTotalPrice. */
  function OrderRead(o: Order, orderFoods: seq<OrderFood>, foods: seq<Food>): (r: OrderReadDto)
    ensures r.id == o.id && r.orderDate == o.orderDate && r.orderTotal == o.orderTotalPrice
    ensures |r.items| == |LinesOf(o.id, orderFoods)|
    ensures forall k :: 0 <= k < |r.items| ==> r.items[k] == ItemRead(LinesOf(o.id, orderFoods)[k], foods)
  {
    var lines := LinesOf(o.id, orderFoods);
    OrderReadDto(o.id, o.orderDate, seq(|lines|, k requires 0 <= k < |lines| => ItemRead(lines[k], foods)), o.orderTotalPrice)
  }

  /** Line items of other orders do not change an order's items. */
  lemma OrderReadIgnoresOtherOrders(o: Order, orderFoods: seq<OrderFood>, foods: seq<Food>, extra: OrderFood)
    requires extra.orderId != o.id
    ensures OrderRead(o, orderFoods + [extra], foods) == OrderRead(o, orderFoods, foods)
  {
    FilterAppendRejected(orderFoods, (x: OrderFood) => x.orderId == o.id, extra);
  }

  /** `Log -> LogReadDto` copies all four columns, so it is the identity on rows. */
  datatype LogReadDto = LogReadDto(id: int, timestamp: int, level: string, message: string)

  function LogRead(l: Log): (r: LogReadDto)
    ensures r.id == l.id && r.timestamp == l.timestamp && r.level == l.level && r.message == l.message
  {
    LogReadDto(l.id, l.timestamp, l.level, l.message)
  }
}
