/** The persisted entities (the Moduls folder), one datatype per table row.
    Navigation properties are left out: rows refer to each other by id.
    Prices are decimal(10, 2) values held as a whole number of hundredths;
    timestamps are opaque integers supplied by the caller. */
module Entities {
  import opened Wrappers

  datatype Food = Food(
    id: int,
    name: string,
    description: string,
    price: int,
    imagePath: Option<string>,
    foodCategoryId: int)

  datatype FoodCategory = FoodCategory(id: int, name: string)

  datatype Allergen = Allergen(id: int, name: string)

  /** Join row of the Food-Allergen many-to-many relation; (foodId, allergenId) is the key. */
  datatype FoodAllergen = FoodAllergen(foodId: int, allergenId: int)

  datatype Role = Role(id: int, name: string)

  datatype User = User(
    id: int,
    username: string,
    passwordHash: string,
    email: string,
    firstName: string,
    lastName: string,
    phone: string,
    dateCreation: int,
    roleId: int)

  datatype Order = Order(id: int, orderDate: int, userId: int, orderTotalPrice: int)

  /** Line item of an order. The entity file declares no quantity, but the
      read mapping uses one, so the row carries it. */
  datatype OrderFood = OrderFood(orderId: int, foodId: int, quantity: int)

  datatype Log = Log(id: int, timestamp: int, level: string, message: string)

  /** `default(DateTime)`: the value of a timestamp the code never assigns. */
  const DefaultDateTime := 0

  function FoodId(f: Food): int { f.id }
  function CategoryId(c: FoodCategory): int { c.id }
  function AllergenId(a: Allergen): int { a.id }
  function RoleId(r: Role): int { r.id }
  function UserId(u: User): int { u.id }
  function OrderId(o: Order): int { o.id }
  function LogId(l: Log): int { l.id }
}
