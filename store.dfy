/** The database the middleware controllers work on: one table per entity,
    updated in place, plus the identity counter that hands out row ids. A
    single counter serves every table, so an id is never reused in any
    table; `SaveChanges` is the point where a method's writes become the
    new field values. */
module Store {
  import opened Wrappers
  import opened Entities
  import opened Tables

  /** What SQL Server reports when a query's row offset or row count
      argument is negative; the query then throws instead of returning rows. */
  const NegativeOffsetError := "The offset specified in a OFFSET clause may not be negative."
  const NegativeRowCountError := "A TOP N or FETCH rows count value may not be negative."
  /** What `SaveChanges` throws when SQL Server refuses a row, such as a
      value longer than its column. */
  const SaveRefusedError := "An error occurred while saving the entity changes. See the inner exception for details."

  /** The whole content of the database at one moment. */
  datatype Snapshot = Snapshot(
    foods: seq<Food>,
    categories: seq<FoodCategory>,
    allergens: seq<Allergen>,
    foodAllergens: set<FoodAllergen>,
    roles: seq<Role>,
    users: seq<User>,
    orders: seq<Order>,
    orderFoods: seq<OrderFood>,
    logs: seq<Log>,
    nextId: int)

  /** Primary keys: every id is unique in its table and below the counter;
      join rows point below the counter too, so a fresh food has no links. */
  ghost predicate ValidState(s: Snapshot) {
    s.nextId >= 1 &&
    WellKeyed(s.foods, FoodId, s.nextId) &&
    WellKeyed(s.categories, CategoryId, s.nextId) &&
    WellKeyed(s.allergens, AllergenId, s.nextId) &&
    WellKeyed(s.roles, RoleId, s.nextId) &&
    WellKeyed(s.users, UserId, s.nextId) &&
    WellKeyed(s.orders, OrderId, s.nextId) &&
    WellKeyed(s.logs, LogId, s.nextId) &&
    (forall l :: l in s.foodAllergens ==> l.foodId < s.nextId)
  }

  class Database {
    var foods: seq<Food>
    var categories: seq<FoodCategory>
    var allergens: seq<Allergen>
    var foodAllergens: set<FoodAllergen>
    var roles: seq<Role>
    var users: seq<User>
    var orders: seq<Order>
    var orderFoods: seq<OrderFood>
    var logs: seq<Log>
    var nextId: int

    /** Primary keys: every id is unique in its table and below the counter. */
    ghost predicate Valid()
      reads this
    {
      ValidState(State())
    }

    function State(): Snapshot
      reads this
    {
      Snapshot(foods, categories, allergens, foodAllergens, roles, users, orders, orderFoods, logs, nextId)
    }

    /** An empty database. */
    constructor ()
      ensures Valid()
      ensures State() == Snapshot([], [], [], {}, [], [], [], [], [], 1)
    {
      foods, categories, allergens, foodAllergens := [], [], [], {};
      roles, users, orders, orderFoods, logs := [], [], [], [], [];
      nextId := 1;
    }

    /** The identity column: hands out the next id. */
    method NewId() returns (id: int)
      requires Valid()
      modifies this
      ensures Valid()
      ensures id == old(nextId) && id >= 1
      ensures State() == old(State()).(nextId := id + 1)
    {
      id := nextId;
      nextId := nextId + 1;
    }
  }
}
