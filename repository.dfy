/** The two JPA repositories behind the services, as one store: products and
    categories by id, and the next id the generator hands out. */
module Repositories {

  import opened Entities

  /** At most one category per name: the unique `name` column. */
  ghost predicate UniqueNames(categories: map<int, Category>) {
    forall a, b :: a in categories && b in categories && categories[a].name == categories[b].name ==> a == b
  }

  /** Some stored category has this name. */
  predicate NameTaken(categories: map<int, Category>, name: string) {
    exists id :: id in categories && categories[id].name == name
  }

  class Database {
    var products: map<int, Product>
    var categories: map<int, Category>
    /** Above every id in use: the generator's next value. */
    var nextId: int

    /** Every entity is stored under its own id, every id is below `nextId`,
        and category names are unique. */
    ghost predicate Valid()
      reads this
    {
      && (forall id :: id in products ==> products[id].id == id && id < nextId)
      && (forall id :: id in categories ==> categories[id].id == id && id < nextId)
      && UniqueNames(categories)
    }

    constructor ()
      ensures Valid() && products == map[] && categories == map[]
    {
      products, categories, nextId := map[], map[], 1;
    }

    /** A fresh id from the generator: in use neither for a product nor for a
        category. */
    method FreshId() returns (id: int)
      requires Valid()
      modifies this
      ensures Valid() && id !in products && id !in categories
      ensures products == old(products) && categories == old(categories)
      ensures id == old(nextId) && nextId == id + 1
    {
      id := nextId;
      nextId := nextId + 1;
    }
  }
}
