/** ProductService: create, look up, patch and delete products over the store. */
module ProductServices {

  import opened Entities
  import opened Repositories

  class ProductService {
    const db: Database

    constructor (db: Database)
      ensures this.db == db
    {
      this.db := db;
    }

    /** `findProductById`: the stored product, or `Generic` when the id is not
        in the store. */
    function FindProductById(id: int): (r: Result<Product>)
      reads db
      ensures r.Success? <==> id in db.products
      ensures r.Success? ==> r.value == db.products[id] && r.value in db.products.Values
      ensures r.Failure? ==> r.error == Generic
    {
      if id in db.products then Success(db.products[id]) else Failure(Generic)
    }

    /** `saveProduct`: fails with `CategoryNotFound`, storing nothing, when the
        requested category does not exist; otherwise stores one new product,
        under a fresh id, with the request's name and price and the category
        found, and returns it. */
    method SaveProduct(request: ProductRequest) returns (r: Result<Product>)
      requires db.Valid()
      modifies db
      ensures db.Valid() && db.categories == old(db.categories)
      ensures request.categoryId !in db.categories ==>
        r == Failure(CategoryNotFound) && unchanged(db)
      ensures request.categoryId in db.categories ==>
        && r.Success?
        && r.value == Product(r.value.id, request.name, request.price, request.categoryId)
        && r.value.id !in old(db.products)
        && db.products == old(db.products)[r.value.id := r.value]
        && db.nextId == old(db.nextId) + 1
        && FindProductById(r.value.id) == Success(r.value)
    {
      if request.categoryId !in db.categories {
        return Failure(CategoryNotFound);
      }
      var category := db.categories[request.categoryId];
      var id := db.FreshId();
      var product := Product(id, request.name, request.price, category.id);
      db.products := db.products[id := product];
      r := Success(product);
    }

    /** `updateById`: fails with `NotFound`, changing nothing, for an id not in
        the store; otherwise stores the patched product under the same id,
        leaves every other entry as it was, and returns it. */
    method UpdateById(id: int, patch: ProductPatch) returns (r: Result<Product>)
      requires db.Valid()
      modifies db
      ensures db.Valid()
      ensures id !in old(db.products) ==> r == Failure(NotFound) && unchanged(db)
      ensures id in old(db.products) ==>
        && r == Success(PatchProduct(old(db.products)[id], patch))
        && r.value.id == id
        && db.products == old(db.products)[id := r.value]
        && db.categories == old(db.categories) && db.nextId == old(db.nextId)
    {
      if id !in db.products {
        return Failure(NotFound);
      }
      var stored := db.products[id];
      var updated := PatchProduct(stored, patch);
      db.products := db.products[stored.id := updated];
      r := Success(updated);
    }

    /** `deleteId`: fails with `NotFound`, changing nothing, for an id not in
        the store; otherwise removes that id and returns the product as it
        was stored. */
    method DeleteId(id: int) returns (r: Result<Product>)
      requires db.Valid()
      modifies db
      ensures db.Valid()
      ensures id !in old(db.products) ==> r == Failure(NotFound) && unchanged(db)
      ensures id in old(db.products) ==>
        && r == Success(old(db.products)[id])
        && db.products == old(db.products) - {id}
        && db.categories == old(db.categories) && db.nextId == old(db.nextId)
        && FindProductById(id) == Failure(Generic)
    {
      if id !in db.products {
        return Failure(NotFound);
      }
      var product := db.products[id];
      db.products := db.products - {id};
      r := Success(product);
    }
  }
}
