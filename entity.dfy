/** The entities and request shapes of the product/category REST service, as
    values. The JPA association between a product and its category is kept
    as ids: a product holds its category's id, a category the ids of its
    products. */
module Entities {

  datatype Option<T> = None | Some(value: T)

  /** A `Double` price. Prices are only copied, never computed on, so the
      model keeps the IEEE 754 bit pattern as an opaque value. */
  datatype Price = Price(bits: bv64)

  datatype Product = Product(id: int, name: string, price: Price, category: int)

  datatype Category = Category(id: int, name: string, products: seq<int>)

  /** The body of a create-product request. */
  datatype ProductRequest = ProductRequest(name: string, price: Price, categoryId: int)

  /** The body of a create-category request. */
  datatype CategoryRequest = CategoryRequest(name: string, products: seq<int>)

  /** The body of an update-product request: a null field is `None`. */
  datatype ProductPatch = ProductPatch(name: Option<string>, price: Option<Price>, category: Option<int>)

  /** The body of an update-category request: a null field is `None`. */
  datatype CategoryPatch = CategoryPatch(name: Option<string>, products: Option<seq<int>>)

  /** The service's exceptions. `UniqueViolation` is the database rejecting a
      second category with the same name (the unique `name` column). */
  datatype Error = CategoryNotFound | Generic | NotFound | Conflict | UniqueViolation

  datatype Result<T> = Success(value: T) | Failure(error: Error)

  /** The product `updateById` stores: each supplied field replaces the
      stored one, a missing one keeps it, and the id is the stored id. */
  function PatchProduct(stored: Product, patch: ProductPatch): (p: Product)
    ensures p.id == stored.id
    ensures patch.name.Some? ==> p.name == patch.name.value
    ensures patch.name.None? ==> p.name == stored.name
    ensures patch.price.Some? ==> p.price == patch.price.value
    ensures patch.price.None? ==> p.price == stored.price
    ensures patch.category.Some? ==> p.category == patch.category.value
    ensures patch.category.None? ==> p.category == stored.category
  {
    Product(
      stored.id,
      if patch.name.Some? then patch.name.value else stored.name,
      if patch.price.Some? then patch.price.value else stored.price,
      if patch.category.Some? then patch.category.value else stored.category)
  }

  /** A patch with every field missing leaves the product as it was. */
  lemma PatchProductEmpty(stored: Product)
    ensures PatchProduct(stored, ProductPatch(None, None, None)) == stored
  {
  }

  /** A patch with every field supplied determines the whole product but its id. */
  lemma PatchProductFull(stored: Product, name: string, price: Price, category: int)
    ensures PatchProduct(stored, ProductPatch(Some(name), Some(price), Some(category)))
      == Product(stored.id, name, price, category)
  {
  }

  /** Applying the same patch twice stores what applying it once does; patching
      by one patch and then another is patching by the second over the first. */
  lemma PatchProductCompose(stored: Product, first: ProductPatch, second: ProductPatch)
    ensures PatchProduct(PatchProduct(stored, first), first) == PatchProduct(stored, first)
    ensures PatchProduct(PatchProduct(stored, first), second)
      == PatchProduct(stored, ProductPatch(
           if second.name.Some? then second.name else first.name,
           if second.price.Some? then second.price else first.price,
           if second.category.Some? then second.category else first.category))
  {
  }

  /** The category `updateById` stores: a supplied name replaces the stored
      one; a supplied product list replaces the stored one only when it is
      not empty. */
  function PatchCategory(stored: Category, patch: CategoryPatch): (c: Category)
    ensures c.id == stored.id
    ensures patch.name.Some? ==> c.name == patch.name.value
    ensures patch.name.None? ==> c.name == stored.name
    ensures c.products != stored.products ==> patch.products == Some(c.products) && c.products != []
    ensures patch.products.Some? && patch.products.value != [] ==> c.products == patch.products.value
  {
    Category(
      stored.id,
      if patch.name.Some? then patch.name.value else stored.name,
      if patch.products.Some? && patch.products.value != [] then patch.products.value else stored.products)
  }

  /** An absent name and an absent or empty product list leave the category
      as it was; a supplied name and a non-empty list determine it but its id. */
  lemma PatchCategoryCases(stored: Category, patch: CategoryPatch)
    ensures patch.name.None? && (patch.products.None? || patch.products == Some([]))
      ==> PatchCategory(stored, patch) == stored
    ensures patch.name.Some? && patch.products.Some? && patch.products.value != []
      ==> PatchCategory(stored, patch) == Category(stored.id, patch.name.value, patch.products.value)
  {
  }

  /** Applying the same category patch twice stores what applying it once does. */
  lemma PatchCategoryIdempotent(stored: Category, patch: CategoryPatch)
    ensures PatchCategory(PatchCategory(stored, patch), patch) == PatchCategory(stored, patch)
  {
  }
}
