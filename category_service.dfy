/** CategoryService: create, look up by name, list and patch categories over
    the store. */
module CategoryServices {

  import opened Entities
  import opened Repositories

  /** A category other than the one stored under `id` has this name. */
  predicate NameTakenByOther(categories: map<int, Category>, name: string, id: int) {
    exists other :: other in categories && other != id && categories[other].name == name
  }

  /** The categories stored in a map. */
  function Stored(categories: map<int, Category>): set<Category> {
    set id | id in categories :: categories[id]
  }

  /** A map storing each category under its own id holds as many distinct
      categories as ids. */
  lemma {:induction false} StoredCount(categories: map<int, Category>)
    requires forall id :: id in categories ==> categories[id].id == id
    ensures |Stored(categories)| == |categories|
    decreases |categories|
  {
    if |categories| > 0 {
      var id := PickKey(categories);
      var rest := categories - {id};
      StoredCount(rest);
      forall c | c in Stored(categories)
        ensures c in Stored(rest) + {categories[id]}
      {
        var j :| j in categories && categories[j] == c;
        if j != id {
          assert j in rest && rest[j] == c;
        }
      }
      assert Stored(categories) == Stored(rest) + {categories[id]};
      assert categories[id] !in Stored(rest);
      assert |categories| == |rest| + 1;
    }
  }

  /** Some key of a non-empty map. */
  lemma PickKey(m: map<int, Category>) returns (k: int)
    requires |m| > 0
    ensures k in m
  {
    if !(exists x :: x in m.Keys) {
      assert false;
    }
    k :| k in m.Keys;
  }

  class CategoryService {
    const db: Database

    constructor (db: Database)
      ensures this.db == db
    {
      this.db := db;
    }

    /** `findByname`: the category with that name (there is at most one), or
        `Generic` when there is none. */
    function FindByName(name: string): (r: Result<Category>)
      reads db
      requires db.Valid()
      ensures r.Success? <==> NameTaken(db.categories, name)
      ensures r.Success? ==>
        r.value.name == name && r.value.id in db.categories && db.categories[r.value.id] == r.value
      ensures r.Failure? ==> r.error == Generic
    {
      if NameTaken(db.categories, name) then
        var id :| id in db.categories && db.categories[id].name == name;
        Success(db.categories[id])
      else
        Failure(Generic)
    }

    /** `findAllCategories`: exactly the stored categories, one per id. */
    function FindAllCategories(): (r: set<Category>)
      reads db
      requires db.Valid()
      ensures forall c :: c in r <==> c.id in db.categories && db.categories[c.id] == c
      ensures |r| == |db.categories|
    {
      StoredCount(db.categories);
      Stored(db.categories)
    }

    /** `saveCategory`: fails with `Conflict`, storing nothing, when a category
        of that name exists; otherwise stores one new category, under a fresh
        id, with the request's name and products, and returns it. Names stay
        unique either way. */
    method SaveCategory(request: CategoryRequest) returns (r: Result<Category>)
      requires db.Valid()
      modifies db
      ensures db.Valid() && db.products == old(db.products)
      ensures NameTaken(old(db.categories), request.name) ==>
        r == Failure(Conflict) && unchanged(db)
      ensures !NameTaken(old(db.categories), request.name) ==>
        && r.Success?
        && r.value == Category(r.value.id, request.name, request.products)
        && r.value.id !in old(db.categories)
        && db.categories == old(db.categories)[r.value.id := r.value]
        && db.nextId == old(db.nextId) + 1
        && FindByName(request.name) == r
    {
      if NameTaken(db.categories, request.name) {
        return Failure(Conflict);
      }
      var id := db.FreshId();
      var category := Category(id, request.name, request.products);
      db.categories := db.categories[id := category];
      r := Success(category);
      assert db.categories[id].name == request.name;
      ghost var found := FindByName(request.name);
      assert found.value.id == id;
    }

    /** `updateById`: fails with `NotFound`, changing nothing, for an id not in
        the store; otherwise patches the stored category's name and product
        list and stores it under the same id. Storing a name another category
        already has is refused by the unique column, with `UniqueViolation`
        and nothing changed. */
    method UpdateById(id: int, patch: CategoryPatch) returns (r: Result<Category>)
      requires db.Valid()
      modifies db
      ensures db.Valid() && db.products == old(db.products) && db.nextId == old(db.nextId)
      ensures id !in old(db.categories) ==> r == Failure(NotFound) && unchanged(db)
      ensures id in old(db.categories) ==>
        var updated := PatchCategory(old(db.categories)[id], patch);
        if NameTakenByOther(old(db.categories), updated.name, id) then
          r == Failure(UniqueViolation) && unchanged(db)
        else
          && r == Success(updated)
          && db.categories == old(db.categories)[id := updated]
    {
      if id !in db.categories {
        return Failure(NotFound);
      }
      var stored := db.categories[id];
      var updated := PatchCategory(stored, patch);
      if NameTakenByOther(db.categories, updated.name, id) {
        return Failure(UniqueViolation);
      }
      db.categories := db.categories[id := updated];
      r := Success(updated);
    }
  }
}
