/** CategoryService: listing, reading, creating, renaming and deleting categories. Any
    caller may do all of these. The reads are functions of the tables; the writes are
    methods of a service that holds the store. */
module CategoryServices {
  import opened Wrappers
  import opened Errors
  import opened Entities
  import opened Tables
  import opened Dtos
  import opened Text
  import opened CategoryRepository
  import opened CategoryValidator
  import opened Persistence

  /** Every category, in table order. */
  function GetCategories(categories: map<int, Category>): (r: seq<CategoryResponse>)
    ensures |r| == |categories|
    ensures forall i :: 0 <= i < |r| ==> exists k :: k in categories && r[i] == CategoryResponse.FromDomain(categories[k])
    ensures forall k :: k in categories ==> CategoryResponse.FromDomain(categories[k]) in r
  {
    SelectRowsMembership(categories, CategoryResponse.FromDomain);
    SelectRows(categories, CategoryResponse.FromDomain)
  }

  function GetCategory(categories: map<int, Category>, id: int): (r: Result<CategoryResponse, Exception>)
    ensures r.Success? <==> id in categories
    ensures r.Success? ==> r.value == CategoryResponse.FromDomain(categories[id])
    ensures r.Failure? ==> r.error == Service(NotFound(CategoryNotFound))
  {
    match GetById(categories, id)
    case None => Failure(Service(NotFound(CategoryNotFound)))
    case Some(c) => Success(CategoryResponse.FromDomain(c))
  }

  class CategoryService {
    const store: Store

    constructor (store: Store)
      ensures this.store == store
    {
      this.store := store;
    }

    /** Validates the name (not blank, not used by any category ignoring case) and
        inserts the category; a failure is a BadRequest with the first error. */
    method AddCategory(dto: CategoryDto) returns (r: Result<CategoryResponse, Exception>)
      requires dto.CreateCategoryDto?
      requires store.Valid()
      modifies store
      ensures store.Valid()
      ensures var errors := CategoryErrors(old(store.categories), dto.name, 0);
              && (errors != [] ==> r == Failure(Service(BadRequest(errors[0]))) && unchanged(store))
              && (errors == [] ==>
                    var id := old(store.nextCategoryId);
                    && r == Success(CategoryResponse(id, dto.name))
                    && store.categories == old(store.categories)[id := Category(id, dto.name)]
                    && id !in old(store.categories)
                    && store.users == old(store.users) && store.products == old(store.products))
    {
      var errors := CategoryErrors(store.categories, dto.name, 0);
      if errors != [] {
        return Failure(Service(BadRequest(errors[0])));
      }
      var saved := store.AddCategory(dto.ToDomain());
      return Success(CategoryResponse.FromDomain(saved));
    }

    /** Validates the new name against every other category, then renames the
        category; an unknown id is reported only after a valid name. */
    method UpdateCategory(id: int, dto: CategoryDto) returns (r: Result<CategoryResponse, Exception>)
      requires dto.UpdateCategoryDto?
      requires store.Valid()
      modifies store
      ensures store.Valid()
      ensures var errors := CategoryErrors(old(store.categories), dto.name, id);
              && (errors != [] ==> r == Failure(Service(BadRequest(errors[0]))) && unchanged(store))
              && (errors == [] && id !in old(store.categories) ==>
                    r == Failure(Service(NotFound(CategoryNotFound))) && unchanged(store))
              && (errors == [] && id in old(store.categories) ==>
                    && r == Success(CategoryResponse(id, dto.name))
                    && store.categories == old(store.categories)[id := Category(id, dto.name)]
                    && store.users == old(store.users) && store.products == old(store.products))
    {
      var errors := CategoryErrors(store.categories, dto.name, id);
      if errors != [] {
        return Failure(Service(BadRequest(errors[0])));
      }
      var found := GetById(store.categories, id);
      if found.None? {
        return Failure(Service(NotFound(CategoryNotFound)));
      }
      var renamed := found.value.(name := dto.name);
      store.UpdateCategory(renamed);
      return Success(CategoryResponse.FromDomain(renamed));
    }

    /** Deletes the category; the products attached to it lose that attachment. */
    method DeleteCategory(id: int) returns (r: Result<(), Exception>)
      requires store.Valid()
      modifies store
      ensures store.Valid()
      ensures id !in old(store.categories) ==> r == Failure(Service(NotFound(CategoryNotFound))) && unchanged(store)
      ensures id in old(store.categories) ==>
                && r == Success(())
                && store.categories == old(store.categories) - {id}
                && store.products == WithoutCategory(old(store.products), id)
                && store.users == old(store.users)
    {
      var found := GetById(store.categories, id);
      if found.None? {
        return Failure(Service(NotFound(CategoryNotFound)));
      }
      store.RemoveCategory(id);
      return Success(());
    }
  }

  /** After a category named `name` is stored, creating one whose name differs only by
      case fails with NameAlreadyExists, and the existing one is still found. */
  lemma SecondCaseVariantFails(categories: map<int, Category>, id: int, name: string, variant: string)
    requires KeysMatch(categories) && id !in categories && id != 0
    requires EqualsIgnoreCase(name, variant) && !IsNullOrWhiteSpace(variant)
    ensures var after := categories[id := Category(id, name)];
            && CategoryErrors(after, variant, 0) != []
            && CategoryErrors(after, variant, 0)[0] == NameAlreadyExists
            && GetCategory(after, id) == Success(CategoryResponse(id, name))
  {
    var after := categories[id := Category(id, name)];
    CaseVariantNameRejected(after, id, variant);
  }
}
