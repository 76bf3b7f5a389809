/** ProductService: listing and reading products, creating a product for the caller,
    attaching categories to it by name, and updating or deleting it. Only the owner of
    a product may change it. */
module ProductServices {
  import opened Wrappers
  import opened Errors
  import opened Entities
  import opened Tables
  import opened Dtos
  import opened Text
  import opened AuthenticationHelper
  import opened ProductRepository
  import opened ProductValidators
  import CategoryRepository
  import UserRepository
  import opened Persistence

  // ------------------------------------------------------------------ reads

  /** The response for each listed product, with the owner the query included. */
  function WithOwners(users: map<int, User>, listed: seq<Product>): (r: seq<ProductResponseWithUser>)
    requires forall i :: 0 <= i < |listed| ==> listed[i].userId in users
    ensures |r| == |listed|
    ensures forall i :: 0 <= i < |r| ==> r[i] == ProductResponseWithUser.FromDomain(listed[i], users[listed[i].userId])
  {
    seq(|listed|, i requires 0 <= i < |listed| => ProductResponseWithUser.FromDomain(listed[i], users[listed[i].userId]))
  }

  function GetProducts(users: map<int, User>, products: map<int, Product>): (r: seq<ProductResponseWithUser>)
    ensures |r| <= |products|
  {
    WithOwners(users, GetAllWithUsers(users, products))
  }

  /** Each listed response is the stored product with that id, shown with its owner. */
  lemma ListedProductsAreStored(users: map<int, User>, products: map<int, Product>)
    requires ProductRepository.KeysMatch(products)
    ensures var r := GetProducts(users, products);
            forall i :: 0 <= i < |r| ==>
              && r[i].id in products && products[r[i].id].userId in users
              && r[i] == ProductResponseWithUser.FromDomain(products[r[i].id], users[products[r[i].id].userId])
  {
    var listed := GetAllWithUsers(users, products);
    var r := GetProducts(users, products);
    forall i | 0 <= i < |r|
      ensures r[i].id in products && products[r[i].id] == listed[i]
    {
      ValueHasKey(products, listed[i]);
    }
  }

  /** In a consistent store every product is listed, with its owner. */
  lemma EveryProductListed(users: map<int, User>, products: map<int, Product>, categories: map<int, Category>)
    requires ReferencesResolve(users, products, categories)
    ensures forall k :: k in products ==>
              ProductResponseWithUser.FromDomain(products[k], users[products[k].userId]) in GetProducts(users, products)
  {
    var listed := GetAllWithUsers(users, products);
    var r := GetProducts(users, products);
    forall k | k in products
      ensures ProductResponseWithUser.FromDomain(products[k], users[products[k].userId]) in r
    {
      assert products[k] in listed;
      var i :| 0 <= i < |listed| && listed[i] == products[k];
      assert r[i] == ProductResponseWithUser.FromDomain(products[k], users[products[k].userId]);
    }
  }

  /** The ids of the join rows the Categories navigation is loaded from. The join
      table keeps no attachment order: the rows come back ordered by category id. */
  function IncludedIds(attached: seq<int>): (r: seq<int>)
    ensures forall c :: c in r <==> c in attached
    ensures NoDup(attached) ==> |r| == |attached|
    ensures forall i, j :: 0 <= i < j < |r| ==> r[i] < r[j]
  {
    NoDupCardinality(attached);
    SortedIdsAscending(set c | c in attached);
    SortedIds(set c | c in attached)
  }

  /** The stored categories with the given ids, in the order of the ids. */
  function LoadedCategories(categories: map<int, Category>, ids: seq<int>): (r: seq<Category>)
    ensures (forall i :: 0 <= i < |ids| ==> ids[i] in categories) ==>
              |r| == |ids| && forall i :: 0 <= i < |ids| ==> r[i] == categories[ids[i]]
  {
    if ids == [] then []
    else
      var rest := LoadedCategories(categories, ids[1..]);
      assert forall i :: 0 <= i < |ids| - 1 ==> ids[1..][i] == ids[i + 1];
      if ids[0] in categories then [categories[ids[0]]] + rest else rest
  }

  /** The product with its owner and categories; a product whose owner row is missing
      is not found, because the owner is included through an inner join. */
  function GetProduct(users: map<int, User>, products: map<int, Product>, categories: map<int, Category>, id: int)
    : (r: Result<ProductResponseWithUserAndCategories, Exception>)
    ensures r.Failure? ==> r.error == Service(NotFound(ProductNotFound))
    ensures r.Failure? <==> forall k :: k in products ==> products[k].id != id || products[k].userId !in users
    ensures r.Success? ==> r.value.id == id
  {
    match FirstWhere(products, (p: Product) => p.id == id && p.userId in users)
    case None => Failure(Service(NotFound(ProductNotFound)))
    case Some(p) =>
      Success(ProductResponseWithUserAndCategories.FromDomain(p, Some(users[p.userId]), LoadedCategories(categories, IncludedIds(p.categories))))
  }

  /** In a consistent store a product can be read exactly when it exists, and the
      response is built from that product, its owner and its attached categories. */
  lemma GetProductOfStoredProduct(users: map<int, User>, products: map<int, Product>,
                                  categories: map<int, Category>, id: int)
    requires ProductRepository.KeysMatch(products) && ReferencesResolve(users, products, categories)
    ensures GetProduct(users, products, categories, id).Success? <==> id in products
    ensures id in products ==>
              GetProduct(users, products, categories, id).value
              == ProductResponseWithUserAndCategories.FromDomain(
                   products[id], Some(users[products[id].userId]), LoadedCategories(categories, IncludedIds(products[id].categories)))
  {
    if id in products {
      assert products[id].id == id && products[id].userId in users;
      var p := FirstWhere(products, (p: Product) => p.id == id && p.userId in users).value;
      ValueHasKey(products, p);
      assert products[p.id] == p;
    }
  }

  /** The response of a stored product lists every attached category once, in
      ascending id order. */
  lemma ProductShowsAttachedCategories(users: map<int, User>, products: map<int, Product>,
                                       categories: map<int, Category>, id: int)
    requires ProductRepository.KeysMatch(products) && CategoryRepository.KeysMatch(categories)
    requires ReferencesResolve(users, products, categories)
    requires id in products
    ensures var r := GetProduct(users, products, categories, id);
            var attached := products[id].categories;
            && r.Success?
            && |r.value.categories| == |attached|
            && (forall i :: 0 <= i < |r.value.categories| ==>
                  && r.value.categories[i].id in attached && r.value.categories[i].id in categories
                  && r.value.categories[i] == CategoryResponse.FromDomain(categories[r.value.categories[i].id]))
            && (forall c :: c in attached ==> CategoryResponse.FromDomain(categories[c]) in r.value.categories)
            && (forall i, j :: 0 <= i < j < |r.value.categories| ==> r.value.categories[i].id < r.value.categories[j].id)
  {
    var attached := products[id].categories;
    var loaded := LoadedCategories(categories, IncludedIds(attached));
    var r := GetProduct(users, products, categories, id);
    assert r.Success? && r.value == ProductResponseWithUserAndCategories.FromDomain(
             products[id], Some(users[products[id].userId]), loaded) by {
      GetProductOfStoredProduct(users, products, categories, id);
    }
    assert NoDup(attached) && forall c :: c in attached ==> c in categories;
    ResponsesFollowLoaded(categories, attached, r.value.categories);
  }

  /** Category responses built one per loaded category list each attached category
      once, in ascending id order. */
  lemma ResponsesFollowLoaded(categories: map<int, Category>, attached: seq<int>, cs: seq<CategoryResponse>)
    requires CategoryRepository.KeysMatch(categories)
    requires NoDup(attached) && forall c :: c in attached ==> c in categories
    requires var loaded := LoadedCategories(categories, IncludedIds(attached));
             |cs| == |loaded| && forall i :: 0 <= i < |cs| ==> cs[i] == CategoryResponse.FromDomain(loaded[i])
    ensures |cs| == |attached|
    ensures forall i :: 0 <= i < |cs| ==>
              cs[i].id in attached && cs[i].id in categories && cs[i] == CategoryResponse.FromDomain(categories[cs[i].id])
    ensures forall c :: c in attached ==> CategoryResponse.FromDomain(categories[c]) in cs
    ensures forall i, j :: 0 <= i < j < |cs| ==> cs[i].id < cs[j].id
  {
    var loaded := LoadedCategories(categories, IncludedIds(attached));
    IncludedCategoriesInIdOrder(categories, attached);
    assert forall i :: 0 <= i < |cs| ==> cs[i].id == loaded[i].id;
    forall c | c in attached
      ensures CategoryResponse.FromDomain(categories[c]) in cs
    {
      var i :| 0 <= i < |loaded| && loaded[i] == categories[c];
      assert cs[i] == CategoryResponse.FromDomain(categories[c]);
    }
  }

  /** Loading a duplicate-free list of stored category ids through the join table
      yields each of those categories once, in ascending id order. */
  lemma IncludedCategoriesInIdOrder(categories: map<int, Category>, attached: seq<int>)
    requires CategoryRepository.KeysMatch(categories)
    requires NoDup(attached) && forall c :: c in attached ==> c in categories
    ensures var loaded := LoadedCategories(categories, IncludedIds(attached));
            && |loaded| == |attached|
            && (forall i :: 0 <= i < |loaded| ==>
                  loaded[i].id in attached && loaded[i].id in categories && loaded[i] == categories[loaded[i].id])
            && (forall c :: c in attached ==> categories[c] in loaded)
            && (forall i, j :: 0 <= i < j < |loaded| ==> loaded[i].id < loaded[j].id)
  {
    LoadedInIdOrder(categories, attached, IncludedIds(attached));
  }

  /** Loading stored categories through an ascending list of the attached ids. */
  lemma LoadedInIdOrder(categories: map<int, Category>, attached: seq<int>, ids: seq<int>)
    requires CategoryRepository.KeysMatch(categories)
    requires forall c :: c in attached ==> c in categories
    requires (forall c :: c in ids <==> c in attached) && |ids| == |attached|
    requires forall i, j :: 0 <= i < j < |ids| ==> ids[i] < ids[j]
    ensures var loaded := LoadedCategories(categories, ids);
            && |loaded| == |attached|
            && (forall i :: 0 <= i < |loaded| ==>
                  loaded[i].id in attached && loaded[i].id in categories && loaded[i] == categories[loaded[i].id])
            && (forall c :: c in attached ==> categories[c] in loaded)
            && (forall i, j :: 0 <= i < j < |loaded| ==> loaded[i].id < loaded[j].id)
  {
    var loaded := LoadedCategories(categories, ids);
    assert |loaded| == |ids| && forall i :: 0 <= i < |ids| ==> loaded[i] == categories[ids[i]] by {
      assert forall i :: 0 <= i < |ids| ==> ids[i] in ids;
    }
    assert forall i :: 0 <= i < |loaded| ==> loaded[i].id == ids[i] by {
      assert forall i :: 0 <= i < |ids| ==> ids[i] in ids;
    }
    forall c | c in attached
      ensures categories[c] in loaded
    {
      var i :| 0 <= i < |ids| && ids[i] == c;
      assert loaded[i] == categories[c];
    }
  }

  function GetProductsByCategories(users: map<int, User>, products: map<int, Product>,
                                   categories: map<int, Category>, names: seq<string>)
    : (r: seq<ProductResponseWithUser>)
    ensures |r| <= |products|
  {
    WithOwners(users, ProductRepository.GetProductsByCategories(users, products, categories, names))
  }

  /** Each response of the category filter is a stored product that matches the
      requested names, shown with its owner. */
  lemma ProductsByCategoriesSound(users: map<int, User>, products: map<int, Product>,
                                  categories: map<int, Category>, names: seq<string>)
    requires ProductRepository.KeysMatch(products)
    ensures var r := GetProductsByCategories(users, products, categories, names);
            forall i :: 0 <= i < |r| ==>
              && r[i].id in products && products[r[i].id].userId in users
              && MatchesCategories(categories, products[r[i].id], names)
              && r[i] == ProductResponseWithUser.FromDomain(products[r[i].id], users[products[r[i].id].userId])
  {
    var listed := ProductRepository.GetProductsByCategories(users, products, categories, names);
    forall i | 0 <= i < |listed|
      ensures listed[i].id in products && products[listed[i].id] == listed[i]
    {
      ValueHasKey(products, listed[i]);
    }
  }

  /** In a consistent store every product that matches the requested names is listed. */
  lemma ProductsByCategoriesComplete(users: map<int, User>, products: map<int, Product>,
                                     categories: map<int, Category>, names: seq<string>)
    requires ReferencesResolve(users, products, categories)
    ensures var r := GetProductsByCategories(users, products, categories, names);
            forall k :: k in products && MatchesCategories(categories, products[k], names) ==>
              ProductResponseWithUser.FromDomain(products[k], users[products[k].userId]) in r
  {
    var listed := ProductRepository.GetProductsByCategories(users, products, categories, names);
    var r := GetProductsByCategories(users, products, categories, names);
    forall k | k in products && MatchesCategories(categories, products[k], names)
      ensures ProductResponseWithUser.FromDomain(products[k], users[products[k].userId]) in r
    {
      assert products[k] in listed;
      var i :| 0 <= i < |listed| && listed[i] == products[k];
      assert r[i] == ProductResponseWithUser.FromDomain(products[k], users[products[k].userId]);
    }
  }

  // ------------------------------------------------------ attaching categories

  /** GetByName as a lookup from a name to the id of the category it finds. */
  function CategoryIds(categories: map<int, Category>): string -> Option<int> {
    (n: string) => match CategoryRepository.GetByName(categories, n)
                   case None => None
                   case Some(c) => Some(c.id)
  }

  /** The ids `find` gives the names, or the position of the first name it finds
      nothing for. */
  function Resolve(find: string -> Option<int>, names: seq<string>): (r: Result<seq<int>, nat>)
    ensures r.Success? ==> |r.value| == |names|
    ensures r.Success? ==> forall i :: 0 <= i < |names| ==> find(names[i]).Some? && r.value[i] == find(names[i]).value
    ensures r.Failure? ==>
              && r.error < |names|
              && find(names[r.error]).None?
              && forall j :: 0 <= j < r.error ==> find(names[j]).Some?
    decreases |names|
  {
    if names == [] then Success([])
    else
      var front := names[..|names| - 1];
      assert forall j :: 0 <= j < |front| ==> front[j] == names[j];
      match Resolve(find, front)
      case Failure(n) => Failure(n)
      case Success(ids) =>
        match find(names[|names| - 1])
        case None => Failure(|names| - 1)
        case Some(c) => Success(ids + [c])
  }

  /** Resolving one more name that is found appends its id. */
  lemma ResolveStep(find: string -> Option<int>, names: seq<string>, i: nat, ids: seq<int>)
    requires i < |names| && Resolve(find, names[..i]) == Success(ids) && find(names[i]).Some?
    ensures Resolve(find, names[..i + 1]) == Success(ids + [find(names[i]).value])
  {
    assert names[..i + 1][..i] == names[..i];
  }

  /** A name that is not found after a prefix that resolves ends the resolution there. */
  lemma ResolveStops(find: string -> Option<int>, names: seq<string>, i: nat, ids: seq<int>)
    requires i < |names| && Resolve(find, names[..i]) == Success(ids) && find(names[i]).None?
    ensures Resolve(find, names) == Failure(i)
  {
    assert names[..i + 1][..i] == names[..i];
    ResolvePrefixFailure(find, names, i + 1);
  }

  /** The list resolves exactly when every name is found. */
  lemma ResolveSucceedsIffAllFound(find: string -> Option<int>, names: seq<string>)
    ensures Resolve(find, names).Success? <==> forall i :: 0 <= i < |names| ==> find(names[i]).Some?
  {
  }

  /** A name that fails to resolve in a prefix of the list is the failure of the whole
      list. */
  lemma {:induction false} ResolvePrefixFailure(find: string -> Option<int>, names: seq<string>, k: nat)
    requires k <= |names|
    requires Resolve(find, names[..k]).Failure?
    ensures Resolve(find, names) == Resolve(find, names[..k])
    decreases |names| - k
  {
    if k < |names| {
      assert names[..k + 1][..k] == names[..k];
      ResolvePrefixFailure(find, names, k + 1);
    } else {
      assert names[..k] == names;
    }
  }

  /** The product's category ids after attaching `ids` one by one, skipping an id that
      is already attached. */
  function Attach(current: seq<int>, ids: seq<int>): (r: seq<int>)
    ensures forall c :: c in r <==> c in current || c in ids
    ensures NoDup(current) ==> NoDup(r)
    ensures |current| <= |r| && r[..|current|] == current
    decreases |ids|
  {
    if ids == [] then current
    else
      var prev := Attach(current, ids[..|ids| - 1]);
      var c := ids[|ids| - 1];
      assert forall x :: x in ids <==> x in ids[..|ids| - 1] || x == c;
      if c in prev then prev else prev + [c]
  }

  /** Attaching one more id appends it unless it is attached already. */
  lemma AttachStep(current: seq<int>, ids: seq<int>, c: int)
    ensures Attach(current, ids + [c]) == var prev := Attach(current, ids); if c in prev then prev else prev + [c]
  {
    assert (ids + [c])[..|ids|] == ids;
  }

  /** Attaching ids that are all attached already changes nothing. */
  lemma {:induction false} AttachAbsorbs(current: seq<int>, ids: seq<int>)
    requires forall c :: c in ids ==> c in current
    ensures Attach(current, ids) == current
    decreases |ids|
  {
    if ids != [] {
      var front := ids[..|ids| - 1];
      assert forall c :: c in front ==> c in ids;
      AttachAbsorbs(current, front);
      assert ids[|ids| - 1] in ids;
    }
  }

  /** Attaching the same categories twice is the same as attaching them once. */
  lemma AttachIdempotent(current: seq<int>, ids: seq<int>)
    ensures Attach(Attach(current, ids), ids) == Attach(current, ids)
  {
    AttachAbsorbs(Attach(current, ids), ids);
  }

  /** A product's categories after attaching `names` in one request, or the name
      that made it fail. */
  function AttachNames(categories: map<int, Category>, current: seq<int>, names: seq<string>): (r: Result<seq<int>, string>)
    ensures r.Failure? <==> Resolve(CategoryIds(categories), names).Failure?
    ensures r.Failure? ==> r.error == names[Resolve(CategoryIds(categories), names).error]
    ensures r.Success? ==> r.value == Attach(current, Resolve(CategoryIds(categories), names).value)
  {
    match Resolve(CategoryIds(categories), names)
    case Failure(i) => Failure(names[i])
    case Success(ids) => Success(Attach(current, ids))
  }

  /** Sending the same names a second time after a first request succeeded leaves the
      product's categories as they were. */
  lemma AttachNamesTwice(categories: map<int, Category>, current: seq<int>, names: seq<string>)
    requires AttachNames(categories, current, names).Success?
    ensures AttachNames(categories, AttachNames(categories, current, names).value, names)
            == AttachNames(categories, current, names)
  {
    AttachIdempotent(current, Resolve(CategoryIds(categories), names).value);
  }

  /** Attaching keeps every earlier attachment at its place and adds every named
      category, each once. */
  lemma AttachNamesKeepsAndAdds(categories: map<int, Category>, current: seq<int>, names: seq<string>)
    requires NoDup(current)
    requires AttachNames(categories, current, names).Success?
    ensures var r := AttachNames(categories, current, names).value;
            && NoDup(r)
            && r[..|current|] == current
            && forall i :: 0 <= i < |names| ==> CategoryIds(categories)(names[i]).value in r
  {
    var ids := Resolve(CategoryIds(categories), names).value;
    assert forall i :: 0 <= i < |names| ==> ids[i] in ids;
  }

  /** The loop of AddProductCategory: each name is looked up with GetByName in turn,
      and the id of the category found is appended unless it is attached already;
      the first name that matches nothing ends the loop. */
  method AttachByName(categories: map<int, Category>, current: seq<int>, names: seq<string>)
    returns (r: Result<seq<int>, string>)
    requires CategoryRepository.KeysMatch(categories)
    ensures r == AttachNames(categories, current, names)
    ensures r.Success? ==> forall c :: c in r.value ==> c in current || c in categories
  {
    var attached := current;
    ghost var ids: seq<int> := [];
    var i := 0;
    while i < |names|
      invariant 0 <= i <= |names|
      invariant Resolve(CategoryIds(categories), names[..i]) == Success(ids)
      invariant attached == Attach(current, ids)
      invariant forall c :: c in ids ==> c in categories
    {
      var category := CategoryRepository.GetByName(categories, names[i]);
      assert CategoryIds(categories)(names[i]) == if category.Some? then Some(category.value.id) else None;
      if category.None? {
        ResolveStops(CategoryIds(categories), names, i, ids);
        return Failure(names[i]);
      }
      var id := category.value.id;
      CategoryRepository.FoundIsStored(categories, names[i]);
      ResolveStep(CategoryIds(categories), names, i, ids);
      assert Resolve(CategoryIds(categories), names[..i + 1]) == Success(ids + [id]);
      AttachStep(current, ids, id);
      if id !in attached {
        attached := attached + [id];
      }
      ids := ids + [id];
      i := i + 1;
    }
    assert names[..i] == names;
    return Success(attached);
  }

  // ------------------------------------------------------------------ writes

  class ProductService {
    const store: Store

    constructor (store: Store)
      ensures this.store == store
    {
      this.store := store;
    }

    /** Creates a product owned by the caller. The caller's user is looked up before
        the input is validated (the service's tests expect the reverse; the code is
        modelled); a name another product already has is rejected when the row is
        saved. */
    method AddProduct(dto: ProductDto, claims: seq<Claim>) returns (r: Result<ProductResponseWithUser, Exception>)
      requires dto.CreateProductDto?
      requires store.Valid()
      modifies store
      ensures store.Valid()
      ensures GetUserClaimId(claims).Failure? ==> r == Failure(GetUserClaimId(claims).error) && unchanged(store)
      ensures GetUserClaimId(claims).Success? ==>
                var userId := GetUserClaimId(claims).value;
                var errors := ProductErrors(dto);
                && (userId !in old(store.users) ==> r == Failure(Service(NotFound(UserNotFound))) && unchanged(store))
                && (userId in old(store.users) && errors != [] ==>
                      r == Failure(Service(BadRequest(errors[0]))) && unchanged(store))
                && (userId in old(store.users) && errors == [] && ProductNameTaken(old(store.products), dto.name, 0) ==>
                      r == Failure(Internal(UniqueViolation)) && unchanged(store))
                && (userId in old(store.users) && errors == [] && !ProductNameTaken(old(store.products), dto.name, 0) ==>
                      var p := Product(old(store.nextProductId), dto.name, dto.price, dto.discount, userId, []);
                      && r == Success(ProductResponseWithUser.FromDomain(p, old(store.users)[userId]))
                      && store.products == old(store.products)[p.id := p]
                      && p.id !in old(store.products)
                      && store.users == old(store.users) && store.categories == old(store.categories))
    {
      var claim := GetUserClaimId(claims);
      if claim.Failure? {
        return Failure(claim.error);
      }
      var userId := claim.value;
      var user := GetById(store.users, userId);
      if user.None? {
        return Failure(Service(NotFound(UserNotFound)));
      }
      var errors := ProductErrors(dto);
      if errors != [] {
        return Failure(Service(BadRequest(errors[0])));
      }
      var domain := dto.ToDomain().(userId := userId);
      var saved := store.AddProduct(domain);
      if saved.None? {
        return Failure(Internal(UniqueViolation));
      }
      return Success(ProductResponseWithUser.FromDomain(saved.value, user.value));
    }

    /** Attaches the named categories to the caller's product, in the order given,
        skipping those already attached. Nothing is saved when a name matches no
        category. */
    method AddProductCategory(names: seq<string>, productId: int, claims: seq<Claim>) returns (r: Result<(), Exception>)
      requires store.Valid()
      modifies store
      ensures store.Valid()
      ensures GetUserClaimId(claims).Failure? ==> r == Failure(GetUserClaimId(claims).error) && unchanged(store)
      ensures GetUserClaimId(claims).Success? && productId !in old(store.products) ==>
                r == Failure(Service(NotFound(ProductNotFound))) && unchanged(store)
      ensures GetUserClaimId(claims).Success? && productId in old(store.products)
              && old(store.products)[productId].userId != GetUserClaimId(claims).value ==>
                r == Failure(Service(Unauthorized)) && unchanged(store)
      ensures GetUserClaimId(claims).Success? && productId in old(store.products)
              && old(store.products)[productId].userId == GetUserClaimId(claims).value ==>
                var p := old(store.products)[productId];
                var attached := AttachNames(old(store.categories), p.categories, names);
                && (attached.Failure? ==>
                      r == Failure(Service(BadRequest(CategoryNameNotFounded(attached.error)))) && unchanged(store))
                && (attached.Success? ==>
                      && r == Success(())
                      && store.products == old(store.products)[productId := p.(categories := attached.value)]
                      && store.users == old(store.users) && store.categories == old(store.categories))
    {
      var claim := GetUserClaimId(claims);
      if claim.Failure? {
        return Failure(claim.error);
      }
      var userId := claim.value;
      GetByIdWithCategoriesIsLookup(store.products, productId);
      var found := GetByIdWithCategories(store.products, productId);
      if found.None? {
        return Failure(Service(NotFound(ProductNotFound)));
      }
      var product := found.value;
      if product.userId != userId {
        return Failure(Service(Unauthorized));
      }
      r := SaveCategories(product, names);
    }

    /** The second half of AddProductCategory, once the product is known to be the
        caller's: attach the names, then save the product unless a name was not found. */
    method SaveCategories(product: Product, names: seq<string>) returns (r: Result<(), Exception>)
      requires store.Valid()
      requires product.id in store.products && store.products[product.id] == product
      modifies store
      ensures store.Valid()
      ensures var attached := AttachNames(old(store.categories), product.categories, names);
              && (attached.Failure? ==>
                    r == Failure(Service(BadRequest(CategoryNameNotFounded(attached.error)))) && unchanged(store))
              && (attached.Success? ==>
                    && r == Success(())
                    && store.products == old(store.products)[product.id := product.(categories := attached.value)]
                    && store.users == old(store.users) && store.categories == old(store.categories))
    {
      var attached := AttachByName(store.categories, product.categories, names);
      if attached.Failure? {
        return Failure(Service(BadRequest(CategoryNameNotFounded(attached.error))));
      }
      OwnNameIsNotTaken(store.products, product.id);
      var ok := store.UpdateProduct(product.(categories := attached.value));
      return Success(());
    }

    /** Changes the name, price and discount of the caller's product. The product is
        looked up before the caller's identity is read, and the input is validated
        only after the ownership check (the service's tests expect an invalid input
        to be rejected before any lookup; the code is modelled). */
    method UpdateProduct(productId: int, dto: ProductDto, claims: seq<Claim>) returns (r: Result<ProductResponse, Exception>)
      requires dto.UpdateProductDto?
      requires store.Valid()
      modifies store
      ensures store.Valid()
      ensures productId !in old(store.products) ==> r == Failure(Service(NotFound(ProductNotFound))) && unchanged(store)
      ensures productId in old(store.products) && GetUserClaimId(claims).Failure? ==>
                r == Failure(GetUserClaimId(claims).error) && unchanged(store)
      ensures productId in old(store.products) && GetUserClaimId(claims).Success? ==>
                var p := old(store.products)[productId];
                var updated := p.(name := dto.name, discount := dto.discount, price := dto.price);
                var errors := ProductErrors(dto);
                && (p.userId != GetUserClaimId(claims).value ==> r == Failure(Service(Unauthorized)) && unchanged(store))
                && (p.userId == GetUserClaimId(claims).value && errors != [] ==>
                      r == Failure(Service(BadRequest(errors[0]))) && unchanged(store))
                && (p.userId == GetUserClaimId(claims).value && errors == [] && ProductNameTaken(old(store.products), dto.name, productId) ==>
                      r == Failure(Internal(UniqueViolation)) && unchanged(store))
                && (p.userId == GetUserClaimId(claims).value && errors == [] && !ProductNameTaken(old(store.products), dto.name, productId) ==>
                      && r == Success(ProductResponse.FromDomain(updated))
                      && store.products == old(store.products)[productId := updated]
                      && store.users == old(store.users) && store.categories == old(store.categories))
    {
      var found := GetById(store.products, productId);
      if found.None? {
        return Failure(Service(NotFound(ProductNotFound)));
      }
      var claim := GetUserClaimId(claims);
      if claim.Failure? {
        return Failure(claim.error);
      }
      var product := found.value;
      if product.userId != claim.value {
        return Failure(Service(Unauthorized));
      }
      var errors := ProductErrors(dto);
      if errors != [] {
        return Failure(Service(BadRequest(errors[0])));
      }
      var updated := product.(name := dto.name, discount := dto.discount, price := dto.price);
      var ok := store.UpdateProduct(updated);
      if !ok {
        return Failure(Internal(UniqueViolation));
      }
      return Success(ProductResponse.FromDomain(updated));
    }

    /** Deletes the caller's product. */
    method DeleteProduct(id: int, claims: seq<Claim>) returns (r: Result<(), Exception>)
      requires store.Valid()
      modifies store
      ensures store.Valid()
      ensures id !in old(store.products) ==> r == Failure(Service(NotFound(ProductNotFound))) && unchanged(store)
      ensures id in old(store.products) && GetUserClaimId(claims).Failure? ==>
                r == Failure(GetUserClaimId(claims).error) && unchanged(store)
      ensures id in old(store.products) && GetUserClaimId(claims).Success? ==>
                && (old(store.products)[id].userId != GetUserClaimId(claims).value ==>
                      r == Failure(Service(Unauthorized)) && unchanged(store))
                && (old(store.products)[id].userId == GetUserClaimId(claims).value ==>
                      && r == Success(())
                      && store.products == old(store.products) - {id}
                      && store.users == old(store.users) && store.categories == old(store.categories))
    {
      var found := GetById(store.products, id);
      if found.None? {
        return Failure(Service(NotFound(ProductNotFound)));
      }
      var claim := GetUserClaimId(claims);
      if claim.Failure? {
        return Failure(claim.error);
      }
      if found.value.userId != claim.value {
        return Failure(Service(Unauthorized));
      }
      store.RemoveProduct(id);
      return Success(());
    }
  }
}
