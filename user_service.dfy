/** UserService: listing and reading users, a caller's own products, signing up,
    updating the caller's profile and deleting a user. */
module UserServices {
  import opened Wrappers
  import opened Errors
  import opened Entities
  import opened Tables
  import opened Dtos
  import opened AuthenticationHelper
  import opened UserRepository
  import opened UserValidators
  import ProductRepository
  import opened Persistence

  /** Every user's public view, in table order. */
  function GetUsers(users: map<int, User>): (r: seq<UserResponse>)
    ensures |r| == |users|
    ensures forall i :: 0 <= i < |r| ==> exists k :: k in users && r[i] == UserResponse.FromDomain(users[k])
    ensures forall k :: k in users ==> UserResponse.FromDomain(users[k]) in r
  {
    SelectRowsMembership(users, UserResponse.FromDomain);
    SelectRows(users, UserResponse.FromDomain)
  }

  /** The user is read by key without its products, so its product list is empty. */
  function GetUser(users: map<int, User>, id: int): (r: Result<UserResponseWithProducts, Exception>)
    ensures r.Success? <==> id in users
    ensures r.Success? ==> r.value == UserResponseWithProducts.FromDomain(users[id], [])
    ensures r.Success? ==> r.value.products == []
    ensures r.Failure? ==> r.error == Service(NotFound(UserNotFound))
  {
    match GetById(users, id)
    case None => Failure(Service(NotFound(UserNotFound)))
    case Some(u) => Success(UserResponseWithProducts.FromDomain(u, []))
  }

  /** The products of the user the claims identify. An id with no user behind it is
      not an error: the list is then empty. */
  function GetUserProducts(users: map<int, User>, products: map<int, Product>, claims: seq<Claim>)
    : (r: Result<seq<ProductResponse>, Exception>)
    ensures r.Success? <==> GetUserClaimId(claims).Success?
    ensures r.Failure? ==> r.error == GetUserClaimId(claims).error
  {
    match GetUserClaimId(claims)
    case Failure(e) => Failure(e)
    case Success(userId) =>
      Success(Select(ProductRepository.GetByUserId(users, products, userId), ProductResponse.FromDomain))
  }

  class UserService {
    const store: Store

    constructor (store: Store)
      ensures this.store == store
    {
      this.store := store;
    }

    /** Signs a user up. A validation failure is thrown as a NotFound carrying the
        first error (the tests expect a BadRequest; the code is modelled). */
    method AddUser(dto: UserDto) returns (r: Result<UserResponseWithProducts, Exception>)
      requires dto.CreateUserDto?
      requires store.Valid()
      modifies store
      ensures store.Valid()
      ensures var errors := CreateUserErrors(old(store.users), dto);
              && (errors != [] ==> r == Failure(Service(NotFound(errors[0]))) && unchanged(store))
              && (errors == [] ==>
                    var u := User(old(store.nextUserId), dto.name, dto.email, dto.declaredPassword);
                    && r == Success(UserResponseWithProducts(u.id, u.name, u.email, []))
                    && store.users == old(store.users)[u.id := u]
                    && u.id !in old(store.users)
                    && store.products == old(store.products) && store.categories == old(store.categories))
    {
      var errors := CreateUserErrors(store.users, dto);
      if errors != [] {
        return Failure(Service(NotFound(errors[0])));
      }
      var saved := store.AddUser(dto.ToDomain());
      return Success(UserResponseWithProducts.FromDomain(saved, []));
    }

    /** Changes the caller's name and email. The identity claim is read first, then
        the input is validated, and only then is the user looked up. */
    method UpdateUser(dto: UserDto, claims: seq<Claim>) returns (r: Result<UserResponse, Exception>)
      requires dto.UpdateUserDto?
      requires store.Valid()
      modifies store
      ensures store.Valid()
      ensures GetUserClaimId(claims).Failure? ==> r == Failure(GetUserClaimId(claims).error) && unchanged(store)
      ensures GetUserClaimId(claims).Success? ==>
                var userId := GetUserClaimId(claims).value;
                var errors := UpdateUserErrors(old(store.users), dto, userId);
                && (errors != [] ==> r == Failure(Service(BadRequest(errors[0]))) && unchanged(store))
                && (errors == [] && userId !in old(store.users) ==>
                      r == Failure(Service(NotFound(UserNotFound))) && unchanged(store))
                && (errors == [] && userId in old(store.users) ==>
                      var u := old(store.users)[userId].(name := dto.name, email := dto.email);
                      && r == Success(UserResponse(userId, dto.name, dto.email))
                      && store.users == old(store.users)[userId := u]
                      && store.products == old(store.products) && store.categories == old(store.categories))
    {
      var claim := GetUserClaimId(claims);
      if claim.Failure? {
        return Failure(claim.error);
      }
      var userId := claim.value;
      var errors := UpdateUserErrors(store.users, dto, userId);
      if errors != [] {
        return Failure(Service(BadRequest(errors[0])));
      }
      var found := GetById(store.users, userId);
      if found.None? {
        return Failure(Service(NotFound(UserNotFound)));
      }
      var updated := found.value.(email := dto.email, name := dto.name);
      store.UpdateUser(updated);
      return Success(UserResponse.FromDomain(updated));
    }

    /** Deletes a user and the products it owns. */
    method DeleteUser(id: int) returns (r: Result<(), Exception>)
      requires store.Valid()
      modifies store
      ensures store.Valid()
      ensures id !in old(store.users) ==> r == Failure(Service(NotFound(UserNotFound))) && unchanged(store)
      ensures id in old(store.users) ==>
                && r == Success(())
                && store.users == old(store.users) - {id}
                && store.products == WithoutOwner(old(store.products), id)
                && store.categories == old(store.categories)
      // the cascade leaves no product of the deleted user and keeps every other one
      ensures id in old(store.users) ==>
                && (forall k :: k in store.products ==> store.products[k].userId != id)
                && (forall k :: k in old(store.products) && old(store.products)[k].userId != id ==> k in store.products)
    {
      var found := GetById(store.users, id);
      if found.None? {
        return Failure(Service(NotFound(UserNotFound)));
      }
      store.RemoveUser(id);
      return Success(());
    }
  }

  /** The listed products are exactly the caller's: each one is owned by the user the
      claims name, and, when that user exists, each product it owns is listed. */
  lemma UserProductsAreOwned(users: map<int, User>, products: map<int, Product>, claims: seq<Claim>)
    requires GetUserClaimId(claims).Success?
    ensures var r := GetUserProducts(users, products, claims).value;
            var userId := GetUserClaimId(claims).value;
            && (forall i :: 0 <= i < |r| ==>
                  exists p :: p in products.Values && p.userId == userId && r[i] == ProductResponse.FromDomain(p))
            && (userId in users ==>
                  forall k :: k in products && products[k].userId == userId ==>
                    ProductResponse.FromDomain(products[k]) in r)
  {
    var userId := GetUserClaimId(claims).value;
    assert GetUserProducts(users, products, claims).value
           == Select(ProductRepository.GetByUserId(users, products, userId), ProductResponse.FromDomain);
    ListedAreOwned(users, products, userId);
    if userId in users {
      OwnedAreListed(users, products, userId);
    }
  }

  lemma ListedAreOwned(users: map<int, User>, products: map<int, Product>, userId: int)
    ensures var r := Select(ProductRepository.GetByUserId(users, products, userId), ProductResponse.FromDomain);
            forall i :: 0 <= i < |r| ==>
              exists p :: p in products.Values && p.userId == userId && r[i] == ProductResponse.FromDomain(p)
  {
    var owned := ProductRepository.GetByUserId(users, products, userId);
    var r := Select(owned, ProductResponse.FromDomain);
    forall i | 0 <= i < |r|
      ensures exists p :: p in products.Values && p.userId == userId && r[i] == ProductResponse.FromDomain(p)
    {
      assert owned[i] in products.Values && owned[i].userId == userId;
    }
  }

  lemma OwnedAreListed(users: map<int, User>, products: map<int, Product>, userId: int)
    requires userId in users
    ensures var r := Select(ProductRepository.GetByUserId(users, products, userId), ProductResponse.FromDomain);
            forall k :: k in products && products[k].userId == userId ==> ProductResponse.FromDomain(products[k]) in r
  {
    var owned := ProductRepository.GetByUserId(users, products, userId);
    var r := Select(owned, ProductResponse.FromDomain);
    forall k | k in products && products[k].userId == userId
      ensures ProductResponse.FromDomain(products[k]) in r
    {
      SelectMembership(owned, ProductResponse.FromDomain, products[k]);
    }
  }
}
