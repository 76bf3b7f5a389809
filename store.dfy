/** The database context behind the repositories: the three tables, the identity
    counters of their keys, and the writes of the generic repository (Add, Update,
    Remove), each saved at once. Deleting a user deletes the products that reference
    it (the foreign key from a product to its user is required, so it cascades), and
    deleting a category or a product deletes its rows of the product-category join
    table. The unique index on product names makes a write that repeats a stored name
    fail; the case-insensitive uniqueness of emails and category names is what the
    validators keep, and it implies the unique indexes on those columns. */
module Persistence {
  import opened Wrappers
  import opened Entities
  import opened Tables
  import UserRepository
  import CategoryRepository
  import ProductRepository

  /** Every key is the id of its row, is positive and was issued by the counter. */
  predicate IdsIssued<T>(keys: set<int>, next: int) {
    forall k :: k in keys ==> 1 <= k < next
  }

  /** Foreign keys: every product's user exists and every attached category exists,
      each attached once. */
  predicate ReferencesResolve(users: map<int, User>, products: map<int, Product>, categories: map<int, Category>) {
    forall k :: k in products ==>
      && products[k].userId in users
      && NoDup(products[k].categories)
      && forall c :: c in products[k].categories ==> c in categories
  }

  /** Whether a product other than the one with id `except` already has this name
      (compared exactly, as the unique index does). */
  predicate ProductNameTaken(products: map<int, Product>, name: string, except: int) {
    exists k :: k in products && k != except && products[k].name == name
  }

  predicate ProductNamesUnique(products: map<int, Product>) {
    forall a, b :: a in products && b in products && a != b ==> products[a].name != products[b].name
  }

  /** Saving a product under its own name again clashes with no other product. */
  lemma OwnNameIsNotTaken(products: map<int, Product>, id: int)
    requires ProductNamesUnique(products) && id in products
    ensures !ProductNameTaken(products, products[id].name, id)
  {
  }

  /** The products left after the cascade that deleting user `userId` triggers. */
  function WithoutOwner(products: map<int, Product>, userId: int): (r: map<int, Product>)
    ensures forall k :: k in r <==> k in products && products[k].userId != userId
    ensures forall k :: k in r ==> r[k] == products[k]
  {
    map k | k in products && products[k].userId != userId :: products[k]
  }

  /** The products after deleting category `categoryId` removed its join rows: the
      same products, each attached to the same categories except that one. */
  function WithoutCategory(products: map<int, Product>, categoryId: int): (r: map<int, Product>)
    ensures r.Keys == products.Keys
    ensures forall k :: k in r ==> r[k] == products[k].(categories := r[k].categories)
    ensures forall k, c :: k in r ==> (c in r[k].categories <==> c in products[k].categories && c != categoryId)
    ensures forall k :: k in r && NoDup(products[k].categories) ==> NoDup(r[k].categories)
  {
    map k | k in products :: products[k].(categories := Filter(products[k].categories, (c: int) => c != categoryId))
  }

  class Store {
    var users: map<int, User>
    var products: map<int, Product>
    var categories: map<int, Category>
    var nextUserId: int
    var nextProductId: int
    var nextCategoryId: int

    ghost predicate Valid()
      reads this
    {
      && UserRepository.KeysMatch(users) && IdsIssued<User>(users.Keys, nextUserId)
      && ProductRepository.KeysMatch(products) && IdsIssued<Product>(products.Keys, nextProductId)
      && CategoryRepository.KeysMatch(categories) && IdsIssued<Category>(categories.Keys, nextCategoryId)
      && 1 <= nextUserId && 1 <= nextProductId && 1 <= nextCategoryId
      && ReferencesResolve(users, products, categories)
      && UserRepository.EmailsUnique(users)
      && CategoryRepository.NamesUnique(categories)
      && ProductNamesUnique(products)
    }

    constructor ()
      ensures Valid()
      ensures users == map[] && products == map[] && categories == map[]
      ensures nextUserId == 1 && nextProductId == 1 && nextCategoryId == 1
    {
      users, products, categories := map[], map[], map[];
      nextUserId, nextProductId, nextCategoryId := 1, 1, 1;
    }

    /** Inserts a user under the next identity value. */
    method AddUser(u: User) returns (saved: User)
      requires Valid()
      requires !UserRepository.EmailAlredyInUse(users, u.email, 0)
      modifies this
      ensures Valid()
      ensures saved == u.(id := old(nextUserId))
      ensures users == old(users)[saved.id := saved] && saved.id !in old(users)
      ensures nextUserId == old(nextUserId) + 1
      ensures products == old(products) && categories == old(categories)
      ensures nextProductId == old(nextProductId) && nextCategoryId == old(nextCategoryId)
    {
      saved := u.(id := nextUserId);
      users := users[saved.id := saved];
      nextUserId := nextUserId + 1;
    }

    /** Saves the new name and email of a stored user. */
    method UpdateUser(u: User)
      requires Valid()
      requires u.id in users
      requires !UserRepository.EmailAlredyInUse(users, u.email, u.id)
      modifies this`users
      ensures Valid()
      ensures users == old(users)[u.id := u]
    {
      users := users[u.id := u];
      assert users.Keys == old(users).Keys;
    }

    /** Deletes a user and, by cascade, the products it owns. */
    method RemoveUser(id: int)
      requires Valid()
      requires id in users
      modifies this`users, this`products
      ensures Valid()
      ensures users == old(users) - {id}
      ensures products == WithoutOwner(old(products), id)
    {
      users := users - {id};
      products := WithoutOwner(products, id);
    }

    /** Inserts a product under the next identity value; fails, changing nothing, when
      another product has the same name. */
    method AddProduct(p: Product) returns (saved: Option<Product>)
      requires Valid()
      requires p.userId in users && p.categories == []
      modifies this
      ensures Valid()
      ensures saved.None? <==> ProductNameTaken(old(products), p.name, 0)
      ensures saved.None? ==> unchanged(this)
      ensures saved.Some? ==>
                && saved.value == p.(id := old(nextProductId))
                && products == old(products)[saved.value.id := saved.value]
                && saved.value.id !in old(products)
                && nextProductId == old(nextProductId) + 1
                && users == old(users) && categories == old(categories)
                && nextUserId == old(nextUserId) && nextCategoryId == old(nextCategoryId)
    {
      if exists k :: k in products && k != 0 && products[k].name == p.name {
        return None;
      }
      var row := p.(id := nextProductId);
      products := products[row.id := row];
      nextProductId := nextProductId + 1;
      return Some(row);
    }

    /** Saves a stored product's row as given; fails, changing nothing, when another
      product has the new name. */
    method UpdateProduct(p: Product) returns (ok: bool)
      requires Valid()
      requires p.id in products
      requires p.userId in users && NoDup(p.categories)
      requires forall c :: c in p.categories ==> c in categories
      modifies this`products
      ensures Valid()
      ensures ok <==> !ProductNameTaken(old(products), p.name, p.id)
      ensures products == if ok then old(products)[p.id := p] else old(products)
    {
      if exists k :: k in products && k != p.id && products[k].name == p.name {
        return false;
      }
      products := products[p.id := p];
      return true;
    }

    /** Deletes a product (and its join rows, which live in the product here). */
    method RemoveProduct(id: int)
      requires Valid()
      requires id in products
      modifies this`products
      ensures Valid()
      ensures products == old(products) - {id}
    {
      products := products - {id};
    }

    /** Inserts a category under the next identity value. */
    method AddCategory(c: Category) returns (saved: Category)
      requires Valid()
      requires !CategoryRepository.NameAlreadyInUse(categories, c.name, 0)
      modifies this
      ensures Valid()
      ensures saved == c.(id := old(nextCategoryId))
      ensures categories == old(categories)[saved.id := saved] && saved.id !in old(categories)
      ensures nextCategoryId == old(nextCategoryId) + 1
      ensures users == old(users) && products == old(products)
      ensures nextUserId == old(nextUserId) && nextProductId == old(nextProductId)
    {
      saved := c.(id := nextCategoryId);
      categories := categories[saved.id := saved];
      nextCategoryId := nextCategoryId + 1;
    }

    /** Saves the new name of a stored category. */
    method UpdateCategory(c: Category)
      requires Valid()
      requires c.id in categories
      requires !CategoryRepository.NameAlreadyInUse(categories, c.name, c.id)
      modifies this`categories
      ensures Valid()
      ensures categories == old(categories)[c.id := c]
    {
      categories := categories[c.id := c];
      assert categories.Keys == old(categories).Keys;
    }

    /** Deletes a category and, by cascade, its join rows. */
    method RemoveCategory(id: int)
      requires Valid()
      requires id in categories
      modifies this`categories, this`products
      ensures Valid()
      ensures categories == old(categories) - {id}
      ensures products == WithoutCategory(old(products), id)
    {
      categories := categories - {id};
      products := WithoutCategory(products, id);
    }
  }
}
