/** The product queries. Including the User navigation of a product is an inner join
    on the required foreign key, so a query that includes it returns only products
    whose owner row exists; including Categories is an outer join and drops nothing.
    Category names inside a query are compared by the column's collation, which tells
    case apart. */
module ProductRepository {
  import opened Wrappers
  import opened Entities
  import opened Tables

  predicate KeysMatch(products: map<int, Product>) {
    forall k :: k in products ==> products[k].id == k
  }

  /** `Include(Categories).FirstOrDefault(e => e.Id == id)`. */
  function GetByIdWithCategories(products: map<int, Product>, id: int): (r: Option<Product>)
    ensures r.None? <==> forall k :: k in products ==> products[k].id != id
    ensures r.Some? ==> r.value in products.Values && r.value.id == id
  {
    FirstWhere(products, (p: Product) => p.id == id)
  }

  /** On a table whose keys are the rows' ids, the query finds the row with that key. */
  lemma GetByIdWithCategoriesIsLookup(products: map<int, Product>, id: int)
    requires KeysMatch(products)
    ensures GetByIdWithCategories(products, id) == GetById(products, id)
  {
    if id in products {
      var p := GetByIdWithCategories(products, id).value;
      ValueHasKey(products, p);
      var k :| k in products && products[k] == p;
    }
  }

  /** The products of one user, with their owner included. */
  function GetByUserId(users: map<int, User>, products: map<int, Product>, userId: int): (r: seq<Product>)
    ensures forall i :: 0 <= i < |r| ==> r[i] in products.Values && r[i].userId == userId && userId in users
    ensures userId in users ==>
              forall k :: k in products && products[k].userId == userId ==> products[k] in r
    ensures userId !in users ==> r == []
  {
    var r := Where(products, (p: Product) => p.userId == userId && p.userId in users);
    assert |r| > 0 ==> r[0].userId in users;
    r
  }

  /** Every product whose owner is present, with that owner included. */
  function GetAllWithUsers(users: map<int, User>, products: map<int, Product>): (r: seq<Product>)
    ensures forall i :: 0 <= i < |r| ==> r[i] in products.Values && r[i].userId in users
    ensures forall k :: k in products && products[k].userId in users ==> products[k] in r
  {
    Where(products, (p: Product) => p.userId in users)
  }

  /** The names of the categories a product is attached to. */
  function CategoryNames(categories: map<int, Category>, p: Product): (names: set<string>)
    ensures forall n :: n in names <==> exists c :: c in p.categories && c in categories && categories[c].name == n
  {
    set c | c in p.categories && c in categories :: categories[c].name
  }

  /** The filter of GetProductsByCategories: the number of distinct names common to
      the product's categories and the requested list equals the LENGTH of the list. */
  predicate MatchesCategories(categories: map<int, Category>, p: Product, names: seq<string>) {
    |CategoryNames(categories, p) * (set n | n in names)| == |names|
  }

  function GetProductsByCategories(users: map<int, User>, products: map<int, Product>,
                                   categories: map<int, Category>, names: seq<string>): (r: seq<Product>)
    ensures forall i :: 0 <= i < |r| ==>
              r[i] in products.Values && r[i].userId in users && MatchesCategories(categories, r[i], names)
    ensures forall k :: k in products && products[k].userId in users && MatchesCategories(categories, products[k], names) ==>
              products[k] in r
  {
    Where(products, (p: Product) => p.userId in users && MatchesCategories(categories, p, names))
  }

  lemma SubsetCardinality(a: set<string>, b: set<string>)
    requires a <= b
    ensures |a| <= |b|
    ensures |a| == |b| ==> a == b
  {
    if a != b {
      var x :| x in b && x !in a;
      assert a <= b - {x};
      SubsetCardinality(a, b - {x});
    }
  }

  /** For a list without repeated names, a product matches exactly when each listed
      name is the name of one of its categories. */
  lemma MatchesIffHasEveryName(categories: map<int, Category>, p: Product, names: seq<string>)
    requires NoDup(names)
    ensures MatchesCategories(categories, p, names) <==>
              forall i :: 0 <= i < |names| ==> names[i] in CategoryNames(categories, p)
  {
    var wanted := set n | n in names;
    var common := CategoryNames(categories, p) * wanted;
    NoDupCardinality(names);
    SubsetCardinality(common, wanted);
    if i :| 0 <= i < |names| && names[i] !in CategoryNames(categories, p) {
      assert names[i] in names;
      assert names[i] in wanted && names[i] !in common;
    } else {
      assert common == wanted;
    }
  }

  /** A list that repeats a name is longer than the set of names it could share with
      any product, so it matches nothing. */
  lemma RepeatedNameMatchesNothing(categories: map<int, Category>, p: Product, names: seq<string>)
    requires !NoDup(names)
    ensures !MatchesCategories(categories, p, names)
  {
    var wanted := set n | n in names;
    NoDupCardinality(names);
    SubsetCardinality(CategoryNames(categories, p) * wanted, wanted);
  }

  /** An empty list matches every product. */
  lemma EmptyListMatchesAll(categories: map<int, Category>, p: Product)
    ensures MatchesCategories(categories, p, [])
  {
    var none: seq<string> := [];
    assert (set n | n in none) == {};
  }
}
