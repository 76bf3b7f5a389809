/** Request and response records and their conversions to and from the entities.
    A positional base record and the records derived from it are one datatype here:
    the base record's constructor, then one constructor per derived record, with the
    base record's properties as member functions that apply the defaults the derived
    records pass to their base. */
module Dtos {
  import opened Wrappers
  import opened Entities

  // ---------------------------------------------------------------- users

  datatype UserDto =
    | UserDto(name: string, email: string, declaredPassword: string, declaredId: int)
    | CreateUserDto(name: string, email: string, declaredPassword: string, confPassword: string)
    | UpdateUserDto(name: string, email: string)
  {
    /** UpdateUserDto passes "" as its base record's password. */
    function Password(): (pw: string)
      ensures UpdateUserDto? ==> pw == ""
      ensures !UpdateUserDto? ==> pw == declaredPassword
    {
      if UpdateUserDto? then "" else declaredPassword
    }

    /** The derived records leave Id at its default, 0. */
    function Id(): (id: int)
      ensures !UserDto? ==> id == 0
    {
      if UserDto? then declaredId else 0
    }

    /** Copies Id, Name, Email and Password; a CreateUserDto's ConfPassword is dropped. */
    function ToDomain(): (u: User)
      ensures u.id == Id() && u.name == name && u.email == email && u.password == Password()
      ensures CreateUserDto? ==> u == User(0, name, email, declaredPassword)
    {
      User(Id(), name, email, Password())
    }
  }

  /** The public view of a user: the password is not part of it. */
  datatype UserResponse = UserResponse(id: int, name: string, email: string) {
    static function FromDomain(u: User): (r: UserResponse)
      ensures r.id == u.id && r.name == u.name && r.email == u.email
    {
      UserResponse(u.id, u.name, u.email)
    }
  }

  datatype UserResponseWithProducts =
    UserResponseWithProducts(id: int, name: string, email: string, products: seq<ProductResponse>)
  {
    /** `loaded` is the user's Products navigation as the query that fetched the user
        loaded it. */
    static function FromDomain(u: User, loaded: seq<Product>): (r: UserResponseWithProducts)
      ensures r.id == u.id && r.name == u.name && r.email == u.email
      ensures |r.products| == |loaded|
      ensures forall i :: 0 <= i < |loaded| ==> r.products[i] == ProductResponse.FromDomain(loaded[i])
    {
      UserResponseWithProducts(u.id, u.name, u.email,
        seq(|loaded|, i requires 0 <= i < |loaded| => ProductResponse.FromDomain(loaded[i])))
    }
  }

  /** Two users that differ only in their passwords have the same public view. */
  lemma UserResponseHidesPassword(u: User, password: string)
    ensures UserResponse.FromDomain(u) == UserResponse.FromDomain(u.(password := password))
    ensures UserResponseWithProducts.FromDomain(u, []) == UserResponseWithProducts.FromDomain(u.(password := password), [])
  {
  }

  // ------------------------------------------------------------- products

  datatype ProductDto =
    | ProductDto(name: string, price: real, discount: real, declaredUserId: int, declaredId: int)
    | CreateProductDto(name: string, price: real, discount: real)
    | UpdateProductDto(name: string, price: real, discount: real)
  {
    function UserId(): (id: int)
      ensures !ProductDto? ==> id == 0
    {
      if ProductDto? then declaredUserId else 0
    }

    function Id(): (id: int)
      ensures !ProductDto? ==> id == 0
    {
      if ProductDto? then declaredId else 0
    }

    /** Copies Id, Name, Price, Discount and UserId; the new entity has no categories. */
    function ToDomain(): (p: Product)
      ensures p.id == Id() && p.userId == UserId()
      ensures p.name == name && p.price == price && p.discount == discount
      ensures p.categories == []
      ensures !ProductDto? ==> p.id == 0 && p.userId == 0
    {
      Product(Id(), name, price, discount, UserId(), [])
    }
  }

  datatype ProductResponse =
    ProductResponse(id: int, name: string, price: real, discount: real, userId: int)
  {
    static function FromDomain(p: Product): (r: ProductResponse)
      ensures r.id == p.id && r.name == p.name && r.price == p.price
      ensures r.discount == p.discount && r.userId == p.userId
    {
      ProductResponse(p.id, p.name, p.price, p.discount, p.userId)
    }
  }

  datatype ProductResponseWithUser =
    ProductResponseWithUser(id: int, name: string, price: real, discount: real, user: UserResponse)
  {
    /** `owner` is the product's User navigation. */
    static function FromDomain(p: Product, owner: User): (r: ProductResponseWithUser)
      ensures r.id == p.id && r.name == p.name && r.price == p.price && r.discount == p.discount
      ensures r.user == UserResponse.FromDomain(owner)
    {
      ProductResponseWithUser(p.id, p.name, p.price, p.discount, UserResponse.FromDomain(owner))
    }
  }

  /** The user that stands in for a product whose User navigation is null. */
  const PlaceholderUser := User(3, "nam", "", "asddas")

  datatype ProductResponseWithUserAndCategories =
    ProductResponseWithUserAndCategories(
      id: int, name: string, price: real, discount: real,
      user: UserResponse, categories: seq<CategoryResponse>)
  {
    /** `owner` is the User navigation (None when it is null) and `loaded` the
        Categories navigation, in the order the query loaded it. */
    static function FromDomain(p: Product, owner: Option<User>, loaded: seq<Category>)
      : (r: ProductResponseWithUserAndCategories)
      ensures r.id == p.id && r.name == p.name && r.price == p.price && r.discount == p.discount
      ensures owner.Some? ==> r.user == UserResponse.FromDomain(owner.value)
      ensures owner.None? ==> r.user == UserResponse(3, "nam", "")
      ensures |r.categories| == |loaded|
      ensures forall i :: 0 <= i < |loaded| ==> r.categories[i] == CategoryResponse.FromDomain(loaded[i])
    {
      var user := if owner.Some? then owner.value else PlaceholderUser;
      ProductResponseWithUserAndCategories(p.id, p.name, p.price, p.discount,
        UserResponse.FromDomain(user),
        seq(|loaded|, i requires 0 <= i < |loaded| => CategoryResponse.FromDomain(loaded[i])))
    }
  }

  // ----------------------------------------------------------- categories

  datatype CategoryDto =
    | CategoryDto(name: string, declaredId: Option<int>)
    | CreateCategoryDto(name: string)
    | UpdateCategoryDto(name: string)
  {
    /** The nullable Id of the base record; the derived records default it to 0. */
    function Id(): (id: Option<int>)
      ensures !CategoryDto? ==> id == Some(0)
    {
      if CategoryDto? then declaredId else Some(0)
    }

    /** A null Id becomes 0; the new entity has no products. */
    function ToDomain(): (c: Category)
      ensures c.name == name
      ensures Id().None? ==> c.id == 0
      ensures Id().Some? ==> c.id == Id().value
      ensures CategoryResponse.FromDomain(c) == CategoryResponse(Id().GetOr(0), name)
    {
      Category(Id().GetOr(0), name)
    }
  }

  datatype CategoryResponse = CategoryResponse(id: int, name: string) {
    static function FromDomain(c: Category): (r: CategoryResponse)
      ensures r.id == c.id && r.name == c.name
    {
      CategoryResponse(c.id, c.name)
    }
  }
}
