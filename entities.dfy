/** The three persisted entities. Navigation properties (a user's products, a
    category's products, a product's user) are not stored: they are derived from the
    tables by the repository queries. A product keeps the ids of its categories, in the
    order they were attached. */
module Entities {

  datatype User = User(id: int, name: string, email: string, password: string)

  datatype Product = Product(
    id: int,
    name: string,
    price: real,
    discount: real,
    userId: int,
    categories: seq<int>)

  datatype Category = Category(id: int, name: string)
}
