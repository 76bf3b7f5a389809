# catalog-api policy core in Dafny

This project models the service layer of catalog-api, a small ASP.NET catalog of users, products and categories, and proves properties of it. The model covers:

- the four services: products, categories, users, and sign-in/authentication;
- the validators the services run;
- the repository queries they call;
- the conversions between entities and request/response records;
- the extraction of the caller's id from a token's claims;
- the exception handler that turns whatever a service threw into an HTTP problem response.

The database is the class `Persistence.Store`:

- Each table (users, products, categories) is a map from id to row.
- Each table has an identity counter.
- Its invariant `Store.Valid()` holds:
  - keys are the row ids;
  - ids are positive and were issued by the counter;
  - every product's owner and attached categories exist;
  - products attach each category once;
  - emails and category names are unique ignoring case;
  - product names are unique exactly, as the unique index has them.
- Every write method keeps that invariant.

The services are classes that hold the store. Their writes are methods that say:

- the result, for every branch of the source;
- the whole new state;
- that nothing at all changes when an error is returned.

Reads are functions of the tables.

The error taxonomy is modelled as follows:

- A service error is:
  - NotFound (404),
  - BadRequest (400),
  - or Unauthorized (401).
- Each carries one of the message constants of the error classes.
- Anything else a service can raise is an `Internal` exception, which the handler turns into a 500. There are three of them:
  - the two failures of `long.Parse` on the identity claim;
  - a save rejected by the unique index on product names.

Modelling choices:

- Table scans (`GetAll`, `FirstOrDefault`, `Where`) visit rows in ascending id order (`Tables.SortedIds`).
- `Include(e => e.User)` is an inner join on the required owner key, so those queries only return products whose owner row exists. `Include(e => e.Categories)` drops nothing.
- `ILIKE` and `OrdinalIgnoreCase` comparisons are equality after folding ASCII and Latin-1 letters to lower case (`Text.EqualsIgnoreCase`).
- `GetByEmail` and the category-name filter compare exactly.
- FluentValidation runs every rule of a validator in order, and the services throw the first message (`Validation.Validate`).
- `NotEmpty` on a string rejects blank strings: empty or all white space in the sense of `char.IsWhiteSpace`.
- `EmailAddress` is the library's default check: exactly one `@`, neither first nor last.

Where the code and its tests disagree, the model follows the code:

- `AddUser` throws a NotFound for a validation failure. The tests expect a 400. (`UserServices.UserService.AddUser`)
- `AddProduct` looks up the caller's user before validating the input, so an unknown user wins over an invalid product. The service test for an invalid product (test/CatalogApi.Tests/Services/TestProductService.cs:106-118) expects the user never to be looked up.
- `UpdateProduct` looks the product up, reads the identity claim and checks ownership before validating the input. The service test for an invalid input (test/CatalogApi.Tests/Services/TestProductService.cs:159-172) expects the product never to be looked up.
- `GetUserClaimId` reports a missing claim as NotFound with the literal text "osfdjskjfl".
- `UserService` and `AuthService` cite `UserServiceErrors.NotFounded.Value`, `AuthServiceErrors.IncorrectLogin.Value` and `AuthServiceErrors.InvalidToken.Value`. The message file defines plain string constants `NotFound`, `IncorrectLogin` and `InvalidToken`. The model uses the texts of those constants.

Order of checks as written, with no test that disagrees:

- `UpdateProduct` and `DeleteProduct` look the product up before reading the identity claim, so an unknown product wins over a missing claim.

Behaviour of the code as written that the lemmas make explicit:

- `GetProductsByCategories` compares the number of distinct shared names with the *length* of the requested list. A list that repeats a name therefore matches no product (`ProductRepository.RepeatedNameMatchesNothing`). An empty list matches every product (`ProductRepository.EmptyListMatchesAll`).
- `EmailAlredyInUse` ignores case but `GetByEmail` does not. A sign-in with an email that differs only in case from a stored one finds nobody, even though that email counts as taken (`UserRepository.CaseVariantEmail`).
- A blank name is reported with the same text "Nome inválido!" by the user, product and category validators (`UserValidators.BlankNameTextsAlike`).
- `GetProduct` lists a product's categories in ascending id order, because the join table they are loaded from keeps no attachment order (`ProductServices.ProductShowsAttachedCategories`).

## Model

| member | source | states |
|---|---|---|
| Errors.StatusCode | src/CatalogApi/Errors/NotFoundException.cs:4-5 | NotFound is 404 and only NotFound; Unauthorized is 401; every service error has a 4xx status |
| ExceptionHandler.ToProblem | src/CatalogApi/Extensions/WebApplicationExtension.cs:18-29 | no exception gives the default problem (500, no detail); Unauthorized gives 401 without detail, because that arm is tried first; any other service exception gives its status and message; anything else gives 500 with the fixed text; a service exception's status is its class's and never 500; the status is 500 exactly when there is no exception or it is not a service exception |
| AuthenticationHelper.FindFirst | src/CatalogApi/Helpers/AuthenticationHelper.cs:35 | None exactly when no claim's type equals the requested one ignoring case; otherwise the value of the first claim whose type does |
| AuthenticationHelper.FindFirstIgnoresCase | src/CatalogApi/Helpers/AuthenticationHelper.cs:35 | two spellings of a claim type that differ only in case find the same claim |
| AuthenticationHelper.ParseLong | src/CatalogApi/Helpers/AuthenticationHelper.cs:38 | a parsed value lies in the 64-bit signed range; anything else is a format error or an overflow |
| AuthenticationHelper.ParseLongToString | src/CatalogApi/Helpers/AuthenticationHelper.cs:19 | parsing the decimal text of any 64-bit id gives the id back |
| AuthenticationHelper.NatToStringValue | src/CatalogApi/Helpers/AuthenticationHelper.cs:19 | the digits printed for a number have that number as their value |
| AuthenticationHelper.AuthenticationToken | src/CatalogApi/Helpers/AuthenticationHelper.cs:17-21 | the token's first NameIdentifier claim is the user's id as text and its first Name claim is the user's name |
| AuthenticationHelper.GetUserClaimId | src/CatalogApi/Helpers/AuthenticationHelper.cs:34-39 | a missing claim, and only a missing claim, is NotFound("osfdjskjfl"); success exactly when the claim parses; a present but unparsable claim raises a non-service exception (a 500); a parsed id lies in the 64-bit range |
| AuthenticationHelper.ClaimIdRoundTrip | src/CatalogApi/Helpers/AuthenticationHelper.cs:17-39 | the id read back from a token issued for a user is that user's id |
| Validation.Validate | src/CatalogApi/Helpers/Validators/UserValidators.cs:8-34 | the errors are empty exactly when every rule passes; the first error is the message of the first failing rule; a message is reported exactly when a rule carrying it fails |
| Validation.PassingPrefix | src/CatalogApi/Helpers/Validators/UserValidators.cs:8-21 | rules that pass contribute nothing to the error list |
| Validation.FirstFailingRule | src/CatalogApi/Services/UserService.cs:46-48 | the first error is the message of the first rule that fails |
| ProductValidators.ProductErrors | src/CatalogApi/Helpers/Validators/ProductValidators.cs:6-20 | valid exactly when the name is not blank and price and discount are not negative; the first error is name, then price, then discount; InvalidPrice is reported exactly when the price is negative, InvalidDiscount exactly when the discount is |
| CategoryValidator.CategoryErrors | src/CatalogApi/Helpers/Validators/CategoryValidator.cs:8-30 | valid exactly when the name is not blank and no other category has it ignoring case; a blank name is reported first; NameAlreadyExists is reported exactly when the name is in use |
| CategoryValidator.CaseVariantNameRejected | src/CatalogApi/Helpers/Validators/CategoryValidator.cs:8-18 | creating a case variant of a stored name fails with NameAlreadyExists |
| CategoryValidator.RenameToOwnNameAccepted | src/CatalogApi/Helpers/Validators/CategoryValidator.cs:20-30 | renaming a category to a case variant of its own name passes |
| UserValidators.CreateUserErrors | src/CatalogApi/Helpers/Validators/UserValidators.cs:8-21 | valid exactly when name, email syntax, email availability (case-insensitive), password and confirmation all pass; the first error follows the rule order; EmailAlreadyInUse is reported exactly when the email is taken |
| UserValidators.UpdateUserErrors | src/CatalogApi/Helpers/Validators/UserValidators.cs:23-34 | valid exactly when name, email syntax and availability among the other users pass; first error in rule order; EmailAlreadyInUse exactly when another user has the email |
| UserValidators.DuplicateEmailRejected | src/CatalogApi/Helpers/Validators/UserValidators.cs:12-17 | signing up with a stored email in any case fails with EmailAlreadyInUse once name and syntax pass |
| UserValidators.KeepingOwnEmailAccepted | src/CatalogApi/Helpers/Validators/UserValidators.cs:27-32 | a user keeping their own email, in any case, passes the availability rule |
| UserValidators.AtCountZero | src/CatalogApi/Helpers/Validators/UserValidators.cs:11 | the count of '@' is zero exactly when no character is '@' |
| UserValidators.AtCountOne | src/CatalogApi/Helpers/Validators/UserValidators.cs:11 | the count of '@' is one exactly when exactly one position holds '@' |
| UserValidators.EmailAddressByCount | src/CatalogApi/Helpers/Validators/UserValidators.cs:11 | the email rule holds exactly when the string has one '@' and it is neither the first nor the last character |
| UserValidators.InvalidEmailFirst | src/CatalogApi/Helpers/Validators/UserValidators.cs:8-21 | sign-up reports InvalidEmail first exactly when the name passes and the email has no '@', several, or one at either end |
| UserValidators.BlankNameTextsAlike | src/CatalogApi/Errors/ServiceErrorMessages.cs:5-27 | for blank names, the first errors of the user, product and category validators all have the text "Nome inválido!" |
| Tables.GetById | src/CatalogApi/Persistence/Repositories/BaseRepository.cs:32-37 | for any table, finds a row exactly when the key is stored, and then it is that row |
| CategoryRepository.GetByName | src/CatalogApi/Persistence/Repositories/CategoryRepositry.cs:14-17 | None exactly when no category's name matches ignoring case; otherwise a stored category whose name matches |
| CategoryRepository.NameInUseIffFound | src/CatalogApi/Persistence/Repositories/CategoryRepositry.cs:14-22 | with the default id, NameAlreadyInUse holds exactly when GetByName finds a category |
| CategoryRepository.FoundIsStored | src/CatalogApi/Persistence/Repositories/CategoryRepositry.cs:14-17 | the category found is stored under its own id |
| CategoryRepository.GetByNameExact | src/CatalogApi/Persistence/Repositories/CategoryRepositry.cs:14-17 | when names are unique ignoring case, GetByName finds the one matching category whatever the scan order |
| CategoryRepository.OwnNameIsNotInUse | src/CatalogApi/Persistence/Repositories/CategoryRepositry.cs:19-22 | a category's own name is not in use when its id is excluded, and is in use with the default id |
| UserRepository.GetByEmail | src/CatalogApi/Persistence/Repositories/UserRepository.cs:18-20 | None exactly when no user has exactly this email; otherwise a stored user with that email |
| UserRepository.FoundEmailIsInUse | src/CatalogApi/Persistence/Repositories/UserRepository.cs:13-20 | an email GetByEmail finds counts as in use |
| UserRepository.CaseVariantEmail | src/CatalogApi/Persistence/Repositories/UserRepository.cs:13-20 | on every table with emails unique ignoring case, an email that differs from a stored one only in case counts as in use, yet GetByEmail finds nobody |
| UserRepository.GetByEmailExact | src/CatalogApi/Persistence/Repositories/UserRepository.cs:18-20 | when emails are unique, GetByEmail of a user's email finds that user |
| ProductRepository.GetByIdWithCategories | src/CatalogApi/Persistence/Repositories/ProductRepository.cs:15-18 | None exactly when no row has the id; otherwise a stored product with that id |
| ProductRepository.GetByIdWithCategoriesIsLookup | src/CatalogApi/Persistence/Repositories/ProductRepository.cs:15-18 | on a table keyed by id the query equals a key lookup |
| ProductRepository.GetByUserId | src/CatalogApi/Persistence/Repositories/ProductRepository.cs:20-24 | every listed product is stored and owned by the user; when the user exists, every product it owns is listed; when the user row is missing, nothing is listed |
| ProductRepository.GetAllWithUsers | src/CatalogApi/Persistence/Repositories/ProductRepository.cs:26-28 | exactly the stored products whose owner exists are listed |
| ProductRepository.CategoryNames | src/CatalogApi/Persistence/Repositories/ProductRepository.cs:32-34 | the names of exactly the categories attached to the product |
| ProductRepository.GetProductsByCategories | src/CatalogApi/Persistence/Repositories/ProductRepository.cs:30-37 | exactly the stored products with an existing owner that pass the intersection-count filter are listed |
| ProductRepository.SubsetCardinality | src/CatalogApi/Persistence/Repositories/ProductRepository.cs:33-34 | a subset is no larger than its superset, and equal in size only when equal |
| ProductRepository.MatchesIffHasEveryName | src/CatalogApi/Persistence/Repositories/ProductRepository.cs:32-34 | for a list without repeats, a product matches exactly when every listed name names one of its categories |
| ProductRepository.RepeatedNameMatchesNothing | src/CatalogApi/Persistence/Repositories/ProductRepository.cs:32-34 | a list with a repeated name matches no product |
| ProductRepository.EmptyListMatchesAll | src/CatalogApi/Persistence/Repositories/ProductRepository.cs:32-34 | an empty list matches every product |
| Persistence.OwnNameIsNotTaken | src/CatalogApi/Persistence/Data/CatalogApiContext.cs:26 | saving a product under its current name does not clash with the unique index |
| Persistence.WithoutOwner | src/CatalogApi/Persistence/Data/CatalogApiContext.cs:18-20 | the cascade of a user delete keeps exactly the products of other owners, unchanged |
| Persistence.WithoutCategory | src/CatalogApi/Persistence/Data/CatalogApiContext.cs:34 | deleting a category's join rows keeps every product, with only that category detached, and keeps attachments duplicate-free |
| Persistence.Store.constructor | src/CatalogApi/Persistence/Data/CatalogApiContext.cs:6-9 | an empty database with counters at 1 satisfies the invariant |
| Persistence.Store.AddUser | src/CatalogApi/Persistence/Repositories/BaseRepository.cs:19-22 | inserts the user under the next identity value, changes only the user table and its counter, keeps the invariant |
| Persistence.Store.UpdateUser | src/CatalogApi/Persistence/Repositories/BaseRepository.cs:53-56 | replaces one user row and keeps the invariant |
| Persistence.Store.RemoveUser | src/CatalogApi/Persistence/Data/CatalogApiContext.cs:18-20 | removes the user and, by cascade, the products it owns; keeps the invariant |
| Persistence.Store.AddProduct | src/CatalogApi/Persistence/Data/CatalogApiContext.cs:26 | fails, changing nothing, exactly when another product has the name; otherwise inserts under the next identity value |
| Persistence.Store.UpdateProduct | src/CatalogApi/Persistence/Data/CatalogApiContext.cs:26 | saves the row exactly when no other product has its name; keeps the invariant |
| Persistence.Store.RemoveProduct | src/CatalogApi/Persistence/Repositories/BaseRepository.cs:48-51 | removes exactly that product and keeps the invariant |
| Persistence.Store.AddCategory | src/CatalogApi/Persistence/Repositories/BaseRepository.cs:19-22 | inserts the category under the next identity value, changes only that table and its counter |
| Persistence.Store.UpdateCategory | src/CatalogApi/Persistence/Repositories/BaseRepository.cs:53-56 | replaces one category row and keeps the invariant |
| Persistence.Store.RemoveCategory | src/CatalogApi/Persistence/Data/CatalogApiContext.cs:34 | removes the category and detaches it from every product; keeps the invariant |
| Dtos.UserDto.Password | src/CatalogApi/Dtos/UserDtos.cs:9-10 | an UpdateUserDto's password is empty; the others carry theirs |
| Dtos.UserDto.Id | src/CatalogApi/Dtos/UserDtos.cs:4-10 | the derived records leave the id at 0 |
| Dtos.UserDto.ToDomain | src/CatalogApi/Dtos/UserDtos.cs:25-34 | the entity has the record's id, name, email and password; a CreateUserDto drops its confirmation |
| Dtos.UserResponse.FromDomain | src/CatalogApi/Dtos/UserDtos.cs:12-16 | the response carries the user's id, name and email |
| Dtos.UserResponseWithProducts.FromDomain | src/CatalogApi/Dtos/UserDtos.cs:18-23 | id, name and email of the user, and one product response per loaded product, in order |
| Dtos.UserResponseHidesPassword | src/CatalogApi/Dtos/UserDtos.cs:12-23 | users that differ only in password have the same responses |
| Dtos.ProductDto.UserId | src/CatalogApi/Dtos/ProductDtos.cs:5-11 | the derived records leave the owner id at 0 |
| Dtos.ProductDto.Id | src/CatalogApi/Dtos/ProductDtos.cs:5-11 | the derived records leave the id at 0 |
| Dtos.ProductDto.ToDomain | src/CatalogApi/Dtos/ProductDtos.cs:37-47 | the entity has the record's id, name, price, discount and owner id, and no categories |
| Dtos.ProductResponse.FromDomain | src/CatalogApi/Dtos/ProductDtos.cs:13-17 | id, name, price, discount and owner id of the product |
| Dtos.ProductResponseWithUser.FromDomain | src/CatalogApi/Dtos/ProductDtos.cs:19-24 | id, name, price and discount of the product and the public view of its owner |
| Dtos.ProductResponseWithUserAndCategories.FromDomain | src/CatalogApi/Dtos/ProductDtos.cs:26-35 | the product's fields; the owner's view, or the placeholder user (3, "nam", "") when the navigation is null; one category response per loaded category, in order |
| Dtos.CategoryDto.Id | src/CatalogApi/Dtos/CategoryDtos.cs:5-11 | the derived records default the nullable id to 0 |
| Dtos.CategoryDto.ToDomain | src/CatalogApi/Dtos/CategoryDtos.cs:20-28 | a null id becomes 0; the name is copied |
| Dtos.CategoryResponse.FromDomain | src/CatalogApi/Dtos/CategoryDtos.cs:14-18 | id and name of the category |
| CategoryServices.GetCategories | src/CatalogApi/Services/CategoryService.cs:19-22 | one response per stored category: each response is a stored category's and each stored category has one |
| CategoryServices.GetCategory | src/CatalogApi/Services/CategoryService.cs:24-29 | success exactly when the id is stored, with that category; otherwise NotFound(CategoryNotFound) |
| CategoryServices.CategoryService.AddCategory | src/CatalogApi/Services/CategoryService.cs:31-42 | a validation failure is a BadRequest with the first error and changes nothing; otherwise the category is inserted under the next id and returned |
| CategoryServices.CategoryService.UpdateCategory | src/CatalogApi/Services/CategoryService.cs:44-60 | validation first (BadRequest), then the lookup (NotFound), each changing nothing; otherwise only that category's name changes |
| CategoryServices.CategoryService.DeleteCategory | src/CatalogApi/Services/CategoryService.cs:62-67 | NotFound for an unknown id; otherwise the category is removed and detached from every product |
| CategoryServices.SecondCaseVariantFails | src/CatalogApi/Services/CategoryService.cs:31-42 | after a category is stored, adding a case variant of its name fails with NameAlreadyExists and the first is still readable |
| UserServices.GetUsers | src/CatalogApi/Services/UserService.cs:24-27 | one response per stored user: each response is a stored user's and each stored user has one |
| UserServices.GetUser | src/CatalogApi/Services/UserService.cs:29-33 | success exactly when the id is stored, with that user and an empty product list (the navigation is not loaded); otherwise NotFound(UserNotFound) |
| UserServices.GetUserProducts | src/CatalogApi/Services/UserService.cs:35-40 | succeeds exactly when the claim yields an id, and otherwise fails with the claim's error |
| UserServices.UserProductsAreOwned | src/CatalogApi/Services/UserService.cs:35-40 | every listed product belongs to the caller; when the caller's user exists, every product it owns is listed |
| UserServices.ListedAreOwned | src/CatalogApi/Persistence/Repositories/ProductRepository.cs:20-24 | every product response of a user's listing comes from a product that user owns |
| UserServices.OwnedAreListed | src/CatalogApi/Persistence/Repositories/ProductRepository.cs:20-24 | every product of an existing user appears in that user's listing |
| UserServices.UserService.AddUser | src/CatalogApi/Services/UserService.cs:42-53 | a validation failure is a NotFound with the first error and changes nothing; otherwise the user is inserted under the next id and returned with no products |
| UserServices.UserService.UpdateUser | src/CatalogApi/Services/UserService.cs:55-73 | claim errors first, then validation (BadRequest), then the lookup (NotFound), each changing nothing; otherwise only the caller's name and email change |
| UserServices.UserService.DeleteUser | src/CatalogApi/Services/UserService.cs:75-79 | NotFound for an unknown id, changing nothing; otherwise the user and the products it owns are removed, no product of that user remains and every other product stays |
| AuthServices.SignIn | src/CatalogApi/Services/AuthService.cs:17-29 | fails only with NotFound(IncorrectLogin); succeeds exactly when a user has exactly this email and the password found matches; the token is that user's |
| AuthServices.Authentication | src/CatalogApi/Services/AuthService.cs:31-36 | claim errors pass through; an id with no user is BadRequest(InvalidToken); success exactly when the id is stored, with that user's public view |
| AuthServices.SignInFailuresAlike | src/CatalogApi/Services/AuthService.cs:18-25 | a wrong password and an unknown email give the same failure |
| AuthServices.SignInThenAuthenticate | src/CatalogApi/Services/AuthService.cs:17-36 | signing in with a user's credentials yields their token, which authenticates as that user |
| ProductServices.WithOwners | src/CatalogApi/Services/ProductService.cs:27 | one response per listed product, built with its owner |
| ProductServices.GetProducts | src/CatalogApi/Services/ProductService.cs:25-28 | no more responses than stored products |
| ProductServices.ListedProductsAreStored | src/CatalogApi/Services/ProductService.cs:25-28 | each response is the stored product with that id, with its stored owner |
| ProductServices.EveryProductListed | src/CatalogApi/Services/ProductService.cs:25-28 | in a consistent store every product is listed with its owner |
| ProductServices.IncludedIds | src/CatalogApi/Persistence/Data/CatalogApiContext.cs:34 | the join rows of a product give exactly its attached ids, once each when they are duplicate-free, in ascending order |
| ProductServices.LoadedCategories | src/CatalogApi/Services/ProductService.cs:31 | when all ids name stored categories, the loaded categories are those rows, in the order of the ids |
| ProductServices.IncludedCategoriesInIdOrder | src/CatalogApi/Services/ProductService.cs:31 | a product's loaded categories are exactly its attached categories, each once, in ascending id order |
| ProductServices.GetProduct | src/CatalogApi/Services/ProductService.cs:30-35 | fails with NotFound(ProductNotFound) exactly when no product with the id has an existing owner; a found response has the requested id |
| ProductServices.GetProductOfStoredProduct | src/CatalogApi/Services/ProductService.cs:30-35 | in a consistent store the product is found exactly when stored, and is shown with its owner and the categories its join rows load |
| ProductServices.ProductShowsAttachedCategories | src/CatalogApi/Services/ProductService.cs:30-35 | the response of a stored product lists each attached category exactly once, and only those, in ascending id order |
| ProductServices.GetProductsByCategories | src/CatalogApi/Services/ProductService.cs:111-114 | one response per listed product, with its owner |
| ProductServices.ProductsByCategoriesSound | src/CatalogApi/Services/ProductService.cs:111-114 | every response is a stored product that matches the names, shown with its owner |
| ProductServices.ProductsByCategoriesComplete | src/CatalogApi/Services/ProductService.cs:111-114 | in a consistent store every matching product is listed |
| ProductServices.Resolve | src/CatalogApi/Services/ProductService.cs:67-69 | on success, one id per name, each the lookup's; on failure, the first name the lookup misses, every earlier one found |
| ProductServices.ResolveStep | src/CatalogApi/Services/ProductService.cs:67-69 | one more found name appends its id |
| ProductServices.ResolveStops | src/CatalogApi/Services/ProductService.cs:68-69 | a missing name ends the resolution at its position |
| ProductServices.ResolveSucceedsIffAllFound | src/CatalogApi/Services/ProductService.cs:67-69 | resolution succeeds exactly when every name is found |
| ProductServices.ResolvePrefixFailure | src/CatalogApi/Services/ProductService.cs:67-69 | a failure in a prefix is the failure of the whole list |
| ProductServices.Attach | src/CatalogApi/Services/ProductService.cs:70-72 | the result holds exactly the current and the new ids, keeps the current ones first, and is duplicate-free when they were |
| ProductServices.AttachStep | src/CatalogApi/Services/ProductService.cs:70-72 | one more id is appended unless attached already |
| ProductServices.AttachAbsorbs | src/CatalogApi/Services/ProductService.cs:70-72 | attaching ids already attached changes nothing |
| ProductServices.AttachIdempotent | src/CatalogApi/Services/ProductService.cs:70-72 | attaching the same ids twice is attaching them once |
| ProductServices.AttachNames | src/CatalogApi/Services/ProductService.cs:67-73 | fails exactly when some name is unknown, naming the first; otherwise attaches the resolved ids |
| ProductServices.AttachNamesTwice | src/CatalogApi/Services/ProductService.cs:58-76 | a second identical request leaves the categories as the first left them |
| ProductServices.AttachNamesKeepsAndAdds | src/CatalogApi/Services/ProductService.cs:67-73 | the result is duplicate-free, starts with the current categories and contains every named one |
| ProductServices.AttachByName | src/CatalogApi/Services/ProductService.cs:67-73 | the loop computes AttachNames, and every id it adds is a stored category |
| ProductServices.ProductService.AddProduct | src/CatalogApi/Services/ProductService.cs:37-56 | claim errors, then unknown user (NotFound), then validation (BadRequest), then a duplicate name (500), each changing nothing; otherwise the product is inserted under the next id for the caller |
| ProductServices.ProductService.AddProductCategory | src/CatalogApi/Services/ProductService.cs:58-76 | claim errors, unknown product (NotFound), another owner (Unauthorized), an unknown name (BadRequest naming the first), each changing nothing; otherwise only the product's categories change, to AttachNames |
| ProductServices.ProductService.SaveCategories | src/CatalogApi/Services/ProductService.cs:67-75 | an unknown name changes nothing; otherwise the product is saved with the attached categories |
| ProductServices.ProductService.UpdateProduct | src/CatalogApi/Services/ProductService.cs:78-99 | unknown product (NotFound), then claim errors, then another owner (Unauthorized), validation (BadRequest), a duplicate name (500), each changing nothing; otherwise only name, price and discount change |
| ProductServices.ProductService.DeleteProduct | src/CatalogApi/Services/ProductService.cs:101-109 | unknown product (NotFound), then claim errors, then another owner (Unauthorized), each changing nothing; otherwise only that product is removed |

## Left out

- Entity Framework, Npgsql and asynchrony are not modelled: every repository call is an atomic step on the store. Concurrent requests, races between a validator's check and the save, and transactions are left out.
- Controllers, routing, model binding, Swagger and `Program.cs` are not part of this model. The services are the entry points.
- JWT signing, expiry and verification (`JwtSecurityToken`, the secret from configuration) are external. A token is the list of claims it carries, and a request's principal is a claim list. A claim type is its URI string, compared ignoring case as `ClaimsIdentity.FindFirst` does, with the same ASCII and Latin-1 case folding as every other case-insensitive comparison here. `Console.WriteLine` output is left out.
- `float` prices and discounts are Dafny `real`s. Rounding, NaN and infinities are not modelled; with NaN the `>= 0` rules would fail.
- `ILIKE` is modelled without its pattern characters: `%` and `_` in a requested name are literal here. Case folding covers ASCII and Latin-1 letters only; full Unicode case mapping and the database collation rules are not modelled.
- `long.Parse` is modelled for ASCII digits, ASCII white space and a sign. Culture-specific signs, other Unicode white space and other number styles are left out.
- Null strings, null navigations other than the GetProduct placeholder, and null DTOs are not modelled. Strings are never null here.
- Identity overflow: the counters are unbounded integers.
- The unique indexes on user email and category name are never violated in the model, because `Store.Valid()` keeps those columns unique ignoring case. A race that would violate them is out of scope.
- `BadRequestException` and `UnauthorizedException` are modelled only by their statuses, 400 and 401, which the exception handler and the services rely on.
- `Results.Problem()` with no arguments is modelled as status 500 with no detail, which is ASP.NET's default.
- The scan order of unordered queries is modelled as ascending id; this includes the categories of a product loaded through the join table.
- UserRepository.EmailAlredyInUse: the query compares with `string.Equals(..., StringComparison.OrdinalIgnoreCase)` inside a database query, which Entity Framework Core may refuse to translate to SQL; the model takes the intended case-insensitive comparison, not what a deployed database would do.
- ProductServices.GetProducts: its own contract only bounds the count; the full statement is in `ListedProductsAreStored` and `EveryProductListed`.
- ProductServices.GetProductsByCategories: its own contract only shapes the responses; soundness and completeness are in `ProductsByCategoriesSound` and `ProductsByCategoriesComplete`.
- ProductServices.AttachByName: the category loop of AddProductCategory is a method of its own that reads the category table as a value. AddProductCategory calls it and then saves through `SaveCategories`. The two together run the same steps in the same order as the source method.
- `IBaseRepository.Exists` is not used by the modelled services and is left out.
