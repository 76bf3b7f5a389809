/** The error taxonomy of the catalog: the message constants of the service error
    classes and the exception kinds the services throw. */
module Errors {

  /** One constructor per message constant, plus the two messages the services build
      on the spot (the unknown-category message and the missing-claim message). */
  datatype Message =
    // ProductServiceErrors
    | ProductNotFound | ProductInvalidName | InvalidPrice | InvalidDiscount
    // AuthServiceErrors
    | IncorrectLogin | InvalidToken
    // UserServiceErrors
    | UserNotFound | UserInvalidName | InvalidEmail | EmailAlreadyInUse
    | InvalidPassword | NotIqualPassword
    // CategoryServiceErrors
    | CategoryNotFound | NameAlreadyExists | CategoryInvalidName
    // "category with name {n} not founded", thrown by AddProductCategory
    | CategoryNameNotFounded(name: string)
    // the literal thrown by GetUserClaimId when the identity claim is absent
    | MissingClaim

  /** The text the caller sees. */
  function Text(m: Message): string {
    match m
    case ProductNotFound => "Produto não encontrado!"
    case ProductInvalidName => "Nome inválido!"
    case InvalidPrice => "Preço inválido!"
    case InvalidDiscount => "Desconto Inválido!"
    case IncorrectLogin => "Email/Senha Inválidos!"
    case InvalidToken => "Token Inválido!"
    case UserNotFound => "Usuário não encontrado!"
    case UserInvalidName => "Nome inválido!"
    case InvalidEmail => "Email inválido!"
    case EmailAlreadyInUse => "Email já em uso!"
    case InvalidPassword => "Senha inválida!"
    case NotIqualPassword => "Senhas não conferem!"
    case CategoryNotFound => "Categoria não encontrada!"
    case NameAlreadyExists => "Categoria já existe!"
    case CategoryInvalidName => "Nome inválido!"
    case CategoryNameNotFounded(n) => "category with name " + n + " not founded"
    case MissingClaim => "osfdjskjfl"
  }

  /** The ServiceException subclasses: NotFoundException, BadRequestException and
      UnauthorizedException. */
  datatype ServiceError =
    | NotFound(message: Message)
    | BadRequest(message: Message)
    | Unauthorized

  /** Why an exception outside the ServiceException hierarchy was raised: the two
      failures of long.Parse, and a save rejected by the unique index on product
      names. */
  datatype InternalCause = FormatError | OverflowError | UniqueViolation

  /** Everything an operation can throw. */
  datatype Exception =
    | Service(error: ServiceError)
    | Internal(cause: InternalCause)

  /** ServiceException.StatusCode as each subclass sets it. */
  function StatusCode(e: ServiceError): (code: int)
    ensures code in {400, 401, 404}
    ensures code == 404 <==> e.NotFound?
    ensures code == 401 <==> e.Unauthorized?
  {
    match e
    case NotFound(_) => 404
    case BadRequest(_) => 400
    case Unauthorized => 401
  }
}
