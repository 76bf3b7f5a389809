/** AuthService: signing in with email and password, and reading back the user a
    token identifies. */
module AuthServices {
  import opened Wrappers
  import opened Errors
  import opened Entities
  import opened Tables
  import opened Dtos
  import opened AuthenticationHelper
  import opened UserRepository

  /** The user is found by exact email, then the stored password is compared verbatim;
      both failures raise the same NotFound. On success the token carries the user's
      id and name. */
  function SignIn(users: map<int, User>, email: string, password: string): (r: Result<seq<Claim>, Exception>)
    ensures r.Failure? ==> r.error == Service(NotFound(IncorrectLogin))
    ensures r.Success? <==> exists k :: k in users && users[k].email == email && GetByEmail(users, email).value.password == password
    ensures r.Success? ==> r.value == AuthenticationToken(GetByEmail(users, email).value)
  {
    match GetByEmail(users, email)
    case None => Failure(Service(NotFound(IncorrectLogin)))
    case Some(u) =>
      if u.password == password then Success(AuthenticationToken(u))
      else Failure(Service(NotFound(IncorrectLogin)))
  }

  /** The user the token's identity claim names; an id with no user behind it is a
      BadRequest. */
  function Authentication(users: map<int, User>, claims: seq<Claim>): (r: Result<UserResponse, Exception>)
    ensures GetUserClaimId(claims).Failure? ==> r == Failure(GetUserClaimId(claims).error)
    ensures GetUserClaimId(claims).Success? && GetUserClaimId(claims).value !in users ==>
              r == Failure(Service(BadRequest(InvalidToken)))
    ensures r.Success? <==> GetUserClaimId(claims).Success? && GetUserClaimId(claims).value in users
    ensures r.Success? ==> r.value == UserResponse.FromDomain(users[GetUserClaimId(claims).value])
  {
    match GetUserClaimId(claims)
    case Failure(e) => Failure(e)
    case Success(userId) =>
      match GetById(users, userId)
      case None => Failure(Service(BadRequest(InvalidToken)))
      case Some(u) => Success(UserResponse.FromDomain(u))
  }

  /** A wrong password and an unknown email are indistinguishable to the caller. */
  lemma SignInFailuresAlike(users: map<int, User>, k: int, wrong: string, unknown: string)
    requires k in users && users[k].password != wrong
    requires EmailsUnique(users)
    requires forall j :: j in users ==> users[j].email != unknown
    ensures SignIn(users, users[k].email, wrong) == SignIn(users, unknown, wrong)
    ensures SignIn(users, users[k].email, wrong) == Failure(Service(NotFound(IncorrectLogin)))
  {
    GetByEmailExact(users, k);
  }

  /** The token a successful sign-in issues authenticates as the user who signed in. */
  lemma SignInThenAuthenticate(users: map<int, User>, k: int)
    requires KeysMatch(users) && EmailsUnique(users)
    requires k in users && AuthenticationHelper.LongMin <= k <= AuthenticationHelper.LongMax
    ensures SignIn(users, users[k].email, users[k].password) == Success(AuthenticationToken(users[k]))
    ensures Authentication(users, AuthenticationToken(users[k])) == Success(UserResponse.FromDomain(users[k]))
  {
    GetByEmailExact(users, k);
    ClaimIdRoundTrip(users[k]);
  }
}
