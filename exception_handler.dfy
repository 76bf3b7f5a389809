/** The application's exception handler: the mapping from whatever an operation threw
    to the problem response the caller receives. */
module ExceptionHandler {
  import opened Wrappers
  import opened Errors

  /** A problem-details response: its status code and its optional detail text. */
  datatype Problem = Problem(status: int, detail: Option<string>)

  /** The status ASP.NET gives a problem response created without one. */
  const DefaultStatus := 500

  const InternalDetail := "Ops, algo deu errado, tente novamente mais tarde"

  /** `ex` is None when the handler runs without a recorded exception. The
      UnauthorizedException arm is tried before the ServiceException arm, so an
      unauthorized caller gets 401 without a detail; every other service exception
      gets its own status and message; anything else is a 500 with a fixed text. */
  function ToProblem(ex: Option<Exception>): (p: Problem)
    ensures ex.None? ==> p == Problem(DefaultStatus, None)
    ensures ex == Some(Service(Unauthorized)) ==> p == Problem(401, None)
    ensures ex.Some? && ex.value.Service? && !ex.value.error.Unauthorized? ==>
              p == Problem(StatusCode(ex.value.error), Some(Text(ex.value.error.message)))
    ensures ex.Some? && ex.value.Internal? ==> p == Problem(500, Some(InternalDetail))
    // a service exception's status is the one its class declares, never 500
    ensures ex.Some? && ex.value.Service? ==> p.status == StatusCode(ex.value.error) && p.status != 500
    // a 500 means no exception or a non-service one
    ensures p.status == 500 <==> ex.None? || ex.value.Internal?
  {
    match ex
    case None => Problem(DefaultStatus, None)
    case Some(Service(Unauthorized)) => Problem(401, None)
    case Some(Service(e)) => Problem(StatusCode(e), Some(Text(e.message)))
    case Some(Internal(_)) => Problem(500, Some(InternalDetail))
  }
}
