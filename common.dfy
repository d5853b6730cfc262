/** Identifiers, optional values and the error results shared by every controller. */
module Common {

  /** A document id (a Mongo ObjectId in the system, an opaque number here). */
  type Id = nat

  datatype Option<+T> = None | Some(value: T)

  /** The error kinds the controllers answer with, before the response envelope is built. */
  datatype Error =
    | AlreadyInProject       // "You are already in a project", 400
    | MissingFields          // "Project name and supervisor are required", 400
    | InvalidSupervisor      // "Invalid supervisor", 400
    | SupervisorUnavailable  // "Supervisor not available", 400
    | InvalidTeamCode        // "Invalid team code", 404
    | ProjectFull            // "This project already has 4 members", 400
    | InvalidStatus          // "Invalid status value", 400
    | InvalidMaxProjects     // "Max projects must be at least 1", 400
    | NotFound               // a lookup by id (or by id and owner) that found nothing, 404
    | Unexpected             // an exception caught by the controller's catch block, 500
    | InviteMailerMissing    // the invitation sender the mailer does not export was called, 500

  /** The HTTP status code each error kind is sent with. */
  function HttpStatus(e: Error): int
  {
    match e
    case InvalidTeamCode | NotFound => 404
    case Unexpected | InviteMailerMissing => 500
    case _ => 400
  }

  datatype Result<+T> = Ok(value: T) | Err(error: Error)
}
