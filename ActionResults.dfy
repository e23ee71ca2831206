/** What a controller action answers, with the message text reduced to which message it is. */
module ActionResults {

  /** The distinct not-found messages of the two controllers. */
  datatype NotFoundReason =
    | EnvironmentNotFound       // "Environment with id ... not found."
    | EnvironmentNotInAccount   // "Environment with id ... not found in your account."
    | ObjectNotFound            // "Object with id ... not found."
    | ObjectNotInAccount        // "Object with id ... not found in your account."

  /** The distinct bad-request messages of the environment controller. */
  datatype BadRequestReason =
    | TooManyEnvironments       // "You cannot create more than ... environments."
    | DuplicateName             // "An environment with the same name already exists."

  /** 401, 404, 400, 200 and 201 with their payloads; `Ok(())` is the 200 without a body. */
  datatype ActionResult<T> =
    | Unauthorized
    | NotFound(notFound: NotFoundReason)
    | BadRequest(badRequest: BadRequestReason)
    | Ok(value: T)
    | Created(created: T)
}
