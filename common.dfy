/**
 * Values shared by every part of the model: optional (nullable) values,
 * the user roles, the identity the authentication filter leaves for a
 * request, the error responses of the REST handlers, and the opaque
 * collaborators (password encoder and token provider).
 */
module Common {

  /** A Java reference that may be null. */
  datatype Option<+T> = None | Some(value: T)

  /** The platform's user roles (FARMER, EXPERT, ADMIN). */
  datatype Role = Farmer | Expert | Admin

  /** What the security context holds for the current request. */
  datatype Authentication = Anonymous | Authenticated(username: string, role: Role)

  /**
   * The role rule a handler is annotated with (`hasRole(..) or hasRole(..)`):
   * the request must be authenticated with one of the listed roles.
   */
  predicate HasAnyRole(auth: Authentication, roles: set<Role>)
  {
    auth.Authenticated? && auth.role in roles
  }

  /** The error responses the handlers produce. */
  datatype Error =
    | Forbidden                     // the role rule rejected the request (framework response)
    | NotFound                      // 404 with an empty body
    | EmptyBadRequest               // 400 with an empty body
    | Rejected(message: string)     // 400 with body {"error": message}
    | Failed(prefix: string)        // 400 with body {"error": prefix + exception message}

  /** HTTP status of an error response. */
  function Status(e: Error): int
  {
    match e
    case Forbidden => 403
    case NotFound => 404
    case _ => 400
  }

  datatype Result<+T> = Ok(value: T) | Err(error: Error)

  /** The password encoder: a one-way encoding and its matching test. */
  datatype PasswordEncoder = PasswordEncoder(encode: string -> string, matches: (string, string) -> bool)

  /**
   * The token provider: minting a token for a username, validating a token
   * (signature and expiry), and reading the subject back (None when reading
   * it throws).
   */
  datatype TokenProvider = TokenProvider(
    generate: string -> string,
    validate: string -> bool,
    usernameOf: string -> Option<string>)
}
