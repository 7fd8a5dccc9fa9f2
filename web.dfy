/** What the controller hands back to the web layer: the JSON body, the cookies
    added to the servlet response, and the exceptions that escape a handler. */
module Web {

  /** A request parameter or a lookup result that may be Java's null. */
  datatype Option<+T> = None | Some(value: T)

  /** The one-entry JSON map the handlers build: either a "message" or an "error" key. */
  datatype Response = Message(message: string) | Error(error: string)

  /** A servlet cookie with the attributes the sign-in handler sets. */
  datatype Cookie = Cookie(name: string, value: string, secure: bool, httpOnly: bool, maxAge: int)

  /** Exceptions that leave a handler uncaught. */
  datatype Failure =
    | ResourceNotFound(id: int)   // "ApplicationUser not found with id " + id
    | IncorrectResultSize         // a single-result finder matched more than one account

  /** A handler either returns a value or throws. */
  datatype Outcome<+T> = Returned(value: T) | Thrown(failure: Failure)

  const InvalidRequest := "Invalid request"
  const UsernameExists := "User with this username already exists"
  const EmailExists := "User with this email already exists"
  const UserCreated := "User successfully created"
  const InternalServerError := "Internal Server Error"
  const InvalidCredentials := "Invalid username or password"
  const LoginSuccessful := "User login successful"
}
