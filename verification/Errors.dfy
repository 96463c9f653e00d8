/** The exceptions of ServerIList/Exception.h as values, and the result of a call that may throw one. */
module Errors {

  datatype Exception =
    | SystemException
    | SyntaxError
    | SqlInjection
    | InvalidCodeNumber
    | WrongArgumentsNumber
    | InvalidUsernameOrPassword
    | WrongUsernameOrPassword
    | UserNotAvailable
    | WrongUsername
    | FailedCreateGroup
    | UserIsOffline
    | NoSuchUserInTheGroup
    | PermissionIsDenied
    | FullGroup
    | StdException  // thrown by the C++ library: std::invalid_argument or std::out_of_range

  datatype Result<+T> = Ok(value: T) | Err(error: Exception)

  datatype Option<+T> = None | Some(value: T)

  /** What the client is told: `what()` of the program's exceptions, a fixed text for the library's. */
  function What(e: Exception): string {
    match e
    case SystemException => "SystemException"
    case SyntaxError => "SyntaxErrorException"
    case SqlInjection => "SqlInjectionException"
    case InvalidCodeNumber => "InvalidCodeNumberException"
    case WrongArgumentsNumber => "WrongArgumentsNumberException"
    case InvalidUsernameOrPassword => "InvalidUsernameOrPasswordException"
    case WrongUsernameOrPassword => "WrongUernameOrPasswordException"
    case UserNotAvailable => "UserNotAvilableException"
    case WrongUsername => "WrongUsernameException"
    case FailedCreateGroup => "FailedCreateGroupException"
    case UserIsOffline => "UserIsOfflineException"
    case NoSuchUserInTheGroup => "NoSuchUserInTheGroupException"
    case PermissionIsDenied => "PermissionIsDeniedException"
    case FullGroup => "FullGroupException"
    case StdException => "Unknown Error"
  }
}
