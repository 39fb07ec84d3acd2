/** The exceptions the services throw, with the messages callers see. */
module Errors {

  datatype Error =
    /** `DuplicateEmailException` */
    | DuplicateEmail(email: string)
    /** `EmployeeNotFoundException` */
    | EmployeeNotFound(email: string)
    /** `IllegalArgumentException` */
    | IllegalArgument(message: string)
    /** `InvalidFileException`: an upload rejected by validation */
    | InvalidFile(message: string)
    /** `FileMissingException`: no such document */
    | FileMissing(message: string)
    /** `FileStorageException`: the blob store failed */
    | StorageFailure(message: string)

  /** `Throwable.getMessage()` */
  function Message(e: Error): string {
    match e
    case DuplicateEmail(email) => "Pracownik z emailem '" + email + "' już istnieje"
    case EmployeeNotFound(email) => "Employee not found: " + email
    case IllegalArgument(m) => m
    case InvalidFile(m) => m
    case FileMissing(m) => m
    case StorageFailure(m) => m
  }
}
