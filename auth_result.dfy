/** The outcome of one authorization attempt: an immutable record, so a value type here. */
module AuthResults {

  datatype AuthResult = AuthResult(code: string, isError: bool, errorMessage: string)

  /** `new AuthResult()`: every property at its initialiser. */
  function Default(): (r: AuthResult)
    ensures r.code == "" && !r.isError && r.errorMessage == ""
  {
    AuthResult("", false, "")
  }

  /** `AuthResult.Error(message)`: the default result with the error flag and the message set. */
  function Error(message: string): (r: AuthResult)
    ensures r.isError && r.errorMessage == message
    ensures r.code == ""
  {
    Default().(isError := true, errorMessage := message)
  }

  /** `new AuthResult { Code = code, IsError = false }`: a successful attempt carrying the code. */
  function Success(code: string): (r: AuthResult)
    ensures !r.isError && r.code == code && r.errorMessage == ""
  {
    Default().(code := code, isError := false)
  }
}
