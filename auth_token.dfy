/** The credential the token endpoint issues. Its properties have setters, but no
    one changes a credential after creating it; callers replace it whole, so it is
    a value type here. Times are whole seconds since 0001-01-01 00:00. */
module AuthTokens {

  /** `DateTime.MinValue`. */
  const MinDateTime: int := 0

  datatype AuthToken = AuthToken(
    accessToken: string,
    refreshToken: string,
    expiresAt: int,
    refreshTokenExpiresAt: int,
    isError: bool,
    errorMessage: string)

  /** `new AuthToken()`: every property at its initialiser. */
  function Default(): (t: AuthToken)
    ensures t.accessToken == "" && t.refreshToken == ""
    ensures t.expiresAt == MinDateTime && t.refreshTokenExpiresAt == MinDateTime
    ensures !t.isError && t.errorMessage == ""
  {
    AuthToken("", "", MinDateTime, MinDateTime, false, "")
  }

  /** `AuthToken.Error(message)`: the default credential with the error flag and the
      message set, so it never carries a token or an expiry. */
  function Error(message: string): (t: AuthToken)
    ensures t.isError && t.errorMessage == message
    ensures t.accessToken == "" && t.refreshToken == ""
    ensures t.expiresAt == MinDateTime && t.refreshTokenExpiresAt == MinDateTime
  {
    Default().(isError := true, errorMessage := message)
  }
}
