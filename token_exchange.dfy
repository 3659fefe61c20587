/** The token endpoint exchange: the form a grant sends (section 4.1.3 of RFC 6749
    with the `code_verifier` of section 4.5 of RFC 7636, and the refresh of section 6
    of RFC 6749) and `CallTokenEndpointAsync`, which maps the HTTP status and the JSON
    body of the reply (section 5.1 of RFC 6749) to a credential. */
module TokenExchange {
  import opened Optional
  import AT = AuthTokens

  /** A JSON value, by the kinds the handler tells apart: a string, `null`, a number
      written as an integer, any other number, and anything else. */
  datatype JsonValue = JString(s: string) | JNull | JInteger(n: int) | JOtherNumber | JOther

  /** The reply body as `JsonDocument.Parse` sees it: not JSON at all, JSON whose root
      is not an object, or an object with its properties. */
  datatype JsonBody = Malformed | NonObject | Object(properties: map<string, JsonValue>)

  datatype TokenResponse = TokenResponse(status: int, body: JsonBody)

  /** A form body: key/value pairs in the order they are sent. */
  type Form = seq<(string, string)>

  /** What `CallTokenEndpointAsync` ends with: a credential, or an exception thrown by
      the JSON library, which the method does not catch. */
  datatype TokenOutcome = Issued(token: AT.AuthToken) | Fault

  /** The result of a library call that either returns a value or throws. */
  datatype Read<T> = Value(v: T) | Throws

  const Int32Min: int := -0x8000_0000
  const Int32Max: int := 0x7FFF_FFFF

  /** `HttpResponseMessage.IsSuccessStatusCode`: a status in 200-299. */
  predicate IsSuccessStatusCode(status: int)
  {
    200 <= status <= 299
  }

  /** `RootElement.GetProperty(name)`: throws unless the root is an object holding `name`. */
  function GetProperty(body: JsonBody, name: string): Read<JsonValue>
  {
    if body.Object? && name in body.properties then Value(body.properties[name]) else Throws
  }

  /** `GetProperty(name).GetString()`: the string, `None` for `null`, a throw otherwise. */
  function ReadString(body: JsonBody, name: string): Read<Option<string>>
  {
    match GetProperty(body, name)
    case Value(JString(s)) => Value(Some(s))
    case Value(JNull) => Value(None)
    case _ => Throws
  }

  /** `GetProperty(name).GetInt32()`: an integer that fits in 32 bits, a throw otherwise. */
  function ReadInt32(body: JsonBody, name: string): (r: Read<int>)
    ensures r.Value? <==> exists n :: GetProperty(body, name) == Value(JInteger(n)) && Int32Min <= n <= Int32Max
    ensures r.Value? ==> GetProperty(body, name) == Value(JInteger(r.v)) && Int32Min <= r.v <= Int32Max
  {
    match GetProperty(body, name)
    case Value(JInteger(n)) => if Int32Min <= n <= Int32Max then Value(n) else Throws
    case _ => Throws
  }

  /** The `try` block with its empty `catch`: `expires_in` is read first and
      `refresh_token_expires_in` second; a throw keeps what was already assigned and
      leaves the rest at zero. */
  function Lifetimes(body: JsonBody): (r: (int, int))
    ensures ReadInt32(body, "expires_in").Throws? ==> r == (0, 0)
    ensures ReadInt32(body, "expires_in").Value? ==> r.0 == ReadInt32(body, "expires_in").v
    ensures ReadInt32(body, "expires_in").Value? && ReadInt32(body, "refresh_token_expires_in").Throws? ==>
      r.1 == 0
    ensures ReadInt32(body, "expires_in").Value? && ReadInt32(body, "refresh_token_expires_in").Value? ==>
      r.1 == ReadInt32(body, "refresh_token_expires_in").v
  {
    match ReadInt32(body, "expires_in")
    case Throws => (0, 0)
    case Value(expiresIn) =>
      match ReadInt32(body, "refresh_token_expires_in")
      case Throws => (expiresIn, 0)
      case Value(refreshExpiresIn) => (expiresIn, refreshExpiresIn)
  }

  /** `CallTokenEndpointAsync` after the POST: `nowAtExpiry` and `nowAtRefreshExpiry`
      are the two readings of `DateTime.Now`. */
  function NormalizeTokenResponse(response: TokenResponse, nowAtExpiry: int, nowAtRefreshExpiry: int): (r: TokenOutcome)
    ensures !IsSuccessStatusCode(response.status) ==> r == Issued(AT.Error("Failed to obtain tokens"))
    ensures r.Issued? && r.token.isError ==> r.token.accessToken == "" && r.token.refreshToken == ""
    ensures r.Issued? && !r.token.isError ==>
      IsSuccessStatusCode(response.status) &&
      ReadString(response.body, "access_token") == Value(Some(r.token.accessToken))
  {
    if !IsSuccessStatusCode(response.status) then Issued(AT.Error("Failed to obtain tokens"))
    else if response.body.Malformed? then Fault
    else
      match ReadString(response.body, "access_token")
      case Throws => Fault
      case Value(None) => Issued(AT.Error("Failed to parse access token or expiration period"))
      case Value(Some(accessToken)) =>
        match ReadString(response.body, "refresh_token")
        case Throws => Fault
        case Value(refreshToken) =>
          var (expiresIn, refreshExpiresIn) := Lifetimes(response.body);
          Issued(AT.Default().(
            accessToken := accessToken,
            expiresAt := nowAtExpiry + expiresIn,
            refreshToken := if refreshToken.Some? then refreshToken.value else "",
            refreshTokenExpiresAt := nowAtRefreshExpiry + refreshExpiresIn))
  }

  /** A credential is issued exactly for a 2xx reply whose `access_token` is a string
      and whose `refresh_token` is a string or `null`; it then carries those strings and
      expiries at the clock readings plus the lifetimes. */
  lemma IssuedCredential(response: TokenResponse, nowAtExpiry: int, nowAtRefreshExpiry: int)
    ensures
      var r := NormalizeTokenResponse(response, nowAtExpiry, nowAtRefreshExpiry);
      (r.Issued? && !r.token.isError) <==>
        IsSuccessStatusCode(response.status) &&
        ReadString(response.body, "access_token").Value? &&
        ReadString(response.body, "access_token").v.Some? &&
        ReadString(response.body, "refresh_token").Value?
    ensures
      var r := NormalizeTokenResponse(response, nowAtExpiry, nowAtRefreshExpiry);
      r.Issued? && !r.token.isError ==>
        var refresh := ReadString(response.body, "refresh_token").v;
        && r.token.errorMessage == ""
        && r.token.refreshToken == (if refresh.Some? then refresh.value else "")
        && r.token.expiresAt == nowAtExpiry + Lifetimes(response.body).0
        && r.token.refreshTokenExpiresAt == nowAtRefreshExpiry + Lifetimes(response.body).1
  {
  }

  /** The library throws, and the call faults, exactly when a 2xx reply is not JSON,
      has no string-or-null `access_token`, or has a string `access_token` and no
      string-or-null `refresh_token`. */
  lemma FaultCases(response: TokenResponse, nowAtExpiry: int, nowAtRefreshExpiry: int)
    ensures NormalizeTokenResponse(response, nowAtExpiry, nowAtRefreshExpiry).Fault? <==>
      IsSuccessStatusCode(response.status) &&
      (|| response.body.Malformed?
       || ReadString(response.body, "access_token").Throws?
       || (ReadString(response.body, "access_token") != Value(None) &&
           ReadString(response.body, "refresh_token").Throws?))
  {
  }

  /** A `null` access token gives the parse error credential, whatever else the body holds. */
  lemma NullAccessToken(response: TokenResponse, nowAtExpiry: int, nowAtRefreshExpiry: int)
    requires IsSuccessStatusCode(response.status)
    requires GetProperty(response.body, "access_token") == Value(JNull)
    ensures NormalizeTokenResponse(response, nowAtExpiry, nowAtRefreshExpiry) ==
      Issued(AT.Error("Failed to parse access token or expiration period"))
  {
  }

  /** The reply of a successful grant with all four fields. */
  lemma FullReply(status: int, access: string, refresh: string, expiresIn: int, refreshExpiresIn: int,
                  nowAtExpiry: int, nowAtRefreshExpiry: int)
    requires IsSuccessStatusCode(status)
    requires Int32Min <= expiresIn <= Int32Max && Int32Min <= refreshExpiresIn <= Int32Max
    ensures
      var body := Object(map["access_token" := JString(access), "refresh_token" := JString(refresh),
                             "expires_in" := JInteger(expiresIn),
                             "refresh_token_expires_in" := JInteger(refreshExpiresIn)]);
      NormalizeTokenResponse(TokenResponse(status, body), nowAtExpiry, nowAtRefreshExpiry) ==
        Issued(AT.AuthToken(access, refresh, nowAtExpiry + expiresIn, nowAtRefreshExpiry + refreshExpiresIn,
                            false, ""))
  {
  }

  /** The form of the authorization code grant, in the order it is sent. */
  function AuthorizationCodeForm(clientId: string, code: string, redirectUri: string, codeVerifier: string): Form
  {
    [("grant_type", "authorization_code"), ("client_id", clientId), ("code", code),
     ("redirect_uri", redirectUri), ("code_verifier", codeVerifier)]
  }

  /** The form of the refresh token grant, in the order it is sent. */
  function RefreshForm(clientId: string, refreshToken: string): Form
  {
    [("grant_type", "refresh_token"), ("client_id", clientId), ("refresh_token", refreshToken)]
  }
}
