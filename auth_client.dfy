/** `AuthClient`: one authorization session of an OAuth2 public client (the
    authorization code grant of section 4.1 of RFC 6749 with the PKCE extension of
    RFC 7636) that receives its redirect on a loopback listener. The listener is the
    port it was given, SHA-256 is a function fixed at construction, and the random
    verifier bytes, the fresh state, the callback connection, the token endpoint and
    the clock are parameters of the methods that use them. */
module Client {
  import opened Optional
  import opened Text
  import opened Bytes
  import opened Pkce
  import Base64
  import Callback
  import AR = AuthResults
  import AT = AuthTokens
  import TE = TokenExchange

  const Scope: string := "iracing.auth"
  const BaseAuthUrl: string := "https://oauth.iracing.com/oauth2"
  const AuthEndpoint: string := BaseAuthUrl + "/authorize"
  const TokenEndpoint: string := BaseAuthUrl + "/token"
  const LoopbackAddress: string := "127.0.0.1"

  /** The redirect path: the caller's endpoint, with a `/` put in front unless it has one. */
  function Endpoint(redirectEndpoint: string): (e: string)
    ensures |e| > 0 && e[0] == '/'
    ensures |redirectEndpoint| > 0 && redirectEndpoint[0] == '/' ==> e == redirectEndpoint
    ensures !(|redirectEndpoint| > 0 && redirectEndpoint[0] == '/') ==> e == "/" + redirectEndpoint
    ensures |e| >= |redirectEndpoint| && e[|e| - |redirectEndpoint|..] == redirectEndpoint
  {
    if |redirectEndpoint| > 0 && redirectEndpoint[0] == '/' then redirectEndpoint
    else "/" + redirectEndpoint
  }

  /** Normalising a path twice changes nothing more. */
  lemma EndpointIdempotent(redirectEndpoint: string)
    ensures Endpoint(Endpoint(redirectEndpoint)) == Endpoint(redirectEndpoint)
  {
  }

  /** The text before the port in a redirect URI, `http://127.0.0.1:`. */
  function RedirectPrefix(): string
  {
    "http://" + LoopbackAddress + ":"
  }

  /** The redirect URI registered for the session: the loopback address, the port the
      listener was given, and the normalised endpoint. */
  function RedirectUri(port: nat, redirectEndpoint: string): string
  {
    RedirectPrefix() + NatToString(port) + Endpoint(redirectEndpoint)
  }

  /** The redirect URI names the listener's port and the normalised endpoint: after
      the loopback prefix come the decimal digits of the port, without leading zeros,
      and the first `/` after them starts the path. */
  lemma RedirectUriParts(port: nat, redirectEndpoint: string)
    ensures exists digits: string ::
      && RedirectUri(port, redirectEndpoint) == RedirectPrefix() + digits + Endpoint(redirectEndpoint)
      && |digits| > 0 && (forall i :: 0 <= i < |digits| ==> IsDigit(digits[i]))
      && (|digits| > 1 ==> digits[0] != '0')
      && DecimalValue(digits) == port
      && IndexOf(digits + Endpoint(redirectEndpoint), '/') == |digits|
  {
    var digits := NatToString(port);
    NatToStringDecimal(port);
    SlashAfterDigits(digits, Endpoint(redirectEndpoint));
  }

  lemma SlashAfterDigits(digits: string, path: string)
    requires forall i :: 0 <= i < |digits| ==> IsDigit(digits[i])
    requires |path| > 0 && path[0] == '/'
    ensures IndexOf(digits + path, '/') == |digits|
  {
    var rest := digits + path;
    assert rest[..|digits|] == digits;
    forall i | 0 <= i < |digits|
      ensures digits[i] != '/'
    {
      assert IsDigit(digits[i]);
    }
    IndexOfAt(rest, '/', |digits|);
  }

  /** The authorize URL the browser is sent to: the authorize endpoint, then
      `client_id`, `redirect_uri`, `response_type`, `code_challenge`,
      `code_challenge_method`, `state` and `scope`, in that order, each as `key=value`. */
  function AuthorizeUrl(clientId: string, redirectUri: string, codeChallenge: string, state: string): string
  {
    AuthEndpoint + "?" + AuthorizeHead(clientId, redirectUri) + "&" + Join(AuthorizeTail(codeChallenge, state), '&')
  }

  /** The parameters up to `response_type`. */
  function AuthorizeHead(clientId: string, redirectUri: string): string
  {
    Callback.Param("client_id", clientId) + "&" + Callback.Param("redirect_uri", redirectUri) + "&"
      + Callback.Param("response_type", "code")
  }

  /** The parameters after `response_type`. */
  function AuthorizeTail(codeChallenge: string, state: string): seq<string>
  {
    Params(TailKeys(), [codeChallenge, "S256", state, Scope])
  }

  function TailKeys(): seq<string>
  {
    ["code_challenge", "code_challenge_method", "state", "scope"]
  }

  /** The keys after `response_type` are distinct. */
  lemma TailKeysDistinct()
    ensures |TailKeys()| == 4
    ensures forall i, j :: 0 <= i < j < 4 ==> TailKeys()[i] != TailKeys()[j]
  {
    var k := TailKeys();
    assert |k[0]| == 14 && |k[1]| == 21 && |k[2]| == 5 && |k[3]| == 5;
    assert k[2][1] != k[3][1];
  }

  /** The keys after `response_type`, and the fixed values among them, hold no delimiters. */
  lemma TailKeysNoDelimiters()
    ensures |TailKeys()| == 4
    ensures forall i :: 0 <= i < 4 ==> Callback.NoDelimiters(TailKeys()[i])
  {
    ChallengeKeysNoDelimiters();
    assert Callback.NoDelimiters("state") && Callback.NoDelimiters("scope");
  }

  lemma ChallengeKeysNoDelimiters()
    ensures Callback.NoDelimiters("code_challenge") && Callback.NoDelimiters("code_challenge_method")
  {
  }

  lemma FixedValuesNoDelimiters()
    ensures Callback.NoDelimiters("S256") && Callback.NoDelimiters(Scope)
  {
  }

  /** The `key=value` parameters of paired keys and values. */
  function Params(keys: seq<string>, values: seq<string>): (ps: seq<string>)
    requires |keys| == |values|
    ensures |ps| == |keys|
  {
    seq(|keys|, j requires 0 <= j < |keys| => Callback.Param(keys[j], values[j]))
  }

  /** Parameters with distinct keys and no delimiters split back apart, and each key
      looks up its own value. */
  lemma ParamsParse(keys: seq<string>, values: seq<string>)
    requires |keys| == |values| >= 1
    requires forall i :: 0 <= i < |keys| ==> Callback.NoDelimiters(keys[i]) && Callback.NoDelimiters(values[i])
    requires forall i, j :: 0 <= i < j < |keys| ==> keys[i] != keys[j]
    ensures Split(Join(Params(keys, values), '&'), '&') == Params(keys, values)
    ensures forall i :: 0 <= i < |keys| ==> Callback.LastValue(Params(keys, values), keys[i]) == Some(values[i])
  {
    var ps := Params(keys, values);
    forall i | 0 <= i < |ps|
      ensures '&' !in ps[i] && Callback.Pair(ps[i]) == Some((keys[i], values[i]))
    {
      Callback.ParamFacts(keys[i], values[i]);
      Callback.PairOf(keys[i], values[i]);
    }
    SplitJoin(ps, '&');
    forall i | 0 <= i < |keys|
      ensures Callback.LastValue(ps, keys[i]) == Some(values[i])
    {
      forall j | i < j < |ps|
        ensures !Callback.HasKey(ps[j], keys[i])
      {
        assert Callback.Pair(ps[j]) == Some((keys[j], values[j]));
      }
      Callback.LastValueIsLastPair(ps, keys[i], values[i]);
    }
  }

  /** The authorize URL carries the state and the challenge (section 4.1.1 of RFC 6749,
      section 4.3 of RFC 7636): read back with the callback's own query parser, the
      last `state` is the session's state and the last `code_challenge` its challenge,
      whatever the client identifier and the redirect URI hold. */
  lemma AuthorizeUrlCarries(clientId: string, redirectUri: string, codeChallenge: string, state: string)
    requires Callback.NoDelimiters(codeChallenge) && Callback.NoDelimiters(state)
    ensures var url := AuthorizeUrl(clientId, redirectUri, codeChallenge, state);
      && '?' in url
      && var params := Split(Callback.QueryOf(url), '&');
      && Callback.LastValue(params, "state") == Some(state)
      && Callback.LastValue(params, "code_challenge") == Some(codeChallenge)
      && Callback.LastValue(params, "code_challenge_method") == Some("S256")
      && Callback.LastValue(params, "scope") == Some(Scope)
  {
    var head := AuthorizeHead(clientId, redirectUri);
    var tail := AuthorizeTail(codeChallenge, state);
    TailParses(codeChallenge, state);
    var url := AuthorizeUrl(clientId, redirectUri, codeChallenge, state);
    assert url == AuthEndpoint + "?" + head + "&" + Join(tail, '&');
    AuthEndpointHasNoQuery();
    QueryParams(AuthEndpoint, head, tail);
    var params := Split(Callback.QueryOf(url), '&');
    assert params == Split(head, '&') + tail;
    Callback.LastValueConcat(Split(head, '&'), tail, "state");
    Callback.LastValueConcat(Split(head, '&'), tail, "code_challenge");
    Callback.LastValueConcat(Split(head, '&'), tail, "code_challenge_method");
    Callback.LastValueConcat(Split(head, '&'), tail, "scope");
  }

  lemma AuthEndpointHasNoQuery()
    ensures '?' !in AuthEndpoint
  {
    assert forall i :: 0 <= i < |AuthEndpoint| ==> AuthEndpoint[i] != '?';
  }

  /** A query `<head>&<tail>` behind a `?`-free path splits into the head's pieces and then the tail. */
  lemma QueryParams(path: string, head: string, tail: seq<string>)
    requires '?' !in path
    requires Split(Join(tail, '&'), '&') == tail
    ensures var url := path + "?" + head + "&" + Join(tail, '&');
      && '?' in url
      && Split(Callback.QueryOf(url), '&') == Split(head, '&') + tail
  {
    var t := Join(tail, '&');
    var p := path + "?";
    Associative(p, head, "&");
    Associative(p, head + "&", t);
    Callback.QueryAfter(path, head + ['&'] + t);
    SplitAppend(head, t, '&');
  }

  lemma TailParses(codeChallenge: string, state: string)
    requires Callback.NoDelimiters(codeChallenge) && Callback.NoDelimiters(state)
    ensures var t := AuthorizeTail(codeChallenge, state);
      && Split(Join(t, '&'), '&') == t
      && Callback.LastValue(t, "state") == Some(state)
      && Callback.LastValue(t, "code_challenge") == Some(codeChallenge)
      && Callback.LastValue(t, "code_challenge_method") == Some("S256")
      && Callback.LastValue(t, "scope") == Some(Scope)
  {
    var keys, values := TailKeys(), [codeChallenge, "S256", state, Scope];
    TailKeysDistinct();
    TailKeysNoDelimiters();
    FixedValuesNoDelimiters();
    ParamsParse(keys, values);
    assert keys[0] == "code_challenge" && keys[1] == "code_challenge_method";
    assert keys[2] == "state" && keys[3] == "scope";
  }

  /** `Guid.ToString("N")`: 32 lower-case hexadecimal digits. */
  predicate IsGuidN(s: string)
  {
    |s| == 32 && forall i :: 0 <= i < |s| ==> ('0' <= s[i] <= '9' || 'a' <= s[i] <= 'f')
  }

  /** A state written by `Guid.ToString("N")` has no query delimiters. */
  lemma GuidHasNoDelimiters(s: string)
    requires IsGuidN(s)
    ensures Callback.NoDelimiters(s)
  {
    forall i | 0 <= i < |s|
      ensures s[i] != ' ' && s[i] != '&' && s[i] != '='
    {
    }
  }

  /** A verifier's challenge has no query delimiters. */
  lemma ChallengeHasNoDelimiters(codeVerifier: string, sha256: seq<byte> -> seq<byte>)
    ensures Callback.NoDelimiters(S256(codeVerifier, sha256))
  {
    var c := S256(codeVerifier, sha256);
    forall i | 0 <= i < |c|
      ensures c[i] != ' ' && c[i] != '&' && c[i] != '='
    {
      assert Base64.IsUrlChar(c[i]);
    }
  }

  /** SHA-256 as the session uses it: a function giving a 32-byte digest for every input. */
  ghost predicate IsDigest(sha256: seq<byte> -> seq<byte>)
  {
    forall b :: |sha256(b)| == 32
  }

  /** The URL building of `GetAuthorizationCodeAsync`: the authorize URL for a
      `Guid` state, which the callback's own parser reads back to that state and
      challenge. */
  method BuildAuthorizeUrl(clientId: string, redirectUri: string, codeChallenge: string, state: string)
    returns (url: string)
    requires IsGuidN(state) && Callback.NoDelimiters(codeChallenge)
    ensures url == AuthorizeUrl(clientId, redirectUri, codeChallenge, state)
    ensures '?' in url
    ensures var params := Split(Callback.QueryOf(url), '&');
      && Callback.LastValue(params, "state") == Some(state)
      && Callback.LastValue(params, "code_challenge") == Some(codeChallenge)
  {
    GuidHasNoDelimiters(state);
    AuthorizeUrlCarries(clientId, redirectUri, codeChallenge, state);
    url := AuthorizeUrl(clientId, redirectUri, codeChallenge, state);
  }

  /** The session invariant, over the values of the session's fields. */
  ghost predicate SessionInvariant(isInitialized: bool, listener: Option<Listener>, redirectUri: Option<string>,
                                   clientId: Option<string>, codeVerifier: Option<string>,
                                   codeChallenge: Option<string>, sha256: seq<byte> -> seq<byte>)
  {
    && IsDigest(sha256)
    && (isInitialized ==>
          listener.Some? && listener.value.listening &&
          redirectUri.Some? && clientId.Some? && codeVerifier.Some? && codeChallenge.Some?)
    && (codeChallenge.Some? ==> |codeChallenge.value| == 43)
    && (codeVerifier.Some? <==> codeChallenge.Some?)
    && (codeVerifier.Some? ==> IsPkcePair(codeVerifier.value, codeChallenge.value, sha256))
  }

  /** The loopback listener: the port it is bound to and whether it accepts connections. */
  datatype Listener = Listener(port: nat, listening: bool)

  /** The session. `Initialize` binds the listener and makes the PKCE pair, `Stop`
      closes the listener, and the other operations need an initialized session. */
  class AuthClient {
    /** The SHA-256 the challenge is computed with. */
    const sha256: seq<byte> -> seq<byte>

    var listener: Option<Listener>
    var redirectUri: Option<string>
    var state: string
    var clientId: Option<string>
    var codeVerifier: Option<string>
    var codeChallenge: Option<string>
    var isInitialized: bool

    /** SHA-256 gives 32-byte digests; an initialized session holds every field and a
        listening listener; the challenge is always the 43-character S256 transformation
        of the verifier, and the verifier has the form `GenerateCodeVerifier` gives. */
    ghost predicate Valid()
      reads this
    {
      SessionInvariant(isInitialized, listener, redirectUri, clientId, codeVerifier, codeChallenge, sha256)
    }

    constructor (sha256: seq<byte> -> seq<byte>)
      requires IsDigest(sha256)
      ensures Valid() && !isInitialized
      ensures this.sha256 == sha256 && state == ""
      ensures listener.None? && redirectUri.None? && clientId.None?
      ensures codeVerifier.None? && codeChallenge.None?
    {
      this.sha256 := sha256;
      listener := None;
      redirectUri := None;
      state := "";
      clientId := None;
      codeVerifier := None;
      codeChallenge := None;
      isInitialized := false;
    }

    /** `Initialize`, with the port the listener was given and the 32 bytes the random
        number generator filled. It may be called again on an initialized session. */
    method Initialize(clientId: string, redirectEndpoint: string, port: nat, randomBytes: seq<byte>)
      requires Valid() && |randomBytes| == 32
      modifies this
      ensures Valid() && isInitialized
      ensures |codeVerifier.value| == 43 && |codeChallenge.value| == 43
      ensures this.clientId == Some(clientId)
      ensures listener == Some(Listener(port, true))
      ensures redirectUri == Some(RedirectUri(port, redirectEndpoint))
      ensures codeVerifier == Some(Base64.UnpaddedUrl(randomBytes))
      ensures codeChallenge == Some(S256(Base64.UnpaddedUrl(randomBytes), sha256))
      ensures state == old(state)
    {
      var uri := RedirectUri(port, redirectEndpoint);
      var verifier := GenerateCodeVerifier(randomBytes);
      var challenge := GenerateCodeChallenge(verifier, sha256);
      assert |sha256(Utf8(verifier))| == 32;
      StoreSession(clientId, Listener(port, true), uri, verifier, challenge);
    }

    /** The assignments that end `Initialize`: a session holding a PKCE pair is valid. */
    method StoreSession(clientId: string, listener: Listener, uri: string, verifier: string, challenge: string)
      requires IsDigest(sha256) && listener.listening
      requires IsPkcePair(verifier, challenge, sha256) && |challenge| == 43
      modifies this
      ensures Valid() && isInitialized
      ensures this.clientId == Some(clientId) && this.listener == Some(listener)
      ensures redirectUri == Some(uri)
      ensures codeVerifier == Some(verifier) && codeChallenge == Some(challenge)
      ensures state == old(state)
    {
      this.clientId, this.listener, redirectUri := Some(clientId), Some(listener), Some(uri);
      codeVerifier, codeChallenge := Some(verifier), Some(challenge);
      isInitialized := true;
    }

    /** `Stop`: closes the listener and ends the session; everything else is kept. */
    method Stop()
      requires Valid() && isInitialized
      modifies this
      ensures Valid() && !isInitialized
      ensures listener == Some(old(listener.value).(listening := false))
      ensures redirectUri == old(redirectUri) && clientId == old(clientId) && state == old(state)
      ensures codeVerifier == old(codeVerifier) && codeChallenge == old(codeChallenge)
    {
      listener := Some(listener.value.(listening := false));
      isInitialized := false;
    }

    /** `GetAuthorizationCodeAsync`, with the fresh state, the request line read from
        the one connection the browser makes and the lines that follow it. It keeps
        the state, builds the authorize URL the browser is opened on, and receives the
        callback against that state. */
    method GetAuthorizationCode(newState: string, requestLine: Option<string>, following: seq<string>)
      returns (authorizeUrl: string, result: AR.AuthResult, pageWritten: bool)
      requires Valid() && isInitialized
      requires IsGuidN(newState)
      modifies this`state
      ensures Valid() && isInitialized
      ensures state == newState
      ensures authorizeUrl == AuthorizeUrl(clientId.value, redirectUri.value, codeChallenge.value, newState)
      ensures '?' in authorizeUrl
      ensures var params := Split(Callback.QueryOf(authorizeUrl), '&');
        && Callback.LastValue(params, "state") == Some(newState)
        && Callback.LastValue(params, "code_challenge") == Some(codeChallenge.value)
      ensures Callback.Outcome(result, pageWritten) == Callback.Receive(requestLine, newState)
    {
      state := newState;
      assert Valid();
      ChallengeHasNoDelimiters(codeVerifier.value, sha256);
      authorizeUrl := BuildAuthorizeUrl(clientId.value, redirectUri.value, codeChallenge.value, state);
      var headerLines;
      result, pageWritten, headerLines := Callback.ReceiveCallback(requestLine, following, state);
    }

    /** `ExchangeCodeForTokenAsync`, with the token endpoint (the server at
        `TokenEndpoint`) as a function from the posted form to its reply and the two
        readings of the clock. An erroneous authorization result posts nothing; otherwise the authorization code grant of
        section 4.1.3 of RFC 6749 with the PKCE verifier of section 4.5 of RFC 7636
        is posted and its reply normalised. The posted verifier is the one whose S256
        challenge the authorize URL carried, so the check of section 4.6 of RFC 7636 passes. */
    method ExchangeCodeForToken(authResult: AR.AuthResult, tokenEndpoint: TE.Form -> TE.TokenResponse,
                                nowAtExpiry: int, nowAtRefreshExpiry: int)
      returns (posted: Option<TE.Form>, outcome: TE.TokenOutcome)
      requires Valid() && isInitialized
      ensures posted.None? <==> authResult.isError
      ensures authResult.isError ==>
        outcome == TE.Issued(AT.Error("Cannot obtain tokens from an erronous authorization result"))
      ensures !authResult.isError ==>
        && posted == Some(TE.AuthorizationCodeForm(clientId.value, authResult.code, redirectUri.value, codeVerifier.value))
        && outcome == TE.NormalizeTokenResponse(tokenEndpoint(posted.value), nowAtExpiry, nowAtRefreshExpiry)
      ensures !authResult.isError ==> S256(posted.value[4].1, sha256) == codeChallenge.value
    {
      if authResult.isError {
        return None, TE.Issued(AT.Error("Cannot obtain tokens from an erronous authorization result"));
      }
      var form := TE.AuthorizationCodeForm(clientId.value, authResult.code, redirectUri.value, codeVerifier.value);
      posted := Some(form);
      outcome := TE.NormalizeTokenResponse(tokenEndpoint(form), nowAtExpiry, nowAtRefreshExpiry);
    }

    /** `RefreshTokenAsync`, with the token endpoint at `TokenEndpoint` as in
        `ExchangeCodeForToken`: an empty refresh token posts nothing; otherwise the
        refresh grant of section 6 of RFC 6749 is posted and its reply normalised. */
    method RefreshToken(refreshToken: string, tokenEndpoint: TE.Form -> TE.TokenResponse,
                        nowAtExpiry: int, nowAtRefreshExpiry: int)
      returns (posted: Option<TE.Form>, outcome: TE.TokenOutcome)
      requires Valid() && isInitialized
      ensures posted.None? <==> refreshToken == ""
      ensures refreshToken == "" ==> outcome == TE.Issued(AT.Error("No refresh token"))
      ensures refreshToken != "" ==>
        && posted == Some(TE.RefreshForm(clientId.value, refreshToken))
        && outcome == TE.NormalizeTokenResponse(tokenEndpoint(posted.value), nowAtExpiry, nowAtRefreshExpiry)
    {
      if refreshToken == "" {
        return None, TE.Issued(AT.Error("No refresh token"));
      }
      var form := TE.RefreshForm(clientId.value, refreshToken);
      posted := Some(form);
      outcome := TE.NormalizeTokenResponse(tokenEndpoint(form), nowAtExpiry, nowAtRefreshExpiry);
    }
  }
}
