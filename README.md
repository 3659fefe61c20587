# AuthClient: an OAuth2 authorization code client with PKCE, in Dafny

This project models the `AuthClient` of the data loader. `AuthClient` is the public
OAuth2 client that signs a user in to the iRacing authorization server. It uses the
authorization code grant of section 4.1 of RFC 6749 with the PKCE extension of
RFC 7636, and it receives the redirect on a loopback listener (section 7.3 of
RFC 8252). The model covers the session object with its two records, `AuthResult`
and `AuthToken`, and proves what the client promises about them:

- **Session.** `Client.AuthClient` is a class with the source's fields.
  - `Initialize` binds the listener, builds the redirect URI and makes the PKCE pair.
  - `Stop` closes the listener.
  - Every other operation needs an initialized session.
  - The class invariant says an initialized session holds every field and a
    listening listener, and the stored challenge is always the 43-character S256
    transformation of the stored verifier.
- **PKCE encoding** (`Base64`, `Pkce`).
  - `Convert.ToBase64String` and the client's `Base64UrlEncode` are defined over bytes.
  - `Base64UrlEncode` is proved equal to unpadded base64url (section 5 of RFC 4648).
  - A decoder is proved to invert it, so the encoding is injective.
  - Verifiers are 43 unreserved characters. The challenge is
    BASE64URL(SHA256(ASCII(verifier))), as section 4.2 of RFC 7636 requires.
- **Loopback callback** (`Callback`).
  - The request-line checks come first, in the source's order.
  - The header-draining loop and the query loop are methods proved against
    specification functions. The query is split on `&`, each piece on `=`, and the
    last occurrence of a key wins.
  - The 200 page is written only once a query was found. The state is checked
    before the code.
  - Requests built from a given code and state are proved to succeed, to fail with
    "State Mismatch" (section 10.12 of RFC 6749) or to fail with "Code not found".
- **Authorize URL** (`Client`). Read back with the callback's own parser, the URL
  yields the session's state, the challenge, `S256` and the scope.
- **Token exchange** (`TokenExchange`).
  - The two forms are posted in their fixed order.
  - The short-circuits happen before any request is made.
  - The normalisation maps the HTTP status and the JSON reply to a credential, or
    to `Fault` where the JSON library throws.

The parts of the environment the client touches are inputs to the model:

- the port the listener was given;
- the 32 random bytes behind the verifier;
- the fresh `Guid` state;
- the request line and the header lines of the callback connection;
- the token endpoint, as a function from form to reply;
- the two readings of the clock.

SHA-256 is a function with 32-byte digests, fixed when the session is constructed.

Files:

- `optional.dfy`: the `Option` type.
- `text.dfy`: the .NET string operations the client uses.
- `bytes.dfy`: bytes and UTF-8.
- `base64.dfy`: base64 and base64url.
- `pkce.dfy`: the PKCE pair.
- `callback.dfy`: the callback receiver.
- `token_exchange.dfy`: the forms and the response normalisation.
- `auth_result.dfy`, `auth_token.dfy`: the two records.
- `auth_client.dfy`: the redirect URI, the authorize URL and the session class.

The model follows the code wherever a reader might expect something else:

- With duplicate query keys, the last one wins.
- A missing `access_token` or `refresh_token` property, a non-string value, or a
  body that is not JSON makes the JSON library throw. The call then ends in the
  `Fault` outcome rather than in an error credential.
- The "Failed to parse the response" branch is unreachable. `JsonDocument.Parse`
  throws instead of returning null, so the model has no such outcome.
- A `null` `refresh_token` gives an empty refresh token. A `null` `access_token`
  gives the error credential "Failed to parse access token or expiration period".

## Model

| member | source | states |
|---|---|---|
| Text.IndexOf | AuthClient.cs:110 | `String.IndexOf(char)`: -1 exactly when the character is absent, otherwise a position holding it with none before it |
| Text.IndexOfAt | AuthClient.cs:110 | the first occurrence is the only position holding the character with none before it |
| Text.Split | AuthClient.cs:102 | `String.Split(char)`: at least one piece, and no piece holds the separator |
| Text.JoinSplit | AuthClient.cs:102 | joining the pieces of a split with the separator gives the string back |
| Text.SplitJoin | AuthClient.cs:114 | splitting a join of separator-free pieces gives the pieces back |
| Text.SplitAppend | AuthClient.cs:114 | splitting `a + sep + b` is splitting `a` followed by splitting `b` |
| Text.TrimEnd | AuthClient.cs:231 | `String.TrimEnd(char)`: the longest prefix that does not end in the character, with only that character cut off |
| Text.Replace | AuthClient.cs:231 | `String.Replace(char, char)`: same length, every occurrence replaced, every other character kept |
| Text.NatToStringDecimal | AuthClient.cs:54 | the port written into the redirect URI is nonempty decimal digits without a leading zero, and reading them back gives the port |
| Bytes.EncodeChar | AuthClient.cs:244 | the UTF-8 encoding of one character has 1 to 4 bytes by the character's range, a lead byte in the range RFC 3629 gives for that length, continuation bytes in 0x80-0xBF, and decodes back to the character |
| Bytes.Utf8OfAscii | AuthClient.cs:244 | `Encoding.UTF8.GetBytes` of an ASCII string is one byte per character, each the character's code |
| Base64.Quantum | AuthClient.cs:231 | three bytes give four 6-bit groups |
| Base64.UnquantumOfQuantum | AuthClient.cs:231 | the four groups of three bytes give the bytes back, and a zero-filled missing byte zeroes only the groups it alone feeds |
| Base64.Sextets | AuthClient.cs:231 | n bytes give ceil(4n/3) 6-bit groups, each below 64 |
| Base64.OctetsOfSextets | AuthClient.cs:231 | the groups of a byte sequence decode back to exactly those bytes |
| Base64.EncodedLength | AuthClient.cs:231 | an unpadded length is never 1 more than a multiple of 4, and the padding fills up to a multiple of 4 |
| Base64.AlphabetsAgree | AuthClient.cs:231 | the URL-safe alphabet is the standard one with `-` for `+` and `_` for `/`, and neither holds `=` |
| Base64.UrlValue | AuthClient.cs:231 | the value of a base64url character is below 64 and maps back to the character |
| Base64.ToBase64String | AuthClient.cs:231 | `Convert.ToBase64String` output has a length that is a multiple of 4 |
| Base64.Base64UrlEncode | AuthClient.cs:230-231 | trimming `=` and replacing `+` and `/` gives exactly unpadded base64url, of length ceil(4n/3), over `[A-Za-z0-9_-]` |
| Base64.TrimmedStandardIsUnpaddedUrl | AuthClient.cs:230-231 | standard base64 with the padding trimmed and the two characters replaced equals base64url without padding |
| Base64.TrimPadding | AuthClient.cs:231 | `TrimEnd('=')` removes exactly the padding, because the body never holds `=` |
| Base64.Base64UrlRoundTrip | AuthClient.cs:230-231 | decoding the output of `Base64UrlEncode` gives the input bytes back |
| Base64.UrlValuesOfUnpadded | AuthClient.cs:230-231 | reading the characters of an encoding back as 6-bit values gives its groups |
| Base64.Base64UrlInjective | AuthClient.cs:230-231 | distinct byte sequences have distinct encodings |
| Pkce.S256 | AuthClient.cs:241-246 | the S256 challenge of a 32-byte digest is 43 base64url characters |
| Pkce.GenerateCodeVerifier | AuthClient.cs:233-239 | the verifier is the unpadded base64url of the 32 random bytes, 43 base64url characters |
| Pkce.GenerateCodeChallenge | AuthClient.cs:241-246 | the client's encoder applied to the digest of the verifier's UTF-8 bytes is the S256 challenge |
| Pkce.VerifierIsRfc7636Verifier | AuthClient.cs:233-239 | a verifier has 43 to 128 unreserved characters, as section 4.1 of RFC 7636 requires |
| Pkce.VerifierDecodes | AuthClient.cs:233-239 | the verifier decodes back to the random bytes it was made from |
| Pkce.ChallengeDecodes | AuthClient.cs:241-246 | the challenge decodes back to the SHA-256 digest of the verifier |
| Pkce.Ascii | AuthClient.cs:244 | the ASCII bytes of an ASCII string, one per character |
| Pkce.ChallengeIsS256 | AuthClient.cs:244-245 | for a verifier, UTF-8 and ASCII agree, so the challenge is BASE64URL(SHA256(ASCII(verifier))) |
| Pkce.DistinctVerifiers | AuthClient.cs:236-238 | distinct random bytes give distinct verifiers |
| Pkce.DistinctChallenges | AuthClient.cs:244-245 | verifiers with different digests have different challenges |
| Callback.Pair | AuthClient.cs:116-117 | a piece that splits on `=` into exactly two parts is `key=value` with no `=` in either part |
| Callback.PairOf | AuthClient.cs:116-117 | `key=value` with no `=` in either part is the pair of that key and value |
| Callback.LastValueIsLastPair | AuthClient.cs:114-124 | the parsed value of a key is `v` exactly when some piece is `key=v` and no later piece has that key |
| Callback.LastValueAbsent | AuthClient.cs:111-124 | a key stays null exactly when no piece is a pair with that key |
| Callback.LaterOccurrenceWins | AuthClient.cs:119-122 | a later occurrence of a key overwrites every earlier one |
| Callback.LastValueConcat | AuthClient.cs:114-124 | pieces appended after others decide every key they hold; the earlier pieces decide the rest |
| Callback.ParseQuery | AuthClient.cs:110-124 | the `foreach` leaves in `code` and `incomingState` the value of the last `code=` and `state=` pair |
| Callback.DrainHeaders | AuthClient.cs:97 | the header loop consumes every line up to and including the first empty one, or all lines when none is empty |
| Callback.QueryOf | AuthClient.cs:110 | the query is the text after the first `?` of the request target |
| Callback.Validate | AuthClient.cs:141-146 | a state other than the expected one gives "State Mismatch"; then an absent or empty code gives "Code not found"; success exactly otherwise, carrying the code |
| Callback.ReceiveCallback | AuthClient.cs:94-146 | the receiver drains the headers, and its result and whether it wrote the page are those of the callback specification for the request line |
| Callback.EarlyFailuresWriteNothing | AuthClient.cs:94-139 | the page is written exactly when the second token of the request line has a `?`; before that the result is one of the four early errors |
| Callback.EarlyFailures | AuthClient.cs:94-108 | no line gives "Could not read request", then an empty line "Empty request", then fewer than two space-separated tokens "Invalid request", then no `?` in the second token "No query parameters"; none of them writes the page |
| Callback.RequestLineQuery | AuthClient.cs:102-124 | for a request line `<method> <path>?<query> <version>`, validation sees the last `code` and `state` of the query, whatever the method and the version |
| Callback.EchoedStateAccepted | AuthClient.cs:141-146 | a callback echoing the expected state with a nonempty code succeeds with that code and writes the page |
| Callback.ForeignStateRejected | AuthClient.cs:141-142 | a callback with any other state fails with "State Mismatch", whatever its code |
| Callback.MissingCodeRejected | AuthClient.cs:143-144 | a callback with the right state and no code fails with "Code not found" |
| Callback.CodeAndStateParses | AuthClient.cs:114-124 | the query `code=<c>&state=<s>` parses to code `c` and state `s` |
| TokenExchange.ReadInt32 | AuthClient.cs:214-217 | `GetInt32` yields a value exactly when the property is a JSON integer in the 32-bit signed range, and then that integer; it throws for anything else |
| TokenExchange.Lifetimes | AuthClient.cs:210-219 | a bad `expires_in` zeroes both durations; a bad `refresh_token_expires_in` alone zeroes only the refresh duration |
| TokenExchange.NormalizeTokenResponse | AuthClient.cs:191-228 | a non-2xx status gives "Failed to obtain tokens" whatever the body; an error credential never carries a token; an issued credential carries the reply's `access_token` |
| TokenExchange.IssuedCredential | AuthClient.cs:198-227 | a credential is issued exactly for a 2xx reply with a string `access_token` and a string or null `refresh_token`; its refresh token is that string or empty, and its expiries are the clock readings plus the durations |
| TokenExchange.FaultCases | AuthClient.cs:201-208 | the call throws exactly for a 2xx reply that is not JSON, has no string-or-null `access_token`, or has a string `access_token` and no string-or-null `refresh_token` |
| TokenExchange.NullAccessToken | AuthClient.cs:204-205 | a null `access_token` gives "Failed to parse access token or expiration period" |
| TokenExchange.FullReply | AuthClient.cs:221-227 | a complete 2xx reply gives the credential holding its two tokens and the two expiries |
| AuthResults.Default | AuthResult.cs:3-7 | a default result has an empty code, no error flag and an empty message |
| AuthResults.Error | AuthResult.cs:9-10 | an error result has the flag, the message and an empty code |
| AuthResults.Success | AuthClient.cs:146 | a successful result carries the code, no error flag and no message |
| AuthTokens.Default | AuthToken.cs:3-10 | a default credential has empty tokens, both expiries at `DateTime.MinValue`, no error flag and an empty message |
| AuthTokens.Error | AuthToken.cs:12-13 | an error credential has the flag and the message, empty tokens and both expiries at `DateTime.MinValue` |
| Client.Endpoint | AuthClient.cs:51-53 | the path is the caller's endpoint when that already starts with `/`, and `/` followed by the caller's text otherwise; either way it starts with `/` and ends with the caller's text |
| Client.EndpointIdempotent | AuthClient.cs:51-53 | normalising a normalised path changes nothing |
| Client.RedirectUriParts | AuthClient.cs:50-54 | the redirect URI is `http://127.0.0.1:`, then the port's decimal digits, then the normalised path, and the first `/` after the prefix ends the digits |
| Client.SlashAfterDigits | AuthClient.cs:54 | the first `/` after the port's digits is the start of the path |
| Client.ParamsParse | AuthClient.cs:77-85 | `key=value` parameters with distinct, delimiter-free keys split back apart and each key looks up its own value |
| Client.QueryParams | AuthClient.cs:77-85 | the query of `<endpoint>?<head>&<tail>` splits into the head's pieces followed by the tail |
| Client.TailParses | AuthClient.cs:82-85 | the last four parameters give back the challenge, `S256`, the state and the scope |
| Client.AuthorizeUrlCarries | AuthClient.cs:76-85 | read back with the callback's own parser, the authorize URL's last `state`, `code_challenge`, `code_challenge_method` and `scope` are the session's state, its challenge, `S256` and `iracing.auth`, whatever the client identifier and the redirect URI hold |
| Client.BuildAuthorizeUrl | AuthClient.cs:76-85 | the authorize URL for a `Guid` state, read back with the callback's parser, gives that state and the challenge |
| Client.GuidHasNoDelimiters | AuthClient.cs:76 | a `Guid.ToString("N")` state has no space, `&` or `=` |
| Client.ChallengeHasNoDelimiters | AuthClient.cs:82 | a challenge has no space, `&` or `=` |
| Client.AuthClient.constructor | AuthClient.cs:19-35 | given a SHA-256 with 32-byte digests, a new session is valid and uninitialized, with every field null and an empty state |
| Client.AuthClient.Initialize | AuthClient.cs:44-60 | the session becomes initialized and valid, with the client identifier, a listening listener on the port, the redirect URI for that port and endpoint, the verifier from the random bytes and its S256 challenge, both 43 characters; the state is kept |
| Client.AuthClient.StoreSession | AuthClient.cs:46-59 | storing a PKCE pair with a listening listener and the other fields leaves a valid, initialized session holding exactly those values |
| Client.AuthClient.Stop | AuthClient.cs:62-69 | an initialized session is closed: the listener stops and the session is uninitialized and valid, with every other field kept |
| Client.AuthClient.GetAuthorizationCode | AuthClient.cs:71-147 | the session stays valid and initialized; the fresh state is stored and placed in the authorize URL, whose last `state` and `code_challenge` read back as that state and the stored challenge, and the callback is validated against it, with the result and page write of the callback specification |
| Client.AuthClient.ExchangeCodeForToken | AuthClient.cs:149-169 | an erroneous result posts nothing and gives its error credential; otherwise the five fields go out in order with the stored verifier, whose S256 is the stored challenge, and the reply is normalised |
| Client.AuthClient.RefreshToken | AuthClient.cs:171-189 | an empty refresh token posts nothing and gives "No refresh token"; otherwise the three fields go out in order and the reply is normalised |

## Left out

- Sockets and streams are not modelled: `TcpListener`, `AcceptTcpClientAsync` and the
  reader and writer (AuthClient.cs:47-48, 89-92, 134-139). The listener is the port it
  was given. The callback connection is its request line and the lines after it. The
  page write is a flag.
- Randomness is not modelled: `RandomNumberGenerator` and `Guid.NewGuid`. The 32
  verifier bytes and the state are parameters.
- SHA-256 is a function given to the session's constructor, required to give 32-byte
  digests; its compression function is not defined.
- HTTP, JSON syntax and form encoding are not modelled. `HttpClient.PostAsync` is the
  token endpoint as a function from form to reply. A reply is a status and an abstract
  JSON body. `FormUrlEncodedContent`'s percent-encoding is left out: a form is its
  key/value pairs in order. JSON objects with a repeated property name are not
  represented, since a body is a map.
- `DateTime` is whole seconds since 0001-01-01. Its range limit, where `AddSeconds`
  would throw, is not modelled. `DateTime.Now` is read twice, and these are two
  parameters.
- An exception thrown by `PostAsync` or `ReadAsStringAsync` (a network failure, the
  `HttpClient` timeout) is not an outcome: the token endpoint is a total function.
  Such an exception would escape the call like the JSON `Fault`.
- Async and await are not modelled: every operation is sequential.
- The `InvalidOperationException` thrown when the session is not initialized is a
  precondition of the operations. It is not an outcome.
- `InfrastructureHelper.cs` (opening the browser) and `Program.cs` (the console UI and
  its background tasks) are not part of this model.
- Strings are sequences of Unicode scalar values, not of UTF-16 code units as in .NET.
  A character above U+FFFF is one `char` here and two code units in .NET, so string
  lengths differ from .NET's for such characters. Lone surrogates cannot be
  represented, so the `Encoding.UTF8` replacement of lone surrogates is not modelled.
  A verifier, a state and the query keys never hold such characters.
- Null strings are not modelled apart from the `Option` fields and the JSON `null`.
- Client.AuthClient.GetAuthorizationCode: requires the state to have the form
  `Guid.ToString("N")` gives. This is the only state the source ever generates.
- Client.AuthClient.Initialize: calling it again on an initialized session leaks the
  old listener in the source; the model just replaces the listener.
- Client.AuthClient.Initialize: the redirect endpoint is not checked for characters
  that would break the URI, and neither is it in the source.
