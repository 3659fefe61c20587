/** The PKCE pair of RFC 7636: the code verifier made from 32 random bytes and its
    S256 code challenge. The random bytes and SHA-256 are given to these members. */
module Pkce {
  import opened Optional
  import opened Bytes
  import opened Base64

  /** A code verifier as `GenerateCodeVerifier` makes them: 43 base64url characters. */
  predicate IsCodeVerifier(v: string)
  {
    |v| == 43 && forall i :: 0 <= i < |v| ==> IsUrlChar(v[i])
  }

  /** The unreserved characters of section 4.1 of RFC 7636. */
  predicate IsUnreserved(c: char)
  {
    'A' <= c <= 'Z' || 'a' <= c <= 'z' || '0' <= c <= '9' || c == '-' || c == '.' || c == '_' || c == '~'
  }

  /** The S256 code challenge of section 4.2 of RFC 7636: the unpadded base64url of
      the SHA-256 digest of the verifier's bytes. */
  function S256(codeVerifier: string, sha256: seq<byte> -> seq<byte>): (c: string)
    ensures |sha256(Utf8(codeVerifier))| == 32 ==> |c| == 43
    ensures forall i :: 0 <= i < |c| ==> IsUrlChar(c[i])
  {
    TrimmedStandardIsUnpaddedUrl(sha256(Utf8(codeVerifier)));
    UnpaddedUrl(sha256(Utf8(codeVerifier)))
  }

  /** A verifier and the challenge that belongs to it. */
  predicate IsPkcePair(codeVerifier: string, codeChallenge: string, sha256: seq<byte> -> seq<byte>)
  {
    IsCodeVerifier(codeVerifier) && codeChallenge == S256(codeVerifier, sha256)
  }

  /** `GenerateCodeVerifier`, given the 32 bytes its random number generator fills:
      the base64url of those bytes, a verifier of 43 characters. */
  method GenerateCodeVerifier(randomBytes: seq<byte>) returns (v: string)
    requires |randomBytes| == 32
    ensures v == UnpaddedUrl(randomBytes)
    ensures IsCodeVerifier(v)
  {
    v := Base64UrlEncode(randomBytes);
  }

  /** `GenerateCodeChallenge`: the client's encoder applied to the digest of the
      verifier's UTF-8 bytes is the S256 challenge. */
  method GenerateCodeChallenge(codeVerifier: string, sha256: seq<byte> -> seq<byte>) returns (c: string)
    ensures c == S256(codeVerifier, sha256)
  {
    c := Base64UrlEncode(sha256(Utf8(codeVerifier)));
  }

  /** A verifier meets section 4.1 of RFC 7636: 43 to 128 unreserved characters. */
  lemma VerifierIsRfc7636Verifier(v: string)
    requires IsCodeVerifier(v)
    ensures 43 <= |v| <= 128 && forall i :: 0 <= i < |v| ==> IsUnreserved(v[i])
  {
  }

  /** The verifier decodes back to the random bytes it was made from. */
  lemma VerifierDecodes(randomBytes: seq<byte>)
    ensures Base64UrlDecode(UnpaddedUrl(randomBytes)) == Some(randomBytes)
  {
    Base64UrlRoundTrip(randomBytes);
  }

  /** The challenge decodes back to the digest. */
  lemma ChallengeDecodes(codeVerifier: string, sha256: seq<byte> -> seq<byte>)
    ensures Base64UrlDecode(S256(codeVerifier, sha256)) == Some(sha256(Utf8(codeVerifier)))
  {
    Base64UrlRoundTrip(sha256(Utf8(codeVerifier)));
  }

  /** The ASCII bytes of a string of ASCII characters. */
  function Ascii(s: string): (b: seq<byte>)
    requires IsAscii(s)
    ensures |b| == |s|
  {
    seq(|s|, i requires 0 <= i < |s| => s[i] as int as byte)
  }

  /** For a verifier, UTF-8 and ASCII agree, so the challenge is exactly
      BASE64URL-ENCODE(SHA256(ASCII(code_verifier))) of section 4.2 of RFC 7636. */
  lemma ChallengeIsS256(codeVerifier: string, sha256: seq<byte> -> seq<byte>)
    requires IsCodeVerifier(codeVerifier)
    ensures IsAscii(codeVerifier)
    ensures S256(codeVerifier, sha256) == UnpaddedUrl(sha256(Ascii(codeVerifier)))
  {
    Utf8OfAscii(codeVerifier);
    assert Utf8(codeVerifier) == Ascii(codeVerifier);
  }

  /** Distinct random bytes give distinct verifiers. */
  lemma DistinctVerifiers(b: seq<byte>, c: seq<byte>)
    requires b != c
    ensures UnpaddedUrl(b) != UnpaddedUrl(c)
  {
    Base64UrlInjective(b, c);
  }

  /** Verifiers whose digests differ have different challenges. */
  lemma DistinctChallenges(v: string, w: string, sha256: seq<byte> -> seq<byte>)
    requires sha256(Utf8(v)) != sha256(Utf8(w))
    ensures S256(v, sha256) != S256(w, sha256)
  {
    Base64UrlInjective(sha256(Utf8(v)), sha256(Utf8(w)));
  }
}
