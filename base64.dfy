/** `Convert.ToBase64String` (the padded base64 of section 4 of RFC 4648) and the
    client's `Base64UrlEncode`, which turns it into base64url without padding
    (section 5 of RFC 4648), with a decoder as its inverse. */
module Base64 {
  import opened Optional
  import opened Text
  import opened Bytes

  /** The four 6-bit groups of three bytes. */
  function Quantum(b0: int, b1: int, b2: int): (g: seq<int>)
    requires 0 <= b0 < 256 && 0 <= b1 < 256 && 0 <= b2 < 256
    ensures |g| == 4 && forall i :: 0 <= i < 4 ==> 0 <= g[i] < 64
  {
    [b0 / 4, b0 % 4 * 16 + b1 / 16, b1 % 16 * 4 + b2 / 64, b2 % 64]
  }

  /** The three bytes four 6-bit groups stand for. */
  function Unquantum(s0: int, s1: int, s2: int, s3: int): (b: seq<byte>)
    requires 0 <= s0 < 64 && 0 <= s1 < 64 && 0 <= s2 < 64 && 0 <= s3 < 64
    ensures |b| == 3
  {
    [(s0 * 4 + s1 / 16) as byte, (s1 % 16 * 16 + s2 / 4) as byte, (s2 % 4 * 64 + s3) as byte]
  }

  /** `Unquantum` undoes `Quantum`; a missing byte is zero-filled, and then so are the
      groups only it contributes to. */
  lemma UnquantumOfQuantum(b0: int, b1: int, b2: int)
    requires 0 <= b0 < 256 && 0 <= b1 < 256 && 0 <= b2 < 256
    ensures var g := Quantum(b0, b1, b2);
      Unquantum(g[0], g[1], g[2], g[3]) == [b0 as byte, b1 as byte, b2 as byte]
    ensures b1 == 0 && b2 == 0 ==> Quantum(b0, b1, b2)[2] == 0
    ensures b2 == 0 ==> Quantum(b0, b1, b2)[3] == 0
  {
    assert b0 / 4 * 4 + (b0 % 4 * 16 + b1 / 16) / 16 == b0;
    assert (b0 % 4 * 16 + b1 / 16) % 16 * 16 + (b1 % 16 * 4 + b2 / 64) / 4 == b1;
    assert (b1 % 16 * 4 + b2 / 64) % 4 * 64 + b2 % 64 == b2;
  }

  /** The 6-bit groups of an encoding: every three bytes give four groups; a final
      two bytes give three and a final byte gives two, zero-filled on the right. */
  function Sextets(b: seq<byte>): (r: seq<int>)
    ensures |r| == (4 * |b| + 2) / 3
    ensures forall i :: 0 <= i < |r| ==> 0 <= r[i] < 64
    decreases |b|
  {
    if |b| == 0 then []
    else
      var g := Quantum(b[0] as int, if |b| > 1 then b[1] as int else 0, if |b| > 2 then b[2] as int else 0);
      if |b| == 1 then g[..2]
      else if |b| == 2 then g[..3]
      else g + Sextets(b[3..])
  }

  /** The bytes a sequence of 6-bit groups stands for: the inverse of `Sextets`. */
  function Octets(s: seq<int>): (r: seq<byte>)
    requires forall i :: 0 <= i < |s| ==> 0 <= s[i] < 64
    decreases |s|
  {
    if |s| < 2 then []
    else
      var g := Unquantum(s[0], s[1], if |s| > 2 then s[2] else 0, if |s| > 3 then s[3] else 0);
      if |s| == 2 then g[..1]
      else if |s| == 3 then g[..2]
      else g + Octets(s[4..])
  }

  lemma {:induction false} OctetsOfSextets(b: seq<byte>)
    ensures Octets(Sextets(b)) == b
    decreases |b|
  {
    if |b| > 0 {
      var b1, b2 := if |b| > 1 then b[1] as int else 0, if |b| > 2 then b[2] as int else 0;
      UnquantumOfQuantum(b[0] as int, b1, b2);
      if |b| >= 3 {
        var s := Sextets(b);
        assert s[4..] == Sextets(b[3..]);
        OctetsOfSextets(b[3..]);
        assert b == b[..3] + b[3..];
      }
    }
  }

  /** The length of an unpadded encoding is never one more than a multiple of four,
      and padding it to a multiple of four takes two characters after one trailing
      byte and one after two. */
  lemma EncodedLength(n: nat)
    ensures var m := (4 * n + 2) / 3;
      && (n % 3 == 0 ==> m % 4 == 0)
      && (n % 3 == 1 ==> m % 4 == 2)
      && (n % 3 == 2 ==> m % 4 == 3)
  {
    var q, r := n / 3, n % 3;
    assert n == 3 * q + r;
    assert 4 * n + 2 == 3 * (4 * q) + (4 * r + 2);
    assert (4 * n + 2) / 3 == 4 * q + (4 * r + 2) / 3;
  }

  /** The character of a 6-bit value in the standard alphabet (Table 1 of RFC 4648). */
  function StandardChar(v: int): char
    requires 0 <= v < 64
  {
    if v < 26 then ('A' as int + v) as char
    else if v < 52 then ('a' as int + v - 26) as char
    else if v < 62 then ('0' as int + v - 52) as char
    else if v == 62 then '+' else '/'
  }

  /** The character of a 6-bit value in the URL and filename safe alphabet (Table 2 of RFC 4648). */
  function UrlChar(v: int): char
    requires 0 <= v < 64
  {
    if v == 62 then '-' else if v == 63 then '_' else StandardChar(v)
  }

  predicate IsUrlChar(c: char)
  {
    'A' <= c <= 'Z' || 'a' <= c <= 'z' || '0' <= c <= '9' || c == '-' || c == '_'
  }

  /** Table 2 differs from Table 1 only in `-` for `+` and `_` for `/`, and neither
      alphabet holds the pad character. */
  lemma AlphabetsAgree(v: int)
    requires 0 <= v < 64
    ensures StandardChar(v) != '='
    ensures var c := StandardChar(v);
      var d := if c == '+' then '-' else c;
      (if d == '/' then '_' else d) == UrlChar(v)
    ensures IsUrlChar(UrlChar(v))
  {
  }

  /** The 6-bit value of a base64url character, the inverse of `UrlChar`. */
  function UrlValue(c: char): (v: int)
    requires IsUrlChar(c)
    ensures 0 <= v < 64 && UrlChar(v) == c
  {
    if 'A' <= c <= 'Z' then c as int - 'A' as int
    else if 'a' <= c <= 'z' then c as int - 'a' as int + 26
    else if '0' <= c <= '9' then c as int - '0' as int + 52
    else if c == '-' then 62 else 63
  }

  /** The standard-alphabet characters of some 6-bit groups. */
  function StandardBody(s: seq<int>): (r: string)
    requires forall i :: 0 <= i < |s| ==> 0 <= s[i] < 64
    ensures |r| == |s|
  {
    seq(|s|, i requires 0 <= i < |s| => StandardChar(s[i]))
  }

  /** The padding `Convert.ToBase64String` appends after `n` bytes. */
  function Padding(n: nat): (r: string)
    ensures forall i :: 0 <= i < |r| ==> r[i] == '='
  {
    if n % 3 == 1 then "==" else if n % 3 == 2 then "=" else ""
  }

  /** `Convert.ToBase64String`: the groups in the standard alphabet, then `=` up to a
      multiple of four characters. */
  function ToBase64String(b: seq<byte>): (r: string)
    ensures |r| % 4 == 0
  {
    EncodedLength(|b|);
    StandardBody(Sextets(b)) + Padding(|b|)
  }

  /** base64url without padding, written directly from the groups: the reference
      the client's encoder is proved against. */
  function UnpaddedUrl(b: seq<byte>): (r: string)
    ensures |r| == (4 * |b| + 2) / 3
  {
    var s := Sextets(b);
    seq(|s|, i requires 0 <= i < |s| => UrlChar(s[i]))
  }

  /** The client's `Base64UrlEncode`: standard base64, trailing `=` trimmed,
      `+` replaced by `-` and `/` by `_`. */
  function Base64UrlEncode(b: seq<byte>): (r: string)
    ensures r == UnpaddedUrl(b)
    ensures |r| == (4 * |b| + 2) / 3
    ensures forall i :: 0 <= i < |r| ==> IsUrlChar(r[i])
  {
    TrimmedStandardIsUnpaddedUrl(b);
    Replace(Replace(TrimEnd(ToBase64String(b), '='), '+', '-'), '/', '_')
  }

  lemma TrimmedStandardIsUnpaddedUrl(b: seq<byte>)
    ensures Replace(Replace(TrimEnd(ToBase64String(b), '='), '+', '-'), '/', '_') == UnpaddedUrl(b)
    ensures forall i :: 0 <= i < |UnpaddedUrl(b)| ==> IsUrlChar(UnpaddedUrl(b)[i])
  {
    var s := Sextets(b);
    var body := StandardBody(s);
    forall i | 0 <= i < |body|
      ensures body[i] != '='
    {
      AlphabetsAgree(s[i]);
    }
    TrimPadding(body, Padding(|b|));
    var u := UnpaddedUrl(b);
    forall i | 0 <= i < |u|
      ensures Replace(Replace(body, '+', '-'), '/', '_')[i] == u[i] && IsUrlChar(u[i])
    {
      AlphabetsAgree(s[i]);
    }
  }

  lemma {:induction false} TrimPadding(body: string, pad: string)
    requires forall i :: 0 <= i < |body| ==> body[i] != '='
    requires forall i :: 0 <= i < |pad| ==> pad[i] == '='
    ensures TrimEnd(body + pad, '=') == body
  {
    if |pad| > 0 {
      assert (body + pad)[..|body + pad| - 1] == body + pad[..|pad| - 1];
      TrimPadding(body, pad[..|pad| - 1]);
    } else {
      assert body + pad == body;
    }
  }

  /** base64url without padding, decoded: `None` for a character outside the
      alphabet or a length that no byte sequence encodes to. */
  function Base64UrlDecode(t: string): (r: Option<seq<byte>>)
  {
    if (forall i :: 0 <= i < |t| ==> IsUrlChar(t[i])) && |t| % 4 != 1 then Some(Octets(UrlValues(t)))
    else None
  }

  /** The 6-bit values of base64url characters. */
  function UrlValues(t: string): (s: seq<int>)
    requires forall i :: 0 <= i < |t| ==> IsUrlChar(t[i])
    ensures |s| == |t| && forall i :: 0 <= i < |t| ==> s[i] == UrlValue(t[i]) && 0 <= s[i] < 64
  {
    seq(|t|, i requires 0 <= i < |t| => UrlValue(t[i]))
  }

  /** Decoding undoes `Base64UrlEncode`. */
  lemma Base64UrlRoundTrip(b: seq<byte>)
    ensures Base64UrlDecode(Base64UrlEncode(b)) == Some(b)
  {
    UnpaddedUrlRoundTrip(b);
  }

  lemma UnpaddedUrlRoundTrip(b: seq<byte>)
    ensures Base64UrlDecode(UnpaddedUrl(b)) == Some(b)
  {
    var t := UnpaddedUrl(b);
    EncodedLength(|b|);
    assert |t| % 4 != 1;
    UrlValuesOfUnpadded(b);
    OctetsOfSextets(b);
  }

  /** Reading the characters of an encoding back as 6-bit values gives its groups. */
  lemma UrlValuesOfUnpadded(b: seq<byte>)
    ensures forall i :: 0 <= i < |UnpaddedUrl(b)| ==> IsUrlChar(UnpaddedUrl(b)[i])
    ensures UrlValues(UnpaddedUrl(b)) == Sextets(b)
  {
    var t := UnpaddedUrl(b);
    var s := Sextets(b);
    forall i | 0 <= i < |t|
      ensures IsUrlChar(t[i]) && UrlValue(t[i]) == s[i]
    {
      AlphabetsAgree(s[i]);
      UrlCharInjective(UrlValue(t[i]), s[i]);
    }
  }

  lemma UrlCharInjective(v: int, w: int)
    requires 0 <= v < 64 && 0 <= w < 64
    requires UrlChar(v) == UrlChar(w)
    ensures v == w
  {
  }

  /** Distinct byte sequences never share an encoding, so distinct verifiers give
      distinct strings and distinct digests distinct challenges. */
  lemma Base64UrlInjective(b: seq<byte>, c: seq<byte>)
    requires b != c
    ensures Base64UrlEncode(b) != Base64UrlEncode(c)
  {
    Base64UrlRoundTrip(b);
    Base64UrlRoundTrip(c);
  }
}
