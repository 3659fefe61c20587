/** Bytes and `Encoding.UTF8.GetBytes`, which turns the code verifier into the
    input of SHA-256. */
module Bytes {

  newtype byte = x: int | 0 <= x < 256

  /** The UTF-8 encoding of one Unicode scalar value (RFC 3629, section 3): the value's
      bits, six at a time from the low end, behind a lead byte that gives the length. */
  function EncodeChar(c: char): (r: seq<byte>)
    ensures |r| == if c as int < 0x80 then 1 else if c as int < 0x800 then 2
                   else if c as int < 0x1_0000 then 3 else 4
    ensures DecodeChar(r) == c as int
    ensures |r| == 1 ==> r[0] < 0x80
    ensures |r| == 2 ==> 0xC2 <= r[0] <= 0xDF
    ensures |r| == 3 ==> 0xE0 <= r[0] <= 0xEF
    ensures |r| == 4 ==> 0xF0 <= r[0] <= 0xF4
    ensures forall i :: 1 <= i < |r| ==> 0x80 <= r[i] <= 0xBF
  {
    var n := c as int;
    assert n <= 0x10_FFFF;
    var n1, n2, n3 := n / 0x40, n / 0x40 / 0x40, n / 0x40 / 0x40 / 0x40;
    SixBits(n); SixBits(n1); SixBits(n2);
    if n < 0x80 then [n as byte]
    else if n < 0x800 then [(0xC0 + n1) as byte, (0x80 + n % 0x40) as byte]
    else if n < 0x1_0000 then
      [(0xE0 + n2) as byte, (0x80 + n1 % 0x40) as byte, (0x80 + n % 0x40) as byte]
    else
      [(0xF0 + n3) as byte, (0x80 + n2 % 0x40) as byte,
       (0x80 + n1 % 0x40) as byte, (0x80 + n % 0x40) as byte]
  }

  lemma SixBits(n: nat)
    ensures n == n / 0x40 * 0x40 + n % 0x40 && 0 <= n % 0x40 < 0x40
  {
  }

  /** The scalar value a well-formed one-character UTF-8 sequence stands for:
      the payload bits of the lead byte followed by six bits per continuation byte. */
  function DecodeChar(b: seq<byte>): int
  {
    if |b| == 1 then b[0] as int
    else if |b| == 2 then (b[0] as int - 0xC0) * 0x40 + (b[1] as int - 0x80)
    else if |b| == 3 then
      ((b[0] as int - 0xE0) * 0x40 + (b[1] as int - 0x80)) * 0x40 + (b[2] as int - 0x80)
    else if |b| == 4 then
      (((b[0] as int - 0xF0) * 0x40 + (b[1] as int - 0x80)) * 0x40 + (b[2] as int - 0x80)) * 0x40
        + (b[3] as int - 0x80)
    else -1
  }

  /** `Encoding.UTF8.GetBytes(s)`: the encodings of the characters, one after another. */
  function Utf8(s: string): seq<byte>
  {
    if |s| == 0 then [] else Utf8(s[..|s| - 1]) + EncodeChar(s[|s| - 1])
  }

  predicate IsAscii(s: string)
  {
    forall i :: 0 <= i < |s| ==> s[i] as int < 0x80
  }

  /** A string of ASCII characters encodes to one byte per character, its code. */
  lemma {:induction false} Utf8OfAscii(s: string)
    requires IsAscii(s)
    ensures |Utf8(s)| == |s|
    ensures forall i :: 0 <= i < |s| ==> Utf8(s)[i] as int == s[i] as int
  {
    if |s| > 0 {
      Utf8OfAscii(s[..|s| - 1]);
    }
  }
}
