/** The checksum string BidirectionalFileSync records for a file: the
    SHA-256 digest of its bytes, each digest byte formatted as two lower-case
    hexadecimal digits, or the empty string when hashing fails. The digest
    itself is an input to this model. */
module DigestHex {
  import opened Bytes

  /** Length in bytes of a SHA-256 digest. */
  const SHA256_LENGTH: nat := 32

  const HEX_DIGITS: string := "0123456789abcdef"

  predicate IsLowerHex(c: char)
  {
    '0' <= c <= '9' || 'a' <= c <= 'f'
  }

  function HexDigit(v: int): (c: char)
    requires 0 <= v < 16
    ensures IsLowerHex(c)
  {
    HEX_DIGITS[v]
  }

  /** The value of a lower-case hexadecimal digit. */
  function DigitValue(c: char): (v: int)
    requires IsLowerHex(c)
    ensures 0 <= v < 16 && HexDigit(v) == c
  {
    if c <= '9' then c as int - '0' as int else c as int - 'a' as int + 10
  }

  lemma DigitValueHexDigit(v: int)
    requires 0 <= v < 16
    ensures DigitValue(HexDigit(v)) == v
  {
  }

  /** String.format("%02x", b) for one digest byte: a Java byte is signed,
      and %x prints a negative one as its value plus 256, so every byte
      gives exactly two digits, the high nibble first. */
  function FormatByte(b: byte): (s: string)
    ensures |s| == 2 && IsLowerHex(s[0]) && IsLowerHex(s[1])
    ensures DigitValue(s[0]) * 16 + DigitValue(s[1]) == b
  {
    DigitValueHexDigit(b / 16);
    DigitValueHexDigit(b % 16);
    [HexDigit(b / 16), HexDigit(b % 16)]
  }

  /** The digest bytes formatted one after another. */
  function Hex(d: seq<byte>): (s: string)
    ensures |s| == 2 * |d|
    ensures forall i :: 0 <= i < |s| ==> IsLowerHex(s[i])
  {
    if d == [] then [] else Hex(d[..|d| - 1]) + FormatByte(d[|d| - 1])
  }

  /** The StringBuilder loop over md.digest(). */
  method FormatDigest(digest: seq<byte>) returns (s: string)
    ensures s == Hex(digest)
  {
    s := [];
    for i := 0 to |digest|
      invariant s == Hex(digest[..i])
    {
      assert digest[..i + 1][..i] == digest[..i];
      s := s + FormatByte(digest[i]);
    }
    assert digest[..|digest|] == digest;
  }

  /** Reading a checksum string back into digest bytes. */
  function Unhex(s: string): (r: Option<seq<byte>>)
    decreases |s|
  {
    if s == [] then Some([])
    else if |s| < 2 || !IsLowerHex(s[|s| - 2]) || !IsLowerHex(s[|s| - 1]) then None
    else match Unhex(s[..|s| - 2])
      case None => None
      case Some(front) => Some(front + [DigitValue(s[|s| - 2]) * 16 + DigitValue(s[|s| - 1])])
  }

  /** The formatting loses nothing: the digest can be read back from it. */
  lemma {:induction false} UnhexHex(d: seq<byte>)
    ensures Unhex(Hex(d)) == Some(d)
  {
    if d != [] {
      var front, last := d[..|d| - 1], d[|d| - 1];
      var t := Hex(front);
      calc {
        Unhex(Hex(d));
        { assert Hex(d) == t + FormatByte(last); }
        Unhex(t + FormatByte(last));
        { UnhexHex(front); UnhexFormatted(t, last); }
        Some(front + [last]);
        { assert front + [last] == d; }
        Some(d);
      }
    }
  }

  /** Reading back a string that ends in a formatted byte reads back the
      rest, then that byte. */
  lemma UnhexFormatted(t: string, b: byte)
    ensures Unhex(t + FormatByte(b)) == match Unhex(t)
      case None => None
      case Some(front) => Some(front + [b])
  {
    UnhexAppend(t, FormatByte(b));
  }

  /** Reading back a string that ends in two digits reads back the rest,
      then the byte those two digits spell. */
  lemma UnhexAppend(t: string, pair: string)
    requires |pair| == 2 && IsLowerHex(pair[0]) && IsLowerHex(pair[1])
    ensures Unhex(t + pair) == match Unhex(t)
      case None => None
      case Some(front) => Some(front + [DigitValue(pair[0]) * 16 + DigitValue(pair[1])])
  {
    var s := t + pair;
    assert s[..|s| - 2] == t;
    assert s[|s| - 2] == pair[0] && s[|s| - 1] == pair[1];
  }

  /** So distinct digests give distinct checksum strings. */
  lemma HexInjective(d1: seq<byte>, d2: seq<byte>)
    requires Hex(d1) == Hex(d2)
    ensures d1 == d2
  {
    UnhexHex(d1);
    UnhexHex(d2);
  }

  /** checksum(file): the formatted digest, or "" when reading or hashing
      the file throws. */
  function Checksum(digest: Option<seq<byte>>): (s: string)
    ensures digest.None? ==> s == ""
    ensures digest.Some? ==> Unhex(s) == Some(digest.value)
  {
    match digest
    case None => ""
    case Some(d) => UnhexHex(d); Hex(d)
  }

  /** A SHA-256 checksum is 64 digits long, so the empty string means
      exactly that hashing failed. */
  lemma ChecksumEmptyIffFailed(digest: Option<seq<byte>>)
    requires digest.Some? ==> |digest.value| == SHA256_LENGTH
    ensures Checksum(digest) == "" <==> digest.None?
    ensures digest.Some? ==> |Checksum(digest)| == 2 * SHA256_LENGTH
  {
  }
}
