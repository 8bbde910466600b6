/** Java strings and the "modified UTF-8" form in which DataOutputStream
    writes them and DataInputStream reads them back. */
module ModifiedUtf8 {
  import opened Bytes

  /** A Java char: one UTF-16 code unit. */
  type JChar = c: int | 0 <= c < 0x1_0000

  /** A java.lang.String, as its sequence of UTF-16 code units. */
  type JString = seq<JChar>

  /** A Dafny string literal whose characters are all ASCII, as a Java string. */
  function Ascii(s: string): (j: JString)
    requires forall i :: 0 <= i < |s| ==> s[i] as int < 0x80
    ensures |j| == |s| && forall i :: 0 <= i < |s| ==> j[i] == s[i] as int
  {
    seq(|s|, i requires 0 <= i < |s| => s[i] as int)
  }

  /** The one to three bytes written for one char: 0x0001-0x007F as itself,
      0x0000 and 0x0080-0x07FF as two bytes 110xxxxx 10xxxxxx, everything
      else as three bytes 1110xxxx 10xxxxxx 10xxxxxx. */
  function EncodeChar(c: JChar): (b: seq<byte>)
    ensures 1 <= |b| <= 3
  {
    if 1 <= c <= 0x7F then [c]
    else if c <= 0x7FF then [0xC0 + c / 64, 0x80 + c % 64]
    else [0xE0 + c / 4096, 0x80 + (c / 64) % 64, 0x80 + c % 64]
  }

  /** The body DataOutputStream.writeUTF emits after the length prefix. */
  function Encode(s: JString): (b: seq<byte>)
    ensures |s| <= |b| <= 3 * |s|
  {
    if s == [] then [] else EncodeChar(s[0]) + Encode(s[1..])
  }

  /** Decodes the char that starts b, giving it with the number of bytes it
      took; None where DataInputStream.readUTF throws: a first byte of the
      form 10xxxxxx or 1111xxxx, a continuation byte not of the form
      10xxxxxx, or a character cut off by the end of the body. */
  function DecodeChar(b: seq<byte>): (r: Option<(JChar, nat)>)
    requires b != []
    ensures r.Some? ==> 1 <= r.value.1 <= |b| && r.value.1 <= 3
  {
    var c: int := b[0];
    if c / 16 <= 7 then Some((c, 1))
    else if c / 16 == 12 || c / 16 == 13 then
      if |b| < 2 || b[1] / 64 != 2 then None
      else var c2: int := b[1]; Some(((c % 32) * 64 + c2 % 64, 2))
    else if c / 16 == 14 then
      if |b| < 3 || b[1] / 64 != 2 || b[2] / 64 != 2 then None
      else
        var c2: int, c3: int := b[1], b[2];
        Some(((c % 16) * 4096 + (c2 % 64) * 64 + c3 % 64, 3))
    else None
  }

  /** The string a body of modified UTF-8 stands for, or None when
      readUTF rejects it as malformed. */
  function Decode(b: seq<byte>): (r: Option<JString>)
    ensures r.Some? ==> |r.value| <= |b|
    decreases |b|
  {
    if b == [] then Some([])
    else match DecodeChar(b)
      case None => None
      case Some((c, n)) =>
        match Decode(b[n..])
        case None => None
        case Some(rest) => Some([c] + rest)
  }

  /** Every char is read back from its own encoding, whatever follows. */
  lemma DecodeEncodeChar(c: JChar, rest: seq<byte>)
    ensures DecodeChar(EncodeChar(c) + rest) == Some((c, |EncodeChar(c)|))
  {
    if 1 <= c <= 0x7F {
    } else if c <= 0x7FF {
      DecodeEncodeTwoBytes(c, rest);
    } else {
      DecodeEncodeThreeBytes(c, rest);
    }
  }

  lemma DecodeEncodeTwoBytes(c: JChar, rest: seq<byte>)
    requires !(1 <= c <= 0x7F) && c <= 0x7FF
    ensures DecodeChar(EncodeChar(c) + rest) == Some((c, 2))
  {
    var b := EncodeChar(c) + rest;
    var hi := c / 64;
    assert 0 <= hi < 32;
    assert b[0] == 0xC0 + hi && b[1] == 0x80 + c % 64;
    assert b[0] / 16 == 12 + hi / 16;
    assert b[0] % 32 == hi;
    assert hi * 64 + c % 64 == c;
  }

  lemma DecodeEncodeThreeBytes(c: JChar, rest: seq<byte>)
    requires c > 0x7FF
    ensures DecodeChar(EncodeChar(c) + rest) == Some((c, 3))
  {
    var b := EncodeChar(c) + rest;
    var top, mid, low := c / 4096, (c / 64) % 64, c % 64;
    assert 0 <= top < 16;
    assert c / 64 == top * 64 + mid;
    assert b[0] == 0xE0 + top && b[1] == 0x80 + mid && b[2] == 0x80 + low;
    assert b[0] / 16 == 14 && b[0] % 16 == top;
    assert b[1] / 64 == 2 && b[1] % 64 == mid;
    assert b[2] / 64 == 2 && b[2] % 64 == low;
    assert top * 4096 + mid * 64 + low == c;
  }

  /** Every string survives encoding and decoding unchanged. */
  lemma {:induction false} DecodeEncode(s: JString)
    ensures Decode(Encode(s)) == Some(s)
  {
    if s != [] {
      var head, tail := EncodeChar(s[0]), Encode(s[1..]);
      DecodeEncodeChar(s[0], tail);
      assert (head + tail)[|head|..] == tail;
      DecodeEncode(s[1..]);
      assert s == [s[0]] + s[1..];
    }
  }

  /** Encoding is done char by char, so it distributes over concatenation. */
  lemma {:induction false} EncodeAppend(s: JString, t: JString)
    ensures Encode(s + t) == Encode(s) + Encode(t)
  {
    if s == [] {
      assert s + t == t;
    } else {
      assert (s + t)[0] == s[0] && (s + t)[1..] == s[1..] + t;
      EncodeAppend(s[1..], t);
    }
  }

  /** ASCII text (no NUL) is encoded byte for byte. */
  lemma {:induction false} EncodeAscii(s: JString)
    requires forall i :: 0 <= i < |s| ==> 1 <= s[i] <= 0x7F
    ensures Encode(s) == s
  {
    if s != [] {
      EncodeAscii(s[1..]);
    }
  }
}
