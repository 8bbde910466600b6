/** Bytes, big-endian unsigned and two's-complement integers, and the
    failure-carrying result type shared by the whole model. */
module Bytes {

  /** An unsigned octet as it travels on a socket or sits in a file. */
  type byte = b: int | 0 <= b < 256

  /** Why a Java I/O call would have thrown. */
  datatype Fault =
    | EndOfStream      // EOFException: the peer closed the stream too early
    | MalformedInput   // UTFDataFormatException while decoding a string
    | StringTooLong    // UTFDataFormatException: encoded string over 65535 bytes
    | NoSuchFile       // NoSuchFileException: the source of a copy is missing

  datatype Result<+T> = Ok(value: T) | Err(fault: Fault)

  datatype Option<+T> = None | Some(value: T)

  /** 256 to the power k: the number of values k bytes can hold. */
  function Pow256(k: nat): (p: nat)
    ensures p >= 1
  {
    if k == 0 then 1 else 256 * Pow256(k - 1)
  }

  lemma Pow256Values()
    ensures Pow256(2) == 0x1_0000
    ensures Pow256(4) == 0x1_0000_0000
    ensures Pow256(8) == 0x1_0000_0000_0000_0000
  {
    assert Pow256(1) == 256;
    assert Pow256(2) == 0x1_0000;
    assert Pow256(3) == 0x100_0000;
    assert Pow256(4) == 0x1_0000_0000;
    assert Pow256(5) == 0x100_0000_0000;
    assert Pow256(6) == 0x1_0000_0000_0000;
    assert Pow256(7) == 0x100_0000_0000_0000;
  }

  /** n written most significant byte first in exactly k bytes. */
  function ToBigEndian(n: nat, k: nat): (s: seq<byte>)
    requires n < Pow256(k)
    ensures |s| == k
  {
    if k == 0 then []
    else
      assert n / 256 < Pow256(k - 1) by { DivBound(n, Pow256(k - 1)); }
      ToBigEndian(n / 256, k - 1) + [n % 256]
  }

  lemma DivBound(n: nat, p: nat)
    requires n < 256 * p
    ensures n / 256 < p
  {
  }

  /** The unsigned value of a big-endian byte sequence; it always fits the
      sequence's width. */
  function FromBigEndian(s: seq<byte>): (n: nat)
    ensures n < Pow256(|s|)
  {
    if s == [] then 0
    else
      var hi := FromBigEndian(s[..|s| - 1]);
      MulAddBound(hi, s[|s| - 1], Pow256(|s| - 1));
      hi * 256 + s[|s| - 1]
  }

  lemma MulAddBound(hi: nat, lo: nat, p: nat)
    requires hi < p && lo < 256
    ensures hi * 256 + lo < 256 * p
  {
  }

  /** Reading back what was written gives the number that was written. */
  lemma {:induction false} FromToBigEndian(n: nat, k: nat)
    requires n < Pow256(k)
    ensures FromBigEndian(ToBigEndian(n, k)) == n
  {
    if k > 0 {
      var s := ToBigEndian(n, k);
      assert s[..k - 1] == ToBigEndian(n / 256, k - 1);
      FromToBigEndian(n / 256, k - 1);
    }
  }

  /** Writing back what was read gives the bytes that were read: the
      encoding is a bijection between k-byte sequences and [0, 256^k). */
  lemma {:induction false} ToFromBigEndian(s: seq<byte>)
    ensures ToBigEndian(FromBigEndian(s), |s|) == s
  {
    if s != [] {
      var k := |s|;
      var hi := FromBigEndian(s[..k - 1]);
      ToFromBigEndian(s[..k - 1]);
      DivModMulAdd(hi, s[k - 1]);
      assert s == s[..k - 1] + [s[k - 1]];
    }
  }

  lemma DivModMulAdd(hi: nat, lo: nat)
    requires lo < 256
    ensures (hi * 256 + lo) / 256 == hi && (hi * 256 + lo) % 256 == lo
  {
  }

  /** Whether v fits a signed two's-complement integer of k bytes. */
  predicate FitsSigned(v: int, k: nat)
  {
    -(Pow256(k) / 2) <= v < Pow256(k) / 2
  }

  /** v in k-byte two's complement, most significant byte first
      (DataOutputStream.writeInt for k = 4, writeLong for k = 8). */
  function ToSigned(v: int, k: nat): (s: seq<byte>)
    requires FitsSigned(v, k)
    ensures |s| == k
  {
    ToBigEndian(if v < 0 then v + Pow256(k) else v, k)
  }

  /** The signed value of a two's-complement byte sequence
      (DataInputStream.readInt / readLong). */
  function FromSigned(s: seq<byte>): (v: int)
    requires |s| > 0
    ensures FitsSigned(v, |s|)
  {
    var u := FromBigEndian(s);
    if u >= Pow256(|s|) / 2 then
      assert Pow256(|s|) == 2 * (Pow256(|s|) / 2);
      u - Pow256(|s|)
    else u
  }

  lemma FromToSigned(v: int, k: nat)
    requires FitsSigned(v, k)
    ensures FromSigned(ToSigned(v, k)) == v
  {
    var u := if v < 0 then v + Pow256(k) else v;
    FromToBigEndian(u, k);
    assert k > 0;
    assert Pow256(k) == 2 * (Pow256(k) / 2);
  }

  lemma ToFromSigned(s: seq<byte>)
    requires |s| > 0
    ensures ToSigned(FromSigned(s), |s|) == s
  {
    ToFromBigEndian(s);
  }

  /** The bytes of a sequence of chunks, in order. */
  function Flatten(chunks: seq<seq<byte>>): (s: seq<byte>)
  {
    if chunks == [] then [] else chunks[0] + Flatten(chunks[1..])
  }
}
