/** The java.io primitives the wire protocol is built from: the encoders of
    DataOutputStream as functions producing bytes, the decoders of
    DataInputStream as functions over the bytes still to come, and a
    socket or file input stream that hands those bytes over in chunks of
    any size. */
module DataStreams {
  import opened Bytes
  import opened ModifiedUtf8

  /** A decoded value and the bytes that follow it. */
  datatype Parsed<+T> = Parsed(value: T, rest: seq<byte>)

  /** The largest string body writeUTF accepts (its length prefix is an
      unsigned 16-bit number). */
  const MAX_UTF_LENGTH: nat := 0xFFFF

  predicate IsInt(v: int) { -0x8000_0000 <= v < 0x8000_0000 }

  predicate IsLong(v: int) { -0x8000_0000_0000_0000 <= v < 0x8000_0000_0000_0000 }

  /** DataOutputStream.writeInt: four bytes, big-endian two's complement. */
  function WriteInt(v: int): (b: seq<byte>)
    requires IsInt(v)
    ensures |b| == 4
  {
    Pow256Values();
    ToSigned(v, 4)
  }

  /** DataOutputStream.writeLong: eight bytes, big-endian two's complement. */
  function WriteLong(v: int): (b: seq<byte>)
    requires IsLong(v)
    ensures |b| == 8
  {
    Pow256Values();
    ToSigned(v, 8)
  }

  /** DataOutputStream.writeUTF: a two-byte big-endian length followed by
      the modified UTF-8 body; a body over 65535 bytes is refused before
      anything is written. */
  function WriteUTF(s: JString): (r: Result<seq<byte>>)
    ensures r.Ok? <==> |Encode(s)| <= MAX_UTF_LENGTH
    ensures r.Ok? ==> |r.value| == 2 + |Encode(s)| && r.value[2..] == Encode(s)
  {
    var body := Encode(s);
    if |body| > MAX_UTF_LENGTH then Err(StringTooLong)
    else
      Pow256Values();
      Ok(ToBigEndian(|body|, 2) + body)
  }

  /** DataInputStream.readInt over the bytes still to come. */
  function ParseInt(s: seq<byte>): (r: Result<Parsed<int>>)
    ensures r.Ok? <==> |s| >= 4
    ensures r.Ok? ==> IsInt(r.value.value) && r.value.rest == s[4..]
  {
    if |s| < 4 then Err(EndOfStream)
    else
      Pow256Values();
      Ok(Parsed(FromSigned(s[..4]), s[4..]))
  }

  /** DataInputStream.readLong over the bytes still to come. */
  function ParseLong(s: seq<byte>): (r: Result<Parsed<int>>)
    ensures r.Ok? <==> |s| >= 8
    ensures r.Ok? ==> IsLong(r.value.value) && r.value.rest == s[8..]
  {
    if |s| < 8 then Err(EndOfStream)
    else
      Pow256Values();
      Ok(Parsed(FromSigned(s[..8]), s[8..]))
  }

  /** DataInputStream.readUTF over the bytes still to come: end of stream
      inside the prefix or the body, or a malformed body, is a failure. */
  function ParseUTF(s: seq<byte>): (r: Result<Parsed<JString>>)
    ensures r.Ok? ==> |r.value.rest| < |s| && r.value.rest == s[|s| - |r.value.rest|..]
  {
    if |s| < 2 then Err(EndOfStream)
    else
      var n := FromBigEndian(s[..2]);
      if |s| < 2 + n then Err(EndOfStream)
      else match Decode(s[2..2 + n])
        case None => Err(MalformedInput)
        case Some(str) => Ok(Parsed(str, s[2 + n..]))
  }

  lemma ParseUTFFrom(b: seq<byte>, n: nat, str: JString)
    requires |b| >= 2 + n && FromBigEndian(b[..2]) == n && Decode(b[2..2 + n]) == Some(str)
    ensures ParseUTF(b) == Ok(Parsed(str, b[2 + n..]))
  {
  }

  lemma ParseWriteInt(v: int, rest: seq<byte>)
    requires IsInt(v)
    ensures ParseInt(WriteInt(v) + rest) == Ok(Parsed(v, rest))
  {
    Pow256Values();
    FromToSigned(v, 4);
    assert (WriteInt(v) + rest)[..4] == WriteInt(v);
  }

  lemma ParseWriteLong(v: int, rest: seq<byte>)
    requires IsLong(v)
    ensures ParseLong(WriteLong(v) + rest) == Ok(Parsed(v, rest))
  {
    Pow256Values();
    FromToSigned(v, 8);
    assert (WriteLong(v) + rest)[..8] == WriteLong(v);
  }

  /** What writeUTF emits, readUTF reads back, leaving exactly the bytes
      that follow. */
  lemma ParseWriteUTF(s: JString, rest: seq<byte>)
    requires WriteUTF(s).Ok?
    ensures ParseUTF(WriteUTF(s).value + rest) == Ok(Parsed(s, rest))
  {
    var w := WriteUTF(s).value;
    var n := |w| - 2;
    var b := w + rest;
    assert b[..2] == w[..2];
    assert b[2..2 + n] == w[2..];
    assert b[2 + n..] == rest;
    WriteUTFPrefix(s);
    DecodeEncode(s);
    ParseUTFFrom(b, n, s);
  }

  lemma WriteUTFPrefix(s: JString)
    requires WriteUTF(s).Ok?
    ensures FromBigEndian(WriteUTF(s).value[..2]) == |Encode(s)|
  {
    Pow256Values();
    var body := Encode(s);
    var prefix := ToBigEndian(|body|, 2);
    assert WriteUTF(s).value[..2] == prefix;
    FromToBigEndian(|body|, 2);
  }

  /** An input stream (a socket's or a file's) as the chunks it will still
      deliver before end of stream. A read blocks until the next chunk
      arrives and returns at most what that chunk holds, so every way of
      cutting the same bytes into chunks is a possible behaviour. */
  class DataIn {
    var pending: seq<seq<byte>>

    ghost predicate Valid()
      reads this
    {
      forall i :: 0 <= i < |pending| ==> pending[i] != []
    }

    /** The bytes still to be delivered, in order. */
    function Remaining(): seq<byte>
      reads this
    {
      Flatten(pending)
    }

    constructor (chunks: seq<seq<byte>>)
      requires forall i :: 0 <= i < |chunks| ==> chunks[i] != []
      ensures Valid() && pending == chunks
    {
      pending := chunks;
    }

    /** InputStream.read(buf, 0, len) with len > 0: -1 at end of stream,
        otherwise between 1 and len bytes, the next ones, placed at the
        front of buf. */
    method Read(buf: array<byte>, len: nat) returns (n: int)
      requires Valid() && 0 < len <= buf.Length
      modifies this, buf
      ensures Valid()
      ensures old(Remaining()) == [] ==> n == -1 && Remaining() == []
      ensures old(Remaining()) != [] ==>
        && 1 <= n <= len && n <= |old(Remaining())|
        && buf[..n] == old(Remaining())[..n]
        && Remaining() == old(Remaining())[n..]
    {
      if pending == [] {
        return -1;
      }
      var chunk := pending[0];
      assert Remaining() == chunk + Flatten(pending[1..]);
      n := if len < |chunk| then len else |chunk|;
      var i := 0;
      while i < n
        modifies buf
        invariant 0 <= i <= n
        invariant forall k :: 0 <= k < i ==> buf[k] == chunk[k]
      {
        buf[i] := chunk[i];
        i := i + 1;
      }
      if n == |chunk| {
        pending := pending[1..];
      } else {
        var tail := pending[1..];
        pending := [chunk[n..]] + tail;
        assert pending[0] == chunk[n..] && pending[1..] == tail;
      }
    }

    /** DataInputStream.readFully into an n-byte buffer: exactly the next n
        bytes, or EOFException when the stream ends first. */
    method ReadFully(n: nat) returns (r: Result<seq<byte>>)
      requires Valid()
      modifies this
      ensures Valid()
      ensures r == if n <= |old(Remaining())| then Ok(old(Remaining())[..n]) else Err(EndOfStream)
      ensures r.Ok? ==> Remaining() == old(Remaining())[n..]
    {
      var buf := new byte[n];
      var got: seq<byte> := [];
      while |got| < n
        invariant Valid() && |got| <= n
        invariant got + Remaining() == old(Remaining())
        decreases n - |got|
      {
        var k := Read(buf, n - |got|);
        if k == -1 {
          return Err(EndOfStream);
        }
        got := got + buf[..k];
      }
      assert old(Remaining()) == got + Remaining();
      assert old(Remaining())[..n] == got;
      return Ok(got);
    }

    method ReadInt() returns (r: Result<int>)
      requires Valid()
      modifies this
      ensures Valid()
      ensures r == Value(ParseInt(old(Remaining())))
      ensures r.Ok? ==> Remaining() == ParseInt(old(Remaining())).value.rest
    {
      var b := ReadFully(4);
      if b.Err? {
        return Err(b.fault);
      }
      Pow256Values();
      r := Ok(FromSigned(b.value));
    }

    method ReadLong() returns (r: Result<int>)
      requires Valid()
      modifies this
      ensures Valid()
      ensures r == Value(ParseLong(old(Remaining())))
      ensures r.Ok? ==> Remaining() == ParseLong(old(Remaining())).value.rest
    {
      var b := ReadFully(8);
      if b.Err? {
        return Err(b.fault);
      }
      Pow256Values();
      r := Ok(FromSigned(b.value));
    }

    method ReadUTF() returns (r: Result<JString>)
      requires Valid()
      modifies this
      ensures Valid()
      ensures r == Value(ParseUTF(old(Remaining())))
      ensures r.Ok? ==> Remaining() == ParseUTF(old(Remaining())).value.rest
    {
      var prefix := ReadFully(2);
      if prefix.Err? {
        return Err(prefix.fault);
      }
      var n := FromBigEndian(prefix.value);
      var body := ReadFully(n);
      if body.Err? {
        return Err(body.fault);
      }
      ghost var s := old(Remaining());
      assert prefix.value == s[..2] && body.value == s[2..][..n];
      assert s[2..][..n] == s[2..2 + n];
      assert s[2..][n..] == s[2 + n..];
      match Decode(body.value)
      case None => r := Err(MalformedInput);
      case Some(str) => r := Ok(str);
    }
  }

  /** A decoder's result without the bytes that follow it. */
  function Value<T>(r: Result<Parsed<T>>): Result<T>
  {
    match r
    case Ok(p) => Ok(p.value)
    case Err(f) => Err(f)
  }

  /** The sender's copy loop: read the file in buffer-sized pieces and write
      each piece out until end of stream. */
  method CopyAll(from: DataIn) returns (written: seq<byte>)
    requires from.Valid()
    modifies from
    ensures from.Valid()
    ensures written == old(from.Remaining()) && from.Remaining() == []
  {
    var buffer := new byte[4096];
    written := [];
    while true
      invariant from.Valid()
      invariant written + from.Remaining() == old(from.Remaining())
      decreases |from.Remaining()|
    {
      var read := from.Read(buffer, buffer.Length);
      if read == -1 {
        break;
      }
      written := written + buffer[..read];
    }
  }
}
