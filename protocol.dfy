/** The framed protocol that FileSyncServer and FileSyncClient speak over a
    socket, the effect a received frame has on the receiving side, and the
    bounded loop that copies a file body off the stream. */
module Protocol {
  import opened Bytes
  import opened ModifiedUtf8
  import opened DataStreams
  import opened EchoSuppression

  /** The two command strings. */
  const SYNC: JString := Ascii("SYNC")
  const DELETE: JString := Ascii("DELETE")

  /** The two command strings as writeUTF puts them on the wire. */
  const SYNC_COMMAND: seq<byte> := [0, 4, 83, 89, 78, 67]
  const DELETE_COMMAND: seq<byte> := [0, 6, 68, 69, 76, 69, 84, 69]

  /** Size of the byte[] buffer both receive loops read into. */
  const BUFFER_SIZE: nat := 4096

  /** The status strings the server writes back. */
  function ReceivedReply(name: JString): JString { Ascii("RECEIVED:") + name }
  function DeletedReply(name: JString): JString { Ascii("DELETED:") + name }
  function NotFoundReply(name: JString): JString { Ascii("NOT_FOUND:") + name }

  /** A file as a sender puts it in a SYNC frame. */
  datatype FileItem = FileItem(name: JString, content: seq<byte>)

  predicate SizeFits(f: FileItem) { |f.content| < 0x8000_0000_0000_0000 }

  /** The command strings are short ASCII: writeUTF never refuses them and
      writes their characters byte for byte after a two-byte length. */
  lemma CommandsEncode()
    ensures WriteUTF(SYNC) == Ok(SYNC_COMMAND)
    ensures WriteUTF(DELETE) == Ok(DELETE_COMMAND)
  {
    AsciiCommandEncodes(SYNC);
    AsciiCommandEncodes(DELETE);
    CommandsWire();
  }

  /** The wire forms are the lengths followed by the character codes. */
  lemma CommandsWire()
    ensures |SYNC| == 4 && [0, 4] + SYNC == SYNC_COMMAND
    ensures |DELETE| == 6 && [0, 6] + DELETE == DELETE_COMMAND
  {
    assert SYNC == [83, 89, 78, 67];
    assert DELETE == [68, 69, 76, 69, 84, 69];
  }

  lemma AsciiCommandEncodes(command: JString)
    requires 0 < |command| < 256
    requires forall i :: 0 <= i < |command| ==> 1 <= command[i] <= 0x7F
    ensures WriteUTF(command) == Ok([0, |command|] + command)
  {
    EncodeAscii(command);
    Pow256Values();
    assert ToBigEndian(|command|, 2) == [0, |command|];
  }

  /** One (name, size, bytes) tuple of a SYNC frame. */
  function FileTuple(f: FileItem): (r: Result<seq<byte>>)
    requires SizeFits(f)
    ensures r.Ok? <==> WriteUTF(f.name).Ok?
    ensures r.Ok? ==> |r.value| == 2 + |Encode(f.name)| + 8 + |f.content|
  {
    match WriteUTF(f.name)
    case Err(fault) => Err(fault)
    case Ok(nameBytes) => Ok(nameBytes + WriteLong(|f.content|) + f.content)
  }

  /** The tuples of several files back to back. */
  function FileTuples(fs: seq<FileItem>): (r: Result<seq<byte>>)
    requires forall i :: 0 <= i < |fs| ==> SizeFits(fs[i])
    ensures r.Ok? <==> forall i :: 0 <= i < |fs| ==> WriteUTF(fs[i].name).Ok?
  {
    if fs == [] then Ok([])
    else match FileTuple(fs[0])
      case Err(fault) => Err(fault)
      case Ok(head) =>
        match FileTuples(fs[1..])
        case Err(fault) => Err(fault)
        case Ok(tail) => Ok(head + tail)
  }

  /** A SYNC frame carrying fs: the command, the count, then each tuple.
      Only the count 1 is ever sent, but the receivers accept any count, so
      this general frame is what the receiving side is proved against. */
  function SyncFrameOf(fs: seq<FileItem>): (r: Result<seq<byte>>)
    requires |fs| < 0x8000_0000
    requires forall i :: 0 <= i < |fs| ==> SizeFits(fs[i])
    ensures r.Ok? <==> forall i :: 0 <= i < |fs| ==> WriteUTF(fs[i].name).Ok?
  {
    match FileTuples(fs)
    case Err(fault) => Err(fault)
    case Ok(tuples) => Ok(SYNC_COMMAND + WriteInt(|fs|) + tuples)
  }

  /** The one-file SYNC frame of a file whose length is that of its
      contents: what the senders write when the file does not change while
      it is sent (AnnouncedSyncFrameIsSyncFrame). */
  function SyncFrame(name: JString, content: seq<byte>): (r: Result<seq<byte>>)
    requires |content| < 0x8000_0000_0000_0000
    ensures r.Ok? <==> WriteUTF(name).Ok?
  {
    SyncFrameOf([FileItem(name, content)])
  }

  /** What both senders write before the file's name: SYNC and the count 1. */
  function SyncHeader(): seq<byte>
  {
    SYNC_COMMAND + WriteInt(1)
  }

  /** What sendFileToClient and sendFileToServer actually write when the
      name is accepted: the header, the name, the length the file reported,
      then whatever the file stream delivered, which need not have that
      length. A name writeUTF refuses stops the frame after the header. */
  function AnnouncedSyncFrame(name: JString, size: int, content: seq<byte>): (r: Result<seq<byte>>)
    requires IsLong(size)
    ensures r.Ok? <==> WriteUTF(name).Ok?
  {
    match WriteUTF(name)
    case Err(fault) => Err(fault)
    case Ok(nameBytes) => Ok(SyncHeader() + nameBytes + WriteLong(size) + content)
  }

  /** When the file still has the length it reported, the bytes sent are
      the one-file SYNC frame of its contents. */
  lemma AnnouncedSyncFrameIsSyncFrame(name: JString, content: seq<byte>)
    requires |content| < 0x8000_0000_0000_0000
    ensures AnnouncedSyncFrame(name, |content|, content) == SyncFrame(name, content)
  {
    var f := FileItem(name, content);
    if WriteUTF(name).Ok? {
      var tuple := WriteUTF(name).value + WriteLong(|content|) + content;
      assert FileTuples([f]) == Ok(tuple) by {
        assert [f][1..] == [];
        assert tuple + [] == tuple;
      }
      assert SyncHeader() + tuple == SyncHeader() + WriteUTF(name).value + WriteLong(|content|) + content;
    }
  }

  /** What notifyClientDelete and notifyServerDelete write: DELETE and the
      file's name. */
  function DeleteFrame(name: JString): (r: Result<seq<byte>>)
    ensures r.Ok? <==> WriteUTF(name).Ok?
    ensures r.Ok? ==> |r.value| == |DELETE_COMMAND| + 2 + |Encode(name)|
  {
    match WriteUTF(name)
    case Err(fault) => Err(fault)
    case Ok(nameBytes) => Ok(DELETE_COMMAND + nameBytes)
  }

  /** How many body bytes the bounded receive loop takes for a declared
      size when the stream still holds `available` bytes: nothing for a
      size of zero or less, otherwise the size, cut short at end of stream. */
  function BodyLength(size: int, available: nat): (n: nat)
    ensures n <= available
    ensures size > 0 && size <= available ==> n == size
    ensures size > available ==> n == available
    ensures size <= 0 ==> n == 0
  {
    if size <= 0 then 0 else if size <= available then size else available
  }

  /** The receiving side's state as one connection changes it: the files of
      its sync directory, its set of recently synced names, and what it
      has written back on the connection. */
  datatype Effect = Effect(files: map<JString, seq<byte>>, marked: set<JString>, out: seq<byte>)

  /** Whether `after` differs from `before` only on files whose names it has
      marked as recently synced, and only by gaining marks and output. */
  ghost predicate MarksItsWrites(before: Effect, after: Effect)
  {
    && before.marked <= after.marked
    && |before.out| <= |after.out| && after.out[..|before.out|] == before.out
    && forall name :: name !in after.marked ==>
         (name in after.files <==> name in before.files) &&
         (name in after.files ==> after.files[name] == before.files[name])
  }

  lemma MarksItsWritesTransitive(a: Effect, b: Effect, c: Effect)
    requires MarksItsWrites(a, b) && MarksItsWrites(b, c)
    ensures MarksItsWrites(a, c)
  {
    assert c.out[..|b.out|][..|a.out|] == c.out[..|a.out|];
  }

  /** Where one iteration of the per-file loop leaves the receiver: its
      effect so far, the bytes still to come, and whether the loop goes on. */
  datatype Step = Step(effect: Effect, rest: seq<byte>, goOn: bool)

  /** One iteration of the per-file loop of a SYNC frame on the bytes
      `input` still to come: read a name and a size, store whatever the
      bounded loop delivered (the file is truncated silently at end of
      stream), mark the name and, when the receiver replies, write
      "RECEIVED:name". A failed read or a reply that writeUTF refuses ends
      the connection. */
  function ReceiveFile(input: seq<byte>, e: Effect, reply: bool): (s: Step)
    ensures !reply ==> s.effect.out == e.out
    ensures s.goOn ==> |s.rest| < |input|
  {
    match ParseUTF(input)
    case Err(_) => Step(e, input, false)
    case Ok(Parsed(name, afterName)) =>
      match ParseLong(afterName)
      case Err(_) => Step(e, input, false)
      case Ok(Parsed(size, afterSize)) =>
        var n := BodyLength(size, |afterSize|);
        var stored := e.(files := e.files[name := afterSize[..n]], marked := e.marked + {name});
        if !reply then Step(stored, afterSize[n..], true)
        else match WriteUTF(ReceivedReply(name))
          case Err(_) => Step(stored, afterSize[n..], false)
          case Ok(status) => Step(stored.(out := e.out + status), afterSize[n..], true)
  }

  /** The effect of the remaining `count` iterations of the per-file loop. */
  function ReceiveFiles(input: seq<byte>, count: int, e: Effect, reply: bool): (r: Effect)
    ensures !reply ==> r.out == e.out
    decreases count, 0
  {
    if count <= 0 then e else Resume(ReceiveFile(input, e, reply), count - 1, reply)
  }

  /** The per-file loop from where one iteration left it: over when that
      iteration ended the connection, otherwise `count` more iterations. */
  function Resume(s: Step, count: int, reply: bool): (r: Effect)
    ensures !reply ==> r.out == s.effect.out
    decreases count, 1
  {
    if !s.goOn then s.effect else ReceiveFiles(s.rest, count, s.effect, reply)
  }

  /** The effect of one whole connection on the receiving side: the
      command, then a SYNC's files or a DELETE's name; any other command
      changes nothing. DELETE removes the file if present, marks the name
      either way and, when the receiver replies, says which happened. */
  function Receive(input: seq<byte>, e: Effect, reply: bool): (r: Effect)
    ensures !reply ==> r.out == e.out
  {
    match ParseUTF(input)
    case Err(_) => e
    case Ok(Parsed(command, afterCommand)) =>
      if command == SYNC then ReceiveSync(afterCommand, e, reply)
      else if command == DELETE then ReceiveDelete(afterCommand, e, reply)
      else e
  }

  /** The SYNC branch, from the bytes after the command: the file count,
      then the per-file loop. A count that cannot be read changes nothing. */
  function ReceiveSync(afterCommand: seq<byte>, e: Effect, reply: bool): (r: Effect)
    ensures !reply ==> r.out == e.out
  {
    match ParseInt(afterCommand)
    case Err(_) => e
    case Ok(Parsed(count, afterCount)) => ReceiveFiles(afterCount, count, e, reply)
  }

  /** The DELETE branch, from the bytes after the command: remove the file
      if present, mark the name either way and, when replying, say which
      happened. A name that cannot be read changes nothing. */
  function ReceiveDelete(afterCommand: seq<byte>, e: Effect, reply: bool): (r: Effect)
    ensures !reply ==> r.out == e.out
  {
    match ParseUTF(afterCommand)
    case Err(_) => e
    case Ok(Parsed(name, _)) =>
      var deleted := e.(files := e.files - {name}, marked := e.marked + {name});
      if !reply then deleted
      else match WriteUTF(if name in e.files then DeletedReply(name) else NotFoundReply(name))
        case Err(_) => deleted
        case Ok(status) => deleted.(out := e.out + status)
  }

  /** A receiver changes a file only under a name it marks: whatever the
      bytes, every file whose name ends up unmarked is as it was, marks are
      only added, and output only grows. */
  lemma ReceiveMarksItsWrites(input: seq<byte>, e: Effect, reply: bool)
    ensures MarksItsWrites(e, Receive(input, e, reply))
  {
    match ParseUTF(input)
    case Err(_) =>
    case Ok(Parsed(command, afterCommand)) =>
      if command == SYNC {
        match ParseInt(afterCommand)
        case Err(_) =>
        case Ok(Parsed(count, afterCount)) => ReceiveFilesMarksItsWrites(afterCount, count, e, reply);
      }
  }

  lemma ReceiveFileMarksItsWrites(input: seq<byte>, e: Effect, reply: bool)
    ensures MarksItsWrites(e, ReceiveFile(input, e, reply).effect)
  {
  }

  lemma {:induction false} ReceiveFilesMarksItsWrites(input: seq<byte>, count: int, e: Effect, reply: bool)
    ensures MarksItsWrites(e, ReceiveFiles(input, count, e, reply))
    decreases count
  {
    if count > 0 {
      var s := ReceiveFile(input, e, reply);
      ReceiveFileMarksItsWrites(input, e, reply);
      if s.goOn {
        ReceiveFilesMarksItsWrites(s.rest, count - 1, s.effect, reply);
        MarksItsWritesTransitive(e, s.effect, ReceiveFiles(s.rest, count - 1, s.effect, reply));
      }
    }
  }

  /** The receiving directory: file names to contents. */
  class SyncDir {
    var files: map<JString, seq<byte>>

    constructor (initial: map<JString, seq<byte>>)
      ensures files == initial
    {
      files := initial;
    }

    /** new FileOutputStream(file) followed by the body's writes: the file
        is created or truncated and then holds exactly the body. */
    method Write(name: JString, body: seq<byte>)
      modifies this
      ensures files == old(files)[name := body]
    {
      files := files[name := body];
    }

    /** File.delete: true exactly when there was a file to remove. */
    method Delete(name: JString) returns (deleted: bool)
      modifies this
      ensures deleted <==> name in old(files)
      ensures files == old(files) - {name}
    {
      deleted := name in files;
      files := files - {name};
    }
  }

  /** The bounded receive loop: while fewer than fileSize bytes have been
      read, ask for at most min(4096, fileSize - bytesRead) more and stop
      early at end of stream. Returns what was written to the file. */
  method ReceiveBody(dis: DataIn, fileSize: int) returns (body: seq<byte>)
    requires dis.Valid()
    modifies dis
    ensures dis.Valid()
    ensures body == old(dis.Remaining())[..BodyLength(fileSize, |old(dis.Remaining())|)]
    ensures dis.Remaining() == old(dis.Remaining())[|body|..]
  {
    ghost var total := dis.Remaining();
    var buffer := new byte[BUFFER_SIZE];
    var bytesRead := 0;
    body := [];
    while bytesRead < fileSize
      invariant dis.Valid()
      invariant 0 <= bytesRead <= if fileSize > 0 then fileSize else 0
      invariant bytesRead <= |total|
      invariant body == total[..bytesRead] && dis.Remaining() == total[bytesRead..]
      decreases fileSize - bytesRead
    {
      var want := if BUFFER_SIZE < fileSize - bytesRead then BUFFER_SIZE else fileSize - bytesRead;
      var read := dis.Read(buffer, want);
      if read == -1 {
        assert bytesRead == |total|;
        return;
      }
      assert buffer[..read] == total[bytesRead..bytesRead + read];
      assert total[..bytesRead] + total[bytesRead..bytesRead + read] == total[..bytesRead + read];
      body := body + buffer[..read];
      bytesRead := bytesRead + read;
    }
  }

  /** The per-file loop both receivers run after a SYNC command: fileCount
      times read a name and a size, store the body the bounded loop
      delivers, mark the name and, when the receiver replies, answer
      "RECEIVED:name". A failed read or reply ends the loop. */
  method ReceiveFileLoop(dis: DataIn, dir: SyncDir, recent: EchoSuppressor, fileCount: int, reply: bool)
    returns (out: seq<byte>)
    requires dis.Valid()
    modifies dis, dir, recent
    ensures dis.Valid()
    ensures Effect(dir.files, recent.names, out)
         == ReceiveFiles(old(dis.Remaining()), fileCount, Effect(old(dir.files), old(recent.names), []), reply)
  {
    out := [];
    ghost var goal := Resume(Step(Effect(dir.files, recent.names, out), dis.Remaining(), true), fileCount, reply);
    var i := 0;
    while i < fileCount
      invariant dis.Valid()
      invariant goal == Resume(Step(Effect(dir.files, recent.names, out), dis.Remaining(), true), fileCount - i, reply)
      decreases fileCount - i
    {
      var goOn;
      out, goOn := ReceiveOneFile(dis, dir, recent, out, reply, fileCount - i);
      i := i + 1;
      if !goOn {
        return;
      }
    }
  }

  /** The body of the per-file loop: what is still to be received before
      it is what is still to be received after it, one file fewer. */
  method ReceiveOneFile(dis: DataIn, dir: SyncDir, recent: EchoSuppressor, out: seq<byte>, reply: bool,
                        ghost count: int)
    returns (written: seq<byte>, goOn: bool)
    requires dis.Valid() && count > 0
    modifies dis, dir, recent
    ensures dis.Valid()
    ensures Resume(Step(Effect(old(dir.files), old(recent.names), out), old(dis.Remaining()), true), count, reply)
         == Resume(Step(Effect(dir.files, recent.names, written), dis.Remaining(), goOn), count - 1, reply)
  {
    ghost var before := ReceiveFiles(dis.Remaining(), count, Effect(dir.files, recent.names, out), reply);
    ghost var s := ReceiveFile(dis.Remaining(), Effect(dir.files, recent.names, out), reply);
    assert before == Resume(s, count - 1, reply);
    written := out;
    var fileName := dis.ReadUTF();
    if fileName.Err? {
      return written, false;
    }
    var fileSize := dis.ReadLong();
    if fileSize.Err? {
      return written, false;
    }
    var body := ReceiveBody(dis, fileSize.value);
    dir.Write(fileName.value, body);
    recent.Mark(fileName.value);
    if reply {
      var status := WriteUTF(ReceivedReply(fileName.value));
      if status.Err? {
        return written, false;
      }
      written := written + status.value;
    }
    goOn := true;
  }
}
