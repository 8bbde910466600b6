/** What a receiver makes of the frames the senders write: the encoders of
    one side and the decoding loop of the other agree. */
module Interop {
  import opened Bytes
  import opened ModifiedUtf8
  import opened DataStreams
  import opened Protocol

  /** The reference effect of receiving the files fs, in frame order: each
      is stored whole and marked, and a replying receiver acknowledges each
      with "RECEIVED:name" (a reply writeUTF refuses ends the connection). */
  function StoreAll(fs: seq<FileItem>, e: Effect, reply: bool): (r: Effect)
    ensures e.marked <= r.marked
    ensures !reply ==> forall i :: 0 <= i < |fs| ==> fs[i].name in r.marked
    ensures reply && (forall i :: 0 <= i < |fs| ==> WriteUTF(ReceivedReply(fs[i].name)).Ok?) ==>
      forall i :: 0 <= i < |fs| ==> fs[i].name in r.marked
  {
    if fs == [] then e
    else
      var f := fs[0];
      var stored := e.(files := e.files[f.name := f.content], marked := e.marked + {f.name});
      if !reply then StoreAll(fs[1..], stored, reply)
      else match WriteUTF(ReceivedReply(f.name))
        case Err(_) => stored
        case Ok(status) => StoreAll(fs[1..], stored.(out := e.out + status), reply)
  }

  /** Reading one tuple back: the name, then the declared size, then the
      bytes that follow. */
  lemma ParseFileTuple(f: FileItem, tail: seq<byte>)
    requires SizeFits(f) && FileTuple(f).Ok?
    ensures ParseUTF(FileTuple(f).value + tail)
         == Ok(Parsed(f.name, WriteLong(|f.content|) + (f.content + tail)))
    ensures ParseLong(WriteLong(|f.content|) + (f.content + tail))
         == Ok(Parsed(|f.content|, f.content + tail))
  {
    var nameBytes := WriteUTF(f.name).value;
    var after := WriteLong(|f.content|) + (f.content + tail);
    assert FileTuple(f).value + tail == nameBytes + after;
    ParseWriteUTF(f.name, after);
    ParseWriteLong(|f.content|, f.content + tail);
  }

  /** The per-file loop, run for exactly as many iterations as there are
      tuples, stores each file whole and leaves the bytes after the last
      tuple unread. */
  lemma {:induction false} ReceiveFileTuples(fs: seq<FileItem>, rest: seq<byte>, e: Effect, reply: bool)
    requires forall i :: 0 <= i < |fs| ==> SizeFits(fs[i])
    requires FileTuples(fs).Ok?
    ensures ReceiveFiles(FileTuples(fs).value + rest, |fs|, e, reply) == StoreAll(fs, e, reply)
  {
    if fs != [] {
      var f := fs[0];
      var head := FileTuple(f).value;
      var tail := FileTuples(fs[1..]).value;
      var input := head + tail + rest;
      assert FileTuples(fs).value == head + tail;
      assert input == head + (tail + rest);
      ParseFileTuple(f, tail + rest);
      var afterSize := f.content + (tail + rest);
      assert BodyLength(|f.content|, |afterSize|) == |f.content|;
      assert afterSize[..|f.content|] == f.content;
      assert afterSize[|f.content|..] == tail + rest;
      var stored := e.(files := e.files[f.name := f.content], marked := e.marked + {f.name});
      if !reply {
        ReceiveFileTuples(fs[1..], rest, stored, reply);
      } else {
        match WriteUTF(ReceivedReply(f.name))
        case Err(_) =>
        case Ok(status) =>
          ReceiveFileTuples(fs[1..], rest, stored.(out := e.out + status), reply);
      }
    }
  }

  /** A SYNC frame of any number of files, however many bytes follow it,
      is received as exactly those files in frame order: every file whole,
      every name marked, one acknowledgement per file. */
  lemma SyncFrameRoundTrip(fs: seq<FileItem>, rest: seq<byte>, e: Effect, reply: bool)
    requires |fs| < 0x8000_0000
    requires forall i :: 0 <= i < |fs| ==> SizeFits(fs[i])
    requires SyncFrameOf(fs).Ok?
    ensures Receive(SyncFrameOf(fs).value + rest, e, reply) == StoreAll(fs, e, reply)
  {
    var tuples := FileTuples(fs).value;
    var afterCommand := WriteInt(|fs|) + (tuples + rest);
    assert SyncFrameOf(fs).value + rest == SYNC_COMMAND + afterCommand;
    AfterSyncCommand(afterCommand, e, reply);
    ParseWriteInt(|fs|, tuples + rest);
    ReceiveFileTuples(fs, rest, e, reply);
  }

  /** sendFileToServer against ClientHandler.run: the server stores the
      file whole, marks its name, and answers with one status string that
      the client reads back as "RECEIVED:name". */
  lemma SendFileToServerInterop(name: JString, content: seq<byte>, files: map<JString, seq<byte>>, marked: set<JString>)
    requires |content| < 0x8000_0000_0000_0000
    requires SyncFrame(name, content).Ok?
    requires WriteUTF(ReceivedReply(name)).Ok?
    ensures var r := Receive(SyncFrame(name, content).value, Effect(files, marked, []), true);
      && r.files == files[name := content]
      && r.marked == marked + {name}
      && ParseUTF(r.out) == Ok(Parsed(ReceivedReply(name), []))
  {
    var fs := [FileItem(name, content)];
    var frame := SyncFrame(name, content).value;
    assert frame + [] == frame;
    SyncFrameRoundTrip(fs, [], Effect(files, marked, []), true);
    var status := WriteUTF(ReceivedReply(name)).value;
    assert StoreAll(fs, Effect(files, marked, []), true)
        == Effect(files[name := content], marked + {name}, status);
    assert status + [] == status;
    ParseWriteUTF(ReceivedReply(name), []);
  }

  /** sendFileToClient against the client's listener: the file is stored
      whole and marked, and nothing is written back. */
  lemma SendFileToClientInterop(name: JString, content: seq<byte>, files: map<JString, seq<byte>>, marked: set<JString>)
    requires |content| < 0x8000_0000_0000_0000
    requires SyncFrame(name, content).Ok?
    ensures Receive(SyncFrame(name, content).value, Effect(files, marked, []), false)
         == Effect(files[name := content], marked + {name}, [])
  {
    var frame := SyncFrame(name, content).value;
    assert frame + [] == frame;
    SyncFrameRoundTrip([FileItem(name, content)], [], Effect(files, marked, []), false);
  }

  /** A DELETE frame removes the named file, marks the name whether or not
      the file existed, and a replying receiver answers "DELETED:name"
      exactly when there was a file to delete, "NOT_FOUND:name" otherwise. */
  lemma DeleteFrameRoundTrip(name: JString, rest: seq<byte>, e: Effect, reply: bool)
    requires DeleteFrame(name).Ok?
    ensures var r := Receive(DeleteFrame(name).value + rest, e, reply);
      && r.files == e.files - {name}
      && r.marked == e.marked + {name}
      && r.out == e.out + (if reply then
                             var status := if name in e.files then DeletedReply(name) else NotFoundReply(name);
                             match WriteUTF(status) case Ok(b) => b case Err(_) => []
                           else [])
  {
    var nameBytes := WriteUTF(name).value;
    assert DeleteFrame(name).value + rest == DELETE_COMMAND + (nameBytes + rest);
    AfterDeleteCommand(nameBytes + rest, e, reply);
    ParseWriteUTF(name, rest);
  }

  /** After a DELETE command, the receiver runs its delete branch over
      whatever follows. */
  lemma AfterDeleteCommand(rest: seq<byte>, e: Effect, reply: bool)
    ensures Receive(DELETE_COMMAND + rest, e, reply) == ReceiveDelete(rest, e, reply)
  {
    CommandsEncode();
    ParseWriteUTF(DELETE, rest);
    assert SYNC != DELETE by { assert SYNC[0] != DELETE[0]; }
  }

  /** A file that delivers fewer bytes than the length it reported is not
      refused: the receiver stores it cut short, marks its name, and the
      server still answers "RECEIVED:name". */
  lemma TruncatedBodyAcknowledged(name: JString, size: int, partial: seq<byte>, e: Effect)
    requires IsLong(size) && |partial| < size
    requires WriteUTF(name).Ok? && WriteUTF(ReceivedReply(name)).Ok?
    ensures Receive(AnnouncedSyncFrame(name, size, partial).value, e, true)
         == Effect(e.files[name := partial], e.marked + {name}, e.out + WriteUTF(ReceivedReply(name)).value)
  {
    var afterCount := WriteUTF(name).value + (WriteLong(size) + partial);
    assert AnnouncedSyncFrame(name, size, partial).value == SyncHeader() + afterCount;
    AfterSyncHeader(afterCount, e, true);
    OneFileStored(name, size, partial, e, true);
    assert partial[..BodyLength(size, |partial|)] == partial;
  }

  /** A one-file loop over a name, a size and whatever follows stores the
      first BodyLength bytes of what follows under that name, marks the
      name and, when replying, acknowledges it. */
  lemma OneFileStored(name: JString, size: int, rest: seq<byte>, e: Effect, reply: bool)
    requires IsLong(size) && WriteUTF(name).Ok?
    ensures var r := ReceiveFiles(WriteUTF(name).value + (WriteLong(size) + rest), 1, e, reply);
      && r.files == e.files[name := rest[..BodyLength(size, |rest|)]]
      && r.marked == e.marked + {name}
      && r.out == e.out + (if reply && WriteUTF(ReceivedReply(name)).Ok? then WriteUTF(ReceivedReply(name)).value else [])
  {
    ParseWriteUTF(name, WriteLong(size) + rest);
    ParseWriteLong(size, rest);
  }

  /** A file that grew after reporting its length: the receiver keeps only
      the announced number of bytes and ignores the rest of the stream. */
  lemma GrownBodyCut(name: JString, size: int, content: seq<byte>, e: Effect, reply: bool)
    requires IsLong(size) && 0 <= size <= |content|
    requires WriteUTF(name).Ok?
    ensures Receive(AnnouncedSyncFrame(name, size, content).value, e, reply).files
         == e.files[name := content[..size]]
  {
    var afterCount := WriteUTF(name).value + (WriteLong(size) + content);
    assert AnnouncedSyncFrame(name, size, content).value == SyncHeader() + afterCount;
    AfterSyncHeader(afterCount, e, reply);
    OneFileStored(name, size, content, e, reply);
    assert BodyLength(size, |content|) == size;
  }

  /** After the header of a one-file SYNC frame, the receiver runs its
      per-file loop once over whatever follows. */
  lemma AfterSyncHeader(rest: seq<byte>, e: Effect, reply: bool)
    ensures Receive(SyncHeader() + rest, e, reply) == ReceiveFiles(rest, 1, e, reply)
  {
    assert SyncHeader() + rest == SYNC_COMMAND + (WriteInt(1) + rest);
    AfterSyncCommand(WriteInt(1) + rest, e, reply);
    ParseWriteInt(1, rest);
  }

  /** After a SYNC command, the receiver runs its SYNC branch over whatever
      follows. */
  lemma AfterSyncCommand(rest: seq<byte>, e: Effect, reply: bool)
    ensures Receive(SYNC_COMMAND + rest, e, reply) == ReceiveSync(rest, e, reply)
  {
    CommandsEncode();
    ParseWriteUTF(SYNC, rest);
  }

  /** A sender whose file name writeUTF refuses has already written the
      header; the receiver then fails to read a name and changes nothing. */
  lemma HeaderAloneIgnored(e: Effect, reply: bool)
    ensures Receive(SyncHeader(), e, reply) == e
  {
    assert SyncHeader() + [] == SyncHeader();
    AfterSyncHeader([], e, reply);
  }

  /** A command other than SYNC and DELETE is read and ignored: no file
      changes, no mark, no reply, nothing further read. */
  lemma UnknownCommandIgnored(command: JString, rest: seq<byte>, e: Effect, reply: bool)
    requires command != SYNC && command != DELETE
    requires WriteUTF(command).Ok?
    ensures Receive(WriteUTF(command).value + rest, e, reply) == e
  {
    ParseWriteUTF(command, rest);
  }
}
