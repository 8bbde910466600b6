/** FileSyncServer: the connection handler that stores what a client sends
    and answers it, the two senders that notify the client, and the watcher
    that decides which local changes to forward. */
module FileSyncServer {
  import opened Bytes
  import opened ModifiedUtf8
  import opened DataStreams
  import opened Protocol
  import opened EchoSuppression
  import Interop

  /** The server's watcher registers creations, deletions and modifications. */
  const SERVER_EVENTS: set<EventKind> := {EntryCreate, EntryDelete, EntryModify}

  /** ClientHandler.run on one connection: read a command; for SYNC read a
      count and that many (name, size, body) tuples, storing each body,
      marking its name and answering "RECEIVED:name"; for DELETE read a
      name, delete the file, mark the name and answer "DELETED:name" or
      "NOT_FOUND:name". A failed read or reply ends the connection, keeping
      what was already done. `out` is what was written back. */
  method HandleClient(dis: DataIn, dir: SyncDir, recent: EchoSuppressor) returns (out: seq<byte>)
    requires dis.Valid()
    modifies dis, dir, recent
    ensures Effect(dir.files, recent.names, out)
         == Receive(old(dis.Remaining()), Effect(old(dir.files), old(recent.names), []), true)
    ensures var command := ParseUTF(old(dis.Remaining()));
      command.Ok? && command.value.value != SYNC && command.value.value != DELETE ==>
        dis.Remaining() == command.value.rest
  {
    out := [];
    var command := dis.ReadUTF();
    if command.Err? {
      return;
    }
    if command.value == SYNC {
      var fileCount := dis.ReadInt();
      if fileCount.Err? {
        return;
      }
      out := ReceiveFileLoop(dis, dir, recent, fileCount.value, true);
    } else if command.value == DELETE {
      var fileName := dis.ReadUTF();
      if fileName.Err? {
        return;
      }
      var deleted := dir.Delete(fileName.value);
      recent.Mark(fileName.value);
      var status := WriteUTF(if deleted then DeletedReply(fileName.value) else NotFoundReply(fileName.value));
      if status.Err? {
        return;
      }
      out := status.value;
    }
  }

  /** sendFileToClient: the header, the name, the length the file reported
      and then the file's bytes as its stream delivers them, to its end.
      When writeUTF refuses the name only the header has been written and the
      file is not read. */
  method SendFileToClient(name: JString, length: int, file: DataIn) returns (sent: seq<byte>, ok: bool)
    requires IsLong(length) && file.Valid()
    modifies file
    ensures ok <==> WriteUTF(name).Ok?
    ensures ok ==> sent == AnnouncedSyncFrame(name, length, old(file.Remaining())).value
    ensures !ok ==> sent == SyncHeader()
    ensures ok ==> file.Remaining() == []
    ensures !ok ==> file.Remaining() == old(file.Remaining())
  {
    CommandsEncode();
    sent := WriteUTF(SYNC).value + WriteInt(1);
    var nameBytes := WriteUTF(name);
    if nameBytes.Err? {
      return sent, false;
    }
    sent := sent + nameBytes.value + WriteLong(length);
    var content := CopyAll(file);
    sent := sent + content;
    ok := true;
  }

  /** notifyClientDelete: DELETE and the name; when writeUTF refuses the
      name only the command has been written. */
  method NotifyClientDelete(name: JString) returns (sent: seq<byte>, ok: bool)
    ensures ok <==> DeleteFrame(name).Ok?
    ensures ok ==> sent == DeleteFrame(name).value
    ensures !ok ==> sent == DELETE_COMMAND
  {
    CommandsEncode();
    sent := WriteUTF(DELETE).value;
    var nameBytes := WriteUTF(name);
    if nameBytes.Err? {
      return sent, false;
    }
    sent := sent + nameBytes.value;
    ok := true;
  }

  /** A file the server has just received from a client does not bounce
      back: the first creation or modification event the write causes is
      suppressed, and the mark is used up. */
  lemma ReceivedFileNotEchoed(name: JString, content: seq<byte>, files: map<JString, seq<byte>>,
                              marked: set<JString>, kind: EventKind)
    requires |content| < 0x8000_0000_0000_0000
    requires SyncFrame(name, content).Ok? && WriteUTF(ReceivedReply(name)).Ok?
    requires kind != EntryDelete
    ensures var after := Receive(SyncFrame(name, content).value, Effect(files, marked, []), true);
      React(SERVER_EVENTS, WatchEvent(kind, name), after.marked) == (Suppressed, after.marked - {name})
  {
    Interop.SendFileToServerInterop(name, content, files, marked);
  }

  /** Only the first event is suppressed, though: when writing a received
      file raises a creation and then a modification, as writing a new file
      does, the modification finds the mark gone and sends the file back to
      the client that sent it. */
  lemma ReceivedFileModifyEchoed(name: JString, content: seq<byte>, files: map<JString, seq<byte>>,
                                 marked: set<JString>)
    requires |content| < 0x8000_0000_0000_0000
    requires SyncFrame(name, content).Ok? && WriteUTF(ReceivedReply(name)).Ok?
    ensures var after := Receive(SyncFrame(name, content).value, Effect(files, marked, []), true);
      ReactAll(SERVER_EVENTS, [WatchEvent(EntryCreate, name), WatchEvent(EntryModify, name)], after.marked).0
        == [Suppressed, SendFile(name)]
  {
    Interop.SendFileToServerInterop(name, content, files, marked);
    var after := Receive(SyncFrame(name, content).value, Effect(files, marked, []), true);
    SuppressionIsOneShot(SERVER_EVENTS, EntryCreate, EntryModify, name, after.marked);
  }

  /** Likewise a deletion the server has just carried out for a client:
      the deletion event it causes is suppressed. */
  lemma ReceivedDeleteNotEchoed(name: JString, e: Effect)
    requires DeleteFrame(name).Ok?
    ensures var after := Receive(DeleteFrame(name).value, e, true);
      React(SERVER_EVENTS, WatchEvent(EntryDelete, name), after.marked) == (Suppressed, after.marked - {name})
  {
    assert DeleteFrame(name).value + [] == DeleteFrame(name).value;
    Interop.DeleteFrameRoundTrip(name, [], e, true);
  }

  /** A change the server did not receive from the client is forwarded:
      a creation or modification of an unmarked name sends the file, a
      deletion sends a delete notice. */
  lemma LocalChangeForwarded(ev: WatchEvent, names: set<JString>)
    requires ev.name !in names
    ensures React(SERVER_EVENTS, ev, names).0
         == if ev.kind == EntryDelete then SendDelete(ev.name) else SendFile(ev.name)
  {
  }
}
