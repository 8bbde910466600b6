/** FileSyncClient: the listener that applies what the server notifies, the
    two senders that push local changes to the server and read its answer,
    and the watcher that decides which local changes to push. */
module FileSyncClient {
  import opened Bytes
  import opened ModifiedUtf8
  import opened DataStreams
  import opened Protocol
  import opened EchoSuppression
  import Interop

  /** The client's watcher registers creations and deletions only. */
  const CLIENT_EVENTS: set<EventKind> := {EntryCreate, EntryDelete}

  /** The listener's handling of one accepted connection: the same decoding
      as the server's handler, but nothing is ever written back. */
  method HandleNotification(dis: DataIn, dir: SyncDir, recent: EchoSuppressor)
    requires dis.Valid()
    modifies dis, dir, recent
    ensures Effect(dir.files, recent.names, [])
         == Receive(old(dis.Remaining()), Effect(old(dir.files), old(recent.names), []), false)
    ensures var command := ParseUTF(old(dis.Remaining()));
      command.Ok? && command.value.value != SYNC && command.value.value != DELETE ==>
        dis.Remaining() == command.value.rest
  {
    var command := dis.ReadUTF();
    if command.Err? {
      return;
    }
    if command.value == SYNC {
      var fileCount := dis.ReadInt();
      if fileCount.Err? {
        return;
      }
      var written := ReceiveFileLoop(dis, dir, recent, fileCount.value, false);
    } else if command.value == DELETE {
      var fileName := dis.ReadUTF();
      if fileName.Err? {
        return;
      }
      var deleted := dir.Delete(fileName.value);
      recent.Mark(fileName.value);
    }
  }

  /** The effect of a series of connections handled one after another. */
  function ReceiveEach(inputs: seq<seq<byte>>, e: Effect): (r: Effect)
    ensures r.out == e.out
  {
    if inputs == [] then e
    else ReceiveEach(inputs[1..], Receive(inputs[0], e, false))
  }

  /** However many notifications arrive, the client's files change only
      under names it has marked. */
  lemma {:induction false} ReceiveEachMarksItsWrites(inputs: seq<seq<byte>>, e: Effect)
    ensures MarksItsWrites(e, ReceiveEach(inputs, e))
  {
    if inputs != [] {
      var first := Receive(inputs[0], e, false);
      ReceiveMarksItsWrites(inputs[0], e, false);
      ReceiveEachMarksItsWrites(inputs[1..], first);
      MarksItsWritesTransitive(e, first, ReceiveEach(inputs[1..], first));
    }
  }

  /** listenForServerNotifications: accept connections one after another
      and handle each; a connection that fails leaves what it already did
      and the listener goes on with the next. Each connection is given as
      the chunks its socket delivers. */
  method ListenForServerNotifications(connections: seq<seq<seq<byte>>>, dir: SyncDir, recent: EchoSuppressor)
    requires forall k, j :: 0 <= k < |connections| && 0 <= j < |connections[k]| ==> connections[k][j] != []
    modifies dir, recent
    ensures Effect(dir.files, recent.names, [])
         == ReceiveEach(seq(|connections|, k requires 0 <= k < |connections| => Flatten(connections[k])),
                        Effect(old(dir.files), old(recent.names), []))
  {
    ghost var inputs := seq(|connections|, k requires 0 <= k < |connections| => Flatten(connections[k]));
    ghost var goal := ReceiveEach(inputs, Effect(dir.files, recent.names, []));
    for k := 0 to |connections|
      invariant goal == ReceiveEach(inputs[k..], Effect(dir.files, recent.names, []))
    {
      var dis := new DataIn(connections[k]);
      HandleNotification(dis, dir, recent);
      assert inputs[k..][0] == Flatten(connections[k]) && inputs[k..][1..] == inputs[k + 1..];
    }
    assert inputs[|connections|..] == [];
  }

  /** sendFileToServer: the same bytes sendFileToClient writes, the file
      read to its end, then one status string read back. When writeUTF
      refuses the name only the header has been written and neither stream
      is read. */
  method SendFileToServer(name: JString, length: int, file: DataIn, replyIn: DataIn)
    returns (sent: seq<byte>, response: Result<JString>)
    requires IsLong(length) && file.Valid() && replyIn.Valid() && file != replyIn
    modifies file, replyIn
    ensures WriteUTF(name).Ok? ==>
      && sent == AnnouncedSyncFrame(name, length, old(file.Remaining())).value
      && response == Value(ParseUTF(old(replyIn.Remaining())))
    ensures WriteUTF(name).Err? ==> sent == SyncHeader() && response == Err(StringTooLong)
    ensures WriteUTF(name).Ok? ==>
      && file.Remaining() == []
      && (response.Ok? ==> replyIn.Remaining() == ParseUTF(old(replyIn.Remaining())).value.rest)
    ensures WriteUTF(name).Err? ==>
      file.Remaining() == old(file.Remaining()) && replyIn.Remaining() == old(replyIn.Remaining())
  {
    CommandsEncode();
    sent := WriteUTF(SYNC).value + WriteInt(1);
    var nameBytes := WriteUTF(name);
    if nameBytes.Err? {
      return sent, Err(StringTooLong);
    }
    sent := sent + nameBytes.value + WriteLong(length);
    var content := CopyAll(file);
    sent := sent + content;
    response := replyIn.ReadUTF();
  }

  /** notifyServerDelete: DELETE and the name, then one status string read
      back. When writeUTF refuses the name nothing is read. */
  method NotifyServerDelete(name: JString, replyIn: DataIn) returns (sent: seq<byte>, response: Result<JString>)
    requires replyIn.Valid()
    modifies replyIn
    ensures DeleteFrame(name).Ok? ==>
      sent == DeleteFrame(name).value && response == Value(ParseUTF(old(replyIn.Remaining())))
    ensures DeleteFrame(name).Err? ==> sent == DELETE_COMMAND && response == Err(StringTooLong)
    ensures DeleteFrame(name).Ok? && response.Ok? ==>
      replyIn.Remaining() == ParseUTF(old(replyIn.Remaining())).value.rest
    ensures DeleteFrame(name).Err? ==> replyIn.Remaining() == old(replyIn.Remaining())
  {
    CommandsEncode();
    sent := WriteUTF(DELETE).value;
    var nameBytes := WriteUTF(name);
    if nameBytes.Err? {
      return sent, Err(StringTooLong);
    }
    sent := sent + nameBytes.value;
    response := replyIn.ReadUTF();
  }

  /** A whole exchange: when the server's handler receives what
      sendFileToServer wrote for a file that still has its reported length,
      and its answer is what the client reads, the client reads
      "RECEIVED:name" and the server holds the file. */
  lemma SendFileExchange(name: JString, content: seq<byte>, files: map<JString, seq<byte>>, marked: set<JString>)
    requires |content| < 0x8000_0000_0000_0000
    requires WriteUTF(name).Ok? && WriteUTF(ReceivedReply(name)).Ok?
    ensures var after := Receive(AnnouncedSyncFrame(name, |content|, content).value, Effect(files, marked, []), true);
      && after.files == files[name := content]
      && Value(ParseUTF(after.out)) == Ok(ReceivedReply(name))
  {
    Protocol.AnnouncedSyncFrameIsSyncFrame(name, content);
    Interop.SendFileToServerInterop(name, content, files, marked);
  }

  /** A whole delete exchange: the client reads "DELETED:name" exactly when
      the server had the file, "NOT_FOUND:name" otherwise. */
  lemma NotifyDeleteExchange(name: JString, e: Effect)
    requires DeleteFrame(name).Ok? && e.out == []
    requires WriteUTF(DeletedReply(name)).Ok? && WriteUTF(NotFoundReply(name)).Ok?
    ensures var after := Receive(DeleteFrame(name).value, e, true);
      && after.files == e.files - {name}
      && Value(ParseUTF(after.out)) == Ok(if name in e.files then DeletedReply(name) else NotFoundReply(name))
  {
    assert DeleteFrame(name).value + [] == DeleteFrame(name).value;
    Interop.DeleteFrameRoundTrip(name, [], e, true);
    var status := if name in e.files then DeletedReply(name) else NotFoundReply(name);
    var after := Receive(DeleteFrame(name).value, e, true);
    assert after.out == [] + WriteUTF(status).value;
    assert [] + WriteUTF(status).value == WriteUTF(status).value;
    StatusReadBack(status);
  }

  /** A status string written alone is read back whole. */
  lemma StatusReadBack(status: JString)
    requires WriteUTF(status).Ok?
    ensures Value(ParseUTF(WriteUTF(status).value)) == Ok(status)
  {
    assert WriteUTF(status).value + [] == WriteUTF(status).value;
    ParseWriteUTF(status, []);
  }

  /** Local modifications are never pushed: in any batch of events, every
      modification event is one the watcher never receives. */
  lemma ModificationsNeverSent(events: seq<WatchEvent>, names: set<JString>)
    ensures var r := ReactAll(CLIENT_EVENTS, events, names).0;
      forall i :: 0 <= i < |events| && events[i].kind == EntryModify ==> r[i] == NotRegistered
  {
    UnregisteredIgnored(CLIENT_EVENTS, events, names);
  }

  /** A local change the client did not receive from the server is pushed
      when its kind is watched: a creation sends the file, a deletion a
      delete notice, and a modification nothing. */
  lemma LocalChangePushed(ev: WatchEvent, names: set<JString>)
    requires ev.name !in names
    ensures React(CLIENT_EVENTS, ev, names).0
         == match ev.kind
            case EntryCreate => SendFile(ev.name)
            case EntryDelete => SendDelete(ev.name)
            case EntryModify => NotRegistered
  {
  }

  /** The mark a received file leaves can go stale: when the file already
      existed, writing it causes only a modification, which the client does
      not watch, so the mark survives and swallows the next local deletion
      of that file, which is then never pushed to the server. */
  lemma StaleMarkSwallowsDelete(name: JString, content: seq<byte>, files: map<JString, seq<byte>>, marked: set<JString>)
    requires |content| < 0x8000_0000_0000_0000
    requires SyncFrame(name, content).Ok?
    ensures var after := Receive(SyncFrame(name, content).value, Effect(files, marked, []), false);
      ReactAll(CLIENT_EVENTS, [WatchEvent(EntryModify, name), WatchEvent(EntryDelete, name)], after.marked).0
        == [NotRegistered, Suppressed]
  {
    Interop.SendFileToClientInterop(name, content, files, marked);
    var names := marked + {name};
    var events := [WatchEvent(EntryModify, name), WatchEvent(EntryDelete, name)];
    var one := [WatchEvent(EntryModify, name)];
    assert one[..0] == [];
    assert ReactAll(CLIENT_EVENTS, one, names) == ([] + [NotRegistered], names);
    assert events[..1] == one;
  }
}
