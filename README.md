# FileSynchronization in Dafny

This project models the core of FileSynchronization, a small Java file
synchronisation system with two independent designs:

- **BidirectionalFileSync** is a polling reconciler between two directories.
  Each cycle scans the source directory and compares that fresh scan with the
  last snapshot of the destination. It copies new files to the destination,
  settles changed files by the later modification time, and deletes
  destination files that vanished from the source. After that it replaces
  both snapshots. A snapshot records, per path, the modification time and a
  SHA-256 checksum written as lower-case hex.
- **FileSyncServer / FileSyncClient** is a push design over a framed socket
  protocol built from `DataOutputStream` primitives:
  - a `SYNC` frame is `writeUTF("SYNC")`, an `int` file count, and, per file,
    `writeUTF(name)`, a `long` size and the raw bytes;
  - a `DELETE` frame is `writeUTF("DELETE")` and `writeUTF(name)`.

  The server's per-client handler stores or deletes files and answers each
  file with `RECEIVED:name`. A delete is answered with `DELETED:name` or
  `NOT_FOUND:name`. The client's listener does the same but writes no reply.
  Each side keeps a `recentlySyncedFiles` set. It marks every name it
  received, and its directory watcher skips the first registered event for
  a marked name and forgets the mark. This is meant to stop a received file
  from being echoed back, but it covers only one event per received name.

The modules follow the source:

| module | file | models |
|---|---|---|
| `Bytes` | bytes.dfy | bytes, big-endian two's-complement integers, results |
| `ModifiedUtf8` | mutf8.dfy | Java strings as UTF-16 code units; the modified UTF-8 body of `writeUTF` / `readUTF` |
| `DataStreams` | data_streams.dfy | `writeInt`, `writeLong`, `writeUTF` and their readers; `DataIn`, a socket or file input stream that delivers arbitrary chunks |
| `DigestHex` | digest_hex.dfy | the hex formatting in `checksum` |
| `EchoSuppression` | suppression.dfy | the `recentlySyncedFiles` set and the watcher loop's reaction to each event |
| `Protocol` | protocol.dfy | the frames; the pure meaning of one inbound connection (`Receive`); the imperative receive loop with its 4096-byte buffer |
| `Interop` | interop.dfy | the encoders read back by the decoders |
| `FileSyncServer` | server.dfy | `ClientHandler.run`, `sendFileToClient`, `notifyClientDelete` |
| `FileSyncClient` | client.dfy | `listenForServerNotifications`, `sendFileToServer`, `notifyServerDelete` |
| `BidirectionalFileSync` | bidirectional.dfy | `FileMeta.equals`, the copy/delete plan, `copyFile`, `deleteFile`, one `watchAndSync` cycle |

Modelling choices:

- The server handler and the client listener decode with the same read
  sequence. A single pure function, `Protocol.Receive(input, effect, reply)`,
  gives the meaning of one connection. Its `reply` flag is true for the
  server, which answers, and false for the client, which does not. The
  imperative methods are proved equal to it on whatever bytes their stream
  held. Because that result does not depend on how the stream was split into
  chunks, chunking cannot change the result.
- `HashMap` iteration order is unspecified in Java. The cycle therefore takes
  the order of each loop as a parameter that enumerates the key set.
- A directory is a map from relative path to (modification time, content).
  The SHA-256 digest is a function parameter that returns `None` when
  hashing throws.

Behaviour of the code that the model keeps as written:

- When the stream ends before the announced size has arrived, the receive
  loop stops early. The file is kept truncated, the name is marked, and
  `RECEIVED:name` is still sent (`Interop.TruncatedBodyAcknowledged`).
- In `watchAndSync`, every action of a cycle is inside one `try`. A copy
  that throws abandons the rest of the cycle, and neither snapshot is
  updated (`BidirectionalFileSync.StaleSnapshotAborts`).

Consequences of the code that the model makes explicit:

- The copy decision depends on the timestamps alone. Two records with equal
  times are never copied, whatever their checksums.
- The client watches only creations and deletions. A received file that
  already existed is only modified, so its mark is never consumed, and that
  stale mark swallows the next local deletion of the file
  (`FileSyncClient.StaleMarkSwallowsDelete`).
- The server watches modifications too, and a mark covers one event only.
  When writing a received new file raises a creation and then a
  modification, the creation is skipped but the modification sends the
  file back to the client that sent it
  (`FileSyncServer.ReceivedFileModifyEchoed`).

## Model

| member | source | states |
|---|---|---|
| `Bytes.FromToBigEndian` | FileSyncServer.java:113 | reading k big-endian bytes back gives the non-negative number below 256^k that was written |
| `Bytes.ToFromBigEndian` | FileSyncServer.java:113 | every k-byte sequence is the encoding of the number read from it, so the encoding is a bijection |
| `Bytes.FromToSigned` | FileSyncServer.java:116 | a signed value that fits in k bytes of two's complement is read back unchanged |
| `Bytes.ToFromSigned` | FileSyncServer.java:116 | re-encoding the signed value read from any bytes gives those bytes |
| `ModifiedUtf8.DecodeEncode` | FileSyncServer.java:111 | decoding the modified UTF-8 body of any Java string gives that string back, for every char including U+0000 and surrogates |
| `ModifiedUtf8.Encode` | FileSyncServer.java:79 | the body of writeUTF takes one to three bytes per char |
| `ModifiedUtf8.Decode` | FileSyncServer.java:111 | a body readUTF accepts never stands for more chars than it has bytes |
| `ModifiedUtf8.EncodeAppend` | FileSyncServer.java:79 | the body of a concatenation is the concatenation of the bodies |
| `ModifiedUtf8.EncodeAscii` | FileSyncServer.java:77 | a string of chars 1..127 is written as its own code units |
| `DataStreams.WriteUTF` | FileSyncServer.java:79 | writeUTF succeeds exactly when the body is at most 65535 bytes, and then writes a 2-byte length followed by the body |
| `DataStreams.WriteUTFPrefix` | FileSyncServer.java:79 | the 2-byte prefix holds the body length |
| `DataStreams.WriteInt` | FileSyncServer.java:78 | writeInt writes exactly 4 bytes |
| `DataStreams.WriteLong` | FileSyncServer.java:80 | writeLong writes exactly 8 bytes |
| `DataStreams.ParseUTF` | FileSyncServer.java:111 | a successful readUTF consumes a non-empty prefix of the stream and leaves the rest |
| `DataStreams.ParseInt` | FileSyncServer.java:113 | readInt succeeds exactly when 4 bytes are available, yields a 32-bit value and consumes exactly 4 bytes |
| `DataStreams.ParseLong` | FileSyncServer.java:116 | readLong succeeds exactly when 8 bytes are available, yields a 64-bit value and consumes exactly 8 bytes |
| `DataStreams.ParseWriteInt` | FileSyncServer.java:113 | readInt after writeInt yields the value and leaves the bytes that follow |
| `DataStreams.ParseWriteLong` | FileSyncServer.java:116 | readLong after writeLong yields the value and leaves the bytes that follow |
| `DataStreams.ParseWriteUTF` | FileSyncServer.java:111 | readUTF after a successful writeUTF yields the string and leaves the bytes that follow |
| `DataStreams.DataIn.Read` | FileSyncServer.java:122 | read returns -1 at end of stream; otherwise it returns between 1 and len bytes, which are the next bytes of the stream, and consumes exactly them |
| `DataStreams.DataIn.ReadFully` | FileSyncServer.java:111 | n bytes are read when available, else end-of-stream fails the read |
| `DataStreams.DataIn.ReadInt` | FileSyncServer.java:113 | readInt over any chunking gives the value of the next 4 bytes and consumes them |
| `DataStreams.DataIn.ReadLong` | FileSyncServer.java:116 | readLong over any chunking gives the value of the next 8 bytes and consumes them |
| `DataStreams.DataIn.ReadUTF` | FileSyncServer.java:111 | readUTF over any chunking gives the decoded string (or the failure) of the bytes that remain, and consumes one string |
| `DataStreams.CopyAll` | FileSyncServer.java:81-85 | the copy loop writes every byte of the file, in order, and exhausts it |
| `DigestHex.DigitValue` | BidirectionalFileSync.java:112 | each lower-case hex digit has a value below 16 that formats back to the same digit |
| `DigestHex.DigitValueHexDigit` | BidirectionalFileSync.java:112 | formatting a nibble and reading the digit back gives the nibble |
| `DigestHex.FormatByte` | BidirectionalFileSync.java:112 | `%02x` of a byte is two lower-case hex digits whose value is the byte |
| `DigestHex.Hex` | BidirectionalFileSync.java:111-113 | the hex form is twice as long as the digest and all lower-case hex |
| `DigestHex.FormatDigest` | BidirectionalFileSync.java:111-113 | the StringBuilder loop produces the hex form of the digest |
| `DigestHex.UnhexFormatted` | BidirectionalFileSync.java:111-113 | a string ending in one formatted digest byte reads back as the rest followed by that byte |
| `DigestHex.UnhexHex` | BidirectionalFileSync.java:111-113 | the hex form decodes back to the digest |
| `DigestHex.UnhexAppend` | BidirectionalFileSync.java:112 | appending one formatted byte appends that byte to what the hex form decodes to |
| `DigestHex.HexInjective` | BidirectionalFileSync.java:111-113 | distinct digests have distinct checksums |
| `DigestHex.Checksum` | BidirectionalFileSync.java:103-117 | a failed hash gives "", otherwise a string that decodes to the digest |
| `DigestHex.ChecksumEmptyIffFailed` | BidirectionalFileSync.java:111-115 | the checksum is "" exactly when hashing failed, and is 64 characters otherwise |
| `EchoSuppression.EchoSuppressor.constructor` | FileSyncServer.java:27 | the suppression set starts empty |
| `EchoSuppression.EchoSuppressor.Mark` | FileSyncServer.java:128 | add puts the name into the set and changes nothing else |
| `EchoSuppression.EchoSuppressor.Consume` | FileSyncServer.java:55 | remove reports whether the name was present and takes it out |
| `EchoSuppression.React` | FileSyncServer.java:54-63 | an unregistered event kind is ignored; for a registered kind the name is unmarked, the event is skipped exactly when the name was marked, and otherwise a create/modify sends that file and a delete sends a delete notice |
| `EchoSuppression.ReactAll` | FileSyncServer.java:50-65 | over a batch of events, one reaction per event; marks only shrink; every send names its event's file; a skipped event's name was marked |
| `EchoSuppression.Handle` | FileSyncServer.java:51-64 | handling one event updates the set and reacts as `React` says |
| `EchoSuppression.PollEvents` | FileSyncServer.java:50-65 | the watcher loop's reactions and final set are those of the whole batch |
| `EchoSuppression.SuppressionIsOneShot` | FileSyncClient.java:37-46 | a mark skips the first registered event for its name only; the next one is propagated |
| `EchoSuppression.MarkSurvives` | FileSyncClient.java:29 | a mark survives every batch without a registered event for its name |
| `EchoSuppression.UnregisteredIgnored` | FileSyncClient.java:29 | every event of an unregistered kind gets no reaction |
| `Protocol.CommandsEncode` | FileSyncServer.java:77 | "SYNC" and "DELETE" are written as a 2-byte length and their ASCII bytes |
| `Protocol.AsciiCommandEncodes` | FileSyncServer.java:95 | a short ASCII command string is written as its length byte pair and its characters |
| `Protocol.AnnouncedSyncFrame` | FileSyncServer.java:77-85 | the one-file SYNC frame can be written exactly when writeUTF accepts the name |
| `Protocol.FileTuple` | FileSyncServer.java:79-85 | a (name, size, bytes) tuple can be written exactly when writeUTF accepts the name, and is 2 + body + 8 + content bytes long |
| `Protocol.FileTuples` | FileSyncServer.java:79-85 | several tuples can be written exactly when writeUTF accepts every name |
| `Protocol.SyncFrameOf` | FileSyncServer.java:77-85 | a SYNC frame can be written exactly when writeUTF accepts every file name |
| `Protocol.SyncFrame` | FileSyncServer.java:77-85 | the one-file SYNC frame can be written exactly when writeUTF accepts the name |
| `Protocol.DeleteFrame` | FileSyncServer.java:95-96 | the DELETE frame can be written exactly when writeUTF accepts the name, and is the command, 2 length bytes and the name's body |
| `Protocol.AnnouncedSyncFrameIsSyncFrame` | FileSyncServer.java:77-85 | announcing the file's true length gives the general SYNC frame for that one file |
| `Protocol.BodyLength` | FileSyncServer.java:120-126 | the body loop keeps the announced size when enough bytes arrive, all that is left when the stream ends first, and nothing for a size of zero or less |
| `Protocol.ReceiveFile` | FileSyncClient.java:99-112 | the listener writes nothing, and each file read continues only on a shorter input |
| `Protocol.Receive` | FileSyncClient.java:93-121 | the listener writes nothing back for any input |
| `Protocol.ReceiveSync` | FileSyncServer.java:112-113 | the SYNC branch writes nothing back on the listener |
| `Protocol.ReceiveFiles` | FileSyncServer.java:114-130 | the per-file loop writes nothing back on the listener |
| `Protocol.Resume` | FileSyncServer.java:114-130 | the rest of the per-file loop writes nothing back on the listener |
| `Protocol.ReceiveDelete` | FileSyncServer.java:131-138 | the DELETE branch writes nothing back on the listener |
| `Protocol.ReceiveMarksItsWrites` | FileSyncServer.java:108-139 | a connection changes only files whose names it marks, and never unmarks a name |
| `Protocol.ReceiveFilesMarksItsWrites` | FileSyncServer.java:114-130 | every file the SYNC loop writes is marked |
| `Protocol.SyncDir.constructor` | FileSyncServer.java:118 | the directory starts with the given files |
| `Protocol.SyncDir.Write` | FileSyncServer.java:118-127 | writing through a new FileOutputStream replaces the file's contents and nothing else |
| `Protocol.SyncDir.Delete` | FileSyncServer.java:134 | delete reports whether the file existed and removes it |
| `Protocol.ReceiveBody` | FileSyncServer.java:119-126 | the bounded loop writes exactly the first BodyLength bytes, however the stream is chunked, and the next field is read from the byte right after them |
| `Protocol.ReceiveOneFile` | FileSyncServer.java:115-129 | reading one name, size and body and then the remaining files has the meaning `Resume` gives it |
| `Protocol.ReceiveFileLoop` | FileSyncServer.java:114-130 | the per-file loop has the meaning of `ReceiveFiles` |
| `Interop.StoreAll` | FileSyncServer.java:114-130 | storing a list of files never unmarks a name; the listener marks every one, and so does the server when writeUTF accepts every RECEIVED:name reply |
| `Interop.ParseFileTuple` | FileSyncServer.java:115-116 | a written name and size are read back, and the body follows them |
| `Interop.ReceiveFileTuples` | FileSyncServer.java:114-130 | decoding the written file tuples stores every file with its full content, marks it and acknowledges it, in frame order |
| `Interop.SyncFrameRoundTrip` | FileSyncServer.java:111-130 | any SYNC frame, read by the handler or the listener, has the effect of storing its files in order, whatever follows it |
| `Interop.SendFileToServerInterop` | FileSyncClient.java:57-66 | the server stores a file the client sent, marks its name, and answers one RECEIVED:name |
| `Interop.SendFileToClientInterop` | FileSyncServer.java:77-85 | the client listener stores a file the server sent, marks its name and writes nothing |
| `Interop.DeleteFrameRoundTrip` | FileSyncServer.java:131-138 | the DELETE frame removes the named file, marks the name whether or not it existed, and answers DELETED:name exactly when it existed, else NOT_FOUND:name |
| `Interop.AfterDeleteCommand` | FileSyncServer.java:111-131 | after the DELETE command only the delete branch runs |
| `Interop.AfterSyncCommand` | FileSyncServer.java:111-113 | after the SYNC command only the sync branch runs |
| `Interop.AfterSyncHeader` | FileSyncServer.java:111-114 | after SYNC and a count of 1 the file loop runs once |
| `Interop.OneFileStored` | FileSyncServer.java:115-129 | one file read stores the first BodyLength bytes after the size, marks the name and acknowledges it |
| `Interop.TruncatedBodyAcknowledged` | FileSyncServer.java:121-129 | when the stream ends before the announced size, the truncated file is stored, marked and still acknowledged |
| `Interop.GrownBodyCut` | FileSyncServer.java:121-126 | a body longer than its announced size is cut to that size |
| `Interop.HeaderAloneIgnored` | FileSyncServer.java:111-116 | a SYNC header with no file after it changes nothing and answers nothing |
| `Interop.UnknownCommandIgnored` | FileSyncClient.java:95-121 | an unrecognised command changes no file, marks nothing and writes nothing |
| `FileSyncServer.HandleClient` | FileSyncServer.java:108-139 | the handler's directory, set and replies are those `Receive` gives for the bytes the connection held, and after an unrecognised command nothing more is read |
| `FileSyncServer.SendFileToClient` | FileSyncServer.java:73-90 | the bytes sent are the SYNC frame announcing the given length and carrying the whole file, which is then read to its end; when writeUTF refuses the name, only the header is sent and the file is not read |
| `FileSyncServer.NotifyClientDelete` | FileSyncServer.java:92-101 | the bytes sent are the DELETE frame, or only the command when writeUTF refuses the name |
| `FileSyncServer.ReceivedFileNotEchoed` | FileSyncServer.java:54-60 | the first create or modify event caused by a received file is skipped and uses up the mark |
| `FileSyncServer.ReceivedDeleteNotEchoed` | FileSyncServer.java:61-63 | the delete event caused by a received DELETE is skipped |
| `FileSyncServer.ReceivedFileModifyEchoed` | FileSyncServer.java:54-60 | when a received new file raises a creation and then a modification, the creation is skipped and the modification sends the file back |
| `FileSyncServer.LocalChangeForwarded` | FileSyncServer.java:54-63 | a change to an unmarked name is sent to the client, as a delete notice for a deletion and as the file otherwise |
| `FileSyncClient.HandleNotification` | FileSyncClient.java:93-121 | one connection's directory and set are those `Receive` gives, with nothing written back, and after an unrecognised command nothing more is read |
| `FileSyncClient.ReceiveEach` | FileSyncClient.java:92-125 | a run of connections writes nothing back |
| `FileSyncClient.ReceiveEachMarksItsWrites` | FileSyncClient.java:92-125 | across connections, every file written or deleted is marked |
| `FileSyncClient.ListenForServerNotifications` | FileSyncClient.java:89-129 | the accept loop's directory and set are those of receiving every connection in turn |
| `FileSyncClient.SendFileToServer` | FileSyncClient.java:52-72 | the bytes sent are the SYNC frame with the announced length and the file, the file is read to its end and exactly one reply string is read; when writeUTF refuses the name, only the header is sent and neither the file nor the reply stream is read |
| `FileSyncClient.NotifyServerDelete` | FileSyncClient.java:74-87 | the bytes sent are the DELETE frame and exactly one reply string is read; when writeUTF refuses the name, only the command is sent and the reply stream is not read |
| `FileSyncClient.SendFileExchange` | FileSyncClient.java:57-66 | the client reads back RECEIVED:name and the server holds the file |
| `FileSyncClient.NotifyDeleteExchange` | FileSyncClient.java:79-81 | the client reads DELETED:name exactly when the server had the file, else NOT_FOUND:name, and the file is gone |
| `FileSyncClient.StatusReadBack` | FileSyncClient.java:66 | a status string written alone is read back whole |
| `FileSyncClient.ModificationsNeverSent` | FileSyncClient.java:29 | no modification event ever gets a reaction on the client |
| `FileSyncClient.LocalChangePushed` | FileSyncClient.java:33-46 | an unmarked creation sends the file, an unmarked deletion sends a delete notice, and a modification does nothing |
| `FileSyncClient.StaleMarkSwallowsDelete` | FileSyncClient.java:37-46 | after receiving a file that already existed, the following local deletion of it is skipped |
| `BidirectionalFileSync.MetaEqualsNeedsBoth` | BidirectionalFileSync.java:130-134 | records are equal exactly when both fields are; equal checksums alone or equal times alone do not suffice |
| `BidirectionalFileSync.MetaEquals` | BidirectionalFileSync.java:130-134 | FileMeta.equals: two records are equal when both the time and the checksum are |
| `BidirectionalFileSync.Scan` | BidirectionalFileSync.java:77-89 | a scan has a record for exactly the files of the tree, each with that file's modification time |
| `BidirectionalFileSync.Decide` | BidirectionalFileSync.java:39-56 | copy to the destination exactly when the snapshot lacks the path or the source is newer; copy back exactly when the destination is newer; nothing exactly when the times are equal |
| `BidirectionalFileSync.CopyPhaseMembers` | BidirectionalFileSync.java:39-56 | the copy loop performs exactly the actions `Decide` gives for the paths it visits |
| `BidirectionalFileSync.CopyPhaseAppend` | BidirectionalFileSync.java:39-56 | the copy loop over two runs of paths is the loop over the first followed by the loop over the second |
| `BidirectionalFileSync.DeletePhaseMembers` | BidirectionalFileSync.java:58-63 | deletes are exactly the snapshot paths missing from the fresh scan, so no scanned path is deleted |
| `BidirectionalFileSync.CopiesBeforeDeletes` | BidirectionalFileSync.java:39-63 | all copies come before all deletes |
| `BidirectionalFileSync.CopyPhase` | BidirectionalFileSync.java:39-56 | the copy loop makes at most one copy per visited path, and never a delete |
| `BidirectionalFileSync.DeletePhase` | BidirectionalFileSync.java:58-63 | the delete loop makes at most one action per visited path, each a delete of a path the fresh scan lacks |
| `BidirectionalFileSync.Plan` | BidirectionalFileSync.java:39-63 | a cycle makes at most one action per visit of either loop |
| `BidirectionalFileSync.Apply` | BidirectionalFileSync.java:91-101 | a copy throws exactly when the file to copy is missing, and afterwards both sides hold the same entry at the path; a delete never throws, removes the path and leaves the source alone |
| `BidirectionalFileSync.Run` | BidirectionalFileSync.java:36-73 | a run of deletes always completes and never changes the source |
| `BidirectionalFileSync.RunAppend` | BidirectionalFileSync.java:36-73 | running two lists of actions is running the first, then the second only when the first completed |
| `BidirectionalFileSync.ApplyLocal` | BidirectionalFileSync.java:91-101 | a copy or delete depends only on the files at its own path |
| `BidirectionalFileSync.ApplyFrame` | BidirectionalFileSync.java:91-101 | a copy or delete leaves every other path unchanged |
| `BidirectionalFileSync.RunPointwise` | BidirectionalFileSync.java:39-63 | actions on distinct paths that can all run complete, each path ends as its own action left it, and untouched paths are unchanged |
| `BidirectionalFileSync.RunFailsAt` | BidirectionalFileSync.java:70-73 | when one action on distinct paths cannot run, the cycle does not complete |
| `BidirectionalFileSync.ActionAt` | BidirectionalFileSync.java:39-63 | each path in a completed cycle ends as its own action left it |
| `BidirectionalFileSync.CopyPhaseDistinct` | BidirectionalFileSync.java:39-56 | the copy loop acts at most once per path |
| `BidirectionalFileSync.DeletePhaseDistinct` | BidirectionalFileSync.java:58-63 | the delete loop acts at most once per path |
| `BidirectionalFileSync.PlanDistinct` | BidirectionalFileSync.java:39-63 | a whole cycle acts at most once per path |
| `BidirectionalFileSync.PlanApplicable` | BidirectionalFileSync.java:39-63 | when the snapshot's paths all exist in the destination, every planned action can run |
| `BidirectionalFileSync.FreshPlanCompletes` | BidirectionalFileSync.java:36-68 | a cycle against an up-to-date destination snapshot completes |
| `BidirectionalFileSync.ActionConverges` | BidirectionalFileSync.java:39-63 | the path of each operation of a completed cycle ends alike on both sides |
| `BidirectionalFileSync.PlannedCopy` | BidirectionalFileSync.java:39-56 | a visited path the snapshot lacks or records with an earlier time is copied to the destination, and one it records with a later time is copied back |
| `BidirectionalFileSync.PlannedDelete` | BidirectionalFileSync.java:58-63 | the delete loop deletes every visited path the fresh scan lacks |
| `BidirectionalFileSync.NotCopied` | BidirectionalFileSync.java:39-56 | the copy loop leaves alone a path whose recorded time equals the fresh scan's |
| `BidirectionalFileSync.Unplanned` | BidirectionalFileSync.java:39-63 | a path the snapshot records with the fresh scan's time, or one neither has, is not touched by the cycle |
| `BidirectionalFileSync.ConvergesAt` | BidirectionalFileSync.java:36-63 | after such a cycle each path exists on both sides or neither, with equal records |
| `BidirectionalFileSync.ScanAlike` | BidirectionalFileSync.java:77-89 | trees with the same paths and records scan alike |
| `BidirectionalFileSync.Convergence` | BidirectionalFileSync.java:34-75 | a cycle against an up-to-date snapshot completes and leaves both directories scanning alike |
| `BidirectionalFileSync.StaleSnapshotAborts` | BidirectionalFileSync.java:51-53 | a snapshot entry newer than the source for a file now missing at the destination makes the copy back throw and the cycle abort |
| `BidirectionalFileSync.Device.constructor` | BidirectionalFileSync.java:26-27 | each side starts with its tree and a scan of it |
| `BidirectionalFileSync.CopyFile` | BidirectionalFileSync.java:91-96 | the copy succeeds exactly when the source file exists, and then replaces the target with the same time and bytes; a failed copy changes nothing |
| `BidirectionalFileSync.DeleteFile` | BidirectionalFileSync.java:98-101 | the path is absent afterwards, and a missing file is no error |
| `BidirectionalFileSync.SyncPath` | BidirectionalFileSync.java:40-55 | one iteration of the copy loop performs the action `Decide` chose |
| `BidirectionalFileSync.CopyPhaseLast` | BidirectionalFileSync.java:39-56 | visiting one more path appends exactly the action `Decide` gives for it |
| `BidirectionalFileSync.CopyPhaseSplit` | BidirectionalFileSync.java:39-56 | the copy loop's actions split at any visited position |
| `BidirectionalFileSync.CopyPhaseStep` | BidirectionalFileSync.java:39-56 | visiting one more path extends the copy loop's run, and a copy that throws is the outcome of the whole loop |
| `BidirectionalFileSync.CopyPass` | BidirectionalFileSync.java:39-56 | the copy loop runs the copy phase and stops at the first copy that throws |
| `BidirectionalFileSync.DeletePhaseStep` | BidirectionalFileSync.java:58-63 | visiting one more path deletes it from the destination exactly when the fresh scan lacks it, and the run stays complete |
| `BidirectionalFileSync.DeletePass` | BidirectionalFileSync.java:58-63 | the delete loop runs the delete phase, which always completes |
| `BidirectionalFileSync.WatchAndSync` | BidirectionalFileSync.java:34-75 | one cycle's trees are those of running the plan; when it completes, the source snapshot becomes the fresh scan and the destination snapshot a fresh scan of the destination, old entries cleared; when it throws, neither snapshot changes |

## Left out

- Sockets, `ServerSocket.accept`, and connect/close: streams are byte sequences, and the accept loops are loops over the connections' inputs.
- Threads, the thread pool, and the concurrency of the synchronised set and the shared snapshot maps: operations run one at a time, and the two `watchAndSync` threads are separate calls.
- `WatchService` registration and `take`, and `Files.walkFileTree`: an event batch and a directory tree are inputs, and `scanDirectory` is the function `Scan` assigned as a whole rather than a map cleared and filled in place.
- The busy-wait before sending a created file, and the `SYNC_INTERVAL_MS` sleep: timing only. A file that stays empty makes the real busy-wait spin forever, which the model does not show.
- The SHA-256 computation inside `MessageDigest`: the digest is a function parameter, and only its hex formatting is modelled.
- Logging, `new Date()`, `Files.createDirectories`, the console printing of replies, and the unused `getFilesToSync`: no logic to verify.
- `OVERFLOW` watch events, nested directories, and paths that escape the directory: names are opaque keys of one flat map.
- I/O failures other than the end of a stream, an over-long string and a missing file to copy: for example, a disk error while writing or a hash that throws for a reason other than unreadable content.
- Exceptions on the receiving side: a failed read, or a reply that writeUTF refuses, ends the connection with the effects made so far. The logging of the exception and the closing of the socket are not modelled.
- `BidirectionalFileSync.WatchAndSync`: models one pass of the endless loop; the loop itself and the re-entry after a caught exception are left to the caller.
