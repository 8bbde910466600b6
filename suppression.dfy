/** Echo suppression: the set of names each side has just changed on behalf
    of its peer, and how a directory watcher consults it before forwarding
    a local change. */
module EchoSuppression {
  import opened ModifiedUtf8

  /** The kinds of directory event a watch service reports. */
  datatype EventKind = EntryCreate | EntryModify | EntryDelete

  datatype WatchEvent = WatchEvent(kind: EventKind, name: JString)

  /** What a watcher does with one event. */
  datatype Reaction =
    | NotRegistered      // the kind was not registered, so the event never arrives
    | Suppressed         // the name was just synced from the peer: skip it
    | SendFile(name: JString)
    | SendDelete(name: JString)

  /** The set of recently synced names (recentlySyncedFiles). */
  class EchoSuppressor {
    var names: set<JString>

    constructor ()
      ensures names == {}
    {
      names := {};
    }

    /** add: called right after a file is written or deleted for the peer. */
    method Mark(name: JString)
      modifies this
      ensures names == old(names) + {name}
    {
      names := names + {name};
    }

    /** remove: true exactly when the name was present, and it is gone
        afterwards, so each mark answers true once. */
    method Consume(name: JString) returns (hit: bool)
      modifies this
      ensures hit <==> name in old(names)
      ensures names == old(names) - {name}
    {
      hit := name in names;
      names := names - {name};
    }
  }

  /** One event handled by a watcher that registered the kinds in
      `registered`: a registered event for a marked name is skipped and
      consumes the mark; otherwise a create or modify sends the file and a
      delete sends a delete notice. */
  function React(registered: set<EventKind>, ev: WatchEvent, names: set<JString>): (r: (Reaction, set<JString>))
    ensures ev.kind !in registered ==> r == (NotRegistered, names)
    ensures ev.kind in registered ==> r.1 == names - {ev.name}
    ensures ev.kind in registered ==> (r.0 == Suppressed <==> ev.name in names)
    ensures ev.kind in registered && ev.name !in names ==>
      r.0 == (if ev.kind == EntryDelete then SendDelete(ev.name) else SendFile(ev.name))
    ensures r.0.SendFile? ==> r.0.name == ev.name && ev.kind in registered && ev.kind != EntryDelete
    ensures r.0.SendDelete? ==> r.0.name == ev.name && ev.kind == EntryDelete && ev.kind in registered
  {
    if ev.kind !in registered then (NotRegistered, names)
    else if ev.name in names then (Suppressed, names - {ev.name})
    else if ev.kind == EntryDelete then (SendDelete(ev.name), names)
    else (SendFile(ev.name), names)
  }

  /** A batch of events handled in order, each seeing the set as the
      previous ones left it. */
  function ReactAll(registered: set<EventKind>, events: seq<WatchEvent>, names: set<JString>): (r: (seq<Reaction>, set<JString>))
    ensures |r.0| == |events|
    ensures r.1 <= names
    ensures forall i :: 0 <= i < |events| && r.0[i].SendFile? ==>
      r.0[i].name == events[i].name && events[i].kind in registered && events[i].kind != EntryDelete
    ensures forall i :: 0 <= i < |events| && r.0[i].SendDelete? ==>
      r.0[i].name == events[i].name && events[i].kind == EntryDelete
    ensures forall i :: 0 <= i < |events| && r.0[i] == Suppressed ==> events[i].name in names
  {
    if events == [] then ([], names)
    else
      var (done, mid) := ReactAll(registered, events[..|events| - 1], names);
      var (last, final) := React(registered, events[|events| - 1], mid);
      (done + [last], final)
  }

  /** The watcher's loop over one batch of events (key.pollEvents()). */
  method PollEvents(registered: set<EventKind>, events: seq<WatchEvent>, recent: EchoSuppressor)
    returns (reactions: seq<Reaction>)
    modifies recent
    ensures (reactions, recent.names) == ReactAll(registered, events, old(recent.names))
  {
    reactions := [];
    for i := 0 to |events|
      invariant (reactions, recent.names) == ReactAll(registered, events[..i], old(recent.names))
    {
      var reaction := Handle(registered, events[i], recent);
      reactions := reactions + [reaction];
      assert events[..i + 1][..i] == events[..i];
    }
    assert events[..|events|] == events;
  }

  /** The body of the watcher's loop for one event. */
  method Handle(registered: set<EventKind>, ev: WatchEvent, recent: EchoSuppressor) returns (reaction: Reaction)
    modifies recent
    ensures (reaction, recent.names) == React(registered, ev, old(recent.names))
  {
    if ev.kind !in registered {
      reaction := NotRegistered;
    } else {
      var hit := recent.Consume(ev.name);
      if hit {
        reaction := Suppressed;
      } else if ev.kind == EntryDelete {
        reaction := SendDelete(ev.name);
      } else {
        reaction := SendFile(ev.name);
      }
    }
  }

  /** A mark suppresses exactly one event: of two registered events for a
      marked name, the first is skipped and the second is forwarded. */
  lemma SuppressionIsOneShot(registered: set<EventKind>, first: EventKind, second: EventKind, name: JString, names: set<JString>)
    requires first in registered && second in registered && name in names
    ensures ReactAll(registered, [WatchEvent(first, name), WatchEvent(second, name)], names).0
         == [Suppressed, if second == EntryDelete then SendDelete(name) else SendFile(name)]
  {
    var events := [WatchEvent(first, name), WatchEvent(second, name)];
    var one := [WatchEvent(first, name)];
    assert one[..0] == [];
    assert ReactAll(registered, one, names) == ([] + [Suppressed], names - {name});
    assert events[..1] == one;
  }

  /** A batch of events that are all unregistered, or all for names other
      than `name`, leaves the mark on `name` in place. */
  lemma {:induction false} MarkSurvives(registered: set<EventKind>, events: seq<WatchEvent>, names: set<JString>, name: JString)
    requires name in names
    requires forall i :: 0 <= i < |events| ==> events[i].kind !in registered || events[i].name != name
    ensures name in ReactAll(registered, events, names).1
  {
    if events != [] {
      var front := events[..|events| - 1];
      MarkSurvives(registered, front, names, name);
    }
  }

  /** Events of kinds the watcher did not register never reach it. */
  lemma {:induction false} UnregisteredIgnored(registered: set<EventKind>, events: seq<WatchEvent>, names: set<JString>)
    ensures var r := ReactAll(registered, events, names).0;
      forall i :: 0 <= i < |events| && events[i].kind !in registered ==> r[i] == NotRegistered
  {
    if events != [] {
      var front := events[..|events| - 1];
      UnregisteredIgnored(registered, front, names);
      var r := ReactAll(registered, events, names).0;
      forall i | 0 <= i < |events| && events[i].kind !in registered
        ensures r[i] == NotRegistered
      {
        if i < |front| {
          assert events[i] == front[i];
        }
      }
    }
  }
}
