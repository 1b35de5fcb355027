/**
What the pending-event queue leaves out (scripts/soul_controller.py: one_cycle): where every delivered or
waiting event stands among those reported, and exactly which reports were dropped.
*/
module EventCoalescing {
  import opened Incidents
  import opened IncidentRuns
  import opened EventQueue

  /** The place in the log of each event delivered or waiting, and how many events had been delivered when each
      event of the log was reported. */
  datatype History = History(at: seq<nat>, since: seq<nat>)

  /** The log grows by one report: it is queued unless its name waits. */
  function Placed(h: History, queue: seq<Event>, e: Event, delivered: nat): History {
    History(if Name(e) in Known(queue) then h.at else h.at + [|h.since|], h.since + [delivered])
  }

  function AllPlaced(h: History, queue: seq<Event>, events: seq<Event>, delivered: nat): History {
    if events == [] then h
    else
      var front := events[..|events| - 1];
      Placed(AllPlaced(h, queue, front, delivered), AllQueued(queue, front), events[|events| - 1], delivered)
  }

  ghost function HistoryOf(moves: seq<Move>): History
    requires WellMoved(moves)
  {
    if moves == [] then History([], [])
    else
      var front, last := moves[..|moves| - 1], moves[|moves| - 1];
      assert last.Observe? && last.step.Cycle? ==> last.step.findings.Keyed();
      var w, h := Reached(front), HistoryOf(front);
      if last.Analyse? then h else AllPlaced(h, w.pending, NewEvents(w.so, last.step), |w.delivered|)
  }

  /** Each event of out is the one at its place in the log, in the order of the log. */
  ghost predicate Embeds(out: seq<Event>, log: seq<Event>, at: seq<nat>) {
    && |at| == |out|
    && (forall i :: 0 <= i < |out| ==> at[i] < |log| && log[at[i]] == out[i])
    && (forall i, j :: 0 <= i < j < |out| ==> at[i] < at[j])
  }

  /** When report n of the log came in, an earlier one of that name was not yet delivered. */
  ghost predicate Waited(out: seq<Event>, h: History, n: nat, name: (Id, Kind))
    requires |h.at| == |out| && n < |h.since|
  {
    exists i :: h.since[n] <= i < |out| && h.at[i] < n && Name(out[i]) == name
  }

  /** Exactly the reports that found one of their name waiting are left out, and those are updates. */
  ghost predicate Coalesced(out: seq<Event>, log: seq<Event>, h: History) {
    && Embeds(out, log, h.at) && |h.since| == |log|
    && (forall n :: 0 <= n < |log| ==> (n in h.at <==> !Waited(out, h, n, Name(log[n]))))
    && (forall n :: 0 <= n < |log| && n !in h.at ==> log[n].kind == UpdatedEvent)
  }

  lemma {:induction false} WaitingName(delivered: seq<Event>, pending: seq<Event>, name: (Id, Kind))
    ensures name in Known(pending) <==>
            exists i :: |delivered| <= i < |delivered + pending| && Name((delivered + pending)[i]) == name
  {
    hide Known;
    KnownAre(pending, name);
    var out := delivered + pending;
    if name in Known(pending) {
      var e :| e in pending && Name(e) == name;
      var i :| 0 <= i < |pending| && pending[i] == e;
      assert out[|delivered| + i] == e;
    }
    if i :| |delivered| <= i < |out| && Name(out[i]) == name {
      assert out[i] == pending[i - |delivered|] && out[i] in pending;
    }
  }

  lemma EmbedsAppended(out: seq<Event>, log: seq<Event>, at: seq<nat>, e: Event)
    requires Embeds(out, log, at)
    ensures Embeds(out, log + [e], at) && Embeds(out + [e], log + [e], at + [|log|])
  {
  }

  /** What comes later in the log does not change who waited. */
  lemma WaitedStays(out: seq<Event>, h: History, out': seq<Event>, h': History, n: nat, name: (Id, Kind))
    requires |h.at| == |out| && |h'.at| == |out'| && n < |h.since| && out <= out' && h.at <= h'.at && h.since <= h'.since
    requires forall i :: |out| <= i < |out'| ==> h'.at[i] >= n
    ensures Waited(out', h', n, name) <==> Waited(out, h, n, name)
  {
    hide Name;
    if Waited(out', h', n, name) {
      var i :| h'.since[n] <= i < |out'| && h'.at[i] < n && Name(out'[i]) == name;
      assert i < |out| && out[i] == out'[i] && h.at[i] == h'.at[i];
    }
    if Waited(out, h, n, name) {
      var i :| h.since[n] <= i < |out| && h.at[i] < n && Name(out[i]) == name;
      assert out[i] == out'[i] && h.at[i] == h'.at[i];
    }
  }

  lemma CoalescedAppended(out: seq<Event>, log: seq<Event>, h: History, e: Event, delivered: nat, taken: bool)
    requires Coalesced(out, log, h) && (e.kind != UpdatedEvent ==> taken)
    requires taken <==> !exists i :: delivered <= i < |out| && Name(out[i]) == Name(e)
    ensures Coalesced(if taken then out + [e] else out, log + [e],
                      History(if taken then h.at + [|log|] else h.at, h.since + [delivered]))
  {
    hide Embeds, Name, Waited;
    EmbedsAppended(out, log, h.at, e);
    var out', log' := if taken then out + [e] else out, log + [e];
    var h' := History(if taken then h.at + [|log|] else h.at, h.since + [delivered]);
    EmbeddedPlaces(out, log, h.at);
    forall n | 0 <= n < |log|
      ensures n in h'.at <==> !Waited(out', h', n, Name(log'[n]))
      ensures n !in h'.at ==> log'[n].kind == UpdatedEvent
    {
      assert n in h'.at <==> n in h.at;
      assert log'[n] == log[n];
      WaitedStays(out, h, out', h', n, Name(log[n]));
    }
    LastWaited(out, log, h, e, delivered, taken);
  }

  lemma LastWaited(out: seq<Event>, log: seq<Event>, h: History, e: Event, delivered: nat, taken: bool)
    requires Embeds(out, log, h.at) && |h.since| == |log|
    requires taken <==> !exists i :: delivered <= i < |out| && Name(out[i]) == Name(e)
    ensures var out' := if taken then out + [e] else out;
            var h' := History(if taken then h.at + [|log|] else h.at, h.since + [delivered]);
            |h'.at| == |out'| && (|log| in h'.at <==> taken) && (!Waited(out', h', |log|, Name(e)) <==> taken)
  {
    hide Embeds, Name;
    EmbeddedPlaces(out, log, h.at);
    var out' := if taken then out + [e] else out;
    var h' := History(if taken then h.at + [|log|] else h.at, h.since + [delivered]);
    if taken {
      assert h'.at[|h.at|] == |log|;
    } else {
      var i :| delivered <= i < |out| && Name(out[i]) == Name(e);
      assert h'.at[i] < |log|;
    }
  }

  lemma EmbeddedPlaces(out: seq<Event>, log: seq<Event>, at: seq<nat>)
    requires Embeds(out, log, at)
    ensures |at| == |out| && forall i :: 0 <= i < |at| ==> at[i] < |log|
    ensures |log| !in at
  {
  }

  lemma QueuedCoalesces(delivered: seq<Event>, pending: seq<Event>, log: seq<Event>, h: History, e: Event)
    requires Coalesced(delivered + pending, log, h) && Faithful(delivered + pending, log) && Plotted(log + [e])
    ensures Coalesced(delivered + Queued(pending, e), log + [e], Placed(h, pending, e, |delivered|))
  {
    hide Coalesced, Known, Faithful, Plot, Trace;
    CoalescedSizes(delivered + pending, log, h);
    WaitingName(delivered, pending, Name(e));
    assert Plot(Trace(log + [e], e.incident.id));
    if e.kind != UpdatedEvent {
      TurnIsNew(delivered, pending, log, e);
    }
    assert delivered + (pending + [e]) == (delivered + pending) + [e];
    CoalescedAppended(delivered + pending, log, h, e, |delivered|, Name(e) !in Known(pending));
  }

  lemma CoalescedSizes(out: seq<Event>, log: seq<Event>, h: History)
    requires Coalesced(out, log, h)
    ensures |h.since| == |log|
  {
  }

  lemma {:induction false} AllQueuedCoalesces(delivered: seq<Event>, pending: seq<Event>, log: seq<Event>, h: History,
                                              events: seq<Event>)
    requires Coalesced(delivered + pending, log, h) && Faithful(delivered + pending, log) && Plotted(log + events)
    ensures Coalesced(delivered + AllQueued(pending, events), log + events, AllPlaced(h, pending, events, |delivered|))
    decreases |events|
  {
    hide Faithful, Plotted, Coalesced, Queued, Placed;
    if events == [] {
      assert log + events == log;
    } else {
      var front, last := events[..|events| - 1], events[|events| - 1];
      assert log + events == (log + front) + [last];
      PlottedPrefix(log + front, [last]);
      AllQueuedCoalesces(delivered, pending, log, h, front);
      AllQueuedFaithful(delivered, pending, log, front);
      QueuedCoalesces(delivered, AllQueued(pending, front), log + front, AllPlaced(h, pending, front, |delivered|), last);
    }
  }

  /** Main result: over any interleaving of cycles, compactions and analyses, what was delivered followed by what
      waits is a subsequence of what was reported, and a report is missing exactly when one of the same incident
      and kind, reported before it, was still waiting; only updates are ever missing. */
  lemma {:induction false} QueueCoalescesUpdates(moves: seq<Move>)
    requires WellMoved(moves)
    ensures var w := Reached(moves); Coalesced(w.delivered + w.pending, w.so.events, HistoryOf(moves))
  {
    hide Stepped, AllQueued, NewEvents, AllLived, Plotted, Faithful, Coalesced, AllPlaced;
    if moves == [] {
      NothingCoalesced();
    } else {
      var front, last := moves[..|moves| - 1], moves[|moves| - 1];
      var w := Reached(front);
      QueueCoalescesUpdates(front);
      QueueIsFaithful(front);
      match last
      case Analyse =>
        if w.pending != [] {
          assert w.delivered + w.pending == (w.delivered + [w.pending[0]]) + w.pending[1..];
        }
      case Observe(step) =>
        SameBook(moves);
        IncidentsLive(BookSteps(moves));
        LivedPlotted(Reached(moves).so);
        SteppedEvents(w.so, step);
        AllQueuedCoalesces(w.delivered, w.pending, w.so.events, HistoryOf(front), NewEvents(w.so, step));
    }
  }

  lemma NothingCoalesced()
    ensures Coalesced([] + [], [], History([], []))
  {
  }
}
