/**
The pending-event queue between the incident book and the analysis (scripts/soul_controller.py:
one_cycle). A report is queued unless an event of the same incident and kind is already waiting; events
leave the queue from the front once their journal record is written.
*/
module EventQueue {
  import opened Incidents
  import opened IncidentRuns

  /** The (id, event) pairs waiting. */
  function Known(queue: seq<Event>): set<(Id, Kind)> {
    if queue == [] then {}
    else Known(queue[..|queue| - 1]) + {Name(queue[|queue| - 1])}
  }

  function Name(e: Event): (Id, Kind) {
    (e.incident.id, e.kind)
  }

  function Queued(queue: seq<Event>, e: Event): seq<Event> {
    if Name(e) in Known(queue) then queue else queue + [e]
  }

  function AllQueued(queue: seq<Event>, events: seq<Event>): seq<Event> {
    if events == [] then queue
    else Queued(AllQueued(queue, events[..|events| - 1]), events[|events| - 1])
  }

  lemma {:induction false} KnownAre(queue: seq<Event>, name: (Id, Kind))
    ensures name in Known(queue) <==> exists e :: e in queue && Name(e) == name
  {
    if queue != [] {
      var front, last := queue[..|queue| - 1], queue[|queue| - 1];
      KnownAre(front, name);
      assert queue == front + [last];
    }
  }

  lemma {:induction false} KnownSnoc(queue: seq<Event>, e: Event)
    ensures Known(queue + [e]) == Known(queue) + {Name(e)}
  {
    assert (queue + [e])[..|queue|] == queue;
  }

  class Queue {
    var pending: seq<Event>

    constructor ()
      ensures pending == []
    {
      pending := [];
    }

    method Report(events: seq<Event>)
      modifies this
      ensures pending == AllQueued(old(pending), events)
    {
      var known: set<(Id, Kind)> := {};
      for n := 0 to |pending|
        invariant pending == old(pending) && known == Known(pending[..n])
      {
        KnownSnoc(pending[..n], pending[n]);
        assert pending[..n + 1] == pending[..n] + [pending[n]];
        known := known + {Name(pending[n])};
      }
      assert pending[..|pending|] == pending;
      for n := 0 to |events|
        invariant pending == AllQueued(old(pending), events[..n]) && known == Known(pending)
      {
        assert events[..n + 1][..n] == events[..n];
        KnownSnoc(pending, events[n]);
        if Name(events[n]) !in known {
          pending := pending + [events[n]];
          known := known + {Name(events[n])};
        }
      }
      assert events[..|events|] == events;
    }

    /** The head of the queue, once its record is in the journal. */
    method Pop() returns (e: Event)
      requires pending != []
      modifies this
      ensures e == old(pending)[0] && pending == old(pending)[1..]
    {
      e := pending[0];
      pending := pending[1..];
    }
  }

  // ------------------------------------------------------------------ runs

  /** A cycle of the book or a compaction, or one analysed event. */
  datatype Move = Observe(step: Step) | Analyse

  datatype World = World(so: Outcome, pending: seq<Event>, delivered: seq<Event>)

  ghost predicate WellMoved(moves: seq<Move>) {
    forall n :: 0 <= n < |moves| && moves[n].Observe? && moves[n].step.Cycle? ==> moves[n].step.findings.Keyed()
  }

  ghost function Moved(w: World, move: Move): World
    requires move.Observe? && move.step.Cycle? ==> move.step.findings.Keyed()
  {
    match move
    case Observe(step) =>
      var so := Stepped(w.so, step);
      World(so, AllQueued(w.pending, NewEvents(w.so, step)), w.delivered)
    case Analyse =>
      if w.pending == [] then w else World(w.so, w.pending[1..], w.delivered + [w.pending[0]])
  }

  ghost function NewEvents(so: Outcome, step: Step): seq<Event>
    requires step.Cycle? ==> step.findings.Keyed()
  {
    if step.Compaction? then [] else Reconciled(so.book, step.findings, step.now, step.snapshot).events
  }

  ghost function Reached(moves: seq<Move>): World
    requires WellMoved(moves)
  {
    if moves == [] then World(Outcome(EMPTY, []), [], [])
    else
      var last := moves[|moves| - 1];
      assert last.Observe? && last.step.Cycle? ==> last.step.findings.Keyed();
      Moved(Reached(moves[..|moves| - 1]), last)
  }

  ghost function Analysed(w: World, n: nat): World {
    if n == 0 then w else Moved(Analysed(w, n - 1), Analyse)
  }

  /** Analysing n times delivers the n events that have waited longest, in order, and reports nothing. */
  lemma {:induction false} AnalysingDelivers(w: World, n: nat)
    requires n <= |w.pending|
    ensures Analysed(w, n) == World(w.so, w.pending[n..], w.delivered + w.pending[..n])
  {
    if n == 0 {
      assert w.pending[0..] == w.pending && w.delivered + w.pending[..0] == w.delivered;
    } else {
      AnalysingDelivers(w, n - 1);
      assert w.pending[..n] == w.pending[..n - 1] + [w.pending[n - 1]];
      assert (w.delivered + w.pending[..n - 1]) + [w.pending[n - 1]] == w.delivered + w.pending[..n];
    }
  }

  // ------------------------------------------------------------------ what the queue keeps

  /** Opened first, recovered last. */
  ghost predicate Plot(trace: seq<Event>) {
    trace != [] ==>
      && trace[0].kind == OpenedEvent
      && (forall j :: 0 < j < |trace| ==> trace[j].kind != OpenedEvent)
      && (forall j :: 0 <= j < |trace| - 1 ==> trace[j].kind != RecoveredEvent)
  }

  predicate Finished(trace: seq<Event>) {
    trace != [] && trace[|trace| - 1].kind == RecoveredEvent
  }

  /** The events of one incident in the queue tell the same story as those reported. */
  ghost predicate Agree(out: seq<Event>, log: seq<Event>) {
    (out == [] <==> log == []) && Plot(out) && (Finished(out) <==> Finished(log))
  }

  /** The openings and recoveries. */
  function Turns(events: seq<Event>): seq<Event> {
    if events == [] then []
    else Turns(events[..|events| - 1]) + if events[|events| - 1].kind != UpdatedEvent then [events[|events| - 1]] else []
  }

  ghost predicate Faithful(out: seq<Event>, log: seq<Event>) {
    Turns(out) == Turns(log) && forall id :: Agree(Trace(out, id), Trace(log, id))
  }

  predicate NoDuplicates(queue: seq<Event>) {
    forall i, j :: 0 <= i < j < |queue| ==> Name(queue[i]) != Name(queue[j])
  }

  ghost predicate Plotted(log: seq<Event>) {
    forall id :: Plot(Trace(log, id))
  }

  lemma {:induction false} TurnsSnoc(events: seq<Event>, e: Event)
    ensures Turns(events + [e]) == Turns(events) + if e.kind != UpdatedEvent then [e] else []
  {
    assert (events + [e])[..|events|] == events;
  }

  lemma {:induction false} TraceHas(log: seq<Event>, e: Event)
    requires e in log
    ensures e in Trace(log, e.incident.id)
  {
    var front, last := log[..|log| - 1], log[|log| - 1];
    assert log == front + [last];
    if e != last {
      TraceHas(front, e);
    }
  }

  lemma TurnIsLast(out: seq<Event>, log: seq<Event>, e: Event)
    requires Agree(out, log) && Plot(log + [e]) && e.kind != UpdatedEvent
    ensures forall e' :: e' in out ==> e'.kind != e.kind
  {
    assert (log + [e])[|log|] == e;
    if e.kind == RecoveredEvent && log != [] {
      assert (log + [e])[|log| - 1] == log[|log| - 1];
    }
  }

  /** An opening or a recovery is never already waiting. */
  lemma {:induction false} TurnIsNew(delivered: seq<Event>, pending: seq<Event>, log: seq<Event>, e: Event)
    requires Faithful(delivered + pending, log) && Plot(Trace(log + [e], e.incident.id)) && e.kind != UpdatedEvent
    ensures Name(e) !in Known(pending)
  {
    hide Agree, Plot, Turns, Trace;
    var id := e.incident.id;
    var trace, out := Trace(log, id), Trace(delivered + pending, id);
    TraceSnoc(log, e, id);
    assert Agree(out, trace);
    TurnIsLast(out, trace, e);
    KnownAre(pending, Name(e));
    forall e' | e' in pending ensures Name(e') != Name(e) {
      TraceHas(delivered + pending, e');
    }
  }

  lemma AgreeAppended(out: seq<Event>, log: seq<Event>, e: Event, taken: bool)
    requires Agree(out, log) && Plot(log + [e]) && (e.kind != UpdatedEvent ==> taken)
    ensures Agree(if taken then out + [e] else out, log + [e])
  {
    var longer := log + [e];
    assert longer[|log|] == e;
    if log != [] {
      assert longer[|log| - 1] == log[|log| - 1];
    }
  }

  lemma QueuedFaithful(delivered: seq<Event>, pending: seq<Event>, log: seq<Event>, e: Event)
    requires Faithful(delivered + pending, log) && Plotted(log + [e])
    ensures Faithful(delivered + Queued(pending, e), log + [e])
  {
    hide Agree, Plot, Known, Trace, Turns;
    var out := delivered + pending;
    var taken := Name(e) !in Known(pending);
    assert delivered + (pending + [e]) == out + [e];
    assert Plot(Trace(log + [e], e.incident.id));
    if e.kind != UpdatedEvent {
      TurnIsNew(delivered, pending, log, e);
    }
    TurnsSnoc(log, e);
    TurnsSnoc(out, e);
    assert Turns(out) + [] == Turns(out);
    forall id ensures Agree(Trace(if taken then out + [e] else out, id), Trace(log + [e], id)) {
      assert Agree(Trace(out, id), Trace(log, id)) && Plot(Trace(log + [e], id));
      TraceSnoc(log, e, id);
      TraceSnoc(out, e, id);
      if e.incident.id == id {
        AgreeAppended(Trace(out, id), Trace(log, id), e, taken);
      } else {
        assert Trace(out, id) + [] == Trace(out, id) && Trace(log, id) + [] == Trace(log, id);
      }
    }
  }

  lemma {:induction false} TracePrefix(log: seq<Event>, more: seq<Event>, id: Id)
    ensures Trace(log, id) <= Trace(log + more, id)
    decreases |more|
  {
    if more == [] {
      assert log + more == log;
    } else {
      var front := more[..|more| - 1];
      TracePrefix(log, front, id);
      assert log + more == (log + front) + [more[|more| - 1]];
      TraceSnoc(log + front, more[|more| - 1], id);
    }
  }

  lemma PlotPrefix(a: seq<Event>, b: seq<Event>)
    requires a <= b && Plot(b)
    ensures Plot(a)
  {
  }

  lemma PlottedPrefix(log: seq<Event>, more: seq<Event>)
    requires Plotted(log + more)
    ensures Plotted(log)
  {
    hide Plot;
    forall id ensures Plot(Trace(log, id)) {
      TracePrefix(log, more, id);
      PlotPrefix(Trace(log, id), Trace(log + more, id));
    }
  }

  lemma {:induction false} AllQueuedFaithful(delivered: seq<Event>, pending: seq<Event>, log: seq<Event>, events: seq<Event>)
    requires Faithful(delivered + pending, log) && Plotted(log + events)
    ensures Faithful(delivered + AllQueued(pending, events), log + events)
    decreases |events|
  {
    hide Faithful, Plotted, Queued;
    if events == [] {
      assert log + events == log;
    } else {
      var front, last := events[..|events| - 1], events[|events| - 1];
      assert log + events == (log + front) + [last];
      PlottedPrefix(log + front, [last]);
      AllQueuedFaithful(delivered, pending, log, front);
      QueuedFaithful(delivered, AllQueued(pending, front), log + front, last);
    }
  }

  lemma {:induction false} AllQueuedDistinct(queue: seq<Event>, events: seq<Event>)
    requires NoDuplicates(queue)
    ensures NoDuplicates(AllQueued(queue, events))
    decreases |events|
  {
    if events != [] {
      var front, last := events[..|events| - 1], events[|events| - 1];
      AllQueuedDistinct(queue, front);
      KnownAre(AllQueued(queue, front), Name(last));
    }
  }

  lemma LivedPlotted(so: Outcome)
    requires AllLived(so)
    ensures Plotted(so.events)
  {
    forall id ensures Plot(Trace(so.events, id)) {
      assert Lived(so, id);
    }
  }

  lemma SteppedEvents(so: Outcome, step: Step)
    requires step.Cycle? ==> step.findings.Keyed()
    ensures Stepped(so, step).events == so.events + NewEvents(so, step)
  {
  }

  /** The book's own steps in a history of moves. */
  ghost function BookSteps(moves: seq<Move>): (steps: seq<Step>)
    requires WellMoved(moves)
    ensures Wellformed(steps)
  {
    if moves == [] then []
    else
      var last := moves[|moves| - 1];
      assert last.Observe? && last.step.Cycle? ==> last.step.findings.Keyed();
      BookSteps(moves[..|moves| - 1]) + if last.Observe? then [last.step] else []
  }

  lemma {:induction false} SameBook(moves: seq<Move>)
    requires WellMoved(moves)
    ensures Reached(moves).so == After(BookSteps(moves))
  {
    hide Stepped, AllQueued, NewEvents;
    if moves != [] {
      var front, last := moves[..|moves| - 1], moves[|moves| - 1];
      SameBook(front);
      if last.Observe? {
        assert (BookSteps(front) + [last.step])[..|BookSteps(front)|] == BookSteps(front);
      } else {
        assert BookSteps(front) + [] == BookSteps(front);
      }
    }
  }

  /** Main result: over any interleaving of cycles, compactions and analyses, the queue never holds an
      incident's event kind twice, and what was delivered followed by what waits is what was reported minus
      coalesced updates: every opening and recovery once, in order, each incident's opening before its
      recovery. */
  lemma {:induction false} QueueIsFaithful(moves: seq<Move>)
    requires WellMoved(moves)
    ensures var w := Reached(moves);
            && NoDuplicates(w.pending)
            && Faithful(w.delivered + w.pending, w.so.events)
  {
    hide Stepped, AllQueued, NewEvents, AllLived, Plotted, Faithful;
    if moves == [] {
      NothingYet();
    } else {
      var front, last := moves[..|moves| - 1], moves[|moves| - 1];
      var w := Reached(front);
      QueueIsFaithful(front);
      match last
      case Analyse =>
        if w.pending != [] {
          assert w.delivered + w.pending == (w.delivered + [w.pending[0]]) + w.pending[1..];
        }
      case Observe(step) =>
        SameBook(moves);
        IncidentsLive(BookSteps(moves));
        LivedPlotted(Reached(moves).so);
        SteppedEvents(w.so, step);
        AllQueuedFaithful(w.delivered, w.pending, w.so.events, NewEvents(w.so, step));
        AllQueuedDistinct(w.pending, NewEvents(w.so, step));
    }
  }

  lemma NothingYet()
    ensures Faithful([], []) && Faithful([] + [], [])
  {
  }

  lemma PlotStart(before: seq<Event>, e: Event, after: seq<Event>)
    requires Plot((before + [e]) + after) && e.kind == OpenedEvent
    ensures before == []
  {
    assert ((before + [e]) + after)[|before|] == e;
  }

  /** Nothing of an incident comes before its opening. */
  lemma {:induction false} OpeningIsFirst(out: seq<Event>, i: nat, j: nat)
    requires j < i < |out| && Plot(Trace(out, out[i].incident.id)) && out[i].kind == OpenedEvent
    ensures out[j].incident.id != out[i].incident.id
  {
    hide Plot, Trace;
    var id := out[i].incident.id;
    var upTo, later := out[..i], out[i + 1..];
    assert out == (upTo + [out[i]]) + later;
    TracePrefix(upTo + [out[i]], later, id);
    TraceSnoc(upTo, out[i], id);
    var before := Trace(upTo, id);
    var after := Trace(out, id)[|before| + 1..];
    assert Trace(out, id) == (before + [out[i]]) + after;
    PlotStart(before, out[i], after);
    if out[j].incident.id == id {
      assert out[j] == upTo[j];
      TraceHas(upTo, out[j]);
    }
  }

  /** An incident's updates and its recovery are delivered after its opening. */
  lemma {:induction false} DeliveryOrder(moves: seq<Move>, i: nat, j: nat)
    requires WellMoved(moves)
    requires var out := Reached(moves).delivered + Reached(moves).pending;
             i < |out| && j < |out| && out[i].incident.id == out[j].incident.id
             && out[i].kind == OpenedEvent && out[j].kind != OpenedEvent
    ensures i < j
  {
    hide Reached, Turns, Trace, Plot;
    var out := Reached(moves).delivered + Reached(moves).pending;
    QueueIsFaithful(moves);
    var id := out[i].incident.id;
    assert Agree(Trace(out, id), Trace(Reached(moves).so.events, id));
    if j < i {
      OpeningIsFirst(out, i, j);
    }
  }
}
