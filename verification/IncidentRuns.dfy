/**
Whole runs of the incident book, with compaction anywhere between cycles: what the history of findings
says about counters and open incidents, and the story each incident's events tell.
*/
module IncidentRuns {
  import opened Options
  import opened Incidents

  datatype Step = Cycle(findings: Dict<Finding>, now: int, snapshot: string) | Compaction

  ghost predicate Wellformed(steps: seq<Step>) {
    forall n :: 0 <= n < |steps| && steps[n].Cycle? ==> steps[n].findings.Keyed()
  }

  ghost function Stepped(so: Outcome, step: Step): Outcome
    requires step.Cycle? ==> step.findings.Keyed()
  {
    match step
    case Compaction => Outcome(Compacted(so.book), so.events)
    case Cycle(findings, now, snapshot) => Then(so, Reconciled(so.book, findings, now, snapshot))
  }

  /** The book and everything it has reported. */
  ghost function After(steps: seq<Step>): Outcome
    requires Wellformed(steps)
  {
    if steps == [] then Outcome(EMPTY, [])
    else
      assert steps[|steps| - 1].Cycle? ==> steps[|steps| - 1].findings.Keyed();
      Stepped(After(steps[..|steps| - 1]), steps[|steps| - 1])
  }

  lemma {:induction false} AfterValid(steps: seq<Step>)
    requires Wellformed(steps)
    ensures Valid(After(steps).book)
  {
    hide Reconciled, Compacted;
    if steps != [] {
      var last := steps[|steps| - 1];
      var so := After(steps[..|steps| - 1]);
      AfterValid(steps[..|steps| - 1]);
      match last
      case Compaction => CompactedValid(so.book);
      case Cycle(findings, now, snapshot) => ReconciledValid(so.book, findings, now, snapshot);
    }
  }

  // ------------------------------------------------------------------ counters and openings

  predicate Reported(step: Step, k: Key) {
    step.Cycle? && k in step.findings.at
  }

  /** How many cycles in a row, up to now, reported k. */
  function Streak(steps: seq<Step>, k: Key): nat {
    if steps == [] then 0
    else
      var front, last := steps[..|steps| - 1], steps[|steps| - 1];
      if last.Compaction? then Streak(front, k)
      else if Reported(last, k) then Streak(front, k) + 1
      else 0
  }

  /** Somewhere in the current streak the failure count reached what that finding requires. */
  predicate Breached(steps: seq<Step>, k: Key) {
    steps != [] &&
    var front, last := steps[..|steps| - 1], steps[|steps| - 1];
    if last.Compaction? then Breached(front, k)
    else Reported(last, k) && (Breached(front, k) || Streak(steps, k) >= last.findings.at[k].requires_)
  }

  lemma FailedChecks(b: Book, k: Key, f: Finding, now: int, snapshot: string, other: Key)
    ensures var b' := Failed(b, k, f, now, snapshot).book;
            if other != k then CheckOf(b', other) == CheckOf(b, other)
            else
              && CheckOf(b', k).failures == CheckOf(b, k).failures + 1
              && (CheckOf(b', k).incidentId.Some? <==>
                  CheckOf(b, k).incidentId.Some? || CheckOf(b, k).failures + 1 >= f.requires_)
  {
  }

  lemma {:induction false} FailedUpToChecks(b: Book, findings: Dict<Finding>, n: nat, now: int, snapshot: string, k: Key)
    requires findings.Keyed() && n <= |findings.keys|
    ensures var b' := FailedUpTo(b, findings, n, now, snapshot).book;
            if k !in findings.keys[..n] then CheckOf(b', k) == CheckOf(b, k)
            else
              && CheckOf(b', k).failures == CheckOf(b, k).failures + 1
              && (CheckOf(b', k).incidentId.Some? <==>
                  CheckOf(b, k).incidentId.Some? || CheckOf(b, k).failures + 1 >= findings.at[k].requires_)
  {
    hide Failed, CheckOf;
    if n > 0 {
      FailedUpToChecks(b, findings, n - 1, now, snapshot, k);
      var key := findings.keys[n - 1];
      assert findings.keys[..n] == findings.keys[..n - 1] + [key];
      FailedChecks(FailedUpTo(b, findings, n - 1, now, snapshot).book, key, findings.at[key], now, snapshot, k);
    }
  }

  lemma ClearedChecks(b: Book, k: Key, now: int, snapshot: string, other: Key)
    ensures var b' := Cleared(b, k, now, snapshot).book;
            if other != k then CheckOf(b', other) == CheckOf(b, other)
            else CheckOf(b', k).failures == 0 && CheckOf(b', k).incidentId.None?
  {
  }

  lemma {:induction false} ClearedUpToChecks(b: Book, keys: seq<Key>, active: set<Key>, n: nat, now: int, snapshot: string,
                                             k: Key)
    requires n <= |keys|
    ensures var b' := ClearedUpTo(b, keys, active, n, now, snapshot).book;
            if k in keys[..n] && k !in active then CheckOf(b', k).failures == 0 && CheckOf(b', k).incidentId.None?
            else CheckOf(b', k) == CheckOf(b, k)
  {
    hide Cleared, CheckOf;
    if n > 0 {
      ClearedUpToChecks(b, keys, active, n - 1, now, snapshot, k);
      assert keys[..n] == keys[..n - 1] + [keys[n - 1]];
      ClearedChecks(ClearedUpTo(b, keys, active, n - 1, now, snapshot).book, keys[n - 1], now, snapshot, k);
    }
  }

  lemma ReconciledChecks(b: Book, findings: Dict<Finding>, now: int, snapshot: string, k: Key)
    requires findings.Keyed() && Valid(b)
    ensures var b' := Reconciled(b, findings, now, snapshot).book;
            if k !in findings.at then CheckOf(b', k).failures == 0 && CheckOf(b', k).incidentId.None?
            else
              && CheckOf(b', k).failures == CheckOf(b, k).failures + 1
              && (CheckOf(b', k).incidentId.Some? <==>
                  CheckOf(b, k).incidentId.Some? || CheckOf(b, k).failures + 1 >= findings.at[k].requires_)
  {
    hide FailedUpTo, ClearedUpTo, Carried, Owned;
    var n := |findings.keys|;
    var failed := FailedUpTo(b, findings, n, now, snapshot).book;
    FailedUpToChecks(b, findings, n, now, snapshot, k);
    FailedUpToValid(b, findings, n, now, snapshot);
    ClearedUpToChecks(failed, failed.checks.keys, findings.at.Keys, |failed.checks.keys|, now, snapshot, k);
    assert findings.keys[..n] == findings.keys;
    assert failed.checks.keys[..|failed.checks.keys|] == failed.checks.keys;
  }

  lemma CompactedChecks(b: Book, k: Key)
    requires Valid(b)
    ensures CheckOf(Compacted(b), k).failures == CheckOf(b, k).failures
    ensures CheckOf(Compacted(b), k).incidentId == CheckOf(b, k).incidentId
    ensures CheckOf(b, k).incidentId.Some? ==> CheckOf(Compacted(b), k) == CheckOf(b, k)
  {
    assert Carried(b, k);
  }

  /** Main result: a failure counter is the length of the current streak of findings, and a check carries
      an open incident exactly when that streak has reached what its finding requires. */
  lemma {:induction false} CountersFollowHistory(steps: seq<Step>, k: Key)
    requires Wellformed(steps)
    ensures CheckOf(After(steps).book, k).failures == Streak(steps, k)
    ensures CheckOf(After(steps).book, k).incidentId.Some? <==> Breached(steps, k)
  {
    hide Reconciled, Compacted, Valid, CheckOf;
    if steps == [] {
      Fresh(k);
    } else {
      var front, last := steps[..|steps| - 1], steps[|steps| - 1];
      CountersFollowHistory(front, k);
      AfterValid(front);
      match last
      case Compaction => CompactedChecks(After(front).book, k);
      case Cycle(findings, now, snapshot) =>
        ReconciledChecks(After(front).book, findings, now, snapshot, k);
    }
  }

  lemma Fresh(k: Key)
    ensures CheckOf(EMPTY, k) == Check(0, None, 0)
  {
  }

  // ------------------------------------------------------------------ the story of one incident

  /** The events of one incident, in the order they were reported. */
  function Trace(log: seq<Event>, id: Id): seq<Event> {
    if log == [] then []
    else Trace(log[..|log| - 1], id) + if log[|log| - 1].incident.id == id then [log[|log| - 1]] else []
  }

  predicate IsOpen(b: Book, id: Id) {
    id in b.incidents && b.incidents[id].state == Open
  }

  /** opened, then updates at least the coalescing interval apart, then possibly one recovery. */
  ghost predicate Story(trace: seq<Event>, open: bool) {
    && trace != []
    && trace[0].kind == OpenedEvent
    && (forall j :: 0 < j < |trace| ==> trace[j].kind != OpenedEvent)
    && (forall j :: 0 <= j < |trace| - 1 ==> trace[j].kind != RecoveredEvent)
    && (open <==> trace[|trace| - 1].kind != RecoveredEvent)
    && (forall j :: 0 < j < |trace| && trace[j].kind == UpdatedEvent ==> trace[j].at - trace[j - 1].at >= COALESCE)
    && (forall j :: 0 <= j < |trace| ==> trace[j].incident.fingerprint == trace[0].incident.fingerprint)
  }

  ghost predicate Lived(so: Outcome, id: Id) {
    var trace := Trace(so.events, id);
    if id >= so.book.next then trace == []
    else
      && Story(trace, IsOpen(so.book, id))
      && (IsOpen(so.book, id) ==>
            && so.book.incidents[id].fingerprint == trace[0].incident.fingerprint
            && CheckOf(so.book, so.book.incidents[id].fingerprint).lastPostedAt == trace[|trace| - 1].at)
  }

  ghost predicate AllLived(so: Outcome) {
    Valid(so.book) && forall id :: Lived(so, id)
  }

  lemma {:induction false} TraceSnoc(log: seq<Event>, e: Event, id: Id)
    ensures Trace(log + [e], id) == Trace(log, id) + if e.incident.id == id then [e] else []
  {
    assert (log + [e])[..|log|] == log;
  }

  lemma StoryGoesOn(trace: seq<Event>, e: Event)
    requires Story(trace, true) && e.kind != OpenedEvent && e.incident.fingerprint == trace[0].incident.fingerprint
    requires e.kind == UpdatedEvent ==> e.at - trace[|trace| - 1].at >= COALESCE
    ensures Story(trace + [e], e.kind != RecoveredEvent)
  {
    var longer := trace + [e];
    forall j | 0 < j < |longer| && longer[j].kind == UpdatedEvent ensures longer[j].at - longer[j - 1].at >= COALESCE {
      if j < |trace| {
        assert longer[j] == trace[j] && longer[j - 1] == trace[j - 1];
      }
    }
  }

  /** A step that reports nothing about an incident and keeps what its story depends on. */
  lemma {:induction false} QuietLived(so: Outcome, b': Book, log': seq<Event>, id: Id)
    requires Lived(so, id) && (id < so.book.next <==> id < b'.next) && Trace(log', id) == Trace(so.events, id)
    requires id < b'.next ==> IsOpen(b', id) == IsOpen(so.book, id)
    requires id < b'.next && IsOpen(b', id) && IsOpen(so.book, id) ==>
               var k := so.book.incidents[id].fingerprint;
               b'.incidents[id].fingerprint == k && CheckOf(b', k).lastPostedAt == CheckOf(so.book, k).lastPostedAt
    ensures Lived(Outcome(b', log'), id)
  {
    hide Story, CheckOf, Trace;
  }

  lemma NoEvents(so: Outcome, o: Outcome)
    requires o.events == []
    ensures Then(so, o) == Outcome(o.book, so.events)
  {
  }

  lemma StoryBegins(e: Event)
    requires e.kind == OpenedEvent
    ensures Story([e], true)
  {
  }

  /** A finding leaves every incident but the one of its fingerprint alone. */
  lemma FailedElse(b: Book, k: Key, f: Finding, now: int, snapshot: string, id: Id)
    requires Valid(b) && id != b.next && CheckOf(b, k).incidentId != Some(id)
    ensures var b' := Failed(b, k, f, now, snapshot).book;
            && IsOpen(b', id) == IsOpen(b, id)
            && (IsOpen(b, id) ==>
                  var other := b.incidents[id].fingerprint;
                  b'.incidents[id] == b.incidents[id] && CheckOf(b', other) == CheckOf(b, other))
  {
    assert Owned(b, id);
  }

  /** What a finding does to the open incident of its fingerprint. */
  lemma FailedHere(b: Book, k: Key, f: Finding, now: int, snapshot: string, id: Id)
    requires Valid(b) && CheckOf(b, k).incidentId == Some(id)
    ensures var o := Failed(b, k, f, now, snapshot);
            && IsOpen(b, id) && b.incidents[id].fingerprint == k && id < b.next
            && IsOpen(o.book, id) && o.book.incidents[id].fingerprint == k && o.book.next == b.next
            && (Updates(b, k, now) ==> CheckOf(o.book, k).lastPostedAt == now)
            && (!Updates(b, k, now) ==> CheckOf(o.book, k).lastPostedAt == CheckOf(b, k).lastPostedAt)
            && (Updates(b, k, now) ==>
                  now - CheckOf(b, k).lastPostedAt >= COALESCE && o.events == [Event(UpdatedEvent, now, o.book.incidents[id])])
            && (!Updates(b, k, now) ==> o.events == [])
  {
    assert Carried(b, k) && Owned(b, id);
  }

  /** What a finding that opens does. */
  lemma FailedOpens(b: Book, k: Key, f: Finding, now: int, snapshot: string)
    requires Opens(b, k, f)
    ensures var o := Failed(b, k, f, now, snapshot);
            && o.book.next == b.next + 1 && IsOpen(o.book, b.next)
            && o.book.incidents[b.next] == Raised(b.next, k, f, now, snapshot)
            && CheckOf(o.book, k).lastPostedAt == now
            && o.events == [Event(OpenedEvent, now, Raised(b.next, k, f, now, snapshot))]
  {
  }

  /** A finding reports at most one event, about its own fingerprint's incident or a new one. */
  lemma FailedNames(b: Book, k: Key, f: Finding, now: int, snapshot: string)
    requires Valid(b)
    ensures var o := Failed(b, k, f, now, snapshot);
            && |o.events| <= 1 && (Opens(b, k, f) || o.book.next == b.next)
            && (o.events != [] ==>
                  if Opens(b, k, f) then o.events[0].incident.id == b.next
                  else CheckOf(b, k).incidentId == Some(o.events[0].incident.id))
  {
    assert Carried(b, k);
    if CheckOf(b, k).incidentId.Some? {
      assert Owned(b, CheckOf(b, k).incidentId.value);
    }
  }

  lemma {:induction false} TraceOther(log: seq<Event>, events: seq<Event>, id: Id)
    requires |events| <= 1 && (events != [] ==> events[0].incident.id != id)
    ensures Trace(log + events, id) == Trace(log, id)
  {
    hide Trace;
    if events == [] {
      assert log + events == log;
    } else {
      assert events == [events[0]];
      TraceSnoc(log, events[0], id);
    }
  }

  lemma FailLived(so: Outcome, k: Key, f: Finding, now: int, snapshot: string, id: Id)
    requires Valid(so.book) && Lived(so, id)
    ensures Lived(Then(so, Failed(so.book, k, f, now, snapshot)), id)
  {
    hide Story, Failed, CheckOf, Trace, Valid, Opens, Updates;
    var b := so.book;
    var o := Failed(b, k, f, now, snapshot);
    FailedNames(b, k, f, now, snapshot);
    if CheckOf(b, k).incidentId == Some(id) {
      FailedHere(b, k, f, now, snapshot, id);
      CarriedNotOpening(b, k, f);
      if Updates(b, k, now) {
        TraceSnoc(so.events, o.events[0], id);
        StoryNames(Trace(so.events, id), IsOpen(b, id));
        StoryGoesOn(Trace(so.events, id), o.events[0]);
      } else {
        NoEvents(so, o);
        QuietLived(so, o.book, so.events, id);
      }
    } else if Opens(b, k, f) && id == b.next {
      FailedOpens(b, k, f, now, snapshot);
      TraceSnoc(so.events, o.events[0], id);
      assert Trace(so.events, id) + o.events == o.events;
      StoryBegins(o.events[0]);
    } else {
      if id != b.next {
        FailedElse(b, k, f, now, snapshot, id);
      }
      if Opens(b, k, f) {
        FailedOpens(b, k, f, now, snapshot);
      }
      TraceOther(so.events, o.events, id);
      QuietLived(so, o.book, so.events + o.events, id);
    }
  }

  lemma CarriedNotOpening(b: Book, k: Key, f: Finding)
    ensures Opens(b, k, f) ==> CheckOf(b, k).incidentId.None?
  {
  }

  lemma StoryNames(trace: seq<Event>, open: bool)
    requires Story(trace, open)
    ensures trace != []
  {
  }

  /** What clearing a check does to the incident it carries, and to any other. */
  lemma ClearedEffects(b: Book, k: Key, now: int, snapshot: string, id: Id)
    requires Valid(b)
    ensures var o := Cleared(b, k, now, snapshot);
            && o.book.next == b.next && |o.events| <= 1
            && (o.events != [] ==>
                  CheckOf(b, k).incidentId == Some(o.events[0].incident.id) && o.events[0].kind == RecoveredEvent)
            && (CheckOf(b, k).incidentId == Some(id) ==>
                  && IsOpen(b, id) && !IsOpen(o.book, id) && id < b.next && o.events != []
                  && b.incidents[id].fingerprint == k && o.events[0].incident.fingerprint == k)
            && (CheckOf(b, k).incidentId != Some(id) ==> IsOpen(o.book, id) == IsOpen(b, id))
            && (CheckOf(b, k).incidentId != Some(id) && IsOpen(b, id) ==>
                  var other := b.incidents[id].fingerprint;
                  o.book.incidents[id] == b.incidents[id] && CheckOf(o.book, other) == CheckOf(b, other))
  {
    assert Carried(b, k) && Owned(b, id);
    if CheckOf(b, k).incidentId.Some? {
      assert Owned(b, CheckOf(b, k).incidentId.value);
    }
  }

  lemma ClearLived(so: Outcome, k: Key, now: int, snapshot: string, id: Id)
    requires Valid(so.book) && Lived(so, id)
    ensures Lived(Then(so, Cleared(so.book, k, now, snapshot)), id)
  {
    hide Story, Cleared, CheckOf, Trace, Valid;
    var b := so.book;
    var o := Cleared(b, k, now, snapshot);
    ClearedEffects(b, k, now, snapshot, id);
    if CheckOf(b, k).incidentId == Some(id) {
      TraceSnoc(so.events, o.events[0], id);
      assert o.events == [o.events[0]];
      StoryNames(Trace(so.events, id), IsOpen(b, id));
      StoryGoesOn(Trace(so.events, id), o.events[0]);
    } else {
      TraceOther(so.events, o.events, id);
      QuietLived(so, o.book, so.events + o.events, id);
    }
  }

  lemma CompactLived(so: Outcome, id: Id)
    requires Valid(so.book) && Lived(so, id)
    ensures Lived(Outcome(Compacted(so.book), so.events), id)
  {
    hide Story;
    var b := so.book;
    assert Owned(b, id);
    if IsOpen(b, id) {
      CompactedChecks(b, b.incidents[id].fingerprint);
    }
    QuietLived(so, Compacted(b), so.events, id);
  }

  lemma {:induction false} FailedUpToLived(so: Outcome, findings: Dict<Finding>, n: nat, now: int, snapshot: string)
    requires findings.Keyed() && n <= |findings.keys| && AllLived(so)
    ensures AllLived(Then(so, FailedUpTo(so.book, findings, n, now, snapshot)))
  {
    hide Failed, Lived, Valid;
    if n == 0 {
      NoEvents(so, FailedUpTo(so.book, findings, n, now, snapshot));
    } else {
      FailedUpToLived(so, findings, n - 1, now, snapshot);
      var before := FailedUpTo(so.book, findings, n - 1, now, snapshot);
      var k := findings.keys[n - 1];
      forall id ensures Lived(Then(Then(so, before), Failed(before.book, k, findings.at[k], now, snapshot)), id) {
        FailLived(Then(so, before), k, findings.at[k], now, snapshot, id);
      }
      FailedValid(before.book, k, findings.at[k], now, snapshot);
      ThenThen(so, before, Failed(before.book, k, findings.at[k], now, snapshot));
    }
  }

  lemma ThenThen(a: Outcome, b: Outcome, c: Outcome)
    ensures Then(Then(a, b), c) == Then(a, Then(b, c))
  {
    assert (a.events + b.events) + c.events == a.events + (b.events + c.events);
  }

  lemma {:induction false} ClearedUpToLived(so: Outcome, keys: seq<Key>, active: set<Key>, n: nat, now: int, snapshot: string)
    requires n <= |keys| && AllLived(so)
    ensures AllLived(Then(so, ClearedUpTo(so.book, keys, active, n, now, snapshot)))
  {
    hide Cleared, Lived, Valid;
    if n == 0 {
      NoEvents(so, ClearedUpTo(so.book, keys, active, n, now, snapshot));
    } else {
      ClearedUpToLived(so, keys, active, n - 1, now, snapshot);
      var before := ClearedUpTo(so.book, keys, active, n - 1, now, snapshot);
      var k := keys[n - 1];
      if k !in active {
        forall id ensures Lived(Then(Then(so, before), Cleared(before.book, k, now, snapshot)), id) {
          ClearLived(Then(so, before), k, now, snapshot, id);
        }
        ClearedValid(before.book, k, now, snapshot);
        ThenThen(so, before, Cleared(before.book, k, now, snapshot));
      }
    }
  }

  /** Main result: over any run, every incident ever numbered has a well-formed story, finished exactly
      when it is no longer open, and no other event names it. */
  lemma {:induction false} IncidentsLive(steps: seq<Step>)
    requires Wellformed(steps)
    ensures AllLived(After(steps))
  {
    hide Lived, Valid, FailedUpTo, ClearedUpTo, Compacted;
    if steps == [] {
      EmptyLived();
    } else {
      var front, last := steps[..|steps| - 1], steps[|steps| - 1];
      var so := After(front);
      IncidentsLive(front);
      match last
      case Compaction =>
        CompactedValid(so.book);
        forall id ensures Lived(Outcome(Compacted(so.book), so.events), id) {
          CompactLived(so, id);
        }
      case Cycle(findings, now, snapshot) =>
        var failed := FailedUpTo(so.book, findings, |findings.keys|, now, snapshot);
        var keys := failed.book.checks.keys;
        FailedUpToLived(so, findings, |findings.keys|, now, snapshot);
        ClearedUpToLived(Then(so, failed), keys, findings.at.Keys, |keys|, now, snapshot);
        ThenThen(so, failed, ClearedUpTo(failed.book, keys, findings.at.Keys, |keys|, now, snapshot));
    }
  }

  lemma EmptyLived()
    ensures AllLived(Outcome(EMPTY, []))
  {
    forall id ensures Lived(Outcome(EMPTY, []), id) {
    }
  }

  // ------------------------------------------------------------------ what one cycle reports

  predicate Posts(events: seq<Event>, kind: Kind, k: Key) {
    exists e :: e in events && e.kind == kind && e.incident.fingerprint == k
  }

  lemma PostsConcat(a: seq<Event>, b: seq<Event>, kind: Kind, k: Key)
    ensures Posts(a + b, kind, k) <==> Posts(a, kind, k) || Posts(b, kind, k)
  {
    if Posts(a, kind, k) {
      var e :| e in a && e.kind == kind && e.incident.fingerprint == k;
      assert e in a + b;
    }
    if Posts(b, kind, k) {
      var e :| e in b && e.kind == kind && e.incident.fingerprint == k;
      assert e in a + b;
    }
  }

  /** Whether a finding on k reports an event of this kind. */
  predicate FindingPosts(b: Book, k: Key, f: Finding, now: int, kind: Kind) {
    match kind
    case OpenedEvent => Opens(b, k, f)
    case UpdatedEvent => CheckOf(b, k).incidentId.Some? && now - CheckOf(b, k).lastPostedAt >= COALESCE
    case RecoveredEvent => false
  }

  lemma FailedPosts(b: Book, k: Key, f: Finding, now: int, snapshot: string, kind: Kind, other: Key)
    requires Valid(b)
    ensures Posts(Failed(b, k, f, now, snapshot).events, kind, other) <==> other == k && FindingPosts(b, k, f, now, kind)
  {
    var events := Failed(b, k, f, now, snapshot).events;
    assert Carried(b, k);
    if events != [] {
      assert forall e :: e in events <==> e == events[0];
    }
  }

  lemma ClearedPosts(b: Book, k: Key, now: int, snapshot: string, kind: Kind, other: Key)
    requires Valid(b)
    ensures Posts(Cleared(b, k, now, snapshot).events, kind, other) <==>
            other == k && kind == RecoveredEvent && CheckOf(b, k).incidentId.Some?
  {
    var events := Cleared(b, k, now, snapshot).events;
    assert Carried(b, k);
    if events != [] {
      assert forall e :: e in events <==> e == events[0];
    }
  }

  lemma {:induction false} FailedUpToPosts(b: Book, findings: Dict<Finding>, n: nat, now: int, snapshot: string, kind: Kind,
                                           k: Key)
    requires findings.Keyed() && n <= |findings.keys| && Valid(b)
    ensures Posts(FailedUpTo(b, findings, n, now, snapshot).events, kind, k) <==>
            k in findings.keys[..n] && FindingPosts(b, k, findings.at[k], now, kind)
  {
    hide Failed, CheckOf, Valid, Posts, Opens;
    if n == 0 {
      NothingPosted(kind, k);
    } else {
      FailedUpToPosts(b, findings, n - 1, now, snapshot, kind, k);
      FailedUpToValid(b, findings, n - 1, now, snapshot);
      FailedUpToChecks(b, findings, n - 1, now, snapshot, k);
      var key := findings.keys[n - 1];
      var so := FailedUpTo(b, findings, n - 1, now, snapshot);
      assert findings.keys[..n] == findings.keys[..n - 1] + [key];
      FailedPosts(so.book, key, findings.at[key], now, snapshot, kind, k);
      PostsConcat(so.events, Failed(so.book, key, findings.at[key], now, snapshot).events, kind, k);
      if key == k {
        assert k !in findings.keys[..n - 1];
        SameCheckSamePosts(b, so.book, k, findings.at[k], now, kind);
      }
    }
  }

  lemma SameCheckSamePosts(b: Book, b': Book, k: Key, f: Finding, now: int, kind: Kind)
    requires CheckOf(b, k) == CheckOf(b', k)
    ensures FindingPosts(b, k, f, now, kind) <==> FindingPosts(b', k, f, now, kind)
  {
  }

  lemma NothingPosted(kind: Kind, k: Key)
    ensures !Posts([], kind, k)
  {
  }

  lemma {:induction false} ClearedUpToPosts(b: Book, keys: seq<Key>, active: set<Key>, n: nat, now: int, snapshot: string,
                                            kind: Kind, k: Key)
    requires n <= |keys| && Distinct(keys) && Valid(b)
    ensures Posts(ClearedUpTo(b, keys, active, n, now, snapshot).events, kind, k) <==>
            k in keys[..n] && k !in active && kind == RecoveredEvent && CheckOf(b, k).incidentId.Some?
  {
    hide Cleared, CheckOf, Valid, Posts;
    if n == 0 {
      NothingPosted(kind, k);
    } else {
      ClearedUpToPosts(b, keys, active, n - 1, now, snapshot, kind, k);
      ClearedUpToValid(b, keys, active, n - 1, now, snapshot);
      ClearedUpToChecks(b, keys, active, n - 1, now, snapshot, k);
      var key := keys[n - 1];
      var so := ClearedUpTo(b, keys, active, n - 1, now, snapshot);
      assert keys[..n] == keys[..n - 1] + [key];
      if key !in active {
        ClearedPosts(so.book, key, now, snapshot, kind, k);
        PostsConcat(so.events, Cleared(so.book, key, now, snapshot).events, kind, k);
      }
      if key == k {
        assert k !in keys[..n - 1];
      }
    }
  }

  lemma ReconciledPosts(b: Book, findings: Dict<Finding>, now: int, snapshot: string, kind: Kind, k: Key)
    requires findings.Keyed() && Valid(b)
    ensures Posts(Reconciled(b, findings, now, snapshot).events, kind, k) <==>
            if k in findings.at then FindingPosts(b, k, findings.at[k], now, kind)
            else kind == RecoveredEvent && CheckOf(b, k).incidentId.Some?
  {
    hide FailedUpTo, ClearedUpTo, Carried, Owned, Posts, FindingPosts;
    var n := |findings.keys|;
    var failed := FailedUpTo(b, findings, n, now, snapshot);
    var keys := failed.book.checks.keys;
    FailedUpToPosts(b, findings, n, now, snapshot, kind, k);
    FailedUpToValid(b, findings, n, now, snapshot);
    FailedUpToChecks(b, findings, n, now, snapshot, k);
    ClearedUpToPosts(failed.book, keys, findings.at.Keys, |keys|, now, snapshot, kind, k);
    PostsConcat(failed.events, ClearedUpTo(failed.book, keys, findings.at.Keys, |keys|, now, snapshot).events, kind, k);
    assert findings.keys[..n] == findings.keys && keys[..|keys|] == keys;
  }

  /** Main result: after any history, a cycle opens an incident on k exactly when k's streak of findings
      first reaches what is required, and recovers it exactly when that streak is broken. */
  lemma {:induction false} CycleReports(steps: seq<Step>, findings: Dict<Finding>, now: int, snapshot: string, k: Key)
    requires Wellformed(steps) && findings.Keyed()
    ensures var events := Reconciled(After(steps).book, findings, now, snapshot).events;
            var longer := steps + [Cycle(findings, now, snapshot)];
            && (Posts(events, OpenedEvent, k) <==> Breached(longer, k) && !Breached(steps, k))
            && (Posts(events, RecoveredEvent, k) <==> Breached(steps, k) && !Breached(longer, k))
            && (Posts(events, UpdatedEvent, k) <==>
                Breached(steps, k) && Breached(longer, k) &&
                now - CheckOf(After(steps).book, k).lastPostedAt >= 900)
  {
    hide Reconciled, Valid, CheckOf, Posts, After, Streak;
    var b := After(steps).book;
    var longer := steps + [Cycle(findings, now, snapshot)];
    assert longer[..|steps|] == steps;
    AfterValid(steps);
    CountersFollowHistory(steps, k);
    StreakGrows(steps, findings, now, snapshot, k);
    ReconciledPosts(b, findings, now, snapshot, OpenedEvent, k);
    ReconciledPosts(b, findings, now, snapshot, RecoveredEvent, k);
    ReconciledPosts(b, findings, now, snapshot, UpdatedEvent, k);
  }

  lemma {:induction false} StreakGrows(steps: seq<Step>, findings: Dict<Finding>, now: int, snapshot: string, k: Key)
    ensures Streak(steps + [Cycle(findings, now, snapshot)], k) == if k in findings.at then Streak(steps, k) + 1 else 0
  {
    assert (steps + [Cycle(findings, now, snapshot)])[..|steps|] == steps;
  }
}
