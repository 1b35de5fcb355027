/**
The incident book of the SOUL controller (scripts/soul_controller.py: IncidentBook.reconcile,
pending_count, _compact_incident_state). Checks are kept in the order their fingerprints first
appeared, since that is the order in which recoveries are reported.
*/
module Incidents {
  import opened Options

  type Key = string
  type Id = nat

  /** UPDATE_COALESCE_S */
  const COALESCE := 900

  predicate Distinct<T(==)>(s: seq<T>) {
    forall i, j :: 0 <= i < j < |s| ==> s[i] != s[j]
  }

  lemma DistinctSnoc<T>(s: seq<T>, x: T)
    requires Distinct(s) && x !in s
    ensures Distinct(s + [x])
  {
  }

  /** An insertion-ordered dictionary: overwriting keeps a key's place. */
  datatype Dict<V> = Dict(keys: seq<Key>, at: map<Key, V>) {
    function Put(k: Key, v: V): Dict<V> {
      Dict(if k in at then keys else keys + [k], at[k := v])
    }

    ghost predicate Keyed() {
      && Distinct(keys)
      && (forall k :: k in keys <==> k in at)
    }
  }

  datatype Finding = Finding(severity: string, summary: string, requires_: int)

  datatype State = Open | Recovered

  datatype Incident = Incident(finding: Finding, id: Id, fingerprint: Key, state: State, openedAt: int,
                               lastSeenAt: int, recoveredAt: Option<int>, snapshotId: string)

  datatype Check = Check(failures: nat, incidentId: Option<Id>, lastPostedAt: int)

  datatype Kind = OpenedEvent | UpdatedEvent | RecoveredEvent

  datatype Event = Event(kind: Kind, at: int, incident: Incident)

  /** next numbers the fresh incident identifiers. */
  datatype Book = Book(checks: Dict<Check>, incidents: map<Id, Incident>, next: Id)

  const EMPTY := Book(Dict([], map[]), map[], 0)

  datatype Outcome = Outcome(book: Book, events: seq<Event>)

  /** An incident identifier on a check names that check's open incident. */
  ghost predicate Carried(b: Book, k: Key) {
    k in b.checks.at && b.checks.at[k].incidentId.Some? ==>
      var i := b.checks.at[k].incidentId.value;
      i in b.incidents && b.incidents[i].state == Open && b.incidents[i].fingerprint == k
  }

  /** An open incident is carried by the check of its fingerprint. */
  ghost predicate Owned(b: Book, i: Id) {
    i in b.incidents ==>
      && i < b.next && b.incidents[i].id == i
      && (b.incidents[i].state == Open ==>
            var k := b.incidents[i].fingerprint;
            k in b.checks.at && b.checks.at[k].incidentId == Some(i))
  }

  ghost predicate Valid(b: Book) {
    && b.checks.Keyed()
    && (forall k :: Carried(b, k))
    && (forall i :: Owned(b, i))
  }

  // ------------------------------------------------------------------ reconcile

  function CheckOf(b: Book, k: Key): Check {
    if k in b.checks.at then b.checks.at[k] else Check(0, None, 0)
  }

  function IncidentOf(b: Book, k: Key): Option<Incident> {
    var id := CheckOf(b, k).incidentId;
    if id.Some? then Look(b.incidents, id.value) else None
  }

  function Raised(id: Id, k: Key, f: Finding, now: int, snapshot: string): Incident {
    Incident(f, id, k, Open, now, now, None, snapshot)
  }

  function SeenAgain(incident: Incident, now: int, snapshot: string): Incident {
    incident.(lastSeenAt := now, snapshotId := snapshot)
  }

  function Closed(incident: Incident, now: int, snapshot: string): Incident {
    incident.(state := Recovered, recoveredAt := Some(now), snapshotId := snapshot)
  }

  predicate Opens(b: Book, k: Key, f: Finding) {
    CheckOf(b, k).incidentId.None? && CheckOf(b, k).failures + 1 >= f.requires_
  }

  predicate Updates(b: Book, k: Key, now: int) {
    IncidentOf(b, k).Some? && now - CheckOf(b, k).lastPostedAt >= COALESCE
  }

  /** One finding: count the failure, then open, refresh or do nothing. */
  function Failed(b: Book, k: Key, f: Finding, now: int, snapshot: string): Outcome {
    var check := CheckOf(b, k).(failures := CheckOf(b, k).failures + 1);
    if Opens(b, k, f) then
      var incident := Raised(b.next, k, f, now, snapshot);
      Outcome(Book(b.checks.Put(k, check.(incidentId := Some(b.next), lastPostedAt := now)),
                   b.incidents[b.next := incident], b.next + 1),
              [Event(OpenedEvent, now, incident)])
    else if IncidentOf(b, k).Some? then
      var incident := SeenAgain(IncidentOf(b, k).value, now, snapshot);
      var posted := if Updates(b, k, now) then check.(lastPostedAt := now) else check;
      Outcome(Book(b.checks.Put(k, posted), b.incidents[check.incidentId.value := incident], b.next),
              if Updates(b, k, now) then [Event(UpdatedEvent, now, incident)] else [])
    else Outcome(b.(checks := b.checks.Put(k, check)), [])
  }

  predicate Recovers(b: Book, k: Key) {
    IncidentOf(b, k).Some? && IncidentOf(b, k).value.state == Open
  }

  function RecoveryOf(b: Book, k: Key, now: int, snapshot: string): Event
    requires Recovers(b, k)
  {
    Event(RecoveredEvent, now, Closed(IncidentOf(b, k).value, now, snapshot))
  }

  /** One check without a finding: close its incident and reset it. */
  function Cleared(b: Book, k: Key, now: int, snapshot: string): Outcome {
    var reset := b.checks.Put(k, CheckOf(b, k).(failures := 0, incidentId := None));
    if Recovers(b, k) then
      var event := RecoveryOf(b, k, now, snapshot);
      Outcome(b.(checks := reset, incidents := b.incidents[CheckOf(b, k).incidentId.value := event.incident]), [event])
    else Outcome(b.(checks := reset), [])
  }

  function Then(first: Outcome, second: Outcome): Outcome {
    Outcome(second.book, first.events + second.events)
  }

  /** The first n findings, in order. */
  ghost function FailedUpTo(b: Book, findings: Dict<Finding>, n: nat, now: int, snapshot: string): Outcome
    requires findings.Keyed() && n <= |findings.keys|
  {
    if n == 0 then Outcome(b, [])
    else
      var so := FailedUpTo(b, findings, n - 1, now, snapshot);
      var k := findings.keys[n - 1];
      Then(so, Failed(so.book, k, findings.at[k], now, snapshot))
  }

  /** The first n of the listed checks, skipping those with a finding. */
  function ClearedUpTo(b: Book, keys: seq<Key>, active: set<Key>, n: nat, now: int, snapshot: string): Outcome
    requires n <= |keys|
  {
    if n == 0 then Outcome(b, [])
    else
      var so := ClearedUpTo(b, keys, active, n - 1, now, snapshot);
      if keys[n - 1] in active then so else Then(so, Cleared(so.book, keys[n - 1], now, snapshot))
  }

  ghost function Reconciled(b: Book, findings: Dict<Finding>, now: int, snapshot: string): Outcome
    requires findings.Keyed()
  {
    var failed := FailedUpTo(b, findings, |findings.keys|, now, snapshot);
    Then(failed, ClearedUpTo(failed.book, failed.book.checks.keys, findings.at.Keys, |failed.book.checks.keys|, now, snapshot))
  }

  // ------------------------------------------------------------------ compaction

  predicate Kept(b: Book, k: Key) {
    k in b.checks.at &&
    var check := b.checks.at[k];
    if check.incidentId.Some? then IncidentOf(b, k).Some? && IncidentOf(b, k).value.state == Open
    else check.failures > 0
  }

  function KeptKeys(b: Book, keys: seq<Key>): seq<Key> {
    if keys == [] then []
    else KeptKeys(b, keys[..|keys| - 1]) + if Kept(b, keys[|keys| - 1]) then [keys[|keys| - 1]] else []
  }

  /** Only open incidents, and the checks that carry one or are counting failures. */
  function Compacted(b: Book): Book {
    Book(Dict(KeptKeys(b, b.checks.keys), map k | k in b.checks.at && Kept(b, k) :: b.checks.at[k]),
         map i | i in b.incidents && b.incidents[i].state == Open :: b.incidents[i],
         b.next)
  }

  // ------------------------------------------------------------------ the invariant

  lemma FailedCarries(b: Book, k: Key, f: Finding, now: int, snapshot: string, other: Key)
    requires Carried(b, k) && Carried(b, other) && Owned(b, b.next)
    ensures Carried(Failed(b, k, f, now, snapshot).book, other)
  {
  }

  lemma FailedValid(b: Book, k: Key, f: Finding, now: int, snapshot: string)
    requires Valid(b)
    ensures Valid(Failed(b, k, f, now, snapshot).book)
  {
    var b' := Failed(b, k, f, now, snapshot).book;
    assert Carried(b, k) && Owned(b, b.next);
    forall k' ensures Carried(b', k') {
      assert Carried(b, k');
      FailedCarries(b, k, f, now, snapshot, k');
    }
    forall i ensures Owned(b', i) {
      assert Owned(b, i);
    }
  }

  lemma ClearedValid(b: Book, k: Key, now: int, snapshot: string)
    requires Valid(b)
    ensures Valid(Cleared(b, k, now, snapshot).book)
  {
    var b' := Cleared(b, k, now, snapshot).book;
    assert Carried(b, k);
    forall k' ensures Carried(b', k') {
      assert Carried(b, k');
    }
    forall i ensures Owned(b', i) {
      assert Owned(b, i);
    }
  }

  lemma {:induction false} KeptKeysAre(b: Book, keys: seq<Key>)
    requires Distinct(keys)
    ensures forall k :: k in KeptKeys(b, keys) <==> k in keys && Kept(b, k)
    ensures Distinct(KeptKeys(b, keys))
  {
    hide Kept;
    if keys != [] {
      var front, last := keys[..|keys| - 1], keys[|keys| - 1];
      KeptKeysAre(b, front);
      assert last !in front;
      assert keys == front + [last];
      DistinctSnoc(KeptKeys(b, front), last);
    }
  }

  lemma CompactedValid(b: Book)
    requires Valid(b)
    ensures Valid(Compacted(b))
  {
    var b' := Compacted(b);
    KeptKeysAre(b, b.checks.keys);
    forall k ensures Carried(b', k) {
      assert Carried(b, k);
    }
    forall i ensures Owned(b', i) {
      assert Owned(b, i);
      if i in b.incidents && b.incidents[i].state == Open {
        assert Kept(b, b.incidents[i].fingerprint);
      }
    }
  }

  lemma {:induction false} FailedUpToValid(b: Book, findings: Dict<Finding>, n: nat, now: int, snapshot: string)
    requires findings.Keyed() && n <= |findings.keys| && Valid(b)
    ensures Valid(FailedUpTo(b, findings, n, now, snapshot).book)
  {
    hide Valid, Failed;
    if n > 0 {
      FailedUpToValid(b, findings, n - 1, now, snapshot);
      var so, k := FailedUpTo(b, findings, n - 1, now, snapshot), findings.keys[n - 1];
      FailedValid(so.book, k, findings.at[k], now, snapshot);
    }
  }

  lemma {:induction false} ClearedUpToValid(b: Book, keys: seq<Key>, active: set<Key>, n: nat, now: int, snapshot: string)
    requires n <= |keys| && Valid(b)
    ensures Valid(ClearedUpTo(b, keys, active, n, now, snapshot).book)
  {
    hide Valid, Cleared;
    if n > 0 {
      ClearedUpToValid(b, keys, active, n - 1, now, snapshot);
      var so := ClearedUpTo(b, keys, active, n - 1, now, snapshot);
      ClearedValid(so.book, keys[n - 1], now, snapshot);
    }
  }

  lemma ReconciledValid(b: Book, findings: Dict<Finding>, now: int, snapshot: string)
    requires findings.Keyed() && Valid(b)
    ensures Valid(Reconciled(b, findings, now, snapshot).book)
  {
    hide Valid, FailedUpTo, ClearedUpTo;
    FailedUpToValid(b, findings, |findings.keys|, now, snapshot);
    var failed := FailedUpTo(b, findings, |findings.keys|, now, snapshot).book;
    ClearedUpToValid(failed, failed.checks.keys, findings.at.Keys, |failed.checks.keys|, now, snapshot);
  }

  /** At most one open incident per fingerprint. */
  lemma OneOpenIncident(b: Book, i: Id, j: Id)
    requires Valid(b) && i in b.incidents && j in b.incidents
    requires b.incidents[i].state == Open && b.incidents[j].state == Open
    requires b.incidents[i].fingerprint == b.incidents[j].fingerprint
    ensures i == j
  {
    assert Owned(b, i) && Owned(b, j);
  }

  // ------------------------------------------------------------------ pending_count

  function OpenIds(b: Book): set<Id> {
    set i | i in b.incidents && b.incidents[i].state == Open
  }

  function Carriers(b: Book): set<Key> {
    set k | k in b.checks.at && b.checks.at[k].incidentId.Some?
  }

  /** pending_count is the number of checks that carry an incident identifier. */
  lemma PendingIsCarriers(b: Book)
    requires Valid(b)
    ensures |OpenIds(b)| == |Carriers(b)|
  {
    var f := map k | k in Carriers(b) :: b.checks.at[k].incidentId.value;
    forall k | k in Carriers(b) ensures f[k] in OpenIds(b) && b.incidents[f[k]].fingerprint == k {
      assert Carried(b, k);
    }
    forall i | i in OpenIds(b) ensures i in f.Values {
      assert Owned(b, i);
      assert f[b.incidents[i].fingerprint] == i;
    }
    SameSize(Carriers(b), OpenIds(b), f);
  }

  lemma {:induction false} SameSize(a: set<Key>, b: set<Id>, f: map<Key, Id>)
    requires a <= f.Keys && (forall k :: k in a ==> f[k] in b)
    requires forall k, l :: k in a && l in a && f[k] == f[l] ==> k == l
    requires forall i :: i in b ==> exists k :: k in a && f[k] == i
    ensures |a| == |b|
    decreases |a|
  {
    if a == {} {
      assert forall i :: i !in b;
    } else {
      var k :| k in a;
      SameSize(a - {k}, b - {f[k]}, f);
    }
  }

  // ------------------------------------------------------------------ the object

  class IncidentBook {
    var checks: Dict<Check>
    var incidents: map<Id, Incident>
    var next: Id

    ghost function View(): Book
      reads this
    {
      Book(checks, incidents, next)
    }

    constructor ()
      ensures View() == EMPTY && Valid(View())
    {
      checks, incidents, next := Dict([], map[]), map[], 0;
    }

    /** reconcile: the findings in order, then every check without one. */
    method Reconcile(findings: Dict<Finding>, now: int, snapshot: string) returns (events: seq<Event>)
      requires Valid(View()) && findings.Keyed()
      modifies this
      ensures View() == Reconciled(old(View()), findings, now, snapshot).book
      ensures events == Reconciled(old(View()), findings, now, snapshot).events
      ensures Valid(View())
    {
      hide Failed, Cleared, Valid, Opens, Updates, Recovers;
      ghost var b := View();
      ReconciledValid(b, findings, now, snapshot);
      events := [];
      for n := 0 to |findings.keys|
        invariant FailedUpTo(b, findings, n, now, snapshot) == Outcome(View(), events)
        invariant Valid(View())
      {
        var k := findings.keys[n];
        FailedUpToValid(b, findings, n + 1, now, snapshot);
        var posted := Fail(k, findings.at[k], now, snapshot);
        events := events + posted;
      }
      ghost var failed, raised := View(), events;
      var keys := checks.keys;
      ghost var clearing: seq<Event> := [];
      for n := 0 to |keys|
        invariant ClearedUpTo(failed, keys, findings.at.Keys, n, now, snapshot) == Outcome(View(), clearing)
        invariant events == raised + clearing
      {
        if keys[n] !in findings.at {
          var posted := Clear(keys[n], now, snapshot);
          events := events + posted;
          clearing := clearing + posted;
        }
      }
    }

    /** The body of the first loop. */
    method Fail(k: Key, f: Finding, now: int, snapshot: string) returns (posted: seq<Event>)
      requires Valid(View())
      modifies this
      ensures Failed(old(View()), k, f, now, snapshot) == Outcome(View(), posted)
    {
      assert Carried(View(), k);
      posted := [];
      var check := if k in checks.at then checks.at[k] else Check(0, None, 0);
      check := check.(failures := check.failures + 1);
      if check.incidentId.None? && check.failures >= f.requires_ {
        var incident := Incident(f, next, k, Open, now, now, None, snapshot);
        check := check.(incidentId := Some(next), lastPostedAt := now);
        incidents := incidents[next := incident];
        next := next + 1;
        posted := [Event(OpenedEvent, now, incident)];
      } else if check.incidentId.Some? {
        var id := check.incidentId.value;
        var incident := incidents[id].(lastSeenAt := now, snapshotId := snapshot);
        incidents := incidents[id := incident];
        if now - check.lastPostedAt >= COALESCE {
          check := check.(lastPostedAt := now);
          posted := [Event(UpdatedEvent, now, incident)];
        }
      }
      checks := checks.Put(k, check);
    }

    /** The body of the second loop. */
    method Clear(k: Key, now: int, snapshot: string) returns (posted: seq<Event>)
      modifies this
      ensures Cleared(old(View()), k, now, snapshot) == Outcome(View(), posted)
    {
      posted := [];
      var check := if k in checks.at then checks.at[k] else Check(0, None, 0);
      if check.incidentId.Some? {
        var id := check.incidentId.value;
        if id in incidents && incidents[id].state == Open {
          var incident := incidents[id].(state := Recovered, recoveredAt := Some(now), snapshotId := snapshot);
          incidents := incidents[id := incident];
          posted := [Event(RecoveredEvent, now, incident)];
        }
      }
      checks := checks.Put(k, check.(failures := 0, incidentId := None));
    }

    method PendingCount() returns (n: nat)
      requires Valid(View())
      ensures n == |Carriers(View())|
    {
      var open := set i | i in incidents && incidents[i].state == Open;
      assert open == OpenIds(View());
      PendingIsCarriers(View());
      n := |open|;
    }

    /** _compact_incident_state */
    method Compact()
      requires Valid(View())
      modifies this
      ensures View() == Compacted(old(View()))
      ensures Valid(View())
    {
      hide Valid, Kept;
      ghost var b := View();
      CompactedValid(b);
      AllKeyed(b);
      var active := map i | i in incidents && incidents[i].state == Open :: incidents[i];
      var keys: seq<Key> := [];
      var kept: map<Key, Check> := map[];
      for n := 0 to |checks.keys|
        invariant View() == b
        invariant keys == KeptKeys(b, b.checks.keys[..n])
        invariant forall k :: k in kept <==> k in b.checks.keys[..n] && Kept(b, k)
        invariant forall k :: k in kept ==> kept[k] == b.checks.at[k]
      {
        var k := checks.keys[n];
        assert b.checks.keys[..n + 1][..n] == b.checks.keys[..n];
        var check := checks.at[k];
        KeptMeans(b, k);
        if (check.incidentId.Some? && check.incidentId.value in active) ||
           (check.incidentId.None? && check.failures > 0) {
          keys := keys + [k];
          kept := kept[k := check];
        }
      }
      assert b.checks.keys[..|b.checks.keys|] == b.checks.keys;
      checks := Dict(keys, kept);
      incidents := active;
    }
  }

  lemma AllKeyed(b: Book)
    requires Valid(b)
    ensures forall k :: k in b.checks.keys <==> k in b.checks.at
  {
  }

  lemma KeptMeans(b: Book, k: Key)
    requires k in b.checks.at
    ensures var check := b.checks.at[k];
            Kept(b, k) <==>
            (check.incidentId.Some? && check.incidentId.value in b.incidents &&
             b.incidents[check.incidentId.value].state == Open) ||
            (check.incidentId.None? && check.failures > 0)
  {
  }
}
