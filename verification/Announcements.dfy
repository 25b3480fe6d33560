/** When a version is announced at most once, although the protocol does not promise it. */
module Announcements {
  import opened Sequences
  import opened Descriptors
  import opened VersionTables
  import opened Notifications

  datatype Version = Version(nsName: string, schemaId: int, versionId: Option<UUID>)

  predicate IsFor(request: Request, v: Version) {
    request.nsName == v.nsName && request.versionId == v.versionId
  }

  predicate Works(s: System, k: nat, v: Version) {
    k in s.workers && IsFor(s.workers[k].request, v)
  }

  /** Some row of the version is marked successful. */
  ghost predicate Marked(store: Store, v: Version) {
    exists id :: id in store.rows && store.rows[id] == EventRow(v.nsName, v.schemaId, v.versionId, true)
  }

  /** The worker's event has been handed to the producer. */
  predicate HandedOver(s: System, k: nat) {
    k in s.workers && s.workers[k].eventId.Some? && s.workers[k].eventId.value in s.store.handed
  }

  /** The worker has passed its query and may yet hand over an event. */
  predicate IsUnderway(w: Worker) {
    w.phase.Identifying? || w.phase.Inserting? || w.phase.Publishing?
  }

  // ---------- a worker that is under way can still announce ----------

  /** What is left to do if nothing fails; steps already taken are skipped. */
  function Finish(k: nat, newId: string): seq<Event> {
    [Event(k, Identify(newId, true, Done)), Event(k, Insert(Done)), Event(k, Publish(Done))]
  }

  lemma FinishHandsOver(s: System, k: nat, newId: string)
    requires Inv(s) && k in s.workers && IsUnderway(s.workers[k]) && newId !in s.store.used
    ensures var t := Run(s, Finish(k, newId));
            && HandedOver(t, k) && t.workers[k].request == s.workers[k].request
            && t.workers.Keys == s.workers.Keys
            && (forall j | j in s.workers && j != k :: t.workers[j] == s.workers[j])
            && (forall id | id in s.store.handed :: id in t.store.handed)
  {
    assert WorkerOk(s.store, s.workers[k]);
    RunOfThree(s, Event(k, Identify(newId, true, Done)), Event(k, Insert(Done)), Event(k, Publish(Done)));
    var s1 := Take(s, Event(k, Identify(newId, true, Done)));
    var s2 := Take(s1, Event(k, Insert(Done)));
    assert s1.workers[k].phase.Inserting? || s1.workers[k].phase.Publishing?;
    assert s2.workers[k].phase.Publishing?;
  }

  lemma LengthBound(used: set<string>) returns (n: nat)
    ensures forall x | x in used :: |x| <= n
  {
    if used == {} {
      n := 0;
    } else {
      var x :| x in used;
      var m := LengthBound(used - {x});
      n := if |x| > m then |x| else m;
      assert forall y | y in used :: y == x || y in used - {x};
    }
  }

  /** An event id never generated so far. */
  ghost function FreshId(s: System): (id: string)
    ensures id !in s.store.used
  {
    assert exists id: string :: id !in s.store.used by {
      var n := LengthBound(s.store.used);
      assert |seq(n + 1, _ => 'e')| > n;
    }
    var id: string :| id !in s.store.used; id
  }

  lemma FreshWorker(taken: set<nat>) returns (k: nat)
    ensures forall j | j in taken :: j < k
  {
    if taken == {} {
      k := 0;
    } else {
      var x :| x in taken;
      var m := FreshWorker(taken - {x});
      k := if x >= m then x + 1 else m;
      assert forall y | y in taken :: y == x || y in taken - {x};
    }
  }

  // ---------- one worker at its query ----------

  function VersionOf(w: Worker): Version
    requires w.phase.Querying?
  {
    Version(w.request.nsName, w.phase.schemaId, w.request.versionId)
  }

  lemma MarkedStays(s: System, e: Event, v: Version)
    requires Marked(s.store, v)
    ensures Marked(Take(s, e).store, v)
  {
    var id :| id in s.store.rows && s.store.rows[id] == EventRow(v.nsName, v.schemaId, v.versionId, true);
    assert id in Take(s, e).store.rows && Take(s, e).store.rows[id] == s.store.rows[id];
  }

  lemma QueryMeets(store: Store, w: Worker)
    requires w.phase.Querying?
    ensures QueryResult(store, w).phase.Identifying? <==> !Marked(store, VersionOf(w))
    ensures !QueryResult(store, w).phase.Identifying? ==>
            QueryResult(store, w).phase.Refreshing? || QueryResult(store, w).phase.Finished?
    ensures QueryResult(store, w).eventId == w.eventId && QueryResult(store, w).request == w.request
    ensures QueryResult(store, w).phase.Identifying? ==> QueryResult(store, w).phase.schemaId == w.phase.schemaId
  {
    QueryDecides(store, w);
  }

  /** The worker has no event and will not get one. */
  ghost predicate Blocked(s: System, k: nat) {
    && k in s.workers && s.workers[k].eventId.None?
    && match s.workers[k].phase
       case Querying(_) => Marked(s.store, VersionOf(s.workers[k]))
       case Refreshing(_) => true
       case Finished => true
       case _ => false
  }

  lemma {:induction false} BlockedStays(s: System, events: seq<Event>, k: nat)
    requires Blocked(s, k)
    ensures Blocked(Run(s, events), k)
  {
    if events != [] {
      var init, e := events[..|events| - 1], events[|events| - 1];
      BlockedStays(s, init, k);
      var t := Run(s, init);
      if t.workers[k].phase.Querying? {
        QueryMeets(t.store, t.workers[k]);
        MarkedStays(t, e, VersionOf(t.workers[k]));
      }
    }
  }

  /** A worker about to query may still hand over its event, in some continuation of the run, exactly
      when no row of its version is marked successful. */
  lemma QueryingMayAnnounceExactly(s: System, k: nat)
    requires Inv(s) && k in s.workers && s.workers[k].phase.Querying?
    ensures (exists events :: HandedOver(Run(s, events), k)) <==> !Marked(s.store, VersionOf(s.workers[k]))
  {
    if Marked(s.store, VersionOf(s.workers[k])) {
      assert WorkerOk(s.store, s.workers[k]);
      forall events ensures !HandedOver(Run(s, events), k) {
        BlockedStays(s, events, k);
      }
    } else {
      var query, id := Event(k, Query(Done)), FreshId(s);
      var t := Take(s, query);
      QueryMeets(s.store, s.workers[k]);
      TakeKeepsInv(s, query);
      FinishHandsOver(t, k, id);
      assert [query][..0] == [];
      RunAppend(s, [query], Finish(k, id));
      assert HandedOver(Run(s, [query] + Finish(k, id)), k);
    }
  }

  // ---------- all workers of a version, started by uploads ----------

  /** Workers of the version are started by uploads and find its schema. */
  predicate IsUploadStep(s: System, e: Event, v: Version) {
    && (e.action.Start? && IsFor(e.action.request, v) ==> e.action.request.fromCreate)
    && (e.action.Resolve? && Works(s, e.worker, v) ==> e.action.schemaId == v.schemaId)
  }

  predicate IsUploadRun(s: System, events: seq<Event>, v: Version) {
    forall i | 0 <= i < |events| :: IsUploadStep(Run(s, events[..i]), events[i], v)
  }

  predicate IsUploadWorker(store: Store, w: Worker, v: Version) {
    && w.request.fromCreate
    && (w.phase.Querying? || w.phase.Identifying? || w.phase.Inserting? ==> w.phase.schemaId == v.schemaId)
    && (w.eventId.Some? && w.eventId.value in store.rows ==>
          store.rows[w.eventId.value].(success := true) == EventRow(v.nsName, v.schemaId, v.versionId, true))
  }

  ghost predicate UploadWorkers(s: System, v: Version) {
    forall k | Works(s, k, v) :: IsUploadWorker(s.store, s.workers[k], v)
  }

  lemma StepKeepsUploadWorkers(s: System, e: Event, v: Version)
    requires Inv(s) && UploadWorkers(s, v) && IsUploadStep(s, e, v)
    ensures UploadWorkers(Take(s, e), v)
  {
    var t := Take(s, e);
    forall k | Works(t, k, v) ensures IsUploadWorker(t.store, t.workers[k], v) {
      if k == e.worker {
        OwnStepKeepsUploadWorker(s, e, v);
      } else {
        OtherStepKeepsUploadWorker(s, e, v, k);
      }
    }
  }

  lemma OwnStepKeepsUploadWorker(s: System, e: Event, v: Version)
    requires Inv(s) && UploadWorkers(s, v) && IsUploadStep(s, e, v) && Works(Take(s, e), e.worker, v)
    ensures IsUploadWorker(Take(s, e).store, Take(s, e).workers[e.worker], v)
  {
    if e.worker in s.workers {
      var w := s.workers[e.worker];
      assert WorkerOk(s.store, w);
      if w.phase.Querying? { QueryMeets(s.store, w); }
    }
  }

  lemma OtherStepKeepsUploadWorker(s: System, e: Event, v: Version, k: nat)
    requires Inv(s) && UploadWorkers(s, v) && Works(Take(s, e), k, v) && k != e.worker
    ensures IsUploadWorker(Take(s, e).store, Take(s, e).workers[k], v)
  {
    assert Works(s, k, v) && IsUploadWorker(s.store, s.workers[k], v);
    if e.worker in s.workers { assert WorkerOk(s.store, s.workers[e.worker]); }
  }

  /** One step changes nothing about the other workers, and of what was handed over only the worker's
      own event is new. */
  lemma StepIsOwn(s: System, e: Event, k: nat)
    requires Inv(s) && k in s.workers && k != e.worker
    ensures var t := Take(s, e);
            k in t.workers && t.workers[k] == s.workers[k] && (HandedOver(t, k) <==> HandedOver(s, k))
  {
    if CanStep(s, e.worker, e.action) && !e.action.Start? {
      assert WorkerOk(s.store, s.workers[e.worker]);
    }
  }

  /** A row of the version is marked and nobody is on the way to announcing it again. */
  ghost predicate Settled(s: System, v: Version) {
    && Marked(s.store, v)
    && forall k | Works(s, k, v) :: !IsUnderway(s.workers[k])
  }

  /** No worker announces the version that had not done so before. */
  ghost predicate NoNews(s: System, t: System, v: Version) {
    forall k | Works(t, k, v) && HandedOver(t, k) :: Works(s, k, v) && HandedOver(s, k)
  }

  lemma SettledStep(s: System, e: Event, v: Version)
    requires Inv(s) && UploadWorkers(s, v) && IsUploadStep(s, e, v) && Settled(s, v)
    ensures Settled(Take(s, e), v)
    ensures NoNews(s, Take(s, e), v)
  {
    var t := Take(s, e);
    MarkedStays(s, e, v);
    forall k | Works(t, k, v)
      ensures !IsUnderway(t.workers[k]) && (HandedOver(t, k) ==> Works(s, k, v) && HandedOver(s, k))
    {
      if k != e.worker {
        StepIsOwn(s, e, k);
      } else {
        SettledWorker(s, e, v);
      }
    }
  }

  /** How a worker gets under way, and what hands over. */
  lemma PhaseAfter(store: Store, w: Worker, a: Action)
    requires Enabled(store, w, a)
    ensures var (store', w') := After(store, w, a);
            && (IsUnderway(w') ==>
                  IsUnderway(w) || (w.phase.Querying? && w' == QueryResult(store, w)) || !w.request.fromCreate)
            && (store'.handed != store.handed ==> IsUnderway(w))
            && (w'.eventId != w.eventId ==> IsUnderway(w) || w.phase.Querying?)
            && w'.request == w.request
  {
    if w.phase.Querying? { QueryMeets(store, w); }
  }

  lemma SettledWorker(s: System, e: Event, v: Version)
    requires Inv(s) && UploadWorkers(s, v) && IsUploadStep(s, e, v) && Settled(s, v) && Works(Take(s, e), e.worker, v)
    ensures var t := Take(s, e);
            && !IsUnderway(t.workers[e.worker])
            && (HandedOver(t, e.worker) ==> Works(s, e.worker, v) && HandedOver(s, e.worker))
  {
    if e.worker in s.workers {
      var w := s.workers[e.worker];
      if CanStep(s, e.worker, e.action) && !e.action.Start? {
        PhaseAfter(s.store, w, e.action);
        assert Works(s, e.worker, v) && IsUploadWorker(s.store, w, v);
        if w.phase.Querying? { QueryMeets(s.store, w); }
      }
    }
  }

  lemma RunPrefix(s: System, events: seq<Event>, v: Version)
    requires IsUploadRun(s, events, v) && events != []
    ensures IsUploadRun(s, events[..|events| - 1], v)
    ensures IsUploadStep(Run(s, events[..|events| - 1]), events[|events| - 1], v)
  {
    var init := events[..|events| - 1];
    forall i | 0 <= i < |init| ensures IsUploadStep(Run(s, init[..i]), init[i], v) {
      assert init[..i] == events[..i];
    }
  }

  lemma {:induction false} RunKeepsUploadWorkers(s: System, events: seq<Event>, v: Version)
    requires Inv(s) && UploadWorkers(s, v) && IsUploadRun(s, events, v)
    ensures UploadWorkers(Run(s, events), v)
  {
    if events != [] {
      var init := events[..|events| - 1];
      RunPrefix(s, events, v);
      RunKeepsUploadWorkers(s, init, v);
      RunKeepsInv(s, init);
      StepKeepsUploadWorkers(Run(s, init), events[|events| - 1], v);
    }
  }

  lemma {:induction false} SettledRun(s: System, events: seq<Event>, v: Version)
    requires Inv(s) && UploadWorkers(s, v) && IsUploadRun(s, events, v) && Settled(s, v)
    ensures Settled(Run(s, events), v) && NoNews(s, Run(s, events), v)
  {
    if events != [] {
      var init := events[..|events| - 1];
      RunPrefix(s, events, v);
      SettledRun(s, init, v);
      RunKeepsInv(s, init);
      RunKeepsUploadWorkers(s, init, v);
      SettledStep(Run(s, init), events[|events| - 1], v);
    }
  }

  lemma UnderwayHasNotHanded(s: System, k: nat)
    requires Inv(s) && k in s.workers && IsUnderway(s.workers[k])
    ensures !HandedOver(s, k)
  {
    assert WorkerOk(s.store, s.workers[k]);
  }

  /** A new worker of an unmarked version gets past its query. */
  lemma NewWorkerGetsUnderway(s: System, k: nat, v: Version)
    requires k !in s.workers && !Marked(s.store, v)
    ensures var start := [Event(k, Start(Request(v.nsName, v.versionId, true))), Event(k, Resolve(v.schemaId, Done)),
                          Event(k, Query(Done))];
            IsUploadRun(s, start, v)
            && Run(s, start) == System(s.store, s.workers[k := Worker(Request(v.nsName, v.versionId, true),
                                                                      Identifying(v.schemaId), None, false)])
  {
    var w := Worker(Request(v.nsName, v.versionId, true), Querying(v.schemaId), None, false);
    RunOfThree(s, Event(k, Start(w.request)), Event(k, Resolve(v.schemaId, Done)), Event(k, Query(Done)));
    QueryMeets(s.store, w);
    QueryDecides(s.store, w);
  }

  lemma RunsConcatenate(s: System, a: seq<Event>, b: seq<Event>, v: Version)
    requires IsUploadRun(s, a, v) && IsUploadRun(Run(s, a), b, v)
    ensures IsUploadRun(s, a + b, v)
  {
    forall i | 0 <= i < |a + b| ensures IsUploadStep(Run(s, (a + b)[..i]), (a + b)[i], v) {
      if i < |a| {
        assert (a + b)[..i] == a[..i];
      } else {
        assert (a + b)[..i] == a + b[..i - |a|];
        RunAppend(s, a, b[..i - |a|]);
      }
    }
  }

  lemma UnsettledHasNews(s: System, v: Version) returns (events: seq<Event>)
    requires Inv(s) && !Settled(s, v)
    ensures IsUploadRun(s, events, v) && !NoNews(s, Run(s, events), v)
  {
    var id := FreshId(s);
    if k :| Works(s, k, v) && IsUnderway(s.workers[k]) {
      events := Finish(k, id);
      FinishHandsOver(s, k, id);
      UnderwayHasNotHanded(s, k);
    } else {
      var k := FreshWorker(s.workers.Keys);
      var start := [Event(k, Start(Request(v.nsName, v.versionId, true))), Event(k, Resolve(v.schemaId, Done)),
                    Event(k, Query(Done))];
      NewWorkerGetsUnderway(s, k, v);
      RunKeepsInv(s, start);
      FinishHandsOver(Run(s, start), k, id);
      events := start + Finish(k, id);
      RunAppend(s, start, Finish(k, id));
      RunsConcatenate(s, start, Finish(k, id), v);
    }
  }

  /** A version is never announced again, whatever uploads and failures follow, exactly when one of its
      rows is marked successful and none of its workers is past its query with its event not yet
      handed over. */
  lemma NeverAgainExactly(s: System, v: Version)
    requires Inv(s) && UploadWorkers(s, v)
    ensures (forall events | IsUploadRun(s, events, v) :: NoNews(s, Run(s, events), v)) <==> Settled(s, v)
  {
    if Settled(s, v) {
      forall events | IsUploadRun(s, events, v) ensures NoNews(s, Run(s, events), v) {
        SettledRun(s, events, v);
      }
    } else {
      var events := UnsettledHasNews(s, v);
    }
  }

  // ---------- when every query is answered in a quiet moment ----------

  /** At an answered query of the version, no other worker of it is under way, and what others have
      handed over is marked. */
  predicate IsCalm(s: System, e: Event, v: Version) {
    e.action.Query? && e.action.outcome.Ok() && Works(s, e.worker, v) ==>
      forall j | j in s.workers && j != e.worker && Works(s, j, v) ::
        && !IsUnderway(s.workers[j])
        && (HandedOver(s, j) ==>
              s.workers[j].eventId.value in s.store.rows && s.store.rows[s.workers[j].eventId.value].success)
  }

  predicate IsCalmRun(s: System, events: seq<Event>, v: Version) {
    IsUploadRun(s, events, v) && forall i | 0 <= i < |events| :: IsCalm(Run(s, events[..i]), events[i], v)
  }

  /** The worker has announced the version or may yet do so. */
  predicate Counts(s: System, k: nat, v: Version) {
    Works(s, k, v) && (IsUnderway(s.workers[k]) || HandedOver(s, k))
  }

  ghost predicate AtMostOneCounts(s: System, v: Version) {
    forall j, k | Counts(s, j, v) && Counts(s, k, v) :: j == k
  }

  ghost predicate AtMostOneAnnounces(s: System, v: Version) {
    forall j, k | Works(s, j, v) && Works(s, k, v) && HandedOver(s, j) && HandedOver(s, k) :: j == k
  }

  /** At an answered query of an unmarked version, in a calm moment, no other worker counts. */
  lemma CalmQueryAlone(s: System, e: Event, v: Version)
    requires Inv(s) && UploadWorkers(s, v) && IsCalm(s, e, v) && !Marked(s.store, v)
    requires e.action.Query? && e.action.outcome.Ok() && Works(s, e.worker, v)
    ensures forall j | j != e.worker :: !Counts(s, j, v)
  {
    forall j | j != e.worker && Works(s, j, v) ensures !Counts(s, j, v) {
      assert IsUploadWorker(s.store, s.workers[j], v);
    }
  }

  /** Only an answered query brings a new worker under way. */
  lemma CalmStep(s: System, e: Event, v: Version, k: nat)
    requires Inv(s) && UploadWorkers(s, v) && IsUploadStep(s, e, v) && IsCalm(s, e, v)
    requires Counts(Take(s, e), k, v)
    ensures Counts(s, k, v) || (k == e.worker && forall j | j != k :: !Counts(s, j, v))
  {
    if k in s.workers && k != e.worker {
      StepIsOwn(s, e, k);
    } else if k in s.workers && CanStep(s, k, e.action) {
      assert Works(s, k, v) && WorkerOk(s.store, s.workers[k]) && IsUploadWorker(s.store, s.workers[k], v);
      if s.workers[k].phase.Querying? {
        QueryMeets(s.store, s.workers[k]);
        if e.action.outcome.Ok() && !Marked(s.store, v) { CalmQueryAlone(s, e, v); }
      }
    }
  }

  lemma CalmStepKeepsOne(s: System, e: Event, v: Version)
    requires Inv(s) && UploadWorkers(s, v) && IsUploadStep(s, e, v) && IsCalm(s, e, v) && AtMostOneCounts(s, v)
    ensures AtMostOneCounts(Take(s, e), v)
  {
    var t := Take(s, e);
    forall j, k | Counts(t, j, v) && Counts(t, k, v) ensures j == k {
      CalmStep(s, e, v, j);
      CalmStep(s, e, v, k);
    }
  }

  lemma {:induction false} CalmRunKeepsOne(s: System, events: seq<Event>, v: Version)
    requires Inv(s) && UploadWorkers(s, v) && IsCalmRun(s, events, v) && AtMostOneCounts(s, v)
    ensures AtMostOneCounts(Run(s, events), v)
  {
    if events != [] {
      var init := events[..|events| - 1];
      RunPrefix(s, events, v);
      forall i | 0 <= i < |init| ensures IsCalm(Run(s, init[..i]), init[i], v) {
        assert init[..i] == events[..i];
      }
      CalmRunKeepsOne(s, init, v);
      RunKeepsInv(s, init);
      RunKeepsUploadWorkers(s, init, v);
      CalmStepKeepsOne(Run(s, init), events[|events| - 1], v);
    }
  }

  /** What a worker that counts still has to do. */
  function Rest(s: System, k: nat, newId: string): seq<Event>
    requires k in s.workers
  {
    if IsUnderway(s.workers[k]) then Finish(k, newId) else []
  }

  lemma RestHandsOver(s: System, k: nat, v: Version, newId: string)
    requires Inv(s) && Counts(s, k, v) && newId !in s.store.used
    ensures var t := Run(s, Rest(s, k, newId));
            && Works(t, k, v) && HandedOver(t, k) && IsCalmRun(s, Rest(s, k, newId), v)
            && forall j | Counts(s, j, v) :: Counts(t, j, v)
  {
    if IsUnderway(s.workers[k]) {
      FinishHandsOver(s, k, newId);
    }
  }

  lemma CalmRunsConcatenate(s: System, a: seq<Event>, b: seq<Event>, v: Version)
    requires IsCalmRun(s, a, v) && IsCalmRun(Run(s, a), b, v)
    ensures IsCalmRun(s, a + b, v)
  {
    RunsConcatenate(s, a, b, v);
    forall i | 0 <= i < |a + b| ensures IsCalm(Run(s, (a + b)[..i]), (a + b)[i], v) {
      if i < |a| {
        assert (a + b)[..i] == a[..i];
      } else {
        assert (a + b)[..i] == a + b[..i - |a|];
        RunAppend(s, a, b[..i - |a|]);
      }
    }
  }

  lemma TwoCanAnnounce(s: System, j: nat, k: nat, v: Version) returns (events: seq<Event>)
    requires Inv(s) && Counts(s, j, v) && Counts(s, k, v) && j != k
    ensures IsCalmRun(s, events, v) && !AtMostOneAnnounces(Run(s, events), v)
  {
    var first := Rest(s, j, FreshId(s));
    RestHandsOver(s, j, v, FreshId(s));
    RunKeepsInv(s, first);
    var t := Run(s, first);
    var second := Rest(t, k, FreshId(t));
    RestHandsOver(t, k, v, FreshId(t));
    events := first + second;
    RunAppend(s, first, second);
    CalmRunsConcatenate(s, first, second, v);
    HandedStays(t, second, j);
  }

  lemma {:induction false} HandedStays(s: System, events: seq<Event>, k: nat)
    requires Inv(s) && HandedOver(s, k)
    ensures HandedOver(Run(s, events), k)
  {
    if events != [] {
      var init, e := events[..|events| - 1], events[|events| - 1];
      HandedStays(s, init, k);
      RunKeepsInv(s, init);
      var t := Run(s, init);
      if CanStep(t, k, e.action) { assert WorkerOk(t.store, t.workers[k]); }
      if e.worker != k { StepIsOwn(t, e, k); }
    }
  }

  /** If queries of the version are answered in calm moments only, at most one of its events is ever
      handed over exactly when at most one of its workers counts now. */
  lemma AnnouncedOnceExactly(s: System, v: Version)
    requires Inv(s) && UploadWorkers(s, v)
    ensures (forall events | IsCalmRun(s, events, v) :: AtMostOneAnnounces(Run(s, events), v))
            <==> AtMostOneCounts(s, v)
  {
    if AtMostOneCounts(s, v) {
      forall events | IsCalmRun(s, events, v) ensures AtMostOneAnnounces(Run(s, events), v) {
        CalmRunKeepsOne(s, events, v);
        var t := Run(s, events);
        forall j, k | Works(t, j, v) && Works(t, k, v) && HandedOver(t, j) && HandedOver(t, k) ensures j == k {
          assert Counts(t, j, v) && Counts(t, k, v);
        }
      }
    } else {
      var j, k :| Counts(s, j, v) && Counts(s, k, v) && j != k;
      var events := TwoCanAnnounce(s, j, k, v);
    }
  }

  /** From the start: in every interleaving, with any step able to fail, in which uploads alone start
      workers of the version and its queries are answered in calm moments, at most one of its workers
      hands over an event, and that event once. */
  lemma CalmRunAnnouncesOnce(events: seq<Event>, v: Version)
    requires IsCalmRun(INITIAL, events, v)
    ensures AtMostOneAnnounces(Run(INITIAL, events), v)
    ensures forall id :: multiset(Run(INITIAL, events).store.handed)[id] <= 1
  {
    assert Inv(INITIAL);
    AnnouncedOnceExactly(INITIAL, v);
    MarkedOnlyAfterHandedOver(events);
  }
}
