/** The notification protocol: any number of workers query, insert, publish and mark, with every step
    able to fail before or after it takes effect. */
module Notifications {
  import opened Sequences
  import opened Descriptors
  import opened VersionTables

  /** A version to announce. Workers started by an upload look for an earlier success first; those
      started by an explicit comparison do not, and name no version identifier. */
  datatype Request = Request(nsName: string, versionId: Option<UUID>, fromCreate: bool)

  datatype EventRow = EventRow(nsName: string, schemaId: int, versionId: Option<UUID>, success: bool)

  datatype Outcome = Done | FailedBefore | FailedAfter {
    predicate Ok() { Done? }
    predicate Applied() { !FailedBefore? }
  }

  datatype Phase =
    | Resolving
    | Querying(schemaId: int)
    | Refreshing(found: string)
    | Identifying(schemaId: int)
    | Inserting(schemaId: int)
    | Publishing
    | Marking
    | Finished

  /** `eventId` is set once the worker has built its event; `sawSuccess` once its query has met a row
      marked successful. */
  datatype Worker = Worker(request: Request, phase: Phase, eventId: Option<string>, sawSuccess: bool)

  /** `handed` lists the event ids passed to the producer, `acked` those it accepted, `used` every id
      ever generated. */
  datatype Store = Store(rows: map<string, EventRow>, handed: seq<string>, acked: set<string>, used: set<string>)

  datatype System = System(store: Store, workers: map<nat, Worker>)

  datatype Action =
    | Start(request: Request)
    | Resolve(schemaId: int, outcome: Outcome)
    | Query(outcome: Outcome)
    | Refresh(outcome: Outcome)
    | Identify(newId: string, changed: bool, outcome: Outcome)
    | Insert(outcome: Outcome)
    | Publish(outcome: Outcome)
    | Mark(outcome: Outcome)

  // ---------- the event table ----------

  function Matching(rows: map<string, EventRow>, nsName: string, schemaId: int, versionId: Option<UUID>,
                    success: bool): set<string>
  {
    set id | id in rows && rows[id] == EventRow(nsName, schemaId, versionId, success)
  }

  function MarkSuccess(rows: map<string, EventRow>, id: string): map<string, EventRow> {
    if id in rows then rows[id := rows[id].(success := true)] else rows
  }

  // ---------- one step of one worker ----------

  predicate Enabled(store: Store, w: Worker, a: Action) {
    match a
    case Start(_) => false
    case Resolve(_, _) => w.phase.Resolving?
    case Query(_) => w.phase.Querying?
    case Refresh(_) => w.phase.Refreshing?
    case Identify(newId, _, _) => w.phase.Identifying? && newId !in store.used
    case Insert(_) => w.phase.Inserting? && w.eventId.Some?
    case Publish(_) => w.phase.Publishing? && w.eventId.Some?
    case Mark(_) => w.phase.Marking? && w.eventId.Some?
  }

  /** A worker that finds more than one successful row fails like the single-row query it runs. */
  function QueryResult(store: Store, w: Worker): Worker
    requires w.phase.Querying?
  {
    var found := Matching(store.rows, w.request.nsName, w.phase.schemaId, w.request.versionId, true);
    if found == {} then w.(phase := Identifying(w.phase.schemaId))
    else if |found| == 1 then
      SingleMember(found);
      var id :| id in found;
      w.(phase := Refreshing(id), sawSuccess := true)
    else w.(phase := Finished, sawSuccess := true)
  }

  lemma SingleMember(s: set<string>)
    requires |s| == 1
    ensures exists x :: x in s
    ensures forall x, y | x in s && y in s :: x == y
  {
    var x :| x in s;
    assert |s - {x}| == 0;
    assert s - {x} == {};
    assert forall y :: y in s ==> y in s - {x} || y == x;
  }

  function After(store: Store, w: Worker, a: Action): (Store, Worker)
    requires Enabled(store, w, a)
  {
    match a
    case Resolve(schemaId, o) =>
      (store, if !o.Ok() then w.(phase := Finished)
              else if w.request.fromCreate then w.(phase := Querying(schemaId))
              else w.(phase := Identifying(schemaId)))
    case Query(o) =>
      (store, if !o.Ok() then w.(phase := Finished) else QueryResult(store, w))
    case Refresh(o) =>
      (if o.Applied() then store.(rows := MarkSuccess(store.rows, w.phase.found)) else store, w.(phase := Finished))
    case Identify(newId, changed, o) =>
      (store.(used := store.used + {newId}),
       if o.Ok() && changed then w.(phase := Inserting(w.phase.schemaId), eventId := Some(newId))
       else w.(phase := Finished))
    case Insert(o) =>
      var id := w.eventId.value;
      if id in store.rows then (store, w.(phase := Finished))
      else
        var row := EventRow(w.request.nsName, w.phase.schemaId, w.request.versionId, false);
        (if o.Applied() then store.(rows := store.rows[id := row]) else store,
         w.(phase := if o.Ok() then Publishing else Finished))
    case Publish(o) =>
      var id := w.eventId.value;
      (if o.Applied() then store.(handed := store.handed + [id], acked :=
                                  if o.Ok() then store.acked + {id} else store.acked) else store,
       w.(phase := if o.Ok() then Marking else Finished))
    case Mark(o) =>
      (if o.Applied() then store.(rows := MarkSuccess(store.rows, w.eventId.value)) else store, w.(phase := Finished))
  }

  predicate CanStep(s: System, k: nat, a: Action) {
    match a
    case Start(_) => k !in s.workers
    case _ => k in s.workers && Enabled(s.store, s.workers[k], a)
  }

  function StepOf(s: System, k: nat, a: Action): System
    requires CanStep(s, k, a)
  {
    match a
    case Start(request) => s.(workers := s.workers[k := Worker(request, Resolving, None, false)])
    case _ =>
      var (store, w) := After(s.store, s.workers[k], a);
      System(store, s.workers[k := w])
  }

  datatype Event = Event(worker: nat, action: Action)

  /** An event that cannot happen in the current state is skipped, so every list of events is a run. */
  function Take(s: System, e: Event): System {
    if CanStep(s, e.worker, e.action) then StepOf(s, e.worker, e.action) else s
  }

  function Run(s: System, events: seq<Event>): System {
    if events == [] then s else Take(Run(s, events[..|events| - 1]), events[|events| - 1])
  }

  lemma {:induction false} RunAppend(s: System, a: seq<Event>, b: seq<Event>)
    ensures Run(s, a + b) == Run(Run(s, a), b)
  {
    if b == [] {
      assert a + b == a;
    } else {
      assert (a + b)[..|a + b| - 1] == a + b[..|b| - 1];
      RunAppend(s, a, b[..|b| - 1]);
    }
  }

  lemma RunOfThree(s: System, a: Event, b: Event, c: Event)
    ensures Run(s, [a, b, c]) == Take(Take(Take(s, a), b), c)
  {
    assert [a, b, c][..2] == [a, b] && [a, b][..1] == [a] && [a][..0] == [];
    assert Run(s, [a]) == Take(s, a);
    assert Run(s, [a, b]) == Take(Take(s, a), b);
  }

  const INITIAL := System(Store(map[], [], {}, {}), map[])

  // ---------- what every interleaving keeps ----------

  /** What one worker knows about the store. */
  ghost predicate WorkerOk(store: Store, w: Worker) {
    && (w.eventId.Some? ==> w.eventId.value in store.used)
    && (w.sawSuccess ==> w.eventId.None? && (w.phase.Refreshing? || w.phase.Finished?))
    && (w.phase.Resolving? || w.phase.Querying? || w.phase.Refreshing? || w.phase.Identifying? ==> w.eventId.None?)
    && (w.phase.Inserting? || w.phase.Publishing? || w.phase.Marking? ==> w.eventId.Some?)
    && (w.phase.Inserting? || w.phase.Publishing? ==> w.eventId.value !in store.handed)
    && (w.phase.Inserting? ==> w.eventId.value !in store.rows)
    && (w.phase.Marking? ==> w.eventId.value in store.acked)
    && (w.phase.Refreshing? ==> w.phase.found in store.rows && store.rows[w.phase.found].success)
  }

  ghost predicate StoreOk(store: Store) {
    && Distinct(store.handed)
    && (forall id | id in store.handed :: id in store.used)
    && (forall id | id in store.acked :: id in store.handed)
    && (forall id | id in store.rows :: id in store.used)
    && (forall id | id in store.rows && store.rows[id].success :: id in store.acked)
  }

  ghost predicate OwnIds(s: System) {
    forall j, k | j in s.workers && k in s.workers && j != k && s.workers[j].eventId.Some? ::
        s.workers[j].eventId != s.workers[k].eventId
  }

  ghost predicate HandedByOwners(s: System) {
    forall id | id in s.store.handed :: exists k :: k in s.workers && s.workers[k].eventId == Some(id)
  }

  ghost predicate Inv(s: System) {
    && StoreOk(s.store)
    && (forall k | k in s.workers :: WorkerOk(s.store, s.workers[k]))
    && OwnIds(s)
    && HandedByOwners(s)
  }

  lemma StepKeepsStore(s: System, k: nat, a: Action)
    requires Inv(s) && CanStep(s, k, a)
    ensures StoreOk(StepOf(s, k, a).store)
  {
    if !a.Start? {
      assert WorkerOk(s.store, s.workers[k]);
    }
  }

  lemma StepKeepsOwner(s: System, k: nat, a: Action)
    requires Inv(s) && CanStep(s, k, a)
    ensures WorkerOk(StepOf(s, k, a).store, StepOf(s, k, a).workers[k])
  {
    if !a.Start? {
      assert WorkerOk(s.store, s.workers[k]);
      if a.Query? && a.outcome.Ok() {
        QueryFindsSuccess(s.store, s.workers[k]);
      }
    }
  }

  lemma QueryFindsSuccess(store: Store, w: Worker)
    requires w.phase.Querying?
    ensures QueryResult(store, w).phase.Refreshing? ==>
              var found := QueryResult(store, w).phase.found;
              found in store.rows && store.rows[found].success
    ensures QueryResult(store, w).eventId == w.eventId
  {}

  lemma StepKeepsOthers(s: System, k: nat, a: Action, j: nat)
    requires Inv(s) && CanStep(s, k, a) && j in s.workers && j != k
    ensures WorkerOk(StepOf(s, k, a).store, s.workers[j])
  {
    assert WorkerOk(s.store, s.workers[j]);
    if !a.Start? {
      assert WorkerOk(s.store, s.workers[k]);
    }
  }

  lemma StepKeepsIds(s: System, k: nat, a: Action)
    requires Inv(s) && CanStep(s, k, a)
    ensures OwnIds(StepOf(s, k, a))
  {
    var t := StepOf(s, k, a);
    forall i, j | i in t.workers && j in t.workers && i != j && t.workers[i].eventId.Some?
      ensures t.workers[i].eventId != t.workers[j].eventId
    {
      if i in s.workers { assert WorkerOk(s.store, s.workers[i]); }
      if j in s.workers { assert WorkerOk(s.store, s.workers[j]); }
    }
  }

  lemma StepKeepsHanders(s: System, k: nat, a: Action)
    requires Inv(s) && CanStep(s, k, a)
    ensures HandedByOwners(StepOf(s, k, a))
  {
    var t := StepOf(s, k, a);
    if !a.Start? {
      assert WorkerOk(s.store, s.workers[k]);
      EventIdStays(s.store, s.workers[k], a);
    }
    forall id | id in t.store.handed ensures exists j :: j in t.workers && t.workers[j].eventId == Some(id) {
      if id in s.store.handed {
        var j :| j in s.workers && s.workers[j].eventId == Some(id);
        assert j in t.workers && t.workers[j].eventId == Some(id);
      } else {
        assert t.workers[k].eventId == Some(id);
      }
    }
  }

  lemma EventIdStays(store: Store, w: Worker, a: Action)
    requires Enabled(store, w, a) && WorkerOk(store, w)
    ensures w.eventId.Some? ==> After(store, w, a).1.eventId == w.eventId
    ensures w.sawSuccess ==> After(store, w, a).1.sawSuccess
  {
    if a.Query? { QueryFindsSuccess(store, w); }
  }

  lemma TakeKeepsInv(s: System, e: Event)
    requires Inv(s)
    ensures Inv(Take(s, e))
  {
    if CanStep(s, e.worker, e.action) {
      StepKeepsStore(s, e.worker, e.action);
      StepKeepsOwner(s, e.worker, e.action);
      StepKeepsIds(s, e.worker, e.action);
      StepKeepsHanders(s, e.worker, e.action);
      var t := Take(s, e);
      forall j | j in t.workers ensures WorkerOk(t.store, t.workers[j]) {
        if j != e.worker { StepKeepsOthers(s, e.worker, e.action, j); }
      }
    }
  }

  lemma {:induction false} RunKeepsInv(s: System, events: seq<Event>)
    requires Inv(s)
    ensures Inv(Run(s, events))
  {
    if events != [] {
      RunKeepsInv(s, events[..|events| - 1]);
      TakeKeepsInv(Run(s, events[..|events| - 1]), events[|events| - 1]);
    }
  }

  /** In every interleaving, with any step able to fail: a row is marked successful only after the
      producer accepted its own event, and each event id is handed over at most once. */
  lemma MarkedOnlyAfterHandedOver(events: seq<Event>)
    ensures var store := Run(INITIAL, events).store;
            && (forall id | id in store.rows && store.rows[id].success :: id in store.acked && id in store.handed)
            && (forall id :: multiset(store.handed)[id] <= 1)
  {
    assert Inv(INITIAL);
    RunKeepsInv(INITIAL, events);
    var store := Run(INITIAL, events).store;
    forall id ensures multiset(store.handed)[id] <= 1 {
      DistinctCount(store.handed, id);
    }
  }

  /** An answered query lets a worker go on to build an event exactly when no row of its version is
      marked successful; if one is, the worker marks it again, and if several are, it fails. */
  lemma QueryDecides(store: Store, w: Worker)
    requires w.phase.Querying?
    ensures QueryResult(store, w).phase.Identifying? <==>
            forall id | id in store.rows :: store.rows[id] != EventRow(w.request.nsName, w.phase.schemaId,
                w.request.versionId, true)
    ensures QueryResult(store, w).sawSuccess <==> w.sawSuccess || !QueryResult(store, w).phase.Identifying?
    ensures QueryResult(store, w).phase.Finished? <==>
            exists id, other :: id != other && id in store.rows && other in store.rows
                && store.rows[id] == store.rows[other]
                   == EventRow(w.request.nsName, w.phase.schemaId, w.request.versionId, true)
    ensures !QueryResult(store, w).phase.Identifying? && !QueryResult(store, w).phase.Finished? ==>
              QueryResult(store, w).phase.Refreshing?
  {
    var found := Matching(store.rows, w.request.nsName, w.phase.schemaId, w.request.versionId, true);
    assert forall id :: id in found <==>
      id in store.rows && store.rows[id] == EventRow(w.request.nsName, w.phase.schemaId, w.request.versionId, true);
    Several(found);
  }

  lemma Several(s: set<string>)
    ensures |s| >= 2 <==> exists x, y :: x != y && x in s && y in s
  {
    if |s| >= 2 {
      var x :| x in s;
      assert |s - {x}| >= 1;
      var y :| y in s - {x};
    }
    if x, y :| x != y && x in s && y in s {
      assert {x, y} <= s && |s - {x, y}| == |s| - |{x, y}|;
    }
  }

  lemma {:induction false} SawSuccessStays(s: System, events: seq<Event>, k: nat)
    requires Inv(s) && k in s.workers && s.workers[k].sawSuccess
    ensures k in Run(s, events).workers && Run(s, events).workers[k].sawSuccess
  {
    if events != [] {
      var init, e := events[..|events| - 1], events[|events| - 1];
      SawSuccessStays(s, init, k);
      RunKeepsInv(s, init);
      var t := Run(s, init);
      if CanStep(t, e.worker, e.action) && e.worker == k {
        assert WorkerOk(t.store, t.workers[k]);
        EventIdStays(t.store, t.workers[k], e.action);
      }
    }
  }

  /** A worker whose query meets a successful row of its version never publishes, whatever any worker
      does afterwards: it has no event, and every event handed over is another worker's. */
  lemma DuplicatePublishesNothing(before: seq<Event>, k: nat, after: seq<Event>, id: string)
    requires var s := Run(INITIAL, before);
             && k in s.workers && s.workers[k].phase.Querying? && id in s.store.rows
             && s.store.rows[id] == EventRow(s.workers[k].request.nsName, s.workers[k].phase.schemaId,
                                             s.workers[k].request.versionId, true)
    ensures var t := Run(Take(Run(INITIAL, before), Event(k, Query(Done))), after);
            && k in t.workers && t.workers[k].eventId.None?
            && forall h | h in t.store.handed :: exists j :: j != k && j in t.workers && t.workers[j].eventId == Some(h)
  {
    var s := Run(INITIAL, before);
    assert Inv(INITIAL);
    RunKeepsInv(INITIAL, before);
    QueryDecides(s.store, s.workers[k]);
    var q := Take(s, Event(k, Query(Done)));
    TakeKeepsInv(s, Event(k, Query(Done)));
    SawSuccessStays(q, after, k);
    RunKeepsInv(q, after);
    var t := Run(q, after);
    assert WorkerOk(t.store, t.workers[k]);
    forall h | h in t.store.handed ensures exists j :: j != k && j in t.workers && t.workers[j].eventId == Some(h) {
      var j :| j in t.workers && t.workers[j].eventId == Some(h);
    }
  }

  // ---------- a worker that has stopped ----------

  lemma {:induction false} FinishedIsForever(s: System, events: seq<Event>, k: nat)
    requires Inv(s) && k in s.workers && s.workers[k].phase.Finished?
    ensures var t := Run(s, events);
            && k in t.workers && t.workers[k] == s.workers[k]
            && forall id | s.workers[k].eventId == Some(id) && id in t.store.handed :: id in s.store.handed
  {
    if events != [] {
      var init, e := events[..|events| - 1], events[|events| - 1];
      FinishedIsForever(s, init, k);
      RunKeepsInv(s, init);
      var t := Run(s, init);
      if CanStep(t, e.worker, e.action) && !e.action.Start? {
        assert WorkerOk(t.store, t.workers[e.worker]) && e.worker != k;
      }
    }
  }

  /** A worker that has finished never changes again, and everything handed over afterwards is an event of
      another worker. */
  lemma FinishedHandsOverNothing(s: System, events: seq<Event>, k: nat)
    requires Inv(s) && k in s.workers && s.workers[k].phase.Finished?
    ensures var t := Run(s, events);
            && k in t.workers && t.workers[k] == s.workers[k]
            && forall h | h in t.store.handed && h !in s.store.handed ::
                 exists j :: j != k && j in t.workers && t.workers[j].eventId == Some(h)
  {
    var t := Run(s, events);
    FinishedIsForever(s, events, k);
    RunKeepsInv(s, events);
    forall h | h in t.store.handed && h !in s.store.handed
      ensures exists j :: j != k && j in t.workers && t.workers[j].eventId == Some(h)
    {
      var j :| j in t.workers && t.workers[j].eventId == Some(h);
    }
  }

  /** A comparison that finds no updated schema ends its worker: no row is inserted or changed, nothing is
      handed over, and in no continuation does the worker have an event; whatever is handed over
      belongs to others. */
  lemma UnchangedAnnouncesNothing(before: seq<Event>, k: nat, newId: string, outcome: Outcome, after: seq<Event>)
    requires var s := Run(INITIAL, before);
             k in s.workers && s.workers[k].phase.Identifying? && newId !in s.store.used
    ensures var s := Run(INITIAL, before);
            var u := Take(s, Event(k, Identify(newId, false, outcome)));
            var t := Run(u, after);
            && u.store.rows == s.store.rows && u.store.handed == s.store.handed && u.store.acked == s.store.acked
            && k in t.workers && t.workers[k].phase.Finished? && t.workers[k].eventId.None?
            && forall h | h in t.store.handed :: exists j :: j != k && j in t.workers && t.workers[j].eventId == Some(h)
  {
    var s := Run(INITIAL, before);
    var e := Event(k, Identify(newId, false, outcome));
    assert Inv(INITIAL);
    RunKeepsInv(INITIAL, before);
    assert WorkerOk(s.store, s.workers[k]);
    TakeKeepsInv(s, e);
    FinishedHandsOverNothing(Take(s, e), after, k);
    RunKeepsInv(Take(s, e), after);
    var t := Run(Take(s, e), after);
    forall h | h in t.store.handed ensures exists j :: j != k && j in t.workers && t.workers[j].eventId == Some(h) {
      var j :| j in t.workers && t.workers[j].eventId == Some(h);
    }
  }

  /** A statement that fails ends its worker. If it fails before it takes effect, no row changes and
      nothing is handed over; if it fails afterwards, rows and what is handed over are as if it had
      succeeded, but the producer has accepted nothing. */
  lemma FailureStops(s: System, k: nat, a: Action)
    requires Inv(s) && CanStep(s, k, a) && !a.Start?
    ensures var (u, t, d) := (Take(s, Event(k, a.(outcome := FailedBefore))),
                              Take(s, Event(k, a.(outcome := FailedAfter))), Take(s, Event(k, a.(outcome := Done))));
            && u.workers[k].phase.Finished? && t.workers[k].phase.Finished?
            && u.store.rows == s.store.rows && u.store.handed == s.store.handed && u.store.acked == s.store.acked
            && t.store.rows == d.store.rows && t.store.handed == d.store.handed && t.store.acked == s.store.acked
  {
    assert WorkerOk(s.store, s.workers[k]);
  }
}
