/** Uploads together with the notification workers they start. */
module Compositions {
  import opened Descriptors
  import opened Sequences
  import opened VersionTables
  import opened Registry
  import Keys
  import Histories
  import HistoryLimits
  import Notifications
  import Announcements

  datatype Whole = Whole(state: State, system: Notifications.System)

  /** The service performs an operation, which may start the worker `worker`; or some worker takes a step. */
  datatype Event = Serve(op: Histories.Op, worker: nat) | Work(event: Notifications.Event)

  /** What the worker that an operation starts is asked to announce. */
  ghost function NoticeOf(env: Env, s: State, op: Histories.Op): Option<Notifications.Request> {
    if !op.Upload? then None
    else
      match Uploaded(env, s, op.ref, op.metadata, op.data, op.commitSha, op.faults).1
      case Rejected => None
      case Failed(id, detection) => NoticeFor(op.ref, id, detection)
      case Published(id, _, detection) => NoticeFor(op.ref, id, detection)
  }

  function NoticeFor(ref: SchemaRef, id: UUID, detection: Detection): Option<Notifications.Request> {
    if detection.Started? then Some(Notifications.Request(ref.nsName, Some(id), true)) else None
  }

  /** The protocol's step in an event, if any: uploads start their own workers, so a start step of its own
      is that of an explicit comparison. */
  ghost function ProtocolStep(env: Env, s: State, e: Event): Option<Notifications.Event> {
    match e
    case Serve(op, k) =>
      (match NoticeOf(env, s, op) case None => None
       case Some(r) => Some(Notifications.Event(k, Notifications.Start(r))))
    case Work(step) => if step.action.Start? && step.action.request.fromCreate then None else Some(step)
  }

  ghost function Step(env: Env, w: Whole, e: Event): Whole {
    Whole(if e.Serve? then Histories.Step(env, w.state, e.op) else w.state,
          match ProtocolStep(env, w.state, e) case None => w.system
            case Some(step) => Notifications.Take(w.system, step))
  }

  ghost function Run(env: Env, events: seq<Event>): Whole {
    if events == [] then Whole(Histories.INITIAL, Notifications.INITIAL)
    else Step(env, Run(env, events[..|events| - 1]), events[|events| - 1])
  }

  // ---------- a composed run is a run of both parts ----------

  function Served(): Event -> seq<Histories.Op> {
    (e: Event) => if e.Serve? then [e.op] else []
  }

  ghost function Protocol(env: Env, events: seq<Event>): seq<Notifications.Event> {
    if events == [] then []
    else
      var init := events[..|events| - 1];
      Protocol(env, init)
      + match ProtocolStep(env, Run(env, init).state, events[|events| - 1]) case None => [] case Some(step) => [step]
  }

  lemma {:induction false} RunServes(env: Env, events: seq<Event>)
    ensures Run(env, events).state == Histories.Run(env, Histories.INITIAL, FlatMap(Served(), events))
  {
    if events != [] {
      var init, e := events[..|events| - 1], events[|events| - 1];
      RunServes(env, init);
      var ops := FlatMap(Served(), init);
      if e.Serve? {
        assert (ops + [e.op])[..|ops|] == ops;
      } else {
        assert ops + [] == ops;
      }
    }
  }

  lemma {:induction false} RunWorks(env: Env, events: seq<Event>)
    ensures Run(env, events).system == Notifications.Run(Notifications.INITIAL, Protocol(env, events))
  {
    if events != [] {
      var init, e := events[..|events| - 1], events[|events| - 1];
      RunWorks(env, init);
      var steps := Protocol(env, init);
      var own := ProtocolStep(env, Run(env, init).state, e);
      if own.Some? {
        assert (steps + [own.value])[..|steps|] == steps;
      } else {
        assert steps + [] == steps;
      }
    }
  }

  /** So the laws of serial runs and of the protocol hold of composed runs. */
  lemma RunsOfBothParts(env: Env, events: seq<Event>)
    ensures Run(env, events).state == Histories.Run(env, Histories.INITIAL, FlatMap(Served(), events))
    ensures Run(env, events).system == Notifications.Run(Notifications.INITIAL, Protocol(env, events))
  {
    RunServes(env, events);
    RunWorks(env, events);
  }

  /** An upload starts a worker exactly when it gets past its check, detection is enabled, and the latest
      version can be read again; the worker is asked to announce the version of the uploaded content. No
      other operation starts one. */
  lemma WorkerStartsExactly(env: Env, events: seq<Event>, op: Histories.Op, k: nat)
    requires k !in Run(env, events).system.workers
    ensures var w, t := Run(env, events), Run(env, events + [Serve(op, k)]);
            && (k in t.system.workers <==>
                  && op.Upload? && env.detectsChanges && !op.faults.reread
                  && !Uploaded(env, w.state, op.ref, op.metadata, op.data, op.commitSha, op.faults).1.Rejected?
                  && LatestFetched(w.state, op.ref).1.Some?)
            && (k in t.system.workers ==>
                  t.system.workers[k] == Notifications.Worker(
                      Notifications.Request(op.ref.nsName, Some(GetIDforSchema(op.ref.nsName, op.ref.name,
                          OfBytes(env.provider.canonical(op.data)))), true),
                      Notifications.Resolving, None, false))
            && forall j | j in w.system.workers :: j in t.system.workers && t.system.workers[j] == w.system.workers[j]
  {
    var all, s := events + [Serve(op, k)], Run(env, events).state;
    assert all[..|all| - 1] == events && all[|all| - 1] == Serve(op, k);
    if op.Upload? && !Uploaded(env, s, op.ref, op.metadata, op.data, op.commitSha, op.faults).1.Rejected? {
      Histories.DetectionStartsExactly(env, s, op.ref, op.metadata, op.data, op.commitSha, op.faults);
    }
  }

  // ---------- what is announced was uploaded ----------

  /** The `i`-th event is the upload that started the worker, with this request. */
  ghost predicate StartedAt(env: Env, events: seq<Event>, i: int, k: nat, request: Notifications.Request) {
    && 0 <= i < |events| && events[i].Serve? && events[i].worker == k && events[i].op.Upload?
    && NoticeOf(env, Run(env, events[..i]).state, events[i].op) == Some(request)
  }

  lemma RequestStays(s: Notifications.System, step: Notifications.Event, k: nat)
    requires k in s.workers
    ensures k in Notifications.Take(s, step).workers
    ensures Notifications.Take(s, step).workers[k].request == s.workers[k].request
  {
    if Notifications.CanStep(s, step.worker, step.action) && step.worker == k && !step.action.Start? {
      Announcements.PhaseAfter(s.store, s.workers[k], step.action);
    }
  }

  lemma {:induction false} WorkerWasStarted(env: Env, events: seq<Event>, k: nat) returns (i: int)
    requires k in Run(env, events).system.workers && Run(env, events).system.workers[k].request.fromCreate
    ensures StartedAt(env, events, i, k, Run(env, events).system.workers[k].request)
  {
    var init, e := events[..|events| - 1], events[|events| - 1];
    var w := Run(env, init);
    var step := ProtocolStep(env, w.state, e);
    if k in w.system.workers {
      if step.Some? { RequestStays(w.system, step.value, k); }
      i := WorkerWasStarted(env, init, k);
      assert init[..i] == events[..i];
    } else {
      i := |init|;
    }
  }

  ghost predicate IsStored(env: Env, events: seq<Event>, request: Notifications.Request) {
    request.versionId.Some? && request.versionId.value in Run(env, events).state.tables.versions
  }

  lemma StartIsStoredExactly(env: Env, events: seq<Event>, i: int, k: nat, request: Notifications.Request)
    requires StartedAt(env, events, i, k, request)
    ensures IsStored(env, events[..i + 1], request) <==>
            !events[i].op.faults.create.RolledBack? || IsStored(env, events[..i], request)
  {
    var op, s := events[i].op, Run(env, events[..i]).state;
    assert events[..i + 1][..i] == events[..i];
    Histories.DetectedIsStoredExactly(env, s, op.ref, op.metadata, op.data, op.commitSha, op.faults);
  }

  /** In every composed run, whatever fails: an event handed over for an upload belongs to a version that
      was stored when its worker started, exactly unless the transaction of that upload was rolled back
      and the version was not there before. */
  lemma AnnouncedWasStored(env: Env, events: seq<Event>, k: nat) returns (i: int)
    requires var system := Run(env, events).system;
             Announcements.HandedOver(system, k) && system.workers[k].request.fromCreate
    ensures var request := Run(env, events).system.workers[k].request;
            && StartedAt(env, events, i, k, request)
            && (IsStored(env, events[..i + 1], request) <==>
                  !events[i].op.faults.create.RolledBack? || IsStored(env, events[..i], request))
  {
    i := WorkerWasStarted(env, events, k);
    StartIsStoredExactly(env, events, i, k, Run(env, events).system.workers[k].request);
  }

  // ---------- a version that does not exist is announced ----------

  function Works(): Notifications.Event -> Event {
    (step: Notifications.Event) => Work(step)
  }

  lemma {:induction false} WorkersRunOn(env: Env, events: seq<Event>, steps: seq<Notifications.Event>)
    requires forall step | step in steps :: !step.action.Start?
    ensures Run(env, events + Map(Works(), steps))
         == Whole(Run(env, events).state, Notifications.Run(Run(env, events).system, steps))
  {
    var all := events + Map(Works(), steps);
    if steps == [] {
      assert all == events;
    } else {
      var init := steps[..|steps| - 1];
      WorkersRunOn(env, events, init);
      assert all[..|all| - 1] == events + Map(Works(), init);
      assert all[|all| - 1] == Work(steps[|steps| - 1]);
    }
  }

  function AfterStart(newId: string): seq<Notifications.Event> {
    [Notifications.Event(0, Notifications.Resolve(7, Notifications.Done)),
     Notifications.Event(0, Notifications.Query(Notifications.Done))]
    + Announcements.Finish(0, newId)
  }

  lemma FirstWorkerHandsOver(request: Notifications.Request, newId: string)
    requires request.fromCreate
    ensures var s := Notifications.Take(Notifications.INITIAL, Notifications.Event(0, Notifications.Start(request)));
            Announcements.HandedOver(Notifications.Run(s, AfterStart(newId)), 0)
  {
    var v := Announcements.Version(request.nsName, 7, request.versionId);
    var start := Notifications.Event(0, Notifications.Start(request));
    var rest := [Notifications.Event(0, Notifications.Resolve(7, Notifications.Done)),
                 Notifications.Event(0, Notifications.Query(Notifications.Done))];
    Announcements.NewWorkerGetsUnderway(Notifications.INITIAL, 0, v);
    assert [start][..0] == [] && [start] + rest == [start, rest[0], rest[1]];
    Notifications.RunAppend(Notifications.INITIAL, [start], rest);
    var underway := Notifications.Run(Notifications.Take(Notifications.INITIAL, start), rest);
    assert Notifications.Inv(Notifications.INITIAL);
    Notifications.RunKeepsInv(Notifications.INITIAL, [start] + rest);
    Announcements.FinishHandsOver(underway, 0, newId);
    Notifications.RunAppend(Notifications.Take(Notifications.INITIAL, start), rest, Announcements.Finish(0, newId));
  }

  /** A composed run from the start: the second upload is rolled back, and its worker announces a version
      that no table holds. */
  lemma RolledBackVersionIsAnnounced(env: Env, ref: SchemaRef, first: Bytes, second: Bytes, newId: string)
    requires Keys.Unambiguous(env.namespaces.Keys) && ref.nsName in env.namespaces && env.detectsChanges
    requires env.namespaces[ref.nsName].compatibility == ""
    requires env.provider.parse(first).Some? && env.provider.parse(second).Some?
    requires env.provider.parse(env.provider.canonical(first)).Some?
             && env.provider.canonical(first) != env.provider.canonical(second)
    ensures var up1 := Histories.Upload(ref, HistoryLimits.UNCHECKED, first, "", NO_FAULTS);
            var up2 := Histories.Upload(ref, HistoryLimits.UNCHECKED, second, "", Faults(false, false, RolledBack));
            var w := Run(env, [Serve(up1, 0), Serve(up2, 0)] + Map(Works(), AfterStart(newId)));
            && Announcements.HandedOver(w.system, 0)
            && w.system.workers[0].request == Notifications.Request(ref.nsName,
                                                                    Some(HistoryLimits.IdOf(env, ref, second)), true)
            && HistoryLimits.IdOf(env, ref, second) !in w.state.tables.versions
  {
    var up1 := Histories.Upload(ref, HistoryLimits.UNCHECKED, first, "", NO_FAULTS);
    var up2 := Histories.Upload(ref, HistoryLimits.UNCHECKED, second, "", Faults(false, false, RolledBack));
    var request := Notifications.Request(ref.nsName, Some(HistoryLimits.IdOf(env, ref, second)), true);
    TwoUploads(env, ref, first, second);
    WorkersRunOn(env, [Serve(up1, 0), Serve(up2, 0)], AfterStart(newId));
    FirstWorkerHandsOver(request, newId);
    RequestsStay(Run(env, [Serve(up1, 0), Serve(up2, 0)]).system, AfterStart(newId), 0);
  }

  lemma {:induction false} RequestsStay(s: Notifications.System, steps: seq<Notifications.Event>, k: nat)
    requires k in s.workers
    ensures k in Notifications.Run(s, steps).workers
            && Notifications.Run(s, steps).workers[k].request == s.workers[k].request
  {
    if steps != [] {
      RequestsStay(s, steps[..|steps| - 1], k);
      RequestStays(Notifications.Run(s, steps[..|steps| - 1]), steps[|steps| - 1], k);
    }
  }

  lemma TwoUploads(env: Env, ref: SchemaRef, first: Bytes, second: Bytes)
    requires Keys.Unambiguous(env.namespaces.Keys) && ref.nsName in env.namespaces && env.detectsChanges
    requires env.namespaces[ref.nsName].compatibility == ""
    requires env.provider.parse(first).Some? && env.provider.parse(second).Some?
    requires env.provider.parse(env.provider.canonical(first)).Some?
             && env.provider.canonical(first) != env.provider.canonical(second)
    ensures var up1 := Histories.Upload(ref, HistoryLimits.UNCHECKED, first, "", NO_FAULTS);
            var up2 := Histories.Upload(ref, HistoryLimits.UNCHECKED, second, "", Faults(false, false, RolledBack));
            var request := Notifications.Request(ref.nsName, Some(HistoryLimits.IdOf(env, ref, second)), true);
            var w := Run(env, [Serve(up1, 0), Serve(up2, 0)]);
            && w.system == Notifications.Take(Notifications.INITIAL,
                                              Notifications.Event(0, Notifications.Start(request)))
            && HistoryLimits.IdOf(env, ref, second) !in w.state.tables.versions
  {
    var up1 := Histories.Upload(ref, HistoryLimits.UNCHECKED, first, "", NO_FAULTS);
    var up2 := Histories.Upload(ref, HistoryLimits.UNCHECKED, second, "", Faults(false, false, RolledBack));
    HistoryLimits.RolledBackUploadIsDetected(env, ref, first, second);
    var both := [Serve(up1, 0), Serve(up2, 0)];
    assert both[..1] == [Serve(up1, 0)] && [Serve(up1, 0)][..0] == [];
    FirstStartsNothing(env, ref, first);
    var s1 := Histories.Step(env, Histories.INITIAL, up1);
    assert Run(env, both[..1]) == Whole(s1, Notifications.INITIAL);
    assert NoticeOf(env, s1, up2) == Some(Notifications.Request(ref.nsName, Some(HistoryLimits.IdOf(env, ref, second)),
                                                                true));
    assert Run(env, both) == Step(env, Run(env, both[..1]), both[1]);
  }

  /** The first upload of a schema has nothing to compare with. */
  lemma FirstStartsNothing(env: Env, ref: SchemaRef, first: Bytes)
    ensures NoticeOf(env, Histories.INITIAL, Histories.Upload(ref, HistoryLimits.UNCHECKED, first, "", NO_FAULTS)).None?
  {}
}
