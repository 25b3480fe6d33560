/** The notification code as one worker runs it, tied to the protocol's steps, and runs that show what
    the protocol does not promise. */
module NotificationService {
  import opened Descriptors
  import opened VersionTables
  import opened Notifications
  import opened Announcements

  /** How each statement of one call turns out. */
  datatype Fate = Fate(resolve: Outcome, query: Outcome, refresh: Outcome, identify: Outcome,
                       insert: Outcome, publish: Outcome, mark: Outcome)

  /** The steps one worker attempts; those that do not apply are skipped. */
  function Script(k: nat, request: Request, schemaId: int, newId: string, changed: bool, fate: Fate): seq<Event> {
    [Event(k, Start(request)), Event(k, Resolve(schemaId, fate.resolve)), Event(k, Query(fate.query)),
     Event(k, Refresh(fate.refresh)), Event(k, Identify(newId, changed, fate.identify)),
     Event(k, Insert(fate.insert)), Event(k, Publish(fate.publish)), Event(k, Mark(fate.mark))]
  }

  lemma MatchingIsMarked(store: Store, request: Request, schemaId: int)
    ensures var matching := Matching(store.rows, request.nsName, schemaId, request.versionId, true);
            && (Marked(store, Version(request.nsName, schemaId, request.versionId)) <==> matching != {})
            && (forall id | id in matching :: MarkSuccess(store.rows, id) == store.rows)
            && (matching != {} ==> |matching| >= 1)
  {
    var matching := Matching(store.rows, request.nsName, schemaId, request.versionId, true);
    if id :| id in store.rows && store.rows[id] == EventRow(request.nsName, schemaId, request.versionId, true) {
      assert id in matching;
    }
  }

  /** The worker has an update to announce, and for an upload no row of its version is marked. */
  ghost predicate Announces(store: Store, request: Request, schemaId: int, changed: bool) {
    changed && !(request.fromCreate && Marked(store, Version(request.nsName, schemaId, request.versionId)))
  }

  /** The statements that a worker gets to once it has looked up the schema all succeed. */
  ghost predicate AllSucceed(store: Store, request: Request, schemaId: int, newId: string, changed: bool, fate: Fate) {
    if request.fromCreate && Marked(store, Version(request.nsName, schemaId, request.versionId)) then
      && fate.query.Ok() && fate.refresh.Ok()
      && |Matching(store.rows, request.nsName, schemaId, request.versionId, true)| == 1
    else
      && (request.fromCreate ==> fate.query.Ok()) && fate.identify.Ok()
      && (changed ==> newId !in store.rows && fate.insert.Ok() && fate.publish.Ok() && fate.mark.Ok())
  }

  class Service {
    var rows: map<string, EventRow>
    var handed: seq<string>
    var acked: set<string>
    ghost var used: set<string>

    ghost function Current(): Store
      reads this
    {
      Store(rows, handed, acked, used)
    }

    constructor ()
      ensures Current() == INITIAL.store
    {
      rows, handed, acked, used := map[], [], {}, {};
    }

    /** Inserts a row; a duplicate identifier is an error. */
    method CreateEvent(id: string, row: EventRow, outcome: Outcome) returns (ok: bool)
      modifies this`rows
      ensures rows == if id !in old(rows) && outcome.Applied() then old(rows)[id := row] else old(rows)
      ensures ok <==> id !in old(rows) && outcome.Ok()
    {
      if id in rows {
        return false;
      }
      if outcome.Applied() {
        rows := rows[id := row];
      }
      return outcome.Ok();
    }

    method UpdateEvent(id: string, outcome: Outcome) returns (ok: bool)
      modifies this`rows
      ensures rows == if outcome.Applied() then MarkSuccess(old(rows), id) else old(rows)
      ensures ok <==> id in old(rows) && outcome.Ok()
    {
      if outcome.Applied() && id in rows {
        rows := rows[id := rows[id].(success := true)];
      }
      return id in rows && outcome.Ok();
    }

    /** The single-row query for a successful event of one version: the id, nothing, or an error when
        it fails or several rows match. */
    method FindSuccess(nsName: string, schemaId: int, versionId: Option<UUID>, outcome: Outcome) returns (ok: bool,
        found: Option<string>)
      ensures var matching := Matching(rows, nsName, schemaId, versionId, true);
              && (ok <==> outcome.Ok() && |matching| <= 1)
              && (ok ==> if matching == {} then found.None? else found.Some? && found.value in matching)
    {
      if !outcome.Ok() {
        return false, None;
      }
      var matching := set id | id in rows && rows[id] == EventRow(nsName, schemaId, versionId, true);
      if |matching| > 1 {
        return false, None;
      }
      if id :| id in matching {
        return true, Some(id);
      }
      return true, None;
    }

    method Write(id: string, outcome: Outcome) returns (ok: bool)
      modifies this`handed, this`acked
      ensures handed == if outcome.Applied() then old(handed) + [id] else old(handed)
      ensures acked == if outcome.Ok() then old(acked) + {id} else old(acked)
      ensures ok == outcome.Ok()
    {
      if outcome.Applied() {
        handed := handed + [id];
      }
      if outcome.Ok() {
        acked := acked + {id};
      }
      return outcome.Ok();
    }

    /** Inserts the row, hands the event to the producer, and marks the row, stopping at an error. */
    method SendNotification(ghost k: nat, ghost s: System, request: Request, schemaId: int, newId: string,
                            fate: Fate) returns (ok: bool)
      requires s == System(Current(), s.workers) && k in s.workers
      requires s.workers[k] == Worker(request, Inserting(schemaId), Some(newId), false)
      modifies this`rows, this`handed, this`acked
      ensures Current() == Take(Take(Take(s, Event(k, Insert(fate.insert))), Event(k, Publish(fate.publish))),
                                Event(k, Mark(fate.mark))).store
      ensures ok <==> newId !in old(rows) && fate.insert.Ok() && fate.publish.Ok() && fate.mark.Ok()
      ensures ok ==> handed == old(handed) + [newId] && acked == old(acked) + {newId}
                     && rows == old(rows)[newId := EventRow(request.nsName, schemaId, request.versionId, true)]
    {
      ghost var s1 := Take(s, Event(k, Insert(fate.insert)));
      ghost var s2 := Take(s1, Event(k, Publish(fate.publish)));
      ok := CreateEvent(newId, EventRow(request.nsName, schemaId, request.versionId, false), fate.insert);
      assert Current() == s1.store;
      if !ok {
        return false;
      }
      ok := Write(newId, fate.publish);
      assert Current() == s2.store;
      if !ok {
        return false;
      }
      ok := UpdateEvent(newId, fate.mark);
    }

    /** One worker, start to end: the store changes as the protocol's steps of a single worker change
        it. `changed` says whether the comparison finds an updated schema; if not, no row changes and
        nothing is handed over. If nothing fails, an update is announced unless an upload's version has a
        marked row. */
    method IdentifySchemaChange(ghost k: nat, ghost workers: map<nat, Worker>, request: Request, schemaId: int,
                                newId: string, changed: bool, fate: Fate)
      returns (ok: bool)
      requires k !in workers && newId !in used
      modifies this
      ensures Current() == Run(System(old(Current()), workers),
                               Script(k, request, schemaId, newId, changed, fate)).store
      ensures !changed ==> rows == old(rows) && handed == old(handed) && acked == old(acked)
      ensures ok ==>
                if Announces(old(Current()), request, schemaId, changed)
                then handed == old(handed) + [newId] && acked == old(acked) + {newId}
                     && rows == old(rows)[newId := EventRow(request.nsName, schemaId, request.versionId, true)]
                else rows == old(rows) && handed == old(handed) && acked == old(acked)
      ensures ok <==> fate.resolve.Ok() && AllSucceed(old(Current()), request, schemaId, newId, changed, fate)
    {
      ghost var s2 := Resolved(System(Current(), workers), k, request, schemaId, fate.resolve);
      RunScript(System(Current(), workers), k, request, schemaId, newId, changed, fate);
      if !fate.resolve.Ok() {
        FinishedStays(Take(Take(s2, Event(k, Query(fate.query))), Event(k, Refresh(fate.refresh))), k, newId, changed,
                      fate);
        return false;
      }
      ok := AnnounceVersion(k, s2, request, schemaId, newId, changed, fate);
    }

    /** From the query for an earlier success on. */
    method AnnounceVersion(ghost k: nat, ghost s: System, request: Request, schemaId: int, newId: string,
                           changed: bool, fate: Fate)
      returns (ok: bool)
      requires s == System(Current(), s.workers) && k in s.workers && newId !in used
      requires s.workers[k] == Worker(request, if request.fromCreate then Querying(schemaId)
                                      else Identifying(schemaId), None, false)
      modifies this
      ensures Current() == AfterIdentify(Take(Take(s, Event(k, Query(fate.query))), Event(k, Refresh(fate.refresh))),
                                         k, newId, changed, fate).store
      ensures !changed ==> rows == old(rows) && handed == old(handed) && acked == old(acked)
      ensures ok ==>
                if Announces(old(Current()), request, schemaId, changed)
                then handed == old(handed) + [newId] && acked == old(acked) + {newId}
                     && rows == old(rows)[newId := EventRow(request.nsName, schemaId, request.versionId, true)]
                else rows == old(rows) && handed == old(handed) && acked == old(acked)
      ensures ok <==> AllSucceed(old(Current()), request, schemaId, newId, changed, fate)
    {
      ghost var s3 := Take(s, Event(k, Query(fate.query)));
      ghost var s4 := Take(s3, Event(k, Refresh(fate.refresh)));
      MatchingIsMarked(Current(), request, schemaId);
      if request.fromCreate {
        var answered, found := FindSuccess(request.nsName, schemaId, request.versionId, fate.query);
        if !answered {
          FinishedStays(s4, k, newId, changed, fate);
          return false;
        }
        if found.Some? {
          ok := UpdateEvent(found.value, fate.refresh);
          FinishedStays(s4, k, newId, changed, fate);
          return;
        }
      }
      assert s4 == System(Current(), s.workers[k := Worker(request, Identifying(schemaId), None, false)]);
      ghost var s5 := Take(s4, Event(k, Identify(newId, changed, fate.identify)));
      used := used + {newId};
      if !fate.identify.Ok() || !changed {
        return fate.identify.Ok();
      }
      ok := SendNotification(k, s5, request, schemaId, newId, fate);
    }
  }

  /** The state once the worker has started and looked up the schema. */
  function Resolved(s: System, k: nat, request: Request, schemaId: int, outcome: Outcome): System {
    Take(Take(s, Event(k, Start(request))), Event(k, Resolve(schemaId, outcome)))
  }

  /** The remaining steps: build the event, insert, publish, mark. */
  function AfterIdentify(s: System, k: nat, newId: string, changed: bool, fate: Fate): System {
    Take(Take(Take(Take(s, Event(k, Identify(newId, changed, fate.identify))), Event(k, Insert(fate.insert))),
              Event(k, Publish(fate.publish))), Event(k, Mark(fate.mark)))
  }

  lemma FinishedStays(s: System, k: nat, newId: string, changed: bool, fate: Fate)
    requires k in s.workers && s.workers[k].phase.Finished?
    ensures AfterIdentify(s, k, newId, changed, fate) == s
  {}

  lemma RunScript(s: System, k: nat, request: Request, schemaId: int, newId: string, changed: bool, fate: Fate)
    ensures Run(s, Script(k, request, schemaId, newId, changed, fate))
         == AfterIdentify(Take(Take(Resolved(s, k, request, schemaId, fate.resolve), Event(k, Query(fate.query))),
                               Event(k, Refresh(fate.refresh))), k, newId, changed, fate)
  {
    var e := Script(k, request, schemaId, newId, changed, fate);
    assert e[..8] == e;
    forall i | 0 <= i < 8 ensures Run(s, e[..i + 1]) == Take(Run(s, e[..i]), e[i]) {
      assert e[..i + 1][..i] == e[..i];
    }
    assert e[..0] == [];
    assert Run(s, e[..1]) == Take(Run(s, e[..0]), e[0]);
    assert Run(s, e[..2]) == Take(Run(s, e[..1]), e[1]);
    assert Run(s, e[..3]) == Take(Run(s, e[..2]), e[2]);
    assert Run(s, e[..4]) == Take(Run(s, e[..3]), e[3]);
    assert Run(s, e[..5]) == Take(Run(s, e[..4]), e[4]);
    assert Run(s, e[..6]) == Take(Run(s, e[..5]), e[5]);
    assert Run(s, e[..7]) == Take(Run(s, e[..6]), e[6]);
    assert Run(s, e[..8]) == Take(Run(s, e[..7]), e[7]);
  }

  // ---------- what the protocol does not promise ----------

  const VERSION := Request("ns", Some(OfBytes("v1")), true)

  const ROW := EventRow("ns", 7, VERSION.versionId, true)

  const SMOOTH := Fate(Done, Done, Done, Done, Done, Done, Done)

  /** A worker whose query finds nothing and whose steps all succeed, except possibly the mark. */
  lemma LonePublisher(s: System, k: nat, newId: string, mark: Outcome)
    requires k !in s.workers && newId !in s.store.used && newId !in s.store.rows && mark != FailedAfter
    requires Matching(s.store.rows, "ns", 7, VERSION.versionId, true) == {}
    ensures var t := Run(s, Script(k, VERSION, 7, newId, true, SMOOTH.(mark := mark)));
            && t.store.handed == s.store.handed + [newId]
            && t.store.rows == s.store.rows[newId := ROW.(success := mark.Done?)]
            && t.store.used == s.store.used + {newId}
            && t.workers.Keys == s.workers.Keys + {k}
  {
    RunScript(s, k, VERSION, 7, newId, true, SMOOTH.(mark := mark));
    LonePublisherStarts(s, k);
    LonePublisherEnds(System(s.store, s.workers[k := Worker(VERSION, Identifying(7), None, false)]), k, newId, mark);
  }

  lemma LonePublisherStarts(s: System, k: nat)
    requires k !in s.workers && Matching(s.store.rows, "ns", 7, VERSION.versionId, true) == {}
    ensures Take(Take(Resolved(s, k, VERSION, 7, Done), Event(k, Query(Done))), Event(k, Refresh(Done)))
         == System(s.store, s.workers[k := Worker(VERSION, Identifying(7), None, false)])
  {}

  lemma LonePublisherEnds(s: System, k: nat, newId: string, mark: Outcome)
    requires k in s.workers && s.workers[k] == Worker(VERSION, Identifying(7), None, false) && mark != FailedAfter
    requires newId !in s.store.used && newId !in s.store.rows
    ensures var t := AfterIdentify(s, k, newId, true, SMOOTH.(mark := mark));
            && t.store.handed == s.store.handed + [newId]
            && t.store.rows == s.store.rows[newId := ROW.(success := mark.Done?)]
            && t.store.used == s.store.used + {newId}
            && t.workers.Keys == s.workers.Keys
  {}

  /** Announcing a version once is not promised: if marking fails after the hand-over, the next worker
      of the same version publishes again. */
  lemma FailedMarkPublishesTwice()
    ensures var first, second := Script(0, VERSION, 7, "e1", true, SMOOTH.(mark := FailedBefore)),
                                 Script(1, VERSION, 7, "e2", true, SMOOTH);
            Run(INITIAL, first + second).store.handed == ["e1", "e2"]
  {
    var first, second := Script(0, VERSION, 7, "e1", true, SMOOTH.(mark := FailedBefore)),
        Script(1, VERSION, 7, "e2", true, SMOOTH);
    RunAppend(INITIAL, first, second);
    LonePublisher(INITIAL, 0, "e1", FailedBefore);
    assert "e1"[1] != "e2"[1];
    LonePublisher(Run(INITIAL, first), 1, "e2", Done);
  }

  function UpToQuery(k: nat): seq<Event> {
    [Event(k, Start(VERSION)), Event(k, Resolve(7, Done)), Event(k, Query(Done))]
  }

  function FromIdentify(k: nat, newId: string): seq<Event> {
    [Event(k, Identify(newId, true, Done)), Event(k, Insert(Done)), Event(k, Publish(Done)), Event(k, Mark(Done))]
  }

  lemma QueriesAndFindsNothing(s: System, k: nat)
    requires k !in s.workers && Matching(s.store.rows, "ns", 7, VERSION.versionId, true) == {}
    ensures Run(s, UpToQuery(k)) == System(s.store, s.workers[k := Worker(VERSION, Identifying(7), None, false)])
  {
    RunOfThree(s, Event(k, Start(VERSION)), Event(k, Resolve(7, Done)), Event(k, Query(Done)));
  }

  lemma PublishesAndMarks(s: System, k: nat, newId: string)
    requires k in s.workers && s.workers[k] == Worker(VERSION, Identifying(7), None, false)
    requires newId !in s.store.used && newId !in s.store.rows
    ensures var t := Run(s, FromIdentify(k, newId));
            && t.store.handed == s.store.handed + [newId] && t.store.rows == s.store.rows[newId := ROW]
            && t.store.used == s.store.used + {newId}
            && forall j | j in s.workers && j != k :: j in t.workers && t.workers[j] == s.workers[j]
  {
    var first := Event(k, Identify(newId, true, Done));
    var rest := [Event(k, Insert(Done)), Event(k, Publish(Done)), Event(k, Mark(Done))];
    assert FromIdentify(k, newId) == [first] + rest;
    RunAppend(s, [first], rest);
    assert [first][..0] == [];
    RunOfThree(Take(s, first), rest[0], rest[1], rest[2]);
  }

  /** Nor is it promised when nothing fails: two workers of one version that both query before either
      has marked publish two events for it, and both rows end up successful. */
  lemma InterleavedWorkersPublishTwice()
    ensures var t := Run(INITIAL, UpToQuery(0) + UpToQuery(1) + FromIdentify(0, "e1") + FromIdentify(1, "e2"));
            t.store.handed == ["e1", "e2"] && t.store.rows == map["e1" := ROW, "e2" := ROW]
  {
    RunAppend(INITIAL, UpToQuery(0) + UpToQuery(1) + FromIdentify(0, "e1"), FromIdentify(1, "e2"));
    RunAppend(INITIAL, UpToQuery(0) + UpToQuery(1), FromIdentify(0, "e1"));
    RunAppend(INITIAL, UpToQuery(0), UpToQuery(1));
    QueriesAndFindsNothing(INITIAL, 0);
    QueriesAndFindsNothing(Run(INITIAL, UpToQuery(0)), 1);
    var s := Run(Run(INITIAL, UpToQuery(0)), UpToQuery(1));
    PublishesAndMarks(s, 0, "e1");
    assert "e1"[1] != "e2"[1];
    PublishesAndMarks(Run(s, FromIdentify(0, "e1")), 1, "e2");
  }
}
