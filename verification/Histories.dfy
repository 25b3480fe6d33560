/** Serial runs of the registry: what the cache, the version numbers and the version history keep. */
module Histories {
  import opened Descriptors
  import opened Keys
  import opened VersionTables
  import opened Registry
  import opened CompatibilityModes
  import opened Verdicts
  import opened Transitivity
  import opened WireValues
  import opened Reservations

  /** A deletion and the clean-up that follows it are two steps, as either statement may fail; a failed
      statement is no step. */
  datatype Op =
    | Upload(ref: SchemaRef, metadata: Metadata, data: Bytes, commitSha: string, faults: Faults)
    | Fetch(ref: SchemaRef, version: int)
    | UpdateMetadata(ref: SchemaRef, compatibility: string)
    | DeleteVersion(ref: SchemaRef, version: int)
    | DeleteSchema(ref: SchemaRef)
    | CleanOrphans
    | Evict(key: string)

  ghost function Step(env: Env, s: State, op: Op): State {
    match op
    case Upload(ref, metadata, data, sha, faults) => Uploaded(env, s, ref, metadata, data, sha, faults).0
    case Fetch(ref, version) => Fetched(s, ref, version).0
    case UpdateMetadata(ref, mode) => s.(tables := MetadataUpdated(s.tables, ref, mode))
    case DeleteVersion(ref, version) => s.(tables := VersionDeleted(s.tables, ref, version))
    case DeleteSchema(ref) => s.(tables := SchemaDeleted(s.tables, ref))
    case CleanOrphans => s.(tables := OrphansCleaned(s.tables))
    case Evict(key) => s.(cache := s.cache - {key})
  }

  ghost function Run(env: Env, s: State, ops: seq<Op>): State {
    if ops == [] then s else Step(env, Run(env, s, ops[..|ops| - 1]), ops[|ops| - 1])
  }

  const INITIAL := State(EMPTY, map[])

  /** The calls of the service, as runs: a deletion is followed by a clean-up. */
  lemma CallsAreRuns(env: Env, s: State, ref: SchemaRef, metadata: Metadata, data: Bytes, sha: string, faults: Faults,
                     n: int, mode: string)
    ensures Run(env, s, [Upload(ref, metadata, data, sha, faults)])
         == Uploaded(env, s, ref, metadata, data, sha, faults).0
    ensures Run(env, s, [Fetch(ref, n)]) == Fetched(s, ref, n).0
    ensures Run(env, s, [UpdateMetadata(ref, mode)]) == State(MetadataUpdated(s.tables, ref, mode), s.cache)
    ensures Run(env, s, [DeleteVersion(ref, n), CleanOrphans])
         == State(OrphansCleaned(VersionDeleted(s.tables, ref, n)), s.cache)
    ensures Run(env, s, [DeleteSchema(ref), CleanOrphans])
         == State(OrphansCleaned(SchemaDeleted(s.tables, ref)), s.cache)
  {
    OneStep(env, s, Upload(ref, metadata, data, sha, faults));
    OneStep(env, s, Fetch(ref, n));
    OneStep(env, s, UpdateMetadata(ref, mode));
    TwoSteps(env, s, DeleteVersion(ref, n), CleanOrphans);
    TwoSteps(env, s, DeleteSchema(ref), CleanOrphans);
  }

  lemma OneStep(env: Env, s: State, op: Op)
    ensures Run(env, s, [op]) == Step(env, s, op)
  {
    assert [op][..0] == [];
  }

  lemma TwoSteps(env: Env, s: State, first: Op, second: Op)
    ensures Run(env, s, [first, second]) == Step(env, Step(env, s, first), second)
  {
    assert [first, second][..1] == [first];
    OneStep(env, s, first);
  }

  /** A fetch of a stored version that is not cached reads it and caches it under the text made of
      namespace, schema and number; any other fetch caches nothing, and none changes the tables. */
  lemma FetchReadsThrough(env: Env, s: State, ref: SchemaRef, n: int)
    ensures var s', key := Step(env, s, Fetch(ref, n)), ref.nsName + "-" + ref.name + "-" + FormatInt(n);
            && s'.tables == s.tables
            && (if ref in s.tables.schemas && key !in s.cache && Stored(s.tables, ref, n).Some?
                then s'.cache == s.cache[key := Stored(s.tables, ref, n).value] else s'.cache == s.cache)
            && (ref !in s.tables.schemas ==> Fetched(s, ref, n).1 == None)
            && (ref in s.tables.schemas ==>
                  Fetched(s, ref, n).1 == if key in s.cache then Some(s.cache[key]) else Stored(s.tables, ref, n))
  {}

  /** After an eviction the next fetch under that key reads the tables; nothing else changes. */
  lemma EvictedIsReadAgain(env: Env, s: State, ref: SchemaRef, n: int, key: string)
    ensures var s' := Step(env, s, Evict(key));
            && s'.tables == s.tables && s'.cache.Keys == s.cache.Keys - {key}
            && (forall k | k in s'.cache :: s'.cache[k] == s.cache[k])
            && (key == CacheKey(ref, n) && ref in s.tables.schemas ==>
                  Fetched(s', ref, n).1 == Stored(s.tables, ref, n))
  {}

  // ---------- the tables along a run ----------

  /** Only known namespaces own schemas. */
  ghost predicate KnownNamespaces(env: Env, t: Tables) {
    forall ref | ref in t.schemas :: ref.nsName in env.namespaces
  }

  ghost predicate Sound(env: Env, s: State) {
    Valid(s.tables) && KnownNamespaces(env, s.tables)
  }

  /** The one row an upload may insert. */
  ghost predicate Inserts(t: Tables, t': Tables, ref: SchemaRef, metadata: Metadata, sha: string, stored: Bytes) {
    var file := OfBytes(stored);
    var id := GetIDforSchema(ref.nsName, ref.name, file);
    id !in t.versions && t' == Created(t, ref, metadata, id, sha, file, stored).0
  }

  lemma UploadTables(env: Env, s: State, ref: SchemaRef, metadata: Metadata, data: Bytes, sha: string, faults: Faults)
    ensures var t' := Uploaded(env, s, ref, metadata, data, sha, faults).0.tables;
            t' == s.tables ||
            (ref.nsName in env.namespaces
             && exists merged :: Inserts(s.tables, t', ref, merged, sha, env.provider.canonical(data)))
  {
    var (s', outcome) := Uploaded(env, s, ref, metadata, data, sha, faults);
    if s'.tables != s.tables {
      assert Inserts(s.tables, s'.tables, ref, Merged(env, ref, metadata), sha, env.provider.canonical(data));
    }
  }

  lemma StepIsSound(env: Env, s: State, op: Op)
    requires Sound(env, s)
    ensures Sound(env, Step(env, s, op))
  {
    match op
    case Upload(ref, metadata, data, sha, faults) =>
      UploadTables(env, s, ref, metadata, data, sha, faults);
      var t' := Step(env, s, op).tables;
      if t' != s.tables {
        var stored := env.provider.canonical(data);
        var merged :| Inserts(s.tables, t', ref, merged, sha, stored);
        CreateEffect(s.tables, ref, merged, GetIDforSchema(ref.nsName, ref.name, OfBytes(stored)), sha,
                     OfBytes(stored), stored);
      }
    case Fetch(ref, version) =>
    case UpdateMetadata(ref, mode) => MetadataUpdateEffect(s.tables, ref, mode);
    case DeleteVersion(ref, version) =>
      DeleteVersionEffect(s.tables, ref, version);
    case DeleteSchema(ref) =>
      DeleteSchemaEffect(s.tables, ref);
    case CleanOrphans => CleanOrphansEffect(s.tables);
    case Evict(key) =>
  }

  /** In every reachable state version numbers within a schema are distinct and positive, and every
      version has its file. */
  lemma {:induction false} RunIsSound(env: Env, s: State, ops: seq<Op>)
    requires Sound(env, s)
    ensures Sound(env, Run(env, s, ops))
  {
    if ops != [] {
      RunIsSound(env, s, ops[..|ops| - 1]);
      StepIsSound(env, Run(env, s, ops[..|ops| - 1]), ops[|ops| - 1]);
    }
  }

  // ---------- what one step does to the live versions ----------

  predicate Removes(op: Op, ref: SchemaRef, n: int) {
    op == DeleteVersion(ref, n) || op == DeleteSchema(ref)
  }

  lemma LiveStays(env: Env, s: State, op: Op, ref: SchemaRef, n: int, id: UUID)
    requires Sound(env, s) && IsVersion(s.tables, ref, n, id) && !Removes(op, ref, n)
    ensures IsVersion(Step(env, s, op).tables, ref, n, id)
  {
    match op
    case Upload(r, metadata, data, sha, faults) =>
      UploadTables(env, s, r, metadata, data, sha, faults);
      var t' := Step(env, s, op).tables;
      if t' != s.tables {
        var stored := env.provider.canonical(data);
        var merged :| Inserts(s.tables, t', r, merged, sha, stored);
        CreateKeepsOthers(s.tables, r, merged, GetIDforSchema(r.nsName, r.name, OfBytes(stored)), sha, OfBytes(stored),
                          stored, ref, n, id);
      }
    case Fetch(_, _) =>
    case UpdateMetadata(r, mode) => MetadataUpdateKeepsVersions(s.tables, r, mode, ref, n, id);
    case DeleteVersion(r, version) =>
      DeleteVersionKeepsOthers(s.tables, r, version, ref, n, id);
    case DeleteSchema(r) =>
      DeleteSchemaKeepsOthers(s.tables, r, ref, n, id);
    case CleanOrphans => CleanOrphansKeepsVersions(s.tables, ref, n, id);
    case Evict(_) =>
  }

  /** The step adds version `n` of `ref`, as the highest and with content not live before. */
  ghost predicate Adds(env: Env, s: State, op: Op, ref: SchemaRef, n: int, id: UUID) {
    && op.Upload? && op.ref == ref && n == Latest(s.tables, ref) + 1
    && id == GetIDforSchema(ref.nsName, ref.name, OfBytes(env.provider.canonical(op.data)))
    && id !in s.tables.versions
    && !op.faults.create.RolledBack? && !Uploaded(env, s, ref, op.metadata, op.data, op.commitSha,
                                                  op.faults).1.Rejected?
  }

  lemma LiveWasOrIsNew(env: Env, s: State, op: Op, ref: SchemaRef, n: int, id: UUID)
    requires Sound(env, s) && IsVersion(Step(env, s, op).tables, ref, n, id)
    ensures IsVersion(s.tables, ref, n, id) || Adds(env, s, op, ref, n, id)
    ensures !Removes(op, ref, n)
  {
    match op
    case Upload(_, _, _, _, _) => UploadedWasOrIsNew(env, s, op, ref, n, id);
    case Fetch(_, _) =>
    case UpdateMetadata(r, mode) => MetadataUpdateKeepsVersions(s.tables, r, mode, ref, n, id);
    case DeleteVersion(r, version) =>
      DeleteVersionKeepsOthers(s.tables, r, version, ref, n, id);
    case DeleteSchema(r) =>
      DeleteSchemaKeepsOthers(s.tables, r, ref, n, id);
    case CleanOrphans => CleanOrphansKeepsVersions(s.tables, ref, n, id);
    case Evict(_) =>
  }

  lemma OnlyPassingUploadsInsert(env: Env, s: State, op: Op)
    requires op.Upload? && Step(env, s, op).tables != s.tables
    ensures !op.faults.create.RolledBack? && !Uploaded(env, s, op.ref, op.metadata, op.data, op.commitSha,
                                                       op.faults).1.Rejected?
  {}

  lemma UploadedWasOrIsNew(env: Env, s: State, op: Op, ref: SchemaRef, n: int, id: UUID)
    requires Sound(env, s) && op.Upload? && IsVersion(Step(env, s, op).tables, ref, n, id)
    ensures IsVersion(s.tables, ref, n, id) || Adds(env, s, op, ref, n, id)
  {
    var t', stored := Step(env, s, op).tables, env.provider.canonical(op.data);
    UploadTables(env, s, op.ref, op.metadata, op.data, op.commitSha, op.faults);
    if t' != s.tables {
      OnlyPassingUploadsInsert(env, s, op);
      var merged :| Inserts(s.tables, t', op.ref, merged, op.commitSha, stored);
      var newId := GetIDforSchema(op.ref.nsName, op.ref.name, OfBytes(stored));
      CreateEffect(s.tables, op.ref, merged, newId, op.commitSha, OfBytes(stored), stored);
      CreateKeepsOthers(s.tables, op.ref, merged, newId, op.commitSha, OfBytes(stored), stored, ref, n, id);
    }
  }

  // ---------- stored bytes ----------

  /** A live version keeps its identity and its bytes through any run that does not delete it. */
  lemma {:induction false} StoredBytesStay(env: Env, s: State, ops: seq<Op>, ref: SchemaRef, n: int, id: UUID)
    requires Sound(env, s) && IsVersion(s.tables, ref, n, id)
    requires forall op | op in ops :: !Removes(op, ref, n)
    ensures IsVersion(Run(env, s, ops).tables, ref, n, id) && id.OfKey? && id.file.OfBytes?
    ensures Stored(Run(env, s, ops).tables, ref, n) == Stored(s.tables, ref, n) == Some(id.file.data)
  {
    RunIsSound(env, s, ops);
    if ops != [] {
      StoredBytesStay(env, s, ops[..|ops| - 1], ref, n, id);
      RunIsSound(env, s, ops[..|ops| - 1]);
      LiveStays(env, Run(env, s, ops[..|ops| - 1]), ops[|ops| - 1], ref, n, id);
    }
    LiveIsUnique(s.tables, ref, n, id);
    LiveIsUnique(Run(env, s, ops).tables, ref, n, id);
  }

  /** After an accepted upload, whatever follows short of deleting it, the returned version holds the
      canonical form of the uploaded bytes. */
  lemma UploadedBytesStay(env: Env, s: State, ref: SchemaRef, metadata: Metadata, data: Bytes, sha: string,
                          faults: Faults, ops: seq<Op>)
    requires Sound(env, s) && Unambiguous(env.namespaces.Keys)
    requires Uploaded(env, s, ref, metadata, data, sha, faults).1.Published?
    requires forall op | op in ops :: !Removes(op, ref, Uploaded(env, s, ref, metadata, data, sha, faults).1.version)
    ensures var (s', outcome) := Uploaded(env, s, ref, metadata, data, sha, faults);
            Stored(Run(env, s', ops).tables, ref, outcome.version) == Some(env.provider.canonical(data))
  {
    var (s', outcome) := Uploaded(env, s, ref, metadata, data, sha, faults);
    StepIsSound(env, s, Upload(ref, metadata, data, sha, faults));
    UploadedIsLive(env, s, ref, metadata, data, sha, faults);
    StoredBytesStay(env, s', ops, ref, outcome.version, outcome.versionId);
  }

  /** An accepted upload returns a live version of its own schema that holds its content: the existing
      number, with the tables unchanged, if that content is live, and otherwise the next one. */
  lemma UploadedIsLive(env: Env, s: State, ref: SchemaRef, metadata: Metadata, data: Bytes, sha: string, faults: Faults)
    requires Sound(env, s) && Unambiguous(env.namespaces.Keys)
    requires Uploaded(env, s, ref, metadata, data, sha, faults).1.Published?
    ensures var (s', outcome) := Uploaded(env, s, ref, metadata, data, sha, faults);
            && outcome.versionId == GetIDforSchema(ref.nsName, ref.name, OfBytes(env.provider.canonical(data)))
            && IsVersion(s'.tables, ref, outcome.version, outcome.versionId)
            && (if outcome.versionId in s.tables.versions then s'.tables == s.tables
                else outcome.version == Latest(s.tables, ref) + 1 && |s'.tables.versions| == |s.tables.versions| + 1)
  {
    KnownIdIsReturned(env, s, ref, metadata, data, sha, faults);
    var id := Uploaded(env, s, ref, metadata, data, sha, faults).1.versionId;
    if id in s.tables.versions {
      OwnerIsSchema(env, s.tables, ref, id);
    } else {
      NewIdIsLive(env, s, ref, metadata, data, sha, faults);
    }
  }

  lemma OwnerIsSchema(env: Env, t: Tables, ref: SchemaRef, id: UUID)
    requires Valid(t) && KnownNamespaces(env, t) && Unambiguous(env.namespaces.Keys) && ref.nsName in env.namespaces
    requires id in t.versions && id.OfKey? && id.owner == Owner(ref.nsName, ref.name)
    ensures IsVersion(t, ref, t.versions[id].number, id)
  {
    assert HasOwner(t, id);
    var r :| OwnedBy(t, id, r);
    OwnerIsInjective(env.namespaces.Keys, r.nsName, r.name, ref.nsName, ref.name);
  }

  /** Some live version of the schema holds these bytes. */
  ghost predicate Holds(t: Tables, ref: SchemaRef, data: Bytes) {
    exists n :: Stored(t, ref, n) == Some(data)
  }

  lemma HolderOwnsId(t: Tables, ref: SchemaRef, data: Bytes) returns (n: int)
    requires Valid(t) && Holds(t, ref, data)
    ensures IsVersion(t, ref, n, GetIDforSchema(ref.nsName, ref.name, OfBytes(data)))
  {
    n :| Stored(t, ref, n) == Some(data);
    LiveIsUnique(t, ref, n, VersionId(t, ref, n));
  }

  lemma OneOwner(t: Tables, r: SchemaRef, q: SchemaRef, n: int, m: int, id: UUID)
    requires SchemaIds(t) && IsVersion(t, r, n, id) && IsVersion(t, q, m, id)
    ensures r == q
  {
    assert SameId(t, r, q);
  }

  /** Another schema with the same owner text holds the content. */
  ghost predicate HeldElsewhere(t: Tables, ref: SchemaRef, data: Bytes) {
    exists other: SchemaRef :: other != ref && Owner(other.nsName, other.name) == Owner(ref.nsName, ref.name)
        && Holds(t, other, data)
  }

  lemma IdOfContent(t: Tables, ref: SchemaRef, data: Bytes)
    requires Valid(t)
    ensures var id := GetIDforSchema(ref.nsName, ref.name, OfBytes(data));
            if id in t.versions then IsVersion(t, ref, t.versions[id].number, id) <==> !HeldElsewhere(t, ref, data)
            else !HeldElsewhere(t, ref, data)
  {
    var id := GetIDforSchema(ref.nsName, ref.name, OfBytes(data));
    if other: SchemaRef :|
      other != ref && Owner(other.nsName, other.name) == Owner(ref.nsName, ref.name) && Holds(t, other, data)
    {
      var n := HolderOwnsId(t, other, data);
      if IsVersion(t, ref, n, id) { OneOwner(t, ref, other, n, n, id); }
    } else if id in t.versions {
      assert HasOwner(t, id);
      var r :| OwnedBy(t, id, r);
      LiveIsUnique(t, r, t.versions[id].number, id);
      assert Holds(t, r, data);
    }
  }

  lemma PublishedIsCreated(env: Env, s: State, ref: SchemaRef, metadata: Metadata, data: Bytes, sha: string,
                           faults: Faults)
    requires Uploaded(env, s, ref, metadata, data, sha, faults).1.Published?
    ensures ref.nsName in env.namespaces
    ensures var (s', outcome) := Uploaded(env, s, ref, metadata, data, sha, faults);
            var file := OfBytes(env.provider.canonical(data));
            && outcome.versionId == GetIDforSchema(ref.nsName, ref.name, file)
            && (s'.tables, outcome.version)
               == Created(s.tables, ref, Merged(env, ref, metadata), outcome.versionId, sha, file,
                          env.provider.canonical(data))
  {}

  lemma NewIdIsLive(env: Env, s: State, ref: SchemaRef, metadata: Metadata, data: Bytes, sha: string, faults: Faults)
    requires Sound(env, s) && Uploaded(env, s, ref, metadata, data, sha, faults).1.Published?
    requires Uploaded(env, s, ref, metadata, data, sha, faults).1.versionId !in s.tables.versions
    ensures var (s', outcome) := Uploaded(env, s, ref, metadata, data, sha, faults);
            && IsVersion(s'.tables, ref, outcome.version, outcome.versionId)
            && outcome.version == Latest(s.tables, ref) + 1 && |s'.tables.versions| == |s.tables.versions| + 1
  {
    var file := OfBytes(env.provider.canonical(data));
    PublishedIsCreated(env, s, ref, metadata, data, sha, faults);
    NewIdIsCreated(s.tables, ref, Merged(env, ref, metadata), sha, file, env.provider.canonical(data));
  }

  lemma NewIdIsCreated(t: Tables, ref: SchemaRef, merged: Metadata, sha: string, file: UUID, data: Bytes)
    requires Valid(t) && file == OfBytes(data) && GetIDforSchema(ref.nsName, ref.name, file) !in t.versions
    ensures var id := GetIDforSchema(ref.nsName, ref.name, file);
            var (t', number) := Created(t, ref, merged, id, sha, file, data);
            IsVersion(t', ref, number, id) && number == Latest(t, ref) + 1 && |t'.versions| == |t.versions| + 1
  {
    var id := GetIDforSchema(ref.nsName, ref.name, file);
    CreateEffect(t, ref, merged, id, sha, file, data);
    assert Created(t, ref, merged, id, sha, file, data).0.versions.Keys == t.versions.Keys + {id};
  }

  lemma KnownIdIsReturned(env: Env, s: State, ref: SchemaRef, metadata: Metadata, data: Bytes, sha: string,
                          faults: Faults)
    requires Uploaded(env, s, ref, metadata, data, sha, faults).1.Published?
    ensures var (s', outcome) := Uploaded(env, s, ref, metadata, data, sha, faults);
            && outcome.versionId == GetIDforSchema(ref.nsName, ref.name, OfBytes(env.provider.canonical(data)))
            && (outcome.versionId in s.tables.versions ==>
                  s'.tables == s.tables && outcome.version == s.tables.versions[outcome.versionId].number)
  {}

  /** Without the assumption on namespaces, an accepted upload returns a live version of its own schema
      exactly when no other schema with the same owner text holds the uploaded content. */
  lemma UploadReturnsOwnVersionExactly(env: Env, s: State, ref: SchemaRef, metadata: Metadata, data: Bytes,
                                       sha: string, faults: Faults)
    requires Sound(env, s) && Uploaded(env, s, ref, metadata, data, sha, faults).1.Published?
    ensures var (s', outcome) := Uploaded(env, s, ref, metadata, data, sha, faults);
            IsVersion(s'.tables, ref, outcome.version, outcome.versionId)
            <==> !HeldElsewhere(s.tables, ref, env.provider.canonical(data))
  {
    KnownIdIsReturned(env, s, ref, metadata, data, sha, faults);
    IdOfContent(s.tables, ref, env.provider.canonical(data));
    if Uploaded(env, s, ref, metadata, data, sha, faults).1.versionId !in s.tables.versions {
      NewIdIsLive(env, s, ref, metadata, data, sha, faults);
    }
  }

  // ---------- the start of change detection ----------

  /** An upload that passes its check starts change detection exactly when that is enabled and the
      previous version can be read again; then it compares with what the check has read. Both the outcome
      and change detection name the number of the version's row, or 0 if there is none. */
  lemma DetectionStartsExactly(env: Env, s: State, ref: SchemaRef, metadata: Metadata, data: Bytes, sha: string,
                               faults: Faults)
    requires !Uploaded(env, s, ref, metadata, data, sha, faults).1.Rejected?
    ensures var outcome, latest := Uploaded(env, s, ref, metadata, data, sha, faults).1, LatestFetched(s, ref).1;
            && (outcome.detection.Started? <==> env.detectsChanges && !faults.reread && latest.Some?)
            && (outcome.detection.Started? ==> outcome.detection.oldData == latest.value)
    ensures var (s', outcome) := Uploaded(env, s, ref, metadata, data, sha, faults);
            var number := if faults.create.RolledBack? then 0 else s'.tables.versions[outcome.versionId].number;
            && outcome.versionId == GetIDforSchema(ref.nsName, ref.name, OfBytes(env.provider.canonical(data)))
            && (outcome.detection.Started? ==> outcome.detection.version == number)
            && (outcome.Published? <==> faults.create.Committed?)
            && (outcome.Published? ==> outcome.version == number)
  {
    assert LatestFetched(LatestFetched(s, ref).0, ref).1 == LatestFetched(s, ref).1;
  }

  /** Change detection runs for a version that is stored exactly when the transaction was not rolled
      back or the version was there before. */
  lemma DetectedIsStoredExactly(env: Env, s: State, ref: SchemaRef, metadata: Metadata, data: Bytes, sha: string,
                                faults: Faults)
    requires !Uploaded(env, s, ref, metadata, data, sha, faults).1.Rejected?
    ensures var (s', outcome) := Uploaded(env, s, ref, metadata, data, sha, faults);
            outcome.versionId in s'.tables.versions <==>
            !faults.create.RolledBack? || outcome.versionId in s.tables.versions
  {}

  // ---------- version numbers ----------

  /** The step neither deletes the schema nor its highest version. */
  ghost predicate KeepsHighest(s: State, op: Op, ref: SchemaRef) {
    op != DeleteSchema(ref) && op != DeleteVersion(ref, Latest(s.tables, ref))
  }

  ghost predicate AlwaysKeepsHighest(env: Env, s: State, ops: seq<Op>, ref: SchemaRef) {
    forall i | 0 <= i < |ops| :: KeepsHighest(Run(env, s, ops[..i]), ops[i], ref)
  }

  lemma LatestGrows(env: Env, s: State, op: Op, ref: SchemaRef)
    requires Sound(env, s) && KeepsHighest(s, op, ref)
    ensures Latest(Step(env, s, op).tables, ref) >= Latest(s.tables, ref)
  {
    StepIsSound(env, s, op);
    LatestBounds(s.tables, ref);
    LatestBounds(Step(env, s, op).tables, ref);
    var n := Latest(s.tables, ref);
    if n > 0 {
      var id :| IsVersion(s.tables, ref, n, id);
      LiveStays(env, s, op, ref, n, id);
      assert Live(Step(env, s, op).tables, ref, n);
    }
  }

  lemma {:induction false} LatestNeverShrinks(env: Env, s: State, ops: seq<Op>, ref: SchemaRef)
    requires Sound(env, s) && AlwaysKeepsHighest(env, s, ops, ref)
    ensures Latest(Run(env, s, ops).tables, ref) >= Latest(s.tables, ref)
  {
    if ops != [] {
      var init := ops[..|ops| - 1];
      forall i | 0 <= i < |init| ensures KeepsHighest(Run(env, s, init[..i]), init[i], ref) {
        assert init[..i] == ops[..i];
      }
      LatestNeverShrinks(env, s, init, ref);
      RunIsSound(env, s, init);
      LatestGrows(env, Run(env, s, init), ops[|ops| - 1], ref);
    }
  }

  /** While the highest version is never deleted, a number given to new content is above every number
      that was live at any earlier point of the run, so none is reused. */
  lemma NumbersNeverReused(env: Env, s: State, ops: seq<Op>, ref: SchemaRef, n: int, op: Op, m: int, id: UUID)
    requires Sound(env, s) && Live(s.tables, ref, n) && AlwaysKeepsHighest(env, s, ops, ref)
    requires Adds(env, Run(env, s, ops), op, ref, m, id)
    ensures m > n
  {
    LatestNeverShrinks(env, s, ops, ref);
    LatestBounds(s.tables, ref);
  }

  /** In any sound state: a number at most `n` is given out again exactly when no version numbered `n`
      or higher is live any more. */
  lemma NumberReusedExactly(env: Env, s: State, ref: SchemaRef, op: Op, n: int, m: int, id: UUID)
    requires Sound(env, s) && Adds(env, s, op, ref, m, id) && n >= 1
    ensures m <= n <==> forall k | k >= n :: !Live(s.tables, ref, k)
  {
    LatestBounds(s.tables, ref);
  }

  // ---------- the cache ----------

  /** Whatever is cached for a live version of `ref` is what is stored. */
  ghost predicate CoherentFor(s: State, ref: SchemaRef) {
    forall n: nat | Live(s.tables, ref, n) && CacheKey(ref, n) in s.cache ::
      Stored(s.tables, ref, n) == Some(s.cache[CacheKey(ref, n)])
  }

  /** Nothing is cached for a number `ref` has not given out. */
  ghost predicate CachedBelow(s: State, ref: SchemaRef) {
    forall n: nat | n > Latest(s.tables, ref) :: CacheKey(ref, n) !in s.cache
  }

  /** The key and value are those of a live version. */
  ghost predicate CachesLive(t: Tables, key: string, value: Bytes) {
    exists ref, n: nat :: ref in t.schemas && Live(t, ref, n) && key == CacheKey(ref, n)
        && Stored(t, ref, n) == Some(value)
  }

  lemma FetchCaches(s: State, ref: SchemaRef, version: int, key: string)
    requires Valid(s.tables) && key in Fetched(s, ref, version).0.cache
    ensures var c := Fetched(s, ref, version).0.cache;
            (key in s.cache && c[key] == s.cache[key]) || CachesLive(s.tables, key, c[key])
  {
    LatestBounds(s.tables, ref);
    var c := Fetched(s, ref, version).0.cache;
    if key !in s.cache || c[key] != s.cache[key] {
      assert Live(s.tables, ref, version) && key == CacheKey(ref, version);
      assert CachesLive(s.tables, key, c[key]);
    }
  }

  lemma UploadCache(env: Env, s: State, ref: SchemaRef, metadata: Metadata, data: Bytes, sha: string, faults: Faults)
    ensures var c, s1 := Uploaded(env, s, ref, metadata, data, sha, faults).0.cache, LatestFetched(s, ref).0;
            c == s.cache || c == s1.cache || c == LatestFetched(s1, ref).0.cache
    ensures LatestFetched(s, ref).0.tables == s.tables
  {}

  lemma FetchesCache(s: State, ref: SchemaRef, key: string)
    requires Valid(s.tables)
    ensures var c := LatestFetched(s, ref).0.cache;
            key in c ==> (key in s.cache && c[key] == s.cache[key]) || CachesLive(s.tables, key, c[key])
    ensures var c := LatestFetched(LatestFetched(s, ref).0, ref).0.cache;
            key in c ==> (key in s.cache && c[key] == s.cache[key]) || CachesLive(s.tables, key, c[key])
  {
    var s1 := LatestFetched(s, ref).0;
    if key in s1.cache {
      FetchCaches(s, ref, Latest(s.tables, ref), key);
    }
    if key in LatestFetched(s1, ref).0.cache {
      FetchCaches(s1, ref, Latest(s1.tables, ref), key);
    }
  }

  lemma StepCaches(env: Env, s: State, op: Op, key: string)
    requires Sound(env, s) && key in Step(env, s, op).cache
    ensures var c := Step(env, s, op).cache;
            (key in s.cache && c[key] == s.cache[key]) || CachesLive(s.tables, key, c[key])
  {
    match op
    case Upload(ref, metadata, data, sha, faults) =>
      UploadCache(env, s, ref, metadata, data, sha, faults);
      FetchesCache(s, ref, key);
    case Fetch(ref, version) => FetchCaches(s, ref, version, key);
    case UpdateMetadata(_, _) =>
    case DeleteVersion(_, _) =>
    case DeleteSchema(_) =>
    case CleanOrphans =>
    case Evict(_) =>
  }

  lemma CachedKeyIsOwn(env: Env, s: State, ref: SchemaRef, n: nat, value: Bytes)
    requires Sound(env, s) && Unambiguous(env.namespaces.Keys) && ref.nsName in env.namespaces
    requires CachesLive(s.tables, CacheKey(ref, n), value)
    ensures Live(s.tables, ref, n) && Stored(s.tables, ref, n) == Some(value)
  {
    var r, m: nat :| r in s.tables.schemas && Live(s.tables, r, m) && CacheKey(ref, n) == CacheKey(r, m)
        && Stored(s.tables, r, m) == Some(value);
    SchemaKeyIsInjective(env.namespaces.Keys, ref.nsName, ref.name, n, r.nsName, r.name, m);
  }

  lemma SameVersionSameBytes(t: Tables, t': Tables, ref: SchemaRef, n: int, id: UUID)
    requires Valid(t) && Valid(t') && IsVersion(t, ref, n, id) && IsVersion(t', ref, n, id)
    ensures Stored(t, ref, n) == Stored(t', ref, n)
  {
    LiveIsUnique(t, ref, n, id);
    LiveIsUnique(t', ref, n, id);
  }

  lemma StepKeepsCache(env: Env, s: State, op: Op, ref: SchemaRef)
    requires Sound(env, s) && Unambiguous(env.namespaces.Keys) && ref.nsName in env.namespaces
    requires CoherentFor(s, ref) && CachedBelow(s, ref) && KeepsHighest(s, op, ref)
    ensures CoherentFor(Step(env, s, op), ref) && CachedBelow(Step(env, s, op), ref)
  {
    var s' := Step(env, s, op);
    StepIsSound(env, s, op);
    LatestBounds(s.tables, ref);
    forall n: nat | Live(s'.tables, ref, n) && CacheKey(ref, n) in s'.cache
      ensures Stored(s'.tables, ref, n) == Some(s'.cache[CacheKey(ref, n)])
    {
      var id :| IsVersion(s'.tables, ref, n, id);
      LiveWasOrIsNew(env, s, op, ref, n, id);
      StepCaches(env, s, op, CacheKey(ref, n));
      if CachesLive(s.tables, CacheKey(ref, n), s'.cache[CacheKey(ref, n)]) {
        CachedKeyIsOwn(env, s, ref, n, s'.cache[CacheKey(ref, n)]);
      }
      if IsVersion(s.tables, ref, n, id) {
        SameVersionSameBytes(s.tables, s'.tables, ref, n, id);
      }
    }
    LatestGrows(env, s, op, ref);
    forall n: nat | n > Latest(s'.tables, ref) ensures CacheKey(ref, n) !in s'.cache {
      if CacheKey(ref, n) in s'.cache {
        StepCaches(env, s, op, CacheKey(ref, n));
        CachedKeyIsOwn(env, s, ref, n, s'.cache[CacheKey(ref, n)]);
      }
    }
  }

  lemma InitialIsSound(env: Env, ref: SchemaRef)
    ensures Sound(env, INITIAL) && CoherentFor(INITIAL, ref) && CachedBelow(INITIAL, ref)
  {}

  /** In every serial run from the empty registry that never deletes the schema or its highest version
      (evictions are arbitrary), cached bytes of a live version are the stored bytes. */
  lemma {:induction false} CacheIsCoherent(env: Env, ops: seq<Op>, ref: SchemaRef)
    requires Unambiguous(env.namespaces.Keys) && ref.nsName in env.namespaces
    requires AlwaysKeepsHighest(env, INITIAL, ops, ref)
    ensures CoherentFor(Run(env, INITIAL, ops), ref) && CachedBelow(Run(env, INITIAL, ops), ref)
  {
    InitialIsSound(env, ref);
    if ops != [] {
      var init := ops[..|ops| - 1];
      PrefixKeepsHighest(env, INITIAL, ops, ref);
      CacheIsCoherent(env, init, ref);
      RunIsSound(env, INITIAL, init);
      StepKeepsCache(env, Run(env, INITIAL, init), ops[|ops| - 1], ref);
    }
  }

  // ---------- what a fetch returns ----------

  /** A fetch returns what is stored exactly when the schema is missing, nothing is cached under the
      number, or the stored bytes are. */
  lemma FetchIsStoredExactly(s: State, ref: SchemaRef, n: int)
    requires Valid(s.tables)
    ensures Fetched(s, ref, n).1 == Stored(s.tables, ref, n) <==>
            (ref in s.tables.schemas && CacheKey(ref, n) in s.cache ==>
               Stored(s.tables, ref, n) == Some(s.cache[CacheKey(ref, n)]))
  {
    if ref !in s.tables.schemas {
      assert !Live(s.tables, ref, n);
    }
  }

  /** In every run that keeps the schema and its highest version, a fetch of a live version returns its
      stored bytes, and one of a number that is not live returns nothing exactly when nothing is cached. */
  lemma FetchAfterRun(env: Env, ops: seq<Op>, ref: SchemaRef, n: int)
    requires Unambiguous(env.namespaces.Keys) && ref.nsName in env.namespaces
    requires AlwaysKeepsHighest(env, INITIAL, ops, ref)
    ensures var s := Run(env, INITIAL, ops);
            if Live(s.tables, ref, n) then Fetched(s, ref, n).1 == Stored(s.tables, ref, n)
                && Stored(s.tables, ref, n).Some?
            else Fetched(s, ref, n).1.None? <==> (ref in s.tables.schemas ==> CacheKey(ref, n) !in s.cache)
  {
    var s := Run(env, INITIAL, ops);
    CacheIsCoherent(env, ops, ref);
    InitialIsSound(env, ref);
    RunIsSound(env, INITIAL, ops);
    LatestBounds(s.tables, ref);
    FetchIsStoredExactly(s, ref, n);
    if Live(s.tables, ref, n) {
      LiveIsUnique(s.tables, ref, n, VersionId(s.tables, ref, n));
    }
  }

  /** At some point of the run the schema stored these bytes under this number. */
  ghost predicate WasStored(env: Env, ops: seq<Op>, ref: SchemaRef, n: int, value: Bytes) {
    exists i :: 0 <= i <= |ops| && Stored(Run(env, INITIAL, ops[..i]).tables, ref, n) == Some(value)
  }

  /** The schema whose positive numbers share the keys of this one's negative numbers never exists. */
  ghost predicate NoCounterpart(env: Env, ops: seq<Op>, ref: SchemaRef) {
    forall i | 0 <= i <= |ops| :: SchemaRef(ref.nsName, ref.name + "-") !in Run(env, INITIAL, ops[..i]).tables.schemas
  }

  lemma CachedKeyIsOwnOrNegative(env: Env, s: State, ref: SchemaRef, n: int, value: Bytes)
    requires Sound(env, s) && Unambiguous(env.namespaces.Keys) && ref.nsName in env.namespaces
    requires CachesLive(s.tables, CacheKey(ref, n), value)
    requires n >= 0 || SchemaRef(ref.nsName, ref.name + "-") !in s.tables.schemas
    ensures Live(s.tables, ref, n) && Stored(s.tables, ref, n) == Some(value)
  {
    var r, m: nat :| r in s.tables.schemas && Live(s.tables, r, m) && CacheKey(ref, n) == CacheKey(r, m)
        && Stored(s.tables, r, m) == Some(value);
    SchemaKeysAgreeExactly(env.namespaces.Keys, ref.nsName, ref.name, n, r.nsName, r.name, m);
  }

  /** Whatever runs, deletions of the highest version included: cached bytes were once stored under that
      number of that schema. */
  lemma {:induction false} CachedWasStored(env: Env, ops: seq<Op>, ref: SchemaRef, n: int)
    requires Unambiguous(env.namespaces.Keys) && ref.nsName in env.namespaces
    requires n >= 0 || NoCounterpart(env, ops, ref)
    requires CacheKey(ref, n) in Run(env, INITIAL, ops).cache
    ensures WasStored(env, ops, ref, n, Run(env, INITIAL, ops).cache[CacheKey(ref, n)])
  {
    InitialIsSound(env, ref);
    var k, key := |ops| - 1, CacheKey(ref, n);
    var init, s := ops[..k], Run(env, INITIAL, ops[..k]);
    RunIsSound(env, INITIAL, init);
    StepCaches(env, s, ops[k], key);
    var value := Run(env, INITIAL, ops).cache[key];
    if key in s.cache && s.cache[key] == value {
      NoCounterpartPrefix(env, ops, ref, n);
      CachedWasStored(env, init, ref, n);
      var i :| 0 <= i <= |init| && Stored(Run(env, INITIAL, init[..i]).tables, ref, n) == Some(value);
      assert ops[..i] == init[..i];
    } else {
      CachedKeyIsOwnOrNegative(env, s, ref, n, value);
      assert Stored(Run(env, INITIAL, ops[..k]).tables, ref, n) == Some(value);
    }
  }

  lemma NoCounterpartPrefix(env: Env, ops: seq<Op>, ref: SchemaRef, n: int)
    requires ops != [] && (n >= 0 || NoCounterpart(env, ops, ref))
    ensures n >= 0 || NoCounterpart(env, ops[..|ops| - 1], ref)
  {
    var init := ops[..|ops| - 1];
    forall i | 0 <= i <= |init| ensures init[..i] == ops[..i] {}
  }

  /** Hence a fetch never returns bytes the schema has not stored under that number. */
  lemma ServedWasStored(env: Env, ops: seq<Op>, ref: SchemaRef, n: int)
    requires Unambiguous(env.namespaces.Keys) && ref.nsName in env.namespaces
    requires n >= 0 || NoCounterpart(env, ops, ref)
    requires Fetched(Run(env, INITIAL, ops), ref, n).1.Some?
    ensures WasStored(env, ops, ref, n, Fetched(Run(env, INITIAL, ops), ref, n).1.value)
  {
    if CacheKey(ref, n) in Run(env, INITIAL, ops).cache {
      CachedWasStored(env, ops, ref, n);
    } else {
      assert ops[..|ops|] == ops;
    }
  }

  // ---------- stored modes are not read ----------

  lemma FetchIgnoresStoredMode(s: State, ref0: SchemaRef, mode: string, ref: SchemaRef)
    requires Valid(s.tables)
    ensures var u := s.(tables := MetadataUpdated(s.tables, ref0, mode));
            && LatestFetched(u, ref).1 == LatestFetched(s, ref).1
            && LatestFetched(u, ref).0 == LatestFetched(s, ref).0.(tables := u.tables)
  {
    MetadataUpdateKeepsContent(s.tables, ref0, mode, ref, Latest(s.tables, ref));
  }

  lemma UpsertCommutes(t: Tables, ref0: SchemaRef, mode: string, ref: SchemaRef, merged: Metadata)
    requires ref0 in t.schemas
    ensures Upserted(MetadataUpdated(t, ref0, mode), ref, merged)
            == MetadataUpdated(Upserted(t, ref, merged), ref0, mode)
  {}

  lemma CreationIgnoresStoredMode(t: Tables, ref0: SchemaRef, mode: string, ref: SchemaRef, merged: Metadata, id: UUID,
                                  sha: string, file: UUID, data: Bytes)
    requires Valid(t) && ref0 in t.schemas
    ensures var (t1, n1) := Created(t, ref, merged, id, sha, file, data);
            Created(MetadataUpdated(t, ref0, mode), ref, merged, id, sha, file, data)
                == (MetadataUpdated(t1, ref0, mode), n1)
  {
    UpsertCommutes(t, ref0, mode, ref, merged);
    UpsertKeepsValid(t, ref, merged);
    MetadataUpdateKeepsContent(Upserted(t, ref, merged), ref0, mode, ref, 0);
  }

  ghost function WithMode(s: State, ref: SchemaRef, mode: string): State {
    s.(tables := MetadataUpdated(s.tables, ref, mode))
  }

  lemma AttemptIgnoresStoredMode(env: Env, s: State, ref0: SchemaRef, mode: string, ref: SchemaRef, merged: Metadata,
                                 data: Bytes, sha: string, faults: Faults)
    requires Valid(s.tables) && ref0 in s.tables.schemas
    ensures var (s1, outcome) := Attempted(env, s, ref, merged, data, sha, faults);
            Attempted(env, WithMode(s, ref0, mode), ref, merged, data, sha, faults)
                == (WithMode(s1, ref0, mode), outcome)
  {
    var file := OfBytes(env.provider.canonical(data));
    FetchIgnoresStoredMode(s, ref0, mode, ref);
    CreationIgnoresStoredMode(s.tables, ref0, mode, ref, merged, GetIDforSchema(ref.nsName, ref.name, file), sha, file,
                              env.provider.canonical(data));
  }

  lemma CheckIgnoresStoredMode(env: Env, s: State, ref0: SchemaRef, mode: string, ref: SchemaRef, metadata: Metadata,
                               data: Bytes, fails: bool)
    requires Valid(s.tables)
    ensures Passes(env, WithMode(s, ref0, mode), ref, metadata, data, fails)
            == Passes(env, s, ref, metadata, data, fails)
    ensures AfterCheck(env, WithMode(s, ref0, mode), ref, data, fails)
            == WithMode(AfterCheck(env, s, ref, data, fails), ref0, mode)
    ensures AfterCheck(env, s, ref, data, fails).tables == s.tables
  {
    FetchIgnoresStoredMode(s, ref0, mode, ref);
  }

  /** The mode stored with a schema, which an update may change, plays no part in an upload: the outcome
      is the same, and so is everything but the stored mode. */
  lemma UploadIgnoresStoredMode(env: Env, s: State, ref0: SchemaRef, mode: string, ref: SchemaRef, metadata: Metadata,
                                data: Bytes, sha: string, faults: Faults)
    requires Valid(s.tables) && ref0 in s.tables.schemas
    ensures var (s1, outcome) := Uploaded(env, s, ref, metadata, data, sha, faults);
            Uploaded(env, Step(env, s, UpdateMetadata(ref0, mode)), ref, metadata, data, sha, faults)
            == (Step(env, s1, UpdateMetadata(ref0, mode)), outcome)
  {
    CheckIgnoresStoredMode(env, s, ref0, mode, ref, metadata, data, faults.check);
    if Passes(env, s, ref, metadata, data, faults.check) {
      var s1 := AfterCheck(env, s, ref, data, faults.check);
      AttemptIgnoresStoredMode(env, s1, ref0, mode, ref, Merged(env, ref, metadata), data, sha, faults);
    }
  }

  lemma PrefixKeepsHighest(env: Env, s: State, ops: seq<Op>, ref: SchemaRef)
    requires ops != [] && AlwaysKeepsHighest(env, s, ops, ref)
    ensures AlwaysKeepsHighest(env, s, ops[..|ops| - 1], ref)
    ensures KeepsHighest(Run(env, s, ops[..|ops| - 1]), ops[|ops| - 1], ref)
  {
    var init := ops[..|ops| - 1];
    forall i | 0 <= i < |init| ensures KeepsHighest(Run(env, s, init[..i]), init[i], ref) {
      assert init[..i] == ops[..i];
    }
  }

  /** The version an upload adds is live, even if the transaction's success went unreported. */
  lemma AddedIsLive(env: Env, s: State, op: Op, ref: SchemaRef, n: int, id: UUID)
    requires Sound(env, s) && Unambiguous(env.namespaces.Keys) && Adds(env, s, op, ref, n, id)
    ensures IsVersion(Step(env, s, op).tables, ref, n, id)
  {
    var committed := op.faults.(create := Committed);
    assert Uploaded(env, s, ref, op.metadata, op.data, op.commitSha, committed).0 == Step(env, s, op);
    UploadedIsLive(env, s, ref, op.metadata, op.data, op.commitSha, committed);
  }

  /** Without the assumption on deletions, an upload that adds a version leaves the cache coherent
      exactly when the cache holds nothing, or the same bytes, under the number it will get. */
  lemma UploadKeepsCacheExactly(env: Env, s: State, op: Op, ref: SchemaRef, n: nat, id: UUID)
    requires Sound(env, s) && Unambiguous(env.namespaces.Keys) && CoherentFor(s, ref)
    requires Adds(env, s, op, ref, n, id)
    ensures CoherentFor(Step(env, s, op), ref) <==>
            CacheKey(ref, n) in s.cache ==> s.cache[CacheKey(ref, n)] == env.provider.canonical(op.data)
  {
    var s', key := Step(env, s, op), CacheKey(ref, n);
    StepIsSound(env, s, op);
    LatestBounds(s.tables, ref);
    AddedIsLive(env, s, op, ref, n, id);
    LiveIsUnique(s'.tables, ref, n, id);
    if key in s'.cache {
      StepCaches(env, s, op, key);
      if CachesLive(s.tables, key, s'.cache[key]) { CachedKeyIsOwn(env, s, ref, n, s'.cache[key]); }
    }
    UploadOnlyAddsToCache(env, s, op);
    forall m: nat | m != n && Live(s'.tables, ref, m) && CacheKey(ref, m) in s'.cache
      ensures Stored(s'.tables, ref, m) == Some(s'.cache[CacheKey(ref, m)])
    {
      var mid :| IsVersion(s'.tables, ref, m, mid);
      LiveWasOrIsNew(env, s, op, ref, m, mid);
      SameVersionSameBytes(s.tables, s'.tables, ref, m, mid);
      StepCaches(env, s, op, CacheKey(ref, m));
      if CachesLive(s.tables, CacheKey(ref, m), s'.cache[CacheKey(ref, m)]) {
        CachedKeyIsOwn(env, s, ref, m, s'.cache[CacheKey(ref, m)]);
      }
    }
  }

  lemma UploadOnlyAddsToCache(env: Env, s: State, op: Op)
    requires op.Upload?
    ensures forall key | key in s.cache :: key in Step(env, s, op).cache && Step(env, s, op).cache[key] == s.cache[key]
  {}

  // ---------- the version history ----------

  ghost function Content(env: Env, t: Tables, ref: SchemaRef, n: int): Option<seq<File>> {
    match Stored(t, ref, n)
    case None => None
    case Some(data) => env.provider.parse(data)
  }

  /** The JSON name of a field determines its name. */
  ghost predicate NamedBy(protoName: string -> string, files: seq<File>) {
    forall d | d in AllMessages(files) :: forall f | f in d.message.fields :: f.name == protoName(f.jsonName)
  }

  /** What is asked of the uploads themselves: narrow reserved ranges and, in forward mode, field names
      that follow from JSON names. */
  ghost predicate Admissible(strict: bool, protoName: string -> string, files: seq<File>) {
    WellFormed(files) && Narrow(files) && (strict || NamedBy(protoName, files))
  }

  lemma AdmissibleIsStable(strict: bool, protoName: string -> string, a: seq<File>, b: seq<File>)
    requires Admissible(strict, protoName, a) && Admissible(strict, protoName, b) && Compatible(strict, b, a)
    ensures Stable(strict, a, b)
  {
    if !strict {
      forall d | d in AllMessages(a)
        ensures FindMessage(b, d.fullName).Some?
        ensures var e := FindMessage(b, d.fullName).value.message;
                forall f | f in d.message.fields && FieldByNumber(e.fields, f.number).Some? ::
                  FieldByNumber(e.fields, f.number).value.name == f.name
      {
        assert MessageDeclKept(strict, b, d);
        var e := FindMessage(b, d.fullName).value;
        forall f | f in d.message.fields && FieldByNumber(e.message.fields, f.number).Some?
          ensures FieldByNumber(e.message.fields, f.number).value.name == f.name
        {
          assert FieldKept(strict, e.message, f);
        }
      }
      assert NamesKept(a, b);
    }
    NarrowIsStable(strict, a, b);
  }

  ghost predicate VersionHolds(env: Env, t: Tables, ref: SchemaRef, strict: bool, protoName: string -> string, n: int) {
    Live(t, ref, n) ==> Content(env, t, ref, n).Some? && Admissible(strict, protoName, Content(env, t, ref, n).value)
  }

  ghost predicate PairHolds(env: Env, t: Tables, ref: SchemaRef, strict: bool, i: int, j: int) {
    Live(t, ref, i) && Live(t, ref, j) && i < j ==>
      && Content(env, t, ref, i).Some? && Content(env, t, ref, j).Some?
      && Compatible(strict, Content(env, t, ref, j).value, Content(env, t, ref, i).value)
  }

  /** Every live version is compatible with every earlier live one. */
  ghost predicate HistoryHolds(env: Env, t: Tables, ref: SchemaRef, strict: bool, protoName: string -> string) {
    && (forall n :: VersionHolds(env, t, ref, strict, protoName, n))
    && (forall i, j :: PairHolds(env, t, ref, strict, i, j))
  }

  /** An upload of the schema is checked, in a strict mode if `strict`, and its content is admissible. */
  ghost predicate UploadIsChecked(env: Env, op: Op, strict: bool, protoName: string -> string) {
    op.Upload? && op.ref.nsName in env.namespaces ==>
      var mode := if op.metadata.compatibility == "" then env.namespaces[op.ref.nsName].compatibility
                  else op.metadata.compatibility;
      && (IsStrictMode(mode) || (!strict && IsForwardMode(mode)))
      && (env.provider.parse(op.data).Some? ==> Admissible(strict, protoName, env.provider.parse(op.data).value))
  }

  lemma AddedIsCompatibleWithLatest(env: Env, s: State, op: Op, ref: SchemaRef, n: int, id: UUID, strict: bool,
                                    protoName: string -> string)
    requires Sound(env, s) && CoherentFor(s, ref) && HistoryHolds(env, s.tables, ref, strict, protoName)
    requires Adds(env, s, op, ref, n, id) && UploadIsChecked(env, op, strict, protoName)
    requires Live(s.tables, ref, Latest(s.tables, ref))
    ensures env.provider.parse(op.data).Some? && Content(env, s.tables, ref, Latest(s.tables, ref)).Some?
    ensures Compatible(strict, env.provider.parse(op.data).value,
                       Content(env, s.tables, ref, Latest(s.tables, ref)).value)
  {
    assert VersionHolds(env, s.tables, ref, strict, protoName, Latest(s.tables, ref));
    var latest := Latest(s.tables, ref);
    LatestBounds(s.tables, ref);
    var prevId :| IsVersion(s.tables, ref, latest, prevId);
    LiveIsUnique(s.tables, ref, latest, prevId);
    assert LatestFetched(s, ref).1 == Stored(s.tables, ref, latest);
    var current, prev := env.provider.parse(op.data).value, Content(env, s.tables, ref, latest).value;
    UploadRejectedExactly(env, s, ref, op.metadata, op.data, op.commitSha, op.faults);
    if !strict && Compatible(true, current, prev) {
      StrictImpliesForward(current, prev);
    }
  }

  lemma AddedIsCompatibleWithAll(env: Env, s: State, op: Op, ref: SchemaRef, n: int, id: UUID, strict: bool,
                                 protoName: string -> string, i: int)
    requires Sound(env, s) && CoherentFor(s, ref) && HistoryHolds(env, s.tables, ref, strict, protoName)
    requires Adds(env, s, op, ref, n, id) && UploadIsChecked(env, op, strict, protoName)
    requires Live(s.tables, ref, i)
    ensures env.provider.parse(op.data).Some? && Content(env, s.tables, ref, i).Some?
    ensures Compatible(strict, env.provider.parse(op.data).value, Content(env, s.tables, ref, i).value)
  {
    LatestBounds(s.tables, ref);
    AddedIsCompatibleWithLatest(env, s, op, ref, n, id, strict, protoName);
    LatestSpeaksForAll(env, s.tables, ref, strict, protoName, env.provider.parse(op.data).value, i);
  }

  /** What is compatible with the latest version is compatible with every live one. */
  lemma LatestSpeaksForAll(env: Env, t: Tables, ref: SchemaRef, strict: bool, protoName: string -> string,
                           c: seq<File>, i: int)
    requires Valid(t) && HistoryHolds(env, t, ref, strict, protoName) && WellFormed(c)
    requires Live(t, ref, i) && Live(t, ref, Latest(t, ref)) && Content(env, t, ref, Latest(t, ref)).Some?
    requires Compatible(strict, c, Content(env, t, ref, Latest(t, ref)).value)
    ensures Content(env, t, ref, i).Some? && Compatible(strict, c, Content(env, t, ref, i).value)
  {
    LatestBounds(t, ref);
    var latest := Latest(t, ref);
    if i < latest {
      HistoryAt(env, t, ref, strict, protoName, i, latest);
      LatestSpeaksFor(env, t, ref, strict, protoName, c, i, latest);
    }
  }

  lemma HistoryAt(env: Env, t: Tables, ref: SchemaRef, strict: bool, protoName: string -> string, i: int, j: int)
    requires HistoryHolds(env, t, ref, strict, protoName)
    ensures VersionHolds(env, t, ref, strict, protoName, i) && VersionHolds(env, t, ref, strict, protoName, j)
    ensures PairHolds(env, t, ref, strict, i, j)
  {}

  lemma LatestSpeaksFor(env: Env, t: Tables, ref: SchemaRef, strict: bool, protoName: string -> string, c: seq<File>,
                        i: int, j: int)
    requires VersionHolds(env, t, ref, strict, protoName, i) && VersionHolds(env, t, ref, strict, protoName, j)
    requires PairHolds(env, t, ref, strict, i, j) && i < j && Live(t, ref, i) && Live(t, ref, j)
    requires WellFormed(c) && Compatible(strict, c, Content(env, t, ref, j).value)
    ensures Compatible(strict, c, Content(env, t, ref, i).value)
  {
    CarriesBack(strict, protoName, c, Content(env, t, ref, j).value, Content(env, t, ref, i).value);
  }

  lemma CarriesBack(strict: bool, protoName: string -> string, c: seq<File>, b: seq<File>, a: seq<File>)
    requires WellFormed(c) && Admissible(strict, protoName, b) && Admissible(strict, protoName, a)
    requires Compatible(strict, c, b) && Compatible(strict, b, a)
    ensures Compatible(strict, c, a)
  {
    AdmissibleIsStable(strict, protoName, a, b);
    StableIsEnough(strict, c, b, a);
  }

  lemma AddedContent(env: Env, s: State, op: Op, ref: SchemaRef, n: int, id: UUID)
    requires Sound(env, s) && Lawful(env.provider) && Adds(env, s, op, ref, n, id)
    requires IsVersion(Step(env, s, op).tables, ref, n, id)
    ensures env.provider.parse(op.data).Some?
    ensures Content(env, Step(env, s, op).tables, ref, n) == env.provider.parse(op.data)
  {
    StepIsSound(env, s, op);
    LiveIsUnique(Step(env, s, op).tables, ref, n, id);
  }

  lemma StepKeepsHistory(env: Env, s: State, op: Op, ref: SchemaRef, strict: bool, protoName: string -> string)
    requires Sound(env, s) && Lawful(env.provider) && CoherentFor(s, ref)
    requires HistoryHolds(env, s.tables, ref, strict, protoName)
    requires op.Upload? && op.ref == ref ==> UploadIsChecked(env, op, strict, protoName)
    ensures HistoryHolds(env, Step(env, s, op).tables, ref, strict, protoName)
  {
    var t, t' := s.tables, Step(env, s, op).tables;
    StepIsSound(env, s, op);
    LatestBounds(t, ref);
    forall n ensures VersionHolds(env, t', ref, strict, protoName, n) {
      if Live(t', ref, n) {
        OldOrAdded(env, s, op, ref, n, VersionId(t', ref, n));
        assert VersionHolds(env, t, ref, strict, protoName, n);
      }
    }
    forall i, j ensures PairHolds(env, t', ref, strict, i, j) {
      if Live(t', ref, i) && Live(t', ref, j) && i < j {
        var a, b := VersionId(t', ref, i), VersionId(t', ref, j);
        OldOrAdded(env, s, op, ref, i, a);
        OldOrAdded(env, s, op, ref, j, b);
        assert PairHolds(env, t, ref, strict, i, j);
        if IsVersion(t, ref, i, a) && !IsVersion(t, ref, j, b) {
          AddedIsCompatibleWithAll(env, s, op, ref, j, b, strict, protoName, i);
        }
      }
    }
  }

  /** A live version after a step was live before with the same content, or is the one added. */
  lemma OldOrAdded(env: Env, s: State, op: Op, ref: SchemaRef, n: int, id: UUID)
    requires Sound(env, s) && Lawful(env.provider) && IsVersion(Step(env, s, op).tables, ref, n, id)
    ensures if IsVersion(s.tables, ref, n, id)
            then Live(s.tables, ref, n) && n <= Latest(s.tables, ref)
                 && Content(env, Step(env, s, op).tables, ref, n) == Content(env, s.tables, ref, n)
            else Adds(env, s, op, ref, n, id) && env.provider.parse(op.data).Some?
                 && Content(env, Step(env, s, op).tables, ref, n) == env.provider.parse(op.data)
  {
    StepIsSound(env, s, op);
    LiveWasOrIsNew(env, s, op, ref, n, id);
    if IsVersion(s.tables, ref, n, id) {
      LatestBounds(s.tables, ref);
      SameVersionSameBytes(s.tables, Step(env, s, op).tables, ref, n, id);
    } else {
      AddedContent(env, s, op, ref, n, id);
    }
  }

  /** Every upload of the schema along the run is checked and admissible. */
  ghost predicate AllUploadsChecked(env: Env, ops: seq<Op>, ref: SchemaRef, strict: bool, protoName: string -> string) {
    forall op | op in ops && op.Upload? && op.ref == ref :: UploadIsChecked(env, op, strict, protoName)
  }

  /** In every serial run from the empty registry that never deletes the schema or its highest version,
      although each upload is compared with the latest version only, every live version is compatible
      with every earlier live one. */
  lemma {:induction false} HistoryStaysCompatible(env: Env, ops: seq<Op>, ref: SchemaRef, strict: bool,
                                                  protoName: string -> string)
    requires Unambiguous(env.namespaces.Keys) && ref.nsName in env.namespaces && Lawful(env.provider)
    requires AlwaysKeepsHighest(env, INITIAL, ops, ref)
    requires AllUploadsChecked(env, ops, ref, strict, protoName)
    ensures HistoryHolds(env, Run(env, INITIAL, ops).tables, ref, strict, protoName)
  {
    if ops != [] {
      var init := ops[..|ops| - 1];
      PrefixKeepsHighest(env, INITIAL, ops, ref);
      HistoryStaysCompatible(env, init, ref, strict, protoName);
      CacheIsCoherent(env, init, ref);
      InitialIsSound(env, ref);
      RunIsSound(env, INITIAL, init);
      StepKeepsHistory(env, Run(env, INITIAL, init), ops[|ops| - 1], ref, strict, protoName);
    }
  }

  /** The versions as they are: pairwise compatible, and every live one parses. */
  ghost predicate PairsHold(env: Env, t: Tables, ref: SchemaRef, strict: bool) {
    && (forall n | Live(t, ref, n) :: Content(env, t, ref, n).Some?)
    && (forall i, j :: PairHolds(env, t, ref, strict, i, j))
  }

  /** Whatever is accepted against the latest version is compatible with the live version `i`. */
  ghost predicate CarriesTo(env: Env, t: Tables, ref: SchemaRef, strict: bool, i: int)
    requires PairsHold(env, t, ref, strict) && Live(t, ref, Latest(t, ref)) && Live(t, ref, i)
  {
    Inherited(strict, Content(env, t, ref, i).value, Content(env, t, ref, Latest(t, ref)).value)
  }

  ghost predicate StableTo(env: Env, t: Tables, ref: SchemaRef, strict: bool, i: int)
    requires PairsHold(env, t, ref, strict) && Live(t, ref, Latest(t, ref)) && Live(t, ref, i)
  {
    Stable(strict, Content(env, t, ref, i).value, Content(env, t, ref, Latest(t, ref)).value)
  }

  lemma CarriesToExactly(env: Env, t: Tables, ref: SchemaRef, strict: bool, i: int)
    requires PairsHold(env, t, ref, strict) && Live(t, ref, Latest(t, ref)) && Live(t, ref, i) && i < Latest(t, ref)
    requires WellFormed(Content(env, t, ref, Latest(t, ref)).value)
    ensures CarriesTo(env, t, ref, strict, i) <==> StableTo(env, t, ref, strict, i)
  {
    assert PairHolds(env, t, ref, strict, i, Latest(t, ref));
    TransitiveExactly(strict, Content(env, t, ref, i).value, Content(env, t, ref, Latest(t, ref)).value);
  }

  /** A history stays compatible with whatever is accepted against its latest version exactly when each
      older live version and the latest pass the stability check. */
  lemma HistoryCarriesOnExactly(env: Env, t: Tables, ref: SchemaRef, strict: bool)
    requires PairsHold(env, t, ref, strict) && Live(t, ref, Latest(t, ref))
    requires WellFormed(Content(env, t, ref, Latest(t, ref)).value)
    ensures (forall i | Live(t, ref, i) && i < Latest(t, ref) :: CarriesTo(env, t, ref, strict, i)) <==>
            (forall i | Live(t, ref, i) && i < Latest(t, ref) :: StableTo(env, t, ref, strict, i))
  {
    forall i | Live(t, ref, i) && i < Latest(t, ref)
      ensures CarriesTo(env, t, ref, strict, i) <==> StableTo(env, t, ref, strict, i)
    {
      CarriesToExactly(env, t, ref, strict, i);
    }
  }

  /** End to end: a number that any live version reserves is reserved, and so unused, in every later
      live version. */
  lemma ReservedNumbersStay(env: Env, ops: seq<Op>, ref: SchemaRef, strict: bool, protoName: string -> string, i: int,
                            j: int, fullName: string, n: int)
    requires Unambiguous(env.namespaces.Keys) && ref.nsName in env.namespaces && Lawful(env.provider)
    requires AlwaysKeepsHighest(env, INITIAL, ops, ref) && AllUploadsChecked(env, ops, ref, strict, protoName)
    requires var t := Run(env, INITIAL, ops).tables;
             && Live(t, ref, i) && Live(t, ref, j) && i < j
             && Content(env, t, ref, i).Some? && ReservedIn(Content(env, t, ref, i).value, fullName, n)
    ensures var t := Run(env, INITIAL, ops).tables;
            && Content(env, t, ref, j).Some?
            && ReservedIn(Content(env, t, ref, j).value, fullName, n)
                && UnusedIn(Content(env, t, ref, j).value, fullName, n)
  {
    HistoryStaysCompatible(env, ops, ref, strict, protoName);
    var t := Run(env, INITIAL, ops).tables;
    assert VersionHolds(env, t, ref, strict, protoName, i) && VersionHolds(env, t, ref, strict, protoName, j);
    assert PairHolds(env, t, ref, strict, i, j);
    var a, b := Content(env, t, ref, i).value, Content(env, t, ref, j).value;
    NarrowKeepsReserved(strict, b, a);
    assert FindMessage(a, fullName).value in AllMessages(a);
    ReservedIsUnused(b, fullName, n);
  }

  /** End to end in backward mode: data written under any live version is read whole under every later
      live one. */
  lemma OldDataReadableForever(env: Env, ops: seq<Op>, ref: SchemaRef, protoName: string -> string, i: int, j: int,
                               name: string, es: Entries)
    requires Unambiguous(env.namespaces.Keys) && ref.nsName in env.namespaces && Lawful(env.provider)
    requires AlwaysKeepsHighest(env, INITIAL, ops, ref) && AllUploadsChecked(env, ops, ref, true, protoName)
    requires var t := Run(env, INITIAL, ops).tables;
             && Live(t, ref, i) && Live(t, ref, j) && i < j
             && Content(env, t, ref, i).Some? && Typed(Content(env, t, ref, i).value, name, es) && GroupFree(es)
    ensures var t := Run(env, INITIAL, ops).tables;
            && Content(env, t, ref, j).Some? && Typed(Content(env, t, ref, j).value, name, es)
            && ReadAs(Content(env, t, ref, j).value, name, es) == Some(es)
  {
    HistoryStaysCompatible(env, ops, ref, true, protoName);
    var t := Run(env, INITIAL, ops).tables;
    assert VersionHolds(env, t, ref, true, protoName, i) && PairHolds(env, t, ref, true, i, j);
    OldDataStaysTyped(Content(env, t, ref, j).value, Content(env, t, ref, i).value, name, es);
    TypedIsReadWhole(Content(env, t, ref, j).value, name, es);
  }

  /** End to end in forward mode: of any two live versions, each reads the other's data without a clash
      and gets a well-typed value; what the later one skips of the earlier one's data is reserved. */
  lemma ForwardDataReadableBothWays(env: Env, ops: seq<Op>, ref: SchemaRef, protoName: string -> string, i: int,
                                    j: int, name: string, es: Entries)
    requires Unambiguous(env.namespaces.Keys) && ref.nsName in env.namespaces && Lawful(env.provider)
    requires AlwaysKeepsHighest(env, INITIAL, ops, ref) && AllUploadsChecked(env, ops, ref, false, protoName)
    requires var t := Run(env, INITIAL, ops).tables;
             Live(t, ref, i) && Live(t, ref, j) && i < j && GroupFree(es)
    ensures var t := Run(env, INITIAL, ops).tables;
            Content(env, t, ref, i).Some? && Content(env, t, ref, j).Some?
    ensures var t := Run(env, INITIAL, ops).tables;
            var older, newer := Content(env, t, ref, i).value, Content(env, t, ref, j).value;
            && (Typed(older, name, es) ==>
                  && ReadAs(newer, name, es).Some? && Typed(newer, name, ReadAs(newer, name, es).value)
                  && SkipsOnlyReserved(newer, FindMessage(newer, name).value.message, es))
            && (Typed(newer, name, es) && FindMessage(older, name).Some? ==>
                  ReadAs(older, name, es).Some? && Typed(older, name, ReadAs(older, name, es).value))
  {
    HistoryStaysCompatible(env, ops, ref, false, protoName);
    var t := Run(env, INITIAL, ops).tables;
    assert VersionHolds(env, t, ref, false, protoName, i) && VersionHolds(env, t, ref, false, protoName, j);
    assert PairHolds(env, t, ref, false, i, j);
    var a, b := Content(env, t, ref, i).value, Content(env, t, ref, j).value;
    if Typed(a, name, es) {
      OldDataAtForwardReader(b, a, name, es);
    }
    if Typed(b, name, es) && FindMessage(a, name).Some? {
      NewDataAtOldReader(b, a, name, es);
    }
  }
}
