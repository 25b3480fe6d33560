/** The service in front of the tables: the byte cache, retrieval, and the checked upload. */
module Registry {
  import opened Descriptors
  import opened Keys
  import opened VersionTables
  import opened Repository
  import opened CompatibilityModes
  import opened Verdicts

  /** Parsing of uploaded bytes and the deterministic form they are stored in. */
  datatype Provider = Provider(parse: Bytes -> Option<seq<File>>, canonical: Bytes -> Bytes)

  /** A parsed schema is well formed, and its stored form parses to the same schema. */
  ghost predicate Lawful(p: Provider) {
    forall b | p.parse(b).Some? :: WellFormed(p.parse(b).value) && p.parse(p.canonical(b)) == p.parse(b)
  }

  datatype Namespace = Namespace(format: string, compatibility: string)

  /** `detectsChanges` says whether uploads start change detection. */
  datatype Env = Env(provider: Provider, namespaces: map<string, Namespace>, detectsChanges: bool)

  /** The tables and the cache in front of them. */
  datatype State = State(tables: Tables, cache: map<string, Bytes>)

  /** How the statements of one upload turn out: whether reading the latest version fails for the check
      and for change detection, and what becomes of the transaction, which may fail after it commits. */
  datatype Faults = Faults(check: bool, reread: bool, create: Commit)

  datatype Commit = Committed | RolledBack | Unreported

  const NO_FAULTS := Faults(false, false, Committed)

  datatype Detection = NotStarted | Started(oldData: Bytes, version: int)

  datatype Outcome =
    | Rejected
    | Failed(versionId: UUID, detection: Detection)
    | Published(versionId: UUID, version: int, detection: Detection)

  function NonEmpty(a: string, b: string): string {
    if a != "" then a else b
  }

  function CacheKey(ref: SchemaRef, version: int): string {
    SchemaKey(ref.nsName, ref.name, version)
  }

  // ---------- operations as functions of the state ----------

  ghost function CachedGet(s: State, ref: SchemaRef, version: int): (State, Option<Bytes>) {
    var key := CacheKey(ref, version);
    if key in s.cache then (s, Some(s.cache[key]))
    else
      match Stored(s.tables, ref, version)
      case None => (s, None)
      case Some(data) => (s.(cache := s.cache[key := data]), Some(data))
  }

  ghost function Fetched(s: State, ref: SchemaRef, version: int): (State, Option<Bytes>) {
    if ref !in s.tables.schemas then (s, None) else CachedGet(s, ref, version)
  }

  ghost function LatestFetched(s: State, ref: SchemaRef): (State, Option<Bytes>) {
    Fetched(s, ref, Latest(s.tables, ref))
  }

  /** The check against the latest version: a missing latest version accepts everything, one that
      cannot be read or parsed nothing. */
  ghost function Checked(env: Env, s: State, ref: SchemaRef, compatibility: string, current: seq<File>,
                         fails: bool): (State, bool)
  {
    if fails then (s, false)
    else
      match LatestFetched(s, ref)
      case (s1, None) => (s1, true)
      case (s1, Some(prevData)) =>
        match env.provider.parse(prevData)
        case None => (s1, false)
        case Some(prev) => (s1, Accepts(GetCompatibilityChecker(compatibility), current, [prev]))
  }

  ghost function Reread(s: State, ref: SchemaRef, fails: bool): (State, Option<Bytes>) {
    if fails then (s, None) else LatestFetched(s, ref)
  }

  function DetectionOf(env: Env, prevData: Option<Bytes>, version: int): Detection {
    if env.detectsChanges && prevData.Some? then Started(prevData.value, version) else NotStarted
  }

  /** The metadata an upload asks for, with what it leaves open taken from the namespace. */
  function Merged(env: Env, ref: SchemaRef, metadata: Metadata): Metadata
    requires ref.nsName in env.namespaces
  {
    var ns := env.namespaces[ref.nsName];
    Metadata(NonEmpty(metadata.format, ns.format), NonEmpty(metadata.compatibility, ns.compatibility),
             metadata.sourceUrl)
  }

  /** The upload parses and passes its check. */
  ghost predicate Passes(env: Env, s: State, ref: SchemaRef, metadata: Metadata, data: Bytes, fails: bool) {
    && ref.nsName in env.namespaces && env.provider.parse(data).Some?
    && Checked(env, s, ref, Merged(env, ref, metadata).compatibility, env.provider.parse(data).value, fails).1
  }

  ghost function AfterCheck(env: Env, s: State, ref: SchemaRef, data: Bytes, fails: bool): State {
    if ref.nsName !in env.namespaces || env.provider.parse(data).None? || fails then s else LatestFetched(s, ref).0
  }

  /** An upload that has passed its check. */
  ghost function Attempted(env: Env, s: State, ref: SchemaRef, merged: Metadata, data: Bytes, commitSha: string,
                           faults: Faults): (State, Outcome)
  {
    var stored := env.provider.canonical(data);
    var file := OfBytes(stored);
    var versionId := GetIDforSchema(ref.nsName, ref.name, file);
    var (s', prevData) := Reread(s, ref, faults.reread);
    var (tables, number) := if faults.create.RolledBack? then (s'.tables, 0)
        else Created(s'.tables, ref, merged, versionId, commitSha, file, stored);
    var detection := DetectionOf(env, prevData, number);
    (s'.(tables := tables), if faults.create.Committed? then Published(versionId, number, detection)
     else Failed(versionId, detection))
  }

  ghost function Uploaded(env: Env, s: State, ref: SchemaRef, metadata: Metadata, data: Bytes, commitSha: string,
                          faults: Faults): (State, Outcome)
  {
    var s1 := AfterCheck(env, s, ref, data, faults.check);
    if Passes(env, s, ref, metadata, data, faults.check)
    then Attempted(env, s1, ref, Merged(env, ref, metadata), data, commitSha, faults)
    else (s1, Rejected)
  }

  // ---------- what an upload decides and stores ----------

  /** The latest version can be read and parsed, if there is one, and the upload meets the mode against
      it; the mode is the one the upload asks for, or else that of its namespace. */
  ghost predicate MeetsLatest(env: Env, s: State, ref: SchemaRef, metadata: Metadata, current: seq<File>)
    requires ref.nsName in env.namespaces
  {
    var mode := if metadata.compatibility == "" then env.namespaces[ref.nsName].compatibility
                else metadata.compatibility;
    var latest := LatestFetched(s, ref).1;
    latest.Some? ==>
      env.provider.parse(latest.value).Some? && MeetsMode(mode, current, env.provider.parse(latest.value).value)
  }

  /** An upload gets past its check exactly when its namespace is known, it parses, the read of the latest
      version does not fail, and it meets its mode against the latest version; otherwise it is rejected. */
  lemma UploadRejectedExactly(env: Env, s: State, ref: SchemaRef, metadata: Metadata, data: Bytes, commitSha: string,
                              faults: Faults)
    ensures !Uploaded(env, s, ref, metadata, data, commitSha, faults).1.Rejected? <==>
            && ref.nsName in env.namespaces && env.provider.parse(data).Some? && !faults.check
            && MeetsLatest(env, s, ref, metadata, env.provider.parse(data).value)
    ensures Uploaded(env, s, ref, metadata, data, commitSha, faults).1.Rejected? ==>
            Uploaded(env, s, ref, metadata, data, commitSha, faults).0.tables == s.tables
  {
    var current, latest := env.provider.parse(data), LatestFetched(s, ref).1;
    if ref.nsName in env.namespaces && current.Some? && latest.Some? && env.provider.parse(latest.value).Some? {
      var prev := env.provider.parse(latest.value).value;
      ModeMeaning(Merged(env, ref, metadata).compatibility, current.value, [prev]);
      assert [prev][0] == prev;
    }
  }

  lemma AttemptedCreates(env: Env, s: State, ref: SchemaRef, merged: Metadata, data: Bytes, commitSha: string,
                         faults: Faults)
    ensures var (s', outcome) := Attempted(env, s, ref, merged, data, commitSha, faults);
            var stored := env.provider.canonical(data);
            && !outcome.Rejected?
            && s'.tables == if faults.create.RolledBack? then s.tables
                            else Created(s.tables, ref, merged, outcome.versionId, commitSha, OfBytes(stored), stored).0
  {}

  lemma CheckKeepsTables(env: Env, s: State, ref: SchemaRef, data: Bytes, fails: bool)
    ensures AfterCheck(env, s, ref, data, fails).tables == s.tables
  {}

  lemma PassedUploadCreates(env: Env, s: State, ref: SchemaRef, metadata: Metadata, data: Bytes, commitSha: string,
                            faults: Faults)
    requires !Uploaded(env, s, ref, metadata, data, commitSha, faults).1.Rejected?
    ensures ref.nsName in env.namespaces
    ensures var (s', outcome) := Uploaded(env, s, ref, metadata, data, commitSha, faults);
            var stored := env.provider.canonical(data);
            s'.tables == if faults.create.RolledBack? then s.tables
                         else Created(s.tables, ref, Merged(env, ref, metadata), outcome.versionId, commitSha,
                                      OfBytes(stored), stored).0
  {
    CheckKeepsTables(env, s, ref, data, faults.check);
    if Passes(env, s, ref, metadata, data, faults.check) {
      AttemptedCreates(env, AfterCheck(env, s, ref, data, faults.check), ref, Merged(env, ref, metadata), data,
                       commitSha, faults);
    }
  }

  /** What an upload past its check writes unless its transaction is rolled back or its version is known:
      a schema row with the metadata asked for, completed from the namespace, if there was none, and a row
      of the version with its file and its commit. */
  lemma UploadWrites(env: Env, s: State, ref: SchemaRef, metadata: Metadata, data: Bytes, commitSha: string,
                     faults: Faults)
    requires !Uploaded(env, s, ref, metadata, data, commitSha, faults).1.Rejected?
    ensures var (s', outcome) := Uploaded(env, s, ref, metadata, data, commitSha, faults);
            var ns, t, t', id := env.namespaces[ref.nsName], s.tables, s'.tables, outcome.versionId;
            if faults.create.RolledBack? || id in t.versions then t' == t
            else
              && t'.schemas.Keys == t.schemas.Keys + {ref}
              && (forall r | r in t.schemas :: t'.schemas[r] == t.schemas[r])
              && (ref !in t.schemas ==>
                    t'.schemas[ref] == SchemaRow(t.nextId, Metadata(
                        if metadata.format == "" then ns.format else metadata.format,
                        if metadata.compatibility == "" then ns.compatibility else metadata.compatibility,
                        metadata.sourceUrl)))
              && t'.versions.Keys == t.versions.Keys + {id}
              && (forall v | v in t.versions :: t'.versions[v] == t.versions[v])
              && t'.versions[id].schemaId == t'.schemas[ref].id && t'.versions[id].commitSha == commitSha
  {
    var (s', outcome) := Uploaded(env, s, ref, metadata, data, commitSha, faults);
    var stored := env.provider.canonical(data);
    PassedUploadCreates(env, s, ref, metadata, data, commitSha, faults);
    if !faults.create.RolledBack? {
      CreateRows(s.tables, ref, Merged(env, ref, metadata), outcome.versionId, commitSha, OfBytes(stored), stored);
    }
  }

  // ---------- the service ----------

  class Service {
    const env: Env
    const repo: SchemaRepository
    var cache: map<string, Bytes>

    constructor (env: Env, repo: SchemaRepository)
      ensures this.env == env && this.repo == repo && cache == map[]
    {
      this.env := env;
      this.repo := repo;
      cache := map[];
    }

    ghost function Current(): State
      reads this, repo
    {
      State(repo.State(), cache)
    }

    method CachedGetSchema(ref: SchemaRef, version: int) returns (data: Option<Bytes>)
      requires Valid(repo.State())
      modifies this`cache
      ensures (Current(), data) == CachedGet(old(Current()), ref, version)
    {
      var key := CacheKey(ref, version);
      if key in cache {
        return Some(cache[key]);
      }
      data := repo.Get(ref, version);
      if data.Some? {
        cache := cache[key := data.value];
      }
    }

    method Get(ref: SchemaRef, version: int) returns (data: Option<Bytes>)
      requires Valid(repo.State())
      modifies this`cache
      ensures (Current(), data) == Fetched(old(Current()), ref, version)
    {
      var metadata := repo.GetMetadata(ref);
      if metadata.None? {
        return None;
      }
      data := CachedGetSchema(ref, version);
    }

    method GetLatest(ref: SchemaRef) returns (data: Option<Bytes>)
      requires Valid(repo.State())
      modifies this`cache
      ensures (Current(), data) == LatestFetched(old(Current()), ref)
    {
      var version := repo.GetLatestVersion(ref);
      data := Get(ref, version);
    }

    /** `fails` says that reading the latest version ends in an error other than a missing row. */
    method CheckCompatibility(ref: SchemaRef, compatibility: string, current: seq<File>, fails: bool) returns (ok: bool)
      requires Valid(repo.State())
      modifies this`cache
      ensures (Current(), ok) == Checked(env, old(Current()), ref, compatibility, current, fails)
    {
      if fails {
        return false;
      }
      var prevData := GetLatest(ref);
      if prevData.None? {
        return true;
      }
      var prev := env.provider.parse(prevData.value);
      if prev.None? {
        return false;
      }
      ok := Check(GetCompatibilityChecker(compatibility), current, [prev.value]);
    }

    /** An upload; whatever becomes of the transaction, change detection is started for it if the
        previous version could be read. */
    method Create(ref: SchemaRef, metadata: Metadata, data: Bytes, commitSha: string,
                  faults: Faults) returns (outcome: Outcome)
      requires Valid(repo.State())
      modifies this`cache, repo
      ensures Valid(repo.State())
      ensures (Current(), outcome) == Uploaded(env, old(Current()), ref, metadata, data, commitSha, faults)
    {
      if ref.nsName !in env.namespaces {
        return Rejected;
      }
      var merged := Merged(env, ref, metadata);
      var current := env.provider.parse(data);
      if current.None? {
        return Rejected;
      }
      var ok := CheckCompatibility(ref, merged.compatibility, current.value, faults.check);
      if !ok {
        return Rejected;
      }
      outcome := Store(ref, merged, data, commitSha, faults);
    }

    /** The second half of an upload: the reread, the transaction and the start of change detection. */
    method Store(ref: SchemaRef, merged: Metadata, data: Bytes, commitSha: string,
                 faults: Faults) returns (outcome: Outcome)
      requires Valid(repo.State())
      modifies this`cache, repo
      ensures Valid(repo.State())
      ensures (Current(), outcome) == Attempted(env, old(Current()), ref, merged, data, commitSha, faults)
    {
      var stored := env.provider.canonical(data);
      var file := OfBytes(stored);
      var versionId := GetIDforSchema(ref.nsName, ref.name, file);
      var prevData := None;
      if !faults.reread {
        prevData := GetLatest(ref);
      }
      var version := 0;
      if !faults.create.RolledBack? {
        version := repo.Create(ref, merged, file, stored, versionId, commitSha);
      }
      var detection := DetectionOf(env, prevData, version);
      return if faults.create.Committed? then Published(versionId, version, detection)
          else Failed(versionId, detection);
    }

    method UpdateMetadata(ref: SchemaRef, compatibility: string) returns (ok: bool)
      requires Valid(repo.State())
      modifies repo
      ensures Valid(repo.State())
      ensures Current() == State(MetadataUpdated(old(Current()).tables, ref, compatibility), old(cache))
      ensures ok <==> ref in old(Current()).tables.schemas
    {
      ok := repo.UpdateMetadata(ref, compatibility);
    }

    method DeleteVersion(ref: SchemaRef, version: int)
      requires Valid(repo.State())
      modifies repo
      ensures Valid(repo.State())
      ensures Current() == State(OrphansCleaned(VersionDeleted(old(Current()).tables, ref, version)), old(cache))
    {
      repo.DeleteVersion(ref, version);
    }

    method Delete(ref: SchemaRef)
      requires Valid(repo.State())
      modifies repo
      ensures Valid(repo.State())
      ensures Current() == State(OrphansCleaned(SchemaDeleted(old(Current()).tables, ref)), old(cache))
    {
      repo.Delete(ref);
    }
  }
}
