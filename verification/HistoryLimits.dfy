/** Concrete runs at the edge of the history laws. */
module HistoryLimits {
  import opened Descriptors
  import opened Keys
  import opened VersionTables
  import opened Registry
  import opened CompatibilityModes
  import opened Compatibility
  import opened Verdicts
  import opened SmallSchemas
  import opened TransitivityLimits
  import opened Histories

  // ---------- namespaces whose owner texts collide ----------

  const UNCHECKED := Metadata("", "", "")

  ghost function IdOf(env: Env, ref: SchemaRef, data: Bytes): UUID {
    GetIDforSchema(ref.nsName, ref.name, OfBytes(env.provider.canonical(data)))
  }

  /** Namespaces `a` and `a-b` share identifiers: once `a-b/c` holds some content, uploading it to
      `a/b-c` inserts nothing and returns the other schema's version. */
  lemma AmbiguousNamesShareVersions(env: Env, s: State, metadata: Metadata, data: Bytes, sha: string, n: int)
    requires Sound(env, s) && Uploaded(env, s, SchemaRef("a", "b-c"), metadata, data, sha, NO_FAULTS).1.Published?
    requires IsVersion(s.tables, SchemaRef("a-b", "c"), n,
                       GetIDforSchema("a-b", "c", OfBytes(env.provider.canonical(data))))
    ensures var (s', outcome) := Uploaded(env, s, SchemaRef("a", "b-c"), metadata, data, sha, NO_FAULTS);
            && s'.tables == s.tables && outcome.version == n
            && !IsVersion(s'.tables, SchemaRef("a", "b-c"), n, outcome.versionId)
  {
    assert Owner("a-b", "c") == "a-b-c" == Owner("a", "b-c");
    assert |"a"| != |"a-b"|;
    if IsVersion(s.tables, SchemaRef("a", "b-c"), n,
                 GetIDforSchema("a-b", "c", OfBytes(env.provider.canonical(data)))) {
      OneOwner(s.tables, SchemaRef("a", "b-c"), SchemaRef("a-b", "c"), n, n,
               GetIDforSchema("a-b", "c", OfBytes(env.provider.canonical(data))));
    }
  }

  /** From the empty registry: after an upload to `a-b/c`, uploading the same content to `a/b-c` succeeds
      and returns version 1, yet `a/b-c` does not exist and nothing can be fetched from it. */
  lemma AmbiguousUploadIsLost(env: Env, data: Bytes)
    requires "a" in env.namespaces && "a-b" in env.namespaces && env.provider.parse(data).Some?
    ensures var s := Step(env, INITIAL, Upload(SchemaRef("a-b", "c"), UNCHECKED, data, "", NO_FAULTS));
            var (s', outcome) := Uploaded(env, s, SchemaRef("a", "b-c"), UNCHECKED, data, "", NO_FAULTS);
            && IsVersion(s.tables, SchemaRef("a-b", "c"), 1,
                         GetIDforSchema("a-b", "c", OfBytes(env.provider.canonical(data))))
            && outcome.Published? && outcome.version == 1 && s'.tables == s.tables
            && SchemaRef("a", "b-c") !in s'.tables.schemas && Fetched(s', SchemaRef("a", "b-c"), 1).1.None?
  {
    var first, second := SchemaRef("a-b", "c"), SchemaRef("a", "b-c");
    assert |"a"| != |"a-b"|;
    assert first != second;
    InitialIsSound(env, first);
    FirstUploadAnywhere(env, first, data);
    var s := Step(env, INITIAL, Upload(first, UNCHECKED, data, "", NO_FAULTS));
    StepIsSound(env, INITIAL, Upload(first, UNCHECKED, data, "", NO_FAULTS));
    AmbiguousNamesShareVersions(env, s, UNCHECKED, data, "", 1);
  }

  /** The first upload to the empty registry, whatever the namespaces and modes are. */
  lemma FirstUploadAnywhere(env: Env, ref: SchemaRef, data: Bytes)
    requires ref.nsName in env.namespaces && env.provider.parse(data).Some?
    ensures var s := Step(env, INITIAL, Upload(ref, UNCHECKED, data, "", NO_FAULTS));
            && IsVersion(s.tables, ref, 1, GetIDforSchema(ref.nsName, ref.name, OfBytes(env.provider.canonical(data))))
            && s.tables.schemas.Keys == {ref}
  {
    InitialIsSound(env, ref);
    var ns, stored := env.namespaces[ref.nsName], env.provider.canonical(data);
    LatestBounds(EMPTY, ref);
    CreateEffect(EMPTY, ref, Metadata(ns.format, ns.compatibility, ""),
                 GetIDforSchema(ref.nsName, ref.name, OfBytes(stored)), "", OfBytes(stored), stored);
  }

  // ---------- why the highest version must not be deleted ----------

  lemma UncheckedUploadSucceeds(env: Env, s: State, ref: SchemaRef, data: Bytes)
    requires ref.nsName in env.namespaces && env.namespaces[ref.nsName].compatibility == ""
    requires env.provider.parse(data).Some?
    requires LatestFetched(s, ref).1.Some? ==> env.provider.parse(LatestFetched(s, ref).1.value).Some?
    ensures Uploaded(env, s, ref, UNCHECKED, data, "", NO_FAULTS).1.Published?
  {}

  /** Upload, fetch, delete the only version, upload other content: the number is given out again while
      the cache still holds the first bytes, and the service serves those. */
  lemma DeletingHighestLeavesStaleBytes(env: Env, ref: SchemaRef, first: Bytes, second: Bytes)
    requires Unambiguous(env.namespaces.Keys) && ref.nsName in env.namespaces
    requires env.namespaces[ref.nsName].compatibility == ""
    requires env.provider.parse(first).Some? && env.provider.parse(second).Some?
    requires env.provider.canonical(first) != env.provider.canonical(second)
    ensures var s1 := Step(env, INITIAL, Upload(ref, UNCHECKED, first, "", NO_FAULTS));
            var s3 := Step(env, Step(env, Step(env, s1, Fetch(ref, 1)), DeleteVersion(ref, 1)), CleanOrphans);
            var s := Step(env, s3, Upload(ref, UNCHECKED, second, "", NO_FAULTS));
            && Stored(s.tables, ref, 1) == Some(env.provider.canonical(second))
            && Fetched(s, ref, 1).1 == Some(env.provider.canonical(first))
  {
    var s1 := Step(env, INITIAL, Upload(ref, UNCHECKED, first, "", NO_FAULTS));
    InitialIsSound(env, ref);
    StepIsSound(env, INITIAL, Upload(ref, UNCHECKED, first, "", NO_FAULTS));
    StepIsSound(env, s1, Fetch(ref, 1));
    FirstUpload(env, ref, first);
    StaleAfter(env, Step(env, s1, Fetch(ref, 1)), ref, env.provider.canonical(first), second);
  }

  /** Deleting the only version and uploading other content, while the cache holds the old bytes. */
  lemma StaleAfter(env: Env, s2: State, ref: SchemaRef, cached: Bytes, second: Bytes)
    requires Sound(env, s2) && Unambiguous(env.namespaces.Keys) && ref.nsName in env.namespaces
    requires env.namespaces[ref.nsName].compatibility == "" && env.provider.parse(second).Some?
    requires |s2.tables.versions| == 1 && Live(s2.tables, ref, 1)
    requires s2.cache == map[CacheKey(ref, 1) := cached]
    ensures var s3 := Step(env, Step(env, s2, DeleteVersion(ref, 1)), CleanOrphans);
            var s4 := Step(env, s3, Upload(ref, UNCHECKED, second, "", NO_FAULTS));
            && Stored(s4.tables, ref, 1) == Some(env.provider.canonical(second))
            && Fetched(s4, ref, 1).1 == Some(cached)
  {
    var s3 := Step(env, Step(env, s2, DeleteVersion(ref, 1)), CleanOrphans);
    var up2 := Upload(ref, UNCHECKED, second, "", NO_FAULTS);
    var s4 := Step(env, s3, up2);
    StepIsSound(env, s2, DeleteVersion(ref, 1));
    StepIsSound(env, Step(env, s2, DeleteVersion(ref, 1)), CleanOrphans);
    StepIsSound(env, s3, up2);
    NoneLeft(s2.tables, ref);
    NothingToFetch(s3, ref, cached);
    UncheckedUploadSucceeds(env, s3, ref, second);
    UploadedIsLive(env, s3, ref, UNCHECKED, second, "", NO_FAULTS);
    LiveIsUnique(s4.tables, ref, 1, GetIDforSchema(ref.nsName, ref.name, OfBytes(env.provider.canonical(second))));
    UploadOnlyAddsToCache(env, s3, up2);
    assert s4.cache[CacheKey(ref, 1)] == cached;
  }

  lemma NothingToFetch(s: State, ref: SchemaRef, cached: Bytes)
    requires s.tables.versions == map[] && Latest(s.tables, ref) == 0 && s.cache == map[CacheKey(ref, 1) := cached]
    ensures LatestFetched(s, ref).1.None?
  {
    KeysAgree(ref.nsName, ref.name, 0, ref.nsName, ref.name, 1);
  }

  /** The first upload becomes version 1, and fetching it caches its bytes. */
  lemma FirstUpload(env: Env, ref: SchemaRef, first: Bytes)
    requires Unambiguous(env.namespaces.Keys) && ref.nsName in env.namespaces
    requires env.namespaces[ref.nsName].compatibility == "" && env.provider.parse(first).Some?
    ensures var s1 := Step(env, INITIAL, Upload(ref, UNCHECKED, first, "", NO_FAULTS));
            && Latest(s1.tables, ref) == 1 && ref in s1.tables.schemas && |s1.tables.versions| == 1
            && Live(s1.tables, ref, 1)
            && Fetched(s1, ref, 1).0.cache == map[CacheKey(ref, 1) := env.provider.canonical(first)]
            && Fetched(s1, ref, 1).1 == Some(env.provider.canonical(first))
            && s1.tables.versions.Keys == {IdOf(env, ref, first)}
  {
    InitialIsSound(env, ref);
    UncheckedUploadSucceeds(env, INITIAL, ref, first);
    UploadedIsLive(env, INITIAL, ref, UNCHECKED, first, "", NO_FAULTS);
    var s1 := Step(env, INITIAL, Upload(ref, UNCHECKED, first, "", NO_FAULTS));
    StepIsSound(env, INITIAL, Upload(ref, UNCHECKED, first, "", NO_FAULTS));
    var id := GetIDforSchema(ref.nsName, ref.name, OfBytes(env.provider.canonical(first)));
    LiveIsUnique(s1.tables, ref, 1, id);
    LatestBounds(s1.tables, ref);
    forall n | Live(s1.tables, ref, n) ensures n == 1 {
      var other :| IsVersion(s1.tables, ref, n, other);
      LiveWasOrIsNew(env, INITIAL, Upload(ref, UNCHECKED, first, "", NO_FAULTS), ref, n, other);
    }
  }

  lemma NoneLeft(t: Tables, ref: SchemaRef)
    requires Valid(t) && |t.versions| == 1 && Live(t, ref, 1)
    ensures var t' := OrphansCleaned(VersionDeleted(t, ref, 1));
            t'.versions == map[] && ref in t'.schemas && Latest(t', ref) == 0
  {
    var id := VersionId(t, ref, 1);
    assert t.versions.Keys - {id} == {} by {
      assert |t.versions.Keys - {id}| == |t.versions.Keys| - 1;
    }
    assert (t.versions - {id}).Keys == {};
  }

  /** Any live version that is fetched and then deleted is still served, while nothing is stored. */
  lemma FetchedThenDeletedIsServed(env: Env, s: State, ref: SchemaRef, n: int)
    requires Sound(env, s) && Live(s.tables, ref, n)
    ensures var s' := Step(env, Step(env, s, Fetch(ref, n)), DeleteVersion(ref, n));
            && !Live(s'.tables, ref, n) && Stored(s'.tables, ref, n).None?
            && Fetched(s', ref, n).1.Some? && Fetched(s', ref, n).1 == Fetched(s, ref, n).1
  {
    var s1 := Step(env, s, Fetch(ref, n));
    var s' := Step(env, s1, DeleteVersion(ref, n));
    LiveIsUnique(s.tables, ref, n, VersionId(s.tables, ref, n));
    forall id ensures !IsVersion(s'.tables, ref, n, id) {
      DeleteVersionKeepsOthers(s1.tables, ref, n, ref, n, id);
    }
  }

  // ---------- a negative number of one schema, a version of another ----------

  lemma FreshUploadPasses(env: Env, s: State, ref: SchemaRef, data: Bytes)
    requires ref.nsName in env.namespaces && ref !in s.tables.schemas && env.provider.parse(data).Some?
    ensures var (s', outcome) := Uploaded(env, s, ref, UNCHECKED, data, "", NO_FAULTS);
            && outcome.Published? && outcome.versionId == IdOf(env, ref, data) && s'.cache == s.cache
            && (IdOf(env, ref, data) !in s.tables.versions ==> s'.tables.schemas.Keys == s.tables.schemas.Keys + {ref})
  {}

  /** The first upload of a schema, in whatever state the others are. */
  lemma FreshSchemaUpload(env: Env, s: State, ref: SchemaRef, data: Bytes)
    requires Sound(env, s) && Unambiguous(env.namespaces.Keys) && ref.nsName in env.namespaces
    requires ref !in s.tables.schemas && env.provider.parse(data).Some?
    ensures var s' := Step(env, s, Upload(ref, UNCHECKED, data, "", NO_FAULTS));
            && Stored(s'.tables, ref, 1) == Some(env.provider.canonical(data)) && s'.cache == s.cache
            && s'.tables.schemas.Keys == s.tables.schemas.Keys + {ref}
  {
    var s' := Step(env, s, Upload(ref, UNCHECKED, data, "", NO_FAULTS));
    FreshUploadPasses(env, s, ref, data);
    StepIsSound(env, s, Upload(ref, UNCHECKED, data, "", NO_FAULTS));
    UploadedIsLive(env, s, ref, UNCHECKED, data, "", NO_FAULTS);
    LiveIsUnique(s'.tables, ref, 1, IdOf(env, ref, data));
  }

  /** From the empty registry, in a dash-free namespace: number -1 of `s` is served with the bytes of
      version 1 of `s-`, although versions are numbered from 1. */
  lemma NegativeNumberServesAnother(env: Env, data: Bytes, other: Bytes)
    requires Unambiguous(env.namespaces.Keys) && "n" in env.namespaces
    requires env.provider.parse(data).Some? && env.provider.parse(other).Some?
    ensures var s1 := Step(env, INITIAL, Upload(SchemaRef("n", "s"), UNCHECKED, data, "", NO_FAULTS));
            var s2 := Step(env, s1, Upload(SchemaRef("n", "s-"), UNCHECKED, other, "", NO_FAULTS));
            var s := Step(env, s2, Fetch(SchemaRef("n", "s-"), 1));
            && Fetched(s, SchemaRef("n", "s"), -1).1 == Some(env.provider.canonical(other))
            && Stored(s.tables, SchemaRef("n", "s"), -1).None?
  {
    var own, padded := SchemaRef("n", "s"), SchemaRef("n", "s-");
    assert |"s"| != |"s-"|;
    InitialIsSound(env, own);
    FreshSchemaUpload(env, INITIAL, own, data);
    StepIsSound(env, INITIAL, Upload(own, UNCHECKED, data, "", NO_FAULTS));
    var s1 := Step(env, INITIAL, Upload(own, UNCHECKED, data, "", NO_FAULTS));
    FreshSchemaUpload(env, s1, padded, other);
    StepIsSound(env, s1, Upload(padded, UNCHECKED, other, "", NO_FAULTS));
    NegativeIsServed(env, Step(env, s1, Upload(padded, UNCHECKED, other, "", NO_FAULTS)),
                     env.provider.canonical(other));
  }

  lemma NegativeIsServed(env: Env, s2: State, value: Bytes)
    requires Sound(env, s2) && s2.cache == map[]
    requires SchemaRef("n", "s") in s2.tables.schemas && SchemaRef("n", "s-") in s2.tables.schemas
    requires Stored(s2.tables, SchemaRef("n", "s-"), 1) == Some(value)
    ensures var s := Step(env, s2, Fetch(SchemaRef("n", "s-"), 1));
            Fetched(s, SchemaRef("n", "s"), -1).1 == Some(value) && Stored(s.tables, SchemaRef("n", "s"), -1).None?
  {
    NegativeNumberCollides();
    LatestBounds(s2.tables, SchemaRef("n", "s"));
  }

  // ---------- a stored mode that is not applied ----------

  const BACKWARD_MODE := "COMPATIBILITY_BACKWARD"

  /** A schema whose stored mode is set to backward accepts an upload that is not backward compatible:
      the upload itself names no mode and neither does the namespace. */
  lemma StoredModeIsNotApplied(env: Env, ref: SchemaRef, d1: Bytes, d2: Bytes)
    requires Unambiguous(env.namespaces.Keys) && ref.nsName in env.namespaces && Lawful(env.provider)
    requires env.namespaces[ref.nsName].compatibility == ""
    requires env.provider.parse(d1) == Some(Only(Proto3, RESERVES_4))
             && env.provider.parse(d2) == Some(Only(Proto3, REUSES_4))
    ensures var s := Step(env, Step(env, INITIAL, Upload(ref, UNCHECKED, d1, "", NO_FAULTS)),
                          UpdateMetadata(ref, BACKWARD_MODE));
            && ref in s.tables.schemas && s.tables.schemas[ref].metadata.compatibility == BACKWARD_MODE
            && Uploaded(env, s, ref, UNCHECKED, d2, "", NO_FAULTS).1.Published?
            && !Compatible(true, Only(Proto3, REUSES_4), Only(Proto3, RESERVES_4))
  {
    WideRangeForgetsItsInside(true);
    ModeIsIgnored(env, ref, d1, d2);
  }

  lemma ModeIsIgnored(env: Env, ref: SchemaRef, d1: Bytes, d2: Bytes)
    requires Unambiguous(env.namespaces.Keys) && ref.nsName in env.namespaces
             && env.namespaces[ref.nsName].compatibility == ""
    requires env.provider.parse(d1).Some? && env.provider.parse(d2).Some?
    requires env.provider.parse(env.provider.canonical(d1)).Some?
    ensures var s := Step(env, Step(env, INITIAL, Upload(ref, UNCHECKED, d1, "", NO_FAULTS)),
                          UpdateMetadata(ref, BACKWARD_MODE));
            && ref in s.tables.schemas && s.tables.schemas[ref].metadata.compatibility == BACKWARD_MODE
            && Uploaded(env, s, ref, UNCHECKED, d2, "", NO_FAULTS).1.Published?
  {
    var s1 := Step(env, INITIAL, Upload(ref, UNCHECKED, d1, "", NO_FAULTS));
    FirstUpload(env, ref, d1);
    InitialIsSound(env, ref);
    StepIsSound(env, INITIAL, Upload(ref, UNCHECKED, d1, "", NO_FAULTS));
    UncheckedUploadSucceeds(env, s1, ref, d2);
    UploadIgnoresStoredMode(env, s1, ref, BACKWARD_MODE, ref, UNCHECKED, d2, "", NO_FAULTS);
  }

  // ---------- change detection without a version ----------

  /** An upload whose transaction is rolled back is reported as failed, and yet change detection is
      started for a version that does not exist, under the number 0. */
  lemma RolledBackUploadIsDetected(env: Env, ref: SchemaRef, first: Bytes, second: Bytes)
    requires Unambiguous(env.namespaces.Keys) && ref.nsName in env.namespaces && env.detectsChanges
    requires env.namespaces[ref.nsName].compatibility == ""
    requires env.provider.parse(first).Some? && env.provider.parse(second).Some?
    requires env.provider.parse(env.provider.canonical(first)).Some?
             && env.provider.canonical(first) != env.provider.canonical(second)
    ensures var s1 := Step(env, INITIAL, Upload(ref, UNCHECKED, first, "", NO_FAULTS));
            var (s2, outcome) := Uploaded(env, s1, ref, UNCHECKED, second, "", Faults(false, false, RolledBack));
            && outcome == Failed(IdOf(env, ref, second), Started(env.provider.canonical(first), 0))
            && s2.tables == s1.tables && IdOf(env, ref, second) !in s2.tables.versions
  {
    FirstUpload(env, ref, first);
    var s1 := Step(env, INITIAL, Upload(ref, UNCHECKED, first, "", NO_FAULTS));
    assert LatestFetched(s1, ref).1 == Some(env.provider.canonical(first));
  }

  // ---------- a transitive mode that is not transitive ----------

  const TRANSITIVE := Metadata("", "COMPATIBILITY_BACKWARD_TRANSITIVE", "")

  /** The state a serial run keeps, with its highest version and what that holds. */
  ghost predicate At(env: Env, s: State, ref: SchemaRef, n: int, files: seq<File>) {
    && Sound(env, s) && CoherentFor(s, ref) && CachedBelow(s, ref)
    && Latest(s.tables, ref) == n && Live(s.tables, ref, n) && Content(env, s.tables, ref, n) == Some(files)
  }

  lemma TransitiveChecker()
    ensures TRANSITIVE.compatibility != "" && GetCompatibilityChecker(TRANSITIVE.compatibility) == ValidateAll(Backward)
  {
    assert |"COMPATIBILITY_BACKWARD"| != |"COMPATIBILITY_BACKWARD_TRANSITIVE"|;
  }

  lemma CompatibleIsPublished(env: Env, s: State, ref: SchemaRef, data: Bytes, n: int, prev: seq<File>,
                              current: seq<File>)
    requires ref.nsName in env.namespaces && At(env, s, ref, n, prev)
    requires env.provider.parse(data) == Some(current) && Accepts(ValidateAll(Backward), current, [prev])
    ensures Uploaded(env, s, ref, TRANSITIVE, data, "", NO_FAULTS).1.Published?
  {
    TransitiveChecker();
    LatestBounds(s.tables, ref);
    assert LatestFetched(s, ref).1 == Stored(s.tables, ref, n);
  }

  /** A published upload of new content becomes the next version. */
  lemma PublishedIsNext(env: Env, s: State, ref: SchemaRef, data: Bytes, current: seq<File>)
    requires Unambiguous(env.namespaces.Keys) && Sound(env, s)
    requires env.provider.parse(env.provider.canonical(data)) == Some(current)
    requires Uploaded(env, s, ref, TRANSITIVE, data, "", NO_FAULTS).1.Published?
             && IdOf(env, ref, data) !in s.tables.versions
    ensures var t', n := Step(env, s, Upload(ref, TRANSITIVE, data, "", NO_FAULTS)).tables, Latest(s.tables, ref) + 1;
            && Latest(t', ref) == n && IsVersion(t', ref, n, IdOf(env, ref, data))
            && Live(t', ref, n) && Content(env, t', ref, n) == Some(current)
  {
    var op := Upload(ref, TRANSITIVE, data, "", NO_FAULTS);
    var t', n := Step(env, s, op).tables, Latest(s.tables, ref) + 1;
    StepIsSound(env, s, op);
    UploadedIsLive(env, s, ref, TRANSITIVE, data, "", NO_FAULTS);
    LiveIsUnique(t', ref, n, IdOf(env, ref, data));
    LatestBounds(s.tables, ref);
    LatestBounds(t', ref);
    var id := VersionId(t', ref, Latest(t', ref));
    LiveWasOrIsNew(env, s, op, ref, Latest(t', ref), id);
    if IsVersion(s.tables, ref, Latest(t', ref), id) { assert Live(s.tables, ref, Latest(t', ref)); }
  }

  lemma PublishedKeys(env: Env, s: State, ref: SchemaRef, data: Bytes)
    requires Uploaded(env, s, ref, TRANSITIVE, data, "", NO_FAULTS).1.Published?
             && IdOf(env, ref, data) !in s.tables.versions
    ensures Step(env, s, Upload(ref, TRANSITIVE, data, "", NO_FAULTS)).tables.versions.Keys
            == s.tables.versions.Keys + {IdOf(env, ref, data)}
  {}

  /** The state after a published upload of new content. */
  ghost predicate Follows(env: Env, s: State, s': State, ref: SchemaRef, data: Bytes, current: seq<File>) {
    && At(env, s', ref, Latest(s.tables, ref) + 1, current)
    && s'.tables.versions.Keys == s.tables.versions.Keys + {IdOf(env, ref, data)}
  }

  lemma NextUpload(env: Env, s: State, ref: SchemaRef, data: Bytes, current: seq<File>)
    requires Unambiguous(env.namespaces.Keys) && ref.nsName in env.namespaces
    requires Sound(env, s) && CoherentFor(s, ref) && CachedBelow(s, ref)
    requires env.provider.parse(env.provider.canonical(data)) == Some(current)
    requires Uploaded(env, s, ref, TRANSITIVE, data, "", NO_FAULTS).1.Published?
             && IdOf(env, ref, data) !in s.tables.versions
    ensures Follows(env, s, Step(env, s, Upload(ref, TRANSITIVE, data, "", NO_FAULTS)), ref, data, current)
  {
    StepIsSound(env, s, Upload(ref, TRANSITIVE, data, "", NO_FAULTS));
    StepKeepsCache(env, s, Upload(ref, TRANSITIVE, data, "", NO_FAULTS), ref);
    PublishedIsNext(env, s, ref, data, current);
    PublishedKeys(env, s, ref, data);
  }

  lemma NextCompatible(env: Env, s: State, ref: SchemaRef, data: Bytes, n: int, prev: seq<File>, current: seq<File>)
    requires Unambiguous(env.namespaces.Keys) && ref.nsName in env.namespaces && At(env, s, ref, n, prev)
    requires Encodes(env, data, current)
    requires Accepts(ValidateAll(Backward), current, [prev]) && IdOf(env, ref, data) !in s.tables.versions
    ensures Follows(env, s, Step(env, s, Upload(ref, TRANSITIVE, data, "", NO_FAULTS)), ref, data, current)
  {
    CompatibleIsPublished(env, s, ref, data, n, prev, current);
    NextUpload(env, s, ref, data, current);
  }

  lemma FirstUploadOf(env: Env, ref: SchemaRef, data: Bytes, current: seq<File>)
    requires Unambiguous(env.namespaces.Keys) && ref.nsName in env.namespaces
    requires Encodes(env, data, current)
    ensures Follows(env, INITIAL, Step(env, INITIAL, Upload(ref, TRANSITIVE, data, "", NO_FAULTS)), ref, data, current)
    ensures Latest(INITIAL.tables, ref) == 0
  {
    InitialIsSound(env, ref);
    LatestBounds(EMPTY, ref);
    NextUpload(env, INITIAL, ref, data, current);
  }

  /** Bytes that parse to `files`, as do the bytes stored for them. */
  ghost predicate Encodes(env: Env, data: Bytes, files: seq<File>) {
    env.provider.parse(data) == env.provider.parse(env.provider.canonical(data)) == Some(files)
  }

  /** Three uploads in the transitive mode, each compatible with the one before, become versions 1 to 3. */
  lemma ThreeUploads(env: Env, ref: SchemaRef, d1: Bytes, d2: Bytes, d3: Bytes, a: seq<File>, b: seq<File>,
                     c: seq<File>)
    requires Unambiguous(env.namespaces.Keys) && ref.nsName in env.namespaces
    requires Encodes(env, d1, a) && Encodes(env, d2, b) && Encodes(env, d3, c) && a != b && b != c && a != c
    requires Accepts(ValidateAll(Backward), b, [a]) && Accepts(ValidateAll(Backward), c, [b])
    ensures var s1 := Step(env, INITIAL, Upload(ref, TRANSITIVE, d1, "", NO_FAULTS));
            var s2 := Step(env, s1, Upload(ref, TRANSITIVE, d2, "", NO_FAULTS));
            var s := Step(env, s2, Upload(ref, TRANSITIVE, d3, "", NO_FAULTS));
            At(env, s1, ref, 1, a) && At(env, s2, ref, 2, b) && At(env, s, ref, 3, c)
  {
    FirstUploadOf(env, ref, d1, a);
    TwoMoreUploads(env, Step(env, INITIAL, Upload(ref, TRANSITIVE, d1, "", NO_FAULTS)), ref, d1, d2, d3, a, b, c);
  }

  lemma TwoMoreUploads(env: Env, s: State, ref: SchemaRef, d1: Bytes, d2: Bytes, d3: Bytes, a: seq<File>, b: seq<File>,
                       c: seq<File>)
    requires Unambiguous(env.namespaces.Keys) && ref.nsName in env.namespaces
    requires Encodes(env, d1, a) && Encodes(env, d2, b) && Encodes(env, d3, c) && a != b && b != c && a != c
    requires Accepts(ValidateAll(Backward), b, [a]) && Accepts(ValidateAll(Backward), c, [b])
    requires At(env, s, ref, 1, a) && s.tables.versions.Keys == {IdOf(env, ref, d1)}
    ensures var s2 := Step(env, s, Upload(ref, TRANSITIVE, d2, "", NO_FAULTS));
            At(env, s2, ref, 2, b) && At(env, Step(env, s2, Upload(ref, TRANSITIVE, d3, "", NO_FAULTS)), ref, 3, c)
  {
    NextCompatible(env, s, ref, d2, 1, a, b);
    NextCompatible(env, Step(env, s, Upload(ref, TRANSITIVE, d2, "", NO_FAULTS)), ref, d3, 2, b, c);
  }

  lemma Accepted(current: seq<File>, prev: seq<File>)
    requires Compatible(true, current, prev)
    ensures Accepts(ValidateAll(Backward), current, [prev])
  {
    TransitiveModesCheckLatestOnly(Backward, current, prev);
  }

  /** Three uploads, each checked in the transitive backward mode and accepted, leave a version that is
      not compatible with the first: the service hands the mode the latest version only. */
  lemma TransitiveModeLosesTheFirst(env: Env, ref: SchemaRef, d1: Bytes, d2: Bytes, d3: Bytes)
    requires Unambiguous(env.namespaces.Keys) && ref.nsName in env.namespaces && Lawful(env.provider)
    requires env.provider.parse(d1) == Some(Only(Proto3, RESERVES_4))
    requires env.provider.parse(d2) == Some(Only(Proto3, RESERVES_3_TO_5))
    requires env.provider.parse(d3) == Some(Only(Proto3, REUSES_4))
    ensures var s1 := Step(env, INITIAL, Upload(ref, TRANSITIVE, d1, "", NO_FAULTS));
            var s := Step(env, Step(env, s1, Upload(ref, TRANSITIVE, d2, "", NO_FAULTS)),
                          Upload(ref, TRANSITIVE, d3, "", NO_FAULTS));
            && Live(s.tables, ref, 1) && Live(s.tables, ref, 3)
            && Content(env, s.tables, ref, 1) == Some(Only(Proto3, RESERVES_4))
            && Content(env, s.tables, ref, 3) == Some(Only(Proto3, REUSES_4))
            && !Compatible(true, Only(Proto3, REUSES_4), Only(Proto3, RESERVES_4))
  {
    var a, b, c := Only(Proto3, RESERVES_4), Only(Proto3, RESERVES_3_TO_5), Only(Proto3, REUSES_4);
    WideRangeForgetsItsInside(true);
    Accepted(b, a);
    Accepted(c, b);
    WideRangesDiffer();
    StoredFormEncodes(env, d1);
    StoredFormEncodes(env, d2);
    StoredFormEncodes(env, d3);
    ThreeUploads(env, ref, d1, d2, d3, a, b, c);
    var s1 := Step(env, INITIAL, Upload(ref, TRANSITIVE, d1, "", NO_FAULTS));
    ContentStays(env, s1, Upload(ref, TRANSITIVE, d2, "", NO_FAULTS), ref, 1);
    ContentStays(env, Step(env, s1, Upload(ref, TRANSITIVE, d2, "", NO_FAULTS)),
                 Upload(ref, TRANSITIVE, d3, "", NO_FAULTS), ref, 1);
  }

  lemma WideRangesDiffer()
    ensures Only(Proto3, RESERVES_4) != Only(Proto3, RESERVES_3_TO_5)
            && Only(Proto3, RESERVES_4) != Only(Proto3, REUSES_4)
    ensures Only(Proto3, RESERVES_3_TO_5) != Only(Proto3, REUSES_4)
  {
    assert Only(Proto3, RESERVES_4)[0].messages[0].reservedRanges[0].end == 5;
    assert Only(Proto3, RESERVES_3_TO_5)[0].messages[0].reservedRanges[0].end == 6;
    assert Only(Proto3, REUSES_4)[0].messages[0].reservedRanges[0].end == 4;
  }

  lemma StoredFormEncodes(env: Env, data: Bytes)
    requires Lawful(env.provider) && env.provider.parse(data).Some?
    ensures Encodes(env, data, env.provider.parse(data).value)
  {}

  lemma ContentStays(env: Env, s: State, op: Op, ref: SchemaRef, n: int)
    requires Sound(env, s) && Live(s.tables, ref, n) && op.Upload?
    ensures Live(Step(env, s, op).tables, ref, n)
    ensures Content(env, Step(env, s, op).tables, ref, n) == Content(env, s.tables, ref, n)
  {
    var id := VersionId(s.tables, ref, n);
    StepIsSound(env, s, op);
    LiveStays(env, s, op, ref, n, id);
    LiveIsUnique(s.tables, ref, n, id);
    LiveIsUnique(Step(env, s, op).tables, ref, n, id);
  }
}
