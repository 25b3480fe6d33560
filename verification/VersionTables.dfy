/** The version tables and the statements that change them, each as one atomic transition. */
module VersionTables {
  import opened Descriptors
  import opened Keys

  type Bytes = string

  /** SHA-1 name-based identifiers (section 4.3 of RFC 4122), taken as injective: of file bytes, or of
      the text made of an owner, a dash and the fixed-length identifier of a file. */
  datatype UUID = OfBytes(data: Bytes) | OfKey(owner: string, file: UUID)

  datatype SchemaRef = SchemaRef(nsName: string, name: string)

  datatype Metadata = Metadata(format: string, compatibility: string, sourceUrl: string)

  datatype SchemaRow = SchemaRow(id: nat, metadata: Metadata)

  datatype VersionRow = VersionRow(number: int, schemaId: nat, commitSha: string)

  /** The tables schemas, versions, schema_files and versions_schema_files, and the id sequence. */
  datatype Tables = Tables(
    schemas: map<SchemaRef, SchemaRow>,
    versions: map<UUID, VersionRow>,
    files: map<UUID, Bytes>,
    fileOf: map<UUID, UUID>,
    nextId: nat)

  const EMPTY := Tables(map[], map[], map[], map[], 1)

  function GetIDforSchema(nsName: string, schema: string, file: UUID): UUID {
    OfKey(Owner(nsName, schema), file)
  }

  // ---------- queries ----------

  ghost function Numbers(t: Tables, schemaId: nat): set<int> {
    set id | id in t.versions && t.versions[id].schemaId == schemaId :: t.versions[id].number
  }

  lemma SomeMember<T>(s: set<T>) returns (x: T)
    requires s != {}
    ensures x in s
  {
    x :| x in s;
  }

  lemma HasMax(s: set<int>) returns (m: int)
    requires s != {}
    ensures m in s && forall x | x in s :: x <= m
  {
    var x := SomeMember(s);
    if s == {x} {
      m := x;
    } else {
      var rest := HasMax(s - {x});
      m := if x > rest then x else rest;
      assert forall y | y in s :: y == x || y in s - {x};
    }
  }

  /** The largest member, or 0 if there is none. */
  ghost function MaxOf(s: set<int>): (m: int)
    ensures s == {} ==> m == 0
    ensures s != {} ==> m in s && forall x | x in s :: x <= m
  {
    if s == {} then 0
    else
      assert exists m :: m in s && forall x | x in s :: x <= m by { var m := HasMax(s); }
      var m :| m in s && forall x | x in s :: x <= m; m
  }

  ghost predicate IsVersion(t: Tables, ref: SchemaRef, number: int, id: UUID) {
    ref in t.schemas && id in t.versions && t.versions[id].number == number
        && t.versions[id].schemaId == t.schemas[ref].id
  }

  /** The schema has a live version with this number. */
  ghost predicate Live(t: Tables, ref: SchemaRef, number: int) {
    exists id :: IsVersion(t, ref, number, id)
  }

  ghost function VersionId(t: Tables, ref: SchemaRef, number: int): UUID
    requires Live(t, ref, number)
  {
    var id :| IsVersion(t, ref, number, id); id
  }

  ghost function Latest(t: Tables, ref: SchemaRef): int {
    if ref in t.schemas then MaxOf(Numbers(t, t.schemas[ref].id)) else 0
  }

  /** The bytes of a live version; none if there is no such version. */
  ghost function Stored(t: Tables, ref: SchemaRef, number: int): Option<Bytes> {
    if Live(t, ref, number) then
      var id := VersionId(t, ref, number);
      if id in t.fileOf && t.fileOf[id] in t.files then Some(t.files[t.fileOf[id]]) else None
    else None
  }

  // ---------- transitions ----------

  function Upserted(t: Tables, ref: SchemaRef, metadata: Metadata): Tables {
    t.(schemas := if ref in t.schemas then t.schemas else t.schemas[ref := SchemaRow(t.nextId, metadata)],
       nextId := t.nextId + 1)
  }

  ghost function Created(t: Tables, ref: SchemaRef, metadata: Metadata, versionId: UUID, commitSha: string,
                         fileId: UUID, data: Bytes): (Tables, int)
  {
    if versionId in t.versions then (t, t.versions[versionId].number)
    else
      var u := Upserted(t, ref, metadata);
      var number := Latest(u, ref) + 1;
      (u.(versions := u.versions[versionId := VersionRow(number, u.schemas[ref].id, commitSha)],
          files := if fileId in u.files then u.files else u.files[fileId := data],
          fileOf := u.fileOf[versionId := fileId]),
       number)
  }

  ghost function VersionDeleted(t: Tables, ref: SchemaRef, number: int): Tables {
    if Live(t, ref, number) then
      var id := VersionId(t, ref, number);
      t.(versions := t.versions - {id}, fileOf := t.fileOf - {id})
    else t
  }

  ghost function SchemaDeleted(t: Tables, ref: SchemaRef): Tables {
    if ref in t.schemas then
      var gone := set id | id in t.versions && t.versions[id].schemaId == t.schemas[ref].id;
      t.(schemas := t.schemas - {ref}, versions := t.versions - gone, fileOf := t.fileOf - gone)
    else t
  }

  function OrphansCleaned(t: Tables): Tables {
    t.(files := map f | f in t.files && f in t.fileOf.Values :: t.files[f])
  }

  /** Stores a compatibility mode with an existing schema. */
  function MetadataUpdated(t: Tables, ref: SchemaRef, compatibility: string): Tables {
    if ref in t.schemas then
      var row := t.schemas[ref];
      t.(schemas := t.schemas[ref := row.(metadata := row.metadata.(compatibility := compatibility))])
    else t
  }

  // ---------- what every table state keeps ----------

  ghost predicate SameId(t: Tables, a: SchemaRef, b: SchemaRef) {
    a in t.schemas && b in t.schemas && t.schemas[a].id == t.schemas[b].id
  }

  ghost predicate SchemaIds(t: Tables) {
    && (forall a, b | SameId(t, a, b) :: a == b)
    && (forall a | a in t.schemas :: t.schemas[a].id < t.nextId)
  }

  ghost predicate SameNumber(t: Tables, a: UUID, b: UUID) {
    && a in t.versions && b in t.versions
    && t.versions[a].schemaId == t.versions[b].schemaId && t.versions[a].number == t.versions[b].number
  }

  /** Version numbers are positive and distinct within a schema. */
  ghost predicate NumbersDistinct(t: Tables) {
    && (forall id | id in t.versions :: t.versions[id].number >= 1)
    && (forall a, b | SameNumber(t, a, b) :: a == b)
  }

  /** A version's identifier is made of its schema's owner text and its file; the file is there and
      its identifier is that of its bytes. */
  ghost predicate OwnedBy(t: Tables, id: UUID, ref: SchemaRef) {
    id in t.versions && id.OfKey? && ref in t.schemas
    && t.versions[id].schemaId == t.schemas[ref].id && id.owner == Owner(ref.nsName, ref.name)
  }

  ghost predicate HasOwner(t: Tables, id: UUID) {
    exists ref :: OwnedBy(t, id, ref)
  }

  ghost predicate Owned(t: Tables) {
    forall id {:trigger HasOwner(t, id)} | id in t.versions :: HasOwner(t, id)
  }

  ghost predicate HasFile(t: Tables, id: UUID) {
    id.OfKey? && id in t.fileOf && t.fileOf[id] == id.file && id.file in t.files
  }

  ghost predicate Linked(t: Tables) {
    && t.fileOf.Keys == t.versions.Keys
    && (forall id {:trigger HasFile(t, id)} | id in t.versions :: HasFile(t, id))
    && (forall f | f in t.files :: f == OfBytes(t.files[f]))
  }

  ghost predicate Valid(t: Tables) {
    SchemaIds(t) && NumbersDistinct(t) && Linked(t) && Owned(t)
  }

  lemma OwnerOf(t: Tables, ref: SchemaRef, number: int, id: UUID)
    requires SchemaIds(t) && Owned(t) && IsVersion(t, ref, number, id)
    ensures OwnedBy(t, id, ref)
  {
    assert HasOwner(t, id);
    var r :| OwnedBy(t, id, r);
    assert SameId(t, r, ref);
  }

  lemma LiveIsUnique(t: Tables, ref: SchemaRef, number: int, id: UUID)
    requires Valid(t) && IsVersion(t, ref, number, id)
    ensures Live(t, ref, number) && VersionId(t, ref, number) == id
    ensures id.OfKey? && id.file.OfBytes? && HasFile(t, id) && Stored(t, ref, number) == Some(id.file.data)
    ensures id.owner == Owner(ref.nsName, ref.name)
  {
    OwnerOf(t, ref, number, id);
    assert SameNumber(t, id, VersionId(t, ref, number));
    assert HasFile(t, id);
  }

  lemma LatestBounds(t: Tables, ref: SchemaRef)
    requires Valid(t)
    ensures Latest(t, ref) >= 0
    ensures forall n | Live(t, ref, n) :: 1 <= n <= Latest(t, ref)
    ensures Latest(t, ref) > 0 <==> exists n :: Live(t, ref, n)
    ensures Latest(t, ref) > 0 ==> Live(t, ref, Latest(t, ref))
  {
    if ref in t.schemas {
      var numbers := Numbers(t, t.schemas[ref].id);
      forall n ensures Live(t, ref, n) <==> n in numbers {
        if Live(t, ref, n) {
          var id :| IsVersion(t, ref, n, id);
        }
        if n in numbers {
          var id :| id in t.versions && t.versions[id].schemaId == t.schemas[ref].id && t.versions[id].number == n;
          assert IsVersion(t, ref, n, id);
        }
      }
    }
  }

  lemma OwnedStays(t: Tables, t': Tables)
    requires Owned(t) && t'.versions.Keys <= t.versions.Keys
    requires forall id | id in t'.versions :: t'.versions[id] == t.versions[id]
    requires forall id, ref | id in t'.versions && OwnedBy(t, id, ref) ::
               ref in t'.schemas && t'.schemas[ref] == t.schemas[ref]
    ensures Owned(t')
  {
    forall id | id in t'.versions ensures HasOwner(t', id) {
      assert HasOwner(t, id);
      var r :| OwnedBy(t, id, r);
      assert OwnedBy(t', id, r);
    }
  }

  lemma NumbersStay(t: Tables, t': Tables)
    requires NumbersDistinct(t) && t'.versions.Keys <= t.versions.Keys
    requires forall id | id in t'.versions :: t'.versions[id] == t.versions[id]
    ensures NumbersDistinct(t')
  {
    forall a, b | SameNumber(t', a, b) ensures a == b {
      assert SameNumber(t, a, b);
    }
  }

  lemma LinksStay(t: Tables, t': Tables)
    requires Linked(t) && t'.versions.Keys <= t.versions.Keys && t'.fileOf == map id | id in t'.versions :: t.fileOf[id]
    requires t'.files.Keys <= t.files.Keys && forall f | f in t'.files :: t'.files[f] == t.files[f]
    requires forall id | id in t'.versions :: t.fileOf[id] in t'.files
    ensures Linked(t')
  {
    forall id | id in t'.versions ensures HasFile(t', id) {
      assert HasFile(t, id);
    }
  }

  lemma SchemasStay(t: Tables, t': Tables)
    requires SchemaIds(t) && t'.schemas.Keys <= t.schemas.Keys && t'.nextId == t.nextId
    requires forall ref | ref in t'.schemas :: t'.schemas[ref] == t.schemas[ref]
    ensures SchemaIds(t')
  {
    forall a, b | SameId(t', a, b) ensures a == b {
      assert SameId(t, a, b);
    }
  }

  lemma UpsertedSchemas(t: Tables, ref: SchemaRef, metadata: Metadata)
    requires SchemaIds(t)
    ensures SchemaIds(Upserted(t, ref, metadata))
  {
    var u := Upserted(t, ref, metadata);
    forall a, b | SameId(u, a, b) ensures a == b {
      if a in t.schemas && b in t.schemas { assert SameId(t, a, b); }
    }
  }

  lemma UpsertKeepsValid(t: Tables, ref: SchemaRef, metadata: Metadata)
    requires Valid(t)
    ensures Valid(Upserted(t, ref, metadata))
  {
    var u := Upserted(t, ref, metadata);
    FilesOfVersions(t);
    OwnedStays(t, u);
    NumbersStay(t, u);
    LinksStay(t, u);
    UpsertedSchemas(t, ref, metadata);
  }

  lemma UpsertKeepsVersions(t: Tables, ref: SchemaRef, metadata: Metadata, other: SchemaRef, n: int, id: UUID)
    requires Valid(t)
    ensures IsVersion(Upserted(t, ref, metadata), other, n, id) <==> IsVersion(t, other, n, id)
  {
    if IsVersion(Upserted(t, ref, metadata), other, n, id) {
      assert HasOwner(t, id);
      var r :| OwnedBy(t, id, r);
      if other in t.schemas { assert SameId(t, r, other); }
    }
  }

  lemma UpsertKeepsLatest(t: Tables, ref: SchemaRef, metadata: Metadata)
    requires Valid(t)
    ensures Latest(Upserted(t, ref, metadata), ref) == Latest(t, ref)
  {
    var u := Upserted(t, ref, metadata);
    UpsertKeepsValid(t, ref, metadata);
    LatestBounds(t, ref);
    LatestBounds(u, ref);
    forall n ensures Live(u, ref, n) <==> Live(t, ref, n) {
      forall id ensures IsVersion(u, ref, n, id) <==> IsVersion(t, ref, n, id) {
        UpsertKeepsVersions(t, ref, metadata, ref, n, id);
      }
      LiveAgrees(u, t, ref, n);
    }
  }

  lemma LiveAgrees(t: Tables, t': Tables, ref: SchemaRef, n: int)
    requires forall id :: IsVersion(t, ref, n, id) <==> IsVersion(t', ref, n, id)
    ensures Live(t, ref, n) <==> Live(t', ref, n)
  {}

  // ---------- every transition keeps the tables valid and says what is live ----------

  /** The request carries the identifiers the service computes for the bytes. */
  ghost predicate IsRequest(ref: SchemaRef, versionId: UUID, fileId: UUID, data: Bytes) {
    fileId == OfBytes(data) && versionId == GetIDforSchema(ref.nsName, ref.name, fileId)
  }

  ghost function Inserted(u: Tables, ref: SchemaRef, versionId: UUID, commitSha: string, fileId: UUID,
                          data: Bytes): Tables
    requires ref in u.schemas
  {
    u.(versions := u.versions[versionId := VersionRow(Latest(u, ref) + 1, u.schemas[ref].id, commitSha)],
       files := if fileId in u.files then u.files else u.files[fileId := data],
       fileOf := u.fileOf[versionId := fileId])
  }

  lemma BelowNext(u: Tables, ref: SchemaRef, id: UUID)
    requires Valid(u) && ref in u.schemas && id in u.versions && u.versions[id].schemaId == u.schemas[ref].id
    ensures 1 <= u.versions[id].number <= Latest(u, ref)
  {
    LatestBounds(u, ref);
    assert IsVersion(u, ref, u.versions[id].number, id);
    assert Live(u, ref, u.versions[id].number);
  }

  lemma InsertedNumbers(u: Tables, ref: SchemaRef, versionId: UUID, commitSha: string, fileId: UUID, data: Bytes)
    requires Valid(u) && ref in u.schemas && versionId !in u.versions
    ensures NumbersDistinct(Inserted(u, ref, versionId, commitSha, fileId, data))
  {
    var t' := Inserted(u, ref, versionId, commitSha, fileId, data);
    LatestBounds(u, ref);
    forall a, b | SameNumber(t', a, b) ensures a == b {
      if a != versionId && b != versionId { assert SameNumber(u, a, b); }
      if a != versionId && b == versionId { BelowNext(u, ref, a); }
      if a == versionId && b != versionId { BelowNext(u, ref, b); }
    }
  }

  lemma InsertedOwned(u: Tables, ref: SchemaRef, versionId: UUID, commitSha: string, fileId: UUID, data: Bytes)
    requires Owned(u) && ref in u.schemas && IsRequest(ref, versionId, fileId, data) && versionId !in u.versions
    ensures Owned(Inserted(u, ref, versionId, commitSha, fileId, data))
  {
    var t' := Inserted(u, ref, versionId, commitSha, fileId, data);
    forall id | id in t'.versions ensures HasOwner(t', id) {
      if id == versionId {
        assert OwnedBy(t', id, ref);
      } else {
        assert HasOwner(u, id);
        var r :| OwnedBy(u, id, r);
        assert OwnedBy(t', id, r);
      }
    }
  }

  lemma InsertedLinked(u: Tables, ref: SchemaRef, versionId: UUID, commitSha: string, fileId: UUID, data: Bytes)
    requires Linked(u) && ref in u.schemas && IsRequest(ref, versionId, fileId, data)
    ensures Linked(Inserted(u, ref, versionId, commitSha, fileId, data))
  {
    var t' := Inserted(u, ref, versionId, commitSha, fileId, data);
    forall id | id in t'.versions ensures HasFile(t', id) {
      if id != versionId { assert HasFile(u, id); }
    }
  }

  lemma InsertedIsValid(u: Tables, ref: SchemaRef, versionId: UUID, commitSha: string, fileId: UUID, data: Bytes)
    requires Valid(u) && ref in u.schemas && IsRequest(ref, versionId, fileId, data) && versionId !in u.versions
    ensures Valid(Inserted(u, ref, versionId, commitSha, fileId, data))
  {
    InsertedNumbers(u, ref, versionId, commitSha, fileId, data);
    InsertedOwned(u, ref, versionId, commitSha, fileId, data);
    InsertedLinked(u, ref, versionId, commitSha, fileId, data);
    SchemasStay(u, Inserted(u, ref, versionId, commitSha, fileId, data));
  }

  lemma InsertedLatest(u: Tables, ref: SchemaRef, versionId: UUID, commitSha: string, fileId: UUID, data: Bytes)
    requires Valid(u) && ref in u.schemas && IsRequest(ref, versionId, fileId, data) && versionId !in u.versions
    ensures Latest(Inserted(u, ref, versionId, commitSha, fileId, data), ref) == Latest(u, ref) + 1
  {
    var t', number := Inserted(u, ref, versionId, commitSha, fileId, data), Latest(u, ref) + 1;
    InsertedIsValid(u, ref, versionId, commitSha, fileId, data);
    LatestBounds(u, ref);
    LatestBounds(t', ref);
    assert IsVersion(t', ref, number, versionId);
    assert Live(t', ref, number);
    forall n | Live(t', ref, n) ensures n <= number {
      var id :| IsVersion(t', ref, n, id);
      if id != versionId { BelowNext(u, ref, id); }
    }
  }

  /** What an insertion does, by its two statements. */
  lemma CreateByParts(t: Tables, ref: SchemaRef, metadata: Metadata, versionId: UUID, commitSha: string, fileId: UUID,
                      data: Bytes)
    requires Valid(t) && IsRequest(ref, versionId, fileId, data) && versionId !in t.versions
    ensures var u := Upserted(t, ref, metadata);
            && Valid(u)
            && Valid(Inserted(u, ref, versionId, commitSha, fileId, data))
            && Created(t, ref, metadata, versionId, commitSha, fileId, data)
               == (Inserted(u, ref, versionId, commitSha, fileId, data), Latest(u, ref) + 1)
  {
    UpsertKeepsValid(t, ref, metadata);
    InsertedIsValid(Upserted(t, ref, metadata), ref, versionId, commitSha, fileId, data);
  }

  /** New content gets the number after the highest live one and becomes the highest. */
  lemma CreateEffect(t: Tables, ref: SchemaRef, metadata: Metadata, versionId: UUID, commitSha: string, fileId: UUID,
                     data: Bytes)
    requires Valid(t) && IsRequest(ref, versionId, fileId, data) && versionId !in t.versions
    ensures var (t', number) := Created(t, ref, metadata, versionId, commitSha, fileId, data);
            && Valid(t')
            && number == Latest(t, ref) + 1 == Latest(t', ref)
            && IsVersion(t', ref, number, versionId)
  {
    CreateByParts(t, ref, metadata, versionId, commitSha, fileId, data);
    UpsertKeepsLatest(t, ref, metadata);
    InsertedLatest(Upserted(t, ref, metadata), ref, versionId, commitSha, fileId, data);
  }

  /** A creation changes nothing else that is live. */
  lemma CreateKeepsOthers(t: Tables, ref: SchemaRef, metadata: Metadata, versionId: UUID, commitSha: string,
                          fileId: UUID, data: Bytes,
                          other: SchemaRef, n: int, id: UUID)
    requires Valid(t) && IsRequest(ref, versionId, fileId, data) && versionId !in t.versions
    ensures var (t', number) := Created(t, ref, metadata, versionId, commitSha, fileId, data);
            IsVersion(t', other, n, id) <==>
            IsVersion(t, other, n, id) || (other == ref && n == number && id == versionId)
  {
    var u := Upserted(t, ref, metadata);
    UpsertKeepsVersions(t, ref, metadata, other, n, id);
    CreateByParts(t, ref, metadata, versionId, commitSha, fileId, data);
    if id == versionId && IsVersion(Inserted(u, ref, versionId, commitSha, fileId, data), other, n, id) {
      assert SameId(u, other, ref);
    }
  }

  lemma DeleteVersionEffect(t: Tables, ref: SchemaRef, number: int)
    requires Valid(t)
    ensures Valid(VersionDeleted(t, ref, number))
  {
    var t' := VersionDeleted(t, ref, number);
    FilesOfVersions(t);
    OwnedStays(t, t');
    NumbersStay(t, t');
    LinksStay(t, t');
    SchemasStay(t, t');
  }

  lemma FilesOfVersions(t: Tables)
    requires Linked(t)
    ensures forall id | id in t.versions :: t.fileOf[id] in t.files
  {
    forall id | id in t.versions ensures t.fileOf[id] in t.files {
      assert HasFile(t, id);
    }
  }

  lemma DeleteVersionKeepsOthers(t: Tables, ref: SchemaRef, number: int, other: SchemaRef, n: int, id: UUID)
    requires Valid(t)
    ensures IsVersion(VersionDeleted(t, ref, number), other, n, id) <==>
            IsVersion(t, other, n, id) && !(other == ref && n == number)
  {
    if IsVersion(t, ref, number, id) {
      LiveIsUnique(t, ref, number, id);
      if other in t.schemas && IsVersion(t, other, n, id) { assert SameId(t, other, ref); }
    }
  }

  lemma DeleteSchemaEffect(t: Tables, ref: SchemaRef)
    requires Valid(t)
    ensures Valid(SchemaDeleted(t, ref))
  {
    var t' := SchemaDeleted(t, ref);
    FilesOfVersions(t);
    OwnedStays(t, t');
    NumbersStay(t, t');
    LinksStay(t, t');
    SchemasStay(t, t');
  }

  lemma DeleteSchemaKeepsOthers(t: Tables, ref: SchemaRef, other: SchemaRef, n: int, id: UUID)
    requires Valid(t)
    ensures IsVersion(SchemaDeleted(t, ref), other, n, id) <==> IsVersion(t, other, n, id) && other != ref
  {
    if ref in t.schemas && other in t.schemas && t.schemas[other].id == t.schemas[ref].id {
      assert SameId(t, other, ref);
    }
  }

  lemma CleanOrphansEffect(t: Tables)
    requires Valid(t)
    ensures Valid(OrphansCleaned(t))
  {
    var t' := OrphansCleaned(t);
    FilesOfVersions(t);
    forall id | id in t.versions ensures t.fileOf[id] in t'.files {
      assert t.fileOf[id] in t.fileOf.Values;
    }
    OwnedStays(t, t');
    NumbersStay(t, t');
    LinksStay(t, t');
    SchemasStay(t, t');
  }

  lemma CleanOrphansKeepsVersions(t: Tables, other: SchemaRef, n: int, id: UUID)
    ensures IsVersion(OrphansCleaned(t), other, n, id) <==> IsVersion(t, other, n, id)
  {}

  lemma MetadataUpdateEffect(t: Tables, ref: SchemaRef, compatibility: string)
    requires Valid(t)
    ensures Valid(MetadataUpdated(t, ref, compatibility))
  {
    var t' := MetadataUpdated(t, ref, compatibility);
    forall a, b | SameId(t', a, b) ensures a == b {
      assert SameId(t, a, b);
    }
    NumbersStay(t, t');
    forall id | id in t'.versions ensures HasFile(t', id) && HasOwner(t', id) {
      assert HasFile(t, id) && HasOwner(t, id);
      var r :| OwnedBy(t, id, r);
      assert OwnedBy(t', id, r);
    }
  }

  lemma MetadataUpdateKeepsVersions(t: Tables, ref: SchemaRef, compatibility: string, other: SchemaRef, n: int,
                                    id: UUID)
    ensures IsVersion(MetadataUpdated(t, ref, compatibility), other, n, id) <==> IsVersion(t, other, n, id)
  {}

  /** Stored bytes and the highest number do not depend on stored modes. */
  lemma MetadataUpdateKeepsContent(t: Tables, ref: SchemaRef, compatibility: string, other: SchemaRef, n: int)
    requires Valid(t)
    ensures Stored(MetadataUpdated(t, ref, compatibility), other, n) == Stored(t, other, n)
    ensures Latest(MetadataUpdated(t, ref, compatibility), other) == Latest(t, other)
  {
    var t' := MetadataUpdated(t, ref, compatibility);
    MetadataUpdateEffect(t, ref, compatibility);
    if Live(t, other, n) {
      var id := VersionId(t, other, n);
      assert IsVersion(t', other, n, id);
      LiveIsUnique(t, other, n, id);
      LiveIsUnique(t', other, n, id);
    } else if Live(t', other, n) {
      assert IsVersion(t, other, n, VersionId(t', other, n));
    }
    if other in t.schemas {
      assert Numbers(t', t'.schemas[other].id) == Numbers(t, t.schemas[other].id);
    }
  }

  // ---------- row by row ----------

  /** A known identifier changes nothing; a new one adds its version row, its mapping, its file if the bytes
      are new, and its schema row if the schema is. No other row changes. */
  lemma CreateRows(t: Tables, ref: SchemaRef, metadata: Metadata, versionId: UUID, commitSha: string, fileId: UUID,
                   data: Bytes)
    ensures var (t', number) := Created(t, ref, metadata, versionId, commitSha, fileId, data);
            if versionId in t.versions then t' == t && number == t.versions[versionId].number
            else
              && t'.schemas.Keys == t.schemas.Keys + {ref}
              && (forall r | r in t.schemas :: t'.schemas[r] == t.schemas[r])
              && (ref !in t.schemas ==> t'.schemas[ref] == SchemaRow(t.nextId, metadata))
              && t'.versions == t.versions[versionId := VersionRow(number, t'.schemas[ref].id, commitSha)]
              && t'.fileOf == t.fileOf[versionId := fileId]
              && t'.files == (if fileId in t.files then t.files else t.files[fileId := data])
              && t'.nextId == t.nextId + 1
  {
    var u := Upserted(t, ref, metadata);
    assert u.schemas.Keys == t.schemas.Keys + {ref};
  }

  /** A file stays, with its bytes, exactly when some version is mapped to it; nothing else changes. */
  lemma CleanOrphansExactly(t: Tables, f: UUID)
    ensures var t' := OrphansCleaned(t);
            && (f in t'.files <==> f in t.files && exists id :: id in t.fileOf && t.fileOf[id] == f)
            && (f in t'.files ==> t'.files[f] == t.files[f])
            && t'.schemas == t.schemas && t'.versions == t.versions && t'.fileOf == t.fileOf && t'.nextId == t.nextId
  {
    if id :| id in t.fileOf && t.fileOf[id] == f { assert f in t.fileOf.Values; }
  }

  /** Only the stored mode of that schema changes. */
  lemma MetadataUpdateExactly(t: Tables, ref: SchemaRef, compatibility: string)
    ensures var t' := MetadataUpdated(t, ref, compatibility);
            && t'.schemas.Keys == t.schemas.Keys
            && (forall r | r in t.schemas ::
                  && t'.schemas[r].id == t.schemas[r].id
                  && t'.schemas[r].metadata.format == t.schemas[r].metadata.format
                  && t'.schemas[r].metadata.sourceUrl == t.schemas[r].metadata.sourceUrl
                  && t'.schemas[r].metadata.compatibility
                     == (if r == ref then compatibility else t.schemas[r].metadata.compatibility))
            && t'.versions == t.versions && t'.files == t.files && t'.fileOf == t.fileOf && t'.nextId == t.nextId
  {}

  /** Deleting a version removes its row and its mapping only. */
  lemma DeleteVersionExactly(t: Tables, ref: SchemaRef, number: int, id: UUID)
    requires Valid(t)
    ensures var t' := VersionDeleted(t, ref, number);
            && (id in t'.versions <==> id in t.versions && !IsVersion(t, ref, number, id))
            && (id in t'.fileOf <==> id in t.fileOf && !IsVersion(t, ref, number, id))
            && (id in t'.versions ==> t'.versions[id] == t.versions[id] && t'.fileOf[id] == t.fileOf[id])
            && t'.schemas == t.schemas && t'.files == t.files && t'.nextId == t.nextId
  {
    DeleteVersionEffect(t, ref, number);
    if IsVersion(t, ref, number, id) { LiveIsUnique(t, ref, number, id); }
    if Live(t, ref, number) { assert IsVersion(t, ref, number, VersionId(t, ref, number)); }
  }

  /** Deleting a schema removes its row and those of its versions only. */
  lemma DeleteSchemaExactly(t: Tables, ref: SchemaRef, id: UUID)
    requires Valid(t)
    ensures var t' := SchemaDeleted(t, ref);
            && t'.schemas == (map r | r in t.schemas && r != ref :: t.schemas[r])
            && (id in t'.versions <==> id in t.versions && !OwnedBy(t, id, ref))
            && (id in t'.fileOf <==> id in t.fileOf && !OwnedBy(t, id, ref))
            && (id in t'.versions ==> t'.versions[id] == t.versions[id] && t'.fileOf[id] == t.fileOf[id])
            && t'.files == t.files && t'.nextId == t.nextId
  {
    DeleteSchemaEffect(t, ref);
    if id in t.versions && ref in t.schemas && t.versions[id].schemaId == t.schemas[ref].id {
      OwnerOf(t, ref, t.versions[id].number, id);
    }
  }
}
