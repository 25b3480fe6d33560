/** The schema repository: the tables as mutable state and the statements of each operation. */
module Repository {
  import opened Descriptors
  import opened Keys
  import opened VersionTables

  class SchemaRepository {
    var schemas: map<SchemaRef, SchemaRow>
    var versions: map<UUID, VersionRow>
    var files: map<UUID, Bytes>
    var fileOf: map<UUID, UUID>
    var nextId: nat

    constructor ()
      ensures State() == EMPTY && Valid(State())
    {
      schemas, versions, files, fileOf, nextId := map[], map[], map[], map[], 1;
    }

    function State(): Tables
      reads this
    {
      Tables(schemas, versions, files, fileOf, nextId)
    }

    /** The aggregate `COALESCE(MAX(version), 0)` over the versions of one schema. */
    method MaxVersion(schemaId: nat) returns (max: int)
      requires forall id | id in versions :: versions[id].number >= 1
      ensures max == MaxOf(Numbers(State(), schemaId))
    {
      max := 0;
      var rows := versions.Keys;
      while rows != {}
        invariant rows <= versions.Keys
        invariant max >= 0
        invariant max > 0 ==> max in Numbers(State(), schemaId)
        invariant forall id | id in versions.Keys - rows && versions[id].schemaId == schemaId ::
                  versions[id].number <= max
      {
        var id :| id in rows;
        rows := rows - {id};
        if versions[id].schemaId == schemaId && versions[id].number > max {
          max := versions[id].number;
        }
      }
      forall n | n in Numbers(State(), schemaId) ensures 1 <= n <= max {
        var id :| id in versions && versions[id].schemaId == schemaId && versions[id].number == n;
      }
    }

    /** One transaction: an existing version identifier returns its number; otherwise the schema row is
        upserted and the version, file and mapping rows inserted. */
    method Create(ref: SchemaRef, metadata: Metadata, file: UUID, data: Bytes, versionId: UUID, commitSha: string)
      returns (version: int)
      requires Valid(State()) && IsRequest(ref, versionId, file, data)
      modifies this
      ensures Valid(State())
      ensures (State(), version) == Created(old(State()), ref, metadata, versionId, commitSha, file, data)
    {
      if versionId in versions {
        return versions[versionId].number;
      }
      ghost var before := State();
      CreateByParts(before, ref, metadata, versionId, commitSha, file, data);
      var schemaId := UpsertSchema(ref, metadata);
      version := InsertVersion(ref, schemaId, versionId, commitSha, file, data);
    }

    method UpsertSchema(ref: SchemaRef, metadata: Metadata) returns (schemaId: nat)
      modifies this
      ensures State() == Upserted(old(State()), ref, metadata)
      ensures schemaId == schemas[ref].id
    {
      if ref !in schemas {
        schemas := schemas[ref := SchemaRow(nextId, metadata)];
      }
      nextId := nextId + 1;
      schemaId := schemas[ref].id;
    }

    method InsertVersion(ref: SchemaRef, schemaId: nat, versionId: UUID, commitSha: string, file: UUID, data: Bytes)
      returns (version: int)
      requires Valid(State()) && ref in schemas && schemaId == schemas[ref].id
      modifies this
      ensures version == Latest(old(State()), ref) + 1
      ensures State() == Inserted(old(State()), ref, versionId, commitSha, file, data)
    {
      var max := MaxVersion(schemaId);
      version := max + 1;
      versions := versions[versionId := VersionRow(version, schemaId, commitSha)];
      if file !in files {
        files := files[file := data];
      }
      fileOf := fileOf[versionId := file];
    }

    /** The identifier of a version, from the schema's name and the version number. */
    method FindVersion(ref: SchemaRef, number: int) returns (found: Option<UUID>)
      ensures found.Some? ==> IsVersion(State(), ref, number, found.value)
      ensures found.None? ==> !Live(State(), ref, number)
    {
      if ref !in schemas {
        return None;
      }
      if id :| id in versions && versions[id].schemaId == schemas[ref].id && versions[id].number == number {
        return Some(id);
      }
      return None;
    }

    method Get(ref: SchemaRef, number: int) returns (data: Option<Bytes>)
      requires Valid(State())
      ensures data == Stored(State(), ref, number)
    {
      var found := FindVersion(ref, number);
      if found.None? {
        return None;
      }
      LiveIsUnique(State(), ref, number, found.value);
      return Some(files[fileOf[found.value]]);
    }

    method GetLatestVersion(ref: SchemaRef) returns (version: int)
      requires Valid(State())
      ensures version == Latest(State(), ref)
    {
      if ref !in schemas {
        return 0;
      }
      version := MaxVersion(schemas[ref].id);
    }

    method GetMetadata(ref: SchemaRef) returns (metadata: Option<Metadata>)
      ensures metadata.Some? <==> ref in State().schemas
      ensures metadata.Some? ==> metadata.value == State().schemas[ref].metadata
    {
      return if ref in schemas then Some(schemas[ref].metadata) else None;
    }

    /** Returns whether there is such a schema; only its mode changes. */
    method UpdateMetadata(ref: SchemaRef, compatibility: string) returns (ok: bool)
      requires Valid(State())
      modifies this`schemas
      ensures Valid(State())
      ensures State() == MetadataUpdated(old(State()), ref, compatibility)
      ensures ok <==> ref in old(State()).schemas
    {
      MetadataUpdateEffect(State(), ref, compatibility);
      if ref !in schemas {
        return false;
      }
      var row := schemas[ref];
      schemas := schemas[ref := row.(metadata := row.metadata.(compatibility := compatibility))];
      return true;
    }

    method DeleteVersion(ref: SchemaRef, number: int)
      requires Valid(State())
      modifies this
      ensures Valid(State())
      ensures State() == OrphansCleaned(VersionDeleted(old(State()), ref, number))
    {
      ghost var before := State();
      DeleteVersionEffect(before, ref, number);
      var found := FindVersion(ref, number);
      if found.Some? {
        LiveIsUnique(before, ref, number, found.value);
        versions := versions - {found.value};
        fileOf := fileOf - {found.value};
      }
      assert State() == VersionDeleted(before, ref, number);
      CleanOrphans();
    }

    method Delete(ref: SchemaRef)
      requires Valid(State())
      modifies this
      ensures Valid(State())
      ensures State() == OrphansCleaned(SchemaDeleted(old(State()), ref))
    {
      ghost var before := State();
      DeleteSchemaEffect(before, ref);
      if ref in schemas {
        var schemaId := schemas[ref].id;
        var gone := set id | id in versions && versions[id].schemaId == schemaId;
        schemas := schemas - {ref};
        versions := versions - gone;
        fileOf := fileOf - gone;
      }
      assert State() == SchemaDeleted(before, ref);
      CleanOrphans();
    }

    method CleanOrphans()
      requires Valid(State())
      modifies this
      ensures Valid(State())
      ensures State() == OrphansCleaned(old(State()))
    {
      CleanOrphansEffect(State());
      files := map f | f in files && f in fileOf.Values :: files[f];
    }
  }
}
