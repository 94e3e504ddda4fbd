/**
 * The resource-type service: a cache-aside front for the resource-type table. Reads go
 * through a key/value cache; writes go to the table first, then set or invalidate the
 * cache entry, then append a domain event carrying before/after snapshots.
 */
module ResourceType {
  import opened Wrappers
  import opened Strings
  import opened Table
  import opened Query

  type Timestamp = int

  /** Who performed a mutation: an internal service or an API key. */
  datatype Actor = ServiceActor(service: string) | ApiKeyActor(apiKeyId: string)

  /** A row of the resource-type table; `deletedAt == None` means active. */
  datatype Row = Row(
    projectId: string,
    id: string,
    attributes: map<string, string>,
    createdBy: Actor,
    updatedBy: Actor,
    deletedBy: Option<Actor>,
    createdAt: Timestamp,
    deletedAt: Option<Timestamp>)

  /** The resource-type DTO: the columns a row exposes. */
  datatype Dto = Dto(
    projectId: string,
    id: string,
    attributes: map<string, string>,
    createdBy: Actor,
    updatedBy: Actor,
    deletedBy: Option<Actor>,
    createdAt: Timestamp,
    deletedAt: Option<Timestamp>)

  /** `plainToInstance(ResourceTypeDto, entry)`: projects a row onto the DTO's fields. */
  function ToDto(row: Row): (d: Dto)
    ensures (d.projectId, d.id) == RowKey(row) && d.deletedAt == row.deletedAt
  {
    Dto(row.projectId, row.id, row.attributes, row.createdBy, row.updatedBy,
        row.deletedBy, row.createdAt, row.deletedAt)
  }

  /** The projection drops no column: two rows with the same DTO are the same row. */
  lemma ToDtoInjective(a: Row, b: Row)
    ensures ToDto(a) == ToDto(b) ==> a == b
  {
  }

  /** The table's primary key: `id` alone is unique, across every project. */
  function RowId(row: Row): string {
    row.id
  }

  /** The pair the service addresses a row by: `where: { id, projectId }`. */
  function RowKey(row: Row): (string, string) {
    (row.projectId, row.id)
  }

  /** A unique id makes the (projectId, id) pair unique too. */
  lemma UniqueIdIsUniqueKey(rows: seq<Row>)
    requires UniqueBy(rows, RowId)
    ensures UniqueBy(rows, RowKey)
  {
  }

  datatype CreateInput = CreateInput(projectId: string, attributes: map<string, string>, createdBy: Actor)
  datatype UpdateInput = UpdateInput(projectId: string, id: string, updatedBy: Actor, attributes: map<string, string>)
  datatype DeleteInput = DeleteInput(projectId: string, id: string, deletedBy: Actor)

  datatype ServiceError =
    | NotFound(id: string)          // the service's NotFoundException
    | UniqueConstraintFailed        // the database refuses a second row with the same id
    | RecordToUpdateNotFound        // the database's update matched no active row

  datatype EntityKind = ResourceTypeKind
  datatype EventName = ResourceTypeCreated | ResourceTypeUpdated | ResourceTypeDeleted
  datatype EventAction = CREATE | UPDATE | DELETE

  /** A domain event as handed to the event bus. */
  datatype Event = Event(
    projectId: string,
    entity: EntityKind,
    entityId: string,
    eventName: EventName,
    action: EventAction,
    before: Option<Dto>,
    after: Option<Dto>)

  // ---------------------------------------------------------------- keys

  /** `generateEntityId`: the human-readable id events carry. */
  function EntityId(projectId: string, id: string): (e: string)
    ensures |e| == |projectId| + |id| + 22
    ensures e[..8] == "Project-" && e[|e| - |id|..] == id
  {
    "Project-" + projectId + "/ResourceType-" + id
  }

  /** `generateCacheId`: the cache key of a resource type. */
  function CacheId(projectId: string, id: string): (key: string)
    ensures key == EntityId(projectId, id) + "/ID"
  {
    "Project-" + projectId + "/ResourceType-" + id + "/ID"
  }

  lemma CacheIdSlashes(projectId: string, id: string)
    ensures Slashes(CacheId(projectId, id)) == Slashes(projectId) + Slashes(id) + 2
  {
    assert SlashFree("Project-") && SlashFree("ResourceType-") && SlashFree("ID");
    assert Slashes("/ResourceType-") == 1 by { assert "/ResourceType-"[1..] == "ResourceType-"; }
    assert Slashes("/ID") == 1 by { assert "/ID"[1..] == "ID"; }
    SlashesConcat("Project-", projectId);
    SlashesConcat("Project-" + projectId, "/ResourceType-");
    SlashesConcat("Project-" + projectId + "/ResourceType-", id);
    SlashesConcat("Project-" + projectId + "/ResourceType-" + id, "/ID");
  }

  /**
   * A key built from a separator-free pair (as UUIDs are) names only that pair: no other
   * (projectId, id), whatever it contains, has the same key.
   */
  lemma CacheIdInjective(projectId: string, id: string, otherProject: string, otherId: string)
    requires SlashFree(projectId) && SlashFree(id)
    requires CacheId(projectId, id) == CacheId(otherProject, otherId)
    ensures projectId == otherProject && id == otherId
  {
    CacheIdSlashes(projectId, id);
    CacheIdSlashes(otherProject, otherId);
    TemplateInjective("Project-", "/ResourceType-", "/ID", projectId, id, otherProject, otherId);
  }

  /** Without that restriction two tenants can share a key. */
  lemma CacheIdCollision(projectId: string, x: string, y: string)
    ensures CacheId(projectId + "/ResourceType-" + x, y) == CacheId(projectId, x + "/ResourceType-" + y)
    ensures projectId + "/ResourceType-" + x != projectId
  {
    assert |projectId + "/ResourceType-" + x| > |projectId|;
  }

  // ---------------------------------------------------------------- store reads

  /** The position of the active row `findUnique({ id, projectId, deletedAt: null })` returns. */
  function ActiveIndex(rows: seq<Row>, projectId: string, id: string): (r: Option<nat>)
    ensures r.Some? ==> r.value < |rows| && RowKey(rows[r.value]) == (projectId, id) && rows[r.value].deletedAt.None?
    ensures UniqueBy(rows, RowKey) && r.None? ==>
      forall i :: 0 <= i < |rows| && RowKey(rows[i]) == (projectId, id) ==> rows[i].deletedAt.Some?
  {
    match IndexOf(rows, RowKey, (projectId, id))
    case Some(i) => if rows[i].deletedAt.None? then Some(i) else None
    case None => None
  }

  /** The store's answer, projected to a DTO; null when there is no active row. */
  function ActiveDto(rows: seq<Row>, projectId: string, id: string): (r: Option<Dto>)
    ensures r.Some? ==> r.value.projectId == projectId && r.value.id == id && r.value.deletedAt.None?
    ensures r.Some? ==> exists i :: 0 <= i < |rows| && ToDto(rows[i]) == r.value
    ensures UniqueBy(rows, RowKey) && r.None? ==>
      forall i :: 0 <= i < |rows| && RowKey(rows[i]) == (projectId, id) ==> rows[i].deletedAt.Some?
  {
    match ActiveIndex(rows, projectId, id)
    case Some(i) => Some(ToDto(rows[i]))
    case None => None
  }

  /** What `findOneById` returns: the cached entry on a hit, the store's answer on a miss. */
  function ReadThrough(cache: map<string, Dto>, rows: seq<Row>, projectId: string, id: string): (r: Option<Dto>)
    ensures CacheId(projectId, id) in cache ==> r == Some(cache[CacheId(projectId, id)])
    ensures CacheId(projectId, id) !in cache ==> r == ActiveDto(rows, projectId, id)
    ensures Coherent(rows, cache) && r.Some? ==>
      r.value.deletedAt.None? && exists i :: 0 <= i < |rows| && ToDto(rows[i]) == r.value
  {
    var key := CacheId(projectId, id);
    if key in cache then Some(cache[key]) else ActiveDto(rows, projectId, id)
  }

  /** The cache after `findOneById`: a miss that found a row stores it under `generateCacheId(dto)`. */
  function CacheAfterRead(cache: map<string, Dto>, rows: seq<Row>, projectId: string, id: string): (c: map<string, Dto>)
    ensures ReadThrough(cache, rows, projectId, id).None? ==> c == cache
    ensures ReadThrough(cache, rows, projectId, id).Some? ==>
      c == cache[CacheId(projectId, id) := ReadThrough(cache, rows, projectId, id).value]
  {
    var key := CacheId(projectId, id);
    if key in cache then cache
    else
      match ActiveDto(rows, projectId, id)
      case Some(dto) => cache[CacheId(dto.projectId, dto.id) := dto]
      case None => cache
  }

  /**
   * The class invariant on the cache: every entry names its own key, and it is the
   * DTO of the active row with that (projectId, id).
   */
  ghost predicate Coherent(rows: seq<Row>, cache: map<string, Dto>) {
    forall k :: k in cache ==>
      && CacheId(cache[k].projectId, cache[k].id) == k
      && ActiveDto(rows, cache[k].projectId, cache[k].id) == Some(cache[k])
  }

  /** The read's own cache write is overwritten, or removed, by the write on the same key that follows it. */
  lemma CacheAfterReadThenWrite(cache: map<string, Dto>, rows: seq<Row>, projectId: string, id: string, dto: Dto)
    ensures CacheAfterRead(cache, rows, projectId, id)[CacheId(projectId, id) := dto] == cache[CacheId(projectId, id) := dto]
    ensures CacheAfterRead(cache, rows, projectId, id) - {CacheId(projectId, id)} == cache - {CacheId(projectId, id)}
  {
  }

  // ---------------------------------------------------------------- row updates

  /** The row `create` inserts: both audit actors are the creating actor. */
  function NewRow(input: CreateInput, id: string, now: Timestamp): (row: Row)
    ensures RowKey(row) == (input.projectId, id)
    ensures row.createdBy == input.createdBy && row.updatedBy == input.createdBy
    ensures row.attributes == input.attributes && row.createdAt == now
    ensures row.deletedAt.None? && row.deletedBy.None?
  {
    Row(input.projectId, id, input.attributes, input.createdBy, input.createdBy, None, now, None)
  }

  /** `data: { updatedBy, ...data }`: stamps the actor and merges the supplied fields. */
  function Patch(row: Row, input: UpdateInput): (r: Row)
    ensures RowKey(r) == RowKey(row)
    ensures r.updatedBy == input.updatedBy
    ensures r.attributes.Keys == row.attributes.Keys + input.attributes.Keys
    ensures forall k :: k in r.attributes ==>
      r.attributes[k] == if k in input.attributes then input.attributes[k] else row.attributes[k]
    ensures r.(updatedBy := row.updatedBy, attributes := row.attributes) == row
  {
    row.(updatedBy := input.updatedBy, attributes := row.attributes + input.attributes)
  }

  /** `data: { deletedBy, deletedAt: new Date() }`: a soft delete stamps two columns and keeps the row. */
  function SoftDelete(row: Row, actor: Actor, now: Timestamp): (r: Row)
    ensures RowKey(r) == RowKey(row)
    ensures r.deletedAt == Some(now) && r.deletedBy == Some(actor)
    ensures r.(deletedAt := row.deletedAt, deletedBy := row.deletedBy) == row
  {
    row.(deletedBy := Some(actor), deletedAt := Some(now))
  }

  // ---------------------------------------------------------------- store lemmas

  /** Rewriting one row changes what the store says about that key only. */
  lemma ActiveDtoAfterReplace(rows: seq<Row>, i: nat, x: Row, projectId: string, id: string)
    requires UniqueBy(rows, RowKey) && i < |rows| && RowKey(x) == RowKey(rows[i])
    ensures ActiveDto(rows[i := x], projectId, id) ==
      if (projectId, id) == RowKey(x) then (if x.deletedAt.None? then Some(ToDto(x)) else None)
      else ActiveDto(rows, projectId, id)
  {
    IndexOfAfterReplace(rows, RowKey, i, x, (projectId, id));
    if (projectId, id) == RowKey(x) {
      IndexOfUnique(rows, RowKey, i);
    }
  }

  /** Inserting a row changes what the store says about its key only. */
  lemma ActiveDtoAfterAppend(rows: seq<Row>, x: Row, projectId: string, id: string)
    ensures ActiveDto(rows + [x], projectId, id) ==
      if (projectId, id) == RowKey(x) then (if x.deletedAt.None? then Some(ToDto(x)) else None)
      else ActiveDto(rows, projectId, id)
  {
    IndexOfAfterAppend(rows, RowKey, x, (projectId, id));
  }

  // ---------------------------------------------------------------- cache lemmas

  /**
   * The stored keys are made by the server: `projectId` comes from the caller's credentials
   * and `id` from the database, and neither contains the key separator `/`.
   */
  ghost predicate KeysSlashFree(rows: seq<Row>) {
    forall i :: 0 <= i < |rows| ==> SlashFree(rows[i].projectId) && SlashFree(rows[i].id)
  }

  /**
   * Under the invariant, and with server-made stored keys, reading through the cache is
   * reading the store for every requested pair, whatever it contains: a requested key can
   * only hit the entry of the row with that very pair.
   */
  lemma ReadThroughIsStoreRead(rows: seq<Row>, cache: map<string, Dto>, projectId: string, id: string)
    requires Coherent(rows, cache) && KeysSlashFree(rows)
    ensures ReadThrough(cache, rows, projectId, id) == ActiveDto(rows, projectId, id)
  {
    var key := CacheId(projectId, id);
    if key in cache {
      var d := cache[key];
      var i :| 0 <= i < |rows| && ToDto(rows[i]) == d;
      CacheIdInjective(d.projectId, d.id, projectId, id);
    }
  }

  /** A create keeps the stored keys server-made when the new row's key is. */
  lemma CreateKeepsKeysSlashFree(rows: seq<Row>, cache: map<string, Dto>, input: CreateInput, newId: string, now: Timestamp)
    requires KeysSlashFree(rows) && SlashFree(input.projectId) && SlashFree(newId)
    ensures KeysSlashFree(CreateOutcome(rows, cache, input, newId, now).rows)
  {
    var o := CreateOutcome(rows, cache, input, newId, now);
    if o.result.Ok? {
      assert o.rows == rows + [NewRow(input, newId, now)];
    }
  }

  /** A row rewrite that keeps the key keeps the stored keys server-made. */
  lemma ReplaceKeepsKeysSlashFree(rows: seq<Row>, i: nat, x: Row)
    requires KeysSlashFree(rows) && i < |rows| && RowKey(x) == RowKey(rows[i])
    ensures KeysSlashFree(rows[i := x])
  {
  }

  /** Update and delete rewrite a row with its key kept, so the stored keys stay server-made. */
  lemma UpdateDeleteKeepKeysSlashFree(rows: seq<Row>, cache: map<string, Dto>, update: UpdateInput,
                                      delete: DeleteInput, now: Timestamp)
    requires KeysSlashFree(rows)
    ensures KeysSlashFree(UpdateOutcome(rows, cache, update).rows)
    ensures KeysSlashFree(DeleteOutcome(rows, cache, delete, now).rows)
  {
    var u := ActiveIndex(rows, update.projectId, update.id);
    if ReadThrough(cache, rows, update.projectId, update.id).Some? && u.Some? {
      ReplaceKeepsKeysSlashFree(rows, u.value, Patch(rows[u.value], update));
    }
    var d := ActiveIndex(rows, delete.projectId, delete.id);
    if ReadThrough(cache, rows, delete.projectId, delete.id).Some? && d.Some? {
      ReplaceKeepsKeysSlashFree(rows, d.value, SoftDelete(rows[d.value], delete.deletedBy, now));
    }
  }

  /** A read keeps the invariant, and after it the same read is a hit with the same answer. */
  lemma CoherentAfterRead(rows: seq<Row>, cache: map<string, Dto>, projectId: string, id: string)
    requires Coherent(rows, cache)
    ensures Coherent(rows, CacheAfterRead(cache, rows, projectId, id))
    ensures ReadThrough(CacheAfterRead(cache, rows, projectId, id), rows, projectId, id)
      == ReadThrough(cache, rows, projectId, id)
  {
  }

  lemma CoherentAfterCreate(rows: seq<Row>, cache: map<string, Dto>, x: Row)
    requires UniqueBy(rows, RowKey) && Coherent(rows, cache)
    requires IndexOf(rows, RowKey, RowKey(x)).None? && x.deletedAt.None?
    ensures UniqueBy(rows + [x], RowKey)
    ensures Coherent(rows + [x], cache[CacheId(x.projectId, x.id) := ToDto(x)])
  {
    AppendKeepsUnique(rows, RowKey, x);
    var cache' := cache[CacheId(x.projectId, x.id) := ToDto(x)];
    forall k | k in cache'
      ensures CacheId(cache'[k].projectId, cache'[k].id) == k
      ensures ActiveDto(rows + [x], cache'[k].projectId, cache'[k].id) == Some(cache'[k])
    {
      ActiveDtoAfterAppend(rows, x, cache'[k].projectId, cache'[k].id);
    }
  }

  lemma CoherentAfterUpdate(rows: seq<Row>, cache: map<string, Dto>, i: nat, x: Row)
    requires UniqueBy(rows, RowKey) && Coherent(rows, cache)
    requires i < |rows| && RowKey(x) == RowKey(rows[i]) && x.deletedAt.None?
    ensures UniqueBy(rows[i := x], RowKey)
    ensures Coherent(rows[i := x], cache[CacheId(x.projectId, x.id) := ToDto(x)])
  {
    ReplaceKeepsUnique(rows, RowKey, i, x);
    var cache' := cache[CacheId(x.projectId, x.id) := ToDto(x)];
    forall k | k in cache'
      ensures CacheId(cache'[k].projectId, cache'[k].id) == k
      ensures ActiveDto(rows[i := x], cache'[k].projectId, cache'[k].id) == Some(cache'[k])
    {
      ActiveDtoAfterReplace(rows, i, x, cache'[k].projectId, cache'[k].id);
    }
  }

  lemma CoherentAfterDelete(rows: seq<Row>, cache: map<string, Dto>, i: nat, x: Row)
    requires UniqueBy(rows, RowKey) && Coherent(rows, cache)
    requires i < |rows| && RowKey(x) == RowKey(rows[i])
    ensures UniqueBy(rows[i := x], RowKey)
    ensures Coherent(rows[i := x], cache - {CacheId(x.projectId, x.id)})
  {
    ReplaceKeepsUnique(rows, RowKey, i, x);
    var cache' := cache - {CacheId(x.projectId, x.id)};
    forall k | k in cache'
      ensures CacheId(cache'[k].projectId, cache'[k].id) == k
      ensures ActiveDto(rows[i := x], cache'[k].projectId, cache'[k].id) == Some(cache'[k])
    {
      ActiveDtoAfterReplace(rows, i, x, cache'[k].projectId, cache'[k].id);
    }
  }

  /** After a soft delete has dropped the key, no read of that key finds anything. */
  lemma DeletedRowIsInvisible(rows: seq<Row>, cache: map<string, Dto>, i: nat, x: Row)
    requires UniqueBy(rows, RowKey) && i < |rows| && RowKey(x) == RowKey(rows[i]) && x.deletedAt.Some?
    ensures ReadThrough(cache - {CacheId(x.projectId, x.id)}, rows[i := x], x.projectId, x.id).None?
  {
    ActiveDtoAfterReplace(rows, i, x, x.projectId, x.id);
  }

  // ---------------------------------------------------------------- writes

  /** What a write returns and leaves behind: the table, the cache and the events it emitted. */
  datatype Outcome = Outcome(result: Result<Dto, ServiceError>, rows: seq<Row>, cache: map<string, Dto>, emitted: seq<Event>)

  /** `create`: insert the row, cache its DTO under its key, emit CREATE with only `after`. */
  function CreateOutcome(rows: seq<Row>, cache: map<string, Dto>, input: CreateInput, newId: string, now: Timestamp): (o: Outcome)
    ensures o.result.Err? <==> exists r :: r in rows && r.id == newId
    ensures o.result.Err? ==> o.rows == rows && o.cache == cache && o.emitted == []
    ensures o.result.Ok? ==>
      var dto := o.result.value;
      && (dto.projectId, dto.id) == (input.projectId, newId)
      && dto.createdBy == input.createdBy && dto.updatedBy == input.createdBy
      && dto.deletedAt.None?
      && |o.rows| == |rows| + 1 && o.rows[..|rows|] == rows
      && o.rows[|rows|] == NewRow(input, newId, now) && ToDto(o.rows[|rows|]) == dto
      && o.cache == cache[CacheId(input.projectId, newId) := dto]
      && |o.emitted| == 1 && o.emitted[0].action == CREATE && o.emitted[0].eventName == ResourceTypeCreated
      && o.emitted[0].before.None? && o.emitted[0].after == Some(dto)
      && o.emitted[0].projectId == input.projectId && o.emitted[0].entityId == EntityId(input.projectId, newId)
  {
    if IndexOf(rows, RowId, newId).Some? then
      Outcome(Err(UniqueConstraintFailed), rows, cache, [])
    else
      var entry := NewRow(input, newId, now);
      var dto := ToDto(entry);
      assert (rows + [entry])[..|rows|] == rows;
      Outcome(Ok(dto), rows + [entry], cache[CacheId(entry.projectId, entry.id) := dto],
              [Event(input.projectId, ResourceTypeKind, EntityId(entry.projectId, entry.id),
                     ResourceTypeCreated, CREATE, None, Some(dto))])
  }

  /** `update`: existence check through the cache, merge and stamp, re-cache, emit UPDATE with before and after. */
  function UpdateOutcome(rows: seq<Row>, cache: map<string, Dto>, input: UpdateInput): (o: Outcome)
    ensures o.result == Err(NotFound(input.id)) <==> ReadThrough(cache, rows, input.projectId, input.id).None?
    ensures o.result.Err? ==> o.rows == rows && o.cache == cache && o.emitted == []
    ensures o.result.Ok? ==>
      var dto := o.result.value;
      && (dto.projectId, dto.id) == (input.projectId, input.id)
      && dto.updatedBy == input.updatedBy && dto.deletedAt.None?
      && (forall k :: k in input.attributes ==> k in dto.attributes && dto.attributes[k] == input.attributes[k])
      && |o.rows| == |rows|
      && (forall j :: 0 <= j < |rows| && RowKey(rows[j]) != (input.projectId, input.id) ==> o.rows[j] == rows[j])
      && (exists j :: 0 <= j < |rows| && RowKey(rows[j]) == (input.projectId, input.id) && rows[j].deletedAt.None?
                      && o.rows[j] == Patch(rows[j], input) && ToDto(o.rows[j]) == dto)
      && o.cache == cache[CacheId(input.projectId, input.id) := dto]
      && |o.emitted| == 1 && o.emitted[0].action == UPDATE && o.emitted[0].eventName == ResourceTypeUpdated
      && o.emitted[0].before == ReadThrough(cache, rows, input.projectId, input.id)
      && o.emitted[0].after == Some(dto)
      && o.emitted[0].projectId == input.projectId && o.emitted[0].entityId == EntityId(input.projectId, input.id)
  {
    var before := ReadThrough(cache, rows, input.projectId, input.id);
    if before.None? then
      Outcome(Err(NotFound(input.id)), rows, cache, [])
    else
      match ActiveIndex(rows, input.projectId, input.id)
      case None => Outcome(Err(RecordToUpdateNotFound), rows, cache, [])
      case Some(i) =>
        var updated := Patch(rows[i], input);
        var dto := ToDto(updated);
        Outcome(Ok(dto), rows[i := updated], cache[CacheId(dto.projectId, dto.id) := dto],
                [Event(input.projectId, ResourceTypeKind, EntityId(updated.projectId, updated.id),
                       ResourceTypeUpdated, UPDATE, before, Some(dto))])
  }

  /** `delete`: existence check through the cache, stamp deletedAt/deletedBy, drop the cache key, emit DELETE. */
  function DeleteOutcome(rows: seq<Row>, cache: map<string, Dto>, input: DeleteInput, now: Timestamp): (o: Outcome)
    ensures o.result == Err(NotFound(input.id)) <==> ReadThrough(cache, rows, input.projectId, input.id).None?
    ensures o.result.Err? ==> o.rows == rows && o.cache == cache && o.emitted == []
    ensures o.result.Ok? ==>
      var dto := o.result.value;
      && (dto.projectId, dto.id) == (input.projectId, input.id)
      && dto.deletedAt == Some(now) && dto.deletedBy == Some(input.deletedBy)
      && |o.rows| == |rows|
      && (forall j :: 0 <= j < |rows| && RowKey(rows[j]) != (input.projectId, input.id) ==> o.rows[j] == rows[j])
      && (exists j :: 0 <= j < |rows| && RowKey(rows[j]) == (input.projectId, input.id) && rows[j].deletedAt.None?
                      && o.rows[j] == SoftDelete(rows[j], input.deletedBy, now) && ToDto(o.rows[j]) == dto)
      && o.cache == cache - {CacheId(input.projectId, input.id)}
      && |o.emitted| == 1 && o.emitted[0].action == DELETE && o.emitted[0].eventName == ResourceTypeDeleted
      && o.emitted[0].before == ReadThrough(cache, rows, input.projectId, input.id)
      && o.emitted[0].after == Some(dto)
      && o.emitted[0].projectId == input.projectId && o.emitted[0].entityId == EntityId(input.projectId, input.id)
  {
    var before := ReadThrough(cache, rows, input.projectId, input.id);
    if before.None? then
      Outcome(Err(NotFound(input.id)), rows, cache, [])
    else
      match ActiveIndex(rows, input.projectId, input.id)
      case None => Outcome(Err(RecordToUpdateNotFound), rows, cache, [])
      case Some(i) =>
        var deleted := SoftDelete(rows[i], input.deletedBy, now);
        var dto := ToDto(deleted);
        Outcome(Ok(dto), rows[i := deleted], cache - {CacheId(dto.projectId, dto.id)},
                [Event(input.projectId, ResourceTypeKind, EntityId(deleted.projectId, deleted.id),
                       ResourceTypeDeleted, DELETE, before, Some(dto))])
  }

  /**
   * The invariant holds only while calls do not interleave. A read that fetched the active
   * row before a delete, and whose cache write lands after the delete dropped the key, puts
   * the deleted row back: the cache is no longer coherent and answers with the old row.
   */
  lemma ReadRacingDeleteResurrects(r: Row, deletedBy: Actor, now: Timestamp)
    requires r.deletedAt.None?
    ensures ActiveDto([r], r.projectId, r.id) == Some(ToDto(r))
    ensures var o := DeleteOutcome([r], map[], DeleteInput(r.projectId, r.id, deletedBy), now);
      var raced := o.cache[CacheId(r.projectId, r.id) := ToDto(r)];
      && o.result.Ok? && o.rows[0].deletedAt == Some(now)
      && !Coherent(o.rows, raced)
      && ReadThrough(raced, o.rows, r.projectId, r.id) == Some(ToDto(r))
  {
    var o := DeleteOutcome([r], map[], DeleteInput(r.projectId, r.id, deletedBy), now);
    var key := CacheId(r.projectId, r.id);
    var raced := o.cache[key := ToDto(r)];
    assert ActiveDto(o.rows, r.projectId, r.id).None?;
    assert key in raced && ActiveDto(o.rows, raced[key].projectId, raced[key].id) != Some(raced[key]);
  }

  /** The same race with an update leaves the pre-update DTO in the cache. */
  lemma ReadRacingUpdateIsStale(r: Row, input: UpdateInput)
    requires r.deletedAt.None? && (input.projectId, input.id) == RowKey(r)
    requires input.updatedBy != r.updatedBy
    ensures var o := UpdateOutcome([r], map[], input);
      var raced := o.cache[CacheId(r.projectId, r.id) := ToDto(r)];
      && o.result.Ok? && o.result.value != ToDto(r)
      && !Coherent(o.rows, raced)
      && ReadThrough(raced, o.rows, r.projectId, r.id) == Some(ToDto(r))
  {
    var o := UpdateOutcome([r], map[], input);
    var key := CacheId(r.projectId, r.id);
    var raced := o.cache[key := ToDto(r)];
    assert ActiveDto(o.rows, r.projectId, r.id) == Some(o.result.value);
    assert key in raced && ActiveDto(o.rows, raced[key].projectId, raced[key].id) != Some(raced[key]);
  }

  /** Every write keeps the unique constraint and the cache invariant. */
  lemma CreateKeepsInvariant(rows: seq<Row>, cache: map<string, Dto>, input: CreateInput, newId: string, now: Timestamp)
    requires UniqueBy(rows, RowId) && Coherent(rows, cache)
    ensures var o := CreateOutcome(rows, cache, input, newId, now);
      UniqueBy(o.rows, RowId) && Coherent(o.rows, o.cache)
  {
    if IndexOf(rows, RowId, newId).None? {
      var x := NewRow(input, newId, now);
      UniqueIdIsUniqueKey(rows);
      assert IndexOf(rows, RowKey, RowKey(x)).None?;
      CoherentAfterCreate(rows, cache, x);
      AppendKeepsUnique(rows, RowId, x);
    }
  }

  lemma UpdateKeepsInvariant(rows: seq<Row>, cache: map<string, Dto>, input: UpdateInput)
    requires UniqueBy(rows, RowId) && Coherent(rows, cache)
    ensures var o := UpdateOutcome(rows, cache, input);
      UniqueBy(o.rows, RowId) && Coherent(o.rows, o.cache)
  {
    var index := ActiveIndex(rows, input.projectId, input.id);
    if ReadThrough(cache, rows, input.projectId, input.id).Some? && index.Some? {
      var x := Patch(rows[index.value], input);
      UniqueIdIsUniqueKey(rows);
      CoherentAfterUpdate(rows, cache, index.value, x);
      ReplaceKeepsUnique(rows, RowId, index.value, x);
    }
  }

  lemma DeleteKeepsInvariant(rows: seq<Row>, cache: map<string, Dto>, input: DeleteInput, now: Timestamp)
    requires UniqueBy(rows, RowId) && Coherent(rows, cache)
    ensures var o := DeleteOutcome(rows, cache, input, now);
      UniqueBy(o.rows, RowId) && Coherent(o.rows, o.cache)
  {
    var index := ActiveIndex(rows, input.projectId, input.id);
    if ReadThrough(cache, rows, input.projectId, input.id).Some? && index.Some? {
      var x := SoftDelete(rows[index.value], input.deletedBy, now);
      UniqueIdIsUniqueKey(rows);
      CoherentAfterDelete(rows, cache, index.value, x);
      ReplaceKeepsUnique(rows, RowId, index.value, x);
    }
  }

  /** After a successful create, reading the new key (from cache or store) returns the created DTO. */
  lemma CreateThenRead(rows: seq<Row>, cache: map<string, Dto>, input: CreateInput, newId: string, now: Timestamp)
    requires UniqueBy(rows, RowKey)
    ensures var o := CreateOutcome(rows, cache, input, newId, now);
      o.result.Ok? ==>
        && ReadThrough(o.cache, o.rows, input.projectId, newId) == Some(o.result.value)
        && ActiveDto(o.rows, input.projectId, newId) == Some(o.result.value)
  {
    ActiveDtoAfterAppend(rows, NewRow(input, newId, now), input.projectId, newId);
  }

  /** After a successful delete, the row is still in the table but no read of its key finds it. */
  lemma DeleteThenRead(rows: seq<Row>, cache: map<string, Dto>, input: DeleteInput, now: Timestamp)
    requires UniqueBy(rows, RowKey)
    ensures var o := DeleteOutcome(rows, cache, input, now);
      o.result.Ok? ==>
        && ReadThrough(o.cache, o.rows, input.projectId, input.id).None?
        && IndexOf(o.rows, RowKey, (input.projectId, input.id)).Some?
  {
    var index := ActiveIndex(rows, input.projectId, input.id);
    if ReadThrough(cache, rows, input.projectId, input.id).Some? && index.Some? {
      var deleted := SoftDelete(rows[index.value], input.deletedBy, now);
      DeletedRowIsInvisible(rows, cache, index.value, deleted);
      IndexOfAfterReplace(rows, RowKey, index.value, deleted, (input.projectId, input.id));
    }
  }

  /**
   * With server-made stored keys, an update or delete of any requested pair fails exactly
   * when there is no active row, the database's own not-found error cannot happen, and
   * `before` is the stored row.
   */
  lemma UpdateOnActiveRow(rows: seq<Row>, cache: map<string, Dto>, input: UpdateInput)
    requires Coherent(rows, cache) && KeysSlashFree(rows)
    ensures var o := UpdateOutcome(rows, cache, input);
      && (o.result.Ok? <==> ActiveIndex(rows, input.projectId, input.id).Some?)
      && o.result != Err(RecordToUpdateNotFound)
      && (o.result.Ok? ==> o.emitted[0].before == ActiveDto(rows, input.projectId, input.id))
  {
    ReadThroughIsStoreRead(rows, cache, input.projectId, input.id);
  }

  lemma DeleteOnActiveRow(rows: seq<Row>, cache: map<string, Dto>, input: DeleteInput, now: Timestamp)
    requires Coherent(rows, cache) && KeysSlashFree(rows)
    ensures var o := DeleteOutcome(rows, cache, input, now);
      && (o.result.Ok? <==> ActiveIndex(rows, input.projectId, input.id).Some?)
      && o.result != Err(RecordToUpdateNotFound)
      && (o.result.Ok? ==> o.emitted[0].before == ActiveDto(rows, input.projectId, input.id))
  {
    ReadThroughIsStoreRead(rows, cache, input.projectId, input.id);
  }

  /** A write scoped to one (projectId, id) changes what the store says about no other pair. */
  lemma WritesAreIsolated(rows: seq<Row>, cache: map<string, Dto>, update: UpdateInput, delete: DeleteInput,
                          now: Timestamp, projectId: string, id: string)
    requires UniqueBy(rows, RowKey)
    ensures (projectId, id) != (update.projectId, update.id) ==>
      ActiveDto(UpdateOutcome(rows, cache, update).rows, projectId, id) == ActiveDto(rows, projectId, id)
    ensures (projectId, id) != (delete.projectId, delete.id) ==>
      ActiveDto(DeleteOutcome(rows, cache, delete, now).rows, projectId, id) == ActiveDto(rows, projectId, id)
  {
    var u := ActiveIndex(rows, update.projectId, update.id);
    if ReadThrough(cache, rows, update.projectId, update.id).Some? && u.Some? {
      ActiveDtoAfterReplace(rows, u.value, Patch(rows[u.value], update), projectId, id);
    }
    var d := ActiveIndex(rows, delete.projectId, delete.id);
    if ReadThrough(cache, rows, delete.projectId, delete.id).Some? && d.Some? {
      ActiveDtoAfterReplace(rows, d.value, SoftDelete(rows[d.value], delete.deletedBy, now), projectId, id);
    }
  }

  // ---------------------------------------------------------------- listing

  /** The caller's own conditions, every column but `deletedAt`. */
  predicate MatchesCaller(filters: Where<Column>, d: Dto) {
    forall c :: c in filters && c != DeletedAtColumn ==> ColumnOf(d, c) == filters[c]
  }

  datatype Column = ProjectIdColumn | IdColumn | AttributeColumn(name: string) | CreatedAtColumn | DeletedAtColumn

  function ColumnOf(d: Dto, c: Column): FieldValue {
    match c
    case ProjectIdColumn => Text(d.projectId)
    case IdColumn => Text(d.id)
    case AttributeColumn(name) => if name in d.attributes then Text(d.attributes[name]) else Null
    case CreatedAtColumn => Time(d.createdAt)
    case DeletedAtColumn => if d.deletedAt.Some? then Time(d.deletedAt.value) else Null
  }

  predicate Matches(w: Where<Column>, d: Dto) {
    forall c :: c in w ==> ColumnOf(d, c) == w[c]
  }

  /** `where: { ...filters, deletedAt: null }`, shared by the list query and the count query. */
  function Selector(filters: Where<Column>): Row -> bool {
    (row: Row) => Matches(ActiveOnly(filters, DeletedAtColumn), ToDto(row))
  }

  /** The where-clause selects exactly the active rows that meet the caller's other conditions. */
  lemma SelectorOverridesDeletedAt(filters: Where<Column>, row: Row)
    ensures Selector(filters)(row) <==> row.deletedAt.None? && MatchesCaller(filters, ToDto(row))
  {
    var w := ActiveOnly(filters, DeletedAtColumn);
    if row.deletedAt.None? && MatchesCaller(filters, ToDto(row)) {
      forall c | c in w
        ensures ColumnOf(ToDto(row), c) == w[c]
      {
      }
    }
    if Selector(filters)(row) {
      assert ColumnOf(ToDto(row), DeletedAtColumn) == w[DeletedAtColumn];
    }
  }

  /** `orderBy: { createdAt: order }`. */
  function CreatedAtOrder(order: Order): (Row, Row) -> bool {
    (a: Row, b: Row) => InOrder(order, a.createdAt, b.createdAt)
  }

  /** All rows the where-clause selects, in the requested createdAt order. */
  function Listing(rows: seq<Row>, filters: Where<Column>, order: Order): (r: seq<Row>)
    ensures Sorted(r, CreatedAtOrder(order))
    ensures multiset(r) == multiset(Filter(rows, Selector(filters)))
  {
    SortBy(Filter(rows, Selector(filters)), CreatedAtOrder(order))
  }

  /** The listing holds as many rows as the count query reports. */
  lemma ListingLength(rows: seq<Row>, filters: Where<Column>, order: Order)
    ensures |Listing(rows, filters, order)| == Count(rows, Selector(filters))
  {
    assert |multiset(Listing(rows, filters, order))| == |multiset(Filter(rows, Selector(filters)))|;
  }

  /** A listed row is a row of the table that the selector accepts. */
  lemma ListedRow(rows: seq<Row>, filters: Where<Column>, order: Order, k: nat)
    requires k < |Listing(rows, filters, order)|
    ensures var row := Listing(rows, filters, order)[k];
      && ToDto(row) in Map(rows, ToDto) && row.deletedAt.None? && MatchesCaller(filters, ToDto(row))
  {
    var listing := Listing(rows, filters, order);
    var row := listing[k];
    assert row in multiset(listing);
    assert row in Filter(rows, Selector(filters));
    SelectorOverridesDeletedAt(filters, row);
    var j :| 0 <= j < |rows| && rows[j] == row;
    assert Map(rows, ToDto)[j] == ToDto(row);
  }

  /** A page cut from a run of selected rows holds only selected rows. */
  lemma PageOfSelected(rows: seq<Row>, filters: Where<Column>, listing: seq<Row>, offset: nat, limit: nat)
    requires forall k :: 0 <= k < |listing| ==>
      ToDto(listing[k]) in Map(rows, ToDto) && listing[k].deletedAt.None? && MatchesCaller(filters, ToDto(listing[k]))
    ensures var entries := Map(PageSlice(listing, offset, limit), ToDto);
      forall e :: e in entries ==> e in Map(rows, ToDto) && e.deletedAt.None? && MatchesCaller(filters, e)
  {
    var entries := Map(PageSlice(listing, offset, limit), ToDto);
    forall i | 0 <= i < |entries|
      ensures entries[i] in Map(rows, ToDto) && entries[i].deletedAt.None? && MatchesCaller(filters, entries[i])
    {
      assert entries[i] == ToDto(listing[offset + i]);
    }
  }

  /** A page cut from a sorted run is sorted. */
  lemma PageOfSorted(listing: seq<Row>, options: PageOptions)
    requires Sorted(listing, CreatedAtOrder(options.order))
    ensures var entries := Map(PageSlice(listing, options.offset, options.limit), ToDto);
      forall i, j :: 0 <= i < j < |entries| ==> InOrder(options.order, entries[i].createdAt, entries[j].createdAt)
  {
    var entries := Map(PageSlice(listing, options.offset, options.limit), ToDto);
    forall i, j | 0 <= i < j < |entries|
      ensures InOrder(options.order, entries[i].createdAt, entries[j].createdAt)
    {
      assert CreatedAtOrder(options.order)(listing[options.offset + i], listing[options.offset + j]);
    }
  }

  /** What every page cut from the listing holds. */
  lemma PageOfListing(rows: seq<Row>, filters: Where<Column>, options: PageOptions)
    ensures var entries := Map(PageSlice(Listing(rows, filters, options.order), options.offset, options.limit), ToDto);
      && |entries| <= Count(rows, Selector(filters))
      && (forall e :: e in entries ==> e in Map(rows, ToDto) && e.deletedAt.None? && MatchesCaller(filters, e))
      && (forall i, j :: 0 <= i < j < |entries| ==> InOrder(options.order, entries[i].createdAt, entries[j].createdAt))
  {
    var listing := Listing(rows, filters, options.order);
    assert |listing| == Count(rows, Selector(filters)) by {
      assert |multiset(listing)| == |multiset(Filter(rows, Selector(filters)))|;
    }
    forall k | 0 <= k < |listing|
      ensures ToDto(listing[k]) in Map(rows, ToDto) && listing[k].deletedAt.None? && MatchesCaller(filters, ToDto(listing[k]))
    {
      ListedRow(rows, filters, options.order, k);
    }
    PageOfSelected(rows, filters, listing, options.offset, options.limit);
    PageOfSorted(listing, options);
  }

  /**
   * `findAll` takes no project: a page is scoped to a tenant only through the caller's
   * filters, and a `projectId` condition there keeps every entry in that project.
   */
  lemma PageIsTenantScoped(rows: seq<Row>, filters: Where<Column>, options: PageOptions, projectId: string)
    requires ProjectIdColumn in filters && filters[ProjectIdColumn] == Text(projectId)
    ensures forall e :: e in Map(PageSlice(Listing(rows, filters, options.order), options.offset, options.limit), ToDto) ==>
      e.projectId == projectId
  {
    PageOfListing(rows, filters, options);
    forall e | e in Map(PageSlice(Listing(rows, filters, options.order), options.offset, options.limit), ToDto)
      ensures e.projectId == projectId
    {
      assert ColumnOf(e, ProjectIdColumn) == filters[ProjectIdColumn];
    }
  }

  /** No two rows the where-clause selects share a `createdAt`: ORDER BY createdAt has no ties. */
  ghost predicate DistinctCreatedAt(rows: seq<Row>, filters: Where<Column>) {
    forall i, j :: 0 <= i < j < |rows| && Selector(filters)(rows[i]) && Selector(filters)(rows[j]) ==>
      rows[i].createdAt != rows[j].createdAt
  }

  /** A result the list query may return: the selected rows, in some createdAt order. */
  ghost predicate IsListing(rows: seq<Row>, filters: Where<Column>, order: Order, s: seq<Row>) {
    Sorted(s, CreatedAtOrder(order)) && multiset(s) == multiset(Filter(rows, Selector(filters)))
  }

  /** Two selected rows created at the same instant are one row. */
  lemma SelectedTieIsSameRow(rows: seq<Row>, filters: Where<Column>, x: Row, y: Row)
    requires DistinctCreatedAt(rows, filters)
    requires x in rows && y in rows && Selector(filters)(x) && Selector(filters)(y) && x.createdAt == y.createdAt
    ensures x == y
  {
    var i :| 0 <= i < |rows| && rows[i] == x;
    var j :| 0 <= j < |rows| && rows[j] == y;
  }

  /** Without ties on createdAt, the database has only one order to return: the listing. */
  lemma ListingIsDetermined(rows: seq<Row>, filters: Where<Column>, order: Order, s: seq<Row>)
    requires DistinctCreatedAt(rows, filters) && IsListing(rows, filters, order, s)
    ensures s == Listing(rows, filters, order)
  {
    NoTiesIn(rows, filters, order, s);
    SortedPermutationUnique(s, Listing(rows, filters, order), CreatedAtOrder(order));
  }

  /** A result of the list query holds no two distinct rows that tie on createdAt. */
  lemma NoTiesIn(rows: seq<Row>, filters: Where<Column>, order: Order, s: seq<Row>)
    requires DistinctCreatedAt(rows, filters) && multiset(s) == multiset(Filter(rows, Selector(filters)))
    ensures forall x, y :: x in s && y in s && CreatedAtOrder(order)(x, y) && CreatedAtOrder(order)(y, x) ==> x == y
  {
    forall x, y | x in s && y in s && CreatedAtOrder(order)(x, y) && CreatedAtOrder(order)(y, x)
      ensures x == y
    {
      TieInResultIsSameRow(rows, filters, order, s, x, y);
    }
  }

  lemma TieInResultIsSameRow(rows: seq<Row>, filters: Where<Column>, order: Order, s: seq<Row>, x: Row, y: Row)
    requires DistinctCreatedAt(rows, filters) && multiset(s) == multiset(Filter(rows, Selector(filters)))
    requires x in s && y in s && CreatedAtOrder(order)(x, y) && CreatedAtOrder(order)(y, x)
    ensures x == y
  {
    assert x.createdAt == y.createdAt;
    ResultRowIsSelected(rows, filters, s, x);
    ResultRowIsSelected(rows, filters, s, y);
    SelectedTieIsSameRow(rows, filters, x, y);
  }

  /** A row of a permutation of the selected rows is a selected table row. */
  lemma ResultRowIsSelected(rows: seq<Row>, filters: Where<Column>, s: seq<Row>, x: Row)
    requires multiset(s) == multiset(Filter(rows, Selector(filters))) && x in s
    ensures x in rows && Selector(filters)(x)
  {
    assert x in multiset(Filter(rows, Selector(filters)));
  }

  /**
   * Walking pages of one size far enough to reach the total, each page from its own
   * query, yields every active selected row exactly once when no two share a createdAt.
   */
  lemma PagesListEachRowOnce(rows: seq<Row>, filters: Where<Column>, order: Order, size: nat,
                             results: seq<seq<Row>>, row: Row)
    requires UniqueBy(rows, RowId) && DistinctCreatedAt(rows, filters)
    requires forall p :: 0 <= p < |results| ==> IsListing(rows, filters, order, results[p])
    requires |results| * size >= Count(rows, Selector(filters))
    requires row in rows && row.deletedAt.None? && MatchesCaller(filters, ToDto(row))
    ensures multiset(PaginateEach(results, size))[row] == 1
  {
    PagesOfEveryQueryAreListingPages(rows, filters, order, size, results);
    ListingPagesListEachRowOnce(rows, filters, order, size, |results|, row);
  }

  /** Without ties every page query sees the listing, so its pages are the listing's pages. */
  lemma PagesOfEveryQueryAreListingPages(rows: seq<Row>, filters: Where<Column>, order: Order, size: nat,
                                         results: seq<seq<Row>>)
    requires DistinctCreatedAt(rows, filters)
    requires forall p :: 0 <= p < |results| ==> IsListing(rows, filters, order, results[p])
    ensures PaginateEach(results, size) == Paginate(Listing(rows, filters, order), size, |results|)
  {
    var listing := Listing(rows, filters, order);
    forall p | 0 <= p < |results|
      ensures results[p] == listing
    {
      ListingIsDetermined(rows, filters, order, results[p]);
    }
    PaginateEachOfOneOrder(results, listing, size);
  }

  /** Pages of the listing, walked far enough to reach the total, list every selected row once. */
  lemma ListingPagesListEachRowOnce(rows: seq<Row>, filters: Where<Column>, order: Order, size: nat, count: nat, row: Row)
    requires UniqueBy(rows, RowId) && count * size >= Count(rows, Selector(filters))
    requires row in rows && row.deletedAt.None? && MatchesCaller(filters, ToDto(row))
    ensures multiset(Paginate(Listing(rows, filters, order), size, count))[row] == 1
  {
    var listing := Listing(rows, filters, order);
    ListingLength(rows, filters, order);
    PaginateCovers(listing, size, count);
    assert listing[..|listing|] == listing;
    SelectorOverridesDeletedAt(filters, row);
    UniqueIdIsUniqueKey(rows);
    UniqueOccursOnce(rows, RowKey, row);
  }

  /**
   * With a tie on createdAt the pages may repeat one row and skip another: two active rows
   * created at the same instant, listed by the first page query as [a, b] and by the second
   * as [b, a], give pages of size 1 that list `a` twice and `b` never.
   */
  lemma TiedRowsMayRepeatAcrossPages(a: Row, b: Row)
    requires a.id != b.id && a.createdAt == b.createdAt && a.deletedAt.None? && b.deletedAt.None?
    ensures UniqueBy([a, b], RowId)
    ensures IsListing([a, b], map[], Asc, [a, b]) && IsListing([a, b], map[], Asc, [b, a])
    ensures PaginateEach([[a, b], [b, a]], 1) == [a, a]
  {
    TiedRowsAreListings(a, b);
    TiedPages(a, b);
  }

  /** Both arrangements of two tied active rows are results the list query may return. */
  lemma TiedRowsAreListings(a: Row, b: Row)
    requires a.createdAt == b.createdAt && a.deletedAt.None? && b.deletedAt.None?
    ensures IsListing([a, b], map[], Asc, [a, b]) && IsListing([a, b], map[], Asc, [b, a])
  {
    ActiveRowsAreSelected(a, b);
    assert multiset([b, a]) == multiset([a, b]);
    assert Sorted([a, b], CreatedAtOrder(Asc)) && Sorted([b, a], CreatedAtOrder(Asc));
  }

  /** With no caller conditions, two active rows are both selected, in table order. */
  lemma ActiveRowsAreSelected(a: Row, b: Row)
    requires a.deletedAt.None? && b.deletedAt.None?
    ensures Filter([a, b], Selector(map[])) == [a, b]
  {
    SelectorOverridesDeletedAt(map[], a);
    SelectorOverridesDeletedAt(map[], b);
    assert [a, b][1..] == [b];
  }

  /** Size-1 pages cut from [a, b] and then from [b, a]. */
  lemma TiedPages<T>(a: T, b: T)
    ensures PaginateEach([[a, b], [b, a]], 1) == [a, a]
  {
    var results := [[a, b], [b, a]];
    assert results[..1] == [[a, b]];
    assert results[..1][..0] == [];
    assert PaginateEach(results[..1], 1) == [a];
  }

  // ---------------------------------------------------------------- the service

  class ResourceTypeService {
    var rows: seq<Row>
    var cache: map<string, Dto>
    var events: seq<Event>

    ghost predicate Valid()
      reads this
    {
      UniqueBy(rows, RowId) && Coherent(rows, cache)
    }

    /** A service over an existing table; the cache starts empty and no event has been emitted. */
    constructor (table: seq<Row>)
      requires UniqueBy(table, RowId)
      ensures Valid()
      ensures rows == table && cache == map[] && events == []
    {
      rows := table;
      cache := map[];
      events := [];
    }

    method FindOneById(projectId: string, id: string) returns (dto: Option<Dto>)
      requires Valid()
      modifies this`cache
      ensures Valid()
      ensures dto == ReadThrough(old(cache), rows, projectId, id)
      ensures cache == CacheAfterRead(old(cache), rows, projectId, id)
      ensures CacheId(projectId, id) in old(cache) ==> dto == Some(old(cache)[CacheId(projectId, id)]) && cache == old(cache)
      ensures CacheId(projectId, id) !in old(cache) ==> dto == ActiveDto(rows, projectId, id)
      ensures dto.None? ==> cache == old(cache)
      ensures KeysSlashFree(rows) ==> dto == ActiveDto(rows, projectId, id)
    {
      CoherentAfterRead(rows, cache, projectId, id);
      if KeysSlashFree(rows) {
        ReadThroughIsStoreRead(rows, cache, projectId, id);
      }
      var key := CacheId(projectId, id);
      if key in cache {
        return Some(cache[key]);
      }
      var index := ActiveIndex(rows, projectId, id);
      match index {
        case Some(i) =>
          dto := Some(ToDto(rows[i]));
          cache := cache[CacheId(dto.value.projectId, dto.value.id) := dto.value];
        case None =>
          dto := None;
      }
    }

    method Create(input: CreateInput, newId: string, now: Timestamp) returns (result: Result<Dto, ServiceError>)
      requires Valid()
      modifies this
      ensures Valid()
      ensures var o := CreateOutcome(old(rows), old(cache), input, newId, now);
        result == o.result && rows == o.rows && cache == o.cache && events == old(events) + o.emitted
    {
      CreateKeepsInvariant(rows, cache, input, newId, now);
      if IndexOf(rows, RowId, newId).Some? {
        return Err(UniqueConstraintFailed);
      }
      var entry := NewRow(input, newId, now);
      rows := rows + [entry];
      var dto := ToDto(entry);
      cache := cache[CacheId(entry.projectId, entry.id) := dto];
      events := events + [Event(input.projectId, ResourceTypeKind, EntityId(entry.projectId, entry.id),
                                ResourceTypeCreated, CREATE, None, Some(dto))];
      result := Ok(dto);
    }

    method Update(input: UpdateInput) returns (result: Result<Dto, ServiceError>)
      requires Valid()
      modifies this
      ensures Valid()
      ensures var o := UpdateOutcome(old(rows), old(cache), input);
        result == o.result && rows == o.rows && cache == o.cache && events == old(events) + o.emitted
    {
      UpdateKeepsInvariant(rows, cache, input);
      ghost var before := cache;
      var entry := FindOneById(input.projectId, input.id);
      if entry.None? {
        return Err(NotFound(input.id));
      }
      var index := ActiveIndex(rows, input.projectId, input.id);
      if index.None? {
        return Err(RecordToUpdateNotFound);
      }
      var updatedEntry := Patch(rows[index.value], input);
      CacheAfterReadThenWrite(before, rows, input.projectId, input.id, ToDto(updatedEntry));
      rows := rows[index.value := updatedEntry];
      var dto := ToDto(updatedEntry);
      cache := cache[CacheId(dto.projectId, dto.id) := dto];
      events := events + [Event(input.projectId, ResourceTypeKind, EntityId(updatedEntry.projectId, updatedEntry.id),
                                ResourceTypeUpdated, UPDATE, entry, Some(dto))];
      result := Ok(dto);
    }

    method Delete(input: DeleteInput, now: Timestamp) returns (result: Result<Dto, ServiceError>)
      requires Valid()
      modifies this
      ensures Valid()
      ensures var o := DeleteOutcome(old(rows), old(cache), input, now);
        result == o.result && rows == o.rows && cache == o.cache && events == old(events) + o.emitted
    {
      DeleteKeepsInvariant(rows, cache, input, now);
      ghost var before := cache;
      var entry := FindOneById(input.projectId, input.id);
      if entry.None? {
        return Err(NotFound(input.id));
      }
      var index := ActiveIndex(rows, input.projectId, input.id);
      if index.None? {
        return Err(RecordToUpdateNotFound);
      }
      var updatedEntry := SoftDelete(rows[index.value], input.deletedBy, now);
      CacheAfterReadThenWrite(before, rows, input.projectId, input.id, ToDto(updatedEntry));
      rows := rows[index.value := updatedEntry];
      var dto := ToDto(updatedEntry);
      cache := cache - {CacheId(dto.projectId, dto.id)};
      events := events + [Event(input.projectId, ResourceTypeKind, EntityId(updatedEntry.projectId, updatedEntry.id),
                                ResourceTypeDeleted, DELETE, entry, Some(dto))];
      result := Ok(dto);
    }

    /** One page of active resource types, with the total the count query reports. */
    function FindAll(options: PageOptions, filters: Where<Column>): (page: Page<Dto>)
      reads this
      ensures page.options == options
      ensures |page.entries| <= options.limit && |page.entries| <= page.total
      ensures page.total == Count(rows, Selector(filters))
      ensures |page.entries| == if options.offset <= page.total then Min(options.limit, page.total - options.offset) else 0
      ensures forall i :: 0 <= i < |page.entries| ==>
        page.entries[i] == ToDto(Listing(rows, filters, options.order)[options.offset + i])
      ensures forall e :: e in page.entries ==> e in Map(rows, ToDto) && e.deletedAt.None? && MatchesCaller(filters, e)
      ensures forall i, j :: 0 <= i < j < |page.entries| ==>
        InOrder(options.order, page.entries[i].createdAt, page.entries[j].createdAt)
    {
      PageOfListing(rows, filters, options);
      Page(Map(PageSlice(Listing(rows, filters, options.order), options.offset, options.limit), ToDto),
           Count(rows, Selector(filters)), options)
    }
  }
}
