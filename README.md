# Cache-aside entity services

This project models two entity services of a multi-tenant NestJS/Prisma backend. Both
follow the same cache-aside pattern over a table and a cache; the resource service also
keeps an event log:

- the **table**: the rows of one Prisma model, each with a `deletedAt` that is null while
  the row is active. It is modelled as a `seq` of rows in insertion order, with a unique key.
- the **cache**: a key/value store from deterministic key strings to DTOs, modelled as a `map`.
- the **event log** (resource service only): what `emitEvent` has been handed, modelled as a `seq`.

`ResourceTypeService` (module `ResourceType`) has the full pipeline:

- `findOneById` reads through the cache.
- `findAll` lists a page of active rows. It takes no project: a page is scoped to a tenant
  only when the caller's filters name a `projectId` (`PageIsTenantScoped`).
- `create`, `update` and a soft `delete` write the table, then set or drop the cache entry,
  then emit a CREATE, UPDATE or DELETE event with before/after snapshots.

`SpeciesTranslationService` (module `SpeciesTranslation`) is the read-only variant. Its key is
`(speciesId, locale)`, and its cache key names no project. Only its cache ever changes.

Each service is a class with the fields `rows` and `cache`; the resource service also has
`events`. Its `Valid()` invariant has two parts:
- the table's primary key `id` is unique across every project, so the (projectId, id) pair
  the service addresses a row by is unique too;
- the cache is **coherent**: every cache entry names its own key, and equals the DTO of
  the active row with that key.

Every method keeps `Valid()` when calls do not interleave (see "## Left out"). The three writes are specified by pure outcome functions
(`CreateOutcome`, `UpdateOutcome`, `DeleteOutcome`). Each method's postcondition says that its
result, new table, new cache and appended events are that outcome. The lemmas beside the
outcome functions state what the service promises.

### Cache keys and separators

A cache key is a template (`Project-<projectId>/ResourceType-<id>/ID`, and
`Species-<speciesId>/SpeciesTranslation-<locale>/Locale`). The template is not injective:
`CacheIdCollision` and `LocaleKeyCollision` show two different pairs with the same key once a
component contains `/`. A key built from a `/`-free pair, though, is built from no other pair
(`CacheIdInjective`, `LocaleKeyInjective`).

The requested pair comes from the client (an id path parameter may contain a decoded `/`),
but the stored keys do not: `projectId` comes from the caller's credentials and `id` from the
database. So the claims that a read through the cache equals a read of the table assume
`/`-free **stored** keys (`KeysSlashFree`) and hold for every requested pair:
- `ReadThroughIsStoreRead`;
- the last postcondition of each `FindOneById`;
- `UpdateOnActiveRow` and `DeleteOnActiveRow`.

A requested key can then only hit the cache entry of the row with that very pair. Update and
delete keep stored keys `/`-free, and so does a create whose new key is
(`CreateKeepsKeysSlashFree`, `UpdateDeleteKeepKeysSlashFree`).

### Database errors

Prisma rejects some writes with a database error. The model returns these as error values:
- `UniqueConstraintFailed` when `create` is given an id that some row, in any project, already has;
- `RecordToUpdateNotFound` when `update`/`delete` match no active row after the existence
  check passed. `UpdateOnActiveRow` and `DeleteOnActiveRow` prove this cannot happen when the stored keys are `/`-free.

`NotFound(id)` is the service's `NotFoundException`.

## Model

| member | source | states |
|---|---|---|
| ResourceType.ToDto | src/modules/resource/services/resource-type.service.ts:76-80 | `plainToInstance` keeps the row's (projectId, id) and its deletedAt |
| ResourceType.ToDtoInjective | src/modules/resource/services/resource-type.service.ts:76-80 | under the field-copy model of `plainToInstance`, rows with equal DTOs are equal |
| ResourceType.EntityId | src/modules/resource/services/resource-type.service.ts:44-46 | the entity id starts with `Project-`, ends with the id, and is 22 characters longer than its two parts |
| ResourceType.CacheId | src/modules/resource/services/resource-type.service.ts:40-46 | the cache key is the entity id followed by `/ID` |
| ResourceType.CacheIdInjective | src/modules/resource/services/resource-type.service.ts:40-42 | a key built from a `/`-free (projectId, id) is built from no other pair |
| ResourceType.CacheIdCollision | src/modules/resource/services/resource-type.service.ts:40-42 | two different projects share a key when a component contains `/` |
| ResourceType.ActiveIndex | src/modules/resource/services/resource-type.service.ts:69-75 | the lookup finds only a row with that projectId and id whose deletedAt is null; finding nothing means every row with that key is deleted |
| ResourceType.ActiveDto | src/modules/resource/services/resource-type.service.ts:69-80 | the store read returns the DTO of a table row with the requested key and a null deletedAt, or null when no such row is active |
| ResourceType.ReadThrough | src/modules/resource/services/resource-type.service.ts:58-89 | a hit returns the cached value, a miss the store read; under a coherent cache every answer is the DTO of an active table row |
| ResourceType.CacheAfterRead | src/modules/resource/services/resource-type.service.ts:58-89 | a read that found nothing leaves the cache as it was; one that found a DTO leaves it stored under the requested key |
| ResourceType.ReadThroughIsStoreRead | src/modules/resource/services/resource-type.service.ts:58-89 | for a coherent cache and `/`-free stored keys, a read through the cache of any requested pair returns what the table holds |
| ResourceType.CreateKeepsKeysSlashFree | src/modules/resource/services/resource-type.service.ts:131-138 | a create whose new key is `/`-free keeps every stored key `/`-free |
| ResourceType.ReplaceKeepsKeysSlashFree | src/modules/resource/services/resource-type.service.ts:173-177 | rewriting a row under its own key keeps every stored key `/`-free |
| ResourceType.UpdateDeleteKeepKeysSlashFree | src/modules/resource/services/resource-type.service.ts:172-226 | update and delete keep every stored key `/`-free |
| ResourceType.CoherentAfterRead | src/modules/resource/services/resource-type.service.ts:82-87 | the read's cache write keeps the cache coherent and does not change the answer to the same read |
| ResourceType.CacheAfterReadThenWrite | src/modules/resource/services/resource-type.service.ts:167-189 | the entry the existence check caches is overwritten or dropped by the write that follows |
| ResourceType.NewRow | src/modules/resource/services/resource-type.service.ts:131-138 | the inserted row has the new key, the supplied fields, createdBy and updatedBy both the creator, createdAt `now` and no deletion stamps |
| ResourceType.Patch | src/modules/resource/services/resource-type.service.ts:172-182 | an update keeps the key, stamps updatedBy and merges the supplied fields over the stored ones, and changes nothing else |
| ResourceType.SoftDelete | src/modules/resource/services/resource-type.service.ts:216-226 | a delete keeps the row and key, stamps deletedAt and deletedBy, and changes nothing else |
| ResourceType.ActiveDtoAfterReplace | src/modules/resource/services/resource-type.service.ts:172-226 | rewriting one row changes the store's answer for that row's key only |
| ResourceType.ActiveDtoAfterAppend | src/modules/resource/services/resource-type.service.ts:131-138 | inserting a row changes the store's answer for that row's key only |
| ResourceType.CoherentAfterCreate | src/modules/resource/services/resource-type.service.ts:145-148 | inserting a new active row and caching its DTO keeps the key unique and the cache coherent |
| ResourceType.CoherentAfterUpdate | src/modules/resource/services/resource-type.service.ts:189 | rewriting a row and recaching its DTO keeps the key unique and the cache coherent |
| ResourceType.CoherentAfterDelete | src/modules/resource/services/resource-type.service.ts:233 | rewriting a row and dropping its key keeps the key unique and the cache coherent |
| ResourceType.DeletedRowIsInvisible | src/modules/resource/services/resource-type.service.ts:216-233 | after the soft delete and the cache drop, no read of that key finds anything |
| ResourceType.UniqueIdIsUniqueKey | src/modules/resource/services/resource-type.service.ts:69-75 | a unique id makes the (projectId, id) pair the service looks rows up by unique |
| ResourceType.CreateOutcome | src/modules/resource/services/resource-type.service.ts:127-161 | create fails only when a row with the new id exists in any project, and then changes nothing; otherwise it appends exactly the new row, with the supplied fields and createdBy and updatedBy both the creator, keeps every earlier row, caches the returned DTO under the new key and emits exactly one CREATE event for the project and entity id, with no before and the DTO as after |
| ResourceType.UpdateOutcome | src/modules/resource/services/resource-type.service.ts:163-203 | NotFound exactly when the existence check reads null, and then no write, no cache change and no event; otherwise the active row with the key becomes that row with updatedBy stamped and the supplied fields merged and nothing else changed, no row with another key changes, the cache holds the new DTO and one UPDATE event for the project and entity id carries the checked DTO as before and the new one as after |
| ResourceType.DeleteOutcome | src/modules/resource/services/resource-type.service.ts:205-247 | NotFound exactly when the existence check reads null, and then nothing changes; otherwise the active row with the key stays, with deletedAt and deletedBy stamped and nothing else changed, no row with another key changes, the cache key is removed and one DELETE event for the project and entity id carries before and after |
| ResourceType.ReadRacingDeleteResurrects | src/modules/resource/services/resource-type.service.ts:216-233 | a read that fetched the row before a delete and sets the cache after the delete's `del` leaves the cache incoherent, answering with the deleted row |
| ResourceType.ReadRacingUpdateIsStale | src/modules/resource/services/resource-type.service.ts:172-189 | a read that fetched the row before an update and sets the cache after the update's `set` leaves the cache incoherent, answering with the pre-update DTO |
| ResourceType.CreateKeepsInvariant | src/modules/resource/services/resource-type.service.ts:131-148 | create keeps the id unique and the cache coherent |
| ResourceType.UpdateKeepsInvariant | src/modules/resource/services/resource-type.service.ts:172-189 | update keeps the id unique and the cache coherent |
| ResourceType.DeleteKeepsInvariant | src/modules/resource/services/resource-type.service.ts:216-233 | delete keeps the id unique and the cache coherent |
| ResourceType.CreateThenRead | src/modules/resource/services/resource-type.service.ts:131-148 | after a create, both the cache and the table answer the new key with the returned DTO |
| ResourceType.DeleteThenRead | src/modules/resource/services/resource-type.service.ts:216-233 | after a delete the row is still in the table, yet a later read of its key returns null |
| ResourceType.UpdateOnActiveRow | src/modules/resource/services/resource-type.service.ts:167-182 | for `/`-free stored keys and any requested pair, update succeeds exactly when an active row exists, the database's not-found error cannot occur, and before is the stored row |
| ResourceType.DeleteOnActiveRow | src/modules/resource/services/resource-type.service.ts:211-226 | for `/`-free stored keys and any requested pair, delete succeeds exactly when an active row exists, the database's not-found error cannot occur, and before is the stored row |
| ResourceType.WritesAreIsolated | src/modules/resource/services/resource-type.service.ts:172-226 | an update or delete scoped to one (projectId, id) changes what the table says about no other pair |
| ResourceType.SelectorOverridesDeletedAt | src/modules/resource/services/resource-type.service.ts:104-113 | the where-clause selects exactly the active rows meeting the caller's other conditions, whatever the caller says about deletedAt |
| ResourceType.Listing | src/modules/resource/services/resource-type.service.ts:98-108 | the listing holds exactly the selected rows, with their multiplicities, ordered by createdAt in the requested direction |
| ResourceType.ListedRow | src/modules/resource/services/resource-type.service.ts:104-107 | each listed row is an active table row meeting the caller's conditions |
| ResourceType.PageOfSelected | src/modules/resource/services/resource-type.service.ts:99-100 | skipping and taking from selected rows yields only selected rows |
| ResourceType.PageOfSorted | src/modules/resource/services/resource-type.service.ts:99-103 | skipping and taking from a createdAt-ordered run keeps the order |
| ResourceType.PageOfListing | src/modules/resource/services/resource-type.service.ts:97-124 | the list and count queries see the same rows; a page holds only active, matching rows in createdAt order |
| ResourceType.SelectedTieIsSameRow | src/modules/resource/services/resource-type.service.ts:101-107 | when no two selected rows share a createdAt, two selected rows created at the same instant are one row |
| ResourceType.ListingIsDetermined | src/modules/resource/services/resource-type.service.ts:98-108 | when no two selected rows share a createdAt, every createdAt-ordered arrangement of the selected rows the database may return is the listing |
| ResourceType.PagesListEachRowOnce | src/modules/resource/services/resource-type.service.ts:97-115 | when no two selected rows share a createdAt, walking consecutive pages of one size up to the total, each page from its own list query, lists every active matching row exactly once |
| ResourceType.TiedRowsMayRepeatAcrossPages | src/modules/resource/services/resource-type.service.ts:98-103 | with two active rows created at the same instant, two page queries may order them differently, and pages of size 1 then list one row twice and the other never |
| ResourceType.ResourceTypeService.constructor | src/modules/resource/services/resource-type.service.ts:48-52 | a service over a table with unique ids starts with an empty cache and no events, and satisfies the invariant |
| ResourceType.ResourceTypeService.FindOneById | src/modules/resource/services/resource-type.service.ts:54-90 | a hit returns the cached value and leaves the table and cache alone; a miss returns the store read and caches it only when found; with `/`-free stored keys the answer is the active row for every requested pair |
| ResourceType.ResourceTypeService.Create | src/modules/resource/services/resource-type.service.ts:127-161 | the new table, cache, result and appended events are those of CreateOutcome, and the invariant holds |
| ResourceType.ResourceTypeService.Update | src/modules/resource/services/resource-type.service.ts:163-203 | the new table, cache, result and appended events are those of UpdateOutcome, and the invariant holds |
| ResourceType.ResourceTypeService.Delete | src/modules/resource/services/resource-type.service.ts:205-247 | the new table, cache, result and appended events are those of DeleteOutcome, and the invariant holds |
| ResourceType.PageIsTenantScoped | src/modules/resource/services/resource-type.service.ts:104-113 | a page whose filters name a `projectId` holds only rows of that project |
| ResourceType.ResourceTypeService.FindAll | src/modules/resource/services/resource-type.service.ts:92-125 | at most `limit` entries after skipping `offset`, only active rows meeting the caller's conditions, ordered by createdAt; total counts the same where-clause and is at least the number of entries |
| Query.ActiveOnly | src/modules/resource/services/resource-type.service.ts:104-107 | the spread keeps the caller's conditions and forces deletedAt to null |
| Query.SortBy | src/modules/resource/services/resource-type.service.ts:101-103 | ORDER BY returns a sorted permutation of its input |
| Query.PageSlice | src/modules/resource/services/resource-type.service.ts:99-100 | `take`/`skip` returns at most `limit` entries, the ones from position `offset` on |
| Query.SortedPermutationUnique | src/modules/resource/services/resource-type.service.ts:101-103 | when the order has no ties between distinct elements, two sorted permutations of the same rows are equal |
| Query.PaginateEachOfOneOrder | src/modules/resource/services/resource-type.service.ts:99-103 | pages cut from separate queries that all saw the same order are the pages of that one order |
| Query.PaginateCovers | src/modules/resource/services/resource-type.service.ts:99-100 | consecutive pages of one size neither overlap nor leave gaps |
| SpeciesTranslation.LocaleKey | src/modules/dictionary/services/species-translation.service.ts:18-20 | the cache key is a fixed frame around speciesId and locale only; it names no project |
| SpeciesTranslation.LocaleKeyInjective | src/modules/dictionary/services/species-translation.service.ts:18-20 | a key built from a `/`-free (speciesId, locale) is built from no other pair |
| SpeciesTranslation.LocaleKeyCollision | src/modules/dictionary/services/species-translation.service.ts:18-20 | two different pairs share a key when a component contains `/` |
| SpeciesTranslation.ToDto | src/modules/dictionary/services/species-translation.service.ts:48-51 | `plainToInstance` keeps the row's (speciesId, locale) and its deletedAt |
| SpeciesTranslation.ToDtoInjective | src/modules/dictionary/services/species-translation.service.ts:48-51 | under the field-copy model of `plainToInstance`, rows with equal DTOs are equal |
| SpeciesTranslation.ActiveIndex | src/modules/dictionary/services/species-translation.service.ts:39-47 | the lookup finds only the row with that speciesId and locale whose deletedAt is null |
| SpeciesTranslation.ActiveDto | src/modules/dictionary/services/species-translation.service.ts:39-51 | the store read returns the DTO of an active row with the composite key, or null |
| SpeciesTranslation.ReadThrough | src/modules/dictionary/services/species-translation.service.ts:27-61 | a hit returns the cached value as is, a miss the store read; under a coherent cache every answer is the DTO of an active table row |
| SpeciesTranslation.CacheAfterRead | src/modules/dictionary/services/species-translation.service.ts:53-58 | the cache is written under the key that was read, and only when a row was found |
| SpeciesTranslation.ReadThroughIsStoreRead | src/modules/dictionary/services/species-translation.service.ts:27-61 | for a coherent cache and `/`-free stored keys, a read through the cache of any requested pair returns what the table holds |
| SpeciesTranslation.SecondReadHits | src/modules/dictionary/services/species-translation.service.ts:32-58 | a read keeps the cache coherent; after a read that found a translation, the same read is a hit with an equal DTO and no further cache change |
| SpeciesTranslation.SelectorOverridesDeletedAt | src/modules/dictionary/services/species-translation.service.ts:75-84 | the where-clause selects exactly the active rows meeting the caller's other conditions, whatever the caller says about deletedAt |
| SpeciesTranslation.NameOrderIsTotalPreorder | src/modules/dictionary/services/species-translation.service.ts:72-74 | ordering by name in either direction is total and transitive |
| SpeciesTranslation.Listing | src/modules/dictionary/services/species-translation.service.ts:69-79 | the listing holds exactly the selected rows, ordered by name in the requested direction |
| SpeciesTranslation.ListedRow | src/modules/dictionary/services/species-translation.service.ts:75-78 | each listed row is an active table row meeting the caller's conditions |
| SpeciesTranslation.PageOfSelected | src/modules/dictionary/services/species-translation.service.ts:70-71 | skipping and taking from selected rows yields only selected rows |
| SpeciesTranslation.PageOfSorted | src/modules/dictionary/services/species-translation.service.ts:70-74 | skipping and taking from a name-ordered run keeps the order |
| SpeciesTranslation.PageOfListing | src/modules/dictionary/services/species-translation.service.ts:68-98 | the list and count queries see the same rows; a page holds only active, matching rows in name order |
| SpeciesTranslation.SpeciesTranslationService.constructor | src/modules/dictionary/services/species-translation.service.ts:22-25 | a service over a table with a unique key starts with an empty cache and satisfies the invariant |
| SpeciesTranslation.SpeciesTranslationService.FindOneById | src/modules/dictionary/services/species-translation.service.ts:27-61 | only the cache may change; a hit returns the cached value unchanged; a miss returns the store read and caches it under the same key only when found; with `/`-free stored keys the answer is the active row for every requested pair |
| SpeciesTranslation.SpeciesTranslationService.FindAll | src/modules/dictionary/services/species-translation.service.ts:63-99 | at most `limit` entries after skipping `offset`, only active matching rows, ordered by name; total counts the same where-clause |
| Strings.LexLeTotal | src/modules/dictionary/services/species-translation.service.ts:72-74 | any two names are comparable |
| Strings.LexLeTransitive | src/modules/dictionary/services/species-translation.service.ts:72-74 | name order is transitive |

## Left out

- `updatedAt`: Prisma's `@updatedAt` stamp is not modelled. `createdAt` is the `now` argument of `Create`.
- The `context` argument of every method: no method reads it (`update` and `delete` only pass it on to `findOneById`, which ignores it).
- The logger: each service declares one and never calls it.
- Interleaving of concurrent calls. Each method is modelled as one step, but the source awaits between `cacheService.get`, `findUnique` and `cacheService.set` in `findOneById`, and between the database write and the cache `set`/`del` in `update` and `delete`. A read that fetched a row before a delete and sets the cache after the delete's `del` puts the deleted row back in the cache (`ReadRacingDeleteResurrects`); the same race with an update leaves the pre-update DTO cached (`ReadRacingUpdateIsStale`). `Valid()` and "a delete never repopulates the cache" hold only for calls that do not interleave.
- Cache TTL and eviction: the cache keeps an entry until the service drops it.
- Failures of the cache or the database in the middle of an operation. Nothing in the services catches them, so a throwing `cacheService.get`, `set` or `del`, or a failing Prisma call, ends the operation where it happens. For example, an update or soft delete can commit and then fail on `cacheService.set` or `del`: the row is written, the cache is stale or still holds the deleted row, and no event is emitted. The model treats every operation as completing all its steps.
- The two queries of `findAll` run under `Promise.all`. They are modelled as two reads of the same state.
- `PageMetaDto` and `PageDto` construction is not part of this model. A page carries the entries, the total and the request options.
- Prisma filters: only equality conditions on columns are modelled, as a map from column to value. Range, relation, boolean combinators and JSON filters are left out.
- Name order is code-point lexicographic order, not the database's collation.
- ResourceType.Listing: rows with equal `createdAt` keep table order, where the database leaves their order unspecified.
- ResourceType.PagesListEachRowOnce: holds only when no two selected rows share a `createdAt`. The list query orders by `createdAt` alone, and each page is a separate query, so with ties a row can appear on two pages and another on none (`TiedRowsMayRepeatAcrossPages`).
- SpeciesTranslation.Listing: rows with equal `name` keep table order, where the database leaves their order unspecified.
- `plainToInstance` with the DTO classes' exposure rules is modelled as a plain field copy. The DTO classes' decorators are not part of this model, so columns the DTO does not expose (the species service passes `excludeExtraneousValues`) are kept in the model's DTO.
- `/` in stored keys: the read-through claims assume `/`-free stored keys. `Create` does not require its new key to be `/`-free, so after a create with a `/` in `projectId` or the id those claims are not given for that table.
- A resource type's user columns are one `attributes` map. The actor JSON is an `Actor` value.
- The event objects (`new ResourceTypeCreatedEvent()` and the others) and the enum string values are not modelled. Entity, event name and action are constants.
- ResourceType.ResourceTypeService.Create: the new id is an argument. The database generates it.
- The search service, controllers, DTO validation, module wiring and the seed script are not part of this model.
