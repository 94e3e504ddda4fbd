/**
 * The species-translation service: the read-only variant of the cache-aside pattern. A
 * translation is identified by the composite key (speciesId, locale); the service reads
 * through the cache on a single-key lookup and pages through the table ordered by name.
 * It never writes the table and emits no events.
 */
module SpeciesTranslation {
  import opened Wrappers
  import opened Strings
  import opened Table
  import opened Query

  type Timestamp = int

  /** A row of the species-translation table; `deletedAt == None` means active. */
  datatype Row = Row(speciesId: string, locale: string, name: string, deletedAt: Option<Timestamp>)

  /** The species-translation DTO: the columns a row exposes. */
  datatype Dto = Dto(speciesId: string, locale: string, name: string, deletedAt: Option<Timestamp>)

  /** `plainToInstance(SpeciesTranslationDto, entry)`: projects a row onto the DTO's fields. */
  function ToDto(row: Row): (d: Dto)
    ensures (d.speciesId, d.locale) == RowKey(row) && d.deletedAt == row.deletedAt
  {
    Dto(row.speciesId, row.locale, row.name, row.deletedAt)
  }

  /** The projection drops no column: two rows with the same DTO are the same row. */
  lemma ToDtoInjective(a: Row, b: Row)
    ensures ToDto(a) == ToDto(b) ==> a == b
  {
  }

  /** The table's composite unique key `speciesId_locale`. */
  function RowKey(row: Row): (string, string) {
    (row.speciesId, row.locale)
  }

  // ---------------------------------------------------------------- keys

  /** `generateCacheLocale`: the cache key of a translation; it names no project. */
  function LocaleKey(speciesId: string, locale: string): (key: string)
    ensures |key| == |speciesId| + |locale| + 35
    ensures key[..8] == "Species-" && key[|key| - 7..] == "/Locale"
  {
    "Species-" + speciesId + "/SpeciesTranslation-" + locale + "/Locale"
  }

  lemma LocaleKeySlashes(speciesId: string, locale: string)
    ensures Slashes(LocaleKey(speciesId, locale)) == Slashes(speciesId) + Slashes(locale) + 2
  {
    assert SlashFree("Species-") && SlashFree("Locale") && SlashFree("SpeciesTranslation-");
    assert Slashes("/Locale") == 1 by { assert "/Locale"[1..] == "Locale"; }
    assert Slashes("/SpeciesTranslation-") == 1 by { assert "/SpeciesTranslation-"[1..] == "SpeciesTranslation-"; }
    SlashesConcat("Species-", speciesId);
    SlashesConcat("Species-" + speciesId, "/SpeciesTranslation-");
    SlashesConcat("Species-" + speciesId + "/SpeciesTranslation-", locale);
    SlashesConcat("Species-" + speciesId + "/SpeciesTranslation-" + locale, "/Locale");
  }

  /** A key built from a separator-free pair names only that pair. */
  lemma LocaleKeyInjective(speciesId: string, locale: string, otherSpecies: string, otherLocale: string)
    requires SlashFree(speciesId) && SlashFree(locale)
    requires LocaleKey(speciesId, locale) == LocaleKey(otherSpecies, otherLocale)
    ensures speciesId == otherSpecies && locale == otherLocale
  {
    LocaleKeySlashes(speciesId, locale);
    LocaleKeySlashes(otherSpecies, otherLocale);
    TemplateInjective("Species-", "/SpeciesTranslation-", "/Locale", speciesId, locale, otherSpecies, otherLocale);
  }

  /** Without that restriction two different pairs share a key. */
  lemma LocaleKeyCollision(speciesId: string, x: string, y: string)
    ensures LocaleKey(speciesId + "/SpeciesTranslation-" + x, y) == LocaleKey(speciesId, x + "/SpeciesTranslation-" + y)
    ensures speciesId + "/SpeciesTranslation-" + x != speciesId
  {
    assert |speciesId + "/SpeciesTranslation-" + x| > |speciesId|;
  }

  // ---------------------------------------------------------------- store reads

  /** The position of the row `findUnique({ speciesId_locale, deletedAt: null })` returns. */
  function ActiveIndex(rows: seq<Row>, speciesId: string, locale: string): (r: Option<nat>)
    ensures r.Some? ==> r.value < |rows| && RowKey(rows[r.value]) == (speciesId, locale) && rows[r.value].deletedAt.None?
    ensures UniqueBy(rows, RowKey) && r.None? ==>
      forall i :: 0 <= i < |rows| && RowKey(rows[i]) == (speciesId, locale) ==> rows[i].deletedAt.Some?
  {
    match IndexOf(rows, RowKey, (speciesId, locale))
    case Some(i) => if rows[i].deletedAt.None? then Some(i) else None
    case None => None
  }

  /** The store's answer, projected to a DTO; null when there is no active row. */
  function ActiveDto(rows: seq<Row>, speciesId: string, locale: string): (r: Option<Dto>)
    ensures r.Some? ==> r.value.speciesId == speciesId && r.value.locale == locale && r.value.deletedAt.None?
    ensures r.Some? ==> exists i :: 0 <= i < |rows| && ToDto(rows[i]) == r.value
    ensures UniqueBy(rows, RowKey) && r.None? ==>
      forall i :: 0 <= i < |rows| && RowKey(rows[i]) == (speciesId, locale) ==> rows[i].deletedAt.Some?
  {
    match ActiveIndex(rows, speciesId, locale)
    case Some(i) => Some(ToDto(rows[i]))
    case None => None
  }

  /** What `findOneById` returns: the cached value as it is on a hit, the store's answer on a miss. */
  function ReadThrough(cache: map<string, Dto>, rows: seq<Row>, speciesId: string, locale: string): (r: Option<Dto>)
    ensures LocaleKey(speciesId, locale) in cache ==> r == Some(cache[LocaleKey(speciesId, locale)])
    ensures LocaleKey(speciesId, locale) !in cache ==> r == ActiveDto(rows, speciesId, locale)
    ensures Coherent(rows, cache) && r.Some? ==>
      r.value.deletedAt.None? && exists i :: 0 <= i < |rows| && ToDto(rows[i]) == r.value
  {
    var key := LocaleKey(speciesId, locale);
    if key in cache then Some(cache[key]) else ActiveDto(rows, speciesId, locale)
  }

  /** The cache after `findOneById`: a miss that found a row stores it under the key that was read. */
  function CacheAfterRead(cache: map<string, Dto>, rows: seq<Row>, speciesId: string, locale: string): (c: map<string, Dto>)
    ensures ReadThrough(cache, rows, speciesId, locale).None? ==> c == cache
    ensures ReadThrough(cache, rows, speciesId, locale).Some? ==>
      c == cache[LocaleKey(speciesId, locale) := ReadThrough(cache, rows, speciesId, locale).value]
  {
    var key := LocaleKey(speciesId, locale);
    if key in cache then cache
    else
      match ActiveDto(rows, speciesId, locale)
      case Some(dto) => cache[key := dto]
      case None => cache
  }

  /**
   * The invariant on the cache: every entry names its own key, and it is the DTO of the
   * active row with that (speciesId, locale).
   */
  ghost predicate Coherent(rows: seq<Row>, cache: map<string, Dto>) {
    forall k :: k in cache ==>
      && LocaleKey(cache[k].speciesId, cache[k].locale) == k
      && ActiveDto(rows, cache[k].speciesId, cache[k].locale) == Some(cache[k])
  }

  // ---------------------------------------------------------------- cache lemmas

  /** No stored species id or locale contains the key separator `/`. */
  ghost predicate KeysSlashFree(rows: seq<Row>) {
    forall i :: 0 <= i < |rows| ==> SlashFree(rows[i].speciesId) && SlashFree(rows[i].locale)
  }

  /**
   * Under the invariant, and with separator-free stored keys, reading through the cache is
   * reading the store for every requested pair, whatever it contains.
   */
  lemma ReadThroughIsStoreRead(rows: seq<Row>, cache: map<string, Dto>, speciesId: string, locale: string)
    requires Coherent(rows, cache) && KeysSlashFree(rows)
    ensures ReadThrough(cache, rows, speciesId, locale) == ActiveDto(rows, speciesId, locale)
  {
    var key := LocaleKey(speciesId, locale);
    if key in cache {
      var d := cache[key];
      var i :| 0 <= i < |rows| && ToDto(rows[i]) == d;
      LocaleKeyInjective(d.speciesId, d.locale, speciesId, locale);
    }
  }

  /**
   * A read keeps the invariant; after a read that found a translation, the same read again
   * is a hit that returns an equal DTO and leaves the cache as it is.
   */
  lemma SecondReadHits(rows: seq<Row>, cache: map<string, Dto>, speciesId: string, locale: string)
    requires Coherent(rows, cache)
    ensures var after := CacheAfterRead(cache, rows, speciesId, locale);
      && Coherent(rows, after)
      && (ReadThrough(cache, rows, speciesId, locale).Some? ==>
            && LocaleKey(speciesId, locale) in after
            && ReadThrough(after, rows, speciesId, locale) == ReadThrough(cache, rows, speciesId, locale)
            && CacheAfterRead(after, rows, speciesId, locale) == after)
  {
  }

  // ---------------------------------------------------------------- listing

  datatype Column = SpeciesIdColumn | LocaleColumn | NameColumn | DeletedAtColumn

  function ColumnOf(d: Dto, c: Column): FieldValue {
    match c
    case SpeciesIdColumn => Text(d.speciesId)
    case LocaleColumn => Text(d.locale)
    case NameColumn => Text(d.name)
    case DeletedAtColumn => if d.deletedAt.Some? then Time(d.deletedAt.value) else Null
  }

  predicate Matches(w: Where<Column>, d: Dto) {
    forall c :: c in w ==> ColumnOf(d, c) == w[c]
  }

  /** The caller's own conditions, every column but `deletedAt`. */
  predicate MatchesCaller(filters: Where<Column>, d: Dto) {
    forall c :: c in filters && c != DeletedAtColumn ==> ColumnOf(d, c) == filters[c]
  }

  /** `where: { ...filters, deletedAt: null }`, shared by the list query and the count query. */
  function Selector(filters: Where<Column>): Row -> bool {
    (row: Row) => Matches(ActiveOnly(filters, DeletedAtColumn), ToDto(row))
  }

  /** The where-clause selects exactly the active rows that meet the caller's other conditions. */
  lemma SelectorOverridesDeletedAt(filters: Where<Column>, row: Row)
    ensures Selector(filters)(row) <==> row.deletedAt.None? && MatchesCaller(filters, ToDto(row))
  {
    var w := ActiveOnly(filters, DeletedAtColumn);
    if row.deletedAt.None? && MatchesCaller(filters, ToDto(row)) {
      forall c | c in w
        ensures ColumnOf(ToDto(row), c) == w[c]
      {
      }
    }
    if Selector(filters)(row) {
      assert ColumnOf(ToDto(row), DeletedAtColumn) == w[DeletedAtColumn];
    }
  }

  /** `a` may come before `b` when ordering names in direction `order`. */
  predicate NameInOrder(order: Order, a: string, b: string) {
    match order
    case Asc => LexLe(a, b)
    case Desc => LexLe(b, a)
  }

  /** `orderBy: { name: order }`. */
  function NameOrder(order: Order): (Row, Row) -> bool {
    (a: Row, b: Row) => NameInOrder(order, a.name, b.name)
  }

  lemma NameOrderIsTotalPreorder(order: Order)
    ensures TotalPreorder(NameOrder(order))
  {
    forall a: Row, b: Row
      ensures NameOrder(order)(a, b) || NameOrder(order)(b, a)
    {
      LexLeTotal(a.name, b.name);
    }
    forall a: Row, b: Row, c: Row | NameOrder(order)(a, b) && NameOrder(order)(b, c)
      ensures NameOrder(order)(a, c)
    {
      if order == Asc {
        LexLeTransitive(a.name, b.name, c.name);
      } else {
        LexLeTransitive(c.name, b.name, a.name);
      }
    }
  }

  /** All rows the where-clause selects, in the requested name order. */
  function Listing(rows: seq<Row>, filters: Where<Column>, order: Order): (r: seq<Row>)
    ensures Sorted(r, NameOrder(order))
    ensures multiset(r) == multiset(Filter(rows, Selector(filters)))
  {
    NameOrderIsTotalPreorder(order);
    SortBy(Filter(rows, Selector(filters)), NameOrder(order))
  }

  /** A listed row is a row of the table that the selector accepts. */
  lemma ListedRow(rows: seq<Row>, filters: Where<Column>, order: Order, k: nat)
    requires k < |Listing(rows, filters, order)|
    ensures var row := Listing(rows, filters, order)[k];
      && ToDto(row) in Map(rows, ToDto) && row.deletedAt.None? && MatchesCaller(filters, ToDto(row))
  {
    var listing := Listing(rows, filters, order);
    var row := listing[k];
    assert row in multiset(listing);
    assert row in Filter(rows, Selector(filters));
    SelectorOverridesDeletedAt(filters, row);
    var j :| 0 <= j < |rows| && rows[j] == row;
    assert Map(rows, ToDto)[j] == ToDto(row);
  }

  /** A page cut from a run of selected rows holds only selected rows. */
  lemma PageOfSelected(rows: seq<Row>, filters: Where<Column>, listing: seq<Row>, offset: nat, limit: nat)
    requires forall k :: 0 <= k < |listing| ==>
      ToDto(listing[k]) in Map(rows, ToDto) && listing[k].deletedAt.None? && MatchesCaller(filters, ToDto(listing[k]))
    ensures var entries := Map(PageSlice(listing, offset, limit), ToDto);
      forall e :: e in entries ==> e in Map(rows, ToDto) && e.deletedAt.None? && MatchesCaller(filters, e)
  {
    var entries := Map(PageSlice(listing, offset, limit), ToDto);
    forall i | 0 <= i < |entries|
      ensures entries[i] in Map(rows, ToDto) && entries[i].deletedAt.None? && MatchesCaller(filters, entries[i])
    {
      assert entries[i] == ToDto(listing[offset + i]);
    }
  }

  /** A page cut from a sorted run is sorted. */
  lemma PageOfSorted(listing: seq<Row>, options: PageOptions)
    requires Sorted(listing, NameOrder(options.order))
    ensures var entries := Map(PageSlice(listing, options.offset, options.limit), ToDto);
      forall i, j :: 0 <= i < j < |entries| ==> NameInOrder(options.order, entries[i].name, entries[j].name)
  {
    var entries := Map(PageSlice(listing, options.offset, options.limit), ToDto);
    forall i, j | 0 <= i < j < |entries|
      ensures NameInOrder(options.order, entries[i].name, entries[j].name)
    {
      assert NameOrder(options.order)(listing[options.offset + i], listing[options.offset + j]);
    }
  }

  /** What every page cut from the listing holds. */
  lemma PageOfListing(rows: seq<Row>, filters: Where<Column>, options: PageOptions)
    ensures var entries := Map(PageSlice(Listing(rows, filters, options.order), options.offset, options.limit), ToDto);
      && |Listing(rows, filters, options.order)| == Count(rows, Selector(filters))
      && (forall e :: e in entries ==> e in Map(rows, ToDto) && e.deletedAt.None? && MatchesCaller(filters, e))
      && (forall i, j :: 0 <= i < j < |entries| ==> NameInOrder(options.order, entries[i].name, entries[j].name))
  {
    var listing := Listing(rows, filters, options.order);
    assert |listing| == Count(rows, Selector(filters)) by {
      assert |multiset(listing)| == |multiset(Filter(rows, Selector(filters)))|;
    }
    forall k | 0 <= k < |listing|
      ensures ToDto(listing[k]) in Map(rows, ToDto) && listing[k].deletedAt.None? && MatchesCaller(filters, ToDto(listing[k]))
    {
      ListedRow(rows, filters, options.order, k);
    }
    PageOfSelected(rows, filters, listing, options.offset, options.limit);
    PageOfSorted(listing, options);
  }

  // ---------------------------------------------------------------- the service

  class SpeciesTranslationService {
    var rows: seq<Row>
    var cache: map<string, Dto>

    ghost predicate Valid()
      reads this
    {
      UniqueBy(rows, RowKey) && Coherent(rows, cache)
    }

    /** A service over an existing table; the cache starts empty. */
    constructor (table: seq<Row>)
      requires UniqueBy(table, RowKey)
      ensures Valid()
      ensures rows == table && cache == map[]
    {
      rows := table;
      cache := map[];
    }

    /** Only the cache may change: the table is read, never written. */
    method FindOneById(speciesId: string, locale: string) returns (dto: Option<Dto>)
      requires Valid()
      modifies this`cache
      ensures Valid()
      ensures dto == ReadThrough(old(cache), rows, speciesId, locale)
      ensures cache == CacheAfterRead(old(cache), rows, speciesId, locale)
      ensures LocaleKey(speciesId, locale) in old(cache) ==>
        dto == Some(old(cache)[LocaleKey(speciesId, locale)]) && cache == old(cache)
      ensures LocaleKey(speciesId, locale) !in old(cache) ==> dto == ActiveDto(rows, speciesId, locale)
      ensures dto.None? ==> cache == old(cache)
      ensures dto.Some? ==> LocaleKey(speciesId, locale) in cache && cache[LocaleKey(speciesId, locale)] == dto.value
      ensures KeysSlashFree(rows) ==> dto == ActiveDto(rows, speciesId, locale)
    {
      SecondReadHits(rows, cache, speciesId, locale);
      if KeysSlashFree(rows) {
        ReadThroughIsStoreRead(rows, cache, speciesId, locale);
      }
      var key := LocaleKey(speciesId, locale);
      if key in cache {
        return Some(cache[key]);
      }
      match ActiveIndex(rows, speciesId, locale) {
        case Some(i) =>
          dto := Some(ToDto(rows[i]));
          cache := cache[key := dto.value];
        case None =>
          dto := None;
      }
    }

    /** One page of active translations ordered by name, with the total the count query reports. */
    function FindAll(options: PageOptions, filters: Where<Column>): (page: Page<Dto>)
      reads this
      ensures page.options == options
      ensures |page.entries| <= options.limit && |page.entries| <= page.total
      ensures page.total == Count(rows, Selector(filters))
      ensures |page.entries| == if options.offset <= page.total then Min(options.limit, page.total - options.offset) else 0
      ensures forall i :: 0 <= i < |page.entries| ==>
        page.entries[i] == ToDto(Listing(rows, filters, options.order)[options.offset + i])
      ensures forall e :: e in page.entries ==> e in Map(rows, ToDto) && e.deletedAt.None? && MatchesCaller(filters, e)
      ensures forall i, j :: 0 <= i < j < |page.entries| ==>
        NameInOrder(options.order, page.entries[i].name, page.entries[j].name)
    {
      PageOfListing(rows, filters, options);
      Page(Map(PageSlice(Listing(rows, filters, options.order), options.offset, options.limit), ToDto),
           Count(rows, Selector(filters)), options)
    }
  }
}
