/** The persisted layout model: entries, grids and the root configuration,
    plus the legacy single-grid shape that the migration upgrades. */
module GridTypes {
  import opened Basics
  import opened OrderedMaps
  import opened CellIds

  /** The kinds of document a cell can show. */
  datatype EntryType = JournalEntry | JournalEntryPage | RollTable | Item | Actor | Image

  /** One occupied or reserved cell. Optional properties are `None` when the
      object does not carry them. The property `type` is called `kind` here. */
  datatype Entry = Entry(
    x: int,
    y: int,
    spanRows: Option<int>,
    spanCols: Option<int>,
    entityUuid: Option<string>,
    kind: Option<EntryType>,
    entryId: string,
    isDndNpc: Option<bool>,
    isDndNpcStatBlock: Option<bool>,
    imagePath: Option<string>)

  /** A named layout surface; `entries` is keyed by cell id. */
  datatype Grid = Grid(
    entries: OMap<Entry>,
    id: string,
    name: string,
    isShared: bool,
    rowOverride: Option<int>,
    columnOverride: Option<int>,
    cssClass: Option<string>)

  /** The root value of the `gm-screen-config` setting. */
  datatype Config = Config(grids: OMap<Grid>, activeGridId: string)

  /** The pre-2.0.1 shape `{grid: {entries: [...]}}`: one grid whose entries
      are an array. Besides `entries` the grid object may carry the two
      dimension overrides. */
  datatype LegacyGrid = LegacyGrid(entries: seq<Entry>, rowOverride: Option<int>, columnOverride: Option<int>)

  /** A bare cell `{x, y, entryId}` with no span and no content. */
  function BlankEntry(x: int, y: int): Entry {
    Entry(x, y, None, None, None, None, EntryId(x, y), None, None, None)
  }

  /** JavaScript truthiness of an optional number (NaN is not modelled). */
  predicate Truthy(n: Option<int>) {
    n.Some? && n.value != 0
  }

  /** `n || 1` */
  function SpanOr1(n: Option<int>): int {
    if Truthy(n) then n.value else 1
  }

  /** `(spanCols || 1) * (spanRows || 1)`: the cells one entry takes. */
  function Footprint(e: Entry): int {
    SpanOr1(e.spanCols) * SpanOr1(e.spanRows)
  }

  /** An entry stored under its own id, and that id is `${x}-${y}`. */
  ghost predicate CanonicalAt(m: OMap<Entry>, k: string)
    requires k in m.vals
  {
    m.vals[k].entryId == k && k == EntryId(m.vals[k].x, m.vals[k].y)
  }

  /** Every entry is keyed by its own canonical id. */
  ghost predicate EntriesWf(m: OMap<Entry>) {
    forall k :: k in m.vals ==> CanonicalAt(m, k)
  }

  /** Every grid is keyed by its `id` and its entries are well formed. */
  ghost predicate ConfigWf(c: Config) {
    forall g :: g in c.grids.vals ==> c.grids.vals[g].id == g && EntriesWf(c.grids.vals[g].entries)
  }
}
