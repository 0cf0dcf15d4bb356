/** The entry-map operations of the GM screen: counting occupied cells,
    filling a grid out with blank cells, adding, clearing and resizing an
    entry. Each works on a copy of a grid's `entries` object and returns the
    new object; the caller writes it back. */
module ScreenLayout {
  import opened Basics
  import opened OrderedMaps
  import opened CellIds
  import opened GridTypes
  import opened Helpers

  // ---------------------------------------------------------------------
  // Occupied cells

  /** The sum of the footprints of `es`. */
  function SumFootprints(es: seq<Entry>): int {
    if |es| == 0 then 0 else Footprint(es[0]) + SumFootprints(es[1..])
  }

  /** `getNumOccupiedCells`: the footprints of the grid's entries, summed. */
  function OccupiedCells(g: Grid): int {
    SumFootprints(Values(g.entries))
  }

  lemma {:induction false} SumFootprintsAppend(a: seq<Entry>, b: seq<Entry>)
    ensures SumFootprints(a + b) == SumFootprints(a) + SumFootprints(b)
  {
    if |a| == 0 {
      assert a + b == b;
    } else {
      assert (a + b)[1..] == a[1..] + b;
      SumFootprintsAppend(a[1..], b);
    }
  }

  lemma {:induction false} SumFootprintsUpdate(es: seq<Entry>, i: int, e: Entry)
    requires 0 <= i < |es|
    ensures SumFootprints(es[i := e]) == SumFootprints(es) - Footprint(es[i]) + Footprint(e)
  {
    if i == 0 {
      assert es[0 := e][1..] == es[1..];
    } else {
      assert es[i := e][1..] == es[1..][i - 1 := e];
      SumFootprintsUpdate(es[1..], i - 1, e);
    }
  }

  lemma {:induction false} SumDropKey(ks: seq<string>, vals: map<string, Entry>, k: string)
    requires NoDup(ks)
    requires forall x :: x in ks ==> x in vals
    ensures SumFootprints(ValuesAt(DropKeys(ks, {k}), vals)) ==
            SumFootprints(ValuesAt(ks, vals)) - (if k in ks then Footprint(vals[k]) else 0)
  {
    if |ks| > 0 {
      NoDupTail(ks);
      var rest := ks[1..];
      assert forall x :: x in ks <==> x == ks[0] || x in rest;
      if ks[0] == k {
        DropKeysDisjoint(rest, {k});
      } else {
        SumDropKey(rest, vals, k);
        var d := DropKeys(rest, {k});
        assert ([ks[0]] + d)[1..] == d;
      }
    }
  }

  /** Assigning entry `v` under key `k` changes the count by the difference
      of the footprints. */
  lemma OccupiedAfterPut(m: OMap<Entry>, k: string, v: Entry)
    ensures SumFootprints(Values(Put(m, k, v))) ==
            SumFootprints(Values(m)) - (if Has(m, k) then Footprint(m.vals[k]) else 0) + Footprint(v)
  {
    ValuesPut(m, k, v);
    if Has(m, k) {
      SumFootprintsUpdate(Values(m), IndexOf(m.keys, k), v);
    } else {
      SumFootprintsAppend(Values(m), [v]);
      assert [v][1..] == [];
    }
  }

  /** Deleting key `k` lowers the count by that entry's footprint. */
  lemma OccupiedAfterRemove(m: OMap<Entry>, k: string)
    ensures SumFootprints(Values(Remove(m, k))) ==
            SumFootprints(Values(m)) - (if Has(m, k) then Footprint(m.vals[k]) else 0)
  {
    ValuesRemove(m, k);
    SumDropKey(m.keys, m.vals, k);
  }

  /** An empty grid occupies nothing; when no entry has a truthy span (absent
      or 0 counts as 1), every entry takes one cell. */
  lemma {:induction false} OccupiedOfUnitSpans(es: seq<Entry>)
    requires forall i :: 0 <= i < |es| ==> !Truthy(es[i].spanCols) && !Truthy(es[i].spanRows)
    ensures SumFootprints(es) == |es|
  {
    if |es| > 0 {
      OccupiedOfUnitSpans(es[1..]);
    }
  }

  // ---------------------------------------------------------------------
  // Filling a grid out with blank cells

  /** A rendered cell: an entry, or the empty record `{}`. */
  datatype GridCell = Filled(entry: Entry) | Blank

  /** The cells a rendered list covers: an entry its footprint, a blank one. */
  function Covered(cs: seq<GridCell>): int {
    if |cs| == 0 then 0
    else (if cs[0].Filled? then Footprint(cs[0].entry) else 1) + Covered(cs[1..])
  }

  /** `columnOverride ?? columns` times `rowOverride ?? rows`. */
  function Capacity(g: Grid, columns: int, rows: int): int {
    g.columnOverride.GetOr(columns) * g.rowOverride.GetOr(rows)
  }

  function Blanks(n: int): (r: seq<GridCell>)
    ensures |r| == if n > 0 then n else 0
    ensures forall i :: 0 <= i < |r| ==> r[i] == Blank
  {
    if n > 0 then seq(n, _ => Blank) else []
  }

  /** The `gridEntries` of `getHydratedGrids`: the stored entries in key
      order, then one blank cell for every cell of the grid left over. */
  function HydrateEntries(g: Grid, columns: int, rows: int): (r: seq<GridCell>)
    ensures |r| == |g.entries.keys| + if Capacity(g, columns, rows) > OccupiedCells(g)
                                       then Capacity(g, columns, rows) - OccupiedCells(g) else 0
    ensures forall i :: 0 <= i < |g.entries.keys| ==> r[i] == Filled(g.entries.vals[g.entries.keys[i]])
    ensures forall i :: |g.entries.keys| <= i < |r| ==> r[i] == Blank
  {
    var es := Values(g.entries);
    seq(|es|, i requires 0 <= i < |es| => Filled(es[i])) + Blanks(Capacity(g, columns, rows) - OccupiedCells(g))
  }

  lemma {:induction false} CoveredAppend(a: seq<GridCell>, b: seq<GridCell>)
    ensures Covered(a + b) == Covered(a) + Covered(b)
  {
    if |a| == 0 {
      assert a + b == b;
    } else {
      assert (a + b)[1..] == a[1..] + b;
      CoveredAppend(a[1..], b);
    }
  }

  lemma {:induction false} CoveredFilled(es: seq<Entry>, cs: seq<GridCell>)
    requires |cs| == |es| && forall i :: 0 <= i < |es| ==> cs[i] == Filled(es[i])
    ensures Covered(cs) == SumFootprints(es)
  {
    if |es| > 0 {
      CoveredFilled(es[1..], cs[1..]);
    }
  }

  lemma {:induction false} CoveredBlanks(cs: seq<GridCell>)
    requires forall i :: 0 <= i < |cs| ==> cs[i] == Blank
    ensures Covered(cs) == |cs|
  {
    if |cs| > 0 {
      CoveredBlanks(cs[1..]);
    }
  }

  /** The filled-out grid covers exactly its capacity when the entries fit,
      and exactly what the entries occupy otherwise (no blank is added). */
  lemma HydratedCoverage(g: Grid, columns: int, rows: int)
    ensures var cap, occ := Capacity(g, columns, rows), OccupiedCells(g);
      Covered(HydrateEntries(g, columns, rows)) == if occ <= cap then cap else occ
  {
    var es := Values(g.entries);
    var filled := seq(|es|, i requires 0 <= i < |es| => Filled(es[i]));
    var blanks := Blanks(Capacity(g, columns, rows) - OccupiedCells(g));
    CoveredAppend(filled, blanks);
    CoveredFilled(es, filled);
    CoveredBlanks(blanks);
  }

  /** One value of the object `getHydratedGrids` returns. */
  datatype HydratedGrid = HydratedGrid(grid: Grid, gridEntries: seq<GridCell>)

  /** One grid with its entries filled out. */
  function Hydrate(g: Grid, columns: int, rows: int): HydratedGrid {
    HydratedGrid(g, HydrateEntries(g, columns, rows))
  }

  /** The `reduce` of `getHydratedGrids` over the viewable grids `gs`: each
      grid is stored under its own `id`, a later grid with the same id
      replacing an earlier one. */
  function HydrateAll(gs: seq<Grid>, columns: int, rows: int): OMap<HydratedGrid> {
    if |gs| == 0 then Empty()
    else
      var last := gs[|gs| - 1];
      Put(HydrateAll(gs[..|gs| - 1], columns, rows), last.id, Hydrate(last, columns, rows))
  }

  function Ids(gs: seq<Grid>): (r: seq<string>)
    ensures |r| == |gs| && forall i :: 0 <= i < |gs| ==> r[i] == gs[i].id
  {
    seq(|gs|, i requires 0 <= i < |gs| => gs[i].id)
  }

  /** With distinct ids, the hydrated object lists the grids in their order,
      each with its own filled-out entries. */
  lemma {:induction false} HydrateAllDistinct(gs: seq<Grid>, columns: int, rows: int)
    requires NoDup(Ids(gs))
    ensures HydrateAll(gs, columns, rows).keys == Ids(gs)
    ensures forall i :: 0 <= i < |gs| ==>
      HydrateAll(gs, columns, rows).vals[gs[i].id] == Hydrate(gs[i], columns, rows)
  {
    HydrateAllKeys(gs, columns, rows);
    forall i | 0 <= i < |gs|
      ensures HydrateAll(gs, columns, rows).vals[gs[i].id] == Hydrate(gs[i], columns, rows)
    {
      assert forall j :: i < j < |gs| ==> Ids(gs)[j] != Ids(gs)[i];
      HydrateAllAt(gs, columns, rows, i);
    }
  }

  lemma {:induction false} HydrateAllKeys(gs: seq<Grid>, columns: int, rows: int)
    requires NoDup(Ids(gs))
    ensures HydrateAll(gs, columns, rows).keys == Ids(gs)
  {
    if |gs| > 0 {
      var n := |gs| - 1;
      var ids := Ids(gs);
      assert Ids(gs[..n]) == ids[..n];
      NoDupPrefix(ids, n);
      HydrateAllKeys(gs[..n], columns, rows);
      var acc := HydrateAll(gs[..n], columns, rows);
      PutFresh(acc, gs[n].id, Hydrate(gs[n], columns, rows));
      PrefixLast(ids);
    }
  }

  /** A grid no later grid shares its id with is stored under its id,
      filled out. */
  lemma {:induction false} HydrateAllAt(gs: seq<Grid>, columns: int, rows: int, i: int)
    requires 0 <= i < |gs| && forall j :: i < j < |gs| ==> gs[j].id != gs[i].id
    ensures gs[i].id in HydrateAll(gs, columns, rows).vals
    ensures HydrateAll(gs, columns, rows).vals[gs[i].id] == Hydrate(gs[i], columns, rows)
  {
    var n := |gs| - 1;
    var acc := HydrateAll(gs[..n], columns, rows);
    assert HydrateAll(gs, columns, rows) == Put(acc, gs[n].id, Hydrate(gs[n], columns, rows));
    if i == n {
      PutSame(acc, gs[i].id, Hydrate(gs[i], columns, rows));
    } else {
      assert gs[..n][i] == gs[i];
      forall j | i < j < n ensures gs[..n][j].id != gs[..n][i].id {
        assert gs[..n][j] == gs[j];
      }
      HydrateAllAt(gs[..n], columns, rows, i);
      PutOther(acc, gs[n].id, Hydrate(gs[n], columns, rows), gs[i].id);
    }
  }

  // ---------------------------------------------------------------------
  // Adding an entry

  /** `{...prev, ...e}`: every property `e` carries wins; the coordinates and
      the id are always carried. */
  function MergeEntry(prev: Option<Entry>, e: Entry): (r: Entry)
    ensures prev.None? ==> r == e
  {
    if prev.None? then e
    else
      var o := prev.value;
      Entry(
        e.x, e.y,
        if e.spanRows.Some? then e.spanRows else o.spanRows,
        if e.spanCols.Some? then e.spanCols else o.spanCols,
        if e.entityUuid.Some? then e.entityUuid else o.entityUuid,
        if e.kind.Some? then e.kind else o.kind,
        e.entryId,
        if e.isDndNpc.Some? then e.isDndNpc else o.isDndNpc,
        if e.isDndNpcStatBlock.Some? then e.isDndNpcStatBlock else o.isDndNpcStatBlock,
        if e.imagePath.Some? then e.imagePath else o.imagePath)
  }

  /** The stored entry under `k`, if any. */
  function Lookup(m: OMap<Entry>, k: string): (r: Option<Entry>)
    ensures r.Some? <==> Has(m, k)
    ensures r.Some? ==> r.value == m.vals[k]
  {
    if k in m.vals then Some(m.vals[k]) else None
  }

  /** `addEntryToActiveGrid`'s new entries object. */
  function AddEntry(m: OMap<Entry>, e: Entry): OMap<Entry> {
    Put(m, e.entryId, MergeEntry(Lookup(m, e.entryId), e))
  }

  /** Optional property `n` of the merge: the new value if carried,
      otherwise the previous one. */
  predicate Overrides<T(==)>(r: Option<T>, prev: Option<Entry>, n: Option<T>, field: Entry -> Option<T>) {
    if n.Some? then r == n else if prev.Some? then r == field(prev.value) else r.None?
  }

  /** After adding `e`, the entry at `e.entryId` has `e`'s coordinates and id
      and every optional property `e` carries, the previous entry's value for
      every property `e` leaves out, and no other entry changes. */
  lemma AddEntryResult(m: OMap<Entry>, e: Entry)
    ensures var r, prev := AddEntry(m, e), Lookup(m, e.entryId);
      && r.vals.Keys == m.vals.Keys + {e.entryId}
      && (Has(m, e.entryId) ==> r.keys == m.keys)
      && (!Has(m, e.entryId) ==> r.keys == m.keys + [e.entryId])
      && var n := r.vals[e.entryId];
      && n.x == e.x && n.y == e.y && n.entryId == e.entryId
      && Overrides(n.spanRows, prev, e.spanRows, (x: Entry) => x.spanRows)
      && Overrides(n.spanCols, prev, e.spanCols, (x: Entry) => x.spanCols)
      && Overrides(n.entityUuid, prev, e.entityUuid, (x: Entry) => x.entityUuid)
      && Overrides(n.kind, prev, e.kind, (x: Entry) => x.kind)
      && Overrides(n.isDndNpc, prev, e.isDndNpc, (x: Entry) => x.isDndNpc)
      && Overrides(n.isDndNpcStatBlock, prev, e.isDndNpcStatBlock, (x: Entry) => x.isDndNpcStatBlock)
      && Overrides(n.imagePath, prev, e.imagePath, (x: Entry) => x.imagePath)
    ensures forall k :: k in m.vals && k != e.entryId ==> AddEntry(m, e).vals[k] == m.vals[k]
  {
  }

  /** Adding the same entry twice is adding it once. */
  lemma AddEntryIdempotent(m: OMap<Entry>, e: Entry)
    ensures AddEntry(AddEntry(m, e), e) == AddEntry(m, e)
  {
  }

  /** Adding a canonical entry keeps every entry under its own canonical id. */
  lemma AddEntryKeepsWf(m: OMap<Entry>, e: Entry)
    requires EntriesWf(m) && e.entryId == EntryId(e.x, e.y)
    ensures EntriesWf(AddEntry(m, e))
  {
  }

  // ---------------------------------------------------------------------
  // Clearing a cell

  /** Whether clearing keeps the cell's place: `spanCols || spanRows`. */
  predicate KeepsLayout(e: Entry) {
    Truthy(e.spanCols) || Truthy(e.spanRows)
  }

  /** The cell left behind: its content properties deleted. */
  function Emptied(e: Entry): Entry {
    e.(entityUuid := None, kind := None, isDndNpc := None, isDndNpcStatBlock := None)
  }

  /** `removeEntryFromActiveGrid`'s new entries object; None when there is no
      entry under `id` (reading `spanCols` of undefined throws). */
  function ClearCell(m: OMap<Entry>, id: string): Option<OMap<Entry>> {
    if id !in m.vals then None
    else if KeepsLayout(m.vals[id]) then Some(Put(m, id, Emptied(m.vals[id])))
    else Some(Remove(m, id))
  }

  /** A spanned cell keeps its key, place, coordinates, spans, id and image
      but loses its content, and the count stays; any other cell is deleted
      and the count drops by exactly one. No other entry changes. */
  lemma ClearCellResult(m: OMap<Entry>, id: string)
    ensures ClearCell(m, id).None? <==> !Has(m, id)
    ensures ClearCell(m, id).Some? ==>
      var r, e := ClearCell(m, id).value, m.vals[id];
      && (forall k :: k in m.vals && k != id ==> k in r.vals && r.vals[k] == m.vals[k])
      && (KeepsLayout(e) ==>
            && r.keys == m.keys && id in r.vals
            && var c := r.vals[id];
            && c.x == e.x && c.y == e.y && c.entryId == e.entryId
            && c.spanRows == e.spanRows && c.spanCols == e.spanCols && c.imagePath == e.imagePath
            && c.entityUuid.None? && c.kind.None? && c.isDndNpc.None? && c.isDndNpcStatBlock.None?
            && SumFootprints(Values(r)) == SumFootprints(Values(m)))
      && (!KeepsLayout(e) ==>
            && r.vals.Keys == m.vals.Keys - {id}
            && SumFootprints(Values(r)) == SumFootprints(Values(m)) - 1)
  {
    if id in m.vals {
      if KeepsLayout(m.vals[id]) {
        OccupiedAfterPut(m, id, Emptied(m.vals[id]));
      } else {
        OccupiedAfterRemove(m, id);
      }
    }
  }

  /** Clearing keeps every entry of a well-formed object under its own id. */
  lemma ClearCellKeepsWf(m: OMap<Entry>, id: string)
    requires EntriesWf(m) && Has(m, id)
    ensures EntriesWf(ClearCell(m, id).value)
  {
  }

  /** Clearing a spanned cell a second time changes nothing more; clearing an
      unspanned cell a second time finds nothing. */
  lemma ClearCellTwice(m: OMap<Entry>, id: string)
    requires Has(m, id)
    ensures KeepsLayout(m.vals[id]) ==> ClearCell(ClearCell(m, id).value, id) == ClearCell(m, id)
    ensures !KeepsLayout(m.vals[id]) ==> ClearCell(ClearCell(m, id).value, id).None?
  {
    var e := m.vals[id];
    if KeepsLayout(e) {
      var c := Emptied(e);
      assert Emptied(c) == c && KeepsLayout(c);
      assert m.vals[id := c][id := c] == m.vals[id := c];
    }
  }

  // ---------------------------------------------------------------------
  // Resizing a cell

  /** `Array(n)` accepts a length in [0, 2^32); anything else throws. */
  predicate ArrayLength(n: int) {
    0 <= n < 0x1_0000_0000
  }

  /** The ids `${px}-${y + j}` of one column of the covered rectangle. */
  function ColumnIds(px: int, y: int, rows: int): (r: seq<string>)
    ensures |r| == (if rows > 0 then rows else 0)
    ensures forall j :: 0 <= j < |r| ==> r[j] == EntryId(px, y + j)
  {
    if rows <= 0 then [] else seq(rows, j requires 0 <= j < rows => EntryId(px, y + j))
  }

  /** `problemCoordinates`: column by column, the ids of every cell of the
      `cols` by `rows` rectangle anchored at (x, y). */
  function ProblemIds(x: int, y: int, cols: nat, rows: int): seq<string> {
    if cols == 0 then [] else ProblemIds(x, y, cols - 1, rows) + ColumnIds(x + cols - 1, y, rows)
  }

  /** Cell (cx, cy) lies in the `cols` by `rows` rectangle anchored at (x, y). */
  predicate InRect(cx: int, cy: int, x: int, y: int, cols: int, rows: int) {
    x <= cx < x + cols && y <= cy < y + rows
  }

  /** Every cell of the rectangle has its id among the problem ids. */
  lemma {:induction false} ProblemIdsComplete(x: int, y: int, cols: nat, rows: int, cx: int, cy: int)
    requires InRect(cx, cy, x, y, cols, rows)
    ensures EntryId(cx, cy) in ProblemIds(x, y, cols, rows)
  {
    var front, col := ProblemIds(x, y, cols - 1, rows), ColumnIds(x + cols - 1, y, rows);
    assert ProblemIds(x, y, cols, rows) == front + col;
    if cx == x + cols - 1 {
      var j := cy - y;
      assert col[j] == EntryId(x + cols - 1, y + j);
      assert x + cols - 1 == cx && y + j == cy;
      assert EntryId(cx, cy) in col;
    } else {
      ProblemIdsComplete(x, y, cols - 1, rows, cx, cy);
    }
    InConcat(front, col, EntryId(cx, cy));
  }

  /** Every problem id is the id of a cell of the rectangle. */
  lemma {:induction false} ProblemIdsSound(x: int, y: int, cols: nat, rows: int, id: string)
    requires id in ProblemIds(x, y, cols, rows)
    ensures exists cx, cy :: InRect(cx, cy, x, y, cols, rows) && id == EntryId(cx, cy)
  {
    if id in ColumnIds(x + cols - 1, y, rows) {
      var j :| 0 <= j < |ColumnIds(x + cols - 1, y, rows)| && ColumnIds(x + cols - 1, y, rows)[j] == id;
      assert InRect(x + cols - 1, y + j, x, y, cols, rows);
    } else {
      ProblemIdsSound(x, y, cols - 1, rows, id);
      var cx, cy :| InRect(cx, cy, x, y, cols - 1, rows) && id == EntryId(cx, cy);
      assert InRect(cx, cy, x, y, cols, rows);
    }
  }

  /** A canonical id lies among the problem ids exactly when its coordinates
      lie in the rectangle. */
  lemma ProblemIdsOfCell(x: int, y: int, cols: nat, rows: int, cx: int, cy: int)
    ensures EntryId(cx, cy) in ProblemIds(x, y, cols, rows) <==> InRect(cx, cy, x, y, cols, rows)
  {
    if EntryId(cx, cy) in ProblemIds(x, y, cols, rows) {
      ProblemIdsSound(x, y, cols, rows, EntryId(cx, cy));
      var ax, ay :| InRect(ax, ay, x, y, cols, rows) && EntryId(cx, cy) == EntryId(ax, ay);
      EntryIdInjective(cx, cy, ax, ay);
    } else if InRect(cx, cy, x, y, cols, rows) {
      ProblemIdsComplete(x, y, cols, rows, cx, cy);
    }
  }

  /** The ids the eviction loop deletes: the `entryId` of every value in the
      snapshot that is a problem id and not the resized cell's own id. */
  function Doomed(vs: seq<Entry>, problem: seq<string>, keep: string): set<string> {
    set e | e in vs && e.entryId in problem && e.entryId != keep :: e.entryId
  }

  /** Whether the loop deletes `entries[e.entryId]`. */
  predicate Evicts(e: Entry, problem: seq<string>, keep: string) {
    e.entryId in problem && e.entryId != keep
  }

  /** One turn of the eviction loop keeps `r` equal to the snapshot prefix's
      deletions. */
  lemma EvictStep(entries: OMap<Entry>, vs: seq<Entry>, i: int, problem: seq<string>, keep: string)
    requires 0 <= i < |vs|
    ensures Evicts(vs[i], problem, keep) ==>
      Remove(RemoveAll(entries, Doomed(vs[..i], problem, keep)), vs[i].entryId) ==
      RemoveAll(entries, Doomed(vs[..i + 1], problem, keep))
    ensures !Evicts(vs[i], problem, keep) ==> Doomed(vs[..i], problem, keep) == Doomed(vs[..i + 1], problem, keep)
  {
    assert vs[..i + 1] == vs[..i] + [vs[i]];
    assert forall x :: x in vs[..i + 1] <==> x in vs[..i] || x == vs[i];
    if Evicts(vs[i], problem, keep) {
      RemoveAfterRemoveAll(entries, Doomed(vs[..i], problem, keep), vs[i].entryId);
      assert Doomed(vs[..i + 1], problem, keep) == Doomed(vs[..i], problem, keep) + {vs[i].entryId};
    }
  }

  /** The forEach loop of the `configureCell` action: over a snapshot of the
      values, delete `entries[entry.entryId]` for every overlapped entry. */
  method EvictOverlaps(entries: OMap<Entry>, problem: seq<string>, keep: string) returns (r: OMap<Entry>)
    ensures r == RemoveAll(entries, Doomed(Values(entries), problem, keep))
  {
    var vs := Values(entries);
    r := entries;
    RemoveAllNothing(entries);
    assert Doomed(vs[..0], problem, keep) == {};
    var i := 0;
    while i < |vs|
      invariant 0 <= i <= |vs|
      invariant r == RemoveAll(entries, Doomed(vs[..i], problem, keep))
    {
      EvictStep(entries, vs, i, problem, keep);
      if vs[i].entryId in problem && vs[i].entryId != keep {
        r := Remove(r, vs[i].entryId);
      }
      i := i + 1;
    }
    assert vs[..|vs|] == vs;
  }

  /** In a well-formed entries object the doomed ids are exactly the keys,
      other than `keep`, of the entries anchored in the rectangle. */
  lemma DoomedInWf(p: OMap<Entry>, x: int, y: int, cols: nat, rows: int, keep: string)
    requires EntriesWf(p)
    ensures forall k :: k in Doomed(Values(p), ProblemIds(x, y, cols, rows), keep) <==>
      k in p.vals && k != keep && InRect(p.vals[k].x, p.vals[k].y, x, y, cols, rows)
  {
    var vs, problem := Values(p), ProblemIds(x, y, cols, rows);
    forall k | k in Doomed(vs, problem, keep)
      ensures k in p.vals && k != keep && InRect(p.vals[k].x, p.vals[k].y, x, y, cols, rows)
    {
      var e: Entry :| e in vs && e.entryId in problem && e.entryId != keep && e.entryId == k;
      var i :| 0 <= i < |vs| && vs[i] == e;
      assert CanonicalAt(p, p.keys[i]);
      ProblemIdsOfCell(x, y, cols, rows, e.x, e.y);
    }
    forall k | k in p.vals && k != keep && InRect(p.vals[k].x, p.vals[k].y, x, y, cols, rows)
      ensures k in Doomed(vs, problem, keep)
    {
      var e := p.vals[k];
      assert CanonicalAt(p, k);
      assert vs[IndexOf(p.keys, k)] == e;
      ProblemIdsOfCell(x, y, cols, rows, e.x, e.y);
    }
  }

  /** The cell the dialog configures: the stored entry under the cell's
      `data-entry-id`, or a fresh `{x, y, entryId: "x-y"}`. */
  function ConfigureTarget(m: OMap<Entry>, entryId: Option<string>, x: int, y: int): (r: Entry)
    ensures entryId.Some? && Has(m, entryId.value) ==> r == m.vals[entryId.value]
    ensures !(entryId.Some? && Has(m, entryId.value)) ==> r == BlankEntry(x, y)
  {
    if entryId.Some? && entryId.value in m.vals then m.vals[entryId.value] else BlankEntry(x, y)
  }

  /** `newCell`: the target with the chosen spans. */
  function Resized(target: Entry, s: Spans): Entry {
    target.(spanRows := Some(s.newSpanRows), spanCols := Some(s.newSpanCols))
  }

  /** Whether building `problemCoordinates` succeeds: the row array is built
      once per column, so not at all when there are no columns. */
  predicate ProblemArraysOk(s: Spans) {
    ArrayLength(s.newSpanCols) && (s.newSpanCols > 0 ==> ArrayLength(s.newSpanRows))
  }

  /** The entries object the `configureCell` action writes, or None when the
      problem arrays cannot be built (the exception is caught and nothing is
      written). */
  function ResizeCell(m: OMap<Entry>, entryId: Option<string>, x: int, y: int, s: Spans): Option<OMap<Entry>> {
    if !ProblemArraysOk(s) then None
    else
      var cell := Resized(ConfigureTarget(m, entryId, x, y), s);
      var placed := Put(m, cell.entryId, cell);
      var problem := ProblemIds(cell.x, cell.y, s.newSpanCols, s.newSpanRows);
      Some(RemoveAll(placed, Doomed(Values(placed), problem, cell.entryId)))
  }

  /** The keys of `m`, other than `keep`, whose entries are anchored in the
      `cols` by `rows` rectangle at (x, y). */
  function Evicted(m: OMap<Entry>, keep: string, x: int, y: int, cols: int, rows: int): set<string> {
    set k | k in m.vals && k != keep && InRect(m.vals[k].x, m.vals[k].y, x, y, cols, rows)
  }

  /** Evicting from a well-formed object keeps `keep` and every entry
      anchored outside the rectangle, drops the rest and changes no value. */
  lemma EvictedWf(p: OMap<Entry>, x: int, y: int, cols: nat, rows: int, keep: string)
    requires EntriesWf(p)
    ensures var r := RemoveAll(p, Doomed(Values(p), ProblemIds(x, y, cols, rows), keep));
      && (forall k :: k in r.vals <==> k in p.vals && (k == keep || !InRect(p.vals[k].x, p.vals[k].y, x, y, cols, rows)))
      && (forall k :: k in r.vals ==> r.vals[k] == p.vals[k])
      && EntriesWf(r)
  {
    DoomedInWf(p, x, y, cols, rows, keep);
    var r := RemoveAll(p, Doomed(Values(p), ProblemIds(x, y, cols, rows), keep));
    forall k | k in r.vals ensures CanonicalAt(r, k) {
      assert CanonicalAt(p, k);
    }
  }

  /** The configured cell is canonical, so placing it keeps the object well formed. */
  lemma PlacedWf(m: OMap<Entry>, entryId: Option<string>, x: int, y: int, s: Spans)
    requires EntriesWf(m)
    ensures var cell := Resized(ConfigureTarget(m, entryId, x, y), s);
      EntriesWf(Put(m, cell.entryId, cell))
  {
    var cell := Resized(ConfigureTarget(m, entryId, x, y), s);
    if entryId.Some? && Has(m, entryId.value) {
      assert CanonicalAt(m, entryId.value);
    }
    var placed := Put(m, cell.entryId, cell);
    forall k | k in placed.vals ensures CanonicalAt(placed, k) {
      if k != cell.entryId {
        assert CanonicalAt(m, k);
      }
    }
  }

  /** In a well-formed entries object, resizing leaves the resized cell under
      its id, deletes every other entry whose anchor lies in the rectangle it
      now covers, and keeps every entry anchored outside it unchanged, even
      one whose own span reaches into the rectangle. Nothing else is there:
      the keys are those of the assignment, in order, less the evicted ones.
      The result stays well formed. With spans the arrays reject, nothing is
      written. */
  lemma ResizeCellResult(m: OMap<Entry>, entryId: Option<string>, x: int, y: int, s: Spans)
    requires EntriesWf(m)
    ensures ResizeCell(m, entryId, x, y, s).None? <==> !ProblemArraysOk(s)
    ensures ResizeCell(m, entryId, x, y, s).Some? ==>
      var cell := Resized(ConfigureTarget(m, entryId, x, y), s);
      var r := ResizeCell(m, entryId, x, y, s).value;
      && cell.entryId in r.vals && r.vals[cell.entryId] == cell
      && EntriesWf(r)
      && (forall k :: k in r.vals && k != cell.entryId ==>
            !InRect(r.vals[k].x, r.vals[k].y, cell.x, cell.y, s.newSpanCols, s.newSpanRows))
      && (forall k :: (k in m.vals && k != cell.entryId &&
            !InRect(m.vals[k].x, m.vals[k].y, cell.x, cell.y, s.newSpanCols, s.newSpanRows)) ==>
            k in r.vals && r.vals[k] == m.vals[k])
      && r.vals.Keys <= m.vals.Keys + {cell.entryId}
      && (forall k :: k in r.vals && k != cell.entryId ==> k in m.vals && r.vals[k] == m.vals[k])
      && r.keys == DropKeys(Put(m, cell.entryId, cell).keys, Evicted(m, cell.entryId, cell.x, cell.y, s.newSpanCols, s.newSpanRows))
  {
    if ProblemArraysOk(s) {
      var cell := Resized(ConfigureTarget(m, entryId, x, y), s);
      var placed := Put(m, cell.entryId, cell);
      var cols: nat := s.newSpanCols;
      var r := RemoveAll(placed, Doomed(Values(placed), ProblemIds(cell.x, cell.y, cols, s.newSpanRows), cell.entryId));
      assert ResizeCell(m, entryId, x, y, s) == Some(r);
      PlacedWf(m, entryId, x, y, s);
      EvictedWf(placed, cell.x, cell.y, cols, s.newSpanRows, cell.entryId);
      assert cell.entryId in r.vals && r.vals[cell.entryId] == cell;
      forall k | k in m.vals && k != cell.entryId && !InRect(m.vals[k].x, m.vals[k].y, cell.x, cell.y, cols, s.newSpanRows)
        ensures k in r.vals && r.vals[k] == m.vals[k]
      {
        assert placed.vals[k] == m.vals[k];
      }
      EvictionFrame(m, cell, cols, s.newSpanRows);
    }
  }

  /** What assigning `cell` and then evicting around it leaves of `m`: no key
      that was not there or is not the cell's, every other value as it was,
      and the keys in their order less the evicted ones. */
  lemma EvictionFrame(m: OMap<Entry>, cell: Entry, cols: nat, rows: int)
    requires EntriesWf(Put(m, cell.entryId, cell))
    ensures var placed := Put(m, cell.entryId, cell);
      var r := RemoveAll(placed, Doomed(Values(placed), ProblemIds(cell.x, cell.y, cols, rows), cell.entryId));
      && r.vals.Keys <= m.vals.Keys + {cell.entryId}
      && (forall k :: k in r.vals && k != cell.entryId ==> k in m.vals && r.vals[k] == m.vals[k])
      && r.keys == DropKeys(placed.keys, Evicted(m, cell.entryId, cell.x, cell.y, cols, rows))
  {
    var placed := Put(m, cell.entryId, cell);
    var doomed := Doomed(Values(placed), ProblemIds(cell.x, cell.y, cols, rows), cell.entryId);
    DoomedInWf(placed, cell.x, cell.y, cols, rows, cell.entryId);
    forall k ensures k in doomed <==> k in Evicted(m, cell.entryId, cell.x, cell.y, cols, rows) {
      if k in placed.vals && k != cell.entryId {
        assert placed.vals[k] == m.vals[k];
      }
    }
    assert doomed == Evicted(m, cell.entryId, cell.x, cell.y, cols, rows);
  }

  /** The `configureCell` action once its spans are chosen and its problem
      arrays built: the target takes the spans, is assigned under its id,
      and the eviction loop runs over the result. */
  method ResizeEntries(m: OMap<Entry>, entryId: Option<string>, x: int, y: int, s: Spans) returns (r: OMap<Entry>)
    requires ProblemArraysOk(s)
    ensures ResizeCell(m, entryId, x, y, s) == Some(r)
  {
    var cell := Resized(ConfigureTarget(m, entryId, x, y), s);
    var placed := Put(m, cell.entryId, cell);
    var problem := ProblemIds(cell.x, cell.y, s.newSpanCols, s.newSpanRows);
    r := EvictOverlaps(placed, problem, cell.entryId);
  }

}
