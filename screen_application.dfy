/** The screen itself: the configuration it shows, its cached viewers and
    its tab state, and the actions that write the configuration back to the
    settings store. Every write goes through `settings.set`; the screen's
    own `data` changes only on `refresh` and where the source mutates
    shared objects in place. */
module ScreenApplication {
  import opened Basics
  import opened OrderedMaps
  import opened CellIds
  import opened GridTypes
  import opened HostSettings
  import opened Helpers
  import opened ScreenLayout
  import opened ScreenRefresh
  import opened ScreenCache
  import opened Tabs

  /** `setProperty(config, 'grids.' + g.id, g)` on a copy: the grid stored
      under its own id, in place when that id exists. */
  function WithGrid(c: Config, g: Grid): (r: Config)
    ensures r.activeGridId == c.activeGridId
    ensures g.id in r.grids.vals && r.grids.vals[g.id] == g
    ensures forall k :: k in c.grids.vals && k != g.id ==> k in r.grids.vals && r.grids.vals[k] == c.grids.vals[k]
    ensures r.grids.vals.Keys == c.grids.vals.Keys + {g.id}
  {
    c.(grids := Put(c.grids, g.id, g))
  }

  /** Storing a grid with well-formed entries under its own id keeps the
      configuration well formed. */
  lemma WithGridWf(c: Config, g: Grid)
    requires ConfigWf(c) && EntriesWf(g.entries)
    ensures ConfigWf(WithGrid(c, g))
  {
  }

  /** The configuration `addEntryToActiveGrid` writes, or None when there is
      no active grid. */
  function EntryAdded(c: Config, e: Entry): (r: Option<Config>)
    ensures r.Some? <==> c.activeGridId in c.grids.vals
    ensures r.Some? ==> r.value.activeGridId == c.activeGridId
  {
    if c.activeGridId in c.grids.vals then
      var g := c.grids.vals[c.activeGridId];
      Some(WithGrid(c, g.(entries := AddEntry(g.entries, e))))
    else None
  }

  /** Adding an entry stored under its own cell id keeps the configuration
      well formed. */
  lemma EntryAddedWf(c: Config, e: Entry)
    requires ConfigWf(c) && e.entryId == EntryId(e.x, e.y)
    ensures EntryAdded(c, e).Some? ==> ConfigWf(EntryAdded(c, e).value)
  {
    if c.activeGridId in c.grids.vals {
      var g := c.grids.vals[c.activeGridId];
      AddEntryKeepsWf(g.entries, e);
      WithGridWf(c, g.(entries := AddEntry(g.entries, e)));
    }
  }

  /** The configuration `removeEntryFromActiveGrid` writes, or None when there
      is no active grid or the active grid has no such entry. */
  function EntryCleared(c: Config, entryId: string): (r: Option<Config>)
    ensures r.Some? <==> c.activeGridId in c.grids.vals && Has(c.grids.vals[c.activeGridId].entries, entryId)
    ensures r.Some? ==> r.value.activeGridId == c.activeGridId
  {
    if c.activeGridId in c.grids.vals && ClearCell(c.grids.vals[c.activeGridId].entries, entryId).Some? then
      var g := c.grids.vals[c.activeGridId];
      Some(WithGrid(c, g.(entries := ClearCell(g.entries, entryId).value)))
    else None
  }

  /** Clearing a cell keeps the configuration well formed. */
  lemma EntryClearedWf(c: Config, entryId: string)
    requires ConfigWf(c)
    ensures EntryCleared(c, entryId).Some? ==> ConfigWf(EntryCleared(c, entryId).value)
  {
    if EntryCleared(c, entryId).Some? {
      var g := c.grids.vals[c.activeGridId];
      ClearCellKeepsWf(g.entries, entryId);
      WithGridWf(c, g.(entries := ClearCell(g.entries, entryId).value));
    }
  }

  /** The configuration the `configureCell` action writes when the dialog
      closes with `choice`, or None when it writes nothing: there is no
      active grid, the dialog is cancelled, or the spans cannot size an
      array. */
  function ConfiguredConfig(c: Config, entryId: Option<string>, x: int, y: int, choice: DialogChoice): (r: Option<Config>)
    ensures r.Some? <==> c.activeGridId in c.grids.vals && DialogOutcome(choice).Some? && ProblemArraysOk(DialogOutcome(choice).value)
    ensures r.Some? ==> r.value.activeGridId == c.activeGridId
  {
    var s := DialogOutcome(choice);
    if c.activeGridId in c.grids.vals && s.Some? && ProblemArraysOk(s.value) then
      var g := c.grids.vals[c.activeGridId];
      Some(WithGrid(c, g.(entries := ResizeCell(g.entries, entryId, x, y, s.value).value)))
    else None
  }

  /** Resizing a cell keeps the configuration well formed: the resized cell
      holds the chosen spans, nothing else in its rectangle survives, and
      every entry outside it is left as it was. */
  lemma ConfiguredConfigWf(c: Config, entryId: Option<string>, x: int, y: int, choice: DialogChoice)
    requires ConfigWf(c)
    ensures ConfiguredConfig(c, entryId, x, y, choice).Some? ==> ConfigWf(ConfiguredConfig(c, entryId, x, y, choice).value)
  {
    var s := DialogOutcome(choice);
    if ConfiguredConfig(c, entryId, x, y, choice).Some? {
      var g := c.grids.vals[c.activeGridId];
      ResizeCellResult(g.entries, entryId, x, y, s.value);
      WithGridWf(c, g.(entries := ResizeCell(g.entries, entryId, x, y, s.value).value));
    }
  }

  /** With every grid under its own id, the hydrated object has one tab per
      viewable grid, in the viewable grids' order. */
  lemma HydratedTabs(c: Config, isGM: bool, columns: int, rows: int)
    requires ConfigWf(c)
    ensures HydrateAll(Values(UserViewableGrids(c, isGM)), columns, rows).keys == UserViewableGrids(c, isGM).keys
  {
    var v := UserViewableGrids(c, isGM);
    var gs := Values(v);
    assert Ids(gs) == v.keys by {
      forall i | 0 <= i < |gs| ensures Ids(gs)[i] == v.keys[i] {
        assert gs[i] == v.vals[v.keys[i]];
      }
    }
    HydrateAllDistinct(gs, columns, rows);
  }

  /** The `cssClass` loop of `_prepareContext` as it runs: over the keys of
      the hydrated object, marking each hydrated grid by its own id. */
  function MarkHydrated(h: OMap<HydratedGrid>, selected: Option<string>): (r: OMap<HydratedGrid>)
    ensures r.keys == h.keys && r.vals.Keys == h.vals.Keys
    ensures forall id :: id in h.vals ==> r.vals[id].gridEntries == h.vals[id].gridEntries
  {
    Assoc(h.keys, map id | id in h.vals :: h.vals[id].(grid := Marked(h.vals[id].grid, selected)))
  }

  /** What `_prepareContext` yields for `c`: the hydrated viewable grids,
      marked; the tab it selects; and `c` with the marks written through to
      the grids the hydrated object holds. */
  datatype PreparedContext = PreparedContext(grids: OMap<HydratedGrid>, activeTab: Option<string>, data: Config)

  function Prepared(c: Config, isGM: bool, columns: int, rows: int): (p: PreparedContext)
    ensures p.activeTab == SelectTab(p.grids.keys, c.activeGridId)
    ensures p.grids.keys == HydrateAll(Values(UserViewableGrids(c, isGM)), columns, rows).keys
    ensures p.data.activeGridId == c.activeGridId && p.data.grids.keys == c.grids.keys
  {
    var viewable := UserViewableGrids(c, isGM);
    var hydrated := HydrateAll(Values(viewable), columns, rows);
    var selected := SelectTab(hydrated.keys, c.activeGridId);
    var kept := KeptKeys(viewable.vals, viewable.keys);
    PreparedContext(MarkHydrated(hydrated, selected), selected, c.(grids := MarkTabs(c.grids, kept, selected)))
  }

  /** A kept key's grid is the one the hydrated object holds under its id. */
  lemma KeptHydrated(v: OMap<Grid>, k: string, columns: int, rows: int)
    requires k in KeptKeys(v.vals, v.keys)
    ensures k in v.vals && v.vals[k].id in HydrateAll(Values(v), columns, rows).vals
    ensures HydrateAll(Values(v), columns, rows).vals[v.vals[k].id] == Hydrate(v.vals[k], columns, rows)
  {
    var gs := Values(v);
    var i :| 0 <= i < |v.keys| && v.keys[i] in v.vals && v.keys[i] == k &&
      (forall j :: i < j < |v.keys| && v.keys[j] in v.vals ==> v.vals[v.keys[j]].id != v.vals[v.keys[i]].id);
    forall j | i < j < |gs| ensures gs[j].id != gs[i].id {
      assert v.keys[j] in v.vals;
    }
    HydrateAllAt(gs, columns, rows, i);
  }

  /** The hydrated object holds `data`'s own grid objects: each kept key's
      grid is the one hydrated under its id, with the same mark, and that
      mark is `'active'` exactly when the shown tab is the grid's id. */
  lemma PreparedMarksShared(c: Config, isGM: bool, columns: int, rows: int)
    ensures var p := Prepared(c, isGM, columns, rows);
      var v := UserViewableGrids(c, isGM);
      forall k :: k in KeptKeys(v.vals, v.keys) ==>
        && k in p.data.grids.vals && c.grids.vals[k].id in p.grids.vals
        && p.grids.vals[c.grids.vals[k].id].grid == p.data.grids.vals[k]
        && (p.data.grids.vals[k].cssClass == Some("active") <==> p.activeTab == Some(c.grids.vals[k].id))
  {
    var v := UserViewableGrids(c, isGM);
    var hydrated := HydrateAll(Values(v), columns, rows);
    var selected := SelectTab(hydrated.keys, c.activeGridId);
    var kept := KeptKeys(v.vals, v.keys);
    var marked := MarkTabs(c.grids, kept, selected);
    assert Prepared(c, isGM, columns, rows) == PreparedContext(MarkHydrated(hydrated, selected), selected, c.(grids := marked));
    forall k | k in kept
      ensures k in marked.vals && c.grids.vals[k].id in hydrated.vals
      ensures MarkHydrated(hydrated, selected).vals[c.grids.vals[k].id].grid == marked.vals[k]
      ensures marked.vals[k].cssClass == Some("active") <==> selected == Some(c.grids.vals[k].id)
    {
      KeptHydrated(v, k, columns, rows);
    }
  }

  /** A grid stored under a key other than its id: the hydrated object holds
      it under its id, that tab is shown, and the stored grid is marked. */
  lemma MarkedUnderOtherKey(g: Grid, columns: int, rows: int)
    requires g.id == "b"
    ensures var p := Prepared(Config(Assoc(["a"], map["a" := g]), "a"), true, columns, rows);
      p.grids.keys == ["b"] && p.activeTab == Some("b") && p.data.grids.vals["a"].cssClass == Some("active")
  {
    var c := Config(Assoc(["a"], map["a" := g]), "a");
    var gs := Values(c.grids);
    assert gs == [g];
    assert gs[..0] == [];
    assert HydrateAll(gs, columns, rows) == Put(Empty(), "b", Hydrate(g, columns, rows));
    assert "a" in KeptKeys(c.grids.vals, c.grids.keys);
  }

  /** Of two keys whose grids share an id, only the later is kept. */
  lemma KeptOfSharedId(g: Grid, h: Grid)
    requires g.id == h.id
    ensures KeptKeys(map["a" := g, "c" := h], ["a", "c"]) == {"c"}
  {
    var grids, keys := map["a" := g, "c" := h], ["a", "c"];
    assert keys[1] == "c";
    forall k | k in KeptKeys(grids, keys) ensures k == "c" {
      var i :| 0 <= i < 2 && keys[i] in grids && keys[i] == k &&
        (forall j :: i < j < 2 && keys[j] in grids ==> grids[keys[j]].id != grids[keys[i]].id);
      if i == 0 {
        assert keys[1] in grids;
      }
    }
  }

  /** Two grids sharing one id: the later replaces the earlier in the
      hydrated object, so only the later is marked. */
  lemma MarkedLastOfSharedId(g: Grid, h: Grid, columns: int, rows: int)
    requires g.id == "b" && h.id == "b" && g.cssClass == None
    ensures var p := Prepared(Config(Assoc(["a", "c"], map["a" := g, "c" := h]), "b"), true, columns, rows);
      p.activeTab == Some("b") && p.data.grids.vals["c"].cssClass == Some("active") && p.data.grids.vals["a"] == g
  {
    var c := Config(Assoc(["a", "c"], map["a" := g, "c" := h]), "b");
    var gs := Values(c.grids);
    assert gs == [g, h];
    assert gs[..1] == [g] && gs[..1][..0] == [];
    var one := Put(Empty(), "b", Hydrate(g, columns, rows));
    assert HydrateAll(gs[..1], columns, rows) == one;
    var hydrated := HydrateAll(gs, columns, rows);
    assert hydrated == Put(one, "b", Hydrate(h, columns, rows));
    assert hydrated.keys == ["b"];
    KeptOfSharedId(g, h);
    var marked := MarkTabs(c.grids, {"c"}, Some("b"));
    assert Prepared(c, true, columns, rows) == PreparedContext(MarkHydrated(hydrated, Some("b")), Some("b"), c.(grids := marked));
  }

  /** For a well-formed configuration there is one tab per viewable grid, in
      order; the marked configuration stays well formed; and among the
      viewable grids exactly the selected tab's grid is `'active'`. */
  lemma PreparedWf(c: Config, isGM: bool, columns: int, rows: int)
    requires ConfigWf(c)
    ensures var p := Prepared(c, isGM, columns, rows);
      && p.grids.keys == UserViewableGrids(c, isGM).keys
      && ConfigWf(p.data)
      && forall k :: k in UserViewableGrids(c, isGM).vals ==>
           (p.data.grids.vals[k].cssClass == Some("active") <==> p.activeTab == Some(k))
  {
    var viewable := UserViewableGrids(c, isGM);
    var p := Prepared(c, isGM, columns, rows);
    var kept := KeptKeys(viewable.vals, viewable.keys);
    HydratedTabs(c, isGM, columns, rows);
    KeptKeysOwnIds(viewable.vals, viewable.keys);
    MarkTabsKeepsWf(c, kept, p.activeTab);
    MarkTabsResult(c.grids, kept, p.activeTab);
  }

  /** The document kinds a drop accepts. */
  predicate Droppable(kind: EntryType) {
    kind in {JournalEntry, JournalEntryPage, RollTable, Item, Actor}
  }

  /** The uuid a drop refers to: compendium documents are prefixed by their pack. */
  function DroppedUuid(pack: Option<string>, uuid: string): string {
    if pack.Some? && pack.value != "" then "Compendium." + pack.value + "." + uuid else uuid
  }

  /** The entry `_onDrop` builds for a document dropped on cell (x, y). */
  function DroppedEntry(x: int, y: int, uuid: string, kind: EntryType, isDndNpc: bool): (e: Entry)
    ensures e.entryId == EntryId(e.x, e.y)
    ensures e.spanRows.None? && e.spanCols.None? && e.imagePath.None?
  {
    Entry(x, y, None, None, Some(uuid), Some(kind), EntryId(x, y), Some(isDndNpc), Some(false), None)
  }

  class GmScreen {
    var data: Config
    var apps: map<string, Viewer>
    /** The tab a player is on (`currentTab`). */
    var currentTab: string
    /** The tab the tab group shows (`tabGroups['gm-screen']`). */
    var activeTab: Option<string>
    var expanded: bool
    const isGM: bool
    const columns: int
    const rows: int
    const store: SettingsStore

    /** The screen reads its configuration, columns and rows from the store. */
    constructor (store: SettingsStore, isGM: bool)
      requires store.gmScreenConfig.Current?
      ensures data == store.gmScreenConfig.config && apps == map[] && currentTab == data.activeGridId
      ensures activeTab.None? && !expanded
      ensures this.isGM == isGM && columns == store.columns && rows == store.rows && this.store == store
    {
      this.store := store;
      this.isGM := isGM;
      data := store.gmScreenConfig.config;
      apps := map[];
      currentTab := store.gmScreenConfig.config.activeGridId;
      activeTab := None;
      expanded := false;
      columns := store.columns;
      rows := store.rows;
    }

    /** `activeGrid`: the grid under the active id, if there is one. */
    function ActiveGrid(): Option<Grid>
      reads this
    {
      GridLookup(data.grids, data.activeGridId)
    }

    /** `setGridData`: writes a copy of `data` with the grid stored under its id. */
    method SetGridData(g: Grid)
      modifies store
      ensures store.gmScreenConfig == Current(WithGrid(data, g))
      ensures store.writes == old(store.writes) + [GmScreenConfigKey]
      ensures store.migrated == old(store.migrated) && store.rows == old(store.rows) && store.columns == old(store.columns)
    {
      store.SetConfig(Current(WithGrid(data, g)));
    }

    /** `addEntryToActiveGrid`: merges the entry into the active grid's
      entries; without an active grid the read throws and nothing is written. */
    method AddEntryToActiveGrid(e: Entry)
      modifies store
      ensures var w := EntryAdded(data, e);
        if w.Some? then
          store.gmScreenConfig == Current(w.value) && store.writes == old(store.writes) + [GmScreenConfigKey]
        else unchanged(store)
      ensures store.migrated == old(store.migrated) && store.rows == old(store.rows) && store.columns == old(store.columns)
      ensures ConfigWf(data) && e.entryId == EntryId(e.x, e.y) && store.writes != old(store.writes) ==>
        ConfigWf(store.gmScreenConfig.config)
    {
      var active := ActiveGrid();
      if active.None? {
        return;
      }
      var g := active.value;
      if ConfigWf(data) && e.entryId == EntryId(e.x, e.y) {
        EntryAddedWf(data, e);
      }
      SetGridData(g.(entries := AddEntry(g.entries, e)));
    }

    /** `removeEntryFromActiveGrid`: clears the entry and, for a given cell
      element id, closes and drops the viewer cached under `#id`. Without an
      active grid or without the entry nothing happens. */
    method RemoveEntryFromActiveGrid(entryId: string, gridCellId: Option<string>)
      modifies this`apps, store
      ensures var w := EntryCleared(data, entryId);
        if w.Some? then
          && store.gmScreenConfig == Current(w.value)
          && store.writes == old(store.writes) + [GmScreenConfigKey]
          && apps == (if gridCellId.Some? && gridCellId.value != "" then old(apps) - {"#" + gridCellId.value} else old(apps))
        else unchanged(store) && apps == old(apps)
      ensures store.migrated == old(store.migrated) && store.rows == old(store.rows) && store.columns == old(store.columns)
      ensures ConfigWf(data) && store.writes != old(store.writes) ==> ConfigWf(store.gmScreenConfig.config)
    {
      var active := ActiveGrid();
      if active.None? {
        return;
      }
      var g := active.value;
      var cleared := ClearCell(g.entries, entryId);
      if cleared.None? {
        return;
      }
      if gridCellId.Some? && gridCellId.value != "" {
        apps := apps - {"#" + gridCellId.value};
      }
      if ConfigWf(data) {
        EntryClearedWf(data, entryId);
      }
      SetGridData(g.(entries := cleared.value));
    }

    /** `handleClear`: once confirmed, forgets every cached viewer and writes
      the active grid with no entries. */
    method HandleClear(proceed: bool)
      modifies this`apps, store
      ensures !proceed ==> unchanged(store) && apps == old(apps)
      ensures proceed ==> apps == map[]
      ensures proceed && ActiveGrid().Some? ==>
        var g := ActiveGrid().value;
        store.gmScreenConfig == Current(WithGrid(data, g.(entries := Empty())))
        && store.writes == old(store.writes) + [GmScreenConfigKey]
      ensures ActiveGrid().None? ==> unchanged(store)
      ensures store.migrated == old(store.migrated) && store.rows == old(store.rows) && store.columns == old(store.columns)
      ensures ConfigWf(data) && store.writes != old(store.writes) ==> ConfigWf(store.gmScreenConfig.config)
    {
      if !proceed {
        return;
      }
      apps := map[];
      var active := ActiveGrid();
      if active.None? {
        return;
      }
      var g := active.value;
      if ConfigWf(data) {
        WithGridWf(data, g.(entries := Empty()));
      }
      SetGridData(g.(entries := Empty()));
    }

    /** The `configureCell` action on the cell element at (x, y) holding
      `entryId` (None when the element carries none), with the dialog closed
      by `choice`: the cell takes the chosen spans and every other entry
      anchored inside its new rectangle is deleted. Nothing is written when
      there is no active grid, the dialog is cancelled or the spans cannot
      size an array. */
    method ConfigureCell(entryId: Option<string>, x: int, y: int, choice: DialogChoice)
      modifies store
      ensures var w := ConfiguredConfig(data, entryId, x, y, choice);
        if w.Some? then
          store.gmScreenConfig == Current(w.value) && store.writes == old(store.writes) + [GmScreenConfigKey]
        else unchanged(store)
      ensures store.migrated == old(store.migrated) && store.rows == old(store.rows) && store.columns == old(store.columns)
      ensures ConfigWf(data) && store.writes != old(store.writes) ==> ConfigWf(store.gmScreenConfig.config)
    {
      var active := ActiveGrid();
      if active.None? {
        return;
      }
      var g := active.value;
      var spans := DialogOutcome(choice);
      if spans.None? {
        return;
      }
      var s := spans.value;
      if !ProblemArraysOk(s) {
        return;
      }
      var newEntries := ResizeEntries(g.entries, entryId, x, y, s);
      if ConfigWf(data) {
        ConfiguredConfigWf(data, entryId, x, y, choice);
      }
      SetGridData(g.(entries := newEntries));
    }

    /** The `statBlock` action: flips `isDndNpcStatBlock` of the entry (an
      absent flag counts as false). The entry object is shared with `data`,
      so `data` sees the flip too. Nothing happens without a cell element id,
      an active grid or the entry. */
    method ToggleStatBlock(entryId: string, gridCellId: Option<string>)
      modifies this`data, store
      ensures var g := old(ActiveGrid());
        if gridCellId.Some? && gridCellId.value != "" && g.Some? && Has(g.value.entries, entryId) then
          var e := g.value.entries.vals[entryId];
          var flipped := g.value.(entries := Put(g.value.entries, entryId, e.(isDndNpcStatBlock := Some(!e.isDndNpcStatBlock.GetOr(false)))));
          && data == old(data).(grids := Put(old(data).grids, old(data).activeGridId, flipped))
          && store.gmScreenConfig == Current(WithGrid(data, flipped))
          && store.writes == old(store.writes) + [GmScreenConfigKey]
        else unchanged(store) && data == old(data)
      ensures store.migrated == old(store.migrated) && store.rows == old(store.rows) && store.columns == old(store.columns)
    {
      if gridCellId.None? || gridCellId.value == "" {
        return;
      }
      var active := ActiveGrid();
      if active.None? || !Has(active.value.entries, entryId) {
        return;
      }
      var g := active.value;
      var e := g.entries.vals[entryId];
      var flipped := g.(entries := Put(g.entries, entryId, e.(isDndNpcStatBlock := Some(!e.isDndNpcStatBlock.GetOr(false)))));
      data := data.(grids := Put(data.grids, data.activeGridId, flipped));
      SetGridData(flipped);
    }

    /** `switchTab`: with more than one viewable grid, moves to the next tab
      after the active grid (for a GM) or the current tab (for a player); a
      GM also writes the new active grid id. */
    method SwitchTab()
      modifies this`currentTab, this`activeTab, store
      ensures var tabs := UserViewableGrids(data, isGM).keys;
        var next := NextTab(tabs, if isGM then data.activeGridId else old(currentTab));
        if next.None? then
          unchanged(store) && currentTab == old(currentTab) && activeTab == old(activeTab)
        else
          && currentTab == next.value && activeTab == next
          && (isGM ==> store.gmScreenConfig == Current(data.(activeGridId := next.value))
                       && store.writes == old(store.writes) + [GmScreenConfigKey])
          && (!isGM ==> unchanged(store))
      ensures store.migrated == old(store.migrated) && store.rows == old(store.rows) && store.columns == old(store.columns)
    {
      var tabs := UserViewableGrids(data, isGM).keys;
      if |tabs| <= 1 {
        return;
      }
      var next := NextTab(tabs, if isGM then data.activeGridId else currentTab).value;
      activeTab := Some(next);
      currentTab := next;
      if !isGM {
        return;
      }
      store.SetConfig(Current(data.(activeGridId := next)));
    }

    /** The `tab` click on the tab `tab` (None when the button carries none):
      a player only moves; a GM clicking another tab writes it as active. */
    method ClickTab(tab: Option<string>)
      modifies this`currentTab, store
      ensures currentTab == tab.GetOr(old(currentTab))
      ensures if isGM && tab.Some? && tab.value != "" && tab.value != data.activeGridId then
          store.gmScreenConfig == Current(data.(activeGridId := tab.value))
          && store.writes == old(store.writes) + [GmScreenConfigKey]
        else unchanged(store)
      ensures store.migrated == old(store.migrated) && store.rows == old(store.rows) && store.columns == old(store.columns)
    {
      currentTab := tab.GetOr(currentTab);
      if !isGM || tab == Some(data.activeGridId) || tab.None? || tab.value == "" {
        return;
      }
      store.SetConfig(Current(data.(activeGridId := tab.value)));
    }

    /** `refresh` with the value now stored: adopts it, and says whether the
      screen is rendered again. */
    method Refresh(newData: Config) returns (render: bool)
      modifies this`data
      ensures data == newData && render == Rerenders(old(data), newData, isGM)
    {
      var oldData := data;
      var diff := Diff(oldData, newData);
      data := newData;
      var mine := UserViewableGrids(data, isGM).keys;
      var mineBefore := UserViewableGrids(oldData, isGM).keys;
      render := RerenderDecision(diff, mine, mineBefore);
    }

    /** `getHydratedGrids`: each viewable grid with its entries filled out
      by blank cells, keyed by grid id; one per viewable grid, in order,
      when every grid is stored under its own id. */
    method GetHydratedGrids() returns (grids: OMap<HydratedGrid>)
      ensures grids == HydrateAll(Values(UserViewableGrids(data, isGM)), columns, rows)
      ensures ConfigWf(data) ==> grids.keys == UserViewableGrids(data, isGM).keys
    {
      grids := HydrateAll(Values(UserViewableGrids(data, isGM)), columns, rows);
      if ConfigWf(data) {
        HydratedTabs(data, isGM, columns, rows);
      }
    }

    /** The tab part of `_prepareContext`: hydrates the viewable grids, selects
      the active tab, and marks the grids' `cssClass`, which is written
      through to `data` because the hydrated grids are `data`'s own objects. */
    method PrepareContext() returns (grids: OMap<HydratedGrid>)
      modifies this`data, this`activeTab
      ensures var p := Prepared(old(data), isGM, columns, rows);
        grids == p.grids && activeTab == p.activeTab && data == p.data
      ensures ConfigWf(old(data)) ==> grids.keys == UserViewableGrids(old(data), isGM).keys && ConfigWf(data)
    {
      var p := Prepared(data, isGM, columns, rows);
      if ConfigWf(data) {
        PreparedWf(data, isGM, columns, rows);
      }
      grids := p.grids;
      activeTab := p.activeTab;
      data := p.data;
    }

    /** `getCellApplicationClass` for the cell `cellId` showing `entityUuid`,
      with `doc` what the uuid resolved to. */
    method GetCellApplication(cellId: string, entityUuid: string, doc: Option<ResolvedDoc>, dndNpc: bool, dndNpcStatBlock: bool)
      returns (outcome: Outcome)
      modifies this`apps
      ensures var step := CellViewer(old(apps), cellId, entityUuid, doc, dndNpc, dndNpcStatBlock);
        apps == step.apps && outcome == step.outcome
    {
      if doc.None? {
        apps := apps - {cellId};
        return NoViewer;
      }
      var d := doc.value;
      if cellId in apps && apps[cellId].uuid != entityUuid {
        apps := apps - {cellId};
      }
      if cellId in apps && Some(apps[cellId].className) != d.sheetClass {
        apps := apps - {cellId};
      }
      if cellId in apps && (!dndNpc || Contains(apps[cellId].appId, ActorIdPrefix(dndNpcStatBlock))) {
        return Reused(apps[cellId]);
      }
      if d.sheetClass.None? {
        return NoViewer;
      }
      var v := NewViewer(d, d.sheetClass.value, dndNpcStatBlock);
      apps := apps[cellId := v];
      return Created(v);
    }

    /** `_onDrop` of a document of kind `kind` from `pack` on cell (x, y): a GM
      dropping a journal entry, page, roll table, item or actor adds a fresh
      entry for it; the spans already stored at that cell are kept. */
    method OnDrop(kind: EntryType, pack: Option<string>, uuid: string, x: int, y: int, isDndNpc: bool)
      modifies store
      ensures if isGM && Droppable(kind) && ActiveGrid().Some? then
          var g := ActiveGrid().value;
          var e := DroppedEntry(x, y, DroppedUuid(pack, uuid), kind, isDndNpc);
          store.gmScreenConfig == Current(WithGrid(data, g.(entries := AddEntry(g.entries, e))))
          && store.writes == old(store.writes) + [GmScreenConfigKey]
        else unchanged(store)
      ensures store.migrated == old(store.migrated) && store.rows == old(store.rows) && store.columns == old(store.columns)
      ensures ConfigWf(data) && store.writes != old(store.writes) ==> ConfigWf(store.gmScreenConfig.config)
    {
      if !isGM || !Droppable(kind) {
        return;
      }
      var e := DroppedEntry(x, y, DroppedUuid(pack, uuid), kind, isDndNpc);
      AddEntryToActiveGrid(e);
    }
  }
}
