# GM Screen layout model

GM Screen is a Foundry VTT module. It gives the game master a drawer, or a
window, of tabbed grids. Each grid cell can show a journal entry, a journal
page, a roll table, an item or an actor. The module stores the whole layout in
one world setting, `gm-screen-config`:

- an object of grids keyed by grid id, and the id of the active grid;
- each grid holds an `entries` object keyed by the cell id `${x}-${y}` of the
  cell's anchor column and row;
- each entry may span several columns and rows.

This project models the bookkeeping under the module's DOM glue. Every
operation reads the stored value, builds a new one, and writes it back with
`settings.set`. The operations modelled are:

- the entry-map operations of the screen: counting occupied cells, filling a
  grid out with blank cells, adding an entry, clearing a cell, resizing a cell
  (which evicts the entries it now covers), and clearing a grid;
- tab cycling and active-tab selection;
- the rule `refresh` uses to decide whether to render again after the
  setting changed;
- the per-cell viewer cache of `getCellApplicationClass`;
- the grid configuration form's submit handler and the default value;
- grid visibility by role, the bounds the cell dialog offers, and the
  pixel-to-cell index arithmetic;
- the one-off schema migration from the single-grid shape.

## Layout of the project

| file | contents |
|---|---|
| `basics.dfy` | `Option`, `Result`, `IndexOf` (JavaScript `indexOf`), two sequence lemmas |
| `ordered_maps.dfy` | a JavaScript object as an ordered association (`OMap`): its key order is the insertion order, assigning an existing key keeps its place, and `delete` drops a key |
| `cell_ids.dfy` | `String(n)` for integers and the cell id `${x}-${y}`, with its injectivity |
| `grid_types.dfy` | entries, grids, the configuration and the legacy shape; well-formedness (every entry under its own canonical id, every grid under its own id) |
| `host_settings.dfy` | the settings store as a class: the stored values, and a log of every `settings.set` |
| `helpers.dfy` | `getUserViewableGrids`, the cell dialog, `getGridElementsPosition`'s arithmetic |
| `tabs.dfy` | `switchTab`'s successor, tab selection and `cssClass` marking of `_prepareContext` |
| `screen_layout.dfy` | the entry-map operations and the eviction loop |
| `screen_refresh.dfy` | `diffObject` on this shape and the re-render rule of `refresh` |
| `screen_cache.dfy` | the viewer cache rule |
| `screen_application.dfy` | the `GmScreen` class: its fields `data`, `apps`, `currentTab` and the tab group's active tab, and its actions |
| `screen_settings.dfy` | `defaultGmScreenConfig` and `#onSubmit` |
| `migration.dfy` | `gmScreenMigrate` |

The store and the screen are classes because the source updates them in
place. The entry-map and grid operations are functions over values because
the source builds them with spreads and `reduce`. The eviction `forEach` is a
method with a loop proved against the function `ResizeCell`.

## Model

| member | source | states |
|---|---|---|
| ScreenLayout.OccupiedOfUnitSpans | src/module/classes/GmScreenApplication.ts:186-191 | an empty grid occupies 0 cells; when no entry has a truthy span (absent or 0 counts as 1), the count is the number of entries |
| ScreenLayout.OccupiedAfterPut | src/module/classes/GmScreenApplication.ts:186-191 | assigning an entry under a key changes the occupied count by the new footprint `(spanCols‖1)×(spanRows‖1)` minus the old one's |
| ScreenLayout.OccupiedAfterRemove | src/module/classes/GmScreenApplication.ts:186-191 | deleting a key lowers the occupied count by exactly that entry's footprint |
| ScreenLayout.HydrateEntries | src/module/classes/GmScreenApplication.ts:1142-1151 | a filled-out grid lists every stored entry in key order, then exactly `max(0, capacity − occupied)` blank cells, capacity taking the grid's overrides before the global size |
| ScreenLayout.HydratedCoverage | src/module/classes/GmScreenApplication.ts:1142-1151 | the filled-out cells cover exactly the capacity when the entries fit, and exactly the occupied count otherwise |
| ScreenLayout.HydrateAllDistinct | src/module/classes/GmScreenApplication.ts:1139-1155 | grids with distinct ids are hydrated in order, one per grid, each under its id with its own filled-out entries |
| ScreenLayout.AddEntryResult | src/module/classes/GmScreenApplication.ts:217-228 | after adding, the entry at `entryId` has the new coordinates and id, every optional property the new entry carries, and the old entry's value for each one it leaves out; a new id is appended in key order and an old one keeps its place; no other entry changes |
| ScreenLayout.AddEntryIdempotent | src/module/classes/GmScreenApplication.ts:217-228 | adding the same entry twice gives the same object as adding it once |
| ScreenLayout.AddEntryKeepsWf | src/module/classes/GmScreenApplication.ts:217-228 | adding an entry whose id is `${x}-${y}` keeps every entry under its own canonical id |
| ScreenLayout.ClearCellResult | src/module/classes/GmScreenApplication.ts:245-260 | clearing fails exactly when there is no such entry; an entry with a truthy span keeps its key, place, coordinates, spans, id and image but loses uuid, type and both NPC flags, and the occupied count stays; any other entry is deleted and the count drops by one; no other entry changes |
| ScreenLayout.ClearCellKeepsWf | src/module/classes/GmScreenApplication.ts:245-260 | clearing keeps the entries object well formed |
| ScreenLayout.ClearCellTwice | src/module/classes/GmScreenApplication.ts:245-260 | clearing a spanned cell twice is clearing it once; clearing an unspanned cell a second time finds nothing |
| ScreenLayout.ProblemIdsOfCell | src/module/classes/GmScreenApplication.ts:431-442 | a cell id `${cx}-${cy}` is among the problem coordinates exactly when (cx, cy) lies in the rectangle `[x, x+spanCols) × [y, y+spanRows)` |
| ScreenLayout.ConfigureTarget | src/module/classes/GmScreenApplication.ts:402-406 | the configured cell is the stored entry under the element's entry id, or a fresh `{x, y, entryId: "x-y"}` when there is none |
| ScreenLayout.EvictOverlaps | src/module/classes/GmScreenApplication.ts:449-453 | the loop over a snapshot of the values deletes exactly the ids of the entries that are problem ids and not the resized cell's |
| ScreenLayout.ResizeCellResult | src/module/classes/GmScreenApplication.ts:420-453 | resizing fails exactly when a span cannot size an array; otherwise the cell holds the new spans under its id, no other entry is anchored in its new rectangle, every entry anchored outside it is kept unchanged (even one whose own span reaches in), no other key appears and no other value changes, the keys keep their order less the evicted ones, and the object stays well formed |
| ScreenLayout.ResizeEntries | src/module/classes/GmScreenApplication.ts:420-453 | the imperative resize (assignment, then the eviction loop) computes the object `ResizeCell` describes |
| CellIds.EntryIdInjective | src/module/classes/GmScreenApplication.ts:431-439 | `${a}-${b}` equals `${c}-${d}` only when a = c and b = d, so a cell id names one cell |
| Helpers.UserViewableGrids | src/module/helpers.ts:163-177 | a GM sees the grids object itself; a player sees exactly the shared grids with their values unchanged, a sub-map of the grids |
| Helpers.VisibleIdsOfPlayer | src/module/helpers.ts:168-176 | a grid is visible to players exactly when it is shared, and players see a subset of what the GM sees |
| Helpers.CellConfigDialog | src/module/helpers.ts:49-60 | both inputs have minimum 1; the largest offered spans reach exactly the last row and the last column; the initial value is at least 1 unless the stored span is negative |
| Helpers.DialogOutcome | src/module/helpers.ts:63-103 | Cancel rejects, Default resolves to spans (1, 1), Submit resolves to the numbers read |
| Helpers.OfferedSpansStayInGrid | src/module/helpers.ts:52-60 | for an anchor inside the grid the offered range is non-empty, and every cell covered by a span the dialog can return lies inside the grid |
| Helpers.FloorDiv | src/module/helpers.ts:140-142 | `Math.floor(a / b)` over integers: the quotient rounded down for either sign of `b`, and no number for `b = 0` |
| Helpers.TrackIndexExact | src/module/helpers.ts:140-142 | with a positive pitch `track + gap`, the index is `c` exactly when the leading edge lies in `[start + (c−1)·pitch − gap, start + c·pitch − gap)` |
| Helpers.TrackIndexOfTrackStart | src/module/helpers.ts:124-142 | for a positive track and a non-negative gap, an element whose edge sits in track `c` (or in the gap before it) gets index `c` |
| Tabs.NextTab | src/module/classes/GmScreenApplication.ts:560-568 | with at most one tab there is no move; otherwise the next tab is a tab, and a current id that is not a tab (index −1) leads to the first |
| Tabs.NextTabSuccessor | src/module/classes/GmScreenApplication.ts:566-568 | from tab i the next tab is tab i+1, from the last it is the first, and the tab always changes |
| Tabs.FullCycle | src/module/classes/GmScreenApplication.ts:559-588 | pressing the switch key once per tab visits the following tabs in order and returns to the starting tab |
| Tabs.SelectTab | src/module/classes/GmScreenApplication.ts:1170-1171 | the tab group shows the active grid when it has a tab, otherwise the first tab, and nothing only when there are no tabs |
| Tabs.MarkTabsResult | src/module/classes/GmScreenApplication.ts:1172-1174 | marking changes nothing but `cssClass`, leaves the grids the hydrated object does not hold alone, and a marked grid is `'active'` exactly when the selected tab equals its `id` |
| Tabs.KeptKeysOwnIds | src/module/classes/GmScreenApplication.ts:1139-1154 | when every key holds a grid with that key as its id, the hydrated object keeps every key's grid |
| Tabs.MarkTabsKeepsWf | src/module/classes/GmScreenApplication.ts:1172-1174 | marking keeps the configuration well formed |
| ScreenRefresh.RerendersSameConfig | src/module/classes/GmScreenApplication.ts:637-646 | an unchanged value gives an empty diff, and an empty diff renders again |
| ScreenRefresh.NoRerenderForActiveGridOnly | src/module/classes/GmScreenApplication.ts:640-646 | a value that differs only in `activeGridId` is not rendered again |
| ScreenRefresh.CssClassOnly | src/module/classes/GmScreenApplication.ts:640-646 | when grids change at most in `cssClass`, the screen renders again exactly when the diff is empty |
| ScreenRefresh.DecisionCharacterised | src/module/classes/GmScreenApplication.ts:648-679 | past the first two checks, the decision is to render exactly when some changed grid is viewable now or the set of viewable grid ids differs from before |
| ScreenRefresh.RerendersCharacterised | src/module/classes/GmScreenApplication.ts:626-679 | the same rule stated on the old and new values themselves, with `diffObject` as modelled |
| ScreenRefresh.RerendersAfterAddingVisibleEntry | src/module/classes/GmScreenApplication.ts:648-679 | adding an entry under a new id to a grid the viewer can see always renders again |
| ScreenRefresh.PlayerIgnoresHiddenChanges | src/module/classes/GmScreenApplication.ts:648-679 | for a player, changes confined to grids that stay private render again only when the diff is empty |
| ScreenCache.NewViewer | src/module/classes/GmScreenApplication.ts:862-1067 | a new viewer shows the document's uuid; journal entries, non-text pages and roll tables get the module's compact classes, everything else the document's sheet class; an actor viewer's id carries the NPC or actor prefix |
| ScreenCache.CellViewerLocal | src/module/classes/GmScreenApplication.ts:812-1070 | a lookup changes only the looked-up cell's cache entry |
| ScreenCache.CellViewerMissingDocument | src/module/classes/GmScreenApplication.ts:812-819 | a uuid that resolves to nothing drops the cell's viewer and gives none |
| ScreenCache.CellViewerReuse | src/module/classes/GmScreenApplication.ts:821-860 | the cached viewer is reused exactly when it shows the cell's uuid, has the sheet's class name and, for a NPC, matches the stat-block setting; reuse leaves the cache as it was; no viewer exactly when there is no sheet class; whatever the cell gets is what the cache then holds |
| ScreenCache.SecondLookup | src/module/classes/GmScreenApplication.ts:830-847 | on a second lookup of the same document, a compact viewer is never reused (its class is never the sheet's class); a viewer built from the sheet class is reused |
| ScreenSettings.DefaultConfig | src/module/classes/GmScreenSettings.ts:5-16 | one grid `default` named `Main`, not shared, with no entries and css class `active`, which is the active grid; the value is well formed |
| ScreenSettings.Patched | src/module/classes/GmScreenSettings.ts:384-387 | a stored grid keeps its entries, id and css class and takes each property the form row carries |
| ScreenSettings.FoldGridsDistinct | src/module/classes/GmScreenSettings.ts:377-402 | over distinct form ids the new grids object lists exactly those ids in order, each with its submitted grid |
| ScreenSettings.SubmittedConfigResult | src/module/classes/GmScreenSettings.ts:372-413 | an empty form is rejected; otherwise the grids are exactly the form's rows in order; stored grids are patched and new ones start with no entries, their row id, name `''` and not shared unless the row says otherwise; the active grid is kept when its row remains, otherwise it is the first row |
| ScreenSettings.SubmittedConfigWf | src/module/classes/GmScreenSettings.ts:379-413 | submitting keeps a well-formed configuration well formed |
| ScreenSettings.SubmitTwice | src/module/classes/GmScreenSettings.ts:362-419 | submitting the same form again writes the same value |
| ScreenSettings.OnSubmit | src/module/classes/GmScreenSettings.ts:362-419 | the handler writes the submitted value once, or on an error writes nothing |
| Migration.MigrateSkips | src/module/migration.ts:13-26 | a non-GM user, or a flag that passes the gate (`status` and either a newer module or version `2.0.1`), leaves everything as it was |
| Migration.MigrateRuns | src/module/migration.ts:28-68 | past the gate the flag `{status: true, version: '2.0.1'}` is written last; the configuration is written first exactly when it has the legacy shape, and is then a well-formed current value |
| Migration.MigrateOnce | src/module/migration.ts:19-68 | running the migration twice is running it once |
| Migration.MigrateRanSettles | src/module/migration.ts:19-68 | after a run passes the gate, no later run changes anything, whatever the user and the module version |
| Migration.ConvertLegacyEntriesKeys | src/module/migration.ts:34-43 | the converted object has a key for exactly the coordinates some legacy entry has |
| Migration.ConvertLegacyEntriesLast | src/module/migration.ts:34-43 | under each key is the last legacy entry at those coordinates, with its other fields kept and `entryId` set to the key |
| Migration.ConvertLegacyEntriesOrder | src/module/migration.ts:34-43 | entries at distinct coordinates keep their array order |
| Migration.ConvertLegacyEntriesWf | src/module/migration.ts:34-43 | every converted entry is keyed by its own `${x}-${y}` id |
| Migration.ConvertExample | src/module/migration.ts:35-40 | a legacy entry at (1, 1) is stored under `1-1` with id `1-1` |
| Migration.MigratedConfig | src/module/migration.ts:45-57 | the output has active grid `default` and one grid `default` named `Main`, not shared, css class `active`, holding the converted entries and the legacy overrides; it is well formed |
| Migration.GmScreenMigrate | src/module/migration.ts:12-69 | the imperative migration leaves the store as `Migrate` describes |
| ScreenApplication.WithGrid | src/module/classes/GmScreenApplication.ts:197-210 | `setGridData`'s value holds the grid under its id, keeps every other grid and the active id, and adds no other key |
| ScreenApplication.WithGridWf | src/module/classes/GmScreenApplication.ts:197-210 | storing a grid with well-formed entries under its own id keeps the configuration well formed |
| ScreenApplication.EntryAdded | src/module/classes/GmScreenApplication.ts:217-237 | adding writes a value exactly when there is an active grid, and keeps the active id |
| ScreenApplication.EntryAddedWf | src/module/classes/GmScreenApplication.ts:217-237 | adding a canonical entry keeps the configuration well formed |
| ScreenApplication.EntryCleared | src/module/classes/GmScreenApplication.ts:244-273 | clearing writes a value exactly when the active grid has the entry, and keeps the active id |
| ScreenApplication.EntryClearedWf | src/module/classes/GmScreenApplication.ts:244-273 | clearing keeps the configuration well formed |
| ScreenApplication.ConfiguredConfig | src/module/classes/GmScreenApplication.ts:398-467 | configuring writes a value exactly when there is an active grid, the dialog is not cancelled and the spans can size the arrays |
| ScreenApplication.ConfiguredConfigWf | src/module/classes/GmScreenApplication.ts:398-467 | configuring keeps the configuration well formed |
| ScreenApplication.HydratedTabs | src/module/classes/GmScreenApplication.ts:1134-1156 | for a well-formed configuration there is one hydrated grid per viewable grid, in their order |
| ScreenApplication.Prepared | src/module/classes/GmScreenApplication.ts:1168-1174 | the tab group shows the tab `SelectTab` picks among the hydrated grid ids; the marked hydrated object keeps the hydration's keys; the stored value keeps its grids' keys and the active id |
| ScreenApplication.PreparedMarksShared | src/module/classes/GmScreenApplication.ts:1139-1174 | each stored grid the hydrated object holds (the last key with that id) is the same grid as the one hydrated under its id, carrying the same mark, and it is `'active'` exactly when the shown tab is its `id` |
| ScreenApplication.MarkedUnderOtherKey | src/module/classes/GmScreenApplication.ts:1168-1174 | a grid with id `b` stored under key `a` appears as tab `b`, that tab is shown, and the stored grid under `a` is marked `'active'` |
| ScreenApplication.MarkedLastOfSharedId | src/module/classes/GmScreenApplication.ts:1139-1174 | of two grids sharing id `b`, the hydrated object keeps the later, which is marked `'active'`; the earlier is left untouched |
| ScreenApplication.PreparedWf | src/module/classes/GmScreenApplication.ts:1168-1174 | for a well-formed configuration: one tab per viewable grid, the marked value stays well formed, and among viewable grids exactly the shown tab's grid is `'active'` |
| ScreenApplication.DroppedEntry | src/module/classes/GmScreenApplication.ts:1234-1251 | a dropped document becomes an entry under its own canonical cell id, with no spans and no image |
| ScreenApplication.GmScreen.SetGridData | src/module/classes/GmScreenApplication.ts:197-210 | writes the configuration with the grid under its id, one write, nothing else in the store changes |
| ScreenApplication.GmScreen.AddEntryToActiveGrid | src/module/classes/GmScreenApplication.ts:217-238 | writes `EntryAdded`'s value once, or nothing without an active grid; keeps well-formedness |
| ScreenApplication.GmScreen.RemoveEntryFromActiveGrid | src/module/classes/GmScreenApplication.ts:244-274 | writes `EntryCleared`'s value once and drops the cached viewer `#gridCellId`, or changes nothing without the entry; keeps well-formedness |
| ScreenApplication.GmScreen.HandleClear | src/module/classes/GmScreenApplication.ts:310-325 | once confirmed, empties the viewer cache and writes the active grid with no entries; keeps well-formedness |
| ScreenApplication.GmScreen.ConfigureCell | src/module/classes/GmScreenApplication.ts:398-467 | writes `ConfiguredConfig`'s value once, or nothing; keeps well-formedness |
| ScreenApplication.GmScreen.ToggleStatBlock | src/module/classes/GmScreenApplication.ts:539-554 | with a cell element id and the entry present, flips `isDndNpcStatBlock` both in `data` (the object is shared) and in the written value |
| ScreenApplication.GmScreen.SwitchTab | src/module/classes/GmScreenApplication.ts:559-588 | with more than one viewable grid, moves the current and shown tab to `NextTab` of the GM's active grid or the player's current tab; only a GM writes the new active id |
| ScreenApplication.GmScreen.ClickTab | src/module/classes/GmScreenApplication.ts:509-530 | the current tab becomes the clicked tab; a GM clicking a tab other than the active one writes it as active |
| ScreenApplication.GmScreen.Refresh | src/module/classes/GmScreenApplication.ts:626-687 | adopts the new value and renders again exactly when `Rerenders` says so |
| ScreenApplication.GmScreen.GetHydratedGrids | src/module/classes/GmScreenApplication.ts:1134-1156 | returns the hydrated viewable grids, one per viewable grid when the value is well formed |
| ScreenApplication.GmScreen.PrepareContext | src/module/classes/GmScreenApplication.ts:1168-1174 | returns the marked hydrated grids, sets the shown tab, and writes each mark through to the stored grid the hydrated object holds (the last key with that id), as `Prepared` describes; for a well-formed value the result has one tab per viewable grid and stays well formed |
| ScreenApplication.GmScreen.GetCellApplication | src/module/classes/GmScreenApplication.ts:804-1071 | updates the viewer cache and returns the outcome `CellViewer` describes |
| ScreenApplication.GmScreen.OnDrop | src/module/classes/GmScreenApplication.ts:1208-1254 | a GM dropping an accepted kind adds the dropped entry to the active grid; anything else writes nothing |

## Left out

- DOM and jQuery work is not modelled: cell-content injection, the render overrides, CSS variables, and the drawer's visibility and z-order (`toggleGmScreenVisibility`, `bringToFront`).
- Tab and row drag reordering (`_dragStartTab`, `_dragOverTab`, `_dragEndTab`) is not modelled. It rebuilds the grids object from the order of DOM nodes.
- Browser geometry is not modelled. `Helpers.GridElementsPosition` takes the bounding rectangles, the row gap and the first track sizes as integers; reading computed styles and the floating-point pixel values is not modelled.
- `Helpers.GridElementsPosition`: an element outside any grid container makes the source throw (`getComputedStyle(undefined)`); the code has no fallback position, and the model, which takes the pixel values as inputs, has no such case.
- NaN is not modelled. A span, an override or a dialog number that is not a number, and any floating-point arithmetic, are left out; all numbers are integers.
- Host utilities are inputs:
  - `isNewerVersion` is the boolean `moduleIsNewer`;
  - `fromUuid` is the resolved document handed to `GetCellApplication`;
  - `diffObject` is modelled only for this configuration shape, as a set of changed grid ids with the changed properties of each.
- `settings.set` is modelled as replacing the stored value and logging the write. Change notification, promises and the ordering of asynchronous steps are not modelled; `Refresh` takes the newly stored value as a parameter.
- `setProperty` is modelled as plain assignment under the grid id. Ids containing `.`, which it would treat as a path, and its failure result are not modelled.
- JavaScript enumerates integer-like keys, such as `"12"`, before other keys. The ordered maps use plain insertion order for every key.
- `ScreenApplication.GmScreen.HandleClear`: without an active grid the source writes a grid under the key `undefined`; the model writes nothing then.
- Without an active grid the source throws a TypeError in `addEntryToActiveGrid`, `removeEntryFromActiveGrid`, `configureCell` and `statBlock`. The model writes nothing in these cases. The same holds for clearing an id with no entry.
- `ScreenApplication.GmScreen.constructor` requires the stored value to have the current shape; the source's constructor would fail on another shape.
- The `clearCell` action's `!entryId` guard and the element lookups of `handleClickEvent` are not modelled; the action receives the entry id and the cell element id.
- The `open`, `refresh` and `toggleGmScreen` click actions are not modelled. They only open sheets or toggle the DOM.
- The `!displayDrawer` close-and-render step of `refresh` is not modelled; `Refresh` returns whether the screen renders again.
- A form field the row leaves empty is modelled as absent (`None`); the expansion `expandObject` does on the form data is not modelled.
- `ScreenApplication.Prepared`: the hydrated object and `data` share grid objects in the source, so one write marks both. The model holds two values and marks each of them; `PreparedMarksShared` proves the marks agree. Object identity itself is not modelled.
- `ScreenSettings.Patched`: because an emptied field is modelled as absent, the stored override is kept. If the form instead sends `null` for an emptied number field, the spread `{...stored, ...grid}` clears the stored override, and the grid goes back to the global size. The model cannot express clearing an override.
- `Migration.MigratedConfig`: the legacy grid's properties other than `entries`, `rowOverride` and `columnOverride` are not carried over, because the legacy shape models only those.
- The sheet-class selection of `getCellApplicationClass` is not modelled: the `instanceof` checks, the constructor calls and the `Compact*Display` classes. A resolved document is a `ScreenCache.ResolvedDoc` that names its branch and its sheet's class.
- The hook registration, Handlebars helpers, window API, build and lint configuration are not part of this model.
