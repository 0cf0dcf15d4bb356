/** The decision `refresh` takes once the settings value has changed: what
    the host's `diffObject(old, new)` reports for this configuration shape,
    and whether the screen is rendered again. */
module ScreenRefresh {
  import opened Basics
  import opened OrderedMaps
  import opened GridTypes
  import opened Helpers
  import opened ScreenLayout

  /** The properties of a grid object. */
  datatype GridField = EntriesField | IdField | NameField | IsSharedField | RowOverrideField | ColumnOverrideField | CssClassField

  // ---------------------------------------------------------------------
  // diffObject on configurations
  //
  // `diffObject(a, b)` walks the keys of `b` only: a property `b` lacks is
  // never reported; one `a` lacks is reported; two objects are compared
  // property by property; a property whose new value is `{}` is reported
  // when the old value was a non-empty object, and one whose old value is
  // `{}` is reported whole.

  /** An optional property is reported when the new object carries it and
      it was absent or different before. */
  predicate OptionChanged<T(==)>(before: Option<T>, after: Option<T>) {
    after.Some? && before != after
  }

  /** The diff of two entry objects is non-empty. */
  predicate EntryChanged(before: Entry, after: Entry) {
    || before.x != after.x || before.y != after.y || before.entryId != after.entryId
    || OptionChanged(before.spanRows, after.spanRows)
    || OptionChanged(before.spanCols, after.spanCols)
    || OptionChanged(before.entityUuid, after.entityUuid)
    || OptionChanged(before.kind, after.kind)
    || OptionChanged(before.isDndNpc, after.isDndNpc)
    || OptionChanged(before.isDndNpcStatBlock, after.isDndNpcStatBlock)
    || OptionChanged(before.imagePath, after.imagePath)
  }

  /** Whether a grid's `entries` property is reported. */
  predicate EntriesChanged(before: OMap<Entry>, after: OMap<Entry>) {
    if |after.keys| == 0 then |before.keys| != 0
    else if |before.keys| == 0 then true
    else exists k :: k in after.vals && (k !in before.vals || EntryChanged(before.vals[k], after.vals[k]))
  }

  /** The properties a grid object carries. */
  function PresentFields(g: Grid): set<GridField> {
    {EntriesField, IdField, NameField, IsSharedField}
    + (if g.rowOverride.Some? then {RowOverrideField} else {})
    + (if g.columnOverride.Some? then {ColumnOverrideField} else {})
    + (if g.cssClass.Some? then {CssClassField} else {})
  }

  /** The keys of the diff reported for one grid: all of them for a grid
      that did not exist before. */
  function GridChanges(before: Option<Grid>, after: Grid): set<GridField> {
    if before.None? then PresentFields(after)
    else
      var b := before.value;
      (if EntriesChanged(b.entries, after.entries) then {EntriesField} else {})
      + (if b.id != after.id then {IdField} else {})
      + (if b.name != after.name then {NameField} else {})
      + (if b.isShared != after.isShared then {IsSharedField} else {})
      + (if OptionChanged(b.rowOverride, after.rowOverride) then {RowOverrideField} else {})
      + (if OptionChanged(b.columnOverride, after.columnOverride) then {ColumnOverrideField} else {})
      + (if OptionChanged(b.cssClass, after.cssClass) then {CssClassField} else {})
  }

  function GridLookup(m: OMap<Grid>, k: string): Option<Grid> {
    if k in m.vals then Some(m.vals[k]) else None
  }

  /** The changed grids of a grids object: each reported grid id with the
      keys reported for it. */
  function GridChangeMap(before: OMap<Grid>, after: OMap<Grid>): map<string, set<GridField>> {
    map k | k in after.vals && GridChanges(GridLookup(before, k), after.vals[k]) != {} ::
      GridChanges(GridLookup(before, k), after.vals[k])
  }

  /** The `grids` property of the diff: absent (None) or the reported grids.
      An emptied grids object is reported as `{}`. */
  function GridsDiff(before: OMap<Grid>, after: OMap<Grid>): Option<map<string, set<GridField>>> {
    if |after.keys| == 0 then (if |before.keys| != 0 then Some(map[]) else None)
    else if GridChangeMap(before, after) == map[] then None
    else Some(GridChangeMap(before, after))
  }

  /** What `diffObject(oldData, newData)` reports: whether `activeGridId`
      is a key, and the `grids` property. */
  datatype ConfigDiff = ConfigDiff(activeGridId: bool, grids: Option<map<string, set<GridField>>>)

  function Diff(before: Config, after: Config): ConfigDiff {
    ConfigDiff(before.activeGridId != after.activeGridId, GridsDiff(before.grids, after.grids))
  }

  predicate DiffEmpty(d: ConfigDiff) {
    !d.activeGridId && d.grids.None?
  }

  /** `Object.keys(diffData).every((key) => key === 'activeGridId')` */
  predicate OnlyActiveGridId(d: ConfigDiff) {
    d.grids.None?
  }

  /** `Object.values(diffData.grids || {}).every((grid) =>
      Object.keys(grid).every((key) => key === 'cssClass'))` */
  predicate OnlyCssClass(d: ConfigDiff) {
    d.grids.None? || forall k :: k in d.grids.value ==> d.grids.value[k] <= {CssClassField}
  }

  // ---------------------------------------------------------------------
  // The re-render rule

  /** No reported grid is among the grids the user sees now. */
  predicate NoChangedGridViewable(changed: map<string, set<GridField>>, mine: seq<string>) {
    forall k :: k in changed ==> k !in mine
  }

  /** `mine.length === before.length && mine.every((id) => before.includes(id))` */
  predicate SameIdList(mine: seq<string>, before: seq<string>) {
    |mine| == |before| && forall k :: k in mine ==> k in before
  }

  /** The decision of `refresh` on diff `d`, given the grid ids the user
      sees with the new value (`mine`) and with the old one: render for an
      empty diff; do not render when only the active grid id or only css
      classes changed; otherwise do not render when no changed grid is
      viewable now and the viewable ids are the same as before. */
  function RerenderDecision(d: ConfigDiff, mine: seq<string>, mineBefore: seq<string>): bool {
    if DiffEmpty(d) then true
    else if OnlyActiveGridId(d) || OnlyCssClass(d) then false
    else !(NoChangedGridViewable(d.grids.value, mine) && SameIdList(mine, mineBefore))
  }

  /** Whether `refresh` renders again after the value changed from `before`
      to `after`. */
  function Rerenders(before: Config, after: Config, isGM: bool): bool {
    RerenderDecision(Diff(before, after), UserViewableGrids(after, isGM).keys, UserViewableGrids(before, isGM).keys)
  }

  /** A grid compared with itself reports nothing. */
  lemma GridUnchanged(g: Grid)
    ensures GridChanges(Some(g), g) == {}
  {
    if |g.entries.keys| != 0 {
      assert !EntriesChanged(g.entries, g.entries);
    }
  }

  /** Nothing is reported for an unchanged value, so it is rendered again. */
  lemma RerendersSameConfig(c: Config, isGM: bool)
    ensures DiffEmpty(Diff(c, c))
    ensures Rerenders(c, c, isGM)
  {
    forall k | k in c.grids.vals ensures GridChanges(GridLookup(c.grids, k), c.grids.vals[k]) == {} {
      GridUnchanged(c.grids.vals[k]);
    }
    assert GridChangeMap(c.grids, c.grids) == map[];
  }

  /** A new value that differs only in `activeGridId` is not rendered. */
  lemma NoRerenderForActiveGridOnly(before: Config, after: Config, isGM: bool)
    requires after.grids == before.grids && after.activeGridId != before.activeGridId
    ensures !Rerenders(before, after, isGM)
  {
    RerendersSameConfig(before, isGM);
  }

  /** A grid that changed at most in `cssClass` reports at most `cssClass`. */
  lemma GridChangesCssOnly(b: Grid, a: Grid)
    requires a.(cssClass := b.cssClass) == b
    ensures GridChanges(Some(b), a) <= {CssClassField}
  {
    GridUnchanged(b);
  }

  /** A new value whose grids differ from the old ones at most in `cssClass`
      is rendered again only when the diff reports nothing at all. */
  lemma CssClassOnly(before: Config, after: Config, isGM: bool)
    requires after.grids.keys == before.grids.keys
    requires forall k :: k in before.grids.vals ==>
      after.grids.vals[k].(cssClass := before.grids.vals[k].cssClass) == before.grids.vals[k]
    ensures Rerenders(before, after, isGM) <==> DiffEmpty(Diff(before, after))
  {
    var m := GridChangeMap(before.grids, after.grids);
    forall k | k in m ensures m[k] <= {CssClassField} {
      GridChangesCssOnly(before.grids.vals[k], after.grids.vals[k]);
    }
    assert OnlyCssClass(Diff(before, after));
  }

  /** When some grid changed in more than `cssClass`, the decision is to
      render exactly when a changed grid is viewable now or the set of
      viewable grid ids changed. */
  lemma DecisionCharacterised(d: ConfigDiff, mine: OMap<Grid>, mineBefore: OMap<Grid>)
    requires d.grids.Some? && !OnlyCssClass(d)
    ensures RerenderDecision(d, mine.keys, mineBefore.keys) <==>
      (exists k :: k in d.grids.value && k in mine.vals) || mineBefore.vals.Keys != mine.vals.Keys
  {
    SameKeys(mine, mineBefore);
    assert NoChangedGridViewable(d.grids.value, mine.keys) <==> !exists k :: k in d.grids.value && k in mine.vals;
  }

  /** `refresh` on values whose diff reports a grid changed in more than
      `cssClass`: it renders exactly when a changed grid is viewable now or
      the set of viewable grids changed. */
  lemma RerendersCharacterised(before: Config, after: Config, isGM: bool)
    requires Diff(before, after).grids.Some? && !OnlyCssClass(Diff(before, after))
    ensures Rerenders(before, after, isGM) <==>
      || (exists k :: k in Diff(before, after).grids.value && k in VisibleIds(after, isGM))
      || VisibleIds(before, isGM) != VisibleIds(after, isGM)
  {
    DecisionCharacterised(Diff(before, after), UserViewableGrids(after, isGM), UserViewableGrids(before, isGM));
  }

  /** Adding an entry under a new id to a grid the user can see is always
      rendered. */
  lemma RerendersAfterAddingVisibleEntry(before: Config, k: string, e: Entry, isGM: bool)
    requires k in before.grids.vals && !Has(before.grids.vals[k].entries, e.entryId)
    requires isGM || before.grids.vals[k].isShared
    ensures var g := before.grids.vals[k];
      Rerenders(before, before.(grids := Put(before.grids, k, g.(entries := AddEntry(g.entries, e)))), isGM)
  {
    var g := before.grids.vals[k];
    var g' := g.(entries := AddEntry(g.entries, e));
    var after := before.(grids := Put(before.grids, k, g'));
    assert e.entryId in g'.entries.vals;
    assert EntriesChanged(g.entries, g'.entries);
    assert EntriesField in GridChanges(GridLookup(before.grids, k), g');
    assert k in GridChangeMap(before.grids, after.grids);
    assert k in VisibleIds(after, isGM);
    RerendersCharacterised(before, after, isGM);
  }

  /** For a player, a change confined to grids that stay hidden is rendered
      only when the diff reports nothing at all. */
  lemma PlayerIgnoresHiddenChanges(before: Config, after: Config)
    requires after.grids.keys == before.grids.keys
    requires forall k :: k in before.grids.vals ==>
      after.grids.vals[k] == before.grids.vals[k] ||
      (!after.grids.vals[k].isShared && !before.grids.vals[k].isShared)
    ensures Rerenders(before, after, false) <==> DiffEmpty(Diff(before, after))
  {
    var mine, mineBefore := UserViewableGrids(after, false), UserViewableGrids(before, false);
    assert mine.vals.Keys == mineBefore.vals.Keys;
    SameKeys(mine, mineBefore);
    var d := Diff(before, after);
    if d.grids.Some? {
      forall k | k in d.grids.value ensures k !in mine.keys {
        if after.grids.vals[k] == before.grids.vals[k] {
          GridUnchanged(before.grids.vals[k]);
        }
      }
      assert NoChangedGridViewable(d.grids.value, mine.keys);
    }
  }
}
