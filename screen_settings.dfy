/** The grid configuration form: the default configuration, and what
    submitting the form writes. */
module ScreenSettings {
  import opened Basics
  import opened OrderedMaps
  import opened GridTypes
  import opened HostSettings

  /** The setting's default value: one private grid `default` named `Main`,
      with no entries, marked active. */
  function DefaultConfig(): (c: Config)
    ensures ConfigWf(c)
    ensures c.grids.keys == [c.activeGridId] && c.activeGridId == "default"
    ensures var g := c.grids.vals["default"];
      g.name == "Main" && !g.isShared && g.entries.keys == [] && g.cssClass == Some("active")
  {
    Config(Assoc(["default"], map["default" := Grid(Empty(), "default", "Main", false, None, None, Some("active"))]), "default")
  }

  /** One grid row of the submitted form; None where the form carries no
      value for the property. */
  datatype GridPatch = GridPatch(name: Option<string>, isShared: Option<bool>, rowOverride: Option<int>, columnOverride: Option<int>)

  /** `{...g, ...p}`: the properties the row carries replace the stored ones. */
  function Patched(g: Grid, p: GridPatch): (r: Grid)
    ensures r.entries == g.entries && r.id == g.id && r.cssClass == g.cssClass
    ensures r.name == (if p.name.Some? then p.name.value else g.name)
    ensures r.isShared == (if p.isShared.Some? then p.isShared.value else g.isShared)
    ensures r.rowOverride == (if p.rowOverride.Some? then p.rowOverride else g.rowOverride)
    ensures r.columnOverride == (if p.columnOverride.Some? then p.columnOverride else g.columnOverride)
  {
    g.(name := p.name.GetOr(g.name),
       isShared := p.isShared.GetOr(g.isShared),
       rowOverride := if p.rowOverride.Some? then p.rowOverride else g.rowOverride,
       columnOverride := if p.columnOverride.Some? then p.columnOverride else g.columnOverride)
  }

  /** `{...p, entries: {}, name: p.name ?? '', isShared: p.isShared ?? false, id}`:
      a grid that was not stored before. */
  function NewGrid(id: string, p: GridPatch): Grid {
    Grid(Empty(), id, p.name.GetOr(""), p.isShared.GetOr(false), p.rowOverride, p.columnOverride, None)
  }

  /** The grid the form's row `id` becomes. */
  function SubmittedGrid(stored: OMap<Grid>, id: string, p: GridPatch): Grid {
    if Has(stored, id) then Patched(stored.vals[id], p) else NewGrid(id, p)
  }

  /** The `reduce` over the form's grid ids: each row assigned into the
      accumulator in turn. */
  function FoldGrids(stored: OMap<Grid>, form: OMap<GridPatch>, ids: seq<string>): OMap<Grid>
    requires forall k :: k in ids ==> k in form.vals
    decreases |ids|
  {
    if |ids| == 0 then Empty()
    else
      var id := ids[|ids| - 1];
      Put(FoldGrids(stored, form, ids[..|ids| - 1]), id, SubmittedGrid(stored, id, form.vals[id]))
  }

  /** Over distinct ids the fold lists exactly those ids, in order, each with
      its own submitted grid. */
  lemma {:induction false} FoldGridsDistinct(stored: OMap<Grid>, form: OMap<GridPatch>, ids: seq<string>)
    requires forall k :: k in ids ==> k in form.vals
    requires NoDup(ids)
    ensures FoldGrids(stored, form, ids).keys == ids
    ensures forall k :: k in ids ==> FoldGrids(stored, form, ids).vals[k] == SubmittedGrid(stored, k, form.vals[k])
    decreases |ids|
  {
    if |ids| > 0 {
      var n := |ids| - 1;
      var init, id := ids[..n], ids[n];
      NoDupPrefix(ids, n);
      FoldGridsDistinct(stored, form, init);
      var acc := FoldGrids(stored, form, init);
      PutFresh(acc, id, SubmittedGrid(stored, id, form.vals[id]));
      PrefixLast(ids);
      forall k | k in ids ensures FoldGrids(stored, form, ids).vals[k] == SubmittedGrid(stored, k, form.vals[k]) {
        if k != id {
          assert k in init;
        }
      }
    }
  }

  datatype SubmitError =
    /** The form has no grid rows: nothing is written. */
    | NoTabs
    /** The stored value has no `grids` object, so `Object.hasOwn` throws. */
    | StoredNotCurrent

  /** The value `#onSubmit` writes for the stored value and the form's rows;
      the active grid stays unless its row was removed, then it is the first
      row's. */
  function SubmittedConfig(stored: StoredConfig, form: OMap<GridPatch>): Result<Config, SubmitError> {
    if |form.keys| == 0 then Err(NoTabs)
    else if !stored.Current? then Err(StoredNotCurrent)
    else
      var c := stored.config;
      Ok(Config(
        FoldGrids(c.grids, form, form.keys),
        if c.activeGridId in form.keys then c.activeGridId else form.keys[0]))
  }

  /** What the form promises: the grids are exactly the rows, in their order;
      a stored grid keeps its entries, id and css class and takes the row's
      properties; a new one starts empty under its row id; the active grid
      is one of the rows, and is kept when its row is still there. */
  lemma SubmittedConfigResult(stored: StoredConfig, form: OMap<GridPatch>)
    ensures SubmittedConfig(stored, form).Err? <==> |form.keys| == 0 || !stored.Current?
    ensures |form.keys| == 0 ==> SubmittedConfig(stored, form) == Err(NoTabs)
    ensures SubmittedConfig(stored, form).Ok? ==>
      var c, r := stored.config, SubmittedConfig(stored, form).value;
      && r.grids.keys == form.keys
      && r.activeGridId in r.grids.vals
      && (c.activeGridId in form.vals ==> r.activeGridId == c.activeGridId)
      && (c.activeGridId !in form.vals ==> r.activeGridId == form.keys[0])
      && (forall k :: k in form.vals && k in c.grids.vals ==> r.grids.vals[k] == Patched(c.grids.vals[k], form.vals[k]))
      && (forall k :: k in form.vals && k !in c.grids.vals ==>
            var g := r.grids.vals[k];
            g.entries.keys == [] && g.id == k && g.cssClass.None?
            && g.name == form.vals[k].name.GetOr("") && g.isShared == form.vals[k].isShared.GetOr(false))
  {
    if SubmittedConfig(stored, form).Ok? {
      FoldGridsDistinct(stored.config.grids, form, form.keys);
    }
  }

  /** A well-formed stored value stays well formed. */
  lemma SubmittedConfigWf(stored: StoredConfig, form: OMap<GridPatch>)
    requires stored.Current? && ConfigWf(stored.config)
    ensures SubmittedConfig(stored, form).Ok? ==> ConfigWf(SubmittedConfig(stored, form).value)
  {
    if SubmittedConfig(stored, form).Ok? {
      FoldGridsDistinct(stored.config.grids, form, form.keys);
    }
  }

  /** Applying a row to the grid it produced changes nothing more. */
  lemma SubmittedGridStable(stored: OMap<Grid>, id: string, p: GridPatch)
    ensures Patched(SubmittedGrid(stored, id, p), p) == SubmittedGrid(stored, id, p)
  {
  }

  /** Folding a row over the grid it produced gives that grid again. */
  lemma FoldGridsTwiceAt(stored: OMap<Grid>, form: OMap<GridPatch>, k: string)
    requires k in form.vals
    ensures var r := FoldGrids(stored, form, form.keys);
      var again := FoldGrids(r, form, form.keys);
      k in r.vals && k in again.vals && again.vals[k] == r.vals[k]
  {
    var r := FoldGrids(stored, form, form.keys);
    FoldGridsDistinct(stored, form, form.keys);
    FoldGridsDistinct(r, form, form.keys);
    assert Has(r, k);
    SubmittedGridStable(stored, k, form.vals[k]);
  }

  /** The fold over the form's own rows has one grid per row. */
  lemma FoldGridsKeys(stored: OMap<Grid>, form: OMap<GridPatch>)
    ensures FoldGrids(stored, form, form.keys).keys == form.keys
    ensures FoldGrids(stored, form, form.keys).vals.Keys == form.vals.Keys
  {
    FoldGridsDistinct(stored, form, form.keys);
  }

  /** Folding the rows over the grids they produced gives those grids again. */
  lemma FoldGridsTwice(stored: OMap<Grid>, form: OMap<GridPatch>)
    ensures FoldGrids(FoldGrids(stored, form, form.keys), form, form.keys) == FoldGrids(stored, form, form.keys)
  {
    var r := FoldGrids(stored, form, form.keys);
    var again := FoldGrids(r, form, form.keys);
    FoldGridsKeys(stored, form);
    FoldGridsKeys(r, form);
    forall k | k in form.vals ensures k in again.vals && again.vals[k] == r.vals[k] {
      FoldGridsTwiceAt(stored, form, k);
    }
    assert again.keys == form.keys == r.keys;
    assert again.vals.Keys == r.vals.Keys;
    SameMap(again.vals, r.vals);
    assert again == r;
  }

  lemma SameMap<K, V>(a: map<K, V>, b: map<K, V>)
    requires a.Keys == b.Keys && forall k :: k in a ==> a[k] == b[k]
    ensures a == b
  {
  }

  /** Saving the same form twice writes the same value as saving it once. */
  lemma SubmitTwice(stored: StoredConfig, form: OMap<GridPatch>)
    requires SubmittedConfig(stored, form).Ok?
    ensures SubmittedConfig(Current(SubmittedConfig(stored, form).value), form) == SubmittedConfig(stored, form)
  {
    FoldGridsTwice(stored.config.grids, form);
  }

  /** `#onSubmit`: reads the stored value, and writes the submitted one; on
      an error nothing is written. */
  method OnSubmit(store: SettingsStore, form: OMap<GridPatch>) returns (r: Result<Config, SubmitError>)
    modifies store
    ensures r == SubmittedConfig(old(store.gmScreenConfig), form)
    ensures r.Ok? ==> store.gmScreenConfig == Current(r.value) && store.writes == old(store.writes) + [GmScreenConfigKey]
    ensures r.Err? ==> store.gmScreenConfig == old(store.gmScreenConfig) && store.writes == old(store.writes)
    ensures store.migrated == old(store.migrated) && store.rows == old(store.rows) && store.columns == old(store.columns)
  {
    r := SubmittedConfig(store.gmScreenConfig, form);
    if r.Ok? {
      store.SetConfig(Current(r.value));
    }
  }
}
