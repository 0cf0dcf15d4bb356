/** The one-off upgrade of the stored configuration from the single-grid
    shape, whose entries are an array, to the grids-and-entries-objects
    shape, gated on the `migrated` flag. */
module Migration {
  import opened Basics
  import opened OrderedMaps
  import opened CellIds
  import opened GridTypes
  import opened HostSettings

  /** The schema version the flag records once the upgrade ran. */
  const NeedsMigrationVersion := "2.0.1"

  /** The gate: skip when the flag says the upgrade ran before and either the
      installed module is newer than 2.0.1 (`isNewerVersion`, an input here)
      or the flag records 2.0.1 itself. */
  predicate Skipped(flag: MigrationFlag, moduleIsNewer: bool) {
    flag.status && (moduleIsNewer || flag.version == NeedsMigrationVersion)
  }

  /** `${entry.x}-${entry.y}` for a legacy entry. */
  function LegacyId(e: Entry): string {
    EntryId(e.x, e.y)
  }

  /** The keys the legacy entries are stored under, in array order. */
  function LegacyIds(es: seq<Entry>): (ks: seq<string>)
    ensures |ks| == |es| && forall i :: 0 <= i < |es| ==> ks[i] == LegacyId(es[i])
  {
    seq(|es|, i requires 0 <= i < |es| => LegacyId(es[i]))
  }

  /** A legacy entry as stored under the key `k`: its id becomes `k`. */
  function Keyed(e: Entry, k: string): Entry {
    e.(entryId := k)
  }

  /** The `reduce` over the legacy array, with `ks[i]` the key computed for
      entry `i`: each entry assigned in turn under its key, with its id set
      to the key; a later entry under the same key replaces an earlier one
      in place. */
  function StoreUnder(es: seq<Entry>, ks: seq<string>): OMap<Entry>
    requires |ks| == |es|
    decreases |es|
  {
    if |es| == 0 then Empty()
    else
      var n := |es| - 1;
      Put(StoreUnder(es[..n], ks[..n]), ks[n], Keyed(es[n], ks[n]))
  }

  /** The legacy entries as an entries object keyed by `${x}-${y}`. */
  function ConvertLegacyEntries(es: seq<Entry>): OMap<Entry> {
    StoreUnder(es, LegacyIds(es))
  }

  /** The object has exactly the keys computed for some entry. */
  lemma {:induction false} StoreUnderKeys(es: seq<Entry>, ks: seq<string>)
    requires |ks| == |es|
    ensures forall k :: k in StoreUnder(es, ks).vals <==> k in ks
    decreases |es|
  {
    if |es| > 0 {
      var n := |es| - 1;
      StoreUnderKeys(es[..n], ks[..n]);
      PrefixLast(ks);
    }
  }

  /** Under each key is the last entry computed for it, with that key as id. */
  lemma {:induction false} StoreUnderLast(es: seq<Entry>, ks: seq<string>, i: int)
    requires |ks| == |es| && 0 <= i < |es|
    requires forall j :: i < j < |es| ==> ks[j] != ks[i]
    ensures ks[i] in StoreUnder(es, ks).vals
    ensures StoreUnder(es, ks).vals[ks[i]] == Keyed(es[i], ks[i])
    decreases |es|
  {
    var n := |es| - 1;
    var prev := StoreUnder(es[..n], ks[..n]);
    var r := StoreUnder(es, ks);
    assert r.vals == prev.vals[ks[n] := Keyed(es[n], ks[n])];
    if i < n {
      assert es[..n][i] == es[i] && ks[..n][i] == ks[i];
      forall j | i < j < n ensures ks[..n][j] != ks[..n][i] {
        assert ks[..n][j] == ks[j];
      }
      StoreUnderLast(es[..n], ks[..n], i);
      assert ks[n] != ks[i];
    }
  }

  /** With distinct keys, the object lists them in array order. */
  lemma {:induction false} StoreUnderOrder(es: seq<Entry>, ks: seq<string>)
    requires |ks| == |es| && NoDup(ks)
    ensures StoreUnder(es, ks).keys == ks
    decreases |es|
  {
    if |es| > 0 {
      var n := |es| - 1;
      NoDupPrefix(ks, n);
      StoreUnderOrder(es[..n], ks[..n]);
      PutFresh(StoreUnder(es[..n], ks[..n]), ks[n], Keyed(es[n], ks[n]));
      PrefixLast(ks);
    }
  }

  /** Legacy entries at pairwise distinct coordinates keep their array order. */
  lemma ConvertLegacyEntriesOrder(es: seq<Entry>)
    requires forall i, j :: 0 <= i < j < |es| ==> (es[i].x, es[i].y) != (es[j].x, es[j].y)
    ensures ConvertLegacyEntries(es).keys == LegacyIds(es)
  {
    var ks := LegacyIds(es);
    forall i, j | 0 <= i < j < |es| ensures ks[i] != ks[j] {
      if ks[i] == ks[j] {
        EntryIdInjective(es[i].x, es[i].y, es[j].x, es[j].y);
      }
    }
    StoreUnderOrder(es, ks);
  }

  /** The converted object has a key for exactly the coordinates some legacy
      entry has. */
  lemma ConvertLegacyEntriesKeys(es: seq<Entry>)
    ensures forall k :: k in ConvertLegacyEntries(es).vals <==> exists i :: 0 <= i < |es| && LegacyId(es[i]) == k
  {
    var ks := LegacyIds(es);
    StoreUnderKeys(es, ks);
    forall k ensures k in ks <==> exists i :: 0 <= i < |es| && LegacyId(es[i]) == k {
      if k in ks {
        var i :| 0 <= i < |ks| && ks[i] == k;
        assert LegacyId(es[i]) == k;
      }
    }
  }

  /** The last legacy entry at given coordinates is the one stored under
      their key, carrying the key as its id. */
  lemma ConvertLegacyEntriesLast(es: seq<Entry>, i: int)
    requires 0 <= i < |es|
    requires forall j :: i < j < |es| ==> LegacyId(es[j]) != LegacyId(es[i])
    ensures LegacyId(es[i]) in ConvertLegacyEntries(es).vals
    ensures ConvertLegacyEntries(es).vals[LegacyId(es[i])] == es[i].(entryId := LegacyId(es[i]))
  {
    StoreUnderLast(es, LegacyIds(es), i);
  }

  /** Each stored value is some entry with its id set to that entry's key. */
  lemma {:induction false} StoreUnderFrom(es: seq<Entry>, ks: seq<string>)
    requires |ks| == |es|
    ensures forall k :: k in StoreUnder(es, ks).vals ==>
      exists i :: 0 <= i < |es| && ks[i] == k && StoreUnder(es, ks).vals[k] == Keyed(es[i], ks[i])
    decreases |es|
  {
    if |es| > 0 {
      var n := |es| - 1;
      StoreUnderFrom(es[..n], ks[..n]);
      var prev, r := StoreUnder(es[..n], ks[..n]), StoreUnder(es, ks);
      forall k | k in r.vals
        ensures exists i :: 0 <= i < |es| && ks[i] == k && r.vals[k] == Keyed(es[i], ks[i])
      {
        if k == ks[n] {
          assert r.vals[k] == Keyed(es[n], ks[n]);
        } else {
          var i :| 0 <= i < n && ks[..n][i] == k && prev.vals[k] == Keyed(es[..n][i], ks[..n][i]);
          assert ks[i] == k && r.vals[k] == Keyed(es[i], ks[i]);
        }
      }
    }
  }

  /** Every converted entry is keyed by its own `${x}-${y}` id. */
  lemma ConvertLegacyEntriesWf(es: seq<Entry>)
    ensures EntriesWf(ConvertLegacyEntries(es))
  {
    var ks := LegacyIds(es);
    var r := ConvertLegacyEntries(es);
    StoreUnderFrom(es, ks);
    forall k | k in r.vals ensures CanonicalAt(r, k) {
      var i :| 0 <= i < |es| && ks[i] == k && r.vals[k] == Keyed(es[i], ks[i]);
      assert k == EntryId(es[i].x, es[i].y);
    }
  }

  /** A legacy entry at column 1, row 1 is stored under `1-1`. */
  lemma ConvertExample(e: Entry)
    requires e.x == 1 && e.y == 1
    ensures ConvertLegacyEntries([e]).keys == ["1-1"]
    ensures ConvertLegacyEntries([e]).vals["1-1"].entryId == "1-1"
  {
    assert LegacyId(e) == "1-1" by {
      assert NatToString(1) == "1";
    }
    assert LegacyIds([e]) == ["1-1"];
    assert [e][..0] == [] && ["1-1"][..0] == [];
    assert StoreUnder([e], ["1-1"]) == Put(Empty(), "1-1", Keyed(e, "1-1"));
  }

  /** The upgraded value: one private grid `default` named `Main`, marked
      active, holding the converted entries and whatever overrides the legacy
      grid carried. */
  function MigratedConfig(g: LegacyGrid): (c: Config)
    ensures ConfigWf(c)
    ensures c.grids.keys == ["default"] && c.activeGridId == "default"
    ensures var d := c.grids.vals["default"];
      && d.entries == ConvertLegacyEntries(g.entries)
      && d.name == "Main" && !d.isShared && d.cssClass == Some("active")
      && d.rowOverride == g.rowOverride && d.columnOverride == g.columnOverride
  {
    ConvertLegacyEntriesWf(g.entries);
    var d := Grid(ConvertLegacyEntries(g.entries), "default", "Main", false, g.rowOverride, g.columnOverride, Some("active"));
    Config(Put(Empty(), "default", d), "default")
  }

  /** The two settings the upgrade touches, and the writes made so far. */
  datatype SettingsState = SettingsState(config: StoredConfig, flag: MigrationFlag, writes: seq<SettingKey>)

  /** What `gmScreenMigrate` leaves behind: nothing for a non-GM user or when
      the gate skips; otherwise the legacy value upgraded (and written) when
      the stored value has the legacy shape, and the flag written. */
  function Migrate(s: SettingsState, isGM: bool, moduleIsNewer: bool): SettingsState {
    if !isGM || Skipped(s.flag, moduleIsNewer) then s
    else
      var s1 := if s.config.Legacy? then s.(config := Current(MigratedConfig(s.config.grid)), writes := s.writes + [GmScreenConfigKey]) else s;
      s1.(flag := MigrationFlag(true, NeedsMigrationVersion), writes := s1.writes + [MigratedKey])
  }

  /** A non-GM user, or a flag that passes the gate, writes nothing. */
  lemma MigrateSkips(s: SettingsState, isGM: bool, moduleIsNewer: bool)
    ensures !isGM || Skipped(s.flag, moduleIsNewer) <==> Migrate(s, isGM, moduleIsNewer) == s
  {
  }

  /** Past the gate the flag is always written, last, and says 2.0.1; the
      configuration is written first exactly when it had the legacy shape,
      and then holds a well-formed current value. A value of any other shape
      is left as it was. */
  lemma MigrateRuns(s: SettingsState, moduleIsNewer: bool)
    requires !Skipped(s.flag, moduleIsNewer)
    ensures var r := Migrate(s, true, moduleIsNewer);
      && r.flag == MigrationFlag(true, NeedsMigrationVersion)
      && (s.config.Legacy? ==> r.writes == s.writes + [GmScreenConfigKey, MigratedKey]
                               && r.config == Current(MigratedConfig(s.config.grid)) && ConfigWf(r.config.config))
      && (!s.config.Legacy? ==> r.writes == s.writes + [MigratedKey] && r.config == s.config)
  {
  }

  /** Running the upgrade twice on the same module version is running it once. */
  lemma MigrateOnce(s: SettingsState, isGM: bool, moduleIsNewer: bool)
    ensures Migrate(Migrate(s, isGM, moduleIsNewer), isGM, moduleIsNewer) == Migrate(s, isGM, moduleIsNewer)
  {
  }

  /** Once the upgrade ran, no later run changes anything, whatever the
      module version then. */
  lemma MigrateRanSettles(s: SettingsState, moduleIsNewer: bool, isGMLater: bool, newerLater: bool)
    requires !Skipped(s.flag, moduleIsNewer)
    ensures Migrate(Migrate(s, true, moduleIsNewer), isGMLater, newerLater) == Migrate(s, true, moduleIsNewer)
  {
  }

  /** `gmScreenMigrate` on the store. */
  method GmScreenMigrate(store: SettingsStore, isGM: bool, moduleIsNewer: bool)
    modifies store
    ensures SettingsState(store.gmScreenConfig, store.migrated, store.writes)
         == Migrate(SettingsState(old(store.gmScreenConfig), old(store.migrated), old(store.writes)), isGM, moduleIsNewer)
    ensures store.rows == old(store.rows) && store.columns == old(store.columns)
  {
    if !isGM {
      return;
    }
    var migrated := store.migrated;
    if migrated.status {
      if moduleIsNewer {
        return;
      }
      if migrated.version == NeedsMigrationVersion {
        return;
      }
    }
    var stored := store.gmScreenConfig;
    if stored.Legacy? {
      store.SetConfig(Current(MigratedConfig(stored.grid)));
    }
    store.SetMigrated(MigrationFlag(true, NeedsMigrationVersion));
  }
}
