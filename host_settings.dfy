/** The host's world-settings store, reduced to the values this module reads
    and writes. Every `set` replaces a value as a whole and is recorded in
    `writes`, so that a caller can state which writes an operation made. */
module HostSettings {
  import opened GridTypes

  /** What `settings.get('gm-screen', 'gm-screen-config')` can hold: the
      current shape, the legacy shape with an array of entries, or anything
      else (a value whose `grid.entries` is not an array). */
  datatype StoredConfig = Current(config: Config) | Legacy(grid: LegacyGrid) | Unshaped

  /** The `migrated` setting `{status, version}`. */
  datatype MigrationFlag = MigrationFlag(status: bool, version: string)

  datatype SettingKey = GmScreenConfigKey | MigratedKey

  class SettingsStore {
    var gmScreenConfig: StoredConfig
    var migrated: MigrationFlag
    /** The world settings `rows` and `columns`. */
    var rows: int
    var columns: int
    /** Every `settings.set` so far, oldest first. */
    var writes: seq<SettingKey>

    constructor (config: StoredConfig, flag: MigrationFlag, rows: int, columns: int)
      ensures gmScreenConfig == config && migrated == flag
      ensures this.rows == rows && this.columns == columns
      ensures writes == []
    {
      gmScreenConfig := config;
      migrated := flag;
      this.rows := rows;
      this.columns := columns;
      writes := [];
    }

    /** `settings.set('gm-screen', 'gm-screen-config', value)` */
    method SetConfig(value: StoredConfig)
      modifies this
      ensures gmScreenConfig == value && writes == old(writes) + [GmScreenConfigKey]
      ensures migrated == old(migrated) && rows == old(rows) && columns == old(columns)
    {
      gmScreenConfig := value;
      writes := writes + [GmScreenConfigKey];
    }

    /** `settings.set('gm-screen', 'migrated', value)` */
    method SetMigrated(value: MigrationFlag)
      modifies this
      ensures migrated == value && writes == old(writes) + [MigratedKey]
      ensures gmScreenConfig == old(gmScreenConfig) && rows == old(rows) && columns == old(columns)
    {
      migrated := value;
      writes := writes + [MigratedKey];
    }
  }
}
