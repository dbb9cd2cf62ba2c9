/**
 * Opening and migrating the database: from fields kept as one JSON document per item version
 * to one row per field, and from legacy to current setting names. A transaction works on a
 * copy of the tables that replaces them only on commit.
 */
module Migration {
  import opened Wrappers

  const DATABASE_SCHEMA_VERSION := 3
  const BREAKING_SCHEMA_VERSION := 3
  const TRASH_DIR_NAME := "Trash"
  const DIR_DENY_OVERWRITE: nat := 2   // the bit's position in the mask

  datatype FieldKind = StringField | FileField | TotpField

  datatype StoredField = StoredField(kind: FieldKind, concealed: bool, data: string)

  type Fields = map<string, StoredField>

  /** An item version: item id and version id. */
  type Key = (int, int)

  /** Reading a JSON document of fields; `None` if it is malformed. */
  type Parser = string -> Option<Fields>

  type Settings = map<string, Option<string>>

  datatype Tables = Tables(
    userVersion: int,
    dirs: map<string, set<nat>>,                         // directories and their bit masks
    documents: Option<map<Key, string>>,                 // the column of JSON documents
    rows: Option<map<(Key, string), StoredField>>,       // the table of field rows
    settings: Settings)

  /** What a reader of the current schema version finds. */
  function Lookup(parse: Parser, t: Tables, key: Key, name: string): Option<StoredField> {
    match t.documents
    case Some(documents) =>
      if key in documents && parse(documents[key]).Some? && name in parse(documents[key]).value
      then Some(parse(documents[key]).value[name]) else None
    case None =>
      if t.rows.Some? && (key, name) in t.rows.value then Some(t.rows.value[(key, name)]) else None
  }

  /** Documents before the breaking version, rows from it on. */
  ghost predicate WellFormed(t: Tables) {
    && (t.userVersion < BREAKING_SCHEMA_VERSION ==> t.documents.Some? && t.rows.None?)
    && (t.userVersion == BREAKING_SCHEMA_VERSION ==> t.documents.None? && t.rows.Some?)
  }

  // ----- settings -----

  datatype Setting = Setting(name: string, default: string)

  const SETTINGS: seq<Setting> := [
    Setting("agent.authTtlSeconds", "900"),
    Setting("agent.settingsAuthTtlSeconds", "300"),
    Setting("agent.denialTtlSeconds", "60"),
    Setting("agent.gcSeconds", "3600"),
    Setting("agent.autoDeleteTrashItemsAfterSeconds", "15552000"),
    Setting("agent.autoDeleteOldVersionsAfterSeconds", "15552000"),
    Setting("agent.trustedProgramPaths", "[]"),
    Setting("agent.processIdentificationType", "process-chain"),
    Setting("cli.clearClipboardAfterSeconds", "30")]

  const LEGACY_SETTING_NAMES: seq<(string, string)> := [
    ("user.authTtlSeconds", "agent.authTtlSeconds"),
    ("user.settingsAuthTtlSeconds", "agent.settingsAuthTtlSeconds"),
    ("user.denialTtlSeconds", "agent.denialTtlSeconds"),
    ("user.gcSeconds", "agent.gcSeconds"),
    ("user.autoDeleteTrashItemsAfterSeconds", "agent.autoDeleteTrashItemsAfterSeconds"),
    ("user.autoDeleteOldVersionsAfterSeconds", "agent.autoDeleteOldVersionsAfterSeconds"),
    ("user.trustedProgramPaths", "agent.trustedProgramPaths")]

  /** Moves one setting to its new name unless that has a value already. */
  function RenameOne(s: Settings, legacy: string, name: string): Settings {
    (if legacy in s && name !in s then s[name := s[legacy]] else s) - {legacy}
  }

  function Renamed(s: Settings, names: seq<(string, string)>): Settings {
    if names == [] then s
    else
      var last := names[|names| - 1];
      RenameOne(Renamed(s, names[..|names| - 1]), last.0, last.1)
  }

  function Defaulted(s: Settings, settings: seq<Setting>): Settings {
    if settings == [] then s
    else
      var front, last := Defaulted(s, settings[..|settings| - 1]), settings[|settings| - 1];
      if last.name in front then front else front[last.name := Some(last.default)]
  }

  /** No name occurs twice among old and new names. */
  ghost predicate Unrelated(names: seq<(string, string)>) {
    && (forall i, j :: 0 <= i < j < |names| ==> names[i].0 != names[j].0 && names[i].1 != names[j].1)
    && (forall i, j :: 0 <= i < |names| && 0 <= j < |names| ==> names[i].0 != names[j].1)
  }

  ghost predicate IsLegacy(names: seq<(string, string)>, name: string) {
    exists i :: 0 <= i < |names| && names[i].0 == name
  }

  ghost predicate IsRenamed(names: seq<(string, string)>, name: string) {
    exists i :: 0 <= i < |names| && names[i].1 == name
  }

  ghost predicate LegacyGone(r: Settings, names: seq<(string, string)>) {
    forall i :: 0 <= i < |names| ==> names[i].0 !in r
  }

  /** The new name holds its own value if it had one, else the legacy one. */
  ghost predicate NewValue(s: Settings, r: Settings, names: (string, string)) {
    var (legacy, name) := names;
    && (name in r <==> name in s || legacy in s)
    && (name in s ==> r[name] == s[name])
    && (name !in s && legacy in s ==> r[name] == s[legacy])
  }

  ghost predicate NewValues(s: Settings, r: Settings, names: seq<(string, string)>) {
    forall i :: 0 <= i < |names| ==> NewValue(s, r, names[i])
  }

  ghost predicate OthersKept(s: Settings, r: Settings, names: seq<(string, string)>) {
    forall n :: !IsLegacy(names, n) && !IsRenamed(names, n) ==> (n in r <==> n in s) && (n in s ==> r[n] == s[n])
  }

  ghost predicate RenamedValues(s: Settings, r: Settings, names: seq<(string, string)>) {
    LegacyGone(r, names) && NewValues(s, r, names) && OthersKept(s, r, names)
  }

  /** The pair's names are none of those before it. */
  ghost predicate FreshPair(front: seq<(string, string)>, last: (string, string)) {
    && last.0 != last.1
    && forall i :: 0 <= i < |front| ==>
         && front[i].0 != last.0 && front[i].0 != last.1
         && front[i].1 != last.0 && front[i].1 != last.1
  }

  lemma {:induction false} RenamedMeans(s: Settings, names: seq<(string, string)>)
    requires Unrelated(names)
    ensures RenamedValues(s, Renamed(s, names), names)
  {
    if names != [] {
      var front, last := names[..|names| - 1], names[|names| - 1];
      UnrelatedFront(names);
      assert names == front + [last];
      hide RenamedValues, Unrelated, FreshPair;
      RenamedMeans(s, front);
      RenamedOneMore(s, Renamed(s, front), front, last);
    }
  }

  lemma UnrelatedFront(names: seq<(string, string)>)
    requires Unrelated(names) && names != []
    ensures Unrelated(names[..|names| - 1]) && FreshPair(names[..|names| - 1], names[|names| - 1])
  {
  }

  lemma RenamedOneMore(s: Settings, r: Settings, front: seq<(string, string)>, last: (string, string))
    requires FreshPair(front, last) && RenamedValues(s, r, front)
    ensures RenamedValues(s, RenameOne(r, last.0, last.1), front + [last])
  {
    hide LegacyGone, NewValues, OthersKept, FreshPair, RenameOne;
    LegacyGoneMore(r, front, last);
    NewValuesMore(s, r, front, last);
    OthersKeptMore(s, r, front, last);
  }

  lemma LegacyGoneMore(r: Settings, front: seq<(string, string)>, last: (string, string))
    requires FreshPair(front, last) && LegacyGone(r, front)
    ensures LegacyGone(RenameOne(r, last.0, last.1), front + [last])
  {
  }

  lemma NewValuesMore(s: Settings, r: Settings, front: seq<(string, string)>, last: (string, string))
    requires FreshPair(front, last) && NewValues(s, r, front) && OthersKept(s, r, front)
    ensures NewValues(s, RenameOne(r, last.0, last.1), front + [last])
  {
    assert !IsLegacy(front, last.0) && !IsRenamed(front, last.0);
    assert !IsLegacy(front, last.1) && !IsRenamed(front, last.1);
    hide IsLegacy, IsRenamed;
    var names := front + [last];
    forall i | 0 <= i < |names|
      ensures NewValue(s, RenameOne(r, last.0, last.1), names[i])
    {
      if i < |front| {
        assert names[i] == front[i];
      } else {
        assert names[i] == last;
      }
    }
  }

  lemma OthersKeptMore(s: Settings, r: Settings, front: seq<(string, string)>, last: (string, string))
    requires OthersKept(s, r, front)
    ensures OthersKept(s, RenameOne(r, last.0, last.1), front + [last])
  {
    var names := front + [last];
    assert names[|front|] == last;
    forall n | !IsLegacy(names, n) && !IsRenamed(names, n)
      ensures n != last.0 && n != last.1 && !IsLegacy(front, n) && !IsRenamed(front, n)
    {
      assert forall i :: 0 <= i < |front| ==> names[i] == front[i];
      assert names[|front|].0 != n && names[|front|].1 != n;
      NotAmong(front, last, n);
    }
  }

  lemma NotAmong(front: seq<(string, string)>, last: (string, string), n: string)
    ensures IsLegacy(front, n) ==> IsLegacy(front + [last], n)
    ensures IsRenamed(front, n) ==> IsRenamed(front + [last], n)
  {
    if IsLegacy(front, n) {
      var i :| 0 <= i < |front| && front[i].0 == n;
      assert (front + [last])[i].0 == n;
    }
    if IsRenamed(front, n) {
      var i :| 0 <= i < |front| && front[i].1 == n;
      assert (front + [last])[i].1 == n;
    }
  }

  lemma {:induction false} RenamedNothing(s: Settings, names: seq<(string, string)>)
    requires forall i :: 0 <= i < |names| ==> names[i].0 !in s
    ensures Renamed(s, names) == s
  {
    if names != [] {
      RenamedNothing(s, names[..|names| - 1]);
      assert names[|names| - 1].0 !in s;
    }
  }

  ghost predicate DistinctSettings(settings: seq<Setting>) {
    forall i, j :: 0 <= i < j < |settings| ==> settings[i].name != settings[j].name
  }

  ghost predicate IsSetting(settings: seq<Setting>, name: string) {
    exists i :: 0 <= i < |settings| && settings[i].name == name
  }

  ghost predicate DefaultedValues(s: Settings, r: Settings, settings: seq<Setting>) {
    && (forall i :: 0 <= i < |settings| ==>
          && settings[i].name in r
          && r[settings[i].name] == if settings[i].name in s then s[settings[i].name] else Some(settings[i].default))
    && (forall n :: n in s ==> n in r && r[n] == s[n])
    && (forall n :: n in r && n !in s ==> IsSetting(settings, n))
  }

  lemma {:induction false} DefaultedMeans(s: Settings, settings: seq<Setting>)
    requires DistinctSettings(settings)
    ensures DefaultedValues(s, Defaulted(s, settings), settings)
  {
    if settings != [] {
      hide DefaultedValues;
      var front, last := settings[..|settings| - 1], settings[|settings| - 1];
      assert settings == front + [last];
      DefaultedMeans(s, front);
      DefaultedOneMore(s, Defaulted(s, front), front, last);
    }
  }

  lemma DefaultedOneMore(s: Settings, f: Settings, front: seq<Setting>, last: Setting)
    requires DistinctSettings(front + [last]) && DefaultedValues(s, f, front)
    ensures DefaultedValues(s, if last.name in f then f else f[last.name := Some(last.default)], front + [last])
  {
    FreshSetting(front, last);
    var settings := front + [last];
    var r := if last.name in f then f else f[last.name := Some(last.default)];
    assert forall i :: 0 <= i < |front| ==> settings[i] == front[i];
    assert settings[|front|] == last;
    forall n | n in r && n !in s
      ensures IsSetting(settings, n)
    {
      if n != last.name {
        var i :| 0 <= i < |front| && front[i].name == n;
        assert settings[i].name == n;
      }
    }
  }

  lemma FreshSetting(front: seq<Setting>, last: Setting)
    requires DistinctSettings(front + [last])
    ensures !IsSetting(front, last.name)
  {
    var settings := front + [last];
    forall i | 0 <= i < |front|
      ensures front[i].name != last.name
    {
      assert settings[i].name != settings[|front|].name;
    }
  }

  lemma {:induction false} DefaultedNothing(s: Settings, settings: seq<Setting>)
    requires forall i :: 0 <= i < |settings| ==> settings[i].name in s
    ensures Defaulted(s, settings) == s
  {
    if settings != [] {
      DefaultedNothing(s, settings[..|settings| - 1]);
      assert settings[|settings| - 1].name in s;
    }
  }

  /** Both steps every successful open ends with. */
  function Settled(s: Settings): Settings {
    Defaulted(Renamed(s, LEGACY_SETTING_NAMES), SETTINGS)
  }

  // The names of each list all differ in length.

  function LegacyLength(i: nat): (n: nat)
    ensures n > 0
  {
    if i == 0 then 19 else if i == 1 then 27 else if i == 2 then 21 else if i == 3 then 14
    else if i == 4 then 37 else if i == 5 then 38 else 24
  }

  function SettingLength(i: nat): (n: nat)
    ensures n > 0
  {
    if i == 0 then 20 else if i == 1 then 28 else if i == 2 then 22 else if i == 3 then 15
    else if i == 4 then 38 else if i == 5 then 39 else if i == 6 then 25 else if i == 7 then 31 else 30
  }

  lemma LengthsDiffer()
    ensures forall i, j :: 0 <= i < j < 7 ==> LegacyLength(i) != LegacyLength(j)
    ensures forall i, j :: 0 <= i < j < 9 ==> SettingLength(i) != SettingLength(j)
  {
  }

  lemma LegacyNames()
    ensures |LEGACY_SETTING_NAMES| == 7
    ensures forall i :: 0 <= i < 7 ==>
      |LEGACY_SETTING_NAMES[i].0| == LegacyLength(i) && LEGACY_SETTING_NAMES[i].0[0] == 'u'
  {
  }

  lemma SettingNames()
    ensures |SETTINGS| == 9
    ensures forall i :: 0 <= i < 9 ==> |SETTINGS[i].name| == SettingLength(i) && SETTINGS[i].name[0] != 'u'
  {
  }

  /** Every renamed setting is a current one: the n-th legacy name belongs to the n-th setting. */
  lemma LegacyNamesAreSettings()
    ensures |LEGACY_SETTING_NAMES| <= |SETTINGS|
    ensures forall i :: 0 <= i < |LEGACY_SETTING_NAMES| ==> LEGACY_SETTING_NAMES[i].1 == SETTINGS[i].name
  {
  }

  lemma NamesUnrelated()
    ensures Unrelated(LEGACY_SETTING_NAMES) && DistinctSettings(SETTINGS)
    ensures forall i, j :: 0 <= i < |LEGACY_SETTING_NAMES| && 0 <= j < |SETTINGS| ==>
      LEGACY_SETTING_NAMES[i].0 != SETTINGS[j].name
  {
    LegacyNames();
    SettingNames();
    LegacyNamesAreSettings();
    LengthsDiffer();
    hide LEGACY_SETTING_NAMES, SETTINGS, LegacyLength, SettingLength;
    var legacy, settings := LEGACY_SETTING_NAMES, SETTINGS;
    assert forall i, j :: 0 <= i < j < 9 ==> |settings[i].name| != |settings[j].name|;
    assert forall i, j :: 0 <= i < j < 7 ==> |legacy[i].0| != |legacy[j].0|;
    assert forall i, j :: 0 <= i < 7 && 0 <= j < 9 ==> legacy[i].0[0] != settings[j].name[0];
  }

  /** The value a setting ends up with: its own, else its legacy one, else the default. */
  function EffectiveValue(s: Settings, i: nat): Option<string>
    requires i < |SETTINGS|
  {
    if SETTINGS[i].name in s then s[SETTINGS[i].name]
    else if i < |LEGACY_SETTING_NAMES| && LEGACY_SETTING_NAMES[i].0 in s then s[LEGACY_SETTING_NAMES[i].0]
    else Some(SETTINGS[i].default)
  }

  /**
   * Settling gives every setting its effective value, drops the legacy names, leaves foreign
   * names alone, and does nothing the second time.
   */
  lemma SettledMeans(s: Settings)
    ensures forall i :: 0 <= i < |SETTINGS| ==>
      SETTINGS[i].name in Settled(s) && Settled(s)[SETTINGS[i].name] == EffectiveValue(s, i)
    ensures forall i :: 0 <= i < |LEGACY_SETTING_NAMES| ==> LEGACY_SETTING_NAMES[i].0 !in Settled(s)
    ensures forall n :: !IsLegacy(LEGACY_SETTING_NAMES, n) && !IsSetting(SETTINGS, n) ==>
      (n in Settled(s) <==> n in s) && (n in s ==> Settled(s)[n] == s[n])
    ensures Settled(Settled(s)) == Settled(s)
  {
    NamesUnrelated();
    LegacyNamesAreSettings();
    hide LEGACY_SETTING_NAMES, SETTINGS, Unrelated, DistinctSettings;
    var renamed := Renamed(s, LEGACY_SETTING_NAMES);
    RenamedMeans(s, LEGACY_SETTING_NAMES);
    DefaultedMeans(renamed, SETTINGS);
    SettledOnce(s, renamed, Settled(s));
    RenamedNothing(Settled(s), LEGACY_SETTING_NAMES);
    DefaultedNothing(Settled(s), SETTINGS);
  }

  lemma SettledOnce(s: Settings, renamed: Settings, r: Settings)
    requires RenamedValues(s, renamed, LEGACY_SETTING_NAMES) && DefaultedValues(renamed, r, SETTINGS)
    requires |LEGACY_SETTING_NAMES| <= |SETTINGS|
    requires forall i :: 0 <= i < |LEGACY_SETTING_NAMES| ==> LEGACY_SETTING_NAMES[i].1 == SETTINGS[i].name
    requires forall i, j :: 0 <= i < |LEGACY_SETTING_NAMES| && 0 <= j < |SETTINGS| ==>
      LEGACY_SETTING_NAMES[i].0 != SETTINGS[j].name
    requires DistinctSettings(SETTINGS)
    ensures forall i :: 0 <= i < |SETTINGS| ==> SETTINGS[i].name in r && r[SETTINGS[i].name] == EffectiveValue(s, i)
    ensures forall i :: 0 <= i < |LEGACY_SETTING_NAMES| ==> LEGACY_SETTING_NAMES[i].0 !in r
    ensures forall n :: !IsLegacy(LEGACY_SETTING_NAMES, n) && !IsSetting(SETTINGS, n) ==>
      (n in r <==> n in s) && (n in s ==> r[n] == s[n])
  {
    hide LEGACY_SETTING_NAMES, SETTINGS;
    forall i | 0 <= i < |SETTINGS|
      ensures SETTINGS[i].name in r && r[SETTINGS[i].name] == EffectiveValue(s, i)
    {
      var n := SETTINGS[i].name;
      if i < |LEGACY_SETTING_NAMES| {
        assert LEGACY_SETTING_NAMES[i].1 == n;
      } else {
        NeitherOldNorNew(i);
      }
    }
    forall i | 0 <= i < |LEGACY_SETTING_NAMES|
      ensures LEGACY_SETTING_NAMES[i].0 !in r
    {
      var n := LEGACY_SETTING_NAMES[i].0;
      assert n !in renamed;
      assert !IsSetting(SETTINGS, n);
    }
    forall n | !IsLegacy(LEGACY_SETTING_NAMES, n) && !IsSetting(SETTINGS, n)
      ensures (n in r <==> n in s) && (n in s ==> r[n] == s[n])
    {
      forall i | 0 <= i < |LEGACY_SETTING_NAMES|
        ensures LEGACY_SETTING_NAMES[i].1 != n
      {
        assert SETTINGS[i].name != n;
      }
      assert !IsRenamed(LEGACY_SETTING_NAMES, n);
    }
  }

  /** Settings without a legacy name are untouched by renaming. */
  lemma NeitherOldNorNew(i: nat)
    requires |LEGACY_SETTING_NAMES| <= i < |SETTINGS|
    requires forall k :: 0 <= k < |LEGACY_SETTING_NAMES| ==> LEGACY_SETTING_NAMES[k].1 == SETTINGS[k].name
    requires forall k, j :: 0 <= k < |LEGACY_SETTING_NAMES| && 0 <= j < |SETTINGS| ==>
      LEGACY_SETTING_NAMES[k].0 != SETTINGS[j].name
    requires DistinctSettings(SETTINGS)
    ensures !IsLegacy(LEGACY_SETTING_NAMES, SETTINGS[i].name) && !IsRenamed(LEGACY_SETTING_NAMES, SETTINGS[i].name)
  {
    hide LEGACY_SETTING_NAMES, SETTINGS;
    forall k | 0 <= k < |LEGACY_SETTING_NAMES|
      ensures LEGACY_SETTING_NAMES[k].1 != SETTINGS[i].name
    {
      assert SETTINGS[k].name != SETTINGS[i].name;
    }
  }

  // ----- what the operations do -----

  function AddDenyOverwrite(dirs: map<string, set<nat>>): map<string, set<nat>> {
    if TRASH_DIR_NAME in dirs then dirs[TRASH_DIR_NAME := dirs[TRASH_DIR_NAME] + {DIR_DENY_OVERWRITE}] else dirs
  }

  /** The compatible migration of databases from before version 2. */
  function Compatible(t: Tables): Tables {
    if t.userVersion >= 2 then t else t.(dirs := AddDenyOverwrite(t.dirs), userVersion := 2)
  }

  ghost predicate Malformed(parse: Parser, documents: map<Key, string>) {
    exists key :: key in documents && parse(documents[key]).None?
  }

  /** `rows` holds a row for every field of every document, and no other. */
  ghost predicate RowsOf(parse: Parser, documents: map<Key, string>, rows: map<(Key, string), StoredField>) {
    && (forall key, name ::
          (key, name) in rows <==>
            key in documents && parse(documents[key]).Some? && name in parse(documents[key]).value)
    && (forall key, name :: (key, name) in rows ==> rows[(key, name)] == parse(documents[key]).value[name])
  }

  datatype DatabaseError = MigrationNeeded(current: int) | InvalidVersion | SqlFailed

  class Database {
    const parse: Parser
    var tables: Tables

    constructor (parse: Parser, tables: Tables)
      ensures this.parse == parse && this.tables == tables
    {
      this.parse, this.tables := parse, tables;
    }

    method MigrateCompatibleDatabase() returns (r: Result<(), DatabaseError>)
      modifies this
      ensures old(tables).userVersion > DATABASE_SCHEMA_VERSION ==> r == Err(InvalidVersion) && tables == old(tables)
      ensures old(tables).userVersion <= DATABASE_SCHEMA_VERSION ==> r == Ok(()) && tables == Compatible(old(tables))
    {
      if tables.userVersion > DATABASE_SCHEMA_VERSION {
        return Err(InvalidVersion);
      }
      if tables.userVersion >= 2 {
        return Ok(());
      }
      var transaction := tables;
      if TRASH_DIR_NAME in transaction.dirs {
        transaction := transaction.(
          dirs := transaction.dirs[TRASH_DIR_NAME := transaction.dirs[TRASH_DIR_NAME] + {DIR_DENY_OVERWRITE}]);
      }
      transaction := transaction.(userVersion := 2);
      tables := transaction;
      r := Ok(());
    }

    method RequireCurrentSchema() returns (r: Result<(), DatabaseError>)
      ensures r ==
        if tables.userVersion < BREAKING_SCHEMA_VERSION then Err(MigrationNeeded(tables.userVersion))
        else if tables.userVersion > DATABASE_SCHEMA_VERSION then Err(InvalidVersion)
        else Ok(())
    {
      if tables.userVersion < BREAKING_SCHEMA_VERSION {
        return Err(MigrationNeeded(tables.userVersion));
      }
      if tables.userVersion > DATABASE_SCHEMA_VERSION {
        return Err(InvalidVersion);
      }
      r := Ok(());
    }

    method MigrateSettingNames()
      modifies this
      ensures tables == old(tables).(settings := Renamed(old(tables).settings, LEGACY_SETTING_NAMES))
    {
      hide LEGACY_SETTING_NAMES;
      var transaction := tables.settings;
      for i := 0 to |LEGACY_SETTING_NAMES|
        invariant transaction == Renamed(tables.settings, LEGACY_SETTING_NAMES[..i])
      {
        var legacy, name := LEGACY_SETTING_NAMES[i].0, LEGACY_SETTING_NAMES[i].1;
        assert LEGACY_SETTING_NAMES[..i + 1][..i] == LEGACY_SETTING_NAMES[..i];
        if legacy in transaction && name !in transaction {
          transaction := transaction[name := transaction[legacy]];
        }
        transaction := transaction - {legacy};
      }
      assert LEGACY_SETTING_NAMES[..|LEGACY_SETTING_NAMES|] == LEGACY_SETTING_NAMES;
      tables := tables.(settings := transaction);
    }

    method InsertMissingSettingDefaults()
      modifies this
      ensures tables == old(tables).(settings := Defaulted(old(tables).settings, SETTINGS))
    {
      hide SETTINGS;
      for i := 0 to |SETTINGS|
        invariant tables == old(tables).(settings := Defaulted(old(tables).settings, SETTINGS[..i]))
      {
        assert SETTINGS[..i + 1][..i] == SETTINGS[..i];
        if SETTINGS[i].name !in tables.settings {
          tables := tables.(settings := tables.settings[SETTINGS[i].name := Some(SETTINGS[i].default)]);
        }
      }
      assert SETTINGS[..|SETTINGS|] == SETTINGS;
    }

    /** Turns every document into rows in one transaction; a malformed document undoes all of it. */
    method MigrateFieldsToRows() returns (r: Result<(), DatabaseError>)
      requires tables.documents.Some? && tables.rows.None?
      modifies this
      ensures r.Err? <==> Malformed(parse, old(tables).documents.value)
      ensures r.Err? ==> r.error == SqlFailed && tables == old(tables)
      ensures r.Ok? ==>
        && tables.rows.Some? && RowsOf(parse, old(tables).documents.value, tables.rows.value)
        && tables == old(tables).(
             documents := None, rows := tables.rows, userVersion := DATABASE_SCHEMA_VERSION)
    {
      hide RowsOf;
      var documents := tables.documents.value;
      var rows: map<(Key, string), StoredField> := map[];
      var left := documents.Keys;
      RowsStart(parse, documents);
      while left != {}
        invariant left <= documents.Keys
        invariant tables == old(tables)
        invariant forall key :: key in documents.Keys - left ==> parse(documents[key]).Some?
        invariant RowsOf(parse, documents - left, rows)
        decreases |left|
      {
        var key :| key in left;
        var fields := parse(documents[key]);
        if fields.None? {
          return Err(SqlFailed);
        }
        ghost var before := rows;
        rows := InsertRows(rows, key, fields.value);
        RowsStep(parse, documents, left, key, before, rows);
        left := left - {key};
      }
      assert documents - {} == documents;
      tables := tables.(documents := None, rows := Some(rows), userVersion := DATABASE_SCHEMA_VERSION);
      r := Ok(());
    }

    /** Opening brings settings and compatible changes up to date, and insists on the current schema. */
    method Open() returns (r: Result<(), DatabaseError>)
      modifies this
      ensures OpenOutcome(old(tables), tables, r)
    {
      hide Settled, Compatible;
      var compatible := MigrateCompatibleDatabase();
      if compatible.Err? {
        return Err(compatible.error);
      }
      CompatibleVersion(old(tables));
      var current := RequireCurrentSchema();
      if current.Err? {
        return Err(current.error);
      }
      MigrateSettingNames();
      InsertMissingSettingDefaults();
      SettledSteps(old(tables));
      r := Ok(());
    }

    /** Migrating also performs the breaking step; `true` means that it was needed. */
    method Migrate() returns (r: Result<bool, DatabaseError>)
      requires WellFormed(tables)
      modifies this
      ensures MigrateOutcome(parse, old(tables), tables, r)
    {
      hide Settled, Compatible, RowsOf, Malformed, LEGACY_SETTING_NAMES, SETTINGS;
      var compatible := MigrateCompatibleDatabase();
      if compatible.Err? {
        return Err(compatible.error);
      }
      CompatibleVersion(old(tables));
      if tables.userVersion > DATABASE_SCHEMA_VERSION {
        return Err(InvalidVersion);
      }
      if tables.userVersion == DATABASE_SCHEMA_VERSION {
        MigrateSettingNames();
        InsertMissingSettingDefaults();
        SettledSteps(old(tables));
        return Ok(false);
      }
      var rows := MigrateFieldsToRows();
      if rows.Err? {
        return Err(rows.error);
      }
      ghost var migrated := tables;
      MigrateSettingNames();
      InsertMissingSettingDefaults();
      SettledSteps(migrated);
      r := Ok(true);
    }
  }

  method InsertRows(rows: map<(Key, string), StoredField>, key: Key, fields: Fields)
    returns (more: map<(Key, string), StoredField>)
    ensures forall k, n ::
      (k, n) in more <==> (k, n) in rows || (k == key && n in fields)
    ensures forall k, n :: (k, n) in more ==>
      more[(k, n)] == if k == key && n in fields then fields[n] else rows[(k, n)]
  {
    more := rows;
    var names := fields.Keys;
    while names != {}
      invariant names <= fields.Keys
      invariant forall k, n :: (k, n) in more <==> (k, n) in rows || (k == key && n in fields.Keys - names)
      invariant forall k, n :: (k, n) in more ==>
        more[(k, n)] == if k == key && n in fields.Keys - names then fields[n] else rows[(k, n)]
      decreases |names|
    {
      var name :| name in names;
      more := more[(key, name) := fields[name]];
      names := names - {name};
    }
  }

  lemma RowsStart(parse: Parser, documents: map<Key, string>)
    ensures RowsOf(parse, documents - documents.Keys, map[])
  {
  }

  lemma RowsStep(
    parse: Parser, documents: map<Key, string>, left: set<Key>, key: Key,
    before: map<(Key, string), StoredField>, after: map<(Key, string), StoredField>)
    requires key in left && left <= documents.Keys && parse(documents[key]).Some?
    requires RowsOf(parse, documents - left, before)
    requires forall k, n ::
      (k, n) in after <==> (k, n) in before || (k == key && n in parse(documents[key]).value)
    requires forall k, n :: (k, n) in after ==>
      after[(k, n)] ==
        if k == key && n in parse(documents[key]).value then parse(documents[key]).value[n] else before[(k, n)]
    ensures RowsOf(parse, documents - (left - {key}), after)
  {
    var rest, now := documents - left, documents - (left - {key});
    assert forall k :: k in now <==> k in rest || k == key;
  }

  lemma CompatibleVersion(t: Tables)
    ensures Compatible(t).userVersion == if t.userVersion >= 2 then t.userVersion else 2
    ensures Compatible(t).documents == t.documents && Compatible(t).rows == t.rows
    ensures Compatible(t).settings == t.settings
    ensures t.userVersion >= 2 ==> Compatible(t) == t
  {
  }

  lemma SettledSteps(t: Tables)
    ensures
      var renamed := t.(settings := Renamed(t.settings, LEGACY_SETTING_NAMES));
      renamed.(settings := Defaulted(renamed.settings, SETTINGS)) == t.(settings := Settled(t.settings))
  {
    hide LEGACY_SETTING_NAMES, SETTINGS;
  }

  ghost predicate OpenOutcome(before: Tables, after: Tables, r: Result<(), DatabaseError>) {
    if before.userVersion > DATABASE_SCHEMA_VERSION then r == Err(InvalidVersion) && after == before
    else if before.userVersion < BREAKING_SCHEMA_VERSION then
      r == Err(MigrationNeeded(2)) && after == Compatible(before)
    else r == Ok(()) && after == before.(settings := Settled(before.settings))
  }

  ghost predicate MigrateOutcome(parse: Parser, before: Tables, after: Tables, r: Result<bool, DatabaseError>) {
    if before.userVersion > DATABASE_SCHEMA_VERSION then r == Err(InvalidVersion) && after == before
    else if before.userVersion == DATABASE_SCHEMA_VERSION then
      r == Ok(false) && after == before.(settings := Settled(before.settings))
    else if before.documents.None? then false
    else if Malformed(parse, before.documents.value) then
      r == Err(SqlFailed) && after == Compatible(before)
    else
      && r == Ok(true)
      && after.rows.Some? && RowsOf(parse, before.documents.value, after.rows.value)
      && after == Compatible(before).(
           documents := None, rows := after.rows, userVersion := DATABASE_SCHEMA_VERSION,
           settings := Settled(before.settings))
  }

  // ----- runs -----

  datatype Operation = OpenIt | MigrateIt

  ghost predicate StepOf(parse: Parser, before: Tables, operation: Operation, after: Tables) {
    match operation
    case OpenIt => exists r :: OpenOutcome(before, after, r)
    case MigrateIt => exists r :: MigrateOutcome(parse, before, after, r)
  }

  ghost predicate RunOf(parse: Parser, states: seq<Tables>, operations: seq<Operation>) {
    && |states| == |operations| + 1
    && forall i :: 0 <= i < |operations| ==> StepOf(parse, states[i], operations[i], states[i + 1])
  }

  /** What an operation may not change. */
  ghost predicate Preserves(parse: Parser, before: Tables, after: Tables) {
    && before.userVersion <= after.userVersion
    && (forall key, name :: Lookup(parse, after, key, name) == Lookup(parse, before, key, name))
    && (forall i :: 0 <= i < |SETTINGS| ==> EffectiveValue(after.settings, i) == EffectiveValue(before.settings, i))
    && after.dirs.Keys == before.dirs.Keys
    && (forall d :: d in before.dirs ==>
          before.dirs[d] <= after.dirs[d] && (d != TRASH_DIR_NAME ==> after.dirs[d] == before.dirs[d]))
  }

  lemma LookupInRows(parse: Parser, before: Tables, after: Tables, key: Key, name: string)
    requires before.documents.Some? && !Malformed(parse, before.documents.value)
    requires after.documents.None? && after.rows.Some? && RowsOf(parse, before.documents.value, after.rows.value)
    ensures Lookup(parse, after, key, name) == Lookup(parse, before, key, name)
  {
  }

  lemma SettledKeepsEffective(s: Settings)
    ensures forall i :: 0 <= i < |SETTINGS| ==> EffectiveValue(Settled(s), i) == EffectiveValue(s, i)
  {
    hide SETTINGS, LEGACY_SETTING_NAMES, Settled;
    SettledMeans(s);
  }

  lemma StepPreserves(parse: Parser, before: Tables, operation: Operation, after: Tables)
    requires WellFormed(before) && StepOf(parse, before, operation, after)
    ensures WellFormed(after) && Preserves(parse, before, after)
  {
    hide SETTINGS, LEGACY_SETTING_NAMES, Settled, EffectiveValue, RowsOf, Malformed, Lookup;
    SettledKeepsEffective(before.settings);
    CompatibleVersion(before);
    forall key, name
      ensures Lookup(parse, after, key, name) == Lookup(parse, before, key, name)
    {
      LookupKept(parse, before, operation, after, key, name);
    }
  }

  lemma LookupKept(parse: Parser, before: Tables, operation: Operation, after: Tables, key: Key, name: string)
    requires WellFormed(before) && StepOf(parse, before, operation, after)
    ensures Lookup(parse, after, key, name) == Lookup(parse, before, key, name)
  {
    hide SETTINGS, LEGACY_SETTING_NAMES, Settled, RowsOf, Malformed;
    CompatibleVersion(before);
    if before.documents.Some? && after.documents.None? {
      LookupInRows(parse, before, after, key, name);
    }
  }

  lemma PreservesTransitive(parse: Parser, a: Tables, b: Tables, c: Tables)
    requires Preserves(parse, a, b) && Preserves(parse, b, c)
    ensures Preserves(parse, a, c)
  {
    hide SETTINGS, LEGACY_SETTING_NAMES, EffectiveValue, Lookup;
    assert forall d :: d in a.dirs ==> d in b.dirs;
  }

  /**
   * Over any sequence of opens and migrations the schema version never decreases, every field
   * of every item version reads the same, every setting keeps its effective value, and no
   * directory loses a bit of its mask.
   */
  lemma {:induction false} RunPreserves(parse: Parser, states: seq<Tables>, operations: seq<Operation>, i: nat, j: nat)
    requires i <= j < |states|
    requires RunOf(parse, states, operations) && WellFormed(states[0])
    ensures WellFormed(states[i]) && WellFormed(states[j]) && Preserves(parse, states[i], states[j])
    decreases j
  {
    hide StepOf, Preserves, WellFormed;
    if j == 0 {
      PreservesSelf(parse, states[0]);
    } else if i == j {
      RunPreserves(parse, states, operations, j - 1, j - 1);
      StepPreserves(parse, states[j - 1], operations[j - 1], states[j]);
      PreservesSelf(parse, states[j]);
    } else {
      RunPreserves(parse, states, operations, i, j - 1);
      StepPreserves(parse, states[j - 1], operations[j - 1], states[j]);
      PreservesTransitive(parse, states[i], states[j - 1], states[j]);
    }
  }

  lemma PreservesSelf(parse: Parser, t: Tables)
    ensures Preserves(parse, t, t)
  {
  }

  /** A repeated migration finds nothing left to do, and so does a repeated open. */
  lemma MigrateTwice(
    parse: Parser, t: Tables, once: Tables, twice: Tables, r: Result<bool, DatabaseError>, s: Result<bool, DatabaseError>)
    requires WellFormed(t) && MigrateOutcome(parse, t, once, r) && r.Ok?
    requires MigrateOutcome(parse, once, twice, s)
    ensures s == Ok(false) && twice == once
    ensures OpenOutcome(once, once, Ok(()))
  {
    hide SETTINGS, LEGACY_SETTING_NAMES, Settled, RowsOf, Malformed;
    SettledMeans(t.settings);
    CompatibleVersion(t);
  }

  /**
   * From version 2, migrating fails exactly when some document is malformed, and then leaves
   * every table as it was.
   */
  lemma MalformedUndoes(parse: Parser, t: Tables, after: Tables, r: Result<bool, DatabaseError>)
    requires WellFormed(t) && t.userVersion == 2 && MigrateOutcome(parse, t, after, r)
    ensures r.Err? <==> Malformed(parse, t.documents.value)
    ensures r.Err? ==> after == t
  {
    hide SETTINGS, LEGACY_SETTING_NAMES, Settled, RowsOf, Malformed;
  }

  // ----- what databases end up with -----

  /** Databases from before version 2 get one bit on one directory, if it exists; later ones none. */
  lemma DirsMean(parse: Parser, before: Tables, operation: Operation, after: Tables)
    requires WellFormed(before) && StepOf(parse, before, operation, after)
    ensures after.dirs ==
      if before.userVersion < 2 && "Trash" in before.dirs
      then before.dirs["Trash" := before.dirs["Trash"] + {2}] else before.dirs
    ensures before.userVersion < 2 ==> after.userVersion >= 2
    ensures operation == MigrateIt && before.userVersion <= 3 ==>
      after.userVersion == 3 || (after.userVersion == (if before.userVersion < 2 then 2 else before.userVersion)
                                 && Malformed(parse, before.documents.value))
  {
    hide SETTINGS, LEGACY_SETTING_NAMES, Settled, RowsOf, Malformed;
  }

  /** What is set in a database that had no settings. */
  const DefaultValues: seq<(string, string)> := [
    ("agent.authTtlSeconds", "900"),
    ("agent.settingsAuthTtlSeconds", "300"),
    ("agent.denialTtlSeconds", "60"),
    ("agent.gcSeconds", "3600"),
    ("agent.autoDeleteTrashItemsAfterSeconds", "15552000"),
    ("agent.autoDeleteOldVersionsAfterSeconds", "15552000"),
    ("agent.trustedProgramPaths", "[]"),
    ("agent.processIdentificationType", "process-chain"),
    ("cli.clearClipboardAfterSeconds", "30")]

  /** A database without settings ends up with the defaults, and with nothing else. */
  lemma DefaultsSettled()
    ensures forall i :: 0 <= i < |DefaultValues| ==>
      && DefaultValues[i].0 in Settled(map[])
      && Settled(map[])[DefaultValues[i].0] == Some(DefaultValues[i].1)
    ensures forall n :: n in Settled(map[]) ==> exists i :: 0 <= i < |DefaultValues| && DefaultValues[i].0 == n
  {
    SettledMeans(map[]);
    SameDefaults();
    hide Settled, SETTINGS, DefaultValues, LEGACY_SETTING_NAMES;
    forall n | n in Settled(map[])
      ensures exists i :: 0 <= i < |DefaultValues| && DefaultValues[i].0 == n
    {
      assert IsSetting(SETTINGS, n);
      var i :| 0 <= i < |SETTINGS| && SETTINGS[i].name == n;
      assert DefaultValues[i].0 == n;
    }
  }

  lemma SameDefaults()
    ensures |SETTINGS| == |DefaultValues|
    ensures forall i :: 0 <= i < |SETTINGS| ==> SETTINGS[i] == Setting(DefaultValues[i].0, DefaultValues[i].1)
  {
    assert |SETTINGS| == 9;
  }

  /** The older names of the first settings. */
  const OlderNames: seq<string> := [
    "user.authTtlSeconds",
    "user.settingsAuthTtlSeconds",
    "user.denialTtlSeconds",
    "user.gcSeconds",
    "user.autoDeleteTrashItemsAfterSeconds",
    "user.autoDeleteOldVersionsAfterSeconds",
    "user.trustedProgramPaths"]

  /**
   * A database whose settings all have their older names ends up with the same values under the
   * new ones, and defaults for the rest.
   */
  lemma OlderNamesSettled(s: Settings)
    requires forall i :: 0 <= i < |OlderNames| ==> OlderNames[i] in s
    requires forall i :: 0 <= i < |DefaultValues| ==> DefaultValues[i].0 !in s
    ensures forall i :: 0 <= i < |OlderNames| ==>
      && i < |DefaultValues| && OlderNames[i] !in Settled(s)
      && DefaultValues[i].0 in Settled(s) && Settled(s)[DefaultValues[i].0] == s[OlderNames[i]]
    ensures forall i :: |OlderNames| <= i < |DefaultValues| ==>
      DefaultValues[i].0 in Settled(s) && Settled(s)[DefaultValues[i].0] == Some(DefaultValues[i].1)
  {
    SettledMeans(s);
    SameDefaults();
    SameOlderNames();
    hide Settled, SETTINGS, DefaultValues, LEGACY_SETTING_NAMES, OlderNames;
  }

  lemma SameOlderNames()
    ensures |LEGACY_SETTING_NAMES| == |OlderNames| <= |DefaultValues|
    ensures forall i :: 0 <= i < |OlderNames| ==> LEGACY_SETTING_NAMES[i].0 == OlderNames[i]
  {
    assert |LEGACY_SETTING_NAMES| == 7;
  }
}
