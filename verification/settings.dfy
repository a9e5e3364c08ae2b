/** `settings` and `friendly_value` of lib/pghero.rb: nine server settings, each
    shown with the largest of GB, MB or kB that divides it when the server gives
    it in kB or 8kB pages. */
module Settings {
  import opened Wrappers
  import opened Text
  import opened Grouping

  /** A row of `pg_settings`: name, setting text and unit (`nil` for unitless settings). */
  datatype SettingRow = SettingRow(name: string, setting: string, unit: Option<string>)

  /** One entry of the hash `settings` returns. */
  datatype SettingValue = SettingValue(name: string, value: Option<string>)

  const Kibibyte := 1024
  const Gibibyte := 1048576

  /** The names `settings` asks for, in the order it returns them. */
  const Names: seq<string> := [
    "max_connections", "shared_buffers", "effective_cache_size", "work_mem",
    "maintenance_work_mem", "checkpoint_segments", "checkpoint_completion_target",
    "wal_buffers", "default_statistics_target"]

  predicate IsSizeUnit(unit: Option<string>) {
    unit == Some("kB") || unit == Some("8kB")
  }

  /** The size in kB of a setting given in kB or 8kB pages (`setting.to_i`, times
      8 for pages). */
  function SizeInKb(setting: string, unit: Option<string>): int {
    ToI(setting) * (if unit == Some("8kB") then 8 else 1)
  }

  /** The number of kB one unit of a suffix stands for. */
  function SuffixFactor(suffix: string): int {
    if suffix == "GB" then Gibibyte else if suffix == "MB" then Kibibyte else 1
  }

  /** `r` reads back as `v` kB: a number followed by GB, MB or kB, the number
      times the suffix's factor being `v`, and the suffix the largest whose
      factor divides `v`. */
  predicate ReadsBackAs(r: string, v: int) {
    && |r| >= 2
    && var suffix := r[|r| - 2..];
       && (suffix == "GB" || suffix == "MB" || suffix == "kB")
       && ToI(r) * SuffixFactor(suffix) == v
       && (suffix == "GB" <==> v % Gibibyte == 0)
       && (suffix == "MB" <==> v % Gibibyte != 0 && v % Kibibyte == 0)
  }

  lemma PrintedWithSuffix(n: int, suffix: string, v: int)
    requires suffix == "GB" || suffix == "MB" || suffix == "kB"
    requires n * SuffixFactor(suffix) == v
    requires suffix == "GB" <==> v % Gibibyte == 0
    requires suffix == "MB" <==> v % Gibibyte != 0 && v % Kibibyte == 0
    ensures ReadsBackAs(IntToString(n) + suffix, v)
  {
    var r := IntToString(n) + suffix;
    IntToStringRoundTrip(n, suffix);
    assert r[|r| - 2..] == suffix;
  }

  /** `friendly_value`: a size in kB or 8kB pages is printed in the largest of
      GB, MB or kB that divides it, and reads back as the size; any other setting
      is the setting and its unit with surrounding whitespace stripped. Ruby's `/`
      and `%` by a positive divisor floor, as Dafny's do. */
  function FriendlyValue(setting: string, unit: Option<string>): (r: string)
    ensures IsSizeUnit(unit) ==> ReadsBackAs(r, SizeInKb(setting, unit))
    ensures !IsSizeUnit(unit) ==> StrippedFrom(r, setting + unit.GetOr(""))
  {
    if IsSizeUnit(unit) then
      var v := SizeInKb(setting, unit);
      if v % Gibibyte == 0 then
        assert "GB" != "MB";
        PrintedWithSuffix(v / Gibibyte, "GB", v);
        IntToString(v / Gibibyte) + "GB"
      else if v % Kibibyte == 0 then
        assert "MB" != "GB";
        PrintedWithSuffix(v / Kibibyte, "MB", v);
        IntToString(v / Kibibyte) + "MB"
      else
        assert "kB" != "GB" && "kB" != "MB";
        PrintedWithSuffix(v, "kB", v);
        IntToString(v) + "kB"
    else Strip(setting + unit.GetOr(""))
  }

  function NameOf(row: SettingRow): string { row.name }

  /** `pg_settings` has one row per setting name. */
  predicate DistinctNames(rows: seq<SettingRow>) {
    forall i, j :: 0 <= i < j < |rows| ==> rows[i].name != rows[j].name
  }

  /** The entry for `name` in the hash built from the rows. */
  function EntryFor(byName: map<string, SettingRow>, name: string): SettingValue {
    SettingValue(name, if name in byName then Some(FriendlyValue(byName[name].setting, byName[name].unit)) else None)
  }

  /** `settings`, given the rows `pg_settings` returns for `Names`: each name in
      order, with the friendly value of its row, or `None` for a name the server
      does not have. */
  function SettingsOf(rows: seq<SettingRow>): (r: seq<SettingValue>)
    requires DistinctNames(rows)
    ensures |r| == |Names|
    ensures forall i :: 0 <= i < |Names| ==> r[i].name == Names[i]
    ensures forall i :: 0 <= i < |Names| ==>
      (r[i].value.None? <==> forall k :: 0 <= k < |rows| ==> rows[k].name != Names[i])
    ensures forall i, k :: 0 <= i < |Names| && 0 <= k < |rows| && rows[k].name == Names[i] ==>
      r[i].value == Some(FriendlyValue(rows[k].setting, rows[k].unit))
  {
    var byName := IndexBy(rows, NameOf);
    var r := seq(|Names|, i requires 0 <= i < |Names| => EntryFor(byName, Names[i]));
    SettingsLookup(rows, byName, Names, r);
    r
  }

  lemma SettingsLookup(rows: seq<SettingRow>, byName: map<string, SettingRow>, names: seq<string>, r: seq<SettingValue>)
    requires DistinctNames(rows) && byName == IndexBy(rows, NameOf)
    requires |r| == |names|
    requires forall i :: 0 <= i < |names| ==> r[i] == EntryFor(byName, names[i])
    ensures forall i :: 0 <= i < |names| ==>
      (r[i].value.None? <==> forall k :: 0 <= k < |rows| ==> rows[k].name != names[i])
    ensures forall i, k :: 0 <= i < |names| && 0 <= k < |rows| && rows[k].name == names[i] ==>
      r[i].value == Some(FriendlyValue(rows[k].setting, rows[k].unit))
  {
    forall i | 0 <= i < |names|
      ensures r[i].value.None? <==> forall k :: 0 <= k < |rows| ==> rows[k].name != names[i]
    {
      RowFor(rows, byName, names[i]);
    }
    forall i, k | 0 <= i < |names| && 0 <= k < |rows| && rows[k].name == names[i]
      ensures r[i].value == Some(FriendlyValue(rows[k].setting, rows[k].unit))
    {
      RowFor(rows, byName, names[i]);
    }
  }

  /** With distinct names, the hash holds a name exactly when a row has it, and
      then it holds that row. */
  lemma RowFor(rows: seq<SettingRow>, byName: map<string, SettingRow>, name: string)
    requires DistinctNames(rows) && byName == IndexBy(rows, NameOf)
    ensures name !in byName <==> forall k :: 0 <= k < |rows| ==> rows[k].name != name
    ensures forall k :: 0 <= k < |rows| && rows[k].name == name ==> name in byName && byName[name] == rows[k]
  {
    forall k | 0 <= k < |rows| && rows[k].name == name
      ensures name in byName && byName[name] == rows[k]
    {
      assert NameOf(rows[k]) in byName;
      IndexByKeepsLast(rows, NameOf, name);
      var j :| 0 <= j < |rows| && rows[j] == byName[name] && NameOf(rows[j]) == name;
      assert j == k;
    }
    if name in byName {
      var k :| 0 <= k < |rows| && NameOf(rows[k]) == name;
    }
  }
}
