/** The time-zone catalogue of `get_timezones`: the six US zones, every
    `Africa/` zone and UTC, each shown as `(UTC±HH:MM) label`, sorted by
    offset and then by zone name; and the `next(...)` lookups that turn a
    shown label back into a zone name.

    The offset of each zone at the current instant (`utcoffset()` through
    pytz) is the parameter `offsetOf`, in whole minutes; the zone database
    `pytz.all_timezones` is the parameter `allZones`. */
module Catalogue {
  import opened Wrappers
  import opened Text
  import opened Sorting

  /** `us_timezones`, in the order the source lists them; each name is
      written as its region followed by its city. */
  const UsTimezones: seq<string> := [
    "America/" + "Los_Angeles", "America/" + "Denver", "America/" + "Chicago",
    "America/" + "New_York", "America/" + "Anchorage", "Pacific/" + "Honolulu"]

  /** The zone name `next(...)` falls back to. */
  const FallbackZone: string := "Etc/UTC"

  /** The text shown for the local zone when no entry mentions Pacific Time. */
  const FallbackLocalDisplay: string := "(UTC-07:00) US Pacific Time"

  // ------------------------------------------------------- offset text

  function Abs(m: int): nat
  {
    if m < 0 then -m else m
  }

  /** `'+' if total_minutes >= 0 else '-'`. */
  function SignChar(minutes: int): (c: char)
    ensures c == '+' <==> minutes >= 0
    ensures c == '+' || c == '-'
  {
    if minutes >= 0 then '+' else '-'
  }

  /** `divmod(abs(int(total_minutes)), 60)`: whole hours and the minutes
      left over. */
  function SplitOffset(minutes: int): (r: (nat, nat))
    ensures r.0 * 60 + r.1 == Abs(minutes) && r.1 < 60
  {
    (Abs(minutes) / 60, Abs(minutes) % 60)
  }

  /** `f"UTC{sign}{hours:02d}:{minutes:02d}"`. */
  function OffsetText(minutes: int): string
  {
    var (h, m) := SplitOffset(minutes);
    "UTC" + [SignChar(minutes)] + Pad2(h) + ":" + Pad2(m)
  }

  /** `f"({offset text}) {label}"`. */
  function DisplayName(minutes: int, heading: string): string
  {
    "(" + OffsetText(minutes) + ") " + heading
  }

  /** Reads `UTC±HH:MM` back into signed minutes. */
  function ParseOffset(s: string): Option<int>
  {
    if |s| == 9 && s[..3] == "UTC" && (s[3] == '+' || s[3] == '-') && s[6] == ':'
       && IsDigits(s[4..6]) && IsDigits(s[7..])
    then
      var v := DigitsValue(s[4..6]) * 60 + DigitsValue(s[7..]);
      Some(if s[3] == '+' then v else -v)
    else None
  }

  /** Reads a shown entry back into its offset and its label. */
  function ParseDisplayName(s: string): Option<(int, string)>
  {
    if |s| >= 12 && s[0] == '(' && s[10..12] == ") " then
      match ParseOffset(s[1..10])
      case None => None
      case Some(m) => Some((m, s[12..]))
    else None
  }

  /** Below 100 hours the offset text is nine characters whose sign is '+'
      exactly for offsets of zero or more, and it reads back as the offset. */
  lemma OffsetTextRoundTrip(minutes: int)
    requires Abs(minutes) < 6000
    ensures |OffsetText(minutes)| == 9
    ensures OffsetText(minutes)[3] == '+' <==> minutes >= 0
    ensures ParseOffset(OffsetText(minutes)) == Some(minutes)
  {
    var (h, m) := SplitOffset(minutes);
    Pad2RoundTrip(h);
    Pad2RoundTrip(m);
    var s := OffsetText(minutes);
    assert s[..3] == "UTC";
    assert s[4..6] == Pad2(h);
    assert s[7..] == Pad2(m);
  }

  /** A shown entry reads back as its offset and its label. */
  lemma DisplayNameRoundTrip(minutes: int, heading: string)
    requires Abs(minutes) < 6000
    ensures ParseDisplayName(DisplayName(minutes, heading)) == Some((minutes, heading))
    ensures DisplayName(minutes, heading)[4] == '+' <==> minutes >= 0
  {
    OffsetTextRoundTrip(minutes);
    var s := DisplayName(minutes, heading);
    assert s[1..10] == OffsetText(minutes);
    assert s[10..12] == ") ";
    assert s[12..] == heading;
  }

  lemma PacificOffset()
    ensures OffsetText(-420) == "UTC-07:00"
  {
    assert Pad2(7) == "07" && Pad2(0) == "00";
  }

  lemma UtcOffset()
    ensures OffsetText(0) == "UTC+00:00"
  {
    assert Pad2(0) == "00";
  }

  /** A display is its offset text in brackets, then the label. */
  lemma DisplayOf(minutes: int, offset: string, heading: string)
    requires OffsetText(minutes) == offset
    ensures DisplayName(minutes, heading) == "(" + offset + ") " + heading
  {
  }

  /** The fallback display the source writes by hand is the one the format
      gives for Los Angeles at UTC-7 (its label is `PacificLabel`). */
  lemma PacificDefault()
    ensures DisplayName(-420, "US Pacific Time") == FallbackLocalDisplay
  {
    PacificOffset();
    DisplayOf(-420, "UTC-07:00", "US Pacific Time");
    FallbackParts();
  }

  lemma FallbackParts()
    ensures FallbackLocalDisplay == "(" + "UTC-07:00" + ") " + "US Pacific Time"
  {
  }

  /** UTC is shown under its own name at offset zero. */
  lemma UtcDisplay()
    ensures DisplayName(0, "UTC") == "(UTC+00:00) UTC"
  {
    UtcOffset();
    DisplayOf(0, "UTC+00:00", "UTC");
  }

  // -------------------------------------------------------------- labels

  /** The label of one of the six US zones, chosen by the first city name
      found in it. */
  function UsLabel(name: string): string
  {
    if Contains(name, "Los_Angeles") then "US Pacific Time"
    else if Contains(name, "Denver") then "US Mountain Time"
    else if Contains(name, "Chicago") then "US Central Time"
    else if Contains(name, "New_York") then "US Eastern Time"
    else if Contains(name, "Anchorage") then "US Alaska Time"
    else "US Hawaii Time"
  }

  /** `tz_name.split('/')[-1].replace('_', ' ')`. */
  function RegionalLabel(name: string): string
  {
    ReplaceChar(LastPiece(name, '/'), '_', ' ')
  }

  function Label(name: string): string
  {
    if name in UsTimezones then UsLabel(name) else RegionalLabel(name)
  }

  /** A regional label is the part of the name after its last '/', with
      underscores shown as spaces; it holds neither character. */
  lemma RegionalLabelSpec(name: string)
    ensures var l := RegionalLabel(name);
      '/' !in l && '_' !in l && |l| <= |name|
      && forall i :: 0 <= i < |l| ==>
           l[i] == (if name[|name| - |l| + i] == '_' then ' ' else name[|name| - |l| + i])
    ensures RegionalLabel(name) == name <==> '/' !in name && '_' !in name
  {
    LastPieceIsSuffix(name, '/');
    var p := LastPiece(name, '/');
    var l := RegionalLabel(name);
    forall i | 0 <= i < |l| ensures l[i] != '/' {
      assert p[i] in p;
    }
    if '/' !in name {
      RegionalLabelWithout(name);
      if '_' in name {
        var i :| 0 <= i < |name| && name[i] == '_';
        assert l[i] == ' ';
      }
    } else {
      var i :| 0 <= i < |name| && name[i] == '/';
    }
  }

  /** A name without '/' is its own last piece. */
  lemma RegionalLabelWithout(name: string)
    requires '/' !in name
    ensures RegionalLabel(name) == ReplaceChar(name, '_', ' ')
  {
    SplitWithout(name, '/');
  }

  /** Each US zone gets the label its comment names: none of the names
      holds the first letter of a city tested before its own. */
  lemma UsLabels()
    ensures UsLabel(UsTimezones[0]) == "US Pacific Time"
    ensures UsLabel(UsTimezones[1]) == "US Mountain Time"
    ensures UsLabel(UsTimezones[2]) == "US Central Time"
    ensures UsLabel(UsTimezones[3]) == "US Eastern Time"
    ensures UsLabel(UsTimezones[4]) == "US Alaska Time"
    ensures UsLabel(UsTimezones[5]) == "US Hawaii Time"
    ensures Label("UTC") == "UTC"
  {
    assert "UTC" !in UsTimezones;
    RegionalLabelSpec("UTC");
    PacificLabel();
    MountainLabel();
    CentralLabel();
    EasternLabel();
    AlaskaLabel();
    HawaiiLabel();
  }

  /** A name lacking the first letters of the cities tested before one of
      its own gets that city's label. */
  lemma UsLabelCases(name: string)
    ensures Contains(name, "Los_Angeles") ==> UsLabel(name) == "US Pacific Time"
    ensures 'L' !in name && Contains(name, "Denver") ==> UsLabel(name) == "US Mountain Time"
    ensures 'L' !in name && 'D' !in name && Contains(name, "Chicago") ==> UsLabel(name) == "US Central Time"
    ensures 'L' !in name && 'D' !in name && 'C' !in name && Contains(name, "New_York") ==> UsLabel(name) == "US Eastern Time"
    ensures 'L' !in name && 'D' !in name && 'C' !in name && 'N' !in name && Contains(name, "Anchorage") ==> UsLabel(name) == "US Alaska Time"
    ensures 'L' !in name && 'D' !in name && 'C' !in name && 'N' !in name && 'A' !in name ==> UsLabel(name) == "US Hawaii Time"
  {
    if 'L' !in name {
      ContainsFirst(name, "Los_Angeles");
    }
    if 'D' !in name {
      ContainsFirst(name, "Denver");
    }
    if 'C' !in name {
      ContainsFirst(name, "Chicago");
    }
    if 'N' !in name {
      ContainsFirst(name, "New_York");
    }
    if 'A' !in name {
      ContainsFirst(name, "Anchorage");
    }
  }

  lemma PacificLabel()
    ensures UsLabel(UsTimezones[0]) == "US Pacific Time"
  {
    var name := "America/" + "Los_Angeles";
    ContainsSuffix("America/", "Los_Angeles");
    UsLabelCases(name);
  }

  lemma MountainLabel()
    ensures UsLabel(UsTimezones[1]) == "US Mountain Time"
  {
    var name := "America/" + "Denver";
    assert 'L' !in name;
    ContainsSuffix("America/", "Denver");
    UsLabelCases(name);
  }

  lemma CentralLabel()
    ensures UsLabel(UsTimezones[2]) == "US Central Time"
  {
    var name := "America/" + "Chicago";
    assert 'L' !in name && 'D' !in name;
    ContainsSuffix("America/", "Chicago");
    UsLabelCases(name);
  }

  lemma EasternLabel()
    ensures UsLabel(UsTimezones[3]) == "US Eastern Time"
  {
    var name := "America/" + "New_York";
    assert 'L' !in name && 'D' !in name && 'C' !in name;
    ContainsSuffix("America/", "New_York");
    UsLabelCases(name);
  }

  lemma AlaskaLabel()
    ensures UsLabel(UsTimezones[4]) == "US Alaska Time"
  {
    var name := "America/" + "Anchorage";
    assert 'L' !in name && 'D' !in name && 'C' !in name && 'N' !in name;
    ContainsSuffix("America/", "Anchorage");
    UsLabelCases(name);
  }

  lemma HawaiiLabel()
    ensures UsLabel(UsTimezones[5]) == "US Hawaii Time"
  {
    var name := "Pacific/" + "Honolulu";
    assert 'L' !in name && 'D' !in name && 'C' !in name && 'N' !in name && 'A' !in name;
    UsLabelCases(name);
  }

  // ------------------------------------------------------------- entries

  /** One `(offset, display_name, tz_name)` of `tz_list`. */
  datatype TzEntry = TzEntry(offset: int, display: string, name: string)

  function EntryOf(name: string, offset: int): TzEntry
  {
    TzEntry(offset, DisplayName(offset, Label(name)), name)
  }

  predicate IsAfrican(name: string)
  {
    "Africa/" <= name
  }

  /** `us_timezones + africa_timezones + ['UTC']`. */
  function SelectedZones(allZones: seq<string>): seq<string>
  {
    UsTimezones + Filter(allZones, IsAfrican) + ["UTC"]
  }

  /** The entries `tz_list` receives, one per name, in that order. */
  function Entries(names: seq<string>, offsetOf: string -> int): (r: seq<TzEntry>)
    ensures |r| == |names|
    ensures forall i :: 0 <= i < |names| ==> r[i] == EntryOf(names[i], offsetOf(names[i]))
  {
    MapSeq(names, EntryMaker(offsetOf))
  }

  /** The entry of a name under the given offsets. */
  function EntryMaker(offsetOf: string -> int): string -> TzEntry
  {
    name => EntryOf(name, offsetOf(name))
  }

  /** The sort key `(x[0], x[2])`: offset first, then zone name. */
  predicate KeyLe(a: TzEntry, b: TzEntry)
  {
    a.offset < b.offset || (a.offset == b.offset && StrLe(a.name, b.name))
  }

  lemma KeyLeOrders()
    ensures TotalPreorder(KeyLe)
  {
    forall a: TzEntry, b: TzEntry ensures KeyLe(a, b) || KeyLe(b, a) {
      StrLeTotal(a.name, b.name);
    }
    forall a: TzEntry, b: TzEntry, c: TzEntry | KeyLe(a, b) && KeyLe(b, c) ensures KeyLe(a, c) {
      if a.offset == b.offset == c.offset {
        StrLeTransitive(a.name, b.name, c.name);
      }
    }
  }

  /** `(display, tz_name)` of each entry. */
  function Choices(es: seq<TzEntry>): (r: seq<(string, string)>)
    ensures |r| == |es|
    ensures forall i :: 0 <= i < |es| ==> r[i] == (es[i].display, es[i].name)
  {
    seq(|es|, i requires 0 <= i < |es| => (es[i].display, es[i].name))
  }

  /** `tz_list` after its sort. */
  function SortedEntries(allZones: seq<string>, offsetOf: string -> int): seq<TzEntry>
  {
    SortBy(Entries(SelectedZones(allZones), offsetOf), KeyLe)
  }

  /** What `get_timezones` returns. */
  function Timezones(allZones: seq<string>, offsetOf: string -> int): seq<(string, string)>
  {
    Choices(SortedEntries(allZones, offsetOf))
  }

  /** The catalogue lists every selected zone once per time it is selected,
      each under its own display text, ordered by offset and then by name. */
  lemma TimezonesSpec(allZones: seq<string>, offsetOf: string -> int)
    ensures var r := Timezones(allZones, offsetOf);
      forall i, j :: 0 <= i < j < |r| ==>
        offsetOf(r[i].1) < offsetOf(r[j].1)
        || (offsetOf(r[i].1) == offsetOf(r[j].1) && StrLe(r[i].1, r[j].1))
    ensures var r := Timezones(allZones, offsetOf);
      forall i :: 0 <= i < |r| ==>
        r[i].0 == DisplayName(offsetOf(r[i].1), Label(r[i].1))
    ensures multiset(SortedEntries(allZones, offsetOf)) == multiset(Entries(SelectedZones(allZones), offsetOf))
    ensures forall name :: name in SelectedZones(allZones) <==>
      exists i :: 0 <= i < |Timezones(allZones, offsetOf)| && Timezones(allZones, offsetOf)[i].1 == name
  {
    CatalogueOf(SelectedZones(allZones), offsetOf);
  }

  /** The same facts for any list of names. */
  lemma CatalogueOf(names: seq<string>, offsetOf: string -> int)
    ensures var r := Choices(SortBy(Entries(names, offsetOf), KeyLe));
      forall i, j :: 0 <= i < j < |r| ==>
        offsetOf(r[i].1) < offsetOf(r[j].1)
        || (offsetOf(r[i].1) == offsetOf(r[j].1) && StrLe(r[i].1, r[j].1))
    ensures var r := Choices(SortBy(Entries(names, offsetOf), KeyLe));
      forall i :: 0 <= i < |r| ==>
        r[i].0 == DisplayName(offsetOf(r[i].1), Label(r[i].1))
    ensures multiset(SortBy(Entries(names, offsetOf), KeyLe)) == multiset(Entries(names, offsetOf))
    ensures var r := Choices(SortBy(Entries(names, offsetOf), KeyLe));
      forall name :: name in names <==> exists i :: 0 <= i < |r| && r[i].1 == name
  {
    var es := Entries(names, offsetOf);
    var sorted := SortBy(es, KeyLe);
    var r := Choices(sorted);
    KeyLeOrders();
    SortBySpec(es, KeyLe);
    SortByPermutes(es, KeyLe);
    EntriesNamed(names, offsetOf);
    forall i | 0 <= i < |sorted|
      ensures sorted[i] == EntryOf(r[i].1, offsetOf(r[i].1))
    {
      assert sorted[i] in sorted;
    }
    forall name ensures name in names <==> exists i :: 0 <= i < |r| && r[i].1 == name {
      if name in names {
        var e :| e in es && e.name == name;
        var i :| 0 <= i < |sorted| && sorted[i] == e;
        assert r[i].1 == name;
      }
      if exists i :: 0 <= i < |r| && r[i].1 == name {
        var i :| 0 <= i < |r| && r[i].1 == name;
        assert sorted[i] in sorted;
      }
    }
  }

  /** Each entry is the one built from its own name, and the entries are
      named exactly by the names. */
  lemma EntriesNamed(names: seq<string>, offsetOf: string -> int)
    ensures forall e :: e in Entries(names, offsetOf) ==> e == EntryOf(e.name, offsetOf(e.name))
    ensures forall name :: name in names <==> exists e :: e in Entries(names, offsetOf) && e.name == name
  {
    var es := Entries(names, offsetOf);
    forall name | name in names ensures exists e :: e in es && e.name == name {
      var k :| 0 <= k < |names| && names[k] == name;
      assert es[k] in es;
    }
  }

  /** The zone database contributes exactly its `Africa/` zones, in its
      order, between the US zones and UTC. */
  lemma SelectedZonesSpec(allZones: seq<string>)
    ensures SelectedZones(allZones)[..6] == UsTimezones
    ensures SelectedZones(allZones)[|SelectedZones(allZones)| - 1] == "UTC"
    ensures SelectedZones(allZones)[6..|SelectedZones(allZones)| - 1] == Filter(allZones, IsAfrican)
    ensures forall name :: name in SelectedZones(allZones) <==>
      name in UsTimezones || name == "UTC" || (name in allZones && IsAfrican(name))
  {
    FilterMembers(allZones, IsAfrican);
  }

  // ------------------------------------------------------------- lookups

  /** `next((tz for disp, tz in timezone_list if disp == shown), "Etc/UTC")`. */
  function ZoneOf(choices: seq<(string, string)>, shown: string): (r: string)
    ensures (forall k :: 0 <= k < |choices| ==> choices[k].0 != shown) ==> r == FallbackZone
    ensures forall k :: (0 <= k < |choices| && choices[k].0 == shown
      && forall j :: 0 <= j < k ==> choices[j].0 != shown) ==> r == choices[k].1
  {
    match Find(choices, (c: (string, string)) => c.0 == shown)
    case None => FallbackZone
    case Some(k) => choices[k].1
  }

  /** `next((disp for disp, tz in timezone_list if "Pacific Time" in disp),
      "(UTC-07:00) US Pacific Time")`. */
  function DefaultLocal(choices: seq<(string, string)>): (r: string)
    ensures (forall k :: 0 <= k < |choices| ==> !Contains(choices[k].0, "Pacific Time")) ==> r == FallbackLocalDisplay
    ensures forall k :: (0 <= k < |choices| && Contains(choices[k].0, "Pacific Time")
      && forall j :: 0 <= j < k ==> !Contains(choices[j].0, "Pacific Time")) ==> r == choices[k].0
  {
    match Find(choices, (c: (string, string)) => Contains(c.0, "Pacific Time"))
    case None => FallbackLocalDisplay
    case Some(k) => choices[k].0
  }

  /** Looking up a shown entry of the catalogue gives a selected zone
      listed with that display; an unknown display gives the fallback. */
  lemma ZoneOfTimezones(allZones: seq<string>, offsetOf: string -> int, shown: string)
    ensures var r := Timezones(allZones, offsetOf);
      ZoneOf(r, shown) == FallbackZone ||
      ZoneOf(r, shown) in SelectedZones(allZones)
    ensures var r := Timezones(allZones, offsetOf);
      (exists k :: 0 <= k < |r| && r[k].0 == shown) ==>
        ZoneOf(r, shown) in SelectedZones(allZones) &&
        exists k :: 0 <= k < |r| && r[k].0 == shown && r[k].1 == ZoneOf(r, shown)
    ensures var r := Timezones(allZones, offsetOf);
      (forall k :: 0 <= k < |r| ==> r[k].0 != shown) ==> ZoneOf(r, shown) == FallbackZone
  {
    var r := Timezones(allZones, offsetOf);
    TimezonesSpec(allZones, offsetOf);
    match Find(r, (c: (string, string)) => c.0 == shown)
    case None =>
    case Some(k) =>
      assert ZoneOf(r, shown) == r[k].1;
  }

  // ------------------------------------------------------------- method

  /** `get_timezones`: one entry per selected zone, appended in turn, then
      sorted by `(offset, tz_name)`, then stripped of the offset. */
  method GetTimezones(allZones: seq<string>, offsetOf: string -> int)
    returns (r: seq<(string, string)>)
    ensures r == Timezones(allZones, offsetOf)
  {
    var africaZones := Filter(allZones, IsAfrican);
    var selected := UsTimezones + africaZones + ["UTC"];
    var tzList := ListEntries(selected, offsetOf);
    tzList := SortBy(tzList, KeyLe);
    r := Choices(tzList);
  }

  /** The loop of `get_timezones` that fills `tz_list`. */
  method ListEntries(selected: seq<string>, offsetOf: string -> int)
    returns (tzList: seq<TzEntry>)
    ensures tzList == Entries(selected, offsetOf)
  {
    tzList := [];
    for i := 0 to |selected|
      invariant tzList == Entries(selected[..i], offsetOf)
    {
      var entry := MakeEntry(selected[i], offsetOf(selected[i]));
      MapSnoc(selected, EntryMaker(offsetOf), i);
      tzList := tzList + [entry];
    }
    assert selected[..|selected|] == selected;
  }

  /** One pass of that loop: the sign, the hours and minutes, the label and
      the display text of one zone. */
  method MakeEntry(name: string, offset: int) returns (e: TzEntry)
    ensures e == EntryOf(name, offset)
  {
    var sign := if offset >= 0 then '+' else '-';
    var (hours, minutes) := (Abs(offset) / 60, Abs(offset) % 60);
    var heading := if name in UsTimezones then UsLabel(name) else RegionalLabel(name);
    var offsetText := "UTC" + [sign] + Pad2(hours) + ":" + Pad2(minutes);
    assert offsetText == OffsetText(offset);
    e := TzEntry(offset, "(" + offsetText + ") " + heading, name);
  }
}
