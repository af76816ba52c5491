/** The week grid: 7 day columns of 48 half-hour slots, the time of day a
    slot stands for, the `HH:MM` text of a time, the business-hours test and
    the background colour of a cell. */
module Slots {
  import opened Wrappers
  import opened Text

  /** `self.total_slots`: 48 half-hour slots per day. */
  const TotalSlots: nat := 48
  /** The day columns of the displayed week, Monday first. */
  const Days: nat := 7
  const SlotMinutes: nat := 30

  datatype Time = Time(hour: nat, minute: nat)

  /** A value `datetime.time` accepts: hour below 24, minute below 60. */
  type Clock = t: Time | t.hour < 24 && t.minute < 60 witness Time(0, 0)

  /** `get_slot_datetime`: the time of day at which a slot starts. The
      hour is `slot*30 // 60`, the minute `slot*30 % 60`; `datetime.time`
      refuses an hour of 24 or more with a ValueError, here None. */
  function SlotTime(slot: nat): (r: Option<Clock>)
    ensures r.Some? <==> slot < TotalSlots
  {
    var minutes := slot * SlotMinutes;
    if minutes / 60 < 24 then Some(Time(minutes / 60, minutes % 60)) else None
  }

  /** Slots 0..47 have a time, on the half hour, `slot*30` minutes after
      midnight; slot 48 (the end of a run ending at 47) and later have none. */
  lemma SlotTimeSpec(slot: nat)
    ensures SlotTime(slot).Some? <==> slot < TotalSlots
    ensures slot < TotalSlots ==>
      SlotTime(slot).value.hour * 60 + SlotTime(slot).value.minute == slot * 30
    ensures slot < TotalSlots ==>
      SlotTime(slot).value.minute == 0 || SlotTime(slot).value.minute == 30
  {
  }

  /** The slot a time on the half hour starts. */
  function SlotOf(t: Clock): nat
  {
    t.hour * 2 + t.minute / 30
  }

  lemma SlotOfInverts(slot: nat)
    requires slot < TotalSlots
    ensures SlotOf(SlotTime(slot).value) == slot
  {
    var minutes := slot * SlotMinutes;
    assert minutes == 60 * (slot / 2) + 30 * (slot % 2);
    assert minutes / 60 == slot / 2 && minutes % 60 == 30 * (slot % 2);
  }

  lemma SlotTimeInverts(t: Clock)
    requires t.minute == 0 || t.minute == 30
    ensures SlotOf(t) < TotalSlots && SlotTime(SlotOf(t)) == Some(t)
  {
    var minutes := SlotOf(t) * SlotMinutes;
    assert minutes == t.hour * 60 + t.minute;
  }

  /** `strftime('%H:%M')`. */
  function FormatClock(t: Clock): string
  {
    Pad2(t.hour) + ":" + Pad2(t.minute)
  }

  /** Reads an `HH:MM` text back into a time. */
  function ParseClock(s: string): Option<Clock>
  {
    if |s| == 5 && s[2] == ':' && IsDigits(s[..2]) && IsDigits(s[3..]) then
      var h := DigitsValue(s[..2]);
      var m := DigitsValue(s[3..]);
      if h < 24 && m < 60 then Some(Time(h, m)) else None
    else None
  }

  /** The `HH:MM` text is five characters and reads back as the same time. */
  lemma FormatClockRoundTrip(t: Clock)
    ensures |FormatClock(t)| == 5 && FormatClock(t)[2] == ':'
    ensures ParseClock(FormatClock(t)) == Some(t)
  {
    Pad2RoundTrip(t.hour);
    Pad2RoundTrip(t.minute);
    var s := FormatClock(t);
    assert s[..2] == Pad2(t.hour);
    assert s[3..] == Pad2(t.minute);
  }

  /** The four times the proposal example prints. */
  lemma ClockExamples()
    ensures FormatClock(Time(5, 0)) == "05:00" && FormatClock(Time(6, 30)) == "06:30"
    ensures FormatClock(Time(7, 30)) == "07:30" && FormatClock(Time(8, 0)) == "08:00"
  {
    assert Pad2(0) == "00" && Pad2(5) == "05" && Pad2(6) == "06";
    assert Pad2(7) == "07" && Pad2(8) == "08" && Pad2(30) == "30";
  }

  /** Conversion between two zones a fixed number of minutes apart, read on
      the wall clock (the hour and minute `astimezone` yields when neither
      zone changes offset that day). */
  function ShiftClock(t: Clock, delta: int): Clock
  {
    var m := (t.hour * 60 + t.minute + delta) % 1440;
    Time(m / 60, m % 60)
  }

  /** Converting to the other zone and back gives the original time. */
  lemma ShiftRoundTrip(t: Clock, delta: int)
    ensures ShiftClock(ShiftClock(t, delta), -delta) == t
  {
    var m := (t.hour * 60 + t.minute + delta) % 1440;
    var back := (m + -delta) % 1440;
    assert back == t.hour * 60 + t.minute;
  }

  /** `8 <= hour < 18` on the converted time. */
  predicate BusinessHour(t: Clock)
  {
    8 <= t.hour < 18
  }

  /** Between two fixed-offset zones `delta` minutes apart, a slot is in
      business hours when its start, moved by `delta` around the clock, lies
      in 08:00-18:00. */
  lemma ShiftedBusinessSlots(slot: nat, delta: int)
    requires slot < TotalSlots
    ensures IsBusinessHours(slot, t => ShiftClock(t, delta)) <==>
      8 * 60 <= (slot * SlotMinutes + delta) % 1440 < 18 * 60
  {
    SlotTimeSpec(slot);
  }

  lemma BusinessBoundaries()
    ensures BusinessHour(Time(8, 0)) && !BusinessHour(Time(18, 0))
    ensures !BusinessHour(Time(7, 30)) && BusinessHour(Time(17, 30))
  {
  }

  /** `is_business_hours(slot)`: the slot's start, converted to the other
      zone by `convert`, falls in business hours. */
  function IsBusinessHours(slot: nat, convert: Clock -> Clock): bool
    requires slot < TotalSlots
  {
    BusinessHour(convert(SlotTime(slot).value))
  }

  /** With both zones equal, slots 16 (08:00) to 35 (17:30) are business
      hours and no others. */
  lemma SameZoneBusinessSlots(slot: nat)
    requires slot < TotalSlots
    ensures IsBusinessHours(slot, t => t) <==> 16 <= slot < 36
  {
  }

  // ----------------------------------------------------------------- cells

  /** A grid cell `(day, slot)`. */
  datatype Cell = Cell(day: nat, slot: nat)

  predicate InGrid(c: Cell)
  {
    c.day < Days && c.slot < TotalSlots
  }

  /** The flattened position `day*48 + slot` used by drag selection. */
  function Ordinal(c: Cell): nat
  {
    c.day * TotalSlots + c.slot
  }

  /** `(ordinal // 48, ordinal % 48)`. */
  function CellAt(o: nat): Cell
  {
    Cell(o / TotalSlots, o % TotalSlots)
  }

  /** Decoding inverts the flattening on the grid, the grid fills ordinals
      0..335, and the flattened order is day first, then slot. */
  lemma OrdinalRoundTrip(c: Cell, o: nat)
    ensures InGrid(c) ==> CellAt(Ordinal(c)) == c && Ordinal(c) < Days * TotalSlots
    ensures Ordinal(CellAt(o)) == o
    ensures InGrid(CellAt(o)) <==> o < Days * TotalSlots
  {
  }

  lemma OrdinalOrder(a: Cell, b: Cell)
    requires InGrid(a) && InGrid(b)
    ensures Ordinal(a) < Ordinal(b) <==> a.day < b.day || (a.day == b.day && a.slot < b.slot)
  {
  }

  /** `cell_states.get((day, slot), False)`. */
  predicate IsSelected(states: map<Cell, bool>, c: Cell)
  {
    c in states && states[c]
  }

  // ---------------------------------------------------------------- colour

  datatype Colour = Highlight | White | Grey

  /** The Tk colour names the three classes are painted with. */
  function Background(col: Colour): string
  {
    match col
    case Highlight => "#FFDAB9"
    case White => "white"
    case Grey => "#C7C7C7"
  }

  /** The colour `update_time_labels` gives a cell: selected cells are
      highlighted, others white in business hours and grey outside them. */
  function CellColour(states: map<Cell, bool>, c: Cell, convert: Clock -> Clock): Colour
    requires c.slot < TotalSlots
  {
    if IsSelected(states, c) then Highlight
    else if IsBusinessHours(c.slot, convert) then White
    else Grey
  }

  lemma CellColourClasses(states: map<Cell, bool>, c: Cell, convert: Clock -> Clock)
    requires c.slot < TotalSlots
    ensures CellColour(states, c, convert) == Highlight <==> IsSelected(states, c)
    ensures CellColour(states, c, convert) == White <==>
      !IsSelected(states, c) && BusinessHour(convert(SlotTime(c.slot).value))
    ensures CellColour(states, c, convert) == Grey <==>
      !IsSelected(states, c) && !BusinessHour(convert(SlotTime(c.slot).value))
    ensures Background(CellColour(states, c, convert)) ==
      if IsSelected(states, c) then "#FFDAB9"
      else if BusinessHour(convert(SlotTime(c.slot).value)) then "white" else "#C7C7C7"
  {
  }

  /** A cell's colour depends on its own state and its slot only, never on
      its day: unselected cells of one row share a colour. */
  lemma RowColourAgrees(states: map<Cell, bool>, a: Cell, b: Cell, convert: Clock -> Clock)
    requires a.slot == b.slot < TotalSlots
    requires IsSelected(states, a) == IsSelected(states, b)
    ensures CellColour(states, a, convert) == CellColour(states, b, convert)
  {
  }
}
