/** Proposal generation (`update_meeting_proposal`): per day, the selected
    slots are merged into maximal runs, each run becomes an end-exclusive
    `HH:MM - HH:MM` range in the other zone, and the lines are assembled
    under a header and above a closing line.

    The conversion `localize(...).astimezone(target)` followed by
    `strftime("%H:%M")` is the parameter `show`; the day headings
    `strftime("%A, %b %d")` are the parameter `dayLabels`. */
module Proposal {
  import opened Wrappers
  import opened Text
  import opened Slots

  /** A group `(start_slot, prev_slot)`: slots `start..end`, both included. */
  datatype Run = Run(start: nat, end: nat)

  // -------------------------------------------------- one day's selection

  /** The test of the comprehension: the slot is selected on `day`. */
  function PickedOn(states: map<Cell, bool>, day: nat): nat -> bool
  {
    (slot: nat) => IsSelected(states, Cell(day, slot))
  }

  /** `sorted([slot for slot in range(48) if cell_states.get((day, slot), False)])`;
      the comprehension already lists the slots in increasing order. */
  function SelectedSlots(states: map<Cell, bool>, day: nat): seq<nat>
  {
    Filter(Range(TotalSlots), PickedOn(states, day))
  }

  /** The day's list is increasing and holds exactly its selected slots. */
  lemma SelectedSlotsSpec(states: map<Cell, bool>, day: nat)
    ensures StrictlyIncreasing(SelectedSlots(states, day))
    ensures forall x: nat :: x in SelectedSlots(states, day) <==> x < TotalSlots && IsSelected(states, Cell(day, x))
  {
    FilterIncreasing(Range(TotalSlots), PickedOn(states, day));
    FilterMembers(Range(TotalSlots), PickedOn(states, day));
    forall x: nat ensures x in Range(TotalSlots) <==> x < TotalSlots {
      if x < TotalSlots {
        assert Range(TotalSlots)[x] == x;
      }
    }
  }

  // ------------------------------------------------------------- the runs

  /** The runs of a slot list read left to right. */
  function Runs(sel: seq<nat>): seq<Run>
    decreases |sel|
  {
    if sel == [] then [] else NextRuns(Runs(sel[..|sel| - 1]), sel[|sel| - 1])
  }

  /** One step of the merge: a slot one past the end of the last run
      extends it, any other slot opens a new run. */
  function NextRuns(prev: seq<Run>, x: nat): seq<Run>
  {
    if prev != [] && x == prev[|prev| - 1].end + 1 then
      prev[..|prev| - 1] + [Run(prev[|prev| - 1].start, x)]
    else
      prev + [Run(x, x)]
  }

  /** Some run covers slot `x`. */
  ghost predicate Covered(runs: seq<Run>, x: nat)
  {
    exists k :: 0 <= k < |runs| && runs[k].start <= x <= runs[k].end
  }

  /** Every run is non-empty and each run ends at least two slots before
      any later one starts. */
  ghost predicate Separated(runs: seq<Run>)
  {
    && (forall k :: 0 <= k < |runs| ==> runs[k].start <= runs[k].end)
    && (forall i, j :: 0 <= i < j < |runs| ==> runs[i].end + 2 <= runs[j].start)
  }

  lemma CoveredAppend(runs: seq<Run>, g: Run, x: nat)
    ensures Covered(runs + [g], x) <==> Covered(runs, x) || g.start <= x <= g.end
  {
    if Covered(runs, x) {
      var k :| 0 <= k < |runs| && runs[k].start <= x <= runs[k].end;
      assert (runs + [g])[k] == runs[k];
    }
    if g.start <= x <= g.end {
      assert (runs + [g])[|runs|] == g;
    }
    if Covered(runs + [g], x) {
      var k :| 0 <= k < |runs + [g]| && (runs + [g])[k].start <= x <= (runs + [g])[k].end;
      if k < |runs| {
        assert runs[k] == (runs + [g])[k];
      }
    }
  }

  /** Extending the last run by the next slot keeps the runs separated
      and adds exactly that slot to what they cover. */
  lemma ExtendStep(prev: seq<Run>, x: nat)
    requires Separated(prev) && prev != [] && x == prev[|prev| - 1].end + 1
    ensures var r := prev[..|prev| - 1] + [Run(prev[|prev| - 1].start, x)];
      && Separated(r)
      && (forall y: nat :: Covered(r, y) <==> Covered(prev, y) || y == x)
  {
    var last := prev[|prev| - 1];
    var body := prev[..|prev| - 1];
    assert prev == body + [last];
    var g := Run(last.start, x);
    forall y: nat ensures Covered(body + [g], y) <==> Covered(prev, y) || y == x {
      CoveredAppend(body, g, y);
      CoveredAppend(body, last, y);
    }
  }

  /** Opening a new run at least two slots after the last one keeps the runs
      separated and adds exactly that slot to what they cover. */
  lemma OpenStep(prev: seq<Run>, x: nat)
    requires Separated(prev)
    requires prev != [] ==> prev[|prev| - 1].end + 2 <= x
    ensures var r := prev + [Run(x, x)];
      && Separated(r)
      && (forall y: nat :: Covered(r, y) <==> Covered(prev, y) || y == x)
  {
    forall y: nat ensures Covered(prev + [Run(x, x)], y) <==> Covered(prev, y) || y == x {
      CoveredAppend(prev, Run(x, x), y);
    }
    var r := prev + [Run(x, x)];
    forall i, j | 0 <= i < j < |r| ensures r[i].end + 2 <= r[j].start {
      if j == |prev| && i < |prev| - 1 {
        assert prev[i].end + 2 <= prev[|prev| - 1].start;
      }
    }
  }

  /** `runs` are separated, cover exactly the listed slots, are empty only
      for an empty list, and the last one ends at the last slot. */
  ghost predicate RunsOf(sel: seq<nat>, runs: seq<Run>)
  {
    && Separated(runs)
    && (forall x: nat :: x in sel <==> Covered(runs, x))
    && (sel == [] <==> runs == [])
    && (sel != [] ==> runs[|runs| - 1].end == sel[|sel| - 1])
  }

  /** One merge step keeps `RunsOf` when the list stays increasing. */
  lemma NextRunsSpec(init: seq<nat>, x: nat, prev: seq<Run>)
    requires StrictlyIncreasing(init + [x])
    requires RunsOf(init, prev)
    ensures RunsOf(init + [x], NextRuns(prev, x))
  {
    var sel := init + [x];
    assert forall y: nat :: y in sel <==> y in init || y == x;
    if prev != [] && x == prev[|prev| - 1].end + 1 {
      ExtendStep(prev, x);
    } else {
      if prev != [] {
        assert init[|init| - 1] < x by {
          assert sel[|init| - 1] == init[|init| - 1] && sel[|init|] == x;
        }
      }
      OpenStep(prev, x);
    }
  }

  /** For a strictly increasing slot list the runs are separated, cover
      exactly the listed slots, and the last run ends at the last slot. */
  lemma {:induction false} RunsSpec(sel: seq<nat>)
    requires StrictlyIncreasing(sel)
    ensures RunsOf(sel, Runs(sel))
    decreases |sel|
  {
    if sel != [] {
      var init := sel[..|sel| - 1];
      assert sel == init + [sel[|sel| - 1]];
      RunsSpec(init);
      NextRunsSpec(init, sel[|sel| - 1], Runs(init));
    }
  }

  /** Each run is maximal: all its slots are listed and the slots just
      before and just after it are not. */
  lemma RunsAreMaximal(sel: seq<nat>, k: nat)
    requires StrictlyIncreasing(sel)
    requires k < |Runs(sel)|
    ensures forall x :: Runs(sel)[k].start <= x <= Runs(sel)[k].end ==> x in sel
    ensures Runs(sel)[k].start > 0 ==> Runs(sel)[k].start - 1 !in sel
    ensures Runs(sel)[k].end + 1 !in sel
  {
    RunsSpec(sel);
    var r := Runs(sel);
    forall x | r[k].start <= x <= r[k].end ensures x in sel {
      assert Covered(r, x);
    }
  }

  /** The merge loop of `update_meeting_proposal`. */
  method MergeRuns(sel: seq<nat>) returns (groups: seq<Run>)
    ensures groups == Runs(sel)
  {
    if sel == [] {
      return [];
    }
    groups := [];
    var startSlot := sel[0];
    var prevSlot := sel[0];
    assert sel[..1] == [sel[0]];
    var i := 1;
    while i < |sel|
      invariant 1 <= i <= |sel|
      invariant Runs(sel[..i]) == groups + [Run(startSlot, prevSlot)]
    {
      var s := sel[i];
      assert sel[..i + 1][..i] == sel[..i];
      if s == prevSlot + 1 {
        prevSlot := s;
      } else {
        groups := groups + [Run(startSlot, prevSlot)];
        startSlot := s;
        prevSlot := s;
      }
      i := i + 1;
    }
    assert sel[..i] == sel;
    groups := groups + [Run(startSlot, prevSlot)];
  }

  // ---------------------------------------------------------- range text

  /** ValueError raised by `datetime.time(hour=24)`. */
  const HourError: string := "hour must be in 0..23"

  /** One range: the start of the first slot to the start of the slot after
      the last, both converted and printed as `HH:MM`. A run ending at slot
      47 needs slot 48, which has no time. */
  function RangeText(g: Run, show: Clock -> string): (r: Option<string>)
    ensures r.Some? <==> g.start < TotalSlots && g.end + 1 < TotalSlots
  {
    var a := SlotTime(g.start);
    var b := SlotTime(g.end + 1);
    if a.Some? && b.Some? then Some(show(a.value) + " - " + show(b.value))
    else None
  }

  /** The range texts of a day's runs, failing at the first that has none. */
  function RangeTexts(gs: seq<Run>, show: Clock -> string): Result<seq<string>, string>
    decreases |gs|
  {
    if gs == [] then Ok([])
    else match RangeTexts(gs[..|gs| - 1], show)
      case Err(e) => Err(e)
      case Ok(ts) =>
        match RangeText(gs[|gs| - 1], show)
        case None => Err(HourError)
        case Some(t) => Ok(ts + [t])
  }

  /** `r` holds one text per run, in run order, when every run has one, and
      otherwise the ValueError. */
  ghost predicate TextsOf(gs: seq<Run>, show: Clock -> string, r: Result<seq<string>, string>)
  {
    && (r.Ok? <==> forall k :: 0 <= k < |gs| ==> RangeText(gs[k], show).Some?)
    && (r.Err? ==> r.error == HourError)
    && (r.Ok? ==> |r.value| == |gs| && forall k :: 0 <= k < |gs| ==> Some(r.value[k]) == RangeText(gs[k], show))
  }

  /** Appending one run keeps `TextsOf`. */
  lemma RangeTextsStep(gs: seq<Run>, g: Run, show: Clock -> string, prev: Result<seq<string>, string>)
    requires TextsOf(gs, show, prev)
    ensures TextsOf(gs + [g], show,
      match prev
      case Err(e) => Err(e)
      case Ok(ts) =>
        match RangeText(g, show)
        case None => Err(HourError)
        case Some(t) => Ok(ts + [t]))
  {
    var all := gs + [g];
    assert forall k :: 0 <= k < |gs| ==> all[k] == gs[k];
    assert all[|gs|] == g;
  }

  /** The texts exist exactly when every run has one, that is when no run
      ends at the last slot; then there is one per run, in run order. */
  lemma {:induction false} RangeTextsSpec(gs: seq<Run>, show: Clock -> string)
    ensures TextsOf(gs, show, RangeTexts(gs, show))
    decreases |gs|
  {
    if gs != [] {
      var init := gs[..|gs| - 1];
      assert gs == init + [gs[|gs| - 1]];
      RangeTextsSpec(init, show);
      RangeTextsStep(init, gs[|gs| - 1], show, RangeTexts(init, show));
    }
  }

  /** A run whose range exists adds its text after the texts so far. */
  lemma RangeTextsAppend(gs: seq<Run>, g: Run, show: Clock -> string)
    requires RangeTexts(gs, show).Ok? && RangeText(g, show).Some?
    ensures RangeTexts(gs + [g], show) == Ok(RangeTexts(gs, show).value + [RangeText(g, show).value])
  {
    assert (gs + [g])[..|gs|] == gs;
  }

  /** Once a run fails, the texts of all the runs fail the same way. */
  lemma {:induction false} RangeTextsErrStays(gs: seq<Run>, n: nat, show: Clock -> string)
    requires n <= |gs|
    requires RangeTexts(gs[..n], show).Err?
    ensures RangeTexts(gs, show) == RangeTexts(gs[..n], show)
    decreases |gs| - n
  {
    if n < |gs| {
      assert gs[..n + 1][..n] == gs[..n];
      RangeTextsErrStays(gs, n + 1, show);
    } else {
      assert gs[..n] == gs;
    }
  }

  // ------------------------------------------------------------ the lines

  function Header(duration: string, targetDisplay: string): (h: string)
    ensures "Would " <= h
  {
    "Would " + duration + " during any of the following times (all " + targetDisplay + ") work for you?"
  }

  const NoTimesLine: string := "No times selected yet."
  const ClosingLine: string := "If none of these are convenient, I'm happy to adjust to your availability."

  /** `f"* {day_str}: " + ", ".join(range_strs)`. */
  function DayText(heading: string, ts: seq<string>): (l: string)
    ensures "* " <= l
  {
    var l := "* " + heading + ": " + Join(ts, ", ");
    assert l[..2] == "* ";
    l
  }

  /** The line of one day under its heading: none when nothing is selected,
      otherwise `* <heading>: r1, r2, ...`; fails when a range cannot be
      formed. */
  function DayLine(states: map<Cell, bool>, day: nat, heading: string, show: Clock -> string)
    : (r: Result<Option<string>, string>)
    ensures r.Ok? ==> (r.value.None? <==> SelectedSlots(states, day) == [])
    ensures r.Ok? && r.value.Some? ==> "* " <= r.value.value
  {
    var sel := SelectedSlots(states, day);
    if sel == [] then Ok(None)
    else match RangeTexts(Runs(sel), show)
      case Err(e) => Err(e)
      case Ok(ts) => Ok(Some(DayText(heading, ts)))
  }

  /** The heading of a day, `week_dates[day].strftime("%A, %b %d")`. */
  function Heading(dayLabels: seq<string>, day: nat): string
  {
    if day < |dayLabels| then dayLabels[day] else ""
  }

  /** A day's line is headed by that day's own label. */
  lemma DayLineHeading(states: map<Cell, bool>, dayLabels: seq<string>, day: nat, show: Clock -> string)
    requires day < |dayLabels|
    ensures var r := DayLine(states, day, Heading(dayLabels, day), show);
      r.Ok? && r.value.Some? ==> "* " + dayLabels[day] + ": " <= r.value.value
  {
  }

  /** The line, if any, each day of the week contributes. */
  function LineOfDay(states: map<Cell, bool>, dayLabels: seq<string>, show: Clock -> string)
    : nat -> Result<Option<string>, string>
  {
    (day: nat) => DayLine(states, day, Heading(dayLabels, day), show)
  }

  /** Appends a day's line, if any, to the lines so far; the first failure wins. */
  function AddLine(lines: Result<seq<string>, string>, line: Result<Option<string>, string>)
    : Result<seq<string>, string>
  {
    match lines
    case Err(e) => Err(e)
    case Ok(ls) =>
      match line
      case Err(e) => Err(e)
      case Ok(None) => Ok(ls)
      case Ok(Some(l)) => Ok(ls + [l])
  }

  /** The lines of days `0..n-1`, in day order. */
  function Collect(line: nat -> Result<Option<string>, string>, n: nat): Result<seq<string>, string>
    decreases n
  {
    if n == 0 then Ok([]) else AddLine(Collect(line, n - 1), line(n - 1))
  }

  /** The lines of the proposal: the header, the day lines or the
      fallback line, and the closing line. */
  function ProposalLines(states: map<Cell, bool>, duration: string, targetDisplay: string,
                         dayLabels: seq<string>, show: Clock -> string): Result<seq<string>, string>
    requires |dayLabels| == Days
  {
    match Collect(LineOfDay(states, dayLabels, show), |dayLabels|)
    case Err(e) => Err(e)
    case Ok(ls) => Ok(Assemble(Header(duration, targetDisplay), ls))
  }

  /** The header, the day lines or else the fallback line, and the closing
      line. */
  function Assemble(header: string, ls: seq<string>): seq<string>
  {
    [header] + ls + (if ls == [] then [NoTimesLine] else []) + [ClosingLine]
  }

  /** The lines as the method builds them: the fallback line is added when
      the list holds only the header. */
  lemma AssembleInSteps(header: string, ls: seq<string>)
    ensures Assemble(header, ls) ==
      (if |[header] + ls| == 1 then [header] + ls + [NoTimesLine] else [header] + ls) + [ClosingLine]
  {
    if ls == [] {
      assert [header] + ls == [header];
    } else {
      assert [header] + ls + [] == [header] + ls;
    }
  }

  /** The header comes first and the closing line last; the fallback line
      stands alone between them when there are no day lines, otherwise the
      day lines follow the header in order. */
  lemma AssembleSpec(header: string, ls: seq<string>)
    ensures var lines := Assemble(header, ls);
      && |lines| >= 3 && lines[0] == header && lines[|lines| - 1] == ClosingLine
      && (ls == [] ==> lines == [header, NoTimesLine, ClosingLine])
      && (ls != [] ==> |lines| == |ls| + 2 && forall k :: 0 <= k < |ls| ==> lines[k + 1] == ls[k])
  {
  }

  /** With at least one day line, every line between header and closing
      line starts with `* `, so the fallback line is absent. */
  lemma AssembleNoFallback(header: string, ls: seq<string>)
    requires "Would " <= header
    requires ls != [] && forall k :: 0 <= k < |ls| ==> "* " <= ls[k]
    ensures NoTimesLine !in Assemble(header, ls)
  {
    var lines := Assemble(header, ls);
    forall k | 0 <= k < |lines| ensures lines[k] != NoTimesLine {
      if 0 < k < |lines| - 1 {
        assert lines[k] == ls[k - 1];
        assert lines[k][0] == '*';
      } else if k == 0 {
        assert lines[0][0] == 'W';
      } else {
        assert lines[k] == ClosingLine;
      }
    }
  }

  /** The proposal text: its lines joined by newlines. */
  function Proposal(states: map<Cell, bool>, duration: string, targetDisplay: string,
                    dayLabels: seq<string>, show: Clock -> string): Result<string, string>
    requires |dayLabels| == Days
  {
    match ProposalLines(states, duration, targetDisplay, dayLabels, show)
    case Err(e) => Err(e)
    case Ok(lines) => Ok(Join(lines, "\n"))
  }

  // ------------------------------------------------ collecting the lines

  /** The test that a day contributes a line. */
  function Emits(line: nat -> Result<Option<string>, string>): nat -> bool
  {
    (d: nat) => line(d).Ok? && line(d).value.Some?
  }

  predicate FailsOn(line: nat -> Result<Option<string>, string>, d: nat)
  {
    line(d).Err?
  }

  /** On success there is one line per contributing day, in day order,
      each the line of that day. */
  lemma {:induction false} CollectSpec(line: nat -> Result<Option<string>, string>, n: nat)
    ensures Collect(line, n).Ok? ==>
      var ls := Collect(line, n).value;
      var days := Filter(Range(n), Emits(line));
      && |ls| == |days|
      && forall k :: 0 <= k < |ls| ==> line(days[k]) == Ok(Some(ls[k]))
    decreases n
  {
    if n > 0 {
      CollectSpec(line, n - 1);
      var last: seq<nat> := [n - 1];
      assert Range(n) == Range(n - 1) + last;
      FilterAppend(Range(n - 1), last, Emits(line));
      assert last[..0] == [];
      var prev := Collect(line, n - 1);
      if prev.Ok? && line(n - 1).Ok? && line(n - 1).value.Some? {
        var before := Filter(Range(n - 1), Emits(line));
        var after := Filter(Range(n), Emits(line));
        var ls := Collect(line, n).value;
        assert after == before + [n - 1] && ls == prev.value + [line(n - 1).value.value];
        forall k | 0 <= k < |ls| ensures line(after[k]) == Ok(Some(ls[k])) {
          if k < |prev.value| {
            assert after[k] == before[k] && ls[k] == prev.value[k];
          }
        }
      }
    }
  }

  /** Once a day fails, all later lists fail the same way. */
  lemma {:induction false} CollectErrStays(line: nat -> Result<Option<string>, string>, n: nat, m: nat)
    requires n <= m
    requires Collect(line, n).Err?
    ensures Collect(line, m) == Collect(line, n)
    decreases m - n
  {
    if n < m {
      CollectErrStays(line, n, m - 1);
    }
  }

  /** The list fails exactly when some day's line fails. */
  lemma {:induction false} CollectFails(line: nat -> Result<Option<string>, string>, n: nat)
    ensures Collect(line, n).Err? <==> exists d: nat :: d < n && FailsOn(line, d)
    decreases n
  {
    if n > 0 {
      CollectFails(line, n - 1);
      var prev := Collect(line, n - 1);
      if exists d: nat :: d < n && FailsOn(line, d) {
        var d: nat :| d < n && FailsOn(line, d);
        if d < n - 1 {
          assert prev.Err?;
        }
      }
      if prev.Err? {
        var d: nat :| d < n - 1 && FailsOn(line, d);
        assert d < n;
      } else if line(n - 1).Err? {
        assert FailsOn(line, n - 1);
      }
    }
  }

  /** When no day contributes a line the list is empty. */
  lemma {:induction false} CollectNone(line: nat -> Result<Option<string>, string>, n: nat)
    requires forall d: nat :: d < n ==> line(d) == Ok(None)
    ensures Collect(line, n) == Ok([])
    decreases n
  {
    if n > 0 {
      CollectNone(line, n - 1);
    }
  }

  // ------------------------------------------------------- the day lines

  /** The test that a day has a selection. */
  function HasSelection(states: map<Cell, bool>): nat -> bool
  {
    (day: nat) => SelectedSlots(states, day) != []
  }

  /** The days below `n` that have a selection, in increasing order. */
  function ActiveDays(states: map<Cell, bool>, n: nat): seq<nat>
  {
    Filter(Range(n), HasSelection(states))
  }

  lemma ActiveDaysSpec(states: map<Cell, bool>, n: nat)
    ensures StrictlyIncreasing(ActiveDays(states, n))
    ensures forall d: nat :: d in ActiveDays(states, n) <==> d < n && SelectedSlots(states, d) != []
  {
    FilterIncreasing(Range(n), HasSelection(states));
    FilterMembers(Range(n), HasSelection(states));
    forall d: nat ensures d in Range(n) <==> d < n {
      if d < n {
        assert Range(n)[d] == d;
      }
    }
  }

  /** Slot 47, 23:30 to midnight, is selected on `day`. */
  predicate LastSlotPicked(states: map<Cell, bool>, day: nat)
  {
    IsSelected(states, Cell(day, TotalSlots - 1))
  }

  /** A day's line fails exactly when its last slot is selected. */
  lemma DayLineFails(states: map<Cell, bool>, day: nat, heading: string, show: Clock -> string)
    ensures DayLine(states, day, heading, show).Err? <==> LastSlotPicked(states, day)
  {
    var sel := SelectedSlots(states, day);
    SelectedSlotsSpec(states, day);
    if sel != [] {
      RunsSpec(sel);
      var r := Runs(sel);
      RangeTextsSpec(r, show);
      var texts := RangeTexts(r, show);
      if LastSlotPicked(states, day) {
        assert Covered(r, TotalSlots - 1);
        var k :| 0 <= k < |r| && r[k].start <= TotalSlots - 1 <= r[k].end;
        assert RangeText(r[k], show).None?;
      }
      if texts.Err? {
        var k :| 0 <= k < |r| && RangeText(r[k], show).None?;
        RunsAreMaximal(sel, k);
        assert r[k].end in sel;
        assert r[k].end == TotalSlots - 1;
      }
    } else {
      assert TotalSlots - 1 !in sel;
    }
  }

  // ------------------------------------------------ proposal properties

  /** Generation fails (the uncaught ValueError) exactly when some day has
      its last slot, 23:30, selected. */
  lemma ProposalFails(states: map<Cell, bool>, duration: string, targetDisplay: string,
                      dayLabels: seq<string>, show: Clock -> string)
    requires |dayLabels| == Days
    ensures Proposal(states, duration, targetDisplay, dayLabels, show).Err? <==>
      exists d: nat :: d < Days && LastSlotPicked(states, d)
  {
    var line := LineOfDay(states, dayLabels, show);
    CollectFails(line, |dayLabels|);
    forall d: nat ensures FailsOn(line, d) <==> LastSlotPicked(states, d) {
      DayLineFails(states, d, Heading(dayLabels, d), show);
    }
  }

  /** With no day selected the only line between header and closing line
      is the fallback line. */
  lemma ProposalFallback(states: map<Cell, bool>, duration: string, targetDisplay: string,
                         dayLabels: seq<string>, show: Clock -> string)
    requires |dayLabels| == Days
    requires forall d: nat :: d < Days ==> SelectedSlots(states, d) == []
    ensures ProposalLines(states, duration, targetDisplay, dayLabels, show) ==
      Ok([Header(duration, targetDisplay), NoTimesLine, ClosingLine])
    ensures Proposal(states, duration, targetDisplay, dayLabels, show) ==
      Ok(Header(duration, targetDisplay) + "\n" + NoTimesLine + "\n" + ClosingLine)
  {
    var line := LineOfDay(states, dayLabels, show);
    forall d: nat | d < |dayLabels| ensures line(d) == Ok(None) {
      assert SelectedSlots(states, d) == [];
    }
    CollectNone(line, |dayLabels|);
    var header := Header(duration, targetDisplay);
    AssembleSpec(header, []);
    assert ProposalLines(states, duration, targetDisplay, dayLabels, show) == Ok(Assemble(header, []));
    JoinThree(header, NoTimesLine, ClosingLine, "\n");
  }

  /** When no day fails, the days that contribute a line are those with
      a selection. */
  lemma EmittingDays(states: map<Cell, bool>, dayLabels: seq<string>, show: Clock -> string)
    requires Collect(LineOfDay(states, dayLabels, show), |dayLabels|).Ok?
    ensures Filter(Range(|dayLabels|), Emits(LineOfDay(states, dayLabels, show))) ==
      ActiveDays(states, |dayLabels|)
  {
    var line := LineOfDay(states, dayLabels, show);
    var days := Range(|dayLabels|);
    CollectFails(line, |dayLabels|);
    forall k | 0 <= k < |days| ensures Emits(line)(days[k]) == HasSelection(states)(days[k]) {
      assert days[k] == k && !FailsOn(line, k);
    }
    FilterSame(days, Emits(line), HasSelection(states));
  }

  /** On success the day lines are those of the days with a selection,
      in day order. */
  lemma DayLinesSpec(states: map<Cell, bool>, dayLabels: seq<string>, show: Clock -> string)
    requires Collect(LineOfDay(states, dayLabels, show), |dayLabels|).Ok?
    ensures var ls := Collect(LineOfDay(states, dayLabels, show), |dayLabels|).value;
      var active := ActiveDays(states, |dayLabels|);
      && |ls| == |active|
      && forall k :: 0 <= k < |ls| ==>
           DayLine(states, active[k], Heading(dayLabels, active[k]), show) == Ok(Some(ls[k]))
  {
    CollectSpec(LineOfDay(states, dayLabels, show), |dayLabels|);
    EmittingDays(states, dayLabels, show);
  }

  /** With some day selected the lines between header and closing line are
      those of the days with a selection, in day order. */
  lemma ProposalDays(states: map<Cell, bool>, duration: string, targetDisplay: string,
                     dayLabels: seq<string>, show: Clock -> string, day: nat)
    requires |dayLabels| == Days
    requires ProposalLines(states, duration, targetDisplay, dayLabels, show).Ok?
    requires day < Days && SelectedSlots(states, day) != []
    ensures var lines := ProposalLines(states, duration, targetDisplay, dayLabels, show).value;
      var active := ActiveDays(states, |dayLabels|);
      && |lines| == 2 + |active|
      && forall k :: 0 <= k < |active| ==>
           DayLine(states, active[k], Heading(dayLabels, active[k]), show) == Ok(Some(lines[k + 1]))
  {
    var ls := Collect(LineOfDay(states, dayLabels, show), |dayLabels|).value;
    var active := ActiveDays(states, |dayLabels|);
    var header := Header(duration, targetDisplay);
    DayLinesSpec(states, dayLabels, show);
    ActiveDaysSpec(states, |dayLabels|);
    assert day in active;
    AssembleSpec(header, ls);
    var lines := Assemble(header, ls);
    assert ProposalLines(states, duration, targetDisplay, dayLabels, show) == Ok(lines);
    forall k | 0 <= k < |active|
      ensures DayLine(states, active[k], Heading(dayLabels, active[k]), show) == Ok(Some(lines[k + 1]))
    {
      assert lines[k + 1] == ls[k];
    }
  }

  /** With some day selected the fallback line is absent. */
  lemma ProposalNoFallback(states: map<Cell, bool>, duration: string, targetDisplay: string,
                           dayLabels: seq<string>, show: Clock -> string, day: nat)
    requires |dayLabels| == Days
    requires ProposalLines(states, duration, targetDisplay, dayLabels, show).Ok?
    requires day < Days && SelectedSlots(states, day) != []
    ensures NoTimesLine !in ProposalLines(states, duration, targetDisplay, dayLabels, show).value
  {
    var line := LineOfDay(states, dayLabels, show);
    CollectFails(line, |dayLabels|);
    assert !FailsOn(line, day);
    CollectKeeps(line, |dayLabels|, day);
    CollectPrefixed(line, |dayLabels|);
    var ls := Collect(line, |dayLabels|).value;
    AssembleNoFallback(Header(duration, targetDisplay), ls);
  }

  /** A day that contributes a line makes the list non-empty. */
  lemma {:induction false} CollectKeeps(line: nat -> Result<Option<string>, string>, n: nat, d: nat)
    requires d < n && Collect(line, n).Ok? && line(d).Ok? && line(d).value.Some?
    ensures Collect(line, n).value != []
    decreases n
  {
    if d < n - 1 {
      CollectKeeps(line, n - 1, d);
    }
  }

  /** When every line a day contributes starts with `* `, so does every
      collected line. */
  lemma {:induction false} CollectPrefixed(line: nat -> Result<Option<string>, string>, n: nat)
    requires forall d: nat :: d < n && line(d).Ok? && line(d).value.Some? ==> "* " <= line(d).value.value
    ensures Collect(line, n).Ok? ==>
      forall k :: 0 <= k < |Collect(line, n).value| ==> "* " <= Collect(line, n).value[k]
    decreases n
  {
    if n > 0 {
      CollectPrefixed(line, n - 1);
    }
  }

  // ------------------------------------------------------------ examples

  /** Selected slots 10, 11, 12 and 15 of a day are two runs. */
  lemma MergeExample()
    ensures Runs([10, 11, 12, 15]) == [Run(10, 12), Run(15, 15)]
  {
    var s1: seq<nat> := [10];
    var s2: seq<nat> := [10, 11];
    var s3: seq<nat> := [10, 11, 12];
    var s4: seq<nat> := [10, 11, 12, 15];
    assert s1[..0] == [];
    assert Runs(s1) == [Run(10, 10)];
    assert s2[..1] == s1;
    assert Runs(s2) == [Run(10, 11)];
    assert s3[..2] == s2;
    assert Runs(s3) == [Run(10, 12)];
    assert s4[..3] == s3;
  }

  /** With both zones equal, slots 10..12 print as 05:00 - 06:30 and slot
      15 alone as 07:30 - 08:00: the end of a range is the start of the
      slot after it. */
  lemma RangeTextExample(show: Clock -> string)
    requires forall t :: show(t) == FormatClock(t)
    ensures RangeText(Run(10, 12), show) == Some("05:00 - 06:30")
    ensures RangeText(Run(15, 15), show) == Some("07:30 - 08:00")
  {
    assert SlotTime(10) == Some(Time(5, 0)) && SlotTime(13) == Some(Time(6, 30));
    assert SlotTime(15) == Some(Time(7, 30)) && SlotTime(16) == Some(Time(8, 0));
    ClockExamples();
    assert "05:00" + " - " + "06:30" == "05:00 - 06:30";
    assert "07:30" + " - " + "08:00" == "07:30 - 08:00";
  }

  /** The day of that example yields both ranges, in order. */
  lemma RangeExample(show: Clock -> string)
    requires forall t :: show(t) == FormatClock(t)
    ensures RangeTexts([Run(10, 12), Run(15, 15)], show) == Ok(["05:00 - 06:30", "07:30 - 08:00"])
  {
    RangeTextExample(show);
    var none: seq<Run> := [];
    var noText: seq<string> := [];
    assert RangeTexts(none, show) == Ok(noText);
    RangeTextsAppend(none, Run(10, 12), show);
    assert none + [Run(10, 12)] == [Run(10, 12)];
    assert noText + ["05:00 - 06:30"] == ["05:00 - 06:30"];
    RangeTextsAppend([Run(10, 12)], Run(15, 15), show);
    assert [Run(10, 12)] + [Run(15, 15)] == [Run(10, 12), Run(15, 15)];
    var first: seq<string> := ["05:00 - 06:30"];
    assert RangeTexts([Run(10, 12)], show) == Ok(first);
    assert first + ["07:30 - 08:00"] == ["05:00 - 06:30", "07:30 - 08:00"];
  }

  // ----------------------------------------------------------- the method

  /** The range loop of `update_meeting_proposal`: one `HH:MM - HH:MM`
      text per run, stopping at the first run whose end has no time. */
  method FormatRanges(groups: seq<Run>, show: Clock -> string) returns (r: Result<seq<string>, string>)
    ensures r == RangeTexts(groups, show)
  {
    var rangeStrs: seq<string> := [];
    for k := 0 to |groups|
      invariant RangeTexts(groups[..k], show) == Ok(rangeStrs)
    {
      assert groups[..k + 1][..k] == groups[..k];
      var startTime := SlotTime(groups[k].start);
      var endTime := SlotTime(groups[k].end + 1);
      match (startTime, endTime) {
        case (Some(a), Some(b)) =>
          rangeStrs := rangeStrs + [show(a) + " - " + show(b)];
        case _ =>
          // get_slot_datetime raised a ValueError
          RangeTextsErrStays(groups, k + 1, show);
          return Err(HourError);
      }
    }
    assert groups[..|groups|] == groups;
    r := Ok(rangeStrs);
  }

  /** The body of the day loop of `update_meeting_proposal`. */
  method FormatDay(states: map<Cell, bool>, day: nat, heading: string, show: Clock -> string)
    returns (r: Result<Option<string>, string>)
    ensures r == DayLine(states, day, heading, show)
  {
    var selected := SelectedSlots(states, day);
    if selected == [] {
      return Ok(None);
    }
    var groups := MergeRuns(selected);
    var rangeStrs := FormatRanges(groups, show);
    match rangeStrs {
      case Err(e) => return Err(e);
      case Ok(ts) => return Ok(Some(DayText(heading, ts)));
    }
  }

  /** One pass of the day loop: the day's line, if any, appended. */
  method AddDayLine(states: map<Cell, bool>, dayLabels: seq<string>, show: Clock -> string,
                    day: nat, lines: seq<string>)
    returns (r: Result<seq<string>, string>)
    requires day < |dayLabels|
    ensures r == AddLine(Ok(lines), LineOfDay(states, dayLabels, show)(day))
  {
    var line := FormatDay(states, day, dayLabels[day], show);
    match line {
      case Err(e) => return Err(e);
      case Ok(None) => return Ok(lines);
      case Ok(Some(l)) => return Ok(lines + [l]);
    }
  }

  /** The day loop of `update_meeting_proposal`: the lines of the days in
      order, stopping at the first failure. */
  method CollectDayLines(states: map<Cell, bool>, dayLabels: seq<string>, show: Clock -> string)
    returns (r: Result<seq<string>, string>)
    ensures r == Collect(LineOfDay(states, dayLabels, show), |dayLabels|)
  {
    ghost var f := LineOfDay(states, dayLabels, show);
    var lines: seq<string> := [];
    for day := 0 to |dayLabels|
      invariant Collect(f, day) == Ok(lines)
    {
      var next := AddDayLine(states, dayLabels, show, day, lines);
      match next {
        case Err(e) =>
          CollectErrStays(f, day + 1, |dayLabels|);
          return Err(e);
        case Ok(ls) =>
          lines := ls;
      }
    }
    r := Ok(lines);
  }

  /** `update_meeting_proposal` up to the text it writes into the widget. */
  method UpdateMeetingProposal(states: map<Cell, bool>, duration: string, targetDisplay: string,
                               dayLabels: seq<string>, show: Clock -> string)
    returns (r: Result<string, string>)
    requires |dayLabels| == Days
    ensures r == Proposal(states, duration, targetDisplay, dayLabels, show)
  {
    var dayLines := CollectDayLines(states, dayLabels, show);
    match dayLines {
      case Err(e) => return Err(e);
      case Ok(body) =>
        var header := Header(duration, targetDisplay);
        AssembleInSteps(header, body);
        var lines := [header] + body;
        if |lines| == 1 {
          lines := lines + [NoTimesLine];
        }
        lines := lines + [ClosingLine];
        return Ok(Join(lines, "\n"));
    }
  }
}
