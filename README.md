# Meeting scheduler: a model of its selection grid, proposal text and time-zone catalogue

`meeting_scheduler_v06.py` is a Tkinter window. It shows a week as 7 day
columns of 48 half-hour slots. The user selects slots by clicking and
dragging, and clears them with a right click. Two comboboxes pick the user's
time zone and the other party's zone. The program writes a meeting proposal
that lists the chosen times in the other party's zone.

This project models the logic behind that window:

- **Slots** (`slots.dfy`):
  - the start time of a slot (`get_slot_datetime`), which has no value for slot 48;
  - the business-hours test 08:00 ≤ hour < 18 (`is_business_hours`);
  - `HH:MM` formatting;
  - the three cell colours of `update_time_labels`;
  - the ordinal numbering `day * 48 + slot` used by drags.
- **Selection** (`selection.dfy`):
  - the event state machine in the class `SlotGrid`, with fields `cell_states`, `dragging`, `start_cell`, `last_cell` and `selection_mode`;
  - its methods for click, drag, release and right click, and the range paint of `update_selection`;
  - each method is proved against a function on the state value `GridState`, with lemmas about those functions.
- **Proposal** (`proposal.dfy`):
  - `update_meeting_proposal`: the selected slots of each day, merged into runs of consecutive slots, shown as ranges;
  - one line per day that has any selection, the header, the fallback line and the closing line, joined by newlines.
- **Catalogue** (`catalogue.dfy`):
  - `get_timezones`: the six US zones, the zone database's `Africa/` zones and UTC, each shown as `(UTC±HH:MM) label`;
  - the catalogue sorted by offset and then by zone name;
  - the `next(..., "Etc/UTC")` lookup from a shown label back to a zone name, and the default local display.
- **Autocomplete** (`autocomplete.dfy`):
  - `AutocompleteCombobox`: its completion list is sorted case-insensitively;
  - after each non-navigation key it shows only the choices that contain the typed text, ignoring case, in their original order.
- **Libraries** (`text.dfy`, `sorting.dfy`, `wrappers.dfy`):
  - string helpers (two-digit padding, ASCII lower-case, substring test, split and join);
  - Python's stable `sorted(key=...)` as an insertion sort, proved ordered, a permutation and stable;
  - `Option` and `Result`.

The parts of the program that depend on the outside world are parameters:

- **`convert: Clock -> Clock`:** converts a local time to the other party's zone (pytz `localize` then `astimezone`). For the proposal, `show: Clock -> string` is that conversion followed by `strftime("%H:%M")`.
- **`offsetOf: string -> int`:** each zone's current UTC offset in whole minutes.
- **`allZones`:** `pytz.all_timezones`.
- **`dayLabels`:** the seven `strftime("%A, %b %d")` headings of the current week.
- **`hit`:** the cell under the pointer that `winfo_containing` returns during a drag.

Three behaviours of the code are worth stating up front:

- **Slot 48:**
  - `get_slot_datetime(48)` builds `datetime.time(hour=24)`, which raises `ValueError`. Nothing in `update_meeting_proposal` catches it, so a range that ends at the last slot of a day never rolls over into the next day.
  - The model returns an error result here and does not require callers to avoid slot 48. `SlotTime(48)` is `None`. A proposal with slot 47 selected on any day is `Err(HourError)` (`Proposal.ProposalFails`).
- **Proposal errors:** `update_meeting_proposal` has no `try`, so one error ends the whole proposal. The model does the same: the first failing day's error is the result (`Proposal.CollectErrStays`).
- **Drag:**
  - `set_cell_state` calls `update_cell_appearance`, a method no class defines. Each call stores its cell and then raises `AttributeError`, so a drag as written paints only the lowest-ordinal cell of the range and never moves `last_cell`.
  - `Selection.DragAsWritten` models the code as written.
  - The class `SlotGrid` (`OnDrag`, `UpdateSelection`) and `Selection.Drag` model the intended drag, which paints the whole range. See "## Findings".

## Model

| member | source | states |
|---|---|---|
| Slots.SlotTime | meeting_scheduler_v06.py:345-349 | a slot has a start time exactly when it is below 48 |
| Slots.SlotTimeSpec | meeting_scheduler_v06.py:345-349 | for slots below 48, hour*60 + minute == slot*30 and the minute is 0 or 30; slot 48 and beyond have no time |
| Slots.SlotOfInverts | meeting_scheduler_v06.py:345-349 | the slot is recovered from its start time |
| Slots.SlotTimeInverts | meeting_scheduler_v06.py:345-349 | every time on the hour or half hour is the start of exactly one slot below 48 |
| Slots.FormatClock | meeting_scheduler_v06.py:375 | definition of `strftime("%H:%M")`, specified by `Slots.FormatClockRoundTrip` and `Slots.ClockExamples` |
| Slots.FormatClockRoundTrip | meeting_scheduler_v06.py:375 | `%H:%M` text is five characters with ':' in the middle and parses back to the same time |
| Slots.ClockExamples | meeting_scheduler_v06.py:375 | concrete `%H:%M` texts for 05:00, 06:30, 07:30, 08:00 |
| Slots.ShiftClock | meeting_scheduler_v06.py:372-373 | definition of a fixed-offset conversion, specified by `Slots.ShiftRoundTrip` and `Slots.ShiftedBusinessSlots` |
| Slots.ShiftRoundTrip | meeting_scheduler_v06.py:372-373 | for a fixed-offset zone, converting there and back gives the original time |
| Slots.BusinessHour | meeting_scheduler_v06.py:412 | definition of `8 <= hour < 18`, specified by `Slots.BusinessBoundaries` |
| Slots.IsBusinessHours | meeting_scheduler_v06.py:393-412 | definition (`8 <= hour < 18` on the converted slot time), specified by `Slots.SameZoneBusinessSlots`, `Slots.ShiftedBusinessSlots` and `Slots.BusinessBoundaries` |
| Slots.ShiftedBusinessSlots | meeting_scheduler_v06.py:393-412 | between zones a fixed number of minutes apart, a slot is in business hours iff its start moved by that offset, modulo a day, lies in 08:00-18:00 |
| Slots.BusinessBoundaries | meeting_scheduler_v06.py:412 | 08:00 and 17:30 are business hours; 07:30 and 18:00 are not |
| Slots.SameZoneBusinessSlots | meeting_scheduler_v06.py:393-412 | with both combo boxes on the same zone, exactly slots 16 to 35 are business hours |
| Slots.Ordinal | meeting_scheduler_v06.py:450-451 | definition of `day * 48 + slot`, specified by `Slots.OrdinalRoundTrip` and `Slots.OrdinalOrder` |
| Slots.CellAt | meeting_scheduler_v06.py:458-459 | definition of `(ordinal // 48, ordinal % 48)`, specified by `Slots.OrdinalRoundTrip` |
| Slots.OrdinalRoundTrip | meeting_scheduler_v06.py:450-459 | ordinal `day*48+slot` and its `//`/`%` decoding are inverse, and grid cells have ordinals below 336 |
| Slots.OrdinalOrder | meeting_scheduler_v06.py:450-454 | ordinal order is day-then-slot order |
| Slots.IsSelected | meeting_scheduler_v06.py:381 | definition of `cell_states.get((day, slot), False)`, specified by `Selection.InitialSpec`, `Slots.CellColourClasses` and `Proposal.SelectedSlotsSpec` |
| Slots.Background | meeting_scheduler_v06.py:385-387 | definition of the three colour strings, specified by `Slots.CellColourClasses` |
| Slots.CellColour | meeting_scheduler_v06.py:381-387 | definition, specified by `Slots.CellColourClasses` and `Slots.RowColourAgrees` |
| Slots.CellColourClasses | meeting_scheduler_v06.py:381-387 | a cell is highlighted iff selected; otherwise white iff its converted slot time is in business hours, grey iff not; painted "#FFDAB9", "white" and "#C7C7C7" respectively |
| Slots.RowColourAgrees | meeting_scheduler_v06.py:379-387 | cells in one slot row with the same selection get the same colour on every day |
| Selection.GridCellsSpec | meeting_scheduler_v06.py:279-302 | the registered cells are exactly the 7 by 48 grid |
| Selection.Initial | meeting_scheduler_v06.py:32-36 | definition of the state `__init__` leaves, with every cell registered as False by line 302, specified by `Selection.InitialSpec` and `Selection.GridCellsSpec` |
| Selection.InitialSpec | meeting_scheduler_v06.py:279-302 | the initial state is well formed and no grid cell is selected |
| Selection.SlotGrid.constructor | meeting_scheduler_v06.py:279-302 | the nested loops register every grid cell as unselected, with no drag in progress |
| Selection.SetState | meeting_scheduler_v06.py:465-466 | definition of the store of `set_cell_state`, specified by `Selection.SetThenClear` and `Selection.SlotGrid.SetCellState` |
| Selection.SlotGrid.SetCellState | meeting_scheduler_v06.py:465-466 | exactly that cell's state is replaced |
| Selection.SetThenClear | meeting_scheduler_v06.py:465-466 | setting then clearing a cell leaves it cleared, as if only cleared |
| Selection.Click | meeting_scheduler_v06.py:418-423 | definition of the click transition, specified by `Selection.ClickSpec` and `Selection.ClickStartsFresh` |
| Selection.SlotGrid.OnCellClick | meeting_scheduler_v06.py:414-423 | the new state is the click of the old one, and the invariant holds |
| Selection.ClickSpec | meeting_scheduler_v06.py:418-423 | mode is the negation of the clicked cell's old state; the cell takes the mode; the drag is armed at that cell; no other cell changes |
| Selection.ClickStartsFresh | meeting_scheduler_v06.py:418-423 | a click ignores any drag left over: clicking after a release gives the same state |
| Selection.Drag | meeting_scheduler_v06.py:426-437 | definition of the intended drag transition, specified by `Selection.DragGuards`, `Selection.DragPaints` and `Selection.DragKeepsWellFormed` |
| Selection.DragGuards | meeting_scheduler_v06.py:426-437 | a drag leaves the state as it is iff it is not dragging, has no anchor, hits no cell, or hits the last cell |
| Selection.DragPaints | meeting_scheduler_v06.py:432-463 | a drag to a new cell paints every cell between the anchor's and the new cell's ordinals with the mode, keeps the others, and records the new last cell |
| Selection.DragKeepsWellFormed | meeting_scheduler_v06.py:426-437 | every drag keeps the invariant |
| Selection.SlotGrid.OnDrag | meeting_scheduler_v06.py:426-437 | the new state is the drag of the old one, and the invariant holds |
| Selection.RangeCells | meeting_scheduler_v06.py:450-460 | definition of the listed cells, specified by `Selection.RangeCellsSpec` |
| Selection.RangeCellsSpec | meeting_scheduler_v06.py:450-460 | the listed cells are the grid cells whose ordinal lies between the two ends, in either direction |
| Selection.PaintRange | meeting_scheduler_v06.py:462-463 | definition of the range paint, specified by `Selection.PaintRangeExact` |
| Selection.PaintRangeExact | meeting_scheduler_v06.py:446-463 | after the range paint, the cells in the ordinal range hold the mode and all other cells keep their old state |
| Selection.RangeSpansDays | meeting_scheduler_v06.py:450-460 | every cell of a day strictly between the two ends is in the range |
| Selection.CrossDayDrag | meeting_scheduler_v06.py:446-463 | clicking (0,47) and dragging to (1,0) selects exactly those two cells |
| Selection.RangeListed | meeting_scheduler_v06.py:456-460 | the cells decoded from consecutive ordinals are exactly the range's cells |
| Selection.RangeUpdates | meeting_scheduler_v06.py:450-460 | the first loop lists the cells of consecutive ordinals from min to max, and they are exactly the range |
| Selection.PaintEachSpec | meeting_scheduler_v06.py:462-463 | writing the listed cells one by one gives them the value and leaves the others |
| Selection.PaintedIsRange | meeting_scheduler_v06.py:462-463 | writing the listed cells one by one paints the range |
| Selection.Repaint | meeting_scheduler_v06.py:446-463 | definition of the intended `update_selection` transition, specified by `Selection.PaintRangeExact` and `Selection.DragPaints` |
| Selection.SlotGrid.UpdateSelection | meeting_scheduler_v06.py:446-463 | the new state is the old one with the range painted in the selection mode |
| Selection.Release | meeting_scheduler_v06.py:439-443 | definition of the release transition, specified by `Selection.ReleaseSpec` |
| Selection.ReleaseSpec | meeting_scheduler_v06.py:439-443 | release ends the drag and clears anchor and last cell, keeping cells and mode |
| Selection.SlotGrid.OnRelease | meeting_scheduler_v06.py:439-443 | the new state is the release of the old one, and the invariant holds |
| Selection.RightClick | meeting_scheduler_v06.py:469-471 | definition of the right-click transition, specified by `Selection.RightClickSpec` |
| Selection.RightClickSpec | meeting_scheduler_v06.py:469-471 | right click clears that cell only, leaving the drag fields and mode alone |
| Selection.SlotGrid.OnCellRightClick | meeting_scheduler_v06.py:469-471 | the new state is the right click of the old one, and the invariant holds |
| Selection.DragAsWritten | meeting_scheduler_v06.py:426-467 | definition of `on_drag` as written (one cell stored, then `AttributeError`), specified by `Selection.DragAsWrittenForwardIsNoop` and `Selection.DragAsWrittenLeavesGap` |
| Selection.DragAsWrittenForwardIsNoop | meeting_scheduler_v06.py:436-467 | as written, a forward drag right after a click changes nothing |
| Selection.DragAsWrittenLeavesGap | meeting_scheduler_v06.py:436-467 | as written, clicking (0,10) and dragging to (0,12) leaves (0,11) and (0,12) clear and the last cell at (0,10); the intended drag selects both and moves the last cell |
| Proposal.SelectedSlots | meeting_scheduler_v06.py:485-486 | definition, specified by `Proposal.SelectedSlotsSpec` |
| Proposal.SelectedSlotsSpec | meeting_scheduler_v06.py:485-486 | a day's selected slots are increasing and are exactly the slots below 48 whose cell is selected |
| Proposal.Runs | meeting_scheduler_v06.py:488-500 | definition of the merge, specified by `Proposal.RunsSpec` and `Proposal.RunsAreMaximal` |
| Proposal.CoveredAppend | meeting_scheduler_v06.py:497-500 | appending a run adds exactly its slots to the covered ones |
| Proposal.ExtendStep | meeting_scheduler_v06.py:494-495 | extending the open run by the next slot keeps runs separated and covers that slot |
| Proposal.OpenStep | meeting_scheduler_v06.py:496-499 | opening a new run after a gap keeps runs separated and covers that slot |
| Proposal.NextRuns | meeting_scheduler_v06.py:493-499 | definition of one step of the merge loop, specified by `Proposal.ExtendStep`, `Proposal.OpenStep` and `Proposal.NextRunsSpec` |
| Proposal.NextRunsSpec | meeting_scheduler_v06.py:493-499 | one loop step keeps the runs an exact, separated cover of the slots seen so far |
| Proposal.RunsSpec | meeting_scheduler_v06.py:488-500 | the runs of an increasing slot list have start <= end, are increasing with gaps of at least 2, and cover exactly the list |
| Proposal.RunsAreMaximal | meeting_scheduler_v06.py:488-500 | every run lies inside the list and cannot be extended at either end |
| Proposal.MergeRuns | meeting_scheduler_v06.py:489-500 | the merge loop computes the runs |
| Proposal.MergeExample | meeting_scheduler_v06.py:488-500 | slots 10, 11, 12, 15 give runs (10,12) and (15,15) |
| Proposal.RangeText | meeting_scheduler_v06.py:505-515 | a run has range text iff its start and the slot after its end both have times |
| Proposal.RangeTexts | meeting_scheduler_v06.py:502-515 | definition of the range loop, specified by `Proposal.RangeTextsSpec` and `Proposal.RangeTextsErrStays` |
| Proposal.RangeTextsStep | meeting_scheduler_v06.py:503-515 | one loop step appends the range text, or fails and stays failed |
| Proposal.RangeTextsSpec | meeting_scheduler_v06.py:503-515 | the range texts are Ok iff every run has a text, and they are then those texts in order |
| Proposal.RangeTextsAppend | meeting_scheduler_v06.py:503-515 | the ranges of one more run are the previous ranges followed by its text |
| Proposal.RangeTextsErrStays | meeting_scheduler_v06.py:503-515 | once a run has failed, the later runs do not change the error |
| Proposal.FormatRanges | meeting_scheduler_v06.py:502-515 | the range loop computes the range texts |
| Proposal.RangeTextExample | meeting_scheduler_v06.py:515 | runs (10,12) and (15,15) read "05:00 - 06:30" and "07:30 - 08:00" in the local zone |
| Proposal.RangeExample | meeting_scheduler_v06.py:502-515 | the whole range loop gives those two texts in order |
| Proposal.Header | meeting_scheduler_v06.py:482 | the header starts with "Would " |
| Proposal.DayText | meeting_scheduler_v06.py:518 | a day line starts with "* " |
| Proposal.Heading | meeting_scheduler_v06.py:517 | definition of the day's `strftime` heading, specified by `Proposal.DayLineHeading` |
| Proposal.DayLineHeading | meeting_scheduler_v06.py:517-518 | a day's line starts with "* ", that day's own label and ": " |
| Proposal.DayLine | meeting_scheduler_v06.py:484-518 | a day yields no line iff it has no selected slot, and any line it yields starts with "* " |
| Proposal.DayLineFails | meeting_scheduler_v06.py:505-506 | a day's line fails iff slot 47 is selected on that day |
| Proposal.FormatDay | meeting_scheduler_v06.py:484-518 | one day's pass computes that day's line |
| Proposal.AddDayLine | meeting_scheduler_v06.py:488-518 | one pass of the day loop appends that day's line, if it has one |
| Proposal.AddLine | meeting_scheduler_v06.py:488-518 | definition of one pass of the day loop, specified by `Proposal.AddDayLine` and `Proposal.CollectErrStays` |
| Proposal.Collect | meeting_scheduler_v06.py:484-518 | definition of the day loop, specified by `Proposal.CollectSpec`, `Proposal.CollectFails` and `Proposal.CollectErrStays` |
| Proposal.CollectSpec | meeting_scheduler_v06.py:484-518 | the collected lines are one per emitting day, in day order |
| Proposal.CollectErrStays | meeting_scheduler_v06.py:484-518 | an error on an earlier day is the final result |
| Proposal.CollectFails | meeting_scheduler_v06.py:484-518 | collection fails iff some day's line fails |
| Proposal.CollectNone | meeting_scheduler_v06.py:484-518 | with no lines to emit, nothing is collected |
| Proposal.CollectKeeps | meeting_scheduler_v06.py:488-518 | a day with a line makes the collected lines non-empty |
| Proposal.CollectPrefixed | meeting_scheduler_v06.py:518 | every collected line starts with "* " |
| Proposal.CollectDayLines | meeting_scheduler_v06.py:484-518 | the day loop computes the collected lines |
| Proposal.ActiveDaysSpec | meeting_scheduler_v06.py:484-488 | the days with a selection are increasing and are exactly the days that have a selected slot |
| Proposal.EmittingDays | meeting_scheduler_v06.py:488 | the days that emit a line are exactly the days with a selection |
| Proposal.DayLinesSpec | meeting_scheduler_v06.py:484-518 | the k-th collected line is the line of the k-th day with a selection |
| Proposal.Assemble | meeting_scheduler_v06.py:520-523 | definition of the header, the lines or the fallback, and the closing line, specified by `Proposal.AssembleSpec`, `Proposal.AssembleInSteps` and `Proposal.AssembleNoFallback` |
| Proposal.AssembleInSteps | meeting_scheduler_v06.py:520-523 | the fallback line is added when only the header is present, then the closing line is added |
| Proposal.AssembleSpec | meeting_scheduler_v06.py:482-523 | header first, closing line last; with no day lines the middle line is the fallback, otherwise the day lines in order |
| Proposal.AssembleNoFallback | meeting_scheduler_v06.py:520-521 | with day lines present, "No times selected yet." is not among the lines |
| Proposal.ProposalLines | meeting_scheduler_v06.py:482-523 | definition of `lines`, specified by `Proposal.ProposalDays`, `Proposal.ProposalNoFallback` and `Proposal.AssembleSpec` |
| Proposal.ProposalFails | meeting_scheduler_v06.py:474-525 | the proposal is an error iff some day has slot 47 selected (the ValueError for slot 48) |
| Proposal.Proposal | meeting_scheduler_v06.py:474-525 | definition of the joined text, specified by `Proposal.ProposalFails` and `Proposal.ProposalFallback` |
| Proposal.ProposalFallback | meeting_scheduler_v06.py:520-525 | with nothing selected the proposal is the header, "No times selected yet." and the closing line, joined by "\n" |
| Proposal.ProposalDays | meeting_scheduler_v06.py:482-523 | with a selection, there are 2 + (days with a selection) lines, and line k+1 is the line of the k-th such day |
| Proposal.ProposalNoFallback | meeting_scheduler_v06.py:520-521 | with any slot selected, the fallback line is absent |
| Proposal.UpdateMeetingProposal | meeting_scheduler_v06.py:474-525 | the method computes the proposal text or its error |
| Catalogue.SignChar | meeting_scheduler_v06.py:123 | the sign is '+' iff the offset is at least 0, otherwise '-' |
| Catalogue.SplitOffset | meeting_scheduler_v06.py:124 | hours*60 + minutes == abs(offset) with minutes below 60 |
| Catalogue.OffsetText | meeting_scheduler_v06.py:123-144 | definition of `UTC{sign}{hours:02d}:{minutes:02d}`, specified by `Catalogue.OffsetTextRoundTrip` |
| Catalogue.OffsetTextRoundTrip | meeting_scheduler_v06.py:123-144 | `UTC±HH:MM` is nine characters and reads back to the offset, for offsets under 100 hours |
| Catalogue.DisplayName | meeting_scheduler_v06.py:144 | definition of the display f-string, specified by `Catalogue.DisplayNameRoundTrip` |
| Catalogue.DisplayNameRoundTrip | meeting_scheduler_v06.py:144 | the display text reads back to its offset and label |
| Catalogue.PacificOffset | meeting_scheduler_v06.py:123-144 | -420 minutes reads "UTC-07:00" |
| Catalogue.UtcOffset | meeting_scheduler_v06.py:123-144 | 0 minutes reads "UTC+00:00" |
| Catalogue.PacificDefault | meeting_scheduler_v06.py:164 | the fallback literal of line 164 is the display format's output for US Pacific Time at -420 minutes |
| Catalogue.UtcDisplay | meeting_scheduler_v06.py:171 | the default other zone "(UTC+00:00) UTC" is what UTC at offset 0 is shown as |
| Catalogue.UsLabel | meeting_scheduler_v06.py:128-139 | definition of the `elif` chain, specified by `Catalogue.UsLabelCases` and `Catalogue.UsLabels` |
| Catalogue.UsLabelCases | meeting_scheduler_v06.py:127-139 | the first city tested that a name contains picks its label |
| Catalogue.PacificLabel | meeting_scheduler_v06.py:100-129 | Los Angeles is US Pacific Time |
| Catalogue.MountainLabel | meeting_scheduler_v06.py:101-131 | Denver is US Mountain Time |
| Catalogue.CentralLabel | meeting_scheduler_v06.py:102-133 | Chicago is US Central Time |
| Catalogue.EasternLabel | meeting_scheduler_v06.py:103-135 | New York is US Eastern Time |
| Catalogue.AlaskaLabel | meeting_scheduler_v06.py:104-137 | Anchorage is US Alaska Time |
| Catalogue.HawaiiLabel | meeting_scheduler_v06.py:105-139 | Honolulu is US Hawaii Time |
| Catalogue.UsLabels | meeting_scheduler_v06.py:99-142 | each of the six US zones gets the label its comment names, and "UTC" is labelled "UTC" |
| Catalogue.RegionalLabel | meeting_scheduler_v06.py:142 | definition, specified by `Catalogue.RegionalLabelSpec` |
| Catalogue.RegionalLabelSpec | meeting_scheduler_v06.py:142 | a regional label is the text after the last '/', with '_' shown as ' '; it is the name itself iff the name has neither character |
| Catalogue.RegionalLabelWithout | meeting_scheduler_v06.py:142 | a name without '/' is labelled by itself with underscores as spaces |
| Catalogue.Label | meeting_scheduler_v06.py:127-142 | definition of the US-or-regional `if`, specified by `Catalogue.UsLabels` and `Catalogue.RegionalLabelSpec` |
| Catalogue.SelectedZones | meeting_scheduler_v06.py:109-112 | definition of `selected_timezones`, specified by `Catalogue.SelectedZonesSpec` |
| Catalogue.SelectedZonesSpec | meeting_scheduler_v06.py:99-112 | the US zones come first, UTC last, and in between exactly the `Africa/` zones of the database, in database order |
| Catalogue.EntryOf | meeting_scheduler_v06.py:117-145 | definition of one `(offset, display_name, tz_name)`, specified by `Catalogue.DisplayNameRoundTrip`, `Catalogue.UsLabels` and `Catalogue.RegionalLabelSpec` |
| Catalogue.Entries | meeting_scheduler_v06.py:117-145 | one entry per name, in order, each built from its own name and offset |
| Catalogue.EntriesNamed | meeting_scheduler_v06.py:117-145 | each entry is the one built from its own name, and the entries are named exactly by the names |
| Catalogue.KeyLe | meeting_scheduler_v06.py:151 | definition of the sort key `(offset, tz_name)`, specified by `Catalogue.KeyLeOrders` |
| Catalogue.KeyLeOrders | meeting_scheduler_v06.py:151 | the key (offset, name) is a total preorder |
| Catalogue.Choices | meeting_scheduler_v06.py:152 | each choice is the (display, name) of its entry, in order |
| Catalogue.SortedEntries | meeting_scheduler_v06.py:151 | definition of `tz_list` after its sort, specified by `Catalogue.CatalogueOf` and `Catalogue.TimezonesSpec` |
| Catalogue.Timezones | meeting_scheduler_v06.py:95-152 | definition of the result of `get_timezones`, specified by `Catalogue.TimezonesSpec` |
| Catalogue.CatalogueOf | meeting_scheduler_v06.py:117-152 | for any name list, the result is ordered by offset and then name, shows each name's own display, is a permutation of the entries, and names exactly the listed zones |
| Catalogue.TimezonesSpec | meeting_scheduler_v06.py:95-152 | the catalogue is ordered by offset and then name, shows each zone's own display, is a permutation of the entries, and lists exactly the selected zones |
| Catalogue.MakeEntry | meeting_scheduler_v06.py:117-145 | one pass of the loop builds the entry of its zone |
| Catalogue.ListEntries | meeting_scheduler_v06.py:114-145 | the loop builds the entries of the selected zones in order |
| Catalogue.GetTimezones | meeting_scheduler_v06.py:95-152 | the method computes the catalogue |
| Catalogue.ZoneOf | meeting_scheduler_v06.py:361 | the zone of the first entry with that display, or "Etc/UTC" when no entry has it |
| Catalogue.ZoneOfTimezones | meeting_scheduler_v06.py:361-362 | a looked-up zone is a selected zone or "Etc/UTC", and an unknown display gives "Etc/UTC" |
| Catalogue.DefaultLocal | meeting_scheduler_v06.py:164 | the first display mentioning "Pacific Time", or "(UTC-07:00) US Pacific Time" when none does |
| Autocomplete.LowerLe | meeting_scheduler_v06.py:15 | definition of the sort key `s.lower()`, specified by `Autocomplete.LowerLeOrders` |
| Autocomplete.LowerLeOrders | meeting_scheduler_v06.py:15 | the case-insensitive key is a total preorder |
| Autocomplete.CompletionListSpec | meeting_scheduler_v06.py:15 | the completion list is sorted case-insensitively, holds the same items, and is unchanged when already sorted |
| Autocomplete.AutocompleteCombobox.SetCompletionList | meeting_scheduler_v06.py:14-16 | stores the sorted list and shows all of it |
| Autocomplete.AutocompleteCombobox.Set | meeting_scheduler_v06.py:165-171 | replaces the entry text only |
| Autocomplete.AutocompleteCombobox.constructor | meeting_scheduler_v06.py:159 | an empty combobox |
| Autocomplete.AutocompleteCombobox.HandleKeyRelease | meeting_scheduler_v06.py:19-24 | after a navigation key nothing changes; otherwise the shown values are the matching choices |
| Autocomplete.CompletionListStable | meeting_scheduler_v06.py:15 | choices equal but for case keep the order they were given in |
| Autocomplete.Matching | meeting_scheduler_v06.py:22-23 | definition of the filter, specified by `Autocomplete.MatchingMembers`, `Autocomplete.MatchingKeepsOrder` and `Autocomplete.MatchingNarrows` |
| Autocomplete.Matches | meeting_scheduler_v06.py:22-23 | definition of the test `value in item.lower()`, specified by `Autocomplete.MatchingMembers` and `Autocomplete.MatchingIgnoresCase` |
| Autocomplete.MatchingMembers | meeting_scheduler_v06.py:22-23 | a choice is shown iff it is in the list and contains the typed text, ignoring case |
| Autocomplete.MatchingKeepsOrder | meeting_scheduler_v06.py:23 | filtering keeps order: filtering a concatenation filters each part |
| Autocomplete.MatchingEmpty | meeting_scheduler_v06.py:22-23 | with nothing typed every choice is shown |
| Autocomplete.MatchingItself | meeting_scheduler_v06.py:22-23 | a choice typed in full is shown |
| Autocomplete.MatchingIgnoresCase | meeting_scheduler_v06.py:22 | typed texts equal up to case show the same choices |
| Autocomplete.MatchingNarrows | meeting_scheduler_v06.py:22-23 | typing more only narrows: filtering the shown choices by the longer text gives the choices for the longer text |
| Text.Pad2 | meeting_scheduler_v06.py:144 | definition of `:02d`, specified by `Text.Pad2RoundTrip` |
| Text.Pad2RoundTrip | meeting_scheduler_v06.py:144 | `:02d` text is all digits and reads back to the number; it is two characters iff the number is below 100 |
| Text.Lower | meeting_scheduler_v06.py:22-23 | ASCII `str.lower`: the same length, each character lower-cased |
| Text.Contains | meeting_scheduler_v06.py:22-23 | definition of `t in s` on strings, specified by `Text.ContainsLower` and `Text.ContainsTransitive` |
| Text.ReplaceChar | meeting_scheduler_v06.py:142 | `replace('_', ' ')`: the same length, each `_` replaced by a space and nothing else changed |
| Text.Split | meeting_scheduler_v06.py:142 | definition of `split('/')`, at least one piece, specified by `Text.SplitWithout` and `Text.LastPieceIsSuffix` |
| Text.SplitWithout | meeting_scheduler_v06.py:142 | a name without '/' splits into itself alone |
| Text.LastPiece | meeting_scheduler_v06.py:142 | definition of `split('/')[-1]`, specified by `Text.LastPieceIsSuffix` |
| Text.LastPieceIsSuffix | meeting_scheduler_v06.py:142 | `split('/')[-1]` is a suffix of the name without '/', preceded by '/' when shorter |
| Text.Join | meeting_scheduler_v06.py:525 | definition of `sep.join(parts)`, specified by `Text.JoinThree` |
| Text.JoinThree | meeting_scheduler_v06.py:525 | three lines joined by a separator are the lines with the separator between each pair |
| Text.StrLe | meeting_scheduler_v06.py:151 | definition of Python's `<=` on strings, specified by `Text.StrLeTotal` and `Text.StrLeTransitive` |
| Text.StrLeTotal | meeting_scheduler_v06.py:151 | any two strings are ordered one way or the other |
| Text.StrLeTransitive | meeting_scheduler_v06.py:151 | string order is transitive |
| Text.Filter | meeting_scheduler_v06.py:23 | definition of the list comprehension with a condition, specified by `Text.FilterMembers`, `Text.FilterAppend` and `Text.FilterNarrow` |
| Text.FilterMembers | meeting_scheduler_v06.py:23 | the filter keeps exactly the elements that pass the test, and is no longer than its input |
| Text.FilterAppend | meeting_scheduler_v06.py:23 | the filter keeps order: filtering a concatenation filters each part |
| Text.Find | meeting_scheduler_v06.py:361 | `next(...)` over a list: the first index whose element passes the test, or none when no element passes |
| Text.ContainsLower | meeting_scheduler_v06.py:22-23 | a substring stays a substring after lower-casing both |
| Text.ContainsTransitive | meeting_scheduler_v06.py:22-23 | a substring of a substring is a substring |
| Text.FilterNarrow | meeting_scheduler_v06.py:23 | filtering by a stricter test after a weaker one is filtering by the stricter one |
| Sorting.SortBy | meeting_scheduler_v06.py:151 | definition of `sorted`/`list.sort` with a key, specified by `Sorting.SortBySpec`, `Sorting.SortByStable` and `Sorting.SortBySortedIsIdentity` |
| Sorting.SortBySpec | meeting_scheduler_v06.py:151 | under a total preorder the sort result is ordered and a permutation of its input |
| Sorting.SortByPermutes | meeting_scheduler_v06.py:151 | the sort keeps every element with its count, whatever the key |
| Sorting.SortBySortedIsIdentity | meeting_scheduler_v06.py:151 | a list already in key order is left unchanged |
| Sorting.InsertByStable | meeting_scheduler_v06.py:151 | inserting into a sorted list keeps the order of the elements of one key class, with the new one last |
| Sorting.SortByStable | meeting_scheduler_v06.py:151 | stability: for any class of elements with pairwise equal keys, the sort keeps their input order |
| Sorting.SortByKeepsTies | meeting_scheduler_v06.py:151 | the elements whose key equals a given element's key come out in their input order |


## Left out

- The Tk widgets, layout, event binding (`bind_all`) and the cell appearance changes are not modelled. `winfo_containing` is the `hit` parameter of `OnDrag`.
- Time-zone conversion (pytz `localize`, `astimezone`), `tzlocal`, `datetime.now` and daylight saving time are the parameters `convert`, `show` and `offsetOf`. Only the fixed-offset case `ShiftClock` is modelled concretely.
- `datetime.date.today()`, `get_week_dates` and `strftime("%A, %b %d")` are the `dayLabels` parameter.
- `get_slot_datetime` (347) places every slot on `datetime.date.today()`, not on its column's date. So every day column is converted with the offsets in force today, even in a week that crosses a daylight-saving change. The model keeps this, because `convert` and `show` take no day argument: one conversion serves all seven days.
- `total_seconds() / 60` and `int(...)` are not modelled as floats. Offsets are whole minutes, which is what every zone in the catalogue has.
- The `try`/`except Exception: continue` of `get_timezones` (147-148) is not modelled: every selected zone is assumed to resolve. The `try`/`except` and `print` in `update_time_labels` (371-391) are left out with it.
- `print` calls are left out.
- The proposal text is not written into the text widget (526-529). The clipboard and message box are not modelled. `UpdateMeetingProposal` returns the text.
- The call to `update_meeting_proposal` after a click, release and right click is not made part of the state transitions. After a click or right click it is never reached as written (see Findings).
- `tz_display_map` (55) is built and never read, so it is not modelled.
- `Autocomplete.AutocompleteCombobox`: the entry text changes only through `Set`. A keystroke is modelled as `Set(typed)`, where `typed` is the text the entry holds after the key (what `self.get()` returns at line 22), followed by `HandleKeyRelease(key)`. Tk's own editing of the entry text is not modelled.
- `Text.Lower` folds only ASCII letters. Python's `str.lower` also folds other alphabets.
- Sorting (`sorted`, `list.sort`) is modelled on values. The model does not capture that `list.sort` works in place.
- `Catalogue.UsLabel`: when a US zone matches none of the cities, the source assigns no label on that pass. From the second pass on this reuses the previous zone's label. On the first pass it would raise `UnboundLocalError`, which lines 147-148 would swallow. The model returns the Hawaii label instead. No name reaches that branch: each of the six US names matches its own city (`Catalogue.UsLabels`).
- `Slots.SlotTime`: slot 48 is not excluded by a precondition. It has no time (`None`), and the proposal becomes `Err(HourError)`, which is how the model represents the uncaught `ValueError`.
- Selection.SlotGrid.OnDrag: models the intended drag, which paints the whole range and records the hit cell as the last cell. The code as written stops after the first cell with `AttributeError` and is modelled separately by `Selection.DragAsWritten`.
- Selection.SlotGrid.UpdateSelection: paints every cell of the range. As written, the first `set_cell_state` raises after storing the lowest-ordinal cell. The model keeps going, for the reason given for `OnDrag`.
- Selection.SlotGrid.OnCellClick and Selection.SlotGrid.OnCellRightClick: the `AttributeError` raised after the one cell is stored only skips the proposal refresh. The state after the call is the same as in the code.
- Rolling a range over to the next day at midnight is not modelled, because the code does not do it.

## Findings

| source | as written | input that shows it | evidently intended | confidence | as-written member | corrected member |
|---|---|---|---|---|---|---|
| meeting_scheduler_v06.py:465-467 | `set_cell_state` calls `self.update_cell_appearance`, which no class defines. Each call stores one cell and then raises `AttributeError`. A drag therefore paints only the lower-ordinal cell of the range, and `last_cell` is never updated. | click (0,10) on an empty grid, then drag to (0,12): (0,11) and (0,12) stay clear | a drag paints the whole range from the anchor to the hit cell and records the hit cell as the last cell | not executed | Selection.DragAsWrittenLeavesGap | Selection.SlotGrid.OnDrag |
