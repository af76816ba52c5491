/** The slot-selection state machine of `MeetingScheduler`: the per-cell
    selected flags `cell_states` and the drag fields `dragging`,
    `start_cell`, `last_cell` and `selection_mode`, driven by a click, a
    drag over a cell, a button release and a right-click.

    The transitions are stated first as functions on a value `GridState`;
    the class `SlotGrid` holds the same fields and its event methods are
    proved to perform exactly those transitions. */
module Selection {
  import opened Wrappers
  import opened Slots

  type Cells = map<Cell, bool>

  /** The 336 cells `create_time_grid` registers. */
  const GridCells: set<Cell> := set d: nat, s: nat | d < Days && s < TotalSlots :: Cell(d, s)

  lemma GridCellsSpec(c: Cell)
    ensures c in GridCells <==> InGrid(c)
  {
    if InGrid(c) {
      assert Cell(c.day, c.slot) in GridCells;
    }
  }

  /** Every grid cell has an entry, and nothing else does. */
  ghost predicate FullGrid(cells: Cells)
  {
    forall c :: c in cells <==> InGrid(c)
  }

  datatype GridState = GridState(
    cells: Cells,
    dragging: bool,
    startCell: Option<Cell>,
    lastCell: Option<Cell>,
    mode: bool)

  /** The invariant every event keeps: the grid is complete, a drag is in
      progress exactly when it has an anchor and a last cell, and both lie
      on the grid. */
  ghost predicate WellFormed(s: GridState)
  {
    && FullGrid(s.cells)
    && (s.dragging <==> s.startCell.Some?)
    && (s.dragging <==> s.lastCell.Some?)
    && (s.startCell.Some? ==> InGrid(s.startCell.value))
    && (s.lastCell.Some? ==> InGrid(s.lastCell.value))
  }

  /** The state after `__init__`: every cell unselected, no drag. */
  function Initial(): GridState
  {
    GridState(map c | c in GridCells :: false, false, None, None, false)
  }

  lemma InitialSpec()
    ensures WellFormed(Initial())
    ensures forall c :: InGrid(c) ==> !IsSelected(Initial().cells, c)
  {
    forall c ensures c in Initial().cells <==> InGrid(c) {
      GridCellsSpec(c);
    }
  }

  /** `set_cell_state`, with the display refresh it asks for omitted. */
  function SetState(s: GridState, c: Cell, v: bool): GridState
  {
    s.(cells := s.cells[c := v])
  }

  /** `on_cell_click`: the paint value becomes the opposite of the clicked
      cell's state, the drag is armed at that cell, and the cell is
      painted. */
  function Click(s: GridState, c: Cell): GridState
    requires c in s.cells
  {
    var m := !s.cells[c];
    SetState(GridState(s.cells, true, Some(c), Some(c), m), c, m)
  }

  function Min(a: nat, b: nat): nat { if a <= b then a else b }
  function Max(a: nat, b: nat): nat { if a <= b then b else a }

  /** The cells `update_selection(a, b)` collects: those decoded from the
      ordinals between the two cells', both included. */
  function RangeCells(a: Cell, b: Cell): set<Cell>
  {
    var lo := Min(Ordinal(a), Ordinal(b));
    var hi := Max(Ordinal(a), Ordinal(b));
    set o: nat | lo <= o <= hi :: CellAt(o)
  }

  /** Sets every cell of the range to `v`. */
  function PaintRange(cells: Cells, a: Cell, b: Cell, v: bool): Cells
  {
    cells + map c | c in RangeCells(a, b) :: v
  }

  /** `update_selection(a, b)`: paints the range with the paint value. */
  function Repaint(s: GridState, a: Cell, b: Cell): GridState
  {
    s.(cells := PaintRange(s.cells, a, b, s.mode))
  }

  /** `on_drag` with the cell under the pointer (None when the pointer is
      not over a cell): ignored unless a drag is armed and the pointer has
      moved to a new cell; otherwise paints from the anchor to that cell
      and records it as the last cell. */
  function Drag(s: GridState, hit: Option<Cell>): GridState
  {
    if !s.dragging || s.startCell.None? then s
    else if hit.None? then s
    else if hit == s.lastCell then s
    else Repaint(s, s.startCell.value, hit.value).(lastCell := hit)
  }

  /** `on_release`: disarms a drag in progress. */
  function Release(s: GridState): GridState
  {
    if s.dragging then s.(dragging := false, startCell := None, lastCell := None) else s
  }

  /** `on_cell_right_click`: clears one cell. */
  function RightClick(s: GridState, c: Cell): GridState
  {
    SetState(s, c, false)
  }

  // ------------------------------------------------------------- the range

  /** A range holds exactly the grid cells whose ordinal lies between the
      two ends', in either drag direction. */
  lemma RangeCellsSpec(a: Cell, b: Cell, c: Cell)
    requires InGrid(a) && InGrid(b)
    ensures c in RangeCells(a, b) <==>
      InGrid(c) && Min(Ordinal(a), Ordinal(b)) <= Ordinal(c) <= Max(Ordinal(a), Ordinal(b))
    ensures RangeCells(a, b) == RangeCells(b, a)
  {
    OrdinalRoundTrip(a, 0);
    OrdinalRoundTrip(b, 0);
    if c in RangeCells(a, b) {
      var o: nat :| Min(Ordinal(a), Ordinal(b)) <= o <= Max(Ordinal(a), Ordinal(b)) && c == CellAt(o);
      OrdinalRoundTrip(c, o);
    }
    if InGrid(c) && Min(Ordinal(a), Ordinal(b)) <= Ordinal(c) <= Max(Ordinal(a), Ordinal(b)) {
      OrdinalRoundTrip(c, 0);
      assert CellAt(Ordinal(c)) == c;
    }
  }

  /** Painting a range sets the cells between the ends to `v` and leaves
      every other cell untouched; the grid stays complete. */
  lemma PaintRangeExact(cells: Cells, a: Cell, b: Cell, v: bool)
    requires FullGrid(cells) && InGrid(a) && InGrid(b)
    ensures FullGrid(PaintRange(cells, a, b, v))
    ensures forall c :: InGrid(c) ==>
      PaintRange(cells, a, b, v)[c] ==
        if Min(Ordinal(a), Ordinal(b)) <= Ordinal(c) <= Max(Ordinal(a), Ordinal(b)) then v else cells[c]
  {
    forall c ensures c in RangeCells(a, b) <==>
      InGrid(c) && Min(Ordinal(a), Ordinal(b)) <= Ordinal(c) <= Max(Ordinal(a), Ordinal(b))
    {
      RangeCellsSpec(a, b, c);
    }
  }

  /** A range whose ends are on different days covers every slot of each
      day strictly between them. */
  lemma RangeSpansDays(a: Cell, b: Cell, c: Cell)
    requires InGrid(a) && InGrid(b) && InGrid(c)
    requires a.day < c.day < b.day || b.day < c.day < a.day
    ensures c in RangeCells(a, b)
  {
    OrdinalOrder(a, c);
    OrdinalOrder(c, b);
    OrdinalOrder(b, c);
    OrdinalOrder(c, a);
    RangeCellsSpec(a, b, c);
  }

  // ----------------------------------------------------------- transitions

  /** Setting a cell and then clearing it leaves it unselected, whatever
      it held before. */
  lemma SetThenClear(s: GridState, c: Cell)
    ensures !IsSelected(SetState(SetState(s, c, true), c, false).cells, c)
    ensures SetState(SetState(s, c, true), c, false) == SetState(s, c, false)
  {
  }

  /** A click toggles the clicked cell, arms a drag anchored there, and
      changes no other cell. */
  lemma ClickSpec(s: GridState, c: Cell)
    requires WellFormed(s) && InGrid(c)
    ensures WellFormed(Click(s, c))
    ensures Click(s, c).mode == !s.cells[c]
    ensures Click(s, c).cells[c] == Click(s, c).mode
    ensures Click(s, c).dragging
    ensures Click(s, c).startCell == Click(s, c).lastCell == Some(c)
    ensures forall d :: d in s.cells && d != c ==> Click(s, c).cells[d] == s.cells[d]
  {
  }

  /** Clicking during a drag starts a fresh drag: the result is the same as
      releasing first. */
  lemma ClickStartsFresh(s: GridState, c: Cell)
    requires c in s.cells
    ensures Click(s, c) == Click(Release(s), c)
  {
  }

  /** A drag event changes the state exactly when a drag is armed and the
      pointer is over a cell other than the last one. */
  lemma DragGuards(s: GridState, hit: Option<Cell>)
    ensures Drag(s, hit) == s <==>
      !s.dragging || s.startCell.None? || hit.None? || hit == s.lastCell
  {
    if s.dragging && s.startCell.Some? && hit.Some? && hit != s.lastCell {
      assert Drag(s, hit).lastCell == hit;
    }
  }

  /** A drag to a new cell repaints exactly the cells between the anchor
      and that cell with the paint value, then makes it the last cell. */
  lemma DragPaints(s: GridState, c: Cell)
    requires WellFormed(s) && s.dragging && InGrid(c) && Some(c) != s.lastCell
    ensures WellFormed(Drag(s, Some(c)))
    ensures Drag(s, Some(c)).lastCell == Some(c)
    ensures Drag(s, Some(c)).startCell == s.startCell
    ensures Drag(s, Some(c)).dragging && Drag(s, Some(c)).mode == s.mode
    ensures forall d :: InGrid(d) ==>
      Drag(s, Some(c)).cells[d] ==
        if Min(Ordinal(s.startCell.value), Ordinal(c)) <= Ordinal(d) <= Max(Ordinal(s.startCell.value), Ordinal(c))
        then s.mode else s.cells[d]
  {
    PaintRangeExact(s.cells, s.startCell.value, c, s.mode);
  }

  lemma DragKeepsWellFormed(s: GridState, hit: Option<Cell>)
    requires WellFormed(s) && (hit.Some? ==> InGrid(hit.value))
    ensures WellFormed(Drag(s, hit))
  {
    if s.dragging && hit.Some? && hit != s.lastCell {
      DragPaints(s, hit.value);
    }
  }

  /** A release disarms the drag and changes no cell. */
  lemma ReleaseSpec(s: GridState)
    requires WellFormed(s)
    ensures WellFormed(Release(s))
    ensures Release(s).cells == s.cells && Release(s).mode == s.mode
    ensures !Release(s).dragging && Release(s).startCell.None? && Release(s).lastCell.None?
  {
  }

  /** A right-click clears one cell, whatever its state, and leaves the
      other cells and the drag fields alone, also in the middle of a drag. */
  lemma RightClickSpec(s: GridState, c: Cell)
    requires WellFormed(s) && InGrid(c)
    ensures WellFormed(RightClick(s, c))
    ensures !IsSelected(RightClick(s, c).cells, c)
    ensures forall d :: d in s.cells && d != c ==> RightClick(s, c).cells[d] == s.cells[d]
    ensures RightClick(s, c).dragging == s.dragging && RightClick(s, c).mode == s.mode
    ensures RightClick(s, c).startCell == s.startCell && RightClick(s, c).lastCell == s.lastCell
  {
  }

  /** Clicking the last slot of Monday and dragging onto the first slot of
      Tuesday selects those two cells and nothing else. */
  lemma CrossDayDrag()
    ensures
      var s := Drag(Click(Initial(), Cell(0, 47)), Some(Cell(1, 0)));
      forall c :: InGrid(c) ==> (IsSelected(s.cells, c) <==> c == Cell(0, 47) || c == Cell(1, 0))
  {
    InitialSpec();
    GridCellsSpec(Cell(0, 47));
    var s0 := Click(Initial(), Cell(0, 47));
    ClickSpec(Initial(), Cell(0, 47));
    DragPaints(s0, Cell(1, 0));
    var s := Drag(s0, Some(Cell(1, 0)));
    forall c | InGrid(c)
      ensures IsSelected(s.cells, c) <==> c == Cell(0, 47) || c == Cell(1, 0)
    {
      if 47 <= Ordinal(c) <= 48 {
        assert c == Cell(0, 47) || c == Cell(1, 0);
      }
    }
  }

  // ------------------------------------------------ the drag as written

  /** `on_drag` as the code runs it: `set_cell_state` calls
      `update_cell_appearance`, which the class does not define, so the
      first write of `update_selection` (the cell at the lower ordinal)
      lands and the AttributeError it raises ends the handler before any
      other cell is painted and before `last_cell` is updated. */
  function DragAsWritten(s: GridState, hit: Option<Cell>): GridState
  {
    if !s.dragging || s.startCell.None? then s
    else if hit.None? then s
    else if hit == s.lastCell then s
    else
      var lo := Min(Ordinal(s.startCell.value), Ordinal(hit.value));
      s.(cells := s.cells[CellAt(lo) := s.mode])
  }

  /** As written, dragging forward from a clicked cell paints nothing:
      the only cell written is the anchor, which already holds the paint
      value, and the last cell stays the anchor. */
  lemma DragAsWrittenForwardIsNoop(s: GridState, a: Cell, c: Cell)
    requires WellFormed(s) && InGrid(a) && InGrid(c) && Ordinal(a) <= Ordinal(c)
    ensures DragAsWritten(Click(s, a), Some(c)) == Click(s, a)
  {
    OrdinalRoundTrip(a, 0);
    var s1 := Click(s, a);
    if Some(c) != s1.lastCell {
      assert CellAt(Ordinal(a)) == a;
      assert s1.cells[a := s1.mode] == s1.cells;
    }
  }

  /** The input that shows the difference: click (0, 10) on an empty grid
      and drag to (0, 12). As written, (0, 11) and (0, 12) stay clear and
      the last cell stays (0, 10); the intended drag selects both. */
  lemma DragAsWrittenLeavesGap()
    ensures
      var s0 := Click(Initial(), Cell(0, 10));
      var w := DragAsWritten(s0, Some(Cell(0, 12)));
      !IsSelected(w.cells, Cell(0, 11)) && !IsSelected(w.cells, Cell(0, 12))
      && w.lastCell == Some(Cell(0, 10))
    ensures
      var s0 := Click(Initial(), Cell(0, 10));
      var d := Drag(s0, Some(Cell(0, 12)));
      IsSelected(d.cells, Cell(0, 11)) && IsSelected(d.cells, Cell(0, 12))
      && d.lastCell == Some(Cell(0, 12))
  {
    InitialSpec();
    GridCellsSpec(Cell(0, 10));
    var s0 := Click(Initial(), Cell(0, 10));
    ClickSpec(Initial(), Cell(0, 10));
    DragAsWrittenForwardIsNoop(Initial(), Cell(0, 10), Cell(0, 12));
    DragPaints(s0, Cell(0, 12));
  }

  /** The cells `update_selection` lists are those of the range. */
  lemma RangeListed(updates: seq<Cell>, a: Cell, b: Cell, lo: nat, hi: nat)
    requires lo == Min(Ordinal(a), Ordinal(b)) && hi == Max(Ordinal(a), Ordinal(b))
    requires |updates| == hi + 1 - lo
    requires forall k :: 0 <= k < |updates| ==> updates[k] == CellAt(lo + k)
    ensures forall c :: c in updates <==> c in RangeCells(a, b)
  {
    forall c ensures c in updates <==> c in RangeCells(a, b) {
      if c in updates {
        var k :| 0 <= k < |updates| && updates[k] == c;
        assert c == CellAt(lo + k);
      }
      if c in RangeCells(a, b) {
        var p: nat :| lo <= p <= hi && c == CellAt(p);
        assert updates[p - lo] == c;
      }
    }
  }

  /** The cells after `set_cell_state(c, v)` for each listed cell in turn. */
  function PaintEach(cells: Cells, cs: seq<Cell>, v: bool): Cells
    decreases |cs|
  {
    if cs == [] then cells else PaintEach(cells, cs[..|cs| - 1], v)[cs[|cs| - 1] := v]
  }

  /** The listed cells hold `v`, every other cell keeps its value. */
  lemma {:induction false} PaintEachSpec(cells: Cells, cs: seq<Cell>, v: bool)
    ensures forall c :: c in PaintEach(cells, cs, v) <==> c in cells || c in cs
    ensures forall c :: c in PaintEach(cells, cs, v) ==>
      PaintEach(cells, cs, v)[c] == if c in cs then v else cells[c]
    decreases |cs|
  {
    if cs != [] {
      var init := cs[..|cs| - 1];
      PaintEachSpec(cells, init, v);
      assert cs == init + [cs[|cs| - 1]];
    }
  }

  /** Writing `v` to each listed cell in turn is painting the range. */
  lemma PaintedIsRange(before: Cells, updates: seq<Cell>, a: Cell, b: Cell, v: bool)
    requires forall c :: c in updates <==> c in RangeCells(a, b)
    ensures PaintEach(before, updates, v) == PaintRange(before, a, b, v)
  {
    PaintEachSpec(before, updates, v);
    assert PaintEach(before, updates, v).Keys == PaintRange(before, a, b, v).Keys;
  }

  /** The first loop of `update_selection`: the cells from the smaller
      ordinal of the two to the larger, in ordinal order. */
  method RangeUpdates(start: Cell, end: Cell) returns (updates: seq<Cell>)
    ensures |updates| == Max(Ordinal(start), Ordinal(end)) + 1 - Min(Ordinal(start), Ordinal(end))
    ensures forall k :: 0 <= k < |updates| ==>
      updates[k] == CellAt(Min(Ordinal(start), Ordinal(end)) + k)
    ensures forall c :: c in updates <==> c in RangeCells(start, end)
  {
    var startOrdinal := Ordinal(start);
    var endOrdinal := Ordinal(end);
    var minOrdinal := Min(startOrdinal, endOrdinal);
    var maxOrdinal := Max(startOrdinal, endOrdinal);

    updates := [];
    var o := minOrdinal;
    while o <= maxOrdinal
      invariant minOrdinal <= o <= maxOrdinal + 1
      invariant |updates| == o - minOrdinal
      invariant forall k :: 0 <= k < |updates| ==> updates[k] == CellAt(minOrdinal + k)
    {
      updates := updates + [CellAt(o)];
      o := o + 1;
    }
    RangeListed(updates, start, end, minOrdinal, maxOrdinal);
  }

  // ------------------------------------------------------------ the class

  /** The selection fields of `MeetingScheduler`. */
  class SlotGrid {
    var cellStates: Cells
    var dragging: bool
    var startCell: Option<Cell>
    var lastCell: Option<Cell>
    var selectionMode: bool

    ghost function Model(): GridState
      reads this
    {
      GridState(cellStates, dragging, startCell, lastCell, selectionMode)
    }

    ghost predicate Valid()
      reads this
    {
      WellFormed(Model())
    }

    /** `__init__` and the `cell_states` part of `create_time_grid`: every
        cell of every slot row registered as unselected. */
    constructor ()
      ensures Valid() && Model() == Initial()
    {
      var states: Cells := map[];
      var slot := 0;
      while slot < TotalSlots
        invariant 0 <= slot <= TotalSlots
        invariant forall c :: c in states <==> InGrid(c) && c.slot < slot
        invariant forall c :: c in states ==> !states[c]
      {
        var day := 0;
        while day < Days
          invariant 0 <= day <= Days
          invariant forall c :: c in states <==> InGrid(c) && (c.slot < slot || (c.slot == slot && c.day < day))
          invariant forall c :: c in states ==> !states[c]
        {
          states := states[Cell(day, slot) := false];
          day := day + 1;
        }
        slot := slot + 1;
      }
      InitialSpec();
      assert states.Keys == Initial().cells.Keys;
      cellStates := states;
      dragging := false;
      startCell := None;
      lastCell := None;
      selectionMode := false;
    }

    /** `set_cell_state(day, slot, state)`. */
    method SetCellState(c: Cell, v: bool)
      modifies this
      ensures Model() == SetState(old(Model()), c, v)
    {
      cellStates := cellStates[c := v];
    }

    /** `on_cell_click` on the cell the event hit. */
    method OnCellClick(c: Cell)
      requires Valid() && InGrid(c)
      modifies this
      ensures Valid()
      ensures Model() == Click(old(Model()), c)
    {
      selectionMode := !cellStates[c];
      startCell := Some(c);
      lastCell := Some(c);
      dragging := true;
      SetCellState(c, selectionMode);
    }

    /** `update_selection(start, end)`: collects the cells of the ordinal
        range, then paints each with the paint value. */
    method UpdateSelection(start: Cell, end: Cell)
      requires Valid() && InGrid(start) && InGrid(end)
      modifies this
      ensures Valid()
      ensures Model() == Repaint(old(Model()), start, end)
    {
      var updates := RangeUpdates(start, end);
      var j := 0;
      while j < |updates|
        invariant 0 <= j <= |updates|
        invariant Model() == old(Model()).(cells := PaintEach(old(cellStates), updates[..j], selectionMode))
      {
        SetCellState(updates[j], selectionMode);
        assert updates[..j + 1][..j] == updates[..j];
        j := j + 1;
      }
      assert updates[..j] == updates;
      PaintedIsRange(old(cellStates), updates, start, end, selectionMode);
    }

    /** `on_drag` with the hit-tested cell (None when the pointer is over
        no cell). */
    method OnDrag(hit: Option<Cell>)
      requires Valid() && (hit.Some? ==> InGrid(hit.value))
      modifies this
      ensures Valid()
      ensures Model() == Drag(old(Model()), hit)
    {
      if !dragging || startCell.None? {
        return;
      }
      if hit.Some? {
        var current := hit.value;
        if Some(current) != lastCell {
          UpdateSelection(startCell.value, current);
          lastCell := Some(current);
        }
      }
    }

    /** `on_release`. */
    method OnRelease()
      requires Valid()
      modifies this
      ensures Valid()
      ensures Model() == Release(old(Model()))
    {
      if dragging {
        dragging := false;
        startCell := None;
        lastCell := None;
      }
    }

    /** `on_cell_right_click` on the cell the event hit. */
    method OnCellRightClick(c: Cell)
      requires Valid() && InGrid(c)
      modifies this
      ensures Valid()
      ensures Model() == RightClick(old(Model()), c)
    {
      SetCellState(c, false);
    }
  }
}
