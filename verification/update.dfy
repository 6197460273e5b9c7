/**
 * Applying the match table to the grid: every matched slot's cell is set
 * to occupied, and the occupied slots are collected.
 */
module Update {
  import opened Wrappers
  import opened Geometry
  import opened Matching
  import opened Grid

  /** A position in the grid: row, then index within the row. */
  datatype Cell = Cell(row: nat, col: nat)

  /** The updated grid and the set of occupied slots. */
  datatype Updated = Updated(grid: seq<seq<int>>, occupied: set<SlotId>)

  const Occupied: int := 1

  predicate InGrid(grid: seq<seq<int>>, c: Cell) {
    c.row < |grid| && c.col < |grid[c.row]|
  }

  /** The cell the update writes for a slot: row = section, index = slot
      number, with no allowance for the leading sentinel of section 1. */
  function RawCell(id: SlotId): Cell {
    Cell(id.section, id.slot)
  }

  /** The slots named by the match table. */
  function Slots(table: map<nat, Match>): set<SlotId> {
    set d | d in table :: table[d].at
  }

  function RawCells(table: map<nat, Match>): set<Cell> {
    set d | d in table :: RawCell(table[d].at)
  }

  /** `grid` with every listed cell set to occupied. */
  function Marked(grid: seq<seq<int>>, cells: set<Cell>): seq<seq<int>> {
    seq(|grid|, i requires 0 <= i < |grid| =>
      seq(|grid[i]|, j requires 0 <= j < |grid[i]| =>
        if Cell(i, j) in cells then Occupied else grid[i][j]))
  }

  /** Marking one more cell is a single in-place write. */
  lemma MarkOneMore(grid: seq<seq<int>>, cells: set<Cell>, c: Cell)
    requires InGrid(grid, c)
    ensures var m := Marked(grid, cells);
            Marked(grid, cells + {c}) == m[c.row := m[c.row][c.col := Occupied]]
  {
    var m := Marked(grid, cells);
    var m' := Marked(grid, cells + {c});
    var w := m[c.row := m[c.row][c.col := Occupied]];
    assert |m'| == |w|;
    forall i | 0 <= i < |m'|
      ensures m'[i] == w[i]
    {
      assert |m'[i]| == |w[i]|;
      forall j | 0 <= j < |m'[i]|
        ensures m'[i][j] == w[i][j]
      {
      }
    }
  }

  lemma DoneGrows(table: map<nat, Match>, pending: set<nat>, d: nat)
    requires d in pending && d in table
    ensures RawCells(table - (pending - {d})) == RawCells(table - pending) + {RawCell(table[d].at)}
    ensures Slots(table - (pending - {d})) == Slots(table - pending) + {table[d].at}
  {
    var before := table - pending;
    var after := table - (pending - {d});
    assert after == before[d := table[d]];
    forall c | c in RawCells(after)
      ensures c in RawCells(before) + {RawCell(table[d].at)}
    {
      var e :| e in after && c == RawCell(after[e].at);
      if e != d {
        assert e in before;
      }
    }
    forall c | c in RawCells(before) + {RawCell(table[d].at)}
      ensures c in RawCells(after)
    {
      if c in RawCells(before) {
        var e :| e in before && c == RawCell(before[e].at);
        assert e in after;
      } else {
        assert d in after;
      }
    }
    forall s | s in Slots(after)
      ensures s in Slots(before) + {table[d].at}
    {
      var e :| e in after && s == after[e].at;
      if e != d {
        assert e in before;
      }
    }
    forall s | s in Slots(before) + {table[d].at}
      ensures s in Slots(after)
    {
      if s in Slots(before) {
        var e :| e in before && s == before[e].at;
        assert e in after;
      } else {
        assert d in after;
      }
    }
  }

  lemma MarkedNothing(grid: seq<seq<int>>)
    ensures Marked(grid, {}) == grid
  {
    var m := Marked(grid, {});
    forall i | 0 <= i < |grid|
      ensures m[i] == grid[i]
    {
    }
  }

  /** The update as the service performs it: for every match-table entry,
      the raw cell (section, slot) of the grid becomes occupied and the slot
      joins the occupied set. It raises an index error exactly when some
      entry's raw cell lies outside the grid. On success, the row count and
      every row length are unchanged, the listed cells hold 1, every other
      cell keeps its value, and the occupied set is the set of slots in the
      table. */
  method UpdateGridWithIou(grid: seq<seq<int>>, table: map<nat, Match>) returns (r: Result<Updated, GridError>)
    ensures r.Failure? <==> exists d :: d in table && !InGrid(grid, RawCell(table[d].at))
    ensures r.Success? ==> r.value.occupied == Slots(table)
    ensures r.Success? ==> r.value.grid == Marked(grid, RawCells(table))
    ensures r.Success? ==>
              && |r.value.grid| == |grid|
              && (forall i :: 0 <= i < |grid| ==> |r.value.grid[i]| == |grid[i]|)
              && (forall i, j :: 0 <= i < |grid| && 0 <= j < |grid[i]| ==>
                    r.value.grid[i][j] == if Cell(i, j) in RawCells(table) then Occupied else grid[i][j])
  {
    var g := grid;
    var occupied: set<SlotId> := {};
    var pending := table.Keys;
    assert table - pending == map[];
    assert RawCells(map[]) == {};
    MarkedNothing(grid);
    while pending != {}
      invariant pending <= table.Keys
      invariant forall d :: d in table && d !in pending ==> InGrid(grid, RawCell(table[d].at))
      invariant occupied == Slots(table - pending)
      invariant g == Marked(grid, RawCells(table - pending))
      decreases pending
    {
      var d :| d in pending;
      var c := RawCell(table[d].at);
      if !InGrid(g, c) {
        return Failure(IndexError);
      }
      MarkOneMore(grid, RawCells(table - pending), c);
      DoneGrows(table, pending, d);
      g := g[c.row := g[c.row][c.col := Occupied]];
      occupied := occupied + {table[d].at};
      pending := pending - {d};
    }
    assert table - pending == table;
    return Success(Updated(g, occupied));
  }

  /** Updating an already updated grid with the same table changes nothing. */
  lemma MarkedIdempotent(grid: seq<seq<int>>, cells: set<Cell>)
    ensures Marked(Marked(grid, cells), cells) == Marked(grid, cells)
  {
    var m := Marked(grid, cells);
    var m2 := Marked(m, cells);
    forall i | 0 <= i < |m|
      ensures m2[i] == m[i]
    {
      assert |m2[i]| == |m[i]|;
    }
  }

  /** Two detections matched to the same slot occupy it once: dropping one
      of them changes neither the cells written nor the occupied set. */
  lemma DuplicateMatchHarmless(table: map<nat, Match>, d1: nat, d2: nat)
    requires d1 in table && d2 in table && d1 != d2
    requires table[d1].at == table[d2].at
    ensures RawCells(table - {d2}) == RawCells(table)
    ensures Slots(table - {d2}) == Slots(table)
  {
    var rest := table - {d2};
    assert d1 in rest && rest[d1] == table[d1];
    forall c | c in RawCells(table)
      ensures c in RawCells(rest)
    {
      var e :| e in table && c == RawCell(table[e].at);
      if e == d2 {
        assert c == RawCell(rest[d1].at);
      } else {
        assert e in rest;
      }
    }
    forall s | s in Slots(table)
      ensures s in Slots(rest)
    {
      var e :| e in table && s == table[e].at;
      if e == d2 {
        assert s == rest[d1].at;
      } else {
        assert e in rest;
      }
    }
  }

  /** On a grid fresh from construction, every match-table entry's raw cell
      is inside the grid, so the update never raises. */
  lemma TableFitsGrid(lay: Layout, dets: seq<Box>, d: nat)
    requires WellFormed(lay)
    ensures var c := CreateGrid(lay, dets).value;
            d in c.table ==> InGrid(c.grid, RawCell(c.table[d].at))
  {
    MatchTableEntry(lay, dets, d);
  }

  /** Index shift of a section's slot states within its row. */
  function Offset(s: nat): nat {
    if s == AisleSection then 1 else 0
  }

  /** The intended row of section `s` after the update: the sentinels of
      the aisle section stay, and each slot's own state is 1 exactly when
      the slot is occupied. */
  ghost predicate IsOccupancyRow(row: seq<int>, s: nat, n: nat, occupied: set<SlotId>) {
    && |row| == n + 2 * Offset(s)
    && forall i :: 0 <= i < |row| ==>
         row[i] == (if s == AisleSection && (i == 0 || i == n + 1) then Sentinel
                    else if SlotId(s, i - Offset(s)) in occupied then Occupied
                    else 0)
  }

  /** As written, a match on the first slot of the aisle section lands on
      the leading sentinel, and the own state of the aisle section's last
      slot is never written, so the updated aisle row is not the intended
      occupancy row. */
  lemma AisleRowAsWritten(lay: Layout, dets: seq<Box>, d: nat)
    requires WellFormed(lay) && AisleSection < |lay.sections|
    requires d in CreateGrid(lay, dets).value.table
    requires CreateGrid(lay, dets).value.table[d].at == SlotId(AisleSection, 0)
    ensures var c := CreateGrid(lay, dets).value;
            var n := SlotCount(lay, AisleSection);
            && c.grid[AisleSection][0] == Sentinel
            && Marked(c.grid, RawCells(c.table))[AisleSection][0] == Occupied
            && Marked(c.grid, RawCells(c.table))[AisleSection][n] == 0
            && !IsOccupancyRow(Marked(c.grid, RawCells(c.table))[AisleSection], AisleSection, n, Slots(c.table))
  {
    var c := CreateGrid(lay, dets).value;
    var n := SlotCount(lay, AisleSection);
    MatchTableEntry(lay, dets, d);
    assert RawCell(c.table[d].at) in RawCells(c.table);
    assert Cell(AisleSection, n) !in RawCells(c.table) by {
      if Cell(AisleSection, n) in RawCells(c.table) {
        var e :| e in c.table && Cell(AisleSection, n) == RawCell(c.table[e].at);
        MatchTableEntry(lay, dets, e);
        assert false;
      }
    }
  }

  /** A concrete lot: two one-slot sections, the second (the aisle
      section) ten units above the first, slots of size 1 by 1. */
  function ExampleLot(): Layout {
    Layout([Section(Point(0.0, 0.0), Point(10.0, 0.0)),
            Section(Point(0.0, 10.0), Point(10.0, 10.0))], [1, 1], 1.0, 1.0)
  }

  /** One detection covering exactly the aisle section's slot box. */
  function ExampleDetections(): seq<Box> {
    [Box(-0.55, 9.45, 0.55, 10.55)]
  }

  lemma ExampleScanOrder()
    ensures AllSlots(ExampleLot()) == [SlotId(0, 0), SlotId(1, 0)]
  {
    var lay := ExampleLot();
    assert SectionSlots(0, 1) == [SlotId(0, 0)];
    assert SectionSlots(1, 1) == [SlotId(1, 0)];
    assert ScanOrder(lay, 0) == [];
    assert ScanOrder(lay, 1) == [SlotId(0, 0)];
  }

  lemma ExampleScores()
    ensures MaxIouForSlot(SlotBoxOf(ExampleLot(), SlotId(0, 0)), ExampleDetections()) == (0.0, None)
    ensures MaxIouForSlot(SlotBoxOf(ExampleLot(), SlotId(1, 0)), ExampleDetections()) == (1.0, Some(0))
  {
    var lay := ExampleLot();
    var dets := ExampleDetections();
    assert SlotCenterOf(lay, SlotId(0, 0)) == Point(0.0, 0.0);
    assert SlotCenterOf(lay, SlotId(1, 0)) == Point(0.0, 10.0);
    assert SlotBoxOf(lay, SlotId(0, 0)) == Box(-0.55, -0.55, 0.55, 0.55);
    assert SlotBoxOf(lay, SlotId(1, 0)) == dets[0];
    assert !Overlap(Box(-0.55, -0.55, 0.55, 0.55), dets[0]);
    IouSelf(dets[0]);
    assert dets[..0] == [];
  }

  lemma ExampleCandidates()
    ensures Candidates(ExampleLot(), ExampleDetections())
            == [Candidate(SlotId(0, 0), 0.0, None), Candidate(SlotId(1, 0), 1.0, Some(0))]
  {
    ExampleScanOrder();
    ExampleScores();
  }

  lemma ExampleTable()
    ensures CreateGrid(ExampleLot(), ExampleDetections()).value.table == map[0 := Match(SlotId(1, 0), 1.0)]
  {
    var cs := Candidates(ExampleLot(), ExampleDetections());
    ExampleCandidates();
    assert cs[..1] == [Candidate(SlotId(0, 0), 0.0, None)];
    assert cs[..1][..0] == [];
    assert MatchTable(cs[..1]) == map[];
  }

  lemma ExampleGrid()
    ensures CreateGrid(ExampleLot(), ExampleDetections()).value.grid == [[0], [Sentinel, 0, Sentinel]]
  {
    var lay := ExampleLot();
    assert SectionRow(0, 1) == [0] by {
      assert AppendEmpty([], 1) == AppendEmpty([0], 0);
    }
    assert SectionRow(1, 1) == [Sentinel, 0, Sentinel] by {
      assert AppendEmpty([Sentinel], 1) == AppendEmpty([Sentinel, 0], 0);
    }
    assert Rows(lay) == [SectionRow(0, 1), SectionRow(1, 1)];
  }

  lemma ExampleMarked()
    ensures RawCells(map[0 := Match(SlotId(1, 0), 1.0)]) == {Cell(1, 0)}
    ensures Marked([[0], [Sentinel, 0, Sentinel]], {Cell(1, 0)}) == [[0], [Occupied, 0, Sentinel]]
  {
    var t := map[0 := Match(SlotId(1, 0), 1.0)];
    assert RawCell(t[0].at) in RawCells(t);
    var m := Marked([[0], [Sentinel, 0, Sentinel]], {Cell(1, 0)});
    assert m[0] == [0];
    assert m[1] == [Occupied, 0, Sentinel];
  }

  /** On the concrete lot the match table assigns the detection to the
      aisle section's first slot, and the update as written overwrites the
      leading sentinel instead of that slot's own state. */
  lemma AisleOverwriteExample()
    ensures var c := CreateGrid(ExampleLot(), ExampleDetections()).value;
            && c.table == map[0 := Match(SlotId(1, 0), 1.0)]
            && c.grid == [[0], [Sentinel, 0, Sentinel]]
            && Marked(c.grid, RawCells(c.table)) == [[0], [Occupied, 0, Sentinel]]
  {
    ExampleTable();
    ExampleGrid();
    ExampleMarked();
  }

  /** Cell of a slot's own state, allowing for the leading sentinel of the
      aisle section. */
  function GridCell(id: SlotId): Cell {
    Cell(id.section, id.slot + Offset(id.section))
  }

  function GridCells(table: map<nat, Match>): set<Cell> {
    set d | d in table :: GridCell(table[d].at)
  }

  /** The update with the aisle section's sentinel taken into account. */
  function UpdateGridCorrected(grid: seq<seq<int>>, table: map<nat, Match>): Result<Updated, GridError> {
    if forall d :: d in table ==> InGrid(grid, GridCell(table[d].at))
    then Success(Updated(Marked(grid, GridCells(table)), Slots(table)))
    else Failure(IndexError)
  }

  lemma GridCellIsOwnState(lay: Layout, dets: seq<Box>, s: nat, i: nat)
    requires WellFormed(lay)
    requires Cell(s, i) in GridCells(CreateGrid(lay, dets).value.table)
    ensures s < |lay.sections| && Offset(s) <= i < SlotCount(lay, s) + Offset(s)
    ensures SlotId(s, i - Offset(s)) in Slots(CreateGrid(lay, dets).value.table)
  {
    var t := CreateGrid(lay, dets).value.table;
    var e :| e in t && Cell(s, i) == GridCell(t[e].at);
    MatchTableEntry(lay, dets, e);
    assert SlotId(s, i - Offset(s)) == t[e].at;
  }

  lemma OwnStateIsGridCell(lay: Layout, dets: seq<Box>, id: SlotId)
    requires WellFormed(lay)
    requires id in Slots(CreateGrid(lay, dets).value.table)
    ensures GridCell(id) in GridCells(CreateGrid(lay, dets).value.table)
  {
    var t := CreateGrid(lay, dets).value.table;
    var e :| e in t && id == t[e].at;
    assert GridCell(t[e].at) in GridCells(t);
  }

  /** The corrected update writes a cell of a fresh grid exactly when it
      is the own state of an occupied slot; sentinels are never written. */
  lemma GridCellsOfTable(lay: Layout, dets: seq<Box>, s: nat, i: nat)
    requires WellFormed(lay) && s < |lay.sections|
    ensures var t := CreateGrid(lay, dets).value.table;
            Cell(s, i) in GridCells(t) <==>
              Offset(s) <= i < SlotCount(lay, s) + Offset(s) && SlotId(s, i - Offset(s)) in Slots(t)
  {
    var t := CreateGrid(lay, dets).value.table;
    if Cell(s, i) in GridCells(t) {
      GridCellIsOwnState(lay, dets, s, i);
    }
    if Offset(s) <= i && SlotId(s, i - Offset(s)) in Slots(t) {
      OwnStateIsGridCell(lay, dets, SlotId(s, i - Offset(s)));
      assert GridCell(SlotId(s, i - Offset(s))) == Cell(s, i);
      GridCellIsOwnState(lay, dets, s, i);
    }
  }

  lemma CorrectedRow(lay: Layout, dets: seq<Box>, s: nat)
    requires WellFormed(lay) && s < |lay.sections|
    requires var c := CreateGrid(lay, dets).value;
             forall d :: d in c.table ==> InGrid(c.grid, GridCell(c.table[d].at))
    ensures var c := CreateGrid(lay, dets).value;
            IsOccupancyRow(Marked(c.grid, GridCells(c.table))[s], s, SlotCount(lay, s), Slots(c.table))
  {
    var c := CreateGrid(lay, dets).value;
    var g := Marked(c.grid, GridCells(c.table));
    var n := SlotCount(lay, s);
    assert IsSectionRow(c.grid[s], s, n);
    forall i | 0 <= i < |g[s]|
      ensures g[s][i] == (if s == AisleSection && (i == 0 || i == n + 1) then Sentinel
                          else if SlotId(s, i - Offset(s)) in Slots(c.table) then Occupied
                          else 0)
    {
      GridCellsOfTable(lay, dets, s, i);
    }
  }

  /** On a freshly constructed grid the corrected update succeeds, keeps
      the sentinels, and turns every row into the intended occupancy row:
      a slot's own state is 1 exactly when the slot is in the occupied set,
      which is the set of slots of the match table. */
  lemma CorrectedUpdateMarksSlots(lay: Layout, dets: seq<Box>)
    requires WellFormed(lay)
    ensures var c := CreateGrid(lay, dets).value;
            var u := UpdateGridCorrected(c.grid, c.table);
            && u.Success?
            && u.value.occupied == Slots(c.table)
            && |u.value.grid| == |lay.sections|
            && forall s :: 0 <= s < |lay.sections| ==>
                 IsOccupancyRow(u.value.grid[s], s, SlotCount(lay, s), u.value.occupied)
  {
    var c := CreateGrid(lay, dets).value;
    forall d | d in c.table
      ensures InGrid(c.grid, GridCell(c.table[d].at))
    {
      MatchTableEntry(lay, dets, d);
    }
    var u := UpdateGridCorrected(c.grid, c.table);
    assert u == Success(Updated(Marked(c.grid, GridCells(c.table)), Slots(c.table)));
    forall s | 0 <= s < |lay.sections|
      ensures IsOccupancyRow(u.value.grid[s], s, SlotCount(lay, s), u.value.occupied)
    {
      CorrectedRow(lay, dets, s);
    }
  }
}
