/**
 * Grid construction: slots laid out along the configured section lines,
 * one state row per section, the slot centres, and the match table of
 * detections against slot boxes.
 */
module Grid {
  import opened Wrappers
  import opened Geometry
  import opened Matching

  datatype Point = Point(x: real, y: real)

  /** A section line from `start` to `end`, along which slots are laid out. */
  datatype Section = Section(start: Point, end: Point)

  /** The lot configuration: section lines, the capacity of each section,
      and the nominal slot dimensions. */
  datatype Layout = Layout(
    sections: seq<Section>,
    capacities: seq<int>,
    slotWidth: real,
    slotLength: real)

  /** Why grid construction or update can fail. */
  datatype GridError = IndexError

  /** What grid construction produces. */
  datatype GridResult = GridResult(
    grid: seq<seq<int>>,
    centers: map<SlotId, Point>,
    table: map<nat, Match>)

  /** Slot boxes are enlarged by this factor in both directions. */
  const Tolerance: real := 1.1

  /** Marker for the structural gap at both ends of section 1's row. */
  const Sentinel: int := -1

  /** The row index that carries the sentinels. */
  const AisleSection: nat := 1

  /** Every section has a capacity. */
  predicate WellFormed(lay: Layout) {
    |lay.sections| <= |lay.capacities|
  }

  /** Number of slots of section `s`: a non-positive capacity gives none. */
  function SlotCount(lay: Layout, s: nat): nat
    requires WellFormed(lay) && s < |lay.sections|
  {
    if lay.capacities[s] > 0 then lay.capacities[s] else 0
  }

  predicate ValidSlot(lay: Layout, id: SlotId) {
    && WellFormed(lay)
    && id.section < |lay.sections|
    && id.slot < SlotCount(lay, id.section)
  }

  /** Scan order: section-major, slot-minor. */
  predicate Before(a: SlotId, b: SlotId) {
    a.section < b.section || (a.section == b.section && a.slot < b.slot)
  }

  /** The slots of section `s`, in order. */
  function SectionSlots(s: nat, n: nat): (ids: seq<SlotId>)
    ensures |ids| == n
    ensures forall k :: 0 <= k < n ==> ids[k] == SlotId(s, k)
  {
    if n == 0 then [] else SectionSlots(s, n - 1) + [SlotId(s, n - 1)]
  }

  /** All slots of the first `m` sections in the order the grid is scanned:
      each valid slot appears, nothing else does, and the order is strictly
      increasing in section-major, slot-minor order. */
  function ScanOrder(lay: Layout, m: nat): (ids: seq<SlotId>)
    requires WellFormed(lay) && m <= |lay.sections|
    ensures forall id :: id in ids <==> id.section < m && ValidSlot(lay, id)
    ensures forall i, j :: 0 <= i < j < |ids| ==> Before(ids[i], ids[j])
    decreases m
  {
    if m == 0 then []
    else
      var prev := ScanOrder(lay, m - 1);
      var next := SectionSlots(m - 1, SlotCount(lay, m - 1));
      assert forall i :: 0 <= i < |prev| ==> prev[i] in prev;
      prev + next
  }

  function AllSlots(lay: Layout): (ids: seq<SlotId>)
    requires WellFormed(lay)
  {
    ScanOrder(lay, |lay.sections|)
  }

  /** The point at parameter k/n along a section line. */
  function SlotCenter(sec: Section, k: nat, n: nat): Point
    requires k < n
  {
    var t := (k as real) / (n as real);
    Point(sec.start.x + (sec.end.x - sec.start.x) * t,
          sec.start.y + (sec.end.y - sec.start.y) * t)
  }

  function SlotCenterOf(lay: Layout, id: SlotId): Point
    requires ValidSlot(lay, id)
  {
    SlotCenter(lay.sections[id.section], id.slot, SlotCount(lay, id.section))
  }

  /** In a section with at least one slot, the first slot sits at the
      section start, and successive slots are spaced by one n-th of the
      section vector. */
  lemma SlotCentersEvenlySpaced(sec: Section, k: nat, n: nat)
    requires 0 < n
    ensures SlotCenter(sec, 0, n) == sec.start
    ensures k + 1 < n ==>
              SlotCenter(sec, k + 1, n).x - SlotCenter(sec, k, n).x == (sec.end.x - sec.start.x) / (n as real)
    ensures k + 1 < n ==>
              SlotCenter(sec, k + 1, n).y - SlotCenter(sec, k, n).y == (sec.end.y - sec.start.y) / (n as real)
  {
    if k + 1 < n {
      var nr := n as real;
      assert (k + 1) as real / nr - (k as real) / nr == 1.0 / nr;
      var dx := sec.end.x - sec.start.x;
      var dy := sec.end.y - sec.start.y;
      assert dx * ((k + 1) as real / nr) - dx * ((k as real) / nr) == dx * (1.0 / nr);
      assert dy * ((k + 1) as real / nr) - dy * ((k as real) / nr) == dy * (1.0 / nr);
    }
  }

  /** The box of a slot: centred on the slot point, 1.1 times the slot
      width across and 1.1 times the slot length high. */
  function SlotBox(lay: Layout, c: Point): (b: Box)
    ensures (b.x1 + b.x2) / 2.0 == c.x && (b.y1 + b.y2) / 2.0 == c.y
    ensures b.x2 - b.x1 == lay.slotWidth * Tolerance
    ensures b.y2 - b.y1 == lay.slotLength * Tolerance
  {
    var w := lay.slotWidth * Tolerance;
    var l := lay.slotLength * Tolerance;
    Box(c.x - w / 2.0, c.y - l / 2.0, c.x + w / 2.0, c.y + l / 2.0)
  }

  function SlotBoxOf(lay: Layout, id: SlotId): Box
    requires ValidSlot(lay, id)
  {
    SlotBox(lay, SlotCenterOf(lay, id))
  }

  /** The scan result of one slot against all detections. */
  function CandidateOf(lay: Layout, dets: seq<Box>, id: SlotId): Candidate
    requires ValidSlot(lay, id)
  {
    var r := MaxIouForSlot(SlotBoxOf(lay, id), dets);
    Candidate(id, r.0, r.1)
  }

  function Candidates(lay: Layout, dets: seq<Box>): (cs: seq<Candidate>)
    requires WellFormed(lay)
  {
    var ids := AllSlots(lay);
    assert forall p :: 0 <= p < |ids| ==> ids[p] in ids;
    seq(|ids|, p requires 0 <= p < |ids| => CandidateOf(lay, dets, ids[p]))
  }

  /** Append `n` empty slot states to `row`. */
  function AppendEmpty(row: seq<int>, n: nat): (r: seq<int>)
    ensures |r| == |row| + n
    ensures r[..|row|] == row
    ensures forall i :: |row| <= i < |r| ==> r[i] == 0
    decreases n
  {
    if n == 0 then row else AppendEmpty(row + [0], n - 1)
  }

  /** The shape of section `s`'s row with `n` slots: `n` empty states, and
      for the aisle section a sentinel on each side. */
  ghost predicate IsSectionRow(row: seq<int>, s: nat, n: nat) {
    && |row| == (if s == AisleSection then n + 2 else n)
    && forall i :: 0 <= i < |row| ==>
         row[i] == (if s == AisleSection && (i == 0 || i == n + 1) then Sentinel else 0)
  }

  /** The initial row of section `s`. */
  function SectionRow(s: nat, n: nat): (row: seq<int>)
    ensures IsSectionRow(row, s, n)
  {
    var head := if s == AisleSection then [Sentinel] else [];
    var filled := AppendEmpty(head, n);
    if s == AisleSection then filled + [Sentinel] else filled
  }

  function Rows(lay: Layout): (g: seq<seq<int>>)
    requires WellFormed(lay)
  {
    seq(|lay.sections|, s requires 0 <= s < |lay.sections| => SectionRow(s, SlotCount(lay, s)))
  }

  function Centers(lay: Layout): map<SlotId, Point>
    requires WellFormed(lay)
  {
    map id | id in AllSlots(lay) :: SlotCenterOf(lay, id)
  }

  /** Grid construction. Fails when a section has no capacity; otherwise
      one row per section, in order, each of the section's shape; a centre
      for exactly the valid slots, at its point along the section; and a
      match table whose entries exceed the threshold. `MatchTableKeys` and
      `MatchTableEntry` state which detections have entries and on which
      slots. */
  function CreateGrid(lay: Layout, dets: seq<Box>): (r: Result<GridResult, GridError>)
    ensures r.Failure? <==> |lay.capacities| < |lay.sections|
    ensures r.Success? ==>
              && |r.value.grid| == |lay.sections|
              && forall s :: 0 <= s < |lay.sections| ==> IsSectionRow(r.value.grid[s], s, SlotCount(lay, s))
    ensures r.Success? ==>
              && (forall id :: id in r.value.centers <==> ValidSlot(lay, id))
              && (forall id :: id in r.value.centers ==> r.value.centers[id] == SlotCenterOf(lay, id))
    ensures r.Success? ==> forall d :: d in r.value.table ==> r.value.table[d].iou > Threshold
  {
    if |lay.capacities| < |lay.sections| then Failure(IndexError)
    else Success(GridResult(Rows(lay), Centers(lay), MatchTable(Candidates(lay, dets))))
  }

  /** Slot `id` takes detection `d` as its best, with a score above the threshold. */
  ghost predicate SlotClaims(lay: Layout, dets: seq<Box>, id: SlotId, d: nat) {
    ValidSlot(lay, id) && Claims(CandidateOf(lay, dets, id), d)
  }

  lemma ScanPosition(lay: Layout, id: SlotId) returns (q: nat)
    requires ValidSlot(lay, id)
    ensures q < |AllSlots(lay)| && AllSlots(lay)[q] == id
  {
    var ids := AllSlots(lay);
    assert id in ids;
    q :| 0 <= q < |ids| && ids[q] == id;
  }

  /** A detection has an entry in the match table exactly when some slot
      claims it; a detection never chosen above the threshold has none. */
  lemma MatchTableKeys(lay: Layout, dets: seq<Box>, d: nat)
    requires WellFormed(lay)
    ensures d in CreateGrid(lay, dets).value.table <==> exists id :: SlotClaims(lay, dets, id, d)
  {
    var ids := AllSlots(lay);
    var cs := Candidates(lay, dets);
    assert CreateGrid(lay, dets).value.table == MatchTable(cs);
    var _ := MatchTableSpec(cs, d);
    if exists id :: SlotClaims(lay, dets, id, d) {
      var id :| SlotClaims(lay, dets, id, d);
      var q := ScanPosition(lay, id);
      assert Claims(cs[q], d);
    }
    if Claimed(cs, d) {
      var p :| 0 <= p < |cs| && Claims(cs[p], d);
      assert ids[p] in ids;
      assert SlotClaims(lay, dets, ids[p], d);
    }
  }

  /** Where the entry of a detection sits in the scan order. */
  lemma EntryPosition(lay: Layout, dets: seq<Box>, d: nat) returns (p: int)
    requires WellFormed(lay)
    ensures var t := CreateGrid(lay, dets).value.table;
            d in t ==>
              && 0 <= p < |AllSlots(lay)|
              && IsEntryFor(Candidates(lay, dets), d, p)
              && t[d].at == AllSlots(lay)[p]
              && t[d].iou == Candidates(lay, dets)[p].iou
  {
    var cs := Candidates(lay, dets);
    assert CreateGrid(lay, dets).value.table == MatchTable(cs);
    p := MatchTableSpec(cs, d);
  }

  /** Each match-table entry lies on a valid slot, scores above the
      threshold, and its detection is that slot's best detection. */
  lemma MatchTableEntry(lay: Layout, dets: seq<Box>, d: nat)
    requires WellFormed(lay)
    ensures var t := CreateGrid(lay, dets).value.table;
            d in t ==>
              && ValidSlot(lay, t[d].at)
              && t[d].iou > Threshold
              && MaxIouForSlot(SlotBoxOf(lay, t[d].at), dets) == (t[d].iou, Some(d))
  {
    var ids := AllSlots(lay);
    var cs := Candidates(lay, dets);
    assert CreateGrid(lay, dets).value.table == MatchTable(cs);
    var p := MatchTableSpec(cs, d);
    if d in MatchTable(cs) {
      assert ids[p] in ids;
    }
  }

  /** No two detections share a slot in a constructed match table: an
      entry's detection is its slot's single best detection. */
  lemma TableInjective(lay: Layout, dets: seq<Box>, d1: nat, d2: nat)
    requires WellFormed(lay)
    ensures var t := CreateGrid(lay, dets).value.table;
            d1 in t && d2 in t && t[d1].at == t[d2].at ==> d1 == d2
  {
    MatchTableEntry(lay, dets, d1);
    MatchTableEntry(lay, dets, d2);
  }

  lemma ClaimantBelowEntry(lay: Layout, dets: seq<Box>, d: nat, id: SlotId, p: int)
    requires WellFormed(lay)
    requires SlotClaims(lay, dets, id, d)
    requires 0 <= p < |AllSlots(lay)| && IsEntryFor(Candidates(lay, dets), d, p)
    ensures CandidateOf(lay, dets, id).iou <= Candidates(lay, dets)[p].iou
    ensures Before(id, AllSlots(lay)[p]) ==> CandidateOf(lay, dets, id).iou < Candidates(lay, dets)[p].iou
  {
    var ids := AllSlots(lay);
    var cs := Candidates(lay, dets);
    var q := ScanPosition(lay, id);
    assert cs[q] == CandidateOf(lay, dets, id);
    assert Claims(cs[q], d);
    if Before(id, ids[p]) && q >= p {
      assert false;
    }
  }

  /** The entry of a detection is its best claimant: no slot claiming it
      scores higher, and a claimant scanned earlier scores strictly lower,
      so ties keep the earliest slot in section-major, slot-minor order. */
  lemma BestSlotPerDetection(lay: Layout, dets: seq<Box>, d: nat, id: SlotId)
    requires WellFormed(lay)
    ensures var t := CreateGrid(lay, dets).value.table;
            d in t && SlotClaims(lay, dets, id, d) ==>
              && CandidateOf(lay, dets, id).iou <= t[d].iou
              && (Before(id, t[d].at) ==> CandidateOf(lay, dets, id).iou < t[d].iou)
  {
    var p := EntryPosition(lay, dets, d);
    if d in CreateGrid(lay, dets).value.table && SlotClaims(lay, dets, id, d) {
      ClaimantBelowEntry(lay, dets, d, id, p);
    }
  }
}
