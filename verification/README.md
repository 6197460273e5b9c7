# Parking-lot slot occupancy, modelled in Dafny

This project models the slot-occupancy geometry of the parking-lot service:
the part that decides which parking slots a set of detected vehicle boxes
occupies. A fixed camera looks at a lot whose slots are configured as
sections: straight line segments, each with a slot capacity. The service

1. lays out `capacity` slots per section, at parameters `k/n` along the
   segment from its start to its end, and gives every slot a box of
   1.1 × slot width by 1.1 × slot length centred on its point;
2. scores every slot box against every detected box by intersection over
   union (IoU) and keeps, per slot, the best score and the first detection
   reaching it;
3. builds a match table keyed by detection: a slot whose best score exceeds
   0.3 claims its best detection, and a detection keeps the claimant with
   the highest score (a later claimant replaces an entry only when it scores
   strictly higher);
4. builds one state row per section (all 0, with a `-1` sentinel at both
   ends of section 1's row, an aisle marker), then writes 1 into the grid
   for every match-table entry and collects the occupied slots.

Coordinates are exact `real`s, so `1.1`, `0.3` and `k/n` are exact
rationals. The modules follow the steps above:

- `wrappers.dfy` — `Option` and `Result`.
- `geometry.dfy` (`Geometry`) — boxes, `Iou`, and the per-slot scan
  `MaxIouForSlot`.
- `matching.dfy` (`Matching`) — slot identifiers, per-slot scan results
  (`Candidate`), the match-table fold `MatchTable`, and its declarative
  characterisation.
- `grid.dfy` (`Grid`) — the lot configuration (`Layout`), scan order, slot
  centres and boxes, section rows, `CreateGrid`, and the match-table
  invariants stated in terms of slots.
- `update.dfy` (`Update`) — `UpdateGridWithIou` as written. It also holds the
  aisle-row discrepancy described under Findings, with a corrected update.

`create_grid` interleaves three computations in one loop: building rows,
recording centres and recording matches. None of them reads another's
state, so the model computes them separately: `Rows`, `Centers`, and
`MatchTable` over the per-slot scan results in scan order. A section list
longer than the capacity list makes the source raise `IndexError`. The model
returns `Failure(IndexError)` in that case. A non-positive capacity gives an
empty `range`, so that section has no slots.

When two slots claim the same detection with equal scores, the match table
keeps the slot scanned first. The replacement test at services.py:92 is a
strict `<`, so a later claimant with the same score does not replace the
entry (`BestSlotPerDetection`). The update at services.py:108 writes
`grid[section][slot]` and does not allow for the leading sentinel of
section 1's row. The model keeps that raw index; see Findings.

No two detections share a slot in a table that `create_grid` builds
(`TableInjective`). Two entries naming the same slot, the case
`DuplicateMatchHarmless` covers, therefore arise only in tables built by
hand and passed to `update_grid_with_iou`.

## Model

| member | source | states |
|---|---|---|
| Geometry.Iou | src/service/services.py:6-23 | the IoU lies in [0, 1], and it is exactly 0 if and only if the intersection width or height is not positive; the division is always by a positive union |
| Geometry.OverlapBounds | src/service/services.py:10-23 | when the boxes overlap, both boxes have positive width and height, the intersection fits inside each box, and the union is at least the intersection, so it is strictly positive |
| Geometry.IouSymmetric | src/service/services.py:6-23 | the IoU is the same with its two arguments swapped |
| Geometry.IouSelf | src/service/services.py:6-23 | a box of positive width and height (x1 < x2 and y1 < y2) compared with itself scores exactly 1; any other box, such as one with inverted corners whose width-times-height product is positive, scores 0 against itself |
| Geometry.IouOneIffSameBox | src/service/services.py:6-23 | a score of 1 is reached exactly when the two boxes are the same box and it has positive width and height (x1 < x2 and y1 < y2) |
| Geometry.MaxIouForSlot | src/service/services.py:49-57 | the result is a non-negative score no detection exceeds; with an index, that detection reaches the score, which is positive, and every earlier detection scores strictly less; without one (`None`), the score is 0 and every detection scores 0, which covers an empty list |
| Geometry.MaxIouForSlotIsFirstMax | src/service/services.py:49-57 | a pair is the scan's result if and only if it is the maximum score paired with the first index reaching it, or `(0, None)` when nothing scores above 0 |
| Matching.MatchTable | src/service/services.py:84-94 | every match-table entry carries a score above the 0.3 threshold |
| Matching.MatchTableSpec | src/service/services.py:84-94 | after the scan, a detection has an entry if and only if some slot claims it; the entry is the claimant at a returned scan position, no claimant outscores it, and every earlier claimant scores strictly below it |
| Matching.EntryUnique | src/service/services.py:87-94 | at most one position meets that description, so the characterisation fixes the table |
| Grid.SectionSlots | src/service/services.py:76 | the slots of one section are slot numbers 0 to n-1 of that section, in order |
| Grid.ScanOrder | src/service/services.py:72-76 | the scan visits every valid slot and nothing else, strictly increasing in section-major, slot-minor order |
| Grid.SlotCentersEvenlySpaced | src/service/services.py:76-78 | in any section with at least one slot, the first slot sits at the section start; successive slot centres are one n-th of the section vector apart |
| Grid.SlotBox | src/service/services.py:65-80 | a slot box is centred on the slot point and measures 1.1 × width across and 1.1 × length high |
| Grid.AppendEmpty | src/service/services.py:96 | appending n empty states keeps the row as its prefix and adds exactly n zeros |
| Grid.SectionRow | src/service/services.py:74-99 | the initial row of section s with n slots is n zeros; for section 1 it has a -1 before and after them |
| Grid.CreateGrid | src/service/services.py:60-103 | construction fails exactly when a section has no capacity entry; otherwise it gives one row per section, in order, each of that section's shape, and centres for exactly the valid slots, each at parameter k/n along its section |
| Grid.MatchTableKeys | src/service/services.py:84-94 | a detection has a match-table entry exactly when some slot's best detection is it with a score above 0.3 |
| Grid.MatchTableEntry | src/service/services.py:84-94 | every entry lies on a valid slot, scores above 0.3, and its detection is that slot's first best detection, with that score |
| Grid.TableInjective | src/service/services.py:84-94 | two detections with entries never name the same slot, because an entry's detection is its slot's one best detection |
| Grid.BestSlotPerDetection | src/service/services.py:87-94 | no slot claiming a detection scores above its entry, and a claimant earlier in section-major, slot-minor order scores strictly less, so ties keep the earliest slot |
| Update.UpdateGridWithIou | src/service/services.py:105-110 | the update raises exactly when an entry's raw cell (section, slot) lies outside the grid; otherwise row count and row lengths stay the same, the listed cells become 1, every other cell keeps its value, and the occupied set is the set of slots in the table |
| Update.MarkedIdempotent | src/service/services.py:107-108 | applying the same marking again leaves the grid unchanged |
| Update.DuplicateMatchHarmless | src/service/services.py:107-109 | when two detections map to the same slot, dropping one of them changes neither the cells written nor the occupied set |
| Update.TableFitsGrid | src/service/services.py:72-108 | on a freshly constructed grid every entry's raw cell is inside the grid, so the update never raises there |
| Update.AisleRowAsWritten | src/service/services.py:74-108 | a match on section 1, slot 0 overwrites the leading -1 with 1, the cell of section 1's last slot stays 0, and the updated row is not the intended occupancy row |
| Update.AisleOverwriteExample | src/service/services.py:60-110 | on a concrete two-section lot with one detection, the table maps the detection to slot (1, 0), and the update as written turns row `[-1, 0, -1]` into `[1, 0, -1]` |
| Update.CorrectedUpdateMarksSlots | src/service/services.py:74-110 | with section 1's cells shifted by one, the update of a fresh grid succeeds and keeps both sentinels; in every row, a slot's own state is 1 exactly when the slot is occupied, and the occupied set is the table's slots |

## Left out

- `rotate_point`, `rotate_bbox` and the `car_angles` branch of `create_grid`: they need cosine and sine, and they produce an 8-coordinate quad that the 4-coordinate IoU cannot consume. `CreateGrid` models the call without angles.
- IEEE floating-point rounding: coordinates are exact reals, so `1.1`, `0.3` and `k/n` are exact. A float computation could land on the other side of the 0.3 threshold or of a tie.
- `compute_max_iou_for_slot` starts from the integer `0` and can return it. In the model that value is the real `0.0`.
- The `matplotlib` imports at the top of services.py: nothing in the modelled functions uses them. src/core/detector.py also imports a name `plot_parking_lot` from services.py that services.py does not define; it is not part of this model.
- The blob-storage manager and model loading (src/blob/blob_manager.py): remote I/O and environment variables.
- `get_bounding_boxes` and `get_slot_occupancy` (src/core/detector.py): image decoding, resizing and the detector call are opaque I/O. The detections are a parameter of `CreateGrid`. The report that takes the last three rows, reversed, is left out as glue.
- The HTTP endpoints in main.py and their error-to-JSON conversion.
- `update_grid_with_iou` mutates the caller's grid in place and returns it. An `IndexError` part-way through leaves the earlier writes in that grid. The model returns a fresh grid, or `Failure` with no grid. No caller can observe the difference on a grid built by `create_grid`, because the update cannot raise there (`TableFitsGrid`), and src/core/detector.py uses only the returned grid.
- Python dictionary iteration order in `update_grid_with_iou`: the model visits the entries in an arbitrary order. The result does not depend on the order, and an out-of-range entry raises whatever the order.

## Findings

| source | as written | input that shows it | evidently intended | confidence | as-written member | corrected member |
|---|---|---|---|---|---|---|
| src/service/services.py:74,108 | the update writes `grid[section][slot]`, but section 1's row starts with a `-1` sentinel, so slot k's state is at index k+1 | sections (0,0)→(10,0) and (0,10)→(10,10), capacities [1, 1], slot size 1 × 1, one detection (-0.55, 9.45, 0.55, 10.55): the row of section 1 becomes `[1, 0, -1]` instead of `[-1, 1, -1]` | section 1's slot k is written at index k+1, so the sentinels survive and each slot's own state shows its occupancy | medium, not executed | Update.AisleRowAsWritten | Update.CorrectedUpdateMarksSlots |

`UpdateGridWithIou` models the code as written. `UpdateGridCorrected` shifts
section 1's cells by one and is proved correct by
`CorrectedUpdateMarksSlots`. Nothing else in the model consumes the updated
grid.
