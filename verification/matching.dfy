/**
 * The match table: for every detection, the slot it fits best among the
 * slots that chose it as their best detection with a score above the
 * acceptance threshold.
 */
module Matching {
  import opened Wrappers

  /** A slot identified by its section and its position within the section. */
  datatype SlotId = SlotId(section: nat, slot: nat)

  /** What the scan of one slot produced: its best score and best detection. */
  datatype Candidate = Candidate(at: SlotId, iou: real, best: Option<nat>)

  /** A match-table entry: the slot a detection is assigned to, and the score. */
  datatype Match = Match(at: SlotId, iou: real)

  /** Scores must exceed this value for a slot to claim a detection. */
  const Threshold: real := 0.3

  /** Slot candidate `c` claims detection `d`. */
  predicate Claims(c: Candidate, d: nat) {
    c.iou > Threshold && c.best == Some(d)
  }

  /** One step of the scan: a claiming slot enters the table when its
      detection has no entry yet, and replaces the entry only when it scores
      strictly higher. */
  function Record(table: map<nat, Match>, c: Candidate): map<nat, Match> {
    if c.iou > Threshold && c.best.Some? then
      var d := c.best.value;
      if d !in table then table[d := Match(c.at, c.iou)]
      else if table[d].iou < c.iou then table[d := Match(c.at, c.iou)]
      else table
    else table
  }

  /** The table after scanning the candidates in order. Every entry carries
      a score above the threshold. */
  function MatchTable(cs: seq<Candidate>): (t: map<nat, Match>)
    ensures forall d :: d in t ==> t[d].iou > Threshold
    decreases |cs|
  {
    if |cs| == 0 then map[]
    else Record(MatchTable(cs[..|cs| - 1]), cs[|cs| - 1])
  }

  /** Position `p` holds the entry detection `d` deserves: `p` claims `d`,
      no claimant of `d` scores higher, and every earlier claimant scores
      strictly lower. */
  ghost predicate IsEntryFor(cs: seq<Candidate>, d: nat, p: int) {
    && 0 <= p < |cs|
    && Claims(cs[p], d)
    && (forall q :: 0 <= q < |cs| && Claims(cs[q], d) ==> cs[q].iou <= cs[p].iou)
    && (forall q :: 0 <= q < p && Claims(cs[q], d) ==> cs[q].iou < cs[p].iou)
  }

  ghost predicate Claimed(cs: seq<Candidate>, d: nat) {
    exists p :: 0 <= p < |cs| && Claims(cs[p], d)
  }

  /** The table `t` is right about detection `d` after scanning `cs`. */
  ghost predicate RightAbout(cs: seq<Candidate>, t: map<nat, Match>, d: nat) {
    && (d in t <==> Claimed(cs, d))
    && (d in t ==> exists p :: IsEntryFor(cs, d, p) && t[d] == Match(cs[p].at, cs[p].iou))
  }

  lemma ClaimedSnoc(cs: seq<Candidate>, d: nat)
    requires |cs| > 0
    ensures Claimed(cs, d) <==> Claimed(cs[..|cs| - 1], d) || Claims(cs[|cs| - 1], d)
  {
    var n := |cs| - 1;
    if Claimed(cs, d) {
      var p :| 0 <= p < |cs| && Claims(cs[p], d);
      if p < n {
        assert Claims(cs[..n][p], d);
      }
    }
    if Claimed(cs[..n], d) {
      var p :| 0 <= p < n && Claims(cs[..n][p], d);
      assert Claims(cs[p], d);
    }
  }

  /** An entry stays the deserved one when the new candidate does not beat it. */
  lemma EntryKept(cs: seq<Candidate>, d: nat, p: int)
    requires |cs| > 0
    requires IsEntryFor(cs[..|cs| - 1], d, p)
    requires Claims(cs[|cs| - 1], d) ==> cs[|cs| - 1].iou <= cs[p].iou
    ensures IsEntryFor(cs, d, p)
  {
    var n := |cs| - 1;
    assert forall q :: 0 <= q < n ==> cs[..n][q] == cs[q];
  }

  /** The new candidate is the deserved entry when it beats every earlier claimant. */
  lemma EntryReplaced(cs: seq<Candidate>, d: nat)
    requires |cs| > 0
    requires Claims(cs[|cs| - 1], d)
    requires forall q :: 0 <= q < |cs| - 1 && Claims(cs[q], d) ==> cs[q].iou < cs[|cs| - 1].iou
    ensures IsEntryFor(cs, d, |cs| - 1)
  {
  }

  /** One scan step keeps the table right about every detection. */
  lemma RecordStep(cs: seq<Candidate>, d: nat)
    requires |cs| > 0
    requires RightAbout(cs[..|cs| - 1], MatchTable(cs[..|cs| - 1]), d)
    ensures RightAbout(cs, MatchTable(cs), d)
  {
    var n := |cs| - 1;
    var pre := cs[..n];
    var c := cs[n];
    var t0 := MatchTable(pre);
    var t := MatchTable(cs);
    assert t == Record(t0, c);
    ClaimedSnoc(cs, d);
    if !Claims(c, d) {
      assert d in t <==> d in t0;
      if d in t0 {
        var p :| IsEntryFor(pre, d, p) && t0[d] == Match(pre[p].at, pre[p].iou);
        EntryKept(cs, d, p);
        assert t[d] == Match(cs[p].at, cs[p].iou);
      }
    } else if d !in t0 {
      assert forall q :: 0 <= q < n ==> !Claims(pre[q], d);
      assert forall q :: 0 <= q < n ==> pre[q] == cs[q];
      EntryReplaced(cs, d);
      assert t[d] == Match(cs[n].at, cs[n].iou);
    } else {
      var p :| IsEntryFor(pre, d, p) && t0[d] == Match(pre[p].at, pre[p].iou);
      assert pre[p] == cs[p];
      if t0[d].iou < c.iou {
        assert forall q :: 0 <= q < n ==> pre[q] == cs[q];
        EntryReplaced(cs, d);
        assert t[d] == Match(cs[n].at, cs[n].iou);
      } else {
        EntryKept(cs, d, p);
        assert t[d] == Match(cs[p].at, cs[p].iou);
      }
    }
  }

  /** The scan computes the declarative table: exactly the claimed
      detections have an entry, and the entry of a detection is the
      candidate at position `p`, the best claimant, ties going to the
      earliest. */
  lemma {:induction false} MatchTableSpec(cs: seq<Candidate>, d: nat) returns (p: int)
    ensures d in MatchTable(cs) <==> Claimed(cs, d)
    ensures d in MatchTable(cs) ==> IsEntryFor(cs, d, p) && MatchTable(cs)[d] == Match(cs[p].at, cs[p].iou)
    decreases |cs|
  {
    p := 0;
    if |cs| > 0 {
      p := MatchTableSpec(cs[..|cs| - 1], d);
      RecordStep(cs, d);
      if d in MatchTable(cs) {
        p :| IsEntryFor(cs, d, p) && MatchTable(cs)[d] == Match(cs[p].at, cs[p].iou);
      }
    }
  }

  /** The declarative entry of a detection is unique, so the table the scan
      builds is the only one meeting the description above. */
  lemma EntryUnique(cs: seq<Candidate>, d: nat, p: int, p': int)
    requires IsEntryFor(cs, d, p) && IsEntryFor(cs, d, p')
    ensures p == p'
  {
  }
}
