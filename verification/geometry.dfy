/**
 * Axis-aligned boxes and their intersection-over-union, as used to match
 * detected vehicles against parking slots.
 */
module Geometry {
  import opened Wrappers

  /** An axis-aligned box given by two corners (x1, y1) and (x2, y2).
      Nothing forces x1 <= x2 or y1 <= y2. */
  datatype Box = Box(x1: real, y1: real, x2: real, y2: real)

  function Max(a: real, b: real): real { if a >= b then a else b }
  function Min(a: real, b: real): real { if a <= b then a else b }

  /** Width and height of the intersection of two boxes (possibly <= 0). */
  function InterWidth(a: Box, b: Box): real { Min(a.x2, b.x2) - Max(a.x1, b.x1) }
  function InterHeight(a: Box, b: Box): real { Min(a.y2, b.y2) - Max(a.y1, b.y1) }

  /** The intersection has positive width and positive height. */
  predicate Overlap(a: Box, b: Box) {
    InterWidth(a, b) > 0.0 && InterHeight(a, b) > 0.0
  }

  function Area(a: Box): real { (a.x2 - a.x1) * (a.y2 - a.y1) }

  function Intersection(a: Box, b: Box): real { InterWidth(a, b) * InterHeight(a, b) }

  function Union(a: Box, b: Box): real { Area(a) + Area(b) - Intersection(a, b) }

  lemma MulMono(p: real, q: real, u: real, v: real)
    requires 0.0 < p <= u && 0.0 < q <= v
    ensures 0.0 < p * q <= u * v
    ensures p * q == u * v ==> p == u && q == v
  {
    assert p * q <= u * q;
    assert u * q <= u * v;
    if p < u {
      assert p * q < u * q;
    }
    if q < v {
      assert u * q < u * v;
    }
  }

  /** When the boxes overlap, both have positive width and height, the
      intersection fits inside each of them, and so the union is strictly
      positive. */
  lemma OverlapBounds(a: Box, b: Box)
    requires Overlap(a, b)
    ensures a.x2 - a.x1 > 0.0 && a.y2 - a.y1 > 0.0
    ensures b.x2 - b.x1 > 0.0 && b.y2 - b.y1 > 0.0
    ensures 0.0 < Intersection(a, b) <= Area(a)
    ensures Intersection(a, b) <= Area(b)
    ensures Union(a, b) >= Intersection(a, b) > 0.0
  {
    MulMono(InterWidth(a, b), InterHeight(a, b), a.x2 - a.x1, a.y2 - a.y1);
    MulMono(InterWidth(a, b), InterHeight(a, b), b.x2 - b.x1, b.y2 - b.y1);
  }

  /** Intersection-over-union of two boxes: exactly 0 when they do not
      overlap, otherwise a positive ratio no greater than 1. The division is
      always by a strictly positive union. */
  function Iou(a: Box, b: Box): (r: real)
    ensures 0.0 <= r <= 1.0
    ensures r == 0.0 <==> !Overlap(a, b)
  {
    if InterWidth(a, b) <= 0.0 || InterHeight(a, b) <= 0.0 then 0.0
    else
      OverlapBounds(a, b);
      Intersection(a, b) / Union(a, b)
  }

  /** The IoU does not depend on the order of its arguments. */
  lemma IouSymmetric(a: Box, b: Box)
    ensures Iou(a, b) == Iou(b, a)
  {
    assert InterWidth(a, b) == InterWidth(b, a);
    assert InterHeight(a, b) == InterHeight(b, a);
  }

  /** A box of positive width and height (x1 < x2 and y1 < y2) compared with
      itself scores exactly 1; any other box, including one with inverted
      corners and so a positive `Area`, scores 0 against itself. */
  lemma IouSelf(a: Box)
    ensures a.x1 < a.x2 && a.y1 < a.y2 ==> Iou(a, a) == 1.0
    ensures !(a.x1 < a.x2 && a.y1 < a.y2) ==> Iou(a, a) == 0.0
  {
    if a.x1 < a.x2 && a.y1 < a.y2 {
      assert Overlap(a, a);
      assert Intersection(a, a) == Area(a);
    }
  }

  /** A score of 1 is reached exactly by two identical boxes of positive width
      and height (x1 < x2 and y1 < y2). */
  lemma IouOneIffSameBox(a: Box, b: Box)
    ensures Iou(a, b) == 1.0 <==> a == b && a.x1 < a.x2 && a.y1 < a.y2
  {
    if Iou(a, b) == 1.0 {
      assert Overlap(a, b);
      OverlapBounds(a, b);
      var i := Intersection(a, b);
      assert i / Union(a, b) == 1.0;
      assert i == Union(a, b);
      assert Area(a) == i && Area(b) == i;
      MulMono(InterWidth(a, b), InterHeight(a, b), a.x2 - a.x1, a.y2 - a.y1);
      MulMono(InterWidth(a, b), InterHeight(a, b), b.x2 - b.x1, b.y2 - b.y1);
      assert InterWidth(a, b) == a.x2 - a.x1 == b.x2 - b.x1;
      assert InterHeight(a, b) == a.y2 - a.y1 == b.y2 - b.y1;
    }
    if a == b && a.x1 < a.x2 && a.y1 < a.y2 {
      IouSelf(a);
    }
  }

  /** Scan of the detections against one slot box: the best score and the
      index of the first detection reaching it, or (0, None) when every
      score is 0 (in particular when there are no detections). */
  function MaxIouForSlot(slot: Box, dets: seq<Box>): (r: (real, Option<nat>))
    ensures r.0 >= 0.0
    ensures forall j :: 0 <= j < |dets| ==> Iou(slot, dets[j]) <= r.0
    ensures r.1.None? <==> forall j :: 0 <= j < |dets| ==> Iou(slot, dets[j]) == 0.0
    ensures r.1.None? ==> r.0 == 0.0
    ensures r.1.Some? ==>
              && r.1.value < |dets|
              && Iou(slot, dets[r.1.value]) == r.0
              && (forall j :: 0 <= j < r.1.value ==> Iou(slot, dets[j]) < r.0)
    decreases |dets|
  {
    if |dets| == 0 then (0.0, None)
    else
      var last := |dets| - 1;
      var prev := MaxIouForSlot(slot, dets[..last]);
      var iou := Iou(slot, dets[last]);
      if iou > prev.0 then (iou, Some(last)) else prev
  }

  /** `m` is the best score of `slot` against `dets` (0 when there is
      nothing better), and `best` the first detection reaching it. */
  ghost predicate IsFirstMax(slot: Box, dets: seq<Box>, m: real, best: Option<nat>) {
    && (forall j :: 0 <= j < |dets| ==> Iou(slot, dets[j]) <= m)
    && (best.None? ==> m == 0.0)
    && (best.Some? ==>
          && best.value < |dets|
          && Iou(slot, dets[best.value]) == m
          && m > 0.0
          && (forall j :: 0 <= j < best.value ==> Iou(slot, dets[j]) < m))
  }

  /** The scan computes exactly the first maximum: its result meets the
      description, and nothing else does. */
  lemma MaxIouForSlotIsFirstMax(slot: Box, dets: seq<Box>, m: real, best: Option<nat>)
    ensures (m, best) == MaxIouForSlot(slot, dets) <==> IsFirstMax(slot, dets, m, best)
  {
    var r := MaxIouForSlot(slot, dets);
    if IsFirstMax(slot, dets, m, best) {
      if best.Some? && r.1.Some? {
        assert m == r.0;
      }
    }
  }
}
