/**
 * Time segments as the segment library represents them: half-open intervals
 * `[start, end)` of GPS time, and lists of such intervals. Only the membership
 * test that the veto step relies on is modelled here.
 */
module Segments {

  /** A half-open interval `[start, end)`. */
  datatype Segment = Segment(start: real, end: real)

  /** `t in seg` for a single segment: the start is included, the end is not. */
  predicate InSegment(seg: Segment, t: real) {
    seg.start <= t < seg.end
  }

  /** `t in segs` for a segment list: `t` lies inside some segment of the list. */
  predicate InList(segs: seq<Segment>, t: real) {
    exists i | 0 <= i < |segs| :: InSegment(segs[i], t)
  }

  /**
   * A coalesced list: every segment is well formed, and the segments are in
   * increasing order with a gap between any two of them (touching segments
   * would have been merged).
   */
  predicate Coalesced(segs: seq<Segment>) {
    && (forall i | 0 <= i < |segs| :: segs[i].start <= segs[i].end)
    && (forall i, j | 0 <= i < j < |segs| :: segs[i].end < segs[j].start)
  }

  /**
   * A bisection on the segment starts that, on a coalesced list, gives the
   * same answer as the segment library's `in`: count the segments that start
   * at or before `t`, then look only at the last of them.
   */
  method BisectContains(segs: seq<Segment>, t: real) returns (b: bool)
    requires Coalesced(segs)
    ensures b == InList(segs, t)
  {
    var lo, hi := 0, |segs|;
    while lo < hi
      invariant 0 <= lo <= hi <= |segs|
      invariant forall i | 0 <= i < lo :: segs[i].start <= t
      invariant forall i | hi <= i < |segs| :: t < segs[i].start
    {
      var mid := (lo + hi) / 2;
      if segs[mid].start <= t {
        lo := mid + 1;
      } else {
        hi := mid;
      }
    }
    b := lo > 0 && t < segs[lo - 1].end;
    if b {
      assert InSegment(segs[lo - 1], t);
    } else {
      forall i | 0 <= i < |segs|
        ensures !InSegment(segs[i], t)
      {
        if i < lo - 1 {
          assert segs[i].end < segs[lo - 1].start;
        }
      }
    }
  }
}
