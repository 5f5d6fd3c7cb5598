/** A DNA segment: a named sequence plus the forward and backward links that the
    overlap graph builder records on it. */
module Segments {
  import opened Wrappers

  /** The state of one segment at a moment in time. */
  datatype SegmentValue = SegmentValue(
    name: string,
    sequence: string,
    forwardMatch: Option<string>,
    backwardMatch: Option<string>,
    forwardMatchOverlap: int,
    backwardMatchOverlap: int)

  /** A segment object. Its name and sequence never change after construction;
      the link fields are updated in place while overlaps are calculated. A
      missing link is None (a null reference). */
  class Segment {
    const name: string
    const sequence: string
    var forwardMatch: Option<string>
    var backwardMatch: Option<string>
    var forwardMatchOverlap: int
    var backwardMatchOverlap: int

    /** A new segment has no links and zero overlaps. */
    constructor (name: string, sequence: string)
      ensures Value() == SegmentValue(name, sequence, None, None, 0, 0)
    {
      this.name := name;
      this.sequence := sequence;
      forwardMatch := None;
      backwardMatch := None;
      forwardMatchOverlap := 0;
      backwardMatchOverlap := 0;
    }

    /** The segment's current state as a value. */
    function Value(): SegmentValue
      reads this
    {
      SegmentValue(name, sequence, forwardMatch, backwardMatch, forwardMatchOverlap, backwardMatchOverlap)
    }

    method SetForwardMatch(forwardMatch: string)
      modifies `forwardMatch
      ensures this.forwardMatch == Some(forwardMatch)
    {
      this.forwardMatch := Some(forwardMatch);
    }

    method SetBackwardMatch(backwardMatch: string)
      modifies `backwardMatch
      ensures this.backwardMatch == Some(backwardMatch)
    {
      this.backwardMatch := Some(backwardMatch);
    }

    method SetForwardMatchOverlap(forwardMatchOverlap: int)
      modifies `forwardMatchOverlap
      ensures this.forwardMatchOverlap == forwardMatchOverlap
    {
      this.forwardMatchOverlap := forwardMatchOverlap;
    }

    method SetBackwardMatchOverlap(backwardMatchOverlap: int)
      modifies `backwardMatchOverlap
      ensures this.backwardMatchOverlap == backwardMatchOverlap
    {
      this.backwardMatchOverlap := backwardMatchOverlap;
    }
  }

  /** The state of a whole collection of segments, in iteration order. */
  function View(dna: seq<Segment>): (v: seq<SegmentValue>)
    reads dna
    ensures |v| == |dna| && forall k :: 0 <= k < |dna| ==> v[k] == dna[k].Value()
  {
    seq(|dna|, k requires 0 <= k < |dna| reads dna => dna[k].Value())
  }

  /** A map keyed by name holds each name once. */
  predicate DistinctNames(v: seq<SegmentValue>)
  {
    forall p, q :: 0 <= p < q < |v| ==> v[p].name != v[q].name
  }
}
