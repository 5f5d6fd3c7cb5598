/** The overlap graph builder: every ordered pair of differently named segments
    is compared, and a pair whose overlap is more than half of the longer
    sequence is recorded as a forward link on the first segment and a backward
    link on the second. Later pairs overwrite earlier ones. */
module Links {
  import opened Wrappers
  import opened Kmp
  import opened Segments

  function Max(x: int, y: int): int { if x >= y then x else y }

  /** The overlap a pair must exceed: half of each length, rounded down (the
      lengths are halved in integer arithmetic before any rounding), and the
      larger of the two. */
  function Threshold(len1: nat, len2: nat): (t: int)
    ensures 2 * (t + 1) > len1 && 2 * (t + 1) > len2
    ensures 2 * t <= len1 || 2 * t <= len2
  {
    Max(len1 / 2, len2 / 2)
  }

  /** The pair (a, b) is linked: the names differ and the suffix of a's sequence
      that starts b's sequence is longer than the threshold. */
  predicate Accepted(v: seq<SegmentValue>, a: nat, b: nat)
    requires a < |v| && b < |v|
  {
    v[a].name != v[b].name &&
    Overlap(v[a].sequence, v[b].sequence) > Threshold(|v[a].sequence|, |v[b].sequence|)
  }

  /** The last partner b < hi, in iteration order, of an accepted pair (a, b). */
  function LastForward(v: seq<SegmentValue>, a: nat, hi: nat): (r: Option<nat>)
    requires a < |v| && hi <= |v|
    ensures r.None? ==> forall b :: 0 <= b < hi ==> !Accepted(v, a, b)
    ensures r.Some? ==> r.value < hi && Accepted(v, a, r.value)
    ensures r.Some? ==> forall b :: r.value < b < hi ==> !Accepted(v, a, b)
  {
    if hi == 0 then None
    else if Accepted(v, a, hi - 1) then Some(hi - 1)
    else LastForward(v, a, hi - 1)
  }

  /** The last partner a < hi, in iteration order, of an accepted pair (a, b). */
  function LastBackward(v: seq<SegmentValue>, b: nat, hi: nat): (r: Option<nat>)
    requires b < |v| && hi <= |v|
    ensures r.None? ==> forall a :: 0 <= a < hi ==> !Accepted(v, a, b)
    ensures r.Some? ==> r.value < hi && Accepted(v, r.value, b)
    ensures r.Some? ==> forall a :: r.value < a < hi ==> !Accepted(v, a, b)
  {
    if hi == 0 then None
    else if Accepted(v, hi - 1, b) then Some(hi - 1)
    else LastBackward(v, b, hi - 1)
  }

  /** Segment a once the pairs (a, b) with b < fhi and the pairs (c, a) with
      c < bhi have been processed: each kind of link comes from the last
      accepted pair of that kind, and is left as it was when there is none. */
  function RelinkAt(v: seq<SegmentValue>, a: nat, fhi: nat, bhi: nat): SegmentValue
    requires a < |v| && fhi <= |v| && bhi <= |v|
  {
    var f := LastForward(v, a, fhi);
    var b := LastBackward(v, a, bhi);
    SegmentValue(
      v[a].name,
      v[a].sequence,
      if f.Some? then Some(v[f.value].name) else v[a].forwardMatch,
      if b.Some? then Some(v[b.value].name) else v[a].backwardMatch,
      if f.Some? then Overlap(v[a].sequence, v[f.value].sequence) else v[a].forwardMatchOverlap,
      if b.Some? then Overlap(v[b.value].sequence, v[a].sequence) else v[a].backwardMatchOverlap)
  }

  /** The segments once every ordered pair has been processed. */
  function BuildLinks(v: seq<SegmentValue>): (w: seq<SegmentValue>)
    ensures |w| == |v|
    ensures forall a :: 0 <= a < |v| ==> w[a].name == v[a].name && w[a].sequence == v[a].sequence
  {
    seq(|v|, a requires 0 <= a < |v| => RelinkAt(v, a, |v|, |v|))
  }

  /** The segments once the outer loop has finished the first i segments and the
      inner loop has compared segment i with the first j segments. */
  function LinksAfter(v: seq<SegmentValue>, i: nat, j: nat): seq<SegmentValue>
    requires i <= |v| && j <= |v| && (i < |v| || j == 0)
  {
    seq(|v|, a requires 0 <= a < |v| =>
      RelinkAt(v, a, if a < i then |v| else if a == i then j else 0, if a < j then i + 1 else i))
  }

  /** Before any pair is processed nothing has changed. */
  lemma LinksAfterStart(v: seq<SegmentValue>)
    ensures LinksAfter(v, 0, 0) == v
  {
    forall a | 0 <= a < |v|
      ensures LinksAfter(v, 0, 0)[a] == v[a]
    {
      assert LinksAfter(v, 0, 0)[a] == RelinkAt(v, a, 0, 0);
    }
  }

  /** Finishing the inner loop for segment i is starting it for segment i + 1. */
  lemma LinksAfterRow(v: seq<SegmentValue>, i: nat)
    requires i < |v|
    ensures LinksAfter(v, i, |v|) == LinksAfter(v, i + 1, 0)
  {
  }

  /** Once every row has been processed, the segments are the built links. */
  lemma LinksAfterEnd(v: seq<SegmentValue>)
    ensures LinksAfter(v, |v|, 0) == BuildLinks(v)
  {
  }

  /** The collection as it stands after the last row is the built links. */
  lemma RowsFinished(v: seq<SegmentValue>, w: seq<SegmentValue>)
    requires w == LinksAfter(v, |v|, 0)
    ensures w == BuildLinks(v)
  {
    LinksAfterEnd(v);
  }

  /** Processing the pair (i, j) changes only the forward link of i and the
      backward link of j, and only when the pair is accepted. */
  lemma LinksAfterStep(v: seq<SegmentValue>, i: nat, j: nat)
    requires i < |v| && j < |v|
    ensures forall a :: 0 <= a < |v| && ((a != i && a != j) || !Accepted(v, i, j)) ==>
      LinksAfter(v, i, j + 1)[a] == LinksAfter(v, i, j)[a]
    ensures Accepted(v, i, j) ==>
      var ov := Overlap(v[i].sequence, v[j].sequence);
      LinksAfter(v, i, j + 1)[i] == LinksAfter(v, i, j)[i].(forwardMatch := Some(v[j].name), forwardMatchOverlap := ov) &&
      LinksAfter(v, i, j + 1)[j] == LinksAfter(v, i, j)[j].(backwardMatch := Some(v[i].name), backwardMatchOverlap := ov)
  {
    forall a | 0 <= a < |v| && ((a != i && a != j) || !Accepted(v, i, j))
      ensures LinksAfter(v, i, j + 1)[a] == LinksAfter(v, i, j)[a]
    {
      LinksAfterStepAt(v, i, j, a);
    }
    if Accepted(v, i, j) {
      LinksAfterStepLinked(v, i, j);
    }
  }

  /** Processing the pair (i, j) leaves segment a unchanged when a is neither i
      nor j, or when the pair is not accepted. */
  lemma LinksAfterStepAt(v: seq<SegmentValue>, i: nat, j: nat, a: nat)
    requires i < |v| && j < |v| && a < |v|
    requires (a != i && a != j) || !Accepted(v, i, j)
    ensures LinksAfter(v, i, j + 1)[a] == LinksAfter(v, i, j)[a]
  {
    if a == i {
      LinksAfterStepFirst(v, i, j);
    } else if a == j {
      LinksAfterStepSecond(v, i, j);
    } else {
      var fhi := if a < i then |v| else 0;
      var bhi := if a < j then i + 1 else i;
      assert LinksAfter(v, i, j)[a] == RelinkAt(v, a, fhi, bhi);
      assert LinksAfter(v, i, j + 1)[a] == RelinkAt(v, a, fhi, bhi);
    }
  }

  /** A pair (i, j) that is not accepted leaves segment i unchanged. */
  lemma LinksAfterStepFirst(v: seq<SegmentValue>, i: nat, j: nat)
    requires i < |v| && j < |v| && !Accepted(v, i, j)
    ensures LinksAfter(v, i, j + 1)[i] == LinksAfter(v, i, j)[i]
  {
    assert LastForward(v, i, j + 1) == LastForward(v, i, j);
    if i == j {
      assert LastBackward(v, j, i + 1) == LastBackward(v, j, i);
      assert LinksAfter(v, i, j)[i] == RelinkAt(v, i, j, i);
      assert LinksAfter(v, i, j + 1)[i] == RelinkAt(v, i, j + 1, i + 1);
    } else {
      var bhi := if i < j then i + 1 else i;
      assert LinksAfter(v, i, j)[i] == RelinkAt(v, i, j, bhi);
      assert LinksAfter(v, i, j + 1)[i] == RelinkAt(v, i, j + 1, bhi);
    }
  }

  /** A pair (i, j) that is not accepted leaves segment j unchanged. */
  lemma LinksAfterStepSecond(v: seq<SegmentValue>, i: nat, j: nat)
    requires i < |v| && j < |v| && i != j && !Accepted(v, i, j)
    ensures LinksAfter(v, i, j + 1)[j] == LinksAfter(v, i, j)[j]
  {
    assert LastBackward(v, j, i + 1) == LastBackward(v, j, i);
    var fhi := if j < i then |v| else 0;
    assert LinksAfter(v, i, j)[j] == RelinkAt(v, j, fhi, i);
    assert LinksAfter(v, i, j + 1)[j] == RelinkAt(v, j, fhi, i + 1);
  }

  /** Processing an accepted pair (i, j) sets i's forward link and j's backward
      link to the pair, with its overlap. */
  lemma LinksAfterStepLinked(v: seq<SegmentValue>, i: nat, j: nat)
    requires i < |v| && j < |v| && Accepted(v, i, j)
    ensures var ov := Overlap(v[i].sequence, v[j].sequence);
      LinksAfter(v, i, j + 1)[i] == LinksAfter(v, i, j)[i].(forwardMatch := Some(v[j].name), forwardMatchOverlap := ov) &&
      LinksAfter(v, i, j + 1)[j] == LinksAfter(v, i, j)[j].(backwardMatch := Some(v[i].name), backwardMatchOverlap := ov)
  {
    assert LastForward(v, i, j + 1) == Some(j);
    assert LastBackward(v, j, i + 1) == Some(i);
    var bhi := if i < j then i + 1 else i;
    assert LinksAfter(v, i, j + 1)[i] == RelinkAt(v, i, j + 1, bhi);
    assert LinksAfter(v, i, j)[i] == RelinkAt(v, i, j, bhi);
    assert LinksAfter(v, i, j + 1)[j] == RelinkAt(v, j, if j < i then |v| else 0, i + 1);
    assert LinksAfter(v, i, j)[j] == RelinkAt(v, j, if j < i then |v| else 0, i);
  }

  /** Records the link from seg1 to seg2 with the given overlap on both
      segments: seg2 becomes seg1's forward match and seg1 seg2's backward
      match. */
  method Link(seg1: Segment, seg2: Segment, overlapLength: int)
    requires seg1 != seg2
    modifies seg1, seg2
    ensures seg1.Value() == old(seg1.Value()).(forwardMatch := Some(seg2.name), forwardMatchOverlap := overlapLength)
    ensures seg2.Value() == old(seg2.Value()).(backwardMatch := Some(seg1.name), backwardMatchOverlap := overlapLength)
  {
    seg1.SetForwardMatch(seg2.name);
    seg2.SetBackwardMatch(seg1.name);
    seg1.SetForwardMatchOverlap(overlapLength);
    seg2.SetBackwardMatchOverlap(overlapLength);
  }

  /** Compares one ordered pair: when the names differ and the overlap of seg1's
      sequence onto seg2's exceeds the threshold, seg2 becomes seg1's forward
      match and seg1 seg2's backward match, both with that overlap; otherwise
      neither segment changes. */
  method ComparePair(seg1: Segment, seg2: Segment)
    requires seg1.name != seg2.name ==> |seg2.sequence| >= 2
    modifies seg1, seg2
    ensures var ov := Overlap(seg1.sequence, seg2.sequence);
      if seg1.name != seg2.name && ov > Threshold(|seg1.sequence|, |seg2.sequence|) then
        seg1.Value() == old(seg1.Value()).(forwardMatch := Some(seg2.name), forwardMatchOverlap := ov) &&
        seg2.Value() == old(seg2.Value()).(backwardMatch := Some(seg1.name), backwardMatchOverlap := ov)
      else
        seg1.Value() == old(seg1.Value()) && seg2.Value() == old(seg2.Value())
  {
    if seg1.name != seg2.name {
      var overlapLength := OverlappedStringLength(seg1.sequence, seg2.sequence);
      var overlapThreshold := Threshold(|seg1.sequence|, |seg2.sequence|);
      if overlapLength > overlapThreshold {
        Link(seg1, seg2, overlapLength);
      }
    }
  }

  /** Segments with distinct names are distinct objects. */
  lemma DistinctNamesDistinctObjects(dna: seq<Segment>)
    requires DistinctNames(View(dna))
    ensures forall p, q :: 0 <= p < |dna| && 0 <= q < |dna| && p != q ==> dna[p] != dna[q]
  {
    var v := View(dna);
    forall p, q | 0 <= p < |dna| && 0 <= q < |dna| && p != q
      ensures dna[p] != dna[q]
    {
      if p < q {
        assert v[p].name != v[q].name;
      } else {
        assert v[q].name != v[p].name;
      }
    }
  }

  /** The inner loop: compares segment i with every segment in iteration order,
      taking the collection from the state after the first i rows to the state
      after row i. */
  method CompareWithAll(dna: seq<Segment>, i: nat, ghost v: seq<SegmentValue>)
    requires i < |dna| == |v|
    requires forall p, q :: 0 <= p < |dna| && 0 <= q < |dna| && p != q ==> dna[p] != dna[q]
    requires |v| > 1 ==> forall k :: 0 <= k < |v| ==> |v[k].sequence| >= 2
    requires View(dna) == LinksAfter(v, i, 0)
    modifies dna
    ensures View(dna) == LinksAfter(v, i + 1, 0)
  {
    var j := 0;
    while j < |dna|
      invariant 0 <= j <= |dna|
      invariant View(dna) == LinksAfter(v, i, j)
    {
      ghost var before := View(dna);
      LinksAfterKeeps(v, i, j, j);
      assert before[j] == dna[j].Value();
      ComparePair(dna[i], dna[j]);
      ghost var after := View(dna);
      assert forall a :: 0 <= a < |dna| && a != i && a != j ==> after[a] == before[a];
      CompareStep(v, i, j, before, after);
      j := j + 1;
    }
    LinksAfterRow(v, i);
  }

  /** The effect of comparing the pair (i, j), as ComparePair states it, takes
      the state before the pair to the state after it. */
  lemma CompareStep(v: seq<SegmentValue>, i: nat, j: nat, before: seq<SegmentValue>, after: seq<SegmentValue>)
    requires i < |v| && j < |v| && |after| == |v| && before == LinksAfter(v, i, j)
    requires forall a :: 0 <= a < |v| && a != i && a != j ==> after[a] == before[a]
    requires var ov := Overlap(before[i].sequence, before[j].sequence);
      if before[i].name != before[j].name && ov > Threshold(|before[i].sequence|, |before[j].sequence|) then
        after[i] == before[i].(forwardMatch := Some(before[j].name), forwardMatchOverlap := ov) &&
        after[j] == before[j].(backwardMatch := Some(before[i].name), backwardMatchOverlap := ov)
      else
        after[i] == before[i] && after[j] == before[j]
    ensures after == LinksAfter(v, i, j + 1)
  {
    LinksAfterStep(v, i, j);
    LinksAfterKeeps(v, i, j, i);
    LinksAfterKeeps(v, i, j, j);
  }

  /** Linking never changes a segment's name or sequence. */
  lemma LinksAfterKeeps(v: seq<SegmentValue>, i: nat, j: nat, a: nat)
    requires i <= |v| && j <= |v| && (i < |v| || j == 0) && a < |v|
    ensures LinksAfter(v, i, j)[a].name == v[a].name
    ensures LinksAfter(v, i, j)[a].sequence == v[a].sequence
  {
    assert LinksAfter(v, i, j)[a] == RelinkAt(v, a, if a < i then |v| else if a == i then j else 0, if a < j then i + 1 else i);
  }

  /** Compares every ordered pair of differently named segments and, for each
      accepted pair (X, Y), makes Y X's forward match and X Y's backward match,
      both with the computed overlap. The overlap matcher needs its second
      argument to be at least two characters long, and with two or more segments
      every segment is some pair's second member. */
  method CalculateOverlaps(dna: seq<Segment>)
    requires DistinctNames(View(dna))
    requires |dna| > 1 ==> forall k :: 0 <= k < |dna| ==> |dna[k].sequence| >= 2
    modifies dna
    ensures View(dna) == BuildLinks(old(View(dna)))
  {
    ghost var v := View(dna);
    LinksAfterStart(v);
    DistinctNamesDistinctObjects(dna);
    assert |v| > 1 ==> forall k :: 0 <= k < |v| ==> |v[k].sequence| >= 2;
    var i := 0;
    while i < |dna|
      invariant 0 <= i <= |dna|
      invariant View(dna) == LinksAfter(v, i, 0)
    {
      CompareWithAll(dna, i, v);
      i := i + 1;
    }
    ghost var w := View(dna);
    RowsFinished(v, w);
  }

  // ---------------------------------------------------------------------------
  // Properties of the built links
  // ---------------------------------------------------------------------------

  /** The threshold test says: the overlap is more than half of each of the two
      sequences, so two sequences of length 6 that overlap by exactly 3 are not
      linked. */
  lemma AcceptedMeansMoreThanHalf(v: seq<SegmentValue>, a: nat, b: nat)
    requires a < |v| && b < |v|
    ensures Accepted(v, a, b) <==>
      v[a].name != v[b].name &&
      2 * Overlap(v[a].sequence, v[b].sequence) > |v[a].sequence| &&
      2 * Overlap(v[a].sequence, v[b].sequence) > |v[b].sequence|
  {
  }

  /** A segment's forward match is the partner of its last accepted pair in
      iteration order, with that pair's overlap: a later pair overwrites an
      earlier one. */
  lemma ForwardMatchIsLastAccepted(v: seq<SegmentValue>, a: nat, b: nat)
    requires a < |v| && b < |v| && Accepted(v, a, b)
    requires forall c :: b < c < |v| ==> !Accepted(v, a, c)
    ensures BuildLinks(v)[a].forwardMatch == Some(v[b].name)
    ensures BuildLinks(v)[a].forwardMatchOverlap == Overlap(v[a].sequence, v[b].sequence)
  {
    var f := LastForward(v, a, |v|);
    assert f == Some(b);
  }

  /** A segment's backward match is the first member of the last accepted pair
      that has it as second member, with that pair's overlap. */
  lemma BackwardMatchIsLastAccepted(v: seq<SegmentValue>, a: nat, b: nat)
    requires a < |v| && b < |v| && Accepted(v, a, b)
    requires forall c :: a < c < |v| ==> !Accepted(v, c, b)
    ensures BuildLinks(v)[b].backwardMatch == Some(v[a].name)
    ensures BuildLinks(v)[b].backwardMatchOverlap == Overlap(v[a].sequence, v[b].sequence)
  {
    var r := LastBackward(v, b, |v|);
    assert r == Some(a);
  }

  /** A segment that is the first member of no accepted pair keeps its forward
      link, and one that is the second member of none keeps its backward link. */
  lemma LinksKeptWithoutPartner(v: seq<SegmentValue>, a: nat)
    requires a < |v|
    ensures (forall b :: 0 <= b < |v| ==> !Accepted(v, a, b)) ==>
      BuildLinks(v)[a].forwardMatch == v[a].forwardMatch &&
      BuildLinks(v)[a].forwardMatchOverlap == v[a].forwardMatchOverlap
    ensures (forall b :: 0 <= b < |v| ==> !Accepted(v, b, a)) ==>
      BuildLinks(v)[a].backwardMatch == v[a].backwardMatch &&
      BuildLinks(v)[a].backwardMatchOverlap == v[a].backwardMatchOverlap
  {
    var f, r := LastForward(v, a, |v|), LastBackward(v, a, |v|);
    if f.Some? {
      assert Accepted(v, a, f.value);
    }
    if r.Some? {
      assert Accepted(v, r.value, a);
    }
  }

  /** With distinct names, no link the builder writes names the segment itself. */
  lemma NeverLinkedToItself(v: seq<SegmentValue>, a: nat)
    requires a < |v| && DistinctNames(v)
    requires v[a].forwardMatch != Some(v[a].name) && v[a].backwardMatch != Some(v[a].name)
    ensures BuildLinks(v)[a].forwardMatch != Some(v[a].name)
    ensures BuildLinks(v)[a].backwardMatch != Some(v[a].name)
  {
  }

  /** Two collections with the same names and sequences accept the same pairs,
      so they agree on every last accepted partner. */
  lemma SameSegmentsSamePartners(v: seq<SegmentValue>, w: seq<SegmentValue>, a: nat, hi: nat)
    requires |v| == |w| && a < |v| && hi <= |v|
    requires forall k :: 0 <= k < |v| ==> v[k].name == w[k].name && v[k].sequence == w[k].sequence
    ensures LastForward(v, a, hi) == LastForward(w, a, hi)
    ensures LastBackward(v, a, hi) == LastBackward(w, a, hi)
  {
    SameSegmentsSameForward(v, w, a, hi);
    SameSegmentsSameBackward(v, w, a, hi);
  }

  lemma {:induction false} SameSegmentsSameForward(v: seq<SegmentValue>, w: seq<SegmentValue>, a: nat, hi: nat)
    requires |v| == |w| && a < |v| && hi <= |v|
    requires forall k :: 0 <= k < |v| ==> v[k].name == w[k].name && v[k].sequence == w[k].sequence
    ensures LastForward(v, a, hi) == LastForward(w, a, hi)
  {
    if hi > 0 {
      SameSegmentsSameForward(v, w, a, hi - 1);
      var b := hi - 1;
      assert v[a].name == w[a].name && v[a].sequence == w[a].sequence;
      assert v[b].name == w[b].name && v[b].sequence == w[b].sequence;
      assert Accepted(v, a, b) == Accepted(w, a, b);
    }
  }

  lemma {:induction false} SameSegmentsSameBackward(v: seq<SegmentValue>, w: seq<SegmentValue>, b: nat, hi: nat)
    requires |v| == |w| && b < |v| && hi <= |v|
    requires forall k :: 0 <= k < |v| ==> v[k].name == w[k].name && v[k].sequence == w[k].sequence
    ensures LastBackward(v, b, hi) == LastBackward(w, b, hi)
  {
    if hi > 0 {
      SameSegmentsSameBackward(v, w, b, hi - 1);
      var a := hi - 1;
      assert v[a].name == w[a].name && v[a].sequence == w[a].sequence;
      assert v[b].name == w[b].name && v[b].sequence == w[b].sequence;
      assert Accepted(v, a, b) == Accepted(w, a, b);
    }
  }

  /** Building the links a second time over unchanged segments changes nothing. */
  lemma BuildLinksIdempotent(v: seq<SegmentValue>)
    ensures BuildLinks(BuildLinks(v)) == BuildLinks(v)
  {
    var w := BuildLinks(v);
    forall a | 0 <= a < |v|
      ensures BuildLinks(w)[a] == w[a]
    {
      SameSegmentsSamePartners(v, w, a, |v|);
    }
  }

  /** With distinct names, a name picks out one segment. */
  lemma NameDeterminesIndex(v: seq<SegmentValue>, p: nat, q: nat)
    requires p < |v| && q < |v| && DistinctNames(v) && v[p].name == v[q].name
    ensures p == q
  {
  }

  /** Starting from unlinked segments with distinct names, when X's forward match
      is Y and Y's backward match is X, both record the same overlap: the
      overlap of X's sequence onto Y's. */
  lemma LinkedPairAgrees(v: seq<SegmentValue>, x: nat, y: nat)
    requires x < |v| && y < |v| && DistinctNames(v)
    requires forall k :: 0 <= k < |v| ==> v[k].forwardMatch.None? && v[k].backwardMatch.None?
    requires BuildLinks(v)[x].forwardMatch == Some(v[y].name)
    requires BuildLinks(v)[y].backwardMatch == Some(v[x].name)
    ensures BuildLinks(v)[x].forwardMatchOverlap == BuildLinks(v)[y].backwardMatchOverlap
    ensures BuildLinks(v)[x].forwardMatchOverlap == Overlap(v[x].sequence, v[y].sequence)
  {
    var f, r := LastForward(v, x, |v|), LastBackward(v, y, |v|);
    assert f.Some? && v[f.value].name == v[y].name;
    assert r.Some? && v[r.value].name == v[x].name;
    NameDeterminesIndex(v, f.value, y);
    NameDeterminesIndex(v, r.value, x);
  }
}
