/** The chain assembler: find the first segment without a backward match, then
    follow forward matches, appending to the output each segment's sequence
    without its first backwardMatchOverlap characters. That count is the overlap
    with the segment's backward match, which after an overwrite need not be the
    segment it was reached from. */
module Chain {
  import opened Wrappers
  import opened Kmp
  import opened Segments
  import opened Links

  /** The only failure the assembler reports. */
  datatype Error = NoHeaderFound

  // ---------------------------------------------------------------------------
  // Finding segments
  // ---------------------------------------------------------------------------

  /** The first segment at or after `from`, in iteration order, that has no
      backward match. */
  function FirstHeaderFrom(v: seq<SegmentValue>, from: nat): (h: Option<nat>)
    requires from <= |v|
    ensures h.None? ==> forall k :: from <= k < |v| ==> v[k].backwardMatch.Some?
    ensures h.Some? ==> from <= h.value < |v| && v[h.value].backwardMatch.None?
    ensures h.Some? ==> forall k :: from <= k < h.value ==> v[k].backwardMatch.Some?
    decreases |v| - from
  {
    if from == |v| then None
    else if v[from].backwardMatch.None? then Some(from)
    else FirstHeaderFrom(v, from + 1)
  }

  /** The header: the first segment, in iteration order, with no backward match. */
  function FirstHeader(v: seq<SegmentValue>): (h: Option<nat>)
    ensures h.None? ==> forall k :: 0 <= k < |v| ==> v[k].backwardMatch.Some?
    ensures h.Some? ==> h.value < |v| && v[h.value].backwardMatch.None?
    ensures h.Some? ==> forall k :: 0 <= k < h.value ==> v[k].backwardMatch.Some?
  {
    FirstHeaderFrom(v, 0)
  }

  /** The position of the segment with the given name (a map lookup). */
  function IndexOf(v: seq<SegmentValue>, name: string, from: nat): (r: Option<nat>)
    requires from <= |v|
    ensures r.None? ==> forall k :: from <= k < |v| ==> v[k].name != name
    ensures r.Some? ==> from <= r.value < |v| && v[r.value].name == name
    decreases |v| - from
  {
    if from == |v| then None
    else if v[from].name == name then Some(from)
    else IndexOf(v, name, from + 1)
  }

  /** Every forward match names a segment of the collection, and every backward
      overlap is a valid position in its segment's sequence, so following a link
      and cutting a sequence at its backward overlap are both defined. */
  predicate LinksResolve(v: seq<SegmentValue>)
  {
    forall a :: 0 <= a < |v| ==>
      (v[a].forwardMatch.Some? ==> NameIn(v, v[a].forwardMatch.value)) &&
      0 <= v[a].backwardMatchOverlap <= |v[a].sequence|
  }

  /** Some segment of the collection has the given name. */
  predicate NameIn(v: seq<SegmentValue>, name: string)
  {
    exists b :: 0 <= b < |v| && v[b].name == name
  }

  /** The segment that a's forward match names, if it has one. */
  function Successor(v: seq<SegmentValue>, a: nat): (r: Option<nat>)
    requires a < |v| && LinksResolve(v)
    ensures r.Some? <==> v[a].forwardMatch.Some?
    ensures r.Some? ==> r.value < |v| && Some(v[r.value].name) == v[a].forwardMatch
  {
    if v[a].forwardMatch.None? then None else IndexOf(v, v[a].forwardMatch.value, 0)
  }

  // ---------------------------------------------------------------------------
  // The assembled sequence
  // ---------------------------------------------------------------------------

  /** Following forward matches from a reaches a segment without one within
      `fuel` steps. */
  predicate EndsWithin(v: seq<SegmentValue>, a: nat, fuel: nat)
    requires a < |v| && LinksResolve(v)
    decreases fuel
  {
    var next := Successor(v, a);
    next.None? || (fuel > 0 && EndsWithin(v, next.value, fuel - 1))
  }

  /** The segments visited after a, in order, when following forward matches. */
  function Walk(v: seq<SegmentValue>, a: nat, fuel: nat): (ks: seq<nat>)
    requires a < |v| && LinksResolve(v) && EndsWithin(v, a, fuel)
    ensures forall k :: 0 <= k < |ks| ==> ks[k] < |v|
    ensures |ks| <= fuel
    ensures ks == [] <==> Successor(v, a).None?
    ensures ks != [] ==> Successor(v, a) == Some(ks[0])
    decreases fuel
  {
    var next := Successor(v, a);
    if next.None? then [] else [next.value] + Walk(v, next.value, fuel - 1)
  }

  /** The part of segment k's sequence after its first backwardMatchOverlap
      characters: the overlap recorded with its backward match, which need not
      be the segment the walk came from. */
  function Piece(v: seq<SegmentValue>, k: nat): (p: string)
    requires k < |v| && LinksResolve(v)
    ensures |p| == |v[k].sequence| - v[k].backwardMatchOverlap
    ensures v[k].sequence == v[k].sequence[..v[k].backwardMatchOverlap] + p
  {
    v[k].sequence[v[k].backwardMatchOverlap..]
  }

  /** The pieces of the given segments, concatenated in order. */
  function Pieces(v: seq<SegmentValue>, ks: seq<nat>): string
    requires LinksResolve(v) && forall k :: 0 <= k < |ks| ==> ks[k] < |v|
  {
    if ks == [] then "" else Piece(v, ks[0]) + Pieces(v, ks[1..])
  }

  /** The walk from the header, if there is one, ends (it has no cycle: a walk
      that ends at all ends within |v| steps). */
  predicate HeaderChainEnds(v: seq<SegmentValue>)
    requires LinksResolve(v)
  {
    var h := FirstHeader(v);
    h.Some? ==> EndsWithin(v, h.value, |v|)
  }

  /** What merging the sequences yields: the header's whole sequence followed by
      the piece of every segment reached from it, or NoHeaderFound when every
      segment has a backward match. */
  function Assemble(v: seq<SegmentValue>): (r: Result<string, Error>)
    requires LinksResolve(v) && HeaderChainEnds(v)
    ensures r.Failure? <==> FirstHeader(v).None?
    ensures r.Failure? ==> r.error == NoHeaderFound
    ensures r.Success? ==> var h := FirstHeader(v).value;
      |v[h].sequence| <= |r.value| && r.value[..|v[h].sequence|] == v[h].sequence
  {
    match FirstHeader(v)
    case None => Failure(NoHeaderFound)
    case Some(h) => Success(v[h].sequence + Pieces(v, Walk(v, h, |v|)))
  }

  // ---------------------------------------------------------------------------
  // The operations
  // ---------------------------------------------------------------------------

  /** Scans the segments in iteration order and returns the first one without a
      backward match, or fails with NoHeaderFound. */
  method GetHeader(dna: seq<Segment>) returns (r: Result<Segment, Error>)
    ensures FirstHeader(View(dna)).None? ==> r == Failure(NoHeaderFound)
    ensures FirstHeader(View(dna)).Some? ==> r == Success(dna[FirstHeader(View(dna)).value])
  {
    ghost var v := View(dna);
    var k := 0;
    while k < |dna|
      invariant 0 <= k <= |dna|
      invariant FirstHeader(v) == FirstHeaderFrom(v, k)
    {
      var seg := dna[k];
      if seg.backwardMatch.None? {
        return Success(seg);
      }
      k := k + 1;
    }
    return Failure(NoHeaderFound);
  }

  /** Merges the segments into one sequence: starts from the header's sequence
      and, while the current segment has a forward match, moves to that segment
      and appends its sequence without the first backwardMatchOverlap
      characters. */
  method MergeSequences(dna: seq<Segment>) returns (r: Result<string, Error>)
    requires LinksResolve(View(dna)) && HeaderChainEnds(View(dna))
    ensures r == Assemble(View(dna))
  {
    ghost var v := View(dna);
    var header := GetHeader(dna);
    if header.Failure? {
      return Failure(header.error);
    }
    ghost var h: nat := FirstHeader(v).value;
    ghost var target := v[h].sequence + Pieces(v, Walk(v, h, |v|));
    var cur := header.value;
    var out := cur.sequence;
    ghost var k: nat, fuel: nat := h, |v|;
    while cur.forwardMatch.Some?
      invariant v == View(dna) && k < |v| && cur == dna[k] && EndsWithin(v, k, fuel)
      invariant out + Pieces(v, Walk(v, k, fuel)) == target
      decreases fuel
    {
      var next := IndexOf(View(dna), cur.forwardMatch.value, 0);
      assert next == Successor(v, k);
      MergeStep(v, k, fuel, out, target);
      cur := dna[next.value];
      k := next.value;
      assert cur.sequence[cur.backwardMatchOverlap..] == Piece(v, k);
      out := out + cur.sequence[cur.backwardMatchOverlap..];
      fuel := fuel - 1;
    }
    assert Walk(v, k, fuel) == [] && Pieces(v, []) == "";
    assert out + "" == out;
    return Success(out);
  }

  /** One step of the merge loop: moving from segment k to its successor n and
      appending n's piece keeps the text plus the pieces still to come equal to
      the target. */
  lemma MergeStep(v: seq<SegmentValue>, k: nat, fuel: nat, out: string, target: string)
    requires k < |v| && LinksResolve(v) && EndsWithin(v, k, fuel) && Successor(v, k).Some?
    requires out + Pieces(v, Walk(v, k, fuel)) == target
    ensures var n := Successor(v, k).value;
      fuel > 0 && EndsWithin(v, n, fuel - 1) &&
      (out + Piece(v, n)) + Pieces(v, Walk(v, n, fuel - 1)) == target
  {
    var n := Successor(v, k).value;
    WalkStep(v, k, fuel);
    var piece, rest := Piece(v, n), Pieces(v, Walk(v, n, fuel - 1));
    assert out + (piece + rest) == (out + piece) + rest;
  }

  // ---------------------------------------------------------------------------
  // Properties of the assembled sequence
  // ---------------------------------------------------------------------------

  /** The number of characters the given segments contribute: each its whole
      length less its backward overlap. */
  function PiecesLength(v: seq<SegmentValue>, ks: seq<nat>): int
    requires forall k :: 0 <= k < |ks| ==> ks[k] < |v|
  {
    if ks == [] then 0
    else |v[ks[0]].sequence| - v[ks[0]].backwardMatchOverlap + PiecesLength(v, ks[1..])
  }

  lemma {:induction false} PiecesHaveLength(v: seq<SegmentValue>, ks: seq<nat>)
    requires LinksResolve(v) && forall k :: 0 <= k < |ks| ==> ks[k] < |v|
    ensures |Pieces(v, ks)| == PiecesLength(v, ks)
  {
    if ks != [] {
      PiecesHaveLength(v, ks[1..]);
    }
  }

  /** Assembly fails exactly when every segment has a backward match. */
  lemma AssembleFailsIffNoHeader(v: seq<SegmentValue>)
    requires LinksResolve(v) && HeaderChainEnds(v)
    ensures Assemble(v).Failure? <==> forall k :: 0 <= k < |v| ==> v[k].backwardMatch.Some?
    ensures Assemble(v).Failure? ==> Assemble(v).error == NoHeaderFound
  {
  }

  /** The assembled sequence starts with the header's whole sequence, and its
      length is the header's length plus, for every segment visited after the
      header, that segment's length less its backward overlap. */
  lemma AssembledShape(v: seq<SegmentValue>)
    requires LinksResolve(v) && HeaderChainEnds(v) && FirstHeader(v).Some?
    ensures var h := FirstHeader(v).value;
      Assemble(v).Success? &&
      |v[h].sequence| <= |Assemble(v).value| &&
      Assemble(v).value[..|v[h].sequence|] == v[h].sequence &&
      |Assemble(v).value| == |v[h].sequence| + PiecesLength(v, Walk(v, h, |v|))
  {
    var h := FirstHeader(v).value;
    PiecesHaveLength(v, Walk(v, h, |v|));
    var out := v[h].sequence + Pieces(v, Walk(v, h, |v|));
    assert out[..|v[h].sequence|] == v[h].sequence;
  }

  /** Linking preserves resolvable links: every forward match it writes is a
      segment's name, and every backward overlap it writes is at most the length
      of the segment it is written on. */
  lemma BuildLinksResolves(v: seq<SegmentValue>)
    requires LinksResolve(v)
    ensures LinksResolve(BuildLinks(v))
  {
    var w := BuildLinks(v);
    forall a | 0 <= a < |w|
      ensures (w[a].forwardMatch.Some? ==> NameIn(w, w[a].forwardMatch.value))
      ensures 0 <= w[a].backwardMatchOverlap <= |w[a].sequence|
    {
      var f, r := LastForward(v, a, |v|), LastBackward(v, a, |v|);
      if f.Some? {
        assert w[f.value].name == v[f.value].name;
      } else if v[a].forwardMatch.Some? {
        var b :| 0 <= b < |v| && v[b].name == v[a].forwardMatch.value;
        assert w[b].name == v[b].name;
      }
      if r.Some? {
        OverlapIsLongest(v[r.value].sequence, v[a].sequence);
      }
    }
  }

  /** The text s ends with the text t. */
  predicate EndsWith(s: string, t: string)
  {
    |t| <= |s| && s[|s| - |t|..] == t
  }

  /** Regrouping a concatenation does not change what it ends with. */
  lemma EndsWithRegrouped(out: string, piece: string, rest: string, t: string)
    requires EndsWith((out + piece) + rest, t)
    ensures EndsWith(out + (piece + rest), t)
  {
    assert (out + piece) + rest == out + (piece + rest);
  }

  /** Appending a segment's piece after text that ends with its predecessor's
      sequence yields text that ends with the segment's whole sequence, provided
      its backward overlap really is an overlap of the predecessor onto it. */
  lemma PieceCompletesSegment(v: seq<SegmentValue>, p: nat, k: nat, out: string)
    requires LinksResolve(v) && p < |v| && k < |v|
    requires IsOverlap(v[p].sequence, v[k].sequence, v[k].backwardMatchOverlap)
    requires EndsWith(out, v[p].sequence)
    ensures EndsWith(out + Piece(v, k), v[k].sequence)
  {
    var x, y, ov := v[p].sequence, v[k].sequence, v[k].backwardMatchOverlap;
    var next := out + Piece(v, k);
    assert out[|out| - ov..] == x[|x| - ov..] == y[..ov];
    assert next[|next| - |y|..] == out[|out| - ov..] + y[ov..];
    assert y == y[..ov] + y[ov..];
  }

  /** Every step of the walk from a joins a segment to the next one with a
      true overlap recorded as the next one's backward overlap. */
  predicate WalkOverlapsHold(v: seq<SegmentValue>, a: nat, fuel: nat)
    requires a < |v| && LinksResolve(v) && EndsWithin(v, a, fuel)
    decreases fuel
  {
    var next := Successor(v, a);
    next.Some? ==>
      IsOverlap(v[a].sequence, v[next.value].sequence, v[next.value].backwardMatchOverlap) &&
      WalkOverlapsHold(v, next.value, fuel - 1)
  }

  /** The segment where the walk from a stops. */
  function WalkEnd(v: seq<SegmentValue>, a: nat, fuel: nat): (e: nat)
    requires a < |v| && LinksResolve(v) && EndsWithin(v, a, fuel)
    ensures e < |v| && v[e].forwardMatch.None?
    decreases fuel
  {
    var next := Successor(v, a);
    if next.None? then a else WalkEnd(v, next.value, fuel - 1)
  }

  /** When every step of the walk joins true overlaps, the text built from
      a's sequence and the pieces of the walk ends with the whole sequence of
      the segment where the walk stops: no character of the last segment is
      lost. */
  lemma {:induction false} WalkEndsWithLastSegment(v: seq<SegmentValue>, a: nat, fuel: nat, out: string)
    requires a < |v| && LinksResolve(v) && EndsWithin(v, a, fuel) && WalkOverlapsHold(v, a, fuel)
    requires EndsWith(out, v[a].sequence)
    ensures EndsWith(out + Pieces(v, Walk(v, a, fuel)), v[WalkEnd(v, a, fuel)].sequence)
    decreases fuel
  {
    var next := Successor(v, a);
    if next.Some? {
      var n := next.value;
      WalkStep(v, a, fuel);
      PieceCompletesSegment(v, a, n, out);
      WalkEndsWithLastSegment(v, n, fuel - 1, out + Piece(v, n));
      EndsWithRegrouped(out, Piece(v, n), Pieces(v, Walk(v, n, fuel - 1)), v[WalkEnd(v, n, fuel - 1)].sequence);
    } else {
      assert Pieces(v, []) == "";
    }
  }

  /** The walk follows forward matches: each visited segment but the last is
      followed by its successor, and the last one has no forward match. */
  lemma {:induction false} WalkFollowsSuccessors(v: seq<SegmentValue>, a: nat, fuel: nat)
    requires a < |v| && LinksResolve(v) && EndsWithin(v, a, fuel)
    ensures var ks := Walk(v, a, fuel);
      (ks != [] ==> v[ks[|ks| - 1]].forwardMatch.None?) &&
      forall k :: 0 <= k < |ks| - 1 ==> Successor(v, ks[k]) == Some(ks[k + 1])
    decreases fuel
  {
    var next := Successor(v, a);
    if next.Some? {
      var n := next.value;
      var rest := Walk(v, n, fuel - 1);
      WalkFollowsSuccessors(v, n, fuel - 1);
      assert Walk(v, a, fuel) == [n] + rest;
      forall k | 0 <= k < |rest|
        ensures ([n] + rest)[k + 1] == rest[k]
      {
      }
    }
  }

  /** One step of the walk: from a segment with a successor n, the pieces are
      n's piece followed by the pieces of the walk from n, and that walk ends
      where the walk from a does. */
  lemma WalkStep(v: seq<SegmentValue>, a: nat, fuel: nat)
    requires a < |v| && LinksResolve(v) && EndsWithin(v, a, fuel) && Successor(v, a).Some?
    ensures var n := Successor(v, a).value;
      fuel > 0 && EndsWithin(v, n, fuel - 1) &&
      Pieces(v, Walk(v, a, fuel)) == Piece(v, n) + Pieces(v, Walk(v, n, fuel - 1)) &&
      WalkEnd(v, a, fuel) == WalkEnd(v, n, fuel - 1)
  {
    var n := Successor(v, a).value;
    assert Walk(v, a, fuel) == [n] + Walk(v, n, fuel - 1);
    assert ([n] + Walk(v, n, fuel - 1))[1..] == Walk(v, n, fuel - 1);
  }

  // ---------------------------------------------------------------------------
  // Reassembling a chain of fragments
  // ---------------------------------------------------------------------------

  /** Freshly parsed segments: no links and zero overlaps. */
  predicate AllUnlinked(v: seq<SegmentValue>)
  {
    forall k :: 0 <= k < |v| ==>
      v[k].forwardMatch.None? && v[k].backwardMatch.None? &&
      v[k].forwardMatchOverlap == 0 && v[k].backwardMatchOverlap == 0
  }

  /** c lists positions below n, none twice. */
  predicate DistinctPositions(c: seq<nat>, n: nat)
  {
    (forall i :: 0 <= i < |c| ==> c[i] < n) &&
    (forall i, j :: 0 <= i < j < |c| ==> c[i] != c[j])
  }

  /** c lists every position of a collection of n segments exactly once. */
  predicate IsListing(c: seq<nat>, n: nat)
  {
    |c| == n && DistinctPositions(c, n) && (forall k :: 0 <= k < n ==> k in c)
  }

  /** The accepted pairs are exactly the consecutive fragments of the listing c:
      each fragment overlaps the next one by more than the threshold, and no
      other pair does. */
  predicate OnlyConsecutiveAccepted(v: seq<SegmentValue>, c: seq<nat>)
    requires DistinctPositions(c, |v|)
  {
    (forall i {:trigger Accepted(v, c[i], c[i + 1])} :: 0 <= i < |c| - 1 ==> Accepted(v, c[i], c[i + 1])) &&
    (forall a, b :: 0 <= a < |v| && 0 <= b < |v| && Accepted(v, a, b) ==>
       exists i :: 0 <= i < |c| - 1 && a == c[i] && b == c[i + 1])
  }

  /** In a chain, an accepted pair whose first or second member is the i-th
      fragment is the pair of the i-th fragment with its successor, or of its
      predecessor with it. */
  lemma ChainPairAt(v: seq<SegmentValue>, c: seq<nat>, a: nat, b: nat, i: nat)
    requires DistinctPositions(c, |v|) && OnlyConsecutiveAccepted(v, c)
    requires a < |v| && b < |v| && Accepted(v, a, b) && i < |c|
    ensures a == c[i] ==> i < |c| - 1 && b == c[i + 1]
    ensures b == c[i] ==> i > 0 && a == c[i - 1]
  {
    var j :| 0 <= j < |c| - 1 && a == c[j] && b == c[j + 1];
    assert a == c[i] ==> j == i;
    assert b == c[i] ==> j + 1 == i;
  }

  /** In a chain, the last accepted partner of each fragment but the last is the
      next fragment, and the last fragment has none. */
  lemma ChainForward(v: seq<SegmentValue>, c: seq<nat>, i: nat)
    requires DistinctPositions(c, |v|) && OnlyConsecutiveAccepted(v, c) && i < |c|
    ensures LastForward(v, c[i], |v|) == if i < |c| - 1 then Some(c[i + 1]) else None
  {
    var f := LastForward(v, c[i], |v|);
    if i < |c| - 1 {
      assert Accepted(v, c[i], c[i + 1]);
      assert f.Some?;
    }
    if f.Some? {
      ChainPairAt(v, c, c[i], f.value, i);
    }
  }

  /** In a chain, the last accepted first member of a pair with each fragment
      but the first is the previous fragment, and the first fragment has none. */
  lemma ChainBackward(v: seq<SegmentValue>, c: seq<nat>, i: nat)
    requires DistinctPositions(c, |v|) && OnlyConsecutiveAccepted(v, c) && i < |c|
    ensures LastBackward(v, c[i], |v|) == if i > 0 then Some(c[i - 1]) else None
  {
    var r := LastBackward(v, c[i], |v|);
    if i > 0 {
      var p := i - 1;
      assert Accepted(v, c[p], c[p + 1]);
      assert r.Some?;
    }
    if r.Some? {
      ChainPairAt(v, c, r.value, c[i], i);
    }
  }

  /** In a chain, linking gives each fragment but the last its successor in the
      chain as forward match, and each fragment but the first its predecessor as
      backward match, with the overlap of the predecessor onto it. */
  lemma ChainLinksAt(v: seq<SegmentValue>, c: seq<nat>, i: nat)
    requires AllUnlinked(v) && DistinctPositions(c, |v|) && OnlyConsecutiveAccepted(v, c)
    requires i < |c|
    ensures var w := BuildLinks(v);
      (if i < |c| - 1 then w[c[i]].forwardMatch == Some(v[c[i + 1]].name)
       else w[c[i]].forwardMatch.None?) &&
      (if i > 0 then
         w[c[i]].backwardMatch == Some(v[c[i - 1]].name) &&
         w[c[i]].backwardMatchOverlap == Overlap(v[c[i - 1]].sequence, v[c[i]].sequence)
       else w[c[i]].backwardMatch.None?)
  {
    ChainForward(v, c, i);
    ChainBackward(v, c, i);
    assert BuildLinks(v)[c[i]] == RelinkAt(v, c[i], |v|, |v|);
  }

  /** In a linked chain, the successor of each fragment but the last is the
      next fragment of the chain, and the last has none. */
  lemma ChainSuccessor(v: seq<SegmentValue>, c: seq<nat>, i: nat)
    requires DistinctNames(v) && AllUnlinked(v) && DistinctPositions(c, |v|) && OnlyConsecutiveAccepted(v, c)
    requires i < |c|
    ensures LinksResolve(BuildLinks(v))
    ensures Successor(BuildLinks(v), c[i]) == if i < |c| - 1 then Some(c[i + 1]) else None
  {
    var w := BuildLinks(v);
    BuildLinksResolves(v);
    ChainLinksAt(v, c, i);
    if i < |c| - 1 {
      var n := Successor(w, c[i]).value;
      NameDeterminesIndex(v, n, c[i + 1]);
    }
  }

  /** Following forward matches leads from each element of c but the last to
      the next element, and from the last element nowhere. */
  predicate SuccessorChain(w: seq<SegmentValue>, c: seq<nat>)
    requires LinksResolve(w)
  {
    (forall j :: 0 <= j < |c| ==> c[j] < |w|) &&
    (forall j :: 0 <= j < |c| ==> SuccessorIs(w, c, j))
  }

  /** The j-th element of c is a position of w whose successor is the next
      element of c, or none for the last element. */
  predicate SuccessorIs(w: seq<SegmentValue>, c: seq<nat>, j: nat)
    requires LinksResolve(w) && j < |c|
  {
    c[j] < |w| && Successor(w, c[j]) == if j < |c| - 1 then Some(c[j + 1]) else None
  }

  /** When the successor of each element of c but the last is the next element,
      and the last has none, the walk from the i-th element visits the rest of c
      in order. */
  lemma {:induction false} SuccessorsWalk(w: seq<SegmentValue>, c: seq<nat>, i: nat, fuel: nat)
    requires LinksResolve(w) && SuccessorChain(w, c)
    requires i < |c| && |c| - 1 - i <= fuel
    ensures EndsWithin(w, c[i], fuel) && Walk(w, c[i], fuel) == c[i + 1..]
    decreases |c| - i
  {
    assert SuccessorIs(w, c, i);
    if i < |c| - 1 {
      SuccessorsWalk(w, c, i + 1, fuel - 1);
      assert c[i + 1..] == [c[i + 1]] + c[i + 2..];
    }
  }

  /** In a linked chain, the first fragment of the chain is the header. */
  lemma ChainHeader(v: seq<SegmentValue>, c: seq<nat>)
    requires |v| > 0 && DistinctNames(v) && AllUnlinked(v)
    requires IsListing(c, |v|) && OnlyConsecutiveAccepted(v, c)
    ensures LinksResolve(BuildLinks(v)) && FirstHeader(BuildLinks(v)) == Some(c[0])
  {
    var w := BuildLinks(v);
    BuildLinksResolves(v);
    forall k | 0 <= k < |v| && k != c[0]
      ensures w[k].backwardMatch.Some?
    {
      ChainBackwardSet(v, c, k);
    }
    ChainLinksAt(v, c, 0);
    OnlyHeader(w, c[0]);
  }

  /** In a linked chain, every fragment but the first gets a backward match. */
  lemma ChainBackwardSet(v: seq<SegmentValue>, c: seq<nat>, k: nat)
    requires AllUnlinked(v) && IsListing(c, |v|) && OnlyConsecutiveAccepted(v, c)
    requires k < |v| && k != c[0]
    ensures BuildLinks(v)[k].backwardMatch.Some?
  {
    var i := ListingPosition(c, |v|, k);
    ChainLinksAt(v, c, i);
  }

  /** Where a listing has a given position. */
  lemma ListingPosition(c: seq<nat>, n: nat, k: nat) returns (i: nat)
    requires IsListing(c, n) && k < n
    ensures i < |c| && c[i] == k
  {
    assert k in c;
    i :| 0 <= i < |c| && c[i] == k;
  }

  /** A segment that is the only one without a backward match is the header. */
  lemma OnlyHeader(w: seq<SegmentValue>, h: nat)
    requires h < |w| && w[h].backwardMatch.None?
    requires forall k :: 0 <= k < |w| && k != h ==> w[k].backwardMatch.Some?
    ensures FirstHeader(w) == Some(h)
  {
  }

  /** A linked chain is a successor chain. */
  lemma ChainSuccessors(v: seq<SegmentValue>, c: seq<nat>)
    requires DistinctNames(v) && AllUnlinked(v) && DistinctPositions(c, |v|) && OnlyConsecutiveAccepted(v, c)
    ensures LinksResolve(BuildLinks(v)) && SuccessorChain(BuildLinks(v), c)
  {
    var w := BuildLinks(v);
    BuildLinksResolves(v);
    forall j | 0 <= j < |c|
      ensures SuccessorIs(w, c, j)
    {
      ChainSuccessor(v, c, j);
    }
  }

  /** When exactly the consecutive fragments of a listing c overlap by more than
      the threshold, linking freshly parsed fragments and merging them rebuilds
      the chain: the header is c[0], every fragment is visited in chain order,
      and each is cut at its overlap with its predecessor. */
  lemma ChainReassembles(v: seq<SegmentValue>, c: seq<nat>)
    requires |v| > 0 && DistinctNames(v) && AllUnlinked(v)
    requires IsListing(c, |v|) && OnlyConsecutiveAccepted(v, c)
    ensures var w := BuildLinks(v);
      LinksResolve(w) && HeaderChainEnds(w) && FirstHeader(w) == Some(c[0]) &&
      Assemble(w) == Success(v[c[0]].sequence + Pieces(w, c[1..]))
    ensures forall i :: 0 < i < |c| ==>
      BuildLinks(v)[c[i]].backwardMatchOverlap == Overlap(v[c[i - 1]].sequence, v[c[i]].sequence)
  {
    var w := BuildLinks(v);
    ChainHeader(v, c);
    ChainSuccessors(v, c);
    SuccessorsWalk(w, c, 0, |v|);
    assert Assemble(w) == Success(w[c[0]].sequence + Pieces(w, Walk(w, c[0], |w|)));
    ChainOverlaps(v, c);
  }

  /** In a linked chain, each fragment but the first records its overlap with
      its predecessor. */
  lemma ChainOverlaps(v: seq<SegmentValue>, c: seq<nat>)
    requires AllUnlinked(v) && DistinctPositions(c, |v|) && OnlyConsecutiveAccepted(v, c)
    ensures forall i :: 0 < i < |c| ==>
      BuildLinks(v)[c[i]].backwardMatchOverlap == Overlap(v[c[i - 1]].sequence, v[c[i]].sequence)
  {
    forall i | 0 < i < |c|
      ensures BuildLinks(v)[c[i]].backwardMatchOverlap == Overlap(v[c[i - 1]].sequence, v[c[i]].sequence)
    {
      ChainLinksAt(v, c, i);
    }
  }
}
