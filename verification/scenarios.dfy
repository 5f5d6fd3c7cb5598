/** Worked examples: concrete fragment sets taken through the link builder and
    the assembler. */
module Scenarios {
  import opened Wrappers
  import opened Kmp
  import opened Segments
  import opened Links
  import opened Chain

  /** A freshly parsed segment: no links, zero overlaps. */
  function Fresh(name: string, sequence: string): SegmentValue
  {
    SegmentValue(name, sequence, None, None, 0, 0)
  }

  /** The suffix TTA of AGATTA is the prefix of TTAGCC. */
  lemma OverlapExample()
    ensures Overlap("AGATTA", "TTAGCC") == 3
  {
    OverlapThreeOfSix("AGATTA", "TTAGCC");
  }

  /** Two six-character strings whose last three characters of the first start
      the second, and where no longer candidate fits at its first character. */
  lemma OverlapThreeOfSix(a: string, b: string)
    requires |a| == 6 && |b| == 6
    requires a[0] != b[0] && a[1] != b[0] && a[2] != b[0] && a[3..] == b[..3]
    ensures Overlap(a, b) == 3
  {
    MismatchRulesOut(a, b, 6, 0);
    MismatchRulesOut(a, b, 5, 0);
    MismatchRulesOut(a, b, 4, 0);
    OverlapUnique(a, b, 3);
  }

  // The pairwise overlaps of ATCGAA (s1), CGAACT (s2) and ACTGGG (s3).

  lemma OverlapS1S2()
    ensures Overlap("ATCGAA", "CGAACT") == 4
  {
    MismatchRulesOut("ATCGAA", "CGAACT", 6, 0);
    MismatchRulesOut("ATCGAA", "CGAACT", 5, 0);
    assert IsOverlap("ATCGAA", "CGAACT", 4);
  }

  lemma OverlapS1S3()
    ensures Overlap("ATCGAA", "ACTGGG") == 1
  {
    MismatchRulesOut("ATCGAA", "ACTGGG", 6, 1);
    MismatchRulesOut("ATCGAA", "ACTGGG", 5, 0);
    MismatchRulesOut("ATCGAA", "ACTGGG", 4, 0);
    MismatchRulesOut("ATCGAA", "ACTGGG", 3, 0);
    MismatchRulesOut("ATCGAA", "ACTGGG", 2, 1);
    assert IsOverlap("ATCGAA", "ACTGGG", 1);
  }

  lemma OverlapS2S1()
    ensures Overlap("CGAACT", "ATCGAA") == 0
  {
    MismatchRulesOut("CGAACT", "ATCGAA", 6, 0);
    MismatchRulesOut("CGAACT", "ATCGAA", 5, 0);
    MismatchRulesOut("CGAACT", "ATCGAA", 4, 1);
    MismatchRulesOut("CGAACT", "ATCGAA", 3, 1);
    MismatchRulesOut("CGAACT", "ATCGAA", 2, 0);
    MismatchRulesOut("CGAACT", "ATCGAA", 1, 0);
  }

  lemma OverlapS2S3()
    ensures Overlap("CGAACT", "ACTGGG") == 3
  {
    MismatchRulesOut("CGAACT", "ACTGGG", 6, 0);
    MismatchRulesOut("CGAACT", "ACTGGG", 5, 0);
    MismatchRulesOut("CGAACT", "ACTGGG", 4, 1);
    assert IsOverlap("CGAACT", "ACTGGG", 3);
  }

  lemma OverlapS3S1()
    ensures Overlap("ACTGGG", "ATCGAA") == 0
  {
    MismatchRulesOut("ACTGGG", "ATCGAA", 6, 1);
    MismatchRulesOut("ACTGGG", "ATCGAA", 5, 0);
    MismatchRulesOut("ACTGGG", "ATCGAA", 4, 0);
    MismatchRulesOut("ACTGGG", "ATCGAA", 3, 0);
    MismatchRulesOut("ACTGGG", "ATCGAA", 2, 0);
    MismatchRulesOut("ACTGGG", "ATCGAA", 1, 0);
  }

  lemma OverlapS3S2()
    ensures Overlap("ACTGGG", "CGAACT") == 0
  {
    MismatchRulesOut("ACTGGG", "CGAACT", 6, 0);
    MismatchRulesOut("ACTGGG", "CGAACT", 5, 1);
    MismatchRulesOut("ACTGGG", "CGAACT", 4, 0);
    MismatchRulesOut("ACTGGG", "CGAACT", 3, 0);
    MismatchRulesOut("ACTGGG", "CGAACT", 2, 0);
    MismatchRulesOut("ACTGGG", "CGAACT", 1, 0);
  }

  /** Three freshly parsed fragments, in iteration order. */
  function ThreeFragments(): seq<SegmentValue>
  {
    [Fresh("s1", "ATCGAA"), Fresh("s2", "CGAACT"), Fresh("s3", "ACTGGG")]
  }

  /** Of the six ordered pairs only (s1, s2) is accepted: ATCGAA overlaps CGAACT
      by 4, more than half of 6, while CGAACT overlaps ACTGGG by exactly 3,
      which is not more than half of 6. */
  lemma ThreeFragmentPairs()
    ensures var v := ThreeFragments();
      Accepted(v, 0, 1) && !Accepted(v, 1, 2) &&
      !Accepted(v, 0, 2) && !Accepted(v, 1, 0) && !Accepted(v, 2, 0) && !Accepted(v, 2, 1)
  {
    OverlapS1S2(); OverlapS1S3(); OverlapS2S1(); OverlapS2S3(); OverlapS3S1(); OverlapS3S2();
  }

  /** The last partners among three segments, unrolled. */
  lemma PartnersOfThree(v: seq<SegmentValue>, a: nat)
    requires |v| == 3 && a < 3
    ensures LastForward(v, a, 3) ==
      if Accepted(v, a, 2) then Some(2) else if Accepted(v, a, 1) then Some(1)
      else if Accepted(v, a, 0) then Some(0) else None
    ensures LastBackward(v, a, 3) ==
      if Accepted(v, 2, a) then Some(2) else if Accepted(v, 1, a) then Some(1)
      else if Accepted(v, 0, a) then Some(0) else None
  {
    ForwardOfThree(v, a);
    BackwardOfThree(v, a);
  }

  lemma ForwardOfThree(v: seq<SegmentValue>, a: nat)
    requires |v| == 3 && a < 3
    ensures LastForward(v, a, 3) ==
      if Accepted(v, a, 2) then Some(2) else if Accepted(v, a, 1) then Some(1)
      else if Accepted(v, a, 0) then Some(0) else None
  {
    var f0 := LastForward(v, a, 0);
    var f1 := LastForward(v, a, 1);
    var f2 := LastForward(v, a, 2);
    assert f0 == None;
    assert f1 == if Accepted(v, a, 0) then Some(0) else f0;
    assert f2 == if Accepted(v, a, 1) then Some(1) else f1;
    assert LastForward(v, a, 3) == if Accepted(v, a, 2) then Some(2) else f2;
  }

  lemma BackwardOfThree(v: seq<SegmentValue>, b: nat)
    requires |v| == 3 && b < 3
    ensures LastBackward(v, b, 3) ==
      if Accepted(v, 2, b) then Some(2) else if Accepted(v, 1, b) then Some(1)
      else if Accepted(v, 0, b) then Some(0) else None
  {
    var r0 := LastBackward(v, b, 0);
    var r1 := LastBackward(v, b, 1);
    var r2 := LastBackward(v, b, 2);
    assert r0 == None;
    assert r1 == if Accepted(v, 0, b) then Some(0) else r0;
    assert r2 == if Accepted(v, 1, b) then Some(1) else r1;
    assert LastBackward(v, b, 3) == if Accepted(v, 2, b) then Some(2) else r2;
  }

  /** The last accepted partner of each of the three fragments, in each
      direction: only s1 has a forward partner (s2) and only s2 a backward
      one (s1). */
  lemma ThreeFragmentPartners()
    ensures var v := ThreeFragments();
      LastForward(v, 0, 3) == Some(1) && LastForward(v, 1, 3) == None &&
      LastForward(v, 2, 3) == None && LastBackward(v, 0, 3) == None &&
      LastBackward(v, 1, 3) == Some(0) && LastBackward(v, 2, 3) == None
  {
    var v := ThreeFragments();
    ThreeFragmentPairs();
    PartnersOfThree(v, 0);
    PartnersOfThree(v, 1);
    PartnersOfThree(v, 2);
  }

  /** Building the links sets only s1's forward match and s2's backward match. */
  lemma ThreeFragmentLinks()
    ensures BuildLinks(ThreeFragments()) == ThreeFragmentsLinked()
  {
    var v, w := ThreeFragments(), ThreeFragmentsLinked();
    forall k | 0 <= k < 3
      ensures BuildLinks(v)[k] == w[k]
    {
      ThreeFragmentLinkAt(k);
    }
  }

  /** One fragment of the three once linked. */
  lemma ThreeFragmentLinkAt(k: nat)
    requires k < 3
    ensures BuildLinks(ThreeFragments())[k] == ThreeFragmentsLinked()[k]
  {
    var v := ThreeFragments();
    ThreeFragmentPartners();
    OverlapS1S2();
    assert BuildLinks(v)[k] == RelinkAt(v, k, 3, 3);
  }

  /** The three fragments once linked. */
  function ThreeFragmentsLinked(): seq<SegmentValue>
  {
    [SegmentValue("s1", "ATCGAA", Some("s2"), None, 4, 0),
     SegmentValue("s2", "CGAACT", None, Some("s1"), 0, 4),
     Fresh("s3", "ACTGGG")]
  }

  /** The linked fragments form the chain s1 -> s2, which yields ATCGAA followed
      by the last two characters of CGAACT. */
  lemma LinkedThreeAssembles()
    ensures var w := ThreeFragmentsLinked();
      LinksResolve(w) && HeaderChainEnds(w) && Assemble(w) == Success("ATCGAACT")
  {
    var w := ThreeFragmentsLinked();
    assert NameIn(w, "s2") by {
      assert w[1].name == "s2";
    }
    assert LinksResolve(w);
    assert FirstHeader(w) == Some(0);
    assert Successor(w, 0) == Some(1);
    assert Successor(w, 1) == None;
    assert Walk(w, 0, 3) == [1];
    assert Pieces(w, [1]) == "CT";
    assert Assemble(w) == Success(w[0].sequence + Pieces(w, Walk(w, 0, |w|)));
    assert w[0].sequence + "CT" == "ATCGAACT";
  }

  /** ATCGAA, CGAACT and ACTGGG, in that iteration order, assemble to ATCGAACT:
      ACTGGG is never linked and is left out of the result. */
  lemma ThreeFragmentAssembly()
    ensures var w := BuildLinks(ThreeFragments());
      LinksResolve(w) && HeaderChainEnds(w) && Assemble(w) == Success("ATCGAACT")
  {
    ThreeFragmentLinks();
    LinkedThreeAssembles();
  }

  /** Two differently named fragments with the same sequence, in iteration
      order. */
  function Twins(n1: string, n2: string, s: string): seq<SegmentValue>
  {
    [Fresh(n1, s), Fresh(n2, s)]
  }

  /** The twins once linked: each is the other's forward and backward match,
      with the whole sequence as overlap. */
  function TwinsLinked(n1: string, n2: string, s: string): seq<SegmentValue>
  {
    [SegmentValue(n1, s, Some(n2), Some(n2), |s|, |s|),
     SegmentValue(n2, s, Some(n1), Some(n1), |s|, |s|)]
  }

  /** Each twin overlaps the other completely, which is more than half of its
      length, so each is the other's last accepted partner in both directions. */
  lemma TwinPartners(n1: string, n2: string, s: string)
    requires n1 != n2 && |s| >= 1
    ensures var v := Twins(n1, n2, s);
      LastForward(v, 0, 2) == Some(1) && LastForward(v, 1, 2) == Some(0) &&
      LastBackward(v, 0, 2) == Some(1) && LastBackward(v, 1, 2) == Some(0)
  {
    var v := Twins(n1, n2, s);
    OverlapSelf(s);
    assert Accepted(v, 0, 1) && Accepted(v, 1, 0);
  }

  /** Each twin becomes the other's forward and backward match. */
  lemma TwinLinks(n1: string, n2: string, s: string)
    requires n1 != n2 && |s| >= 1
    ensures BuildLinks(Twins(n1, n2, s)) == TwinsLinked(n1, n2, s)
  {
    var v, w := Twins(n1, n2, s), TwinsLinked(n1, n2, s);
    TwinPartners(n1, n2, s);
    OverlapSelf(s);
    assert BuildLinks(v)[0] == w[0];
    assert BuildLinks(v)[1] == w[1];
  }

  /** Linked twins both have backward matches, so assembly finds no header. */
  lemma LinkedTwinsFail(n1: string, n2: string, s: string)
    requires n1 != n2
    ensures var w := TwinsLinked(n1, n2, s);
      LinksResolve(w) && HeaderChainEnds(w) && Assemble(w) == Failure(NoHeaderFound)
  {
    var w := TwinsLinked(n1, n2, s);
    assert NameIn(w, n1) && NameIn(w, n2) by {
      assert w[0].name == n1 && w[1].name == n2;
    }
    assert FirstHeader(w) == None;
  }

  /** Two differently named fragments with the same non-empty sequence give each
      other backward matches, so no header exists and assembly fails. */
  lemma TwinsHaveNoHeader(n1: string, n2: string, s: string)
    requires n1 != n2 && |s| >= 1
    ensures var w := BuildLinks(Twins(n1, n2, s));
      LinksResolve(w) && HeaderChainEnds(w) && Assemble(w) == Failure(NoHeaderFound)
  {
    TwinLinks(n1, n2, s);
    LinkedTwinsFail(n1, n2, s);
  }

  // An overwritten backward match: TACG (x), GACGT (z) and ACGT (y), in that
  // iteration order. Both x and z overlap y by more than half, and z's pair
  // comes later, so y's backward overlap is z's although y is reached from x.

  lemma OverlapXZ()
    ensures Overlap("TACG", "GACGT") == 1
  {
    MismatchRulesOut("TACG", "GACGT", 4, 0);
    MismatchRulesOut("TACG", "GACGT", 3, 0);
    MismatchRulesOut("TACG", "GACGT", 2, 0);
    assert IsOverlap("TACG", "GACGT", 1);
  }

  lemma OverlapXY()
    ensures Overlap("TACG", "ACGT") == 3
  {
    MismatchRulesOut("TACG", "ACGT", 4, 0);
    assert IsOverlap("TACG", "ACGT", 3);
  }

  lemma OverlapZX()
    ensures Overlap("GACGT", "TACG") == 1
  {
    MismatchRulesOut("GACGT", "TACG", 4, 0);
    MismatchRulesOut("GACGT", "TACG", 3, 0);
    MismatchRulesOut("GACGT", "TACG", 2, 0);
    assert IsOverlap("GACGT", "TACG", 1);
  }

  lemma OverlapZY()
    ensures Overlap("GACGT", "ACGT") == 4
  {
    assert IsOverlap("GACGT", "ACGT", 4);
  }

  lemma OverlapYX()
    ensures Overlap("ACGT", "TACG") == 1
  {
    MismatchRulesOut("ACGT", "TACG", 4, 0);
    MismatchRulesOut("ACGT", "TACG", 3, 0);
    MismatchRulesOut("ACGT", "TACG", 2, 0);
    assert IsOverlap("ACGT", "TACG", 1);
  }

  lemma OverlapYZ()
    ensures Overlap("ACGT", "GACGT") == 0
  {
    MismatchRulesOut("ACGT", "GACGT", 4, 0);
    MismatchRulesOut("ACGT", "GACGT", 3, 0);
    MismatchRulesOut("ACGT", "GACGT", 2, 1);
    MismatchRulesOut("ACGT", "GACGT", 1, 0);
  }

  /** x, z and y freshly parsed, in iteration order. */
  function OverwriteFragments(): seq<SegmentValue>
  {
    [Fresh("x", "TACG"), Fresh("z", "GACGT"), Fresh("y", "ACGT")]
  }

  /** Only (x, y), overlapping by 3, and (z, y), overlapping by 4, are accepted. */
  lemma OverwritePairs()
    ensures var v := OverwriteFragments();
      Accepted(v, 0, 2) && Accepted(v, 1, 2) &&
      !Accepted(v, 0, 1) && !Accepted(v, 1, 0) && !Accepted(v, 2, 0) && !Accepted(v, 2, 1)
  {
    OverlapXZ(); OverlapXY(); OverlapZX(); OverlapZY(); OverlapYX(); OverlapYZ();
  }

  /** x and z both have y as last forward partner; y's last backward partner is
      z, the later of the two. */
  lemma OverwritePartners()
    ensures var v := OverwriteFragments();
      LastForward(v, 0, 3) == Some(2) && LastForward(v, 1, 3) == Some(2) &&
      LastForward(v, 2, 3) == None && LastBackward(v, 0, 3) == None &&
      LastBackward(v, 1, 3) == None && LastBackward(v, 2, 3) == Some(1)
  {
    var v := OverwriteFragments();
    OverwritePairs();
    PartnersOfThree(v, 0);
    PartnersOfThree(v, 1);
    PartnersOfThree(v, 2);
  }

  /** x, z and y once linked: y's backward match is z, with z's overlap 4. */
  function OverwriteLinked(): seq<SegmentValue>
  {
    [SegmentValue("x", "TACG", Some("y"), None, 3, 0),
     SegmentValue("z", "GACGT", Some("y"), None, 4, 0),
     SegmentValue("y", "ACGT", None, Some("z"), 0, 4)]
  }

  /** One fragment of x, z and y once linked. */
  lemma OverwriteLinkAt(k: nat)
    requires k < 3
    ensures BuildLinks(OverwriteFragments())[k] == OverwriteLinked()[k]
  {
    var v := OverwriteFragments();
    OverwritePartners();
    assert BuildLinks(v)[k] == RelinkAt(v, k, 3, 3);
    if k == 0 {
      OverlapXY();
    } else if k == 1 {
      OverlapZY();
    } else {
      OverlapZY();
    }
  }

  /** Building the links of x, z and y overwrites y's backward match. */
  lemma OverwriteLinks()
    ensures BuildLinks(OverwriteFragments()) == OverwriteLinked()
  {
    var v, w := OverwriteFragments(), OverwriteLinked();
    forall k | 0 <= k < 3
      ensures BuildLinks(v)[k] == w[k]
    {
      OverwriteLinkAt(k);
    }
  }

  /** The linked x, z and y assemble to TACG: the walk goes from the header x
      to y, whose piece is empty because its backward overlap is z's 4. */
  lemma LinkedOverwriteAssembles()
    ensures var w := OverwriteLinked();
      LinksResolve(w) && HeaderChainEnds(w) && Assemble(w) == Success("TACG")
  {
    var w := OverwriteLinked();
    assert NameIn(w, "y") by {
      assert w[2].name == "y";
    }
    assert LinksResolve(w);
    assert FirstHeader(w) == Some(0);
    assert Successor(w, 0) == Some(2);
    assert Successor(w, 2) == None;
    assert Walk(w, 0, 3) == [2];
    assert Pieces(w, [2]) == "";
    assert Assemble(w) == Success(w[0].sequence + Pieces(w, Walk(w, 0, |w|)));
    assert w[0].sequence + "" == "TACG";
  }

  /** After an overwrite the assembled text can lose characters: y is reached
      from x, which overlaps it by 3, but is cut at z's overlap 4, so the result
      TACG does not end with y's sequence ACGT. */
  lemma OverwriteLosesCharacter()
    ensures var w := BuildLinks(OverwriteFragments());
      LinksResolve(w) && HeaderChainEnds(w) && Assemble(w) == Success("TACG") &&
      w[2].backwardMatchOverlap == 4 && Overlap(w[0].sequence, w[2].sequence) == 3 &&
      !EndsWith("TACG", w[2].sequence)
  {
    OverwriteLinks();
    LinkedOverwriteAssembles();
    OverlapXY();
    assert "TACG"[0] != "ACGT"[0];
  }
}
