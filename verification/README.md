# DNA fragment assembler, modelled in Dafny

This project models the core of a small DNA-fragment assembler. The original program is one Java class, `DriverChallenge`. It reads named fragments ("segments") and compares every ordered pair of them. The comparison uses a Knuth-Morris-Pratt variant that measures how far the end of one sequence runs into the start of the other. A pair whose overlap is more than half of the longer sequence becomes a link: a forward match on the first segment and a backward match on the second. The program then starts from the first segment with no backward match, walks the forward matches and appends each next segment without its first backwardMatchOverlap characters. That count is the overlap recorded with the segment's backward match. Because later pairs overwrite earlier ones, the backward match need not be the segment the walk came from (`Scenarios.OverwriteLosesCharacter`).

Modules, one per component:

- `Wrappers` (`wrappers.dfy`): `Option` for Java's nullable references, `Result` for thrown exceptions.
- `Kmp` (`kmp.dfy`): the back-track (failure) table and the overlap matcher, as imperative methods over an `array<int>`. Each is proved against a reference definition: `Overlap(a, b)`, the longest suffix of `a` that is a prefix of `b`, and `LongestProperBorder(w)`.
- `Segments` (`segments.dfy`): the `Segment` class. Its name and sequence are `const`; its four link fields are updated in place through the setters. `SegmentValue` is the value snapshot of one segment, and `View(dna)` gives the snapshot of a whole collection.
- `Links` (`links.dfy`): `CalculateOverlaps`, the nested loops that write the link fields. It is proved against `BuildLinks`, a closed-form description: every link comes from the last accepted pair in iteration order, and a segment with no accepted pair keeps its old values.
- `Chain` (`chain.dfy`): `GetHeader` and `MergeSequences`, proved against `FirstHeader` and `Assemble`, which are value-level definitions of the header and the chain walk.
- `Scenarios` (`scenarios.dfy`): concrete fragment sets taken through linking and assembly.

The Java `HashMap<String, Segment>` becomes a `seq<Segment>` whose order is the (fixed but arbitrary) iteration order. The keys of the map become the requirement that names are distinct, and `dna.get(name)` becomes `Chain.IndexOf`. The link fields become `Option<string>` (a name, or null).

In three places the code does something other than what it evidently aims at. The model follows the code:

- Threshold. The halved lengths are meant to be rounded up. In the code, `Math.ceil` is applied after Java integer division, so it does nothing and the halves are rounded down. Read with the strict `>`, this means "more than half of each length" (`Links.AcceptedMeansMoreThanHalf`).
- Worked example. ATCGAA, CGAACT and ACTGGG are meant to assemble to ATCGAACTGGG. By the code, CGAACT overlaps ACTGGG by exactly 3, which does not exceed 3, so ACTGGG is never linked. The result is ATCGAACT (`Scenarios.ThreeFragmentAssembly`).
- Short patterns. An overlap onto the empty string is meant to be 0. The code builds the back-track table of the second argument and writes its entries 0 and 1 unconditionally, so a second argument shorter than two characters is an out-of-bounds error. The matcher therefore requires `|s2| >= 2`.

## Model

| member | source | states |
|---|---|---|
| `Kmp.LongestOverlapUpTo` | src/DriverChallenge.java:35-53 | the result r is at most the bound, the last r characters of a are the first r of b, and no longer length up to the bound has that property |
| `Kmp.OverlapIsLongest` | src/DriverChallenge.java:35-53 | `Overlap(a, b)` is an overlap, it is at most the length of either string, and no longer overlap exists |
| `Kmp.OverlapUnique` | src/DriverChallenge.java:42-52 | an overlap with no longer overlap above it equals `Overlap(a, b)` |
| `Kmp.LongestProperBorderUnique` | src/DriverChallenge.java:56-75 | a proper border of w with no longer proper border above it is `LongestProperBorder(w)` |
| `Kmp.OverlapSelf` | src/DriverChallenge.java:42-52 | a string overlaps itself by its whole length |
| `Kmp.OverlapEmpty` | src/DriverChallenge.java:42-52 | the overlap from or onto the empty string is 0 |
| `Kmp.OverlapOfTruncated` | src/DriverChallenge.java:36-38 | keeping only the last \|s2\| characters of s1 does not change the overlap of s1 onto s2 |
| `Kmp.MatchStep` | src/DriverChallenge.java:63-66 | when s[pos-1] equals s[cnd], cnd + 1 is the longest proper border of s[..pos] and the next candidate |
| `Kmp.FallbackStep` | src/DriverChallenge.java:67-68 | after a mismatch with cnd > 0, falling back to T[cnd] keeps a valid candidate: a border of s[..pos-1], with no border of s[..pos] longer than it plus one |
| `Kmp.MismatchStep` | src/DriverChallenge.java:69-72 | after a mismatch with cnd = 0, s[..pos] has longest proper border 0 and 0 stays the candidate |
| `Kmp.ComputeBackTrackTable` | src/DriverChallenge.java:56-75 | for \|s\| >= 2 the table has length \|s\|, T[0] = -1, T[1] = 0, and T[pos] is the longest proper border of s[..pos], so 0 <= T[pos] < pos |
| `Kmp.AdvanceStep` | src/DriverChallenge.java:43-44 | a matching character extends the window's match and keeps every earlier start position ruled out |
| `Kmp.RestartStep` | src/DriverChallenge.java:45-46 | a mismatch at the window's first character (T[0] = -1) rules out that start position and moves the window by one |
| `Kmp.ShiftStep` | src/DriverChallenge.java:45-49 | after a mismatch at i > 0, moving the window by i - T[i] and setting i to T[i] skips no start position of an overlap and keeps s2[..i] matched |
| `Kmp.FinishStep` | src/DriverChallenge.java:42-52 | when m + i reaches the end of the window, the matched length i is the overlap |
| `Kmp.OverlappedStringLength` | src/DriverChallenge.java:35-53 | for \|s2\| >= 2 the result is the longest suffix of s1 that is a prefix of s2; every index into s2 and the table is in bounds, and the loop terminates |
| `Segments.Segment.constructor` | src/DriverChallenge.java:146-149 | a new segment has its name and sequence, no forward or backward match and zero overlaps |
| `Segments.Segment.SetForwardMatch` | src/DriverChallenge.java:171-173 | sets the forward match to the given name and changes no other field |
| `Segments.Segment.SetBackwardMatch` | src/DriverChallenge.java:179-181 | sets the backward match to the given name and changes no other field |
| `Segments.Segment.SetForwardMatchOverlap` | src/DriverChallenge.java:187-189 | sets the forward overlap and changes no other field |
| `Segments.Segment.SetBackwardMatchOverlap` | src/DriverChallenge.java:195-197 | sets the backward overlap and changes no other field |
| `Links.Threshold` | src/DriverChallenge.java:85 | 2(t + 1) exceeds both lengths and 2t is at most one of them, so an integer overlap exceeds t exactly when twice it exceeds both lengths: the larger of the two halves, rounded down |
| `Links.LastForward` | src/DriverChallenge.java:79-93 | the partner of segment a's last accepted pair (a, b) with b below the bound, or None exactly when no such pair is accepted |
| `Links.LastBackward` | src/DriverChallenge.java:79-93 | the first member of segment b's last accepted pair (a, b) with a below the bound, or None exactly when no such pair is accepted |
| `Links.BuildLinks` | src/DriverChallenge.java:77-97 | linking keeps the number of segments and every name and sequence |
| `Links.LinksAfterStep` | src/DriverChallenge.java:81-93 | processing the pair (i, j) changes only i's forward link and j's backward link, both to the pair's overlap, and only when the pair is accepted |
| `Links.Link` | src/DriverChallenge.java:89-92 | for two distinct segments, the first gets the second as forward match and the second the first as backward match, both with the given overlap; nothing else changes |
| `Links.ComparePair` | src/DriverChallenge.java:81-93 | when the names differ and the overlap of the first sequence onto the second exceeds the threshold, both segments are linked with that overlap; otherwise neither changes |
| `Links.CompareStep` | src/DriverChallenge.java:81-93 | the effect of one comparison, as `ComparePair` states it, takes the collection from the state before the pair (i, j) to the state after it |
| `Links.CompareWithAll` | src/DriverChallenge.java:80-95 | the inner loop compares segment i with every segment in iteration order and moves the collection from the state after i rows to the state after i + 1 rows |
| `Links.CalculateOverlaps` | src/DriverChallenge.java:77-97 | after the nested loops over all ordered pairs, the segments' state is `BuildLinks` of their state before |
| `Links.AcceptedMeansMoreThanHalf` | src/DriverChallenge.java:81-86 | a pair is accepted iff the names differ and twice the overlap exceeds each length; so two length-6 sequences overlapping by exactly 3 are not linked |
| `Links.ForwardMatchIsLastAccepted` | src/DriverChallenge.java:86-93 | a segment's forward match and forward overlap come from its last accepted pair in iteration order: later pairs overwrite earlier ones |
| `Links.BackwardMatchIsLastAccepted` | src/DriverChallenge.java:86-93 | a segment's backward match and backward overlap come from the last accepted pair that has it as second member |
| `Links.LinksKeptWithoutPartner` | src/DriverChallenge.java:86-93 | a segment with no accepted pair in a direction keeps that direction's match and overlap unchanged |
| `Links.NeverLinkedToItself` | src/DriverChallenge.java:81 | with distinct names, no link the builder writes names the segment itself |
| `Links.NameDeterminesIndex` | src/DriverChallenge.java:105 | with distinct names, a name identifies exactly one segment |
| `Links.SameSegmentsSamePartners` | src/DriverChallenge.java:81-86 | two collections with the same names and sequences have the same last accepted partners: link fields never influence which pair is accepted |
| `Links.BuildLinksIdempotent` | src/DriverChallenge.java:77-97 | running the builder again over unchanged segments changes nothing |
| `Links.LinkedPairAgrees` | src/DriverChallenge.java:89-92 | starting from unlinked segments, if X's forward match is Y and Y's backward match is X, both record the overlap of X onto Y |
| `Chain.FirstHeaderFrom` | src/DriverChallenge.java:24-31 | the first position at or after `from` whose backward match is null, or None exactly when every later segment has one |
| `Chain.FirstHeader` | src/DriverChallenge.java:24-31 | the first position whose backward match is null, or None exactly when every segment has one |
| `Chain.IndexOf` | src/DriverChallenge.java:105 | the position of the segment with the given name, or None exactly when no segment has it |
| `Chain.Successor` | src/DriverChallenge.java:104-105 | a segment has a successor iff its forward match is set, and the successor is the segment of that name |
| `Chain.Walk` | src/DriverChallenge.java:104-105 | the walk is empty exactly when the start has no successor, otherwise it starts with that successor, and it takes no more steps than the fuel |
| `Chain.WalkFollowsSuccessors` | src/DriverChallenge.java:104-105 | each visited segment but the last is followed by its successor, and the last has no forward match |
| `Chain.Piece` | src/DriverChallenge.java:106 | the piece is what remains of the sequence after its first backwardMatchOverlap characters: that prefix followed by the piece is the whole sequence |
| `Chain.Assemble` | src/DriverChallenge.java:100-108 | merging fails, with NoHeaderFound, exactly when there is no header, and otherwise starts with the header's whole sequence |
| `Chain.GetHeader` | src/DriverChallenge.java:24-32 | returns the first segment in iteration order with no backward match, or fails with NoHeaderFound when there is none |
| `Chain.MergeSequences` | src/DriverChallenge.java:100-119 | the result is `Assemble` of the segments: NoHeaderFound, or the header's sequence followed by the pieces of the segments reached by forward matches |
| `Chain.WalkEnd` | src/DriverChallenge.java:104 | the walk stops at a segment without a forward match |
| `Chain.PiecesHaveLength` | src/DriverChallenge.java:104-108 | the appended text has, for each visited segment, its length less its backward overlap |
| `Chain.AssembleFailsIffNoHeader` | src/DriverChallenge.java:24-31 | merging fails, with NoHeaderFound, exactly when every segment has a backward match |
| `Chain.AssembledShape` | src/DriverChallenge.java:100-108 | the output starts with the header's whole sequence, and its length is the header's length plus, for each segment visited after it, that segment's length less its backward overlap |
| `Chain.BuildLinksResolves` | src/DriverChallenge.java:89-92 | every forward match the builder writes names a segment, and every backward overlap it writes fits within the segment's sequence |
| `Chain.PieceCompletesSegment` | src/DriverChallenge.java:106-107 | if the text ends with the predecessor's sequence and the backward overlap is a true overlap, appending the piece makes the text end with the whole next sequence |
| `Chain.WalkEndsWithLastSegment` | src/DriverChallenge.java:104-108 | when every step of the walk joins a true overlap, the merged text ends with the whole sequence of the segment where the walk stops |
| `Chain.ChainLinksAt` | src/DriverChallenge.java:77-97 | when exactly the consecutive fragments of a chain are accepted pairs, linking gives each fragment its successor as forward match and its predecessor, with the predecessor's overlap, as backward match |
| `Chain.SuccessorsWalk` | src/DriverChallenge.java:104-105 | when successors follow a sequence of positions, the walk from one of them visits the rest in order |
| `Chain.ChainHeader` | src/DriverChallenge.java:24-31 | the first fragment of a linked chain is the header |
| `Chain.ChainReassembles` | src/DriverChallenge.java:77-119 | when exactly the consecutive fragments of a listing of all fragments are accepted pairs, linking and merging yields the first fragment followed by the pieces of the others in chain order, each cut at its overlap with its predecessor |
| `Scenarios.OverlapExample` | src/DriverChallenge.java:35-53 | the overlap of AGATTA onto TTAGCC is 3 |
| `Scenarios.ThreeFragmentPairs` | src/DriverChallenge.java:81-86 | of ATCGAA, CGAACT and ACTGGG only the pair (ATCGAA, CGAACT), with overlap 4, is accepted; CGAACT onto ACTGGG, with overlap 3, is not |
| `Scenarios.ThreeFragmentLinks` | src/DriverChallenge.java:77-97 | linking those three sets only s1's forward match (s2, 4) and s2's backward match (s1, 4) |
| `Scenarios.ThreeFragmentAssembly` | src/DriverChallenge.java:100-108 | those three fragments assemble to ATCGAACT |
| `Scenarios.TwinsHaveNoHeader` | src/DriverChallenge.java:24-31 | any two differently named fragments with the same non-empty sequence give each other backward matches, so assembly fails with NoHeaderFound |
| `Scenarios.OverwriteLinks` | src/DriverChallenge.java:77-97 | for TACG, GACGT and ACGT in that order, both earlier fragments get ACGT as forward match, and ACGT's backward match is GACGT, the later pair, with overlap 4 |
| `Scenarios.OverwriteLosesCharacter` | src/DriverChallenge.java:100-108 | those three fragments assemble to TACG: ACGT is reached from TACG, which overlaps it by 3, but is cut at GACGT's overlap 4, so the result does not end with ACGT |

## Left out

- `parseDataSet` (src/DriverChallenge.java:122-136): file input through `java.util.Scanner`, whose token matching is library behaviour. The model starts from an already built collection of segments.
- `main` (src/DriverChallenge.java:10-21): printing the result and its length, printing the stack trace and exiting.
- `HashMap` iteration order: Java leaves it unspecified. The model takes any fixed order, which is the order of the sequence. Which pair "wins" an overwrite and which segment is the header both depend on it.
- The `double` arithmetic of the threshold (line 85): both operands are already integers, so the threshold is an exact integer.
- The commented-out coverage check (lines 110-117) and the commented-out debug print (line 87): dead code.
- `setName` and `setSequence` (lines 155-165) are never called. Name and sequence are therefore `const` fields. The getters are plain field reads.
- Cyclic forward links: the Java loop at line 104 never ends on a cycle. `MergeSequences` instead requires that the walk from the header ends within as many steps as there are segments, and any walk that ends at all does so.
- Crashes: an out-of-bounds table on a sequence shorter than two characters, a forward match naming a missing segment, and a backward overlap longer than its sequence. Each is a precondition, not an error result. Linking from freshly parsed segments never produces the last two (`Chain.BuildLinksResolves`).
- Character encoding: a Dafny `string` is a sequence of Unicode scalar values, while Java's `String` lengths and indices count UTF-16 code units. Lengths, overlaps and thresholds agree with Java only for text within the Basic Multilingual Plane, which DNA letters are.
- `Kmp.OverlappedStringLength`: does not model Java's 32-bit `int` limits on string lengths and indices, which no realistic fragment reaches.
