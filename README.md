# SeqGraph graph construction, modelled in Dafny

SeqGraph turns a small FASTA/FASTQ file of DNA reads into one of two graphs.

- An **overlap graph**. Its nodes are reads. An edge from `read1` to `read2` means the detector found that a suffix of `read1` equals a prefix of `read2`. The edge is labelled with the length of that match.
- A **de Bruijn graph**. All sequence lines are joined into one character stream and cut into 10-mers. Each processed 10-mer adds one to the count of the edge from its 9-character prefix to its 9-character suffix. Self-loops are never added.

This project models the two construction algorithms of `SeqGraph.py` and proves what they compute. The line filters of the two readers are modelled too.

- `Slices.dfy` (module `Slices`): Python's `s[lo:hi]` and `s[-n:]`, with Python's clamping written out.
- `Overlap.dfy` (module `Overlap`):
  - `MatchLength` is the specification of `overlap_match_finder`: the weight it records for an ordered pair of reads, or `None`.
  - `FindPerfectMatch` is the source's search loop, proved against `MatchLength`.
  - The class `OverlapGraph` holds the edge dictionary. Its `MatchFinder` method appends in place.
  - `OverlapEdges` is the all-pairs loop of `overlap_graph`.
- `DeBruijn.dfy` (module `DeBruijn`):
  - `TenMers` is the windowing loop of `process_readsDB`.
  - The class `DeBruijnGraph` holds the count dictionary. Its `MatchFinder` method is `deBruijn_match_finder`.
  - `DeBruijnEdges` is the loop of `deBruijn_graph`. It is proved against `EdgesUpTo`, and the counts are proved equal to `Occurrences`.
- `ReadLines.dfy` (module `ReadLines`): the line filters of `process_readsO` and `process_readsDB`, over lines given as a sequence.

The overlap detector is modelled **as written**, which is not an ideal maximal-overlap search:

- If the 10-character windows `read1[-10:]` and `read2[0:10]` agree, the weight is exactly 10. No longer match is looked for.
- Otherwise the loop runs `indexR2` over `range(10, len(read2[10:]))`, so it stops at `len(read2) - 11`. It compares before each extension, so only the lengths 11 .. `len(read2) - 11` are ever compared. The first (shortest) equal length wins.
- The source's comment on the 10-character case calls it the maximal match (SeqGraph.py:107); it is only the first length tried. `LoopBoundMissesOverlap` and `LastExtensionNeverCompared` show overlaps of 11 and 12 characters that the search range misses, so those pairs get no edge.
- The reads `AAAAAAAAAAT` and `AAAAAAAATCG` overlap by only 9 characters and get no edge (`ShortReadsNoEdge`): the 10-character windows differ, and with an 11-character `read2` the extension range is empty.
- Reads are compared by their text, and the pair loop runs once per position in the list. A read that occurs twice in the list therefore gets its edges twice: `AddAllPairsCount` gives the exact count, and `DistinctReadsEdgeOnce` shows that each edge occurs once when no read is repeated.
- The de Bruijn driver skips the last 10-mer, as the source does. `LastWindowDropped` shows the effect on `GAAAGAAAGAAAGAAAGA`, a repeat stream that reproduces the extra edge the comment at SeqGraph.py:174-178 describes (the content of the test file it names is not part of this model): the edge GAAAGAAAG → AAAGAAAGA is counted 2 times, not 3.

## Model

| member | source | states |
|---|---|---|
| `Slices.Slice` | SeqGraph.py:220 | Python's `s[lo:hi]` with both bounds clamped: its length is `min(hi, len(s)) - lo`, or 0 when `lo >= hi` or `lo >= len(s)` |
| `Slices.SliceInside` | SeqGraph.py:220 | a slice whose bounds lie inside the string is the plain substring from `lo` to `hi` |
| `Slices.Last` | SeqGraph.py:102 | for n ≥ 1, Python's `s[-n:]` has `min(n, len(s))` characters |
| `Slices.LastInside` | SeqGraph.py:102 | for n no longer than `s`, `s[-n:]` is the suffix of `s` of length n |
| `Overlap.WindowsEqualIsOverlap` | SeqGraph.py:102-106 | for a length n ≥ 1 within `read2`, the comparison `read1[-n:] == read2[0:n]` holds exactly when the last n characters of read1 equal the first n of read2 |
| `Overlap.ShortWindowsEqual` | SeqGraph.py:105-107 | when the 10-character windows compare equal, the match is a real 10-character overlap exactly when read1 has at least 10 characters |
| `Overlap.WindowsEqualAreOverlaps` | SeqGraph.py:110-122 | at every length the extension loop can reach, its window comparison is exactly the overlap relation |
| `Overlap.ExtendedMatchSound` | SeqGraph.py:110-122 | when the extension phase from length n returns w, w lies in n .. `len(read2) - 11`, its windows compare equal, and those of every length from n to w - 1 do not |
| `Overlap.ExtendedMatchComplete` | SeqGraph.py:110-122 | when w is the first length from n on whose windows compare equal and w is at most `len(read2) - 11`, the extension phase from length n returns w |
| `Overlap.ExtendedMatchNone` | SeqGraph.py:110-122 | the extension phase from length n finds nothing exactly when the windows of no length n .. `len(read2) - 11` compare equal |
| `Overlap.MatchLengthIs` | SeqGraph.py:101-128 | weight w is recorded exactly when the last w characters of read1 equal the first w of read2, and either w is 10, or there is no 10-character overlap, w lies in 11 .. `len(read2) - 11` and no length from 11 to w - 1 overlaps |
| `Overlap.NoMatchIs` | SeqGraph.py:105-128 | no edge is recorded exactly when neither length 10 nor any length 11 .. `len(read2) - 11` overlaps |
| `Overlap.MatchBounds` | SeqGraph.py:124-128 | every recorded weight is at least 10 and at most the length of each read |
| `Overlap.FindPerfectMatch` | SeqGraph.py:94-122 | the search loop over `indexR1`, `read1Suffix` and `read2Prefix` ends with a match of length at least 10 exactly when the specification records a weight, and that weight is its length; the match is a genuine suffix of read1 and prefix of read2 |
| `Overlap.ShortReadsNoEdge` | SeqGraph.py:105-112 | `AAAAAAAAAAT` → `AAAAAAAATCG` gets no edge |
| `Overlap.LoopBoundMissesOverlap` | SeqGraph.py:111-112 | an 11-character overlap with a 12-character read2 exists but is never compared, so no edge is recorded |
| `Overlap.LastExtensionNeverCompared` | SeqGraph.py:112-122 | with a 22-character read2 only length 11 is compared, so a 12-character overlap gets no edge |
| `Overlap.AddMatch` | SeqGraph.py:124-128 | one call appends at most one edge, and only to read1's list (created empty first when absent); it leaves the dictionary unchanged exactly when no match is recorded, and no other key changes |
| `Overlap.AddRow` | SeqGraph.py:67-69 | the inner driver loop only appends: every earlier list is a prefix of its later version |
| `Overlap.AddAllPairs` | SeqGraph.py:66-69 | the outer driver loop only appends: every earlier list is a prefix of its later version |
| `Overlap.AddMatchWellFormed` | SeqGraph.py:124-128 | recording a match between two different reads of the list keeps the dictionary well formed: keys are reads with non-empty lists, and every edge goes to a different read with the weight the detector gives that pair |
| `Overlap.AddRowWellFormed` | SeqGraph.py:67-69 | the inner loop, which skips equal strings, keeps the dictionary well formed |
| `Overlap.AddAllPairsWellFormed` | SeqGraph.py:66-69 | the full pair loop keeps the dictionary well formed |
| `Overlap.AddRowComplete` | SeqGraph.py:67-69 | every pair of the row's read with a different read whose match the detector accepts has its edge in that read's list |
| `Overlap.AddAllPairsComplete` | SeqGraph.py:66-69 | every accepted pair of different reads has its edge in the result |
| `Overlap.EdgeMeaning` | SeqGraph.py:124-128 | every edge of a well-formed dictionary joins two different reads of the list by a real suffix–prefix overlap of at least 10 characters, no longer than either read |
| `Overlap.OverlapGraph.constructor` | SeqGraph.py:61 | the edge dictionary starts empty |
| `Overlap.OverlapGraph.MatchFinder` | SeqGraph.py:94-130 | `overlap_match_finder` updates the dictionary in place exactly as `AddMatch` describes |
| `Overlap.AddMatchCount` | SeqGraph.py:124-128 | one detector call adds one copy of the edge read1 → read2 of weight w exactly when it records w for that pair, and changes no other edge's count |
| `Overlap.AddRowCount` | SeqGraph.py:67-69 | the inner loop for read a adds the edge a → b of weight w once per occurrence of b in the list when the detector gives the pair w, and nothing for any other row |
| `Overlap.AddAllPairsCount` | SeqGraph.py:66-69 | the pair loop records the edge a → b (a ≠ b) of weight w (occurrences of a) × (occurrences of b) times when the detector gives the pair w, and never otherwise |
| `Overlap.AllPairsCounts` | SeqGraph.py:66-69 | the multiplicity above holds for every pair of different reads and every weight at once |
| `Overlap.DistinctReadsEdgeOnce` | SeqGraph.py:66-69 | for a list of reads without duplicates, every accepted ordered pair of different reads has exactly one edge, with the detector's weight, and no other weight appears for it |
| `Overlap.OverlapEdges` | SeqGraph.py:61-69 | the driver's dictionary is the all-pairs result; it is well formed (so it has no self-loop and no weight below 10); every accepted pair of different reads has its edge, exactly (occurrences of a) × (occurrences of b) times, so once each when no read is repeated |
| `DeBruijn.TenMers` | SeqGraph.py:219-226 | a stream of n characters yields exactly max(0, n - 9) 10-mers, in order, the i-th being characters i .. i + 9; shorter tail windows are dropped |
| `DeBruijn.Bump` | SeqGraph.py:229-248 | one match-finder call adds exactly one to the pair's count when the 8-character check passes, the shared part has 8 characters and the 9-mers differ; no other key changes |
| `DeBruijn.BumpPositive` | SeqGraph.py:241-246 | a call keeps every count at least 1 and creates no self-loop key |
| `DeBruijn.WindowJoins` | SeqGraph.py:180-182 | for the prefix `[0:9]` and suffix `[1:10]` of one window the 8-character check always holds, so the pair joins exactly when prefix and suffix differ |
| `DeBruijn.SelfLoopIsHomopolymer` | SeqGraph.py:241 | a window's prefix equals its suffix exactly when all ten of its characters are the same |
| `DeBruijn.EdgesUpToPositive` | SeqGraph.py:173-184 | after any number of processed windows every count is at least 1 and no key is a self-loop |
| `DeBruijn.EdgesUpToCounts` | SeqGraph.py:173-184 | the count of (p, s) is the number of processed windows with prefix p and suffix s, and 0 when p = s |
| `DeBruijn.EdgesUpToKeys` | SeqGraph.py:241-246 | (p, s) is a key exactly when p ≠ s and some processed window has prefix p and suffix s |
| `DeBruijn.DeBruijnGraph.constructor` | SeqGraph.py:162 | the count dictionary starts empty |
| `DeBruijn.DeBruijnGraph.MatchFinder` | SeqGraph.py:229-248 | `deBruijn_match_finder` updates the dictionary in place exactly as `Bump` describes |
| `DeBruijn.DeBruijnEdges` | SeqGraph.py:162-184 | the driver processes windows 0 .. n - 2 of the n windows; a key (p, s) is present exactly when p ≠ s and occurs among them, and its count is the number of those occurrences |
| `DeBruijn.LastWindowDropped` | SeqGraph.py:173-178 | for the stream `GAAAGAAAGAAAGAAAGA` the edge GAAAGAAAG → AAAGAAAGA is counted 2 times; counting the last window too would give 3 |
| `ReadLines.SequenceLinesCount` | SeqGraph.py:85-88 | a line is kept as often as it occurs in the file when it holds none of `@`, `+`, `h` (nor `>` for the de Bruijn reader), and is dropped otherwise |
| `ReadLines.StreamHasNoMarkers` | SeqGraph.py:210-214 | the de Bruijn reader's character stream contains none of `@`, `+`, `h`, `>` |
| `ReadLines.ProcessReadsO` | SeqGraph.py:81-91 | the overlap reader returns the kept lines in file order |
| `ReadLines.ReadStream` | SeqGraph.py:197-216 | the de Bruijn reader returns the characters of its kept lines, in order, with no separator |

## Left out

- `main`'s argument dispatch and the printed error and completion messages (SeqGraph.py:14-48, 59, 72, 160, 187): these are process plumbing with no graph logic.
- The module-level globals taken from the command line (SeqGraph.py:10-11): the model takes its inputs as parameters.
- Opening, iterating and closing the input file (SeqGraph.py:83, 90, 207, 216): the model takes the file's lines as a sequence.
- Python's `strip()`: lines are taken as already stripped. The filter decision does not depend on it, because whitespace is none of the marker characters.
- `build_Ograph` and `build_dBgraph` (SeqGraph.py:133-149, 251-268): they only pass the finished dictionaries to the graphviz library and render an image.
- The wiring of reader and builder inside `overlap_graph` and `deBruijn_graph` is not modelled as one method. `OverlapEdges` takes the list that `ProcessReadsO` returns. `DeBruijnEdges` takes the stream that `ReadStream` returns and does its own windowing with `TenMers`.
- Running a pipeline twice gives the same edges: every member here is a deterministic function or method of its inputs, so this needs no separate statement.
