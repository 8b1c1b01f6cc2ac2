/**
 * The overlap detector of SeqGraph.py: `overlap_match_finder` and the
 * all-pairs loop of `overlap_graph`. Nodes are reads (compared by their text);
 * an edge from read1 to read2 carries the length of the suffix of read1 that
 * the detector found equal to a prefix of read2.
 *
 * The detector is modelled as written, not as an ideal maximal-overlap search:
 * a 10-character match is accepted at once, and otherwise only the lengths
 * 11 .. |read2| - 11 are tried, shortest first.
 */
module Overlap {
  import opened Slices

  datatype Option<T> = None | Some(value: T)

  /** The hard-coded shortest overlap the detector accepts. */
  const MinMatch: nat := 10

  /** The last n characters of read1 are exactly the first n characters of read2. */
  predicate IsOverlap(read1: string, read2: string, n: nat)
  {
    n <= |read1| && n <= |read2| && read1[|read1| - n..] == read2[..n]
  }

  /** The comparison the detector makes when its windows have length n: `read1[-n:] == read2[0:n]`. */
  predicate WindowsEqual(read1: string, read2: string, n: nat)
  {
    Last(read1, n) == Slice(read2, 0, n)
  }

  /**
   * Specification of the detector: the weight recorded for the ordered pair,
   * or None when no edge is recorded. A 10-character match counts only if
   * read1 really has 10 characters (for a shorter read1, `read1[-10:]` is the
   * whole read and its length fails the `>= 10` test).
   */
  function MatchLength(read1: string, read2: string): Option<nat>
  {
    if WindowsEqual(read1, read2, MinMatch) then
      if |read1| >= MinMatch then Some(MinMatch) else None
    else
      ExtendedMatch(read1, read2, MinMatch + 1)
  }

  /**
   * The extension phase from length n on: the lengths n, n + 1, ... are
   * compared while n + 10 < |read2|, and the first equal one is the match.
   */
  function ExtendedMatch(read1: string, read2: string, n: nat): Option<nat>
    decreases |read2| - n
  {
    if n + MinMatch >= |read2| then None
    else if WindowsEqual(read1, read2, n) then Some(n)
    else ExtendedMatch(read1, read2, n + 1)
  }

  /** Within read2, the detector's window comparison is exactly the overlap relation. */
  lemma WindowsEqualIsOverlap(read1: string, read2: string, n: nat)
    requires n <= |read2|
    ensures WindowsEqual(read1, read2, n) <==> IsOverlap(read1, read2, n)
  {
  }

  /** Throughout the extension range the window comparison and the overlap relation agree. */
  lemma WindowsEqualAreOverlaps(read1: string, read2: string)
    ensures forall j: nat :: j + MinMatch < |read2| ==>
      (WindowsEqual(read1, read2, j) <==> IsOverlap(read1, read2, j))
  {
    forall j: nat | j + MinMatch < |read2|
      ensures WindowsEqual(read1, read2, j) <==> IsOverlap(read1, read2, j)
    {
      WindowsEqualIsOverlap(read1, read2, j);
    }
  }

  /** What the extension phase started at length n returns is the first length from n on whose windows compare equal. */
  lemma {:induction false} ExtendedMatchSound(read1: string, read2: string, n: nat, w: nat)
    requires ExtendedMatch(read1, read2, n) == Some(w)
    ensures n <= w && w + MinMatch < |read2| && WindowsEqual(read1, read2, w)
    ensures forall j :: n <= j < w ==> !WindowsEqual(read1, read2, j)
    decreases |read2| - n
  {
    if !WindowsEqual(read1, read2, n) {
      ExtendedMatchSound(read1, read2, n + 1, w);
    }
  }

  /** The first length from n on whose windows compare equal, if it is below |read2| - 10, is what the extension phase returns. */
  lemma {:induction false} ExtendedMatchComplete(read1: string, read2: string, n: nat, w: nat)
    requires n <= w && w + MinMatch < |read2| && WindowsEqual(read1, read2, w)
    requires forall j :: n <= j < w ==> !WindowsEqual(read1, read2, j)
    ensures ExtendedMatch(read1, read2, n) == Some(w)
    decreases w - n
  {
    if n < w {
      ExtendedMatchComplete(read1, read2, n + 1, w);
    }
  }

  /** The extension phase started at length n finds nothing exactly when no length from n below |read2| - 10 compares equal. */
  lemma {:induction false} ExtendedMatchNone(read1: string, read2: string, n: nat)
    ensures ExtendedMatch(read1, read2, n) == None <==>
      forall j :: n <= j && j + MinMatch < |read2| ==> !WindowsEqual(read1, read2, j)
    decreases |read2| - n
  {
    if n + MinMatch < |read2| && !WindowsEqual(read1, read2, n) {
      ExtendedMatchNone(read1, read2, n + 1);
      if ExtendedMatch(read1, read2, n + 1) == None {
        forall j | n <= j && j + MinMatch < |read2|
          ensures !WindowsEqual(read1, read2, j)
        {
        }
      }
    }
  }

  /** When the 10-character windows agree on a read1 of at least 10 characters they are the match. */
  lemma ShortWindowsEqual(read1: string, read2: string)
    requires WindowsEqual(read1, read2, MinMatch)
    ensures |read1| >= MinMatch <==> IsOverlap(read1, read2, MinMatch)
  {
  }

  /**
   * What a recorded weight means: w is recorded exactly when the last w
   * characters of read1 are the first w of read2 and either w is 10, or
   * there is no 10-character overlap, w lies in 11 .. |read2| - 11 and no
   * shorter length from 11 on overlaps.
   */
  lemma MatchLengthIs(read1: string, read2: string, w: nat)
    ensures MatchLength(read1, read2) == Some(w) <==>
      IsOverlap(read1, read2, w) &&
      (w == MinMatch ||
       (!IsOverlap(read1, read2, MinMatch) && MinMatch < w && w + MinMatch < |read2| &&
        forall j :: MinMatch < j < w ==> !IsOverlap(read1, read2, j)))
  {
    WindowsEqualAreOverlaps(read1, read2);
    if WindowsEqual(read1, read2, MinMatch) {
      ShortWindowsEqual(read1, read2);
      if |read1| < MinMatch {
        // Then read1 is all of read2's first ten characters, so read2 is read1 and too short to extend.
        assert |Slice(read2, 0, MinMatch)| < MinMatch;
      }
    } else {
      if |read2| >= MinMatch {
        WindowsEqualIsOverlap(read1, read2, MinMatch);
      }
      if ExtendedMatch(read1, read2, MinMatch + 1) == Some(w) {
        ExtendedMatchSound(read1, read2, MinMatch + 1, w);
      }
      if IsOverlap(read1, read2, w) && MinMatch < w && w + MinMatch < |read2| &&
         forall j :: MinMatch < j < w ==> !IsOverlap(read1, read2, j)
      {
        ExtendedMatchComplete(read1, read2, MinMatch + 1, w);
      }
    }
  }

  /** No edge is recorded exactly when neither 10 nor any length 11 .. |read2| - 11 overlaps. */
  lemma NoMatchIs(read1: string, read2: string)
    ensures MatchLength(read1, read2) == None <==>
      !IsOverlap(read1, read2, MinMatch) &&
      forall j :: MinMatch < j && j + MinMatch < |read2| ==> !IsOverlap(read1, read2, j)
  {
    WindowsEqualAreOverlaps(read1, read2);
    if WindowsEqual(read1, read2, MinMatch) {
      ShortWindowsEqual(read1, read2);
      if |read1| < MinMatch {
        assert |Slice(read2, 0, MinMatch)| < MinMatch;
      }
    } else {
      if |read2| >= MinMatch {
        WindowsEqualIsOverlap(read1, read2, MinMatch);
      }
      ExtendedMatchNone(read1, read2, MinMatch + 1);
    }
  }

  /** Every recorded weight is at least 10 and at most the length of either read. */
  lemma MatchBounds(read1: string, read2: string)
    requires MatchLength(read1, read2).Some?
    ensures MinMatch <= MatchLength(read1, read2).value
    ensures MatchLength(read1, read2).value <= Min(|read1|, |read2|)
  {
    MatchLengthIs(read1, read2, MatchLength(read1, read2).value);
  }

  /** Growing the prefix window by the next character of read2 gives the next prefix window. */
  lemma GrowPrefix(read2: string, j: nat)
    requires j < |read2|
    ensures Slice(read2, 0, j) + [read2[j]] == Slice(read2, 0, j + 1)
  {
  }

  /** A failed comparison of length j hands the search on to length j + 1. */
  lemma ExtendedMatchSkips(read1: string, read2: string, j: nat)
    requires j + MinMatch < |read2| && !WindowsEqual(read1, read2, j)
    ensures ExtendedMatch(read1, read2, j) == ExtendedMatch(read1, read2, j + 1)
  {
  }

  /** A successful comparison of length j within the search range ends the search with j. */
  lemma ExtendedMatchStops(read1: string, read2: string, j: nat)
    requires j + MinMatch < |read2| && WindowsEqual(read1, read2, j)
    ensures ExtendedMatch(read1, read2, j) == Some(j)
    ensures IsOverlap(read1, read2, j) && Last(read1, j) == read2[..j]
  {
  }

  /**
   * The match search of `overlap_match_finder`: the growing windows
   * `read1Suffix` and `read2Prefix`, compared before each extension, and the
   * match it settles on (empty, or shorter than 10, when there is none).
   */
  method FindPerfectMatch(read1: string, read2: string) returns (perfectMatch: string)
    ensures MatchLength(read1, read2) ==
      if |perfectMatch| >= MinMatch then Some(|perfectMatch|) else None
    ensures |perfectMatch| >= MinMatch ==>
      IsOverlap(read1, read2, |perfectMatch|) && perfectMatch == read2[..|perfectMatch|]
  {
    perfectMatch := "";
    var indexR1: int := -10;
    var indexR2: int := 10;
    var read1Suffix := Last(read1, -indexR1);
    var read2Prefix := Slice(read2, 0, indexR2);
    if read1Suffix == read2Prefix {
      perfectMatch := read1Suffix;
      if |perfectMatch| >= MinMatch {
        assert |read2Prefix| == MinMatch;
        WindowsEqualIsOverlap(read1, read2, MinMatch);
        SliceInside(read2, 0, MinMatch);
      }
    } else {
      var read2Suffix := Slice(read2, indexR2, |read2|);
      while indexR2 < |read2Suffix|
        invariant MinMatch <= indexR2 && indexR1 + indexR2 == 0
        invariant read1Suffix == Last(read1, indexR2)
        invariant read2Prefix == Slice(read2, 0, indexR2)
        invariant indexR2 == MinMatch ==> read1Suffix != read2Prefix
        invariant perfectMatch == ""
        invariant MatchLength(read1, read2) ==
          ExtendedMatch(read1, read2, if indexR2 == MinMatch then MinMatch + 1 else indexR2)
        decreases |read2Suffix| - indexR2
      {
        var char2 := read2[indexR2];
        if read1Suffix != read2Prefix {
          if indexR2 > MinMatch {
            ExtendedMatchSkips(read1, read2, indexR2);
          }
          GrowPrefix(read2, indexR2);
          indexR1 := indexR1 - 1;
          read1Suffix := Last(read1, -indexR1);
          read2Prefix := read2Prefix + [char2];
        } else {
          ExtendedMatchStops(read1, read2, indexR2);
          perfectMatch := read1Suffix;
          break;
        }
        indexR2 := indexR2 + 1;
      }
    }
  }

  /**
   * Two 11-character reads whose real overlap is 9 characters: the
   * 10-character windows differ and the extension range 11 .. 0 is empty, so
   * no edge is recorded.
   */
  lemma ShortReadsNoEdge()
    ensures MatchLength("AAAAAAAAAAT", "AAAAAAAATCG") == None
  {
    assert Last("AAAAAAAAAAT", 10)[8] != Slice("AAAAAAAATCG", 0, 10)[8];
  }

  /**
   * The extension range ends at |read2| - 11: an 11-character overlap of a
   * 12-character read2 is never compared, so no edge is recorded for it.
   */
  lemma LoopBoundMissesOverlap()
    ensures IsOverlap("CAAAAAAAAAA", "CAAAAAAAAAAG", 11)
    ensures MatchLength("CAAAAAAAAAA", "CAAAAAAAAAAG") == None
  {
    assert Last("CAAAAAAAAAA", 10)[0] != Slice("CAAAAAAAAAAG", 0, 10)[0];
    assert "CAAAAAAAAAAG"[..11] == "CAAAAAAAAAA";
  }

  /**
   * The comparison comes before each extension, so the last extended length
   * is never compared: with a 22-character read2 only length 11 is tried, and
   * the 12-character overlap below is not found.
   */
  lemma LastExtensionNeverCompared()
    ensures IsOverlap("CCAAAAAAAAAA", "CCAAAAAAAAAAGGGGGGGGGG", 12)
    ensures MatchLength("CCAAAAAAAAAA", "CCAAAAAAAAAAGGGGGGGGGG") == None
  {
    var read1, read2 := "CCAAAAAAAAAA", "CCAAAAAAAAAAGGGGGGGGGG";
    assert Last(read1, 10)[0] != Slice(read2, 0, 10)[0];
    assert Last(read1, 11)[1] != Slice(read2, 0, 11)[1];
    assert ExtendedMatch(read1, read2, 12) == None;
    assert read2[..12] == read1;
  }

  /** One outgoing edge: the target read and the overlap length. */
  datatype OverlapEdge = OverlapEdge(target: string, weight: nat)

  /** The edge dictionary: each read to the list of its outgoing edges, in the order they were found. */
  type EdgeMap = map<string, seq<OverlapEdge>>

  function EdgesFrom(edges: EdgeMap, read: string): seq<OverlapEdge>
  {
    if read in edges then edges[read] else []
  }

  /**
   * The effect of one `overlap_match_finder(read1, read2, edges)` call on the
   * dictionary: at most one edge is appended to read1's list and no other
   * key changes.
   */
  function AddMatch(edges: EdgeMap, read1: string, read2: string): (r: EdgeMap)
    ensures forall read | read in edges && read != read1 :: read in r && r[read] == edges[read]
    ensures r.Keys <= edges.Keys + {read1}
    ensures EdgesFrom(edges, read1) <= EdgesFrom(r, read1)
    ensures |EdgesFrom(r, read1)| <= |EdgesFrom(edges, read1)| + 1
    ensures MatchLength(read1, read2).None? <==> r == edges
  {
    match MatchLength(read1, read2)
    case None => edges
    case Some(w) => edges[read1 := EdgesFrom(edges, read1) + [OverlapEdge(read2, w)]]
  }

  /** Every list of `before` is a prefix of the list of the same read in `after`. */
  ghost predicate Extends(before: EdgeMap, after: EdgeMap)
  {
    forall read | read in before :: read in after && before[read] <= after[read]
  }

  /** The inner loop of `overlap_graph`: `read` against each of `others` in turn, skipping equal strings. */
  function AddRow(edges: EdgeMap, read: string, others: seq<string>): (r: EdgeMap)
    ensures Extends(edges, r)
    decreases |others|
  {
    if others == [] then edges
    else
      var e := AddRow(edges, read, others[..|others| - 1]);
      var other := others[|others| - 1];
      if read != other then AddMatch(e, read, other) else e
  }

  /** The outer loop of `overlap_graph`: each of `readsToCheck` against all of `listOfReads`. */
  function AddAllPairs(edges: EdgeMap, readsToCheck: seq<string>, listOfReads: seq<string>): (r: EdgeMap)
    ensures Extends(edges, r)
    decreases |readsToCheck|
  {
    if readsToCheck == [] then edges
    else
      var e := AddAllPairs(edges, readsToCheck[..|readsToCheck| - 1], listOfReads);
      AddRow(e, readsToCheck[|readsToCheck| - 1], listOfReads)
  }

  /**
   * The invariant of the dictionary built from `listOfReads`: every key is a read,
   * every list is non-empty, and every edge goes to a different read and
   * carries the weight the detector gives that pair.
   */
  ghost predicate WellFormed(edges: EdgeMap, listOfReads: seq<string>)
  {
    forall source | source in edges ::
      source in listOfReads && |edges[source]| > 0 &&
      forall k | 0 <= k < |edges[source]| ::
        edges[source][k].target in listOfReads && edges[source][k].target != source &&
        MatchLength(source, edges[source][k].target) == Some(edges[source][k].weight)
  }

  lemma AddMatchWellFormed(edges: EdgeMap, read1: string, read2: string, listOfReads: seq<string>)
    requires WellFormed(edges, listOfReads)
    requires read1 in listOfReads && read2 in listOfReads && read1 != read2
    ensures WellFormed(AddMatch(edges, read1, read2), listOfReads)
  {
  }

  lemma {:induction false} AddRowWellFormed(edges: EdgeMap, read: string, others: seq<string>, listOfReads: seq<string>)
    requires WellFormed(edges, listOfReads)
    requires read in listOfReads && forall other | other in others :: other in listOfReads
    ensures WellFormed(AddRow(edges, read, others), listOfReads)
    decreases |others|
  {
    if others != [] {
      var init := others[..|others| - 1];
      assert forall other | other in init :: other in others;
      AddRowWellFormed(edges, read, init, listOfReads);
      var other := others[|others| - 1];
      if read != other {
        AddMatchWellFormed(AddRow(edges, read, init), read, other, listOfReads);
      }
    }
  }

  lemma {:induction false} AddAllPairsWellFormed(edges: EdgeMap, readsToCheck: seq<string>, listOfReads: seq<string>)
    requires WellFormed(edges, listOfReads)
    requires forall read | read in readsToCheck :: read in listOfReads
    ensures WellFormed(AddAllPairs(edges, readsToCheck, listOfReads), listOfReads)
    decreases |readsToCheck|
  {
    if readsToCheck != [] {
      var init := readsToCheck[..|readsToCheck| - 1];
      assert forall read | read in init :: read in readsToCheck;
      AddAllPairsWellFormed(edges, init, listOfReads);
      AddRowWellFormed(AddAllPairs(edges, init, listOfReads), readsToCheck[|readsToCheck| - 1], listOfReads, listOfReads);
    }
  }

  /** Every pair of `read` with a different read of `others` that the detector accepts has its edge in the row. */
  lemma {:induction false} AddRowComplete(edges: EdgeMap, read: string, others: seq<string>, other: string)
    requires other in others && other != read && MatchLength(read, other).Some?
    ensures var r := AddRow(edges, read, others);
      read in r && OverlapEdge(other, MatchLength(read, other).value) in r[read]
    decreases |others|
  {
    var init := others[..|others| - 1];
    var last := others[|others| - 1];
    var e := AddRow(edges, read, init);
    var edge := OverlapEdge(other, MatchLength(read, other).value);
    if other == last {
      assert AddMatch(e, read, other)[read] == EdgesFrom(e, read) + [edge];
    } else {
      assert other in init by {
        var k :| 0 <= k < |others| && others[k] == other;
        assert k < |others| - 1 && init[k] == other;
      }
      AddRowComplete(edges, read, init, other);
      if read != last {
        var e' := AddMatch(e, read, last);
        assert e[read] <= e'[read];
        var k :| 0 <= k < |e[read]| && e[read][k] == edge;
        assert e'[read][k] == edge;
      }
    }
  }

  /** Every accepted pair (a from `readsToCheck`, b from `listOfReads`, a != b) has its edge in the result. */
  lemma {:induction false} AddAllPairsComplete(edges: EdgeMap, readsToCheck: seq<string>, listOfReads: seq<string>, a: string, b: string)
    requires a in readsToCheck && b in listOfReads && a != b && MatchLength(a, b).Some?
    ensures var r := AddAllPairs(edges, readsToCheck, listOfReads);
      a in r && OverlapEdge(b, MatchLength(a, b).value) in r[a]
    decreases |readsToCheck|
  {
    var init := readsToCheck[..|readsToCheck| - 1];
    var last := readsToCheck[|readsToCheck| - 1];
    var e := AddAllPairs(edges, init, listOfReads);
    var edge := OverlapEdge(b, MatchLength(a, b).value);
    if a == last {
      AddRowComplete(e, a, listOfReads, b);
    } else {
      assert a in init by {
        var k :| 0 <= k < |readsToCheck| && readsToCheck[k] == a;
        assert k < |readsToCheck| - 1 && init[k] == a;
      }
      AddAllPairsComplete(edges, init, listOfReads, a, b);
      var e' := AddRow(e, last, listOfReads);
      assert e[a] <= e'[a];
      var k :| 0 <= k < |e[a]| && e[a][k] == edge;
      assert e'[a][k] == edge;
    }
  }

  /** Each edge of a well-formed dictionary is a genuine overlap of at least 10 characters between different reads. */
  lemma EdgeMeaning(edges: EdgeMap, listOfReads: seq<string>, source: string, k: nat)
    requires WellFormed(edges, listOfReads)
    requires source in edges && k < |edges[source]|
    ensures var edge := edges[source][k];
      source in listOfReads && edge.target in listOfReads && edge.target != source &&
      MinMatch <= edge.weight <= Min(|source|, |edge.target|) &&
      IsOverlap(source, edge.target, edge.weight)
  {
    var edge := edges[source][k];
    MatchLengthIs(source, edge.target, edge.weight);
  }

  /** How many times the edge a -> b of weight w occurs in a's list. */
  function EdgeCount(edges: EdgeMap, a: string, b: string, w: nat): nat
  {
    multiset(EdgesFrom(edges, a))[OverlapEdge(b, w)]
  }

  /** One detector call adds one copy of the edge read1 -> read2 exactly when it records weight w for that pair. */
  lemma AddMatchCount(edges: EdgeMap, read1: string, read2: string, a: string, b: string, w: nat)
    ensures EdgeCount(AddMatch(edges, read1, read2), a, b, w) ==
      EdgeCount(edges, a, b, w) + if read1 == a && read2 == b && MatchLength(a, b) == Some(w) then 1 else 0
  {
    if MatchLength(read1, read2).Some? && read1 == a {
      var edge := OverlapEdge(read2, MatchLength(read1, read2).value);
      assert EdgesFrom(AddMatch(edges, read1, read2), a) == EdgesFrom(edges, a) + [edge];
      assert multiset(EdgesFrom(edges, a) + [edge]) == multiset(EdgesFrom(edges, a)) + multiset{edge};
    }
  }

  /** The inner loop adds one copy of the edge a -> b per occurrence of b in `others`, when the row is a's and the detector records w. */
  lemma {:induction false} AddRowCount(edges: EdgeMap, read: string, others: seq<string>, a: string, b: string, w: nat)
    requires a != b
    ensures EdgeCount(AddRow(edges, read, others), a, b, w) ==
      EdgeCount(edges, a, b, w) + if read == a && MatchLength(a, b) == Some(w) then multiset(others)[b] else 0
    decreases |others|
  {
    if others != [] {
      var init, last := others[..|others| - 1], others[|others| - 1];
      assert others == init + [last];
      assert multiset(others) == multiset(init) + multiset{last};
      AddRowCount(edges, read, init, a, b, w);
      if read != last {
        AddMatchCount(AddRow(edges, read, init), read, last, a, b, w);
      }
    }
  }

  lemma MultiplyStep(m: nat, n: nat)
    ensures (m + 1) * n == m * n + n
  {
  }

  /**
   * Multiplicity: the pair loop records the edge a -> b of weight w once for
   * every occurrence of a among `readsToCheck` and of b among `listOfReads`,
   * and never when the detector does not give that pair weight w.
   */
  lemma {:induction false} AddAllPairsCount(edges: EdgeMap, readsToCheck: seq<string>, listOfReads: seq<string>, a: string, b: string, w: nat)
    requires a != b
    ensures EdgeCount(AddAllPairs(edges, readsToCheck, listOfReads), a, b, w) ==
      EdgeCount(edges, a, b, w) +
      if MatchLength(a, b) == Some(w) then multiset(readsToCheck)[a] * multiset(listOfReads)[b] else 0
    decreases |readsToCheck|
  {
    if readsToCheck != [] {
      var init, last := readsToCheck[..|readsToCheck| - 1], readsToCheck[|readsToCheck| - 1];
      assert readsToCheck == init + [last];
      assert multiset(readsToCheck) == multiset(init) + multiset{last};
      var e := AddAllPairs(edges, init, listOfReads);
      AddAllPairsCount(edges, init, listOfReads, a, b, w);
      AddRowCount(e, last, listOfReads, a, b, w);
      var m, n := multiset(init)[a], multiset(listOfReads)[b];
      assert multiset(readsToCheck)[a] == m + if last == a then 1 else 0;
      MultiplyStep(m, n);
    }
  }

  /**
   * Each edge a -> b of weight w between different reads occurs once per
   * occurrence of a and of b in the list when the detector gives the pair
   * weight w, and not at all otherwise.
   */
  ghost predicate PairMultiplicities(edges: EdgeMap, listOfReads: seq<string>)
  {
    forall a, b, w: nat | a != b ::
      EdgeCount(edges, a, b, w) ==
        if MatchLength(a, b) == Some(w) then multiset(listOfReads)[a] * multiset(listOfReads)[b] else 0
  }

  /** The multiplicity of every edge in the pair loop's result, over all pairs of different reads. */
  lemma AllPairsCounts(listOfReads: seq<string>)
    ensures PairMultiplicities(AddAllPairs(map[], listOfReads, listOfReads), listOfReads)
  {
    forall a, b, w: nat | a != b
      ensures EdgeCount(AddAllPairs(map[], listOfReads, listOfReads), a, b, w) ==
        if MatchLength(a, b) == Some(w) then multiset(listOfReads)[a] * multiset(listOfReads)[b] else 0
    {
      AddAllPairsCount(map[], listOfReads, listOfReads, a, b, w);
    }
  }

  /** No read occurs twice in the list. */
  predicate Distinct(listOfReads: seq<string>)
  {
    forall i, j | 0 <= i < j < |listOfReads| :: listOfReads[i] != listOfReads[j]
  }

  lemma {:induction false} DistinctOnce(listOfReads: seq<string>, read: string)
    requires Distinct(listOfReads) && read in listOfReads
    ensures multiset(listOfReads)[read] == 1
    decreases |listOfReads|
  {
    var init, last := listOfReads[..|listOfReads| - 1], listOfReads[|listOfReads| - 1];
    assert listOfReads == init + [last];
    assert multiset(listOfReads) == multiset(init) + multiset{last};
    if last == read {
      assert read !in init;
    } else {
      assert read in init by {
        var k :| 0 <= k < |listOfReads| && listOfReads[k] == read;
        assert init[k] == read;
      }
      DistinctOnce(init, read);
    }
  }

  /** With no duplicate reads, every accepted ordered pair of different reads has exactly one edge, of its weight. */
  lemma DistinctReadsEdgeOnce(listOfReads: seq<string>, a: string, b: string, w: nat)
    requires Distinct(listOfReads) && a in listOfReads && b in listOfReads && a != b
    ensures EdgeCount(AddAllPairs(map[], listOfReads, listOfReads), a, b, w) ==
      if MatchLength(a, b) == Some(w) then 1 else 0
  {
    AddAllPairsCount(map[], listOfReads, listOfReads, a, b, w);
    DistinctOnce(listOfReads, a);
    DistinctOnce(listOfReads, b);
  }

  /** The dictionary, a map from read to its list of edges. */
  class OverlapGraph {
    var edges: EdgeMap

    constructor ()
      ensures edges == map[]
    {
      edges := map[];
    }

    /** `overlap_match_finder(read1, read2, edges)`: records the match, if any, in place. */
    method MatchFinder(read1: string, read2: string)
      modifies this
      ensures edges == AddMatch(old(edges), read1, read2)
    {
      var perfectMatch := FindPerfectMatch(read1, read2);
      if |perfectMatch| >= MinMatch {
        if read1 !in edges {
          edges := edges[read1 := []];
        }
        edges := edges[read1 := edges[read1] + [OverlapEdge(read2, |perfectMatch|)]];
      }
    }
  }

  /**
   * `overlap_graph` without the file input and the rendering: every read
   * against every other read, in list order, into a fresh dictionary.
   */
  method OverlapEdges(listOfReads: seq<string>) returns (edges: EdgeMap)
    ensures edges == AddAllPairs(map[], listOfReads, listOfReads)
    ensures WellFormed(edges, listOfReads)
    ensures forall a, b | a in listOfReads && b in listOfReads && a != b && MatchLength(a, b).Some? ::
      a in edges && OverlapEdge(b, MatchLength(a, b).value) in edges[a]
    ensures PairMultiplicities(edges, listOfReads)
  {
    var graph := new OverlapGraph();
    for i := 0 to |listOfReads|
      invariant graph.edges == AddAllPairs(map[], listOfReads[..i], listOfReads)
    {
      var readToCheck := listOfReads[i];
      ghost var before := graph.edges;
      for j := 0 to |listOfReads|
        invariant graph.edges == AddRow(before, readToCheck, listOfReads[..j])
      {
        var otherRead := listOfReads[j];
        assert listOfReads[..j + 1][..j] == listOfReads[..j];
        if readToCheck != otherRead {
          graph.MatchFinder(readToCheck, otherRead);
        }
      }
      assert listOfReads[..|listOfReads|] == listOfReads;
      assert listOfReads[..i + 1][..i] == listOfReads[..i];
    }
    assert listOfReads[..|listOfReads|] == listOfReads;
    edges := graph.edges;
    AddAllPairsWellFormed(map[], listOfReads, listOfReads);
    forall a, b | a in listOfReads && b in listOfReads && a != b && MatchLength(a, b).Some?
      ensures a in edges && OverlapEdge(b, MatchLength(a, b).value) in edges[a]
    {
      AddAllPairsComplete(map[], listOfReads, listOfReads, a, b);
    }
    AllPairsCounts(listOfReads);
  }
}
