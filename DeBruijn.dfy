/**
 * The de Bruijn edge builder of SeqGraph.py: the 10-mer windowing of
 * `process_readsDB`, the loop of `deBruijn_graph` and `deBruijn_match_finder`.
 * Nodes are 9-mers; each processed 10-mer adds one to the count of the edge
 * from its 9-character prefix to its 9-character suffix, unless the two are
 * equal. Every 10-mer except the last one of the stream is processed.
 */
module DeBruijn {
  import opened Slices

  /** The hard-coded k-mer length. */
  const K: nat := 10

  /** How many full windows of length K a stream of n characters has. */
  function NumWindows(n: nat): nat
  {
    if n >= K then n - K + 1 else 0
  }

  /** How many windows `deBruijn_graph` processes: all of them except the last. */
  function NumProcessed(n: nat): nat
  {
    if NumWindows(n) > 0 then NumWindows(n) - 1 else 0
  }

  /**
   * The windowing loop of `process_readsDB`: one slice of length up to K at
   * every start offset, kept only when it is a full K characters.
   */
  method TenMers(stream: string) returns (kmers: seq<string>)
    ensures |kmers| == NumWindows(|stream|)
    ensures forall i :: 0 <= i < |kmers| ==> kmers[i] == stream[i..i + K]
  {
    kmers := [];
    for startPointer := 0 to |stream|
      invariant |kmers| == if startPointer + K <= |stream| then startPointer else NumWindows(|stream|)
      invariant forall i :: 0 <= i < |kmers| ==> kmers[i] == stream[i..i + K]
    {
      var kmer := Slice(stream, startPointer, startPointer + K);
      if |kmer| == K {
        SliceInside(stream, startPointer, startPointer + K);
        kmers := kmers + [kmer];
      }
    }
  }

  /** An edge of the de Bruijn graph: the ordered pair (prefix node, suffix node). */
  type EdgeKey = (string, string)

  /** The edge dictionary: each ordered pair of 9-mers to its occurrence count. */
  type EdgeCounts = map<EdgeKey, nat>

  function Count(edges: EdgeCounts, key: EdgeKey): nat
  {
    if key in edges then edges[key] else 0
  }

  /**
   * The guard of `deBruijn_match_finder`: characters 1..9 of nineMer1 equal
   * characters 0..8 of nineMer2, that shared part has 8 characters, and the
   * two 9-mers differ (no self-loop).
   */
  predicate Joins(nineMer1: string, nineMer2: string)
  {
    var shared := Slice(nineMer1, 1, 9);
    shared == Slice(nineMer2, 0, 8) && |shared| == 8 && nineMer1 != nineMer2
  }

  /**
   * The effect of one `deBruijn_match_finder(nineMer1, nineMer2, edges)` call:
   * the count of (nineMer1, nineMer2) goes up by one when they join, and no
   * other key changes.
   */
  function Bump(edges: EdgeCounts, nineMer1: string, nineMer2: string): (r: EdgeCounts)
    ensures forall key | key in edges && key != (nineMer1, nineMer2) :: key in r && r[key] == edges[key]
    ensures r.Keys <= edges.Keys + {(nineMer1, nineMer2)}
    ensures Joins(nineMer1, nineMer2) ==> (nineMer1, nineMer2) in r
    ensures Count(r, (nineMer1, nineMer2)) ==
      Count(edges, (nineMer1, nineMer2)) + if Joins(nineMer1, nineMer2) then 1 else 0
  {
    if Joins(nineMer1, nineMer2) then
      edges[(nineMer1, nineMer2) := Count(edges, (nineMer1, nineMer2)) + 1]
    else edges
  }

  /** Every stored count is at least one and no key is a self-loop. */
  ghost predicate Positive(edges: EdgeCounts)
  {
    forall key | key in edges :: edges[key] >= 1 && key.0 != key.1
  }

  lemma BumpPositive(edges: EdgeCounts, nineMer1: string, nineMer2: string)
    requires Positive(edges)
    ensures Positive(Bump(edges, nineMer1, nineMer2))
  {
  }

  /** The 9-character prefix of the window at offset i. */
  function PrefixAt(stream: string, i: nat): string
    requires i + K <= |stream|
  {
    stream[i..i + K - 1]
  }

  /** The 9-character suffix of the window at offset i. */
  function SuffixAt(stream: string, i: nat): string
    requires i + K <= |stream|
  {
    stream[i + 1..i + K]
  }

  /**
   * For the two halves of one window the consistency check always holds,
   * so they join exactly when they differ.
   */
  lemma WindowJoins(stream: string, i: nat)
    requires i + K <= |stream|
    ensures Joins(PrefixAt(stream, i), SuffixAt(stream, i)) <==> PrefixAt(stream, i) != SuffixAt(stream, i)
  {
    var p, s := PrefixAt(stream, i), SuffixAt(stream, i);
    SliceInside(p, 1, 9);
    SliceInside(s, 0, 8);
    assert p[1..9] == stream[i + 1..i + 9] == s[0..8];
  }

  /** A window is a self-loop exactly when all ten of its characters are the same. */
  lemma SelfLoopIsHomopolymer(stream: string, i: nat)
    requires i + K <= |stream|
    ensures PrefixAt(stream, i) == SuffixAt(stream, i) <==>
      forall k :: i <= k < i + K ==> stream[k] == stream[i]
  {
    var p, s := PrefixAt(stream, i), SuffixAt(stream, i);
    if p == s {
      forall k | i <= k < i + K
        ensures stream[k] == stream[i]
      {
        SameAsFirst(stream, i, k);
      }
    }
  }

  lemma {:induction false} SameAsFirst(stream: string, i: nat, k: nat)
    requires i + K <= |stream| && i <= k < i + K
    requires PrefixAt(stream, i) == SuffixAt(stream, i)
    ensures stream[k] == stream[i]
    decreases k
  {
    if k > i {
      SameAsFirst(stream, i, k - 1);
      assert stream[k - 1] == PrefixAt(stream, i)[k - 1 - i] == SuffixAt(stream, i)[k - 1 - i] == stream[k];
    }
  }

  /** The dictionary after the windows at offsets 0 .. m-1 have been processed. */
  function EdgesUpTo(stream: string, m: nat): EdgeCounts
    requires m <= NumWindows(|stream|)
  {
    if m == 0 then map[]
    else Bump(EdgesUpTo(stream, m - 1), PrefixAt(stream, m - 1), SuffixAt(stream, m - 1))
  }

  /** How many of the windows at offsets 0 .. m-1 have prefix p and suffix s. */
  function Occurrences(stream: string, m: nat, p: string, s: string): nat
    requires m <= NumWindows(|stream|)
  {
    if m == 0 then 0
    else
      Occurrences(stream, m - 1, p, s) +
      if PrefixAt(stream, m - 1) == p && SuffixAt(stream, m - 1) == s then 1 else 0
  }

  lemma {:induction false} EdgesUpToPositive(stream: string, m: nat)
    requires m <= NumWindows(|stream|)
    ensures Positive(EdgesUpTo(stream, m))
  {
    if m > 0 {
      EdgesUpToPositive(stream, m - 1);
      BumpPositive(EdgesUpTo(stream, m - 1), PrefixAt(stream, m - 1), SuffixAt(stream, m - 1));
    }
  }

  /**
   * Multiplicity: the count stored for (p, s) is the number of processed
   * windows with prefix p and suffix s, and zero for a self-loop.
   */
  lemma {:induction false} EdgesUpToCounts(stream: string, m: nat, p: string, s: string)
    requires m <= NumWindows(|stream|)
    ensures Count(EdgesUpTo(stream, m), (p, s)) == if p == s then 0 else Occurrences(stream, m, p, s)
  {
    if m > 0 {
      EdgesUpToCounts(stream, m - 1, p, s);
      WindowJoins(stream, m - 1);
    }
  }

  /** A key is present exactly when it is not a self-loop and occurs among the processed windows. */
  lemma EdgesUpToKeys(stream: string, m: nat, p: string, s: string)
    requires m <= NumWindows(|stream|)
    ensures (p, s) in EdgesUpTo(stream, m) <==> p != s && Occurrences(stream, m, p, s) > 0
  {
    EdgesUpToPositive(stream, m);
    EdgesUpToCounts(stream, m, p, s);
  }

  /** The dictionary of 9-mer pair counts that `deBruijn_graph` threads through its loop. */
  class DeBruijnGraph {
    var edges: EdgeCounts

    constructor ()
      ensures edges == map[]
    {
      edges := map[];
    }

    /** `deBruijn_match_finder(nineMer1, nineMer2, edges)`: creates or increments the pair's count in place. */
    method MatchFinder(nineMer1: string, nineMer2: string)
      modifies this
      ensures edges == Bump(old(edges), nineMer1, nineMer2)
    {
      var suffixOfRead1 := Slice(nineMer1, 1, 9);
      var prefixOfRead2 := Slice(nineMer2, 0, 8);
      if suffixOfRead1 == prefixOfRead2 {
        var shared := suffixOfRead1;
        if |shared| == 8 && nineMer1 != nineMer2 {
          if (nineMer1, nineMer2) !in edges {
            edges := edges[(nineMer1, nineMer2) := 0];
          }
          edges := edges[(nineMer1, nineMer2) := edges[(nineMer1, nineMer2)] + 1];
        }
      }
    }
  }

  /**
   * `deBruijn_graph` without the file input and the rendering: window the
   * stream, then split every window but the last into its 9-mer prefix and
   * suffix and count the pair.
   */
  method DeBruijnEdges(stream: string) returns (edges: EdgeCounts)
    ensures edges == EdgesUpTo(stream, NumProcessed(|stream|))
    ensures forall p, s :: (p, s) in edges <==> p != s && Occurrences(stream, NumProcessed(|stream|), p, s) > 0
    ensures forall p, s | (p, s) in edges :: edges[(p, s)] == Occurrences(stream, NumProcessed(|stream|), p, s)
  {
    var listOf10Mers := TenMers(stream);
    var graph := new DeBruijnGraph();
    var index := 0;
    while index < |listOf10Mers| - 1
      invariant 0 <= index <= NumProcessed(|stream|)
      invariant graph.edges == EdgesUpTo(stream, index)
    {
      var tenMer := listOf10Mers[index];
      var nineMerPrefix := Slice(tenMer, 0, 9);
      var nineMerSuffix := Slice(tenMer, 1, 10);
      SliceInside(tenMer, 0, 9);
      SliceInside(tenMer, 1, 10);
      assert nineMerPrefix == PrefixAt(stream, index);
      assert nineMerSuffix == SuffixAt(stream, index);
      graph.MatchFinder(nineMerPrefix, nineMerSuffix);
      index := index + 1;
    }
    edges := graph.edges;
    var m := NumProcessed(|stream|);
    forall p, s
      ensures (p, s) in edges <==> p != s && Occurrences(stream, m, p, s) > 0
      ensures (p, s) in edges ==> edges[(p, s)] == Occurrences(stream, m, p, s)
    {
      EdgesUpToKeys(stream, m, p, s);
      EdgesUpToCounts(stream, m, p, s);
    }
  }

  /** In "GAAAGAAAGAAAGAAAGA" the windows at offsets 0, 4 and 8 have prefix GAAAGAAAG and suffix AAAGAAAGA. */
  lemma ScenarioRepeats(st: string, p: string, s: string)
    requires st == "GAAAGAAAGAAAGAAAGA" && p == "GAAAGAAAG" && s == "AAAGAAAGA"
    ensures PrefixAt(st, 0) == p && SuffixAt(st, 0) == s
    ensures PrefixAt(st, 4) == p && SuffixAt(st, 4) == s
    ensures PrefixAt(st, 8) == p && SuffixAt(st, 8) == s
  {
  }

  /** ... and no other window of it starts with G. */
  lemma ScenarioOthers(st: string, p: string)
    requires st == "GAAAGAAAGAAAGAAAGA" && p == "GAAAGAAAG"
    ensures forall i :: 0 <= i < 9 && i % 4 != 0 ==> PrefixAt(st, i) != p
  {
    forall i | 0 <= i < 9 && i % 4 != 0
      ensures PrefixAt(st, i) != p
    {
      assert PrefixAt(st, i)[0] == st[i];
      assert st[i] == 'A' by {
        assert i in {1, 2, 3, 5, 6, 7};
      }
    }
  }

  /**
   * A repeat stream that reproduces the extra GAAAGAAAG -> AAAGAAAGA edge the
   * source's comment describes: three of its nine windows
   * are GAAAGAAAGA, but only two are processed, because the last window is
   * skipped; counting it as well would give 3.
   */
  lemma LastWindowDropped()
    ensures NumProcessed(|"GAAAGAAAGAAAGAAAGA"|) == 8
    ensures Count(EdgesUpTo("GAAAGAAAGAAAGAAAGA", 8), ("GAAAGAAAG", "AAAGAAAGA")) == 2
    ensures Count(EdgesUpTo("GAAAGAAAGAAAGAAAGA", 9), ("GAAAGAAAG", "AAAGAAAGA")) == 3
  {
    var st, p, s := "GAAAGAAAGAAAGAAAGA", "GAAAGAAAG", "AAAGAAAGA";
    ScenarioRepeats(st, p, s);
    ScenarioOthers(st, p);
    assert Occurrences(st, 4, p, s) == 1;
    assert Occurrences(st, 8, p, s) == 2;
    assert Occurrences(st, 9, p, s) == 3;
    EdgesUpToCounts(st, 8, p, s);
    EdgesUpToCounts(st, 9, p, s);
  }
}
