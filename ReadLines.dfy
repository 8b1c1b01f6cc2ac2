/**
 * The line filters of `process_readsO` and `process_readsDB`: which lines of
 * the input file are sequence lines. The file itself is not modelled; the
 * lines arrive as a sequence, already stripped of surrounding whitespace.
 */
module ReadLines {

  /** The two readers differ only in whether '>' marks a header line. */
  datatype Mode = OverlapMode | DeBruijnMode

  /** A line is kept when it holds none of '@', '+', 'h', nor '>' for the de Bruijn reader. */
  predicate IsSequenceLine(line: string, mode: Mode)
  {
    '@' !in line && '+' !in line && 'h' !in line && (mode == DeBruijnMode ==> '>' !in line)
  }

  /** The kept lines, in file order. */
  function SequenceLines(lines: seq<string>, mode: Mode): seq<string>
    decreases |lines|
  {
    if lines == [] then []
    else
      var kept := SequenceLines(lines[..|lines| - 1], mode);
      var line := lines[|lines| - 1];
      if IsSequenceLine(line, mode) then kept + [line] else kept
  }

  /** All characters of the given lines, in order, with nothing between them. */
  function Concat(lines: seq<string>): string
    decreases |lines|
  {
    if lines == [] then [] else Concat(lines[..|lines| - 1]) + lines[|lines| - 1]
  }

  /** Each line occurs among the kept lines as often as in the input if it is a sequence line, else never. */
  lemma {:induction false} SequenceLinesCount(lines: seq<string>, mode: Mode, line: string)
    ensures multiset(SequenceLines(lines, mode))[line] ==
      if IsSequenceLine(line, mode) then multiset(lines)[line] else 0
    decreases |lines|
  {
    if lines != [] {
      var init := lines[..|lines| - 1];
      SequenceLinesCount(init, mode, line);
      assert lines == init + [lines[|lines| - 1]];
    }
  }

  /** The concatenated stream of the de Bruijn reader contains none of the marker characters. */
  lemma {:induction false} StreamHasNoMarkers(lines: seq<string>, k: nat)
    requires k < |Concat(SequenceLines(lines, DeBruijnMode))|
    ensures Concat(SequenceLines(lines, DeBruijnMode))[k] !in {'@', '+', 'h', '>'}
    decreases |lines|
  {
    var init := lines[..|lines| - 1];
    var line := lines[|lines| - 1];
    var before := Concat(SequenceLines(init, DeBruijnMode));
    if IsSequenceLine(line, DeBruijnMode) {
      var kept := SequenceLines(init, DeBruijnMode);
      assert (kept + [line])[..|kept|] == kept;
      if k < |before| {
        StreamHasNoMarkers(init, k);
      } else {
        assert Concat(SequenceLines(lines, DeBruijnMode))[k] == line[k - |before|];
      }
    } else {
      StreamHasNoMarkers(init, k);
    }
  }

  /** The reading loop of `process_readsO`: the kept lines become the list of reads. */
  method ProcessReadsO(lines: seq<string>) returns (readsList: seq<string>)
    ensures readsList == SequenceLines(lines, OverlapMode)
  {
    readsList := [];
    for i := 0 to |lines|
      invariant readsList == SequenceLines(lines[..i], OverlapMode)
    {
      var line := lines[i];
      assert lines[..i + 1][..i] == lines[..i];
      if IsSequenceLine(line, OverlapMode) {
        readsList := readsList + [line];
      }
    }
    assert lines[..|lines|] == lines;
  }

  /** The reading loop of `process_readsDB`: the characters of the kept lines, in order, as one stream. */
  method ReadStream(lines: seq<string>) returns (readCharList: string)
    ensures readCharList == Concat(SequenceLines(lines, DeBruijnMode))
  {
    readCharList := [];
    for i := 0 to |lines|
      invariant readCharList == Concat(SequenceLines(lines[..i], DeBruijnMode))
    {
      var line := lines[i];
      assert lines[..i + 1][..i] == lines[..i];
      if IsSequenceLine(line, DeBruijnMode) {
        readCharList := readCharList + line;
      }
    }
    assert lines[..|lines|] == lines;
  }
}
