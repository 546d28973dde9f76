/** The region filter of `read_lines_until_pattern` (src/main.rs): the lines
    of a report from the first line holding the start marker up to, and not
    including, the first line holding the end marker. Opening and reading the
    file is not modelled; the filter works on the lines already read. */
module Region {
  import opened Text

  /** The markers `extract_all_values` passes in (src/main.rs:31). */
  const StartMarker := "RESULTS"
  const EndMarker := "A V E R A G E"

  /** Index of the first line containing `marker`, or `|lines|` when none does. */
  function FirstWith(lines: seq<string>, marker: string): (r: nat)
    ensures r <= |lines|
    ensures forall k :: 0 <= k < r ==> !Contains(lines[k], marker)
    ensures r < |lines| ==> Contains(lines[r], marker)
  {
    if lines == [] then 0
    else if Contains(lines[0], marker) then 0
    else 1 + FirstWith(lines[1..], marker)
  }

  /** Reference definition of the kept lines: the slice from the first
      start-marker line to the first end-marker line, empty when the end
      marker comes first or on the same line. */
  function KeptLines(lines: seq<string>, patternStart: string, patternEnd: string): seq<string>
  {
    var s := FirstWith(lines, patternStart);
    var e := FirstWith(lines, patternEnd);
    if s < e then lines[s..e] else []
  }

  /** The loop of `read_lines_until_pattern`: a flag switched on by the first
      line holding the start marker (before that line is considered for
      keeping), a break at the first line holding the end marker, and every
      line seen while the flag is on is kept. */
  method ReadLinesUntilPattern(lines: seq<string>, patternStart: string, patternEnd: string)
    returns (kept: seq<string>)
    ensures kept == KeptLines(lines, patternStart, patternEnd)
  {
    ghost var s := FirstWith(lines, patternStart);
    ghost var e := FirstWith(lines, patternEnd);
    kept := [];
    var start := false;
    var i := 0;
    while i < |lines|
      invariant i <= e
      invariant start <==> s < i
      invariant kept == if start then lines[s..i] else []
    {
      var line := lines[i];
      if Contains(line, patternStart) {
        start := true;
      }
      if Contains(line, patternEnd) {
        break;
      }
      if start {
        kept := kept + [line];
      }
      i := i + 1;
    }
  }

  /** What the filter returns, stated without reference to its definition: the
      result is empty exactly when every start-marker line is preceded by, or
      is itself, an end-marker line; otherwise it is the contiguous run of
      input lines that begins with the first start-marker line and stops right
      before the first end-marker line (or at the end of input). */
  lemma RegionCharacterized(lines: seq<string>, patternStart: string, patternEnd: string)
    ensures var r := KeptLines(lines, patternStart, patternEnd);
            r == [] <==>
              forall a :: 0 <= a < |lines| && Contains(lines[a], patternStart) ==>
                exists k :: 0 <= k <= a && Contains(lines[k], patternEnd)
    ensures var r := KeptLines(lines, patternStart, patternEnd);
            r != [] ==>
              exists a, b :: 0 <= a < b <= |lines| && r == lines[a..b] &&
                Contains(lines[a], patternStart) &&
                (forall k :: 0 <= k < a ==> !Contains(lines[k], patternStart)) &&
                (forall k :: 0 <= k < b ==> !Contains(lines[k], patternEnd)) &&
                (b == |lines| || Contains(lines[b], patternEnd))
  {
    var s := FirstWith(lines, patternStart);
    var e := FirstWith(lines, patternEnd);
    if s < e {
      assert lines[s..e] != [];
      assert !(Contains(lines[s], patternStart) ==> exists k :: 0 <= k <= s && Contains(lines[k], patternEnd));
    } else {
      forall a | 0 <= a < |lines| && Contains(lines[a], patternStart)
        ensures exists k :: 0 <= k <= a && Contains(lines[k], patternEnd)
      {
        assert Contains(lines[e], patternEnd);
      }
    }
  }

  /** A start marker that never appears yields nothing. */
  lemma NoStartNoRegion(lines: seq<string>, patternStart: string, patternEnd: string)
    requires forall k :: 0 <= k < |lines| ==> !Contains(lines[k], patternStart)
    ensures KeptLines(lines, patternStart, patternEnd) == []
  {
    assert FirstWith(lines, patternStart) == |lines|;
  }

  /** Every line from the first start-marker line on, up to the first
      end-marker line, is kept in place, including later lines that repeat the
      start marker; no line at or after the first end-marker line is kept. */
  lemma RegionKeepsLinesInPlace(lines: seq<string>, patternStart: string, patternEnd: string, k: nat)
    requires k < |lines|
    requires exists a :: 0 <= a <= k && Contains(lines[a], patternStart)
    requires forall b :: 0 <= b <= k ==> !Contains(lines[b], patternEnd)
    ensures var r := KeptLines(lines, patternStart, patternEnd);
            var s := FirstWith(lines, patternStart);
            s <= k && k - s < |r| && r[k - s] == lines[k]
  {
    var s := FirstWith(lines, patternStart);
    var e := FirstWith(lines, patternEnd);
    assert k < e;
  }

  /** A line holding both markers keeps nothing when it is the first of either. */
  lemma BothMarkersOnFirstStartLine(lines: seq<string>, patternStart: string, patternEnd: string, a: nat)
    requires a < |lines| && Contains(lines[a], patternStart) && Contains(lines[a], patternEnd)
    requires forall k :: 0 <= k < a ==> !Contains(lines[k], patternStart)
    ensures KeptLines(lines, patternStart, patternEnd) == []
  {
    assert FirstWith(lines, patternEnd) <= a;
  }

  /** Lines before the first start-marker line that hold neither marker are
      dropped whatever they are: a report's header never reaches the
      extraction. */
  lemma PreambleIgnored(pre: seq<string>, lines: seq<string>, patternStart: string, patternEnd: string)
    requires forall k :: 0 <= k < |pre| ==> !Contains(pre[k], patternStart) && !Contains(pre[k], patternEnd)
    ensures KeptLines(pre + lines, patternStart, patternEnd) == KeptLines(lines, patternStart, patternEnd)
  {
    FirstWithAfter(pre, lines, patternStart);
    FirstWithAfter(pre, lines, patternEnd);
    var s := FirstWith(lines, patternStart);
    var e := FirstWith(lines, patternEnd);
    if s < e {
      assert (pre + lines)[|pre| + s..|pre| + e] == lines[s..e];
    }
  }

  /** Past lines that do not hold `marker`, the first line holding it is
      found where it is in the rest. */
  lemma {:induction false} FirstWithAfter(pre: seq<string>, lines: seq<string>, marker: string)
    requires forall k :: 0 <= k < |pre| ==> !Contains(pre[k], marker)
    ensures FirstWith(pre + lines, marker) == |pre| + FirstWith(lines, marker)
  {
    if pre != [] {
      assert (pre + lines)[1..] == pre[1..] + lines;
      FirstWithAfter(pre[1..], lines, marker);
    } else {
      assert pre + lines == lines;
    }
  }
}
