/**
 * The width search of table-formatter.rb: a width vector holds one width per column; the
 * search starts from roughly equal widths, hill-climbs, tries every small offset around the
 * result and finally narrows each column as long as the table does not get longer.
 */
module TableWidths {
  import opened Wrappers
  import opened Strings
  import opened OrderedHash
  import opened TableFormatter

  // ----------------------------------------------------------------- width vectors

  function Sum(s: seq<int>): int {
    if s == [] then 0 else s[0] + Sum(s[1..])
  }

  lemma {:induction false} SumUpdate(s: seq<int>, i: nat, v: int)
    requires i < |s|
    ensures Sum(s[i := v]) == Sum(s) - s[i] + v
    decreases |s|
  {
    if i > 0 {
      assert s[i := v][1..] == s[1..][i - 1 := v];
      SumUpdate(s[1..], i - 1, v);
    }
  }

  /** Every column is at least as wide as its longest word. */
  predicate AtLeast(widths: seq<int>, maxWordLengths: seq<int>) {
    |widths| == |maxWordLengths| && forall i :: 0 <= i < |widths| ==> widths[i] >= maxWordLengths[i]
  }

  /** Every row has one cell per column and no word of a column is longer than its bound. */
  ghost predicate WordsBounded(cells: seq<seq<string>>, maxWordLengths: seq<int>) {
    && (forall r :: 0 <= r < |cells| ==> |cells[r]| == |maxWordLengths|)
    && (forall r, i :: 0 <= r < |cells| && 0 <= i < |maxWordLengths| ==>
          AllFit(Words(cells[r][i]), maxWordLengths[i]))
  }

  /** Every word of every cell fits its column, so num_lines returns for every cell. */
  ghost predicate Fits(cells: seq<seq<string>>, widths: seq<int>) {
    && (forall r :: 0 <= r < |cells| ==> |cells[r]| == |widths|)
    && (forall r, i :: 0 <= r < |cells| && 0 <= i < |widths| ==> AllFit(Words(cells[r][i]), widths[i]))
  }

  lemma BoundedFits(cells: seq<seq<string>>, maxWordLengths: seq<int>, widths: seq<int>)
    requires WordsBounded(cells, maxWordLengths) && AtLeast(widths, maxWordLengths)
    ensures Fits(cells, widths)
  {
    forall r, i | 0 <= r < |cells| && 0 <= i < |widths|
      ensures AllFit(Words(cells[r][i]), widths[i])
    {
      assert AllFit(Words(cells[r][i]), maxWordLengths[i]);
    }
  }

  // ----------------------------------------------------------------- all_lines, actual_length

  /** The lines column i takes over all rows, when it is the only column. */
  function ColumnLines(cells: seq<seq<string>>, i: nat, width: int): (n: int)
    requires forall r :: 0 <= r < |cells| ==> i < |cells[r]| && AllFit(Words(cells[r][i]), width)
    ensures n >= |cells|
  {
    if cells == [] then 0 else LineCount(cells[0][i], width) + ColumnLines(cells[1..], i, width)
  }

  /** `all_lines`: the lines of each column on its own. */
  function AllLines(cells: seq<seq<string>>, widths: seq<int>): (lines: seq<int>)
    requires Fits(cells, widths)
    ensures |lines| == |widths|
    ensures forall i :: 0 <= i < |widths| ==> lines[i] >= |cells|
  {
    seq(|widths|, i requires 0 <= i < |widths| => ColumnLines(cells, i, widths[i]))
  }

  /** `row.map.with_index { |cell, i| num_lines(cell, widths[i]) }`: the lines each cell of a row takes. */
  function CellLines(row: seq<string>, widths: seq<int>): (lines: seq<int>)
    requires |row| == |widths|
    requires forall i :: 0 <= i < |widths| ==> AllFit(Words(row[i]), widths[i])
    ensures |lines| == |row|
    ensures forall i :: 0 <= i < |row| ==> lines[i] == LineCount(row[i], widths[i])
  {
    seq(|row|, i requires 0 <= i < |row| => LineCount(row[i], widths[i]))
  }

  /** Array#max on a non-empty array: no entry is larger, and it is one of the entries. */
  function MaxOf(xs: seq<int>): (n: int)
    requires xs != []
    ensures forall i :: 0 <= i < |xs| ==> n >= xs[i]
    ensures exists i :: 0 <= i < |xs| && n == xs[i]
  {
    if |xs| == 1 then xs[0]
    else
      var before := MaxOf(xs[..|xs| - 1]);
      assert forall i :: 0 <= i < |xs| - 1 ==> xs[..|xs| - 1][i] == xs[i];
      if xs[|xs| - 1] > before then xs[|xs| - 1] else before
  }

  /** The lines a row takes: the most lines any of its cells takes. */
  function RowLines(row: seq<string>, widths: seq<int>): (n: int)
    requires 1 <= |row| == |widths|
    requires forall i :: 0 <= i < |widths| ==> AllFit(Words(row[i]), widths[i])
    ensures forall i :: 0 <= i < |row| ==> n >= LineCount(row[i], widths[i])
    ensures exists i :: 0 <= i < |row| && n == LineCount(row[i], widths[i])
  {
    MaxOf(CellLines(row, widths))
  }

  /** `actual_length`: the lines of the whole table, each row as tall as its tallest cell. */
  function ActualLength(cells: seq<seq<string>>, widths: seq<int>): int
    requires |widths| >= 1 && Fits(cells, widths)
  {
    if cells == [] then 0
    else RowLines(cells[0], widths) + ActualLength(cells[1..], widths)
  }

  /** The table is at least as long as any one of its columns would be on its own. */
  lemma {:induction false} ActualLengthBounds(cells: seq<seq<string>>, widths: seq<int>, i: nat)
    requires |widths| >= 1 && Fits(cells, widths) && i < |widths|
    ensures ActualLength(cells, widths) >= ColumnLines(cells, i, widths[i]) >= |cells|
    decreases |cells|
  {
    if cells != [] {
      ActualLengthBounds(cells[1..], widths, i);
    }
  }

  /** Column by column, no wider than the other widths. */
  predicate Narrower(narrow: seq<int>, wide: seq<int>) {
    |narrow| == |wide| && forall i :: 0 <= i < |narrow| ==> narrow[i] <= wide[i]
  }

  /** Widening columns never makes a row taller. */
  lemma RowLinesFewer(row: seq<string>, narrow: seq<int>, wide: seq<int>)
    requires 1 <= |row| == |narrow| && Narrower(narrow, wide)
    requires forall i :: 0 <= i < |narrow| ==> AllFit(Words(row[i]), narrow[i])
    ensures forall i :: 0 <= i < |wide| ==> AllFit(Words(row[i]), wide[i])
    ensures RowLines(row, wide) <= RowLines(row, narrow)
  {
    forall i | 0 <= i < |row|
      ensures AllFit(Words(row[i]), wide[i]) && LineCount(row[i], wide[i]) <= LineCount(row[i], narrow[i])
    {
      LineCountFewer(row[i], narrow[i], wide[i]);
    }
    var i :| 0 <= i < |row| && RowLines(row, wide) == LineCount(row[i], wide[i]);
  }

  /** Words that fit their columns still fit wider ones. */
  lemma FitsWider(cells: seq<seq<string>>, narrow: seq<int>, wide: seq<int>)
    requires Fits(cells, narrow) && Narrower(narrow, wide)
    ensures Fits(cells, wide)
  {
    forall r, i | 0 <= r < |cells| && 0 <= i < |wide|
      ensures AllFit(Words(cells[r][i]), wide[i])
    {
      assert AllFit(Words(cells[r][i]), narrow[i]);
    }
  }

  /** Widening columns never makes the table longer. */
  lemma {:induction false} ActualLengthFewer(cells: seq<seq<string>>, narrow: seq<int>, wide: seq<int>)
    requires |narrow| >= 1 && Fits(cells, narrow) && Narrower(narrow, wide)
    ensures Fits(cells, wide) && ActualLength(cells, wide) <= ActualLength(cells, narrow)
    decreases |cells|
  {
    FitsWider(cells, narrow, wide);
    if cells != [] {
      RowLinesFewer(cells[0], narrow, wide);
      ActualLengthFewer(cells[1..], narrow, wide);
    }
  }

  // ----------------------------------------------------------------- adjust_widths, squish_column

  /** `adjust_widths`: the column `narrow` loses one unit and the column `widen` gains one. */
  function AdjustWidths(widths: seq<int>, narrow: nat, widen: nat): (r: seq<int>)
    requires narrow < |widths| && widen < |widths|
    ensures |r| == |widths| && Sum(r) == Sum(widths)
    ensures forall i :: 0 <= i < |r| && i != narrow && i != widen ==> r[i] == widths[i]
  {
    var thinner := widths[narrow := widths[narrow] - 1];
    SumUpdate(widths, narrow, widths[narrow] - 1);
    SumUpdate(thinner, widen, thinner[widen] + 1);
    thinner[widen := thinner[widen] + 1]
  }

  /** `squish_column`: one column loses one unit. */
  function SquishColumn(widths: seq<int>, i: nat): (r: seq<int>)
    requires i < |widths|
    ensures |r| == |widths| && Sum(r) == Sum(widths) - 1
    ensures forall j :: 0 <= j < |r| && j != i ==> r[j] == widths[j]
  {
    SumUpdate(widths, i, widths[i] - 1);
    widths[i := widths[i] - 1]
  }

  /**
   * Column i cannot give up one more unit: it would drop below its longest word, or the table
   * would get longer.
   */
  ghost predicate Tight(cells: seq<seq<string>>, widths: seq<int>, maxWordLengths: seq<int>, i: int) {
    && 0 <= i < |widths| == |maxWordLengths| && Fits(cells, widths)
    && (|| widths[i] - 1 < maxWordLengths[i]
        || (Fits(cells, SquishColumn(widths, i)) && ActualLength(cells, SquishColumn(widths, i)) > ActualLength(cells, widths)))
  }

  /** A tight column stays tight when other columns narrow without the table getting longer. */
  lemma TightAfterNarrowing(cells: seq<seq<string>>, widths: seq<int>, narrowed: seq<int>, maxWordLengths: seq<int>, i: nat)
    requires Tight(cells, widths, maxWordLengths, i)
    requires Narrower(narrowed, widths) && narrowed[i] == widths[i] && Fits(cells, narrowed)
    requires ActualLength(cells, narrowed) == ActualLength(cells, widths)
    ensures Tight(cells, narrowed, maxWordLengths, i)
  {
    if widths[i] - 1 >= maxWordLengths[i] {
      FitsSquished(cells, widths, narrowed, i);
      ActualLengthFewer(cells, SquishColumn(narrowed, i), SquishColumn(widths, i));
    }
  }

  /** Squishing the same column of narrower widths keeps them narrower, and the words still fit. */
  lemma FitsSquished(cells: seq<seq<string>>, widths: seq<int>, narrowed: seq<int>, i: nat)
    requires i < |widths| && Narrower(narrowed, widths) && narrowed[i] == widths[i]
    requires Fits(cells, narrowed) && Fits(cells, SquishColumn(widths, i))
    ensures Narrower(SquishColumn(narrowed, i), SquishColumn(widths, i))
    ensures Fits(cells, SquishColumn(narrowed, i))
  {
    var squished, squishedNarrowed := SquishColumn(widths, i), SquishColumn(narrowed, i);
    forall r, j | 0 <= r < |cells| && 0 <= j < |squishedNarrowed|
      ensures AllFit(Words(cells[r][j]), squishedNarrowed[j])
    {
      if j == i {
        assert squishedNarrowed[j] == squished[j];
      } else {
        assert squishedNarrowed[j] == narrowed[j];
      }
    }
  }

  /** A tight column is as narrow as it can be: any narrower width that fits its words makes the table longer. */
  lemma TightIsMinimum(cells: seq<seq<string>>, widths: seq<int>, maxWordLengths: seq<int>, i: nat, v: int)
    requires WordsBounded(cells, maxWordLengths) && AtLeast(widths, maxWordLengths)
    requires Tight(cells, widths, maxWordLengths, i) && maxWordLengths[i] <= v < widths[i]
    ensures Fits(cells, widths[i := v]) && ActualLength(cells, widths[i := v]) > ActualLength(cells, widths)
  {
    NarrowerThanSquished(widths, maxWordLengths, i, v);
    BoundedFits(cells, maxWordLengths, widths[i := v]);
    ActualLengthFewer(cells, widths[i := v], SquishColumn(widths, i));
  }

  lemma SquishNarrower(widths: seq<int>, i: nat)
    requires i < |widths|
    ensures Narrower(SquishColumn(widths, i), widths)
  {
  }

  lemma NarrowerThanSquished(widths: seq<int>, maxWordLengths: seq<int>, i: nat, v: int)
    requires AtLeast(widths, maxWordLengths) && i < |widths| && maxWordLengths[i] <= v < widths[i]
    ensures AtLeast(widths[i := v], maxWordLengths) && Narrower(widths[i := v], SquishColumn(widths, i))
  {
    var narrow, squished := widths[i := v], SquishColumn(widths, i);
    forall j | 0 <= j < |narrow|
      ensures narrow[j] >= maxWordLengths[j] && narrow[j] <= squished[j]
    {
      if j != i {
        assert narrow[j] == widths[j] == squished[j];
      }
    }
  }

  // ----------------------------------------------------------------- to_lines_map

  /** A column may still give up width when it is wider than its longest word. */
  predicate Eligible(widths: seq<int>, maxWordLengths: seq<int>, i: int)
    requires |widths| == |maxWordLengths|
  {
    0 <= i < |widths| && widths[i] > maxWordLengths[i]
  }

  /** Every value of the lines map is an eligible column. */
  ghost predicate MapsEligible(h: Hash<int, int>, widths: seq<int>, maxWordLengths: seq<int>)
    requires |widths| == |maxWordLengths|
  {
    forall k :: Get(h, k).Some? ==> Eligible(widths, maxWordLengths, Get(h, k).value)
  }

  /**
   * `to_lines_map`, as intended: the line count of each eligible column among the first n maps to
   * that column's index; of columns with equal counts the last one wins, as with Ruby's to_h.
   */
  function ToLinesMap(lines: seq<int>, widths: seq<int>, maxWordLengths: seq<int>, n: nat): Hash<int, int>
    requires n <= |lines| == |widths| == |maxWordLengths|
  {
    if n == 0 then []
    else
      var h := ToLinesMap(lines, widths, maxWordLengths, n - 1);
      if Eligible(widths, maxWordLengths, n - 1) then Put<int, int>(h, lines[n - 1], n - 1) else h
  }

  /**
   * The lines map sends a line count k to the last eligible column among the first n with k lines,
   * and has no entry for k when no eligible column has k lines.
   */
  lemma {:induction false} ToLinesMapGet(lines: seq<int>, widths: seq<int>, maxWordLengths: seq<int>, n: nat, k: int)
    requires n <= |lines| == |widths| == |maxWordLengths|
    ensures Get(ToLinesMap(lines, widths, maxWordLengths, n), k).None? <==>
      forall i :: 0 <= i < n && Eligible(widths, maxWordLengths, i) ==> lines[i] != k
    ensures Get(ToLinesMap(lines, widths, maxWordLengths, n), k).Some? ==>
      var i := Get(ToLinesMap(lines, widths, maxWordLengths, n), k).value;
      && 0 <= i < n && Eligible(widths, maxWordLengths, i) && lines[i] == k
      && forall j :: i < j < n && Eligible(widths, maxWordLengths, j) ==> lines[j] != k
  {
    if n > 0 {
      ToLinesMapGet(lines, widths, maxWordLengths, n - 1, k);
      var h := ToLinesMap(lines, widths, maxWordLengths, n - 1);
      GetPut<int, int>(h, lines[n - 1], n - 1, k);
    }
  }

  /** The intended lines map only names eligible columns. */
  lemma ToLinesMapEligible(lines: seq<int>, widths: seq<int>, maxWordLengths: seq<int>)
    requires |lines| == |widths| == |maxWordLengths|
    ensures MapsEligible(ToLinesMap(lines, widths, maxWordLengths, |lines|), widths, maxWordLengths)
  {
    forall k | Get(ToLinesMap(lines, widths, maxWordLengths, |lines|), k).Some?
      ensures Eligible(widths, maxWordLengths, Get(ToLinesMap(lines, widths, maxWordLengths, |lines|), k).value)
    {
      ToLinesMapGet(lines, widths, maxWordLengths, |lines|, k);
    }
  }

  /** The line counts of the eligible columns among the first n, in column order. */
  function EligibleLines(lines: seq<int>, widths: seq<int>, maxWordLengths: seq<int>, n: nat): seq<int>
    requires n <= |lines| == |widths| == |maxWordLengths|
  {
    if n == 0 then []
    else
      EligibleLines(lines, widths, maxWordLengths, n - 1)
      + if Eligible(widths, maxWordLengths, n - 1) then [lines[n - 1]] else []
  }

  /** `.map.with_index { |elem, index| [elem, index] }.to_h` over the first m elements. */
  function Positions(xs: seq<int>, m: nat): Hash<int, int>
    requires m <= |xs|
  {
    if m == 0 then [] else Put<int, int>(Positions(xs, m - 1), xs[m - 1], m - 1)
  }

  /**
   * `to_lines_map` as written: the index attached to a line count is its position among the
   * eligible columns, not the column's own index.
   */
  function ToLinesMapAsWritten(lines: seq<int>, widths: seq<int>, maxWordLengths: seq<int>): Hash<int, int>
    requires |lines| == |widths| == |maxWordLengths|
  {
    var eligible := EligibleLines(lines, widths, maxWordLengths, |lines|);
    Positions(eligible, |eligible|)
  }

  lemma {:induction false} AllEligiblePrefix(lines: seq<int>, widths: seq<int>, maxWordLengths: seq<int>, n: nat)
    requires n <= |lines| == |widths| == |maxWordLengths|
    requires forall i :: 0 <= i < |widths| ==> widths[i] > maxWordLengths[i]
    ensures EligibleLines(lines, widths, maxWordLengths, n) == lines[..n]
  {
    if n > 0 {
      AllEligiblePrefix(lines, widths, maxWordLengths, n - 1);
      assert lines[..n] == lines[..n - 1] + [lines[n - 1]];
    }
  }

  lemma {:induction false} PositionsPrefix(lines: seq<int>, widths: seq<int>, maxWordLengths: seq<int>, n: nat)
    requires n <= |lines| == |widths| == |maxWordLengths|
    requires forall i :: 0 <= i < |widths| ==> widths[i] > maxWordLengths[i]
    ensures Positions(lines, n) == ToLinesMap(lines, widths, maxWordLengths, n)
  {
    if n > 0 {
      PositionsPrefix(lines, widths, maxWordLengths, n - 1);
      var h := ToLinesMap(lines, widths, maxWordLengths, n - 1);
      assert Positions(lines, n - 1) == h;
      assert Positions(lines, n) == Put<int, int>(h, lines[n - 1], n - 1);
      assert Eligible(widths, maxWordLengths, n - 1);
    }
  }

  /** When every column is eligible the positions are the column indices and both versions agree. */
  lemma AsWrittenAgreesWhenAllEligible(lines: seq<int>, widths: seq<int>, maxWordLengths: seq<int>)
    requires |lines| == |widths| == |maxWordLengths|
    requires forall i :: 0 <= i < |widths| ==> widths[i] > maxWordLengths[i]
    ensures ToLinesMapAsWritten(lines, widths, maxWordLengths) == ToLinesMap(lines, widths, maxWordLengths, |lines|)
  {
    AllEligiblePrefix(lines, widths, maxWordLengths, |lines|);
    assert lines[..|lines|] == lines;
    PositionsPrefix(lines, widths, maxWordLengths, |lines|);
  }

  /**
   * With column 0 already at its longest word, the map as written sends the smallest count, 4, to
   * 0, so climb_hill would narrow column 0 below its longest word; the intended map sends it to
   * column 1.
   */
  lemma ToLinesMapShiftsIndices()
    ensures ToLinesMapAsWritten([7, 4, 9], [6, 10, 10], [6, 3, 3]) == [(4, 0), (9, 1)]
    ensures ToLinesMap([7, 4, 9], [6, 10, 10], [6, 3, 3], 3) == [(4, 1), (9, 2)]
    ensures !Eligible([6, 10, 10], [6, 3, 3], 0)
  {
    var lines, widths, bounds := [7, 4, 9], [6, 10, 10], [6, 3, 3];
    assert EligibleLines(lines, widths, bounds, 1) == [];
    assert EligibleLines(lines, widths, bounds, 3) == [4, 9];
    assert Positions([4, 9], 1) == [(4, 0)];
    assert ToLinesMap(lines, widths, bounds, 1) == [];
    assert ToLinesMap(lines, widths, bounds, 2) == [(4, 1)];
  }

  // ----------------------------------------------------------------- climb_hill, find_ballpark_widths

  /** The entry with the smallest key, `lines_map.keys.min`. */
  function MinEntry<V>(h: Hash<int, V>): (p: nat)
    requires h != []
    ensures p < |h| && forall q :: 0 <= q < |h| ==> h[p].0 <= h[q].0
  {
    if |h| == 1 then 0
    else
      var p := MinEntry(h[1..]);
      if h[0].0 <= h[1..][p].0 then 0 else p + 1
  }

  /** The entry with the largest key, `lines_map.keys.max`. */
  function MaxEntry(h: Hash<int, int>): (p: nat)
    requires h != []
    ensures p < |h| && forall q :: 0 <= q < |h| ==> h[q].0 <= h[p].0
  {
    if |h| == 1 then 0
    else
      var p := MaxEntry(h[1..]);
      if h[0].0 >= h[1..][p].0 then 0 else p + 1
  }

  /**
   * `climb_hill`, with the intended lines map: while the map has two line counts, one unit of width
   * moves from the column with the fewest lines to the column with the most, until that no longer
   * leaves the widened column with more lines than the narrowed one. The source loop has no bound;
   * here it runs at most `fuel` rounds.
   */
  method ClimbHill(cells: seq<seq<string>>, widths0: seq<int>, linesMap0: Hash<int, int>,
                   maxWordLengths: seq<int>, fuel: nat) returns (widths: seq<int>)
    requires WordsBounded(cells, maxWordLengths) && AtLeast(widths0, maxWordLengths)
    requires MapsEligible(linesMap0, widths0, maxWordLengths)
    ensures AtLeast(widths, maxWordLengths) && Sum(widths) == Sum(widths0)
  {
    widths := widths0;
    var linesMap := linesMap0;
    var solutionFound := false;
    var rounds := 0;
    while !solutionFound && |linesMap| >= 2 && rounds < fuel
      invariant AtLeast(widths, maxWordLengths) && Sum(widths) == Sum(widths0)
      invariant MapsEligible(linesMap, widths, maxWordLengths)
      decreases fuel - rounds
    {
      var lo := MinEntry(linesMap);
      var hi := MaxEntry(linesMap);
      assert Keys(linesMap)[lo] == linesMap[lo].0 && Keys(linesMap)[hi] == linesMap[hi].0;
      var narrow := Get(linesMap, linesMap[lo].0).value;
      var widen := Get(linesMap, linesMap[hi].0).value;
      var newWidths := AdjustWidths(widths, narrow, widen);
      BoundedFits(cells, maxWordLengths, newWidths);
      var testLines := AllLines(cells, newWidths);
      solutionFound := testLines[widen] <= testLines[narrow];
      if !solutionFound {
        widths := newWidths;
        linesMap := ToLinesMap(testLines, widths, maxWordLengths, |widths|);
        ToLinesMapEligible(testLines, widths, maxWordLengths);
      }
      rounds := rounds + 1;
    }
  }

  /** `widths` starts with every column equal, the first one taking the remainder. */
  function InitialWidths(n: nat): (widths: seq<int>)
    requires n >= 1
    ensures |widths| == n && Sum(widths) == LINE_WIDTH - 1 - 3 * n
    ensures forall i :: 1 <= i < n ==> widths[i] == (LINE_WIDTH - 1 - 3 * n) / n
  {
    var total := LINE_WIDTH - 1 - 3 * n;
    var equal := seq(n, _ => total / n);
    SumConstant(total / n, n);
    SumUpdate(equal, 0, total / n + total % n);
    equal[0 := total / n + total % n]
  }

  lemma {:induction false} SumConstant(c: int, n: nat)
    ensures Sum(seq(n, _ => c)) == n * c
  {
    if n > 0 {
      assert seq(n, _ => c)[1..] == seq(n - 1, _ => c);
      SumConstant(c, n - 1);
    }
  }

  /**
   * `find_ballpark_widths`: hill-climbing from the initial widths keeps the total width of the
   * columns at LINE_WIDTH - 1 less three characters of border per column, and every column at
   * least as wide as its longest word.
   */
  method FindBallparkWidths(cells: seq<seq<string>>, maxWordLengths: seq<int>, fuel: nat) returns (widths: seq<int>)
    requires |maxWordLengths| >= 1 && WordsBounded(cells, maxWordLengths)
    requires AtLeast(InitialWidths(|maxWordLengths|), maxWordLengths)
    ensures AtLeast(widths, maxWordLengths)
    ensures Sum(widths) == LINE_WIDTH - 1 - 3 * |maxWordLengths|
  {
    var n := |maxWordLengths|;
    var start := InitialWidths(n);
    BoundedFits(cells, maxWordLengths, start);
    var lines := AllLines(cells, start);
    var linesMap := ToLinesMap(lines, start, maxWordLengths, n);
    ToLinesMapEligible(lines, start, maxWordLengths);
    widths := ClimbHill(cells, start, linesMap, maxWordLengths, fuel);
  }

  // ----------------------------------------------------------------- generate_offsets

  function Pow(b: nat, e: nat): (r: nat) {
    if e == 0 then 1 else b * Pow(b, e - 1)
  }

  /**
   * `Math.log(RANDOM_TRIES, num_columns).floor` for integers: the largest e with b^e <= x.
   */
  function IntLog(x: nat, b: nat): (e: nat)
    requires x >= 1 && b >= 2
    ensures Pow(b, e) <= x < Pow(b, e + 1)
  {
    LogFrom(x, b, 0)
  }

  /** The largest exponent from e upwards whose power of b stays at most x. */
  function LogFrom(x: nat, b: nat, e: nat): (r: nat)
    requires b >= 2 && Pow(b, e) <= x
    ensures Pow(b, r) <= x < Pow(b, r + 1)
    decreases x - Pow(b, e)
  {
    PowGrows(b, e);
    if x < Pow(b, e + 1) then e else LogFrom(x, b, e + 1)
  }

  lemma PowGrows(b: nat, e: nat)
    requires b >= 2
    ensures 1 <= Pow(b, e) < Pow(b, e + 1)
  {
    PowPositive(b, e);
    var p := Pow(b, e);
    assert Pow(b, e + 1) == b * p;
    MulLe(p, 2, b);
  }

  lemma {:induction false} PowPositive(b: nat, e: nat)
    requires b >= 1
    ensures Pow(b, e) >= 1
  {
    if e > 0 {
      PowPositive(b, e - 1);
      MulLe(Pow(b, e - 1), 1, b);
    }
  }

  lemma MulLe(b: nat, p: nat, q: nat)
    requires p <= q
    ensures b * p <= b * q
  {
  }

  /** Each option extended by one more entry, i. */
  function Appended(options: seq<seq<int>>, i: int): (r: seq<seq<int>>)
    ensures |r| == |options|
  {
    seq(|options|, j requires 0 <= j < |options| => options[j] + [i])
  }

  /** The inner reduce: every option extended by each of lo, lo + 1, ..., hi in turn. */
  function Extend(options: seq<seq<int>>, lo: int, hi: int): seq<seq<int>>
    decreases hi - lo + 1
  {
    if lo > hi then [] else Appended(options, lo) + Extend(options, lo + 1, hi)
  }

  /** The outer reduce: all offset vectors of length k with entries in [-(range as int), range]. */
  function Offsets(k: nat, range: nat): seq<seq<int>> {
    if k == 0 then [[]] else Extend(Offsets(k - 1, range), -(range as int), range)
  }

  /** `generate_offsets`. Ruby's floating-point logarithm is replaced by the integer one. */
  function GenerateOffsets(numColumns: nat): seq<seq<int>>
    requires numColumns >= 2
  {
    Offsets(numColumns, IntLog(RANDOM_TRIES, numColumns))
  }

  lemma {:induction false} ExtendMembers(options: seq<seq<int>>, lo: int, hi: int, v: seq<int>)
    ensures v in Extend(options, lo, hi) <==> |v| >= 1 && lo <= v[|v| - 1] <= hi && v[..|v| - 1] in options
    decreases hi - lo + 1
  {
    if lo <= hi {
      ExtendMembers(options, lo + 1, hi, v);
      if v in Appended(options, lo) {
        var j :| 0 <= j < |options| && Appended(options, lo)[j] == v;
        assert v[..|v| - 1] == options[j];
      }
      if |v| >= 1 && v[|v| - 1] == lo && v[..|v| - 1] in options {
        var j :| 0 <= j < |options| && options[j] == v[..|v| - 1];
        assert Appended(options, lo)[j] == v;
      }
    }
  }

  /** generate_offsets lists exactly the vectors of length k whose entries lie in [-(range as int), range]. */
  lemma {:induction false} OffsetsMembers(k: nat, range: nat, v: seq<int>)
    ensures v in Offsets(k, range) <==> |v| == k && forall j :: 0 <= j < k ==> -(range as int) <= v[j] <= range
  {
    if k > 0 {
      ExtendMembers(Offsets(k - 1, range), -(range as int), range, v);
      if |v| >= 1 {
        var u := v[..|v| - 1];
        OffsetsMembers(k - 1, range, u);
        assert forall j :: 0 <= j < |v| - 1 ==> u[j] == v[j];
      }
    } else {
      assert v in [[]] <==> v == [];
    }
  }

  lemma {:induction false} ExtendCount(options: seq<seq<int>>, lo: int, hi: int)
    requires lo <= hi + 1
    ensures |Extend(options, lo, hi)| == |options| * (hi - lo + 1)
    decreases hi - lo + 1
  {
    if lo <= hi {
      ExtendCount(options, lo + 1, hi);
    }
  }

  /** There are (2 range + 1)^k offset vectors of length k. */
  lemma {:induction false} OffsetsCount(k: nat, range: nat)
    ensures |Offsets(k, range)| == Pow(2 * range + 1, k)
  {
    if k > 0 {
      var b, prev := 2 * range + 1, Offsets(k - 1, range);
      OffsetsCount(k - 1, range);
      ExtendCount(prev, -(range as int), range);
      ProductSwap(|prev|, Pow(b, k - 1), b);
    }
  }

  lemma ProductSwap(x: int, y: int, b: int)
    requires x == y
    ensures x * b == b * y
  {
  }

  // ----------------------------------------------------------------- add_valid_offsets

  /** `option.zip(current_widths).map(&:sum)`. */
  function AddVec(option: seq<int>, current: seq<int>): (r: seq<int>)
    requires |option| == |current|
    ensures |r| == |current|
  {
    seq(|option|, i requires 0 <= i < |option| => option[i] + current[i])
  }

  lemma {:induction false} SumAddVec(option: seq<int>, current: seq<int>)
    requires |option| == |current|
    ensures Sum(AddVec(option, current)) == Sum(option) + Sum(current)
    decreases |option|
  {
    if option != [] {
      SumAddVec(option[1..], current[1..]);
      assert AddVec(option, current)[1..] == AddVec(option[1..], current[1..]);
    }
  }

  /** `add_valid_offsets`: the zero-sum offsets added to the current widths, kept when every column still fits its longest word. */
  function AddValidOffsets(offsets: seq<seq<int>>, current: seq<int>, maxWordLengths: seq<int>): (r: seq<seq<int>>)
    requires |current| == |maxWordLengths|
    requires forall j :: 0 <= j < |offsets| ==> |offsets[j]| == |current|
    ensures forall j :: 0 <= j < |r| ==> AtLeast(r[j], maxWordLengths) && Sum(r[j]) == Sum(current)
  {
    if offsets == [] then []
    else
      var rest := AddValidOffsets(offsets[1..], current, maxWordLengths);
      var option := offsets[0];
      if Sum(option) == 0 && AtLeast(AddVec(option, current), maxWordLengths) then
        SumAddVec(option, current);
        [AddVec(option, current)] + rest
      else rest
  }

  /** A width vector is kept exactly when it is the current widths plus a zero-sum offset and fits every word. */
  lemma {:induction false} AddValidOffsetsMembers(offsets: seq<seq<int>>, current: seq<int>, maxWordLengths: seq<int>, w: seq<int>)
    requires |current| == |maxWordLengths|
    requires forall j :: 0 <= j < |offsets| ==> |offsets[j]| == |current|
    ensures w in AddValidOffsets(offsets, current, maxWordLengths) <==>
      exists j :: 0 <= j < |offsets| && Sum(offsets[j]) == 0 && w == AddVec(offsets[j], current) && AtLeast(w, maxWordLengths)
  {
    if offsets != [] {
      AddValidOffsetsMembers(offsets[1..], current, maxWordLengths, w);
      if exists j :: 1 <= j < |offsets| && Sum(offsets[j]) == 0 && w == AddVec(offsets[j], current) && AtLeast(w, maxWordLengths) {
        var j :| 1 <= j < |offsets| && Sum(offsets[j]) == 0 && w == AddVec(offsets[j], current) && AtLeast(w, maxWordLengths);
        assert offsets[1..][j - 1] == offsets[j];
      }
      if w in AddValidOffsets(offsets[1..], current, maxWordLengths) {
        var j :| 0 <= j < |offsets[1..]| && Sum(offsets[1..][j]) == 0 && w == AddVec(offsets[1..][j], current) && AtLeast(w, maxWordLengths);
        assert offsets[j + 1] == offsets[1..][j];
      }
    }
  }

  // ----------------------------------------------------------------- search_better_width

  /** Every offset vector of length k has k entries. */
  lemma OffsetsLengths(k: nat, range: nat)
    ensures forall j :: 0 <= j < |Offsets(k, range)| ==> |Offsets(k, range)[j]| == k
  {
    forall j | 0 <= j < |Offsets(k, range)|
      ensures |Offsets(k, range)[j]| == k
    {
      OffsetsMembers(k, range, Offsets(k, range)[j]);
    }
  }

  /** The length of the table under each option. */
  function TestedKeys(cells: seq<seq<string>>, options: seq<seq<int>>): (r: seq<int>)
    requires forall j :: 0 <= j < |options| ==> |options[j]| >= 1 && Fits(cells, options[j])
    ensures |r| == |options|
  {
    seq(|options|, j requires 0 <= j < |options| => ActualLength(cells, options[j]))
  }

  /** `width_options.map { |option| [actual_length(cells, option), option] }.to_h`. */
  function Tested(cells: seq<seq<string>>, options: seq<seq<int>>): Hash<int, seq<int>>
    requires forall j :: 0 <= j < |options| ==> |options[j]| >= 1 && Fits(cells, options[j])
  {
    FromPairs(TestedKeys(cells, options), options)
  }

  /** Each entry maps the length of the table under an option to that option. */
  lemma TestedGet(cells: seq<seq<string>>, options: seq<seq<int>>, k: int)
    requires forall j :: 0 <= j < |options| ==> |options[j]| >= 1 && Fits(cells, options[j])
    ensures var r := Get(Tested(cells, options), k);
      r.Some? ==> r.value in options && ActualLength(cells, r.value) == k
  {
    var keys := TestedKeys(cells, options);
    FromPairsGet(keys, options, k);
    var r := Get(Tested(cells, options), k);
    if r.Some? {
      var j :| 0 <= j < |keys| && keys[j] == k && options[j] == r.value;
    }
  }

  /** The length of the table under every option is a key. */
  lemma TestedCovers(cells: seq<seq<string>>, options: seq<seq<int>>, j: nat)
    requires j < |options|
    requires forall j :: 0 <= j < |options| ==> |options[j]| >= 1 && Fits(cells, options[j])
    ensures Get(Tested(cells, options), ActualLength(cells, options[j])).Some?
  {
    var keys := TestedKeys(cells, options);
    FromPairsCovers(keys, options, j);
    assert keys[j] == ActualLength(cells, options[j]);
  }

  /**
   * `search_better_width`: among the valid widths around the center, one that makes the table
   * shortest. None where the source fails: a single column (the logarithm to base 1 is infinite)
   * or no valid option (the lookup yields nil).
   */
  function SearchBetterWidth(cells: seq<seq<string>>, center: seq<int>, maxWordLengths: seq<int>): Option<seq<int>>
    requires WordsBounded(cells, maxWordLengths) && |center| == |maxWordLengths| >= 1
  {
    var n := |maxWordLengths|;
    if n < 2 then None
    else
      var options := WidthOptions(center, maxWordLengths);
      assert forall j :: 0 <= j < |options| ==> |options[j]| >= 1 && Fits(cells, options[j]) by {
        forall j | 0 <= j < |options| ensures Fits(cells, options[j]) {
          BoundedFits(cells, maxWordLengths, options[j]);
        }
      }
      var tested := Tested(cells, options);
      if tested == [] then None else Get(tested, tested[MinEntry(tested)].0)
  }

  /** `add_valid_offsets(generate_offsets(n), ballpark_center, max_word_lengths)`: the options search_better_width tries. */
  function WidthOptions(center: seq<int>, maxWordLengths: seq<int>): seq<seq<int>>
    requires |center| == |maxWordLengths| >= 2
  {
    OffsetsLengths(|maxWordLengths|, IntLog(RANDOM_TRIES, |maxWordLengths|));
    AddValidOffsets(GenerateOffsets(|maxWordLengths|), center, maxWordLengths)
  }

  /**
   * The search returns a width vector that fits every word and makes the table no longer than
   * any valid option.
   */
  lemma SearchBetterWidthMinimal(cells: seq<seq<string>>, center: seq<int>, maxWordLengths: seq<int>, option: seq<int>)
    requires WordsBounded(cells, maxWordLengths) && |center| == |maxWordLengths| >= 2
    requires option in WidthOptions(center, maxWordLengths)
    ensures SearchBetterWidth(cells, center, maxWordLengths).Some?
    ensures var w := SearchBetterWidth(cells, center, maxWordLengths).value;
      && AtLeast(w, maxWordLengths) && Sum(w) == Sum(center) && AtLeast(option, maxWordLengths)
      && (BoundedFits(cells, maxWordLengths, w); BoundedFits(cells, maxWordLengths, option);
          ActualLength(cells, w) <= ActualLength(cells, option))
  {
    var options := WidthOptions(center, maxWordLengths);
    forall j | 0 <= j < |options| ensures Fits(cells, options[j]) {
      BoundedFits(cells, maxWordLengths, options[j]);
    }
    var c :| 0 <= c < |options| && options[c] == option;
    var tested := Tested(cells, options);
    TestedCovers(cells, options, c);
    var key := Get(tested, ActualLength(cells, option)).value;
    assert (ActualLength(cells, option), key) in tested;
    var lo := MinEntry(tested);
    TestedGet(cells, options, tested[lo].0);
    assert Keys(tested)[lo] == tested[lo].0;
    var w := Get(tested, tested[lo].0).value;
    BoundedFits(cells, maxWordLengths, w);
    BoundedFits(cells, maxWordLengths, option);
  }

  /**
   * With two or more columns and a center that fits every word, the center is one of the
   * options, so the search returns a width vector of the same total that fits every word and
   * makes the table no longer than the center does.
   */
  lemma SearchBetterWidthBest(cells: seq<seq<string>>, center: seq<int>, maxWordLengths: seq<int>)
    requires WordsBounded(cells, maxWordLengths) && |center| == |maxWordLengths| >= 2
    requires AtLeast(center, maxWordLengths)
    ensures SearchBetterWidth(cells, center, maxWordLengths).Some?
    ensures var w := SearchBetterWidth(cells, center, maxWordLengths).value;
      && AtLeast(w, maxWordLengths) && Sum(w) == Sum(center)
      && (BoundedFits(cells, maxWordLengths, w); BoundedFits(cells, maxWordLengths, center);
          ActualLength(cells, w) <= ActualLength(cells, center))
  {
    var n := |maxWordLengths|;
    var range := IntLog(RANDOM_TRIES, n);
    OffsetsLengths(n, range);
    var offsets := GenerateOffsets(n);
    var zero := seq(n, _ => 0);
    OffsetsMembers(n, range, zero);
    SumConstant(0, n);
    assert AddVec(zero, center) == center;
    var z :| 0 <= z < |offsets| && offsets[z] == zero;
    AddValidOffsetsMembers(offsets, center, maxWordLengths, center);
    SearchBetterWidthMinimal(cells, center, maxWordLengths, center);
  }

  // ----------------------------------------------------------------- minimize_widths

  /**
   * `minimize_widths`: each column in turn is narrowed one unit at a time while it still fits its
   * longest word and the table keeps its length.
   */
  method MinimizeWidths(cells: seq<seq<string>>, widths0: seq<int>, maxWordLengths: seq<int>) returns (widths: seq<int>)
    requires |maxWordLengths| >= 1 && WordsBounded(cells, maxWordLengths) && AtLeast(widths0, maxWordLengths)
    requires Fits(cells, widths0)
    ensures AtLeast(widths, maxWordLengths) && Fits(cells, widths)
    ensures forall i :: 0 <= i < |widths| ==> widths[i] <= widths0[i]
    ensures ActualLength(cells, widths) == ActualLength(cells, widths0)
    ensures forall i :: 0 <= i < |widths| ==> Tight(cells, widths, maxWordLengths, i)
  {
    widths := widths0;
    for i := 0 to |widths0|
      invariant AtLeast(widths, maxWordLengths) && Fits(cells, widths)
      invariant forall j :: 0 <= j < |widths| ==> widths[j] <= widths0[j]
      invariant ActualLength(cells, widths) == ActualLength(cells, widths0)
      invariant forall k :: 0 <= k < i ==> Tight(cells, widths, maxWordLengths, k)
    {
      var narrowed := NarrowColumn(cells, widths, i, maxWordLengths);
      forall k | 0 <= k < i
        ensures Tight(cells, narrowed, maxWordLengths, k)
      {
        TightAfterNarrowing(cells, widths, narrowed, maxWordLengths, k);
      }
      widths := narrowed;
    }
  }

  /**
   * The inner loop of `minimize_widths`: column `i` loses one unit at a time while it still fits
   * its longest word and the table keeps its length. No other column changes.
   */
  method NarrowColumn(cells: seq<seq<string>>, widths0: seq<int>, i: nat, maxWordLengths: seq<int>)
    returns (widths: seq<int>)
    requires i < |maxWordLengths| && WordsBounded(cells, maxWordLengths) && AtLeast(widths0, maxWordLengths)
    requires Fits(cells, widths0)
    ensures AtLeast(widths, maxWordLengths) && Fits(cells, widths)
    ensures |widths| == |widths0| && widths[i] <= widths0[i]
    ensures forall j :: 0 <= j < |widths| && j != i ==> widths[j] == widths0[j]
    ensures ActualLength(cells, widths) == ActualLength(cells, widths0)
    ensures Tight(cells, widths, maxWordLengths, i)
  {
    widths := widths0;
    var test := SquishColumn(widths, i);
    if test[i] >= maxWordLengths[i] {
      SquishStep(widths0, widths, maxWordLengths, i);
      BoundedFits(cells, maxWordLengths, test);
    }
    while test[i] >= maxWordLengths[i] && ActualLength(cells, test) == ActualLength(cells, widths)
      invariant AtLeast(widths, maxWordLengths) && Fits(cells, widths)
      invariant |widths| == |widths0| && widths[i] <= widths0[i]
      invariant forall j :: 0 <= j < |widths| && j != i ==> widths[j] == widths0[j]
      invariant ActualLength(cells, widths) == ActualLength(cells, widths0)
      invariant test == SquishColumn(widths, i)
      invariant test[i] >= maxWordLengths[i] ==> Fits(cells, test)
      decreases test[i] - maxWordLengths[i] + 1
    {
      SquishStep(widths0, widths, maxWordLengths, i);
      widths := test;
      test := SquishColumn(widths, i);
      if test[i] >= maxWordLengths[i] {
        SquishStep(widths0, widths, maxWordLengths, i);
        BoundedFits(cells, maxWordLengths, test);
      }
    }
    NarrowStops(cells, widths, maxWordLengths, i);
  }

  /** One more unit off column i keeps every longest word fitting and leaves the other columns alone. */
  lemma SquishStep(widths0: seq<int>, widths: seq<int>, maxWordLengths: seq<int>, i: nat)
    requires i < |widths| == |widths0| && AtLeast(widths, maxWordLengths) && widths[i] - 1 >= maxWordLengths[i]
    requires forall j :: 0 <= j < |widths| && j != i ==> widths[j] == widths0[j]
    ensures AtLeast(SquishColumn(widths, i), maxWordLengths)
    ensures forall j :: 0 <= j < |widths| && j != i ==> SquishColumn(widths, i)[j] == widths0[j]
  {
  }

  /** Where the inner loop of `minimize_widths` stops, column i is tight. */
  lemma NarrowStops(cells: seq<seq<string>>, widths: seq<int>, maxWordLengths: seq<int>, i: nat)
    requires i < |widths| == |maxWordLengths| && Fits(cells, widths)
    requires SquishColumn(widths, i)[i] >= maxWordLengths[i] ==> Fits(cells, SquishColumn(widths, i))
    requires !(SquishColumn(widths, i)[i] >= maxWordLengths[i]
               && ActualLength(cells, SquishColumn(widths, i)) == ActualLength(cells, widths))
    ensures Tight(cells, widths, maxWordLengths, i)
  {
    if SquishColumn(widths, i)[i] >= maxWordLengths[i] {
      SquishNarrower(widths, i);
      ActualLengthFewer(cells, SquishColumn(widths, i), widths);
    }
  }
}
