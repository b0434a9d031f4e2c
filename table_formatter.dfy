/**
 * table-formatter.rb: lays a Markdown pipe table out as a grid table at most LINE_WIDTH
 * characters wide, choosing column widths that keep the table short. Cells are wrapped
 * greedily at word boundaries.
 */
module TableFormatter {
  import opened Wrappers
  import opened Strings
  import opened OrderedHash

  /** Maximum horizontal width of the table. */
  const LINE_WIDTH: int := 120
  /** The budget of width combinations search_better_width may try. */
  const RANDOM_TRIES: nat := 10000

  // ----------------------------------------------------------------- words of a cell

  /** Whitespace for Ruby's awk-style split(" "). */
  predicate IsBlank(c: char) {
    c == ' ' || c == '\t' || c == '\n' || c == '\U{0B}' || c == '\U{0C}' || c == '\r'
  }

  predicate IsWord(w: string) {
    w != [] && forall j :: 0 <= j < |w| ==> !IsBlank(w[j])
  }

  /** The length of the run of non-blank characters at the start of s. */
  function WordRun(s: string): (n: nat)
    ensures n <= |s|
    ensures forall j :: 0 <= j < n ==> !IsBlank(s[j])
    ensures n == |s| || IsBlank(s[n])
  {
    if s == [] || IsBlank(s[0]) then 0 else 1 + WordRun(s[1..])
  }

  /** `cell.split(" ")`: the maximal runs of non-blank characters, in order. */
  function Words(s: string): (ws: seq<string>)
    ensures forall i :: 0 <= i < |ws| ==> IsWord(ws[i])
    decreases |s|
  {
    if s == [] then []
    else if IsBlank(s[0]) then Words(s[1..])
    else
      var n := WordRun(s);
      [s[..n]] + Words(s[n..])
  }

  // -------------------------------------------------------------- greedy wrapping

  /** Each word costs its length plus one separating space: a line of words is Cost - 1 wide. */
  function Cost(ws: seq<string>): (c: nat)
    ensures ws != [] ==> c >= |ws[0]| + 1
  {
    if ws == [] then 0 else Cost(ws[..|ws| - 1]) + |ws[|ws| - 1]| + 1
  }

  lemma {:induction false} CostCons(w: string, ws: seq<string>)
    ensures Cost([w] + ws) == |w| + 1 + Cost(ws)
    decreases |ws|
  {
    if ws != [] {
      var n := |ws|;
      assert ([w] + ws)[..n] == [w] + ws[..n - 1];
      CostCons(w, ws[..n - 1]);
    }
  }

  /** The cost of two runs of words laid end to end is the sum of their costs. */
  lemma {:induction false} CostAppend(a: seq<string>, b: seq<string>)
    ensures Cost(a + b) == Cost(a) + Cost(b)
    decreases |b|
  {
    if b == [] {
      assert a + b == a;
    } else {
      assert (a + b)[..|a + b| - 1] == a + b[..|b| - 1];
      CostAppend(a, b[..|b| - 1]);
    }
  }

  /** A run of words inside a longer run costs no more than it. */
  lemma CostInside(ws: seq<string>, p: nat, q: nat, r: nat, s: nat)
    requires p <= q <= r <= s <= |ws|
    ensures Cost(ws[q..r]) <= Cost(ws[p..s])
  {
    assert ws[p..s] == ws[p..q] + ws[q..r] + ws[r..s];
    CostAppend(ws[p..q] + ws[q..r], ws[r..s]);
    CostAppend(ws[p..q], ws[q..r]);
  }

  predicate AllFit(ws: seq<string>, width: int) {
    forall i :: 0 <= i < |ws| ==> |ws[i]| <= width
  }

  /** The longest prefix, at least k words, that still fits on a line of the given width. */
  function TakeFrom(ws: seq<string>, width: int, k: nat): (r: nat)
    requires k <= |ws| && Cost(ws[..k]) <= width + 1
    ensures k <= r <= |ws| && Cost(ws[..r]) <= width + 1
    ensures r == |ws| || Cost(ws[..r + 1]) > width + 1
    decreases |ws| - k
  {
    if k < |ws| && Cost(ws[..k + 1]) <= width + 1 then TakeFrom(ws, width, k + 1) else k
  }

  /** The words greedy wrapping puts on the first line. */
  function Take(ws: seq<string>, width: int): (k: nat)
    requires ws != [] && |ws[0]| <= width
    ensures 1 <= k <= |ws| && Cost(ws[..k]) <= width + 1
    ensures k == |ws| || Cost(ws[..k + 1]) > width + 1
  {
    assert ws[..1] == [ws[0]];
    assert Cost(ws[..1]) == |ws[0]| + 1 by {
      assert ws[..1][..0] == [];
    }
    TakeFrom(ws, width, 1)
  }

  function Flatten(lines: seq<seq<string>>): seq<string> {
    if lines == [] then [] else lines[0] + Flatten(lines[1..])
  }

  /** Greedy wrapping: each line takes as many words as fit. */
  function Greedy(ws: seq<string>, width: int): (lines: seq<seq<string>>)
    requires AllFit(ws, width)
    ensures ws != [] ==> |lines| >= 1
    ensures forall j :: 0 <= j < |lines| ==> lines[j] != [] && Cost(lines[j]) <= width + 1
    decreases |ws|
  {
    if ws == [] then []
    else
      var k := Take(ws, width);
      assert AllFit(ws[k..], width);
      [ws[..k]] + Greedy(ws[k..], width)
  }

  /** The lines partition the words. */
  lemma {:induction false} GreedyPartition(ws: seq<string>, width: int)
    requires AllFit(ws, width)
    ensures Flatten(Greedy(ws, width)) == ws
    decreases |ws|
  {
    if ws != [] {
      var k := Take(ws, width);
      assert AllFit(ws[k..], width);
      var g := Greedy(ws, width);
      var rest := Greedy(ws[k..], width);
      assert g == [ws[..k]] + rest;
      assert g[0] == ws[..k] && g[1..] == rest;
      GreedyPartition(ws[k..], width);
      assert Flatten(g) == ws[..k] + Flatten(rest);
      assert ws[..k] + ws[k..] == ws;
    }
  }

  /** No line could also have taken the first word of the next line. */
  lemma {:induction false} GreedyMaximal(ws: seq<string>, width: int, j: nat)
    requires AllFit(ws, width) && j + 1 < |Greedy(ws, width)|
    ensures Cost(Greedy(ws, width)[j] + [Greedy(ws, width)[j + 1][0]]) > width + 1
    decreases |ws|
  {
    if j == 0 {
      GreedyFirstMaximal(ws, width);
    } else {
      var k := GreedyLineAfterFirst(ws, width, j);
      var k' := GreedyLineAfterFirst(ws, width, j + 1);
      GreedyMaximal(ws[k..], width, j - 1);
    }
  }

  /** Line j of a wrap is line j - 1 of the wrap of what the first line leaves. */
  lemma GreedyLineAfterFirst(ws: seq<string>, width: int, j: nat) returns (k: nat)
    requires AllFit(ws, width) && 1 <= j < |Greedy(ws, width)|
    ensures k == Take(ws, width) && AllFit(ws[k..], width)
    ensures j - 1 < |Greedy(ws[k..], width)| && Greedy(ws, width)[j] == Greedy(ws[k..], width)[j - 1]
  {
    k := GreedyCons(ws, width);
    ConsIndex(ws[..k], Greedy(ws[k..], width), j);
  }

  /** One greedy line of Take words, then the wrap of the rest. */
  lemma GreedyCons(ws: seq<string>, width: int) returns (k: nat)
    requires AllFit(ws, width) && ws != []
    ensures k == Take(ws, width) && AllFit(ws[k..], width)
    ensures Greedy(ws, width) == [ws[..k]] + Greedy(ws[k..], width)
  {
    k := Take(ws, width);
    assert AllFit(ws[k..], width);
  }

  lemma ConsIndex<T>(x: T, rest: seq<T>, j: nat)
    requires 1 <= j <= |rest|
    ensures ([x] + rest)[j] == rest[j - 1]
  {
  }

  /** The first line could not also have taken the first word of the second. */
  lemma GreedyFirstMaximal(ws: seq<string>, width: int)
    requires AllFit(ws, width) && 1 < |Greedy(ws, width)|
    ensures Cost(Greedy(ws, width)[0] + [Greedy(ws, width)[1][0]]) > width + 1
  {
    var k := GreedyCons(ws, width);
    var rest := Greedy(ws[k..], width);
    GreedyPartition(ws[k..], width);
    GreedyNextLine(ws, k, rest);
  }

  lemma GreedyNextLine(ws: seq<string>, k: nat, rest: seq<seq<string>>)
    requires k < |ws| ==> rest != []
    requires k <= |ws| && Flatten(rest) == ws[k..]
    requires forall j :: 0 <= j < |rest| ==> rest[j] != []
    ensures rest != [] ==> k < |ws| && rest[0][0] == ws[k] && ws[..k] + [rest[0][0]] == ws[..k + 1]
  {
    if rest != [] {
      assert Flatten(rest) == rest[0] + Flatten(rest[1..]);
    }
  }

  /** What num_lines computes: one line for a cell without words, otherwise the greedy line count. */
  function LineCount(cell: string, width: int): (n: nat)
    requires AllFit(Words(cell), width)
    ensures n >= 1
  {
    var ws := Words(cell);
    if ws == [] then 1 else |Greedy(ws, width)|
  }

  /** Line breaks by position: a line that starts at word p ends just before word next[p]. */
  ghost predicate Advancing(next: seq<int>) {
    forall p :: 0 <= p < |next| ==> p < next[p] <= |next|
  }

  /** The number of lines from position p to the end when every line starting at p ends at next[p]. */
  function Hops(next: seq<int>, p: nat): nat
    requires Advancing(next) && p <= |next|
    decreases |next| - p
  {
    if p == |next| then 0 else Hops(next, next[p]) + 1
  }

  /** Breaks that never fall behind another set of breaks make no more lines. */
  lemma {:induction false} HopsFewer(narrow: seq<int>, wide: seq<int>, p: nat, q: nat)
    requires Advancing(narrow) && Advancing(wide) && |narrow| == |wide| && p <= q <= |narrow|
    requires forall i, j :: 0 <= i <= j < |narrow| && j < narrow[i] ==> wide[j] >= narrow[i]
    ensures Hops(wide, q) <= Hops(narrow, p)
    decreases |narrow| - p
  {
    if q < |narrow| {
      if q >= narrow[p] {
        HopsFewer(narrow, wide, narrow[p], q);
      } else {
        HopsFewer(narrow, wide, narrow[p], wide[q]);
      }
    }
  }

  /** Breaks of a suffix are those of the whole, shifted by the words left out. */
  lemma {:induction false} HopsShift(small: seq<int>, big: seq<int>, k: nat, p: nat)
    requires Advancing(small) && Advancing(big) && |small| + k == |big| && p <= |small|
    requires forall i :: 0 <= i < |small| ==> small[i] + k == big[i + k]
    ensures Hops(small, p) == Hops(big, p + k)
    decreases |small| - p
  {
    if p < |small| {
      HopsShift(small, big, k, small[p]);
    }
  }

  /** Where greedy wrapping at this width ends a line started at each word. */
  function Breaks(ws: seq<string>, width: int): (next: seq<int>)
    requires AllFit(ws, width)
    ensures |next| == |ws| && Advancing(next)
    ensures forall p :: 0 <= p < |ws| ==> next[p] == p + Take(ws[p..], width)
  {
    seq(|ws|, p requires 0 <= p < |ws| => p + Take(ws[p..], width))
  }

  lemma BreaksShift(ws: seq<string>, k: nat, width: int)
    requires k <= |ws| && AllFit(ws, width)
    ensures AllFit(ws[k..], width)
    ensures forall i :: 0 <= i < |ws| - k ==> Breaks(ws[k..], width)[i] + k == Breaks(ws, width)[i + k]
  {
    assert AllFit(ws[k..], width);
    forall i | 0 <= i < |ws| - k
      ensures Breaks(ws[k..], width)[i] + k == Breaks(ws, width)[i + k]
    {
      assert ws[k..][i..] == ws[i + k..];
    }
  }

  /** Greedy wrapping makes as many lines as the breaks count from the first word. */
  lemma {:induction false} GreedyHops(ws: seq<string>, width: int)
    requires AllFit(ws, width)
    ensures |Greedy(ws, width)| == Hops(Breaks(ws, width), 0)
    decreases |ws|
  {
    if ws != [] {
      var k := GreedyCons(ws, width);
      var next := Breaks(ws, width);
      assert ws[0..] == ws;
      assert Hops(next, 0) == Hops(next, k) + 1;
      BreaksShift(ws, k, width);
      GreedyHops(ws[k..], width);
      HopsShift(Breaks(ws[k..], width), next, k, 0);
    }
  }

  /** The first j words from q lie inside the first k words from p, and cost no more. */
  lemma CostInsideRun(ws: seq<string>, p: nat, q: nat, k: nat, j: nat)
    requires p <= q && q + j <= p + k <= |ws|
    ensures Cost(ws[q..][..j]) <= Cost(ws[p..][..k])
  {
    assert ws[q..][..j] == ws[q..q + j];
    assert ws[p..][..k] == ws[p..p + k];
    CostInside(ws, p, q, q + j, p + k);
  }

  /** A wider line started inside the first narrower line ends no earlier than it. */
  lemma TakeAhead(ws: seq<string>, p: nat, q: nat, width: int, wider: int)
    requires p <= q < |ws| && width <= wider && AllFit(ws, width) && AllFit(ws, wider)
    requires q < p + Take(ws[p..], width)
    ensures q + Take(ws[q..], wider) >= p + Take(ws[p..], width)
  {
    var k, k' := Take(ws[p..], width), Take(ws[q..], wider);
    if q + k' < p + k {
      CostInsideRun(ws, p, q, k, k' + 1);
      assert false;
    }
  }

  /**
   * Greedy wrapping on a line at least as wide takes no more lines: line after line it stays
   * level with or ahead of the narrower wrap.
   */
  lemma GreedyFewerLines(ws: seq<string>, width: int, wider: int)
    requires width <= wider && AllFit(ws, width)
    ensures AllFit(ws, wider) && |Greedy(ws, wider)| <= |Greedy(ws, width)|
  {
    assert AllFit(ws, wider);
    var narrow, wide := Breaks(ws, width), Breaks(ws, wider);
    forall i, j | 0 <= i <= j < |narrow| && j < narrow[i]
      ensures wide[j] >= narrow[i]
    {
      TakeAhead(ws, i, j, width, wider);
    }
    HopsFewer(narrow, wide, 0, 0);
    GreedyHops(ws, width);
    GreedyHops(ws, wider);
  }

  /** A cell never takes more lines in a wider column. */
  lemma LineCountFewer(cell: string, width: int, wider: int)
    requires AllFit(Words(cell), width) && width <= wider
    ensures AllFit(Words(cell), wider) && LineCount(cell, wider) <= LineCount(cell, width)
  {
    GreedyFewerLines(Words(cell), width, wider);
  }

  /** A word that fits on the current line belongs to the greedy first line. */
  lemma FitStep(rest: seq<string>, taken: nat, width: int)
    requires AllFit(rest, width) && taken < |rest|
    requires taken <= Take(rest, width)
    requires Cost(rest[..taken]) - 1 + |rest[taken]| + 1 <= width
    ensures taken + 1 <= Take(rest, width)
    ensures Cost(rest[..taken + 1]) == Cost(rest[..taken]) + |rest[taken]| + 1
    ensures Spaced(rest[..taken + 1]) == Spaced(rest[..taken]) + rest[taken] + " "
  {
    assert rest[..taken + 1][..taken] == rest[..taken];
    if taken == Take(rest, width) {
      assert Cost(rest[..taken + 1]) > width + 1;
    }
  }

  /** A word that does not fit ends the greedy first line. */
  lemma BreakStep(rest: seq<string>, taken: nat, width: int)
    requires AllFit(rest, width) && taken < |rest|
    requires taken <= Take(rest, width)
    requires Cost(rest[..taken]) - 1 + |rest[taken]| + 1 > width
    ensures 1 <= taken == Take(rest, width)
    ensures AllFit(rest[taken..], width)
    ensures Greedy(rest, width) == [rest[..taken]] + Greedy(rest[taken..], width)
  {
    assert rest[..taken + 1][..taken] == rest[..taken];
    if taken < Take(rest, width) {
      CostMonotone(rest, taken + 1, Take(rest, width));
    }
  }

  lemma {:induction false} CostMonotone(ws: seq<string>, i: nat, j: nat)
    requires i <= j <= |ws|
    ensures Cost(ws[..i]) <= Cost(ws[..j])
    decreases j - i
  {
    if i < j {
      CostMonotone(ws, i, j - 1);
      assert ws[..j][..j - 1] == ws[..j - 1];
    }
  }

  /** The words left on the current line when the words run out make the last greedy line. */
  lemma LastLine(rest: seq<string>, taken: nat, width: int)
    requires AllFit(rest, width) && 1 <= taken == |rest|
    requires taken <= Take(rest, width)
    ensures Greedy(rest, width) == [rest]
  {
    assert rest[taken..] == [];
    assert rest[..taken] == rest;
  }

  /**
   * The ghost state of the layout loops of num_lines and split_lines: `done` holds the lines closed so
   * far, `rest` the words from the start of the current line, of which `taken` are on it.
   */
  ghost predicate Placing(all: seq<string>, rest: seq<string>, taken: nat, done: seq<seq<string>>, width: int) {
    && AllFit(all, width) && AllFit(rest, width) && taken <= |rest|
    && Greedy(all, width) == done + Greedy(rest, width)
    && (rest != [] ==> taken <= Take(rest, width))
    && (taken == 0 ==> rest != [] || all == [])
  }

  lemma PlaceFit(all: seq<string>, rest: seq<string>, taken: nat, done: seq<seq<string>>, width: int)
    requires Placing(all, rest, taken, done, width) && taken < |rest|
    requires Cost(rest[..taken]) - 1 + |rest[taken]| + 1 <= width
    ensures Placing(all, rest, taken + 1, done, width)
    ensures rest[taken + 1..] == rest[taken..][1..]
    ensures Cost(rest[..taken + 1]) == Cost(rest[..taken]) + |rest[taken]| + 1
    ensures Spaced(rest[..taken + 1]) == Spaced(rest[..taken]) + rest[taken] + " "
  {
    FitStep(rest, taken, width);
  }

  lemma PlaceBreak(all: seq<string>, rest: seq<string>, taken: nat, done: seq<seq<string>>, width: int)
    requires Placing(all, rest, taken, done, width) && taken < |rest|
    requires Cost(rest[..taken]) - 1 + |rest[taken]| + 1 > width
    ensures taken >= 1
    ensures Placing(all, rest[taken..], 0, done + [rest[..taken]], width)
    ensures rest[taken..][0..] == rest[taken..] && rest[taken..][..0] == []
  {
    BreakStep(rest, taken, width);
  }

  lemma PlaceDone(all: seq<string>, rest: seq<string>, taken: nat, done: seq<seq<string>>, width: int)
    requires Placing(all, rest, taken, done, width) && taken == |rest|
    ensures taken == 0 <==> all == []
    ensures taken > 0 ==> rest[..taken] == rest && Greedy(all, width) == done + [rest]
  {
    if taken > 0 {
      LastLine(rest, taken, width);
    }
  }

  /** num_lines's loop: a word goes on the current line if it fits, otherwise a new line starts. */
  method NumLines(cell: string, width: int) returns (lines: int)
    requires AllFit(Words(cell), width)
    ensures lines == LineCount(cell, width)
  {
    var all := Words(cell);
    var words := all;
    lines := 1;
    var currentWidth := -1;
    ghost var rest := all;
    ghost var taken := 0;
    ghost var done: seq<seq<string>> := [];
    assert all[0..] == all && all[..0] == [];
    while words != []
      invariant Counting(all, rest, taken, done, width, words, lines, currentWidth)
      decreases |words|, taken
    {
      if currentWidth + |words[0]| + 1 <= width {
        CountFit(all, rest, taken, done, width, words, lines, currentWidth);
        currentWidth := currentWidth + |words[0]| + 1;
        words := words[1..];
        taken := taken + 1;
      } else {
        CountBreak(all, rest, taken, done, width, words, lines, currentWidth);
        done := done + [rest[..taken]];
        lines := lines + 1;
        currentWidth := -1;
        rest := rest[taken..];
        taken := 0;
      }
    }
    CountDone(all, rest, taken, done, width, words, lines, currentWidth);
  }

  /** num_lines's variables against the greedy wrap: `words` is what Placing has left to place. */
  ghost predicate Counting(all: seq<string>, rest: seq<string>, taken: nat, done: seq<seq<string>>, width: int,
                           words: seq<string>, lines: int, currentWidth: int) {
    && Placing(all, rest, taken, done, width) && words == rest[taken..]
    && lines == |done| + 1 && currentWidth == Cost(rest[..taken]) - 1
  }

  lemma CountFit(all: seq<string>, rest: seq<string>, taken: nat, done: seq<seq<string>>, width: int,
                 words: seq<string>, lines: int, currentWidth: int)
    requires Counting(all, rest, taken, done, width, words, lines, currentWidth) && words != []
    requires currentWidth + |words[0]| + 1 <= width
    ensures Counting(all, rest, taken + 1, done, width, words[1..], lines, currentWidth + |words[0]| + 1)
  {
    PlaceFit(all, rest, taken, done, width);
  }

  lemma CountBreak(all: seq<string>, rest: seq<string>, taken: nat, done: seq<seq<string>>, width: int,
                   words: seq<string>, lines: int, currentWidth: int)
    requires Counting(all, rest, taken, done, width, words, lines, currentWidth) && words != []
    requires currentWidth + |words[0]| + 1 > width
    ensures taken >= 1
    ensures Counting(all, rest[taken..], 0, done + [rest[..taken]], width, words, lines + 1, -1)
  {
    PlaceBreak(all, rest, taken, done, width);
  }

  lemma CountDone(all: seq<string>, rest: seq<string>, taken: nat, done: seq<seq<string>>, width: int,
                  words: seq<string>, lines: int, currentWidth: int)
    requires Counting(all, rest, taken, done, width, words, lines, currentWidth) && words == []
    ensures lines == if all == [] then 1 else |Greedy(all, width)|
  {
    PlaceDone(all, rest, taken, done, width);
  }

  /** The state of num_lines's loop: the words still to place, the line count and the current width. */
  datatype WrapState = WrapState(words: seq<string>, lines: int, currentWidth: int)

  /** One iteration of num_lines's loop. */
  function WrapStep(st: WrapState, width: int): WrapState {
    if st.words == [] then st
    else if st.currentWidth + |st.words[0]| + 1 <= width then
      WrapState(st.words[1..], st.lines, st.currentWidth + |st.words[0]| + 1)
    else WrapState(st.words, st.lines + 1, -1)
  }

  function WrapSteps(st: WrapState, width: int, k: nat): WrapState
    decreases k
  {
    if k == 0 then st else WrapSteps(WrapStep(st, width), width, k - 1)
  }

  /**
   * A word longer than the width is never placed, so the words never run out and
   * num_lines (and split_lines, whose loop is the same) never returns.
   */
  lemma {:induction false} LongWordNeverPlaced(st: WrapState, width: int, k: nat, w: string)
    requires w in st.words && |w| > width && st.currentWidth >= -1
    ensures w in WrapSteps(st, width, k).words
    decreases k
  {
    if k > 0 {
      var next := WrapStep(st, width);
      if st.currentWidth + |st.words[0]| + 1 <= width {
        assert st.words == [st.words[0]] + st.words[1..];
        assert st.words[0] != w;
      }
      LongWordNeverPlaced(next, width, k - 1, w);
    }
  }

  /** `str.ljust(width)`. */
  function Pad(s: string, width: int): (r: string)
    ensures |s| <= width ==> |r| == width
    ensures |s| <= width ==> r[..|s|] == s && forall j :: |s| <= j < width ==> r[j] == ' '
  {
    if |s| >= width then s else s + Repeat(' ', width - |s|)
  }

  /** The text split_lines accumulates for a line: each word followed by a space. */
  function Spaced(ws: seq<string>): string {
    if ws == [] then "" else Spaced(ws[..|ws| - 1]) + ws[|ws| - 1] + " "
  }

  /** Dropping the last character of the accumulated text (Ruby's line[0..-2]) gives the words joined by spaces. */
  lemma {:induction false} SpacedJoin(ws: seq<string>)
    requires ws != []
    ensures |Spaced(ws)| >= 1 && Spaced(ws)[..|Spaced(ws)| - 1] == Join(ws, " ")
    decreases |ws|
  {
    var n := |ws|;
    if n > 1 {
      SpacedJoin(ws[..n - 1]);
      JoinSnoc(ws[..n - 1], ws[n - 1], " ");
      assert ws[..n - 1] + [ws[n - 1]] == ws;
    } else {
      assert ws[..0] == [];
    }
  }

  /** A line of words joined by single spaces is Cost - 1 characters wide. */
  lemma {:induction false} JoinCost(ws: seq<string>)
    requires ws != []
    ensures |Join(ws, " ")| == Cost(ws) - 1
    decreases |ws|
  {
    CostCons(ws[0], ws[1..]);
    assert [ws[0]] + ws[1..] == ws;
    if |ws| > 1 {
      JoinCost(ws[1..]);
    } else {
      assert ws[1..] == [];
    }
  }

  lemma RenderedSnoc(done: seq<seq<string>>, last: seq<string>, width: int)
    ensures Rendered(done + [last], width) == Rendered(done, width) + [Pad(Join(last, " "), width)]
  {
  }

  /** The lines split_lines lays out: each greedy line joined by spaces and padded to the width. */
  function Rendered(lines: seq<seq<string>>, width: int): (r: seq<string>)
    ensures |r| == |lines|
  {
    seq(|lines|, k requires 0 <= k < |lines| => Pad(Join(lines[k], " "), width))
  }

  /** What split_lines returns: nil (None) for a cell without words, otherwise the rendered greedy lines. */
  function WrappedCell(cell: string, width: int): Option<seq<string>>
    requires AllFit(Words(cell), width)
  {
    var ws := Words(cell);
    if ws == [] then None else Some(Rendered(Greedy(ws, width), width))
  }

  /** Every line split_lines produces is exactly width characters, and there are num_lines of them. */
  lemma WrappedCellShape(cell: string, width: int)
    requires AllFit(Words(cell), width)
    ensures WrappedCell(cell, width).None? <==> Words(cell) == []
    ensures WrappedCell(cell, width).Some? ==> |WrappedCell(cell, width).value| == LineCount(cell, width)
    ensures WrappedCell(cell, width).Some? ==> forall k :: 0 <= k < |WrappedCell(cell, width).value| ==>
      |WrappedCell(cell, width).value[k]| == width
  {
    var ws := Words(cell);
    if ws != [] {
      var g := Greedy(ws, width);
      forall k | 0 <= k < |g|
        ensures |Join(g[k], " ")| <= width
      {
        JoinCost(g[k]);
      }
    }
  }

  /** Closing a line: its accumulated text without the trailing space is the joined line split_lines pads. */
  lemma RenderLine(done: seq<seq<string>>, last: seq<string>, line: string, width: int)
    requires last != [] && line == Spaced(last)
    ensures |line| >= 1
    ensures Rendered(done + [last], width) == Rendered(done, width) + [Pad(line[..|line| - 1], width)]
  {
    SpacedJoin(last);
    RenderedSnoc(done, last, width);
  }

  /** split_lines's loop. */
  method SplitLines(cell: string, width: int) returns (r: Option<seq<string>>)
    requires AllFit(Words(cell), width)
    ensures r == WrappedCell(cell, width)
  {
    var all := Words(cell);
    var words := all;
    var currentWidth := -1;
    var lines: seq<string> := [];
    var line := "";
    ghost var rest := all;
    ghost var taken := 0;
    ghost var done: seq<seq<string>> := [];
    while words != []
      invariant Placing(all, rest, taken, done, width) && words == rest[taken..]
      invariant lines == Rendered(done, width)
      invariant line == Spaced(rest[..taken])
      invariant currentWidth == Cost(rest[..taken]) - 1
      decreases |words|, taken
    {
      if currentWidth + |words[0]| + 1 <= width {
        PlaceFit(all, rest, taken, done, width);
        currentWidth := currentWidth + |words[0]| + 1;
        line := line + words[0] + " ";
        words := words[1..];
        taken := taken + 1;
      } else {
        PlaceBreak(all, rest, taken, done, width);
        RenderLine(done, rest[..taken], line, width);
        lines := lines + [Pad(line[..|line| - 1], width)];
        done := done + [rest[..taken]];
        line := "";
        currentWidth := -1;
        rest := rest[taken..];
        taken := 0;
      }
    }
    PlaceDone(all, rest, taken, done, width);
    if taken > 0 {
      RenderLine(done, rest, line, width);
    }
    if line != [] {
      lines := lines + [Pad(line[..|line| - 1], width)];
      r := Some(lines);
    } else {
      r := None;
    }
  }
}
