/**
 * The character-level escape passes of the sitelen-kasa Markdown-to-LaTeX converter
 * (extension.ts): escapeRegex, internalEscape and inlineEscape. The converter marks
 * text that later rewrite rules must not touch by surrounding it with ESC (U+001B).
 */
module Escapes {
  import opened Wrappers
  import opened Strings

  /** The escape marker. */
  const ESC: char := '\U{1B}'

  // ---------------------------------------------------------------- escapeRegex

  /** The characters escapeRegex backslash-escapes. */
  predicate IsRegexSpecial(c: char) {
    c in ".*+?^${}()|[]\\"
  }

  /** r is a regular-expression source that matches exactly one literal string: every special character is escaped. */
  predicate IsRegexLiteral(r: string)
    decreases |r|
  {
    r == []
    || (|r| >= 2 && r[0] == '\\' && IsRegexSpecial(r[1]) && IsRegexLiteral(r[2..]))
    || (!IsRegexSpecial(r[0]) && IsRegexLiteral(r[1..]))
  }

  /** escapeRegex: put a backslash before every special character. */
  function EscapeRegex(s: string): (r: string)
    ensures IsRegexLiteral(r)
    ensures |r| >= |s|
  {
    if s == [] then []
    else if IsRegexSpecial(s[0]) then ['\\', s[0]] + EscapeRegex(s[1..])
    else [s[0]] + EscapeRegex(s[1..])
  }

  /** The literal string a regex source of the IsRegexLiteral form matches. */
  function UnescapeRegex(r: string): string
    decreases |r|
  {
    if r == [] then []
    else if |r| >= 2 && r[0] == '\\' then [r[1]] + UnescapeRegex(r[2..])
    else [r[0]] + UnescapeRegex(r[1..])
  }

  /** The escaped source matches the original string: escaping loses nothing and adds nothing else. */
  lemma {:induction false} UnescapeEscapeRegex(s: string)
    ensures UnescapeRegex(EscapeRegex(s)) == s
  {
    if s != [] {
      UnescapeEscapeRegex(s[1..]);
      var r := EscapeRegex(s);
      if IsRegexSpecial(s[0]) {
        assert r[2..] == EscapeRegex(s[1..]);
      } else {
        assert s[0] != '\\';
        assert r[1..] == EscapeRegex(s[1..]);
      }
    }
  }

  /** A string without special characters is its own regex source. */
  lemma {:induction false} EscapeRegexPlain(s: string)
    requires forall i :: 0 <= i < |s| ==> !IsRegexSpecial(s[i])
    ensures EscapeRegex(s) == s
  {
    if s != [] {
      EscapeRegexPlain(s[1..]);
    }
  }

  // ------------------------------------------------------------- internalEscape

  /** The number of consecutive copies of c in s starting at index i. */
  function RunFrom(s: string, c: char, i: nat): (n: nat)
    requires i <= |s|
    ensures i + n <= |s|
    ensures forall j :: i <= j < i + n ==> s[j] == c
    ensures i + n == |s| || s[i + n] != c
    decreases |s| - i
  {
    if i == |s| || s[i] != c then 0 else 1 + RunFrom(s, c, i + 1)
  }

  /**
   * The outer pattern of internalEscape, ESC d (?:[d]|d(?!ESC))* d ESC, matches at i:
   * both alternatives of the group consume one delimiter, so the match is ESC, a run
   * of at least two delimiters, and ESC.
   */
  predicate SpanAt(s: string, d: char, i: nat) {
    i < |s| && s[i] == ESC
    && var m := RunFrom(s, d, i + 1);
    m >= 2 && i + 1 + m < |s| && s[i + 1 + m] == ESC
  }

  /** The first index at or after from where the outer pattern matches. */
  function FirstSpan(s: string, d: char, from: nat): (r: Option<nat>)
    ensures r.Some? ==> from <= r.value && SpanAt(s, d, r.value)
    ensures r.None? ==> forall i :: from <= i ==> !SpanAt(s, d, i)
    decreases |s| - from
  {
    if from >= |s| then None
    else if SpanAt(s, d, from) then Some(from)
    else FirstSpan(s, d, from + 1)
  }

  /**
   * internalEscape as written: the inner matchAll is given a RegExp without the g flag,
   * which JavaScript rejects with a TypeError (None); that happens as soon as the outer
   * pattern matches once. Otherwise the loop body never runs and content is returned.
   */
  function InternalEscapeAsWritten(content: string, d: char): (r: Option<string>)
    requires d != ESC
    ensures r.None? <==> exists i :: SpanAt(content, d, i)
    ensures r.Some? ==> r.value == content
  {
    match FirstSpan(content, d, 0)
    case Some(_) => None
    case None => Some(content)
  }

  /**
   * The inner rewrite of internalEscape, with the g flag its matchAll needs: each run of
   * n >= 2 backslashes followed by d becomes floor(n / 2) backslashes, ESC ESC and d.
   */
  function InnerRewrite(m: string, d: char): string
    requires d != '\\' && d != ESC
    decreases |m|
  {
    if m == [] then []
    else
      var n := RunFrom(m, '\\', 0);
      if n == 0 then [m[0]] + InnerRewrite(m[1..], d)
      else if n >= 2 && n < |m| && m[n] == d then MarkedEscape(n, d) + InnerRewrite(m[n + 1..], d)
      else m[..n] + InnerRewrite(m[n..], d)
  }

  /** What n backslashes and d become: half as many backslashes, ESC, ESC and d. */
  function MarkedEscape(n: nat, d: char): string {
    Repeat('\\', n / 2) + [ESC, ESC, d]
  }

  /** The inner rewrite keeps the number of delimiters: every rewritten run keeps its d. */
  lemma {:induction false} InnerRewriteOccurrences(m: string, d: char)
    requires d != '\\' && d != ESC
    ensures Occurrences(InnerRewrite(m, d), d) == Occurrences(m, d)
    decreases |m|
  {
    if m != [] {
      var n := RunFrom(m, '\\', 0);
      if n == 0 {
        InnerRewriteOccurrences(m[1..], d);
        CopyHead(m, InnerRewrite(m[1..], d), d);
      } else if n >= 2 && n < |m| && m[n] == d {
        InnerRewriteOccurrences(m[n + 1..], d);
        RewrittenRun(m, n, InnerRewrite(m[n + 1..], d), d);
        assert InnerRewrite(m, d) == Repeat('\\', n / 2) + [ESC, ESC, d] + InnerRewrite(m[n + 1..], d);
      } else {
        InnerRewriteOccurrences(m[n..], d);
        assert m == m[..n] + m[n..];
        OccurrencesAppend(m[..n], InnerRewrite(m[n..], d), d);
        OccurrencesAppend(m[..n], m[n..], d);
      }
    }
  }

  /** A span without backslashes comes out of the inner rewrite unchanged. */
  lemma {:induction false} InnerRewriteUnchanged(m: string, d: char)
    requires d != '\\' && d != ESC && '\\' !in m
    ensures InnerRewrite(m, d) == m
    decreases |m|
  {
    if m != [] {
      assert RunFrom(m, '\\', 0) == 0;
      assert '\\' !in m[1..];
      InnerRewriteUnchanged(m[1..], d);
      CopyHead(m, InnerRewrite(m[1..], d), d);
    }
  }

  lemma CopyHead(m: string, rest: string, d: char)
    requires m != []
    requires Occurrences(rest, d) == Occurrences(m[1..], d)
    ensures Occurrences([m[0]] + rest, d) == Occurrences(m, d)
    ensures '\\' !in m && rest == m[1..] ==> [m[0]] + rest == m
  {
    assert m == [m[0]] + m[1..];
    OccurrencesAppend([m[0]], m[1..], d);
    OccurrencesAppend([m[0]], rest, d);
  }

  lemma RewrittenRun(m: string, n: nat, rest: string, d: char)
    requires d != '\\' && d != ESC
    requires 2 <= n < |m| && m[n] == d
    requires forall j :: 0 <= j < n ==> m[j] == '\\'
    requires Occurrences(rest, d) == Occurrences(m[n + 1..], d)
    ensures Occurrences(Repeat('\\', n / 2) + [ESC, ESC, d] + rest, d) == Occurrences(m, d)
  {
    OccurrencesAppend(Repeat('\\', n / 2) + [ESC, ESC, d], rest, d);
    OccurrencesAppend(Repeat('\\', n / 2), [ESC, ESC, d], d);
    RepeatOccurrences('\\', n / 2, d);
    assert m == m[..n] + [d] + m[n + 1..];
    OccurrencesAppend(m[..n] + [d], m[n + 1..], d);
    OccurrencesAppend(m[..n], [d], d);
    RunOccurrences(m[..n], '\\', d);
    assert [ESC, ESC, d][1..] == [ESC, d] && [ESC, d][1..] == [d] && [d][1..] == [];
  }

  lemma {:induction false} RepeatOccurrences(c: char, n: nat, d: char)
    requires c != d
    ensures Occurrences(Repeat(c, n), d) == 0
  {
    if n > 0 {
      assert Repeat(c, n)[1..] == Repeat(c, n - 1);
      RepeatOccurrences(c, n - 1, d);
    }
  }

  lemma {:induction false} RunOccurrences(s: string, c: char, d: char)
    requires c != d
    requires forall j :: 0 <= j < |s| ==> s[j] == c
    ensures Occurrences(s, d) == 0
  {
    if s != [] {
      RunOccurrences(s[1..], c, d);
    }
  }

  /**
   * The content the outer loop of internalEscape (with the g flag supplied) builds from the
   * spans of the written pattern at or after i, r being the content so far. Each span is
   * handed to content.replace together with its inner rewrite, and that rewrite is a
   * replacement string, so its `$` patterns are expanded.
   */
  function OuterFrom(content: string, d: char, i: nat, r: string): string
    requires d != ESC && d != '\\'
    decreases |content| - i
  {
    if i >= |content| then r
    else if SpanAt(content, d, i) then
      var e := SpanEnd(content, d, i);
      OuterFrom(content, d, e, Updated(r, content[i..e], d))
    else OuterFrom(content, d, i + 1, r)
  }

  /** The index just past the span of the written pattern at i. */
  function SpanEnd(content: string, d: char, i: nat): (e: nat)
    requires SpanAt(content, d, i)
    ensures i + 4 <= e <= |content|
  {
    i + RunFrom(content, d, i + 1) + 2
  }

  /** content.replace(match[0], matchCopy): the span's first occurrence replaced by its inner rewrite, as a replacement string. */
  function Updated(r: string, span: string, d: char): string
    requires d != ESC && d != '\\'
  {
    ReplaceFirstExpanded(r, span, InnerRewrite(span, d))
  }

  /**
   * internalEscape with the g flag supplied: every match of the outer pattern is replaced
   * by its inner rewrite. The outer pattern's character class admits only the delimiter,
   * so no matched span holds a backslash and the inner rewrite is the span itself; for
   * every delimiter but `$` the content therefore comes back unchanged.
   */
  method InternalEscape(content: string, d: char) returns (r: string)
    requires d != ESC && d != '\\'
    ensures r == OuterFrom(content, d, 0, content)
    ensures d != '$' ==> r == content
  {
    r := content;
    var i := 0;
    while i < |content|
      invariant i <= |content|
      invariant OuterFrom(content, d, i, r) == OuterFrom(content, d, 0, content)
      invariant d != '$' ==> r == content
      decreases |content| - i
    {
      if SpanAt(content, d, i) {
        var e := SpanEnd(content, d, i);
        OuterSpan(content, d, i, r);
        r, i := Updated(r, content[i..e], d), e;
      } else {
        OuterPlain(content, d, i, r);
        i := i + 1;
      }
    }
  }

  /** One span of the written pattern: the loop moves past it, and for a delimiter other than `$` the content stays as it is. */
  lemma OuterSpan(content: string, d: char, i: nat, r: string)
    requires d != ESC && d != '\\' && SpanAt(content, d, i)
    ensures OuterFrom(content, d, i, r) == OuterFrom(content, d, SpanEnd(content, d, i), Updated(r, content[i..SpanEnd(content, d, i)], d))
    ensures d != '$' ==> Updated(r, content[i..SpanEnd(content, d, i)], d) == r
  {
    SpanKept(content, d, i, r);
  }

  lemma OuterPlain(content: string, d: char, i: nat, r: string)
    requires d != ESC && d != '\\' && i < |content| && !SpanAt(content, d, i)
    ensures OuterFrom(content, d, i, r) == OuterFrom(content, d, i + 1, r)
  { }

  /** A span of the written pattern is its own inner rewrite; without `$` in it, replacing it by itself changes nothing. */
  lemma SpanKept(content: string, d: char, i: nat, r: string)
    requires d != ESC && d != '\\' && SpanAt(content, d, i)
    ensures var span := content[i..SpanEnd(content, d, i)];
      InnerRewrite(span, d) == span && (d != '$' ==> ReplaceFirstExpanded(r, span, span) == r)
  {
    var span := content[i..SpanEnd(content, d, i)];
    assert forall j :: 0 <= j < |span| ==> span[j] == ESC || span[j] == d;
    assert '\\' !in span;
    InnerRewriteUnchanged(span, d);
    if d != '$' {
      assert '$' !in span;
      ReplaceFirstExpandedLiteral(r, span, span);
      ReplaceFirstSelf(r, span);
    }
  }

  /**
   * With `$` as the delimiter, the span ESC $ $ ESC is its own inner rewrite, but as a
   * replacement string its `$$` stands for one dollar: the span comes back as ESC $ ESC.
   */
  lemma DollarSpanCollapses()
    ensures OuterFrom([ESC, '$', '$', ESC], '$', 0, [ESC, '$', '$', ESC]) == [ESC, '$', ESC]
  {
    var c := [ESC, '$', '$', ESC];
    assert RunFrom(c, '$', 3) == 0 && RunFrom(c, '$', 2) == 1 && RunFrom(c, '$', 1) == 2;
    assert SpanAt(c, '$', 0) && SpanEnd(c, '$', 0) == 4 && c[0..4] == c;
    InnerRewriteUnchanged(c, '$');
    var collapsed := Updated(c, c, '$');
    WholeSpanCollapses(c, collapsed);
    assert OuterFrom(c, '$', 0, c) == OuterFrom(c, '$', 4, collapsed);
  }

  lemma WholeSpanCollapses(c: string, collapsed: string)
    requires c == [ESC, '$', '$', ESC] && collapsed == ReplaceFirstExpanded(c, c, c)
    ensures collapsed == [ESC, '$', ESC]
  {
    assert OccursAt(c, c, 0) && IndexOf(c, c) == Some(0);
    assert c[..0] == [] && c[4..] == [];
    assert ExpandReplacement([], c, [], []) == [];
    assert [ESC][1..] == [];
    assert ExpandReplacement([ESC], c, [], []) == [ESC];
    assert c[1..] == ['$', '$', ESC] && ['$', '$', ESC][2..] == [ESC];
    assert ExpandReplacement(['$', '$', ESC], c, [], []) == ['$', ESC];
  }

  /** A delimiter followed by ESC starts at p: the only place the intended group cannot pass. */
  predicate CloseAt(s: string, d: char, p: nat) {
    p + 1 < |s| && s[p] == d && s[p + 1] == ESC
  }

  /** The first index at or after j where a delimiter is followed by ESC. */
  function CloseFrom(s: string, d: char, j: nat): (r: Option<nat>)
    ensures r.Some? ==> j <= r.value && CloseAt(s, d, r.value)
    ensures r.Some? ==> forall p :: j <= p < r.value ==> !CloseAt(s, d, p)
    ensures r.None? ==> forall p :: j <= p ==> !CloseAt(s, d, p)
    decreases |s| - j
  {
    if j + 1 >= |s| then None
    else if CloseAt(s, d, j) then Some(j)
    else CloseFrom(s, d, j + 1)
  }

  /**
   * The outer pattern with the class `[^d]` the code evidently means,
   * ESC d (?:[^d]|d(?!ESC))* d ESC, matches at i: ESC and a delimiter open it, the group
   * takes every character up to the first delimiter followed by ESC, and that pair closes
   * it. The result is the index just past the match.
   */
  function IntendedSpanEnd(s: string, d: char, i: nat): (e: Option<nat>)
    ensures e.Some? ==> i + 4 <= e.value <= |s| && s[i] == ESC && s[i + 1] == d
    ensures e.Some? ==> CloseAt(s, d, e.value - 2)
    ensures e.Some? ==> forall p :: i + 2 <= p < e.value - 2 ==> !CloseAt(s, d, p)
    ensures e.None? && i + 1 < |s| && s[i] == ESC && s[i + 1] == d ==> forall p :: i + 2 <= p ==> !CloseAt(s, d, p)
  {
    if i + 1 < |s| && s[i] == ESC && s[i + 1] == d then
      match CloseFrom(s, d, i + 2)
      case Some(p) => Some(p + 2)
      case None => None
    else None
  }

  /**
   * internalEscape as evidently intended: the g flag, the class `[^d]`, and each span's
   * rewrite inserted literally rather than read as a replacement string. Every span from
   * ESC d to the next d ESC has its escaped delimiters rewritten. The number of delimiters
   * is kept, and content without backslashes comes back unchanged.
   */
  method InternalEscapeIntended(content: string, d: char) returns (r: string)
    requires d != ESC && d != '\\'
    ensures Occurrences(r, d) == Occurrences(content, d)
    ensures '\\' !in content ==> r == content
    ensures IntendedSpanEnd(content, d, 0) == Some(|content|) ==> r == InnerRewrite(content, d)
  {
    r := content;
    var i := 0;
    while i < |content|
      invariant i <= |content|
      invariant Occurrences(r, d) == Occurrences(content, d)
      invariant '\\' !in content ==> r == content
      invariant IntendedSpanEnd(content, d, 0) == Some(|content|) ==>
        (i == 0 && r == content) || (i == |content| && r == InnerRewrite(content, d))
      decreases |content| - i
    {
      match IntendedSpanEnd(content, d, i)
      case Some(e) =>
        var span := content[i..e];
        InnerRewriteOccurrences(span, d);
        ReplaceFirstOccurrences(r, span, InnerRewrite(span, d), d);
        if '\\' !in content {
          assert '\\' !in span;
          InnerRewriteUnchanged(span, d);
          ReplaceFirstSelf(r, span);
        }
        if i == 0 && e == |content| {
          assert span == content;
          ReplaceFirstWhole(content, InnerRewrite(span, d));
        }
        r := ReplaceFirst(r, span, InnerRewrite(span, d));
        i := e;
      case None =>
        i := i + 1;
    }
  }

  /** A run of n backslashes that ends at index n is the run RunFrom counts. */
  lemma BackslashRun(m: string, n: nat)
    requires n <= |m| && (n == |m| || m[n] != '\\')
    requires forall j :: 0 <= j < n ==> m[j] == '\\'
    ensures RunFrom(m, '\\', 0) == n
  {
  }

  /** A run of two or more backslashes before d becomes half as many backslashes, ESC, ESC and d. */
  lemma InnerRewriteMarks(m: string, n: nat, d: char)
    requires d != '\\' && d != ESC
    requires 2 <= n < |m| && m[n] == d
    requires forall j :: 0 <= j < n ==> m[j] == '\\'
    ensures InnerRewrite(m, d) == MarkedEscape(n, d) + InnerRewrite(m[n + 1..], d)
  {
    BackslashRun(m, n);
    MarkedRun(m, n, d);
  }

  lemma MarkedRun(m: string, n: nat, d: char)
    requires d != '\\' && d != ESC
    requires n == RunFrom(m, '\\', 0) && 2 <= n < |m| && m[n] == d
    ensures InnerRewrite(m, d) == MarkedEscape(n, d) + InnerRewrite(m[n + 1..], d)
  {
    assert m != [];
  }

  /** A single backslash, or a run not followed by d, is copied as it is. */
  lemma InnerRewriteKeeps(m: string, n: nat, d: char)
    requires d != '\\' && d != ESC
    requires 1 <= n <= |m| && (n == |m| || m[n] != '\\')
    requires forall j :: 0 <= j < n ==> m[j] == '\\'
    requires n == 1 || n == |m| || m[n] != d
    ensures InnerRewrite(m, d) == m[..n] + InnerRewrite(m[n..], d)
  {
    BackslashRun(m, n);
    KeptRun(m, n, d);
  }

  lemma KeptRun(m: string, n: nat, d: char)
    requires d != '\\' && d != ESC
    requires n == RunFrom(m, '\\', 0) && 1 <= n && (n == 1 || n == |m| || m[n] != d)
    ensures InnerRewrite(m, d) == m[..n] + InnerRewrite(m[n..], d)
  {
    assert m != [];
  }

  /** An inline code span, marked by inlineEscape, whose content is an escaped backtick: ESC `\\`` ESC. */
  const CODE_SPAN: string := [ESC, '`', '\\', '\\', '`', '`', ESC]

  lemma CodeSpanNoWrittenSpan()
    ensures forall i :: !SpanAt(CODE_SPAN, '`', i)
  {
    assert RunFrom(CODE_SPAN, '`', 2) == 0 && RunFrom(CODE_SPAN, '`', 1) == 1;
  }

  lemma CodeSpanIntendedSpan()
    ensures IntendedSpanEnd(CODE_SPAN, '`', 0) == Some(|CODE_SPAN|)
  {
    var c := CODE_SPAN;
    assert CloseAt(c, '`', 5) && CloseFrom(c, '`', 5) == Some(5);
    assert !CloseAt(c, '`', 4) && CloseFrom(c, '`', 4) == Some(5);
    assert !CloseAt(c, '`', 3) && CloseFrom(c, '`', 3) == Some(5);
    assert !CloseAt(c, '`', 2) && CloseFrom(c, '`', 2) == Some(5);
  }

  /** A character other than a backslash is copied by the inner rewrite. */
  lemma InnerRewriteCopies(m: string, d: char)
    requires d != '\\' && d != ESC
    requires m != [] && m[0] != '\\'
    ensures InnerRewrite(m, d) == [m[0]] + InnerRewrite(m[1..], d)
  {
    assert RunFrom(m, '\\', 0) == 0;
  }

  lemma CodeSpanRewriteRun(m: string)
    requires m == CODE_SPAN[2..]
    ensures InnerRewrite(m, '`') == ['\\', ESC, ESC, '`'] + InnerRewrite(m[3..], '`')
  {
    assert RunFrom(m, '\\', 2) == 0 && RunFrom(m, '\\', 1) == 1 && RunFrom(m, '\\', 0) == 2;
    assert Repeat('\\', 1) == ['\\'];
  }

  lemma CodeSpanRewriteHead(c: string)
    requires c == CODE_SPAN
    ensures InnerRewrite(c, '`') == [ESC, '`'] + InnerRewrite(c[2..], '`')
  {
    var rest := c[1..];
    assert rest[1..] == c[2..] && rest[0] == '`';
    InnerRewriteCopies(rest, '`');
    InnerRewriteCopies(c, '`');
  }

  /** The escaped backtick at indices 2 to 4 becomes one backslash, ESC, ESC and the backtick, at indices 2 to 5. */
  lemma CodeSpanRewrite(c: string)
    requires c == CODE_SPAN
    ensures |InnerRewrite(c, '`')| > 5
    ensures InnerRewrite(c, '`')[2] == '\\' && InnerRewrite(c, '`')[3] == ESC
    ensures InnerRewrite(c, '`')[4] == ESC && InnerRewrite(c, '`')[5] == '`'
  {
    CodeSpanRewriteHead(c);
    CodeSpanRewriteRun(c[2..]);
  }

  /**
   * The class `[d]` admits only the delimiter, so an inline code span holding an escaped
   * backtick matches nowhere and internalEscape leaves it alone, while the class `[^d]`
   * matches the whole span and its escaped backtick is marked.
   */
  lemma EscapedDelimiterMissed()
    ensures forall i :: !SpanAt(CODE_SPAN, '`', i)
    ensures IntendedSpanEnd(CODE_SPAN, '`', 0) == Some(|CODE_SPAN|)
    ensures InnerRewrite(CODE_SPAN, '`') != CODE_SPAN
  {
    CodeSpanNoWrittenSpan();
    CodeSpanIntendedSpan();
    CodeSpanRewrite(CODE_SPAN);
    assert InnerRewrite(CODE_SPAN, '`')[3] != CODE_SPAN[3];
  }

  // --------------------------------------------------------------- inlineEscape

  /** The number of consecutive backslashes just before index i: inlineEscape's backSlashes counter at i. */
  function BackslashesBefore(line: string, i: nat): nat
    requires i <= |line|
  {
    if i == 0 || line[i - 1] != '\\' then 0 else 1 + BackslashesBefore(line, i - 1)
  }

  predicate IsInlineDelimiter(c: char) {
    c == '`' || c == '$'
  }

  /** The open inline span after scanning line[..n]: inlineEscape's escapeChar, None for ''. */
  function OpenAfter(line: string, n: nat): (open: Option<char>)
    requires n <= |line|
    ensures open.Some? ==> IsInlineDelimiter(open.value)
  {
    if n == 0 then None
    else
      var open := OpenAfter(line, n - 1);
      var c := line[n - 1];
      if c == '\\' then open
      else if open.None? then
        (if BackslashesBefore(line, n - 1) % 2 == 0 && IsInlineDelimiter(c) then Some(c) else None)
      else if c == open.value && BackslashesBefore(line, n - 1) % 2 == 0 then None
      else open
  }

  /** line[i] opens an inline span: a backtick or `$`, after an even run of backslashes, with no span open. */
  predicate OpensAt(line: string, i: nat) {
    i < |line| && OpenAfter(line, i).None? && IsInlineDelimiter(line[i])
    && BackslashesBefore(line, i) % 2 == 0
  }

  /** line[i] closes the open span: the same delimiter, after an even run of backslashes. */
  predicate ClosesAt(line: string, i: nat) {
    i < |line| && OpenAfter(line, i) == Some(line[i]) && BackslashesBefore(line, i) % 2 == 0
  }

  /** inlineEscape's escapePoints after scanning line[..n]. */
  function Points(line: string, n: nat): (points: seq<nat>)
    requires n <= |line|
  {
    if n == 0 then []
    else
      var points := Points(line, n - 1);
      if OpensAt(line, n - 1) then points + [n - 1 + |points|]
      else if ClosesAt(line, n - 1) then points + [n - 1 + |points| + 1]
      else points
  }

  /** Every recorded point is an opener or a closer, and they alternate: the count is even exactly when no span is open. */
  lemma {:induction false} PointsAlternate(line: string, n: nat)
    requires n <= |line|
    ensures |Points(line, n)| % 2 == 0 <==> OpenAfter(line, n).None?
  {
    if n > 0 {
      PointsAlternate(line, n - 1);
    }
  }

  /** The scan of inlineEscape over one line, with its counter and flag. */
  method EscapePoints(line: string) returns (escapePoints: seq<nat>)
    ensures escapePoints == Points(line, |line|)
  {
    escapePoints := [];
    var escapeChar: Option<char> := None;
    var backSlashes := 0;
    var i := 0;
    while i < |line|
      invariant i <= |line|
      invariant backSlashes == BackslashesBefore(line, i)
      invariant escapeChar == OpenAfter(line, i)
      invariant escapePoints == Points(line, i)
    {
      if line[i] == '\\' {
        backSlashes := backSlashes + 1;
      } else {
        if escapeChar.None? {
          if backSlashes % 2 == 0 && IsInlineDelimiter(line[i]) {
            escapePoints := escapePoints + [i + |escapePoints|];
            escapeChar := Some(line[i]);
          }
        } else if line[i] == escapeChar.value && backSlashes % 2 == 0 {
          escapePoints := escapePoints + [i + |escapePoints| + 1];
          escapeChar := None;
        }
        backSlashes := 0;
      }
      i := i + 1;
    }
  }

  /** newLine.slice(0, index) + ESC + newLine.slice(index), with slice's clamping. */
  function InsertEsc(s: string, index: nat): (r: string)
    ensures |r| == |s| + 1
  {
    var k := if index <= |s| then index else |s|;
    s[..k] + [ESC] + s[k..]
  }

  /** The reduce of inlineEscape: insert ESC at each point in turn, into the line as already extended. */
  function InsertAll(s: string, points: seq<nat>): (r: string)
    ensures |r| == |s| + |points|
  {
    if points == [] then s
    else InsertEsc(InsertAll(s, points[..|points| - 1]), points[|points| - 1])
  }

  /** The intended marking of line[..n]: ESC just before every opener and just after every closer. */
  function Marked(line: string, n: nat): string
    requires n <= |line|
  {
    if n == 0 then []
    else
      Marked(line, n - 1)
      + (if OpensAt(line, n - 1) then [ESC] else [])
      + [line[n - 1]]
      + (if ClosesAt(line, n - 1) then [ESC] else [])
  }

  lemma {:induction false} MarkedLength(line: string, n: nat)
    requires n <= |line|
    ensures |Marked(line, n)| == n + |Points(line, n)|
  {
    if n > 0 {
      MarkedLength(line, n - 1);
    }
  }

  lemma InsertEscBefore(m: string, rest: string)
    ensures InsertEsc(m + rest, |m|) == m + [ESC] + rest
  {
    assert (m + rest)[..|m|] == m;
    assert (m + rest)[|m|..] == rest;
  }

  lemma InsertEscAfter(m: string, c: char, rest: string)
    ensures InsertEsc(m + [c] + rest, |m| + 1) == m + [c] + [ESC] + rest
  {
    assert (m + [c] + rest)[..|m| + 1] == m + [c];
    assert (m + [c] + rest)[|m| + 1..] == rest;
  }

  lemma InsertAllLast(s: string, points: seq<nat>, p: nat)
    ensures InsertAll(s, points + [p]) == InsertEsc(InsertAll(s, points), p)
  {
    assert (points + [p])[..|points|] == points;
  }

  /**
   * Shifting each point by the number of earlier insertions (and by one more for a
   * closer) makes the ESC land just before the opener and just after the closer.
   */
  lemma {:induction false} InsertAllMarked(line: string, n: nat)
    requires n <= |line|
    ensures InsertAll(line, Points(line, n)) == Marked(line, n) + line[n..]
  {
    if n > 0 {
      InsertAllMarked(line, n - 1);
      MarkedLength(line, n - 1);
      MarkStep(line, n);
    }
  }

  /** One scanning step of InsertAllMarked. */
  lemma MarkStep(line: string, n: nat)
    requires 0 < n <= |line|
    requires InsertAll(line, Points(line, n - 1)) == Marked(line, n - 1) + line[n - 1..]
    requires |Marked(line, n - 1)| == n - 1 + |Points(line, n - 1)|
    ensures InsertAll(line, Points(line, n)) == Marked(line, n) + line[n..]
  {
    assert line[n - 1..] == [line[n - 1]] + line[n..];
    if OpensAt(line, n - 1) {
      MarkOpener(line, n);
    } else if ClosesAt(line, n - 1) {
      MarkCloser(line, n);
    } else {
      assert Marked(line, n) == Marked(line, n - 1) + [line[n - 1]];
    }
  }

  lemma MarkOpener(line: string, n: nat)
    requires 0 < n <= |line| && OpensAt(line, n - 1)
    requires InsertAll(line, Points(line, n - 1)) == Marked(line, n - 1) + ([line[n - 1]] + line[n..])
    requires |Marked(line, n - 1)| == n - 1 + |Points(line, n - 1)|
    ensures InsertAll(line, Points(line, n)) == Marked(line, n) + line[n..]
  {
    var m := Marked(line, n - 1);
    var rest := [line[n - 1]] + line[n..];
    OpenerStep(line, n);
    InsertAllLast(line, Points(line, n - 1), |m|);
    InsertEscBefore(m, rest);
    assert m + [ESC] + rest == m + [ESC] + [line[n - 1]] + line[n..];
  }

  /** An opener records the point just before it and marks it with ESC. */
  lemma OpenerStep(line: string, n: nat)
    requires 0 < n <= |line| && OpensAt(line, n - 1)
    requires |Marked(line, n - 1)| == n - 1 + |Points(line, n - 1)|
    ensures Points(line, n) == Points(line, n - 1) + [|Marked(line, n - 1)|]
    ensures Marked(line, n) == Marked(line, n - 1) + [ESC] + [line[n - 1]]
  {
    assert !ClosesAt(line, n - 1);
  }

  lemma MarkCloser(line: string, n: nat)
    requires 0 < n <= |line| && ClosesAt(line, n - 1)
    requires InsertAll(line, Points(line, n - 1)) == Marked(line, n - 1) + ([line[n - 1]] + line[n..])
    requires |Marked(line, n - 1)| == n - 1 + |Points(line, n - 1)|
    ensures InsertAll(line, Points(line, n)) == Marked(line, n) + line[n..]
  {
    var m := Marked(line, n - 1);
    var c := line[n - 1];
    assert !OpensAt(line, n - 1);
    assert Points(line, n) == Points(line, n - 1) + [|m| + 1];
    assert Marked(line, n) == m + [c] + [ESC];
    InsertAllLast(line, Points(line, n - 1), |m| + 1);
    assert InsertAll(line, Points(line, n - 1)) == m + [c] + line[n..];
    InsertEscAfter(m, c, line[n..]);
  }

  /** A line with neither a backtick nor a dollar sign gets no escape point. */
  lemma {:induction false} NoDelimiterNoPoints(line: string, n: nat)
    requires n <= |line|
    requires '`' !in line && '$' !in line
    ensures Points(line, n) == [] && OpenAfter(line, n).None?
  {
    if n > 0 {
      NoDelimiterNoPoints(line, n - 1);
    }
  }

  /** The line inlineEscape produces for one carriage-return-free line: lines already starting with ESC are skipped. */
  function EscapeLine(line: string): string {
    if line != [] && line[0] == ESC then line else InsertAll(line, Points(line, |line|))
  }

  /**
   * One line of the content: a trailing carriage return is kept after the rewritten text
   * (the multiline `$` anchor matches before it); a line with a carriage return elsewhere
   * is left as it is.
   */
  function EscapeContentLine(line: string): string {
    if '\r' !in line then EscapeLine(line)
    else if line[|line| - 1] == '\r' && '\r' !in line[..|line| - 1] then EscapeLine(line[..|line| - 1]) + "\r"
    else line
  }

  function EscapeLines(lines: seq<string>): (r: seq<string>)
    ensures |r| == |lines|
    ensures forall k :: 0 <= k < |lines| ==> r[k] == EscapeContentLine(lines[k])
  {
    if lines == [] then [] else [EscapeContentLine(lines[0])] + EscapeLines(lines[1..])
  }

  /** inlineEscape: every line of the content rewritten in place. */
  method InlineEscape(content: string) returns (r: string)
    ensures r == Join(EscapeLines(Split(content, '\n')), "\n")
  {
    var lines := Split(content, '\n');
    var out: seq<string> := [];
    var k := 0;
    while k < |lines|
      invariant k <= |lines|
      invariant out == EscapeLines(lines[..k])
    {
      var rewritten := RewriteLine(lines[k]);
      EscapeLinesSnoc(lines, k);
      out := out + [rewritten];
      k := k + 1;
    }
    assert lines[..k] == lines;
    r := Join(out, "\n");
  }

  /** The loop body of inlineEscape for one line. */
  method RewriteLine(line: string) returns (rewritten: string)
    ensures rewritten == EscapeContentLine(line)
  {
    rewritten := line;
    var body := line;
    var tail := "";
    var scan := true;
    if '\r' in line {
      if line[|line| - 1] == '\r' && '\r' !in line[..|line| - 1] {
        body := line[..|line| - 1];
        tail := "\r";
      } else {
        scan := false;
      }
    }
    if scan && !(body != [] && body[0] == ESC) {
      var points := EscapePoints(body);
      rewritten := InsertAll(body, points) + tail;
    }
  }

  lemma EscapeLinesSnoc(lines: seq<string>, k: nat)
    requires k < |lines|
    ensures EscapeLines(lines[..k + 1]) == EscapeLines(lines[..k]) + [EscapeContentLine(lines[k])]
  {
    var a := EscapeLines(lines[..k + 1]);
    var b := EscapeLines(lines[..k]) + [EscapeContentLine(lines[k])];
    assert |a| == |b|;
    forall i | 0 <= i < |a|
      ensures a[i] == b[i]
    {
      assert lines[..k + 1][i] == lines[i];
      if i < k {
        assert lines[..k][i] == lines[i];
      }
    }
  }

  /** Content without backticks and dollar signs passes through inlineEscape unchanged. */
  lemma InlineEscapePlain(content: string)
    requires '`' !in content && '$' !in content
    ensures Join(EscapeLines(Split(content, '\n')), "\n") == content
  {
    var lines := Split(content, '\n');
    SplitAvoids(content, '\n', '`');
    SplitAvoids(content, '\n', '$');
    forall k | 0 <= k < |lines|
      ensures EscapeContentLine(lines[k]) == lines[k]
    {
      var line := lines[k];
      if '\r' !in line {
        NoDelimiterNoPoints(line, |line|);
      } else if line[|line| - 1] == '\r' && '\r' !in line[..|line| - 1] {
        var body := line[..|line| - 1];
        assert '`' !in body && '$' !in body;
        NoDelimiterNoPoints(body, |body|);
        assert body + "\r" == line;
      }
    }
    assert EscapeLines(lines) == lines;
    JoinSplit(content, '\n');
  }

  /**
   * A rewritten line as the source writes it back: the new line is the replacement string
   * of content.replace, so JavaScript expands its `$` patterns against the matched line
   * and the text around it.
   */
  function EscapeLineAsWritten(line: string, before: string, after: string): string {
    ExpandReplacement(EscapeLine(line), line, before, after)
  }

  /** Lines without a dollar sign are written back literally. */
  lemma AsWrittenWithoutDollar(line: string, before: string, after: string)
    requires '$' !in line
    ensures EscapeLineAsWritten(line, before, after) == EscapeLine(line)
  {
    var escaped := EscapeLine(line);
    if !(line != [] && line[0] == ESC) {
      InsertAllMarked(line, |line|);
      MarkedChars(line, |line|);
    }
    ExpandLiteral(escaped, line, before, after);
  }

  /** Marking inserts nothing but ESC. */
  lemma {:induction false} MarkedChars(line: string, n: nat)
    requires n <= |line|
    ensures forall c :: c in Marked(line, n) ==> c == ESC || c in line
  {
    if n > 0 {
      MarkedChars(line, n - 1);
    }
  }

  /** The line "$$" is marked as ESC $ $ ESC, but written back as ESC $ ESC: the pair collapses to one dollar. */
  lemma DoubleDollarCollapses(before: string, after: string)
    ensures EscapeLine("$$") == [ESC, '$', '$', ESC]
    ensures EscapeLineAsWritten("$$", before, after) == [ESC, '$', ESC]
  {
    var line := "$$";
    assert OpenAfter(line, 1) == Some('$');
    assert OpensAt(line, 0) && ClosesAt(line, 1);
    assert Points(line, 2) == [0, 3];
    assert InsertAll(line, [0]) == [ESC, '$', '$'];
    assert InsertAll(line, [0, 3]) == InsertEsc([ESC, '$', '$'], 3);
    var rep := [ESC, '$', '$', ESC];
    assert ExpandReplacement([], line, before, after) == [];
    assert [ESC][1..] == [];
    assert ExpandReplacement([ESC], line, before, after) == [ESC];
    assert ['$', '$', ESC][2..] == [ESC];
    assert ExpandReplacement(['$', '$', ESC], line, before, after) == ['$', ESC];
    assert rep[1..] == ['$', '$', ESC];
  }
}
