/** String operations of the source languages' standard libraries that the scripts lean on. */
module Strings {
  import opened Wrappers

  /** pat occurs in s starting at index k. */
  predicate OccursAt(s: string, pat: string, k: nat) {
    k + |pat| <= |s| && s[k..k + |pat|] == pat
  }

  /** The first index at or after `from` where pat occurs in s. */
  function IndexOfFrom(s: string, pat: string, from: nat): (r: Option<nat>)
    ensures r.Some? ==> from <= r.value && OccursAt(s, pat, r.value)
    ensures r.Some? ==> forall j :: from <= j < r.value ==> !OccursAt(s, pat, j)
    ensures r.None? ==> forall j :: from <= j ==> !OccursAt(s, pat, j)
    decreases |s| - from
  {
    if from + |pat| > |s| then None
    else if OccursAt(s, pat, from) then Some(from)
    else IndexOfFrom(s, pat, from + 1)
  }

  function IndexOf(s: string, pat: string): Option<nat> {
    IndexOfFrom(s, pat, 0)
  }

  /**
   * JavaScript's String.prototype.replace and Ruby's String#sub with a plain string
   * pattern: only the first occurrence is replaced.
   */
  function ReplaceFirst(s: string, pat: string, rep: string): string {
    match IndexOf(s, pat)
    case None => s
    case Some(k) => s[..k] + rep + s[k + |pat|..]
  }

  /** Replacing the first occurrence of a pattern by itself changes nothing. */
  lemma ReplaceFirstSelf(s: string, pat: string)
    ensures ReplaceFirst(s, pat, pat) == s
  {
    match IndexOf(s, pat)
    case None =>
    case Some(k) =>
      assert s[..k] + pat + s[k + |pat|..] == s[..k] + s[k..k + |pat|] + s[k + |pat|..];
      assert s[..k] + s[k..k + |pat|] + s[k + |pat|..] == s;
  }

  /** A pattern that is the whole string is found at its start, so all of it is replaced. */
  lemma ReplaceFirstWhole(s: string, rep: string)
    ensures ReplaceFirst(s, s, rep) == rep
  {
    assert OccursAt(s, s, 0) && s[..0] == [] && s[|s|..] == [];
  }

  /** Join with a separator, as Ruby's Array#join and Python's str.join do. */
  function Join(parts: seq<string>, sep: string): string {
    if parts == [] then ""
    else if |parts| == 1 then parts[0]
    else parts[0] + sep + Join(parts[1..], sep)
  }

  /**
   * s without its longest prefix of characters `drop` accepts: the white space Ruby's
   * String#to_i skips and Python's `str.lstrip()` removes, each with its own set of characters.
   */
  function TrimStart(s: string, drop: char -> bool): (r: string)
    ensures |r| <= |s| && r == s[|s| - |r|..]
    ensures forall k :: 0 <= k < |s| - |r| ==> drop(s[k])
    ensures r != [] ==> !drop(r[0])
  {
    if s != [] && drop(s[0]) then
      var r := TrimStart(s[1..], drop);
      assert forall k :: 1 <= k < |s| - |r| ==> s[k] == s[1..][k - 1];
      r
    else s
  }

  /** The first index of c in s. */
  function FirstIndex(s: string, c: char): (k: nat)
    requires c in s
    ensures k < |s| && s[k] == c && c !in s[..k]
  {
    if s[0] == c then 0 else 1 + FirstIndex(s[1..], c)
  }

  /** JavaScript's String.prototype.split with a one-character separator: n separators give n + 1 parts. */
  function Split(s: string, sep: char): (parts: seq<string>)
    ensures |parts| >= 1
    ensures forall i :: 0 <= i < |parts| ==> sep !in parts[i]
    decreases |s|
  {
    if sep !in s then [s]
    else
      var k := FirstIndex(s, sep);
      [s[..k]] + Split(s[k + 1..], sep)
  }

  /** Splitting and joining again with the same separator gives the original string back. */
  lemma {:induction false} JoinSplit(s: string, sep: char)
    ensures Join(Split(s, sep), [sep]) == s
    decreases |s|
  {
    if sep in s {
      var k := FirstIndex(s, sep);
      JoinSplit(s[k + 1..], sep);
      assert Split(s, sep)[1..] == Split(s[k + 1..], sep);
      assert s == s[..k] + [sep] + s[k + 1..];
    }
  }

  function Repeat(c: char, n: nat): (r: string)
    ensures |r| == n && forall i :: 0 <= i < n ==> r[i] == c
  {
    if n == 0 then [] else [c] + Repeat(c, n - 1)
  }

  /** The number of occurrences of c in s. */
  function Occurrences(s: string, c: char): (n: nat)
    ensures n <= |s|
  {
    if s == [] then 0 else (if s[0] == c then 1 else 0) + Occurrences(s[1..], c)
  }

  lemma {:induction false} OccurrencesAppend(a: string, b: string, c: char)
    ensures Occurrences(a + b, c) == Occurrences(a, c) + Occurrences(b, c)
    decreases |a|
  {
    if a == [] {
      assert a + b == b;
    } else {
      assert (a + b)[1..] == a[1..] + b;
      OccurrencesAppend(a[1..], b, c);
    }
  }

  /** Replacing the first occurrence of pat by a string with as many copies of c keeps the count of c. */
  lemma ReplaceFirstOccurrences(s: string, pat: string, rep: string, c: char)
    requires Occurrences(rep, c) == Occurrences(pat, c)
    ensures Occurrences(ReplaceFirst(s, pat, rep), c) == Occurrences(s, c)
  {
    match IndexOf(s, pat)
    case None =>
    case Some(k) =>
      assert s == s[..k] + pat + s[k + |pat|..];
      OccurrencesAppend(s[..k] + pat, s[k + |pat|..], c);
      OccurrencesAppend(s[..k], pat, c);
      OccurrencesAppend(s[..k] + rep, s[k + |pat|..], c);
      OccurrencesAppend(s[..k], rep, c);
  }

  /**
   * The replacement-pattern expansion JavaScript applies to the replacement string of
   * String.prototype.replace when the pattern has no capture groups: `$$` becomes `$`,
   * `$&` the matched text, `$`` the text before the match and `$'` the text after it;
   * every other `$` is kept literally.
   */
  function ExpandReplacement(rep: string, matched: string, before: string, after: string): string
    decreases |rep|
  {
    if rep == [] then []
    else if |rep| >= 2 && rep[0] == '$' && rep[1] == '$' then "$" + ExpandReplacement(rep[2..], matched, before, after)
    else if |rep| >= 2 && rep[0] == '$' && rep[1] == '&' then matched + ExpandReplacement(rep[2..], matched, before, after)
    else if |rep| >= 2 && rep[0] == '$' && rep[1] == '`' then before + ExpandReplacement(rep[2..], matched, before, after)
    else if |rep| >= 2 && rep[0] == '$' && rep[1] == '\'' then after + ExpandReplacement(rep[2..], matched, before, after)
    else [rep[0]] + ExpandReplacement(rep[1..], matched, before, after)
  }

  /**
   * String.prototype.replace with a plain string pattern and a replacement string, as
   * JavaScript runs it: only the first occurrence is replaced, and the `$` patterns of the
   * replacement are expanded against the match.
   */
  function ReplaceFirstExpanded(s: string, pat: string, rep: string): string {
    match IndexOf(s, pat)
    case None => s
    case Some(k) => s[..k] + ExpandReplacement(rep, pat, s[..k], s[k + |pat|..]) + s[k + |pat|..]
  }

  /** Without a `$` in the replacement, the expanding replace is the literal one. */
  lemma ReplaceFirstExpandedLiteral(s: string, pat: string, rep: string)
    requires '$' !in rep
    ensures ReplaceFirstExpanded(s, pat, rep) == ReplaceFirst(s, pat, rep)
  {
    match IndexOf(s, pat)
    case None =>
    case Some(k) => ExpandLiteral(rep, pat, s[..k], s[k + |pat|..]);
  }

  /** A replacement without `$` is inserted literally. */
  lemma {:induction false} ExpandLiteral(rep: string, matched: string, before: string, after: string)
    requires '$' !in rep
    ensures ExpandReplacement(rep, matched, before, after) == rep
    decreases |rep|
  {
    if rep != [] {
      assert rep[0] != '$';
      assert '$' !in rep[1..];
      ExpandLiteral(rep[1..], matched, before, after);
    }
  }

  /** A character absent from s is absent from every part of its split. */
  lemma {:induction false} SplitAvoids(s: string, sep: char, c: char)
    requires c !in s
    ensures forall i :: 0 <= i < |Split(s, sep)| ==> c !in Split(s, sep)[i]
    decreases |s|
  {
    if sep in s {
      var k := FirstIndex(s, sep);
      SplitAvoids(s[k + 1..], sep, c);
      assert Split(s, sep)[1..] == Split(s[k + 1..], sep);
    }
  }

  lemma {:induction false} OccurrencesAbsent(s: string, c: char)
    ensures c !in s <==> Occurrences(s, c) == 0
  {
    if s != [] {
      OccurrencesAbsent(s[1..], c);
      assert s == [s[0]] + s[1..];
    }
  }

  lemma OccurrencesSplit(s: string, k: nat, c: char)
    requires k <= |s|
    ensures Occurrences(s, c) == Occurrences(s[..k], c) + Occurrences(s[k..], c)
  {
    assert s == s[..k] + s[k..];
    OccurrencesAppend(s[..k], s[k..], c);
  }

  lemma {:induction false} JoinSnoc(parts: seq<string>, last: string, sep: string)
    requires parts != []
    ensures Join(parts + [last], sep) == Join(parts, sep) + sep + last
    decreases |parts|
  {
    if |parts| > 1 {
      assert (parts + [last])[1..] == parts[1..] + [last];
      JoinSnoc(parts[1..], last, sep);
    } else {
      assert (parts + [last])[1..] == [last];
    }
  }

  /** The text before the first separator is the first part. */
  lemma SplitCons(a: string, rest: string, sep: char)
    requires sep !in a
    ensures Split(a + [sep] + rest, sep) == [a] + Split(rest, sep)
  {
    var s := a + [sep] + rest;
    assert s[|a|] == sep;
    var k := FirstIndex(s, sep);
    assert s[..k] == a && s[k + 1..] == rest;
  }

  /** Splitting parts joined with a separator none of them holds gives the parts back. */
  lemma {:induction false} SplitJoin(parts: seq<string>, sep: char)
    requires parts != []
    requires forall i :: 0 <= i < |parts| ==> sep !in parts[i]
    ensures Split(Join(parts, [sep]), sep) == parts
    decreases |parts|
  {
    if |parts| > 1 {
      SplitJoin(parts[1..], sep);
      SplitCons(parts[0], Join(parts[1..], [sep]), sep);
      assert [parts[0]] + parts[1..] == parts;
    }
  }
}
