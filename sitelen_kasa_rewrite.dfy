/**
 * deepReplace of the sitelen-kasa converter (extension.ts): a rewrite rule is applied
 * only where it is not inside an ESC-delimited span, by anchoring it between two copies
 * of ESCAPE_REGEX, and it is applied again and again until it no longer matches.
 * The regular-expression engine itself is a parameter; the template arithmetic and the
 * language of ESCAPE_REGEX are concrete.
 */
module DeepReplace {
  import opened Wrappers
  import opened Strings
  import opened Decimal
  import opened Escapes

  // ------------------------------------------------------- the ESCAPE_REGEX language

  /** (?:ESC [^ESC]* ESC [^ESC]*)*, read as a language. */
  ghost predicate EscapeGroups(s: string)
    decreases |s|
  {
    s == []
    || (s[0] == ESC
        && exists j, k :: 1 <= j < k <= |s| && s[j] == ESC && ESC !in s[1..j] && ESC !in s[j + 1..k]
                          && EscapeGroups(s[k..]))
  }

  /** ESCAPE_REGEX, [^ESC]* (?:ESC [^ESC]* ESC [^ESC]*)*, matches the whole of s. */
  ghost predicate MatchesEscapeRegex(s: string) {
    exists i :: 0 <= i <= |s| && ESC !in s[..i] && EscapeGroups(s[i..])
  }

  lemma SkipPlain(s: string, lo: nat, hi: nat)
    requires lo <= hi <= |s| && Occurrences(s[lo..hi], ESC) == 0
    ensures Occurrences(s[lo..], ESC) == Occurrences(s[hi..], ESC)
  {
    var w := s[lo..];
    OccurrencesSplit(w, hi - lo, ESC);
    assert w[..hi - lo] == s[lo..hi];
    assert w[hi - lo..] == s[hi..];
  }

  lemma SkipMarker(s: string, j: nat)
    requires j < |s| && s[j] == ESC
    ensures Occurrences(s[j..], ESC) == 1 + Occurrences(s[j + 1..], ESC)
  {
    assert s[j..][1..] == s[j + 1..];
  }

  /** One group ESC [^ESC]* ESC [^ESC]* holds two ESC. */
  lemma GroupCount(s: string, j: nat, k: nat)
    requires 1 <= j < k <= |s| && s[0] == ESC && s[j] == ESC
    requires Occurrences(s[1..j], ESC) == 0 && Occurrences(s[j + 1..k], ESC) == 0
    ensures Occurrences(s, ESC) == 2 + Occurrences(s[k..], ESC)
  {
    assert Occurrences(s, ESC) == 1 + Occurrences(s[1..], ESC);
    SkipPlain(s, 1, j);
    SkipMarker(s, j);
    SkipPlain(s, j + 1, k);
  }

  /** The first group of a non-empty EscapeGroups string, with its ESC count. */
  lemma FirstGroup(s: string) returns (k: nat)
    requires s != [] && EscapeGroups(s)
    ensures 2 <= k <= |s| && EscapeGroups(s[k..])
    ensures Occurrences(s, ESC) == 2 + Occurrences(s[k..], ESC)
  {
    var j, k' :| 1 <= j < k' <= |s| && s[j] == ESC && ESC !in s[1..j] && ESC !in s[j + 1..k']
                 && EscapeGroups(s[k'..]);
    k := k';
    OccurrencesAbsent(s[1..j], ESC);
    OccurrencesAbsent(s[j + 1..k], ESC);
    GroupCount(s, j, k);
  }

  lemma {:induction false} EscapeGroupsEven(s: string)
    requires EscapeGroups(s)
    ensures Occurrences(s, ESC) % 2 == 0
    decreases |s|
  {
    if s != [] {
      var k := FirstGroup(s);
      EscapeGroupsEven(s[k..]);
      var m := Occurrences(s[k..], ESC);
      assert m % 2 == 0 && Occurrences(s, ESC) == m + 2;
    }
  }

  lemma {:induction false} EvenEscapeGroups(s: string)
    requires s == [] || s[0] == ESC
    requires Occurrences(s, ESC) % 2 == 0
    ensures EscapeGroups(s)
    decreases |s|
  {
    if s != [] {
      var t := s[1..];
      OccurrencesAbsent(t, ESC);
      var j := 1 + FirstIndex(t, ESC);
      assert s[1..j] == t[..j - 1];
      var u := s[j + 1..];
      var k := if ESC in u then j + 1 + FirstIndex(u, ESC) else |s|;
      assert s[j + 1..k] == u[..k - j - 1];
      OccurrencesAbsent(s[1..j], ESC);
      OccurrencesAbsent(s[j + 1..k], ESC);
      GroupCount(s, j, k);
      EvenEscapeGroups(s[k..]);
    }
  }

  /** ESCAPE_REGEX matches exactly the strings with an even number of ESC. */
  lemma EscapeRegexLanguage(s: string)
    ensures MatchesEscapeRegex(s) <==> Occurrences(s, ESC) % 2 == 0
  {
    if MatchesEscapeRegex(s) {
      var i :| 0 <= i <= |s| && ESC !in s[..i] && EscapeGroups(s[i..]);
      EscapeGroupsEven(s[i..]);
      OccurrencesSplit(s, i, ESC);
      OccurrencesAbsent(s[..i], ESC);
    }
    if Occurrences(s, ESC) % 2 == 0 {
      var i := if ESC in s then FirstIndex(s, ESC) else |s|;
      OccurrencesSplit(s, i, ESC);
      OccurrencesAbsent(s[..i], ESC);
      EvenEscapeGroups(s[i..]);
    }
  }

  // ---------------------------------------------------------- the anchored pattern

  /** Line terminators of JavaScript regular expressions, where the m flag's anchors match. */
  predicate IsLineTerminator(c: char) {
    c == '\n' || c == '\r' || c == '\U{2028}' || c == '\U{2029}'
  }

  predicate LineStart(s: string, a: nat) {
    a == 0 || (a <= |s| && IsLineTerminator(s[a - 1]))
  }

  predicate LineEnd(s: string, b: nat) {
    b == |s| || (b < |s| && IsLineTerminator(s[b]))
  }

  /**
   * The pattern deepReplace builds, ^(ESCAPE_REGEX)rule(ESCAPE_REGEX)$ with the m flag,
   * matches s[a..b] with the rule matching s[i..j]. ESCAPE_REGEX's class [^ESC] also
   * matches line terminators, so a and b need not lie on the same line.
   */
  ghost predicate AnchoredMatch(s: string, a: nat, i: nat, j: nat, b: nat, rule: string -> bool) {
    a <= i <= j <= b <= |s| && LineStart(s, a) && LineEnd(s, b)
    && MatchesEscapeRegex(s[a..i]) && rule(s[i..j]) && MatchesEscapeRegex(s[j..b])
  }

  /** Every line of s closes the ESC spans it opens. */
  predicate BalancedLines(s: string) {
    forall b :: 0 <= b <= |s| && LineEnd(s, b) ==> Occurrences(s[..b], ESC) % 2 == 0
  }

  /**
   * In a document whose lines close their escape spans, a text the anchored pattern
   * hands to the rule begins and ends outside every span: an even number of ESC precede
   * both of its ends.
   */
  lemma AnchoredMatchUnescaped(s: string, a: nat, i: nat, j: nat, b: nat, rule: string -> bool)
    requires BalancedLines(s)
    requires AnchoredMatch(s, a, i, j, b, rule)
    ensures Occurrences(s[..i], ESC) % 2 == 0
    ensures Occurrences(s[..j], ESC) % 2 == 0
  {
    EscapeRegexLanguage(s[a..i]);
    EscapeRegexLanguage(s[j..b]);
    LineStartEven(s, a);
    EvenThenEven(s, a, i);
    assert LineEnd(s, b);
    EvenBeforeEven(s, j, b);
  }

  /** Where a line starts, every escape span opened before it is closed. */
  lemma LineStartEven(s: string, a: nat)
    requires BalancedLines(s) && a <= |s| && LineStart(s, a)
    ensures Occurrences(s[..a], ESC) % 2 == 0
  {
    if a > 0 {
      assert LineEnd(s, a - 1);
      OccurrencesSplit(s[..a], a - 1, ESC);
      assert s[..a][..a - 1] == s[..a - 1];
      assert s[..a][a - 1..] == [s[a - 1]];
    }
  }

  /** An even count up to a, and an even count within s[a..i], give an even count up to i. */
  lemma EvenThenEven(s: string, a: nat, i: nat)
    requires a <= i <= |s|
    requires Occurrences(s[..a], ESC) % 2 == 0 && Occurrences(s[a..i], ESC) % 2 == 0
    ensures Occurrences(s[..i], ESC) % 2 == 0
  {
    OccurrencesSplit(s[..i], a, ESC);
    assert s[..i][..a] == s[..a] && s[..i][a..] == s[a..i];
  }

  /** An even count up to b, and an even count within s[j..b], give an even count up to j. */
  lemma EvenBeforeEven(s: string, j: nat, b: nat)
    requires j <= b <= |s|
    requires Occurrences(s[..b], ESC) % 2 == 0 && Occurrences(s[j..b], ESC) % 2 == 0
    ensures Occurrences(s[..j], ESC) % 2 == 0
  {
    OccurrencesSplit(s[..b], j, ESC);
    assert s[..b][..j] == s[..j] && s[..b][j..] == s[j..b];
  }

  // ---------------------------------------------------------- the derived template

  /** The text of the back-reference $d. */
  function Ref(d: nat): (r: string)
    requires d < 10
    ensures |r| == 2 && r[0] == '$' && IsDigit(r[1]) && DigitValue(r[1]) == d
  {
    "$" + [DigitChar(d)]
  }

  /** The loop of deepReplace as written: for i from 7 down to 1, the first $i becomes $(i+1). */
  function RenumberFrom(t: string, i: nat): string
    requires i <= 7
    decreases i
  {
    if i == 0 then t else RenumberFrom(ReplaceFirst(t, Ref(i), Ref(i + 1)), i - 1)
  }

  /** The renumbering deepReplace performs: RenumberFrom over all seven references. */
  function RenumberFirstRefs(t: string): string {
    RenumberFrom(t, 7)
  }

  /** t[p] is the digit of a reference $d with lo < d <= 7 that is the first occurrence of $d in t. */
  predicate IsFirstRef(t: string, p: nat, lo: nat) {
    1 <= p < |t| && t[p - 1] == '$' && IsDigit(t[p]) && lo < DigitValue(t[p]) <= 7
    && IndexOf(t, t[p - 1..p + 1]) == Some(p - 1)
  }

  /** t with the digits of the first references to lo+1 .. 7 raised by one. */
  function FirstRefsBumped(t: string, lo: nat): (r: string)
    ensures |r| == |t|
  {
    seq(|t|, p requires 0 <= p < |t| =>
      if IsFirstRef(t, p, lo) then DigitChar(DigitValue(t[p]) + 1) else t[p])
  }

  lemma {:induction false} IndexOfFromSame(s: string, t: string, pat: string, from: nat)
    requires forall q :: OccursAt(s, pat, q) <==> OccursAt(t, pat, q)
    requires |s| == |t|
    ensures IndexOfFrom(s, pat, from) == IndexOfFrom(t, pat, from)
    decreases |s| - from
  {
    if from + |pat| <= |s| && !OccursAt(s, pat, from) {
      IndexOfFromSame(s, t, pat, from + 1);
    }
  }

  /** Bumping the references above i leaves the occurrences of $i where they were. */
  lemma SameOccurrences(t: string, i: nat)
    requires 1 <= i <= 7
    ensures IndexOf(FirstRefsBumped(t, i), Ref(i)) == IndexOf(t, Ref(i))
  {
    var u := FirstRefsBumped(t, i);
    forall q: nat
      ensures OccursAt(u, Ref(i), q) <==> OccursAt(t, Ref(i), q)
    {
      SameOccursAt(t, i, q);
    }
    IndexOfFromSame(u, t, Ref(i), 0);
  }

  lemma SameOccursAt(t: string, i: nat, q: nat)
    requires 1 <= i <= 7
    ensures OccursAt(FirstRefsBumped(t, i), Ref(i), q) <==> OccursAt(t, Ref(i), q)
  {
    var u := FirstRefsBumped(t, i);
    OccursRef(u, i, q);
    OccursRef(t, i, q);
    if q + 2 <= |t| {
      SameDollar(t, i, q);
      SameDigit(t, i, q + 1);
    }
  }

  /** $i occurs at q exactly when the two characters there are '$' and the digit i. */
  lemma OccursRef(s: string, i: nat, q: nat)
    requires i < 10
    ensures OccursAt(s, Ref(i), q) <==> q + 2 <= |s| && s[q] == '$' && s[q + 1] == DigitChar(i)
  {
    if q + 2 <= |s| {
      assert s[q..q + 2] == [s[q], s[q + 1]];
    }
  }

  lemma SameDollar(t: string, i: nat, q: nat)
    requires 1 <= i <= 7 && q < |t|
    ensures FirstRefsBumped(t, i)[q] == '$' <==> t[q] == '$'
  {
    if IsFirstRef(t, q, i) {
      assert IsDigit(FirstRefsBumped(t, i)[q]);
    }
  }

  lemma SameDigit(t: string, i: nat, q: nat)
    requires 1 <= i <= 7 && q < |t|
    ensures FirstRefsBumped(t, i)[q] == DigitChar(i) <==> t[q] == DigitChar(i)
  {
    if IsFirstRef(t, q, i) {
      assert DigitValue(FirstRefsBumped(t, i)[q]) == DigitValue(t[q]) + 1;
    }
  }

  lemma FirstRefIndex(t: string, p: nat, lo: nat, d: nat)
    requires d < 10
    ensures IsFirstRef(t, p, lo) && DigitValue(t[p]) == d ==> IndexOf(t, Ref(d)) == Some(p - 1)
  {
    if IsFirstRef(t, p, lo) && DigitValue(t[p]) == d {
      assert t[p - 1..p + 1] == Ref(d);
    }
  }

  /** One pass of the renumbering loop moves the bound down by one. */
  lemma RenumberStep(t: string, i: nat)
    requires 1 <= i <= 7
    ensures ReplaceFirst(FirstRefsBumped(t, i), Ref(i), Ref(i + 1)) == FirstRefsBumped(t, i - 1)
  {
    var u := FirstRefsBumped(t, i);
    var v := FirstRefsBumped(t, i - 1);
    SameOccurrences(t, i);
    match IndexOf(t, Ref(i))
    case None =>
      forall p | 0 <= p < |t|
        ensures v[p] == u[p]
      {
        FirstRefIndex(t, p, i - 1, i);
      }
    case Some(q) =>
      assert OccursAt(t, Ref(i), q);
      assert t[q..q + 2] == Ref(i);
      var w := u[..q] + Ref(i + 1) + u[q + 2..];
      forall p | 0 <= p < |t|
        ensures w[p] == v[p]
      {
        BumpedAt(t, i, q, p);
      }
      assert w == v;
  }

  /** Character p after the pass that raises the first $i, found at q. */
  lemma BumpedAt(t: string, i: nat, q: nat, p: nat)
    requires 1 <= i <= 7 && p < |t|
    requires IndexOf(t, Ref(i)) == Some(q) && q + 2 <= |t| && t[q..q + 2] == Ref(i)
    ensures var u := FirstRefsBumped(t, i);
      (u[..q] + Ref(i + 1) + u[q + 2..])[p] == FirstRefsBumped(t, i - 1)[p]
  {
    var u := FirstRefsBumped(t, i);
    var v := FirstRefsBumped(t, i - 1);
    var w := u[..q] + Ref(i + 1) + u[q + 2..];
    FirstRefIndex(t, p, i - 1, i);
    if p < q {
      assert w[p] == u[p];
    } else if p == q {
      assert w[p] == '$' && t[p] == '$';
      assert !IsFirstRef(t, p, i - 1) && !IsFirstRef(t, p, i);
    } else if p == q + 1 {
      assert t[p] == Ref(i)[1];
      assert IsFirstRef(t, p, i - 1);
      assert w[p] == Ref(i + 1)[1];
    } else {
      assert w[p] == u[p];
    }
  }

  lemma RenumberFromUnfold(u: string, i: nat)
    requires 1 <= i <= 7
    ensures RenumberFrom(u, i) == RenumberFrom(ReplaceFirst(u, Ref(i), Ref(i + 1)), i - 1)
  {
  }

  /** The loop from i down to 1 walks a chain of texts, each pass turning one into the next. */
  lemma {:induction false} RenumberChain(bumped: seq<string>, i: nat)
    requires i <= 7 && |bumped| == 8
    requires forall k :: 1 <= k <= i ==> ReplaceFirst(bumped[k], Ref(k), Ref(k + 1)) == bumped[k - 1]
    ensures RenumberFrom(bumped[i], i) == bumped[0]
  {
    if i > 0 {
      RenumberFromUnfold(bumped[i], i);
      RenumberChain(bumped, i - 1);
    }
  }

  /**
   * The renumbering loop as written raises the first occurrence of each of $1 .. $7 by
   * one and changes nothing else; since it counts downwards, no reference is raised twice.
   */
  lemma RenumberFirstRefsSpec(t: string)
    ensures RenumberFirstRefs(t) == FirstRefsBumped(t, 0)
  {
    var bumped := seq(8, k requires 0 <= k < 8 => FirstRefsBumped(t, k));
    forall k | 1 <= k <= 7
      ensures ReplaceFirst(bumped[k], Ref(k), Ref(k + 1)) == bumped[k - 1]
    {
      RenumberStep(t, k);
    }
    assert bumped[7] == t;
    RenumberChain(bumped, 7);
  }

  /** A repeated reference keeps its old number after the first: $1$1 becomes $2$1. */
  lemma RenumberRepeatedRef()
    ensures RenumberFirstRefs("$1$1") == "$2$1"
  {
    RenumberFirstRefsSpec("$1$1");
    RepeatedRefBumped();
  }

  lemma RepeatedRefBumped()
    ensures FirstRefsBumped("$1$1", 0) == "$2$1"
  {
    var t := "$1$1";
    var r := FirstRefsBumped(t, 0);
    assert IndexOf(t, "$1") == Some(0) by {
      assert OccursAt(t, "$1", 0);
    }
    assert t[0..2] == "$1" && t[2..4] == "$1";
    assert IsFirstRef(t, 1, 0);
    assert !IsFirstRef(t, 3, 0);
    assert r[0] == '$' && r[1] == '2' && r[2] == '$' && r[3] == '1';
  }

  /** t[p] is the digit of a reference $1 .. $7. */
  predicate IsRef(t: string, p: nat) {
    1 <= p < |t| && t[p - 1] == '$' && IsDigit(t[p]) && 1 <= DigitValue(t[p]) <= 7
  }

  /** The renumbering the comment in deepReplace describes: every reference $1 .. $7 is raised by one. */
  function RenumberEveryRef(t: string): (r: string)
    ensures |r| == |t|
    ensures forall p :: 0 <= p < |t| && IsRef(t, p) ==> r[p] == DigitChar(DigitValue(t[p]) + 1)
    ensures forall p :: 0 <= p < |t| && !IsRef(t, p) ==> r[p] == t[p]
    decreases |t|
  {
    if |t| < 2 then t
    else if t[0] == '$' && IsDigit(t[1]) && 1 <= DigitValue(t[1]) <= 7 then
      var rest := RenumberEveryRef(t[2..]);
      RenumberedAfterRef(t, rest);
      Ref(DigitValue(t[1]) + 1) + rest
    else
      var rest := RenumberEveryRef(t[1..]);
      RenumberedAfterOther(t, rest);
      [t[0]] + rest
  }

  /** Every reference of t raised by one in r, every other character of t kept. */
  predicate RefsRaised(t: string, r: string) {
    |r| == |t| &&
    (forall p :: 0 <= p < |t| && IsRef(t, p) ==> r[p] == DigitChar(DigitValue(t[p]) + 1)) &&
    (forall p :: 0 <= p < |t| && !IsRef(t, p) ==> r[p] == t[p])
  }

  /** A leading reference raised, followed by the rest renumbered, renumbers all of t. */
  lemma RenumberedAfterRef(t: string, rest: string)
    requires |t| >= 2 && t[0] == '$' && IsDigit(t[1]) && 1 <= DigitValue(t[1]) <= 7
    requires RefsRaised(t[2..], rest)
    ensures RefsRaised(t, Ref(DigitValue(t[1]) + 1) + rest)
  {
    var r := Ref(DigitValue(t[1]) + 1) + rest;
    RefsAfterRef(t);
    assert forall p :: 2 <= p < |t| ==> r[p] == rest[p - 2] && t[p] == t[2..][p - 2];
    assert !IsRef(t, 0) && IsRef(t, 1);
  }

  /** A leading character that starts no reference, followed by the rest renumbered, renumbers all of t. */
  lemma RenumberedAfterOther(t: string, rest: string)
    requires |t| >= 2 && !(t[0] == '$' && IsDigit(t[1]) && 1 <= DigitValue(t[1]) <= 7)
    requires RefsRaised(t[1..], rest)
    ensures RefsRaised(t, [t[0]] + rest)
  {
    var r := [t[0]] + rest;
    RefsAfterOther(t);
    assert forall p :: 1 <= p < |t| ==> r[p] == rest[p - 1] && t[p] == t[1..][p - 1];
    assert !IsRef(t, 0);
  }

  /** Past a leading reference, the references of t are those of t[2..], shifted by two. */
  lemma RefsAfterRef(t: string)
    requires |t| >= 2 && IsDigit(t[1])
    ensures forall p :: 2 <= p < |t| ==> (IsRef(t, p) <==> IsRef(t[2..], p - 2))
  {
    forall p | 2 <= p < |t|
      ensures IsRef(t, p) <==> IsRef(t[2..], p - 2)
    {
      if p == 2 {
        assert t[1] != '$';
      }
    }
  }

  /** Past a leading character that does not start a reference, the references of t are those of t[1..], shifted by one. */
  lemma RefsAfterOther(t: string)
    requires |t| >= 2 && !(t[0] == '$' && IsDigit(t[1]) && 1 <= DigitValue(t[1]) <= 7)
    ensures forall p :: 1 <= p < |t| ==> (IsRef(t, p) <==> IsRef(t[1..], p - 1))
  {
    forall p | 1 <= p < |t|
      ensures IsRef(t, p) <==> IsRef(t[1..], p - 1)
    {
      if p == 1 {
        assert !IsRef(t[1..], 0);
      }
    }
  }

  /** After renumbering no $1 is left in the body, so group 1 is free for the prefix ESCAPE_REGEX. */
  lemma RenumberFreesGroupOne(t: string)
    ensures forall p :: 1 <= p < |t| && RenumberEveryRef(t)[p - 1] == '$' ==> RenumberEveryRef(t)[p] != '1'
  {
    var r := RenumberEveryRef(t);
    forall p | 1 <= p < |t| && r[p - 1] == '$'
      ensures r[p] != '1'
    {
      assert !IsRef(t, p - 1);
      if !IsRef(t, p) {
        assert t[p] != '1';
      }
    }
  }

  /** t[p] is a digit preceded by `$`: a match of (?<=\$)\d. */
  predicate IsDollarDigit(t: string, p: nat) {
    1 <= p < |t| && t[p - 1] == '$' && IsDigit(t[p])
  }

  /** The largest digit of t[..n] that follows a `$`. */
  function MaxDollarDigit(t: string, n: nat): (r: Option<nat>)
    requires n <= |t|
    ensures r.Some? ==> exists p: nat :: p < n && IsDollarDigit(t, p) && DigitValue(t[p]) == r.value
    ensures forall p: nat :: p < n && IsDollarDigit(t, p) ==> r.Some? && DigitValue(t[p]) <= r.value
  {
    if n == 0 then None
    else
      var r := MaxDollarDigit(t, n - 1);
      if IsDollarDigit(t, n - 1) && (r.None? || r.value < DigitValue(t[n - 1])) then Some(DigitValue(t[n - 1]))
      else r
  }

  /** The number of the added last group: one more than the largest referenced digit, 2 when there is none. */
  function SuffixGroup(t: string): (k: nat)
    ensures k >= 1
    ensures forall p: nat :: IsDollarDigit(t, p) ==> DigitValue(t[p]) < k
    ensures (exists p: nat :: IsDollarDigit(t, p) && k == DigitValue(t[p]) + 1)
            || (k == 2 && forall p: nat :: !IsDollarDigit(t, p))
  {
    match MaxDollarDigit(t, |t|)
    case None => 2
    case Some(v) => v + 1
  }

  /** The replacement deepReplace hands to String.replace, as written. */
  function TemplateAsWritten(replace: string): string {
    var body := RenumberFirstRefs(replace);
    "$1" + body + "$" + NatToString(SuffixGroup(body))
  }

  /** The replacement with every reference renumbered. */
  function Template(replace: string): string {
    var body := RenumberEveryRef(replace);
    "$1" + body + "$" + NatToString(SuffixGroup(body))
  }

  /**
   * With a reference used twice, the template as written points the second use at the
   * group before the match (`$1`), while renumbering every reference keeps both on the
   * same group.
   */
  lemma TemplateRepeatedRef()
    ensures TemplateAsWritten("$1$1") == "$1$2$1$3"
    ensures Template("$1$1") == "$1$2$2$3"
  {
    RenumberRepeatedRef();
    TemplateFirstOf("$1$1");
    EveryRefRepeated();
    TemplateEveryOf("$1$1");
  }

  lemma TemplateFirstOf(replace: string)
    requires RenumberFirstRefs(replace) == "$2$1"
    ensures TemplateAsWritten(replace) == "$1$2$1$3"
  {
    var body := RenumberFirstRefs(replace);
    SuffixAfterTwo(body);
    TemplateAround(TemplateAsWritten(replace), body, NatToString(SuffixGroup(body)));
  }

  lemma TemplateEveryOf(replace: string)
    requires RenumberEveryRef(replace) == "$2$2"
    ensures Template(replace) == "$1$2$2$3"
  {
    var body := RenumberEveryRef(replace);
    SuffixAfterTwo(body);
    TemplateAround(Template(replace), body, NatToString(SuffixGroup(body)));
  }

  /** Both templates are `$1`, the renumbered body, `$` and the added last group. */
  lemma TemplateAround(template: string, body: string, suffix: string)
    requires body == "$2$1" || body == "$2$2"
    requires suffix == NatToString(3)
    requires template == "$1" + body + "$" + suffix
    ensures body == "$2$1" ==> template == "$1$2$1$3"
    ensures body == "$2$2" ==> template == "$1$2$2$3"
  {
    assert suffix == "3";
  }

  lemma EveryRefRepeated()
    ensures RenumberEveryRef("$1$1") == "$2$2"
  {
    var t: string := "$1$1";
    assert IsRef(t, 1) && IsRef(t, 3) && !IsRef(t, 0) && !IsRef(t, 2);
  }

  /** Two references, the larger $2: the added last group is $3. */
  lemma SuffixAfterTwo(t: string)
    requires t == "$2$1" || t == "$2$2"
    ensures SuffixGroup(t) == 3
  {
    assert MaxDollarDigit(t, 2) == Some(2);
    assert MaxDollarDigit(t, 4) == Some(2);
  }

  // --------------------------------------------------------------- the outer loop

  /**
   * The rewriting deepReplace converges to. apply(s, template) is String.replace with the
   * anchored pattern: the text after the first replacement, or None when the pattern does
   * not match. rank is a measure each replacement lowers; a rule without one makes the
   * source loop forever.
   */
  function Fixpoint(apply: (string, string) -> Option<string>, template: string, rank: string -> nat, s: string): (r: string)
    requires forall t :: apply(t, template).Some? ==> rank(apply(t, template).value) < rank(t)
    ensures apply(r, template).None?
    ensures apply(s, template).None? ==> r == s
    decreases rank(s)
  {
    match apply(s, template)
    case None => s
    case Some(t) => Fixpoint(apply, template, rank, t)
  }

  /** deepReplace: renumber the template, then replace while the anchored pattern matches. */
  method DeepReplace(s: string, replace: string, apply: (string, string) -> Option<string>, ghost rank: string -> nat)
    returns (r: string)
    requires forall t :: apply(t, Template(replace)).Some? ==> rank(apply(t, Template(replace)).value) < rank(t)
    ensures r == Fixpoint(apply, Template(replace), rank, s)
    ensures apply(r, Template(replace)).None?
    ensures apply(s, Template(replace)).None? ==> r == s
  {
    var template := Template(replace);
    r := s;
    while apply(r, template).Some?
      invariant Fixpoint(apply, template, rank, r) == Fixpoint(apply, template, rank, s)
      decreases rank(r)
    {
      r := apply(r, template).value;
    }
  }
}
