/**
 * chompMetadata of the sitelen-kasa converter (extension.ts): a document may open with a
 * JSON metadata object, which is skipped by counting braces outside string literals.
 */
module Metadata {
  import opened Wrappers

  predicate IsLeadingBlank(c: char) {
    c == ' ' || c == '\r' || c == '\n'
  }

  /** The number of leading spaces, carriage returns and line feeds. */
  function BlankRun(s: string): (n: nat)
    ensures n <= |s|
    ensures forall j :: 0 <= j < n ==> IsLeadingBlank(s[j])
    ensures n == |s| || !IsLeadingBlank(s[n])
  {
    if s == [] || !IsLeadingBlank(s[0]) then 0 else 1 + BlankRun(s[1..])
  }

  /** The anchored replace of chompMetadata: leading blanks go only when a brace follows them. */
  function StripBeforeBrace(s: string): (r: string)
    ensures r == s || (r != [] && r[0] == '{')
    ensures |r| <= |s| && r == s[|s| - |r|..]
  {
    var n := BlankRun(s);
    if 1 <= n < |s| && s[n] == '{' then s[n..] else s
  }

  /** The scanner's variables: brace depth, whether it is inside a string, and the run of backslashes. */
  datatype Scan = Scan(nesting: int, inString: bool, slashes: nat)

  /** One iteration of chompMetadata's loop on the character ch. */
  function Step(st: Scan, ch: char): Scan {
    if st.inString then
      if ch == '\\' then st.(slashes := st.slashes + 1)
      else if ch == '"' && st.slashes % 2 == 0 then Scan(st.nesting, false, 0)
      else st.(slashes := 0)
    else if ch == '{' then st.(nesting := st.nesting + 1)
    else if ch == '}' then st.(nesting := st.nesting - 1)
    else if ch == '"' then st.(inString := true)
    else st
  }

  /** The scanner after reading s[1..i], starting just past the opening brace. */
  function ScanAt(s: string, i: nat): Scan
    requires 1 <= i <= |s|
  {
    if i == 1 then Scan(1, false, 0) else Step(ScanAt(s, i - 1), s[i - 1])
  }

  /** The first index at or after i where the brace depth has come back to zero. */
  function CloseFrom(s: string, i: nat): (r: Option<nat>)
    requires 1 <= i
    ensures r.Some? ==> i <= r.value <= |s| && ScanAt(s, r.value).nesting == 0
    ensures r.Some? ==> forall j :: i <= j < r.value ==> ScanAt(s, j).nesting != 0
    ensures r.None? ==> forall j :: i <= j <= |s| ==> ScanAt(s, j).nesting != 0
    decreases |s| + 1 - i
  {
    if i > |s| then None
    else if ScanAt(s, i).nesting == 0 then Some(i)
    else CloseFrom(s, i + 1)
  }

  /**
   * What chompMetadata returns: the text after the metadata object, or the content itself
   * when it does not open with a brace. None when the braces never balance: the source's
   * loop then reads past the end of the string and never stops.
   */
  function Chomped(content: string): Option<string> {
    var s := StripBeforeBrace(content);
    if s != [] && s[0] == '{' then
      match CloseFrom(s, 1)
      case None => None
      case Some(e) => Some(s[e..])
    else Some(s)
  }

  /** What chompMetadata returns is a suffix of the content: it only ever drops a prefix. */
  lemma ChompedSuffix(content: string)
    ensures Chomped(content).Some? ==>
      var r := Chomped(content).value; |r| <= |content| && r == content[|content| - |r|..]
  {
    var s := StripBeforeBrace(content);
    var k := |content| - |s|;
    assert s == content[k..];
    if s != [] && s[0] == '{' {
      var e := CloseFrom(s, 1);
      if e.Some? {
        assert s[e.value..] == content[k + e.value..];
      }
    }
  }

  /** chompMetadata's scanning loop. */
  method ChompMetadata(content: string) returns (r: Option<string>)
    ensures r == Chomped(content)
  {
    var s := StripBeforeBrace(content);
    if s == [] || s[0] != '{' {
      return Some(s);
    }
    var nesting := 1;
    var i := 1;
    var inString := false;
    var slashes := 0;
    while nesting > 0 && i < |s|
      invariant 1 <= i <= |s|
      invariant Scan(nesting, inString, slashes) == ScanAt(s, i)
      invariant forall j :: 1 <= j < i ==> ScanAt(s, j).nesting != 0
      invariant nesting >= 0
      decreases |s| - i
    {
      if inString {
        if s[i] == '\\' {
          slashes := slashes + 1;
        } else {
          if s[i] == '"' && slashes % 2 == 0 {
            inString := false;
          }
          slashes := 0;
        }
      } else {
        if s[i] == '{' {
          nesting := nesting + 1;
        } else if s[i] == '}' {
          nesting := nesting - 1;
        } else if s[i] == '"' {
          inString := true;
        }
      }
      i := i + 1;
    }
    if nesting > 0 {
      return None;
    }
    r := Some(s[i..]);
  }

  /** The scanner stays clear of strings and at depth one over text without braces, quotes or backslashes. */
  lemma {:induction false} ScanPlain(s: string, i: nat)
    requires 1 <= i <= |s|
    requires forall j :: 1 <= j < i ==> s[j] != '{' && s[j] != '}' && s[j] != '"'
    ensures ScanAt(s, i) == Scan(1, false, 0)
  {
    if i > 1 {
      ScanPlain(s, i - 1);
    }
  }

  /** A flat metadata object is skipped up to and including its closing brace. */
  lemma ChompFlat(body: string, rest: string)
    requires '{' !in body && '}' !in body && '"' !in body
    ensures Chomped("{" + body + "}" + rest) == Some(rest)
  {
    var s := "{" + body + "}" + rest;
    assert BlankRun(s) == 0;
    ScanPlain(s, |body| + 1);
    var e := |body| + 2;
    assert ScanAt(s, e).nesting == 0;
    forall j | 1 <= j < e
      ensures ScanAt(s, j).nesting != 0
    {
      ScanPlain(s, j);
    }
    assert CloseFrom(s, 1) == Some(e);
    assert s[e..] == rest;
  }

  /** Inside a string the scanner ignores braces, quotes after an odd run of backslashes, and everything else. */
  lemma {:induction false} ScanInString(s: string, start: nat, i: nat)
    requires 1 <= start <= i <= |s|
    requires ScanAt(s, start) == Scan(1, true, 0)
    requires forall j :: start <= j < i ==> s[j] != '"' && s[j] != '\\'
    ensures ScanAt(s, i) == Scan(1, true, 0)
  {
    if i > start {
      ScanInString(s, start, i - 1);
    }
  }

  /** Braces inside a quoted key do not count: the object still ends at its own closing brace. */
  lemma ChompQuotedBraces(key: string, rest: string)
    requires '"' !in key && '\\' !in key
    ensures Chomped("{\"" + key + "\"}" + rest) == Some(rest)
  {
    var s := "{\"" + key + "\"}" + rest;
    assert BlankRun(s) == 0;
    assert ScanAt(s, 2) == Scan(1, true, 0);
    ScanInString(s, 2, |key| + 2);
    assert s[|key| + 2] == '"';
    assert ScanAt(s, |key| + 3) == Scan(1, false, 0);
    assert s[|key| + 3] == '}';
    var e := |key| + 4;
    assert ScanAt(s, e).nesting == 0;
    assert CloseFrom(s, 2) == Some(e) by {
      assert ScanAt(s, 2).nesting != 0;
      forall j | 2 <= j < e
        ensures ScanAt(s, j).nesting != 0
      {
        if j <= |key| + 2 {
          ScanInString(s, 2, j);
        }
      }
    }
    assert CloseFrom(s, 1) == Some(e);
    assert s[e..] == rest;
  }

  /** A quote after a backslash does not end the string, so the brace after it is still ignored. */
  lemma ChompEscapedQuote(rest: string)
    ensures Chomped("{\"\\\"}\"}" + rest) == Some(rest)
  {
    var s := "{\"\\\"}\"}" + rest;
    assert BlankRun(s) == 0;
    assert ScanAt(s, 2) == Scan(1, true, 0);
    assert ScanAt(s, 3) == Scan(1, true, 1);
    assert ScanAt(s, 4) == Scan(1, true, 0);
    assert ScanAt(s, 5) == Scan(1, true, 0);
    assert ScanAt(s, 6) == Scan(1, false, 0);
    assert ScanAt(s, 7) == Scan(0, false, 0);
    assert CloseFrom(s, 1) == Some(7);
    assert s[7..] == rest;
  }

  /** Content that does not open with a brace, after optional blanks, is returned as it is. */
  lemma ChompNoMetadata(content: string)
    requires BlankRun(content) == |content| || content[BlankRun(content)] != '{'
    ensures Chomped(content) == Some(content)
  {
  }

  /** An object that is never closed makes the source loop forever. */
  lemma ChompUnclosed(body: string)
    requires '{' !in body && '}' !in body && '"' !in body
    ensures Chomped("{" + body) == None
  {
    var s := "{" + body;
    assert BlankRun(s) == 0;
    forall j | 1 <= j <= |s|
      ensures ScanAt(s, j).nesting != 0
    {
      ScanPlain(s, j);
    }
  }
}
