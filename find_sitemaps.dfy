/**
 * find_sitemaps.rb: guesses the sitemap files of a site and keeps the ones that exist.
 * Whether a page exists is a network request in the script; here it is an oracle,
 * a predicate on the page's URL. Sitemap names are numbered just before `.xml`, so the
 * name arithmetic counts characters from the end of the string.
 */
module FindSitemaps {
  import opened Wrappers
  import opened Decimal

  // ------------------------------------------------------------ Ruby string indexing

  /** Ruby's String#slice(start, length); None stands for nil. A negative start counts from the end. */
  function Slice(s: string, start: int, length: int): (r: Option<string>)
    ensures r.Some? <==> length >= 0 && -|s| <= start <= |s|
    ensures r.Some? ==> |r.value| <= length
  {
    var from := if start < 0 then start + |s| else start;
    if length < 0 || from < 0 || from > |s| then None
    else Some(s[from..if from + length < |s| then from + length else |s|])
  }

  /** Ruby's `s[-k]` for k >= 1: the kth character from the end, None (nil) when s is shorter. */
  function FromEnd(s: string, k: nat): (r: Option<char>)
    requires k >= 1
    ensures r.Some? <==> k <= |s|
    ensures r.Some? ==> r.value == s[|s| - k]
  {
    if k <= |s| then Some(s[|s| - k]) else None
  }

  /**
   * `insert_char(string, back_index, substring)`: the two slices around the insertion point,
   * each nil (and so empty in the interpolation) when Ruby's slice gives nil.
   */
  function InsertChar(s: string, back: int, t: string): string {
    Slice(s, 0, |s| - back).GetOr("") + t + Slice(s, |s| - back, |s|).GetOr("")
  }

  /** Inside the string, t lands just before the last `back` characters and nothing else moves. */
  lemma InsertCharInside(s: string, back: int, t: string)
    requires 0 <= back <= |s|
    ensures var r := InsertChar(s, back, t);
      && |r| == |s| + |t|
      && r[..|s| - back] == s[..|s| - back]
      && r[|s| - back..|s| - back + |t|] == t
      && r[|s| - back + |t|..] == s[|s| - back..]
  {
  }

  /** Out of range, Ruby's slices give the whole string, a tail counted twice from the end, or nil. */
  lemma InsertCharOutside(s: string, back: int, t: string)
    ensures back < 0 ==> InsertChar(s, back, t) == s + t
    ensures back > 2 * |s| ==> InsertChar(s, back, t) == t
    ensures |s| < back <= 2 * |s| ==> InsertChar(s, back, t) == t + s[2 * |s| - back..]
  {
    if back < 0 {
      assert s[0..|s|] == s;
    }
  }

  /**
   * `replace_char(string, back_index, substring = '')`: the back_index-th character from the
   * end replaced by substring. Ruby raises when either slice is nil (`nil + String`,
   * `String + nil`); that is None here.
   */
  function ReplaceChar(s: string, back: int, t: string): (r: Option<string>)
    ensures r.Some? <==> 1 <= back <= |s|
    ensures r.Some? ==> |r.value| == |s| - 1 + |t|
  {
    var head := Slice(s, 0, |s| - back);
    var tail := Slice(s, |s| - back + 1, |s|);
    if head.Some? && tail.Some? then Some(head.value + t + tail.value) else None
  }

  /** The replaced character is the only one that changes. */
  lemma ReplaceCharAt(s: string, back: int, t: string)
    requires 1 <= back <= |s|
    ensures var r := ReplaceChar(s, back, t).value;
      && r[..|s| - back] == s[..|s| - back]
      && r[|s| - back..|s| - back + |t|] == t
      && r[|s| - back + |t|..] == s[|s| - back + 1..]
  {
  }

  /** Deleting the character just inserted before the last k restores the string. */
  lemma DeleteUndoesInsert(s: string, back: nat, c: char)
    requires back <= |s|
    ensures ReplaceChar(InsertChar(s, back, [c]), back + 1, "") == Some(s)
  {
    var r := InsertChar(s, back, [c]);
    InsertCharInside(s, back, [c]);
    var d := ReplaceChar(r, back + 1, "");
    ReplaceCharAt(r, back + 1, "");
    assert d.value == s[..|s| - back] + s[|s| - back..];
    assert s[..|s| - back] + s[|s| - back..] == s;
  }

  // ------------------------------------------------------------------- the oracle

  /** The URL `page_exists?` is asked about. */
  function Url(site: string, page: string): string {
    "http://www." + site + page
  }

  /** `pages.filter { |page| page_exists?("http://www.#{site}#{page}") }`. */
  function Existing(pages: seq<string>, site: string, live: string -> bool): (r: seq<string>)
    ensures |r| <= |pages|
    ensures forall p :: p in r <==> p in pages && live(Url(site, p))
  {
    if pages == [] then []
    else
      Existing(pages[..|pages| - 1], site, live)
      + (if live(Url(site, pages[|pages| - 1])) then [pages[|pages| - 1]] else [])
  }

  /** The filter keeps every page exactly when every page exists. */
  lemma {:induction false} ExistingAll(pages: seq<string>, site: string, live: string -> bool)
    ensures |Existing(pages, site, live)| == |pages| <==> forall p :: p in pages ==> live(Url(site, p))
  {
    if pages != [] {
      var init := pages[..|pages| - 1];
      ExistingAll(init, site, live);
      assert forall p :: p in pages <==> p in init || p == pages[|pages| - 1];
    }
  }

  // ------------------------------------------------------------------------ add_2s

  /** The two numbered variants tried for a normalized name: `2` and `02` before `.xml`. */
  function Variants(normalized: seq<string>): (r: seq<string>)
    ensures |r| == 2 * |normalized|
    ensures forall p :: p in r <==> exists n :: n in normalized && (p == InsertChar(n, 4, "2") || p == InsertChar(n, 4, "02"))
  {
    if normalized == [] then []
    else
      var n := normalized[|normalized| - 1];
      var init := normalized[..|normalized| - 1];
      assert forall m :: m in normalized <==> m in init || m == n;
      Variants(init) + [InsertChar(n, 4, "2"), InsertChar(n, 4, "02")]
  }

  /** `replace_char(sitemap, 5)`: the character before `.xml` deleted, so the one before it moves up. */
  function DropFifth(sitemap: string): (r: string)
    requires |sitemap| >= 5
    ensures |r| == |sitemap| - 1
    ensures FromEnd(r, 5) == FromEnd(sitemap, 6)
    ensures r == sitemap[..|sitemap| - 5] + sitemap[|sitemap| - 4..]
  {
    ReplaceCharAt(sitemap, 5, "");
    var r := ReplaceChar(sitemap, 5, "").value;
    assert |sitemap| >= 6 ==> r[|r| - 5] == sitemap[|sitemap| - 6];
    r
  }

  /**
   * The normalization step of `add_2s` as written. After the `1` is dropped, the modifier-if
   * `replace_char(sitemap, 5) if sitemap[-5] == '0'` is the block's value, so a name that
   * ended in `1` without a `0` before it maps to nil (None).
   */
  function NormalizeAsWritten(sitemap: string): Option<string> {
    if FromEnd(sitemap, 5) == Some('1') then
      var once := DropFifth(sitemap);
      if FromEnd(once, 5) == Some('0') then Some(DropFifth(once)) else None
    else Some(sitemap)
  }

  /** The normalization meant: drop a trailing `1` before `.xml`, and a `0` before that `1`. */
  function Normalize(sitemap: string): (r: string)
    ensures FromEnd(sitemap, 5) != Some('1') ==> r == sitemap
    ensures FromEnd(sitemap, 5) == Some('1') && FromEnd(sitemap, 6) != Some('0') ==> r == sitemap[..|sitemap| - 5] + sitemap[|sitemap| - 4..]
    ensures FromEnd(sitemap, 5) == Some('1') && FromEnd(sitemap, 6) == Some('0') ==> r == sitemap[..|sitemap| - 6] + sitemap[|sitemap| - 4..]
  {
    if FromEnd(sitemap, 5) == Some('1') then
      var once := DropFifth(sitemap);
      if FromEnd(once, 5) == Some('0') then
        assert once[..|once| - 5] == sitemap[..|sitemap| - 6];
        assert once[|once| - 4..] == sitemap[|sitemap| - 4..];
        DropFifth(once)
      else once
    else sitemap
  }

  /** Where the written version yields a name at all, it is the meant one. */
  lemma NormalizeAgrees(sitemap: string)
    ensures NormalizeAsWritten(sitemap).Some? ==> NormalizeAsWritten(sitemap) == Some(Normalize(sitemap))
    ensures NormalizeAsWritten(sitemap).None? <==> FromEnd(sitemap, 5) == Some('1') && FromEnd(sitemap, 6) != Some('0')
  {
  }

  /** `/sitemap1.xml` normalizes to nil as written, to `/sitemap.xml` as meant; `01` works either way. */
  lemma NormalizeExamples()
    ensures NormalizeAsWritten("/sitemap1.xml") == None
    ensures Normalize("/sitemap1.xml") == "/sitemap.xml"
    ensures NormalizeAsWritten("/sitemap01.xml") == Some("/sitemap.xml")
  {
    NormalizeAgrees("/sitemap1.xml");
    NormalizeAgrees("/sitemap01.xml");
    assert "/sitemap1.xml"[..8] + "/sitemap1.xml"[9..] == "/sitemap.xml";
    assert "/sitemap01.xml"[..8] + "/sitemap01.xml"[10..] == "/sitemap.xml";
  }

  function NormalizeAll(sitemaps: seq<string>): (r: seq<string>)
    ensures |r| == |sitemaps| && forall i :: 0 <= i < |r| ==> r[i] == Normalize(sitemaps[i])
  {
    if sitemaps == [] then [] else NormalizeAll(sitemaps[..|sitemaps| - 1]) + [Normalize(sitemaps[|sitemaps| - 1])]
  }

  /**
   * `add_2s(sitemaps, site)` as written: the variants of a nil normalization make
   * `insert_char` call `nil.length`, which raises (None).
   */
  function Add2sAsWritten(sitemaps: seq<string>, site: string, live: string -> bool): (r: Option<seq<string>>)
    ensures r.None? <==> exists s :: s in sitemaps && NormalizeAsWritten(s).None?
    ensures r.Some? ==> r.value == Add2s(sitemaps, site, live)
  {
    if exists s :: s in sitemaps && NormalizeAsWritten(s).None? then None
    else
      forall i | 0 <= i < |sitemaps|
        ensures NormalizeAsWritten(sitemaps[i]) == Some(Normalize(sitemaps[i]))
      {
        NormalizeAgrees(sitemaps[i]);
      }
      Some(Add2s(sitemaps, site, live))
  }

  /** `add_2s` as meant: the inputs, then those `2` and `02` variants of their normalized names that exist. */
  function Add2s(sitemaps: seq<string>, site: string, live: string -> bool): (r: seq<string>)
    ensures |r| >= |sitemaps| && r[..|sitemaps|] == sitemaps
    ensures forall p :: p in r[|sitemaps|..] <==> live(Url(site, p)) && p in Variants(NormalizeAll(sitemaps))
  {
    var added := Existing(Variants(NormalizeAll(sitemaps)), site, live);
    assert (sitemaps + added)[|sitemaps|..] == added;
    sitemaps + added
  }

  /** A single `/sitemap1.xml` makes `add_2s` raise as written; meant, it probes `/sitemap2.xml` and `/sitemap02.xml`. */
  lemma Add2sRaises(site: string, live: string -> bool)
    ensures Add2sAsWritten(["/sitemap1.xml"], site, live) == None
    ensures live(Url(site, "/sitemap2.xml")) ==> "/sitemap2.xml" in Add2s(["/sitemap1.xml"], site, live)
  {
    NormalizeExamples();
    assert "/sitemap1.xml" in ["/sitemap1.xml"];
    OneVariantIsTwo();
  }

  /** `/sitemap1.xml` is normalized to `/sitemap.xml`, whose first variant is `/sitemap2.xml`. */
  lemma OneVariantIsTwo()
    ensures "/sitemap2.xml" in Variants(NormalizeAll(["/sitemap1.xml"]))
  {
    NormalizeExamples();
    var n := NormalizeAll(["/sitemap1.xml"]);
    assert n[0] == "/sitemap.xml";
    assert InsertChar("/sitemap.xml", 4, "2") == "/sitemap2.xml";
  }

  // --------------------------------------------------------------- increment_number

  /** `sitemap[-5] == num.to_s`: the character before `.xml` spells the number. */
  predicate HasNumber(sitemap: string, num: int) {
    FromEnd(sitemap, 5).Some? && [FromEnd(sitemap, 5).value] == IntToString(num)
  }

  /** A single character never spells a number outside 0..9, which is what stops the numbering loop. */
  lemma NoTwoDigitNumber(sitemap: string, num: int)
    requires num >= 10 || num < 0
    ensures !HasNumber(sitemap, num)
  {
    if num >= 10 {
      assert |NatToString(num)| != 1;
    } else {
      assert IntToString(num)[0] == '-';
    }
  }

  /** The names numbered num, with num + 1 in its place. */
  function Bumped(sitemaps: seq<string>, num: int): (r: seq<string>)
    ensures forall p :: p in r ==> exists s :: s in sitemaps && HasNumber(s, num) && Some(p) == ReplaceChar(s, 5, IntToString(num + 1))
    ensures forall s :: s in sitemaps && HasNumber(s, num) ==>
      ReplaceChar(s, 5, IntToString(num + 1)).Some? && ReplaceChar(s, 5, IntToString(num + 1)).value in r
  {
    if sitemaps == [] then []
    else
      var s := sitemaps[|sitemaps| - 1];
      var init := Bumped(sitemaps[..|sitemaps| - 1], num);
      var r := if HasNumber(s, num) then init + [ReplaceChar(s, 5, IntToString(num + 1)).value] else init;
      BumpedStepSound(sitemaps, num, init, r);
      BumpedStepComplete(sitemaps, num, init, r);
      r
  }

  lemma BumpedStepSound(sitemaps: seq<string>, num: int, init: seq<string>, r: seq<string>)
    requires sitemaps != []
    requires forall p :: p in init ==> exists s :: s in sitemaps[..|sitemaps| - 1] && HasNumber(s, num) && Some(p) == ReplaceChar(s, 5, IntToString(num + 1))
    requires var s := sitemaps[|sitemaps| - 1];
      r == if HasNumber(s, num) then init + [ReplaceChar(s, 5, IntToString(num + 1)).value] else init
    ensures forall p :: p in r ==> exists s :: s in sitemaps && HasNumber(s, num) && Some(p) == ReplaceChar(s, 5, IntToString(num + 1))
  {
    assert forall t :: t in sitemaps[..|sitemaps| - 1] ==> t in sitemaps;
  }

  lemma BumpedStepComplete(sitemaps: seq<string>, num: int, init: seq<string>, r: seq<string>)
    requires sitemaps != []
    requires forall s :: s in sitemaps[..|sitemaps| - 1] && HasNumber(s, num) ==>
      ReplaceChar(s, 5, IntToString(num + 1)).Some? && ReplaceChar(s, 5, IntToString(num + 1)).value in init
    requires var s := sitemaps[|sitemaps| - 1];
      r == if HasNumber(s, num) then init + [ReplaceChar(s, 5, IntToString(num + 1)).value] else init
    ensures forall s :: s in sitemaps && HasNumber(s, num) ==>
      ReplaceChar(s, 5, IntToString(num + 1)).Some? && ReplaceChar(s, 5, IntToString(num + 1)).value in r
  {
    assert forall t :: t in sitemaps ==> t in sitemaps[..|sitemaps| - 1] || t == sitemaps[|sitemaps| - 1];
  }

  /** `increment_number(sitemaps, site, num)`: the inputs, then the existing names with num bumped to num + 1. */
  function IncrementNumber(sitemaps: seq<string>, site: string, num: int, live: string -> bool): (r: seq<string>)
    ensures |r| >= |sitemaps| && r[..|sitemaps|] == sitemaps
    ensures forall p :: p in r[|sitemaps|..] ==>
      (live(Url(site, p)) && exists s :: s in sitemaps && HasNumber(s, num) && Some(p) == ReplaceChar(s, 5, IntToString(num + 1)))
    ensures forall p :: p in r[|sitemaps|..] <==> live(Url(site, p)) && p in Bumped(sitemaps, num)
    ensures forall s :: s in sitemaps && HasNumber(s, num) && live(Url(site, ReplaceChar(s, 5, IntToString(num + 1)).value)) ==>
      ReplaceChar(s, 5, IntToString(num + 1)).value in r[|sitemaps|..]
  {
    var added := Existing(Bumped(sitemaps, num), site, live);
    assert (sitemaps + added)[|sitemaps|..] == added;
    sitemaps + added
  }

  /** `sitemaps.any? { |sitemap| sitemap[-5] == check.to_s }`. */
  predicate AnyNumbered(sitemaps: seq<string>, num: int) {
    exists s :: s in sitemaps && HasNumber(s, num)
  }

  lemma AnyNumberedBelowTen(sitemaps: seq<string>, check: int)
    requires AnyNumbered(sitemaps, check)
    ensures 0 <= check < 10
  {
    var s :| s in sitemaps && HasNumber(s, check);
    if check >= 10 || check < 0 {
      NoTwoDigitNumber(s, check);
    }
  }

  /** The loop of `test_numbered_sitemaps` from `check` on: bump while some name carries the number. */
  function NumberFrom(sitemaps: seq<string>, site: string, check: int, live: string -> bool): seq<string>
    decreases 10 - check
  {
    if AnyNumbered(sitemaps, check) then
      AnyNumberedBelowTen(sitemaps, check);
      NumberFrom(IncrementNumber(sitemaps, site, check, live), site, check + 1, live)
    else sitemaps
  }

  /** The numbering loop keeps what it was given in front, adds only names that exist, and stops with no name carrying its last number. */
  lemma {:induction false} NumberFromGrows(sitemaps: seq<string>, site: string, check: int, live: string -> bool)
    ensures var r := NumberFrom(sitemaps, site, check, live);
      && |sitemaps| <= |r| && r[..|sitemaps|] == sitemaps
      && (forall p :: p in r[|sitemaps|..] ==> live(Url(site, p)))
      && exists last :: last >= check && !AnyNumbered(r, last)
    decreases 10 - check
  {
    if !AnyNumbered(sitemaps, check) {
      assert !AnyNumbered(NumberFrom(sitemaps, site, check, live), check);
    } else {
      AnyNumberedBelowTen(sitemaps, check);
      var next := IncrementNumber(sitemaps, site, check, live);
      NumberFromGrows(next, site, check + 1, live);
      var r := NumberFrom(next, site, check + 1, live);
      assert r[..|next|][..|sitemaps|] == r[..|sitemaps|];
      forall p | p in r[|sitemaps|..]
        ensures live(Url(site, p))
      {
        var i :| |sitemaps| <= i < |r| && r[i] == p;
        if i >= |next| {
          assert p in r[|next|..];
        } else {
          assert p == next[i] && p in next[|sitemaps|..];
        }
      }
    }
  }

  // -------------------------------------------------------------------- the probes

  /** SITEMAP_SUFFIXES, in insertion order. */
  const SitemapSuffixes: seq<string> := [
    "", "Articles", "Blog", "Categories", "Gallery", "GalleryCommercial", "GalleryResidential",
    "Gallerys", "IndustriesServed", "Manufacturers", "Mobile", "News", "Plants", "ProductGallery",
    "Products", "Reviews", "ServiceArea"
  ]

  function ProbesOf(suffixes: seq<string>): (r: seq<string>)
    ensures |r| == 3 * |suffixes|
    ensures forall i :: 0 <= i < |suffixes| ==>
      r[3 * i] == "/sitemap" + suffixes[i] + ".xml"
      && r[3 * i + 1] == "/sitemap" + suffixes[i] + "1.xml"
      && r[3 * i + 2] == "/sitemap" + suffixes[i] + "01.xml"
  {
    if suffixes == [] then []
    else
      var x := suffixes[|suffixes| - 1];
      ProbesOf(suffixes[..|suffixes| - 1])
      + ["/sitemap" + x + ".xml", "/sitemap" + x + "1.xml", "/sitemap" + x + "01.xml"]
  }

  /** `test_sitemaps(site)`: each suffix bare, with `1` and with `01`, as `/sitemap{...}.xml`, kept if it exists. */
  function TestSitemaps(site: string, live: string -> bool): (r: seq<string>)
    ensures |r| <= 3 * |SitemapSuffixes|
    ensures forall p :: p in r <==> p in ProbesOf(SitemapSuffixes) && live(Url(site, p))
  {
    Existing(ProbesOf(SitemapSuffixes), site, live)
  }

  /** All 51 probes come back exactly when every one of them exists. */
  lemma TestSitemapsAll(site: string, live: string -> bool)
    ensures |TestSitemaps(site, live)| == 51 <==> forall p :: p in ProbesOf(SitemapSuffixes) ==> live(Url(site, p))
  {
    ExistingAll(ProbesOf(SitemapSuffixes), site, live);
  }

  /**
   * `test_numbered_sitemaps(sitemaps, site)` as written. A list as long as all the probes
   * means the site answers every request (an improper 404) and yields []. Otherwise the
   * `2` variants are added and the numbers counted up while some name carries the
   * current one; None is the exception `add_2s` raises.
   */
  method TestNumberedSitemaps(sitemaps: seq<string>, site: string, live: string -> bool) returns (r: Option<seq<string>>)
    ensures |sitemaps| == 3 * |SitemapSuffixes| ==> r == Some([])
    ensures |sitemaps| != 3 * |SitemapSuffixes| ==>
      (r.None? <==> exists s :: s in sitemaps && NormalizeAsWritten(s).None?)
    ensures |sitemaps| != 3 * |SitemapSuffixes| && r.Some? ==>
      r.value == NumberFrom(Add2s(sitemaps, site, live), site, 2, live)
  {
    if |sitemaps| == |SitemapSuffixes| * 3 {
      return Some([]);
    }
    var added := Add2sAsWritten(sitemaps, site, live);
    if added.None? {
      return None;
    }
    var current := added.value;
    var check := 2;
    while exists s :: s in current && HasNumber(s, check)
      invariant check >= 2
      invariant NumberFrom(current, site, check, live) == NumberFrom(Add2s(sitemaps, site, live), site, 2, live)
      decreases 10 - check
    {
      AnyNumberedBelowTen(current, check);
      current := IncrementNumber(current, site, check, live);
      check := check + 1;
    }
    return Some(current);
  }
}
