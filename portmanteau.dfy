/**
 * portmanteau.py: helpers that find "ideal" portmanteaus in an IPA pronouncing dictionary.
 * A pronunciation is split into its leading consonant cluster (find_const) and everything
 * before its last vowel run (find_main); clusters with the same primary sound are
 * alternatives of each other (alt_dict), and first-word candidates are prefixes of the
 * pronunciation with its cluster swapped for an alternative.
 *
 * Python's negative indices count from the end (w[-1] is the last character) and an index
 * outside [-len, len) raises IndexError, which the model returns as None. A slice w[:i]
 * with i negative keeps all but the last -i characters.
 */
module Portmanteau {
  import opened Wrappers
  import opened OrderedHash
  import opened ClusterGroups

  // ----------------------------------------------------------------- vowels and indexing

  /** The IPA vowel symbols listed in `vow`. */
  const VOWELS: set<char> := {
    '\U{E6}', '\U{251}', '\U{254}', '\U{26A}', 'e', '\U{25B}', '\U{28C}', '\U{28A}', '\U{259}',
    'i', 'u', 'a', '\U{25C}', 'o', '\U{25D}'
  }

  predicate IsVowel(c: char) {
    c in VOWELS
  }

  predicate NoVowel(s: string) {
    forall i :: 0 <= i < |s| ==> !IsVowel(s[i])
  }

  /** w[index] for an index that Python accepts. */
  function At(w: string, index: int): char
    requires -|w| <= index < |w|
  {
    if index < 0 then w[|w| + index] else w[index]
  }

  /** The slice w[:index]. */
  function Before(w: string, index: int): (r: string)
    ensures |r| <= |w| && r == w[..|r|]
  {
    if index >= 0 then w[..if index <= |w| then index else |w|]
    else w[..if |w| + index >= 0 then |w| + index else 0]
  }

  // ----------------------------------------------------------------- find_const

  /** find_const(word, index): the slice before the first vowel at or after `index`. */
  function FindConst(w: string, index: int): Option<string>
    decreases |w| - index
  {
    if !(-|w| <= index < |w|) then None
    else if IsVowel(At(w, index)) then Some(Before(w, index))
    else FindConst(w, index + 1)
  }

  /** find_const(w) is the prefix of w before its first vowel, and fails exactly when w has no vowel. */
  lemma FindConstFirstVowel(w: string)
    ensures FindConst(w, 0).None? <==> NoVowel(w)
    ensures FindConst(w, 0).Some? ==> var c := FindConst(w, 0).value;
      |c| < |w| && c == w[..|c|] && NoVowel(c) && IsVowel(w[|c|])
  {
    FindConstFrom(w, 0);
  }

  lemma {:induction false} FindConstFrom(w: string, i: nat)
    requires i <= |w| && NoVowel(w[..i])
    ensures FindConst(w, i).None? <==> NoVowel(w)
    ensures FindConst(w, i).Some? ==> var c := FindConst(w, i).value;
      |c| < |w| && c == w[..|c|] && NoVowel(c) && IsVowel(w[|c|])
    decreases |w| - i
  {
    if i == |w| {
      assert w[..i] == w;
    } else if !IsVowel(w[i]) {
      assert w[..i + 1] == w[..i] + [w[i]];
      FindConstFrom(w, i + 1);
    }
  }

  // ----------------------------------------------------------------- find_main

  /** A vowel that starts a run of vowels: the first character, or one after a non-vowel. */
  predicate RunStart(w: string, p: int) {
    0 <= p < |w| && IsVowel(w[p]) && (p == 0 || !IsVowel(w[p - 1]))
  }

  /**
   * find_main(word, index) as written: when w[index] does not start a vowel run it hands over
   * to find_const(word, index - 1), which scans forward from there and wraps round to the start.
   */
  function FindMainAsWritten(w: string, index: int): Option<string> {
    if !(-|w| <= index < |w|) then None
    else if IsVowel(At(w, index)) && (index == -|w| || !IsVowel(At(w, index - 1))) then Some(Before(w, index))
    else FindConst(w, index - 1)
  }

  /** find_main with the recursion it evidently means: keep scanning backwards. */
  function FindMain(w: string, index: int): Option<string>
    decreases index + |w| + 1
  {
    if !(-|w| <= index < |w|) then None
    else if IsVowel(At(w, index)) && (index == -|w| || !IsVowel(At(w, index - 1))) then Some(Before(w, index))
    else FindMain(w, index - 1)
  }

  /** A word with a vowel has a vowel run that starts at or before it. */
  lemma {:induction false} VowelHasRunStart(w: string, q: nat)
    requires q < |w| && IsVowel(w[q])
    ensures exists p :: 0 <= p <= q && RunStart(w, p)
  {
    if q > 0 && IsVowel(w[q - 1]) {
      VowelHasRunStart(w, q - 1);
    } else {
      assert RunStart(w, q);
    }
  }

  lemma {:induction false} FindMainFrom(w: string, j: int)
    requires -1 <= j < |w|
    requires forall q :: j < q < |w| ==> !RunStart(w, q)
    ensures FindMain(w, j - |w|).None? <==> forall q :: 0 <= q < |w| ==> !RunStart(w, q)
    ensures FindMain(w, j - |w|).Some? ==> var m := FindMain(w, j - |w|).value;
      |m| < |w| && m == w[..|m|] && RunStart(w, |m|) && forall q :: |m| < q < |w| ==> !RunStart(w, q)
    decreases j + 1
  {
    if j >= 0 && !RunStart(w, j) {
      FindMainFrom(w, j - 1);
    }
  }

  /**
   * find_main(w), corrected, is w up to the start of its last vowel run, and fails exactly when
   * w has no vowel.
   */
  lemma FindMainLastRun(w: string)
    ensures FindMain(w, -1).None? <==> NoVowel(w)
    ensures FindMain(w, -1).Some? ==> var m := FindMain(w, -1).value;
      |m| < |w| && m == w[..|m|] && RunStart(w, |m|) && forall q :: |m| < q < |w| ==> !RunStart(w, q)
  {
    FindMainFrom(w, |w| - 1);
    if !NoVowel(w) {
      var q :| 0 <= q < |w| && IsVowel(w[q]);
      VowelHasRunStart(w, q);
    }
  }

  /** A word ending in a vowel after a non-vowel loses just that vowel, in both versions. */
  lemma FindMainFinalVowel(w: string)
    requires |w| >= 1 && IsVowel(w[|w| - 1]) && (|w| == 1 || !IsVowel(w[|w| - 2]))
    ensures FindMain(w, -1) == FindMainAsWritten(w, -1) == Some(w[..|w| - 1])
  {
  }

  /**
   * As written, a word whose last two characters are not vowels gets its leading cluster
   * back instead of its main part.
   */
  lemma FindMainAsWrittenFallsBack(w: string)
    requires |w| >= 2 && !IsVowel(w[|w| - 1]) && !IsVowel(w[|w| - 2])
    ensures FindMainAsWritten(w, -1) == FindConst(w, 0)
  {
    assert FindConst(w, -2) == FindConst(w, -1);
  }

  /** "patast": as written the main part is "p"; the main part meant is "pat". */
  lemma FindMainPatast()
    ensures FindMainAsWritten("patast", -1) == Some("p")
    ensures FindMain("patast", -1) == Some("pat")
  {
    var w := "patast";
    assert !IsVowel('p') && IsVowel('a') && !IsVowel('t') && !IsVowel('s');
    FindMainAsWrittenFallsBack(w);
    assert w[..1] == "p" && w[..3] == "pat";
    assert At(w, 0) == 'p' && At(w, 1) == 'a';
    assert At(w, -1) == 't' && At(w, -2) == 's' && At(w, -3) == 'a' && At(w, -4) == 't';
    assert FindConst(w, 0) == FindConst(w, 1) == Some("p");
    assert FindMain(w, -1) == FindMain(w, -2) == FindMain(w, -3) == Some("pat");
  }

  // ----------------------------------------------------------------- alt_dict

  /** Each cluster of a group mapped to the rest of its group. */
  function Group(g: set<string>): map<string, set<string>> {
    map s | s in g :: g - {s}
  }

  /** `dict(reduce(...))`: the group maps in order, a later group overriding an earlier one. */
  function AltDict(sets: seq<set<string>>): map<string, set<string>> {
    if sets == [] then map[] else AltDict(sets[..|sets| - 1]) + Group(sets[|sets| - 1])
  }

  /** `alt_dict`. */
  function AltDictionary(): map<string, set<string>> {
    AltDict(ALT_SETS)
  }

  /** The keys are the clusters of all the groups. */
  lemma {:induction false} AltDictKeys(sets: seq<set<string>>, k: string)
    ensures k in AltDict(sets) <==> exists i :: 0 <= i < |sets| && k in sets[i]
  {
    if sets != [] {
      var n := |sets|;
      AltDictKeys(sets[..n - 1], k);
      if k in AltDict(sets[..n - 1]) {
        var i :| 0 <= i < n - 1 && k in sets[..n - 1][i];
        assert k in sets[i];
      }
      if i :| 0 <= i < n && k in sets[i] {
        if i < n - 1 {
          assert k in sets[..n - 1][i];
        }
      }
    }
  }

  /** No cluster is its own alternative. */
  lemma {:induction false} AltDictNoSelf(sets: seq<set<string>>, k: string)
    requires k in AltDict(sets)
    ensures k !in AltDict(sets)[k]
  {
    var n := |sets|;
    if k !in sets[n - 1] {
      AltDictNoSelf(sets[..n - 1], k);
    }
  }

  /** With disjoint groups, a cluster's alternatives are exactly the rest of its group. */
  lemma {:induction false} AltDictValue(sets: seq<set<string>>, i: nat, k: string)
    requires PairwiseDisjoint(sets) && i < |sets| && k in sets[i]
    ensures k in AltDict(sets) && AltDict(sets)[k] == sets[i] - {k}
  {
    var n := |sets|;
    if i < n - 1 {
      assert k !in sets[n - 1];
      AltDictValue(sets[..n - 1], i, k);
    }
  }

  /** With disjoint groups, being an alternative is symmetric. */
  lemma AltDictSymmetric(sets: seq<set<string>>, a: string, b: string)
    requires PairwiseDisjoint(sets) && a in AltDict(sets) && b in AltDict(sets)[a]
    ensures b in AltDict(sets) && a in AltDict(sets)[b]
  {
    AltDictKeys(sets, a);
    var i :| 0 <= i < |sets| && a in sets[i];
    AltDictValue(sets, i, a);
    AltDictValue(sets, i, b);
  }

  /** In alt_dict no cluster is its own alternative, and each alternative has the first as its own. */
  lemma AltDictionaryProperties(a: string, b: string)
    requires a in AltDictionary()
    ensures a !in AltDictionary()[a]
    ensures b in AltDictionary()[a] ==> b in AltDictionary() && a in AltDictionary()[b]
  {
    AltDictNoSelf(ALT_SETS, a);
    if b in AltDictionary()[a] {
      AltSetsDisjoint();
      AltDictSymmetric(ALT_SETS, a, b);
    }
  }
  // ----------------------------------------------------------------- write_ports

  /** The slice w[n:] for n >= 0: empty once n passes the end. */
  function From(w: string, n: nat): string {
    if n <= |w| then w[n..] else ""
  }

  /**
   * The first words tried for one alternative cluster: `alt_main[:len(alt_main) - i + len(const)]`
   * for i from len(const) to len(alt_main), so the k-th is alt_main less its last k characters.
   */
  function Candidates(cluster: string, altMain: string): (r: seq<string>)
    requires |cluster| <= |altMain|
    ensures |r| == |altMain| - |cluster| + 1
  {
    seq(|altMain| - |cluster| + 1, k requires 0 <= k <= |altMain| - |cluster| => altMain[..|altMain| - k])
  }

  /**
   * The candidates are the prefixes of alt_main, longest first, down to the length of the
   * cluster; when alt_main starts with the cluster, all of them do.
   */
  lemma CandidatesArePrefixes(cluster: string, altMain: string)
    requires |cluster| <= |altMain|
    ensures forall k :: 0 <= k < |Candidates(cluster, altMain)| ==>
      |Candidates(cluster, altMain)[k]| == |altMain| - k && Candidates(cluster, altMain)[k] <= altMain
    ensures forall p :: p in Candidates(cluster, altMain) <==> p <= altMain && |cluster| <= |p|
    ensures cluster <= altMain ==> forall k :: 0 <= k < |Candidates(cluster, altMain)| ==> cluster <= Candidates(cluster, altMain)[k]
  {
    var r := Candidates(cluster, altMain);
    forall p | p <= altMain && |cluster| <= |p|
      ensures p in r
    {
      assert r[|altMain| - |p|] == p;
    }
  }

  /** One output line: `f'{sound1} + {sound2}\n'`. */
  function Line(sound1: string, sound2: string): string {
    sound1 + " + " + sound2 + "\n"
  }

  /** The lines pairing sound1 with each of sound2s. */
  function Row(sound1: string, sound2s: seq<string>): string {
    if sound2s == [] then "" else Row(sound1, sound2s[..|sound2s| - 1]) + Line(sound1, sound2s[|sound2s| - 1])
  }

  /** The lines pairing each of sound1s with each of sound2s. */
  function Block(sound1s: seq<string>, sound2s: seq<string>): string {
    if sound1s == [] then "" else Block(sound1s[..|sound1s| - 1], sound2s) + Row(sound1s[|sound1s| - 1], sound2s)
  }

  /** The lines for the candidate first words that are pronunciations in the dictionary. */
  function CandidateText(allSounds: Hash<string, seq<string>>, firsts: seq<string>, sound2s: seq<string>): string {
    if firsts == [] then ""
    else
      CandidateText(allSounds, firsts[..|firsts| - 1], sound2s)
      + match Get(allSounds, firsts[|firsts| - 1])
        case Some(sound1s) => Block(sound1s, sound2s)
        case None => ""
  }

  /** The alternative main part for one cluster: `const + main[len(true_const):]`. */
  function AltMain(cluster: string, main: string, trueConst: string): string {
    cluster + From(main, |trueConst|)
  }

  /** The lines for each alternative cluster in turn. */
  function AlternativesText(allSounds: Hash<string, seq<string>>, clusters: seq<string>, main: string,
                            trueConst: string, sound2s: seq<string>): string
  {
    if clusters == [] then ""
    else
      var c := clusters[|clusters| - 1];
      AlternativesText(allSounds, clusters[..|clusters| - 1], main, trueConst, sound2s)
      + ClusterText(allSounds, c, main, trueConst, sound2s)
  }

  /**
   * `order(k)` is an iteration of the Python set alt_dict[k]: it lists every member of the set
   * exactly once and nothing else.
   */
  ghost predicate Enumerates(altDict: map<string, set<string>>, order: string -> seq<string>) {
    forall k :: k in altDict ==>
      |order(k)| == |altDict[k]| && forall c :: c in order(k) <==> c in altDict[k]
  }

  /**
   * What the loop body of write_ports adds for one pronunciation, given alt_dict (a global of
   * the script, passed in). The alternatives of a cluster form a Python set, whose iteration
   * order is not specified: `order` gives it. None is the IndexError of a pronunciation
   * without a vowel or the KeyError of a leading cluster missing from alt_dict.
   */
  function SoundText(allSounds: Hash<string, seq<string>>, sound: string, altDict: map<string, set<string>>,
                     order: string -> seq<string>): Option<string>
    requires Enumerates(altDict, order)
  {
    var trueConst := FindConst(sound, 0);
    var main := FindMain(sound, -1);
    if trueConst.None? || main.None? then None
    else if trueConst.value == main.value then Some("")
    else if trueConst.value !in altDict then None
    else Some(AlternativesText(allSounds, order(trueConst.value), main.value, trueConst.value, Get(allSounds, sound).GetOr([])))
  }

  /** The text write_ports writes, over the pronunciations in insertion order. */
  function PortsText(allSounds: Hash<string, seq<string>>, sounds: seq<string>, altDict: map<string, set<string>>,
                     order: string -> seq<string>): Option<string>
    requires Enumerates(altDict, order)
  {
    if sounds == [] then Some("")
    else
      match (PortsText(allSounds, sounds[..|sounds| - 1], altDict, order), SoundText(allSounds, sounds[|sounds| - 1], altDict, order))
      case (Some(before), Some(more)) => Some(before + more)
      case _ => None
  }

  /** A pronunciation whose leading cluster is its whole main part adds nothing. */
  lemma SoundTextSkipped(allSounds: Hash<string, seq<string>>, sound: string, altDict: map<string, set<string>>,
                         order: string -> seq<string>)
    requires Enumerates(altDict, order)
    requires FindConst(sound, 0).Some? && FindConst(sound, 0) == FindMain(sound, -1)
    ensures SoundText(allSounds, sound, altDict, order) == Some("")
  {
  }

  /** A pronunciation without a vowel stops write_ports. */
  lemma SoundTextNoVowel(allSounds: Hash<string, seq<string>>, sound: string, altDict: map<string, set<string>>,
                         order: string -> seq<string>)
    requires Enumerates(altDict, order)
    requires NoVowel(sound)
    ensures SoundText(allSounds, sound, altDict, order) == None
  {
    FindConstFirstVowel(sound);
  }

  /** The lines for one alternative cluster: its candidate first words against every second sound. */
  function ClusterText(allSounds: Hash<string, seq<string>>, c: string, main: string, trueConst: string,
                       sound2s: seq<string>): string
  {
    CandidateText(allSounds, Candidates(c, AltMain(c, main, trueConst)), sound2s)
  }

  /** The alternatives' lines in two runs are those of the first run followed by those of the second. */
  lemma {:induction false} AlternativesTextAppend(allSounds: Hash<string, seq<string>>, a: seq<string>, b: seq<string>,
                                                  main: string, trueConst: string, sound2s: seq<string>)
    ensures AlternativesText(allSounds, a + b, main, trueConst, sound2s)
         == AlternativesText(allSounds, a, main, trueConst, sound2s) + AlternativesText(allSounds, b, main, trueConst, sound2s)
    decreases |b|
  {
    if b == [] {
      assert a + b == a;
    } else {
      var n := |b| - 1;
      assert (a + b)[..|a + b| - 1] == a + b[..n];
      assert (a + b)[|a + b| - 1] == b[n];
      AlternativesTextAppend(allSounds, a, b[..n], main, trueConst, sound2s);
      AppendAssoc(AlternativesText(allSounds, a, main, trueConst, sound2s),
                  AlternativesText(allSounds, b[..n], main, trueConst, sound2s),
                  ClusterText(allSounds, b[n], main, trueConst, sound2s));
    }
  }

  /**
   * Every alternative of the leading cluster contributes its lines: the pronunciation's text is
   * the lines of the alternatives iterated before it, then its own, then those of the rest.
   */
  lemma SoundTextHasEveryAlternative(allSounds: Hash<string, seq<string>>, sound: string,
                                     altDict: map<string, set<string>>, order: string -> seq<string>, c: string)
    requires Enumerates(altDict, order)
    requires FindConst(sound, 0).Some? && FindMain(sound, -1).Some? && FindConst(sound, 0) != FindMain(sound, -1)
    requires FindConst(sound, 0).value in altDict && c in altDict[FindConst(sound, 0).value]
    ensures var k := FindConst(sound, 0).value;
      var main := FindMain(sound, -1).value;
      var sound2s := Get(allSounds, sound).GetOr([]);
      SoundText(allSounds, sound, altDict, order).Some? &&
      exists i :: 0 <= i < |order(k)| && order(k)[i] == c &&
        SoundText(allSounds, sound, altDict, order).value
          == AlternativesText(allSounds, order(k)[..i], main, k, sound2s) + ClusterText(allSounds, c, main, k, sound2s)
             + AlternativesText(allSounds, order(k)[i + 1..], main, k, sound2s)
  {
    var k := FindConst(sound, 0).value;
    var main := FindMain(sound, -1).value;
    var sound2s := Get(allSounds, sound).GetOr([]);
    var clusters := order(k);
    var i :| 0 <= i < |clusters| && clusters[i] == c;
    AlternativesTextSplit(allSounds, clusters, i, main, k, sound2s);
    assert SoundText(allSounds, sound, altDict, order) == Some(AlternativesText(allSounds, clusters, main, k, sound2s));
  }

  /** The alternatives' text is the text before cluster i, cluster i's own lines, and the text after it. */
  lemma AlternativesTextSplit(allSounds: Hash<string, seq<string>>, clusters: seq<string>, i: nat, main: string,
                              trueConst: string, sound2s: seq<string>)
    requires i < |clusters|
    ensures AlternativesText(allSounds, clusters, main, trueConst, sound2s)
      == AlternativesText(allSounds, clusters[..i], main, trueConst, sound2s)
         + ClusterText(allSounds, clusters[i], main, trueConst, sound2s)
         + AlternativesText(allSounds, clusters[i + 1..], main, trueConst, sound2s)
  {
    assert clusters == clusters[..i + 1] + clusters[i + 1..];
    AlternativesTextAppend(allSounds, clusters[..i + 1], clusters[i + 1..], main, trueConst, sound2s);
    assert clusters[..i + 1][..i] == clusters[..i];
  }

  /**
   * One pass of write_ports' loop: the lines of one pronunciation, or None where find_const,
   * find_main or `alt_dict[true_const]` raises.
   */
  method SoundPorts(allSounds: Hash<string, seq<string>>, sound: string, altDict: map<string, set<string>>,
                    order: string -> seq<string>) returns (more: Option<string>)
    requires Enumerates(altDict, order)
    ensures more == SoundText(allSounds, sound, altDict, order)
  {
    var trueConst := FindConst(sound, 0);
    var main := FindMain(sound, -1);
    if trueConst.None? || main.None? || (trueConst.value != main.value && trueConst.value !in altDict) {
      return None;
    }
    var text := "";
    if trueConst.value != main.value {
      text := AddAlternatives(allSounds, order(trueConst.value), main.value, trueConst.value, Get(allSounds, sound).GetOr([]), "");
      assert text == AlternativesText(allSounds, order(trueConst.value), main.value, trueConst.value, Get(allSounds, sound).GetOr([]));
    }
    more := Some(text);
  }

  /**
   * write_ports without the file: the text it would write, or None where it raises. alt_dict
   * is `altDict`, and `order(k)` is the order in which the interpreter iterates alt_dict[k].
   */
  method WritePorts(allSounds: Hash<string, seq<string>>, altDict: map<string, set<string>>, order: string -> seq<string>)
    returns (file: Option<string>)
    requires Enumerates(altDict, order)
    ensures file == PortsText(allSounds, Keys(allSounds), altDict, order)
  {
    var sounds := Keys(allSounds);
    var text := "";
    for n := 0 to |sounds|
      invariant PortsText(allSounds, sounds[..n], altDict, order) == Some(text)
    {
      var more := SoundPorts(allSounds, sounds[n], altDict, order);
      if more.None? {
        PortsStops(allSounds, sounds, altDict, order, n + 1);
        return None;
      }
      PortsStep(allSounds, sounds, altDict, order, n, text, more.value);
      text := text + more.value;
    }
    assert sounds[..|sounds|] == sounds;
    file := Some(text);
  }

  lemma PortsStep(allSounds: Hash<string, seq<string>>, sounds: seq<string>, altDict: map<string, set<string>>,
                  order: string -> seq<string>, n: nat, text: string, more: string)
    requires n < |sounds| && Enumerates(altDict, order)
    requires PortsText(allSounds, sounds[..n], altDict, order) == Some(text)
    requires SoundText(allSounds, sounds[n], altDict, order) == Some(more)
    ensures PortsText(allSounds, sounds[..n + 1], altDict, order) == Some(text + more)
  {
    assert sounds[..n + 1][..n] == sounds[..n];
  }

  /** Once a pronunciation raises, so does the whole run. */
  lemma {:induction false} PortsStops(allSounds: Hash<string, seq<string>>, sounds: seq<string>,
                                      altDict: map<string, set<string>>, order: string -> seq<string>, n: nat)
    requires 1 <= n <= |sounds| && Enumerates(altDict, order)
    requires SoundText(allSounds, sounds[n - 1], altDict, order).None?
    ensures PortsText(allSounds, sounds, altDict, order).None?
    decreases |sounds|
  {
    if n < |sounds| {
      PortsStops(allSounds, sounds[..|sounds| - 1], altDict, order, n);
    } else {
      assert sounds[..|sounds| - 1] == sounds[..n - 1];
    }
  }

  lemma AppendAssoc(a: string, b: string, c: string)
    ensures a + b + c == a + (b + c)
  {
  }

  /** The loop over the alternative clusters, appending to `text`. */
  method AddAlternatives(allSounds: Hash<string, seq<string>>, clusters: seq<string>, main: string,
                         trueConst: string, sound2s: seq<string>, text: string) returns (r: string)
    ensures r == text + AlternativesText(allSounds, clusters, main, trueConst, sound2s)
  {
    r := text;
    for n := 0 to |clusters|
      invariant r == text + AlternativesText(allSounds, clusters[..n], main, trueConst, sound2s)
    {
      var c := clusters[n];
      var altMain := c + From(main, |trueConst|);
      ghost var before := AlternativesText(allSounds, clusters[..n], main, trueConst, sound2s);
      ghost var piece := CandidateText(allSounds, Candidates(c, altMain), sound2s);
      assert clusters[..n + 1][..n] == clusters[..n];
      assert AlternativesText(allSounds, clusters[..n + 1], main, trueConst, sound2s) == before + piece;
      r := AddCandidates(allSounds, Candidates(c, altMain), sound2s, r);
      AppendAssoc(text, before, piece);
    }
    assert clusters[..|clusters|] == clusters;
  }

  /** The loop over the candidate first words, appending to `text`. */
  method AddCandidates(allSounds: Hash<string, seq<string>>, firsts: seq<string>, sound2s: seq<string>, text: string)
    returns (r: string)
    ensures r == text + CandidateText(allSounds, firsts, sound2s)
  {
    r := text;
    for k := 0 to |firsts|
      invariant r == text + CandidateText(allSounds, firsts[..k], sound2s)
    {
      var found := Get(allSounds, firsts[k]);
      ghost var before := CandidateText(allSounds, firsts[..k], sound2s);
      ghost var piece := if found.Some? then Block(found.value, sound2s) else "";
      assert firsts[..k + 1][..k] == firsts[..k];
      assert CandidateText(allSounds, firsts[..k + 1], sound2s) == before + piece;
      if found.Some? {
        r := AddBlock(found.value, sound2s, r);
      }
      AppendAssoc(text, before, piece);
    }
    assert firsts[..|firsts|] == firsts;
  }

  /** The two innermost loops: every pronunciation of the first word with every one of the second. */
  method AddBlock(sound1s: seq<string>, sound2s: seq<string>, text: string) returns (r: string)
    ensures r == text + Block(sound1s, sound2s)
  {
    r := text;
    for i := 0 to |sound1s|
      invariant r == text + Block(sound1s[..i], sound2s)
    {
      BlockSnoc(sound1s, i, sound2s);
      AppendAssoc(text, Block(sound1s[..i], sound2s), Row(sound1s[i], sound2s));
      ghost var before := r;
      for j := 0 to |sound2s|
        invariant r == before + Row(sound1s[i], sound2s[..j])
      {
        RowSnoc(sound1s[i], sound2s, j);
        AppendAssoc(before, Row(sound1s[i], sound2s[..j]), Line(sound1s[i], sound2s[j]));
        r := r + (sound1s[i] + " + " + sound2s[j] + "\n");
      }
      assert sound2s[..|sound2s|] == sound2s;
    }
    assert sound1s[..|sound1s|] == sound1s;
  }

  lemma RowSnoc(sound1: string, sound2s: seq<string>, j: nat)
    requires j < |sound2s|
    ensures Row(sound1, sound2s[..j + 1]) == Row(sound1, sound2s[..j]) + Line(sound1, sound2s[j])
  {
    assert sound2s[..j + 1][..j] == sound2s[..j];
  }

  lemma BlockSnoc(sound1s: seq<string>, i: nat, sound2s: seq<string>)
    requires i < |sound1s|
    ensures Block(sound1s[..i + 1], sound2s) == Block(sound1s[..i], sound2s) + Row(sound1s[i], sound2s)
  {
    assert sound1s[..i + 1][..i] == sound1s[..i];
  }

  // ----------------------------------------------------------------- read_sound_list

  const SECONDARY_STRESS: char := '\U{2CC}'
  const PRIMARY_STRESS: char := '\U{2C8}'
  const LENGTH_MARK: char := '\U{2D0}'

  predicate IsMark(c: char) {
    c == SECONDARY_STRESS || c == PRIMARY_STRESS || c == LENGTH_MARK
  }

  /** `s.replace(c, '')`: every occurrence of c removed. */
  function RemoveChar(s: string, c: char): string {
    if s == [] then ""
    else RemoveChar(s[..|s| - 1], c) + (if s[|s| - 1] == c then "" else [s[|s| - 1]])
  }

  /** The three replace calls of read_sound_list, one mark after the other. */
  function StripMarks(s: string): string {
    RemoveChar(RemoveChar(RemoveChar(s, SECONDARY_STRESS), PRIMARY_STRESS), LENGTH_MARK)
  }

  /** The characters of s that are not marks, in order. */
  function Unmarked(s: string): (r: string)
    ensures forall i :: 0 <= i < |r| ==> !IsMark(r[i])
  {
    if s == [] then ""
    else Unmarked(s[..|s| - 1]) + (if IsMark(s[|s| - 1]) then "" else [s[|s| - 1]])
  }

  lemma RemoveCharSnoc(s: string, x: char, c: char)
    ensures RemoveChar(s + [x], c) == RemoveChar(s, c) + (if x == c then "" else [x])
  {
    assert (s + [x])[..|s|] == s;
  }

  lemma RemoveCharAppend(s: string, t: string, c: char)
    requires |t| <= 1
    ensures RemoveChar(s + t, c) == RemoveChar(s, c) + RemoveChar(t, c)
  {
    if t == [] {
      assert s + t == s;
    } else {
      RemoveCharSnoc(s, t[0], c);
      assert t == [] + [t[0]];
      RemoveCharSnoc([], t[0], c);
    }
  }

  /** Stripping the three marks one after another removes exactly the marks. */
  lemma {:induction false} StripMarksUnmarked(s: string)
    ensures StripMarks(s) == Unmarked(s)
  {
    if s != [] {
      var t, x := s[..|s| - 1], s[|s| - 1];
      assert s == t + [x];
      StripMarksUnmarked(t);
      RemoveCharSnoc(t, x, SECONDARY_STRESS);
      var x1 := if x == SECONDARY_STRESS then "" else [x];
      RemoveCharAppend(RemoveChar(t, SECONDARY_STRESS), x1, PRIMARY_STRESS);
      var x2 := RemoveChar(x1, PRIMARY_STRESS);
      assert |x2| <= 1 by {
        if x1 != [] {
          RemoveCharSnoc([], x, PRIMARY_STRESS);
          assert x1 == [] + [x];
        }
      }
      RemoveCharAppend(RemoveChar(RemoveChar(t, SECONDARY_STRESS), PRIMARY_STRESS), x2, LENGTH_MARK);
      if x1 != [] {
        assert x1 == [] + [x];
        RemoveCharSnoc([], x, PRIMARY_STRESS);
        if x2 != [] {
          assert x2 == [] + [x];
          RemoveCharSnoc([], x, LENGTH_MARK);
        }
      }
    }
  }

  /** Stripping twice is stripping once. */
  lemma StripMarksIdempotent(s: string)
    ensures StripMarks(StripMarks(s)) == StripMarks(s)
  {
    StripMarksUnmarked(s);
    StripMarksUnmarked(StripMarks(s));
    UnmarkedKeepsClean(StripMarks(s));
  }

  lemma {:induction false} UnmarkedKeepsClean(s: string)
    requires forall i :: 0 <= i < |s| ==> !IsMark(s[i])
    ensures Unmarked(s) == s
  {
    if s != [] {
      UnmarkedKeepsClean(s[..|s| - 1]);
    }
  }

  /** What one dictionary line adds: each stripped pronunciation gets the word appended. */
  function Recorded(allSounds: Hash<string, seq<string>>, word: string, sounds: seq<string>): Hash<string, seq<string>> {
    if sounds == [] then allSounds
    else RecordOne(Recorded(allSounds, word, sounds[..|sounds| - 1]), StripMarks(sounds[|sounds| - 1]), word)
  }

  /** One pass of the inner loop: the entry is created empty if missing, then the word appended. */
  function RecordOne(h: Hash<string, seq<string>>, sound: string, word: string): Hash<string, seq<string>> {
    var h' := if Get(h, sound).None? then Put(h, sound, []) else h;
    Put(h', sound, Get(h', sound).GetOr([]) + [word])
  }

  /** Recording a word changes the entry for that sound only, and appends the word to it. */
  lemma RecordOneGet(h: Hash<string, seq<string>>, sound: string, word: string, k: string)
    ensures Get(RecordOne(h, sound, word), k) == if k == sound then Some(Get(h, sound).GetOr([]) + [word]) else Get(h, k)
  {
    var h' := if Get(h, sound).None? then Put(h, sound, []) else h;
    GetPut(h', sound, Get(h', sound).GetOr([]) + [word], k);
    if Get(h, sound).None? {
      GetPut(h, sound, [], k);
      GetPut(h, sound, [], sound);
    }
  }

  /**
   * The inner loop of read_sound_list for one accepted word: `sounds` is its pronunciations
   * field split at ", ".
   */
  method RecordSounds(allSounds: Hash<string, seq<string>>, word: string, sounds: seq<string>)
    returns (r: Hash<string, seq<string>>)
    ensures r == Recorded(allSounds, word, sounds)
  {
    r := allSounds;
    for i := 0 to |sounds|
      invariant r == Recorded(allSounds, word, sounds[..i])
    {
      assert sounds[..i + 1][..i] == sounds[..i];
      var sound := StripMarks(sounds[i]);
      if Get(r, sound).None? {
        r := Put(r, sound, []);
      }
      r := Put(r, sound, Get(r, sound).GetOr([]) + [word]);
    }
    assert sounds[..|sounds|] == sounds;
  }

  /** The entry for k exists and lists the word. */
  predicate Lists(h: Hash<string, seq<string>>, k: string, word: string) {
    Get(h, k).Some? && word in Get(h, k).value
  }

  /** Recording a word under `sound` lists it there and keeps every other listing. */
  lemma RecordOneLists(h: Hash<string, seq<string>>, sound: string, word: string, k: string)
    requires k == sound || Lists(h, k, word)
    ensures Lists(RecordOne(h, sound, word), k, word)
  {
    RecordOneGet(h, sound, word, k);
  }

  /** Each pronunciation, stripped, lists the word. */
  lemma {:induction false} RecordedHasWord(allSounds: Hash<string, seq<string>>, word: string, sounds: seq<string>, i: nat)
    requires i < |sounds|
    ensures Lists(Recorded(allSounds, word, sounds), StripMarks(sounds[i]), word)
  {
    var n := |sounds|;
    var earlier := sounds[..n - 1];
    if i < n - 1 {
      assert earlier[i] == sounds[i];
      RecordedHasWord(allSounds, word, earlier, i);
    }
    RecordOneLists(Recorded(allSounds, word, earlier), StripMarks(sounds[n - 1]), word, StripMarks(sounds[i]));
  }

  /** Entries for anything else are left as they were. */
  lemma {:induction false} RecordedOthers(allSounds: Hash<string, seq<string>>, word: string, sounds: seq<string>, k: string)
    requires forall i :: 0 <= i < |sounds| ==> StripMarks(sounds[i]) != k
    ensures Get(Recorded(allSounds, word, sounds), k) == Get(allSounds, k)
  {
    if sounds != [] {
      var n := |sounds|;
      RecordOneGet(Recorded(allSounds, word, sounds[..n - 1]), StripMarks(sounds[n - 1]), word, k);
      assert forall i :: 0 <= i < n - 1 ==> sounds[..n - 1][i] == sounds[i];
      RecordedOthers(allSounds, word, sounds[..n - 1], k);
    }
  }
}
