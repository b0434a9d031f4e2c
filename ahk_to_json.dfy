/**
 * ahk_to_json.rb: reads an AutoHotkey script laid out to the Mugwriter standard back into the
 * JSON object it was generated from. The script is read line by line and passes through five
 * sections: leading blank lines, the header comment, the body of `;;;` blocks with their
 * `; X value` entries, the prepended code, and the hotkeys, which are not read at all.
 *
 * The data hash is threaded through the three parsers and the main loop, which reassigns it
 * from their results; a parser that raises (a `nil[1]` on a line its regular expression does
 * not match) is None. Writing the JSON out is left out; `show` stands for Hash#to_s, which a
 * string interpolation calls when a block happens to be named `_header` or `_prepend`.
 */
module AhkToJson {
  import opened Wrappers
  import opened OrderedHash
  import opened Strings

  /** The `section` symbol of main, in the order the sections come in the script. */
  datatype Section = PreSpace | Header | Body | Prepend | End

  function Rank(s: Section): nat {
    match s
    case PreSpace => 0
    case Header => 1
    case Body => 2
    case Prepend => 3
    case End => 4
  }

  /** A value of the JSON object: the header or prepend text, or a block of entries. */
  datatype Value = Text(text: string) | Obj(entries: Hash<string, string>)

  type Data = Hash<string, Value>

  /** `String#chomp!` on a line File.foreach yields: the "\n" is gone, one "\r" before it goes too. */
  function Chomp(piece: string): (r: string)
    ensures |r| <= |piece| && r == piece[..|r|]
    ensures r == piece || (r + "\r" == piece)
  {
    if piece != [] && piece[|piece| - 1] == '\r' then piece[..|piece| - 1] else piece
  }

  /** The chomped lines File.foreach yields for a file: an empty piece after the last "\n" is no line. */
  function Lines(content: string): (r: seq<string>)
    ensures forall i :: 0 <= i < |r| ==> '\n' !in r[i]
  {
    var pieces := Split(content, '\n');
    var kept := if pieces[|pieces| - 1] == "" then pieces[..|pieces| - 1] else pieces;
    seq(|kept|, i requires 0 <= i < |kept| => Chomp(kept[i]))
  }

  /** `line =~ /\A *\z/`: the line holds nothing but spaces. */
  predicate Blank(line: string) {
    forall i :: 0 <= i < |line| ==> line[i] == ' '
  }

  /** The line without its leading spaces, which a leading ` *` in a pattern consumes. */
  function SkipSpaces(s: string): (r: string)
    ensures |r| <= |s| && r == s[|s| - |r|..]
    ensures r == [] || r[0] != ' '
  {
    if s != [] && s[0] == ' ' then SkipSpaces(s[1..]) else s
  }

  /** What SkipSpaces drops is spaces only, and it drops nothing from a line not starting with one. */
  lemma {:induction false} SkipSpacesDrops(s: string)
    ensures Blank(s[..|s| - |SkipSpaces(s)|])
    ensures (s == [] || s[0] != ' ') ==> SkipSpaces(s) == s
  {
    if s != [] && s[0] == ' ' {
      SkipSpacesDrops(s[1..]);
      var n := |s| - |SkipSpaces(s)|;
      assert s[..n] == [' '] + s[1..][..n - 1];
    }
  }

  /** The text without its trailing spaces, which `(.*[^ ]) *\z` leaves out of the group. */
  function TrimEnd(s: string): (r: string)
    ensures |r| <= |s| && r == s[..|r|]
    ensures r == [] || r[|r| - 1] != ' '
  {
    if s != [] && s[|s| - 1] == ' ' then
      var r := TrimEnd(s[..|s| - 1]);
      assert s[..|s| - 1][..|r|] == s[..|r|];
      r
    else s
  }

  /** TrimEnd drops spaces only, so it leaves nothing exactly of a blank text. */
  lemma {:induction false} TrimEndDrops(s: string)
    ensures Blank(s[|TrimEnd(s)|..])
    ensures TrimEnd(s) == [] <==> Blank(s)
  {
    if s != [] && s[|s| - 1] == ' ' {
      var init := s[..|s| - 1];
      TrimEndDrops(init);
      var n := |TrimEnd(s)|;
      assert s[n..] == init[n..] + [' '];
    }
  }

  /** Dropping a leading space keeps a text that is not blank from being blank. */
  lemma TrimEndSpace(s: string)
    requires s != [] && s[0] == ' ' && TrimEnd(s) != []
    ensures TrimEnd(s[1..]) != []
  {
    TrimEndDrops(s);
    TrimEndDrops(s[1..]);
    assert Blank(s[1..]) ==> Blank(s) by {
      if Blank(s[1..]) {
        forall i | 0 <= i < |s|
          ensures s[i] == ' '
        {
          if i > 0 {
            assert s[i] == s[1..][i - 1];
          }
        }
      }
    }
  }

  /** `start_with?(/ *;;;/)` */
  predicate OpensBlock(line: string) {
    var t := SkipSpaces(line);
    |t| >= 3 && t[..3] == ";;;"
  }

  /** `start_with?(/ *;/)` */
  predicate IsComment(line: string) {
    var t := SkipSpaces(line);
    |t| >= 1 && t[0] == ';'
  }

  /** `start_with?(/[^; ]/)`: the first character is neither a semicolon nor a space. */
  predicate StartsPlain(line: string) {
    |line| > 0 && line[0] != ';' && line[0] != ' '
  }

  /** `start_with?(/ *[^; ].*::/)`: after the indentation, a non-comment character with "::" somewhere after it. */
  predicate IsHotkey(line: string) {
    var t := SkipSpaces(line);
    |t| > 0 && t[0] != ';' && IndexOfFrom(t, "::", 1).Some?
  }

  /**
   * `line.match(/\A *;;; ?(.*[^ ]) *\z/)[1]`: the text after `;;;`, one optional space and
   * trailing spaces removed; None when nothing but spaces follows and the match is nil.
   */
  function BlockName(line: string): (r: Option<string>)
    requires OpensBlock(line)
    ensures r.None? <==> Blank(SkipSpaces(line)[3..])
    ensures r.Some? ==> r.value != [] && r.value[|r.value| - 1] != ' '
  {
    var rest := SkipSpaces(line)[3..];
    TrimEndDrops(rest);
    if TrimEnd(rest) == [] then None
    else if rest[0] == ' ' then
      TrimEndSpace(rest);
      Some(TrimEnd(rest[1..]))
    else Some(TrimEnd(rest))
  }

  /**
   * `line.match(/\A *; ?(.) (.*[^ ]) *\z/)`: the one-character key and the value after it;
   * the optional space is taken when the rest still matches, and None is the nil match.
   */
  function EntryOf(line: string): (r: Option<(string, string)>)
    requires IsComment(line)
    ensures r.Some? ==> |r.value.0| == 1 && r.value.1 != [] && r.value.1[|r.value.1| - 1] != ' '
  {
    var rest := SkipSpaces(line)[1..];
    var spaced := TrimmedFrom(rest, 3);
    var unspaced := TrimmedFrom(rest, 2);
    if |rest| >= 3 && rest[0] == ' ' && rest[2] == ' ' && spaced != [] then
      Some(([rest[1]], spaced))
    else if |rest| >= 2 && rest[1] == ' ' && unspaced != [] then
      Some(([rest[0]], unspaced))
    else None
  }

  /** What `(.*[^ ]) *\z` captures from position k on: the rest without its trailing spaces, empty past the end. */
  function TrimmedFrom(rest: string, k: nat): (r: string)
    ensures r == [] || r[|r| - 1] != ' '
  {
    if |rest| >= k then TrimEnd(rest[k..]) else []
  }

  /** `data[key] ? "#{data[key]}\n#{line}" : line`: a missing key starts the text, any value is continued. */
  function Joined(prev: Option<Value>, line: string, show: Hash<string, string> -> string): string {
    match prev
    case None => line
    case Some(Text(s)) => s + "\n" + line
    case Some(Obj(b)) => show(b) + "\n" + line
  }

  /** parse_header */
  function ParseHeader(line: string, data: Data, section: Section, show: Hash<string, string> -> string): (Data, Section) {
    if OpensBlock(line) then (data, Body)
    else (Put(data, "_header", Text(Joined(Get(data, "_header"), line, show))), section)
  }

  /**
   * parse_body; None is the exception of an unmatched line, of a block that is nil, or of
   * String#[]= on a block that is a string not containing the key.
   */
  function ParseBody(line: string, data: Data, section: Section, block: string): Option<(Data, Section, string)> {
    if StartsPlain(line) then Some((data, Prepend, block))
    else if OpensBlock(line) then
      match BlockName(line)
      case None => None
      case Some(name) => Some((Put(data, name, Obj([])), section, name))
    else if IsComment(line) then
      match EntryOf(line)
      case None => None
      case Some((k, v)) =>
        var cur: Option<Value> := Get(data, block);
        match cur
        case None => None
        case Some(Obj(b)) => Some((Put(data, block, Obj(Put(b, k, v))), section, block))
        case Some(Text(s)) =>
          if IndexOf(s, k).None? then None
          else Some((Put(data, block, Text(ReplaceFirst(s, k, v))), section, block))
    else Some((data, section, block))
  }

  /** parse_prepend */
  function ParsePrepend(line: string, data: Data, section: Section, show: Hash<string, string> -> string): (Data, Section) {
    if section == Prepend then
      if IsHotkey(line) then (data, End)
      else (Put(data, "_prepend", Text(Joined(Get(data, "_prepend"), line, show))), section)
    else (data, section)
  }

  /** What main's loop carries from one line to the next. */
  datatype State = State(data: Data, section: Section, block: string)

  const Initial := State([], PreSpace, "")

  /** `section = :header if section == :pre_space && line !~ /\A *\z/` */
  function Enter(st: State, line: string): State {
    if st.section == PreSpace && !Blank(line) then st.(section := Header) else st
  }

  /** `data, section = *parse_header(line, data, section) if section == :header` */
  function HeaderStage(st: State, line: string, show: Hash<string, string> -> string): State {
    if st.section == Header then
      var (d, s) := ParseHeader(line, st.data, st.section, show);
      State(d, s, st.block)
    else st
  }

  /** `data, section, block = *parse_body(line, data, section, block) if section == :body` */
  function BodyStage(st: State, line: string): Option<State> {
    if st.section == Body then
      match ParseBody(line, st.data, st.section, st.block)
      case None => None
      case Some((d, s, b)) => Some(State(d, s, b))
    else Some(st)
  }

  /** `data, section = *parse_prepend(line, data, section) if section == :prepend` */
  function PrependStage(st: State, line: string, show: Hash<string, string> -> string): State {
    if st.section == Prepend then
      var (d, s) := ParsePrepend(line, st.data, st.section, show);
      State(d, s, st.block)
    else st
  }

  /** One iteration of main's loop: the four guarded statements in order, each seeing the section the previous one left. */
  function Step(st: State, line: string, show: Hash<string, string> -> string): Option<State> {
    match BodyStage(HeaderStage(Enter(st, line), line, show), line)
    case None => None
    case Some(st') => Some(PrependStage(st', line, show))
  }

  /** Feeding lines one at a time to a step that may raise; None once a step has raised. */
  function Fold(st: State, lines: seq<string>, step: (State, string) -> Option<State>): Option<State> {
    if lines == [] then Some(st)
    else
      match Fold(st, lines[..|lines| - 1], step)
      case None => None
      case Some(st') => step(st', lines[|lines| - 1])
  }

  /** Folding over lines in two parts is folding the second part from where the first one left off. */
  lemma {:induction false} FoldAppend(st: State, a: seq<string>, b: seq<string>, step: (State, string) -> Option<State>)
    ensures Fold(st, a + b, step) == match Fold(st, a, step) case None => None case Some(st') => Fold(st', b, step)
    decreases |b|
  {
    if b == [] {
      assert a + b == a;
    } else {
      var lines := a + b;
      assert lines[..|lines| - 1] == a + b[..|b| - 1];
      assert lines[|lines| - 1] == b[|b| - 1];
      FoldAppend(st, a, b[..|b| - 1], step);
    }
  }

  /** Once a step has raised, later lines change nothing. */
  lemma {:induction false} FoldPrefixNone(st: State, lines: seq<string>, i: nat, step: (State, string) -> Option<State>)
    requires i <= |lines| && Fold(st, lines[..i], step).None?
    ensures Fold(st, lines, step).None?
    decreases |lines| - i
  {
    if i < |lines| {
      assert lines[..i + 1][..i] == lines[..i];
      FoldPrefixNone(st, lines, i + 1, step);
    } else {
      assert lines[..i] == lines;
    }
  }

  /** main's loop over some lines, from the state an earlier part of the file left. */
  function RunFrom(st: State, lines: seq<string>, show: Hash<string, string> -> string): Option<State> {
    Fold(st, lines, (s, line) => Step(s, line, show))
  }

  /** main's loop over the lines; None once a line raises. */
  function Run(lines: seq<string>, show: Hash<string, string> -> string): Option<State> {
    RunFrom(Initial, lines, show)
  }

  lemma RunFromOne(st: State, line: string, show: Hash<string, string> -> string)
    ensures RunFrom(st, [line], show) == Step(st, line, show)
  {
    assert [line][..0] == [];
    assert RunFrom(st, [], show) == Some(st);
  }

  lemma RunFromAppend(st: State, a: seq<string>, b: seq<string>, show: Hash<string, string> -> string)
    ensures RunFrom(st, a + b, show) == match RunFrom(st, a, show) case None => None case Some(st') => RunFrom(st', b, show)
  {
    FoldAppend(st, a, b, (s, line) => Step(s, line, show));
  }

  lemma RunPrefixNone(lines: seq<string>, i: nat, show: Hash<string, string> -> string)
    requires i <= |lines| && Run(lines[..i], show).None?
    ensures Run(lines, show).None?
  {
    FoldPrefixNone(Initial, lines, i, (s, line) => Step(s, line, show));
  }

  /**
   * main: the data hash built from the file's content, None when a line raises. JSON.pretty_generate
   * and File.write are left out.
   */
  method Convert(content: string, show: Hash<string, string> -> string) returns (r: Option<Data>)
    ensures r.None? <==> Run(Lines(content), show).None?
    ensures r.Some? ==> r.value == Run(Lines(content), show).value.data
  {
    var lines := Lines(content);
    var block := "";
    var data: Data := [];
    var section := PreSpace;
    assert lines[..0] == [];
    for i := 0 to |lines|
      invariant Run(lines[..i], show) == Some(State(data, section, block))
    {
      var line := lines[i];
      ghost var before := State(data, section, block);
      RunStepAt(lines, i, before, show);
      if section == PreSpace && !Blank(line) {
        section := Header;
      }
      assert State(data, section, block) == Enter(before, line);
      if section == Header {
        var (d, s) := ParseHeader(line, data, section, show);
        data, section := d, s;
      }
      ghost var entered := State(data, section, block);
      assert entered == HeaderStage(Enter(before, line), line, show);
      if section == Body {
        var res := ParseBody(line, data, section, block);
        if res.None? {
          assert BodyStage(entered, line).None?;
          RunPrefixNone(lines, i + 1, show);
          return None;
        }
        data, section, block := res.value.0, res.value.1, res.value.2;
      }
      ghost var read := State(data, section, block);
      assert BodyStage(entered, line) == Some(read);
      if section == Prepend {
        var (d, s) := ParsePrepend(line, data, section, show);
        data, section := d, s;
      }
      assert State(data, section, block) == PrependStage(read, line, show);
    }
    assert lines[..|lines|] == lines;
    r := Some(data);
  }

  /** Sections only advance: pre_space, header, body, prepend, end. */
  lemma StepAdvances(st: State, line: string, show: Hash<string, string> -> string)
    requires Step(st, line, show).Some?
    ensures Rank(st.section) <= Rank(Step(st, line, show).value.section)
  {
    var st1 := HeaderStage(Enter(st, line), line, show);
    assert Rank(st.section) <= Rank(st1.section);
    var st2 := BodyStage(st1, line).value;
    assert Rank(st1.section) <= Rank(st2.section);
  }

  /** The block main writes entries into is a hash whenever the body is being read. */
  predicate BlockOpen(st: State) {
    st.section == Body ==> Get(st.data, st.block).Some? && Get(st.data, st.block).value.Obj?
  }

  lemma StepKeepsBlockOpen(st: State, line: string, show: Hash<string, string> -> string)
    requires BlockOpen(st) && Step(st, line, show).Some?
    ensures BlockOpen(Step(st, line, show).value)
  {
    var st1 := HeaderStage(Enter(st, line), line, show);
    assert st1.section == Body ==> st1 == st || OpensBlock(line);
    BodyStageKeepsBlockOpen(st1, line);
    PrependStageKeepsBlockOpen(BodyStage(st1, line).value, line, show);
  }

  /** The body stage leaves its block open, and opens one on a `;;;` line. */
  lemma BodyStageKeepsBlockOpen(st: State, line: string)
    requires st.section == Body ==> BlockOpen(st) || OpensBlock(line)
    requires BodyStage(st, line).Some?
    ensures BlockOpen(BodyStage(st, line).value)
  {
    if st.section == Body && !StartsPlain(line) {
      if OpensBlock(line) {
        OpenedBlockIsOpen(st, line);
      } else if IsComment(line) {
        EntryKeepsBlockOpen(st, line);
      }
    }
  }

  /** A `;;;` line read in the body makes its new, empty block the current one. */
  lemma OpenedBlockIsOpen(st: State, line: string)
    requires st.section == Body && !StartsPlain(line) && OpensBlock(line) && BodyStage(st, line).Some?
    ensures BlockOpen(BodyStage(st, line).value)
  {
    var name := BlockName(line).value;
    assert BodyStage(st, line).value == State(Put(st.data, name, Obj([])), Body, name);
    GetPut(st.data, name, Obj([]), name);
  }

  /** An entry line read in the body puts the entry in the current block, which stays a hash. */
  lemma EntryKeepsBlockOpen(st: State, line: string)
    requires st.section == Body && BlockOpen(st) && !StartsPlain(line) && !OpensBlock(line) && IsComment(line)
    requires BodyStage(st, line).Some?
    ensures BlockOpen(BodyStage(st, line).value)
  {
    var (k, v) := EntryOf(line).value;
    var b := Get(st.data, st.block).value.entries;
    assert BodyStage(st, line).value == State(Put(st.data, st.block, Obj(Put(b, k, v))), Body, st.block);
    GetPut(st.data, st.block, Obj(Put(b, k, v)), st.block);
  }

  /** The prepend stage never returns to the body. */
  lemma PrependStageKeepsBlockOpen(st: State, line: string, show: Hash<string, string> -> string)
    requires BlockOpen(st)
    ensures BlockOpen(PrependStage(st, line, show))
  {
  }

  /**
   * Every state main reaches has its current block open: `data[block][k] = v` never meets
   * nil or a string, so the string branch of ParseBody is never taken from main.
   */
  lemma {:induction false} RunKeepsBlockOpen(lines: seq<string>, show: Hash<string, string> -> string)
    requires Run(lines, show).Some?
    ensures BlockOpen(Run(lines, show).value)
  {
    if lines != [] {
      RunKeepsBlockOpen(lines[..|lines| - 1], show);
      StepKeepsBlockOpen(Run(lines[..|lines| - 1], show).value, lines[|lines| - 1], show);
    }
  }

  lemma OpensBlockNotPlain(line: string)
    requires OpensBlock(line)
    ensures !StartsPlain(line) && !Blank(line) && IsComment(line)
  {
    var t := SkipSpaces(line);
    assert t[0] == ';' && line[|line| - |t|] == t[0];
  }

  /**
   * A `;;;` line opens its block, empty, and makes it the current one; the line that ends the
   * header is read by parse_body in the same iteration.
   */
  lemma OpensBlockStep(st: State, line: string, show: Hash<string, string> -> string)
    requires st.section == PreSpace || st.section == Header || st.section == Body
    requires OpensBlock(line)
    ensures Step(st, line, show) ==
      match BlockName(line)
      case None => None
      case Some(name) => Some(State(Put(st.data, name, Obj([])), Body, name))
  {
    OpensBlockNotPlain(line);
    var entered := Enter(st, line);
    assert entered.section != PreSpace && entered.data == st.data && entered.block == st.block;
    var headed := HeaderStage(entered, line, show);
    assert headed == State(st.data, Body, st.block);
    match BlockName(line)
    case None =>
      assert BodyStage(headed, line).None?;
    case Some(name) =>
      var next := State(Put(st.data, name, Obj([])), Body, name);
      assert BodyStage(headed, line) == Some(next);
      assert PrependStage(next, line, show) == next;
  }

  /** A line before the first `;;;` that is not blank is appended to `_header`. */
  lemma HeaderLine(st: State, line: string, show: Hash<string, string> -> string)
    requires st.section == Header || (st.section == PreSpace && !Blank(line))
    requires !OpensBlock(line)
    ensures Step(st, line, show) ==
      Some(State(Put(st.data, "_header", Text(Joined(Get(st.data, "_header"), line, show))), Header, st.block))
  {
  }

  /** Blank lines before the header change nothing. */
  lemma {:induction false} LeadingBlanks(blanks: seq<string>, show: Hash<string, string> -> string)
    requires forall i :: 0 <= i < |blanks| ==> Blank(blanks[i])
    ensures Run(blanks, show) == Some(Initial)
  {
    if blanks != [] {
      LeadingBlanks(blanks[..|blanks| - 1], show);
    }
  }

  /** The header lines end up joined with "\n" as `_header`. */
  lemma {:induction false} HeaderJoined(blanks: seq<string>, header: seq<string>, show: Hash<string, string> -> string)
    requires forall i :: 0 <= i < |blanks| ==> Blank(blanks[i])
    requires header != [] && !Blank(header[0])
    requires forall i :: 0 <= i < |header| ==> !OpensBlock(header[i])
    ensures Run(blanks + header, show) == Some(State([("_header", Text(Join(header, "\n")))], Header, ""))
    decreases |header|
  {
    var init := header[..|header| - 1];
    if |header| == 1 {
      assert blanks + init == blanks;
      LeadingBlanks(blanks, show);
    } else {
      HeaderJoined(blanks, init, show);
    }
    HeaderRunSnoc(blanks, header, show);
  }

  /** The state after reading the given header lines. */
  function HeaderState(header: seq<string>): State {
    if header == [] then Initial else State([("_header", Text(Join(header, "\n")))], Header, "")
  }

  lemma HeaderRunSnoc(blanks: seq<string>, header: seq<string>, show: Hash<string, string> -> string)
    requires header != [] && !OpensBlock(header[|header| - 1]) && (|header| > 1 || !Blank(header[0]))
    requires Run(blanks + header[..|header| - 1], show) == Some(HeaderState(header[..|header| - 1]))
    ensures Run(blanks + header, show) == Some(HeaderState(header))
  {
    SnocParts(blanks, header);
    HeaderLineRun(blanks + header, header[..|header| - 1], show);
  }

  /** The last line of blanks + header is the last header line, and what precedes it is blanks and the earlier ones. */
  lemma SnocParts(blanks: seq<string>, header: seq<string>)
    requires header != []
    ensures var lines := blanks + header;
      && lines[..|lines| - 1] == blanks + header[..|header| - 1]
      && lines[|lines| - 1] == header[|header| - 1]
      && header[..|header| - 1] + [header[|header| - 1]] == header
      && (header[..|header| - 1] == [] ==> |header| == 1)
  {
    var lines := blanks + header;
    assert lines[..|lines| - 1] == blanks + header[..|header| - 1];
  }

  lemma HeaderLineRun(lines: seq<string>, init: seq<string>, show: Hash<string, string> -> string)
    requires lines != [] && Run(lines[..|lines| - 1], show) == Some(HeaderState(init))
    requires init != [] || !Blank(lines[|lines| - 1])
    requires !OpensBlock(lines[|lines| - 1])
    ensures Run(lines, show) == Some(HeaderState(init + [lines[|lines| - 1]]))
  {
    var last := lines[|lines| - 1];
    RunSnoc(lines, HeaderState(init), show);
    HeaderLine(HeaderState(init), last, show);
    HeaderText(init, last, show);
  }

  /** The first i + 1 lines run as the first i, then one step on line i. */
  lemma RunStepAt(lines: seq<string>, i: nat, st: State, show: Hash<string, string> -> string)
    requires i < |lines| && Run(lines[..i], show) == Some(st)
    ensures Run(lines[..i + 1], show) == Step(st, lines[i], show)
  {
    var prefix := lines[..i + 1];
    assert prefix[..|prefix| - 1] == lines[..i];
    RunSnoc(prefix, st, show);
  }

  lemma RunSnoc(lines: seq<string>, st: State, show: Hash<string, string> -> string)
    requires lines != [] && Run(lines[..|lines| - 1], show) == Some(st)
    ensures Run(lines, show) == Step(st, lines[|lines| - 1], show)
  {
  }

  /** One more header line continues `_header`, or starts it. */
  lemma HeaderText(init: seq<string>, last: string, show: Hash<string, string> -> string)
    ensures var data: Data := if init == [] then [] else [("_header", Text(Join(init, "\n")))];
      Put(data, "_header", Text(Joined(Get(data, "_header"), last, show))) == [("_header", Text(Join(init + [last], "\n")))]
  {
    if init != [] {
      JoinSnoc(init, last, "\n");
    }
  }

  /** A `;;;` line in the body opens its block afresh, dropping entries an earlier block of that name had. */
  lemma BlockLineResets(st: State, line: string, show: Hash<string, string> -> string)
    requires st.section == Body && OpensBlock(line)
    requires BlockName(line).Some?
    ensures Step(st, line, show).Some?
    ensures var r := Step(st, line, show).value;
      r.section == Body && r.block == BlockName(line).value &&
      Get(r.data, r.block) == Some(Obj([])) &&
      forall key :: key != r.block ==> Get(r.data, key) == Get(st.data, key)
  {
    OpensBlockStep(st, line, show);
    var name := BlockName(line).value;
    forall key
      ensures Get(Put(st.data, name, Obj([])), key) == if key == name then Some(Obj([])) else Get(st.data, key)
    {
      GetPut(st.data, name, Obj([]), key);
    }
  }

  /** A `; X value` line in the body sets entry X of the current block to the value. */
  lemma EntryLineSets(st: State, line: string, show: Hash<string, string> -> string)
    requires st.section == Body && BlockOpen(st)
    requires IsComment(line) && !OpensBlock(line) && EntryOf(line).Some?
    ensures Step(st, line, show).Some?
    ensures var r := Step(st, line, show).value;
      var (k, v) := EntryOf(line).value;
      var b := Get(st.data, st.block).value.entries;
      r.section == Body && r.block == st.block &&
      Get(r.data, st.block) == Some(Obj(Put(b, k, v))) &&
      forall key :: key != st.block ==> Get(r.data, key) == Get(st.data, key)
  {
    var t := SkipSpaces(line);
    assert line[|line| - |t|] == t[0];
    var (k, v) := EntryOf(line).value;
    var b := Get(st.data, st.block).value.entries;
    assert HeaderStage(Enter(st, line), line, show) == st;
    assert BodyStage(st, line) == Some(State(Put(st.data, st.block, Obj(Put(b, k, v))), Body, st.block));
    forall key
      ensures Get(Put(st.data, st.block, Obj(Put(b, k, v))), key) ==
        if key == st.block then Some(Obj(Put(b, k, v))) else Get(st.data, key)
    {
      GetPut(st.data, st.block, Obj(Put(b, k, v)), key);
    }
  }

  /** The line `;;; name` written for a block reads back as the name. */
  lemma BlockNameOf(name: string)
    requires name != [] && name[|name| - 1] != ' '
    ensures OpensBlock(";;; " + name)
    ensures BlockName(";;; " + name) == Some(name)
  {
    var line := ";;; " + name;
    assert SkipSpaces(line) == line;
    assert line[3..] == " " + name && (" " + name)[1..] == name;
    assert TrimEnd(name) == name;
  }

  /** The line `; X value` written for an entry reads back as that key and value. */
  lemma EntryOfLine(x: char, value: string)
    requires value != [] && value[|value| - 1] != ' '
    ensures IsComment("; " + [x] + " " + value) && !OpensBlock("; " + [x] + " " + value)
    ensures EntryOf("; " + [x] + " " + value) == Some(([x], value))
  {
    var line := "; " + [x] + " " + value;
    assert SkipSpaces(line) == line;
    assert line[..3][1] == ' ';
    var rest := line[1..];
    assert rest == " " + [x] + " " + value;
    assert rest[3..] == value;
    assert TrimEnd(value) == value;
  }

  /** The first line of the prepended code that is not a comment is recorded, or ends the reading when it is a hotkey. */
  lemma BodyToPrepend(st: State, line: string, show: Hash<string, string> -> string)
    requires st.section == Body && StartsPlain(line)
    ensures Step(st, line, show) == Some(
      if IsHotkey(line) then State(st.data, End, st.block)
      else State(Put(st.data, "_prepend", Text(Joined(Get(st.data, "_prepend"), line, show))), Prepend, st.block))
  {
  }

  /** Lines of the prepended code accumulate in `_prepend` until the first hotkey. */
  lemma PrependLine(st: State, line: string, show: Hash<string, string> -> string)
    requires st.section == Prepend
    ensures Step(st, line, show) == Some(
      if IsHotkey(line) then State(st.data, End, st.block)
      else State(Put(st.data, "_prepend", Text(Joined(Get(st.data, "_prepend"), line, show))), Prepend, st.block))
  {
  }

  /** After the first hotkey nothing more is recorded. */
  lemma EndAbsorbs(st: State, line: string, show: Hash<string, string> -> string)
    requires st.section == End
    ensures Step(st, line, show) == Some(st)
  {
  }
}
