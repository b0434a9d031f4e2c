/**
 * json_to_ahk.rb: generates a Mugwriter AutoHotkey script from its JSON description. The
 * JSON maps each mode header to a block of key-to-output entries; the script turns it
 * inside out (key to mode to output), adds a `_menuPlus` mode, and emits one hotkey per key
 * that chooses its output by the current mode, plus a second, shifted hotkey per key for
 * the `_Plus` modes. Reading and parsing the JSON file and writing the script are left out:
 * the model starts from the parsed hashes and ends with the text written.
 */
module JsonToAhk {
  import opened Wrappers
  import opened OrderedHash
  import opened Strings

  /** One block of the JSON: key (or mode) to output, in file order. */
  type Block = Hash<string, string>

  /** The JSON document: header to block, or, inverted, key to block. */
  type Json = Hash<string, Block>

  // ------------------------------------------------------ SHIFT_MAP, SPECIAL_CHARACTERS

  /** The entries of SHIFT_MAP: a shifted character to `+` and the key that types it. */
  function ShiftEntry(c: char): Option<string> {
    match c
    case '~' => Some("+`")
    case '!' => Some("+1")
    case '@' => Some("+2")
    case '#' => Some("+3")
    case '$' => Some("+4")
    case '%' => Some("+5")
    case '^' => Some("+6")
    case '&' => Some("+7")
    case '*' => Some("+8")
    case '(' => Some("+9")
    case ')' => Some("+0")
    case '_' => Some("+-")
    case '+' => Some("+=")
    case 'Q' => Some("+q")
    case 'W' => Some("+w")
    case 'E' => Some("+e")
    case 'R' => Some("+r")
    case 'T' => Some("+t")
    case 'Y' => Some("+y")
    case 'U' => Some("+u")
    case 'I' => Some("+i")
    case 'O' => Some("+o")
    case 'P' => Some("+p")
    case '{' => Some("+[")
    case '}' => Some("+]")
    case '|' => Some("+\\")
    case 'A' => Some("+a")
    case 'S' => Some("+s")
    case 'D' => Some("+d")
    case 'F' => Some("+f")
    case 'G' => Some("+g")
    case 'H' => Some("+h")
    case 'J' => Some("+j")
    case 'K' => Some("+k")
    case 'L' => Some("+l")
    case ':' => Some("+;")
    case '"' => Some("+'")
    case 'Z' => Some("+z")
    case 'X' => Some("+x")
    case 'C' => Some("+c")
    case 'V' => Some("+v")
    case 'B' => Some("+b")
    case 'N' => Some("+n")
    case 'M' => Some("+m")
    case '<' => Some("+,")
    case '>' => Some("+.")
    case '?' => Some("+/")
    case _ => None
  }

  /** `SHIFT_MAP[key]`: its default block maps every other key to itself. */
  function Shift(key: string): string {
    if |key| == 1 && ShiftEntry(key[0]).Some? then ShiftEntry(key[0]).value else key
  }

  /** `SPECIAL_CHARACTERS[key]`: a space is written Space, every other key is itself. */
  function Special(key: string): string {
    if key == " " then "Space" else key
  }

  /** A key the map changes becomes `+` and one more character; every other key is kept. */
  lemma ShiftShape(key: string)
    ensures Shift(key) == key || (|key| == 1 && |Shift(key)| == 2 && Shift(key)[0] == '+')
  {
    if |key| == 1 && ShiftEntry(key[0]).Some? {
      var c := key[0];
      assert |ShiftEntry(c).value| == 2 && ShiftEntry(c).value[0] == '+';
    }
  }

  /** A capital letter is typed as shift and its lower-case letter. */
  lemma ShiftLetter(c: char)
    requires 'A' <= c <= 'Z'
    ensures Shift([c]) == ['+', (c as int - 'A' as int + 'a' as int) as char]
  {
    assert [c][0] == c;
  }

  /** Digits, lower-case letters and the space pass through both maps to the hotkey unchanged, except the space, which is Space. */
  lemma HotkeyNamePlain(c: char)
    requires ('0' <= c <= '9') || ('a' <= c <= 'z')
    ensures Shift(Special([c])) == [c]
    ensures Shift(Special(" ")) == "Space"
  {
    assert [c][0] == c;
    assert "Space" != " " && |"Space"| == 5;
  }

  // ------------------------------------------------------------------ invert_json

  /** `hash[key]` with the default block: {} for a key not yet seen. */
  function Inner(acc: Json, key: string): Block {
    Get(acc, key).GetOr([])
  }

  /** `hash[key][header] = value`: a new key goes last with a fresh block. */
  function Assign(acc: Json, key: string, header: string, value: string): Json {
    Put(acc, key, Put(Inner(acc, key), header, value))
  }

  /** `block.reduce(hash) { ... hash[key][header] = value }`: the entries of one block, in order. */
  function AddBlock(acc: Json, header: string, block: Block): Json {
    if block == [] then acc
    else
      var n := |block| - 1;
      Assign(AddBlock(acc, header, block[..n]), block[n].0, header, block[n].1)
  }

  /** `json.reduce(Hash.new { ... }) { ... }`: every block, in order, into the inverted hash. */
  function Transposed(json: Json): Json {
    if json == [] then []
    else
      var n := |json| - 1;
      AddBlock(Transposed(json[..n]), json[n].0, json[n].1)
  }

  /** `json['_menu'].map { |key, option| [key, "#{option}_Plus"] }.to_h` */
  function PlusValues(menu: Block): (r: Block)
    ensures Keys(r) == Keys(menu)
  {
    seq(|menu|, i requires 0 <= i < |menu| => (menu[i].0, menu[i].1 + "_Plus"))
  }

  /** The dup that `invert_json` reduces: the JSON with `_menuPlus` set; None when there is no `_menu` (NoMethodError). */
  function WithMenuPlus(json: Json): Option<Json> {
    match Get(json, "_menu")
    case None => None
    case Some(menu) => Some(Put(json, "_menuPlus", PlusValues(menu)))
  }

  /** A Ruby hash has each key once, and so has every block in it. */
  predicate WellFormed(json: Json) {
    UniqueKeys(json) && forall i :: 0 <= i < |json| ==> UniqueKeys(json[i].1)
  }

  lemma AssignGet(acc: Json, key: string, header: string, value: string, k: string, h: string)
    ensures Get(Inner(Assign(acc, key, header, value), k), h) ==
      if k == key && h == header then Some(value) else Get(Inner(acc, k), h)
  {
    GetPut(acc, key, Put(Inner(acc, key), header, value), k);
    GetPut(Inner(acc, key), header, value, h);
  }

  /** The entry just added under the last key. */
  lemma {:induction false} GetLast<V>(h: Hash<string, V>, k: string)
    requires h != [] && UniqueKeys(h)
    ensures var n := |h| - 1;
      Get(h, k) == if k == h[n].0 then Some(h[n].1) else Get(h[..n], k)
    decreases |h|
  {
    var n := |h| - 1;
    if |h| > 1 {
      assert h[1..][..n - 1] == h[..n][1..];
      GetLast(h[1..], k);
      assert Keys(h[..n]) == [h[0].0] + Keys(h[..n][1..]);
    }
  }

  /** Adding a header's block sets, for every key of the block, that header to the key's output. */
  lemma {:induction false} AddBlockGet(acc: Json, header: string, block: Block, k: string, h: string)
    requires UniqueKeys(block)
    ensures Get(Inner(AddBlock(acc, header, block), k), h) ==
      if h == header && Get(block, k).Some? then Get(block, k) else Get(Inner(acc, k), h)
  {
    if block != [] {
      var n := |block| - 1;
      assert UniqueKeys(block[..n]);
      AddBlockGet(acc, header, block[..n], k, h);
      AssignGet(AddBlock(acc, header, block[..n]), block[n].0, header, block[n].1, k, h);
      GetLast(block, k);
    }
  }

  /**
   * `invert_json` turns the JSON inside out: the inverted hash gives key k under header h
   * exactly the output the JSON gives header h under key k, and nothing where it gives none.
   */
  lemma {:induction false} TransposedGet(json: Json, k: string, h: string)
    requires WellFormed(json)
    ensures Get(Inner(Transposed(json), k), h) == if Get(json, h).Some? then Get(Get(json, h).value, k) else None
  {
    if json != [] {
      var n := |json| - 1;
      assert WellFormed(json[..n]);
      TransposedGet(json[..n], k, h);
      AddBlockGet(Transposed(json[..n]), json[n].0, json[n].1, k, h);
      GetLast(json, h);
    }
  }

  lemma {:induction false} AddBlockKeys(acc: Json, header: string, block: Block, k: string)
    ensures k in Keys(AddBlock(acc, header, block)) <==> k in Keys(acc) || k in Keys(block)
  {
    if block != [] {
      var n := |block| - 1;
      AddBlockKeys(acc, header, block[..n], k);
      var prev := AddBlock(acc, header, block[..n]);
      PutKeys(prev, block[n].0, Put(Inner(prev, block[n].0), header, block[n].1));
      assert Keys(block) == Keys(block[..n]) + [block[n].0];
    }
  }

  /** The inverted hash has a key exactly when some block of the JSON has it. */
  lemma {:induction false} TransposedKeys(json: Json, k: string)
    ensures k in Keys(Transposed(json)) <==> exists i :: 0 <= i < |json| && k in Keys(json[i].1)
  {
    if json != [] {
      var n := |json| - 1;
      TransposedKeys(json[..n], k);
      AddBlockKeys(Transposed(json[..n]), json[n].0, json[n].1, k);
      assert forall i :: 0 <= i < n ==> json[..n][i] == json[i];
    }
  }

  /**
   * `invert_json(json)`: the inverted hash of the JSON with `_menuPlus` added, or None when
   * the JSON has no `_menu`.
   */
  method InvertJson(json: Json) returns (r: Option<Json>)
    ensures r.None? <==> Get(json, "_menu").None?
    ensures r.Some? ==> r.value == Transposed(WithMenuPlus(json).value)
  {
    var menu := Get(json, "_menu");
    if menu.None? {
      return None;
    }
    var dup := Put(json, "_menuPlus", PlusValues(menu.value));
    var hash: Json := [];
    assert dup[..0] == [];
    for i := 0 to |dup|
      invariant hash == Transposed(dup[..i])
    {
      var header := dup[i].0;
      var block := dup[i].1;
      var acc := hash;
      assert block[..0] == [];
      for j := 0 to |block|
        invariant acc == AddBlock(hash, header, block[..j])
      {
        assert block[..j + 1][..j] == block[..j];
        acc := Assign(acc, block[j].0, header, block[j].1);
      }
      assert block[..|block|] == block;
      assert dup[..i + 1][..i] == dup[..i];
      hash := acc;
    }
    assert dup[..|dup|] == dup;
    return Some(hash);
  }

  /**
   * The inverted JSON gives key k, under `_menuPlus`, the `_menu` output with `_Plus`
   * appended, and under every other header h the output the JSON gives h under k.
   */
  lemma InvertJsonGet(json: Json, k: string, h: string)
    requires WellFormed(json) && Get(json, "_menu").Some?
    ensures var menu := Get(json, "_menu").value;
      Get(Inner(Transposed(WithMenuPlus(json).value), k), h) ==
        if h == "_menuPlus" then (if Get(menu, k).Some? then Some(Get(menu, k).value + "_Plus") else None)
        else if Get(json, h).Some? then Get(Get(json, h).value, k)
        else None
  {
    var menu := Get(json, "_menu").value;
    var dup := Put(json, "_menuPlus", PlusValues(menu));
    var menuAt :| 0 <= menuAt < |json| && json[menuAt] == ("_menu", menu);
    assert UniqueKeys(PlusValues(menu)) by {
      assert Keys(PlusValues(menu)) == Keys(menu);
      forall i, j | 0 <= i < j < |menu|
        ensures PlusValues(menu)[i].0 != PlusValues(menu)[j].0
      {
        assert menu[i].0 == PlusValues(menu)[i].0 && menu[j].0 == PlusValues(menu)[j].0;
      }
    }
    PutWellFormed(json, "_menuPlus", PlusValues(menu));
    TransposedGet(dup, k, h);
    GetPut(json, "_menuPlus", PlusValues(menu), h);
    if h == "_menuPlus" {
      PlusValuesGet(menu, k);
    }
  }

  lemma PutWellFormed(json: Json, key: string, block: Block)
    requires WellFormed(json) && UniqueKeys(block)
    ensures WellFormed(Put(json, key, block))
    decreases |json|
  {
    PutUnique(json, key, block);
    if json != [] && json[0].0 != key {
      assert WellFormed(json[1..]);
      PutWellFormed(json[1..], key, block);
    }
  }

  lemma {:induction false} PlusValuesGet(menu: Block, k: string)
    ensures Get(PlusValues(menu), k) == if Get(menu, k).Some? then Some(Get(menu, k).value + "_Plus") else None
  {
    if menu != [] {
      PlusValuesGet(menu[1..], k);
      assert PlusValues(menu)[1..] == PlusValues(menu[1..]);
    }
  }

  // ------------------------------------------------------ generate_ahk_body, generate_plus_body

  /** A one-character output is sent as a keystroke; any other output is a command, written as it is. */
  function SendOrVerbatim(value: string): string {
    if |value| == 1 then "Send '" + value + "'" else value
  }

  /** The branch of the if-chain for one mode, ending in `  else`. */
  function Branch(mode: string, suffix: string, value: string): string {
    "if (mode = '" + mode + suffix + "')\n" + "    " + SendOrVerbatim(value) + "\n" + "  else"
  }

  /** The branches for the modes of a block, in its order. */
  function Branches(modes: Block, suffix: string): (r: seq<string>)
    ensures |r| == |modes|
  {
    seq(|modes|, i requires 0 <= i < |modes| => Branch(modes[i].0, suffix, modes[i].1))
  }

  /** The joined branches for every mode but `_default`. */
  function Paragraph(block: Block, suffix: string): string {
    Join(Branches(Delete(block, "_default"), suffix), " ")
  }

  /** `paragraph[...-7]`: everything but the last seven characters, "" for a shorter string. */
  function DropLast7(s: string): string {
    if |s| >= 7 then s[..|s| - 7] else ""
  }

  /** What follows the paragraph: the `_default` output as the final else, or, without one, the trailing else cut off. */
  function Tail(block: Block): string {
    var paragraph := Paragraph(block, "");
    match Get(block, "_default")
    case Some(d) => (if paragraph == "" then "" else paragraph + "\n    ") + SendOrVerbatim(d)
    case None => DropLast7(paragraph)
  }

  /** The hotkey `generate_ahk_body` writes for one key. */
  function AhkHotkey(key: string, block: Block): string {
    "!" + Shift(Special(key)) + ":: {\n  " + Tail(block) + "\n}"
  }

  /** `generate_ahk_body(inverted_json)` */
  function AhkBody(inverted: Json): (r: seq<string>)
    ensures |r| == |inverted|
  {
    seq(|inverted|, i requires 0 <= i < |inverted| => AhkHotkey(inverted[i].0, inverted[i].1))
  }

  /** The hotkey `generate_plus_body` writes for one key. */
  function PlusHotkey(key: string, block: Block): string {
    Shift(Special(key)) + ":: {\n  " + Paragraph(block, "_Plus") + "\n    Send '" + key + "'" + "\n}"
  }

  /** `generate_plus_body(inverted_json)` */
  function PlusBody(inverted: Json): (r: seq<string>)
    ensures |r| == |inverted|
  {
    seq(|inverted|, i requires 0 <= i < |inverted| => PlusHotkey(inverted[i].0, inverted[i].1))
  }

  /** Every branch is for a mode of the block other than `_default`, with that mode's output. */
  lemma BranchesExcludeDefault(block: Block, suffix: string, i: nat)
    requires i < |Delete(block, "_default")|
    ensures var modes := Delete(block, "_default");
      modes[i].0 != "_default" && modes[i] in block
      && Branches(modes, suffix)[i] == Branch(modes[i].0, suffix, modes[i].1)
  {
    var modes := Delete(block, "_default");
    assert modes[i] in modes;
  }

  lemma BranchEnds(mode: string, suffix: string, value: string)
    ensures var b := Branch(mode, suffix, value);
      |b| >= 7 && b[|b| - 7..] == "\n  else"
  {
    var head := "if (mode = '" + mode + suffix + "')\n" + "    " + SendOrVerbatim(value);
    assert Branch(mode, suffix, value) == head + "\n  else";
  }

  lemma {:induction false} JoinEnds(parts: seq<string>, sep: string, end: string)
    requires parts != []
    requires forall i :: 0 <= i < |parts| ==> |parts[i]| >= |end| && parts[i][|parts[i]| - |end|..] == end
    ensures |Join(parts, sep)| >= |end| && Join(parts, sep)[|Join(parts, sep)| - |end|..] == end
    decreases |parts|
  {
    if |parts| > 1 {
      JoinEnds(parts[1..], sep, end);
      var rest := Join(parts[1..], sep);
      var s := parts[0] + sep + rest;
      assert s[|s| - |end|..] == rest[|rest| - |end|..];
    }
  }

  /**
   * Without `_default`, cutting seven characters removes exactly the `\n  else` that ends the
   * last branch, so the if-chain ends on its last mode's output.
   */
  lemma NoDefaultTail(block: Block)
    requires Get(block, "_default").None?
    requires Delete(block, "_default") != []
    ensures Tail(block) + "\n  else" == Paragraph(block, "")
  {
    ParagraphEnds(block, "");
    DropEnd(Paragraph(block, ""));
    assert Tail(block) == DropLast7(Paragraph(block, ""));
  }

  lemma DropEnd(p: string)
    requires |p| >= 7 && p[|p| - 7..] == "\n  else"
    ensures DropLast7(p) + "\n  else" == p
  {
    assert p[..|p| - 7] + p[|p| - 7..] == p;
  }

  lemma ParagraphEnds(block: Block, suffix: string)
    requires Delete(block, "_default") != []
    ensures var p := Paragraph(block, suffix);
      |p| >= 7 && p[|p| - 7..] == "\n  else"
  {
    var modes := Delete(block, "_default");
    var branches := Branches(modes, suffix);
    var end := "\n  else";
    assert |end| == 7;
    forall i | 0 <= i < |branches|
      ensures |branches[i]| >= |end| && branches[i][|branches[i]| - |end|..] == end
    {
      assert branches[i] == Branch(modes[i].0, suffix, modes[i].1);
      BranchEnds(modes[i].0, suffix, modes[i].1);
    }
    JoinEnds(branches, " ", end);
    assert Paragraph(block, suffix) == Join(branches, " ");
  }

  /** With `_default`, its output is the last thing in the hotkey, after every other mode's branch. */
  lemma DefaultLast(block: Block, d: string)
    requires Get(block, "_default") == Some(d)
    ensures var paragraph := Paragraph(block, "");
      && |Tail(block)| >= |paragraph| + |SendOrVerbatim(d)|
      && Tail(block)[..|paragraph|] == paragraph
      && Tail(block)[|Tail(block)| - |SendOrVerbatim(d)|..] == SendOrVerbatim(d)
  {
  }

  /** The plus hotkey always ends by sending its key itself, unshifted. */
  lemma PlusEndsWithKey(key: string, block: Block)
    ensures var tail := "\n    Send '" + key + "'\n}";
      var r := PlusHotkey(key, block);
      |r| >= |tail| && r[|r| - |tail|..] == tail
  {
    var tail := "\n    Send '" + key + "'\n}";
    var r := PlusHotkey(key, block);
    var head := Shift(Special(key)) + ":: {\n  " + Paragraph(block, "_Plus");
    assert r == head + tail;
  }

  // ------------------------------------------------------------------------- main

  /** `";;; #{header}\n" + the block's lines`: one JSON block written back as a comment section. */
  function Section(header: string, block: Block): string {
    ";;; " + header + "\n" + Join(seq(|block|, j requires 0 <= j < |block| => "; " + block[j].0 + " " + block[j].1), "\n")
  }

  function Sections(json: Json): (r: seq<string>)
    ensures |r| == |json|
  {
    seq(|json|, i requires 0 <= i < |json| => Section(json[i].0, json[i].1))
  }

  /** Everything after the header: the sections, the prepend, the mode setup and the two hotkey lists. */
  function Parts(json: Json, prepend: Option<string>, inverted: Json): seq<string> {
    Sections(json) + (if prepend.Some? then [prepend.value] else []) + ["mode := _default"]
      + AhkBody(inverted) + PlusBody(inverted)
  }

  /**
   * main as written, from the JSON with `_prepend` and `_header` already deleted:
   * `header ? [header] : [] + ...` parses as `header ? [header] : ([] + ...)`, so with a
   * header only the header is written. None is the exception of a JSON without `_menu`.
   */
  function MainAsWritten(json: Json, header: Option<string>, prepend: Option<string>): Option<string> {
    match WithMenuPlus(json)
    case None => None
    case Some(dup) =>
      var inverted := Transposed(dup);
      if header.Some? then Some(Join([header.value], "\n\n"))
      else Some(Join(Parts(json, prepend, inverted), "\n\n"))
  }

  /** main as intended: the header, when there is one, followed by everything else. */
  function MainOutput(json: Json, header: Option<string>, prepend: Option<string>): Option<string> {
    match WithMenuPlus(json)
    case None => None
    case Some(dup) =>
      var inverted := Transposed(dup);
      Some(Join((if header.Some? then [header.value] else []) + Parts(json, prepend, inverted), "\n\n"))
  }

  /** As written, a header replaces the whole script. */
  lemma MainAsWrittenHeaderOnly(json: Json, header: string, prepend: Option<string>)
    requires Get(json, "_menu").Some?
    ensures MainAsWritten(json, Some(header), prepend) == Some(header)
    ensures MainOutput(json, Some(header), prepend).value != header
  {
    var inverted := Transposed(WithMenuPlus(json).value);
    var parts := Parts(json, prepend, inverted);
    JoinCons(header, parts, "\n\n");
  }

  lemma JoinCons(first: string, parts: seq<string>, sep: string)
    requires parts != []
    ensures Join([first] + parts, sep) == first + sep + Join(parts, sep)
  {
    assert ([first] + parts)[1..] == parts;
  }

  /**
   * As intended, the header comes first, then exactly what is written without one; without
   * a header the script as written is already right.
   */
  lemma MainOutputHeader(json: Json, header: Option<string>, prepend: Option<string>)
    requires Get(json, "_menu").Some?
    ensures MainAsWritten(json, None, prepend) == MainOutput(json, None, prepend)
    ensures header.Some? ==>
      MainOutput(json, header, prepend) == Some(header.value + "\n\n" + MainOutput(json, None, prepend).value)
  {
    var inverted := Transposed(WithMenuPlus(json).value);
    var parts := Parts(json, prepend, inverted);
    assert [] + parts == parts;
    if header.Some? {
      JoinCons(header.value, parts, "\n\n");
    }
  }
}
