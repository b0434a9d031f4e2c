/**
 * json_to_ahk.rb writes every block of the JSON as a comment section, a `;;; name` line followed
 * by one `; X value` line per entry, and ahk_to_json.rb reads such sections back. This module
 * proves that reading a written section restores the block, for the names and entries the
 * two regular expressions of parse_body can return: a name and values without trailing spaces,
 * one-character keys, and no line breaks.
 */
module AhkRoundTrip {
  import opened Wrappers
  import opened OrderedHash
  import opened Strings
  import J = JsonToAhk
  import A = AhkToJson

  /** A text parse_body reads back unchanged: not empty, no trailing space, no line break. */
  predicate Trimmed(s: string) {
    s != [] && s[|s| - 1] != ' ' && '\n' !in s
  }

  /** A block whose written section reads back as the same block. */
  predicate Readable(block: Hash<string, string>) {
    UniqueKeys(block) &&
    forall j :: 0 <= j < |block| ==> |block[j].0| == 1 && block[j].0[0] != '\n' && Trimmed(block[j].1)
  }

  /** The `; X value` lines of a written section. */
  function EntryLines(block: Hash<string, string>): (r: seq<string>)
    ensures |r| == |block|
  {
    seq(|block|, j requires 0 <= j < |block| => "; " + block[j].0 + " " + block[j].1)
  }

  /** The lines of a written section: its `;;;` line, then its entries, or one empty line for an empty block. */
  lemma SectionLines(header: string, block: Hash<string, string>)
    requires '\n' !in header && Readable(block)
    ensures Split(J.Section(header, block), '\n') == [";;; " + header] + (if block == [] then [""] else EntryLines(block))
  {
    var entries := EntryLines(block);
    assert seq(|block|, j requires 0 <= j < |block| => "; " + block[j].0 + " " + block[j].1) == entries;
    assert J.Section(header, block) == ";;; " + header + "\n" + Join(entries, "\n");
    SplitCons(";;; " + header, Join(entries, "\n"), '\n');
    if block != [] {
      forall i | 0 <= i < |entries|
        ensures '\n' !in entries[i]
      {
        assert entries[i] == "; " + [block[i].0[0]] + " " + block[i].1;
      }
      SplitJoin(entries, '\n');
    }
  }

  /** The state main is in while it reads the entries of block `header`, with the rest of the data as before. */
  ghost predicate Holding(st: A.State, data: A.Data, header: string, entries: Hash<string, string>) {
    st.section == A.Body && st.block == header && Get(st.data, header) == Some(A.Obj(entries)) &&
    forall key :: key != header ==> Get(st.data, key) == Get(data, key)
  }

  /** Reading the first j entry lines fills the block with the first j entries. */
  lemma {:induction false} EntriesRead(st: A.State, data: A.Data, header: string, block: Hash<string, string>, j: nat, show: Hash<string, string> -> string)
    requires Readable(block) && j <= |block|
    requires Holding(st, data, header, [])
    ensures A.RunFrom(st, EntryLines(block)[..j], show).Some?
    ensures Holding(A.RunFrom(st, EntryLines(block)[..j], show).value, data, header, block[..j])
    decreases j
  {
    if j > 0 {
      var lines := EntryLines(block)[..j];
      assert lines[..j - 1] == EntryLines(block)[..j - 1];
      EntriesRead(st, data, header, block, j - 1, show);
      var before := A.RunFrom(st, lines[..j - 1], show).value;
      EntryStep(before, data, header, block, j - 1, show);
      assert lines[j - 1] == EntryLines(block)[j - 1];
    } else {
      assert block[..0] == [];
    }
  }

  /** Reading entry line j appends entry j to the block. */
  lemma EntryStep(st: A.State, data: A.Data, header: string, block: Hash<string, string>, j: nat, show: Hash<string, string> -> string)
    requires Readable(block) && j < |block|
    requires Holding(st, data, header, block[..j])
    ensures A.Step(st, EntryLines(block)[j], show).Some?
    ensures Holding(A.Step(st, EntryLines(block)[j], show).value, data, header, block[..j + 1])
  {
    EntryFacts(block, j);
    A.EntryLineSets(st, EntryLines(block)[j], show);
  }

  /** Entry line j is a comment that is not a `;;;` line and reads as entry j, which is new in the block so far. */
  lemma EntryFacts(block: Hash<string, string>, j: nat)
    requires Readable(block) && j < |block|
    ensures var line := EntryLines(block)[j];
      && A.IsComment(line) && !A.OpensBlock(line) && A.EntryOf(line) == Some(block[j])
      && Put(block[..j], block[j].0, block[j].1) == block[..j + 1]
  {
    var x := block[j].0[0];
    var v := block[j].1;
    assert [x] == block[j].0;
    assert EntryLines(block)[j] == "; " + [x] + " " + v;
    A.EntryOfLine(x, v);
    FreshKey(block, j);
    PutFresh(block[..j], block[j].0, v);
    PrefixSnoc(block, j);
  }

  lemma PrefixSnoc<T>(s: seq<T>, j: nat)
    requires j < |s|
    ensures s[..j] + [s[j]] == s[..j + 1]
  {
  }

  lemma FreshKey(block: Hash<string, string>, j: nat)
    requires UniqueKeys(block) && j < |block|
    ensures block[j].0 !in Keys(block[..j])
  {
    forall i | 0 <= i < j
      ensures Keys(block[..j])[i] != block[j].0
    {
      assert Keys(block[..j])[i] == block[i].0;
    }
  }

  /** An empty line in the body changes nothing. */
  lemma EmptyLineStep(st: A.State, show: Hash<string, string> -> string)
    requires st.section == A.Body
    ensures A.Step(st, "", show) == Some(st)
  {
  }

  /** The `;;;` line of a section opens its block, empty, and makes it the current one. */
  lemma OpenSection(st: A.State, header: string, show: Hash<string, string> -> string)
    requires st.section == A.PreSpace || st.section == A.Header || st.section == A.Body
    requires Trimmed(header)
    ensures A.RunFrom(st, [";;; " + header], show) == Some(A.State(Put(st.data, header, A.Obj([])), A.Body, header))
    ensures Holding(A.State(Put(st.data, header, A.Obj([])), A.Body, header), st.data, header, [])
  {
    var first := ";;; " + header;
    A.BlockNameOf(header);
    A.OpensBlockStep(st, first, show);
    A.RunFromOne(st, first, show);
    forall key
      ensures Get(Put(st.data, header, A.Obj([])), key) == if key == header then Some(A.Obj([])) else Get(st.data, key)
    {
      GetPut(st.data, header, A.Obj([]), key);
    }
  }

  /** The lines after the `;;;` line fill the opened block with the written entries. */
  lemma ReadEntries(st: A.State, data: A.Data, header: string, block: Hash<string, string>, show: Hash<string, string> -> string)
    requires Readable(block) && Holding(st, data, header, [])
    ensures A.RunFrom(st, if block == [] then [""] else EntryLines(block), show).Some?
    ensures Holding(A.RunFrom(st, if block == [] then [""] else EntryLines(block), show).value, data, header, block)
  {
    if block == [] {
      EmptyLineStep(st, show);
      A.RunFromOne(st, "", show);
    } else {
      EntriesRead(st, data, header, block, |block|, show);
      assert EntryLines(block)[..|block|] == EntryLines(block);
      assert block[..|block|] == block;
    }
  }

  /**
   * Reading back a section json_to_ahk.rb writes, anywhere before the prepended code, makes
   * its block the current one and gives it exactly the written entries; nothing else changes.
   */
  lemma SectionReadBack(st: A.State, header: string, block: Hash<string, string>, show: Hash<string, string> -> string)
    requires st.section == A.PreSpace || st.section == A.Header || st.section == A.Body
    requires Trimmed(header) && Readable(block)
    ensures A.RunFrom(st, Split(J.Section(header, block), '\n'), show).Some?
    ensures Holding(A.RunFrom(st, Split(J.Section(header, block), '\n'), show).value, st.data, header, block)
  {
    SectionLines(header, block);
    var rest := if block == [] then [""] else EntryLines(block);
    OpenSection(st, header, show);
    A.RunFromAppend(st, [";;; " + header], rest, show);
    ReadEntries(A.State(Put(st.data, header, A.Obj([])), A.Body, header), st.data, header, block, show);
  }
}
