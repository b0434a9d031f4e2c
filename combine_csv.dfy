/**
 * combine_csv.rb: appends to one CSV file the rows of another whose first column is not
 * already the first column of some row of the first file. Reading and writing the files is
 * left out; a file is its list of parsed rows, and an empty field is nil as Ruby's CSV reads it.
 */
module CombineCsv {
  import opened Wrappers

  /** A parsed CSV field: None is nil (an empty unquoted field). */
  type Cell = Option<string>

  type Row = seq<Cell>

  /** `row[0]`: nil for a row with no fields. */
  function Key(row: Row): Cell {
    if |row| > 0 then row[0] else None
  }

  /** The first columns of the rows, the set `in_base` collects. */
  function KeysOf(rows: seq<Row>): (keys: set<Cell>)
    ensures forall c :: c in keys <==> exists row :: row in rows && Key(row) == c
  {
    if rows == [] then {}
    else
      var init := rows[..|rows| - 1];
      assert forall row :: row in rows <==> row in init || row == rows[|rows| - 1];
      KeysOf(init) + {Key(rows[|rows| - 1])}
  }

  /** The rows, in order, whose first column is not among the keys. */
  function Kept(rows: seq<Row>, keys: set<Cell>): (r: seq<Row>)
    ensures |r| <= |rows|
    ensures forall row :: row in r <==> row in rows && Key(row) !in keys
  {
    if rows == [] then []
    else
      var last := rows[|rows| - 1];
      var init := rows[..|rows| - 1];
      assert forall row :: row in rows <==> row in init || row == last;
      Kept(init, keys) + (if Key(last) in keys then [] else [last])
  }

  /** Filtering distributes over concatenation, so the kept rows keep the addendum's order. */
  lemma {:induction false} KeptAppend(a: seq<Row>, b: seq<Row>, keys: set<Cell>)
    ensures Kept(a + b, keys) == Kept(a, keys) + Kept(b, keys)
    decreases |b|
  {
    if b == [] {
      assert a + b == a;
    } else {
      var n := |b| - 1;
      assert (a + b)[..|a + b| - 1] == a + b[..n];
      assert (a + b)[|a + b| - 1] == b[n];
      KeptAppend(a, b[..n], keys);
    }
  }

  /** Every row is kept as often as it occurs: keys are not added to `in_base` while appending. */
  lemma {:induction false} KeptRepeats(row: Row, k: nat, keys: set<Cell>)
    requires Key(row) !in keys
    ensures Kept(seq(k, _ => row), keys) == seq(k, _ => row)
  {
    if k > 0 {
      var rows := seq(k, _ => row);
      var init := seq(k - 1, _ => row);
      assert rows[..k - 1] == init && rows[k - 1] == row;
      assert rows == init + [row];
      KeptRepeats(row, k - 1, keys);
      assert Kept(rows, keys) == Kept(init, keys) + [row];
    }
  }

  lemma KeptSnoc(rows: seq<Row>, i: nat, keys: set<Cell>)
    requires i < |rows|
    ensures Kept(rows[..i + 1], keys) == Kept(rows[..i], keys) + (if Key(rows[i]) in keys then [] else [rows[i]])
  {
    assert rows[..i + 1][..i] == rows[..i];
  }

  lemma KeysOfSnoc(rows: seq<Row>, i: nat)
    requires i < |rows|
    ensures KeysOf(rows[..i + 1]) == KeysOf(rows[..i]) + {Key(rows[i])}
  {
    assert rows[..i + 1][..i] == rows[..i];
  }

  /** `CSV.foreach(base_path) { |row| in_base << row[0] }` */
  method CollectKeys(base: seq<Row>) returns (inBase: set<Cell>)
    ensures inBase == KeysOf(base)
  {
    inBase := {};
    assert base[..0] == [];
    for i := 0 to |base|
      invariant inBase == KeysOf(base[..i])
    {
      KeysOfSnoc(base, i);
      inBase := inBase + {Key(base[i])};
    }
    assert base[..|base|] == base;
  }

  /** `csv << row unless in_base.include?(row[0])` for every addendum row, the base file opened for appending. */
  method AppendKept(base: seq<Row>, addendum: seq<Row>, inBase: set<Cell>) returns (file: seq<Row>)
    ensures file == base + Kept(addendum, inBase)
  {
    file := base;
    assert addendum[..0] == [];
    assert file == base + [];
    for i := 0 to |addendum|
      invariant file == base + Kept(addendum[..i], inBase)
    {
      KeptSnoc(addendum, i, inBase);
      if Key(addendum[i]) !in inBase {
        file := file + [addendum[i]];
      }
    }
    assert addendum[..|addendum|] == addendum;
  }

  /**
   * `append_csv(base_path, addendum_path)`: returns the rows the base file holds afterwards,
   * its own rows followed by the addendum's rows whose key is not a key of the base.
   */
  method AppendCsv(base: seq<Row>, addendum: seq<Row>) returns (file: seq<Row>)
    ensures file == base + Kept(addendum, KeysOf(base))
  {
    var inBase := CollectKeys(base);
    file := AppendKept(base, addendum, inBase);
  }

  /** An addendum row lands in the file exactly when no base row has its first column. */
  lemma AppendedIff(base: seq<Row>, addendum: seq<Row>, row: Row)
    requires row in addendum
    ensures row in Kept(addendum, KeysOf(base)) <==> forall b :: b in base ==> Key(b) != Key(row)
  {
  }
}
