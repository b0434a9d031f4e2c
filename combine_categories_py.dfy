/**
 * combine_categories.py: the Python version of combine_categories.rb. It counts, for every
 * category id, the products listed under it and sums their stock status, then writes each
 * category row with its base columns, a parent column, the name shown at the root, and that
 * count and sum. Reading and writing files is left out: a CSV file is its rows as
 * csv.DictReader gives them, header to field in column order, and the output is the list of
 * dicts handed to `writer.writerow`, numbers written as their decimal strings.
 */
module CombineCategoriesPy {
  import opened Wrappers
  import opened Decimal
  import opened OrderedHash
  import opened CategoryIds
  import Strings

  type Row = Hash<string, string>

  // ------------------------------------------------------------------------- int()

  /** The ASCII characters `str.isspace` accepts, which `int()` strips from both ends. */
  predicate IsSpace(c: char) {
    c == ' ' || ('\t' <= c <= '\r') || ('\U{001C}' <= c <= '\U{001F}')
  }

  function StripRight(s: string): (r: string)
    ensures |r| <= |s| && r == s[..|r|]
    ensures r != [] ==> !IsSpace(r[|r| - 1])
  {
    if s != [] && IsSpace(s[|s| - 1]) then StripRight(s[..|s| - 1]) else s
  }

  /** `str.strip()`. */
  function Strip(s: string): string {
    StripRight(Strings.TrimStart(s, IsSpace))
  }

  /** `int(s)`: white space around an optional sign and at least one digit; None is the ValueError. */
  function PyInt(s: string): Option<int> {
    ParseSigned(Strip(s))
  }

  /** An optional sign and at least one digit. */
  function ParseSigned(t: string): Option<int> {
    if |t| >= 2 && t[0] == '-' && AllDigits(t[1..]) then Some(-(ParseNat(t[1..]) as int))
    else if |t| >= 2 && t[0] == '+' && AllDigits(t[1..]) then Some(ParseNat(t[1..]))
    else if |t| >= 1 && AllDigits(t) then Some(ParseNat(t))
    else None
  }

  lemma {:induction false} StripNoSpace(s: string)
    requires forall k :: 0 <= k < |s| ==> !IsSpace(s[k])
    ensures Strip(s) == s
  {
    if s != [] {
      assert !IsSpace(s[0]) && !IsSpace(s[|s| - 1]);
    }
  }

  lemma PyIntUnsigned(t: string)
    requires |t| >= 1 && AllDigits(t)
    ensures PyInt(t) == Some(ParseNat(t) as int)
  {
    StripNoSpace(t);
    UnsignedDigits(t);
  }

  /** Digits with no sign are read as they are. */
  lemma UnsignedDigits(t: string)
    requires |t| >= 1 && AllDigits(t)
    ensures ParseSigned(t) == Some(ParseNat(t) as int)
  {
    assert IsDigit(t[0]);
  }

  /** A minus sign followed by digits, with no white space to strip, is read as negative. */
  lemma PyIntNegative(s: string)
    requires |s| >= 2 && s[0] == '-' && AllDigits(s[1..])
    ensures PyInt(s) == Some(-(ParseNat(s[1..]) as int))
  {
    forall k | 0 <= k < |s|
      ensures !IsSpace(s[k])
    {
      if k > 0 {
        assert s[k] == s[1..][k - 1];
      }
    }
    StripNoSpace(s);
  }

  /** `int` reads back what `str` writes for an integer. */
  lemma PyIntToString(i: int)
    ensures PyInt(IntToString(i)) == Some(i)
  {
    IntToStringDigits(i);
    if i < 0 {
      PyIntNegative(IntToString(i));
    } else {
      PyIntUnsigned(IntToString(i));
    }
  }

  // --------------------------------------------------------------------- read_csv

  /**
   * A products row makes `read_csv` raise: KeyError when the file has no categoryids column;
   * for a row with categoryids, KeyError when it has no stockstatus column, and ValueError
   * when the stock status is not an integer and the row lists at least one id.
   */
  predicate RowRaises(row: Row) {
    var ids := Get(row, "categoryids");
    var stock := Get(row, "stockstatus");
    ids.None? || (ids.value != "" && (stock.None? || (stock.value != "" && Chunks(ids.value) != [] && PyInt(stock.value).None?)))
  }

  /** The ids a row contributes to: none when its categoryids or its stockstatus is empty. */
  function RowIds(row: Row): seq<string> {
    var ids := Get(row, "categoryids");
    var stock := Get(row, "stockstatus");
    if ids.None? || ids.value == "" || stock.None? || stock.value == "" then [] else Chunks(ids.value)
  }

  /** The value a row appends under each of its ids. */
  function RowStock(row: Row): int {
    var stock := Get(row, "stockstatus");
    if stock.None? then 0 else PyInt(stock.value).GetOr(0)
  }

  /** What the rows put in `categories_hash[id]`: row after row, its stock status once for every time it lists id. */
  function Contributions(rows: seq<Row>, id: string): seq<int> {
    if rows == [] then []
    else
      var last := rows[|rows| - 1];
      Contributions(rows[..|rows| - 1], id) + Copies(multiset(RowIds(last))[id], RowStock(last))
  }

  /** An id no row lists is given nothing: its count and its sum are 0. */
  lemma {:induction false} ContributionsAbsent(rows: seq<Row>, id: string)
    requires forall k :: 0 <= k < |rows| ==> id !in RowIds(rows[k])
    ensures Contributions(rows, id) == []
  {
    if rows != [] {
      ContributionsAbsent(rows[..|rows| - 1], id);
      assert multiset(RowIds(rows[|rows| - 1]))[id] == 0;
    }
  }

  /** Reading two files one after the other gives each id the first file's list followed by the second's. */
  lemma {:induction false} ContributionsAppend(a: seq<Row>, b: seq<Row>, id: string)
    ensures Contributions(a + b, id) == Contributions(a, id) + Contributions(b, id)
    decreases |b|
  {
    if b == [] {
      assert a + b == a;
    } else {
      var n := |b| - 1;
      SnocSplit(a, b);
      ContributionsAppend(a, b[..n], id);
      ContributionsLast(a + b, id);
      ContributionsLast(b, id);
      ConcatAssoc(Contributions(a, id), Contributions(b[..n], id), Copies(multiset(RowIds(b[n]))[id], RowStock(b[n])));
    }
  }

  /** Contributions one row at a time: the rows before the last, then the last row's copies. */
  lemma ContributionsLast(rows: seq<Row>, id: string)
    requires rows != []
    ensures var last := rows[|rows| - 1];
      Contributions(rows, id) == Contributions(rows[..|rows| - 1], id) + Copies(multiset(RowIds(last))[id], RowStock(last))
  {
  }

  /** The last element of a + b, b not empty, is that of b, and the ones before are a and the rest of b. */
  lemma SnocSplit<T>(a: seq<T>, b: seq<T>)
    requires b != []
    ensures (a + b)[..|a + b| - 1] == a + b[..|b| - 1] && (a + b)[|a + b| - 1] == b[|b| - 1]
  {
  }

  lemma ConcatAssoc<T>(x: seq<T>, y: seq<T>, z: seq<T>)
    ensures (x + y) + z == x + (y + z)
  {
  }

  lemma NothingTallied(h: map<string, seq<int>>, row: Row)
    requires RowIds(row) == []
    ensures forall x :: Lookup(h, x) == Lookup(h, x) + Copies(multiset(RowIds(row))[x], RowStock(row))
  {
    forall x
      ensures Lookup(h, x) == Lookup(h, x) + Copies(multiset(RowIds(row))[x], RowStock(row))
    {
      assert Copies(0, RowStock(row)) == [];
    }
  }

  /**
   * One step of the inner loop: `if not categories_hash.get(id): categories_hash[id] = []`
   * followed by the append gives the same table as appending to the list `get` reads.
   */
  lemma AppendStep(current: map<string, seq<int>>, id: string, v: int)
    ensures var reset := if id !in current || current[id] == [] then current[id := []] else current;
      reset[id := reset[id] + [v]] == current[id := Lookup(current, id) + [v]]
  {
    var reset := if id !in current || current[id] == [] then current[id := []] else current;
    assert reset[id] == Lookup(current, id);
  }

  /**
   * One pass of the inner loop at i = 4j: the id is the slice of four characters from i,
   * `if not categories_hash.get(id): categories_hash[id] = []`, then `int(row['stockstatus'])`,
   * which raises on None, is appended under the id.
   */
  method TallyAt(current: map<string, seq<int>>, chars: string, j: nat, value: Option<int>) returns (r: Option<map<string, seq<int>>>)
    requires j < |Slices(chars)|
    ensures r.None? <==> value.None?
    ensures r.Some? ==> r.value == current[Slices(chars)[j] := Lookup(current, Slices(chars)[j]) + [value.value]]
  {
    var i := 4 * j;
    SlicesAt(chars, j);
    var id := chars[i..if i + 4 <= |chars| then i + 4 else |chars|];
    var table := current;
    if id !in table || table[id] == [] {
      table := table[id := []];
    }
    if value.None? {
      return None;
    }
    AppendStep(current, id, value.value);
    return Some(table[id := table[id] + [value.value]]);
  }

  /**
   * The inner loop over `range(0, len(chars), 4)`: each step appends `int(row['stockstatus'])`
   * under the next id; a ValueError there raises at the first id.
   */
  method TallyChars(h: map<string, seq<int>>, chars: string, stock: string) returns (r: Option<map<string, seq<int>>>)
    ensures r.None? <==> PyInt(stock).None? && chars != []
    ensures r.Some? ==> forall x :: Lookup(r.value, x) == Lookup(h, x) + Copies(multiset(Slices(chars))[x], PyInt(stock).GetOr(0))
  {
    var ids := Slices(chars);
    var value := PyInt(stock);
    var current := h;
    for j := 0 to |ids|
      invariant value.Some? || j == 0
      invariant current == Appended(h, ids[..j], value.GetOr(0))
    {
      var next := TallyAt(current, chars, j, value);
      if next.None? {
        return None;
      }
      AppendedSnoc(h, ids, j, value.value);
      current := next.value;
    }
    assert ids[..|ids|] == ids;
    AppendedLookup(h, ids, value.GetOr(0));
    return Some(current);
  }

  /** The body of `read_csv`'s loop for one products row. */
  method TallyRow(h: map<string, seq<int>>, row: Row) returns (r: Option<map<string, seq<int>>>)
    ensures r.None? <==> RowRaises(row)
    ensures r.Some? ==> forall x :: Lookup(r.value, x) == Lookup(h, x) + Copies(multiset(RowIds(row))[x], RowStock(row))
  {
    var ids := Get(row, "categoryids");
    if ids.None? {
      return None;
    }
    if ids.value == "" {
      NothingTallied(h, row);
      return Some(h);
    }
    var stock := Get(row, "stockstatus");
    if stock.None? {
      return None;
    }
    if stock.value == "" {
      NothingTallied(h, row);
      return Some(h);
    }
    var chars := RemoveCommas(ids.value);
    r := TallyChars(h, chars, stock.value);
  }

  lemma ContributionsSnoc(rows: seq<Row>, k: nat, id: string)
    requires k < |rows|
    ensures Contributions(rows[..k + 1], id) == Contributions(rows[..k], id) + Copies(multiset(RowIds(rows[k]))[id], RowStock(rows[k]))
  {
    assert rows[..k + 1][..k] == rows[..k];
  }

  lemma ReadStep(products: seq<Row>, k: nat, h: map<string, seq<int>>, h': map<string, seq<int>>)
    requires k < |products|
    requires forall x :: Lookup(h, x) == Contributions(products[..k], x)
    requires forall x :: Lookup(h', x) == Lookup(h, x) + Copies(multiset(RowIds(products[k]))[x], RowStock(products[k]))
    ensures forall x :: Lookup(h', x) == Contributions(products[..k + 1], x)
  {
    forall x
      ensures Lookup(h', x) == Contributions(products[..k + 1], x)
    {
      ContributionsSnoc(products, k, x);
    }
  }

  /**
   * `read_csv(products_path)`: the stock statuses listed under each id, or None when some
   * row raises.
   */
  method ReadCsv(products: seq<Row>) returns (r: Option<map<string, seq<int>>>)
    ensures r.None? <==> exists k :: 0 <= k < |products| && RowRaises(products[k])
    ensures r.Some? ==> forall id :: Lookup(r.value, id) == Contributions(products, id)
  {
    var h: map<string, seq<int>> := map[];
    assert products[..0] == [];
    for k := 0 to |products|
      invariant forall m :: 0 <= m < k ==> !RowRaises(products[m])
      invariant forall x :: Lookup(h, x) == Contributions(products[..k], x)
    {
      var next := TallyRow(h, products[k]);
      if next.None? {
        return None;
      }
      ReadStep(products, k, h, next.value);
      h := next.value;
    }
    assert products[..|products|] == products;
    return Some(h);
  }

  // ----------------------------------------------------------------- generate_csv

  const BaseColumns: seq<string> := ["categoryid", "parentid", "categoryname", "rootid", "breadcrumb"]

  /** `name_hash`: each categoryid to its categoryname, the last row winning; None is a KeyError. */
  function NameHash(table: seq<Row>): Option<map<string, string>> {
    if table == [] then Some(map[])
    else
      var init := NameHash(table[..|table| - 1]);
      var last := table[|table| - 1];
      var id := Get(last, "categoryid");
      var name := Get(last, "categoryname");
      if init.None? || name.None? || id.None? then None
      else Some(init.value[id.value := name.value])
  }

  /** A row that `name_hash`'s loop cannot read. */
  predicate LacksName(row: Row) {
    Get(row, "categoryid").None? || Get(row, "categoryname").None?
  }

  /** The last row carrying id, which is the one whose name `name_hash` keeps. */
  predicate LastWithId(table: seq<Row>, k: int, id: string) {
    0 <= k < |table| && Get(table[k], "categoryid") == Some(id)
    && forall m :: k < m < |table| ==> Get(table[m], "categoryid") != Some(id)
  }

  /** `name_hash` is built unless some row lacks its id or its name. */
  lemma {:induction false} NameHashBuilt(table: seq<Row>)
    ensures NameHash(table).None? <==> exists k :: 0 <= k < |table| && LacksName(table[k])
  {
    if table != [] {
      var n := |table| - 1;
      NameHashBuilt(table[..n]);
      assert forall k :: 0 <= k < n ==> table[..n][k] == table[k];
    }
  }

  /** It holds exactly the ids of the rows. */
  lemma {:induction false} NameHashKeys(table: seq<Row>, id: string)
    requires NameHash(table).Some?
    ensures id in NameHash(table).value <==> exists k :: 0 <= k < |table| && Get(table[k], "categoryid") == Some(id)
  {
    if table != [] {
      var n := |table| - 1;
      NameHashKeys(table[..n], id);
      assert forall k :: 0 <= k < n ==> table[..n][k] == table[k];
    }
  }

  /** Each id has the name of the last row carrying it. */
  lemma {:induction false} NameHashLastWins(table: seq<Row>, id: string)
    requires NameHash(table).Some? && id in NameHash(table).value
    ensures exists k :: LastWithId(table, k, id) && Get(table[k], "categoryname") == Some(NameHash(table).value[id])
  {
    var n := |table| - 1;
    var init := table[..n];
    var last := table[n];
    var lastId := Get(last, "categoryid").value;
    var h := NameHash(init).value;
    assert NameHash(table).value == h[lastId := Get(last, "categoryname").value];
    if lastId == id {
      assert LastWithId(table, n, id);
    } else {
      assert id in h && NameHash(table).value[id] == h[id];
      NameHashLastWins(init, id);
      var k :| LastWithId(init, k, id) && Get(init[k], "categoryname") == Some(h[id]);
      assert table[k] == init[k];
      LastWithIdExtend(table, k, id);
    }
  }

  /** The last row carrying id before the final row stays the last one when the final row carries another id. */
  lemma LastWithIdExtend(table: seq<Row>, k: int, id: string)
    requires table != [] && LastWithId(table[..|table| - 1], k, id)
    requires Get(table[|table| - 1], "categoryid") != Some(id)
    ensures LastWithId(table, k, id)
  {
    var n := |table| - 1;
    forall m | k < m < n
      ensures Get(table[m], "categoryid") != Some(id)
    {
      assert table[m] == table[..n][m];
    }
    assert table[k] == table[..n][k];
  }

  /**
   * The base columns of the first n columns of a row, copied in column order: the loop
   * `for key in row: if key in base_columns: new_row[key] = row[key]` after n steps.
   */
  function BaseColumnsOf(row: Row, n: nat): Row
    requires n <= |row|
  {
    if n == 0 then []
    else
      var key := row[n - 1].0;
      assert Keys(row)[n - 1] == key;
      var prefix := BaseColumnsOf(row, n - 1);
      if key in BaseColumns then Put(prefix, key, Get(row, key).value) else prefix
  }

  /** The copy holds a column exactly when it is a base column among the first n, with the row's value. */
  lemma {:induction false} BaseColumnsOfGet(row: Row, n: nat, k: string)
    requires n <= |row|
    ensures Get(BaseColumnsOf(row, n), k) == if k in BaseColumns && k in Keys(row)[..n] then Get(row, k) else None
  {
    if n > 0 {
      var key := row[n - 1].0;
      BaseColumnsOfGet(row, n - 1, k);
      assert Keys(row)[..n] == Keys(row)[..n - 1] + [key];
      if key in BaseColumns {
        assert Keys(row)[n - 1] == key;
        GetPut(BaseColumnsOf(row, n - 1), key, Get(row, key).value, k);
      }
    }
  }

  /** The copy of the whole row holds exactly its base columns. */
  lemma BaseColumnsGet(row: Row, k: string)
    ensures Get(BaseColumnsOf(row, |row|), k) == if k in BaseColumns then Get(row, k) else None
  {
    BaseColumnsOfGet(row, |row|, k);
    assert Keys(row)[..|row|] == Keys(row);
  }

  /** The loop that fills `new_row`. */
  method CopyBaseColumns(row: Row) returns (newRow: Row)
    ensures newRow == BaseColumnsOf(row, |row|)
    ensures forall k :: Get(newRow, k) == if k in BaseColumns then Get(row, k) else None
  {
    newRow := [];
    for n := 0 to |row|
      invariant newRow == BaseColumnsOf(row, n)
    {
      var key := row[n].0;
      assert Keys(row)[n] == key;
      if key in BaseColumns {
        newRow := Put(newRow, key, Get(row, key).value);
      }
    }
    forall k
      ensures Get(newRow, k) == if k in BaseColumns then Get(row, k) else None
    {
      BaseColumnsGet(row, k);
    }
  }

  /** Which name the parent column takes when the parent is known. */
  datatype ParentRule =
    | OwnName   // `name_hash[row['categoryid']]`, as the script is written
    | ParentsName // `name_hash[new_row['parentid']]`, the parent's name

  /**
   * `new_row['Parent_Category_Id']`: '' when `name_hash.get(new_row['parentid'])` is missing
   * or empty, otherwise the name the rule picks. None is a KeyError.
   */
  function ParentColumn(rule: ParentRule, row: Row, newRow: Row, names: map<string, string>): (r: Option<string>)
    ensures r.Some? ==> Get(newRow, "parentid").Some?
    ensures Get(newRow, "parentid").Some? && (Get(newRow, "parentid").value !in names || names[Get(newRow, "parentid").value] == "")
      ==> r == Some("")
    ensures rule == ParentsName && Get(newRow, "parentid").Some? ==>
      r == Some(if Get(newRow, "parentid").value in names then names[Get(newRow, "parentid").value] else "")
  {
    var pid := Get(newRow, "parentid");
    if pid.None? then None
    else if pid.value !in names || names[pid.value] == "" then Some("")
    else match rule
      case OwnName =>
        var own := Get(row, "categoryid");
        if own.None? || own.value !in names then None else Some(names[own.value])
      case ParentsName => Some(names[pid.value])
  }

  /**
   * The rest of the loop body once `new_row` holds the base columns: the parent column, the
   * visible root name (the parent, which then also replaces categoryname, or else
   * categoryname), and the number and sum of the stock statuses listed under the id (0 and 0
   * when none is). None is a KeyError.
   */
  function Completed(rule: ParentRule, row: Row, newRow: Row, names: map<string, string>, hash: map<string, seq<int>>): Option<Row> {
    var parent := ParentColumn(rule, row, newRow, names);
    if parent.None? then None
    else
      var r1 := Put(newRow, "Parent_Category_Id", parent.value);
      var name := Get(r1, "categoryname");
      if parent.value == "" && name.None? then None
      else
        var r2 := if parent.value == "" then Put(r1, "category_visible_root_name", name.value)
          else Put(Put(r1, "category_visible_root_name", parent.value), "categoryname", parent.value);
        var id := Get(r2, "categoryid");
        if id.None? then None
        else
          var ids := if id.value in hash && hash[id.value] != [] then hash[id.value] else [];
          Some(Put(Put(r2, "category_product_count", NatToString(|ids|)), "category_product_sum", IntToString(Sum(ids))))
  }

  /** The row `writer.writerow` receives for a row of the categories table. */
  function OutputRow(rule: ParentRule, row: Row, names: map<string, string>, hash: map<string, seq<int>>): Option<Row> {
    Completed(rule, row, BaseColumnsOf(row, |row|), names, hash)
  }

  const AddedColumns: seq<string> := ["Parent_Category_Id", "category_visible_root_name", "category_product_count", "category_product_sum"]

  /** The parent column reads only parentid from `new_row`, which holds the row's own. */
  lemma ParentColumnOfCopy(rule: ParentRule, row: Row, names: map<string, string>)
    ensures ParentColumn(rule, row, BaseColumnsOf(row, |row|), names) == ParentColumn(rule, row, row, names)
  {
    BaseColumnsGet(row, "parentid");
  }

  /**
   * An output row is produced unless the row lacks its parentid, the parent rule reads a
   * missing name, a row without a known parent lacks its categoryname, or the row lacks its
   * categoryid.
   */
  lemma OutputRowRaises(rule: ParentRule, row: Row, names: map<string, string>, hash: map<string, seq<int>>)
    ensures var parent := ParentColumn(rule, row, row, names);
      OutputRow(rule, row, names, hash).None? <==>
        parent.None? || (parent.value == "" && Get(row, "categoryname").None?) || Get(row, "categoryid").None?
  {
    var base := BaseColumnsOf(row, |row|);
    ParentColumnOfCopy(rule, row, names);
    var parent := ParentColumn(rule, row, row, names);
    BaseColumnsGet(row, "categoryname");
    BaseColumnsGet(row, "categoryid");
    if parent.Some? {
      var r1 := Put(base, "Parent_Category_Id", parent.value);
      GetPut(base, "Parent_Category_Id", parent.value, "categoryname");
      GetPut(base, "Parent_Category_Id", parent.value, "categoryid");
      if parent.value == "" {
        if Get(r1, "categoryname").Some? {
          GetPut(r1, "category_visible_root_name", Get(r1, "categoryname").value, "categoryid");
        }
      } else {
        var r15 := Put(r1, "category_visible_root_name", parent.value);
        GetPut(r1, "category_visible_root_name", parent.value, "categoryid");
        GetPut(r15, "categoryname", parent.value, "categoryid");
      }
    }
  }

  /**
   * What each column of an output row holds: the parent column; the visible root name and
   * categoryname both the parent when there is one, otherwise the row's own name; the count
   * and the sum of the stock statuses listed under the id; and the row's value for the other
   * base columns; no other column.
   */
  lemma OutputRowGet(rule: ParentRule, row: Row, names: map<string, string>, hash: map<string, seq<int>>, k: string)
    requires OutputRow(rule, row, names, hash).Some?
    ensures ParentColumn(rule, row, row, names).Some? && Get(row, "categoryid").Some?
    ensures var parent := ParentColumn(rule, row, row, names).value;
      var ids := Lookup(hash, Get(row, "categoryid").value);
      Get(OutputRow(rule, row, names, hash).value, k) ==
        if k == "category_product_sum" then Some(IntToString(Sum(ids)))
        else if k == "category_product_count" then Some(NatToString(|ids|))
        else if k == "categoryname" || k == "category_visible_root_name" then
          (if parent == "" then Get(row, "categoryname") else Some(parent))
        else if k == "Parent_Category_Id" then Some(parent)
        else if k in BaseColumns then Get(row, k)
        else None
  {
    OutputRowRaises(rule, row, names, hash);
    var base := BaseColumnsOf(row, |row|);
    ParentColumnOfCopy(rule, row, names);
    var parent := ParentColumn(rule, row, row, names).value;
    BaseColumnsGet(row, k);
    BaseColumnsGet(row, "categoryname");
    BaseColumnsGet(row, "categoryid");
    var r1 := Put(base, "Parent_Category_Id", parent);
    GetPut(base, "Parent_Category_Id", parent, k);
    GetPut(base, "Parent_Category_Id", parent, "categoryname");
    GetPut(base, "Parent_Category_Id", parent, "categoryid");
    var r2;
    if parent == "" {
      var name := Get(r1, "categoryname").value;
      r2 := Put(r1, "category_visible_root_name", name);
      GetPut(r1, "category_visible_root_name", name, k);
      GetPut(r1, "category_visible_root_name", name, "categoryid");
    } else {
      var r15 := Put(r1, "category_visible_root_name", parent);
      r2 := Put(r15, "categoryname", parent);
      GetPut(r1, "category_visible_root_name", parent, k);
      GetPut(r15, "categoryname", parent, k);
      GetPut(r1, "category_visible_root_name", parent, "categoryid");
      GetPut(r15, "categoryname", parent, "categoryid");
    }
    var id := Get(row, "categoryid").value;
    var ids := if id in hash && hash[id] != [] then hash[id] else [];
    assert ids == Lookup(hash, id);
    var r3 := Put(r2, "category_product_count", NatToString(|ids|));
    GetPut(r2, "category_product_count", NatToString(|ids|), k);
    GetPut(r3, "category_product_sum", IntToString(Sum(ids)), k);
  }

  /** As written, a parent column that is not empty is always the row's own name in `name_hash`. */
  lemma OwnNameIsOwn(row: Row, newRow: Row, names: map<string, string>)
    requires ParentColumn(OwnName, row, newRow, names).Some?
    ensures var p := ParentColumn(OwnName, row, newRow, names).value;
      p != "" ==> Get(row, "categoryid").Some? && Get(row, "categoryid").value in names && p == names[Get(row, "categoryid").value]
  {
  }

  /** With the parent's name, the parent column is the name of the last row carrying the parent id. */
  lemma ParentsNameIsParent(table: seq<Row>, row: Row)
    requires NameHash(table).Some?
    requires Get(row, "parentid").Some?
    ensures var p := ParentColumn(ParentsName, row, row, NameHash(table).value).value;
      p == "" || exists k :: LastWithId(table, k, Get(row, "parentid").value) && Get(table[k], "categoryname") == Some(p)
  {
    var names := NameHash(table).value;
    var pid := Get(row, "parentid").value;
    if pid in names && names[pid] != "" {
      NameHashLastWins(table, pid);
    }
  }

  /** A root "1" named Root and its child "2" named Child. */
  function ExampleTable(): seq<Row> {
    [[("categoryid", "1"), ("parentid", "0"), ("categoryname", "Root")],
     [("categoryid", "2"), ("parentid", "1"), ("categoryname", "Child")]]
  }

  /** The child's parent column: "Child" as written, "Root" with the parent's name. */
  lemma ParentColumnExample()
    ensures NameHash(ExampleTable()) == Some(map["1" := "Root", "2" := "Child"])
    ensures var child := ExampleTable()[1];
      && ParentColumn(OwnName, child, child, map["1" := "Root", "2" := "Child"]) == Some("Child")
      && ParentColumn(ParentsName, child, child, map["1" := "Root", "2" := "Child"]) == Some("Root")
  {
    var t := ExampleTable();
    assert t[..1] == [t[0]] && t[..1][..0] == [];
    assert Get(t[0], "categoryid") == Some("1") && Get(t[0], "categoryname") == Some("Root");
    assert Get(t[1], "categoryid") == Some("2") && Get(t[1], "categoryname") == Some("Child");
    assert Get(t[1], "parentid") == Some("1");
  }

  lemma NameHashSnoc(table: seq<Row>, k: nat)
    requires k < |table|
    ensures NameHash(table[..k + 1]) == (
      var init := NameHash(table[..k]);
      var id := Get(table[k], "categoryid");
      var name := Get(table[k], "categoryname");
      if init.None? || name.None? || id.None? then None else Some(init.value[id.value := name.value]))
  {
    assert table[..k + 1][..k] == table[..k];
  }

  /** The loop that fills `name_hash`; None is the KeyError of a row lacking its id or name. */
  method BuildNames(table: seq<Row>) returns (names: Option<map<string, string>>)
    ensures names == NameHash(table)
  {
    var acc: map<string, string> := map[];
    assert table[..0] == [];
    for k := 0 to |table|
      invariant NameHash(table[..k]) == Some(acc)
    {
      NameHashSnoc(table, k);
      var name := Get(table[k], "categoryname");
      var id := Get(table[k], "categoryid");
      if name.None? || id.None? {
        assert LacksName(table[k]);
        NameHashBuilt(table[..k + 1]);
        NameHashBuilt(table);
        return None;
      }
      acc := acc[id.value := name.value];
    }
    assert table[..|table|] == table;
    return Some(acc);
  }

  lemma WrittenSnoc(rule: ParentRule, table: seq<Row>, names: map<string, string>, hash: map<string, seq<int>>, written: seq<Row>, row: Row)
    requires |written| < |table|
    requires forall m :: 0 <= m < |written| ==> OutputRow(rule, table[m], names, hash) == Some(written[m])
    requires OutputRow(rule, table[|written|], names, hash) == Some(row)
    ensures forall m :: 0 <= m < |written| + 1 ==> OutputRow(rule, table[m], names, hash) == Some((written + [row])[m])
  {
  }

  /** The loop over the categories table: rows written in order until one raises. */
  method WriteRows(rule: ParentRule, table: seq<Row>, names: map<string, string>, hash: map<string, seq<int>>)
    returns (written: seq<Row>, raised: bool)
    ensures |written| <= |table|
    ensures forall k :: 0 <= k < |written| ==> OutputRow(rule, table[k], names, hash) == Some(written[k])
    ensures raised <==> |written| < |table|
    ensures raised ==> OutputRow(rule, table[|written|], names, hash).None?
  {
    written := [];
    for k := 0 to |table|
      invariant |written| == k
      invariant forall m :: 0 <= m < k ==> OutputRow(rule, table[m], names, hash) == Some(written[m])
    {
      var newRow := CopyBaseColumns(table[k]);
      var out := Completed(rule, table[k], newRow, names, hash);
      assert out == OutputRow(rule, table[k], names, hash);
      if out.None? {
        return written, true;
      }
      WrittenSnoc(rule, table, names, hash, written, out.value);
      written := written + [out.value];
    }
    return written, false;
  }

  /**
   * `generate_csv(categories_table, categories_hash, output_path)`: the rows written after
   * the header, and whether an exception stopped it. A row lacking its id or name stops it
   * before any row is written; otherwise the rows are written in order until one raises.
   */
  method GenerateCsv(rule: ParentRule, table: seq<Row>, hash: map<string, seq<int>>) returns (written: seq<Row>, raised: bool)
    ensures NameHash(table).None? ==> written == [] && raised
    ensures NameHash(table).Some? ==>
      && |written| <= |table|
      && (forall k :: 0 <= k < |written| ==> OutputRow(rule, table[k], NameHash(table).value, hash) == Some(written[k]))
      && (raised <==> |written| < |table|)
      && (raised ==> OutputRow(rule, table[|written|], NameHash(table).value, hash).None?)
  {
    var names := BuildNames(table);
    if names.None? {
      return [], true;
    }
    written, raised := WriteRows(rule, table, names.value, hash);
  }
}
