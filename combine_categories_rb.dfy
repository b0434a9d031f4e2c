/**
 * combine_categories.rb: counts, for every category id, the products listed under it and
 * sums their stock status, then adds to each row of the categories table its parent's
 * name, the name shown at the root, and that count and sum. Reading and writing the CSV
 * files is left out: a products file is its parsed rows (nil for an empty field), the
 * categories table is its rows as header-to-value hashes.
 */
module CombineCategoriesRb {
  import opened Wrappers
  import opened Decimal
  import opened OrderedHash
  import opened CategoryIds
  import Strings

  // ------------------------------------------------------------------ String#to_i

  /** The characters `to_i` skips before the number. */
  predicate IsSpace(c: char) {
    c == ' ' || c == '\t' || c == '\n' || c == '\U{000B}' || c == '\U{000C}' || c == '\r'
  }

  /** The longest run of digits at the front of s. */
  function LeadingDigits(s: string): (r: string)
    ensures AllDigits(r) && |r| <= |s| && r == s[..|r|]
    ensures |r| < |s| ==> !IsDigit(s[|r|])
  {
    if s != [] && IsDigit(s[0]) then [s[0]] + LeadingDigits(s[1..]) else []
  }

  /**
   * Ruby's String#to_i: leading white space, an optional sign, then as many digits as there
   * are; 0 when there are none.
   */
  function ToI(s: string): int {
    var t := Strings.TrimStart(s, IsSpace);
    if |t| > 0 && t[0] == '-' then -(ParseNat(LeadingDigits(t[1..])) as int)
    else if |t| > 0 && t[0] == '+' then ParseNat(LeadingDigits(t[1..]))
    else ParseNat(LeadingDigits(t))
  }

  lemma {:induction false} LeadingDigitsAll(s: string)
    requires AllDigits(s)
    ensures LeadingDigits(s) == s
  {
    if s != [] {
      LeadingDigitsAll(s[1..]);
    }
  }

  /** A string of digits reads as its decimal value. */
  lemma ToIDigits(s: string)
    requires AllDigits(s)
    ensures ToI(s) == ParseNat(s)
  {
    if s != [] {
      assert IsDigit(s[0]) && !IsSpace(s[0]);
      assert Strings.TrimStart(s, IsSpace) == s;
      assert s[0] != '-' && s[0] != '+';
      LeadingDigitsAll(s);
    }
  }

  /** to_i reads back what Integer#to_s writes. */
  lemma ToIToString(i: int)
    ensures ToI(IntToString(i)) == i
  {
    IntToStringDigits(i);
    var s := IntToString(i);
    if i < 0 {
      var t := s[1..];
      assert Strings.TrimStart(s, IsSpace) == s;
      LeadingDigitsAll(t);
    } else {
      assert IsDigit(s[0]) && !IsSpace(s[0]);
      assert Strings.TrimStart(s, IsSpace) == s;
      LeadingDigitsAll(s);
    }
  }


  // --------------------------------------------------------------------- read_csv

  /** A row of the products file as CSV.foreach gives it. */
  type Fields = seq<Option<string>>

  /** `row[i]`: nil past the end of the row. */
  function Field(row: Fields, i: nat): Option<string> {
    if i < |row| then row[i] else None
  }

  /** `row.index(name)`: the first column holding name. */
  function HeaderIndex(header: Fields, name: string): (r: Option<nat>)
    ensures r.Some? ==> (r.value < |header| && header[r.value] == Some(name)
      && forall j :: 0 <= j < r.value ==> header[j] != Some(name))
    ensures r.None? ==> forall j :: 0 <= j < |header| ==> header[j] != Some(name)
  {
    if header == [] then None
    else if header[0] == Some(name) then Some(0)
    else
      var rest := HeaderIndex(header[1..], name);
      if rest.Some? then Some(rest.value + 1) else None
  }

  /** The ids a product row lists: its categoryids field without commas, cut into fours, each read with to_i. */
  function RowIds(row: Fields, ci: nat): (ids: seq<int>)
    ensures Field(row, ci).None? ==> ids == []
    ensures Field(row, ci).Some? ==> |ids| == |Chunks(Field(row, ci).value)|
  {
    match Field(row, ci)
    case None => []
    case Some(s) =>
      var chunks := Chunks(s);
      seq(|chunks|, k requires 0 <= k < |chunks| => ToI(chunks[k]))
  }

  /** `row[stockstatus_index].to_i`: nil reads as 0. */
  function Stock(row: Fields, si: nat): int {
    match Field(row, si)
    case None => 0
    case Some(s) => ToI(s)
  }

  /**
   * What the products rows put in `categories_hash[id]`: row after row, the row's stock
   * status once for every time the row lists id.
   */
  function Contributions(rows: seq<Fields>, ci: nat, si: nat, id: int): seq<int> {
    if rows == [] then []
    else
      var last := rows[|rows| - 1];
      Contributions(rows[..|rows| - 1], ci, si, id) + Copies(multiset(RowIds(last, ci))[id], Stock(last, si))
  }

  /**
   * The script raises (`row[nil]`) when there is a product row and no categoryids column,
   * or when a row lists an id and there is no stockstatus column.
   */
  predicate Raises(rows: seq<Fields>, ci: Option<nat>, si: Option<nat>) {
    rows != [] && (ci.None? || (si.None? && exists row :: row in rows && RowIds(row, ci.value) != []))
  }

  /** The table `read_csv` builds from the products file, read through its default. */
  function Tallied(products: seq<Fields>, id: int): seq<int> {
    if products == [] then []
    else
      var ci := HeaderIndex(products[0], "categoryids");
      var si := HeaderIndex(products[0], "stockstatus");
      if ci.None? || si.None? then [] else Contributions(products[1..], ci.value, si.value, id)
  }

  lemma ContributionsSnoc(rows: seq<Fields>, i: nat, ci: nat, si: nat, id: int)
    requires 1 <= i < |rows|
    ensures Contributions(rows[1..i + 1], ci, si, id)
      == Contributions(rows[1..i], ci, si, id) + Copies(multiset(RowIds(rows[i], ci))[id], Stock(rows[i], si))
  {
    assert rows[1..i + 1][..i - 1] == rows[1..i];
  }

  /** Nothing is contributed by rows that list no ids. */
  lemma {:induction false} ContributionsNone(rows: seq<Fields>, ci: nat, si: nat, id: int)
    requires forall row :: row in rows ==> RowIds(row, ci) == []
    ensures Contributions(rows, ci, si, id) == []
  {
    if rows != [] {
      ContributionsNone(rows[..|rows| - 1], ci, si, id);
    }
  }

  lemma NothingTallied(h: map<int, seq<int>>, row: Fields, ci: nat, si: nat)
    requires Field(row, ci).None?
    ensures forall x :: Lookup(h, x) == Lookup(h, x) + Copies(multiset(RowIds(row, ci))[x], Stock(row, si))
  {
    assert RowIds(row, ci) == [];
    forall x
      ensures Lookup(h, x) == Lookup(h, x) + Copies(multiset(RowIds(row, ci))[x], Stock(row, si))
    {
      assert Copies(0, Stock(row, si)) == [];
    }
  }

  /**
   * The inner `each` over a row's ids: the stock status appended under each id in turn;
   * `stock` is None when reading it raises, which happens at the first id.
   */
  method TallyIds(h: map<int, seq<int>>, ids: seq<int>, stock: Option<int>) returns (r: Option<map<int, seq<int>>>)
    ensures r.None? <==> stock.None? && ids != []
    ensures r.Some? ==> forall x :: Lookup(r.value, x) == Lookup(h, x) + Copies(multiset(ids)[x], stock.GetOr(0))
  {
    var current := h;
    for j := 0 to |ids|
      invariant stock.Some? || j == 0
      invariant current == Appended(h, ids[..j], stock.GetOr(0))
    {
      if stock.None? {
        return None;
      }
      var v := stock.value;
      AppendedSnoc(h, ids, j, v);
      current := current[ids[j] := Lookup(current, ids[j]) + [v]];
    }
    assert ids[..|ids|] == ids;
    AppendedLookup(h, ids, stock.GetOr(0));
    return Some(current);
  }

  /**
   * The body of `read_csv`'s loop for one product row: a row without categoryids is passed
   * over, otherwise its stock status goes under each of its ids. Indexing a row by a missing
   * column raises (None): at once for categoryids, at the first id for stockstatus.
   */
  method TallyRow(h: map<int, seq<int>>, row: Fields, ci: Option<nat>, si: Option<nat>) returns (r: Option<map<int, seq<int>>>)
    ensures r.None? <==> ci.None? || (si.None? && RowIds(row, ci.value) != [])
    ensures r.Some? ==> forall x :: Lookup(r.value, x) == Lookup(h, x) + Copies(multiset(RowIds(row, ci.value))[x], Stock(row, si.GetOr(0)))
  {
    if ci.None? {
      return None;
    }
    if Field(row, ci.value).None? {
      NothingTallied(h, row, ci.value, si.GetOr(0));
      return Some(h);
    }
    var stock := if si.None? then None else Some(Stock(row, si.value));
    r := TallyIds(h, RowIds(row, ci.value), stock);
  }

  /** One more product row tallied: the table read so far now covers that row too. */
  lemma TallyPrefix(products: seq<Fields>, i: nat, ci: nat, si: Option<nat>, h: map<int, seq<int>>, h': map<int, seq<int>>)
    requires 1 <= i < |products|
    requires si.None? ==> RowIds(products[i], ci) == []
    requires forall x :: Lookup(h, x) == if i > 1 && si.Some? then Contributions(products[1..i], ci, si.value, x) else []
    requires forall x :: Lookup(h', x) == Lookup(h, x) + Copies(multiset(RowIds(products[i], ci))[x], Stock(products[i], si.GetOr(0)))
    ensures forall x :: Lookup(h', x) == if si.Some? then Contributions(products[1..i + 1], ci, si.value, x) else []
  {
    forall x
      ensures Lookup(h', x) == if si.Some? then Contributions(products[1..i + 1], ci, si.value, x) else []
    {
      if si.Some? {
        ContributionsSnoc(products, i, ci, si.value, x);
        if i == 1 {
          assert products[1..1] == [];
        }
      } else {
        assert multiset(RowIds(products[i], ci))[x] == 0;
      }
    }
  }

  lemma NoIdsSnoc(products: seq<Fields>, i: nat, ci: nat, si: Option<nat>)
    requires 1 <= i < |products|
    requires i > 1 && si.None? ==> forall k :: 1 <= k < i ==> RowIds(products[k], ci) == []
    requires si.None? ==> RowIds(products[i], ci) == []
    ensures si.None? ==> forall k :: 1 <= k < i + 1 ==> RowIds(products[k], ci) == []
  {
  }

  /** A finished pass over the rows raises nothing when the header has both columns or no row lists an id. */
  lemma PassRaisesNothing(products: seq<Fields>, ci: Option<nat>, si: Option<nat>)
    requires products != []
    requires ci == HeaderIndex(products[0], "categoryids") && si == HeaderIndex(products[0], "stockstatus")
    requires |products| > 1 ==> ci.Some?
    requires |products| > 1 && si.None? ==> forall k :: 1 <= k < |products| ==> RowIds(products[k], ci.value) == []
    ensures !Raises(products[1..], ci, si)
  {
    if |products| > 1 && si.None? {
      forall row | row in products[1..]
        ensures RowIds(row, ci.value) == []
      {
        var k :| 0 <= k < |products[1..]| && products[1..][k] == row;
        assert row == products[k + 1];
      }
    }
  }

  /** The table built over all the rows is the one `Tallied` describes. */
  lemma PassTallied(products: seq<Fields>, ci: Option<nat>, si: Option<nat>, h: map<int, seq<int>>)
    requires products != []
    requires ci == HeaderIndex(products[0], "categoryids") && si == HeaderIndex(products[0], "stockstatus")
    requires |products| > 1 ==> ci.Some?
    requires forall x :: Lookup(h, x) == if |products| > 1 && si.Some? then Contributions(products[1..|products|], ci.value, si.value, x) else []
    ensures forall id :: Lookup(h, id) == Tallied(products, id)
  {
    assert products[1..|products|] == products[1..];
  }

  /**
   * `read_csv`'s loop over the products file: the first row gives the column indices and every
   * later row adds its stock status under each id it lists. None is the exception it raises.
   */
  method ReadCsv(products: seq<Fields>) returns (r: Option<map<int, seq<int>>>)
    ensures products == [] ==> r == Some(map[])
    ensures products != [] ==> (r.None? <==>
      Raises(products[1..], HeaderIndex(products[0], "categoryids"), HeaderIndex(products[0], "stockstatus")))
    ensures r.Some? ==> forall id :: Lookup(r.value, id) == Tallied(products, id)
  {
    var h: map<int, seq<int>> := map[];
    var skip := true;
    var ci: Option<nat> := None;
    var si: Option<nat> := None;
    for i := 0 to |products|
      invariant skip <==> i == 0
      invariant i == 0 ==> h == map[]
      invariant i > 0 ==> ci == HeaderIndex(products[0], "categoryids") && si == HeaderIndex(products[0], "stockstatus")
      invariant i > 1 ==> ci.Some?
      invariant i > 1 && si.None? ==> forall k :: 1 <= k < i ==> RowIds(products[k], ci.value) == []
      invariant forall x :: Lookup(h, x) == if i > 1 && si.Some? then Contributions(products[1..i], ci.value, si.value, x) else []
    {
      var row := products[i];
      if skip {
        skip := false;
        ci := HeaderIndex(row, "categoryids");
        si := HeaderIndex(row, "stockstatus");
        continue;
      }
      var next := TallyRow(h, row, ci, si);
      if next.None? {
        assert products[1..][i - 1] == row;
        return None;
      }
      TallyPrefix(products, i, ci.value, si, h, next.value);
      NoIdsSnoc(products, i, ci.value, si);
      h := next.value;
    }
    if products == [] {
      return Some(h);
    }
    PassRaisesNothing(products, ci, si);
    PassTallied(products, ci, si, h);
    return Some(h);
  }

  // ---------------------------------------------------------------- generate_csv

  /** A value of CSV.table's rows: nil, a string, or the Integer the script stores. */
  datatype Value = Nil | Str(s: string) | Int(i: int)

  /** A row of the categories table: its headers and values, in column order. */
  type Row = Hash<string, Value>

  /** `row[header]`: nil for a header the row does not have. */
  function Cell(row: Row, header: string): Value {
    Get(row, header).GetOr(Nil)
  }

  /** `value.to_i`. */
  function ValueToI(v: Value): int {
    match v
    case Nil => 0
    case Str(s) => ToI(s)
    case Int(i) => i
  }

  const BaseColumns: seq<string> := ["categoryid", "parentid", "categoryname", "rootid", "breadcrumb"]

  /** `table.headers`: the headers of the first row. */
  function Headers(table: seq<Row>): seq<string> {
    if table == [] then [] else Keys(table[0])
  }

  /** `table.delete(column)` for each header in turn that is not a base column. */
  function DropColumns(table: seq<Row>, headers: seq<string>): (r: seq<Row>)
    ensures |r| == |table|
  {
    if headers == [] then table
    else
      var h := headers[|headers| - 1];
      var t := DropColumns(table, headers[..|headers| - 1]);
      if h in BaseColumns then t else seq(|t|, i requires 0 <= i < |t| => Delete(t[i], h))
  }

  /** Exactly the entries whose header is a base column or not among the deleted headers remain. */
  lemma {:induction false} DropColumnsSpec(table: seq<Row>, headers: seq<string>, i: nat, p: (string, Value))
    requires i < |table|
    ensures p in DropColumns(table, headers)[i] <==> p in table[i] && (p.0 in BaseColumns || p.0 !in headers)
  {
    if headers != [] {
      var h := headers[|headers| - 1];
      var init := headers[..|headers| - 1];
      DropColumnsSpec(table, init, i, p);
      assert p.0 in headers <==> p.0 in init || p.0 == h;
    }
  }

  /** The first part of `generate_csv`: only the base columns of the table's headers survive. */
  function KeepBase(table: seq<Row>): (r: seq<Row>)
    ensures |r| == |table|
  {
    DropColumns(table, Headers(table))
  }

  /** The first row whose categoryid equals the parent id. */
  function FindIndex(table: seq<Row>, parentId: Value): (r: Option<nat>)
    ensures r.Some? ==> (r.value < |table| && Cell(table[r.value], "categoryid") == parentId
      && forall j :: 0 <= j < r.value ==> Cell(table[j], "categoryid") != parentId)
    ensures r.None? ==> forall j :: 0 <= j < |table| ==> Cell(table[j], "categoryid") != parentId
  {
    if table == [] then None
    else if Cell(table[0], "categoryid") == parentId then Some(0)
    else
      var rest := FindIndex(table[1..], parentId);
      if rest.Some? then Some(rest.value + 1) else None
  }

  /**
   * The parent's name: nil for a top-level row (parentid '0'), otherwise
   * `table.find { ... }&.[](:categoryname)`.
   */
  function ParentName(table: seq<Row>, row: Row): Value {
    var parentId := Cell(row, "parentid");
    if parentId == Str("0") then Nil
    else
      match FindIndex(table, parentId)
      case None => Nil
      case Some(j) => Cell(table[j], "categoryname")
  }

  /** The four columns `append_table` assigns to one row, in this order. */
  function AppendRow(table: seq<Row>, row: Row, h: map<int, seq<int>>): Row {
    var parent := ParentName(table, row);
    var withParent := Put(row, "Parent_Category_Id", parent);
    var visible := if parent != Nil then parent else Cell(withParent, "categoryname");
    var ids := Lookup(h, ValueToI(Cell(row, "categoryid")));
    Put(Put(Put(withParent, "category_visible_root_name", visible),
            "category_product_count", Int(|ids|)),
        "category_product_sum", Int(Sum(ids)))
  }

  const AddedColumns: seq<string> := ["Parent_Category_Id", "category_visible_root_name", "category_product_count", "category_product_sum"]

  /** What one column of a row holds after the four assignments. */
  lemma AppendRowGet(table: seq<Row>, row: Row, h: map<int, seq<int>>, k: string)
    ensures var parent := ParentName(table, row);
      var ids := Lookup(h, ValueToI(Cell(row, "categoryid")));
      Get(AppendRow(table, row, h), k) ==
        if k == "category_product_sum" then Some(Int(Sum(ids)))
        else if k == "category_product_count" then Some(Int(|ids|))
        else if k == "category_visible_root_name" then Some(if parent != Nil then parent else Cell(row, "categoryname"))
        else if k == "Parent_Category_Id" then Some(parent)
        else Get(row, k)
  {
    var parent := ParentName(table, row);
    var r1 := Put(row, "Parent_Category_Id", parent);
    var visible := if parent != Nil then parent else Cell(r1, "categoryname");
    var ids := Lookup(h, ValueToI(Cell(row, "categoryid")));
    var r2 := Put(r1, "category_visible_root_name", visible);
    var r3 := Put(r2, "category_product_count", Int(|ids|));
    GetPut(row, "Parent_Category_Id", parent, "categoryname");
    GetPut(row, "Parent_Category_Id", parent, k);
    GetPut(r1, "category_visible_root_name", visible, k);
    GetPut(r2, "category_product_count", Int(|ids|), k);
    GetPut(r3, "category_product_sum", Int(Sum(ids)), k);
  }

  /**
   * What a row holds after `append_table`: the parent name, the parent name or else its own
   * name as the visible root, the number and the sum of the stock statuses listed under its
   * id (0 and 0 for an id no product lists), and every other column as before.
   */
  lemma AppendRowSpec(table: seq<Row>, row: Row, h: map<int, seq<int>>)
    ensures var r := AppendRow(table, row, h);
      var parent := ParentName(table, row);
      var ids := Lookup(h, ValueToI(Cell(row, "categoryid")));
      && Cell(r, "Parent_Category_Id") == parent
      && Cell(r, "category_visible_root_name") == (if parent != Nil then parent else Cell(row, "categoryname"))
      && Cell(r, "category_product_count") == Int(|ids|)
      && Cell(r, "category_product_sum") == Int(Sum(ids))
      && forall k :: k !in AddedColumns ==> Get(r, k) == Get(row, k)
  {
    AppendRowGet(table, row, h, "Parent_Category_Id");
    AppendRowGet(table, row, h, "category_visible_root_name");
    AppendRowGet(table, row, h, "category_product_count");
    AppendRowGet(table, row, h, "category_product_sum");
    forall k | k !in AddedColumns
      ensures Get(AppendRow(table, row, h), k) == Get(row, k)
    {
      AppendRowGet(table, row, h, k);
    }
  }

  /** The assignments leave a row's id and name as they were. */
  lemma AppendRowKeepsIdName(table: seq<Row>, row: Row, h: map<int, seq<int>>)
    ensures Cell(AppendRow(table, row, h), "categoryid") == Cell(row, "categoryid")
    ensures Cell(AppendRow(table, row, h), "categoryname") == Cell(row, "categoryname")
  {
    AppendRowGet(table, row, h, "categoryid");
    AppendRowGet(table, row, h, "categoryname");
  }

  /** A parent found by id is the first row carrying that id, and its name is that row's name. */
  lemma ParentNameSpec(table: seq<Row>, row: Row)
    ensures Cell(row, "parentid") == Str("0") ==> ParentName(table, row) == Nil
    ensures Cell(row, "parentid") != Str("0") && ParentName(table, row) != Nil ==>
      exists j :: 0 <= j < |table| && Cell(table[j], "categoryid") == Cell(row, "parentid")
        && Cell(table[j], "categoryname") == ParentName(table, row)
        && forall i :: 0 <= i < j ==> Cell(table[i], "categoryid") != Cell(row, "parentid")
  {
  }

  /** The search only reads ids and names, so rows that keep both give the same parent. */
  lemma ParentNameSameIds(a: seq<Row>, b: seq<Row>, row: Row)
    requires |a| == |b|
    requires forall k :: 0 <= k < |a| ==>
      Cell(a[k], "categoryid") == Cell(b[k], "categoryid") && Cell(a[k], "categoryname") == Cell(b[k], "categoryname")
    ensures ParentName(a, row) == ParentName(b, row)
  {
    var p := Cell(row, "parentid");
    var fa := FindIndex(a, p);
    var fb := FindIndex(b, p);
    if fa.Some? && fb.Some? {
      assert !(fa.value < fb.value) && !(fb.value < fa.value);
    }
  }

  /**
   * `append_table(table, categories_hash)`: every row, in place, receives the four columns.
   * The parent is looked up in the live table, whose earlier rows already carry the new
   * columns; ids and names are untouched, so that is the lookup in the table as it was.
   */
  method AppendTable(table: array<Row>, h: map<int, seq<int>>)
    modifies table
    ensures forall i :: 0 <= i < table.Length ==> table[i] == AppendRow(old(table[..]), old(table[i]), h)
  {
    ghost var was := table[..];
    for i := 0 to table.Length
      invariant AppendedUpTo(table[..], was, i, h)
    {
      ghost var live := table[..];
      AppendedUpToStep(live, was, i, h);
      table[i] := AppendRow(table[..], table[i], h);
      assert table[..] == live[i := AppendRow(live, live[i], h)];
    }
    assert AppendedUpTo(table[..], was, table.Length, h);
  }

  /** The table while append_table runs: rows before i have their columns, the others are as they were. */
  ghost predicate AppendedUpTo(live: seq<Row>, was: seq<Row>, i: nat, h: map<int, seq<int>>) {
    |live| == |was| && i <= |live| &&
    (forall k :: 0 <= k < i ==> live[k] == AppendRow(was, was[k], h)) &&
    (forall k :: i <= k < |live| ==> live[k] == was[k])
  }

  /** Giving row i its columns, looked up in the live table, moves the loop one row on. */
  lemma AppendedUpToStep(live: seq<Row>, was: seq<Row>, i: nat, h: map<int, seq<int>>)
    requires AppendedUpTo(live, was, i, h) && i < |live|
    ensures AppendedUpTo(live[i := AppendRow(live, live[i], h)], was, i + 1, h)
  {
    LiveTableSameParent(live, was, i, h, live[i]);
  }

  /** Rows already given their columns keep their ids and names, so the lookup in the live table finds the same parent. */
  lemma LiveTableSameParent(live: seq<Row>, was: seq<Row>, i: nat, h: map<int, seq<int>>, row: Row)
    requires |live| == |was| && i <= |live|
    requires forall k :: 0 <= k < i ==> live[k] == AppendRow(was, was[k], h)
    requires forall k :: i <= k < |live| ==> live[k] == was[k]
    ensures AppendRow(live, row, h) == AppendRow(was, row, h)
  {
    forall k | 0 <= k < |live|
      ensures Cell(live[k], "categoryid") == Cell(was[k], "categoryid")
      ensures Cell(live[k], "categoryname") == Cell(was[k], "categoryname")
    {
      if k < i {
        AppendRowKeepsIdName(was, was[k], h);
      }
    }
    ParentNameSameIds(live, was, row);
  }

  /** `generate_csv(categories_table, categories_hash)`: the non-base columns deleted, then `append_table`. */
  method GenerateCsv(table: array<Row>, h: map<int, seq<int>>)
    modifies table
    ensures var kept := KeepBase(old(table[..]));
      forall i :: 0 <= i < table.Length ==> table[i] == AppendRow(kept, kept[i], h)
  {
    var kept := KeepBase(table[..]);
    for i := 0 to table.Length
      invariant forall k :: 0 <= k < i ==> table[k] == kept[k]
      invariant forall k :: i <= k < table.Length ==> table[k] == old(table[k])
    {
      table[i] := kept[i];
    }
    assert table[..] == kept;
    AppendTable(table, h);
  }
}
