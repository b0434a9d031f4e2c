/**
 * The categoryids field of the products export, shared by combine_categories.rb and
 * combine_categories.py: four-digit ids run together, with commas in the wrong places.
 * Both scripts drop the commas and cut what is left into slices of four characters.
 */
module CategoryIds {
  import opened Strings

  /** `gsub(',', '')`, `[ch for ch in ids if ch != ',']`. */
  function RemoveCommas(s: string): (r: string)
    ensures ',' !in r
    ensures |r| <= |s|
  {
    if s == [] then []
    else RemoveCommas(s[..|s| - 1]) + (if s[|s| - 1] == ',' then [] else [s[|s| - 1]])
  }

  /** Removing commas keeps every other character, in order, and nothing else. */
  lemma {:induction false} RemoveCommasKeeps(s: string)
    ensures |RemoveCommas(s)| == |s| - Occurrences(s, ',')
    ensures forall c :: c != ',' ==> Occurrences(RemoveCommas(s), c) == Occurrences(s, c)
  {
    if s != [] {
      var init := s[..|s| - 1];
      var last := s[|s| - 1];
      RemoveCommasKeeps(init);
      assert s == init + [last];
      OccurrencesAppend(init, [last], ',');
      var kept := if last == ',' then [] else [last];
      forall c | c != ','
        ensures Occurrences(RemoveCommas(s), c) == Occurrences(s, c)
      {
        OccurrencesAppend(RemoveCommas(init), kept, c);
        OccurrencesAppend(init, [last], c);
      }
      OccurrencesAppend(RemoveCommas(init), kept, ',');
      assert Occurrences(kept, ',') == 0;
    }
  }

  lemma {:induction false} RemoveCommasAppend(a: string, b: string)
    ensures RemoveCommas(a + b) == RemoveCommas(a) + RemoveCommas(b)
    decreases |b|
  {
    if b == [] {
      assert a + b == a;
    } else {
      assert (a + b)[..|a + b| - 1] == a + b[..|b| - 1];
      RemoveCommasAppend(a, b[..|b| - 1]);
    }
  }

  lemma {:induction false} RemoveCommasFree(s: string)
    requires ',' !in s
    ensures RemoveCommas(s) == s
  {
    if s != [] {
      RemoveCommasFree(s[..|s| - 1]);
    }
  }

  /** `each_slice(4)`, `range(0, len(chars), 4)`: consecutive slices of four, the last one shorter. */
  function Slices(s: string): (r: seq<string>)
    ensures forall i :: 0 <= i < |r| ==> 1 <= |r[i]| <= 4
    ensures forall i :: 0 <= i < |r| - 1 ==> |r[i]| == 4
    ensures |r| == (|s| + 3) / 4
    decreases |s|
  {
    if s == [] then []
    else if |s| <= 4 then [s]
    else [s[..4]] + Slices(s[4..])
  }

  /** The slices put back together are the string they were cut from. */
  lemma {:induction false} SlicesJoin(s: string)
    ensures Join(Slices(s), "") == s
    decreases |s|
  {
    if |s| > 4 {
      SlicesJoin(s[4..]);
      var rest := Slices(s[4..]);
      assert Slices(s) == [s[..4]] + rest;
      assert |rest| >= 1;
      assert Join(Slices(s), "") == s[..4] + "" + Join(rest, "");
      assert s[..4] + s[4..] == s;
    }
  }

  /** Slice j is the four characters from 4j on, or what is left of them at the end. */
  lemma {:induction false} SlicesAt(s: string, j: nat)
    requires j < |Slices(s)|
    ensures 4 * j < |s|
    ensures Slices(s)[j] == s[4 * j .. if 4 * j + 4 <= |s| then 4 * j + 4 else |s|]
    decreases j
  {
    if j > 0 {
      assert Slices(s) == [s[..4]] + Slices(s[4..]);
      SlicesAt(s[4..], j - 1);
    }
  }

  /** The four-character ids of a categoryids field. */
  function Chunks(ids: string): (r: seq<string>)
    ensures forall i :: 0 <= i < |r| ==> 1 <= |r[i]| <= 4 && ',' !in r[i]
  {
    var r := Slices(RemoveCommas(ids));
    SlicesAvoid(RemoveCommas(ids), ',');
    r
  }

  lemma {:induction false} SlicesAvoid(s: string, c: char)
    requires c !in s
    ensures forall i :: 0 <= i < |Slices(s)| ==> c !in Slices(s)[i]
    decreases |s|
  {
    if |s| > 4 {
      SlicesAvoid(s[4..], c);
      assert Slices(s) == [s[..4]] + Slices(s[4..]);
      forall i | 0 <= i < |Slices(s)|
        ensures c !in Slices(s)[i]
      {
        if i > 0 {
          assert Slices(s)[i] == Slices(s[4..])[i - 1];
        } else {
          assert forall k :: 0 <= k < 4 ==> s[..4][k] == s[k];
        }
      }
    }
  }

  /** `"0123456789"` is cut into "0123", "4567" and "89". */
  lemma SlicesExample()
    ensures Slices("0123456789") == ["0123", "4567", "89"]
  {
    var s := "0123456789";
    assert s[..4] == "0123" && s[4..] == "456789";
    assert "456789"[..4] == "4567" && "456789"[4..] == "89";
    assert Slices("456789") == ["4567"] + Slices("89");
  }

  /**
   * `categories_hash[id]`: the stock statuses listed under an id, [] for an id no product
   * lists (Ruby's default block, Python's `get`).
   */
  function Lookup<K>(h: map<K, seq<int>>, id: K): seq<int> {
    if id in h then h[id] else []
  }

  /** A stock status listed n times, once for every time a product row lists the id. */
  function Copies(n: nat, v: int): (r: seq<int>)
    ensures |r| == n && forall k :: 0 <= k < n ==> r[k] == v
  {
    seq(n, _ => v)
  }

  lemma CopiesSnoc(n: nat, v: int)
    ensures Copies(n, v) + [v] == Copies(n + 1, v)
  {
  }

  /** Appending the stock status for one more id, seen from one key. */
  lemma TallyStep<K>(h: map<K, seq<int>>, before: map<K, seq<int>>, ids: seq<K>, j: nat, v: int, x: K)
    requires j < |ids|
    requires Lookup(h, x) == Lookup(before, x) + Copies(multiset(ids[..j])[x], v)
    ensures Lookup(h[ids[j] := Lookup(h, ids[j]) + [v]], x) == Lookup(before, x) + Copies(multiset(ids[..j + 1])[x], v)
  {
    assert ids[..j + 1] == ids[..j] + [ids[j]];
    if x == ids[j] {
      assert multiset(ids[..j + 1])[x] == multiset(ids[..j])[x] + 1;
      CopiesSnoc(multiset(ids[..j])[x], v);
    } else {
      assert multiset(ids[..j + 1])[x] == multiset(ids[..j])[x];
    }
  }

  /** h after appending v under each of ids in turn, reading an absent list as empty. */
  function Appended<K>(h: map<K, seq<int>>, ids: seq<K>, v: int): map<K, seq<int>> {
    if ids == [] then h
    else
      var m := Appended(h, ids[..|ids| - 1], v);
      m[ids[|ids| - 1] := Lookup(m, ids[|ids| - 1]) + [v]]
  }

  /** Appending under one more id is one more step of Appended. */
  lemma AppendedSnoc<K>(h: map<K, seq<int>>, ids: seq<K>, j: nat, v: int)
    requires j < |ids|
    ensures Appended(h, ids[..j + 1], v) == Appended(h, ids[..j], v)[ids[j] := Lookup(Appended(h, ids[..j], v), ids[j]) + [v]]
  {
    assert ids[..j + 1][..j] == ids[..j];
  }

  /** After the appends, every list is the one before followed by v once per listing of its id. */
  lemma {:induction false} AppendedLookup<K>(h: map<K, seq<int>>, ids: seq<K>, v: int)
    ensures forall x :: Lookup(Appended(h, ids, v), x) == Lookup(h, x) + Copies(multiset(ids)[x], v)
    decreases |ids|
  {
    if ids == [] {
      forall x
        ensures Lookup(h, x) == Lookup(h, x) + Copies(multiset(ids)[x], v)
      {
        assert Copies(0, v) == [];
      }
    } else {
      var j := |ids| - 1;
      AppendedLookup(h, ids[..j], v);
      assert ids[..j + 1] == ids;
      forall x
        ensures Lookup(Appended(h, ids, v), x) == Lookup(h, x) + Copies(multiset(ids)[x], v)
      {
        TallyStep(Appended(h, ids[..j], v), h, ids, j, v, x);
      }
    }
  }

  /** `categories_hash[id].sum`, `sum(categories_hash[id])`. */
  function Sum(s: seq<int>): int {
    if s == [] then 0 else Sum(s[..|s| - 1]) + s[|s| - 1]
  }
}
