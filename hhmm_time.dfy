/**
 * time.rb: a running total of hours and minutes, fed with HHMM numbers (130 is one hour
 * and thirty minutes) and shown as H:MM. Ruby's Integer / and % round toward negative
 * infinity; with the positive divisors used here that is Dafny's / and %.
 */
module HhmmTime {
  import opened Wrappers
  import opened Strings
  import opened Decimal

  /** The minutes an HHMM number stands for: hours in the hundreds and up, minutes below. */
  function Duration(hhmm: int): int {
    60 * (hhmm / 100) + hhmm % 100
  }

  /** The (hours, minutes) that `add(other)` leaves: minutes stay below 60 and the total grows by the duration. */
  function Added(hours: int, minutes: int, other: int): (r: (int, int))
    ensures 0 <= r.1 < 60
    ensures 60 * r.0 + r.1 == 60 * hours + minutes + Duration(other)
  {
    (hours + other / 100 + (minutes + other % 100) / 60, (minutes + other % 100) % 60)
  }

  /**
   * The (hours, minutes) that `subtract(other)` leaves as written. When the minutes must borrow
   * from the hours, the borrowed hour is added instead of taken away, so the total ends up two
   * hours too high (four when more than 60 minutes are borrowed).
   */
  function SubtractedAsWritten(hours: int, minutes: int, other: int): (r: (int, int))
    requires 0 <= minutes < 60
    ensures 0 <= r.1 < 60
    ensures 60 * r.0 + r.1 == 60 * hours + minutes - Duration(other)
      + (if minutes >= other % 100 then 0 else if minutes - other % 100 >= -60 then 120 else 240)
  {
    (hours - (other / 100 + (minutes - other % 100) / 60), (minutes - other % 100) % 60)
  }

  /** `subtract(other)` with the borrow taken from the hours: the total shrinks by the duration. */
  function Subtracted(hours: int, minutes: int, other: int): (r: (int, int))
    ensures 0 <= r.1 < 60
    ensures 60 * r.0 + r.1 == 60 * hours + minutes - Duration(other)
  {
    (hours - other / 100 + (minutes - other % 100) / 60, (minutes - other % 100) % 60)
  }

  /** 1:10 minus 20 minutes is 2:50 as written; 0:50 is meant. */
  lemma SubtractBorrowAddsHours()
    ensures SubtractedAsWritten(1, 10, 20) == (2, 50)
    ensures Subtracted(1, 10, 20) == (0, 50)
  {
  }

  /** The two agree exactly when no minutes are borrowed. */
  lemma SubtractAgreesWithoutBorrow(hours: int, minutes: int, other: int)
    requires 0 <= minutes < 60
    ensures SubtractedAsWritten(hours, minutes, other) == Subtracted(hours, minutes, other) <==> minutes >= other % 100
  {
  }

  /** Subtracting what was just added restores the time. */
  lemma SubtractUndoesAdd(hours: int, minutes: int, other: int)
    requires 0 <= minutes < 60
    ensures var a := Added(hours, minutes, other); Subtracted(a.0, a.1, other) == (hours, minutes)
  {
    var a := Added(hours, minutes, other);
    var s := Subtracted(a.0, a.1, other);
    assert 60 * s.0 + s.1 == 60 * hours + minutes;
    TimeFromTotal(s.0, s.1, hours, minutes);
  }

  /** Minutes below 60 make the (hours, minutes) pair a function of the total. */
  lemma TimeFromTotal(h1: int, m1: int, h2: int, m2: int)
    requires 0 <= m1 < 60 && 0 <= m2 < 60 && 60 * h1 + m1 == 60 * h2 + m2
    ensures h1 == h2 && m1 == m2
  {
    var d := h1 - h2;
    assert 60 * d == m2 - m1;
    assert -1 < d < 1;
  }

  /** The minutes as two digits, `minutes.to_s.rjust(2, '0')`. */
  function TwoDigits(minutes: nat): string
    requires minutes < 60
  {
    var s := NatToString(minutes);
    if |s| < 2 then "0" + s else s
  }

  /** `inspect`: hours, a colon, then the minutes as two digits. */
  function Render(hours: int, minutes: int): string
    requires 0 <= minutes < 60
  {
    IntToString(hours) + ":" + TwoDigits(minutes)
  }

  /** What `Time.adds(list)` accumulates: `add` applied to each number in turn, from 0:00. */
  function AddAll(others: seq<int>): (int, int) {
    if others == [] then (0, 0)
    else
      var before := AddAll(others[..|others| - 1]);
      Added(before.0, before.1, others[|others| - 1])
  }

  lemma AddAllSnoc(others: seq<int>, i: nat)
    requires i < |others|
    ensures AddAll(others[..i + 1]) == Added(AddAll(others[..i]).0, AddAll(others[..i]).1, others[i])
  {
    assert others[..i + 1][..i] == others[..i];
  }

  lemma TakeAll(s: seq<int>)
    ensures s[..|s|] == s
  {
  }

  function TotalDuration(others: seq<int>): int {
    if others == [] then 0 else TotalDuration(others[..|others| - 1]) + Duration(others[|others| - 1])
  }

  /** The accumulated time is the sum of the durations, with minutes below 60. */
  lemma {:induction false} AddAllTotal(others: seq<int>)
    ensures 0 <= AddAll(others).1 < 60
    ensures 60 * AddAll(others).0 + AddAll(others).1 == TotalDuration(others)
  {
    if others != [] {
      AddAllTotal(others[..|others| - 1]);
    }
  }

  /** The rendering reads back: the part before the colon is the hours, the two digits after it the minutes. */
  lemma RenderReadsBack(hours: int, minutes: int)
    requires 0 <= minutes < 60
    ensures var parts := Split(Render(hours, minutes), ':');
      && |parts| == 2 && ParseInt(parts[0]) == Some(hours)
      && |parts[1]| == 2 && AllDigits(parts[1]) && ParseNat(parts[1]) == minutes
  {
    var h := IntToString(hours);
    var m := TwoDigits(minutes);
    NoColon(h);
    NoColon(m);
    SplitPair(h, m, ':');
    ParseIntToString(hours);
    ParseNatToString(minutes);
    if minutes < 10 {
      assert m[..1] == "0";
    }
  }

  lemma NoColon(s: string)
    requires AllDigits(s) || (|s| >= 1 && s[0] == '-' && AllDigits(s[1..]))
    ensures ':' !in s
  {
    forall i | 0 <= i < |s|
      ensures s[i] != ':'
    {
      if 0 < i && !AllDigits(s) {
        assert s[i] == s[1..][i - 1];
      }
    }
  }

  lemma SplitPair(a: string, b: string, sep: char)
    requires sep !in a && sep !in b
    ensures Split(a + [sep] + b, sep) == [a, b]
  {
    var s := a + [sep] + b;
    assert s[|a|] == sep;
    assert forall i :: 0 <= i < |a| ==> s[i] == a[i];
    var k := FirstIndex(s, sep);
    assert forall i :: 0 <= i < k ==> s[..k][i] == s[i];
    assert k == |a|;
    assert s[..k] == a && s[k + 1..] == b;
  }

  /** time.rb's Time: the hours and the minutes of a running total. */
  class Time {
    var hours: int
    var minutes: int

    predicate Valid()
      reads this
    {
      0 <= minutes < 60
    }

    /** `inspect`. */
    function Inspect(): string
      requires Valid()
      reads this
    {
      Render(hours, minutes)
    }

    /** `Time.new(start_time)`: 0:00 followed by `add(start_time)`, so the total is the start's duration. */
    constructor (startTime: int)
      ensures Valid() && 60 * hours + minutes == Duration(startTime)
    {
      hours := 0;
      minutes := 0;
      new;
      var _ := Add(startTime);
    }

    /** `add(other)`: returns the new time as shown by inspect. */
    method Add(other: int) returns (shown: string)
      requires Valid()
      modifies this
      ensures Valid() && (hours, minutes) == Added(old(hours), old(minutes), other)
      ensures shown == Inspect()
    {
      hours, minutes := hours + other / 100 + (minutes + other % 100) / 60, (minutes + other % 100) % 60;
      shown := Inspect();
    }

    /** `subtract(other)` as written. */
    method SubtractAsWritten(other: int) returns (shown: string)
      requires Valid()
      modifies this
      ensures Valid() && (hours, minutes) == SubtractedAsWritten(old(hours), old(minutes), other)
      ensures shown == Inspect()
    {
      hours, minutes := hours - (other / 100 + (minutes - other % 100) / 60), (minutes - other % 100) % 60;
      shown := Inspect();
    }

    /** `subtract(other)` with the borrow taken from the hours. */
    method Subtract(other: int) returns (shown: string)
      requires Valid()
      modifies this
      ensures Valid() && (hours, minutes) == Subtracted(old(hours), old(minutes), other)
      ensures shown == Inspect()
    {
      hours, minutes := hours - other / 100 + (minutes - other % 100) / 60, (minutes - other % 100) % 60;
      shown := Inspect();
    }

    /** `Time.adds(others)`: the rendering of the sum of the durations. */
    static method Adds(others: seq<int>) returns (shown: string)
      ensures 0 <= AddAll(others).1 < 60
      ensures shown == Render(AddAll(others).0, AddAll(others).1)
    {
      var temp := new Time(0);
      TimeFromTotal(temp.hours, temp.minutes, 0, 0);
      assert others[..0] == [];
      for i := 0 to |others|
        invariant temp.Valid() && (temp.hours, temp.minutes) == AddAll(others[..i])
      {
        AddAllSnoc(others, i);
        var _ := temp.Add(others[i]);
      }
      TakeAll(others);
      shown := temp.Inspect();
    }
  }
}
