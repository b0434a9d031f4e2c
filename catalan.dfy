/**
 * catalan_numbers.py: three ways to the nth Catalan number. The "boxes" method lists the
 * compositions of n (ordered lists of positive parts summing to n) and adds up, over all of
 * them, the product of the counts for each part less one; the path method counts up/down
 * paths that never go below the start; the summation method works from central binomial
 * coefficients.
 */
module Catalan {
  // ----------------------------------------------------------------- compositions

  function PartsSum(c: seq<nat>): nat {
    if c == [] then 0 else PartsSum(c[..|c| - 1]) + c[|c| - 1]
  }

  /** c is a composition of n: positive parts that add up to n. */
  predicate IsComposition(c: seq<nat>, n: nat) {
    (forall j :: 0 <= j < |c| ==> c[j] >= 1) && PartsSum(c) == n
  }

  /** Each list with i put in front. */
  function Prefixed(i: nat, lists: seq<seq<nat>>): (r: seq<seq<nat>>)
    ensures |r| == |lists|
  {
    seq(|lists|, k requires 0 <= k < |lists| => [i] + lists[k])
  }

  /** What get_permutation_lists(n) returns: the compositions of n, by ascending first part. */
  function Compositions(n: nat): seq<seq<nat>>
    decreases n, 1
  {
    if n == 0 then [[]] else Firsts(n, n)
  }

  /** The compositions of n whose first part is at most k, as the outer loop has built them after part k. */
  function Firsts(n: nat, k: nat): seq<seq<nat>>
    requires k <= n
    decreases n, 0, k
  {
    if k == 0 then [] else Firsts(n, k - 1) + Prefixed(k, Compositions(n - k))
  }

  lemma PartsSumCons(i: nat, c: seq<nat>)
    ensures PartsSum([i] + c) == i + PartsSum(c)
    decreases |c|
  {
    if c != [] {
      assert ([i] + c)[..|c|] == [i] + c[..|c| - 1];
      PartsSumCons(i, c[..|c| - 1]);
    }
  }

  /** get_permutation_lists(n) holds exactly the compositions of n. */
  lemma {:induction false} CompositionsMembers(n: nat, c: seq<nat>)
    ensures c in Compositions(n) <==> IsComposition(c, n)
    decreases n, 1
  {
    if n > 0 {
      FirstsMembers(n, n, c);
      if c != [] && IsComposition(c, n) {
        PartBound(c, n, 0);
      }
    }
  }

  lemma {:induction false} FirstsMembers(n: nat, k: nat, c: seq<nat>)
    requires 1 <= n && k <= n
    ensures c in Firsts(n, k) <==> IsComposition(c, n) && c != [] && c[0] <= k
    decreases n, 0, k
  {
    if k > 0 {
      FirstsMembers(n, k - 1, c);
      var rest := Compositions(n - k);
      if c != [] {
        CompositionsMembers(n - k, c[1..]);
        PartsSumCons(c[0], c[1..]);
        assert c == [c[0]] + c[1..];
        if c in Prefixed(k, rest) {
          var j :| 0 <= j < |rest| && Prefixed(k, rest)[j] == c;
          assert c[1..] == rest[j];
        }
        if c[0] == k && c[1..] in rest {
          var j :| 0 <= j < |rest| && rest[j] == c[1..];
          assert Prefixed(k, rest)[j] == c;
        }
      } else {
        assert forall j :: 0 <= j < |rest| ==> Prefixed(k, rest)[j] != [];
      }
    }
  }

  predicate Distinct<T(==)>(s: seq<T>) {
    forall p, q :: 0 <= p < q < |s| ==> s[p] != s[q]
  }

  /** No composition is listed twice. */
  lemma {:induction false} CompositionsDistinct(n: nat)
    ensures Distinct(Compositions(n))
    decreases n, 1
  {
    if n > 0 {
      FirstsDistinct(n, n);
    }
  }

  lemma {:induction false} FirstsDistinct(n: nat, k: nat)
    requires 1 <= n && k <= n
    ensures Distinct(Firsts(n, k))
    decreases n, 0, k
  {
    if k > 0 {
      FirstsDistinct(n, k - 1);
      CompositionsDistinct(n - k);
      var a := Firsts(n, k - 1);
      var rest := Compositions(n - k);
      var b := Prefixed(k, rest);
      forall p | 0 <= p < |a|
        ensures a[p] != [] && a[p][0] < k
      {
        FirstsMembers(n, k - 1, a[p]);
      }
      forall p, q | 0 <= p < q < |b|
        ensures b[p] != b[q]
      {
        assert b[p][1..] == rest[p] && b[q][1..] == rest[q];
      }
      var s := a + b;
      forall p, q | 0 <= p < q < |s|
        ensures s[p] != s[q]
      {
        if q >= |a| && p < |a| {
          assert s[q][0] == k;
        } else if p >= |a| {
          assert s[p] == b[p - |a|] && s[q] == b[q - |a|];
        }
      }
    }
  }

  /** Every list is nonempty and the first parts never decrease along the sequence. */
  predicate FirstPartsAscending(lists: seq<seq<nat>>) {
    (forall p :: 0 <= p < |lists| ==> lists[p] != [])
    && forall p, q :: 0 <= p < q < |lists| ==> lists[p][0] <= lists[q][0]
  }

  /** The compositions come grouped by first part, in ascending order. */
  lemma {:induction false} CompositionsAscending(n: nat)
    requires n >= 1
    ensures FirstPartsAscending(Compositions(n))
  {
    var cs := Compositions(n);
    assert cs == Firsts(n, n);
    forall p | 0 <= p < |cs|
      ensures cs[p] != []
    {
      FirstsMembers(n, n, cs[p]);
    }
    forall p, q | 0 <= p < q < |cs|
      ensures cs[p][0] <= cs[q][0]
    {
      FirstsAscending(n, n, p, q);
    }
  }

  lemma {:induction false} FirstsAscending(n: nat, k: nat, p: nat, q: nat)
    requires 1 <= n && k <= n && p < q < |Firsts(n, k)|
    ensures Firsts(n, k)[p] != [] && Firsts(n, k)[q] != [] && Firsts(n, k)[p][0] <= Firsts(n, k)[q][0]
    decreases k
  {
    var a := Firsts(n, k - 1);
    var s := Firsts(n, k);
    FirstsMembers(n, k, s[p]);
    FirstsMembers(n, k, s[q]);
    if q < |a| {
      FirstsAscending(n, k - 1, p, q);
    } else if p < |a| {
      FirstsMembers(n, k - 1, a[p]);
    }
  }

  function Pow2(e: nat): (r: nat) {
    if e == 0 then 1 else 2 * Pow2(e - 1)
  }

  /** There are 2^(n-1) compositions of n >= 1. */
  lemma {:induction false} CompositionsCount(n: nat)
    requires n >= 1
    ensures |Compositions(n)| == Pow2(n - 1)
    decreases n, 1
  {
    FirstsCount(n, n);
  }

  /** Those with first part at most k: all of them but the 2^(n-1-k) with a larger first part. */
  lemma {:induction false} FirstsCount(n: nat, k: nat)
    requires 1 <= n && k <= n
    ensures k < n ==> |Firsts(n, k)| + Pow2(n - 1 - k) == Pow2(n - 1)
    ensures k == n ==> |Firsts(n, k)| == Pow2(n - 1)
    decreases n, 0, k
  {
    if k > 0 {
      FirstsCount(n, k - 1);
      if n - k >= 1 {
        CompositionsCount(n - k);
      }
    }
  }

  // ----------------------------------------------------------------- Catalan numbers

  /** C(0) = 1 and C(n) = C(0) C(n-1) + C(1) C(n-2) + ... + C(n-1) C(0). */
  function Catalan(n: nat): nat
    decreases n, 1
  {
    if n == 0 then 1 else CatalanSum(n, n)
  }

  /** C(0) C(n-1) + ... + C(k-1) C(n-k). */
  function CatalanSum(n: nat, k: nat): nat
    requires k <= n
    decreases n, 0, k
  {
    if k == 0 then 0 else CatalanSum(n, k - 1) + Catalan(k - 1) * Catalan(n - k)
  }

  lemma CatalanValues()
    ensures Catalan(0) == 1 && Catalan(1) == 1 && Catalan(2) == 2 && Catalan(3) == 5
    ensures Catalan(4) == 14 && Catalan(5) == 42 && Catalan(6) == 132
  {
  }

  // ----------------------------------------------------------------- get_total_for_n

  /** The product, over the parts of a composition, of the count for the part less one. */
  function Weight(c: seq<nat>): nat
    requires forall j :: 0 <= j < |c| ==> c[j] >= 1
  {
    if c == [] then 1 else Weight(c[..|c| - 1]) * Catalan(c[|c| - 1] - 1)
  }

  predicate PositiveParts(lists: seq<seq<nat>>) {
    forall k, j :: 0 <= k < |lists| && 0 <= j < |lists[k]| ==> lists[k][j] >= 1
  }

  function WeightSum(lists: seq<seq<nat>>): nat
    requires PositiveParts(lists)
  {
    if lists == [] then 0 else WeightSum(lists[..|lists| - 1]) + Weight(lists[|lists| - 1])
  }

  lemma CompositionsPositive(n: nat)
    ensures PositiveParts(Compositions(n))
  {
    forall k | 0 <= k < |Compositions(n)|
      ensures forall j :: 0 <= j < |Compositions(n)[k]| ==> Compositions(n)[k][j] >= 1
    {
      CompositionsMembers(n, Compositions(n)[k]);
    }
  }

  lemma {:induction false} WeightCons(i: nat, c: seq<nat>)
    requires i >= 1 && forall j :: 0 <= j < |c| ==> c[j] >= 1
    ensures Weight([i] + c) == Catalan(i - 1) * Weight(c)
    decreases |c|
  {
    if c != [] {
      var front := c[..|c| - 1];
      var k := Catalan(c[|c| - 1] - 1);
      assert ([i] + c)[..|c|] == [i] + front;
      assert Weight([i] + c) == Weight([i] + front) * k;
      assert Weight(c) == Weight(front) * k;
      WeightCons(i, front);
      Associate(Catalan(i - 1), Weight(front), k);
    }
  }

  lemma Associate(x: int, y: int, z: int)
    ensures (x * y) * z == x * (y * z)
  {
  }

  lemma {:induction false} WeightSumAppend(a: seq<seq<nat>>, b: seq<seq<nat>>)
    requires PositiveParts(a) && PositiveParts(b)
    ensures PositiveParts(a + b) && WeightSum(a + b) == WeightSum(a) + WeightSum(b)
    decreases |b|
  {
    if b != [] {
      assert (a + b)[..|a + b| - 1] == a + b[..|b| - 1];
      WeightSumAppend(a, b[..|b| - 1]);
    } else {
      assert a + b == a;
    }
  }

  lemma {:induction false} WeightSumPrefixed(i: nat, lists: seq<seq<nat>>)
    requires i >= 1 && PositiveParts(lists)
    ensures PositiveParts(Prefixed(i, lists)) && WeightSum(Prefixed(i, lists)) == Catalan(i - 1) * WeightSum(lists)
    decreases |lists|
  {
    var p := Prefixed(i, lists);
    PrefixedPositive(i, lists);
    if lists != [] {
      var n := |lists|;
      var c := Catalan(i - 1);
      var last := lists[n - 1];
      assert p[..n - 1] == Prefixed(i, lists[..n - 1]);
      assert p[n - 1] == [i] + last;
      WeightSumPrefixed(i, lists[..n - 1]);
      WeightCons(i, last);
      assert WeightSum(p) == c * WeightSum(lists[..n - 1]) + c * Weight(last);
      Distribute(c, WeightSum(lists[..n - 1]), Weight(last));
    }
  }

  lemma PrefixedPositive(i: nat, lists: seq<seq<nat>>)
    requires i >= 1 && PositiveParts(lists)
    ensures PositiveParts(Prefixed(i, lists))
  {
    var p := Prefixed(i, lists);
    forall k, j | 0 <= k < |p| && 0 <= j < |p[k]|
      ensures p[k][j] >= 1
    {
      assert p[k] == [i] + lists[k];
      if j > 0 {
        assert p[k][j] == lists[k][j - 1];
      }
    }
  }

  lemma Distribute(c: nat, x: nat, y: nat)
    ensures c * x + c * y == c * (x + y)
  {
  }

  /** Summing the weights of all compositions of n gives the nth Catalan number. */
  lemma {:induction false} BoxesAreCatalan(n: nat)
    ensures PositiveParts(Compositions(n)) && WeightSum(Compositions(n)) == Catalan(n)
    decreases n, 1
  {
    CompositionsPositive(n);
    if n == 0 {
      assert Compositions(0)[..0] == [];
    } else {
      FirstsWeigh(n, n);
    }
  }

  lemma {:induction false} FirstsWeigh(n: nat, k: nat)
    requires 1 <= n && k <= n
    ensures PositiveParts(Firsts(n, k)) && WeightSum(Firsts(n, k)) == CatalanSum(n, k)
    decreases n, 0, k
  {
    if k > 0 {
      FirstsWeigh(n, k - 1);
      BoxesAreCatalan(n - k);
      FirstsWeighStep(n, k);
    } else {
      assert Firsts(n, k) == [];
    }
  }

  /** The step of FirstsWeigh: the compositions starting with k add Catalan(k - 1) * Catalan(n - k). */
  lemma FirstsWeighStep(n: nat, k: nat)
    requires 1 <= k <= n
    requires PositiveParts(Firsts(n, k - 1)) && WeightSum(Firsts(n, k - 1)) == CatalanSum(n, k - 1)
    requires PositiveParts(Compositions(n - k)) && WeightSum(Compositions(n - k)) == Catalan(n - k)
    ensures PositiveParts(Firsts(n, k)) && WeightSum(Firsts(n, k)) == CatalanSum(n, k)
  {
    var a := Firsts(n, k - 1);
    var rest := Compositions(n - k);
    var b := Prefixed(k, rest);
    assert Firsts(n, k) == a + b;
    WeightSumPrefixed(k, rest);
    WeightSumAppend(a, b);
  }

  /** get_permutation_lists: for each first part i, i put before every composition of n - i. */
  method GetPermutationLists(n: nat) returns (lists: seq<seq<nat>>)
    ensures lists == Compositions(n)
    decreases n
  {
    if n == 0 {
      return [[]];
    }
    lists := [];
    for i := 1 to n + 1
      invariant lists == Firsts(n, i - 1)
    {
      var appendLists := GetPermutationLists(n - i);
      lists := AppendPrefixed(lists, i, appendLists);
    }
  }

  /** The inner loop of get_permutation_lists: `[i] + l` appended for each l of appendLists. */
  method AppendPrefixed(lists: seq<seq<nat>>, i: nat, appendLists: seq<seq<nat>>) returns (r: seq<seq<nat>>)
    ensures r == lists + Prefixed(i, appendLists)
  {
    var newList := [i];
    r := lists;
    for k := 0 to |appendLists|
      invariant r == lists + Prefixed(i, appendLists[..k])
    {
      assert Prefixed(i, appendLists[..k + 1]) == Prefixed(i, appendLists[..k]) + [newList + appendLists[k]];
      r := r + [newList + appendLists[k]];
    }
    assert appendLists[..|appendLists|] == appendLists;
  }

  /** get_total_for_n: the boxes method, which computes the nth Catalan number. */
  method GetTotalForN(n: nat) returns (total: nat)
    ensures total == Catalan(n)
    decreases n, 1
  {
    if n == 0 {
      return 1;
    }
    total := 0;
    var lists := GetPermutationLists(n);
    CompositionsPositive(n);
    for k := 0 to |lists|
      invariant total == WeightSum(lists[..k])
    {
      CompositionsMembers(n, lists[k]);
      var add := BoxProduct(lists[k], n);
      WeightSumSnoc(lists, k);
      total := total + add;
    }
    assert lists[..|lists|] == lists;
    BoxesAreCatalan(n);
  }

  /** The inner loop of get_total_for_n: the product of the totals for each box of one composition. */
  method BoxProduct(list: seq<nat>, n: nat) returns (add: nat)
    requires IsComposition(list, n)
    ensures add == Weight(list)
    decreases n, 0
  {
    add := 1;
    for j := 0 to |list|
      invariant add == Weight(list[..j])
    {
      PartBound(list, n, j);
      var count := GetTotalForN(list[j] - 1);
      WeightSnoc(list, j);
      add := add * count;
    }
    assert list[..|list|] == list;
  }

  lemma WeightSnoc(c: seq<nat>, j: nat)
    requires j < |c| && forall i :: 0 <= i < |c| ==> c[i] >= 1
    ensures Weight(c[..j + 1]) == Weight(c[..j]) * Catalan(c[j] - 1)
  {
    assert c[..j + 1][..j] == c[..j];
  }

  lemma WeightSumSnoc(lists: seq<seq<nat>>, k: nat)
    requires k < |lists| && PositiveParts(lists)
    ensures WeightSum(lists[..k + 1]) == WeightSum(lists[..k]) + Weight(lists[k])
  {
    assert lists[..k + 1][..k] == lists[..k];
  }

  /** No part of a composition of n exceeds n. */
  lemma PartBound(c: seq<nat>, n: nat, j: nat)
    requires IsComposition(c, n) && j < |c|
    ensures 1 <= c[j] <= n
  {
    PartsSplit(c, j);
  }

  lemma {:induction false} PartsSplit(c: seq<nat>, j: nat)
    requires j < |c|
    ensures PartsSum(c) >= c[j]
  {
    if j < |c| - 1 {
      assert c[..|c| - 1][j] == c[j];
      PartsSplit(c[..|c| - 1], j);
    }
  }

  // ----------------------------------------------------------------- get_paths_for_n_recursive

  /**
   * get_paths_for_n_recursive as written: without a case that returns 1, every call adds up
   * zeros.
   */
  function PathsAsWritten(plus: nat, minus: nat, height: nat): nat
    decreases plus + minus
  {
    (if plus > 0 then PathsAsWritten(plus - 1, minus, height + 1) else 0)
    + (if minus > 0 && height > 0 then PathsAsWritten(plus, minus - 1, height - 1) else 0)
  }

  lemma {:induction false} PathsAsWrittenZero(plus: nat, minus: nat, height: nat)
    ensures PathsAsWritten(plus, minus, height) == 0
    decreases plus + minus
  {
    if plus > 0 {
      PathsAsWrittenZero(plus - 1, minus, height + 1);
    }
    if minus > 0 && height > 0 {
      PathsAsWrittenZero(plus, minus - 1, height - 1);
    }
  }

  /**
   * The intended count: a path that has used every step counts once. Counts the orders of
   * `plus` up-steps and `minus` down-steps from `height` that never go below zero.
   */
  function Paths(plus: nat, minus: nat, height: nat): nat
    decreases plus + minus
  {
    if plus == 0 && minus == 0 then 1
    else
      (if plus > 0 then Paths(plus - 1, minus, height + 1) else 0)
      + (if minus > 0 && height > 0 then Paths(plus, minus - 1, height - 1) else 0)
  }

  /** Some path exists exactly when the down-steps never have to go below zero. */
  lemma {:induction false} PathsExist(plus: nat, minus: nat, height: nat)
    ensures Paths(plus, minus, height) > 0 <==> minus <= height + plus
    decreases plus + minus
  {
    if plus > 0 {
      PathsExist(plus - 1, minus, height + 1);
    }
    if minus > 0 && height > 0 {
      PathsExist(plus, minus - 1, height - 1);
    }
  }

  /** get_paths_for_n, with the base case, gives the Catalan numbers printed for n = 1 to 6. */
  lemma PathsAreCatalan()
    ensures forall n :: 0 <= n <= 6 ==> Paths(n, n, 0) == Catalan(n)
  {
    CatalanValues();
    assert Paths(0, 0, 0) == 1;
    assert Paths(1, 1, 0) == 1;
    assert Paths(2, 2, 0) == 2;
    assert Paths(3, 3, 0) == 5;
    assert Paths(4, 4, 0) == 14;
    assert Paths(5, 5, 0) == 42;
    assert Paths(6, 6, 0) == 132;
  }
  // ----------------------------------------------------------------- summation_equation

  function Factorial(n: nat): (r: nat) {
    if n == 0 then 1 else n * Factorial(n - 1)
  }

  lemma FactorialPositive(n: nat)
    ensures Factorial(n) >= 1
  {
  }

  /** The central binomial coefficient (2i)! // (i!)^2. */
  function Central(i: nat): int {
    FactorialPositive(i);
    Factorial(2 * i) / (Factorial(i) * Factorial(i))
  }

  /** The coefficient (2j-1)! // (j! (j-1)!) of the term for j >= 1. */
  function Coefficient(j: nat): int
    requires j >= 1
  {
    FactorialPositive(j);
    FactorialPositive(j - 1);
    Factorial(2 * j - 1) / (Factorial(j) * Factorial(j - 1))
  }

  /** sums[i-1] * Coefficient(1) + ... + sums[i-k] * Coefficient(k). */
  function Subtrahend(sums: seq<int>, i: nat, k: nat): int
    requires k <= i <= |sums|
  {
    if k == 0 then 0 else Subtrahend(sums, i, k - 1) + sums[i - k] * Coefficient(k)
  }

  /** The list summation_equation(n) builds: [1, 1], then one value for each i from 2 to n. */
  function Summation(n: int): (sums: seq<int>)
    ensures |sums| == if n < 2 then 2 else n + 1
    ensures sums[0] == 1 && sums[1] == 1
    decreases n
  {
    if n < 2 then [1, 1]
    else
      var before := Summation(n - 1);
      before + [Central(n) - Subtrahend(before, n, n)]
  }

  lemma CoefficientValues()
    ensures Central(2) == 6 && Central(3) == 20 && Central(4) == 70 && Central(5) == 252 && Central(6) == 924
    ensures Coefficient(1) == 1 && Coefficient(2) == 3 && Coefficient(3) == 10
    ensures Coefficient(4) == 35 && Coefficient(5) == 126 && Coefficient(6) == 462
  {
    assert Factorial(6) == 720;
    assert Factorial(12) == 479001600;
  }

  lemma SummationStep(n: nat, before: seq<int>, next: int)
    requires n >= 2 && before == Summation(n - 1) && Central(n) - Subtrahend(before, n, n) == next
    ensures Summation(n) == before + [next]
  {
  }

  /** The list summation_equation builds for n = 6. */
  lemma SummationValues()
    ensures Summation(6) == [1, 1, 2, 5, 14, 42, 132]
  {
    CoefficientValues();
    assert Subtrahend([1, 1], 2, 2) == 4;
    assert Subtrahend([1, 1, 2], 3, 3) == 15;
    assert Subtrahend([1, 1, 2, 5], 4, 4) == 56;
    assert Subtrahend([1, 1, 2, 5, 14], 5, 5) == 210;
    assert Subtrahend([1, 1, 2, 5, 14, 42], 6, 6) == 792;
    // Stepping through a variable keeps the verifier from expanding Summation(6) all at once.
    var n := 2;
    SummationStep(n, [1, 1], 2);
    n := n + 1;
    SummationStep(n, [1, 1, 2], 5);
    n := n + 1;
    SummationStep(n, [1, 1, 2, 5], 14);
    n := n + 1;
    SummationStep(n, [1, 1, 2, 5, 14], 42);
    n := n + 1;
    SummationStep(n, [1, 1, 2, 5, 14, 42], 132);
  }

  /** Each value of summation_equation up to n = 6 is the Catalan number with its index. */
  lemma SummationIsCatalan()
    ensures |Summation(6)| == 7
    ensures forall i :: 0 <= i < 7 ==> Summation(6)[i] == Catalan(i)
  {
    SummationValues();
    CatalanValues();
  }

  /** summation_equation, returning the list it builds instead of printing it. */
  method SummationEquation(n: int) returns (sums: seq<int>)
    ensures sums == Summation(n)
  {
    sums := [1, 1];
    var i := 2;
    while i <= n
      invariant 2 <= i <= if n >= 2 then n + 1 else 2
      invariant sums == Summation(i - 1)
    {
      var sum := Central(i);
      for j := 1 to i + 1
        invariant sum == Central(i) - Subtrahend(sums, i, j - 1)
      {
        sum := sum - sums[i - j] * Coefficient(j);
      }
      sums := sums + [sum];
      i := i + 1;
    }
  }
}
