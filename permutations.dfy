/**
 * The permutation routines of `bsym/permutations.py`:
 *  - `UniquePermutations` / `UniquePermutationHelper`: every distinct
 *    rearrangement of a list that may hold repeated labels, by backtracking
 *    over one remaining-occurrence counter per distinct label;
 *  - `OccupationList` / `AllPermutations`: expand a label -> count table into
 *    an occupation list and collect all of its distinct rearrangements;
 *  - `NextPermutation`: the in-place step to the lexicographically next
 *    arrangement.
 */
module Permutations {
  import opened Wrappers
  import opened Sequences

  // ---------------------------------------------------------------------
  // Counting
  // ---------------------------------------------------------------------

  function Factorial(n: nat): (r: nat)
    ensures r >= 1
  {
    if n == 0 then 1 else n * Factorial(n - 1)
  }

  /** The sum of a sequence of counts. */
  function Sum(s: seq<nat>): nat {
    if s == [] then 0 else Sum(s[..|s| - 1]) + s[|s| - 1]
  }

  /** The product of the factorials of a sequence of counts. */
  function FactorialProduct(s: seq<nat>): (r: nat)
    ensures r >= 1
  {
    if s == [] then 1 else FactorialProduct(s[..|s| - 1]) * Factorial(s[|s| - 1])
  }

  lemma {:induction false} SumOfPrefix(s: seq<nat>, i: nat)
    requires i < |s|
    ensures Sum(s[..i + 1]) == Sum(s[..i]) + s[i]
  {
    assert s[..i + 1][..i] == s[..i];
  }

  lemma {:induction false} SumDecrement(s: seq<nat>, i: nat)
    requires i < |s| && s[i] > 0
    ensures Sum(s[i := s[i] - 1]) == Sum(s) - 1
  {
    var n := |s|;
    if i < n - 1 {
      assert s[i := s[i] - 1][..n - 1] == s[..n - 1][i := s[i] - 1];
      SumDecrement(s[..n - 1], i);
    } else {
      assert s[i := s[i] - 1][..n - 1] == s[..n - 1];
    }
  }

  /** Taking one away from a count divides the product of factorials by that count. */
  lemma {:induction false} FactorialProductDecrement(s: seq<nat>, i: nat)
    requires i < |s| && s[i] > 0
    ensures FactorialProduct(s) == s[i] * FactorialProduct(s[i := s[i] - 1])
  {
    var n := |s|;
    var s' := s[i := s[i] - 1];
    var c := s[i];
    if i < n - 1 {
      assert s'[..n - 1] == s[..n - 1][i := s[i] - 1];
      FactorialProductDecrement(s[..n - 1], i);
      var a, a', f := FactorialProduct(s[..n - 1]), FactorialProduct(s'[..n - 1]), Factorial(s[n - 1]);
      assert FactorialProduct(s) == a * f;
      assert FactorialProduct(s') == a' * f;
      assert a == c * a';
      MulAssociative(c, a', f);
    } else {
      assert s'[..n - 1] == s[..n - 1];
      var a, f' := FactorialProduct(s[..n - 1]), Factorial(c - 1);
      assert Factorial(c) == c * f';
      assert FactorialProduct(s) == a * Factorial(c);
      assert FactorialProduct(s') == a * f';
      MulAssociative(a, c, f');
      MulAssociative(c, a, f');
    }
  }

  /**
   * The number of distinct arrangements of the multiset with these counts,
   * by the recurrence the backtracking follows: choose the label of the
   * last free position, then arrange the rest.
   */
  function Multinomial(counts: seq<nat>): nat
    decreases Sum(counts), 1
  {
    if Sum(counts) == 0 then 1 else Arrangements(counts, |counts|)
  }

  /** The arrangements whose last free position holds one of the first `i` labels. */
  function Arrangements(counts: seq<nat>, i: nat): nat
    requires i <= |counts|
    decreases Sum(counts), 0, i
  {
    if i == 0 then 0
    else if counts[i - 1] == 0 then Arrangements(counts, i - 1)
    else
      SumDecrement(counts, i - 1);
      Arrangements(counts, i - 1) + Multinomial(counts[i - 1 := counts[i - 1] - 1])
  }

  /** The multinomial coefficient: `Multinomial(c) == (sum c)! / (c1! * ... * ck!)`. */
  lemma {:induction false} MultinomialFormula(counts: seq<nat>)
    ensures Multinomial(counts) * FactorialProduct(counts) == Factorial(Sum(counts))
    decreases Sum(counts), 1
  {
    if Sum(counts) == 0 {
      FactorialProductOfZeros(counts);
    } else {
      ArrangementsFormula(counts, |counts|);
      assert counts[..|counts|] == counts;
      var s := Sum(counts);
      assert Factorial(s) == s * Factorial(s - 1);
    }
  }

  lemma {:induction false} ArrangementsFormula(counts: seq<nat>, i: nat)
    requires i <= |counts| && Sum(counts) > 0
    ensures Arrangements(counts, i) * FactorialProduct(counts) == Factorial(Sum(counts) - 1) * Sum(counts[..i])
    decreases Sum(counts), 0, i
  {
    if i > 0 {
      ArrangementsFormula(counts, i - 1);
      SumOfPrefix(counts, i - 1);
      var c := counts[i - 1];
      var a, fp, f, sumBefore := Arrangements(counts, i - 1), FactorialProduct(counts), Factorial(Sum(counts) - 1), Sum(counts[..i - 1]);
      if c > 0 {
        var counts' := counts[i - 1 := c - 1];
        SumDecrement(counts, i - 1);
        MultinomialFormula(counts');
        FactorialProductDecrement(counts, i - 1);
        CountStep(a, Multinomial(counts'), fp, FactorialProduct(counts'), c, f, sumBefore);
      }
    }
  }

  /** One more label's worth of arrangements, weighted by the factorial product. */
  lemma CountStep(o: nat, sub: nat, fp: nat, fp': nat, c: nat, f: nat, sumBefore: nat)
    requires o * fp == f * sumBefore && sub * fp' == f && fp == c * fp'
    ensures (o + sub) * fp == f * (sumBefore + c)
  {
    calc {
      (o + sub) * fp;
      o * fp + sub * fp;
      { MulAssociative(sub, c, fp'); }
      f * sumBefore + c * (sub * fp');
      f * sumBefore + c * f;
    }
  }

  lemma MulAssociative(x: int, y: int, z: int)
    ensures (x * y) * z == x * (y * z) && x * (y * z) == y * (x * z)
  {
  }

  lemma {:induction false} FactorialProductOfZeros(s: seq<nat>)
    requires Sum(s) == 0
    ensures FactorialProduct(s) == 1
  {
    if s != [] {
      FactorialProductOfZeros(s[..|s| - 1]);
    }
  }

  // ---------------------------------------------------------------------
  // Multisets described by (value, count) tables
  // ---------------------------------------------------------------------

  /** Python's `[x] * n`: `n` copies of `x`, and no copy when `n <= 0`. */
  function Repeat(x: int, n: int): (r: seq<int>)
    ensures |r| == if n <= 0 then 0 else n
    ensures forall i :: 0 <= i < |r| ==> r[i] == x
  {
    if n <= 0 then [] else [x] + Repeat(x, n - 1)
  }

  lemma {:induction false} RepeatMultiset(x: int, n: int, y: int)
    ensures multiset(Repeat(x, n))[y] == if y == x && n > 0 then n else 0
  {
    if n > 0 {
      RepeatMultiset(x, n - 1, y);
      assert multiset(Repeat(x, n)) == multiset{x} + multiset(Repeat(x, n - 1));
    }
  }

  /** The multiset holding `counts[i]` copies of `values[i]` for every `i`. */
  ghost function Bag(values: seq<int>, counts: seq<nat>): multiset<int>
    requires |values| == |counts|
  {
    if values == [] then multiset{}
    else
      var n := |values|;
      Bag(values[..n - 1], counts[..n - 1]) + multiset(Repeat(values[n - 1], counts[n - 1]))
  }

  lemma {:induction false} BagSize(values: seq<int>, counts: seq<nat>)
    requires |values| == |counts|
    ensures |Bag(values, counts)| == Sum(counts)
  {
    if values != [] {
      BagSize(values[..|values| - 1], counts[..|counts| - 1]);
    }
  }

  /** With distinct values, the multiplicity of `values[j]` is `counts[j]`. */
  lemma {:induction false} BagAt(values: seq<int>, counts: seq<nat>, j: nat)
    requires |values| == |counts| && NoDuplicates(values) && j < |values|
    ensures Bag(values, counts)[values[j]] == counts[j]
  {
    var n := |values|;
    var init, initCounts, last := values[..n - 1], counts[..n - 1], values[n - 1];
    assert Bag(values, counts) == Bag(init, initCounts) + multiset(Repeat(last, counts[n - 1]));
    RepeatMultiset(last, counts[n - 1], values[j]);
    if j < n - 1 {
      assert values[j] != last;
      assert init[j] == values[j];
      BagAt(init, initCounts, j);
    } else {
      assert values[j] !in init;
      BagOutside(init, initCounts, values[j]);
    }
  }

  /** A value outside the table does not occur. */
  lemma {:induction false} BagOutside(values: seq<int>, counts: seq<nat>, x: int)
    requires |values| == |counts| && x !in values
    ensures Bag(values, counts)[x] == 0
  {
    if values != [] {
      var n := |values|;
      RepeatMultiset(values[n - 1], counts[n - 1], x);
      BagOutside(values[..n - 1], counts[..n - 1], x);
    }
  }

  /** Taking one copy of `values[i]` out of the table removes it from the bag. */
  lemma BagDecrement(values: seq<int>, counts: seq<nat>, i: nat)
    requires |values| == |counts| && NoDuplicates(values)
    requires i < |values| && counts[i] > 0
    ensures Bag(values, counts[i := counts[i] - 1]) + multiset{values[i]} == Bag(values, counts)
  {
    var counts' := counts[i := counts[i] - 1];
    forall x
      ensures (Bag(values, counts') + multiset{values[i]})[x] == Bag(values, counts)[x]
    {
      if x in values {
        var j :| 0 <= j < |values| && values[j] == x;
        BagAt(values, counts, j);
        BagAt(values, counts', j);
      } else {
        BagOutside(values, counts, x);
        BagOutside(values, counts', x);
      }
    }
  }

  // ---------------------------------------------------------------------
  // unique_permutations / unique_permutation_helper
  // ---------------------------------------------------------------------

  /**
   * `t` is a finished tuple of length `n` whose positions `k..n-1` hold
   * `suffix` and whose positions `0..k-1` hold exactly the multiset `bag`.
   */
  ghost predicate Fills(t: seq<int>, n: nat, k: nat, suffix: seq<int>, bag: multiset<int>) {
    |t| == n && k <= n && t[k..] == suffix && multiset(t[..k]) == bag
  }

  /**
   * `out` lists, without repetition, exactly the tuples that fill positions
   * `0..k-1` with `bag` and keep `suffix` at positions `k..n-1`.
   */
  ghost predicate Enumerates(out: seq<seq<int>>, n: nat, k: nat, suffix: seq<int>, bag: multiset<int>) {
    && (forall t {:trigger t in out} :: t in out ==> Fills(t, n, k, suffix, bag))
    && (forall t {:trigger Fills(t, n, k, suffix, bag)} :: Fills(t, n, k, suffix, bag) ==> t in out)
    && NoDuplicates(out)
  }

  /**
   * Part way through the loop at depth `d`: `out` lists exactly the tuples
   * that `Enumerates` would list and whose position `d` holds one of `firsts`.
   */
  ghost predicate EnumeratesSome(out: seq<seq<int>>, n: nat, d: nat, suffix: seq<int>, bag: multiset<int>,
                                 firsts: seq<int>) {
    && (forall t {:trigger t in out} :: t in out ==> Fills(t, n, d + 1, suffix, bag) && d < |t| && t[d] in firsts)
    && (forall t {:trigger Fills(t, n, d + 1, suffix, bag)} ::
          Fills(t, n, d + 1, suffix, bag) && d < |t| && t[d] in firsts ==> t in out)
    && NoDuplicates(out)
  }

  lemma FillsStep(t: seq<int>, n: nat, d: nat, suffix: seq<int>, v: int, rest: multiset<int>, bag: multiset<int>)
    requires d < n && rest + multiset{v} == bag
    ensures Fills(t, n, d, [v] + suffix, rest) <==> Fills(t, n, d + 1, suffix, bag) && t[d] == v
  {
    if |t| == n {
      assert t[d..] == [t[d]] + t[d + 1..];
      assert t[..d + 1] == t[..d] + [t[d]];
      if Fills(t, n, d + 1, suffix, bag) && t[d] == v {
        assert multiset(t[..d]) + multiset{v} == rest + multiset{v};
        forall x ensures multiset(t[..d])[x] == rest[x] {
          assert (multiset(t[..d]) + multiset{v})[x] == (rest + multiset{v})[x];
        }
      }
    }
  }

  /** The single tuple a completed `result` gives at depth -1. */
  lemma EnumeratesFinished(r: seq<int>)
    ensures Enumerates([r], |r|, 0, r, multiset{})
  {
    assert r[0..] == r;
  }

  /** A round of the loop that places `values[i]` at position `d` and recurses. */
  lemma EnumeratesAddRound(values: seq<int>, counts: seq<nat>, i: nat, out: seq<seq<int>>, sub: seq<seq<int>>,
                           n: nat, d: nat, suffix: seq<int>)
    requires |values| == |counts| && NoDuplicates(values) && i < |values| && counts[i] > 0 && d < n
    requires EnumeratesSome(out, n, d, suffix, Bag(values, counts), values[..i])
    requires |out| == Arrangements(counts, i)
    requires Enumerates(sub, n, d, [values[i]] + suffix, Bag(values, counts[i := counts[i] - 1]))
    requires |sub| == Multinomial(counts[i := counts[i] - 1])
    ensures EnumeratesSome(out + sub, n, d, suffix, Bag(values, counts), values[..i + 1])
    ensures |out + sub| == Arrangements(counts, i + 1)
  {
    var v, firsts := values[i], values[..i];
    var bag, rest := Bag(values, counts), Bag(values, counts[i := counts[i] - 1]);
    assert rest + multiset{v} == bag by {
      BagDecrement(values, counts, i);
    }
    assert v !in firsts by {
      forall j | 0 <= j < i ensures firsts[j] != v {
        assert firsts[j] == values[j];
      }
    }
    assert EnumeratesSome(out + sub, n, d, suffix, bag, values[..i + 1]) by {
      AppendRound(out, sub, n, d, suffix, bag, firsts, v, rest);
      assert values[..i + 1] == firsts + [v];
    }
    ArrangementsStep(counts, i);
  }

  /** One more label considered adds the arrangements that start with it, if any is left. */
  lemma ArrangementsStep(counts: seq<nat>, i: nat)
    requires i < |counts|
    ensures counts[i] > 0 ==> Arrangements(counts, i + 1) == Arrangements(counts, i) + Multinomial(counts[i := counts[i] - 1])
    ensures counts[i] == 0 ==> Arrangements(counts, i + 1) == Arrangements(counts, i)
  {
  }

  lemma AppendRound(out: seq<seq<int>>, sub: seq<seq<int>>, n: nat, d: nat, suffix: seq<int>,
                    bag: multiset<int>, firsts: seq<int>, v: int, rest: multiset<int>)
    requires d < n && rest + multiset{v} == bag && v !in firsts
    requires EnumeratesSome(out, n, d, suffix, bag, firsts)
    requires Enumerates(sub, n, d, [v] + suffix, rest)
    ensures EnumeratesSome(out + sub, n, d, suffix, bag, firsts + [v])
  {
    RoundTuples(sub, n, d, suffix, v, rest, bag);
    forall t | t in out ensures t !in sub {
      assert t[d] in firsts;
    }
    NoDuplicatesAppend(out, sub);
  }

  /**
   * The tuples the recursive call lists are exactly the finished tuples
   * with `v` at position `d`.
   */
  lemma RoundTuples(sub: seq<seq<int>>, n: nat, d: nat, suffix: seq<int>, v: int,
                    rest: multiset<int>, bag: multiset<int>)
    requires d < n && rest + multiset{v} == bag
    requires Enumerates(sub, n, d, [v] + suffix, rest)
    ensures forall t :: t in sub ==> Fills(t, n, d + 1, suffix, bag) && d < |t| && t[d] == v
    ensures forall t :: Fills(t, n, d + 1, suffix, bag) && d < |t| && t[d] == v ==> t in sub
  {
    forall t ensures Fills(t, n, d, [v] + suffix, rest) <==> Fills(t, n, d + 1, suffix, bag) && t[d] == v {
      FillsStep(t, n, d, suffix, v, rest, bag);
    }
  }

  /** A round of the loop whose label has no occurrence left adds nothing. */
  lemma EnumeratesSkipRound(values: seq<int>, counts: seq<nat>, i: nat, out: seq<seq<int>>,
                            n: nat, d: nat, suffix: seq<int>)
    requires |values| == |counts| && NoDuplicates(values) && i < |values| && counts[i] == 0
    requires EnumeratesSome(out, n, d, suffix, Bag(values, counts), values[..i])
    requires |out| == Arrangements(counts, i)
    ensures EnumeratesSome(out, n, d, suffix, Bag(values, counts), values[..i + 1])
    ensures |out| == Arrangements(counts, i + 1)
  {
    var bag := Bag(values, counts);
    BagAt(values, counts, i);
    assert values[..i + 1] == values[..i] + [values[i]];
    forall t | Fills(t, n, d + 1, suffix, bag) && d < |t| ensures t[d] != values[i] {
      assert t[..d + 1][d] == t[d];
    }
  }

  /** After trying every label, the loop has listed everything, once each. */
  lemma EnumeratesAllRounds(values: seq<int>, counts: seq<nat>, out: seq<seq<int>>,
                            n: nat, d: nat, suffix: seq<int>)
    requires |values| == |counts| && d < n && Sum(counts) > 0
    requires EnumeratesSome(out, n, d, suffix, Bag(values, counts), values[..|values|])
    requires |out| == Arrangements(counts, |values|)
    ensures Enumerates(out, n, d + 1, suffix, Bag(values, counts))
    ensures |out| == Multinomial(counts)
  {
    var bag := Bag(values, counts);
    assert values[..|values|] == values;
    forall t | Fills(t, n, d + 1, suffix, bag) ensures t[d] in values {
      assert t[..d + 1][d] == t[d];
      if t[d] !in values {
        BagOutside(values, counts, t[d]);
      }
    }
  }

  /**
   * Models `unique_permutation_helper(unique_list, result_list, d)`: the
   * distinct labels are `values`, their remaining counters `occurrences`,
   * and the tuple being built is `result`. Returns, in the order the
   * generator yields them, every completed tuple.
   */
  method UniquePermutationHelper(values: seq<int>, occurrences: array<nat>, result: array<int>, d: int)
      returns (out: seq<seq<int>>)
    requires NoDuplicates(values) && occurrences.Length == |values|
    requires -1 <= d < result.Length && Sum(occurrences[..]) == d + 1
    modifies occurrences, result
    ensures occurrences[..] == old(occurrences[..])
    ensures result[d + 1..] == old(result[d + 1..])
    ensures Enumerates(out, result.Length, d + 1, old(result[d + 1..]), Bag(values, old(occurrences[..])))
    ensures |out| == Multinomial(old(occurrences[..]))
    decreases d + 1, 1
  {
    var n := result.Length;
    if d < 0 {
      BagSize(values, occurrences[..]);
      assert result[0..] == result[..];
      out := [result[..]];
      EnumeratesFinished(result[..]);
    } else {
      ghost var counts := occurrences[..];
      ghost var suffix := result[d + 1..];
      out := [];
      var i := 0;
      while i < |values|
        invariant 0 <= i <= |values|
        invariant occurrences[..] == counts
        invariant result[d + 1..] == suffix
        invariant EnumeratesSome(out, n, d, suffix, Bag(values, counts), values[..i])
        invariant |out| == Arrangements(counts, i)
      {
        if occurrences[i] > 0 {
          var sub := PlaceLabel(values, occurrences, result, d, i, counts, suffix);
          EnumeratesAddRound(values, counts, i, out, sub, n, d, suffix);
          out := out + sub;
        } else {
          EnumeratesSkipRound(values, counts, i, out, n, d, suffix);
        }
        i := i + 1;
      }
      EnumeratesAllRounds(values, counts, out, n, d, suffix);
    }
  }

  /**
   * The body of the helper's loop for a label with occurrences left: put
   * `values[i]` at position `d`, take one occurrence away, enumerate the
   * positions below `d`, and give the occurrence back.
   */
  method PlaceLabel(values: seq<int>, occurrences: array<nat>, result: array<int>, d: nat, i: nat,
                    ghost counts: seq<nat>, ghost suffix: seq<int>)
      returns (sub: seq<seq<int>>)
    requires NoDuplicates(values) && occurrences.Length == |values|
    requires d < result.Length && Sum(occurrences[..]) == d + 1
    requires i < |values| && occurrences[i] > 0
    requires occurrences[..] == counts && result[d + 1..] == suffix
    modifies occurrences, result
    ensures occurrences[..] == counts
    ensures result[d + 1..] == suffix
    ensures Enumerates(sub, result.Length, d, [values[i]] + suffix, Bag(values, counts[i := counts[i] - 1]))
    ensures |sub| == Multinomial(counts[i := counts[i] - 1])
    decreases d + 1, 0
  {
    result[d] := values[i];
    occurrences[i] := occurrences[i] - 1;
    ghost var counts' := counts[i := counts[i] - 1];
    ghost var suffix' := [values[i]] + suffix;
    assert occurrences[..] == counts';
    assert result[d..] == suffix';
    SumDecrement(counts, i);
    sub := UniquePermutationHelper(values, occurrences, result, d - 1);
    assert Enumerates(sub, result.Length, d, suffix', Bag(values, counts'));
    occurrences[i] := occurrences[i] + 1;
    assert occurrences[..] == counts;
    assert result[d + 1..] == result[d..][1..];
  }

  /** The number of occurrences in `s` of each of `values`. */
  function Multiplicities(values: seq<int>, s: seq<int>): (r: seq<nat>)
    ensures |r| == |values|
  {
    seq(|values|, i requires 0 <= i < |values| => multiset(s)[values[i]])
  }

  /** The product of `m!` over the multiplicities `m` of the distinct elements of `s`. */
  function MultiplicityProduct(s: seq<int>): nat {
    FactorialProduct(Multiplicities(DistinctValues(s), s))
  }

  lemma BagOfMultiplicities(values: seq<int>, s: seq<int>)
    requires NoDuplicates(values) && forall x :: x in values <==> x in s
    ensures Bag(values, Multiplicities(values, s)) == multiset(s)
  {
    var counts := Multiplicities(values, s);
    forall x ensures Bag(values, counts)[x] == multiset(s)[x] {
      if x in values {
        var j :| 0 <= j < |values| && values[j] == x;
        BagAt(values, counts, j);
      } else {
        BagOutside(values, counts, x);
      }
    }
  }

  /**
   * Models `unique_permutations(elements)`: every distinct rearrangement of
   * `elements`, each exactly once; there are `N! / (m1! * ... * mk!)` of them.
   */
  method UniquePermutations(elements: seq<int>) returns (out: seq<seq<int>>)
    ensures forall t :: t in out ==> |t| == |elements| && multiset(t) == multiset(elements)
    ensures forall t {:trigger t in out} :: multiset(t) == multiset(elements) ==> t in out
    ensures NoDuplicates(out)
    ensures |out| * MultiplicityProduct(elements) == Factorial(|elements|)
  {
    var values := DistinctValues(elements);
    var occurrences := new nat[|values|](i requires 0 <= i < |values| => multiset(elements)[values[i]]);
    var u := |elements|;
    var result := new int[u](_ => 0);
    assert occurrences[..] == Multiplicities(values, elements);
    BagOfMultiplicities(values, elements);
    BagSize(values, occurrences[..]);
    assert result[u..] == [];
    out := UniquePermutationHelper(values, occurrences, result, u - 1);
    assert Enumerates(out, u, u, [], multiset(elements));
    MultinomialFormula(Multiplicities(values, elements));
    forall t | multiset(t) == multiset(elements) ensures t in out {
      assert |t| == |multiset(t)|;
      assert t[..u] == t && t[u..] == [];
      assert Fills(t, u, u, [], multiset(elements));
    }
    forall t | t in out ensures |t| == u && multiset(t) == multiset(elements) {
      assert Fills(t, u, u, [], multiset(elements));
      assert t[..u] == t;
    }
  }

  // ---------------------------------------------------------------------
  // all_permutations
  // ---------------------------------------------------------------------

  /** The failure `all_permutations` raises (an `AssertionError`). */
  datatype Error = SiteCountMismatch(expected: int, actual: nat)

  /** The total length of the lists in `lists`. */
  function TotalLength<T>(lists: seq<seq<T>>): nat {
    if lists == [] then 0 else |lists[0]| + TotalLength(lists[1..])
  }

  /** Python's `flatten_list`: the concatenation of the lists in `lists`. */
  function Flatten<T(!new)>(lists: seq<seq<T>>): (r: seq<T>)
    ensures |r| == TotalLength(lists)
    ensures forall x :: x in r <==> exists i :: 0 <= i < |lists| && x in lists[i]
  {
    if lists == [] then []
    else
      var r := lists[0] + Flatten(lists[1..]);
      assert forall i :: 0 < i < |lists| ==> lists[i] == lists[1..][i - 1];
      r
  }

  /**
   * Item `k` of `lists[i]` stands in the flattened list right after the
   * items of the lists before it.
   */
  lemma {:induction false} FlattenAt<T(!new)>(lists: seq<seq<T>>, i: nat, k: nat)
    requires i < |lists| && k < |lists[i]|
    ensures TotalLength(lists[..i]) + k < |Flatten(lists)|
    ensures Flatten(lists)[TotalLength(lists[..i]) + k] == lists[i][k]
  {
    if i == 0 {
      assert lists[..0] == [];
    } else {
      var rest := lists[1..];
      assert lists[..i][1..] == rest[..i - 1];
      assert lists[..i][0] == lists[0];
      assert rest[i - 1] == lists[i];
      FlattenAt(rest, i - 1, k);
    }
  }

  /** The label -> count table of `all_permutations`, in the dictionary's order. */
  type Labels = seq<(int, int)>

  /** Keys of a dictionary are distinct. */
  predicate DistinctKeys(labels: Labels) {
    forall i, j :: 0 <= i < j < |labels| ==> labels[i].0 != labels[j].0
  }

  /** `[[key] * labels[key] for key in labels]`. */
  function Blocks(labels: Labels): seq<seq<int>> {
    seq(|labels|, i requires 0 <= i < |labels| => Repeat(labels[i].0, labels[i].1))
  }

  /** The occupation list built by `all_permutations`. */
  function OccupationList(labels: Labels): seq<int> {
    Flatten(Blocks(labels))
  }

  /** The length of `[x] * n`. */
  function Clamp(n: int): nat {
    if n > 0 then n else 0
  }

  /** The number of sites the table describes: the sum of its positive counts. */
  function SiteCount(labels: Labels): nat {
    if labels == [] then 0 else Clamp(labels[0].1) + SiteCount(labels[1..])
  }

  /** How many sites the entries of the table with key `x` describe. */
  function KeyCount(labels: Labels, x: int): nat {
    if labels == [] then 0
    else (if labels[0].0 == x then Clamp(labels[0].1) else 0) + KeyCount(labels[1..], x)
  }

  /** The occupation list is the first block followed by the occupation list of the rest. */
  lemma OccupationListFirst(labels: Labels)
    requires labels != []
    ensures OccupationList(labels) == Repeat(labels[0].0, labels[0].1) + OccupationList(labels[1..])
  {
    assert Blocks(labels)[1..] == Blocks(labels[1..]);
  }

  lemma {:induction false} OccupationListLength(labels: Labels)
    ensures |OccupationList(labels)| == SiteCount(labels)
  {
    if labels != [] {
      OccupationListFirst(labels);
      OccupationListLength(labels[1..]);
    }
  }

  lemma {:induction false} OccupationListMultiplicity(labels: Labels, x: int)
    ensures multiset(OccupationList(labels))[x] == KeyCount(labels, x)
  {
    if labels != [] {
      var block := Repeat(labels[0].0, labels[0].1);
      OccupationListFirst(labels);
      OccupationListMultiplicity(labels[1..], x);
      RepeatMultiset(labels[0].0, labels[0].1, x);
      assert multiset(block + OccupationList(labels[1..])) == multiset(block) + multiset(OccupationList(labels[1..]));
    }
  }

  lemma {:induction false} KeyCountAbsent(labels: Labels, x: int)
    requires forall i :: 0 <= i < |labels| ==> labels[i].0 != x
    ensures KeyCount(labels, x) == 0
  {
    if labels != [] {
      assert forall i :: 0 <= i < |labels[1..]| ==> labels[1..][i] == labels[i + 1];
      KeyCountAbsent(labels[1..], x);
    }
  }

  lemma {:induction false} KeyCountOfKey(labels: Labels, i: nat)
    requires DistinctKeys(labels) && i < |labels|
    ensures KeyCount(labels, labels[i].0) == Clamp(labels[i].1)
  {
    var rest := labels[1..];
    assert forall j :: 0 <= j < |rest| ==> rest[j] == labels[j + 1];
    if i == 0 {
      KeyCountAbsent(rest, labels[0].0);
    } else {
      assert rest[i - 1] == labels[i];
      KeyCountOfKey(rest, i - 1);
    }
  }

  /**
   * The occupation list holds every key of the table exactly as many times
   * as its count says (none for a count of zero or less) and nothing else;
   * its length is the number of sites.
   */
  lemma OccupationListCounts(labels: Labels)
    requires DistinctKeys(labels)
    ensures |OccupationList(labels)| == SiteCount(labels)
    ensures forall i :: 0 <= i < |labels| ==> multiset(OccupationList(labels))[labels[i].0] == Clamp(labels[i].1)
    ensures forall x :: (forall i :: 0 <= i < |labels| ==> labels[i].0 != x) ==>
      multiset(OccupationList(labels))[x] == 0
  {
    OccupationListLength(labels);
    forall i | 0 <= i < |labels| ensures multiset(OccupationList(labels))[labels[i].0] == Clamp(labels[i].1) {
      OccupationListMultiplicity(labels, labels[i].0);
      KeyCountOfKey(labels, i);
    }
    forall x | forall i :: 0 <= i < |labels| ==> labels[i].0 != x
      ensures multiset(OccupationList(labels))[x] == 0
    {
      OccupationListMultiplicity(labels, x);
      KeyCountAbsent(labels, x);
    }
  }

  /**
   * Models `all_permutations(labels, number_of_sites)`. `None` and `Some(0)`
   * skip the site-count check (Python's `if number_of_sites:`); a different
   * non-zero count fails; otherwise the result is everything
   * `unique_permutations` yields for the occupation list.
   */
  method AllPermutations(labels: Labels, numberOfSites: Option<int>) returns (r: Result<seq<seq<int>>, Error>)
    ensures r.Failure? <==>
      numberOfSites.Some? && numberOfSites.value != 0 && numberOfSites.value != |OccupationList(labels)|
    ensures r.Success? ==> forall t :: t in r.value ==>
      |t| == |OccupationList(labels)| && multiset(t) == multiset(OccupationList(labels))
    ensures r.Success? ==> forall t {:trigger t in r.value} :: multiset(t) == multiset(OccupationList(labels)) ==> t in r.value
    ensures r.Success? ==> NoDuplicates(r.value)
    ensures r.Success? ==>
      |r.value| * MultiplicityProduct(OccupationList(labels)) == Factorial(|OccupationList(labels)|)
  {
    var occupationList := Flatten(Blocks(labels));
    if numberOfSites.Some? && numberOfSites.value != 0 && |occupationList| != numberOfSites.value {
      return Failure(SiteCountMismatch(numberOfSites.value, |occupationList|));
    }
    var all := UniquePermutations(occupationList);
    r := Success(all);
  }

  // ---------------------------------------------------------------------
  // next_permutationS
  // ---------------------------------------------------------------------

  /** Some adjacent pair of `s` is strictly increasing. */
  predicate HasAscent(s: seq<int>) {
    // Written over a pair `i`, `j == i + 1` rather than `s[i]` and `s[i + 1]`:
    // the single-index form gives the solver a matching loop through `s[i + 1]`.
    exists i, j :: 0 <= i < |s| && 0 <= j < |s| && j == i + 1 && s[i] < s[j]
  }

  /** No adjacent pair of `s` from index `lo` on is strictly increasing. */
  predicate NonIncreasingSteps(s: seq<int>, lo: int) {
    forall i, j :: 0 <= lo <= i < |s| && 0 <= j < |s| && j == i + 1 ==> s[i] >= s[j]
  }

  /**
   * `r` is the next permutation of `s`: a rearrangement of `s` that is
   * lexicographically greater than `s`, and no greater than any other such
   * rearrangement.
   */
  ghost predicate IsNextPermutation(s: seq<int>, r: seq<int>) {
    && multiset(r) == multiset(s)
    && LexLess(s, r)
    && forall t {:trigger LexLess(s, t)} :: multiset(t) == multiset(s) && LexLess(s, t) ==> LexLessOrEqual(r, t)
  }

  /** There is at most one next permutation. */
  lemma NextPermutationUnique(s: seq<int>, r1: seq<int>, r2: seq<int>)
    requires IsNextPermutation(s, r1) && IsNextPermutation(s, r2)
    ensures r1 == r2
  {
    assert LexLessOrEqual(r1, r2) && LexLessOrEqual(r2, r1);
    if LexLess(r1, r2) {
      LexAsymmetric(r1, r2);
    }
  }

  /** Every adjacent pair of `s` from `lo` on is non-increasing, hence every pair is. */
  lemma AdjacentNonIncreasing(s: seq<int>, lo: int)
    requires NonIncreasingSteps(s, lo)
    ensures forall i, j :: 0 <= lo <= i <= j < |s| ==> s[i] >= s[j]
  {
    forall i, j | 0 <= lo <= i <= j < |s| ensures s[i] >= s[j] {
      AdjacentNonIncreasingFrom(s, lo, i, j);
    }
  }

  lemma {:induction false} AdjacentNonIncreasingFrom(s: seq<int>, lo: int, i: int, j: int)
    requires NonIncreasingSteps(s, lo)
    requires 0 <= lo <= i <= j < |s|
    ensures s[i] >= s[j]
    decreases j - i
  {
    if i < j {
      AdjacentNonIncreasingFrom(s, lo, i + 1, j);
      assert s[i] >= s[i + 1];
    }
  }

  /**
   * A sequence with no ascent is non-increasing, no rearrangement of it is
   * lexicographically greater, and its reversal is its smallest rearrangement.
   */
  lemma LastPermutation(s: seq<int>)
    requires !HasAscent(s)
    ensures NonIncreasing(s)
    ensures forall t {:trigger LexLess(s, t)} :: multiset(t) == multiset(s) ==> !LexLess(s, t)
    ensures Ascending(Reverse(s)) && multiset(Reverse(s)) == multiset(s)
    ensures forall t {:trigger LexLessOrEqual(Reverse(s), t)} :: multiset(t) == multiset(s) ==> LexLessOrEqual(Reverse(s), t)
  {
    AdjacentNonIncreasing(s, 0);
    forall t | multiset(t) == multiset(s) ensures !LexLess(s, t) {
      NonIncreasingIsLexMaximal(s, t);
    }
    ReverseOfNonIncreasing(s);
    ReverseMultiset(s);
    forall t | multiset(t) == multiset(s) ensures LexLessOrEqual(Reverse(s), t) {
      AscendingIsLeast(Reverse(s), t, 0);
    }
  }

  /**
   * Among the rearrangements of `r` that share its first `m` elements, `r` is
   * the smallest when the rest of `r` is ascending.
   */
  lemma AscendingIsLeast(r: seq<int>, t: seq<int>, m: nat)
    requires m <= |r| && m <= |t| && r[..m] == t[..m] && multiset(t) == multiset(r)
    requires Ascending(r[m..])
    ensures LexLessOrEqual(r, t)
  {
    MultisetOfRests(r, t, m);
    assert |t[m..]| == |multiset(t[m..])| == |r[m..]|;
    AscendingIsLexMinimal(r[m..], t[m..]);
    LexTotal(r[m..], t[m..]);
    if r[m..] == t[m..] {
      assert r == r[..m] + r[m..] && t == t[..m] + t[m..];
    } else {
      LexAfterCommonPrefix(r, t, m);
    }
  }

  /**
   * The step `next_permutationS` takes when the suffix after pivot `p` is
   * non-increasing and `s[p] < s[p + 1]`: swap the pivot with the rightmost
   * larger element `s[b]`, then reverse the suffix. The result is the next
   * permutation of `s`.
   */
  lemma NextPermutationStep(s: seq<int>, p: nat, b: nat)
    requires p < b < |s| && s[p] < s[p + 1]
    requires NonIncreasingSteps(s, p + 1)
    requires s[b] > s[p] && forall k :: b < k < |s| ==> s[k] <= s[p]
    ensures IsNextPermutation(s, s[p := s[b]][b := s[p]][..p + 1] + Reverse(s[p := s[b]][b := s[p]][p + 1..]))
  {
    AdjacentNonIncreasing(s, p + 1);
    var w := s[p := s[b]][b := s[p]];
    var tail := w[p + 1..];
    var r := w[..p + 1] + Reverse(tail);
    SwappedTail(s, p, b);
    ReverseOfNonIncreasing(tail);
    // r is a rearrangement of s
    ReverseMultiset(tail);
    assert w == w[..p + 1] + tail;
    assert multiset(r) == multiset(s);
    // r comes after s
    assert r[..p] == s[..p];
    assert LexLess(s, r);
    // and before every other rearrangement that comes after s
    forall t | multiset(t) == multiset(s) && LexLess(s, t) ensures LexLessOrEqual(r, t) {
      NextIsLeast(s, p, b, r, t);
    }
  }

  /** Swapping the pivot into the non-increasing suffix keeps it non-increasing. */
  lemma SwappedTail(s: seq<int>, p: nat, b: nat)
    requires p < b < |s|
    requires forall i, j :: 0 <= p + 1 <= i <= j < |s| ==> s[i] >= s[j]
    requires s[b] > s[p] && forall k :: b < k < |s| ==> s[k] <= s[p]
    ensures NonIncreasing(s[p := s[b]][b := s[p]][p + 1..])
    ensures multiset(s[p := s[b]][b := s[p]]) == multiset(s)
  {
    var w := s[p := s[b]][b := s[p]];
    var tail := w[p + 1..];
    forall i, j | 0 <= i <= j < |tail| ensures tail[i] >= tail[j] {
      var x, y := p + 1 + i, p + 1 + j;
      assert tail[i] == w[x] && tail[j] == w[y];
      if x == b && y != b {
        assert s[y] <= s[p];
      } else if y == b && x != b {
        assert s[x] >= s[b];
      }
    }
  }

  lemma NextIsLeast(s: seq<int>, p: nat, b: nat, r: seq<int>, t: seq<int>)
    requires p < b < |s| && s[p] < s[p + 1]
    requires forall i, j :: 0 <= p + 1 <= i <= j < |s| ==> s[i] >= s[j]
    requires s[b] > s[p] && forall k :: b < k < |s| ==> s[k] <= s[p]
    requires |r| == |s| && r[..p] == s[..p] && r[p] == s[b] && multiset(r) == multiset(s)
    requires Ascending(r[p + 1..])
    requires multiset(t) == multiset(s) && LexLess(s, t)
    ensures LexLessOrEqual(r, t)
  {
    var j :| 0 <= j < |s| && j < |t| && s[..j] == t[..j] && s[j] < t[j];
    var q := RestsAgreeOnElement(s, t, j);
    // the first difference is not inside the non-increasing suffix
    assert t[j] == s[q] && s[j] < s[q];
    assert j <= p;
    if j < p {
      assert r[..j] == s[..j] && r[j] == s[j];
      assert LexLess(r, t);
    } else {
      // t[p] is an element of the suffix larger than s[p], so at least s[b]
      assert p < q <= b;
      assert s[q] >= s[b];
      if t[p] > r[p] {
        assert r[..p] == t[..p];
        assert LexLess(r, t);
      } else {
        assert r[..p + 1] == t[..p + 1];
        AscendingIsLeast(r, t, p + 1);
      }
    }
  }

  lemma MultisetOfRests(a: seq<int>, b: seq<int>, k: nat)
    requires k <= |a| && k <= |b| && a[..k] == b[..k] && multiset(a) == multiset(b)
    ensures multiset(b[k..]) == multiset(a[k..])
  {
    assert a == a[..k] + a[k..];
    assert b == b[..k] + b[k..];
    forall x ensures multiset(b[k..])[x] == multiset(a[k..])[x] {
      assert multiset(a)[x] == multiset(a[..k])[x] + multiset(a[k..])[x];
      assert multiset(b)[x] == multiset(b[..k])[x] + multiset(b[k..])[x];
    }
  }

  /**
   * Models `next_permutationS(l)`: rearranges `l` in place into its next
   * permutation and reports `true`, or, when `l` is already its largest
   * arrangement, reverses it into its smallest one and reports `false`.
   */
  method NextPermutation(l: array<int>) returns (advanced: bool)
    modifies l
    ensures multiset(l[..]) == multiset(old(l[..]))
    ensures advanced <==> HasAscent(old(l[..]))
    ensures advanced ==> IsNextPermutation(old(l[..]), l[..])
    ensures !advanced ==> l[..] == Reverse(old(l[..])) && Ascending(l[..])
  {
    ghost var s := l[..];
    var n := l.Length;
    var last := FindTail(l);
    // Step 2: increase the element just before the tail
    ghost var w := s;
    if last > 0 {
      var small := l[last - 1];
      var big := FindLarger(l, last, small);
      ghost var p := last - 1;
      assert IsNextPermutation(s, s[p := s[big]][big := s[p]][..p + 1] + Reverse(s[p := s[big]][big := s[p]][p + 1..])) by {
        assert NonIncreasingSteps(s, p + 1);
        assert s[big] > s[p] && forall k :: big < k < n ==> s[k] <= s[p];
        NextPermutationStep(s, p, big);
      }
      l[last - 1], l[big] := l[big], small;
      w := s[p := s[big]][big := s[p]];
      assert l[..] == w;
    } else {
      assert Ascending(Reverse(s)) && multiset(Reverse(s)) == multiset(s) by {
        AdjacentNonIncreasing(s, 0);
        ReverseOfNonIncreasing(s);
        ReverseMultiset(s);
      }
    }
    // Step 3: reverse the tail
    ghost var lo := if last < 0 then 0 else last;
    ReverseTail(l, last);
    advanced := last > 0;
    NextPermutationOutcome(s, w, lo, l[..], advanced);
  }

  /** How the three steps of `next_permutationS` combine into its result. */
  lemma NextPermutationOutcome(s: seq<int>, w: seq<int>, lo: nat, r: seq<int>, advanced: bool)
    requires lo <= |w| && r == w[..lo] + Reverse(w[lo..])
    requires advanced ==> lo > 0 && IsNextPermutation(s, w[..lo] + Reverse(w[lo..]))
    requires !advanced ==> lo == 0 && w == s
    requires !advanced ==> Ascending(Reverse(s)) && multiset(Reverse(s)) == multiset(s)
    ensures multiset(r) == multiset(s)
    ensures advanced ==> IsNextPermutation(s, r)
    ensures !advanced ==> r == Reverse(s) && Ascending(r)
  {
    if !advanced {
      assert w[..lo] == [] && w[lo..] == s;
    }
  }

  /**
   * Step 1 of `next_permutationS`: `l[last..]` is the longest non-increasing
   * tail; `last` is `-1` only for the empty list. There is an ascent in `l`
   * exactly when `last > 0`.
   */
  method FindTail(l: array<int>) returns (last: int)
    ensures l.Length == 0 ==> last == -1
    ensures l.Length > 0 ==> 0 <= last < l.Length
    ensures NonIncreasingSteps(l[..], last)
    ensures last > 0 ==> l[last - 1] < l[last]
    ensures last > 0 <==> HasAscent(l[..])
  {
    var n := l.Length;
    last := n - 1;
    while last > 0
      invariant -1 <= last < n && (last == -1 ==> n == 0)
      invariant NonIncreasingSteps(l[..], last)
      decreases last
    {
      if l[last - 1] < l[last] {
        break;
      }
      last := last - 1;
    }
    if last > 0 {
      assert l[..][last - 1] < l[..][last];
    }
  }

  /**
   * Step 2 of `next_permutationS`, the search: the rightmost index `big` of
   * the non-increasing tail `l[last..]` whose element exceeds `small`.
   */
  method FindLarger(l: array<int>, last: nat, small: int) returns (big: nat)
    requires 0 < last < l.Length && small < l[last]
    ensures last <= big < l.Length && l[big] > small
    ensures forall k :: big < k < l.Length ==> l[k] <= small
  {
    big := l.Length - 1;
    while l[big] <= small
      invariant last <= big < l.Length
      invariant forall k :: big < k < l.Length ==> l[k] <= small
      decreases big
    {
      big := big - 1;
    }
  }

  /** Step 3 of `next_permutationS`: reverse `l[last..]` by swapping from both ends. */
  method ReverseTail(l: array<int>, last: int)
    requires 0 <= last <= l.Length || (last == -1 && l.Length == 0)
    modifies l
    ensures var lo := if last < 0 then 0 else last;
      l[..] == old(l[..])[..lo] + Reverse(old(l[..])[lo..])
  {
    ghost var w := l[..];
    ghost var lo := if last < 0 then 0 else last;
    var n := l.Length;
    var i := last;
    var j := n - 1;
    while i < j
      invariant last <= i <= j + 1 && i + j == last + n - 1 && j < n
      invariant forall k :: 0 <= k < last ==> l[k] == w[k]
      invariant forall k :: 0 <= i <= k <= j ==> l[k] == w[k]
      invariant forall k :: 0 <= last <= k < i ==> l[k] == w[last + n - 1 - k] && l[last + n - 1 - k] == w[k]
      decreases j - i
    {
      l[i], l[j] := l[j], l[i];
      i := i + 1;
      j := j - 1;
    }
    ReversedTail(w, lo, l[..]);
  }

  /** A sequence that agrees with `w` before `lo` and mirrors `w[lo..]` from `lo` on. */
  lemma ReversedTail(w: seq<int>, lo: nat, v: seq<int>)
    requires lo <= |w| == |v|
    requires forall k :: 0 <= k < lo ==> v[k] == w[k]
    requires forall k :: lo <= k < |w| ==> v[k] == w[lo + |w| - 1 - k]
    ensures v == w[..lo] + Reverse(w[lo..])
  {
    forall k | 0 <= k < |v| ensures v[k] == (w[..lo] + Reverse(w[lo..]))[k] {
      if k >= lo {
        ReverseAt(w[lo..], k - lo);
      }
    }
  }
}
