/**
 * Facts about integer sequences shared by the permutation routines and the
 * configuration type: reversal, lexicographic order, and the two extreme
 * arrangements of a multiset (sorted descending is the largest, sorted
 * ascending the smallest).
 */
module Sequences {

  /** `s` read back to front. */
  function Reverse(s: seq<int>): (r: seq<int>)
    ensures |r| == |s|
  {
    if s == [] then [] else Reverse(s[1..]) + [s[0]]
  }

  lemma {:induction false} ReverseAt(s: seq<int>, k: nat)
    requires k < |s|
    ensures Reverse(s)[k] == s[|s| - 1 - k]
  {
    if k < |s| - 1 {
      ReverseAt(s[1..], k);
    }
  }

  lemma {:induction false} ReverseMultiset(s: seq<int>)
    ensures multiset(Reverse(s)) == multiset(s)
  {
    if s != [] {
      ReverseMultiset(s[1..]);
      assert s == [s[0]] + s[1..];
    }
  }

  /** Every element is at least as large as every later one. */
  predicate NonIncreasing(s: seq<int>) {
    forall i, j :: 0 <= i <= j < |s| ==> s[i] >= s[j]
  }

  /** Every element is at most as large as every later one. */
  predicate Ascending(s: seq<int>) {
    forall i, j :: 0 <= i <= j < |s| ==> s[i] <= s[j]
  }

  lemma ReverseOfNonIncreasing(s: seq<int>)
    requires NonIncreasing(s)
    ensures Ascending(Reverse(s))
  {
    forall i, j | 0 <= i <= j < |s|
      ensures Reverse(s)[i] <= Reverse(s)[j]
    {
      ReverseAt(s, i);
      ReverseAt(s, j);
    }
  }

  /**
   * `a` comes strictly before `b` in lexicographic order: they agree up to
   * some index `k` and `a[k] < b[k]`.
   */
  predicate LexLess(a: seq<int>, b: seq<int>) {
    exists k :: 0 <= k < |a| && k < |b| && a[..k] == b[..k] && a[k] < b[k]
  }

  /** Lexicographic order, reflexive closure. */
  predicate LexLessOrEqual(a: seq<int>, b: seq<int>) {
    a == b || LexLess(a, b)
  }

  lemma LexAsymmetric(a: seq<int>, b: seq<int>)
    requires LexLess(a, b)
    ensures !LexLess(b, a)
  {
    var k :| 0 <= k < |a| && k < |b| && a[..k] == b[..k] && a[k] < b[k];
    forall m | 0 <= m < |b| && m < |a| && b[..m] == a[..m]
      ensures b[m] >= a[m]
    {
      if m < k {
        assert a[..k][m] == b[..k][m];
      }
    }
  }

  lemma {:induction false} LexTotal(a: seq<int>, b: seq<int>)
    requires |a| == |b|
    ensures a == b || LexLess(a, b) || LexLess(b, a)
  {
    if a != [] && a[0] == b[0] {
      LexTotal(a[1..], b[1..]);
      if a[1..] == b[1..] {
        assert a == [a[0]] + a[1..] && b == [b[0]] + b[1..];
      } else if LexLess(a[1..], b[1..]) {
        var k :| 0 <= k < |a| - 1 && a[1..][..k] == b[1..][..k] && a[1..][k] < b[1..][k];
        assert a[..k + 1] == [a[0]] + a[1..][..k];
        assert b[..k + 1] == [b[0]] + b[1..][..k];
        assert a[k + 1] < b[k + 1];
      } else {
        var k :| 0 <= k < |a| - 1 && b[1..][..k] == a[1..][..k] && b[1..][k] < a[1..][k];
        assert a[..k + 1] == [a[0]] + a[1..][..k];
        assert b[..k + 1] == [b[0]] + b[1..][..k];
        assert b[k + 1] < a[k + 1];
      }
    } else if a != [] {
      assert a[..0] == b[..0];
      assert a[0] < b[0] || b[0] < a[0];
    }
  }

  /** Lexicographic order restricted to a common prefix is decided by the rests. */
  lemma LexAfterCommonPrefix(a: seq<int>, b: seq<int>, m: nat)
    requires m <= |a| && m <= |b| && a[..m] == b[..m]
    requires LexLess(a[m..], b[m..])
    ensures LexLess(a, b)
  {
    var k :| 0 <= k < |a[m..]| && k < |b[m..]| && a[m..][..k] == b[m..][..k] && a[m..][k] < b[m..][k];
    assert a[..m + k] == a[..m] + a[m..][..k];
    assert b[..m + k] == b[..m] + b[m..][..k];
    assert a[m + k] < b[m + k];
  }

  /**
   * Among all rearrangements of its elements, a non-increasing sequence is
   * the lexicographically largest.
   */
  lemma NonIncreasingIsLexMaximal(s: seq<int>, t: seq<int>)
    requires NonIncreasing(s) && multiset(t) == multiset(s)
    ensures !LexLess(s, t)
  {
    forall k | 0 <= k < |s| && k < |t| && s[..k] == t[..k]
      ensures s[k] >= t[k]
    {
      var j := RestsAgreeOnElement(s, t, k);
    }
  }

  /**
   * Among all rearrangements of its elements, an ascending sequence is the
   * lexicographically smallest.
   */
  lemma AscendingIsLexMinimal(s: seq<int>, t: seq<int>)
    requires Ascending(s) && multiset(t) == multiset(s)
    ensures !LexLess(t, s)
  {
    forall k | 0 <= k < |t| && k < |s| && t[..k] == s[..k]
      ensures t[k] >= s[k]
    {
      var j := RestsAgreeOnElement(s, t, k);
    }
  }

  /**
   * When two rearrangements of one multiset agree before `k`, the element
   * of `t` at `k` occurs in `s` at or after `k`.
   */
  lemma RestsAgreeOnElement(s: seq<int>, t: seq<int>, k: nat) returns (j: nat)
    requires multiset(t) == multiset(s) && k < |t| && k <= |s| && s[..k] == t[..k]
    ensures k <= j < |s| && s[j] == t[k]
  {
    assert s == s[..k] + s[k..];
    assert t == t[..k] + t[k..];
    assert multiset(s) == multiset(s[..k]) + multiset(s[k..]);
    assert multiset(t) == multiset(t[..k]) + multiset(t[k..]);
    forall x ensures multiset(t[k..])[x] == multiset(s[k..])[x] {
      assert multiset(s)[x] == multiset(s[..k])[x] + multiset(s[k..])[x];
      assert multiset(t)[x] == multiset(t[..k])[x] + multiset(t[k..])[x];
    }
    assert multiset(t[k..]) == multiset(s[k..]);
    assert t[k..][0] == t[k];
    assert t[k] in multiset(s[k..]);
    var i :| 0 <= i < |s[k..]| && s[k..][i] == t[k];
    j := k + i;
  }

  /** No element occurs twice. */
  predicate NoDuplicates<T(==)>(s: seq<T>) {
    forall i, j :: 0 <= i < j < |s| ==> s[i] != s[j]
  }

  lemma NoDuplicatesAppend<T>(a: seq<T>, b: seq<T>)
    requires NoDuplicates(a) && NoDuplicates(b)
    requires forall x :: x in a ==> x !in b
    ensures NoDuplicates(a + b)
  {
    forall i, j | 0 <= i < j < |a + b|
      ensures (a + b)[i] != (a + b)[j]
    {
      if i < |a| && |a| <= j {
        assert (a + b)[i] in a && (a + b)[j] == b[j - |a|];
      }
    }
  }

  /**
   * The distinct elements of `s`, each once, in order of first occurrence:
   * Python's `set(s)` with its iteration order fixed.
   */
  function DistinctValues(s: seq<int>): (r: seq<int>)
    ensures NoDuplicates(r)
    ensures forall x :: x in r <==> x in s
  {
    if s == [] then []
    else
      var r := DistinctValues(s[..|s| - 1]);
      assert s == s[..|s| - 1] + [s[|s| - 1]];
      if s[|s| - 1] in r then r else r + [s[|s| - 1]]
  }

  /** A sequence without duplicates has as many distinct elements as it has elements. */
  lemma {:induction false} DistinctCardinality(s: seq<int>)
    requires NoDuplicates(s)
    ensures |set x | x in s| == |s|
  {
    if s != [] {
      var n := |s|;
      var front := s[..n - 1];
      assert NoDuplicates(front);
      DistinctCardinality(front);
      assert s[n - 1] !in front;
      assert (set x | x in s) == (set x | x in front) + {s[n - 1]};
    }
  }
}
