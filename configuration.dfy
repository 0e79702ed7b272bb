/**
 * A configuration: an arrangement of objects over the positions of a vector
 * space, each object written as an integer label, identical labels for
 * indistinguishable objects.
 *
 * A configuration is identified with its list of labels (what `tolist`
 * returns). The operations that only read it are functions of that list;
 * the class `Configuration` carries the list and the one field the source
 * updates, the cached lowest numeric representation.
 */
module Configurations {
  import opened Wrappers
  import opened Sequences
  import Permutations

  // ---------------------------------------------------------------------
  // Symmetry operations
  // ---------------------------------------------------------------------

  /**
   * A symmetry operation, given by the index mapping it applies: operating
   * on a configuration `c` gives the configuration whose label at `i` is
   * `c[mapping[i]]`.
   */
  datatype SymmetryOperation = SymmetryOperation(mapping: seq<nat>)

  /** `op` can operate on configurations of length `n`. */
  predicate AppliesTo(op: SymmetryOperation, n: nat) {
    |op.mapping| == n && forall i :: 0 <= i < n ==> op.mapping[i] < n
  }

  /** Every operation in `ops` can operate on configurations of length `n`. */
  predicate AllApplyTo(ops: seq<SymmetryOperation>, n: nat) {
    forall k :: 0 <= k < |ops| ==> AppliesTo(ops[k], n)
  }

  /** The operation that leaves every position in place. */
  function Identity(n: nat): (op: SymmetryOperation)
    ensures AppliesTo(op, n)
  {
    SymmetryOperation(seq(n, i => i))
  }

  /** `operate_on`: the configuration `op` maps `c` to, a rearrangement of labels of `c`. */
  function OperateOn(op: SymmetryOperation, c: seq<int>): (r: seq<int>)
    requires AppliesTo(op, |c|)
    ensures |r| == |c| && forall x :: x in r ==> x in c
  {
    seq(|c|, i requires 0 <= i < |c| => c[op.mapping[i]])
  }

  // ---------------------------------------------------------------------
  // Comparisons and searches
  // ---------------------------------------------------------------------

  /** `matches`: element-wise equality of two configurations of one length. */
  function Matches(c: seq<int>, test: seq<int>): (r: bool)
    requires |test| == |c|
    ensures r <==> c == test
  {
    forall i :: 0 <= i < |c| ==> c[i] == test[i]
  }

  /**
   * `is_equivalent_to`: some operation, tried in order, maps `c` onto a
   * configuration that matches `test`.
   */
  function IsEquivalentTo(c: seq<int>, test: seq<int>, ops: seq<SymmetryOperation>): (r: bool)
    requires |test| == |c| && AllApplyTo(ops, |c|)
    ensures r <==> exists k :: 0 <= k < |ops| && OperateOn(ops[k], c) == test
  {
    if ops == [] then false
    else if Matches(OperateOn(ops[0], c), test) then true
    else
      var r := IsEquivalentTo(c, test, ops[1..]);
      assert forall k :: 0 < k < |ops| ==> ops[k] == ops[1..][k - 1];
      r
  }

  /** All configurations in `list` have length `n`. */
  predicate AllOfLength(list: seq<seq<int>>, n: nat) {
    forall j :: 0 <= j < |list| ==> |list[j]| == n
  }

  /** `is_in_list`: some configuration of `list` matches `c`. */
  function IsInList(c: seq<int>, list: seq<seq<int>>): (r: bool)
    requires AllOfLength(list, |c|)
    ensures r <==> c in list
  {
    if list == [] then false
    else if Matches(c, list[0]) then true
    else IsInList(c, list[1..])
  }

  /** `has_equivalent_in_list`: some configuration of `list` is equivalent to `c`. */
  function HasEquivalentInList(c: seq<int>, list: seq<seq<int>>, ops: seq<SymmetryOperation>): (r: bool)
    requires AllOfLength(list, |c|) && AllApplyTo(ops, |c|)
    ensures r <==> exists j, k :: 0 <= j < |list| && 0 <= k < |ops| && OperateOn(ops[k], c) == list[j]
  {
    if list == [] then false
    else if IsEquivalentTo(c, list[0], ops) then true
    else
      var r := HasEquivalentInList(c, list[1..], ops);
      assert forall j :: 0 < j < |list| ==> list[j] == list[1..][j - 1];
      r
  }

  /** With the identity among the operations, every configuration is equivalent to itself. */
  lemma EquivalentToItself(c: seq<int>, ops: seq<SymmetryOperation>)
    requires AllApplyTo(ops, |c|) && Identity(|c|) in ops
    ensures IsEquivalentTo(c, c, ops)
  {
    var k :| 0 <= k < |ops| && ops[k] == Identity(|c|);
    assert OperateOn(ops[k], c) == c;
  }

  /**
   * With the identity among the operations, a configuration found in a list
   * has an equivalent in it.
   */
  lemma InListHasEquivalent(c: seq<int>, list: seq<seq<int>>, ops: seq<SymmetryOperation>)
    requires AllOfLength(list, |c|) && AllApplyTo(ops, |c|) && Identity(|c|) in ops
    requires IsInList(c, list)
    ensures HasEquivalentInList(c, list, ops)
  {
    var j :| 0 <= j < |list| && list[j] == c;
    var k :| 0 <= k < |ops| && ops[k] == Identity(|c|);
    assert OperateOn(ops[k], c) == list[j];
  }

  // ---------------------------------------------------------------------
  // Numeric representation
  // ---------------------------------------------------------------------

  /** Every label is a single decimal digit. */
  predicate IsDigits(c: seq<int>) {
    forall i :: 0 <= i < |c| ==> 0 <= c[i] <= 9
  }

  function Pow10(n: nat): (r: nat)
    ensures r >= 1
  {
    if n == 0 then 1 else 10 * Pow10(n - 1)
  }

  /** `str(e)` of a one-digit label. */
  function DigitChar(d: int): char
    requires 0 <= d <= 9
  {
    ('0' as int + d) as char
  }

  /** `''.join(str(e) for e in c)` for one-digit labels. */
  function DigitString(c: seq<int>): (s: string)
    requires IsDigits(c)
    ensures |s| == |c| && forall i :: 0 <= i < |s| ==> '0' <= s[i] <= '9'
  {
    seq(|c|, i requires 0 <= i < |c| => DigitChar(c[i]))
  }

  /** Python's `int(s)` for a non-empty string of decimal digits. */
  function ParseInt(s: string): (r: nat)
    requires |s| >= 1 && forall i :: 0 <= i < |s| ==> '0' <= s[i] <= '9'
    ensures r < Pow10(|s|)
  {
    var d := s[|s| - 1] as int - '0' as int;
    if |s| == 1 then d else ParseInt(s[..|s| - 1]) * 10 + d
  }

  /** `as_number`: the labels read as the digits of one decimal number. */
  function AsNumber(c: seq<int>): (r: nat)
    requires |c| >= 1 && IsDigits(c)
    ensures r < Pow10(|c|)
  {
    ParseInt(DigitString(c))
  }

  /** The positional value of a digit sequence: the sum of `c[i] * 10^(|c| - 1 - i)`. */
  function PlaceValue(c: seq<int>): int {
    if c == [] then 0 else c[0] * Pow10(|c| - 1) + PlaceValue(c[1..])
  }

  /** `as_number` is the positional value of the labels. */
  lemma {:induction false} AsNumberIsPlaceValue(c: seq<int>)
    requires |c| >= 1 && IsDigits(c)
    ensures AsNumber(c) == PlaceValue(c)
  {
    var n := |c|;
    if n == 1 {
      assert PlaceValue(c) == c[0] + PlaceValue(c[1..]);
    } else {
      var front := c[..n - 1];
      assert DigitString(c)[..n - 1] == DigitString(front);
      AsNumberIsPlaceValue(front);
      PlaceValueAppend(front, c[n - 1]);
      assert front + [c[n - 1]] == c;
    }
  }

  lemma {:induction false} PlaceValueAppend(c: seq<int>, d: int)
    ensures PlaceValue(c + [d]) == PlaceValue(c) * 10 + d
  {
    if c != [] {
      assert (c + [d])[1..] == c[1..] + [d];
      PlaceValueAppend(c[1..], d);
      var p := Pow10(|c| - 1);
      assert c[0] * (10 * p) == (c[0] * p) * 10;
    }
  }

  lemma {:induction false} PlaceValueBound(c: seq<int>)
    requires IsDigits(c)
    ensures 0 <= PlaceValue(c) < Pow10(|c|)
  {
    if c != [] {
      PlaceValueBound(c[1..]);
      var p := Pow10(|c| - 1);
      assert c[0] * p <= 9 * p;
    }
  }

  /** A lexicographically smaller digit sequence of the same length has the smaller value. */
  lemma {:induction false} LexLessPlaceValue(a: seq<int>, b: seq<int>)
    requires |a| == |b| && IsDigits(a) && IsDigits(b)
    ensures LexLess(a, b) ==> PlaceValue(a) < PlaceValue(b)
  {
    if a != [] && LexLess(a, b) {
      var k :| 0 <= k < |a| && k < |b| && a[..k] == b[..k] && a[k] < b[k];
      var p := Pow10(|a| - 1);
      if k == 0 {
        PlaceValueBound(a[1..]);
        PlaceValueBound(b[1..]);
        LeadingDigitDecides(a[0], b[0], PlaceValue(a[1..]), PlaceValue(b[1..]), p);
      } else {
        assert a[0] == a[..k][0] == b[..k][0] == b[0];
        assert a[1..][..k - 1] == a[..k][1..] && b[1..][..k - 1] == b[..k][1..];
        assert a[1..][k - 1] == a[k] && b[1..][k - 1] == b[k];
        assert LexLess(a[1..], b[1..]);
        LexLessPlaceValue(a[1..], b[1..]);
      }
    }
  }

  lemma LeadingDigitDecides(x: int, y: int, ra: int, rb: int, p: int)
    requires 0 <= x < y && 0 <= ra < p && 0 <= rb
    ensures x * p + ra < y * p + rb
  {
    var d := y - x - 1;
    assert y * p == x * p + p + d * p;
    assert d * p >= 0;
  }

  /**
   * Among configurations of one length, `as_number` orders them exactly as
   * lexicographic order does, and so tells different ones apart.
   */
  lemma AsNumberOrder(a: seq<int>, b: seq<int>)
    requires |a| == |b| >= 1 && IsDigits(a) && IsDigits(b)
    ensures AsNumber(a) < AsNumber(b) <==> LexLess(a, b)
    ensures AsNumber(a) == AsNumber(b) <==> a == b
  {
    AsNumberIsPlaceValue(a);
    AsNumberIsPlaceValue(b);
    LexLessPlaceValue(a, b);
    LexLessPlaceValue(b, a);
    LexTotal(a, b);
  }

  /** `numeric_equivalents`: the `as_number` of each image of `c`, in operation order. */
  function NumericEquivalents(c: seq<int>, ops: seq<SymmetryOperation>): (r: seq<nat>)
    requires |c| >= 1 && IsDigits(c) && AllApplyTo(ops, |c|)
    ensures |r| == |ops|
    ensures forall k :: 0 <= k < |ops| ==> r[k] == AsNumber(OperateOn(ops[k], c))
  {
    if ops == [] then []
    else
      var rest := NumericEquivalents(c, ops[1..]);
      assert forall k :: 0 < k < |ops| ==> ops[k] == ops[1..][k - 1];
      [AsNumber(OperateOn(ops[0], c))] + rest
  }

  /** Python's `min` of a non-empty list. */
  function Min(s: seq<int>): (r: int)
    requires |s| >= 1
    ensures r in s && forall x :: x in s ==> r <= x
  {
    if |s| == 1 then s[0]
    else
      var m := Min(s[1..]);
      assert forall x :: x in s ==> x == s[0] || x in s[1..];
      if s[0] <= m then s[0] else m
  }

  /** The image of `c` under `ops[k]` is lexicographically least among its images. */
  ghost predicate IsLeastImage(c: seq<int>, ops: seq<SymmetryOperation>, k: int)
    requires AllApplyTo(ops, |c|) && 0 <= k < |ops|
  {
    forall j :: 0 <= j < |ops| ==> LexLessOrEqual(OperateOn(ops[k], c), OperateOn(ops[j], c))
  }

  /**
   * The lowest numeric representation under `ops` is the `as_number` of an
   * image of `c` exactly when that image is the lexicographically least one.
   */
  lemma LowestIsLeastImage(c: seq<int>, ops: seq<SymmetryOperation>, k: int)
    requires |c| >= 1 && IsDigits(c) && AllApplyTo(ops, |c|) && 0 <= k < |ops|
    ensures Min(NumericEquivalents(c, ops)) == AsNumber(OperateOn(ops[k], c)) <==> IsLeastImage(c, ops, k)
  {
    var e := NumericEquivalents(c, ops);
    forall j | 0 <= j < |ops|
      ensures e[k] <= e[j] <==> LexLessOrEqual(OperateOn(ops[k], c), OperateOn(ops[j], c))
    {
      AsNumberOrder(OperateOn(ops[k], c), OperateOn(ops[j], c));
    }
    MinAt(e, k);
  }

  /** `e[k]` is the minimum of `e` exactly when it is at most every element. */
  lemma MinAt(e: seq<int>, k: int)
    requires 0 <= k < |e|
    ensures Min(e) == e[k] <==> forall j :: 0 <= j < |e| ==> e[k] <= e[j]
  {
    forall j | 0 <= j < |e| ensures Min(e) <= e[j] {
      assert e[j] in e;
    }
    var i :| 0 <= i < |e| && e[i] == Min(e);
  }

  // ---------------------------------------------------------------------
  // Positions and object mapping
  // ---------------------------------------------------------------------

  predicate StrictlyIncreasing(s: seq<nat>) {
    forall i, j :: 0 <= i < j < |s| ==> s[i] < s[j]
  }

  /** `position`: the indices of `c` holding `target`. */
  function Position(c: seq<int>, target: int): (r: seq<nat>)
    ensures forall j :: 0 <= j < |r| ==> r[j] < |c|
  {
    if c == [] then []
    else
      var n := |c|;
      Position(c[..n - 1], target) + if c[n - 1] == target then [n - 1] else []
  }

  /**
   * `position` lists, in increasing order, exactly the indices of `c`
   * holding `target`, once each.
   */
  lemma PositionSpec(c: seq<int>, target: int)
    ensures StrictlyIncreasing(Position(c, target))
    ensures forall i :: 0 <= i < |c| ==> (i in Position(c, target) <==> c[i] == target)
    ensures |Position(c, target)| == multiset(c)[target]
  {
    PositionIncreasing(c, target);
    PositionMembers(c, target);
    PositionCount(c, target);
  }

  lemma {:induction false} PositionIncreasing(c: seq<int>, target: int)
    ensures StrictlyIncreasing(Position(c, target))
  {
    if c != [] {
      PositionIncreasing(c[..|c| - 1], target);
    }
  }

  lemma {:induction false} PositionMembers(c: seq<int>, target: int)
    ensures forall i :: 0 <= i < |c| ==> (i in Position(c, target) <==> c[i] == target)
  {
    if c != [] {
      var n := |c|;
      PositionMembers(c[..n - 1], target);
      forall i | 0 <= i < n ensures i in Position(c, target) <==> c[i] == target {
        if i < n - 1 {
          assert c[..n - 1][i] == c[i];
        }
      }
    }
  }

  lemma {:induction false} PositionCount(c: seq<int>, target: int)
    ensures |Position(c, target)| == multiset(c)[target]
  {
    if c != [] {
      var n := |c|;
      PositionCount(c[..n - 1], target);
      assert c == c[..n - 1] + [c[n - 1]];
      assert multiset(c) == multiset(c[..n - 1]) + multiset{c[n - 1]};
    }
  }

  /** The objects standing at the indices `idx`, in that order. */
  function Pick<T>(objects: seq<T>, idx: seq<nat>): (r: seq<T>)
    requires forall j :: 0 <= j < |idx| ==> idx[j] < |objects|
    ensures |r| == |idx|
  {
    seq(|idx|, j requires 0 <= j < |idx| => objects[idx[j]])
  }

  /** `[o for k, o in zip(c, objects) if k == key]`. */
  function ObjectsAt<T>(c: seq<int>, objects: seq<T>, key: int): (r: seq<T>)
    requires |objects| == |c|
    ensures |r| == multiset(c)[key]
  {
    if c == [] then []
    else
      var n := |c|;
      var front := ObjectsAt(c[..n - 1], objects[..n - 1], key);
      assert c == c[..n - 1] + [c[n - 1]];
      front + if c[n - 1] == key then [objects[n - 1]] else []
  }

  /** The objects grouped under `key` are exactly those at the positions of `key`, in order. */
  lemma {:induction false} ObjectsAtPositions<T>(c: seq<int>, objects: seq<T>, key: int)
    requires |objects| == |c|
    ensures ObjectsAt(c, objects, key) == Pick(objects, Position(c, key))
  {
    if c != [] {
      var n := |c|;
      ObjectsAtPositions(c[..n - 1], objects[..n - 1], key);
      var front := Position(c[..n - 1], key);
      var last: seq<nat> := if c[n - 1] == key then [n - 1] else [];
      assert Position(c, key) == front + last;
      PickPrefix(objects, n - 1, front);
      PickAppend(objects, front, last);
      assert Pick(objects, last) == if c[n - 1] == key then [objects[n - 1]] else [];
    }
  }

  lemma PickPrefix<T>(objects: seq<T>, m: nat, idx: seq<nat>)
    requires m <= |objects| && forall j :: 0 <= j < |idx| ==> idx[j] < m
    ensures Pick(objects[..m], idx) == Pick(objects, idx)
  {
  }

  lemma PickAppend<T>(objects: seq<T>, a: seq<nat>, b: seq<nat>)
    requires forall j :: 0 <= j < |a| ==> a[j] < |objects|
    requires forall j :: 0 <= j < |b| ==> b[j] < |objects|
    ensures Pick(objects, a + b) == Pick(objects, a) + Pick(objects, b)
  {
  }

  /** CPython keeps one shared object for each integer in -5..256. */
  predicate SmallIntCached(x: int) {
    -5 <= x <= 256
  }

  /**
   * `k is key` on two integers taken from two separate `tolist()` calls:
   * true only when they are equal and CPython shares their object.
   */
  predicate SameObject(k: int, key: int) {
    k == key && SmallIntCached(k)
  }

  /** The comprehension of `map_objects` as written, with `k is key`. */
  function ObjectsAtAsWritten<T>(c: seq<int>, objects: seq<T>, key: int): (r: seq<T>)
    requires |objects| == |c|
    ensures SmallIntCached(key) ==> r == ObjectsAt(c, objects, key)
    ensures !SmallIntCached(key) ==> r == []
  {
    if c == [] then []
    else
      var n := |c|;
      ObjectsAtAsWritten(c[..n - 1], objects[..n - 1], key)
        + if SameObject(c[n - 1], key) then [objects[n - 1]] else []
  }

  /** With the label 300, the objects at that label are lost as written. */
  lemma LargeLabelLosesObjects()
    ensures ObjectsAtAsWritten([300], [7], 300) == []
    ensures ObjectsAt([300], [7], 300) == [7]
  {
    assert [300][..0] == [];
  }

  /** The labels of `c`, each once. */
  function LabelSet(c: seq<int>): (r: set<int>)
    ensures r == set x | x in DistinctValues(c)
    ensures |r| == |DistinctValues(c)|
  {
    var r := set x | x in c;
    DistinctCardinality(DistinctValues(c));
    r
  }

  /**
   * The lists of a complete object mapping together hold every object once:
   * their lengths add up to the number of objects.
   */
  lemma MappedObjectsTotal<T>(c: seq<int>, objects: seq<T>, m: map<int, seq<T>>)
    requires |objects| == |c|
    requires m.Keys == LabelSet(c) && forall k :: k in m ==> m[k] == ObjectsAt(c, objects, k)
    ensures var labels := DistinctValues(c);
      Permutations.Sum(seq(|labels|, i requires 0 <= i < |labels| => |m[labels[i]]|)) == |objects|
  {
    var labels := DistinctValues(c);
    var sizes := seq(|labels|, i requires 0 <= i < |labels| => |m[labels[i]]|);
    forall i | 0 <= i < |labels| ensures sizes[i] == multiset(c)[labels[i]] {
      var x := labels[i];
      assert x in LabelSet(c);
      var group := ObjectsAt(c, objects, x);
      assert m[x] == group;
      assert |group| == multiset(c)[x];
    }
    assert sizes == Permutations.Multiplicities(labels, c);
    Permutations.BagOfMultiplicities(labels, c);
    Permutations.BagSize(labels, sizes);
    assert |multiset(c)| == |c|;
  }

  /** The error `map_objects` raises. */
  datatype Error = ValueError

  class Configuration {
    /** The labels, in position order. */
    const labels: seq<int>
    /** The cached `lowest_numeric_representation`; `None` until it is set. */
    var lowestNumericRepresentation: Option<int>

    /** `Configuration.from_tuple`. */
    constructor FromTuple(t: seq<int>)
      ensures ToList() == t && lowestNumericRepresentation == None
    {
      labels := t;
      lowestNumericRepresentation := None;
    }

    /** `Configuration.from_vector`. */
    constructor FromVector(v: seq<int>)
      ensures ToList() == v && lowestNumericRepresentation == None
    {
      labels := v;
      lowestNumericRepresentation := None;
    }

    /** `tolist`. */
    function ToList(): seq<int> {
      labels
    }

    /**
     * `set_lowest_numeric_representation`: caches the least `as_number` over
     * the images of this configuration under `ops`. With no operations
     * (`min` of an empty list) or no labels (`int('')`) Python raises
     * `ValueError` and the cache is left as it was.
     */
    method SetLowestNumericRepresentation(ops: seq<SymmetryOperation>) returns (r: Result<(), Error>)
      requires IsDigits(labels) && AllApplyTo(ops, |labels|)
      modifies this
      ensures r.Failure? <==> |ops| == 0 || |labels| == 0
      ensures r.Failure? ==> lowestNumericRepresentation == old(lowestNumericRepresentation)
      ensures r.Success? ==> lowestNumericRepresentation.Some?
      ensures r.Success? ==> lowestNumericRepresentation.value in NumericEquivalents(labels, ops)
      ensures r.Success? ==> forall x :: x in NumericEquivalents(labels, ops) ==> lowestNumericRepresentation.value <= x
    {
      if |ops| == 0 || |labels| == 0 {
        return Failure(ValueError);
      }
      lowestNumericRepresentation := Some(Min(NumericEquivalents(labels, ops)));
      r := Success(());
    }

    /**
     * `map_objects`: groups `objects`, which stand one per position, by the
     * label at their position.
     */
    method MapObjects<T>(objects: seq<T>) returns (r: Result<map<int, seq<T>>, Error>)
      ensures r.Failure? <==> |objects| != |labels|
      ensures r.Success? ==> r.value.Keys == LabelSet(labels)
      ensures r.Success? ==> forall k :: k in r.value ==> r.value[k] == ObjectsAt(labels, objects, k)
      ensures r.Success? ==> forall k :: k in r.value ==> r.value[k] == Pick(objects, Position(labels, k))
    {
      if |objects| != |labels| {
        return Failure(ValueError);
      }
      var sorted: map<int, seq<T>> := map[];
      var keys := DistinctValues(labels);
      for i := 0 to |keys|
        invariant sorted == map k | k in keys[..i] :: ObjectsAt(labels, objects, k)
      {
        assert keys[..i + 1] == keys[..i] + [keys[i]];
        sorted := sorted[keys[i] := ObjectsAt(labels, objects, keys[i])];
      }
      assert keys[..|keys|] == keys;
      forall k | k in sorted ensures sorted[k] == Pick(objects, Position(labels, k)) {
        ObjectsAtPositions(labels, objects, k);
      }
      r := Success(sorted);
    }
  }
}
