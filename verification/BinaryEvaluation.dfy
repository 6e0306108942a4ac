/** The approved network evaluated in binary32. Products and sums are rounded,
    by any rounding that leaves binary32 numbers alone, and each sum may be
    added up in any shape and order. Nothing is ever lost. */
module BinaryEvaluation {
  import opened Basics
  import opened DecisionNetwork

  /** 2^-e. */
  function Step(e: nat): real { if e == 0 then 1.0 else Step(e - 1) / 2.0 }

  /** n units of 2^-e. */
  function Ratio(n: int, e: nat): real { n as real * Step(e) }

  /** Every rounding of IEEE 754-2019 (section 4.3) is one: a 24-bit significand
      over a power of two is a binary32 number, and a number of the format is
      its own rounding. */
  ghost predicate Faithful(round: real -> real) {
    forall n: int, e: nat :: Abs(n) < EXACT && e <= 149 ==> round(Ratio(n, e)) == Ratio(n, e)
  }

  /** In which shape and order the terms of a sum are added. */
  datatype Order = Term(index: nat) | Plus(left: Order, right: Order) {
    ghost function Indices(): seq<int> {
      match this
      case Term(i) => [i]
      case Plus(l, r) => l.Indices() + r.Indices()
    }

    ghost predicate Within(n: nat) {
      match this
      case Term(i) => i < n
      case Plus(l, r) => l.Within(n) && r.Within(n)
    }

    /** Each of n terms is added once. */
    ghost predicate Adds(n: nat) { Within(n) && multiset(Indices()) == multiset(Range(n)) }
  }

  ghost function Range(n: nat): seq<int> { if n == 0 then [] else Range(n - 1) + [n - 1] }

  ghost function Added(round: real -> real, terms: seq<real>, order: Order): real
    requires order.Within(|terms|)
  {
    match order
    case Term(i) => terms[i]
    case Plus(l, r) => round(Added(round, terms, l) + Added(round, terms, r))
  }

  // --------------------------------------------------------- exact sums

  /** The terms are these numerators over 2^e. */
  ghost predicate Numerators(terms: seq<real>, nums: int -> int, e: nat) {
    forall i :: 0 <= i < |terms| ==> terms[i] == Ratio(nums(i), e)
  }

  lemma RatiosAdd(a: int, b: int, e: nat)
    ensures Ratio(a, e) + Ratio(b, e) == Ratio(a + b, e)
  {
  }

  /** As long as the magnitudes add up to less than 2^24, no rounding changes a sum. */
  lemma {:induction false} AddedIsExact(round: real -> real, terms: seq<real>, nums: int -> int, sizes: int -> int,
                                        e: nat, order: Order)
    requires Faithful(round) && e <= 149 && order.Within(|terms|) && Numerators(terms, nums, e)
    requires forall i :: sizes(i) == Abs(nums(i))
    requires Total(sizes, order.Indices()) < EXACT
    ensures Abs(Total(nums, order.Indices())) <= Total(sizes, order.Indices())
    ensures Added(round, terms, order) == Ratio(Total(nums, order.Indices()), e)
  {
    hide Total, Ratio;
    match order {
      case Term(i) =>
        TotalOfOne<int>(nums, i);
        TotalOfOne<int>(sizes, i);
        assert sizes(i) == Abs(nums(i));
      case Plus(l, r) =>
        TotalConcat(nums, l.Indices(), r.Indices());
        TotalConcat(sizes, l.Indices(), r.Indices());
        SizesArePositive(sizes, l.Indices());
        SizesArePositive(sizes, r.Indices());
        AddedIsExact(round, terms, nums, sizes, e, l);
        AddedIsExact(round, terms, nums, sizes, e, r);
        RatiosAdd(Total(nums, l.Indices()), Total(nums, r.Indices()), e);
        assert Abs(Total(nums, order.Indices())) <= Total(sizes, order.Indices());
    }
  }

  lemma {:induction false} SizesArePositive(sizes: int -> int, indices: seq<int>)
    requires forall i :: sizes(i) >= 0
    ensures Total(sizes, indices) >= 0
  {
    if indices != [] {
      SizesArePositive(sizes, indices[..|indices| - 1]);
    }
  }

  /** The numerators of a sequence, by index. */
  ghost function At(xs: seq<int>): int -> int { i => if 0 <= i < |xs| then xs[i] else 0 }

  ghost function Sizes(xs: seq<int>): int -> int { i => if 0 <= i < |xs| then Abs(xs[i]) else 0 }

  lemma {:induction false} TotalOfRange(xs: seq<int>, n: nat)
    requires n <= |xs|
    ensures Total(At(xs), Range(n)) == Sum(xs[..n])
    ensures Total(Sizes(xs), Range(n)) == AbsSum(xs[..n])
  {
    if n > 0 {
      assert xs[..n][..n - 1] == xs[..n - 1];
      TotalOfRange(xs, n - 1);
      TotalConcat(At(xs), Range(n - 1), [n - 1]);
      TotalConcat(Sizes(xs), Range(n - 1), [n - 1]);
      TotalOfOne(At(xs), n - 1);
      TotalOfOne(Sizes(xs), n - 1);
    }
  }

  /** However the terms are added, the result is their sum. */
  lemma SumIsExact(round: real -> real, terms: seq<real>, xs: seq<int>, e: nat, order: Order)
    requires Faithful(round) && e <= 149 && |terms| == |xs| && order.Adds(|xs|)
    requires forall i :: 0 <= i < |xs| ==> terms[i] == Ratio(xs[i], e)
    requires AbsSum(xs) < EXACT
    ensures Added(round, terms, order) == Ratio(Sum(xs), e)
  {
    hide Sum, AbsSum, Ratio, Added, Total;
    assert xs[..|xs|] == xs;
    TotalOfRange(xs, |xs|);
    TotalPermuted(At(xs), order.Indices(), Range(|xs|));
    TotalPermuted(Sizes(xs), order.Indices(), Range(|xs|));
    AddedIsExact(round, terms, At(xs), Sizes(xs), e, order);
  }

  // ------------------------------------------------------------ the network

  /** The features as binary32 numbers. */
  ghost function Loaded(round: real -> real, features: seq<int>): (r: seq<real>)
    ensures |r| == |features|
  {
    seq(|features|, i requires 0 <= i < |features| => round(Ratio(features[i], 0)))
  }

  /** A value times a parameter, which is an integer over 256. */
  ghost function Product(round: real -> real, x: real, parameter: int): real {
    round(Times(x, Ratio(parameter, 8)))
  }

  ghost function Times(x: real, y: real): real { x * y }

  /** The rounded products of one unit, and its bias. */
  ghost function UnitInputs(round: real -> real, inputs: seq<real>, p: Parameters, u: nat): (r: seq<real>)
    requires p.Shaped(|inputs|) && u < |p.bias1|
    ensures |r| == |inputs| + 1
  {
    seq(|inputs|, i requires 0 <= i < |inputs| => Product(round, inputs[i], p.weights1[i][u])) +
    [Ratio(p.bias1[u], 8)]
  }

  ghost function UnitValue(round: real -> real, inputs: seq<real>, p: Parameters, u: nat, order: Order): real
    requires p.Shaped(|inputs|) && u < |p.bias1| && order.Adds(|inputs| + 1)
  {
    var sum := Added(round, UnitInputs(round, inputs, p, u), order);
    if sum > 0.0 then sum else 0.0
  }

  ghost function LogitInputs(round: real -> real, hidden: seq<real>, p: Parameters, c: nat): (r: seq<real>)
    requires IsMatrix(p.weights2, |hidden|, 2) && |p.bias2| == 2 && c < 2
    ensures |r| == |hidden| + 1
  {
    seq(|hidden|, u requires 0 <= u < |hidden| => Product(round, hidden[u], p.weights2[u][c])) +
    [Ratio(p.bias2[c], 8)]
  }

  /** In which order each unit and each logit adds its terms. */
  datatype Schedule = Schedule(units: seq<Order>, wait: Order, execute: Order) {
    ghost predicate Fits(inputs: nat, hidden: nat) {
      && |units| == hidden && (forall u :: 0 <= u < hidden ==> units[u].Adds(inputs + 1))
      && wait.Adds(hidden + 1) && execute.Adds(hidden + 1)
    }
  }

  ghost function HiddenValues(round: real -> real, inputs: seq<real>, p: Parameters, s: Schedule): (r: seq<real>)
    requires p.Shaped(|inputs|) && s.Fits(|inputs|, |p.bias1|)
    ensures |r| == |p.bias1|
  {
    seq(|p.bias1|, u requires 0 <= u < |p.bias1| => UnitValue(round, inputs, p, u, s.units[u]))
  }

  ghost function LogitValue(round: real -> real, features: seq<int>, p: Parameters, s: Schedule, c: nat): real
    requires p.Shaped(|features|) && s.Fits(|features|, |p.bias1|) && c < 2
  {
    var hidden := HiddenValues(round, Loaded(round, features), p, s);
    Added(round, LogitInputs(round, hidden, p, c), if c == 0 then s.wait else s.execute)
  }

  ghost predicate DecidesInBinary32(round: real -> real, features: seq<int>, p: Parameters, s: Schedule)
    requires p.Shaped(|features|) && s.Fits(|features|, |p.bias1|)
  {
    LogitValue(round, features, p, s, 1) > LogitValue(round, features, p, s, 0)
  }

  /** Nothing escapes rounding: where every rounding answers the same number, so
      does every loaded feature, every product, and every sum of two terms or more. */
  lemma InputsAreRounded(round: real -> real, same: real, features: seq<int>, inputs: seq<real>, p: Parameters, u: nat)
    requires (forall x :: round(x) == same) && p.Shaped(|inputs|) && u < |p.bias1|
    ensures forall i :: 0 <= i < |features| ==> Loaded(round, features)[i] == same
    ensures forall i :: 0 <= i < |inputs| ==> UnitInputs(round, inputs, p, u)[i] == same
  {
  }

  lemma UnitsAreRounded(round: real -> real, same: real, inputs: seq<real>, p: Parameters, u: nat, order: Order)
    requires forall x :: round(x) == same
    requires p.Shaped(|inputs|) && u < |p.bias1| && 0 < |inputs| && order.Adds(|inputs| + 1)
    ensures UnitValue(round, inputs, p, u, order) == if same > 0.0 then same else 0.0
  {
    LongSumsAreRounded(round, same, UnitInputs(round, inputs, p, u), order);
  }

  lemma LogitsAreRounded(round: real -> real, same: real, features: seq<int>, p: Parameters, s: Schedule, c: nat)
    requires forall x :: round(x) == same
    requires p.Shaped(|features|) && s.Fits(|features|, |p.bias1|) && c < 2 && 0 < |p.bias1|
    ensures LogitValue(round, features, p, s, c) == same
  {
    var hidden := HiddenValues(round, Loaded(round, features), p, s);
    hide HiddenValues, Added;
    LongSumsAreRounded(round, same, LogitInputs(round, hidden, p, c), if c == 0 then s.wait else s.execute);
  }

  lemma LongSumsAreRounded(round: real -> real, same: real, terms: seq<real>, order: Order)
    requires (forall x :: round(x) == same) && |terms| > 1 && order.Adds(|terms|)
    ensures Added(round, terms, order) == same
  {
    RangeIsLong(|terms|);
    assert |multiset(order.Indices())| == |order.Indices()| && |multiset(Range(|terms|))| == |terms|;
  }

  lemma {:induction false} RangeIsLong(n: nat)
    ensures |Range(n)| == n
  {
    if n > 0 {
      RangeIsLong(n - 1);
    }
  }

  // -------------------------------------------------------------- exactness

  lemma {:induction false} TermWithin(terms: seq<int>, i: nat)
    requires i < |terms|
    ensures Abs(terms[i]) <= AbsSum(terms)
  {
    if i < |terms| - 1 {
      TermWithin(terms[..|terms| - 1], i);
    }
  }

  lemma {:induction false} StepPositive(e: nat)
    ensures Step(e) > 0.0
  {
    if e > 0 {
      StepPositive(e - 1);
    }
  }

  lemma Step4(e: nat)
    ensures Step(e) == 16.0 * Step(e + 4)
  {
    assert Step(e) == 2.0 * Step(e + 1) == 4.0 * Step(e + 2) == 8.0 * Step(e + 3);
  }

  lemma Scales()
    ensures Step(0) == 1.0 && Step(8) == 1.0 / 256.0 && Step(16) == 1.0 / 65536.0
  {
    Step4(0);
    Step4(4);
    Step4(8);
    Step4(12);
  }

  lemma RatiosMultiply(a: int, b: int)
    ensures Times(Ratio(a, 0), Ratio(b, 8)) == Ratio(a * b, 8)
    ensures Times(Ratio(a, 8), Ratio(b, 8)) == Ratio(a * b, 16)
    ensures Ratio(a, 8) == Ratio(a * PARAMETER_SCALE, 16)
  {
    Scales();
  }

  lemma ProductIsExact(round: real -> real, a: int, b: int)
    requires Faithful(round) && Abs(a * b) < EXACT
    ensures Product(round, Ratio(a, 0), b) == Ratio(a * b, 8)
    ensures Product(round, Ratio(a, 8), b) == Ratio(a * b, 16)
  {
    var n := a * b;
    RatiosMultiply(a, b);
    hide Ratio, Times;
    assert round(Ratio(n, 8)) == Ratio(n, 8) && round(Ratio(n, 16)) == Ratio(n, 16);
  }

  lemma ReluOfRatio(n: int, e: nat)
    ensures (if Ratio(n, e) > 0.0 then Ratio(n, e) else 0.0) == Ratio(Relu(n), e)
  {
    StepPositive(e);
  }

  /** No unit and no logit adds up magnitudes beyond the exact integers. */
  ghost predicate Small(values: seq<int>, p: Parameters)
    requires p.Shaped(|values|)
  {
    && (forall i :: 0 <= i < |values| ==> Abs(values[i]) < EXACT)
    && (forall u :: 0 <= u < |p.bias1| ==> AbsSum(UnitTerms(values, p, u)) < EXACT)
    && (forall c :: 0 <= c < 2 ==> AbsSum(LogitTerms(values, p, c)) < EXACT)
  }

  lemma UnitInputsAreExact(round: real -> real, values: seq<int>, p: Parameters, u: nat, i: nat)
    requires Faithful(round) && p.Shaped(|values|) && Small(values, p) && u < |p.bias1| && i <= |values|
    ensures UnitInputs(round, Loaded(round, values), p, u)[i] == Ratio(UnitTerms(values, p, u)[i], 8)
  {
    hide Ratio, AbsSum;
    var terms := UnitTerms(values, p, u);
    TermWithin(terms, i);
    if i < |values| {
      var inputs := Loaded(round, values);
      assert inputs[i] == round(Ratio(values[i], 0)) == Ratio(values[i], 0);
      assert UnitInputs(round, inputs, p, u)[i] == Product(round, inputs[i], p.weights1[i][u]);
      assert terms[i] == values[i] * p.weights1[i][u];
      ProductIsExact(round, values[i], p.weights1[i][u]);
    }
  }

  lemma UnitIsExact(round: real -> real, values: seq<int>, p: Parameters, u: nat, order: Order)
    requires Faithful(round) && p.Shaped(|values|) && Small(values, p) && u < |p.bias1| && order.Adds(|values| + 1)
    ensures UnitValue(round, Loaded(round, values), p, u, order) == Ratio(Unit(values, p, u), 8)
  {
    var inputs := Loaded(round, values);
    var terms := UnitTerms(values, p, u);
    hide Unit, UnitInputs, Sum, AbsSum, Ratio, Added, Loaded, Faithful;
    forall i | 0 <= i <= |values|
      ensures UnitInputs(round, inputs, p, u)[i] == Ratio(terms[i], 8)
    {
      UnitInputsAreExact(round, values, p, u, i);
    }
    SumIsExact(round, UnitInputs(round, inputs, p, u), terms, 8, order);
    ReluOfRatio(Sum(terms), 8);
    TermsAddUp(values, p, u, 0);
  }

  lemma LogitInputsAreExact(round: real -> real, values: seq<int>, p: Parameters, hidden: seq<real>, c: nat, i: nat)
    requires Faithful(round) && p.Shaped(|values|) && Small(values, p)
    requires c < 2 && |hidden| == |p.bias1| && i <= |hidden|
    requires forall u :: 0 <= u < |hidden| ==> hidden[u] == Ratio(Unit(values, p, u), 8)
    ensures LogitInputs(round, hidden, p, c)[i] == Ratio(LogitTerms(values, p, c)[i], 16)
  {
    hide Ratio, AbsSum, Unit;
    var terms := LogitTerms(values, p, c);
    TermWithin(terms, i);
    if i < |hidden| {
      assert LogitInputs(round, hidden, p, c)[i] == Product(round, hidden[i], p.weights2[i][c]);
      assert terms[i] == Unit(values, p, i) * p.weights2[i][c];
      ProductIsExact(round, Unit(values, p, i), p.weights2[i][c]);
    } else {
      RatiosMultiply(p.bias2[c], 0);
    }
  }

  /** A network with small terms loses nothing in binary32, however its sums are scheduled. */
  lemma LogitIsExact(round: real -> real, values: seq<int>, p: Parameters, s: Schedule, c: nat)
    requires Faithful(round) && p.Shaped(|values|) && Small(values, p) && s.Fits(|values|, |p.bias1|) && c < 2
    ensures LogitValue(round, values, p, s, c) == Ratio(Logit(values, p, c), 16)
  {
    var hidden := HiddenValues(round, Loaded(round, values), p, s);
    var terms := LogitTerms(values, p, c);
    hide Unit, Logit, Sum, AbsSum, Ratio, Added, Loaded, LogitInputs, UnitValue, Faithful;
    forall u | 0 <= u < |p.bias1|
      ensures hidden[u] == Ratio(Unit(values, p, u), 8)
    {
      UnitIsExact(round, values, p, u, s.units[u]);
    }
    forall i | 0 <= i <= |hidden|
      ensures LogitInputs(round, hidden, p, c)[i] == Ratio(terms[i], 16)
    {
      LogitInputsAreExact(round, values, p, hidden, c, i);
    }
    SumIsExact(round, LogitInputs(round, hidden, p, c), terms, 16, if c == 0 then s.wait else s.execute);
    LogitSum(values, p, c);
  }

  lemma LogitSum(values: seq<int>, p: Parameters, c: nat)
    requires p.Shaped(|values|) && c < 2
    ensures Sum(LogitTerms(values, p, c)) == Logit(values, p, c)
  {
    if |p.bias1| > 0 {
      TermsAddUp(values, p, 0, c);
    }
  }

  lemma ApprovedIsSmall(features: seq<int>)
    requires InDomain(features)
    ensures Small(features, EXPECTED)
  {
    hide AbsSum, UnitTerms, LogitTerms;
    forall u | 0 <= u < |EXPECTED.bias1|
      ensures AbsSum(UnitTerms(features, EXPECTED, u)) < EXACT
    {
      UnitTermsBounded(features, u);
    }
    LogitTermsBounded(features, 0);
    LogitTermsBounded(features, 1);
  }

  lemma SameDecision(round: real -> real, values: seq<int>, p: Parameters, s: Schedule)
    requires Faithful(round) && p.Shaped(|values|) && Small(values, p) && s.Fits(|values|, |p.bias1|)
    ensures DecidesInBinary32(round, values, p, s) <==> Decides(values, p)
  {
    hide LogitValue, Logit, Small, Ratio, Faithful;
    LogitIsExact(round, values, p, s, 0);
    LogitIsExact(round, values, p, s, 1);
    RatiosCompare(Logit(values, p, 1), Logit(values, p, 0), 16);
  }

  lemma RatiosCompare(a: int, b: int, e: nat)
    ensures Ratio(a, e) > Ratio(b, e) <==> a > b
  {
    StepPositive(e);
  }

  /** On the approved domains the network in binary32, however its sums are
      scheduled, decides as the relation. */
  lemma BinaryIsRelation(round: real -> real, features: seq<int>, s: Schedule)
    requires Faithful(round) && InDomain(features) && s.Fits(6, 8)
    ensures DecidesInBinary32(round, features, EXPECTED, s) <==> RelationDecision(features) == Some(true)
  {
    hide Decides, DecidesInBinary32, Faithful, Small, Score;
    ApprovedIsSmall(features);
    SameDecision(round, features, EXPECTED, s);
    ApprovedNetworkIsRelation(features);
  }
}
