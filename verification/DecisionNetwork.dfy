/** The quantised two-layer decision network against the linear relation it was trained to be. */
module DecisionNetwork {
  import opened Basics

  function Relu(x: int): nat { if x > 0 then x else 0 }

  function Dot(a: seq<int>, b: seq<int>): int
    requires |a| == |b|
  {
    if a == [] then 0 else Dot(a[..|a| - 1], b[..|a| - 1]) + a[|a| - 1] * b[|a| - 1]
  }

  // ------------------------------------------------------------ the relation

  /** The centred linear score. */
  function Score(values: seq<int>, centers: seq<int>, coefficients: seq<int>): int
    requires |values| == |centers| == |coefficients|
  {
    if values == [] then 0
    else
      var n := |values| - 1;
      Score(values[..n], centers[..n], coefficients[..n]) + coefficients[n] * (values[n] - centers[n])
  }

  // ------------------------------------------------------------- the network

  type Matrix = seq<seq<int>>

  predicate IsMatrix(m: Matrix, rows: nat, columns: nat) {
    |m| == rows && forall i :: 0 <= i < rows ==> |m[i]| == columns
  }

  /** Integer parameters of a network with two logits, WAIT and EXECUTE. */
  datatype Parameters = Parameters(weights1: Matrix, bias1: seq<int>, weights2: Matrix, bias2: seq<int>) {
    predicate Shaped(inputs: nat) {
      IsMatrix(weights1, inputs, |bias1|) && IsMatrix(weights2, |bias1|, 2) && |bias2| == 2
    }
  }

  const PARAMETER_SCALE := 256

  function Column(m: Matrix, column: nat, rows: nat, columns: nat): (r: seq<int>)
    requires IsMatrix(m, rows, columns) && column < columns
    ensures |r| == rows
  {
    seq(rows, i requires 0 <= i < rows => m[i][column])
  }

  function Unit(values: seq<int>, p: Parameters, u: nat): nat
    requires p.Shaped(|values|) && u < |p.bias1|
  {
    Relu(Dot(values, Column(p.weights1, u, |values|, |p.bias1|)) + p.bias1[u])
  }

  function Hidden(values: seq<int>, p: Parameters): (r: seq<int>)
    requires p.Shaped(|values|)
    ensures |r| == |p.bias1|
  {
    seq(|p.bias1|, u requires 0 <= u < |p.bias1| => Unit(values, p, u))
  }

  function Logit(values: seq<int>, p: Parameters, c: nat): int
    requires p.Shaped(|values|) && c < 2
  {
    Dot(Hidden(values, p), Column(p.weights2, c, |p.bias1|, 2)) + p.bias2[c] * PARAMETER_SCALE
  }

  /** EXECUTE strictly above WAIT; a tie waits. */
  predicate Decides(values: seq<int>, p: Parameters)
    requires p.Shaped(|values|)
  {
    Logit(values, p, 1) > Logit(values, p, 0)
  }

  // ------------------------------------- duplicated positive/negative units

  function Negated(s: seq<int>): seq<int> { seq(|s|, i requires 0 <= i < |s| => -s[i]) }

  function Repeat(x: int, n: nat): seq<int> { seq(n, _ => x) }

  /** `copies` units that compute the score, `copies` that compute its
      negation, and a positive weight from each kind to its own logit. */
  function Duplicated(centers: seq<int>, coefficients: seq<int>, copies: nat, weight: nat): (p: Parameters)
    requires |centers| == |coefficients|
    ensures p.Shaped(|centers|) && |p.bias1| == 2 * copies
  {
    var bias := Dot(centers, coefficients);
    Parameters(
      seq(|coefficients|, i requires 0 <= i < |coefficients| =>
        Repeat(coefficients[i], copies) + Repeat(-coefficients[i], copies)),
      Repeat(-bias, copies) + Repeat(bias, copies),
      seq(2 * copies, u => if u < copies then [0, weight] else [weight, 0]),
      [0, 0])
  }

  lemma {:induction false} ScoreIsDot(values: seq<int>, centers: seq<int>, coefficients: seq<int>)
    requires |values| == |centers| == |coefficients|
    ensures Score(values, centers, coefficients) == Dot(values, coefficients) - Dot(centers, coefficients)
  {
    if values != [] {
      var n := |values| - 1;
      ScoreIsDot(values[..n], centers[..n], coefficients[..n]);
      assert coefficients[n] * (values[n] - centers[n]) == values[n] * coefficients[n] - centers[n] * coefficients[n];
    }
  }

  lemma {:induction false} DotNegated(a: seq<int>, b: seq<int>)
    requires |a| == |b|
    ensures Dot(a, Negated(b)) == -Dot(a, b)
  {
    if a != [] {
      var n := |a| - 1;
      DotNegated(a[..n], b[..n]);
      assert Negated(b)[..n] == Negated(b[..n]);
      assert a[n] * -b[n] == -(a[n] * b[n]);
    }
  }

  lemma {:induction false} DotConcat(a: seq<int>, b: seq<int>, c: seq<int>, d: seq<int>)
    requires |a| == |b| && |c| == |d|
    ensures Dot(a + c, b + d) == Dot(a, b) + Dot(c, d)
  {
    if c == [] {
      assert a + c == a && b + d == b;
    } else {
      var n := |c| - 1;
      assert (a + c)[..|a| + n] == a + c[..n] && (b + d)[..|a| + n] == b + d[..n];
      DotConcat(a, b, c[..n], d[..n]);
    }
  }

  lemma {:induction false} DotRepeat(x: int, y: int, n: nat)
    ensures Dot(Repeat(x, n), Repeat(y, n)) == n * (x * y)
  {
    if n > 0 {
      DotRepeat(x, y, n - 1);
      assert Repeat(x, n)[..n - 1] == Repeat(x, n - 1) && Repeat(y, n)[..n - 1] == Repeat(y, n - 1);
    }
  }

  lemma FirstColumn(centers: seq<int>, coefficients: seq<int>, copies: nat, weight: nat, u: nat)
    requires |centers| == |coefficients| && u < 2 * copies
    ensures var p := Duplicated(centers, coefficients, copies, weight);
            && Column(p.weights1, u, |centers|, 2 * copies) ==
               (if u < copies then coefficients else Negated(coefficients))
            && p.bias1[u] == (if u < copies then -Dot(centers, coefficients) else Dot(centers, coefficients))
  {
    hide Dot, Duplicated, Repeat;
    var p := Duplicated(centers, coefficients, copies, weight);
    var column := Column(p.weights1, u, |centers|, 2 * copies);
    BiasAt(centers, coefficients, copies, weight, u);
    forall i | 0 <= i < |centers|
      ensures column[i] == if u < copies then coefficients[i] else -coefficients[i]
    {
      WeightAt(centers, coefficients, copies, weight, i, u);
    }
  }

  lemma WeightAt(centers: seq<int>, coefficients: seq<int>, copies: nat, weight: nat, i: nat, u: nat)
    requires |centers| == |coefficients| && i < |centers| && u < 2 * copies
    ensures Duplicated(centers, coefficients, copies, weight).weights1[i][u] ==
            if u < copies then coefficients[i] else -coefficients[i]
  {
    hide Dot;
    var p := Duplicated(centers, coefficients, copies, weight);
    assert p.weights1[i] == Repeat(coefficients[i], copies) + Repeat(-coefficients[i], copies);
  }

  lemma BiasAt(centers: seq<int>, coefficients: seq<int>, copies: nat, weight: nat, u: nat)
    requires |centers| == |coefficients| && u < 2 * copies
    ensures Duplicated(centers, coefficients, copies, weight).bias1[u] ==
            if u < copies then -Dot(centers, coefficients) else Dot(centers, coefficients)
  {
    hide Dot;
  }

  lemma SecondColumns(centers: seq<int>, coefficients: seq<int>, copies: nat, weight: nat)
    requires |centers| == |coefficients|
    ensures var p := Duplicated(centers, coefficients, copies, weight);
            && Column(p.weights2, 0, 2 * copies, 2) == Repeat(0, copies) + Repeat(weight, copies)
            && Column(p.weights2, 1, 2 * copies, 2) == Repeat(weight, copies) + Repeat(0, copies)
            && p.bias2 == [0, 0]
  {
    hide Dot;
  }

  /** The hidden layer is the positive and the negative part of the score, copied. */
  lemma HiddenIsScore(values: seq<int>, centers: seq<int>, coefficients: seq<int>, copies: nat, weight: nat)
    requires |values| == |centers| == |coefficients|
    ensures var s := Score(values, centers, coefficients);
            Hidden(values, Duplicated(centers, coefficients, copies, weight)) ==
            Repeat(Relu(s), copies) + Repeat(Relu(-s), copies)
  {
    hide Dot, Duplicated, Column, Score;
    var s := Score(values, centers, coefficients);
    var p := Duplicated(centers, coefficients, copies, weight);
    ScoreIsDot(values, centers, coefficients);
    DotNegated(values, coefficients);
    forall u | 0 <= u < 2 * copies
      ensures Unit(values, p, u) == if u < copies then Relu(s) else Relu(-s)
    {
      FirstColumn(centers, coefficients, copies, weight, u);
    }
    hide Unit, Relu;
  }

  /** Whatever the coefficients, the centres and the number of copies, the
      network decides exactly as the sign of the linear score, ties waiting. */
  lemma NetworkIsRelation(values: seq<int>, centers: seq<int>, coefficients: seq<int>, copies: nat, weight: nat)
    requires |values| == |centers| == |coefficients| && copies > 0 && weight > 0
    ensures Decides(values, Duplicated(centers, coefficients, copies, weight)) <==>
            Score(values, centers, coefficients) > 0
  {
    hide Dot, Duplicated, Column, Score, Hidden, Repeat;
    var s := Score(values, centers, coefficients);
    HiddenIsScore(values, centers, coefficients, copies, weight);
    SecondColumns(centers, coefficients, copies, weight);
    LogitIs(s, copies, weight);
    Positive(copies, s, weight);
  }

  lemma LogitIs(s: int, copies: nat, weight: nat)
    ensures var hidden := Repeat(Relu(s), copies) + Repeat(Relu(-s), copies);
            && Dot(hidden, Repeat(weight, copies) + Repeat(0, copies)) == copies * (Relu(s) * weight)
            && Dot(hidden, Repeat(0, copies) + Repeat(weight, copies)) == copies * (Relu(-s) * weight)
  {
    hide Dot;
    DotConcat(Repeat(Relu(s), copies), Repeat(weight, copies), Repeat(Relu(-s), copies), Repeat(0, copies));
    DotConcat(Repeat(Relu(s), copies), Repeat(0, copies), Repeat(Relu(-s), copies), Repeat(weight, copies));
    DotRepeat(Relu(s), weight, copies);
    DotRepeat(Relu(-s), weight, copies);
    DotRepeat(Relu(s), 0, copies);
    DotRepeat(Relu(-s), 0, copies);
  }

  lemma Positive(copies: nat, s: int, weight: nat)
    requires copies > 0 && weight > 0
    ensures copies * (Relu(s) * weight) > copies * (Relu(-s) * weight) <==> s > 0
  {
    if s > 0 {
      assert copies * (Relu(s) * weight) > 0;
      assert copies * (0 * weight) == 0;
    } else {
      assert copies * (0 * weight) == 0;
      assert copies * (Relu(-s) * weight) >= 0;
    }
  }

  // ------------------------------------------------ the approved release

  const MAXIMUMS: seq<int> := [2000, 2000, 10_000, 300, 2, 2]
  const CENTERS: seq<int> := [1000, 1000, 5000, 150, 1, 1]
  const COEFFICIENTS: seq<int> := [6, 4, 1, -16, 1000, 700]

  const EXPECTED := Parameters(
    [ [6, 6, 6, 6, -6, -6, -6, -6],
      [4, 4, 4, 4, -4, -4, -4, -4],
      [1, 1, 1, 1, -1, -1, -1, -1],
      [-16, -16, -16, -16, 16, 16, 16, 16],
      [1000, 1000, 1000, 1000, -1000, -1000, -1000, -1000],
      [700, 700, 700, 700, -700, -700, -700, -700] ],
    [-14300, -14300, -14300, -14300, 14300, 14300, 14300, 14300],
    [ [0, 64], [0, 64], [0, 64], [0, 64], [64, 0], [64, 0], [64, 0], [64, 0] ],
    [0, 0])

  /** Six integers inside the approved domains; anything else is an error. */
  predicate InDomain(features: seq<int>) {
    |features| == 6 && forall i :: 0 <= i < 6 ==> 0 <= features[i] <= MAXIMUMS[i]
  }

  function RelationDecision(features: seq<int>): Option<bool> {
    if InDomain(features) then Some(Score(features, CENTERS, COEFFICIENTS) > 0) else None
  }

  function QuantizedDecision(features: seq<int>): Option<bool> {
    if InDomain(features) then Some(Decides(features, EXPECTED)) else None
  }

  lemma BiasIs()
    ensures Dot(CENTERS, COEFFICIENTS) == 14300
  {
    var (c, k) := (CENTERS, COEFFICIENTS);
    assert Dot(c[..1], k[..1]) == 6000 by { assert c[..1][..0] == [] && k[..1][..0] == []; }
    assert Dot(c[..2], k[..2]) == 10000 by { assert c[..2][..1] == c[..1] && k[..2][..1] == k[..1]; }
    assert Dot(c[..3], k[..3]) == 15000 by { assert c[..3][..2] == c[..2] && k[..3][..2] == k[..2]; }
    assert Dot(c[..4], k[..4]) == 12600 by { assert c[..4][..3] == c[..3] && k[..4][..3] == k[..3]; }
    assert Dot(c[..5], k[..5]) == 13600 by { assert c[..5][..4] == c[..4] && k[..5][..4] == k[..4]; }
  }

  /** The approved weights are the duplicated form of the relation: four copies, weight 64. */
  lemma ApprovedIsDuplicated()
    ensures EXPECTED == Duplicated(CENTERS, COEFFICIENTS, 4, 64)
  {
    BiasIs();
    hide Dot;
    var p := Duplicated(CENTERS, COEFFICIENTS, 4, 64);
    forall i | 0 <= i < 6
      ensures EXPECTED.weights1[i] == p.weights1[i]
    {
      assert p.weights1[i] == Repeat(COEFFICIENTS[i], 4) + Repeat(-COEFFICIENTS[i], 4);
    }
    assert EXPECTED.weights1 == p.weights1;
    assert EXPECTED.bias1 == p.bias1;
    assert EXPECTED.weights2 == p.weights2;
  }

  /** The approved network and the relation agree on every input, errors included. */
  lemma ApprovedNetworkIsRelation(features: seq<int>)
    ensures QuantizedDecision(features) == RelationDecision(features)
  {
    if InDomain(features) {
      ApprovedIsDuplicated();
      hide Dot, Duplicated, Decides, Score;
      NetworkIsRelation(features, CENTERS, COEFFICIENTS, 4, 64);
    }
  }

  // ----------------------------------------------------- the release checks

  function CategoryBuffer(value: int): int { if value < 2000 then 0 else if value < 5000 then 1 else 2 }

  function CategoryHorizon(value: int): int { if value < 24 then 0 else if value < 72 then 1 else 2 }

  datatype Public = Public(room: int, moveOffset: int, roundProgress: int, freshness: int) {
    predicate Allowed() {
      0 <= room <= 2000 && 0 <= moveOffset <= 2000 && 0 <= roundProgress <= 10_000 && 0 <= freshness <= 300
    }
  }

  predicate ReleaseDecision(p: Public, buffer: int, horizon: int) {
    6 * (p.room - 1000) + 4 * (p.moveOffset - 1000) + (p.roundProgress - 5000) - 16 * (p.freshness - 150)
    + 1000 * (buffer - 1) + 700 * (horizon - 1) > 0
  }

  predicate GraphDecision(p: Public, buffer: int, horizon: int) {
    var projection :=
      6 * p.room + 4 * p.moveOffset + p.roundProgress - 16 * p.freshness + 1000 * buffer + 700 * horizon - 14_300;
    var positive := Repeat(Relu(projection), 4);
    var negative := Repeat(Relu(-projection), 4);
    64 * Sum(positive) > 64 * Sum(negative)
  }

  function Features(p: Public, buffer: int, horizon: int): seq<int> {
    [p.room, p.moveOffset, p.roundProgress, p.freshness, buffer, horizon]
  }

  lemma ScoreOfFeatures(p: Public, buffer: int, horizon: int)
    ensures Score(Features(p, buffer, horizon), CENTERS, COEFFICIENTS) ==
            6 * (p.room - 1000) + 4 * (p.moveOffset - 1000) + (p.roundProgress - 5000) - 16 * (p.freshness - 150)
            + 1000 * (buffer - 1) + 700 * (horizon - 1)
  {
    var (f, c, k) := (Features(p, buffer, horizon), CENTERS, COEFFICIENTS);
    ScorePrefix(f, c, k, 0);
    ScorePrefix(f, c, k, 1);
    ScorePrefix(f, c, k, 2);
    ScorePrefix(f, c, k, 3);
    ScorePrefix(f, c, k, 4);
    ScorePrefix(f, c, k, 5);
    hide Score;
    assert f[..6] == f && c[..6] == c && k[..6] == k;
    assert f[..0] == [] && c[..0] == [] && k[..0] == [];
    EmptyScore();
  }

  lemma EmptyScore()
    ensures Score([], [], []) == 0
  {
  }

  lemma ScorePrefix(f: seq<int>, c: seq<int>, k: seq<int>, n: nat)
    requires |f| == |c| == |k| && n < |f|
    ensures Score(f[..n + 1], c[..n + 1], k[..n + 1]) == Score(f[..n], c[..n], k[..n]) + k[n] * (f[n] - c[n])
  {
    assert f[..n + 1][..n] == f[..n] && c[..n + 1][..n] == c[..n] && k[..n + 1][..n] == k[..n];
  }

  lemma {:induction false} SumOfRepeat(x: int, n: nat)
    ensures Sum(Repeat(x, n)) == n * x
  {
    if n > 0 {
      SumOfRepeat(x, n - 1);
      assert Repeat(x, n)[..n - 1] == Repeat(x, n - 1);
    }
  }

  /** The two release formulas and the approved network are one decision, and
      raw preferences reach it only through their categories. */
  lemma ReleaseIsNetwork(p: Public, buffer: int, horizon: int)
    requires p.Allowed()
    ensures var (b, h) := (CategoryBuffer(buffer), CategoryHorizon(horizon));
            && ReleaseDecision(p, b, h) == GraphDecision(p, b, h)
            && QuantizedDecision(Features(p, b, h)) == Some(ReleaseDecision(p, b, h))
  {
    var (b, h) := (CategoryBuffer(buffer), CategoryHorizon(horizon));
    ScoreOfFeatures(p, b, h);
    ApprovedNetworkIsRelation(Features(p, b, h));
    forall x
      ensures Sum(Repeat(x, 4)) == 4 * x
    {
      SumOfRepeat(x, 4);
    }
    hide Score, Decides, Repeat, Sum;
  }

  /** The approved decision in plain numbers: on six features in their domains the
      network executes exactly above 14,300, and anything else is an error. */
  lemma DecisionIs(features: seq<int>)
    ensures QuantizedDecision(features) != None <==>
            && |features| == 6 && 0 <= features[0] <= 2000 && 0 <= features[1] <= 2000 && 0 <= features[2] <= 10_000
            && 0 <= features[3] <= 300 && 0 <= features[4] <= 2 && 0 <= features[5] <= 2
    ensures QuantizedDecision(features) != None ==>
              QuantizedDecision(features) ==
              Some(6 * features[0] + 4 * features[1] + features[2] - 16 * features[3] + 1000 * features[4]
                   + 700 * features[5] > 14_300)
    ensures RelationDecision(features) == QuantizedDecision(features)
  {
    ApprovedNetworkIsRelation(features);
    if InDomain(features) {
      var p := Public(features[0], features[1], features[2], features[3]);
      assert features == Features(p, features[4], features[5]);
      ScoreOfFeatures(p, features[4], features[5]);
    }
    hide Decides, Score;
  }

  /** Raw preferences count one point for every threshold they reach: 2,000 and
      5,000 for the buffer, 24 and 72 for the horizon. */
  lemma ReleaseIs(p: Public, buffer: int, horizon: int)
    requires p.Allowed()
    ensures var bufferPoints := (if buffer >= 2000 then 1 else 0) + (if buffer >= 5000 then 1 else 0);
            var horizonPoints := (if horizon >= 24 then 1 else 0) + (if horizon >= 72 then 1 else 0);
            QuantizedDecision(Features(p, CategoryBuffer(buffer), CategoryHorizon(horizon))) ==
            Some(6 * p.room + 4 * p.moveOffset + p.roundProgress - 16 * p.freshness + 1000 * bufferPoints
                 + 700 * horizonPoints > 14_300)
  {
    DecisionIs(Features(p, CategoryBuffer(buffer), CategoryHorizon(horizon)));
    hide QuantizedDecision, RelationDecision;
  }

  // ------------------------------------------- exactness in binary32

  /** Integers up to this magnitude are binary32 numbers (24-bit significand, section 3.3 of IEEE 754-2019). */
  const EXACT: nat := 0x100_0000

  function Sum(terms: seq<int>): int {
    if terms == [] then 0 else Sum(terms[..|terms| - 1]) + terms[|terms| - 1]
  }

  function AbsSum(terms: seq<int>): nat {
    if terms == [] then 0 else AbsSum(terms[..|terms| - 1]) + Abs(terms[|terms| - 1])
  }

  ghost function Total<T(!new)>(f: T -> int, xs: seq<T>): int {
    if xs == [] then 0 else Total(f, xs[..|xs| - 1]) + f(xs[|xs| - 1])
  }

  lemma TotalOfOne<T(!new)>(f: T -> int, x: T)
    ensures Total(f, [x]) == f(x)
  {
    assert [x][..0] == [];
  }

  lemma {:induction false} TotalConcat<T(!new)>(f: T -> int, a: seq<T>, b: seq<T>)
    ensures Total(f, a + b) == Total(f, a) + Total(f, b)
  {
    if b == [] {
      assert a + b == a;
    } else {
      assert (a + b)[..|a + b| - 1] == a + b[..|b| - 1];
      TotalConcat(f, a, b[..|b| - 1]);
    }
  }

  lemma {:induction false} TotalPermuted<T(!new)>(f: T -> int, a: seq<T>, b: seq<T>)
    requires multiset(a) == multiset(b)
    ensures Total(f, a) == Total(f, b)
  {
    if a == [] {
      assert |b| == |multiset(b)|;
    } else {
      var j := Locate(a, b);
      TotalPermuted(f, a[1..], b[..j] + b[j + 1..]);
      assert a == [a[0]] + a[1..] && b == b[..j] + ([b[j]] + b[j + 1..]);
      TotalConcat(f, [a[0]], a[1..]);
      TotalConcat(f, b[..j], [b[j]] + b[j + 1..]);
      TotalConcat(f, [b[j]], b[j + 1..]);
      TotalConcat(f, b[..j], b[j + 1..]);
    }
  }

  lemma {:induction false} AbsSumIsTotal(terms: seq<int>)
    ensures AbsSum(terms) == Total(Abs, terms)
  {
    if terms != [] {
      AbsSumIsTotal(terms[..|terms| - 1]);
    }
  }

  lemma AbsSumConcat(a: seq<int>, b: seq<int>)
    ensures AbsSum(a + b) == AbsSum(a) + AbsSum(b)
  {
    TotalConcat(Abs, a, b);
    AbsSumIsTotal(a);
    AbsSumIsTotal(b);
    AbsSumIsTotal(a + b);
  }

  lemma AbsSumPermuted(a: seq<int>, b: seq<int>)
    requires multiset(a) == multiset(b)
    ensures AbsSum(a) == AbsSum(b)
  {
    TotalPermuted(Abs, a, b);
    AbsSumIsTotal(a);
    AbsSumIsTotal(b);
  }

  lemma {:induction false} PrefixSumBounded(terms: seq<int>)
    ensures Abs(Sum(terms)) <= AbsSum(terms)
  {
    if terms != [] {
      PrefixSumBounded(terms[..|terms| - 1]);
    }
  }

  lemma PrefixAbs(terms: seq<int>, n: nat)
    requires n <= |terms|
    ensures AbsSum(terms[..n]) <= AbsSum(terms)
  {
    assert terms == terms[..n] + terms[n..];
    AbsSumConcat(terms[..n], terms[n..]);
  }

  /** In whatever order the terms are added, no partial sum leaves the bound. */
  lemma PartialSumsBounded(terms: seq<int>, order: seq<int>, n: nat)
    requires multiset(order) == multiset(terms) && n <= |order|
    ensures Abs(Sum(order[..n])) <= AbsSum(terms)
  {
    PrefixSumBounded(order[..n]);
    PrefixAbs(order, n);
    AbsSumPermuted(order, terms);
  }

  /** What a hidden unit adds up, over the denominator 256. */
  function UnitTerms(values: seq<int>, p: Parameters, u: nat): seq<int>
    requires p.Shaped(|values|) && u < |p.bias1|
  {
    seq(|values|, i requires 0 <= i < |values| => values[i] * p.weights1[i][u]) + [p.bias1[u]]
  }

  /** What a logit adds up, over the denominator 65536. */
  function LogitTerms(values: seq<int>, p: Parameters, c: nat): seq<int>
    requires p.Shaped(|values|) && c < 2
  {
    seq(|p.bias1|, u requires 0 <= u < |p.bias1| => Unit(values, p, u) * p.weights2[u][c]) +
    [p.bias2[c] * PARAMETER_SCALE]
  }

  lemma {:induction false} SumOfProducts(a: seq<int>, b: seq<int>, products: seq<int>)
    requires |a| == |b| == |products| && forall i :: 0 <= i < |a| ==> products[i] == a[i] * b[i]
    ensures Sum(products) == Dot(a, b)
  {
    if a != [] {
      var n := |a| - 1;
      SumOfProducts(a[..n], b[..n], products[..n]);
    }
  }

  /** The terms are the network's own: they add up to the activation and to the logit. */
  lemma TermsAddUp(values: seq<int>, p: Parameters, u: nat, c: nat)
    requires p.Shaped(|values|) && u < |p.bias1| && c < 2
    ensures Relu(Sum(UnitTerms(values, p, u))) == Unit(values, p, u)
    ensures Sum(LogitTerms(values, p, c)) == Logit(values, p, c)
  {
    var products := UnitTerms(values, p, u)[..|values|];
    assert UnitTerms(values, p, u)[..|UnitTerms(values, p, u)| - 1] == products;
    SumOfProducts(values, Column(p.weights1, u, |values|, |p.bias1|), products);
    var weighted := LogitTerms(values, p, c)[..|p.bias1|];
    assert LogitTerms(values, p, c)[..|LogitTerms(values, p, c)| - 1] == weighted;
    SumOfProducts(Hidden(values, p), Column(p.weights2, c, |p.bias1|, 2), weighted);
  }

  lemma {:induction false} AbsSumOfBounds(terms: seq<int>, bounds: seq<nat>)
    requires |terms| == |bounds| && forall i :: 0 <= i < |terms| ==> Abs(terms[i]) <= bounds[i]
    ensures AbsSum(terms) <= AbsSum(bounds)
  {
    if terms != [] {
      AbsSumOfBounds(terms[..|terms| - 1], bounds[..|terms| - 1]);
    }
  }

  /** The largest magnitudes of a unit's terms over the approved domains. */
  const UNIT_BOUNDS: seq<nat> := [12_000, 8_000, 10_000, 4_800, 2_000, 1_400, 14_300]
  const UNIT_BOUND: nat := 52_500

  lemma UnitBoundIs()
    ensures AbsSum(UNIT_BOUNDS) == UNIT_BOUND
  {
    var b := UNIT_BOUNDS;
    assert AbsSum(b[..1]) == 12_000 by { assert b[..1][..0] == []; }
    assert AbsSum(b[..2]) == 20_000 by { assert b[..2][..1] == b[..1]; }
    assert AbsSum(b[..3]) == 30_000 by { assert b[..3][..2] == b[..2]; }
    assert AbsSum(b[..4]) == 34_800 by { assert b[..4][..3] == b[..3]; }
    assert AbsSum(b[..5]) == 36_800 by { assert b[..5][..4] == b[..4]; }
    assert AbsSum(b[..6]) == 38_200 by { assert b[..6][..5] == b[..5]; }
  }

  lemma UnitTermsBounded(features: seq<int>, u: nat)
    requires InDomain(features) && u < 8
    ensures AbsSum(UnitTerms(features, EXPECTED, u)) <= UNIT_BOUND
  {
    var terms := UnitTerms(features, EXPECTED, u);
    forall i | 0 <= i < 7
      ensures Abs(terms[i]) <= UNIT_BOUNDS[i]
    {
      if i < 6 {
        assert terms[i] == features[i] * EXPECTED.weights1[i][u];
        assert EXPECTED.weights1[i][u] == if u < 4 then COEFFICIENTS[i] else -COEFFICIENTS[i];
      }
    }
    AbsSumOfBounds(terms, UNIT_BOUNDS);
    UnitBoundIs();
  }

  /** Four units feed each logit, with weight 64. */
  const LOGIT_BOUND: nat := 4 * 64 * UNIT_BOUND

  function LogitBounds(c: nat): seq<nat>
    requires c < 2
  {
    if c == 1 then Bounds(64 * UNIT_BOUND, 0) else Bounds(0, 64 * UNIT_BOUND)
  }

  function Bounds(x: nat, y: nat): seq<nat> { [x, x, x, x, y, y, y, y, 0] }

  lemma BoundsAddUp(x: nat, y: nat)
    ensures AbsSum(Bounds(x, y)) == 4 * x + 4 * y
  {
    var b := Bounds(x, y);
    assert AbsSum(b[..1]) == x by { assert b[..1][..0] == []; }
    assert AbsSum(b[..2]) == 2 * x by { assert b[..2][..1] == b[..1]; }
    assert AbsSum(b[..3]) == 3 * x by { assert b[..3][..2] == b[..2]; }
    assert AbsSum(b[..4]) == 4 * x by { assert b[..4][..3] == b[..3]; }
    assert AbsSum(b[..5]) == 4 * x + y by { assert b[..5][..4] == b[..4]; }
    assert AbsSum(b[..6]) == 4 * x + 2 * y by { assert b[..6][..5] == b[..5]; }
    assert AbsSum(b[..7]) == 4 * x + 3 * y by { assert b[..7][..6] == b[..6]; }
    assert AbsSum(b[..8]) == 4 * x + 4 * y by { assert b[..8][..7] == b[..7]; }
  }

  lemma LogitTermAt(features: seq<int>, c: nat, u: nat)
    requires InDomain(features) && c < 2 && u < 8
    ensures Abs(LogitTerms(features, EXPECTED, c)[u]) <= LogitBounds(c)[u]
  {
    assert |features| == 6;
    hide Unit, UnitTerms, AbsSum, Sum, InDomain;
    UnitTermsBounded(features, u);
    PrefixSumBounded(UnitTerms(features, EXPECTED, u));
    TermsAddUp(features, EXPECTED, u, c);
    assert LogitTerms(features, EXPECTED, c)[u] == Unit(features, EXPECTED, u) * EXPECTED.weights2[u][c];
  }

  lemma LogitTermsBounded(features: seq<int>, c: nat)
    requires InDomain(features) && c < 2
    ensures AbsSum(LogitTerms(features, EXPECTED, c)) <= LOGIT_BOUND
  {
    assert |features| == 6;
    hide AbsSum, InDomain;
    var terms := LogitTerms(features, EXPECTED, c);
    forall u | 0 <= u < 8
      ensures Abs(terms[u]) <= LogitBounds(c)[u]
    {
      LogitTermAt(features, c, u);
    }
    assert terms[8] == 0;
    AbsSumOfBounds(terms, LogitBounds(c));
    BoundsAddUp(64 * UNIT_BOUND, 0);
    BoundsAddUp(0, 64 * UNIT_BOUND);
  }

  /** Whatever the order of the additions, every partial sum's numerator stays below 2^24. */
  lemma ExactInBinary32(features: seq<int>, u: nat, c: nat, order: seq<int>, n: nat)
    requires InDomain(features) && u < 8 && c < 2 && n <= |order|
    requires multiset(order) == multiset(UnitTerms(features, EXPECTED, u)) ||
             multiset(order) == multiset(LogitTerms(features, EXPECTED, c))
    ensures Abs(Sum(order[..n])) < EXACT
  {
    hide UnitTerms, LogitTerms, Sum, AbsSum;
    if multiset(order) == multiset(UnitTerms(features, EXPECTED, u)) {
      PartialSumsBounded(UnitTerms(features, EXPECTED, u), order, n);
      UnitTermsBounded(features, u);
    } else {
      PartialSumsBounded(LogitTerms(features, EXPECTED, c), order, n);
      LogitTermsBounded(features, c);
    }
  }
}
