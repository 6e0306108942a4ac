/** How far dishonest seats can move the median of an oracle panel. */
module OracleMedian {
  import opened Basics

  // ------------------------------------------------------------- sorting

  predicate Ascending(a: seq<int>) {
    forall i, j :: 0 <= i <= j < |a| ==> a[i] <= a[j]
  }

  function InsertSorted(a: seq<int>, x: int): (r: seq<int>)
    requires Ascending(a)
    ensures Ascending(r) && |r| == |a| + 1
    ensures forall i :: 0 <= i < |r| ==> r[i] == x || r[i] in a
  {
    if a == [] then [x]
    else if x <= a[0] then [x] + a
    else [a[0]] + InsertSorted(a[1..], x)
  }

  function Sorted(xs: seq<int>): (r: seq<int>)
    ensures Ascending(r) && |r| == |xs|
  {
    if xs == [] then [] else InsertSorted(Sorted(xs[..|xs| - 1]), xs[|xs| - 1])
  }

  /** How many answers are at most v. */
  function CountLe(xs: seq<int>, v: int): (r: nat)
    ensures r <= |xs|
  {
    if xs == [] then 0
    else CountLe(xs[..|xs| - 1], v) + if xs[|xs| - 1] <= v then 1 else 0
  }

  lemma {:induction false} CountConcat(a: seq<int>, b: seq<int>, v: int)
    ensures CountLe(a + b, v) == CountLe(a, v) + CountLe(b, v)
  {
    if b == [] {
      assert a + b == a;
    } else {
      assert (a + b)[..|a + b| - 1] == a + b[..|b| - 1];
      CountConcat(a, b[..|b| - 1], v);
    }
  }

  lemma {:induction false} CountInsert(a: seq<int>, x: int, v: int)
    requires Ascending(a)
    ensures CountLe(InsertSorted(a, x), v) == CountLe(a, v) + if x <= v then 1 else 0
  {
    CountConcat([], [x], v);
    if a == [] {
    } else if x <= a[0] {
      CountConcat([x], a, v);
    } else {
      CountInsert(a[1..], x, v);
      CountConcat([a[0]], a[1..], v);
      CountConcat([a[0]], InsertSorted(a[1..], x), v);
      assert [a[0]] + a[1..] == a;
    }
  }

  /** Sorting keeps the counts, so the order statistics are counts read backwards. */
  lemma {:induction false} SortedCounts(xs: seq<int>, v: int)
    ensures CountLe(Sorted(xs), v) == CountLe(xs, v)
  {
    if xs != [] {
      SortedCounts(xs[..|xs| - 1], v);
      CountInsert(Sorted(xs[..|xs| - 1]), xs[|xs| - 1], v);
    }
  }

  lemma {:induction false} AscendingCount(a: seq<int>, i: nat, v: int)
    requires Ascending(a) && i < |a|
    ensures a[i] <= v <==> i < CountLe(a, v)
  {
    var n := |a| - 1;
    if i < n {
      AscendingCount(a[..n], i, v);
      if a[n] <= v {
        assert a[i] <= a[n];
      }
    } else if a[n] <= v {
      AllCounted(a, v);
    }
  }

  lemma {:induction false} AllCounted(a: seq<int>, v: int)
    requires forall i :: 0 <= i < |a| ==> a[i] <= v
    ensures CountLe(a, v) == |a|
  {
    if a != [] {
      AllCounted(a[..|a| - 1], v);
    }
  }

  /** The i-th order statistic is at most v exactly when more than i answers are. */
  lemma OrderStatistic(xs: seq<int>, i: nat, v: int)
    requires i < |xs|
    ensures Sorted(xs)[i] <= v <==> i < CountLe(xs, v)
  {
    SortedCounts(xs, v);
    AscendingCount(Sorted(xs), i, v);
  }

  // -------------------------------------------------------------- the median

  /** Odd: the middle. Even: the floored mean of the two middle. An empty panel is an error. */
  function Median(xs: seq<int>): (r: Option<int>)
    ensures r == None <==> xs == []
  {
    var a := Sorted(xs);
    var n := |a|;
    if n == 0 then None
    else if n % 2 == 1 then Some(a[n / 2])
    else Some((a[n / 2 - 1] + a[n / 2]) / 2)
  }

  /** a[i], with i clamped into the panel. */
  function At(a: seq<int>, i: int): int
    requires a != []
  {
    a[if i < 0 then 0 else if i >= |a| then |a| - 1 else i]
  }

  /** The window a median with one corrupted seat must stay inside. */
  function Brackets(honest: seq<int>): (int, int)
    requires honest != []
  {
    var a := Sorted(honest);
    var k := |a| / 2;
    if |a| % 2 == 1 then (At(a, k - 1), At(a, k + 1))
    else ((At(a, k - 2) + At(a, k - 1)) / 2, (At(a, k) + At(a, k + 1)) / 2)
  }

  // ------------------------------------------------------------ corruption

  /** In how many seats two panels differ. */
  ghost function Changed(xs: seq<int>, ys: seq<int>): nat
    requires |xs| == |ys|
  {
    if xs == [] then 0
    else
      var n := |xs| - 1;
      Changed(xs[..n], ys[..n]) + if xs[n] != ys[n] then 1 else 0
  }

  /** At most f seats of the honest panel answer something else. */
  ghost predicate Corrupts(honest: seq<int>, f: nat, panel: seq<int>) {
    |panel| == |honest| && Changed(honest, panel) <= f
  }

  lemma {:induction false} CountsShift(xs: seq<int>, ys: seq<int>, v: int)
    requires |xs| == |ys|
    ensures CountLe(xs, v) - Changed(xs, ys) <= CountLe(ys, v) <= CountLe(xs, v) + Changed(xs, ys)
  {
    if xs != [] {
      CountsShift(xs[..|xs| - 1], ys[..|xs| - 1], v);
    }
  }

  /** f corrupted seats move every order statistic by at most f places. */
  lemma StatisticsShift(honest: seq<int>, f: nat, panel: seq<int>, i: nat)
    requires Corrupts(honest, f, panel) && i < |honest|
    ensures i + f < |honest| ==> Sorted(panel)[i] <= Sorted(honest)[i + f]
    ensures f <= i ==> Sorted(honest)[i - f] <= Sorted(panel)[i]
  {
    hide Sorted, CountLe, Changed;
    if i + f < |honest| {
      var v := Sorted(honest)[i + f];
      OrderStatistic(honest, i + f, v);
      CountsShift(honest, panel, v);
      OrderStatistic(panel, i, v);
    }
    if f <= i {
      var v := Sorted(panel)[i];
      OrderStatistic(panel, i, v);
      CountsShift(honest, panel, v);
      OrderStatistic(honest, i - f, v);
    }
  }

  /** Between the least and the greatest honest answer. */
  ghost predicate InHonestRange(honest: seq<int>, v: int) {
    (exists i :: 0 <= i < |honest| && honest[i] <= v) && (exists i :: 0 <= i < |honest| && v <= honest[i])
  }

  lemma {:induction false} CountsNone(xs: seq<int>, v: int)
    ensures CountLe(xs, v) == 0 <==> forall i :: 0 <= i < |xs| ==> v < xs[i]
    ensures CountLe(xs, v) == |xs| <==> forall i :: 0 <= i < |xs| ==> xs[i] <= v
  {
    if xs != [] {
      var n := |xs| - 1;
      CountsNone(xs[..n], v);
      assert forall i :: 0 <= i < n ==> xs[..n][i] == xs[i];
      if CountLe(xs, v) == |xs| {
        assert xs[n] <= v && CountLe(xs[..n], v) == n;
      }
      if CountLe(xs, v) == 0 {
        assert v < xs[n] && CountLe(xs[..n], v) == 0;
      }
    }
  }

  /** The honest range in terms of the sorted panel. */
  lemma RangeIsSorted(honest: seq<int>, v: int)
    requires honest != []
    ensures InHonestRange(honest, v) <==> Sorted(honest)[0] <= v <= Sorted(honest)[|honest| - 1]
  {
    hide Sorted, CountLe, Changed;
    var n := |honest|;
    OrderStatistic(honest, 0, v);
    CountsNone(honest, v);
    OrderStatistic(honest, n - 1, v - 1);
    CountsNone(honest, v - 1);
  }

  /** A minority of liars: the median stays in the honest range. */
  lemma MinorityIsHarmless(honest: seq<int>, f: nat, panel: seq<int>)
    requires honest != [] && 2 * f < |honest| && Corrupts(honest, f, panel)
    ensures InHonestRange(honest, Median(panel).value)
  {
    hide Sorted, CountLe, Changed;
    var n := |honest|;
    StatisticsShift(honest, f, panel, n / 2);
    if n % 2 == 0 {
      StatisticsShift(honest, f, panel, n / 2 - 1);
    }
    RangeIsSorted(honest, Median(panel).value);
  }

  /** The first f seats answer v. */
  ghost function Bribed(honest: seq<int>, f: nat, v: int): (r: seq<int>)
    requires f <= |honest|
    ensures |r| == |honest|
  {
    seq(f, _ => v) + honest[f..]
  }

  lemma {:induction false} ChangedConcat(a: seq<int>, b: seq<int>, c: seq<int>)
    requires |a| == |b|
    ensures Changed(a + c, b + c) <= |a|
  {
    if c == [] {
      assert a + c == a && b + c == b;
      ChangedBounded(a, b);
    } else {
      assert (a + c)[..|a + c| - 1] == a + c[..|c| - 1] && (b + c)[..|b + c| - 1] == b + c[..|c| - 1];
      ChangedConcat(a, b, c[..|c| - 1]);
    }
  }

  lemma {:induction false} ChangedBounded(a: seq<int>, b: seq<int>)
    requires |a| == |b|
    ensures Changed(a, b) <= |a|
  {
    if a != [] {
      ChangedBounded(a[..|a| - 1], b[..|a| - 1]);
    }
  }

  lemma BribedCorrupts(honest: seq<int>, f: nat, v: int)
    requires f <= |honest|
    ensures Corrupts(honest, f, Bribed(honest, f, v))
  {
    assert honest == honest[..f] + honest[f..];
    ChangedConcat(honest[..f], seq(f, _ => v), honest[f..]);
  }

  /** With half the seats bribed the upper middle statistic is a lie. */
  lemma BribedMiddle(honest: seq<int>, f: nat, liar: int)
    requires honest != [] && f <= |honest| <= 2 * f
    ensures Sorted(Bribed(honest, f, liar))[|honest| / 2] >= liar
  {
    hide Sorted, CountLe, Changed;
    CountConcat(seq(f, _ => liar), honest[f..], liar - 1);
    CountsNone(seq(f, _ => liar), liar - 1);
    OrderStatistic(Bribed(honest, f, liar), |honest| / 2, liar - 1);
  }

  /** And none is below the honest ones. */
  lemma BribedFloor(honest: seq<int>, f: nat, liar: int, i: nat)
    requires f <= |honest| && i < |honest| && Sorted(honest)[0] <= liar
    ensures Sorted(Bribed(honest, f, liar))[i] >= Sorted(honest)[0]
  {
    hide Sorted, CountLe, Changed;
    var lo := Sorted(honest)[0];
    OrderStatistic(honest, 0, lo - 1);
    CountsNone(honest, lo - 1);
    CountsNone(Bribed(honest, f, liar), lo - 1);
    OrderStatistic(Bribed(honest, f, liar), i, lo - 1);
  }

  /** Half the seats are enough: an answer exists that drags the median above every honest one. */
  lemma HalfEscapes(honest: seq<int>, f: nat) returns (panel: seq<int>)
    requires honest != [] && f <= |honest| <= 2 * f
    ensures Corrupts(honest, f, panel) && !InHonestRange(honest, Median(panel).value)
  {
    hide Sorted, CountLe, Changed;
    var n := |honest|;
    var (lo, hi) := (Sorted(honest)[0], Sorted(honest)[n - 1]);
    var liar := 2 * hi - lo + 2;
    panel := Bribed(honest, f, liar);
    BribedCorrupts(honest, f, liar);
    BribedMiddle(honest, f, liar);
    BribedFloor(honest, f, liar, if n % 2 == 0 then n / 2 - 1 else 0);
    RangeIsSorted(honest, Median(panel).value);
  }

  /** The median stays inside the honest range for every corruption exactly
      when the corrupted seats are a strict minority. */
  lemma MajorityIsExact(honest: seq<int>, f: nat)
    requires honest != []
    ensures (forall panel :: Corrupts(honest, f, panel) ==> InHonestRange(honest, Median(panel).value))
            <==> 2 * f < |honest|
  {
    if 2 * f < |honest| {
      forall panel | Corrupts(honest, f, panel)
        ensures InHonestRange(honest, Median(panel).value)
      {
        MinorityIsHarmless(honest, f, panel);
      }
    } else {
      var panel := HalfEscapes(honest, if f <= |honest| then f else |honest|);
      assert Corrupts(honest, f, panel);
    }
  }

  // ------------------------------------------------------------ one liar

  lemma {:induction false} OneSeat(honest: seq<int>, seat: nat, liar: int, v: int)
    requires seat < |honest|
    ensures Changed(honest, honest[seat := liar]) <= 1
    ensures CountLe(honest[seat := liar], v) + (if honest[seat] <= v then 1 else 0) ==
            CountLe(honest, v) + (if liar <= v then 1 else 0)
  {
    var n := |honest| - 1;
    if seat == n {
      assert honest[seat := liar][..n] == honest[..n];
      NothingChanged(honest[..n]);
    } else {
      assert honest[seat := liar][..n] == honest[..n][seat := liar];
      OneSeat(honest[..n], seat, liar, v);
    }
  }

  lemma {:induction false} NothingChanged(xs: seq<int>)
    ensures Changed(xs, xs) == 0
  {
    if xs != [] {
      NothingChanged(xs[..|xs| - 1]);
    }
  }

  /** One liar among three or more leaves the median inside the brackets. */
  lemma OneLiarStaysInside(honest: seq<int>, panel: seq<int>)
    requires |honest| >= 3 && Corrupts(honest, 1, panel)
    ensures Brackets(honest).0 <= Median(panel).value <= Brackets(honest).1
  {
    hide Sorted, CountLe, Changed;
    var k := |honest| / 2;
    StatisticsShift(honest, 1, panel, k);
    StatisticsShift(honest, 1, panel, k - 1);
  }

  lemma {:induction false} GreatestSeat(honest: seq<int>) returns (seat: nat)
    requires honest != []
    ensures seat < |honest| && forall i :: 0 <= i < |honest| ==> honest[i] <= honest[seat]
  {
    var n := |honest| - 1;
    seat := n;
    if n > 0 {
      var other := GreatestSeat(honest[..n]);
      assert forall i :: 0 <= i < n ==> honest[..n][i] == honest[i];
      seat := if honest[other] > honest[n] then other else n;
    }
  }

  lemma {:induction false} LeastSeat(honest: seq<int>) returns (seat: nat)
    requires honest != []
    ensures seat < |honest| && forall i :: 0 <= i < |honest| ==> honest[seat] <= honest[i]
  {
    var n := |honest| - 1;
    seat := n;
    if n > 0 {
      var other := LeastSeat(honest[..n]);
      assert forall i :: 0 <= i < n ==> honest[..n][i] == honest[i];
      seat := if honest[other] < honest[n] then other else n;
    }
  }

  /** The greatest answer replaced by a low one: every statistic is the honest one below it. */
  lemma Lowered(honest: seq<int>, seat: nat, liar: int, i: nat)
    requires seat < |honest| && 0 < i < |honest|
    requires forall j :: 0 <= j < |honest| ==> liar <= honest[j] <= honest[seat]
    ensures Sorted(honest[seat := liar])[i] == Sorted(honest)[i - 1]
  {
    hide Sorted, CountLe, Changed;
    var panel := honest[seat := liar];
    LoweredAtMost(honest, seat, liar, i, Sorted(honest)[i - 1]);
    LoweredAtMost(honest, seat, liar, i, Sorted(panel)[i]);
  }

  lemma LoweredAtMost(honest: seq<int>, seat: nat, liar: int, i: nat, v: int)
    requires seat < |honest| && 0 < i < |honest|
    requires forall j :: 0 <= j < |honest| ==> liar <= honest[j] <= honest[seat]
    ensures Sorted(honest[seat := liar])[i] <= v <==> Sorted(honest)[i - 1] <= v
  {
    hide Sorted, CountLe, Changed;
    var panel := honest[seat := liar];
    OrderStatistic(panel, i, v);
    OrderStatistic(honest, i - 1, v);
    OneSeat(honest, seat, liar, v);
    CountsNone(honest, v);
  }

  /** The least answer replaced by a high one: every statistic is the honest one above it. */
  lemma Raised(honest: seq<int>, seat: nat, liar: int, i: nat)
    requires seat < |honest| && i + 1 < |honest|
    requires forall j :: 0 <= j < |honest| ==> honest[seat] <= honest[j] < liar
    ensures Sorted(honest[seat := liar])[i] == Sorted(honest)[i + 1]
  {
    hide Sorted, CountLe, Changed;
    var panel := honest[seat := liar];
    RaisedAtMost(honest, seat, liar, i, Sorted(honest)[i + 1]);
    RaisedAtMost(honest, seat, liar, i, Sorted(panel)[i]);
  }

  lemma RaisedAtMost(honest: seq<int>, seat: nat, liar: int, i: nat, v: int)
    requires seat < |honest| && i + 1 < |honest|
    requires forall j :: 0 <= j < |honest| ==> honest[seat] <= honest[j] < liar
    ensures Sorted(honest[seat := liar])[i] <= v <==> Sorted(honest)[i + 1] <= v
  {
    hide Sorted, CountLe, Changed;
    var panel := honest[seat := liar];
    OrderStatistic(panel, i, v);
    OrderStatistic(honest, i + 1, v);
    OneSeat(honest, seat, liar, v);
    CountsNone(honest, v);
  }

  lemma {:induction false} ChangesAdd(xs: seq<int>, ys: seq<int>, zs: seq<int>)
    requires |xs| == |ys| == |zs|
    ensures Changed(xs, zs) <= Changed(xs, ys) + Changed(ys, zs)
  {
    if xs != [] {
      var n := |xs| - 1;
      ChangesAdd(xs[..n], ys[..n], zs[..n]);
    }
  }

  /** f liars that answer low: every statistic sinks by f places. */
  lemma {:induction false} LoweredBy(honest: seq<int>, f: nat) returns (panel: seq<int>)
    requires honest != []
    ensures Corrupts(honest, f, panel)
    ensures forall i :: f <= i < |honest| ==> Sorted(panel)[i] == Sorted(honest)[i - f]
  {
    hide Sorted, CountLe, Changed;
    if f == 0 {
      NothingChanged(honest);
      panel := honest;
    } else {
      var fewer := LoweredBy(honest, f - 1);
      var greatest := GreatestSeat(fewer);
      var least := LeastSeat(fewer);
      panel := fewer[greatest := fewer[least]];
      OneSeat(fewer, greatest, fewer[least], 0);
      ChangesAdd(honest, fewer, panel);
      forall i | f <= i < |honest|
        ensures Sorted(panel)[i] == Sorted(honest)[i - f]
      {
        Lowered(fewer, greatest, fewer[least], i);
      }
    }
  }

  /** f liars that answer high: every statistic rises by f places. */
  lemma {:induction false} RaisedBy(honest: seq<int>, f: nat) returns (panel: seq<int>)
    requires honest != []
    ensures Corrupts(honest, f, panel)
    ensures forall i :: 0 <= i && i + f < |honest| ==> Sorted(panel)[i] == Sorted(honest)[i + f]
  {
    hide Sorted, CountLe, Changed;
    if f == 0 {
      NothingChanged(honest);
      panel := honest;
    } else {
      var fewer := RaisedBy(honest, f - 1);
      var least := LeastSeat(fewer);
      var greatest := GreatestSeat(fewer);
      var liar := fewer[greatest] + 1;
      panel := fewer[least := liar];
      OneSeat(fewer, least, liar, 0);
      ChangesAdd(honest, fewer, panel);
      forall i | 0 <= i && i + f < |honest|
        ensures Sorted(panel)[i] == Sorted(honest)[i + f]
      {
        Raised(fewer, least, liar, i);
      }
    }
  }

  /** The bound on the shift is tight for every number of liars: one corruption
      sinks all statistics that can sink, another raises all that can rise. */
  lemma ShiftIsTight(honest: seq<int>, f: nat)
    requires honest != []
    ensures exists panel :: Corrupts(honest, f, panel) &&
                            forall i :: f <= i < |honest| ==> Sorted(panel)[i] == Sorted(honest)[i - f]
    ensures exists panel :: Corrupts(honest, f, panel) &&
                            forall i :: 0 <= i && i + f < |honest| ==> Sorted(panel)[i] == Sorted(honest)[i + f]
  {
    hide Sorted, CountLe, Changed;
    var low := LoweredBy(honest, f);
    var high := RaisedBy(honest, f);
  }

  /** Both ends of the brackets are reached by replacing one answer. */
  lemma BracketsAreReached(honest: seq<int>) returns (low: seq<int>, high: seq<int>)
    requires |honest| >= 3
    ensures Corrupts(honest, 1, low) && Median(low).value == Brackets(honest).0
    ensures Corrupts(honest, 1, high) && Median(high).value == Brackets(honest).1
  {
    hide Sorted, CountLe, Changed;
    low := LoweredBy(honest, 1);
    high := RaisedBy(honest, 1);
  }

  /** On one or two seats the brackets are just the least and the greatest honest answer. */
  lemma BracketsOfFew(honest: seq<int>)
    requires 1 <= |honest| <= 2
    ensures forall i :: 0 <= i < |honest| ==> Brackets(honest).0 <= honest[i] <= Brackets(honest).1
    ensures Brackets(honest).0 in honest && Brackets(honest).1 in honest
  {
    hide Sorted, CountLe, Changed;
    var (lo, hi) := (Sorted(honest)[0], Sorted(honest)[|honest| - 1]);
    assert Brackets(honest) == (lo, hi);
    forall i | 0 <= i < |honest|
      ensures lo <= honest[i] <= hi
    {
      RangeIsSorted(honest, honest[i]);
    }
    RangeIsSorted(honest, lo);
    RangeIsSorted(honest, hi);
  }

  /** The brackets are exactly the window of one liar, and they are one only from three seats on. */
  lemma BracketsAreExact(honest: seq<int>)
    requires honest != []
    ensures (forall panel :: Corrupts(honest, 1, panel) ==>
               Brackets(honest).0 <= Median(panel).value <= Brackets(honest).1)
            <==> |honest| >= 3
    ensures |honest| >= 3 ==> exists panel :: Corrupts(honest, 1, panel) && Median(panel).value == Brackets(honest).0
    ensures |honest| >= 3 ==> exists panel :: Corrupts(honest, 1, panel) && Median(panel).value == Brackets(honest).1
  {
    hide Sorted, CountLe, Changed;
    if |honest| >= 3 {
      forall panel | Corrupts(honest, 1, panel)
        ensures Brackets(honest).0 <= Median(panel).value <= Brackets(honest).1
      {
        OneLiarStaysInside(honest, panel);
      }
      var low, high := BracketsAreReached(honest);
    } else {
      // one liar of one or two is already half the panel
      var panel := HalfEscapes(honest, 1);
      RangeIsSorted(honest, Median(panel).value);
    }
  }
}
