/** Who trades at a cleared price, and how much: price priority down to the
    marginal level, pro rata by size at that level, and the remainder of the
    flooring one unit at a time in array order. */
module Allocation {
  import opened Basics
  import opened CallAuction

  datatype FillError = EligibleBelowVolume | DivisionByZero

  // ---------------------------------------------------------- price levels

  /** A side's price axis turned so that a better price is a smaller rank. */
  function Rank(side: Side, price: int): int {
    if side.Buy? then -price else price
  }

  /** The order's limit admits the doubled price p2. */
  predicate Eligible(o: Order, side: Side, p2: int) {
    o.side == side && (if side.Buy? then 2 * o.price >= p2 else 2 * o.price <= p2)
  }

  function Eligibles(side: Side, p2: int): Order -> bool { (o: Order) => Eligible(o, side, p2) }

  function Better(side: Side, p2: int, level: int): Order -> bool {
    (o: Order) => Eligible(o, side, p2) && Rank(side, o.price) < level
  }

  function AtLevel(side: Side, p2: int, level: int): Order -> bool {
    (o: Order) => Eligible(o, side, p2) && Rank(side, o.price) == level
  }

  lemma EligibleAtHalf(o: Order, side: Side, p2: int)
    ensures Eligible(o, side, p2) <==> Admits(side, p2 as real / 2.0)(o)
  {
    assert (2 * o.price) as real == 2.0 * o.price as real;
  }

  lemma EligibleQuantity(orders: seq<Order>, side: Side, p2: int)
    ensures Total(orders, Eligibles(side, p2)) == Total(orders, Admits(side, p2 as real / 2.0))
  {
    forall o | o in orders
      ensures Eligibles(side, p2)(o) <==> Admits(side, p2 as real / 2.0)(o)
    {
      EligibleAtHalf(o, side, p2);
    }
    TotalMonotone(orders, Eligibles(side, p2), Admits(side, p2 as real / 2.0));
    TotalMonotone(orders, Admits(side, p2 as real / 2.0), Eligibles(side, p2));
  }

  ghost predicate IsLevel(orders: seq<Order>, side: Side, p2: int, level: int) {
    exists o :: o in orders && AtLevel(side, p2, level)(o)
  }

  /** The distinct eligible levels of a side, best first. */
  function Levels(orders: seq<Order>, side: Side, p2: int): (r: seq<int>)
    ensures Increasing(r)
    ensures forall level :: level in r <==> IsLevel(orders, side, p2, level)
  {
    if orders == [] then []
    else
      var rest := Levels(orders[1..], side, p2);
      assert forall o :: o in orders <==> o == orders[0] || o in orders[1..];
      if Eligible(orders[0], side, p2) then
        assert AtLevel(side, p2, Rank(side, orders[0].price))(orders[0]);
        Insert(rest, Rank(side, orders[0].price))
      else rest
  }

  /** The first level, best first, at which the eligible quantity reaches the volume. */
  ghost predicate IsMarginal(orders: seq<Order>, side: Side, p2: int, volume: nat, level: int) {
    && IsLevel(orders, side, p2, level)
    && Total(orders, Better(side, p2, level)) + Total(orders, AtLevel(side, p2, level)) >= volume
    && (Total(orders, Better(side, p2, level)) == 0 || Total(orders, Better(side, p2, level)) < volume)
    && forall b :: IsLevel(orders, side, p2, b) && b < level ==>
         Total(orders, Better(side, p2, b)) + Total(orders, AtLevel(side, p2, b)) < volume
  }

  /** Eligible quantity strictly better than the k-th level, or all of it past the last. */
  function Before(orders: seq<Order>, side: Side, p2: int, k: nat): nat
    requires k <= |Levels(orders, side, p2)|
  {
    var levels := Levels(orders, side, p2);
    Total(orders, if k < |levels| then Better(side, p2, levels[k]) else Eligibles(side, p2))
  }

  lemma RankIsLevel(orders: seq<Order>, side: Side, p2: int, o: Order) returns (k: nat)
    requires o in orders && Eligible(o, side, p2)
    ensures k < |Levels(orders, side, p2)| && Levels(orders, side, p2)[k] == Rank(side, o.price)
  {
    assert AtLevel(side, p2, Rank(side, o.price))(o);
    assert Rank(side, o.price) in Levels(orders, side, p2);
    k :| 0 <= k < |Levels(orders, side, p2)| && Levels(orders, side, p2)[k] == Rank(side, o.price);
  }

  lemma BeforeFirst(orders: seq<Order>, side: Side, p2: int)
    ensures Before(orders, side, p2, 0) == 0
  {
    var levels := Levels(orders, side, p2);
    var f := if levels != [] then Better(side, p2, levels[0]) else Eligibles(side, p2);
    if Total(orders, f) > 0 {
      var o := TotalPositive(orders, f);
      var k := RankIsLevel(orders, side, p2, o);
    }
  }

  lemma BeforeNext(orders: seq<Order>, side: Side, p2: int, k: nat)
    requires k < |Levels(orders, side, p2)|
    ensures Before(orders, side, p2, k + 1) ==
            Before(orders, side, p2, k) + Total(orders, AtLevel(side, p2, Levels(orders, side, p2)[k]))
  {
    var levels := Levels(orders, side, p2);
    var f := if k + 1 < |levels| then Better(side, p2, levels[k + 1]) else Eligibles(side, p2);
    forall o | o in orders
      ensures f(o) <==> Better(side, p2, levels[k])(o) || AtLevel(side, p2, levels[k])(o)
    {
      if Eligible(o, side, p2) {
        var j := RankIsLevel(orders, side, p2, o);
      }
    }
    TotalPartition(orders, f, Better(side, p2, levels[k]), AtLevel(side, p2, levels[k]));
  }

  method MarginalLevel(orders: seq<Order>, side: Side, p2: int, volume: nat) returns (found: bool, level: int)
    ensures found ==> IsMarginal(orders, side, p2, volume, level)
    ensures found <==> Levels(orders, side, p2) != [] && Total(orders, Eligibles(side, p2)) >= volume
  {
    var levels := Levels(orders, side, p2);
    var cum := 0;
    BeforeFirst(orders, side, p2);
    for k := 0 to |levels|
      invariant cum == Before(orders, side, p2, k)
      invariant k == 0 ==> cum == 0
      invariant k > 0 ==> cum < volume
      invariant forall j :: 0 <= j < k ==>
                  Total(orders, Better(side, p2, levels[j])) + Total(orders, AtLevel(side, p2, levels[j])) < volume
    {
      level := levels[k];
      var atLevel := Total(orders, AtLevel(side, p2, level));
      BeforeNext(orders, side, p2, k);
      if cum + atLevel >= volume {
        assert level in levels;
        SumWithin(orders, side, p2, level);
        return true, level;
      }
      cum := cum + atLevel;
    }
    return false, 0;
  }

  lemma SumWithin(orders: seq<Order>, side: Side, p2: int, level: int)
    ensures Total(orders, Better(side, p2, level)) + Total(orders, AtLevel(side, p2, level))
            <= Total(orders, Eligibles(side, p2))
  {
    var upTo := (o: Order) => Eligible(o, side, p2) && Rank(side, o.price) <= level;
    TotalPartition(orders, upTo, Better(side, p2, level), AtLevel(side, p2, level));
    TotalMonotone(orders, upTo, Eligibles(side, p2));
  }

  // ------------------------------------------------------ pro rata shares

  /** The marginal level of one side: what is left for it, and its own quantity. */
  datatype Margin = Margin(side: Side, p2: int, level: int, residual: nat, total: nat) {
    predicate Holds(o: Order) { AtLevel(side, p2, level)(o) }

    /** The pro-rata share, floored. */
    function Share(o: Order): nat
      requires total > 0
    {
      residual * o.qty / total
    }

    predicate HasRoom(o: Order)
      requires total > 0
    {
      Holds(o) && Share(o) < o.qty
    }
  }

  ghost function MarginOf(orders: seq<Order>, side: Side, p2: int, volume: nat, level: int): Margin
    requires IsMarginal(orders, side, p2, volume, level)
  {
    Margin(side, p2, level, volume - Total(orders, Better(side, p2, level)), Total(orders, AtLevel(side, p2, level)))
  }

  /** Sum of the floored shares of the margin. */
  ghost function Given(orders: seq<Order>, m: Margin): nat
    requires m.total > 0
  {
    if orders == [] then 0
    else
      var (init, last) := (orders[..|orders| - 1], orders[|orders| - 1]);
      Given(init, m) + if m.Holds(last) then m.Share(last) else 0
  }

  /** How many orders of the margin could take one more unit. */
  ghost function Rooms(orders: seq<Order>, m: Margin): nat
    requires m.total > 0
  {
    if orders == [] then 0
    else
      var (init, last) := (orders[..|orders| - 1], orders[|orders| - 1]);
      Rooms(init, m) + if m.HasRoom(last) then 1 else 0
  }

  /** The part of the division thrown away by the floors, over the common denominator. */
  ghost function Lost(orders: seq<Order>, m: Margin): nat
    requires m.total > 0
  {
    if orders == [] then 0
    else
      var (init, last) := (orders[..|orders| - 1], orders[|orders| - 1]);
      Lost(init, m) + if m.Holds(last) then m.residual * last.qty % m.total else 0
  }

  lemma TotalSnoc(orders: seq<Order>, f: Order -> bool)
    requires orders != []
    ensures var (init, last) := (orders[..|orders| - 1], orders[|orders| - 1]);
            Total(orders, f) == Total(init, f) + if f(last) then last.qty else 0
  {
    var (init, last) := (orders[..|orders| - 1], orders[|orders| - 1]);
    assert orders == init + [last];
    TotalConcat(init, [last], f);
  }

  lemma DivideExactly(a: nat, d: nat)
    requires d > 0
    ensures a == d * (a / d) + a % d && a % d <= d - 1
  {
  }

  lemma DivideBounded(a: nat, d: nat, q: nat)
    requires d > 0 && a <= d * q
    ensures a / d <= q && (a / d == q ==> a % d == 0)
  {
    if a / d > q {
      Scale(q + 1, a / d, d);
    }
  }

  lemma ShareStep(residual: nat, total: nat, sum: nat, given: nat, lost: nat, qty: nat)
    requires total > 0 && residual * sum == total * given + lost
    ensures residual * (sum + qty) == total * (given + residual * qty / total) + (lost + residual * qty % total)
  {
    DivideExactly(residual * qty, total);
    Distribute(residual, sum, qty);
    Distribute(total, given, residual * qty / total);
  }

  lemma {:induction false} SharesAndLost(orders: seq<Order>, m: Margin)
    requires m.total > 0
    ensures m.residual * Total(orders, AtLevel(m.side, m.p2, m.level)) == m.total * Given(orders, m) + Lost(orders, m)
  {
    if orders != [] {
      var (init, last) := (orders[..|orders| - 1], orders[|orders| - 1]);
      SharesAndLost(init, m);
      TotalSnoc(orders, AtLevel(m.side, m.p2, m.level));
      var before := Total(init, AtLevel(m.side, m.p2, m.level));
      ShareStep(m.residual, m.total, before, Given(init, m), Lost(init, m), last.qty);
    }
  }

  /** A share is never above the order, and an order with no room lost nothing. */
  lemma ShareFits(m: Margin, o: Order)
    requires m.residual <= m.total && m.total > 0
    ensures m.Share(o) <= o.qty
    ensures m.Share(o) == o.qty ==> m.residual * o.qty % m.total == 0
  {
    assert m.residual * o.qty <= m.total * o.qty;
    DivideBounded(m.residual * o.qty, m.total, o.qty);
  }

  lemma {:induction false} LostBounded(orders: seq<Order>, m: Margin)
    requires m.residual <= m.total && m.total > 0
    ensures Lost(orders, m) <= Rooms(orders, m) * (m.total - 1)
  {
    if orders != [] {
      var (init, last) := (orders[..|orders| - 1], orders[|orders| - 1]);
      LostBounded(init, m);
      LostStep(init, last, m);
    }
  }

  lemma LostStep(init: seq<Order>, last: Order, m: Margin)
    requires m.residual <= m.total && m.total > 0
    requires Lost(init, m) <= Rooms(init, m) * (m.total - 1)
    ensures var here := if m.Holds(last) then m.residual * last.qty % m.total else 0;
            Lost(init, m) + here <= (Rooms(init, m) + if m.HasRoom(last) then 1 else 0) * (m.total - 1)
  {
    ShareFits(m, last);
    DivideExactly(m.residual * last.qty, m.total);
    Distribute(m.total - 1, Rooms(init, m), 1);
  }

  lemma SameSign(a: nat, x: int)
    requires a > 0 && a * x >= 0
    ensures x >= 0
  {
  }

  lemma FractionsFit(total: nat, residual: int, given: int, rooms: nat, lost: nat)
    requires total > 0 && residual * total == total * given + lost && lost <= rooms * (total - 1)
    ensures given <= residual && (residual - given < rooms || residual == given)
  {
    var rem := residual - given;
    assert total * rem == lost;
    if rem >= rooms && rem > 0 {
      Distribute(rem, total - 1, 1);
      Scale(rooms, rem, total - 1);
    }
    SameSign(total, rem);
  }

  /** The remainder always fits, with an order to spare. */
  lemma RemainderFits(orders: seq<Order>, m: Margin)
    requires m.residual <= m.total == Total(orders, AtLevel(m.side, m.p2, m.level)) && m.total > 0
    ensures Given(orders, m) <= m.residual
    ensures m.residual - Given(orders, m) < Rooms(orders, m) || m.residual == Given(orders, m)
  {
    SharesAndLost(orders, m);
    LostBounded(orders, m);
    FractionsFit(m.total, m.residual, Given(orders, m), Rooms(orders, m), Lost(orders, m));
  }

  // ------------------------------------------------------------ the fills

  /** What the i-th order of a side receives. */
  ghost function FillOf(orders: seq<Order>, m: Margin, i: nat): nat
    requires i < |orders| && m.total > 0
  {
    var o := orders[i];
    if Better(m.side, m.p2, m.level)(o) then o.qty
    else if !m.Holds(o) then 0
    else m.Share(o) + if m.HasRoom(o) && Rooms(orders[..i], m) < m.residual - Given(orders, m) then 1 else 0
  }

  /** One side is filled by price priority, then pro rata, then unit by unit. */
  ghost predicate SideFilled(orders: seq<Order>, side: Side, p2: int, volume: nat, out: seq<nat>)
    requires |out| == |orders|
  {
    exists level ::
      IsMarginal(orders, side, p2, volume, level) && FilledAt(orders, MarginOf(orders, side, p2, volume, level), out)
  }

  ghost predicate FilledAt(orders: seq<Order>, m: Margin, out: seq<nat>)
    requires |out| == |orders|
  {
    m.total > 0 && forall i :: 0 <= i < |orders| && orders[i].side == m.side ==> out[i] == FillOf(orders, m, i)
  }

  method FillBetter(orders: seq<Order>, side: Side, p2: int, level: int, out: array<nat>)
    requires out.Length == |orders|
    requires forall i :: 0 <= i < |orders| && orders[i].side == side ==> out[i] == 0
    modifies out
    ensures forall i :: 0 <= i < |orders| ==>
        out[i] == (if Better(side, p2, level)(orders[i]) then orders[i].qty else old(out[i]))
  {
    for i := 0 to |orders|
      invariant forall j :: 0 <= j < |orders| ==>
        out[j] == (if j < i && Better(side, p2, level)(orders[j]) then orders[j].qty else old(out[j]))
    {
      if Better(side, p2, level)(orders[i]) {
        out[i] := orders[i].qty;
      }
    }
  }

  method FillShares(orders: seq<Order>, m: Margin, out: array<nat>) returns (given: nat)
    requires out.Length == |orders| && m.total > 0
    modifies out
    ensures given == Given(orders, m)
    ensures forall i :: 0 <= i < |orders| ==>
        out[i] == (if m.Holds(orders[i]) then m.Share(orders[i]) else old(out[i]))
  {
    given := 0;
    for i := 0 to |orders|
      invariant given == Given(orders[..i], m)
      invariant forall j :: 0 <= j < |orders| ==>
        out[j] == (if j < i && m.Holds(orders[j]) then m.Share(orders[j]) else old(out[j]))
    {
      assert orders[..i + 1][..i] == orders[..i];
      if m.Holds(orders[i]) {
        out[i] := m.residual * orders[i].qty / m.total;
        given := given + out[i];
      }
    }
    assert orders[..|orders|] == orders;
  }

  /** Hands the remainder out in array order; what is left over is what no order had room for. */
  method FillRemainder(orders: seq<Order>, m: Margin, remainder: nat, out: array<nat>) returns (rem: nat)
    requires out.Length == |orders| && m.total > 0
    requires forall i :: 0 <= i < |orders| && m.Holds(orders[i]) ==> out[i] == m.Share(orders[i])
    modifies out
    ensures rem == (if Rooms(orders, m) < remainder then remainder - Rooms(orders, m) else 0)
    ensures forall i :: 0 <= i < |orders| ==>
        out[i] == old(out[i]) + (if m.HasRoom(orders[i]) && Rooms(orders[..i], m) < remainder then 1 else 0)
  {
    rem := remainder;
    for i := 0 to |orders|
      invariant rem == (if Rooms(orders[..i], m) < remainder then remainder - Rooms(orders[..i], m) else 0)
      invariant forall j :: 0 <= j < |orders| ==>
        out[j] == old(out[j]) + (if j < i && m.HasRoom(orders[j]) && Rooms(orders[..j], m) < remainder then 1 else 0)
    {
      assert orders[..i + 1][..i] == orders[..i];
      if rem != 0 && m.Holds(orders[i]) && out[i] < orders[i].qty {
        out[i] := out[i] + 1;
        rem := rem - 1;
      }
    }
    assert orders[..|orders|] == orders;
  }

  /** The body of the loop over the two sides. */
  method FillSide(orders: seq<Order>, side: Side, p2: int, volume: nat, out: array<nat>)
    returns (r: Result<(), FillError>)
    requires out.Length == |orders|
    requires forall i :: 0 <= i < |orders| && orders[i].side == side ==> out[i] == 0
    modifies out
    ensures forall i :: 0 <= i < |orders| && orders[i].side != side ==> out[i] == old(out[i])
    ensures r.Ok? ==> SideFilled(orders, side, p2, volume, out[..])
    ensures r.Ok? ==> Total(orders, Eligibles(side, p2)) >= volume
    ensures r.Err? && volume > 0 ==> Total(orders, Eligibles(side, p2)) < volume && r.error == EligibleBelowVolume
  {
    var found, level := MarginalLevel(orders, side, p2, volume);
    if !found {
      if volume > 0 && Total(orders, Eligibles(side, p2)) > 0 {
        var o := TotalPositive(orders, Eligibles(side, p2));
        var k := RankIsLevel(orders, side, p2, o);
      }
      return Err(EligibleBelowVolume);
    }
    FillBetter(orders, side, p2, level, out);
    var residual := volume - Total(orders, Better(side, p2, level));
    var tot := Total(orders, AtLevel(side, p2, level));
    SumWithin(orders, side, p2, level);
    if tot == 0 {
      return Err(DivisionByZero);
    }
    FillMargin(orders, Margin(side, p2, level, residual, tot), out);
    assert FilledAt(orders, MarginOf(orders, side, p2, volume, level), out[..]);
    return Ok(());
  }

  /** Shares the residual over the marginal level; no unit is left over. */
  method FillMargin(orders: seq<Order>, m: Margin, out: array<nat>)
    requires out.Length == |orders|
    requires m.residual <= m.total == Total(orders, AtLevel(m.side, m.p2, m.level)) && m.total > 0
    modifies out
    ensures forall i :: 0 <= i < |orders| ==>
        out[i] == (if m.Holds(orders[i]) then FillOf(orders, m, i) else old(out[i]))
  {
    var given := FillShares(orders, m, out);
    RemainderFits(orders, m);
    var rem := FillRemainder(orders, m, m.residual - given, out);
    assert rem == 0;
  }

  ghost predicate BothFilled(orders: seq<Order>, p2: int, volume: nat, out: seq<nat>)
    requires |out| == |orders|
  {
    SideFilled(orders, Buy, p2, volume, out) && SideFilled(orders, Sell, p2, volume, out)
  }

  /** Fills both sides. It fails exactly when a side's eligible quantity is below
      the volume; the other two checks of the loop body never trip. */
  method Fills(orders: seq<Order>, p2: int, volume: nat) returns (r: Result<seq<nat>, FillError>)
    ensures r.Ok? ==> |r.value| == |orders|
    ensures r.Ok? ==> BothFilled(orders, p2, volume, r.value)
    ensures volume > 0 ==>
              (r.Ok? <==> Total(orders, Eligibles(Buy, p2)) >= volume && Total(orders, Eligibles(Sell, p2)) >= volume)
    ensures r.Err? && volume > 0 ==> r.error == EligibleBelowVolume
  {
    var out := new nat[|orders|](_ => 0);
    var buys := FillSide(orders, Buy, p2, volume, out);
    if buys.Err? {
      return Err(buys.error);
    }
    ghost var afterBuys := out[..];
    var sells := FillSide(orders, Sell, p2, volume, out);
    if sells.Err? {
      return Err(sells.error);
    }
    OtherSideKept(orders, Buy, p2, volume, afterBuys, out[..]);
    return Ok(out[..]);
  }

  lemma OtherSideKept(orders: seq<Order>, side: Side, p2: int, volume: nat, before: seq<nat>, after: seq<nat>)
    requires |before| == |after| == |orders|
    requires SideFilled(orders, side, p2, volume, before)
    requires forall i :: 0 <= i < |orders| && orders[i].side == side ==> after[i] == before[i]
    ensures SideFilled(orders, side, p2, volume, after)
  {
    var level :| IsMarginal(orders, side, p2, volume, level) &&
                 FilledAt(orders, MarginOf(orders, side, p2, volume, level), before);
    assert FilledAt(orders, MarginOf(orders, side, p2, volume, level), after);
  }

  // ------------------------------------------------- what the fills achieve

  ghost function SideSum(orders: seq<Order>, out: seq<nat>, side: Side): nat
    requires |out| == |orders|
  {
    if orders == [] then 0
    else
      var n := |orders| - 1;
      SideSum(orders[..n], out[..n], side) + if orders[n].side == side then out[n] else 0
  }

  /** A way to trade at the single price p: within sizes, within limits, and balanced. */
  ghost predicate IsAllocation(orders: seq<Order>, out: seq<nat>, p: real, executed: nat) {
    && |out| == |orders|
    && (forall i :: 0 <= i < |orders| ==> out[i] <= orders[i].qty)
    && (forall i :: 0 <= i < |orders| && out[i] > 0 ==> Reaches(orders[i], p))
    && SideSum(orders, out, Buy) == SideSum(orders, out, Sell) == executed
  }

  lemma {:induction false} SideSumBounded(orders: seq<Order>, out: seq<nat>, side: Side, p: real)
    requires |out| == |orders|
    requires forall i :: 0 <= i < |orders| ==> out[i] <= orders[i].qty
    requires forall i :: 0 <= i < |orders| && out[i] > 0 ==> Reaches(orders[i], p)
    ensures SideSum(orders, out, side) <= Total(orders, Admits(side, p))
  {
    if orders != [] {
      var n := |orders| - 1;
      SideSumBounded(orders[..n], out[..n], side, p);
      TotalSnoc(orders, Admits(side, p));
    }
  }

  /** Bumps handed out among the first orders of the margin. */
  ghost function Bumps(rooms: nat, remainder: nat): nat { if rooms < remainder then rooms else remainder }

  lemma {:induction false} SideSumOfFills(orders: seq<Order>, m: Margin, out: seq<nat>, n: nat)
    requires |out| == |orders| && n <= |orders| && FilledAt(orders, m, out)
    requires Given(orders, m) <= m.residual
    ensures SideSum(orders[..n], out[..n], m.side) ==
            Total(orders[..n], Better(m.side, m.p2, m.level)) + Given(orders[..n], m)
            + Bumps(Rooms(orders[..n], m), m.residual - Given(orders, m))
  {
    if n > 0 {
      assert orders[..n][..n - 1] == orders[..n - 1] && out[..n][..n - 1] == out[..n - 1];
      SideSumOfFills(orders, m, out, n - 1);
      TotalSnoc(orders[..n], Better(m.side, m.p2, m.level));
    }
  }

  /** Each side sums exactly to the volume, within every size and every limit. */
  lemma FilledSideIsExact(orders: seq<Order>, side: Side, p2: int, volume: nat, out: seq<nat>)
    requires |out| == |orders| && SideFilled(orders, side, p2, volume, out)
    ensures SideSum(orders, out, side) == volume
    ensures forall i :: 0 <= i < |orders| && orders[i].side == side ==>
              out[i] <= orders[i].qty && (out[i] > 0 ==> Eligible(orders[i], side, p2))
  {
    var level :| IsMarginal(orders, side, p2, volume, level) &&
                 FilledAt(orders, MarginOf(orders, side, p2, volume, level), out);
    var m := MarginOf(orders, side, p2, volume, level);
    RemainderFits(orders, m);
    SideSumOfFills(orders, m, out, |orders|);
    assert orders[..|orders|] == orders && out[..|orders|] == out;
    forall i | 0 <= i < |orders| && orders[i].side == side
      ensures out[i] <= orders[i].qty && (out[i] > 0 ==> Eligible(orders[i], side, p2))
    {
      ShareFits(m, orders[i]);
      assert out[i] == FillOf(orders, m, i);
    }
  }

  lemma FillsAreAllocation(orders: seq<Order>, p2: int, volume: nat, out: seq<nat>)
    requires |out| == |orders| && BothFilled(orders, p2, volume, out)
    ensures IsAllocation(orders, out, p2 as real / 2.0, volume)
  {
    FilledSideIsExact(orders, Buy, p2, volume, out);
    FilledSideIsExact(orders, Sell, p2, volume, out);
    forall i | 0 <= i < |orders| && out[i] > 0
      ensures Reaches(orders[i], p2 as real / 2.0)
    {
      EligibleAtHalf(orders[i], orders[i].side, p2);
    }
  }

  /** No allocation at any single real price executes more than the cleared volume. */
  lemma NoAllocationBeats(orders: seq<Order>, c: Clearing, p: real, other: seq<nat>, executed: nat)
    requires IsClearing(orders, c)
    requires IsAllocation(orders, other, p, executed)
    ensures executed <= if c.Cleared? then c.volume else 0
  {
    ScanIsComplete(orders, c);
    SideSumBounded(orders, other, Buy, p);
    SideSumBounded(orders, other, Sell, p);
    assert executed <= Volume(orders, p);
  }

  lemma EnoughIsEligible(orders: seq<Order>, c: Clearing, side: Side)
    requires IsClearing(orders, c) && c.Cleared?
    ensures Total(orders, Eligibles(side, c.p2)) >= c.volume
  {
    ConstantOnInterval(orders, c, c.p2 as real / 2.0);
    EligibleQuantity(orders, side, c.p2);
  }

  /** Clear the book and fill at the cleared price. The fills never fail, and
      they are a best allocation over every real price. */
  method ClearAndFill(orders: seq<Order>) returns (c: Clearing, out: seq<nat>)
    ensures IsClearing(orders, c)
    ensures c.Cleared? ==> IsAllocation(orders, out, c.p2 as real / 2.0, c.volume)
    ensures c.Cleared? ==> BothFilled(orders, c.p2, c.volume, out)
    ensures c.NoClearing? ==> out == seq(|orders|, _ => 0)
    ensures forall p: real, other, executed: nat ::
              IsAllocation(orders, other, p, executed) ==> executed <= if c.Cleared? then c.volume else 0
  {
    c := Clear(orders);
    out := seq(|orders|, _ => 0);
    if c.Cleared? {
      EnoughIsEligible(orders, c, Buy);
      EnoughIsEligible(orders, c, Sell);
      var r := Fills(orders, c.p2, c.volume);
      out := r.value;
      FillsAreAllocation(orders, c.p2, c.volume, out);
    }
    forall p: real, other, executed: nat | IsAllocation(orders, other, p, executed)
      ensures executed <= if c.Cleared? then c.volume else 0
    {
      NoAllocationBeats(orders, c, p, other, executed);
    }
  }

  // ------------------------------------------------- the fills spelled out

  predicate StrictlyBetter(side: Side, price: int, than: int) {
    if side.Buy? then price > than else price < than
  }

  function BetterThan(side: Side, price: int): Order -> bool {
    (o: Order) => o.side == side && StrictlyBetter(side, o.price, price)
  }

  function PricedAt(side: Side, price: int): Order -> bool { (o: Order) => o.side == side && o.price == price }

  /** The i-th order is bumped above its share: it has room, and every earlier
      order of the margin that has room is bumped too. */
  ghost predicate BumpedInTurn(orders: seq<Order>, out: seq<nat>, residual: nat, total: nat, margin: int, i: nat)
    requires |out| == |orders| && i < |orders| && total > 0
  {
    && out[i] == residual * orders[i].qty / total + 1
    && out[i] <= orders[i].qty
    && forall j :: 0 <= j < i && PricedAt(orders[i].side, margin)(orders[j]) &&
                   residual * orders[j].qty / total < orders[j].qty ==>
         out[j] == residual * orders[j].qty / total + 1
  }

  /** Better than the margin in full, worse not at all, and at the margin the
      floored share of what is left, or one more. */
  ghost predicate FillIs(orders: seq<Order>, out: seq<nat>, residual: nat, total: nat, margin: int, i: nat)
    requires |out| == |orders| && i < |orders| && total > 0
  {
    var (side, price) := (orders[i].side, orders[i].price);
    && (StrictlyBetter(side, price, margin) ==> out[i] == orders[i].qty)
    && (StrictlyBetter(side, margin, price) ==> out[i] == 0)
    && (price == margin ==>
          out[i] == residual * orders[i].qty / total || BumpedInTurn(orders, out, residual, total, margin, i))
  }

  /** The fills of one side, in prices: the margin is the eligible price at which
      the better orders and those priced there first reach the volume. */
  ghost predicate FilledFrom(orders: seq<Order>, side: Side, p2: int, volume: nat, out: seq<nat>, margin: int)
    requires |out| == |orders|
  {
    var better := Total(orders, BetterThan(side, margin));
    var total := Total(orders, PricedAt(side, margin));
    && (if side.Buy? then 2 * margin >= p2 else 2 * margin <= p2)
    && (better < volume || better == 0) && better <= volume <= better + total && total > 0
    && SideSum(orders, out, side) == volume
    && forall i :: 0 <= i < |orders| && orders[i].side == side ==>
         FillIs(orders, out, volume - better, total, margin, i)
  }

  lemma SameFilter(orders: seq<Order>, f: Order -> bool, g: Order -> bool)
    requires forall o :: o in orders ==> (f(o) <==> g(o))
    ensures Total(orders, f) == Total(orders, g)
  {
    TotalMonotone(orders, f, g);
    TotalMonotone(orders, g, f);
  }

  lemma {:induction false} RoomsGrow(orders: seq<Order>, m: Margin, j: nat, i: nat)
    requires m.total > 0 && j <= i <= |orders|
    ensures Rooms(orders[..j], m) <= Rooms(orders[..i], m)
  {
    if j < i {
      assert orders[..i][..i - 1] == orders[..i - 1];
      RoomsGrow(orders, m, j, i - 1);
    }
  }

  /** The rule, in prices and quantities. */
  lemma FillsAre(orders: seq<Order>, side: Side, p2: int, volume: nat, out: seq<nat>)
    requires |out| == |orders| && SideFilled(orders, side, p2, volume, out)
    ensures exists margin :: FilledFrom(orders, side, p2, volume, out, margin)
  {
    var level :| IsMarginal(orders, side, p2, volume, level) &&
                 FilledAt(orders, MarginOf(orders, side, p2, volume, level), out);
    var m := MarginOf(orders, side, p2, volume, level);
    var margin := if side.Buy? then -level else level;
    SameFilter(orders, Better(side, p2, level), BetterThan(side, margin));
    SameFilter(orders, AtLevel(side, p2, level), PricedAt(side, margin));
    FilledSideIsExact(orders, side, p2, volume, out);
    hide Total, SideSum, Rooms, Given, FilledAt, FillOf, BumpedInTurn;
    forall i | 0 <= i < |orders| && orders[i].side == side
      ensures FillIs(orders, out, m.residual, m.total, margin, i)
    {
      FillOfIs(orders, m, out, margin, i);
    }
    assert FilledFrom(orders, side, p2, volume, out, margin);
  }

  lemma FillOfIs(orders: seq<Order>, m: Margin, out: seq<nat>, margin: int, i: nat)
    requires |out| == |orders| && FilledAt(orders, m, out) && i < |orders|
    requires m.residual <= m.total && orders[i].side == m.side && m.level == Rank(m.side, margin)
    requires if m.side.Buy? then 2 * margin >= m.p2 else 2 * margin <= m.p2
    ensures FillIs(orders, out, m.residual, m.total, margin, i)
  {
    assert out[i] == FillOf(orders, m, i);
    if orders[i].price == margin {
      BumpIsInTurn(orders, m, out, margin, i);
    }
  }

  lemma BumpIsInTurn(orders: seq<Order>, m: Margin, out: seq<nat>, margin: int, i: nat)
    requires |out| == |orders| && FilledAt(orders, m, out) && i < |orders|
    requires m.residual <= m.total && orders[i].side == m.side && orders[i].price == margin
    requires m.level == Rank(m.side, margin) && Eligible(orders[i], m.side, m.p2)
    ensures out[i] == m.residual * orders[i].qty / m.total || BumpedInTurn(orders, out, m.residual, m.total, margin, i)
  {
    assert out[i] == FillOf(orders, m, i);
    if out[i] != m.Share(orders[i]) {
      forall j | 0 <= j < i && PricedAt(m.side, margin)(orders[j]) && m.Share(orders[j]) < orders[j].qty
        ensures out[j] == m.Share(orders[j]) + 1
      {
        RoomsGrow(orders, m, j, i);
        assert out[j] == FillOf(orders, m, j);
      }
    }
  }

  /** Price priority: where an order of a side receives anything, every order of
      that side at a strictly better price is filled in full. */
  lemma PricePriority(orders: seq<Order>, side: Side, p2: int, volume: nat, out: seq<nat>, i: nat, j: nat)
    requires |out| == |orders| && SideFilled(orders, side, p2, volume, out)
    requires i < |orders| && j < |orders| && orders[i].side == orders[j].side == side && out[j] > 0
    requires if side.Buy? then orders[i].price > orders[j].price else orders[i].price < orders[j].price
    ensures out[i] == orders[i].qty
  {
    FillsAre(orders, side, p2, volume, out);
  }

  /** Pro rata: at the margin a fill is less than one unit below the exact
      proportional share and at most one unit above it. */
  lemma ProRataWithinOne(orders: seq<Order>, m: Margin, out: seq<nat>, i: nat)
    requires |out| == |orders| && FilledAt(orders, m, out)
    requires i < |orders| && m.Holds(orders[i])
    ensures m.residual * orders[i].qty - m.total < out[i] * m.total <= m.residual * orders[i].qty + m.total
  {
    assert out[i] == FillOf(orders, m, i);
    DivideExactly(m.residual * orders[i].qty, m.total);
    Distribute(m.total, m.Share(orders[i]), 1);
  }

  // ---------------------------------------------------------- reveal order

  /** The i-th order sits at its side's marginal level. */
  ghost predicate OnMargin(orders: seq<Order>, p2: int, volume: nat, i: nat)
    requires i < |orders|
  {
    exists level :: IsMarginal(orders, orders[i].side, p2, volume, level) &&
                    AtLevel(orders[i].side, p2, level)(orders[i])
  }

  lemma MarginIgnoresRevealOrder(a: seq<Order>, b: seq<Order>, side: Side, p2: int, volume: nat, level: int)
    requires multiset(a) == multiset(b)
    requires IsMarginal(a, side, p2, volume, level)
    ensures IsMarginal(b, side, p2, volume, level)
    ensures MarginOf(a, side, p2, volume, level) == MarginOf(b, side, p2, volume, level)
  {
    forall f: Order -> bool
      ensures Total(a, f) == Total(b, f)
    {
      TotalPermuted(a, b, f);
    }
    assert forall o :: o in a <==> o in multiset(a);
    assert forall o :: o in b <==> o in multiset(b);
    forall l
      ensures IsLevel(a, side, p2, l) <==> IsLevel(b, side, p2, l)
    {
    }
  }

  /** Reveal order decides only the residue: the same order in a permuted book
      receives the same fill, or, at the marginal level, one unit more or less. */
  lemma RevealOrderDecidesResidue(a: seq<Order>, b: seq<Order>, side: Side, p2: int, volume: nat,
                                  outA: seq<nat>, outB: seq<nat>, i: nat, j: nat)
    requires multiset(a) == multiset(b)
    requires |outA| == |a| && SideFilled(a, side, p2, volume, outA)
    requires |outB| == |b| && SideFilled(b, side, p2, volume, outB)
    requires i < |a| && j < |b| && a[i] == b[j] && a[i].side == side
    ensures outA[i] <= outB[j] + 1 && outB[j] <= outA[i] + 1
    ensures outA[i] == outB[j] || OnMargin(a, p2, volume, i)
  {
    var la :| IsMarginal(a, side, p2, volume, la) && FilledAt(a, MarginOf(a, side, p2, volume, la), outA);
    var lb :| IsMarginal(b, side, p2, volume, lb) && FilledAt(b, MarginOf(b, side, p2, volume, lb), outB);
    MarginIgnoresRevealOrder(a, b, side, p2, volume, la);
    assert la == lb;
    var m := MarginOf(a, side, p2, volume, la);
    assert outA[i] == FillOf(a, m, i) && outB[j] == FillOf(b, m, j);
  }

  /** Marginal orders that received one unit above their floored share. */
  ghost function Bumped(orders: seq<Order>, m: Margin, out: seq<nat>): nat
    requires |out| == |orders| && m.total > 0
  {
    if orders == [] then 0
    else
      var n := |orders| - 1;
      Bumped(orders[..n], m, out[..n]) + if m.Holds(orders[n]) && out[n] != m.Share(orders[n]) then 1 else 0
  }

  ghost function Count(orders: seq<Order>, m: Margin): nat {
    if orders == [] then 0
    else
      var n := |orders| - 1;
      Count(orders[..n], m) + if m.Holds(orders[n]) then 1 else 0
  }

  lemma {:induction false} BumpedIsBumps(orders: seq<Order>, m: Margin, out: seq<nat>, n: nat)
    requires |out| == |orders| && n <= |orders| && FilledAt(orders, m, out)
    requires Given(orders, m) <= m.residual
    ensures Bumped(orders[..n], m, out[..n]) == Bumps(Rooms(orders[..n], m), m.residual - Given(orders, m))
    ensures Rooms(orders[..n], m) <= Count(orders[..n], m)
  {
    if n > 0 {
      assert orders[..n][..n - 1] == orders[..n - 1] && out[..n][..n - 1] == out[..n - 1];
      BumpedIsBumps(orders, m, out, n - 1);
      assert out[n - 1] == out[..n][n - 1];
    }
  }

  /** Every marginal fill is the floored share or one more, and of the k
      marginal orders at most k - 1 get the extra unit. */
  lemma AtMostAllButOneBumped(orders: seq<Order>, side: Side, p2: int, volume: nat, level: int, out: seq<nat>)
    requires |out| == |orders| && IsMarginal(orders, side, p2, volume, level)
    requires FilledAt(orders, MarginOf(orders, side, p2, volume, level), out)
    ensures var m := MarginOf(orders, side, p2, volume, level);
            && Bumped(orders, m, out) < Count(orders, m)
            && Bumped(orders, m, out) == m.residual - Given(orders, m)
            && forall i :: 0 <= i < |orders| && m.Holds(orders[i]) ==>
                 m.Share(orders[i]) <= out[i] <= m.Share(orders[i]) + 1
  {
    hide Rooms, Given, Bumped, Count, Total;
    var m := MarginOf(orders, side, p2, volume, level);
    RemainderFits(orders, m);
    BumpedIsBumps(orders, m, out, |orders|);
    assert orders[..|orders|] == orders && out[..|orders|] == out;
    var o :| o in orders && AtLevel(side, p2, level)(o);
    CountPositive(orders, m, o);
    forall i | 0 <= i < |orders| && m.Holds(orders[i])
      ensures m.Share(orders[i]) <= out[i] <= m.Share(orders[i]) + 1
    {
      assert out[i] == FillOf(orders, m, i);
    }
  }

  lemma {:induction false} CountPositive(orders: seq<Order>, m: Margin, o: Order)
    requires o in orders && m.Holds(o)
    ensures Count(orders, m) > 0
  {
    var n := |orders| - 1;
    if orders[n] != o {
      CountPositive(orders[..n], m, o);
    }
  }
}
