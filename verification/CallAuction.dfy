/** The reference clearing rule of the uniform-price call auction.

    Prices may be real: the rule is defined at every real price although only
    submitted (integer) prices are scanned and the chosen price may be a
    half-integer, carried at twice scale. */
module CallAuction {
  import opened Basics

  datatype Side = Buy | Sell
  datatype Order = Order(side: Side, price: int, qty: nat)

  /** Quantity of the orders a filter selects; every sum over a book is one of these. */
  function Total(orders: seq<Order>, want: Order -> bool): nat {
    if orders == [] then 0
    else (if want(orders[0]) then orders[0].qty else 0) + Total(orders[1..], want)
  }

  /** The order's limit admits trading at price p. */
  predicate Reaches(o: Order, p: real) {
    match o.side
    case Buy => o.price as real >= p
    case Sell => o.price as real <= p
  }

  function Admits(side: Side, p: real): Order -> bool {
    (o: Order) => o.side == side && Reaches(o, p)
  }

  function Demand(orders: seq<Order>, p: real): nat { Total(orders, Admits(Buy, p)) }

  function Supply(orders: seq<Order>, p: real): nat { Total(orders, Admits(Sell, p)) }

  /** Executable volume V(p). */
  function Volume(orders: seq<Order>, p: real): nat {
    var (d, s) := (Demand(orders, p), Supply(orders, p));
    if d < s then d else s
  }

  function Imbalance(orders: seq<Order>, p: real): nat {
    var (d, s) := (Demand(orders, p), Supply(orders, p));
    if d < s then s - d else d - s
  }

  // ---------------------------------------------------------------- sums

  lemma {:induction false} TotalMonotone(orders: seq<Order>, f: Order -> bool, g: Order -> bool)
    requires forall o :: o in orders && f(o) ==> g(o)
    ensures Total(orders, f) <= Total(orders, g)
  {
    if orders != [] {
      TotalMonotone(orders[1..], f, g);
    }
  }

  lemma {:induction false} TotalPartition(orders: seq<Order>, f: Order -> bool, g: Order -> bool, h: Order -> bool)
    requires forall o :: o in orders ==> (f(o) <==> g(o) || h(o)) && !(g(o) && h(o))
    ensures Total(orders, f) == Total(orders, g) + Total(orders, h)
  {
    if orders != [] {
      TotalPartition(orders[1..], f, g, h);
    }
  }

  lemma {:induction false} TotalMember(orders: seq<Order>, f: Order -> bool, o: Order)
    requires o in orders && f(o)
    ensures o.qty <= Total(orders, f)
  {
    if o != orders[0] {
      TotalMember(orders[1..], f, o);
    }
  }

  lemma {:induction false} TotalPositive(orders: seq<Order>, f: Order -> bool) returns (o: Order)
    requires Total(orders, f) > 0
    ensures o in orders && f(o) && o.qty > 0
  {
    if f(orders[0]) && orders[0].qty > 0 {
      o := orders[0];
    } else {
      o := TotalPositive(orders[1..], f);
    }
  }

  lemma {:induction false} TotalConcat(a: seq<Order>, b: seq<Order>, f: Order -> bool)
    ensures Total(a + b, f) == Total(a, f) + Total(b, f)
  {
    if a == [] {
      assert a + b == b;
    } else {
      assert (a + b)[1..] == a[1..] + b;
      TotalConcat(a[1..], b, f);
    }
  }

  /** A sum over a book does not see the order in which the book was revealed. */
  lemma {:induction false} TotalPermuted(a: seq<Order>, b: seq<Order>, f: Order -> bool)
    requires multiset(a) == multiset(b)
    ensures Total(a, f) == Total(b, f)
  {
    if a == [] {
      assert |b| == |multiset(b)|;
    } else {
      var j := Locate(a, b);
      TotalPermuted(a[1..], b[..j] + b[j + 1..], f);
      assert b == b[..j] + ([b[j]] + b[j + 1..]);
      TotalConcat(b[..j], [b[j]] + b[j + 1..], f);
      TotalConcat(b[..j], b[j + 1..], f);
    }
  }

  // ------------------------------------------------- shape of D, S, V, |D - S|

  lemma DemandFalls(orders: seq<Order>, p: real, q: real)
    requires p <= q
    ensures Demand(orders, q) <= Demand(orders, p)
    ensures Supply(orders, p) <= Supply(orders, q)
  {
    TotalMonotone(orders, Admits(Buy, q), Admits(Buy, p));
    TotalMonotone(orders, Admits(Sell, p), Admits(Sell, q));
  }

  /** V is quasi-concave and the imbalance quasi-convex over all real prices. */
  lemma QuasiConcave(orders: seq<Order>, p: real, q: real, r: real)
    requires p <= q <= r
    ensures Volume(orders, p) <= Volume(orders, q) || Volume(orders, r) <= Volume(orders, q)
    ensures Imbalance(orders, q) <= Imbalance(orders, p) || Imbalance(orders, q) <= Imbalance(orders, r)
    ensures Supply(orders, p) <= Supply(orders, q) && Demand(orders, r) <= Demand(orders, q)
  {
    DemandFalls(orders, p, q);
    DemandFalls(orders, q, r);
  }

  // ------------------------------------------------------- submitted prices

  predicate Increasing(s: seq<int>) {
    forall i, j :: 0 <= i < j < |s| ==> s[i] < s[j]
  }

  function Insert(s: seq<int>, p: int): (r: seq<int>)
    requires Increasing(s)
    ensures Increasing(r)
    ensures forall q :: q in r <==> q == p || q in s
  {
    if s == [] then [p]
    else if p < s[0] then [p] + s
    else if p == s[0] then s
    else
      var rest := Insert(s[1..], p);
      assert s == [s[0]] + s[1..];
      assert forall i :: 0 <= i < |rest| ==> rest[i] in rest;
      [s[0]] + rest
  }

  ghost predicate Submitted(orders: seq<Order>, p: int) {
    exists o :: o in orders && o.price == p
  }

  /** The distinct prices of the book, ascending. */
  function SortedPrices(orders: seq<Order>): (r: seq<int>)
    ensures Increasing(r)
    ensures forall p :: p in r <==> Submitted(orders, p)
  {
    if orders == [] then []
    else
      var r := Insert(SortedPrices(orders[1..]), orders[0].price);
      assert forall o :: o in orders <==> o == orders[0] || o in orders[1..];
      r
  }

  // ------------------------------------------------------------- the rule

  /** None, or the doubled price with the volume and the ends of the price interval. */
  datatype Clearing = NoClearing | Cleared(p2: int, volume: nat, lo: int, hi: int)

  ghost predicate Maximiser(orders: seq<Order>, p: int) {
    Submitted(orders, p) &&
    forall q :: Submitted(orders, q) ==> Volume(orders, q as real) <= Volume(orders, p as real)
  }

  /** A volume maximiser whose imbalance no other maximiser undercuts. */
  ghost predicate Survivor(orders: seq<Order>, p: int) {
    Maximiser(orders, p) &&
    forall q :: Maximiser(orders, q) ==> Imbalance(orders, p as real) <= Imbalance(orders, q as real)
  }

  /** What the rule (a) volume, (b) imbalance, (c) midpoint asks of an answer. */
  ghost predicate IsClearing(orders: seq<Order>, c: Clearing) {
    match c
    case NoClearing => forall p :: Submitted(orders, p) ==> Volume(orders, p as real) == 0
    case Cleared(p2, volume, lo, hi) =>
      && p2 == lo + hi
      && 0 < volume == Volume(orders, lo as real)
      && Survivor(orders, lo)
      && Survivor(orders, hi)
      && forall p :: Survivor(orders, p) ==> lo <= p <= hi
  }

  function Select(prices: seq<int>, keep: int -> bool): (r: seq<int>)
    requires Increasing(prices)
    ensures Increasing(r)
    ensures forall p :: p in r <==> p in prices && keep(p)
  {
    if prices == [] then []
    else
      var rest := Select(prices[1..], keep);
      assert prices == [prices[0]] + prices[1..];
      assert forall i :: 0 <= i < |rest| ==> rest[i] in rest;
      if keep(prices[0]) then [prices[0]] + rest else rest
  }

  function LeastImbalance(orders: seq<Order>, prices: seq<int>): (r: nat)
    requires prices != []
    ensures forall p :: p in prices ==> r <= Imbalance(orders, p as real)
    ensures exists p :: p in prices && r == Imbalance(orders, p as real)
  {
    var first := Imbalance(orders, prices[0] as real);
    assert prices == [prices[0]] + prices[1..];
    assert prices[0] in prices;
    if |prices| == 1 then first
    else
      var rest := LeastImbalance(orders, prices[1..]);
      assert forall p :: p in prices[1..] ==> p in prices;
      if first < rest then first else rest
  }

  /** The scan over the submitted prices. */
  method BestVolume(orders: seq<Order>, prices: seq<int>) returns (best: nat)
    requires prices != []
    ensures forall p :: p in prices ==> Volume(orders, p as real) <= best
    ensures exists p :: p in prices && Volume(orders, p as real) == best
  {
    var running: int := -1;
    ghost var at := 0;
    for i := 0 to |prices|
      invariant forall k :: 0 <= k < i ==> Volume(orders, prices[k] as real) <= running
      invariant running == -1 <==> i == 0
      invariant running != -1 ==> 0 <= at < i && Volume(orders, prices[at] as real) == running
    {
      var v := Volume(orders, prices[i] as real);
      if v > running {
        running, at := v, i;
      }
    }
    best := running;
    assert prices[at] in prices;
  }

  function Maximisers(orders: seq<Order>, best: nat): (r: seq<int>)
    ensures Increasing(r)
    ensures forall p :: p in r <==> Submitted(orders, p) && Volume(orders, p as real) == best
  {
    Select(SortedPrices(orders), p => Volume(orders, p as real) == best)
  }

  function Survivors(orders: seq<Order>, maximisers: seq<int>): (r: seq<int>)
    requires Increasing(maximisers) && maximisers != []
    ensures r != [] && Increasing(r)
    ensures forall p :: p in r <==>
              p in maximisers &&
              forall q :: q in maximisers ==> Imbalance(orders, p as real) <= Imbalance(orders, q as real)
  {
    var least := LeastImbalance(orders, maximisers);
    Select(maximisers, p => Imbalance(orders, p as real) == least)
  }

  lemma ScannedSurvivors(orders: seq<Order>, best: nat, maximisers: seq<int>, p: int)
    requires forall q :: Submitted(orders, q) ==> Volume(orders, q as real) <= best
    requires forall q :: q in maximisers <==> Submitted(orders, q) && Volume(orders, q as real) == best
    requires maximisers != []
    ensures (p in maximisers &&
             forall q :: q in maximisers ==> Imbalance(orders, p as real) <= Imbalance(orders, q as real))
            <==> Survivor(orders, p)
  {
    var m := maximisers[0];
    assert m in maximisers && Submitted(orders, m) && Volume(orders, m as real) == best;
    assert forall q :: q in maximisers <==> Maximiser(orders, q);
  }

  lemma SurvivorsAreSurvivors(orders: seq<Order>, best: nat, maximisers: seq<int>)
    requires forall q :: Submitted(orders, q) ==> Volume(orders, q as real) <= best
    requires maximisers != [] && maximisers == Maximisers(orders, best)
    ensures forall p :: p in Survivors(orders, maximisers) <==> Survivor(orders, p)
  {
    forall p
      ensures p in Survivors(orders, maximisers) <==> Survivor(orders, p)
    {
      ScannedSurvivors(orders, best, maximisers, p);
    }
  }

  lemma EndsAreClearing(orders: seq<Order>, survivors: seq<int>, best: nat)
    requires survivors != [] && Increasing(survivors)
    requires forall p :: p in survivors <==> Survivor(orders, p)
    requires 0 < best == Volume(orders, survivors[0] as real)
    ensures var (lo, hi) := (survivors[0], survivors[|survivors| - 1]);
            IsClearing(orders, Cleared(lo + hi, best, lo, hi))
  {
    var (lo, hi) := (survivors[0], survivors[|survivors| - 1]);
    assert lo in survivors && hi in survivors;
    assert forall p :: p in survivors ==> lo <= p <= hi;
  }

  method Clear(orders: seq<Order>) returns (c: Clearing)
    ensures IsClearing(orders, c)
  {
    var prices := SortedPrices(orders);
    if prices == [] {
      return NoClearing;
    }
    var best := BestVolume(orders, prices);
    if best <= 0 {
      return NoClearing;
    }
    var maximisers := Maximisers(orders, best);
    var survivors := Survivors(orders, maximisers);
    SurvivorsAreSurvivors(orders, best, maximisers);
    assert survivors[0] in maximisers;
    EndsAreClearing(orders, survivors, best);
    var lo, hi := survivors[0], survivors[|survivors| - 1];
    c := Cleared(lo + hi, best, lo, hi);
  }

  /** The rule spelled out on the two curves, as it is announced: (a) the most
      volume, (b) among those the least |D - S|, (c) the midpoint of the prices
      that survive. */
  lemma ClearingIs(orders: seq<Order>, c: Clearing)
    requires IsClearing(orders, c)
    ensures c.NoClearing? <==>
            forall o :: o in orders ==> Demand(orders, o.price as real) == 0 || Supply(orders, o.price as real) == 0
    ensures c.Cleared? ==>
              var (dLo: int, sLo: int) := (Demand(orders, c.lo as real), Supply(orders, c.lo as real));
              var (dHi: int, sHi: int) := (Demand(orders, c.hi as real), Supply(orders, c.hi as real));
              && c.p2 == c.lo + c.hi && c.lo <= c.hi && c.volume > 0
              && (exists o :: o in orders && o.price == c.lo) && (exists o :: o in orders && o.price == c.hi)
              && (if dLo < sLo then dLo else sLo) == c.volume == (if dHi < sHi then dHi else sHi)
              && Abs(dLo - sLo) == Abs(dHi - sHi)
              && forall o :: o in orders ==>
                   var (d: int, s: int) := (Demand(orders, o.price as real), Supply(orders, o.price as real));
                   var volume := if d < s then d else s;
                   && volume <= c.volume
                   && (volume == c.volume ==> Abs(dLo - sLo) <= Abs(d - s))
                   && (volume == c.volume && Abs(dLo - sLo) == Abs(d - s) ==> c.lo <= o.price <= c.hi)
  {
    hide Demand, Supply;
    if c.Cleared? {
      assert Survivor(orders, c.lo) && Survivor(orders, c.hi) && Submitted(orders, c.lo);
    }
    forall o | o in orders
      ensures Submitted(orders, o.price)
      ensures c.Cleared? ==> Volume(orders, o.price as real) <= c.volume
      ensures c.Cleared? && Volume(orders, o.price as real) == c.volume ==>
                && Imbalance(orders, c.lo as real) <= Imbalance(orders, o.price as real)
                && (Imbalance(orders, c.lo as real) == Imbalance(orders, o.price as real) ==> c.lo <= o.price <= c.hi)
    {
      assert Submitted(orders, o.price);
      if c.Cleared? && Volume(orders, o.price as real) == c.volume {
        assert Maximiser(orders, o.price);
        if Imbalance(orders, c.lo as real) == Imbalance(orders, o.price as real) {
          assert Survivor(orders, o.price);
        }
      }
    }
  }

  // ------------------------------------------------------------ Theorem A

  /** Some submitted price executes at least what any real price does. */
  lemma NextSubmittedPrice(orders: seq<Order>, p: real) returns (s: int)
    requires Demand(orders, p) > 0
    ensures Submitted(orders, s) && Volume(orders, p) <= Volume(orders, s as real)
  {
    var prices := SortedPrices(orders);
    var buyer := TotalPositive(orders, Admits(Buy, p));
    assert buyer.price in prices;
    var last :| 0 <= last < |prices| && prices[last] == buyer.price;
    var k := 0;
    while k < |prices| && prices[k] as real < p
      invariant k <= |prices| && forall j :: 0 <= j < k ==> prices[j] as real < p
    {
      k := k + 1;
    }
    s := prices[k];
    assert s in prices;
    forall o | o in orders && Admits(Buy, p)(o)
      ensures Admits(Buy, s as real)(o)
    {
      assert o.price in prices;
    }
    TotalMonotone(orders, Admits(Buy, p), Admits(Buy, s as real));
    DemandFalls(orders, p, s as real);
  }

  /** Theorem A: the scan over submitted prices is complete. No real price at
      all executes more than the volume found, and no volume is found exactly
      when no real price executes anything. */
  lemma ScanIsComplete(orders: seq<Order>, c: Clearing)
    requires IsClearing(orders, c)
    ensures c.NoClearing? <==> forall p: real :: Volume(orders, p) == 0
    ensures c.Cleared? ==> forall p: real :: Volume(orders, p) <= c.volume
  {
    forall p: real
      ensures c.NoClearing? ==> Volume(orders, p) == 0
      ensures c.Cleared? ==> Volume(orders, p) <= c.volume
    {
      if Demand(orders, p) > 0 {
        var s := NextSubmittedPrice(orders, p);
      }
    }
    if c.Cleared? {
      assert Volume(orders, c.lo as real) > 0;
    }
  }

  /** There is no clearing exactly when no buy reaches a sell. */
  lemma NoClearingMeansNoCross(orders: seq<Order>, c: Clearing)
    requires IsClearing(orders, c)
    ensures c.NoClearing? <==>
            !exists b, s :: b in orders && s in orders && b.side.Buy? && s.side.Sell? &&
                            b.qty > 0 && s.qty > 0 && b.price >= s.price
  {
    ScanIsComplete(orders, c);
    if c.Cleared? {
      var b := TotalPositive(orders, Admits(Buy, c.lo as real));
      var s := TotalPositive(orders, Admits(Sell, c.lo as real));
      assert b.price >= c.lo >= s.price;
    }
    forall b, s | b in orders && s in orders && b.side.Buy? && s.side.Sell? &&
                  b.qty > 0 && s.qty > 0 && b.price >= s.price
      ensures c.Cleared?
    {
      TotalMember(orders, Admits(Buy, s.price as real), b);
      TotalMember(orders, Admits(Sell, s.price as real), s);
      assert Volume(orders, s.price as real) > 0;
    }
  }

  // ------------------------------------------------------------ Theorem B

  /** The lemma `fills` rests on: V is the maximum at EVERY real price of the
      interval, so the midpoint is itself a maximiser, and nowhere on it is the
      imbalance worse than the least one found. */
  lemma ConstantOnInterval(orders: seq<Order>, c: Clearing, p: real)
    requires IsClearing(orders, c) && c.Cleared?
    requires c.lo as real <= p <= c.hi as real
    ensures Volume(orders, p) == c.volume
    ensures Imbalance(orders, p) <= Imbalance(orders, c.lo as real) == Imbalance(orders, c.hi as real)
    ensures c.volume <= Demand(orders, p) && c.volume <= Supply(orders, p)
  {
    ScanIsComplete(orders, c);
    QuasiConcave(orders, c.lo as real, p, c.hi as real);
    assert Submitted(orders, c.lo) && Submitted(orders, c.hi);
  }

  /** Theorem B: among the sorted submitted prices the maximisers are
      contiguous, and so are the imbalance minimisers among them. */
  lemma ArgmaxIsConnected(orders: seq<Order>, i: nat, j: nat, k: nat)
    requires i <= j <= k < |SortedPrices(orders)|
    ensures var prices := SortedPrices(orders);
            && (Maximiser(orders, prices[i]) && Maximiser(orders, prices[k]) ==> Maximiser(orders, prices[j]))
            && (Survivor(orders, prices[i]) && Survivor(orders, prices[k]) ==> Survivor(orders, prices[j]))
  {
    var prices := SortedPrices(orders);
    assert prices[i] in prices && prices[j] in prices && prices[k] in prices;
    QuasiConcave(orders, prices[i] as real, prices[j] as real, prices[k] as real);
  }

  // ------------------------------------------------------- reveal order

  /** The rule names one answer, whatever order the orders were revealed in:
      two honest implementations cannot disagree. */
  lemma ClearingIgnoresRevealOrder(a: seq<Order>, b: seq<Order>, c: Clearing, d: Clearing)
    requires multiset(a) == multiset(b)
    requires IsClearing(a, c) && IsClearing(b, d)
    ensures c == d
  {
    forall p: real
      ensures Demand(a, p) == Demand(b, p) && Supply(a, p) == Supply(b, p)
    {
      TotalPermuted(a, b, Admits(Buy, p));
      TotalPermuted(a, b, Admits(Sell, p));
    }
    forall p: int
      ensures Submitted(a, p) <==> Submitted(b, p)
    {
      assert forall o :: o in a <==> o in multiset(a);
      assert forall o :: o in b <==> o in multiset(b);
    }
    SameCurvesSameClearing(a, b, c);
  }

  lemma SameCurvesSameClearing(a: seq<Order>, b: seq<Order>, c: Clearing)
    requires forall p: real :: Demand(a, p) == Demand(b, p) && Supply(a, p) == Supply(b, p)
    requires forall p: int :: Submitted(a, p) <==> Submitted(b, p)
    requires IsClearing(a, c)
    ensures IsClearing(b, c)
  {
    assert forall p: real :: Volume(a, p) == Volume(b, p);
    assert forall p: real :: Imbalance(a, p) == Imbalance(b, p);
    assert forall p: int :: Maximiser(a, p) <==> Maximiser(b, p);
    assert forall p: int :: Survivor(a, p) <==> Survivor(b, p);
  }
}
