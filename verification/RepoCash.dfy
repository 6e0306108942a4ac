/** Cash and coverage of a repo: integer arithmetic with stated rounding. */
module RepoCash {
  import opened Basics

  const BPS: nat := 10_000
  const YEAR: nat := 365 * 24 * 60 * 60

  function Purchase(mark: nat, haircut: nat): Option<nat> {
    if haircut >= BPS then None else Some(mark * (BPS - haircut) / BPS)
  }

  function CeilingDiv(n: nat, d: nat): nat
    requires d > 0
  {
    (n + d - 1) / d
  }

  function Accrued(principal: nat, rate: nat, start: int, at: int): Option<nat> {
    if at < start then None else Some(CeilingDiv(principal * rate * (at - start), BPS * YEAR))
  }

  function Repurchase(principal: nat, rate: nat, start: int, at: int): Option<nat> {
    match Accrued(principal, rate, start, at)
    case None => None
    case Some(interest) => Some(principal + interest)
  }

  function MaintenanceRequired(exposure: nat, maintenance: nat): nat {
    var (margin, remainder) := (exposure * maintenance / BPS, exposure * maintenance % BPS);
    exposure + margin + if remainder != 0 then 1 else 0
  }

  // --------------------------------------------------------- rounding facts

  /** The ceiling is the least integer that is not below the quotient. */
  lemma CeilingIs(n: nat, d: nat, q: nat)
    requires d > 0
    ensures q == CeilingDiv(n, d) <==> n <= q * d < n + d
  {
    var c := CeilingDiv(n, d);
    assert n + d - 1 == c * d + (n + d - 1) % d;
    if n <= q * d < n + d {
      SameMultiple(c, q, d);
    }
  }

  lemma SameMultiple(c: nat, q: nat, d: nat)
    requires d > 0 && -(d as int) < c * d - q * d < d
    ensures c == q
  {
    if c > q {
      Scale(q + 1, c, d);
    } else if c < q {
      Scale(c + 1, q, d);
    }
  }

  /** Margin plus rounded-up remainder is the single ceiling of the grossed-up exposure. */
  lemma MaintenanceIsCeiling(exposure: nat, maintenance: nat)
    ensures MaintenanceRequired(exposure, maintenance) == CeilingDiv(exposure * (10_000 + maintenance), 10_000)
  {
    var product := exposure * maintenance;
    assert exposure * (BPS + maintenance) == exposure * BPS + product;
    assert product == product / BPS * BPS + product % BPS;
    CeilingIs(exposure * (BPS + maintenance), BPS, MaintenanceRequired(exposure, maintenance));
  }

  /** The cash of a repo, spelled out with its roundings: the purchase rounds
      down, interest rounds up over 10,000 basis points and 365 days, and an
      impossible haircut or a term not started is refused. */
  lemma CashIs(mark: nat, haircut: nat, principal: nat, rate: nat, start: int, at: int)
    ensures Purchase(mark, haircut) == None <==> haircut >= 10_000
    ensures haircut < 10_000 ==>
              var p := Purchase(mark, haircut).value;
              10_000 * p <= mark * (10_000 - haircut) < 10_000 * p + 10_000
    ensures Accrued(principal, rate, start, at) == None <==> at < start
    ensures at >= start ==>
              var (num, interest) := (principal * rate * (at - start), Accrued(principal, rate, start, at).value);
              num <= interest * 315_360_000_000 < num + 315_360_000_000
    ensures Repurchase(principal, rate, start, at) ==
            if at < start then None else Some(principal + Accrued(principal, rate, start, at).value)
  {
    if at >= start {
      CeilingIs(principal * rate * (at - start), BPS * YEAR, Accrued(principal, rate, start, at).value);
    }
  }

  // --------------------------------------------------------------- opening

  /** What the lender asks for at the moment the repo opens. */
  function RequiredAtOpening(mark: nat, haircut: nat, rate: nat, maintenance: nat, start: int): Option<nat> {
    match Purchase(mark, haircut)
    case None => None
    case Some(principal) =>
      match Repurchase(principal, rate, start, start)
      case None => None
      case Some(exposure) => Some(MaintenanceRequired(exposure, maintenance))
  }

  lemma OpeningIs(mark: nat, haircut: nat, rate: nat, maintenance: nat, start: int)
    requires haircut < BPS
    ensures RequiredAtOpening(mark, haircut, rate, maintenance, start) ==
            Some(CeilingDiv(mark * (BPS - haircut) / BPS * (BPS + maintenance), BPS))
  {
    var principal := mark * (BPS - haircut) / BPS;
    assert principal * rate * (start - start) == 0;
    MaintenanceIsCeiling(principal, maintenance);
  }

  lemma CoveredAtOpening(mark: nat, haircut: nat, maintenance: nat)
    requires haircut < BPS && (BPS - haircut) * (BPS + maintenance) <= BPS * BPS
    ensures CeilingDiv(mark * (BPS - haircut) / BPS * (BPS + maintenance), BPS) <= mark
  {
    var gross := BPS + maintenance;
    var principal := mark * (BPS - haircut) / BPS;
    assert principal * BPS <= mark * (BPS - haircut);
    Scale(principal * BPS, mark * (BPS - haircut), gross);
    Scale((BPS - haircut) * gross, BPS * BPS, mark);
    assert mark * (BPS - haircut) * gross == (BPS - haircut) * gross * mark;
    assert principal * BPS * gross == principal * gross * BPS;
    assert principal * gross * BPS <= BPS * BPS * mark;
    assert principal * gross <= BPS * mark;
  }

  /** No repo is born under-margined, at any mark, exactly when haircut and
      maintenance satisfy (1 - h)(1 + m) <= 1. */
  lemma NeverBornUnderMargined(haircut: nat, rate: nat, maintenance: nat, start: int)
    requires haircut < 10_000
    ensures (forall mark: nat :: RequiredAtOpening(mark, haircut, rate, maintenance, start).value <= mark)
            <==> (10_000 - haircut) * (10_000 + maintenance) <= 100_000_000
  {
    forall mark: nat
      ensures RequiredAtOpening(mark, haircut, rate, maintenance, start) ==
              Some(CeilingDiv(mark * (BPS - haircut) / BPS * (BPS + maintenance), BPS))
    {
      OpeningIs(mark, haircut, rate, maintenance, start);
    }
    hide RequiredAtOpening;
    if (BPS - haircut) * (BPS + maintenance) <= BPS * BPS {
      forall mark: nat
        ensures RequiredAtOpening(mark, haircut, rate, maintenance, start).value <= mark
      {
        CoveredAtOpening(mark, haircut, maintenance);
      }
    } else {
      UncoveredAtOpening(haircut, maintenance);
      assert BPS * BPS * (BPS - haircut) / BPS == BPS * (BPS - haircut);
      assert RequiredAtOpening(BPS * BPS, haircut, rate, maintenance, start).value > BPS * BPS;
    }
  }

  lemma UncoveredAtOpening(haircut: nat, maintenance: nat)
    requires haircut < BPS && (BPS - haircut) * (BPS + maintenance) > BPS * BPS
    ensures CeilingDiv(BPS * (BPS - haircut) * (BPS + maintenance), BPS) > BPS * BPS
  {
    var principal := BPS * (BPS - haircut);
    var required := (BPS - haircut) * (BPS + maintenance);
    assert principal * (BPS + maintenance) == required * BPS;
    CeilingIs(required * BPS, BPS, required);
  }

  // -------------------------------------------------------- splitting a term

  lemma CeilingsAdd(a: nat, b: nat, d: nat)
    requires d > 0
    ensures CeilingDiv(a + b, d) <= CeilingDiv(a, d) + CeilingDiv(b, d) <= CeilingDiv(a + b, d) + 1
  {
    var (x, y, z) := (CeilingDiv(a, d), CeilingDiv(b, d), CeilingDiv(a + b, d));
    CeilingIs(a, d, x);
    CeilingIs(b, d, y);
    CeilingIs(a + b, d, z);
    assert (x + y) * d == x * d + y * d;
    Between(x + y, z, d);
  }

  lemma Between(s: nat, z: nat, d: nat)
    requires d > 0 && -(d as int) < s * d - z * d < 2 * d
    ensures z <= s <= z + 1
  {
    if s < z {
      Scale(s + 1, z, d);
    } else if s > z + 1 {
      Scale(z + 2, s, d);
    }
  }

  /** Accruing in two steps costs the borrower the same, or one unit more. */
  lemma SplittingATerm(principal: nat, rate: nat, start: int, mid: int, end: int)
    requires start <= mid <= end
    ensures var (whole, first, second) := (Accrued(principal, rate, start, end).value,
                                           Accrued(principal, rate, start, mid).value,
                                           Accrued(principal, rate, mid, end).value);
            whole <= first + second <= whole + 1
  {
    var yearly := principal * rate;
    assert yearly * (end - start) == yearly * (mid - start) + yearly * (end - mid);
    CeilingsAdd(yearly * (mid - start), yearly * (end - mid), BPS * YEAR);
  }
}
