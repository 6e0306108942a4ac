/** The bands and the bond floor of the axe grid. */
module AxeGrid {
  import opened Basics

  const SIZE_CARD: nat := 16
  const RATE_CARD: nat := 16
  const RATE_BAND_BPS: nat := 25
  const UINT256_MAX: nat := 0xffff_ffff_ffff_ffff_ffff_ffff_ffff_ffff_ffff_ffff_ffff_ffff_ffff_ffff_ffff_ffff

  function Power10(k: nat): (p: nat)
    ensures p >= 1
  {
    if k == 0 then 1 else 10 * Power10(k - 1)
  }

  // ------------------------------------------------------------ size bands

  /** How often v can be divided by ten before it is a digit. */
  function Bucket(v: nat): nat { if v < 10 then 0 else 1 + Bucket(v / 10) }

  function Capped(b: nat, card: nat): nat
    requires card > 0
  {
    if b >= card then card - 1 else b
  }

  method VenueBucket(v: nat) returns (b: nat)
    ensures b == Bucket(v)
  {
    b := 0;
    var rest := v;
    while rest >= 10
      invariant Bucket(v) == b + Bucket(rest)
    {
      rest := rest / 10;
      b := b + 1;
    }
  }

  method SizeBand(v: nat) returns (b: nat)
    ensures b == Capped(Bucket(v), SIZE_CARD)
  {
    b := 0;
    var rest := v;
    while rest >= 10 && b < SIZE_CARD - 1
      invariant b <= SIZE_CARD - 1 && Bucket(v) == b + Bucket(rest)
    {
      rest := rest / 10;
      b := b + 1;
    }
  }

  function SizeLow(b: nat): nat { if b == 0 then 0 else Power10(b) }

  function SizeHigh(b: nat): nat { if b == SIZE_CARD - 1 then UINT256_MAX else Power10(b + 1) - 1 }

  lemma {:induction false} BucketFrom(v: nat, b: nat)
    requires b > 0
    ensures b <= Bucket(v) <==> Power10(b) <= v
  {
    if v >= 10 && b > 1 {
      BucketFrom(v / 10, b - 1);
    }
  }

  /** A band's ends are exactly where the band function enters and leaves it. */
  lemma SizeEnds(v: nat, b: nat)
    requires v <= UINT256_MAX && b < SIZE_CARD
    ensures b <= Capped(Bucket(v), SIZE_CARD) <==> SizeLow(b) <= v
    ensures Capped(Bucket(v), SIZE_CARD) <= b <==> v <= SizeHigh(b)
  {
    if b > 0 {
      BucketFrom(v, b);
    }
    BucketFrom(v, b + 1);
  }

  /** A size band lies between the bands of lo and hi exactly when its interval meets [lo, hi]. */
  lemma SizeBandsMeet(lo: nat, hi: nat, b: nat)
    requires lo <= hi <= UINT256_MAX && b < SIZE_CARD
    ensures Capped(Bucket(lo), SIZE_CARD) <= b <= Capped(Bucket(hi), SIZE_CARD) <==>
            SizeLow(b) <= hi && SizeHigh(b) >= lo
  {
    SizeEnds(lo, b);
    SizeEnds(hi, b);
  }

  /** The cap shows exactly from ten to the sixteenth on. */
  lemma CapShows(v: nat)
    ensures Capped(Bucket(v), SIZE_CARD) == Bucket(v) <==> v < 10_000_000_000_000_000
  {
    BucketFrom(v, 16);
    assert Power10(16) == 10_000_000_000_000_000 by {
      assert Power10(4) == 10_000;
      assert Power10(8) == 10_000 * Power10(4);
      assert Power10(12) == 10_000 * Power10(8);
    }
  }

  // ------------------------------------------------------------ rate bands

  function RateBand(bps: nat): nat { Capped(bps / RATE_BAND_BPS, RATE_CARD) }

  function RateLow(b: nat): nat { b * RATE_BAND_BPS }

  function RateHigh(b: nat): nat { if b == RATE_CARD - 1 then UINT256_MAX else (b + 1) * RATE_BAND_BPS - 1 }

  /** Bands of 25 basis points, sixteen of them, the last one open to the top. */
  lemma RateBandIs(bps: nat, b: nat)
    ensures RateBand(bps) == b <==> b <= 15 && 25 * b <= bps && (b < 15 ==> bps < 25 * (b + 1))
    ensures SizeHigh(15) == RateHigh(15) ==
            0xffff_ffff_ffff_ffff_ffff_ffff_ffff_ffff_ffff_ffff_ffff_ffff_ffff_ffff_ffff_ffff
  {
  }

  /** A rate band lies between the bands of lo and hi exactly when its interval meets [lo, hi]. */
  lemma RateBandsMeet(lo: nat, hi: nat, b: nat)
    requires lo <= hi <= UINT256_MAX && b < RATE_CARD
    ensures RateBand(lo) <= b <= RateBand(hi) <==> RateLow(b) <= hi && RateHigh(b) >= lo
  {
  }

  // ------------------------------------------------------------ bond floor

  function MinimumAxeBond(commitBond: nat, probeFee: nat, maxOutstanding: nat): nat {
    if probeFee >= commitBond then 1 else maxOutstanding * (commitBond - probeFee) + 1
  }

  /** Losing the bond and k probe fees costs more than k commit bonds, for every k up to the limit. */
  ghost predicate Dominates(axeBond: nat, commitBond: nat, probeFee: nat, maxOutstanding: nat) {
    forall k: nat :: 1 <= k <= maxOutstanding ==> Costs(axeBond, commitBond, probeFee, k)
  }

  predicate Costs(axeBond: nat, commitBond: nat, probeFee: nat, k: nat) {
    axeBond + k * probeFee > k * commitBond
  }

  method HonestyDominates(axeBond: nat, commitBond: nat, probeFee: nat, maxOutstanding: nat) returns (dominates: bool)
    ensures dominates <==> Dominates(axeBond, commitBond, probeFee, maxOutstanding)
  {
    for k := 1 to maxOutstanding + 1
      invariant forall j: nat :: 1 <= j < k ==> Costs(axeBond, commitBond, probeFee, j)
    {
      if axeBond + k * probeFee <= k * commitBond {
        assert !Costs(axeBond, commitBond, probeFee, k);
        return false;
      }
    }
    return true;
  }

  /** The floor always suffices. */
  lemma FloorSuffices(axeBond: nat, commitBond: nat, probeFee: nat, maxOutstanding: nat)
    requires axeBond >= MinimumAxeBond(commitBond, probeFee, maxOutstanding)
    ensures Dominates(axeBond, commitBond, probeFee, maxOutstanding)
  {
    forall k: nat | 1 <= k <= maxOutstanding
      ensures Costs(axeBond, commitBond, probeFee, k)
    {
      if probeFee >= commitBond {
        Scale(commitBond, probeFee, k);
      } else {
        Scale(k, maxOutstanding, commitBond - probeFee);
        assert k * (commitBond - probeFee) == k * commitBond - k * probeFee;
      }
    }
  }

  /** The floor is the exact threshold exactly when something can be outstanding
      and a probe costs no more than a commitment; otherwise no bond is needed at
      all, and the floor asks for one unit. */
  lemma FloorIsExact(commitBond: nat, probeFee: nat, maxOutstanding: nat)
    ensures (forall axeBond: nat :: Dominates(axeBond, commitBond, probeFee, maxOutstanding) <==>
                                    axeBond >= MinimumAxeBond(commitBond, probeFee, maxOutstanding))
            <==> maxOutstanding > 0 && probeFee <= commitBond
    ensures maxOutstanding == 0 || probeFee > commitBond ==>
              && Dominates(0, commitBond, probeFee, maxOutstanding)
              && MinimumAxeBond(commitBond, probeFee, maxOutstanding) == 1
  {
    forall axeBond: nat | axeBond >= MinimumAxeBond(commitBond, probeFee, maxOutstanding)
      ensures Dominates(axeBond, commitBond, probeFee, maxOutstanding)
    {
      FloorSuffices(axeBond, commitBond, probeFee, maxOutstanding);
    }
    if maxOutstanding > 0 && probeFee <= commitBond {
      forall axeBond: nat | Dominates(axeBond, commitBond, probeFee, maxOutstanding)
        ensures axeBond >= MinimumAxeBond(commitBond, probeFee, maxOutstanding)
      {
        assert Costs(axeBond, commitBond, probeFee, maxOutstanding);
        assert maxOutstanding * (commitBond - probeFee) == maxOutstanding * commitBond - maxOutstanding * probeFee;
      }
    } else {
      forall k: nat | 1 <= k <= maxOutstanding
        ensures Costs(0, commitBond, probeFee, k)
      {
        assert k * probeFee >= k * (commitBond + 1) == k * commitBond + k;
      }
      assert Dominates(0, commitBond, probeFee, maxOutstanding);
    }
  }
}
