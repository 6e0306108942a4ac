/** The oldest-first loop of the resting book is an optimal matching.

    A matching pairs individual buys with sells whose arrival rounds differ by
    at most `rest`. Its size is bounded by the weight of any cover of the
    compatible rounds; the run of the loop yields, round by round, both a
    matching of its own size and a cover of the same weight. */
module RestingBookOptimal {
  import opened RestingBook

  // ------------------------------------------------------------ matchings

  /** The k-th pair is a buy that arrived in round buyRounds[k] and a sell that arrived in sellRounds[k]. */
  datatype Matching = Matching(buyRounds: seq<nat>, sellRounds: seq<nat>)

  predicate Compatible(i: nat, j: nat, rest: nat) { i <= j + rest && j <= i + rest }

  /** Rounds below the horizon, none used more often than it had arrivals. */
  ghost predicate Uses(arrivals: seq<nat>, rounds: seq<nat>, horizon: nat) {
    && horizon <= |arrivals|
    && (forall k :: 0 <= k < |rounds| ==> rounds[k] < horizon)
    && forall r :: 0 <= r < horizon ==> multiset(rounds)[r] <= arrivals[r]
  }

  ghost predicate IsMatching(buys: seq<nat>, sells: seq<nat>, rest: nat, horizon: nat, p: Matching) {
    && |p.buyRounds| == |p.sellRounds|
    && Uses(buys, p.buyRounds, horizon)
    && Uses(sells, p.sellRounds, horizon)
    && forall k :: 0 <= k < |p.buyRounds| ==> Compatible(p.buyRounds[k], p.sellRounds[k], rest)
  }

  // ------------------------------------------------- covers bound matchings

  /** Quantity of the flagged rounds. */
  ghost function Weight(arrivals: seq<nat>, flags: seq<bool>): nat
    requires |flags| <= |arrivals|
  {
    if flags == [] then 0
    else
      var n := |flags| - 1;
      Weight(arrivals, flags[..n]) + if flags[n] then arrivals[n] else 0
  }

  ghost predicate Covers(first: seq<bool>, second: seq<bool>, rest: nat) {
    |first| == |second| &&
    forall i, j :: 0 <= i < |first| && 0 <= j < |second| && Compatible(i, j, rest) ==> first[i] || second[j]
  }

  ghost function Usage(rounds: seq<nat>, horizon: nat): seq<nat> {
    seq(horizon, r => multiset(rounds)[r])
  }

  lemma {:induction false} WeightMonotone(a: seq<nat>, b: seq<nat>, flags: seq<bool>)
    requires |flags| <= |a| && |flags| <= |b|
    requires forall r :: 0 <= r < |flags| ==> a[r] <= b[r]
    ensures Weight(a, flags) <= Weight(b, flags)
  {
    if flags != [] {
      WeightMonotone(a, b, flags[..|flags| - 1]);
    }
  }

  lemma {:induction false} WeightBumped(a: seq<nat>, b: seq<nat>, flags: seq<bool>, r: nat)
    requires |flags| <= |a| && |flags| <= |b| && r < |a|
    requires b == a[r := a[r] + 1]
    ensures Weight(b, flags) == Weight(a, flags) + if r < |flags| && flags[r] then 1 else 0
  {
    if flags != [] {
      WeightBumped(a, b, flags[..|flags| - 1], r);
    }
  }

  lemma UsageOfLast(rounds: seq<nat>, horizon: nat)
    requires rounds != [] && rounds[|rounds| - 1] < horizon
    ensures var (n, last) := (|rounds| - 1, rounds[|rounds| - 1]);
            var before := Usage(rounds[..n], horizon);
            Usage(rounds, horizon) == before[last := before[last] + 1]
  {
    var n := |rounds| - 1;
    assert rounds == rounds[..n] + [rounds[n]];
  }

  /** Every pair is charged to a flagged round. */
  lemma {:induction false} PairsAreCharged(p: Matching, rest: nat, cb: seq<bool>, cs: seq<bool>)
    requires |p.buyRounds| == |p.sellRounds| && Covers(cb, cs, rest)
    requires forall k :: 0 <= k < |p.buyRounds| ==>
        p.buyRounds[k] < |cb| && p.sellRounds[k] < |cs| && Compatible(p.buyRounds[k], p.sellRounds[k], rest)
    ensures |p.buyRounds| <= Weight(Usage(p.buyRounds, |cb|), cb) + Weight(Usage(p.sellRounds, |cs|), cs)
    decreases |p.buyRounds|
  {
    if p.buyRounds != [] {
      var n := |p.buyRounds| - 1;
      var (b, s) := (p.buyRounds, p.sellRounds);
      PairsAreCharged(Matching(b[..n], s[..n]), rest, cb, cs);
      UsageOfLast(b, |cb|);
      UsageOfLast(s, |cs|);
      WeightBumped(Usage(b[..n], |cb|), Usage(b, |cb|), cb, b[n]);
      WeightBumped(Usage(s[..n], |cs|), Usage(s, |cs|), cs, s[n]);
    }
  }

  /** Weak duality: no matching is larger than the weight of a cover. */
  lemma CoverBoundsMatching(buys: seq<nat>, sells: seq<nat>, rest: nat, p: Matching, cb: seq<bool>, cs: seq<bool>)
    requires |buys| == |sells| == |cb| == |cs| && Covers(cb, cs, rest)
    requires IsMatching(buys, sells, rest, |buys|, p)
    ensures |p.buyRounds| <= Weight(buys, cb) + Weight(sells, cs)
  {
    PairsAreCharged(p, rest, cb, cs);
    WeightMonotone(Usage(p.buyRounds, |cb|), buys, cb);
    WeightMonotone(Usage(p.sellRounds, |cs|), sells, cs);
  }

  // -------------------------------------------------- sums over live orders

  lemma {:induction false} FromFalls(s: seq<nat>, k: nat)
    requires k <= |s|
    ensures From(s, k) <= Sum(s)
  {
    if k > 0 {
      FromFalls(s, k - 1);
    }
  }

  lemma {:induction false} LeftIs(live: seq<nat>, matched: nat, k: nat)
    requires k <= |live|
    ensures Left(live, matched, k) ==
            if matched + From(live, k) <= Sum(live) then 0 else matched + From(live, k) - Sum(live)
  {
    if k > 0 {
      LeftIs(live, matched, k - 1);
      TakeAt(live, matched, k - 1);
      FromFalls(live, k);
    }
  }

  lemma {:induction false} TakeLeaves(live: seq<nat>, matched: nat, k: nat)
    requires k <= |live| && Left(live, matched, k) <= From(live, k)
    ensures From(Take(live, matched), k) == From(live, k) - Left(live, matched, k)
    decreases |live| - k
  {
    if k < |live| {
      TakeAt(live, matched, k);
      TakeLeaves(live, matched, k + 1);
    }
  }

  lemma {:induction false} AgedShifts(live: seq<nat>, matched: nat, k: nat)
    requires k < |live|
    ensures From(Aged(live, matched), k) == From(Take(live, matched), k + 1)
    decreases |live| - k
  {
    if k + 1 < |live| {
      AgedShifts(live, matched, k + 1);
    }
  }

  /** Oldest first: the younger slots lose only what the older ones could not give. */
  lemma AgedFrom(live: seq<nat>, matched: nat, k: nat)
    requires matched <= Sum(live) && k < |live|
    ensures From(Aged(live, matched), k) == Min(From(live, k + 1), Sum(live) - matched)
  {
    AgedShifts(live, matched, k);
    LeftIs(live, matched, k + 1);
    TakeLeaves(live, matched, k + 1);
  }

  lemma {:induction false} EnterFrom(live: seq<nat>, arrivals: nat, k: nat)
    requires k < |live|
    ensures From(Enter(live, arrivals), k) == From(live, k) + arrivals
    decreases |live| - k
  {
    if k + 1 < |live| {
      EnterFrom(live, arrivals, k + 1);
    }
  }

  // --------------------------------------------------- the run as a cover

  /** A cover of the first t rounds of weight at most `bound` that flags every
      round of `first` from `need` on. */
  ghost predicate HasCover(first: seq<nat>, second: seq<nat>, rest: nat, t: nat, need: int, bound: nat)
    requires t <= |first| && t <= |second|
  {
    exists c1: seq<bool>, c2: seq<bool> :: IsCover(first, second, rest, t, need, bound, c1, c2)
  }

  ghost predicate IsCover(first: seq<nat>, second: seq<nat>, rest: nat, t: nat, need: int, bound: nat,
                          c1: seq<bool>, c2: seq<bool>)
    requires t <= |first| && t <= |second|
  {
    && |c1| == |c2| == t
    && Covers(c1, c2, rest)
    && (forall i :: 0 <= i < t && need <= i ==> c1[i])
    && Weight(first, c1) + Weight(second, c2) <= bound
  }

  /** Extends a cover by one round, flagged on one side or on both. */
  lemma ExtendCover(first: seq<nat>, second: seq<nat>, rest: nat, t: nat, need: int, bound: nat, both: bool)
    requires t < |first| && t < |second|
    requires HasCover(first, second, rest, t, need, bound)
    requires both || need <= t - rest
    ensures HasCover(first, second, rest, t + 1, need, bound + first[t] + if both then second[t] else 0)
  {
    var c1, c2 :| IsCover(first, second, rest, t, need, bound, c1, c2);
    var (d1, d2) := (c1 + [true], c2 + [both]);
    assert d1[..t] == c1 && d2[..t] == c2;
    assert IsCover(first, second, rest, t + 1, need, bound + first[t] + if both then second[t] else 0, d1, d2);
  }

  lemma RelaxCover(first: seq<nat>, second: seq<nat>, rest: nat, t: nat, need: int, bound: nat, need': int, bound': nat)
    requires t <= |first| && t <= |second| && need <= need' && bound <= bound'
    requires HasCover(first, second, rest, t, need, bound)
    ensures HasCover(first, second, rest, t, need', bound')
  {
    var c1, c2 :| IsCover(first, second, rest, t, need, bound, c1, c2);
    assert IsCover(first, second, rest, t, need', bound', c1, c2);
  }

  /** With no demand on either side a cover can be read from both sides. */
  lemma FlipCover(first: seq<nat>, second: seq<nat>, rest: nat, t: nat, need: int, bound: nat)
    requires t <= |first| && t <= |second|
    requires HasCover(first, second, rest, t, need, bound)
    ensures HasCover(second, first, rest, t, t, bound)
  {
    var c1, c2 :| IsCover(first, second, rest, t, need, bound, c1, c2);
    assert IsCover(second, first, rest, t, t, bound, c2, c1);
  }

  /** For each age threshold k: a cover flagging every round of `first` whose
      orders are in slot k or younger, of weight the crossings so far plus the
      live orders from slot k on. */
  ghost predicate Certified(first: seq<nat>, second: seq<nat>, rest: nat, t: nat, live: seq<nat>, total: nat)
    requires t <= |first| && t <= |second| && |live| == rest + 1
  {
    forall k :: 0 <= k <= rest ==> HasCover(first, second, rest, t, t - rest + k, total + From(live, k))
  }

  /** One round keeps the certificates of one side. */
  lemma RoundKeepsThreshold(first: seq<nat>, second: seq<nat>, rest: nat, t: nat,
                            live: seq<nat>, other: seq<nat>, total: nat, k: nat)
    requires t < |first| && t < |second| && |live| == |other| == rest + 1 && k <= rest
    requires Certified(first, second, rest, t, live, total)
    requires Certified(second, first, rest, t, other, total)
    requires Sum(live) == 0 || Sum(other) == 0
    ensures var (x, y) := (Enter(live, first[t]), Enter(other, second[t]));
            var m := Min(Sum(x), Sum(y));
            HasCover(first, second, rest, t + 1, t + 1 - rest + k, total + m + From(Aged(x, m), k))
  {
    var (x, y) := (Enter(live, first[t]), Enter(other, second[t]));
    var m := Min(Sum(x), Sum(y));
    EnterFrom(live, first[t], 0);
    EnterFrom(other, second[t], 0);
    AgedFrom(x, m, k);
    var bound := total + m + From(Aged(x, m), k);
    if Sum(x) - m <= From(x, k + 1) {
      ThisSideFlagged(first, second, rest, t, live, total, t + 1 - rest + k, bound);
    } else if k < rest {
      EnterFrom(live, first[t], k + 1);
      FromFalls(live, k + 1);
      BothFlagged(first, second, rest, t, live, total, k + 1, bound);
    } else {
      OtherSideFlagged(first, second, rest, t, other, total, bound);
    }
  }

  /** The matched orders exhaust every older slot: flag all live rounds of this side. */
  lemma ThisSideFlagged(first: seq<nat>, second: seq<nat>, rest: nat, t: nat, live: seq<nat>, total: nat,
                        need: int, bound: nat)
    requires t < |first| && t < |second| && |live| == rest + 1
    requires Certified(first, second, rest, t, live, total)
    requires t - rest <= need && total + Sum(live) + first[t] <= bound
    ensures HasCover(first, second, rest, t + 1, need, bound)
  {
    assert HasCover(first, second, rest, t, t - rest + 0, total + From(live, 0));
    ExtendCover(first, second, rest, t, t - rest, total + Sum(live), false);
    RelaxCover(first, second, rest, t + 1, t - rest, total + Sum(live) + first[t], need, bound);
  }

  /** Older orders survive, so the other side had nothing but this round's arrivals. */
  lemma BothFlagged(first: seq<nat>, second: seq<nat>, rest: nat, t: nat, live: seq<nat>, total: nat,
                    k: nat, bound: nat)
    requires t < |first| && t < |second| && |live| == rest + 1 && k <= rest
    requires Certified(first, second, rest, t, live, total)
    requires total + From(live, k) + first[t] + second[t] <= bound
    ensures HasCover(first, second, rest, t + 1, t - rest + k, bound)
  {
    assert HasCover(first, second, rest, t, t - rest + k, total + From(live, k));
    ExtendCover(first, second, rest, t, t - rest + k, total + From(live, k), true);
    var weight := total + From(live, k) + first[t] + second[t];
    RelaxCover(first, second, rest, t + 1, t - rest + k, weight, t - rest + k, bound);
  }

  /** Nothing is asked of this side: flag all live rounds of the other one. */
  lemma OtherSideFlagged(first: seq<nat>, second: seq<nat>, rest: nat, t: nat, other: seq<nat>, total: nat, bound: nat)
    requires t < |first| && t < |second| && |other| == rest + 1
    requires Certified(second, first, rest, t, other, total)
    requires total + Sum(other) + second[t] <= bound
    ensures HasCover(first, second, rest, t + 1, t + 1, bound)
  {
    assert HasCover(second, first, rest, t, t - rest + 0, total + From(other, 0));
    ExtendCover(second, first, rest, t, t - rest, total + Sum(other), false);
    FlipCover(second, first, rest, t + 1, t - rest, total + Sum(other) + second[t]);
    RelaxCover(first, second, rest, t + 1, t + 1, total + Sum(other) + second[t], t + 1, bound);
  }

  ghost predicate RunCertified(buys: seq<nat>, sells: seq<nat>, rest: nat, t: nat, book: Book)
    requires t <= |buys| == |sells| && |book.buys| == |book.sells| == rest + 1
  {
    && Certified(buys, sells, rest, t, book.buys, book.total)
    && Certified(sells, buys, rest, t, book.sells, book.total)
    && (Sum(book.buys) == 0 || Sum(book.sells) == 0)
  }

  lemma StartIsCertified(buys: seq<nat>, sells: seq<nat>, rest: nat)
    requires |buys| == |sells|
    ensures RunCertified(buys, sells, rest, 0, After(buys, sells, rest, 0))
  {
    var empty := seq(rest + 1, _ => 0);
    ZeroFrom(empty, 0);
    forall k | 0 <= k <= rest
      ensures HasCover(buys, sells, rest, 0, 0 - rest + k, From(empty, k))
      ensures HasCover(sells, buys, rest, 0, 0 - rest + k, From(empty, k))
    {
      assert IsCover(buys, sells, rest, 0, 0 - rest + k, From(empty, k), [], []);
      assert IsCover(sells, buys, rest, 0, 0 - rest + k, From(empty, k), [], []);
    }
  }

  lemma {:induction false} ZeroFrom(s: seq<nat>, k: nat)
    requires k <= |s| && forall i :: 0 <= i < |s| ==> s[i] == 0
    ensures From(s, k) == 0
    decreases |s| - k
  {
    if k < |s| {
      ZeroFrom(s, k + 1);
    }
  }

  lemma SideStaysCertified(first: seq<nat>, second: seq<nat>, rest: nat, t: nat,
                           live: seq<nat>, other: seq<nat>, total: nat, x: seq<nat>, m: nat)
    requires t < |first| && t < |second| && |live| == |other| == rest + 1
    requires Certified(first, second, rest, t, live, total)
    requires Certified(second, first, rest, t, other, total)
    requires Sum(live) == 0 || Sum(other) == 0
    requires x == Enter(live, first[t]) && m == Min(Sum(x), Sum(Enter(other, second[t])))
    ensures Certified(first, second, rest, t + 1, Aged(x, m), total + m)
  {
    forall k | 0 <= k <= rest
      ensures HasCover(first, second, rest, t + 1, t + 1 - rest + k, total + m + From(Aged(x, m), k))
    {
      RoundKeepsThreshold(first, second, rest, t, live, other, total, k);
    }
  }

  lemma RoundIsCertified(buys: seq<nat>, sells: seq<nat>, rest: nat, t: nat, book: Book)
    requires t < |buys| == |sells| && |book.buys| == |book.sells| == rest + 1
    requires RunCertified(buys, sells, rest, t, book)
    ensures RunCertified(buys, sells, rest, t + 1, Round(book, buys[t], sells[t]))
  {
    var (x, y) := (Enter(book.buys, buys[t]), Enter(book.sells, sells[t]));
    var m := Min(Sum(x), Sum(y));
    SideStaysCertified(buys, sells, rest, t, book.buys, book.sells, book.total, x, m);
    SideStaysCertified(sells, buys, rest, t, book.sells, book.buys, book.total, y, m);
    AgedFrom(x, m, 0);
    AgedFrom(y, m, 0);
  }

  /** Round by round: certificates on both sides, and only one side has live orders left. */
  lemma {:induction false} RunIsCertified(buys: seq<nat>, sells: seq<nat>, rest: nat, t: nat)
    requires t <= |buys| == |sells|
    ensures RunCertified(buys, sells, rest, t, After(buys, sells, rest, t))
  {
    hide *;
    if t == 0 {
      StartIsCertified(buys, sells, rest);
    } else {
      RunIsCertified(buys, sells, rest, t - 1);
      AfterOneMore(buys, sells, rest, t - 1);
      RoundIsCertified(buys, sells, rest, t - 1, After(buys, sells, rest, t - 1));
    }
  }

  lemma LastSlotEmpty(buys: seq<nat>, sells: seq<nat>, rest: nat, t: nat)
    requires t <= |buys| == |sells|
    ensures After(buys, sells, rest, t).buys[rest] == 0 && After(buys, sells, rest, t).sells[rest] == 0
  {
  }

  /** No matching of the arrivals is larger than what the loop crosses. */
  lemma NoMatchingBeatsGreedy(buys: seq<nat>, sells: seq<nat>, rest: nat, p: Matching)
    requires |buys| == |sells| && IsMatching(buys, sells, rest, |buys|, p)
    ensures |p.buyRounds| <= Crossed(buys, sells, rest)
  {
    var t := |buys|;
    var book := After(buys, sells, rest, t);
    RunIsCertified(buys, sells, rest, t);
    LastSlotEmpty(buys, sells, rest, t);
    assert From(book.buys, rest) == 0;
    assert HasCover(buys, sells, rest, t, t - rest + rest, book.total + From(book.buys, rest));
    assert HasCover(buys, sells, rest, t, t, book.total);
    var cb, cs :| IsCover(buys, sells, rest, t, t, book.total, cb, cs);
    CoverBoundsMatching(buys, sells, rest, p, cb, cs);
  }

  // ----------------------------------------------- the run as a matching

  /** Each live slot is backed by unmatched arrivals of its round. */
  ghost predicate Backed(arrivals: seq<nat>, used: seq<nat>, rest: nat, t: nat, live: seq<nat>) {
    forall k :: 0 <= k < |live| && live[k] > 0 ==>
      0 <= t - rest + k < |arrivals| && live[k] + multiset(used)[(t - rest + k) as nat] <= arrivals[t - rest + k]
  }

  lemma {:induction false} OldestSlot(live: seq<nat>, k: nat) returns (i: nat)
    requires k <= |live| && From(live, k) > 0
    ensures k <= i < |live| && live[i] > 0 && forall j :: k <= j < i ==> live[j] == 0
    decreases |live| - k
  {
    if live[k] > 0 {
      i := k;
    } else {
      i := OldestSlot(live, k + 1);
    }
  }

  /** Taking m orders is taking one from the oldest slot and m - 1 from the rest. */
  lemma {:induction false} TakeOne(live: seq<nat>, matched: nat, i: nat)
    requires matched > 0 && i < |live| && live[i] > 0 && forall j :: 0 <= j < i ==> live[j] == 0
    ensures Take(live, matched) == Take(live[i := live[i] - 1], matched - 1)
    ensures Sum(live[i := live[i] - 1]) == Sum(live) - 1
  {
    TakeOneAt(live, matched, i);
    FromOne(live, i, 0);
  }

  lemma {:induction false} TakeOneAt(live: seq<nat>, matched: nat, i: nat)
    requires matched > 0 && i < |live| && live[i] > 0 && forall j :: 0 <= j < i ==> live[j] == 0
    ensures Take(live, matched) == Take(live[i := live[i] - 1], matched - 1)
  {
    if i > 0 {
      assert live[i := live[i] - 1][1..] == live[1..][i - 1 := live[i] - 1];
      TakeOneAt(live[1..], matched, i - 1);
    } else {
      assert live[i := live[i] - 1][1..] == live[1..];
    }
  }

  lemma {:induction false} FromOne(live: seq<nat>, i: nat, k: nat)
    requires k <= |live| && i < |live| && live[i] > 0
    ensures From(live[i := live[i] - 1], k) == From(live, k) - if k <= i then 1 else 0
    decreases |live| - k
  {
    if k < |live| {
      FromOne(live, i, k + 1);
    }
  }

  /** A matching of the arrivals up to the horizon that leaves exactly the live orders unmatched. */
  ghost predicate Explains(buys: seq<nat>, sells: seq<nat>, rest: nat, horizon: nat, t: nat, b: seq<nat>, s: seq<nat>,
                           p: Matching) {
    && IsMatching(buys, sells, rest, horizon, p)
    && Backed(buys, p.buyRounds, rest, t, b)
    && Backed(sells, p.sellRounds, rest, t, s)
  }

  /** One more use of a round that a live slot backs. */
  lemma UseSlot(arrivals: seq<nat>, used: seq<nat>, rest: nat, t: nat, live: seq<nat>, k: nat)
    requires t < |arrivals| && |live| == rest + 1 && k <= rest && live[k] > 0
    requires Uses(arrivals, used, t + 1) && Backed(arrivals, used, rest, t, live)
    ensures 0 <= t - rest + k
    ensures Uses(arrivals, used + [t - rest + k], t + 1)
    ensures Backed(arrivals, used + [t - rest + k], rest, t, live[k := live[k] - 1])
  {
  }

  /** Pairs the oldest live buy with the oldest live sell. */
  lemma PairOldest(buys: seq<nat>, sells: seq<nat>, rest: nat, t: nat, b: seq<nat>, s: seq<nat>, p: Matching,
                   i: nat, j: nat)
    returns (q: Matching)
    requires t < |buys| == |sells| && |b| == |s| == rest + 1
    requires i <= rest && j <= rest && b[i] > 0 && s[j] > 0
    requires Explains(buys, sells, rest, t + 1, t, b, s, p)
    ensures Explains(buys, sells, rest, t + 1, t, b[i := b[i] - 1], s[j := s[j] - 1], q)
    ensures |q.buyRounds| == |p.buyRounds| + 1
  {
    UseSlot(buys, p.buyRounds, rest, t, b, i);
    UseSlot(sells, p.sellRounds, rest, t, s, j);
    q := Matching(p.buyRounds + [t - rest + i], p.sellRounds + [t - rest + j]);
  }

  /** The round's crossings, pair by pair. */
  lemma {:induction false} MatchRound(buys: seq<nat>, sells: seq<nat>, rest: nat, t: nat,
                                      b: seq<nat>, s: seq<nat>, m: nat, p: Matching) returns (q: Matching)
    requires t < |buys| == |sells| && |b| == |s| == rest + 1 && m <= Sum(b) && m <= Sum(s)
    requires Explains(buys, sells, rest, t + 1, t, b, s, p)
    ensures Explains(buys, sells, rest, t + 1, t, Take(b, m), Take(s, m), q)
    ensures |q.buyRounds| == |p.buyRounds| + m
    decreases m
  {
    hide Explains, Take, From;
    if m == 0 {
      TakeNothing(b);
      TakeNothing(s);
      q := p;
    } else {
      var i := OldestSlot(b, 0);
      var j := OldestSlot(s, 0);
      TakeOne(b, m, i);
      TakeOne(s, m, j);
      q := PairOldest(buys, sells, rest, t, b, s, p, i, j);
      q := MatchRound(buys, sells, rest, t, b[i := b[i] - 1], s[j := s[j] - 1], m - 1, q);
    }
  }

  lemma {:induction false} TakeNothing(live: seq<nat>)
    ensures Take(live, 0) == live
  {
    if live != [] {
      TakeNothing(live[1..]);
    }
  }

  /** New arrivals back the last slot: no earlier pair uses their round. */
  lemma EnterBacked(arrivals: seq<nat>, used: seq<nat>, rest: nat, t: nat, live: seq<nat>)
    requires t < |arrivals| && |live| == rest + 1 && live[rest] == 0
    requires Uses(arrivals, used, t) && Backed(arrivals, used, rest, t, live)
    ensures Uses(arrivals, used, t + 1)
    ensures Backed(arrivals, used, rest, t, Enter(live, arrivals[t]))
  {
    assert t !in used;
  }

  lemma AgeBacked(arrivals: seq<nat>, used: seq<nat>, rest: nat, t: nat, live: seq<nat>, m: nat)
    requires |live| == rest + 1 && Backed(arrivals, used, rest, t, Take(live, m))
    ensures Backed(arrivals, used, rest, t + 1, Aged(live, m))
  {
    forall k | 0 <= k < |live| && Aged(live, m)[k] > 0
      ensures 0 <= t + 1 - rest + k < |arrivals|
      ensures Aged(live, m)[k] + multiset(used)[(t + 1 - rest + k) as nat] <= arrivals[t + 1 - rest + k]
    {
      assert Aged(live, m)[k] == Take(live, m)[k + 1];
    }
  }

  /** The pairs of the first t rounds. */
  ghost predicate RunMatched(buys: seq<nat>, sells: seq<nat>, rest: nat, t: nat, book: Book, p: Matching) {
    Explains(buys, sells, rest, t, t, book.buys, book.sells, p) && |p.buyRounds| == book.total
  }

  lemma RoundIsMatching(buys: seq<nat>, sells: seq<nat>, rest: nat, t: nat, book: Book, p: Matching)
    returns (q: Matching)
    requires t < |buys| == |sells| && |book.buys| == |book.sells| == rest + 1
    requires book.buys[rest] == 0 && book.sells[rest] == 0
    requires RunMatched(buys, sells, rest, t, book, p)
    ensures RunMatched(buys, sells, rest, t + 1, Round(book, buys[t], sells[t]), q)
  {
    EnterBacked(buys, p.buyRounds, rest, t, book.buys);
    EnterBacked(sells, p.sellRounds, rest, t, book.sells);
    var (b, s) := (Enter(book.buys, buys[t]), Enter(book.sells, sells[t]));
    var m := Min(Sum(b), Sum(s));
    q := MatchRound(buys, sells, rest, t, b, s, m, p);
    AgeBacked(buys, q.buyRounds, rest, t, b, m);
    AgeBacked(sells, q.sellRounds, rest, t, s, m);
  }

  lemma StartIsMatching(buys: seq<nat>, sells: seq<nat>, rest: nat)
    requires |buys| == |sells|
    ensures RunMatched(buys, sells, rest, 0, After(buys, sells, rest, 0), Matching([], []))
  {
  }

  lemma {:induction false} RunIsMatching(buys: seq<nat>, sells: seq<nat>, rest: nat, t: nat) returns (p: Matching)
    requires t <= |buys| == |sells|
    ensures RunMatched(buys, sells, rest, t, After(buys, sells, rest, t), p)
  {
    hide *;
    if t == 0 {
      StartIsMatching(buys, sells, rest);
      p := Matching([], []);
    } else {
      var before := RunIsMatching(buys, sells, rest, t - 1);
      AfterOneMore(buys, sells, rest, t - 1);
      LastSlotEmpty(buys, sells, rest, t - 1);
      p := RoundIsMatching(buys, sells, rest, t - 1, After(buys, sells, rest, t - 1), before);
    }
  }

  // ------------------------------------------------------------- theorems

  /** The loop crosses exactly the maximum number of disjoint compatible pairs. */
  lemma GreedyIsOptimal(buys: seq<nat>, sells: seq<nat>, rest: nat)
    requires |buys| == |sells|
    ensures exists p :: IsMatching(buys, sells, rest, |buys|, p) && |p.buyRounds| == Crossed(buys, sells, rest)
    ensures forall p :: IsMatching(buys, sells, rest, |buys|, p) ==> |p.buyRounds| <= Crossed(buys, sells, rest)
  {
    var p := RunIsMatching(buys, sells, rest, |buys|);
    forall q | IsMatching(buys, sells, rest, |buys|, q)
      ensures |q.buyRounds| <= Crossed(buys, sells, rest)
    {
      NoMatchingBeatsGreedy(buys, sells, rest, q);
    }
  }

  /** For the same arrivals, resting longer never lowers the crossings. */
  lemma RestingNeverCosts(buys: seq<nat>, sells: seq<nat>, rest: nat, longer: nat)
    requires |buys| == |sells| && rest <= longer
    ensures Crossed(buys, sells, rest) <= Crossed(buys, sells, longer)
  {
    var p := RunIsMatching(buys, sells, rest, |buys|);
    NoMatchingBeatsGreedy(buys, sells, longer, p);
  }

  function Plus(a: seq<nat>, b: seq<nat>): (r: seq<nat>)
    requires |a| == |b|
    ensures |r| == |a| && forall i :: 0 <= i < |a| ==> r[i] == a[i] + b[i]
  {
    seq(|a|, i requires 0 <= i < |a| => a[i] + b[i])
  }

  /** Splitting the arrivals over two books never raises the crossings. */
  lemma SplittingNeverPays(buys1: seq<nat>, sells1: seq<nat>, buys2: seq<nat>, sells2: seq<nat>, rest: nat)
    requires |buys1| == |sells1| == |buys2| == |sells2|
    ensures Crossed(buys1, sells1, rest) + Crossed(buys2, sells2, rest)
            <= Crossed(Plus(buys1, buys2), Plus(sells1, sells2), rest)
  {
    var p := RunIsMatching(buys1, sells1, rest, |buys1|);
    var q := RunIsMatching(buys2, sells2, rest, |buys1|);
    var both := Matching(p.buyRounds + q.buyRounds, p.sellRounds + q.sellRounds);
    NoMatchingBeatsGreedy(Plus(buys1, buys2), Plus(sells1, sells2), rest, both);
  }
}
