/** The disclosure-matrix collusion check: joins over arbitrary matrices, and
    the search for minimal coalitions that hold a derived fact. */
module CollusionCheck {
  import opened Basics

  // ------------------------------------------------------------- lattices

  const GRANULARITIES: seq<Granularity> := [Nothing, Predicate, Aggregate, Bucketed, Exact]
  const TIMES: seq<Time> := [Pre, Immediate, QuarterHour, EndOfDay, Epoch, Never]

  datatype Granularity = Nothing | Predicate | Aggregate | Bucketed | Exact {
    /** The place in the ascending list. */
    function Rank(): (r: nat)
      ensures r < |GRANULARITIES| && GRANULARITIES[r] == this
    {
      match this
      case Nothing => 0
      case Predicate => 1
      case Aggregate => 2
      case Bucketed => 3
      case Exact => 4
    }
  }

  datatype Time = Pre | Immediate | QuarterHour | EndOfDay | Epoch | Never {
    /** The place in the ascending list; later is less. */
    function Rank(): (r: nat)
      ensures r < |TIMES| && TIMES[r] == this
    {
      match this
      case Pre => 0
      case Immediate => 1
      case QuarterHour => 2
      case EndOfDay => 3
      case Epoch => 4
      case Never => 5
    }
  }

  function Earliest(a: Time, b: Time): Time { if b.Rank() < a.Rank() then b else a }

  datatype Party = Party(name: string)
  const PUBLIC := Party("pub")

  datatype Knowledge = Knowledge(gran: Granularity, time: Time)

  datatype Row = Row(num: nat, knows: map<Party, Knowledge>, ceiling: Granularity, trusted: set<Party>) {
    function Told(party: Party): Knowledge {
      if party in knows then knows[party] else Knowledge(Nothing, Never)
    }

    /** What the public sees, every party sees. On equal granularity the party keeps its own time. */
    function Attained(party: Party): Knowledge {
      if Told(PUBLIC).gran.Rank() > Told(party).gran.Rank() then Told(PUBLIC) else Told(party)
    }
  }

  // ----------------------------------------------------------------- joins

  /** The greatest granularity a member attains, at the earliest time a member attains it. */
  ghost predicate IsJoin(row: Row, coalition: set<Party>, k: Knowledge) {
    && (forall p :: p in coalition ==> row.Attained(p).gran.Rank() <= k.gran.Rank())
    && (forall p :: p in coalition && row.Attained(p).gran == k.gran && k.gran != Nothing ==>
          k.time.Rank() <= row.Attained(p).time.Rank())
    && (k.gran == Nothing ==> k.time == Never)
    && (k.gran != Nothing ==> exists p :: p in coalition && row.Attained(p) == k)
  }

  /** The coalition is visited in any order. */
  method Join(row: Row, coalition: set<Party>) returns (k: Knowledge)
    ensures IsJoin(row, coalition, k)
  {
    k := Knowledge(Nothing, Never);
    var rest := coalition;
    while rest != {}
      invariant rest <= coalition
      invariant IsJoin(row, coalition - rest, k)
      decreases rest
    {
      var p :| p in rest;
      var known := row.Attained(p);
      ghost var before := coalition - rest;
      rest := rest - {p};
      assert coalition - rest == before + {p};
      if known.gran.Rank() > k.gran.Rank() {
        k := known;
      } else if known.gran == k.gran && known.gran != Nothing {
        k := Knowledge(k.gran, Earliest(k.time, known.time));
      }
    }
    assert coalition - rest == coalition;
  }

  /** The join is a function of the coalition alone: iteration order is immaterial. */
  lemma JoinUnique(row: Row, coalition: set<Party>, a: Knowledge, b: Knowledge)
    requires IsJoin(row, coalition, a) && IsJoin(row, coalition, b)
    ensures a == b
  {
    assert a.gran.Rank() == b.gran.Rank();
    assert a.time.Rank() == b.time.Rank();
  }

  /** Monotone in granularity under inclusion; the time may move either way. */
  lemma JoinMonotone(row: Row, small: set<Party>, large: set<Party>, a: Knowledge, b: Knowledge)
    requires small <= large && IsJoin(row, small, a) && IsJoin(row, large, b)
    ensures a.gran.Rank() <= b.gran.Rank()
    ensures a.gran == b.gran && small != {} ==> b.time.Rank() <= a.time.Rank()
  {
  }

  /** Some member reaches the granularity by itself, if any is asked for. */
  ghost predicate Reaches(row: Row, coalition: set<Party>, need: Granularity) {
    need == Nothing || exists p :: p in coalition && row.Attained(p).gran.Rank() >= need.Rank()
  }

  /** A join reaches what a single member reaches and no more. */
  lemma JoinReaches(row: Row, coalition: set<Party>, k: Knowledge, need: Granularity)
    requires IsJoin(row, coalition, k)
    ensures k.gran.Rank() >= need.Rank() <==> Reaches(row, coalition, need)
  {
  }

  /** The join as it is promised, on what was told alone: public facts are known to
      all, and a fact is known at the earliest time a member or the public was told it. */
  ghost predicate IsPromised(row: Row, coalition: set<Party>, k: Knowledge) {
    var informed := coalition + {PUBLIC};
    && (forall p :: p in informed ==> row.Told(p).gran.Rank() <= k.gran.Rank())
    && (forall p :: p in informed && row.Told(p).gran == k.gran && k.gran != Nothing ==>
          k.time.Rank() <= row.Told(p).time.Rank())
    && (k.gran == Nothing ==> k.time == Never)
    && (k.gran != Nothing ==> exists p :: p in informed && row.Told(p) == k)
  }

  /** What is promised is what the coalition joins to with the public as a member. */
  lemma PromisedIsPublicJoin(row: Row, coalition: set<Party>, k: Knowledge)
    ensures IsPromised(row, coalition, k) <==> IsJoin(row, coalition + {PUBLIC}, k)
  {
  }

  /** Some member did not merely learn, and learn later, just what the public was told. */
  ghost predicate LosesNoTime(row: Row, coalition: set<Party>) {
    var public := row.Told(PUBLIC);
    public.gran == Nothing ||
    exists p :: p in coalition && (row.Told(p).gran != public.gran || row.Told(p).time.Rank() <= public.time.Rank())
  }

  /** The join always has the promised granularity and is never earlier than
      promised; it is exactly as promised unless every member was told just what
      the public was, and later. */
  lemma JoinAsPromised(row: Row, coalition: set<Party>, a: Knowledge, b: Knowledge)
    requires coalition != {} && IsJoin(row, coalition, a) && IsPromised(row, coalition, b)
    ensures a.gran == b.gran && b.time.Rank() <= a.time.Rank()
    ensures a == b <==> LosesNoTime(row, coalition)
  {
    PromisedIsPublicJoin(row, coalition, b);
    JoinMonotone(row, coalition, coalition + {PUBLIC}, a, b);
  }

  /** The promise broken: the public is told at once, and a party told the same
      at the end of the day is taken to learn it only then. */
  lemma TiedPartyLearnsLate(party: Party) returns (row: Row, k: Knowledge, promised: Knowledge)
    requires party != PUBLIC
    ensures IsJoin(row, {party}, k) && IsPromised(row, {party}, promised)
    ensures k == Knowledge(Exact, EndOfDay) && promised == Knowledge(Exact, Immediate)
  {
    k, promised := Knowledge(Exact, EndOfDay), Knowledge(Exact, Immediate);
    row := Row(0, map[PUBLIC := promised, party := k], Exact, {});
    assert party in {party} && row.Attained(party) == k;
    assert PUBLIC in {party} + {PUBLIC} && row.Told(PUBLIC) == promised;
  }

  /** So the public adds no granularity to a coalition that has a member. */
  lemma PublicAddsNothing(row: Row, coalition: set<Party>, a: Knowledge, b: Knowledge)
    requires coalition != {} && IsJoin(row, coalition, a) && IsJoin(row, coalition + {PUBLIC}, b)
    ensures a.gran == b.gran
  {
    PromisedIsPublicJoin(row, coalition, b);
    JoinAsPromised(row, coalition, a, b);
  }

  /** Best rank of a member, 0 for none. */
  method BestAlone(row: Row, coalition: set<Party>) returns (best: nat)
    ensures forall p :: p in coalition ==> row.Attained(p).gran.Rank() <= best
    ensures best == 0 || exists p :: p in coalition && row.Attained(p).gran.Rank() == best
  {
    best := 0;
    var rest := coalition;
    while rest != {}
      invariant rest <= coalition
      invariant forall p :: p in coalition && p !in rest ==> row.Attained(p).gran.Rank() <= best
      invariant best == 0 || exists p :: p in coalition && row.Attained(p).gran.Rank() == best
      decreases rest
    {
      var p :| p in rest;
      rest := rest - {p};
      if row.Attained(p).gran.Rank() > best {
        best := row.Attained(p).gran.Rank();
      }
    }
  }

  /** Whether the coalition joins to more than each of its members attains alone:
      no row of any matrix is ever reconstructed by pooling. */
  method Emergent(row: Row, coalition: set<Party>) returns (emergent: bool)
    ensures emergent <==> exists k :: IsJoin(row, coalition, k) && k.gran != Nothing &&
                                      forall p :: p in coalition ==> row.Attained(p).gran.Rank() < k.gran.Rank()
    ensures !emergent
  {
    var k := Join(row, coalition);
    var best := BestAlone(row, coalition);
    emergent := k.gran.Rank() > best;
  }

  // --------------------------------------------------------- the subsets

  function Members(parties: seq<Party>): set<Party> { set p | p in parties }

  function WithEach(p: Party, cs: seq<set<Party>>): (r: seq<set<Party>>)
    ensures |r| == |cs| && forall i :: 0 <= i < |cs| ==> r[i] == cs[i] + {p}
  {
    if cs == [] then [] else [cs[0] + {p}] + WithEach(p, cs[1..])
  }

  /** The combinations of n parties, in list order. */
  function Combinations(parties: seq<Party>, n: nat): seq<set<Party>> {
    if n == 0 then [{}]
    else if parties == [] then []
    else WithEach(parties[0], Combinations(parties[1..], n - 1)) + Combinations(parties[1..], n)
  }

  /** Every non-empty subset up to the cutoff, smaller ones first. */
  function Subsets(parties: seq<Party>, cutoff: nat): seq<set<Party>> {
    if cutoff == 0 then [] else Subsets(parties, cutoff - 1) + Combinations(parties, cutoff)
  }

  lemma FirstParty(parties: seq<Party>)
    requires Distinct(parties) && parties != []
    ensures Distinct(parties[1..]) && parties[0] !in parties[1..]
    ensures Members(parties) == Members(parties[1..]) + {parties[0]}
  {
  }

  lemma InWith(p: Party, cs: seq<set<Party>>, c: set<Party>)
    ensures c in WithEach(p, cs) <==> exists d :: d in cs && c == d + {p}
  {
    var with := WithEach(p, cs);
    if c in with {
      var i :| 0 <= i < |with| && with[i] == c;
      assert cs[i] in cs;
    }
    if d :| d in cs && c == d + {p} {
      var i :| 0 <= i < |cs| && cs[i] == d;
      assert with[i] == c;
    }
  }

  /** Either the first party is in, or the others alone make up the combination. */
  lemma CombinationsSplit(parties: seq<Party>, n: nat, c: set<Party>)
    requires n > 0 && parties != []
    ensures c in Combinations(parties, n) <==>
            || (exists d :: d in Combinations(parties[1..], n - 1) && c == d + {parties[0]})
            || c in Combinations(parties[1..], n)
  {
    InWith(parties[0], Combinations(parties[1..], n - 1), c);
  }

  lemma EdgeCombinations(parties: seq<Party>, n: nat, c: set<Party>)
    requires c in Combinations(parties, n)
    ensures n == 0 ==> c == {}
    ensures n > 0 ==> parties != []
  {
  }

  lemma AddOne(d: set<Party>, p: Party, all: set<Party>)
    requires d <= all && p !in all
    ensures |d + {p}| == |d| + 1 && d + {p} <= all + {p}
  {
  }

  lemma {:induction false} CombinationsSound(parties: seq<Party>, n: nat, c: set<Party>)
    requires Distinct(parties) && c in Combinations(parties, n)
    ensures c <= Members(parties) && |c| == n
  {
    hide *;
    EdgeCombinations(parties, n, c);
    if n > 0 {
      var (p, rest) := (parties[0], parties[1..]);
      CombinationsSplit(parties, n, c);
      FirstParty(parties);
      NotMember(p, rest);
      if c in Combinations(rest, n) {
        CombinationsSound(rest, n, c);
      } else {
        var d :| d in Combinations(rest, n - 1) && c == d + {p};
        CombinationsSound(rest, n - 1, d);
        AddOne(d, p, Members(rest));
      }
    }
  }

  lemma NotMember(p: Party, parties: seq<Party>)
    ensures p in Members(parties) <==> p in parties
  {
  }

  lemma {:induction false} CombinationsComplete(parties: seq<Party>, n: nat, c: set<Party>)
    requires Distinct(parties) && c <= Members(parties) && |c| == n
    ensures c in Combinations(parties, n)
    decreases |parties|, 1
  {
    if n > 0 {
      var p :| p in c;
      assert p in parties;
      CombinationStep(parties, n, c);
    }
  }

  lemma {:induction false} CombinationStep(parties: seq<Party>, n: nat, c: set<Party>)
    requires Distinct(parties) && c <= Members(parties) && |c| == n > 0 && parties != []
    ensures c in Combinations(parties, n)
    decreases |parties|, 0
  {
    hide *;
    var (p, rest) := (parties[0], parties[1..]);
    FirstParty(parties);
    if p in c {
      var d := c - {p};
      assert d <= Members(rest) && |d| == n - 1 && c == d + {p};
      CombinationsComplete(rest, n - 1, d);
      CombinationsSplit(parties, n, c);
    } else {
      assert c <= Members(rest);
      CombinationsComplete(rest, n, c);
      CombinationsSplit(parties, n, c);
    }
  }

  lemma SubsetsSplit(parties: seq<Party>, cutoff: nat, c: set<Party>)
    ensures c !in Subsets(parties, 0)
    ensures cutoff > 0 ==>
              (c in Subsets(parties, cutoff) <==>
               c in Subsets(parties, cutoff - 1) || c in Combinations(parties, cutoff))
  {
    hide Combinations;
  }

  lemma {:induction false} SubsetsAre(parties: seq<Party>, cutoff: nat, c: set<Party>)
    requires Distinct(parties)
    ensures c in Subsets(parties, cutoff) <==> c <= Members(parties) && 1 <= |c| <= cutoff
  {
    hide *;
    SubsetsSplit(parties, cutoff, c);
    if cutoff > 0 {
      SubsetsAre(parties, cutoff - 1, c);
      if c in Combinations(parties, cutoff) {
        CombinationsSound(parties, cutoff, c);
      }
      if c <= Members(parties) && |c| == cutoff {
        CombinationsComplete(parties, cutoff, c);
      }
    }
  }

  ghost predicate Ascending(s: seq<set<Party>>) {
    forall i, j :: 0 <= i < j < |s| ==> |s[i]| <= |s[j]|
  }

  lemma AscendingConcat(a: seq<set<Party>>, b: seq<set<Party>>, n: nat)
    requires Ascending(a) && (forall c :: c in a ==> |c| < n) && forall c :: c in b ==> |c| == n
    ensures Ascending(a + b)
  {
    forall i, j | 0 <= i < j < |a + b|
      ensures |(a + b)[i]| <= |(a + b)[j]|
    {
      if j >= |a| {
        assert b[j - |a|] in b;
        assert i < |a| ==> a[i] in a;
        assert i >= |a| ==> b[i - |a|] in b;
      }
    }
  }

  /** Smaller subsets come first. */
  lemma {:induction false} SubsetsAscend(parties: seq<Party>, cutoff: nat)
    requires Distinct(parties)
    ensures Ascending(Subsets(parties, cutoff))
  {
    if cutoff > 0 {
      var (small, big) := (Subsets(parties, cutoff - 1), Combinations(parties, cutoff));
      SubsetsAscend(parties, cutoff - 1);
      hide Ascending, Combinations, Distinct;
      forall c | c in small ensures |c| < cutoff { SubsetsAre(parties, cutoff - 1, c); }
      forall c | c in big ensures |c| == cutoff { CombinationsSound(parties, cutoff, c); }
      AscendingConcat(small, big, cutoff);
    }
  }

  lemma FewDistinct(cs: seq<set<Party>>)
    requires |cs| <= 1
    ensures Distinct(cs)
  {
  }

  lemma WithEachDistinct(p: Party, cs: seq<set<Party>>)
    requires Distinct(cs) && forall c :: c in cs ==> p !in c
    ensures Distinct(WithEach(p, cs))
  {
    hide WithEach;
    forall i, j | 0 <= i < j < |WithEach(p, cs)|
      ensures WithEach(p, cs)[i] != WithEach(p, cs)[j]
    {
      assert cs[i] in cs && cs[j] in cs && cs[i] != cs[j];
      hide Distinct;
      TakeBack(cs[i], p);
      TakeBack(cs[j], p);
    }
  }

  lemma TakeBack(c: set<Party>, p: Party)
    requires p !in c
    ensures c + {p} - {p} == c
  {
  }

  lemma SidesApart(parties: seq<Party>, n: nat, c: set<Party>)
    requires Distinct(parties) && n > 0 && parties != []
    ensures c in Combinations(parties[1..], n - 1) || c in Combinations(parties[1..], n) ==> parties[0] !in c
    ensures c in WithEach(parties[0], Combinations(parties[1..], n - 1)) ==> c !in Combinations(parties[1..], n)
  {
    hide *;
    var (p, rest) := (parties[0], parties[1..]);
    FirstParty(parties);
    NotMember(p, rest);
    if c in Combinations(rest, n - 1) {
      CombinationsSound(rest, n - 1, c);
    }
    if c in Combinations(rest, n) {
      CombinationsSound(rest, n, c);
    }
    InWith(p, Combinations(rest, n - 1), c);
  }

  lemma CombinationsDistinctStep(parties: seq<Party>, n: nat)
    requires Distinct(parties) && n > 0 && parties != []
    requires Distinct(Combinations(parties[1..], n - 1)) && Distinct(Combinations(parties[1..], n))
    ensures Distinct(WithEach(parties[0], Combinations(parties[1..], n - 1)) + Combinations(parties[1..], n))
  {
    hide *;
    forall c
      ensures c in Combinations(parties[1..], n - 1) ==> parties[0] !in c
      ensures c in WithEach(parties[0], Combinations(parties[1..], n - 1)) ==> c !in Combinations(parties[1..], n)
    {
      SidesApart(parties, n, c);
    }
    WithEachDistinct(parties[0], Combinations(parties[1..], n - 1));
    DistinctConcat(WithEach(parties[0], Combinations(parties[1..], n - 1)), Combinations(parties[1..], n));
  }

  /** The enumeration meets no subset twice. */
  lemma {:induction false} CombinationsDistinct(parties: seq<Party>, n: nat)
    requires Distinct(parties)
    ensures Distinct(Combinations(parties, n))
    decreases |parties|
  {
    if n == 0 || parties == [] {
      hide Distinct;
      FewDistinct(Combinations(parties, n));
    } else {
      FirstParty(parties);
      hide Distinct, WithEach;
      CombinationsDistinct(parties[1..], n - 1);
      CombinationsDistinct(parties[1..], n);
      CombinationsDistinctStep(parties, n);
    }
  }

  lemma {:induction false} SubsetsDistinct(parties: seq<Party>, cutoff: nat)
    requires Distinct(parties)
    ensures Distinct(Subsets(parties, cutoff))
  {
    if cutoff > 0 {
      var (small, big) := (Subsets(parties, cutoff - 1), Combinations(parties, cutoff));
      SubsetsDistinct(parties, cutoff - 1);
      hide Distinct, Combinations;
      CombinationsDistinct(parties, cutoff);
      forall c | c in small ensures |c| < cutoff { SubsetsAre(parties, cutoff - 1, c); }
      forall c | c in big ensures |c| == cutoff { CombinationsSound(parties, cutoff, c); }
      DistinctConcat(small, big);
    }
  }

  // --------------------------------------------------------- derived facts

  datatype Input = Input(row: Row, need: Granularity)

  /** A function of several rows; coalitions that touch `permitted` are no finding. */
  datatype Fact = Fact(key: string, inputs: seq<Input>, permitted: set<Party>)

  /** The coalition reaches every input at the granularity it needs. */
  ghost predicate Holds(inputs: seq<Input>, coalition: set<Party>) {
    forall i :: 0 <= i < |inputs| ==> Reaches(inputs[i].row, coalition, inputs[i].need)
  }

  method HeldBy(fact: Fact, coalition: set<Party>) returns (held: bool)
    ensures held <==> Holds(fact.inputs, coalition)
  {
    for i := 0 to |fact.inputs|
      invariant forall j :: 0 <= j < i ==> Reaches(fact.inputs[j].row, coalition, fact.inputs[j].need)
    {
      var k := Join(fact.inputs[i].row, coalition);
      JoinReaches(fact.inputs[i].row, coalition, k, fact.inputs[i].need);
      if k.gran.Rank() < fact.inputs[i].need.Rank() {
        return false;
      }
    }
    return true;
  }

  lemma HoldsMonotone(inputs: seq<Input>, small: set<Party>, large: set<Party>)
    requires small <= large && Holds(inputs, small)
    ensures Holds(inputs, large)
  {
    forall i | 0 <= i < |inputs|
      ensures Reaches(inputs[i].row, large, inputs[i].need)
    {
      assert Reaches(inputs[i].row, small, inputs[i].need);
    }
  }

  lemma HoldsSnoc(inputs: seq<Input>, coalition: set<Party>)
    requires inputs != []
    ensures var (init, last) := (inputs[..|inputs| - 1], inputs[|inputs| - 1]);
            Holds(inputs, coalition) <==> Holds(init, coalition) && Reaches(last.row, coalition, last.need)
  {
    var init := inputs[..|inputs| - 1];
    assert forall i :: 0 <= i < |init| ==> init[i] == inputs[i];
    hide Reaches;
  }

  /** One member an input suffices to hold a fact. */
  lemma {:induction false} FewHolders(inputs: seq<Input>, coalition: set<Party>) returns (few: set<Party>)
    requires Holds(inputs, coalition)
    ensures few <= coalition && |few| <= |inputs| && Holds(inputs, few)
  {
    if inputs == [] {
      few := {};
    } else {
      var (init, last) := (inputs[..|inputs| - 1], inputs[|inputs| - 1]);
      HoldsSnoc(inputs, coalition);
      hide Holds;
      var fewer := FewHolders(init, coalition);
      few := fewer;
      if last.need != Nothing {
        var p :| p in coalition && last.row.Attained(p).gran.Rank() >= last.need.Rank();
        few := fewer + {p};
      }
      HoldsMonotone(init, fewer, few);
      HoldsSnoc(inputs, few);
    }
  }

  /** A non-empty coalition outside the permitted set that holds the fact. */
  ghost predicate Holder(fact: Fact, parties: set<Party>, coalition: set<Party>) {
    coalition != {} && coalition <= parties && coalition !! fact.permitted && Holds(fact.inputs, coalition)
  }

  ghost predicate MinimalHolder(fact: Fact, parties: set<Party>, coalition: set<Party>) {
    Holder(fact, parties, coalition) && forall other :: other < coalition ==> !Holder(fact, parties, other)
  }

  /** The matrix says that the party was told at least this much. */
  ghost predicate WasTold(row: Row, p: Party, need: Granularity) {
    p in row.knows && row.knows[p].gran.Rank() >= need.Rank()
  }

  /** Holding a fact, read off the matrix: parties outside the permitted set, and
      for every input that needs anything somebody, or the public, was told enough. */
  lemma HolderIs(fact: Fact, parties: set<Party>, coalition: set<Party>)
    ensures Holder(fact, parties, coalition) <==>
            && (exists p :: p in coalition)
            && (forall p :: p in coalition ==> p in parties && p !in fact.permitted)
            && forall i :: 0 <= i < |fact.inputs| && fact.inputs[i].need != Nothing ==>
                 exists p :: p in coalition + {PUBLIC} && WasTold(fact.inputs[i].row, p, fact.inputs[i].need)
  {
    if p :| p in coalition {
      forall i | 0 <= i < |fact.inputs| && fact.inputs[i].need != Nothing
        ensures Reaches(fact.inputs[i].row, coalition, fact.inputs[i].need) <==>
                exists q :: q in coalition + {PUBLIC} && WasTold(fact.inputs[i].row, q, fact.inputs[i].need)
      {
        ReachesIs(fact.inputs[i].row, coalition, fact.inputs[i].need, p);
      }
    }
    hide WasTold;
  }

  lemma ReachesIs(row: Row, coalition: set<Party>, need: Granularity, member: Party)
    requires member in coalition && need != Nothing
    ensures Reaches(row, coalition, need) <==> exists p :: p in coalition + {PUBLIC} && WasTold(row, p, need)
  {
    forall p
      ensures row.Attained(p).gran.Rank() >= need.Rank() <==> WasTold(row, p, need) || WasTold(row, PUBLIC, need)
    {
    }
    if WasTold(row, PUBLIC, need) {
      assert row.Attained(member).gran.Rank() >= need.Rank() && PUBLIC in coalition + {PUBLIC};
    }
    if p :| p in coalition && WasTold(row, p, need) {
      assert row.Attained(p).gran.Rank() >= need.Rank() && p in coalition + {PUBLIC};
    }
    hide WasTold;
  }

  lemma SmallerSet(a: set<Party>, b: set<Party>)
    requires a < b
    ensures |a| < |b|
  {
    assert !(b <= a);
    var x :| x in b && x !in a;
    SubsetSize(a, b - {x});
  }

  /** Every holder contains a minimal one. */
  lemma {:induction false} ContainsMinimal(fact: Fact, parties: set<Party>, coalition: set<Party>)
    returns (least: set<Party>)
    requires Holder(fact, parties, coalition)
    ensures least <= coalition && MinimalHolder(fact, parties, least)
    decreases |coalition|
  {
    if other :| other < coalition && Holder(fact, parties, other) {
      SmallerSet(other, coalition);
      least := ContainsMinimal(fact, parties, other);
    } else {
      least := coalition;
    }
  }

  /** A minimal holder has at most as many members as the fact has inputs, and at least one. */
  lemma MinimalIsSmall(fact: Fact, parties: set<Party>, coalition: set<Party>)
    requires MinimalHolder(fact, parties, coalition)
    ensures 1 <= |coalition| && (|coalition| <= |fact.inputs| || |coalition| == 1)
  {
    var few := FewHolders(fact.inputs, coalition);
    if few == {} {
      var p :| p in coalition;
      few := {p};
      HoldsMonotone(fact.inputs, {}, few);
    }
    assert !(few < coalition);
    assert few == coalition;
  }

  ghost predicate DistinctKeys(facts: seq<Fact>) {
    forall i, j :: 0 <= i < j < |facts| ==> facts[i].key != facts[j].key
  }

  datatype Hit = Hit(key: string, coalition: set<Party>)

  /** The subsets before the k-th contain every minimal holder strictly inside it. */
  lemma EarlierIsMinimal(fact: Fact, parties: seq<Party>, cutoff: nat, k: nat)
    requires Distinct(parties) && cutoff > 0 && |fact.inputs| <= cutoff && k < |Subsets(parties, cutoff)|
    requires var c := Subsets(parties, cutoff)[k];
             Holder(fact, Members(parties), c) && !MinimalHolder(fact, Members(parties), c)
    ensures exists j :: 0 <= j < k && Subsets(parties, cutoff)[j] < Subsets(parties, cutoff)[k] &&
                        MinimalHolder(fact, Members(parties), Subsets(parties, cutoff)[j])
  {
    hide Subsets, Combinations, Holds;
    var subsets := Subsets(parties, cutoff);
    var least := ContainsMinimal(fact, Members(parties), subsets[k]);
    MinimalIsSmall(fact, Members(parties), least);
    SmallerSet(least, subsets[k]);
    SubsetsAre(parties, cutoff, least);
    var j :| 0 <= j < |subsets| && subsets[j] == least;
    SubsetsAscend(parties, cutoff);
  }

  /** The hits of this fact are the minimal holders among the first k subsets. */
  ghost predicate HitsSoFar(fact: Fact, parties: seq<Party>, cutoff: nat, hits: seq<Hit>, k: nat)
    requires k <= |Subsets(parties, cutoff)|
  {
    forall c :: Hit(fact.key, c) in hits <==>
      c in Subsets(parties, cutoff)[..k] && MinimalHolder(fact, Members(parties), c)
  }

  /** Consulting the list tells a minimal holder from one that is not. */
  lemma ListTells(fact: Fact, parties: seq<Party>, cutoff: nat, hits: seq<Hit>, k: nat)
    requires Distinct(parties) && cutoff > 0 && |fact.inputs| <= cutoff && k < |Subsets(parties, cutoff)|
    requires HitsSoFar(fact, parties, cutoff, hits, k)
    ensures var c := Subsets(parties, cutoff)[k];
            && Hit(fact.key, c) !in hits
            && (Holder(fact, Members(parties), c) ==>
                  (MinimalHolder(fact, Members(parties), c) <==>
                   !exists h :: h in hits && h.key == fact.key && h.coalition < c))
  {
    hide Subsets, Combinations, Holder;
    var subsets := Subsets(parties, cutoff);
    var c := subsets[k];
    SubsetsDistinct(parties, cutoff);
    FreshAt(subsets, k);
    if Holder(fact, Members(parties), c) && !MinimalHolder(fact, Members(parties), c) {
      EarlierIsMinimal(fact, parties, cutoff, k);
      var j :| 0 <= j < k && subsets[j] < c && MinimalHolder(fact, Members(parties), subsets[j]);
      assert subsets[j] in subsets[..k];
      assert Hit(fact.key, subsets[j]) in hits;
    }
    if h :| h in hits && h.key == fact.key && h.coalition < c {
      assert Hit(fact.key, h.coalition) in hits;
    }
  }

  lemma NextHit(fact: Fact, parties: seq<Party>, cutoff: nat, hits: seq<Hit>, k: nat)
    requires k < |Subsets(parties, cutoff)| && HitsSoFar(fact, parties, cutoff, hits, k)
    ensures var c := Subsets(parties, cutoff)[k];
            HitsSoFar(fact, parties, cutoff,
                      if MinimalHolder(fact, Members(parties), c) then hits + [Hit(fact.key, c)] else hits, k + 1)
  {
    hide Subsets, MinimalHolder;
    var subsets := Subsets(parties, cutoff);
    assert subsets[..k + 1] == subsets[..k] + [subsets[k]];
  }

  lemma AllHits(fact: Fact, parties: seq<Party>, cutoff: nat, hits: seq<Hit>)
    requires Distinct(parties) && |fact.inputs| <= cutoff && cutoff > 0
    requires HitsSoFar(fact, parties, cutoff, hits, |Subsets(parties, cutoff)|)
    ensures forall c :: Hit(fact.key, c) in hits <==> MinimalHolder(fact, Members(parties), c)
  {
    var subsets := Subsets(parties, cutoff);
    hide Subsets, Holds;
    forall c | MinimalHolder(fact, Members(parties), c)
      ensures c in subsets[..|subsets|]
    {
      MinimalIsSmall(fact, Members(parties), c);
      SubsetsAre(parties, cutoff, c);
      assert subsets[..|subsets|] == subsets;
    }
  }

  /** One fact's pass over the subsets: a hit is kept only if no proper subset was kept before it. */
  method FactHits(fact: Fact, parties: seq<Party>, cutoff: nat, before: seq<Hit>) returns (hits: seq<Hit>)
    requires Distinct(parties) && cutoff > 0 && |fact.inputs| <= cutoff
    requires Distinct(before) && forall h :: h in before ==> h.key != fact.key
    ensures Distinct(hits)
    ensures forall h :: h in before ==> h in hits
    ensures forall h :: h in hits ==> h in before || h.key == fact.key
    ensures forall c :: Hit(fact.key, c) in hits <==> MinimalHolder(fact, Members(parties), c)
  {
    hits := before;
    var subsets := Subsets(parties, cutoff);
    assert HitsSoFar(fact, parties, cutoff, hits, 0);
    hide Subsets, Combinations, Holds, HitsSoFar, MinimalHolder, Distinct;
    for k := 0 to |subsets|
      invariant Distinct(hits)
      invariant forall h :: h in before ==> h in hits
      invariant forall h :: h in hits ==> h in before || h.key == fact.key
      invariant HitsSoFar(fact, parties, cutoff, hits, k)
    {
      var c := subsets[k];
      HolderAt(fact, parties, cutoff, k);
      ListTells(fact, parties, cutoff, hits, k);
      NextHit(fact, parties, cutoff, hits, k);
      if c !! fact.permitted {
        var held := HeldBy(fact, c);
        if held {
          if !exists h :: h in hits && h.key == fact.key && h.coalition < c {
            DistinctSnoc(hits, Hit(fact.key, c));
            hits := hits + [Hit(fact.key, c)];
          }
        }
      }
    }
    AllHits(fact, parties, cutoff, hits);
  }

  lemma HolderAt(fact: Fact, parties: seq<Party>, cutoff: nat, k: nat)
    requires Distinct(parties) && k < |Subsets(parties, cutoff)|
    ensures var c := Subsets(parties, cutoff)[k];
            && (Holder(fact, Members(parties), c) <==> c !! fact.permitted && Holds(fact.inputs, c))
            && (MinimalHolder(fact, Members(parties), c) ==> Holder(fact, Members(parties), c))
  {
    hide Subsets, Holds;
    SubsetsAre(parties, cutoff, Subsets(parties, cutoff)[k]);
  }

  /** For every fact exactly the minimal holders, of any size, are reported. */
  method DerivedHits(facts: seq<Fact>, parties: seq<Party>, cutoff: nat) returns (hits: seq<Hit>)
    requires Distinct(parties) && DistinctKeys(facts) && cutoff > 0
    requires forall i :: 0 <= i < |facts| ==> |facts[i].inputs| <= cutoff
    ensures Distinct(hits)
    ensures forall i, c :: 0 <= i < |facts| ==>
              (Hit(facts[i].key, c) in hits <==> MinimalHolder(facts[i], Members(parties), c))
    ensures forall h :: h in hits ==> exists i :: 0 <= i < |facts| && facts[i].key == h.key
  {
    hits := [];
    for i := 0 to |facts|
      invariant Distinct(hits)
      invariant forall j, c :: 0 <= j < i ==>
                  (Hit(facts[j].key, c) in hits <==> MinimalHolder(facts[j], Members(parties), c))
      invariant forall h :: h in hits ==> exists j :: 0 <= j < i && facts[j].key == h.key
    {
      hits := FactHits(facts[i], parties, cutoff, hits);
    }
  }

  /** What reporting the minimal holders is worth: every coalition of any size
      that holds the fact contains a reported one, reported ones are pairwise
      incomparable, and none has more members than the fact has inputs (or one,
      for a fact without inputs). */
  lemma SearchIsComplete(fact: Fact, parties: set<Party>, coalition: set<Party>)
    requires Holder(fact, parties, coalition)
    ensures exists least :: least <= coalition && MinimalHolder(fact, parties, least) &&
                            (|least| <= |fact.inputs| || |least| == 1)
    ensures forall a, b :: MinimalHolder(fact, parties, a) && MinimalHolder(fact, parties, b) ==> !(a < b)
  {
    var least := ContainsMinimal(fact, parties, coalition);
    MinimalIsSmall(fact, parties, least);
  }

  // ------------------------------------------------------ row ceilings

  /** A non-empty coalition of parties not entitled to the row, joining above its ceiling. */
  ghost predicate Violates(row: Row, parties: set<Party>, coalition: set<Party>) {
    && coalition != {} && coalition <= parties && coalition !! row.trusted
    && exists p :: p in coalition && row.Attained(p).gran.Rank() > row.ceiling.Rank()
  }

  lemma ViolatesAt(row: Row, parties: seq<Party>, cutoff: nat, k: nat, j: Knowledge)
    requires Distinct(parties) && k < |Subsets(parties, cutoff)| && IsJoin(row, Subsets(parties, cutoff)[k], j)
    ensures var c := Subsets(parties, cutoff)[k];
            Violates(row, Members(parties), c) <==> c !! row.trusted && j.gran.Rank() > row.ceiling.Rank()
  {
    hide Subsets;
    SubsetsAre(parties, cutoff, Subsets(parties, cutoff)[k]);
  }

  lemma TrustedIsNoViolation(row: Row, parties: set<Party>, c: set<Party>)
    ensures Violates(row, parties, c) ==> c !! row.trusted
  {
  }

  lemma AllViolators(row: Row, parties: seq<Party>, cutoff: nat, c: set<Party>)
    requires Distinct(parties)
    ensures c in Subsets(parties, cutoff) && Violates(row, Members(parties), c) <==>
            |c| <= cutoff && Violates(row, Members(parties), c)
  {
    hide Subsets;
    SubsetsAre(parties, cutoff, c);
  }

  /** The violators among the first k subsets. */
  ghost predicate RowHitsSoFar(row: Row, parties: seq<Party>, cutoff: nat, hits: seq<set<Party>>, k: nat)
    requires k <= |Subsets(parties, cutoff)|
  {
    forall c :: c in hits <==> c in Subsets(parties, cutoff)[..k] && Violates(row, Members(parties), c)
  }

  lemma NextRowHit(row: Row, parties: seq<Party>, cutoff: nat, hits: seq<set<Party>>, k: nat)
    requires Distinct(parties) && k < |Subsets(parties, cutoff)| && RowHitsSoFar(row, parties, cutoff, hits, k)
    ensures var c := Subsets(parties, cutoff)[k];
            && c !in hits
            && RowHitsSoFar(row, parties, cutoff,
                            if Violates(row, Members(parties), c) then hits + [c] else hits, k + 1)
  {
    SubsetsDistinct(parties, cutoff);
    hide Subsets, Violates, Distinct;
    var subsets := Subsets(parties, cutoff);
    FreshAt(subsets, k);
    assert subsets[..k + 1] == subsets[..k] + [subsets[k]];
  }

  lemma AllRowHits(row: Row, parties: seq<Party>, cutoff: nat, hits: seq<set<Party>>)
    requires Distinct(parties) && RowHitsSoFar(row, parties, cutoff, hits, |Subsets(parties, cutoff)|)
    ensures forall c :: c in hits <==> |c| <= cutoff && Violates(row, Members(parties), c)
  {
    var subsets := Subsets(parties, cutoff);
    assert subsets[..|subsets|] == subsets;
    hide Subsets, Violates;
    forall c
      ensures c in hits <==> |c| <= cutoff && Violates(row, Members(parties), c)
    {
      AllViolators(row, parties, cutoff, c);
    }
  }

  /** The hits of one row, in the order of the subsets. */
  method RowHits(row: Row, parties: seq<Party>, cutoff: nat) returns (hits: seq<set<Party>>)
    requires Distinct(parties)
    ensures Distinct(hits)
    ensures forall c :: c in hits <==> |c| <= cutoff && Violates(row, Members(parties), c)
  {
    hits := [];
    var subsets := Subsets(parties, cutoff);
    assert Distinct(hits) && RowHitsSoFar(row, parties, cutoff, hits, 0);
    hide Subsets, Distinct, Violates, Members, IsJoin, RowHitsSoFar;
    for k := 0 to |subsets|
      invariant Distinct(hits) && RowHitsSoFar(row, parties, cutoff, hits, k)
    {
      var c := subsets[k];
      NextRowHit(row, parties, cutoff, hits, k);
      TrustedIsNoViolation(row, Members(parties), c);
      if c !! row.trusted {
        var j := Join(row, c);
        ViolatesAt(row, parties, cutoff, k, j);
        if j.gran.Rank() > row.ceiling.Rank() {
          DistinctSnoc(hits, c);
          hits := hits + [c];
        }
      }
    }
    AllRowHits(row, parties, cutoff, hits);
  }

  /** Drops what a proper subset already shows, and everything but {pub} once {pub} is a hit. */
  method MinimalFor(hits: seq<set<Party>>) returns (minimal: seq<set<Party>>)
    requires Distinct(hits)
    ensures Distinct(minimal)
    ensures forall c :: c in minimal <==>
              c in hits && ({PUBLIC} in hits ==> c == {PUBLIC}) && forall d :: d in hits ==> !(d < c)
  {
    minimal := [];
    assert Distinct(minimal);
    hide Distinct;
    for k := 0 to |hits|
      invariant Distinct(minimal)
      invariant forall c :: c in minimal <==>
                  c in hits[..k] && ({PUBLIC} in hits ==> c == {PUBLIC}) && forall d :: d in hits ==> !(d < c)
    {
      assert hits[..k + 1] == hits[..k] + [hits[k]];
      if {PUBLIC} in hits && hits[k] != {PUBLIC} {
        continue;
      }
      if !exists d :: d in hits && d < hits[k] {
        FreshAt(hits, k);
        DistinctSnoc(minimal, hits[k]);
        minimal := minimal + [hits[k]];
      }
    }
    assert hits[..|hits|] == hits;
  }

  lemma ViolatorAlone(row: Row, parties: set<Party>, coalition: set<Party>) returns (p: Party)
    requires Violates(row, parties, coalition)
    ensures p in coalition && Violates(row, parties, {p})
    ensures coalition != {p} ==> {p} < coalition
  {
    p :| p in coalition && row.Attained(p).gran.Rank() > row.ceiling.Rank();
  }

  /** Every row-level finding is one party's alone: {pub} when the public
      itself is above the ceiling, otherwise each single violator. */
  method RowFindings(row: Row, parties: seq<Party>, cutoff: nat) returns (minimal: seq<set<Party>>)
    requires Distinct(parties) && cutoff > 0
    ensures Distinct(minimal)
    ensures forall c :: c in minimal <==>
              Violates(row, Members(parties), c) &&
              (if Violates(row, Members(parties), {PUBLIC}) then c == {PUBLIC} else exists p :: c == {p})
    ensures forall c :: c in minimal <==> exists p :: c == {p} && IsFinding(row, parties, p)
  {
    var hits := RowHits(row, parties, cutoff);
    minimal := MinimalFor(hits);
    hide Violates;
    forall c
      ensures c in minimal <==>
                Violates(row, Members(parties), c) &&
                (if Violates(row, Members(parties), {PUBLIC}) then c == {PUBLIC} else exists p :: c == {p})
    {
      assert {PUBLIC} in hits <==> Violates(row, Members(parties), {PUBLIC});
      if c in hits {
        var p := ViolatorAlone(row, Members(parties), c);
        assert {p} in hits;
      }
      if p :| c == {p} {
        SingletonMinimal(row, Members(parties), p);
      }
    }
    forall p
      ensures Violates(row, Members(parties), {p}) <==> AboveCeiling(row, parties, p)
    {
      AloneIs(row, parties, p);
    }
  }

  /** What the party was told, or the public, is above the ceiling of a row it is not trusted with. */
  ghost predicate AboveCeiling(row: Row, parties: seq<Party>, p: Party) {
    && p in parties && p !in row.trusted
    && exists q :: (q == p || q == PUBLIC) && q in row.knows && row.knows[q].gran.Rank() > row.ceiling.Rank()
  }

  ghost predicate IsFinding(row: Row, parties: seq<Party>, p: Party) {
    AboveCeiling(row, parties, p) && (AboveCeiling(row, parties, PUBLIC) ==> p == PUBLIC)
  }

  lemma AloneIs(row: Row, parties: seq<Party>, p: Party)
    ensures Violates(row, Members(parties), {p}) <==> AboveCeiling(row, parties, p)
  {
    assert p in {p};
  }

  lemma SingletonMinimal(row: Row, parties: set<Party>, p: Party)
    ensures |{p}| == 1 && forall d :: Violates(row, parties, d) ==> !(d < {p})
  {
    forall d | d < {p}
      ensures d == {}
    {
      assert p !in d;
    }
  }

  // ------------------------------------------------ the cutoff is needed

  /** Each row told in full to one party of its own. */
  ghost function PrivateRow(party: Party): Row { Row(0, map[party := Knowledge(Exact, Immediate)], Nothing, {}) }

  ghost function PrivateInputs(parties: seq<Party>): seq<Input> {
    seq(|parties|, i requires 0 <= i < |parties| => Input(PrivateRow(parties[i]), Exact))
  }

  /** For every number of inputs there is a matrix on which only the full
      coalition holds the fact: a cutoff below the number of inputs misses it. */
  lemma CutoffIsTight(parties: seq<Party>, coalition: set<Party>)
    requires Distinct(parties) && PUBLIC !in parties
    ensures Holds(PrivateInputs(parties), coalition) <==> Members(parties) <= coalition
    ensures |Members(parties)| == |PrivateInputs(parties)|
  {
    forall i | 0 <= i < |parties|
      ensures Reaches(PrivateRow(parties[i]), coalition, Exact) <==> parties[i] in coalition
    {
      assert forall p :: PrivateRow(parties[i]).Attained(p).gran.Rank() >= Exact.Rank() <==> p == parties[i];
    }
    assert forall i :: 0 <= i < |parties| ==> PrivateInputs(parties)[i] == Input(PrivateRow(parties[i]), Exact);
    if Holds(PrivateInputs(parties), coalition) {
      forall p | p in Members(parties)
        ensures p in coalition
      {
        var i :| 0 <= i < |parties| && parties[i] == p;
        assert Reaches(PrivateInputs(parties)[i].row, coalition, PrivateInputs(parties)[i].need);
      }
    }
    MembersCount(parties);
  }

  lemma {:induction false} MembersCount(parties: seq<Party>)
    requires Distinct(parties)
    ensures |Members(parties)| == |parties|
  {
    if parties != [] {
      FirstParty(parties);
      MembersCount(parties[1..]);
    }
  }
}
