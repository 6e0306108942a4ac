# Lattice Prime: verified models of the reference arithmetic and the sponsor relay

A Dafny model of the parts of the repository whose claims are about every book,
every run or every matrix, together with proofs of those claims.

| file | what it models |
|---|---|
| `CallAuction.dfy` | the uniform-price clearing rule: demand, supply, the price scan and its tie-breaks, at every real price |
| `Allocation.dfy` | who trades at the cleared price: price priority, pro rata at the margin, the remainder unit by unit |
| `RestingBook.dfy`, `RestingBookOptimal.dfy`, `ManyBooks.dfy` | orders that rest for some rounds, matched oldest first; the proof that this is a maximum matching; the same over several books |
| `RateLimiter.dfy` | the pruning windowed limiter as an object, its refinement of a limiter that never deletes, and what it bounds |
| `EligibilityRelay.dfy`, `RelayServer.dfy` | the sponsored-registration relay as a step system (each synchronous run between two awaits is one step), and as the object whose methods are those steps |
| `RelayRuns.dfy` | what holds in every run of the relay |
| `RelayAnswers.dfy` | what each status tells about the exchange with the chain, and what stands in the log before a submit |
| `RelayAdmission.dfy` | what an arriving request gets, and how many processes a run can start for one account or from one address |
| `RequestValidation.dfy` | request validation and the text of the in-flight key |
| `CollusionCheck.dfy` | joins over the disclosure matrix and the search for minimal coalitions |
| `OracleMedian.dfy` | the panel median under corrupted seats |
| `ModularAddition.dfy` | 256-bit addition modulo a modulus, byte by byte, with the machine widths and casts |
| `Numerals.dfy` | decimal and hexadecimal numerals, by value and digit by digit |
| `ContextCodec.dfy` | the 173-limb context encoding and its inverse |
| `ContextLayout.dfy` | which contexts are accepted and where each field's number stands, said without the codec's own reading |
| `DecisionNetwork.dfy` | the quantised two-layer network against the linear relation |
| `BinaryEvaluation.dfy` | the same network evaluated in binary32, every product and sum rounded |
| `AxeGrid.dfy` | size and rate bands, and the axe-bond floor |
| `RepoCash.dfy` | repo purchase, accrual and maintenance with their roundings |
| `Basics.dfy` | what several of these share |

`dafny verify dfyconfig.toml` checks the whole project.

## How the model reads the source

* Python integers are `int` or `nat`. Prices of the auction are any integers,
  quantities any natural numbers, and the rule is also stated at real prices.
  The doubled clearing price stays doubled.
* The relay's clock does not run backwards and its limits and windows are
  positive. A chain call may answer or throw anything; an answer that
  `Number` cannot convert, and a reason that `String` cannot, are answers too,
  and lead to status 500 because the conversion stands outside the `try`, as
  does everything the second status read throws
  (`api/_lib/eligibility-relay.mjs:159,169,182`). So is a transaction hash that
  JSON cannot write: the process has submitted, and every response that would
  carry the hash becomes a 500 (`api/_lib/eligibility-relay.mjs:104,189`). A
  hash is taken to print either for all of those responses or for none.
* The in-flight key is the triple of account, epoch and nullifier;
  `RequestValidation.KeyTextIsInjective` justifies it from the string.
* A loop over a filtered index list is a loop over all indices with the filter
  as its guard. In `fills` the early `break` at a zero remainder is a guard on
  the remainder, which leaves the same orders untouched.
* The two `assert`s of `fills` that never trip are assertions of the method and
  proved; the first one and the division by zero are error results.
* The context's straight-line reads are a table of fields in source order;
  `ContextLayout` states the interface over a table of its own.
* Every refusal of a context is one exception and every refusal of a request one
  status; which check refused first is modelled but no property is claimed of it.

Where the code and its own prose differ the model follows the code:

* The header of `scripts/collusion-check.py` promises a join at the earliest
  time any member attains it, and public facts known to all. `attained`
  compares granularity only: at equal granularity a party keeps its own time,
  even when the public learnt the fact earlier. `CollusionCheck.TiedPartyLearnsLate`
  is an input on which the promise fails, and `CollusionCheck.JoinAsPromised` says
  exactly when it is kept.
* `brackets` in `probes/oracle-median.py` is said to bound one liar. It does
  so exactly for panels of three seats or more, the sizes its sweep covers;
  on one or two seats it does not (`OracleMedian.BracketsAreExact`).
* `minimum_axe_bond` in `probes/axe-grid.py` is the exact threshold only when
  something can be outstanding and a probe costs no more than a commitment
  (`AxeGrid.FloorIsExact`).

## Model

| member | source | states |
|---|---|---|
| CallAuction.Clear | probes/matching-clearing.py:75-96 | None exactly when no submitted price executes anything; otherwise the ends of the set of submitted prices that maximise the volume and, among those, minimise the imbalance, with their doubled midpoint |
| CallAuction.ClearingIs | probes/matching-clearing.py:58-96 | the three steps spelled out on demand and supply: no submitted price executes more; none that executes as much has a smaller difference of demand and supply; those with the same difference lie between lo and hi; p2 is lo plus hi |
| CallAuction.BestVolume | probes/matching-clearing.py:82-86 | the scan finds the greatest volume over the submitted prices |
| CallAuction.ScanIsComplete | probes/matching-clearing.py:173-196 | Theorem A: no real price at all executes more than the volume found, and none is found exactly when no real price executes anything |
| CallAuction.NoClearingMeansNoCross | probes/matching-clearing.py:87-88 | there is no clearing exactly when no buy price reaches a sell price (orders of positive quantity) |
| CallAuction.QuasiConcave | probes/matching-clearing.py:204-207 | volume is quasi-concave and imbalance quasi-convex over all real prices |
| CallAuction.ConstantOnInterval | probes/matching-clearing.py:115-122 | every real price between lo and hi executes exactly the maximum, with imbalance no worse than the least, so the midpoint is itself a maximiser |
| CallAuction.ArgmaxIsConnected | probes/matching-clearing.py:203-233 | Theorem B: volume maximisers, and imbalance minimisers among them, are contiguous in the sorted submitted prices |
| CallAuction.ClearingIgnoresRevealOrder | probes/matching-clearing.py:102-107 | the answer is unique, and the same for every permutation of the book |
| Allocation.MarginalLevel | probes/matching-clearing.py:127-135 | finds the first level, best first, at which eligible quantity reaches the volume; fails exactly when the eligible quantity never does |
| Allocation.Fills | probes/matching-clearing.py:99-156 | for a positive volume it succeeds exactly when both sides have the eligible quantity, and then each order gets its priority, pro-rata or remainder share; no other check trips and nothing divides by zero |
| Allocation.FillSide | probes/matching-clearing.py:124-155 | one side of the above, in place, leaving the other side's fills alone |
| Allocation.FillRemainder | probes/matching-clearing.py:147-153 | hands out one unit each, in array order, to orders with room; what is left is what had no room |
| Allocation.RemainderFits | probes/matching-clearing.py:108-113 | the remainder of the flooring always fits, with an order to spare |
| Allocation.FilledSideIsExact | probes/matching-clearing.py:154-155 | each side sums exactly to the volume, within every size and every limit at the half-integer price |
| Allocation.FillsAre | probes/matching-clearing.py:99-156 | in prices: there is an eligible margin at which the volume is first reached; better is filled, worse gets nothing, and at the margin each order gets the floored share of what is left, or one more in array order among those with room; the side sums to the volume |
| Allocation.EnoughIsEligible | probes/matching-clearing.py:119-122 | at the midpoint of a clearing both sides have the eligible quantity |
| Allocation.NoAllocationBeats | probes/matching-clearing.py:67-96 | no allocation within sizes and limits at any single real price executes more than the cleared volume |
| Allocation.ClearAndFill | probes/matching-clearing.py:396-405 | clearing and then filling never fails and is a best allocation over every real price |
| Allocation.RevealOrderDecidesResidue | probes/matching-clearing.py:102-113 | in a permuted book the same order gets the same fill, or, only at the marginal level, one unit more or less |
| Allocation.PricePriority | probes/matching-clearing.py:102-104 | where an order receives anything, every order of its side at a strictly better price is filled in full |
| Allocation.ProRataWithinOne | probes/matching-clearing.py:108-113 | a marginal fill is less than one unit below the exact proportional share and at most one above |
| Allocation.AtMostAllButOneBumped | probes/matching-clearing.py:108-113 | every marginal fill is the floored share or one more, and of k marginal orders at most k - 1 are bumped |
| RestingBook.Age | probes/matching-clearing.py:355-362 | matches in place from the oldest slot on and returns the survivors one round older |
| RestingBook.CrossingsOfBook | probes/matching-clearing.py:341-351 | one book's rounds, for any arrivals, as the run the optimality theorem is about |
| ManyBooks.Crossings | probes/matching-clearing.py:335-352 | over any number of books exactly the maximum number of pairs, each within one book; never more than one merged book crosses |
| RestingBookOptimal.CoverBoundsMatching | probes/matching-clearing.py:322-329 | no matching of arrivals is larger than the weight of a cover of the compatible rounds |
| RestingBookOptimal.RunIsCertified | probes/matching-clearing.py:343-351 | after every round, for every age threshold, there is a cover as heavy as the crossings so far plus the live orders past it |
| RestingBookOptimal.RunIsMatching | probes/matching-clearing.py:343-351 | after every round the crossings so far are an actual matching that leaves the live orders unmatched |
| RestingBookOptimal.GreedyIsOptimal | probes/matching-clearing.py:335-362 | oldest-first crosses exactly the maximum number of disjoint buy-sell pairs whose arrival rounds differ by at most rest_rounds |
| RestingBookOptimal.RestingNeverCosts | probes/matching-clearing.py:22-24 | for the same arrivals, resting longer never lowers the crossings |
| RestingBookOptimal.SplittingNeverPays | probes/matching-clearing.py:22-24 | splitting the arrivals over two books never raises them |
| ManyBooks.MergingNeverCosts | probes/matching-clearing.py:339-352 | nor does splitting over any number of books |
| RateLimiter.Limiter.Consume | api/_lib/eligibility-relay.mjs:79-97 | the bucket's new state and the verdict, pruning and the 503 included |
| RateLimiter.Limiter.Prune | api/_lib/eligibility-relay.mjs:81-83 | deletes exactly the expired windows |
| RateLimiter.ExhaustedMeansFull | api/_lib/eligibility-relay.mjs:84-86 | 503 exactly when more than 4096 windows are live, and it changes no live window |
| RateLimiter.ConsumeIs | api/_lib/eligibility-relay.mjs:79-97 | 503 exactly with more than 4096 windows still running, 429 exactly when the key's running window is full, otherwise the key's entry counts one more or opens anew; other entries change only by pruning, above 4096 entries, of what has run out |
| RateLimiter.PruningIsInvisible | api/_lib/eligibility-relay.mjs:79-97 | over any run of calls it answers 503 or exactly as a counter that never deletes; counts stay within the maximum and the bucket within 4097 windows |
| RateLimiter.AcceptancesPerSpan | api/_lib/eligibility-relay.mjs:88-96 | however calls fall, a key is accepted fewer than twice the maximum in any half-open span of the window's length, at most twice in the closed one, and at most the maximum at one instant |
| RateLimiter.SpanBoundsAreReached | api/_lib/eligibility-relay.mjs:88-96 | for every maximum and window the closed bound is attained; the half-open one exactly when the window is longer than one instant or the maximum is one |
| RelayRuns.StepHolds | api/_lib/eligibility-relay.mjs:152-240 | every step keeps the flight, trace and sponsor invariants together |
| RelayRuns.RunHolds | api/_lib/eligibility-relay.mjs:152-240 | the flight, trace and sponsor invariants hold in every state of every interleaving |
| EligibilityRelay.FlightKept | api/_lib/eligibility-relay.mjs:212-231 | every step keeps: in-flight entries are exactly the owners' own, joiners wait on a run of their key, answers are what the run settled to |
| EligibilityRelay.TraceKept | api/_lib/eligibility-relay.mjs:152-193 | every step keeps: what each process asked the chain is the script up to where it stands, or what its outcome means |
| EligibilityRelay.SponsorKept | api/_lib/eligibility-relay.mjs:185-188 | every step keeps: the submits are exactly what the sponsor limiter counted |
| RelayRuns.SingleFlight | api/_lib/eligibility-relay.mjs:214-225 | two unsettled processes with the same account, epoch pub[3] and nullifier pub[0] are one |
| RelayRuns.AnsweredByItsRun | api/_lib/eligibility-relay.mjs:216-220 | every request that waited answers what a run of its own key settled to |
| RelayRuns.InflightIsCleared | api/_lib/eligibility-relay.mjs:226-231 | the entry an owner deletes is its own; with all requests answered nothing is in flight |
| RelayRuns.SubmitIsVetted | api/_lib/eligibility-relay.mjs:152-193 | a process submits at most once and only after two reads without a grant, an accepting gate and a successful simulation of the same account, proof and pub; and each outcome pins what the chain answered, the submission's answer included |
| RelayRuns.SponsoredSpans | api/_lib/eligibility-relay.mjs:185-188 | the submits in the log number at most the limit since the current window opened and at one instant, fewer than twice that in any half-open span of window length, at most twice in the closed one |
| RelayAnswers.AnswersTell | api/_lib/eligibility-relay.mjs:152-193 | every request that waited for a run shares its account, epoch and nullifier, and its status (200, 202, 409, 422, 429, 500 or 503) tells the run's whole exchange with the chain; a run settled to a hash was sent that hash |
| RelayAnswers.SubmitsAreEarned | api/_lib/eligibility-relay.mjs:152-193 | before every submit in the log stand, in order, its process's two reads without a grant around an accepting gate and a successful simulation, all for what is submitted; and it is that process's only one |
| RelayAnswers.NothingIsExcluded | api/_lib/eligibility-relay.mjs:152-193 | wherever a process is suspended every answer of the chain is possible, and any valid request may arrive |
| RelayAnswers.SomeRunSubmits | api/_lib/eligibility-relay.mjs:185-228 | under every setting some run submits for any request and answers 202 with any hash |
| RelayAdmission.ArrivalIs | api/_lib/eligibility-relay.mjs:212-225 | an arrival joins the unanswered owner of its account, epoch and nullifier; without one the account limiter and then the IP limiter are asked, a refusal answers 429 or 503, and two acceptances start a process |
| RelayAdmission.AdmittedSpans | api/_lib/eligibility-relay.mjs:222-225 | in every run, 503s and pruning included, processes started for one account, or from one address, number fewer than twice the limit in any half-open span of window length, at most twice in the closed one, at most the limit at one instant |
| RelayAdmission.RunIsTracked | api/_lib/eligibility-relay.mjs:212-225 | in every state the two request limiters are what the calls so far make of them, and every start was one of their acceptances |
| RelayServer.Relay.constructor | api/_lib/eligibility-relay.mjs:147-150 | a new relay is in the initial state, and valid: the run invariants hold of it |
| RelayServer.Relay.Guarantees | api/_lib/eligibility-relay.mjs:147-240 | a valid relay has one unsettled run a key, submits only after the whole script, keeps sponsored submits within the span bounds, and has nothing in flight once all is answered |
| RelayServer.Relay.Handle | api/_lib/eligibility-relay.mjs:212-225 | the handler up to its first await is one arrival step, and leaves a valid relay |
| RelayServer.Relay.OnStatus | api/_lib/eligibility-relay.mjs:153-159 | the first status answer is one step, and leaves a valid relay |
| RelayServer.Relay.OnGate | api/_lib/eligibility-relay.mjs:161-170 | the gate's answer is one step, and leaves a valid relay |
| RelayServer.Relay.OnSimulation | api/_lib/eligibility-relay.mjs:175-179 | the simulation's answer is one step, and leaves a valid relay |
| RelayServer.Relay.OnRecheck | api/_lib/eligibility-relay.mjs:181-188 | second read, sponsor limiter and submit are one step, with no await between them, and leave a valid relay |
| RelayServer.Relay.OnSubmission | api/_lib/eligibility-relay.mjs:187-192 | the submission's answer is one step, and leaves a valid relay |
| RelayServer.Relay.ResumeOwner | api/_lib/eligibility-relay.mjs:226-231 | the owner responds and deletes its entry in one step, the entry is its own, and the relay stays valid |
| RelayServer.Relay.ResumeJoiner | api/_lib/eligibility-relay.mjs:216-220 | a joiner responds with its run's outcome, and leaves a valid relay |
| RequestValidation.AcceptedIsBound | api/_lib/eligibility-relay.mjs:107-130 | an accepted request names a lower-case address whose own number the proof is bound to, with 24 and 7 integers below 2^256 |
| RequestValidation.ValidationIs | api/_lib/eligibility-relay.mjs:107-130 | a body is accepted with a given result exactly when it names the network, the gate and the registry in any case, holds 24 and 7 numerals below 2^256 whose numbers are the result's in order, and the fifth public input is the number of the account, which is handed on in lower case |
| RequestValidation.KeyTextIsInjective | api/_lib/eligibility-relay.mjs:214 | two requests have the same key text exactly when account, epoch and nullifier agree |
| CollusionCheck.Join | scripts/collusion-check.py:108-117 | visiting the coalition in any order gives the greatest granularity a member attains, at the earliest time a member attains it |
| CollusionCheck.JoinUnique | scripts/collusion-check.py:108-117 | the join does not depend on iteration order |
| CollusionCheck.JoinMonotone | scripts/collusion-check.py:315-317 | a larger coalition joins to no less granularity, and at equal granularity no later |
| CollusionCheck.JoinReaches | scripts/collusion-check.py:108-117 | the join reaches a granularity exactly when a single member does |
| CollusionCheck.PromisedIsPublicJoin | scripts/collusion-check.py:91-117 | the join promised in the prose, stated on what was told alone, is the join with the public as a member |
| CollusionCheck.JoinAsPromised | scripts/collusion-check.py:91-117 | a non-empty coalition always joins to the promised granularity, never earlier than promised, and exactly as promised unless every member was told just what the public was, and later |
| CollusionCheck.TiedPartyLearnsLate | scripts/collusion-check.py:91-99 | the promise fails: a party told at the end of the day what the public was told at once joins to the end of the day |
| CollusionCheck.PublicAddsNothing | scripts/collusion-check.py:91-94 | the public adds no granularity to a coalition with a member |
| CollusionCheck.Emergent | scripts/collusion-check.py:101-106 | tells whether the coalition joins to more than each member attains; false for every row of every matrix and every coalition |
| CollusionCheck.SubsetsAre | scripts/collusion-check.py:315-320 | the enumeration is exactly the non-empty subsets up to the cutoff |
| CollusionCheck.SubsetsAscend | scripts/collusion-check.py:318-320 | smaller subsets come first |
| CollusionCheck.SubsetsDistinct | scripts/collusion-check.py:315-320 | no subset is enumerated twice |
| CollusionCheck.HeldBy | scripts/collusion-check.py:277-282 | a coalition holds a fact exactly when it reaches every input |
| CollusionCheck.HolderIs | scripts/collusion-check.py:277-282 | read off the matrix: a coalition is a holder exactly when it is not empty, stays outside the permitted set, and for every input that needs anything a member or the public was told enough |
| CollusionCheck.MinimalIsSmall | scripts/collusion-check.py:315-317 | a minimal holder has at least one member and no more than the fact has inputs, or exactly one where the fact has none |
| CollusionCheck.FactHits | scripts/collusion-check.py:422-429 | consulting the list being built keeps exactly the inclusion-minimal holders, each once |
| CollusionCheck.DerivedHits | scripts/collusion-check.py:420-429 | for every fact, exactly the inclusion-minimal holders of any size are reported, each once, and nothing under any other key |
| CollusionCheck.SearchIsComplete | scripts/collusion-check.py:315-320 | every holder of any size, disjoint from the permitted set, contains a reported one; the reported ones are an antichain |
| CollusionCheck.CutoffIsTight | scripts/collusion-check.py:315-317 | for every number of inputs there is a matrix on which only the full coalition holds the fact, so a smaller cutoff would miss it |
| CollusionCheck.RowHits | scripts/collusion-check.py:355-362 | the hits of a row are exactly the violating coalitions up to the cutoff |
| CollusionCheck.MinimalFor | scripts/collusion-check.py:364-375 | keeps the hits with no smaller hit inside, and {pub} alone once {pub} is one |
| CollusionCheck.RowFindings | scripts/collusion-check.py:355-377 | every minimal row violator is a single untrusted party that was itself told, or the public was, more than the ceiling: {pub} alone if that holds of the public, otherwise each such party |
| OracleMedian.OrderStatistic | probes/oracle-median.py:62-68 | the i-th order statistic is at most v exactly when more than i answers are |
| OracleMedian.StatisticsShift | probes/oracle-median.py:89-94 | f corrupted seats move every order statistic by at most f places |
| OracleMedian.ShiftIsTight | probes/oracle-median.py:152-173 | for every f one corruption sinks every statistic by f places and another raises every one by f, wherever there is room |
| OracleMedian.MajorityIsExact | probes/oracle-median.py:152-173 | the median stays in the honest range for every corruption of f seats exactly when 2f < n |
| OracleMedian.HalfEscapes | probes/oracle-median.py:284-286 | with half the seats some answer drags the median above every honest one |
| OracleMedian.OneLiarStaysInside | probes/oracle-median.py:108-133 | one liar among three or more leaves the median inside the brackets |
| OracleMedian.BracketsAreReached | probes/oracle-median.py:86-105 | both ends of the brackets are attained by replacing one answer |
| OracleMedian.BracketsAreExact | probes/oracle-median.py:86-105 | the brackets hold for one liar exactly from three seats on, and then both ends are attained |
| OracleMedian.BracketsOfFew | probes/oracle-median.py:86-105 | on one or two seats the brackets are the least and the greatest honest answer |
| ModularAddition.Lt | spikes/bn254/conform.rs:78-85 | byte-wise comparison is numeric less-than |
| ModularAddition.AddBytes | spikes/bn254/conform.rs:61-67 | sum and carry together are the exact sum, within u16 |
| ModularAddition.SubtractBytes | spikes/bn254/conform.rs:69-74 | difference and borrow together are the exact difference, within i16 and through the truncating cast |
| ModularAddition.AddModR | spikes/bn254/conform.rs:60-77 | for any operands one subtraction of the modulus within 256 bits; for operands below the modulus the sum modulo it |
| ContextCodec.TakeLimbs | venue/agent/proof/context_codec.py:37-43 | the shift loop yields the base-65536 digits, or refuses exactly the values that do not fit |
| ContextCodec.LimbsRoundTrip | venue/agent/proof/context_codec.py:37-43 | reading the limbs back gives the value |
| ContextCodec.FieldsRoundTrip | venue/agent/proof/context_codec.py:95-111 | encoding any table of well-sized fields decodes to the values read, and fails only for a field's own reason |
| ContextCodec.EncodingRoundTrips | venue/agent/proof/context_codec.py:46-114 | an accepted context is 173 limbs below 65536 with features in their domains, decoding recovers every field, and the two internal failure checks never refuse |
| ContextLayout.AcceptsExactly | venue/agent/proof/context_codec.py:17-93 | a context is accepted exactly when it has the eighteen and the six names, side is BUY, every unsigned field is an integer or canonical numeral in its range, every hex field the right number of digits, and every feature within its bound |
| ContextLayout.PublicLayout | venue/agent/proof/context_codec.py:86-114 | the digits to the base 2^16 of each field's number stand, most significant first, at the field's own fixed limbs, features included, and limb 56 is 0 |
| ContextCodec.EncodingIsInjective | venue/agent/proof/context_codec.py:46-114 | two accepted contexts have equal limbs exactly when every field agrees up to hex case and an integer against the canonical decimal string of the same integer |
| Numerals.CanonicalIsUnique | venue/agent/proof/context_codec.py:22-23 | a canonical decimal string is determined by its value |
| Numerals.HexIsUnique | venue/agent/proof/context_codec.py:31-34 | hex of one length is determined by its value up to case |
| Numerals.HexIs | venue/agent/proof/context_codec.py:31-34 | a text is hex worth n exactly when its characters, in either case, are the digits of n to the base sixteen |
| Numerals.DecimalIs | venue/agent/proof/context_codec.py:17-28 | a text is a canonical decimal worth n exactly when its characters are the digits of n to the base ten, without a leading zero |
| DecisionNetwork.NetworkIsRelation | venue/agent/formal/decision_relation.py:79-118 | for any coefficients, centres, copies and positive weight the network decides as the sign of the centred score, ties waiting |
| DecisionNetwork.HiddenIsScore | venue/agent/formal/decision_relation.py:108-111 | the hidden layer is the positive and the negative part of the score |
| DecisionNetwork.ApprovedIsDuplicated | venue/agent/formal/decision_relation.py:33-54 | the approved integers are four copies of each sign, weight 64, with the bias the centres ask for |
| DecisionNetwork.ApprovedNetworkIsRelation | venue/agent/formal/decision_relation.py:116-118 | network and relation agree on every input, the refusals included |
| DecisionNetwork.DecisionIs | venue/agent/formal/decision_relation.py:79-118 | on exactly the six-feature lists within their domains the network decides, namely whether six times the room plus four times the move offset plus the progress less sixteen times the age plus 1000 and 700 times the categories exceeds 14,300 |
| DecisionNetwork.TermsAddUp | venue/agent/formal/decision_relation.py:110-112 | the terms bounded below are the ones the network adds |
| DecisionNetwork.PartialSumsBounded | venue/agent/formal/decision_relation.py:110-112 | in any order of addition no partial sum exceeds the sum of magnitudes |
| DecisionNetwork.ExactInBinary32 | venue/agent/formal/decision_relation.py:181-185 | over the approved domains every partial sum's numerator, in any order, is below 2^24 |
| BinaryEvaluation.SumIsExact | venue/agent/formal/decision_relation.py:108-112 | terms whose magnitudes stay below 2^24 units add up exactly under any rounding that keeps binary32 numbers, in any order and any bracketing |
| BinaryEvaluation.LogitsAreRounded | venue/agent/formal/decision_relation.py:108-112 | nothing escapes rounding: a rounding that always answers one number makes every logit that number |
| BinaryEvaluation.LogitIsExact | venue/agent/formal/decision_relation.py:181-185 | any network with such terms yields its integer logits over 65536 in binary32, with every product and sum rounded |
| BinaryEvaluation.BinaryIsRelation | venue/agent/formal/decision_relation.py:181-195 | on the approved domains the network in binary32 decides as the relation, ties waiting |
| DecisionNetwork.ReleaseIsNetwork | venue/agent/formal/check_release.py:12-52 | both release formulas and the approved network are one decision of the public data and the two categories |
| DecisionNetwork.ReleaseIs | venue/agent/formal/check_release.py:12-52 | raw preferences count 1000 for each of 2,000 and 5,000 the buffer reaches and 700 for each of 24 and 72 the horizon reaches, and nothing else of them matters |
| AxeGrid.SizeBand | probes/axe-grid.py:29-34 | the capped loop is the uncapped bucket, capped |
| AxeGrid.VenueBucket | probes/axe-grid.py:21-26 | the uncapped loop counts the divisions by ten |
| AxeGrid.SizeEnds | probes/axe-grid.py:37-46 | a band's ends are exactly where the band function enters and leaves it |
| AxeGrid.RateBandIs | probes/axe-grid.py:49-61 | sixteen bands of 25 basis points, the last one open to the top |
| AxeGrid.SizeBandsMeet | probes/axe-grid.py:88-107 | up to uint256, a size band lies between the bands of lo and hi exactly when its interval meets [lo, hi] |
| AxeGrid.RateBandsMeet | probes/axe-grid.py:88-107 | the same for rate bands |
| AxeGrid.CapShows | probes/axe-grid.py:165-170 | capped and uncapped agree exactly below 10^16 |
| AxeGrid.HonestyDominates | probes/axe-grid.py:140-144 | the loop decides whether honesty dominates for every k up to the limit |
| AxeGrid.FloorSuffices | probes/axe-grid.py:82-85 | the floor always suffices |
| AxeGrid.FloorIsExact | probes/axe-grid.py:82-85 | it is the exact threshold exactly when something can be outstanding and the fee is at most the commit bond; otherwise no bond is needed and the floor is one |
| RepoCash.CashIs | venue/probes/repo-cash.py:17-33 | the purchase is the floored discounted mark, interest the ceiling over 10,000 basis points of 365 days, the repurchase their sum, and a full haircut or a term not started is refused |
| RepoCash.MaintenanceIsCeiling | venue/probes/repo-cash.py:36-38 | the requirement is the single ceiling of exposure times (10000 + m) over 10000 |
| RepoCash.NeverBornUnderMargined | venue/probes/repo-cash.py:17-38 | no repo is born under-margined, at any mark, exactly when (10000 - h)(10000 + m) is at most 10000 squared |
| RepoCash.SplittingATerm | venue/probes/repo-cash.py:23-29 | accruing in two steps costs the same or one unit more |

## Left out

- The Solidity contracts the probes are references for are not part of this model.
- CollusionCheck.DerivedHits: asks for distinct keys and no more inputs than the cutoff; the source's five facts have distinct keys and two or three inputs against a cutoff of three, and rows are part of an input instead of being looked up by number.
- CollusionCheck.MinimalFor: one row's hits at a time; the source keeps every row's hits in one list and compares row numbers, which are distinct.
- ManyBooks.Crossings: arrivals are inputs; the Poisson draws and the division by the years are not modelled.
- Allocation.Fills: quantities and the volume are natural numbers; negative ones, which no book of the probe has, are not modelled.
- RequestValidation.AcceptedIsBound: the body is already parsed JSON; content type, origin, body size and IP extraction are not modelled, and of `chainId` only the safe integer it converts to.
- RelayServer.Relay.Handle: suspended async frames are entries of two maps; the order in which settled promises resume their waiters is left open, which admits more interleavings than the event loop does.
- RelayRuns.SubmitIsVetted: error texts are not modelled, only statuses; liveness is not claimed, since the chain may never answer.
- ContextCodec.Encode: Python's own limit on the length of decimal strings is not modelled.
- BinaryEvaluation.BinaryIsRelation: every product and every sum is rounded by itself; fused multiply-add, overflow, the ONNX graph and the file checks are not modelled.
- The tie-break bias and rounding statistics, the sweeps' counters, fixture writing and printing of the probes.
- `deviation_bps`, `mark_per_unit_tinybar`, `settlement_penalty` and the rectangle count would only add one-line arithmetic.
