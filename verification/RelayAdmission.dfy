/** What the account and the IP limiter are worth over whole runs: how many
    processes can be started on behalf of one account, or from one address. */
module RelayAdmission {
  import opened Basics
  import opened RateLimiter
  import opened EligibilityRelay
  import opened RelayRuns

  datatype Guard = ByAccount | ByIp {
    function Bucket(s: State): Bucket { if ByAccount? then s.accounts else s.ips }

    function Limit(c: Settings): nat { if ByAccount? then c.accountLimit else c.ipLimit }

    /** The key and the clock reading the limiter is asked with. */
    function Question(step: Step): Call
      requires step.Arrive?
    {
      if ByAccount? then Call(step.input.account, step.first) else Call(step.ip, step.second)
    }

    ghost function Asked(c: Settings, s: State, call: Call): (Bucket, Verdict) {
      Consumed(Bucket(s), call.key, Limit(c), c.requestWindow, call.now)
    }
  }

  /** An arrival that finds no run of its key in flight. */
  ghost predicate Fresh(s: State, step: Step) {
    step.Arrive? && step.input.Valid() && step.input.Key() !in s.inflight
  }

  /** The account limiter is asked first, the IP limiter only once that has accepted. */
  ghost predicate Consults(g: Guard, c: Settings, s: State, step: Step) {
    Fresh(s, step) && (g.ByIp? ==> ByAccount.Asked(c, s, ByAccount.Question(step)).1 == Accepted)
  }

  /** The step starts a process. */
  ghost predicate Starts(s: State, t: State, step: Step) {
    step.Arrive? && step.id !in s.processes && step.id in t.processes
  }

  ghost predicate StartsFor(g: Guard, key: string, s: State, t: State, step: Step) {
    Starts(s, t, step) && g.Question(step).key == key
  }

  /** A step asks a limiter at most once, at a time of its own, and starts a
      process only if the limiter accepted. */
  ghost predicate GuardMoves(g: Guard, c: Settings, s: State, t: State, step: Step) {
    && s.now <= t.now
    && (if Consults(g, c, s, step) then
          g.Bucket(t) == g.Asked(c, s, g.Question(step)).0 && s.now <= g.Question(step).now <= t.now
        else
          g.Bucket(t) == g.Bucket(s))
    && (Starts(s, t, step) ==> Consults(g, c, s, step) && g.Asked(c, s, g.Question(step)).1 == Accepted)
  }

  lemma GuardStep(g: Guard, c: Settings, s: State, step: Step)
    requires Enabled(s, step)
    ensures GuardMoves(g, c, s, Apply(c, s, step), step)
  {
    ClockAdvances(c, s, step);
    if step.Arrive? {
      ArrivalMoves(g, c, s, step);
    } else {
      OthersKeepBuckets(c, s, step);
      hide Apply;
    }
  }

  lemma ArrivalBuckets(c: Settings, s: State, step: Step)
    requires Enabled(s, step) && step.Arrive?
    ensures var t := Apply(c, s, step);
            var byAccount := ByAccount.Asked(c, s, ByAccount.Question(step));
            var byIp := ByIp.Asked(c, s, ByIp.Question(step));
            && t.now == step.second
            && t.accounts == (if Fresh(s, step) then byAccount.0 else s.accounts)
            && t.ips == (if Fresh(s, step) && byAccount.1 == Accepted then byIp.0 else s.ips)
            && (t.processes == s.processes || (Fresh(s, step) && byAccount.1 == byIp.1 == Accepted))
  {
    var (id, input, ip) := (step.id, step.input, step.ip);
    var (accounts, verdict) := Consumed(s.accounts, input.account, c.accountLimit, c.requestWindow, step.first);
    IpDecides(c, s.(accounts := accounts, now := step.second), id, input, ip);
    hide Consumed, AskedIp;
  }

  lemma ArrivalMoves(g: Guard, c: Settings, s: State, step: Step)
    requires Enabled(s, step) && step.Arrive?
    ensures GuardMoves(g, c, s, Apply(c, s, step), step)
  {
    ArrivalBuckets(c, s, step);
    hide Consumed, Apply;
  }

  lemma OthersKeepBuckets(c: Settings, s: State, step: Step)
    requires Enabled(s, step) && !step.Arrive?
    ensures Apply(c, s, step).accounts == s.accounts && Apply(c, s, step).ips == s.ips
  {
    if step.RecheckAnswered? {
      RecheckKeepsBuckets(c, s, step.id, step.reading, step.time);
    } else {
      hide Arrived, Rechecked, Consumed;
    }
  }

  lemma RecheckKeepsBuckets(c: Settings, s: State, id: Id, reading: Reading, time: int)
    requires id in s.processes
    ensures var t := Rechecked(c, s, id, reading, time);
            t.accounts == s.accounts && t.ips == s.ips && (s.now <= time ==> s.now <= t.now)
  {
    hide Consumed;
  }

  lemma ClockAdvances(c: Settings, s: State, step: Step)
    requires Enabled(s, step)
    ensures s.now <= Apply(c, s, step).now
  {
    if step.RecheckAnswered? {
      RecheckKeepsBuckets(c, s, step.id, step.reading, step.time);
    } else if !IsAnswer(step) {
      QuietStep(c, s, step);
    }
    hide Arrived, Rechecked, Consumed;
  }

  /** What the limiter was asked in the first n steps. */
  ghost function Questions(g: Guard, c: Settings, states: seq<State>, steps: seq<Step>, n: nat): seq<Call>
    requires n <= |steps| < |states|
  {
    if n == 0 then []
    else
      Questions(g, c, states, steps, n - 1) +
      if Consults(g, c, states[n - 1], steps[n - 1]) then [g.Question(steps[n - 1])] else []
  }

  /** When the limiter let a process of this key start, in the first n steps. */
  ghost function StartTimes(g: Guard, key: string, states: seq<State>, steps: seq<Step>, n: nat): seq<int>
    requires n <= |steps| < |states|
  {
    if n == 0 then []
    else
      StartTimes(g, key, states, steps, n - 1) +
      if StartsFor(g, key, states[n - 1], states[n], steps[n - 1]) then [g.Question(steps[n - 1]).now] else []
  }

  // -------------------------------------------------- one more question

  lemma {:induction false} PrefixAfter(calls: seq<Call>, call: Call, maximum: nat, window: nat, n: nat)
    requires n <= |calls|
    ensures After(calls + [call], maximum, window, n) == After(calls, maximum, window, n)
  {
    if n > 0 {
      hide Consumed;
      PrefixAfter(calls, call, maximum, window, n - 1);
    }
  }

  lemma PrefixAnswer(calls: seq<Call>, call: Call, maximum: nat, window: nat, n: nat)
    requires n < |calls|
    ensures Answer(calls + [call], maximum, window, n) == Answer(calls, maximum, window, n)
  {
    PrefixAfter(calls, call, maximum, window, n);
    hide Consumed, After;
  }

  lemma {:induction false} PrefixAccepted(calls: seq<Call>, call: Call, key: string, maximum: nat, window: nat, n: nat)
    requires n <= |calls|
    ensures AcceptedTimes(calls + [call], key, maximum, window, n) == AcceptedTimes(calls, key, maximum, window, n)
  {
    if n > 0 {
      var m := n - 1;
      assert n == m + 1 && (calls + [call])[m] == calls[m];
      hide Answer, AcceptedTimes;
      PrefixAccepted(calls, call, key, maximum, window, m);
      PrefixAnswer(calls, call, maximum, window, m);
      AcceptedNext(calls, key, maximum, window, m);
      AcceptedNext(calls + [call], key, maximum, window, m);
    } else {
      hide Answer;
    }
  }

  lemma AcceptedNext(calls: seq<Call>, key: string, maximum: nat, window: nat, n: nat)
    requires n < |calls|
    ensures AcceptedTimes(calls, key, maximum, window, n + 1) ==
            AcceptedTimes(calls, key, maximum, window, n) +
            if calls[n].key == key && Answer(calls, maximum, window, n) == Accepted then [calls[n].now] else []
  {
    hide Answer;
  }

  /** What a limiter that was asked these calls has become, and whom it let through. */
  ghost predicate Tracks(bucket: Bucket, calls: seq<Call>, maximum: nat, window: nat, now: int) {
    && Ordered(calls)
    && (forall i :: 0 <= i < |calls| ==> calls[i].now <= now)
    && bucket == After(calls, maximum, window, |calls|)
  }

  ghost predicate Covered(times: seq<int>, calls: seq<Call>, key: string, maximum: nat, window: nat) {
    forall a: int, b: int :: Within(times, a, b) <= Within(AcceptedTimes(calls, key, maximum, window, |calls|), a, b)
  }

  lemma AskOnce(bucket: Bucket, calls: seq<Call>, call: Call, maximum: nat, window: nat, now: int, later: int)
    requires Tracks(bucket, calls, maximum, window, now) && now <= call.now <= later
    ensures Tracks(Consumed(bucket, call.key, maximum, window, call.now).0, calls + [call], maximum, window, later)
  {
    hide Consumed;
    PrefixAfter(calls, call, maximum, window, |calls|);
  }

  lemma CoverOnce(times: seq<int>, bucket: Bucket, calls: seq<Call>, call: Call, key: string, maximum: nat, window: nat,
                  now: int, started: bool)
    requires Tracks(bucket, calls, maximum, window, now) && Covered(times, calls, key, maximum, window)
    requires started ==> Consumed(bucket, call.key, maximum, window, call.now).1 == Accepted
    ensures Covered(times + if started && call.key == key then [call.now] else [], calls + [call], key, maximum, window)
  {
    hide Consumed, Within, After;
    var n := |calls|;
    var accepted := AcceptedTimes(calls, key, maximum, window, n);
    PrefixAfter(calls, call, maximum, window, n);
    PrefixAccepted(calls, call, key, maximum, window, n);
    var longer := times + if started && call.key == key then [call.now] else [];
    assert accepted + [] == accepted && times + [] == times;
    forall a: int, b: int
      ensures Within(longer, a, b) <= Within(AcceptedTimes(calls + [call], key, maximum, window, n + 1), a, b)
    {
      WithinSnoc(times, call.now, a, b);
      WithinSnoc(accepted, call.now, a, b);
    }
  }

  // ------------------------------------------------------------- the run

  ghost predicate TrackedAt(g: Guard, c: Settings, states: seq<State>, steps: seq<Step>, n: nat, key: string)
    requires n <= |steps| < |states|
  {
    var calls := Questions(g, c, states, steps, n);
    && Tracks(g.Bucket(states[n]), calls, g.Limit(c), c.requestWindow, states[n].now)
    && Covered(StartTimes(g, key, states, steps, n), calls, key, g.Limit(c), c.requestWindow)
  }

  lemma StepIsTracked(g: Guard, c: Settings, states: seq<State>, steps: seq<Step>, n: nat, key: string)
    requires n < |steps| < |states| && TrackedAt(g, c, states, steps, n, key)
    requires GuardMoves(g, c, states[n], states[n + 1], steps[n])
    ensures TrackedAt(g, c, states, steps, n + 1, key)
  {
    var (s, t, step) := (states[n], states[n + 1], steps[n]);
    var calls := Questions(g, c, states, steps, n);
    var times := StartTimes(g, key, states, steps, n);
    hide Tracks, Covered, Consumed, Consults, Starts;
    assert times + [] == times && calls + [] == calls;
    if Consults(g, c, s, step) {
      var call := g.Question(step);
      AskOnce(g.Bucket(s), calls, call, g.Limit(c), c.requestWindow, s.now, t.now);
      CoverOnce(times, g.Bucket(s), calls, call, key, g.Limit(c), c.requestWindow, s.now, Starts(s, t, step));
    } else {
      TrackLater(g.Bucket(s), calls, g.Limit(c), c.requestWindow, s.now, t.now);
    }
  }

  lemma TrackLater(bucket: Bucket, calls: seq<Call>, maximum: nat, window: nat, now: int, later: int)
    requires Tracks(bucket, calls, maximum, window, now) && now <= later
    ensures Tracks(bucket, calls, maximum, window, later)
  {
  }

  lemma StartIsTracked(g: Guard, c: Settings, states: seq<State>, steps: seq<Step>, key: string)
    requires IsRun(c, states, steps)
    ensures TrackedAt(g, c, states, steps, 0, key)
  {
  }

  lemma {:induction false} RunIsTracked(g: Guard, c: Settings, states: seq<State>, steps: seq<Step>, n: nat,
                                        key: string)
    requires IsRun(c, states, steps) && n <= |steps|
    ensures TrackedAt(g, c, states, steps, n, key)
  {
    if n == 0 {
      StartIsTracked(g, c, states, steps, key);
    } else {
      var m := n - 1;
      assert Enabled(states[m], steps[m]) && states[m + 1] == Apply(c, states[m], steps[m]);
      hide *;
      RunIsTracked(g, c, states, steps, m, key);
      GuardStep(g, c, states[m], steps[m]);
      StepIsTracked(g, c, states, steps, m, key);
    }
  }

  /** The steps that started a process of this key between two instants. */
  ghost function StartsWithin(g: Guard, key: string, states: seq<State>, steps: seq<Step>, n: nat,
                              from: int, to: int): set<nat>
    requires n <= |steps| < |states|
  {
    set i: nat | i < n && StartsThen(g, key, states[i], states[i + 1], steps[i], from, to)
  }

  /** The step counts among the starts between two instants. */
  ghost predicate StartsThen(g: Guard, key: string, s: State, t: State, step: Step, from: int, to: int) {
    StartsFor(g, key, s, t, step) && from <= g.Question(step).now <= to
  }

  lemma TimesNext(g: Guard, key: string, states: seq<State>, steps: seq<Step>, n: nat, from: int, to: int)
    requires n < |steps| < |states|
    ensures Within(StartTimes(g, key, states, steps, n + 1), from, to) ==
            Within(StartTimes(g, key, states, steps, n), from, to) +
            if StartsThen(g, key, states[n], states[n + 1], steps[n], from, to) then 1 else 0
  {
    var times := StartTimes(g, key, states, steps, n);
    assert times + [] == times;
    hide Within, Starts;
    if StartsFor(g, key, states[n], states[n + 1], steps[n]) {
      WithinSnoc(times, g.Question(steps[n]).now, from, to);
    }
  }

  lemma StartsNext(g: Guard, key: string, states: seq<State>, steps: seq<Step>, n: nat, from: int, to: int)
    requires n < |steps| < |states|
    ensures |StartsWithin(g, key, states, steps, n + 1, from, to)| ==
            |StartsWithin(g, key, states, steps, n, from, to)| +
            if StartsThen(g, key, states[n], states[n + 1], steps[n], from, to) then 1 else 0
  {
    hide StartsThen;
    var (earlier, later) := (StartsWithin(g, key, states, steps, n, from, to),
                             StartsWithin(g, key, states, steps, n + 1, from, to));
    if StartsThen(g, key, states[n], states[n + 1], steps[n], from, to) {
      assert later == earlier + {n};
    } else {
      assert later == earlier;
    }
  }

  lemma {:induction false} StartsAreCounted(g: Guard, key: string, states: seq<State>, steps: seq<Step>, n: nat,
                                            from: int, to: int)
    requires n <= |steps| < |states|
    ensures Within(StartTimes(g, key, states, steps, n), from, to) ==
            |StartsWithin(g, key, states, steps, n, from, to)|
  {
    if n == 0 {
      assert StartsWithin(g, key, states, steps, n, from, to) == {};
    } else {
      var m := n - 1;
      assert n == m + 1;
      hide *;
      StartsAreCounted(g, key, states, steps, m, from, to);
      TimesNext(g, key, states, steps, m, from, to);
      StartsNext(g, key, states, steps, m, from, to);
    }
  }

  /** Starts in any span of the window's length. */
  ghost predicate AdmissionBounded(g: Guard, c: Settings, states: seq<State>, steps: seq<Step>, n: nat, key: string,
                                   from: int)
    requires n <= |steps| < |states|
  {
    && |StartsWithin(g, key, states, steps, n, from, from + c.requestWindow - 1)| < 2 * g.Limit(c)
    && |StartsWithin(g, key, states, steps, n, from, from + c.requestWindow)| <= 2 * g.Limit(c)
    && |StartsWithin(g, key, states, steps, n, from, from)| <= g.Limit(c)
  }

  lemma CoveredSpans(times: seq<int>, calls: seq<Call>, key: string, maximum: nat, window: nat, from: int)
    requires Ordered(calls) && maximum > 0 && window > 0 && Covered(times, calls, key, maximum, window)
    ensures Within(times, from, from + window - 1) < 2 * maximum
    ensures Within(times, from, from + window) <= 2 * maximum
    ensures Within(times, from, from) <= maximum
  {
    hide Within, AcceptedTimes;
    SpansOfRun(calls, key, maximum, window, from);
  }

  lemma TrackedIsBounded(g: Guard, c: Settings, states: seq<State>, steps: seq<Step>, n: nat, key: string, from: int)
    requires c.Positive() && n <= |steps| < |states| && TrackedAt(g, c, states, steps, n, key)
    ensures AdmissionBounded(g, c, states, steps, n, key, from)
  {
    hide Within, StartTimes, Questions, StartsWithin, Covered, After;
    var times := StartTimes(g, key, states, steps, n);
    CoveredSpans(times, Questions(g, c, states, steps, n), key, g.Limit(c), c.requestWindow, from);
    StartsAreCounted(g, key, states, steps, n, from, from + c.requestWindow - 1);
    StartsAreCounted(g, key, states, steps, n, from, from + c.requestWindow);
    StartsAreCounted(g, key, states, steps, n, from, from);
  }

  /** However requests interleave, and whatever was pruned or answered 503 on the
      way, fewer than twice the limit of processes are started for one account,
      or from one address, in any half-open span of the window's length, at most
      twice the limit in the closed one, and at most the limit at one instant. */
  lemma AdmittedSpans(g: Guard, c: Settings, states: seq<State>, steps: seq<Step>, n: nat, key: string, from: int)
    requires c.Positive() && IsRun(c, states, steps) && n <= |steps|
    ensures AdmissionBounded(g, c, states, steps, n, key, from)
  {
    RunIsTracked(g, c, states, steps, n, key);
    assert |steps| < |states|;
    hide *;
    TrackedIsBounded(g, c, states, steps, n, key, from);
  }

  // --------------------------------------------------- what an arrival gets

  /** A limiter's refusal as the status it is answered with. */
  ghost predicate Refuses(t: State, id: Id, input: Input, verdict: Verdict) {
    && (verdict == TooMany ==> t.handlers[id := Answered(input, 429, NoProcess)] == t.handlers)
    && (verdict == Exhausted ==> t.handlers[id := Answered(input, 503, NoProcess)] == t.handlers)
  }

  /** An arrival joins the one request in flight that shares its account, epoch
      and nullifier. If there is none, the account limiter is asked, then the IP
      limiter, and a refusal is 429 for the key or 503 for want of capacity. */
  lemma ArrivalIs(c: Settings, s: State, step: Step)
    requires Enabled(s, step) && step.Arrive? && FlightInvariant(s)
    ensures var (t, id, input) := (Apply(c, s, step), step.id, step.input);
            && (forall owner :: Pending(s, owner, input) ==>
                  t == s.(handlers := s.handlers[id := Joiner(input, owner)], now := step.second))
            && ((forall owner :: !Pending(s, owner, input)) ==> IsAdmitted(c, s, t, step))
  {
    var (t, id, input) := (Apply(c, s, step), step.id, step.input);
    forall owner | Pending(s, owner, input)
      ensures input.Key() in s.inflight && s.inflight[input.Key()] == owner
    {
      assert HandlerOk(s, owner);
    }
    if input.Key() in s.inflight {
      assert InflightOk(s, input.Key());
      assert Pending(s, s.inflight[input.Key()], input);
      hide FlightInvariant, Arrived, IsAdmitted;
      JoinIs(c, s, step);
    } else {
      assert ProcessOk(s, id);
      hide FlightInvariant, Apply;
      AdmissionIs(c, s, step);
    }
  }

  /** Both limiters are asked in turn; one refusal answers, two acceptances start a process. */
  ghost predicate IsAdmitted(c: Settings, s: State, t: State, step: Step)
    requires step.Arrive?
  {
    var (id, input) := (step.id, step.input);
    var byAccount := Consumed(s.accounts, input.account, c.accountLimit, c.requestWindow, step.first).1;
    var byIp := Consumed(s.ips, step.ip, c.ipLimit, c.requestWindow, step.second).1;
    && Refuses(t, id, input, byAccount)
    && (byAccount == Accepted ==> Refuses(t, id, input, byIp))
    && (byAccount == Accepted && byIp == Accepted ==>
          && t.processes == s.processes[id := Process(input, AwaitStatus)]
          && t.handlers == s.handlers[id := Owner(input)])
    && (byAccount != Accepted || byIp != Accepted ==> t.processes == s.processes)
  }

  lemma JoinIs(c: Settings, s: State, step: Step)
    requires Enabled(s, step) && step.Arrive? && step.input.Key() in s.inflight
    ensures Apply(c, s, step) ==
            s.(handlers := s.handlers[step.id := Joiner(step.input, s.inflight[step.input.Key()])], now := step.second)
  {
    hide Consumed;
  }

  lemma AdmissionIs(c: Settings, s: State, step: Step)
    requires Enabled(s, step) && step.Arrive? && step.input.Key() !in s.inflight
    ensures IsAdmitted(c, s, Apply(c, s, step), step)
  {
    hide Consumed;
  }

  /** A request that has started a process and not yet answered, with the same account, epoch and nullifier. */
  ghost predicate Pending(s: State, owner: Id, input: Input) {
    owner in s.handlers && s.handlers[owner].Owner? && Shares(s.handlers[owner].input, input)
  }
}
