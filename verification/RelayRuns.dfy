/** What holds in every run of the relay: single flight, answers that come from
    the run a request waited for, vetted submits, and bounded sponsorship. */
module RelayRuns {
  import opened Basics
  import opened RateLimiter
  import opened EligibilityRelay

  /** An interleaving of any number of requests with any answers of the chain. */
  ghost predicate IsRun(c: Settings, states: seq<State>, steps: seq<Step>) {
    && |states| == |steps| + 1
    && Initial(states[0])
    && forall i :: 0 <= i < |steps| ==> Enabled(states[i], steps[i]) && states[i + 1] == Apply(c, states[i], steps[i])
  }

  /** What every step keeps. */
  ghost predicate RunInvariant(c: Settings, s: State)
    requires c.Positive()
  {
    FlightInvariant(s) && TraceInvariant(s) && SponsorInvariant(c, s)
  }

  lemma StartHolds(c: Settings, s: State)
    requires c.Positive() && Initial(s)
    ensures RunInvariant(c, s)
  {
    NoCallsSpans(GLOBAL, c.sponsorLimit, c.sponsorWindow, s.now);
  }

  lemma StepHolds(c: Settings, s: State, step: Step)
    requires c.Positive() && RunInvariant(c, s) && Enabled(s, step)
    ensures RunInvariant(c, Apply(c, s, step))
  {
    assert OneSponsorKey(s);
    hide FlightInvariant, TraceInvariant, SponsorInvariant, OneSponsorKey, Apply;
    FlightKept(c, s, step);
    TraceKept(c, s, step);
    SponsorKept(c, s, step);
  }

  /** It holds in every state of every run. */
  lemma {:induction false} RunHolds(c: Settings, states: seq<State>, steps: seq<Step>, n: nat)
    requires c.Positive() && IsRun(c, states, steps) && n <= |steps|
    ensures RunInvariant(c, states[n])
  {
    hide RunInvariant;
    if n == 0 {
      StartHolds(c, states[0]);
    } else {
      RunHolds(c, states, steps, n - 1);
      assert Enabled(states[n - 1], steps[n - 1]) && states[n - 1 + 1] == Apply(c, states[n - 1], steps[n - 1]);
      hide *;
      StepHolds(c, states[n - 1], steps[n - 1]);
    }
  }

  /** Two unsettled processes of one account, epoch and nullifier. */
  ghost predicate SameFlight(s: State, p: Id, q: Id) {
    && p in s.processes && q in s.processes && Shares(s.processes[p].input, s.processes[q].input)
    && !s.processes[p].pc.Settled? && !s.processes[q].pc.Settled?
  }

  lemma OneFlight(s: State, p: Id, q: Id)
    requires FlightInvariant(s) && SameFlight(s, p, q)
    ensures p == q
  {
    assert ProcessOk(s, p) && ProcessOk(s, q) && HandlerOk(s, p) && HandlerOk(s, q);
  }

  /** At most one unsettled process per account, epoch and nullifier. */
  lemma SingleFlight(c: Settings, states: seq<State>, steps: seq<Step>, n: nat, p: Id, q: Id)
    requires c.Positive() && IsRun(c, states, steps) && n <= |steps| && SameFlight(states[n], p, q)
    ensures p == q
  {
    RunHolds(c, states, steps, n);
    OneFlight(states[n], p, q);
  }

  /** A request that waited for a run answered what a run of its own key
      settled to, whether it started that run or joined it. */
  lemma AnsweredByItsRun(c: Settings, states: seq<State>, steps: seq<Step>, n: nat, id: Id)
    requires c.Positive() && IsRun(c, states, steps) && n <= |steps|
    requires id in states[n].handlers && states[n].handlers[id].Answered? && states[n].handlers[id].source.From?
    ensures var (s, h) := (states[n], states[n].handlers[id]);
            && SameRun(s, h.input, h.source.owner)
            && s.processes[h.source.owner].pc.Settled?
            && h.status == s.processes[h.source.owner].pc.outcome.Status()
  {
    RunHolds(c, states, steps, n);
    assert HandlerOk(states[n], id);
  }

  ghost predicate AllAnswered(s: State) { forall id :: id in s.handlers ==> s.handlers[id].Answered? }

  lemma NothingInFlight(s: State)
    requires FlightInvariant(s) && AllAnswered(s)
    ensures s.inflight == map[]
  {
    forall key
      ensures key !in s.inflight
    {
      assert InflightOk(s, key);
    }
  }

  /** The entry an owner deletes is its own, and with every request answered nothing is left in flight. */
  lemma InflightIsCleared(c: Settings, states: seq<State>, steps: seq<Step>, n: nat)
    requires c.Positive() && IsRun(c, states, steps) && n <= |steps|
    ensures n < |steps| && steps[n].OwnerResumes? ==>
              var (s, id) := (states[n], steps[n].id);
              var key := s.handlers[id].input.Key();
              key in s.inflight && s.inflight[key] == id && states[n + 1].inflight == s.inflight - {key}
    ensures AllAnswered(states[n]) ==> states[n].inflight == map[]
  {
    RunHolds(c, states, steps, n);
    if n < |steps| && steps[n].OwnerResumes? {
      assert HandlerOk(states[n], steps[n].id);
    }
    if AllAnswered(states[n]) {
      NothingInFlight(states[n]);
    }
  }

  /** The five calls that lead to a submit, and nothing or its answer after them. */
  ghost predicate SubmittedOnce(input: Input, trace: seq<Event>) {
    || trace == Script(input)
    || exists sent :: trace == LeftAt(input, 5, SubmitAnswered(sent))
  }

  lemma LeftAtSubmits(input: Input, n: nat, event: Event)
    requires n <= 5 && !event.SubmitIssued?
    ensures n < 5 ==> NoSubmit(LeftAt(input, n, event))
    ensures n == 5 ==> LeftAt(input, n, event)[..5] == Script(input)
  {
  }

  lemma ExplainedSubmits(outcome: Outcome, input: Input, trace: seq<Event>)
    requires Explained(outcome, input, trace)
    ensures NoSubmit(trace) || SubmittedOnce(input, trace)
  {
    var n := |trace| - 1;
    assert 0 <= n <= 5 && trace == LeftAt(input, n, trace[n]) by {
      hide Script;
      assert forall k: nat, e :: k <= 5 ==> |LeftAt(input, k, e)| == k + 1 && LeftAt(input, k, e)[k] == e;
    }
    LeftAtSubmits(input, n, trace[n]);
  }

  /** What a process asked, as far as it has got, and what it settled to. */
  ghost predicate Vetted(s: State, id: Id) {
    var trace := Trace(s.log, id);
    && (NoSubmit(trace) || (id in s.processes && SubmittedOnce(s.processes[id].input, trace)))
    && (Suspended(s, id, AwaitSubmission) ==> trace == Script(s.processes[id].input))
    && (id in s.processes && s.processes[id].pc.Settled? ==>
          Explained(s.processes[id].pc.outcome, s.processes[id].input, trace))
  }

  lemma AllVetted(s: State, id: Id)
    requires TraceInvariant(s)
    ensures Vetted(s, id)
  {
    assert TraceOk(s, id);
    if id in s.processes {
      var (input, pc) := (s.processes[id].input, s.processes[id].pc);
      if pc.Settled? {
        ExplainedSubmits(pc.outcome, input, Trace(s.log, id));
      } else if pc == AwaitSubmission {
        assert Script(input)[..5] == Script(input);
      }
    }
  }

  /** A process that submits did so once, after the whole script for its own
      account, proof and pub; and each outcome means what the chain answered. */
  lemma SubmitIsVetted(c: Settings, states: seq<State>, steps: seq<Step>, n: nat, id: Id)
    requires c.Positive() && IsRun(c, states, steps) && n <= |steps|
    ensures Vetted(states[n], id)
  {
    RunHolds(c, states, steps, n);
    AllVetted(states[n], id);
  }

  /** The submits of a log between two instants. */
  ghost function SubmitsWithin(log: seq<Logged>, from: int, to: int): set<nat> {
    set k: nat | k < |log| && log[k].event.SubmitIssued? && from <= log[k].time <= to
  }

  lemma SubmitsNext(log: seq<Logged>, last: Logged, from: int, to: int)
    ensures |SubmitsWithin(log + [last], from, to)| ==
            |SubmitsWithin(log, from, to)| + if last.event.SubmitIssued? && from <= last.time <= to then 1 else 0
  {
    var (earlier, later) := (SubmitsWithin(log, from, to), SubmitsWithin(log + [last], from, to));
    if last.event.SubmitIssued? && from <= last.time <= to {
      assert later == earlier + {|log|};
    } else {
      assert later == earlier;
    }
  }

  lemma {:induction false} SubmitsAreCounted(log: seq<Logged>, from: int, to: int)
    ensures Within(SubmitTimes(log), from, to) == |SubmitsWithin(log, from, to)|
  {
    if log == [] {
      assert SubmitsWithin(log, from, to) == {};
    } else {
      var (init, last) := (log[..|log| - 1], log[|log| - 1]);
      assert log == init + [last];
      SubmitsAreCounted(init, from, to);
      SubmitTimesSnoc(init, last);
      hide Within, SubmitTimes, SubmitsWithin;
      SubmitsNext(init, last, from, to);
      WithinSnoc(SubmitTimes(init), last.time, from, to);
      assert SubmitTimes(init) + [] == SubmitTimes(init);
    }
  }

  /** The submits the sponsor has paid for in any span of the window's length. */
  ghost predicate SponsorBounded(c: Settings, log: seq<Logged>, from: int) {
    && |SubmitsWithin(log, from, from + c.sponsorWindow - 1)| < 2 * c.sponsorLimit
    && |SubmitsWithin(log, from, from + c.sponsorWindow)| <= 2 * c.sponsorLimit
    && |SubmitsWithin(log, from, from)| <= c.sponsorLimit
  }

  lemma SponsorIsBounded(c: Settings, s: State, from: int)
    requires c.Positive() && SponsorInvariant(c, s)
    ensures SponsorBounded(c, s.log, from)
  {
    hide Within, SubmitsWithin, SubmitTimes;
    SubmitsAreCounted(s.log, from, from + c.sponsorWindow - 1);
    SubmitsAreCounted(s.log, from, from + c.sponsorWindow);
    SubmitsAreCounted(s.log, from, from);
    assert SpansBounded(SubmitTimes(s.log), c.sponsorLimit, c.sponsorWindow);
    assert HalfOpen(SubmitTimes(s.log), from, c.sponsorWindow) < 2 * c.sponsorLimit;
    assert Closed(SubmitTimes(s.log), from, c.sponsorWindow) <= 2 * c.sponsorLimit;
  }

  /** However requests interleave, the sponsor pays for fewer than twice its
      limit in any half-open span of the window's length, at most twice in the
      closed one, at most the limit at one instant, and at most the limit since
      the current window opened. */
  lemma SponsoredSpans(c: Settings, states: seq<State>, steps: seq<Step>, n: nat, from: int)
    requires c.Positive() && IsRun(c, states, steps) && n <= |steps|
    ensures SponsorBounded(c, states[n].log, from)
    ensures GLOBAL in states[n].sponsor ==>
              var since := states[n].sponsor[GLOBAL].until - c.sponsorWindow;
              |SubmitsWithin(states[n].log, since, states[n].now)| <= c.sponsorLimit
  {
    RunHolds(c, states, steps, n);
    hide IsRun, Within, SubmitsWithin, SubmitTimes;
    var s := states[n];
    SponsorIsBounded(c, s, from);
    if GLOBAL in s.sponsor {
      SubmitsAreCounted(s.log, s.sponsor[GLOBAL].until - c.sponsorWindow, s.now);
    }
  }
}
