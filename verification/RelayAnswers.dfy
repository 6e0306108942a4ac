/** What the relay's answers and its submits mean, read off the log of what the
    chain was asked: which status is answered after which exchange, and what
    stands in the log before a submit. */
module RelayAnswers {
  import opened Basics
  import opened RateLimiter
  import opened EligibilityRelay
  import opened RelayRuns

  // ------------------------------------------------------- what a status tells

  /** The whole exchange with the chain behind each status. */
  ghost predicate Tells(status: nat, input: Input, asked: seq<Event>) {
    var (account, proof, pub) := (input.account, input.proof, input.pub);
    var (free, accepted) := (StatusRead(account, NotGranted), GateAsked(account, pub, Accepts));
    var (proved, submit) := (Simulated(account, proof, pub, true), SubmitIssued(account, proof, pub));
    || (status == 200 && (|| asked == [StatusRead(account, Granted)]
                          || asked == [free, accepted, proved, StatusRead(account, Granted)]))
    || (status == 202 && exists hash :: asked == [free, accepted, proved, free, submit, SubmitAnswered(Sent(hash))])
    || (status == 409 && asked == [free, GateAsked(account, pub, Refuses)])
    || (status == 422 && asked == [free, accepted, Simulated(account, proof, pub, false)])
    || (status == 429 && asked == [free, accepted, proved, free])
    || (status == 503 && (|| asked == [StatusRead(account, Rejected)]
                          || asked == [free, GateAsked(account, pub, GateRejected)]
                          || asked == [free, accepted, proved, free, submit, SubmitAnswered(SubmitRejected)]))
    || (status == 500 && (|| asked == [StatusRead(account, Unconvertible)]
                          || asked == [free, GateAsked(account, pub, RefusesUnprintably)]
                          || asked == [free, accepted, proved, StatusRead(account, Unconvertible)]
                          || asked == [free, accepted, proved, StatusRead(account, Rejected)]
                          || asked == [free, accepted, proved, free, submit, SubmitAnswered(SentUnprintably)]))
  }

  lemma LeftAtIs(input: Input, event: Event)
    ensures var (account, proof, pub) := (input.account, input.proof, input.pub);
            var (free, accepted) := (StatusRead(account, NotGranted), GateAsked(account, pub, Accepts));
            var (proved, submit) := (Simulated(account, proof, pub, true), SubmitIssued(account, proof, pub));
            && LeftAt(input, 0, event) == [event]
            && LeftAt(input, 1, event) == [free, event]
            && LeftAt(input, 2, event) == [free, accepted, event]
            && LeftAt(input, 3, event) == [free, accepted, proved, event]
            && LeftAt(input, 5, event) == [free, accepted, proved, free, submit, event]
  {
  }

  lemma ExplainedTells(outcome: Outcome, input: Input, asked: seq<Event>)
    requires Explained(outcome, input, asked)
    ensures Tells(outcome.Status(), input, asked)
    ensures outcome.Submitted? ==> |asked| == 6 && asked[5] == SubmitAnswered(Sent(outcome.txHash))
  {
    forall event
      ensures |LeftAt(input, 5, event)| == 6 && LeftAt(input, 5, event)[5] == event
    {
    }
    LeftAtIs(input, asked[|asked| - 1]);
    hide LeftAt, Script;
  }

  /** Every request that waited for a run shares account, epoch and nullifier
      with it, and its status tells the whole exchange the run had with the
      chain; a run settled to a hash was sent that very hash. */
  lemma AnswersTell(c: Settings, states: seq<State>, steps: seq<Step>, n: nat, id: Id)
    requires c.Positive() && IsRun(c, states, steps) && n <= |steps|
    requires id in states[n].handlers && states[n].handlers[id].Answered? && states[n].handlers[id].source.From?
    ensures var (s, h, owner) := (states[n], states[n].handlers[id], states[n].handlers[id].source.owner);
            && owner in s.processes && s.processes[owner].input.Valid() && h.input.Valid()
            && h.input.account == s.processes[owner].input.account
            && h.input.pub[3] == s.processes[owner].input.pub[3] && h.input.pub[0] == s.processes[owner].input.pub[0]
            && Tells(h.status, s.processes[owner].input, Trace(s.log, owner))
            && s.processes[owner].pc.Settled?
            && (s.processes[owner].pc.outcome.Submitted? ==>
                  var asked := Trace(s.log, owner);
                  |asked| == 6 && asked[5] == SubmitAnswered(Sent(s.processes[owner].pc.outcome.txHash)))
  {
    RunHolds(c, states, steps, n);
    var s := states[n];
    assert HandlerOk(s, id);
    var owner := s.handlers[id].source.owner;
    assert TraceOk(s, owner);
    ExplainedTells(s.processes[owner].pc.outcome, s.processes[owner].input, Trace(s.log, owner));
  }

  // ------------------------------------------------------ submits in the log

  /** Where a process's trace stands in the log. */
  ghost predicate StandsAt(log: seq<Logged>, id: Id, at: seq<nat>) {
    && |at| == |Trace(log, id)|
    && (forall j :: 0 <= j < |at| ==>
          at[j] < |log| && log[at[j]].process == id && log[at[j]].event == Trace(log, id)[j])
    && (forall j, k :: 0 <= j < k < |at| ==> at[j] < at[k])
    && (forall i :: 0 <= i < |log| && log[i].process == id ==> i in at)
  }

  /** Another process's entry moves nothing. */
  lemma PlacesKept(log: seq<Logged>, last: Logged, id: Id, at: seq<nat>)
    requires StandsAt(log, id, at) && last.process != id
    ensures StandsAt(log + [last], id, at)
  {
    TraceSnoc(log, last, id);
    hide Trace;
  }

  lemma PlacesGrow(log: seq<Logged>, last: Logged, id: Id, init: seq<nat>)
    requires StandsAt(log, id, init) && last.process == id
    ensures StandsAt(log + [last], id, init + [|log|])
  {
    TraceSnoc(log, last, id);
    hide Trace;
    var at := init + [|log|];
    forall i | 0 <= i < |log + [last]| && (log + [last])[i].process == id
      ensures i in at
    {
      if i < |log| {
        assert i in init;
      } else {
        assert at[|at| - 1] == |log|;
      }
    }
  }

  lemma {:induction false} Places(log: seq<Logged>, id: Id) returns (at: seq<nat>)
    ensures StandsAt(log, id, at)
  {
    if log == [] {
      at := [];
    } else {
      var n := |log| - 1;
      var init := Places(log[..n], id);
      assert log == log[..n] + [log[n]];
      hide StandsAt;
      if log[n].process == id {
        PlacesGrow(log[..n], log[n], id, init);
        at := init + [n];
      } else {
        PlacesKept(log[..n], log[n], id, init);
        at := init;
      }
    }
  }

  /** The i-th entry of the log is this event of this process. */
  ghost predicate Stands(log: seq<Logged>, i: nat, id: Id, event: Event) {
    i < |log| && log[i].process == id && log[i].event == event
  }

  /** The k-th entry of the log is a submit that was earned: its process asked
      and was told before, in this order, that no grant stands, that the gate
      accepts, that the proof simulates and that still no grant stands, all for
      the account, proof and public inputs it submits; and it is the process's
      only submit. */
  ghost predicate Earned(s: State, k: nat)
    requires k < |s.log|
  {
    var id := s.log[k].process;
    && id in s.processes
    && var Input(account, proof, pub) := s.processes[id].input;
    && s.log[k].event == SubmitIssued(account, proof, pub)
    && (exists a: nat, b: nat, d: nat, e: nat ::
          && a < b < d < e < k
          && Stands(s.log, a, id, StatusRead(account, NotGranted))
          && Stands(s.log, b, id, GateAsked(account, pub, Accepts))
          && Stands(s.log, d, id, Simulated(account, proof, pub, true))
          && Stands(s.log, e, id, StatusRead(account, NotGranted)))
    && forall j :: 0 <= j < |s.log| && j != k && s.log[j].process == id ==> !s.log[j].event.SubmitIssued?
  }

  lemma EarnedAt(s: State, id: Id, at: seq<nat>, k: nat)
    requires k < |s.log| && s.log[k].event.SubmitIssued? && s.log[k].process == id
    requires StandsAt(s.log, id, at) && id in s.processes && SubmittedOnce(s.processes[id].input, Trace(s.log, id))
    ensures Earned(s, k)
  {
    hide Trace, SubmittedOnce;
    var (input, trace) := (s.processes[id].input, Trace(s.log, id));
    var j :| 0 <= j < |at| && at[j] == k;
    OnlySubmit(input, trace, j);
    assert at[0] < at[1] < at[2] < at[3] < at[4] == k;
    assert forall i :: 0 <= i < 5 ==> Stands(s.log, at[i], id, trace[..5][i]);
    assert Stands(s.log, at[0], id, Script(input)[0]) && Stands(s.log, at[1], id, Script(input)[1]);
    assert Stands(s.log, at[2], id, Script(input)[2]) && Stands(s.log, at[3], id, Script(input)[3]);
  }

  lemma SubmitsAreEarned(c: Settings, states: seq<State>, steps: seq<Step>, n: nat, k: nat)
    requires c.Positive() && IsRun(c, states, steps) && n <= |steps|
    requires k < |states[n].log| && states[n].log[k].event.SubmitIssued?
    ensures Earned(states[n], k)
  {
    var s := states[n];
    var id := s.log[k].process;
    RunHolds(c, states, steps, n);
    AllVetted(s, id);
    var at := Places(s.log, id);
    hide RunInvariant, IsRun, Trace, SubmittedOnce, Earned;
    var j :| 0 <= j < |at| && at[j] == k;
    assert Trace(s.log, id)[j].SubmitIssued?;
    EarnedAt(s, id, at, k);
  }

  lemma OnlySubmit(input: Input, trace: seq<Event>, j: nat)
    requires SubmittedOnce(input, trace) && j < |trace| && trace[j].SubmitIssued?
    ensures j == 4 && trace[..5] == Script(input)
    ensures forall i :: 0 <= i < |trace| && i != 4 ==> !trace[i].SubmitIssued?
  {
  }

  // --------------------------------------------------- every answer can come

  /** Wherever a process is suspended the chain may answer or throw anything, and
      any request may arrive next to it. */
  lemma NothingIsExcluded(s: State, id: Id)
    ensures Suspended(s, id, AwaitStatus) ==> forall reading :: Enabled(s, StatusAnswered(id, reading))
    ensures Suspended(s, id, AwaitGate) ==> forall answer :: Enabled(s, GateAnswered(id, answer))
    ensures Suspended(s, id, AwaitSimulation) ==> forall accepted :: Enabled(s, SimulationAnswered(id, accepted))
    ensures Suspended(s, id, AwaitRecheck) ==>
              forall reading, time :: s.now <= time ==> Enabled(s, RecheckAnswered(id, reading, time))
    ensures Suspended(s, id, AwaitSubmission) ==> forall sent :: Enabled(s, SubmissionAnswered(id, sent))
    ensures id !in s.handlers ==>
              forall input: Input, ip, first, second ::
                |input.proof| == 24 && |input.pub| == 7 && s.now <= first <= second ==>
                  Enabled(s, Arrive(id, input, ip, first, second))
  {
  }

  /** On its way to a submit, at instant 0: the first request, with its one process. */
  ghost predicate OnItsWay(s: State, input: Input, pc: Pc) {
    && s.now == 0 && s.sponsor == map[]
    && 0 in s.processes && s.processes[0] == Process(input, pc)
    && 0 in s.handlers && s.handlers[0] == Owner(input)
  }

  lemma FirstArrives(c: Settings, s: State, input: Input, ip: string)
    requires c.Positive() && input.Valid() && Initial(s) && s.now == 0
    ensures Enabled(s, Arrive(0, input, ip, 0, 0))
    ensures OnItsWay(Apply(c, s, Arrive(0, input, ip, 0, 0)), input, AwaitStatus)
  {
  }

  lemma MovesOn(c: Settings, s: State, input: Input, pc: Pc, step: Step)
    requires OnItsWay(s, input, pc)
    requires || (step == StatusAnswered(0, NotGranted) && pc == AwaitStatus)
             || (step == GateAnswered(0, Accepts) && pc == AwaitGate)
             || (step == SimulationAnswered(0, true) && pc == AwaitSimulation)
    ensures Enabled(s, step)
    ensures OnItsWay(Apply(c, s, step), input, if pc == AwaitStatus then AwaitGate
                                               else if pc == AwaitGate then AwaitSimulation else AwaitRecheck)
  {
    hide Arrived, Rechecked;
  }

  lemma Submits(c: Settings, s: State, input: Input, hash: string)
    requires c.Positive() && input.Valid() && OnItsWay(s, input, AwaitRecheck)
    ensures Enabled(s, RecheckAnswered(0, NotGranted, 0))
    ensures var t := Apply(c, s, RecheckAnswered(0, NotGranted, 0));
            && Enabled(t, SubmissionAnswered(0, Sent(hash)))
            && var u := Apply(c, t, SubmissionAnswered(0, Sent(hash)));
            && Enabled(u, OwnerResumes(0))
            && 0 in Apply(c, u, OwnerResumes(0)).handlers
            && Apply(c, u, OwnerResumes(0)).handlers[0] == Answered(input, 202, From(0))
  {
    hide Arrived;
  }

  /** The last state of a run. */
  ghost function Last(states: seq<State>): State
    requires states != []
  {
    states[|states| - 1]
  }

  lemma OneMore(c: Settings, states: seq<State>, steps: seq<Step>, step: Step)
    returns (moreStates: seq<State>, moreSteps: seq<Step>)
    requires IsRun(c, states, steps) && Enabled(Last(states), step)
    ensures IsRun(c, moreStates, moreSteps) && moreStates != [] && Last(moreStates) == Apply(c, Last(states), step)
  {
    hide Apply, Enabled, Initial;
    moreStates := states + [Apply(c, Last(states), step)];
    moreSteps := steps + [step];
  }

  /** Under every setting some run submits for any request, and answers 202 with any hash. */
  lemma SomeRunSubmits(c: Settings, input: Input, ip: string, hash: string)
    returns (states: seq<State>, steps: seq<Step>)
    requires c.Positive() && input.Valid()
    ensures IsRun(c, states, steps) && |states| == |steps| + 1
    ensures 0 in states[|steps|].handlers && states[|steps|].handlers[0] == Answered(input, 202, From(0))
  {
    var start := State(0, map[], map[], map[], map[], map[], map[], []);
    states, steps := [start], [];
    assert IsRun(c, states, steps) && Last(states) == start && Initial(start);
    FirstArrives(c, start, input, ip);
    hide IsRun, Apply, Enabled, Last, OnItsWay;
    states, steps := OneMore(c, states, steps, Arrive(0, input, ip, 0, 0));
    MovesOn(c, Last(states), input, AwaitStatus, StatusAnswered(0, NotGranted));
    states, steps := OneMore(c, states, steps, StatusAnswered(0, NotGranted));
    MovesOn(c, Last(states), input, AwaitGate, GateAnswered(0, Accepts));
    states, steps := OneMore(c, states, steps, GateAnswered(0, Accepts));
    MovesOn(c, Last(states), input, AwaitSimulation, SimulationAnswered(0, true));
    states, steps := OneMore(c, states, steps, SimulationAnswered(0, true));
    Submits(c, Last(states), input, hash);
    states, steps := OneMore(c, states, steps, RecheckAnswered(0, NotGranted, 0));
    states, steps := OneMore(c, states, steps, SubmissionAnswered(0, Sent(hash)));
    states, steps := OneMore(c, states, steps, OwnerResumes(0));
    EndsWithLast(c, states, steps);
  }

  lemma EndsWithLast(c: Settings, states: seq<State>, steps: seq<Step>)
    requires IsRun(c, states, steps) && states != []
    ensures |states| == |steps| + 1 && states[|steps|] == Last(states)
  {
  }
}
