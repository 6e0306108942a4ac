/** The relay as the object that runs between awaits: its maps are updated in
    place, every synchronous run is proved to be one step of the system, and so
    the object keeps what every step keeps. */
module RelayServer {
  import opened RateLimiter
  import opened EligibilityRelay
  import opened RelayRuns

  class Relay {
    const settings: Settings
    const accountRequests: Limiter
    const ipRequests: Limiter
    const sponsorRequests: Limiter
    var inflight: map<FlightKey, Id>
    // the suspended async frames, and what settled promises hold
    var processes: map<Id, Process>
    var handlers: map<Id, Handler>
    ghost var clock: int
    ghost var log: seq<Logged>

    /** The three limiters are apart, and what every step keeps holds now: one
        run a key in flight, submits only at the end of the script, and every
        submit counted by the sponsor limiter. */
    ghost predicate Valid()
      reads this, accountRequests, ipRequests, sponsorRequests
    {
      && accountRequests != ipRequests && ipRequests != sponsorRequests && sponsorRequests != accountRequests
      && settings.Positive() && RunInvariant(settings, Now())
    }

    ghost function Now(): State
      reads this, accountRequests, ipRequests, sponsorRequests
    {
      State(clock, accountRequests.bucket, ipRequests.bucket, sponsorRequests.bucket,
            inflight, processes, handlers, log)
    }

    constructor (settings: Settings)
      requires settings.Positive()
      ensures Valid() && Initial(Now()) && this.settings == settings
    {
      this.settings := settings;
      accountRequests := new Limiter();
      ipRequests := new Limiter();
      sponsorRequests := new Limiter();
      inflight, processes, handlers, log := map[], map[], map[], [];
      new;
      StartHolds(settings, Now());
    }

    /** What a relay guarantees between any two awaits: one run a key, a submit
        only after the whole script, sponsored submits within the limit, and
        nothing in flight once every request is answered. */
    lemma Guarantees(p: Id, q: Id, from: int)
      requires Valid()
      ensures SameFlight(Now(), p, q) ==> p == q
      ensures Vetted(Now(), p)
      ensures SponsorBounded(settings, log, from)
      ensures AllAnswered(Now()) ==> inflight == map[]
    {
      if SameFlight(Now(), p, q) {
        OneFlight(Now(), p, q);
      }
      AllVetted(Now(), p);
      SponsorIsBounded(settings, Now(), from);
      if AllAnswered(Now()) {
        NothingInFlight(Now());
      }
    }

    /** The handler up to its first await. */
    method Handle(id: Id, input: Input, ip: string, first: int, second: int)
      requires Valid() && Enabled(Now(), Arrive(id, input, ip, first, second))
      modifies this, accountRequests, ipRequests
      ensures Valid() && Now() == Apply(settings, old(Now()), Arrive(id, input, ip, first, second))
    {
      StepHolds(settings, Now(), Arrive(id, input, ip, first, second));
      hide RunInvariant, Consumed, AskedIp;
      clock := second;
      var key := input.Key();
      if key in inflight {
        handlers := handlers[id := Joiner(input, inflight[key])];
        return;
      }
      var byAccount := accountRequests.Consume(input.account, settings.accountLimit, settings.requestWindow, first);
      if byAccount != Accepted {
        handlers := handlers[id := Answered(input, Refusal(byAccount), NoProcess)];
        return;
      }
      AskIp(id, input, ip, second);
    }

    /** The IP limiter, and the process it lets start. */
    method AskIp(id: Id, input: Input, ip: string, now: int)
      requires input.Valid() && now == clock && accountRequests != ipRequests && ipRequests != sponsorRequests
      modifies this, ipRequests
      ensures Now() == AskedIp(settings, old(Now()), id, input, ip)
    {
      hide Consumed;
      var byIp := ipRequests.Consume(ip, settings.ipLimit, settings.requestWindow, now);
      if byIp != Accepted {
        handlers := handlers[id := Answered(input, Refusal(byIp), NoProcess)];
        return;
      }
      processes := processes[id := Process(input, AwaitStatus)];
      inflight := inflight[input.Key() := id];
      handlers := handlers[id := Owner(input)];
    }

    method Move(id: Id, pc: Pc, ghost event: Event)
      requires id in processes
      modifies this
      ensures Now() == Moved(old(Now()), id, pc, event)
    {
      processes := processes[id := processes[id].(pc := pc)];
      log := log + [Logged(id, clock, event)];
    }

    method OnStatus(id: Id, reading: Reading)
      requires Valid() && Enabled(Now(), StatusAnswered(id, reading))
      modifies this
      ensures Valid() && Now() == Apply(settings, old(Now()), StatusAnswered(id, reading))
    {
      StepHolds(settings, Now(), StatusAnswered(id, reading));
      hide RunInvariant;
      Move(id, AfterStatus(reading), StatusRead(processes[id].input.account, reading));
    }

    method OnGate(id: Id, answer: GateAnswer)
      requires Valid() && Enabled(Now(), GateAnswered(id, answer))
      modifies this
      ensures Valid() && Now() == Apply(settings, old(Now()), GateAnswered(id, answer))
    {
      StepHolds(settings, Now(), GateAnswered(id, answer));
      hide RunInvariant;
      Move(id, AfterGate(answer), GateAsked(processes[id].input.account, processes[id].input.pub, answer));
    }

    method OnSimulation(id: Id, accepted: bool)
      requires Valid() && Enabled(Now(), SimulationAnswered(id, accepted))
      modifies this
      ensures Valid() && Now() == Apply(settings, old(Now()), SimulationAnswered(id, accepted))
    {
      StepHolds(settings, Now(), SimulationAnswered(id, accepted));
      hide RunInvariant;
      var input := processes[id].input;
      Move(id, AfterSimulation(accepted), Simulated(input.account, input.proof, input.pub, accepted));
    }

    /** The second read, the sponsor limiter and the submit: no await between them. */
    method OnRecheck(id: Id, reading: Reading, time: int)
      requires Valid() && Enabled(Now(), RecheckAnswered(id, reading, time))
      modifies this, sponsorRequests
      ensures Valid() && Now() == Apply(settings, old(Now()), RecheckAnswered(id, reading, time))
    {
      StepHolds(settings, Now(), RecheckAnswered(id, reading, time));
      hide RunInvariant, Consumed;
      var input := processes[id].input;
      ghost var read := StatusRead(input.account, reading);
      match reading {
        case Granted => Move(id, Settled(AlreadyGranted), read);
        case Unconvertible => Move(id, Settled(Failed(500)), read);
        case Rejected => Move(id, Settled(Failed(500)), read);
        case NotGranted =>
          clock := time;
          var verdict := sponsorRequests.Consume(GLOBAL, settings.sponsorLimit, settings.sponsorWindow, time);
          if verdict != Accepted {
            Move(id, Settled(Failed(Refusal(verdict))), read);
          } else {
            Move(id, AwaitSubmission, read);
            log := log + [Logged(id, time, SubmitIssued(input.account, input.proof, input.pub))];
          }
      }
    }

    method OnSubmission(id: Id, sent: SubmitAnswer)
      requires Valid() && Enabled(Now(), SubmissionAnswered(id, sent))
      modifies this
      ensures Valid() && Now() == Apply(settings, old(Now()), SubmissionAnswered(id, sent))
    {
      StepHolds(settings, Now(), SubmissionAnswered(id, sent));
      hide RunInvariant;
      Move(id, Settled(AfterSubmission(sent)), SubmitAnswered(sent));
    }

    /** The owner after its process settled: respond, and in the finally block delete its entry. */
    method ResumeOwner(id: Id)
      requires Valid() && Enabled(Now(), OwnerResumes(id))
      modifies this
      ensures Valid() && Now() == Apply(settings, old(Now()), OwnerResumes(id))
      ensures var key := old(handlers[id]).input.Key(); key in old(inflight) && old(inflight)[key] == id
    {
      assert HandlerOk(Now(), id);
      StepHolds(settings, Now(), OwnerResumes(id));
      hide RunInvariant;
      var input := handlers[id].input;
      handlers := handlers[id := Answered(input, processes[id].pc.outcome.Status(), From(id))];
      inflight := inflight - {input.Key()};
    }

    method ResumeJoiner(id: Id)
      requires Valid() && Enabled(Now(), JoinerResumes(id))
      modifies this
      ensures Valid() && Now() == Apply(settings, old(Now()), JoinerResumes(id))
    {
      StepHolds(settings, Now(), JoinerResumes(id));
      hide RunInvariant;
      var Joiner(input, owner) := handlers[id];
      handlers := handlers[id := Answered(input, processes[owner].pc.outcome.Status(), From(owner))];
    }
  }
}
