/** The sponsored-registration relay as a step system.

    Any number of requests are in progress at once. Each is a handler, and the
    handler that finds no run in flight for its key starts a process. A step is
    one synchronous run between two awaits; between steps anything may happen.
    The chain adapter is adversarial: every call may answer or throw anything. */
module EligibilityRelay {
  import opened Basics
  import opened RateLimiter

  datatype Settings = Settings(accountLimit: nat, ipLimit: nat, requestWindow: nat,
                               sponsorLimit: nat, sponsorWindow: nat) {
    predicate Positive() {
      accountLimit > 0 && ipLimit > 0 && requestWindow > 0 && sponsorLimit > 0 && sponsorWindow > 0
    }
  }

  type Id = nat

  /** A validated request. */
  datatype Input = Input(account: string, proof: seq<nat>, pub: seq<nat>) {
    predicate Valid() { |proof| == 24 && |pub| == 7 }

    /** The account, the epoch pub[3] and the nullifier pub[0]. */
    function Key(): FlightKey
      requires Valid()
    {
      FlightKey(account, pub[3], pub[0])
    }
  }

  datatype FlightKey = FlightKey(account: string, epoch: nat, nullifier: nat)

  /** A registration-status answer; a value that is no number makes the caller throw. */
  datatype Reading = Granted | NotGranted | Unconvertible | Rejected
  datatype GateAnswer = Accepts | Refuses | RefusesUnprintably | GateRejected
  /** A hash that JSON cannot write, a bigint say, makes every response that carries it throw. */
  datatype SubmitAnswer = Sent(txHash: string) | SentUnprintably | SubmitRejected

  datatype Outcome = AlreadyGranted | Submitted(txHash: string) | SubmittedUnprintably | Failed(status: nat) {
    /** The HTTP status every request waiting on this outcome answers. */
    function Status(): nat {
      match this
      case AlreadyGranted => 200
      case Submitted(_) => 202
      // the response throws after its status line was set, and the outer catch answers
      case SubmittedUnprintably => 500
      case Failed(status) => status
    }
  }

  /** Where a process is suspended, or what it settled to. */
  datatype Pc = AwaitStatus | AwaitGate | AwaitSimulation | AwaitRecheck | AwaitSubmission | Settled(outcome: Outcome)
  datatype Process = Process(input: Input, pc: Pc)

  /** Whose outcome an answered request reported, if a process ran for it at all. */
  datatype Source = NoProcess | From(owner: Id)
  datatype Handler =
    | Owner(input: Input)
    | Joiner(input: Input, owner: Id)
    | Answered(input: Input, status: nat, source: Source)

  /** What the chain was asked and answered, in the order it happened. */
  datatype Event =
    | StatusRead(account: string, reading: Reading)
    | GateAsked(account: string, pub: seq<nat>, answer: GateAnswer)
    | Simulated(account: string, proof: seq<nat>, pub: seq<nat>, accepted: bool)
    | SubmitIssued(account: string, proof: seq<nat>, pub: seq<nat>)
    | SubmitAnswered(sent: SubmitAnswer)
  datatype Logged = Logged(process: Id, time: int, event: Event)

  datatype State = State(now: int, accounts: Bucket, ips: Bucket, sponsor: Bucket,
                         inflight: map<FlightKey, Id>, processes: map<Id, Process>, handlers: map<Id, Handler>,
                         log: seq<Logged>)

  const GLOBAL := "global"

  ghost predicate Initial(s: State) {
    s == State(s.now, map[], map[], map[], map[], map[], map[], [])
  }

  // ----------------------------------------------------------------- steps

  datatype Step =
    | Arrive(id: Id, input: Input, ip: string, first: int, second: int)
    | StatusAnswered(id: Id, reading: Reading)
    | GateAnswered(id: Id, answer: GateAnswer)
    | SimulationAnswered(id: Id, accepted: bool)
    | RecheckAnswered(id: Id, reading: Reading, time: int)
    | SubmissionAnswered(id: Id, sent: SubmitAnswer)
    | OwnerResumes(id: Id)
    | JoinerResumes(id: Id)

  predicate Suspended(s: State, id: Id, pc: Pc) { id in s.processes && s.processes[id].pc == pc }

  /** The clock never runs backwards, and a step resumes something that is suspended. */
  predicate Enabled(s: State, step: Step) {
    match step
    case Arrive(id, input, _, first, second) => id !in s.handlers && input.Valid() && s.now <= first <= second
    case StatusAnswered(id, _) => Suspended(s, id, AwaitStatus)
    case GateAnswered(id, _) => Suspended(s, id, AwaitGate)
    case SimulationAnswered(id, _) => Suspended(s, id, AwaitSimulation)
    case RecheckAnswered(id, _, time) => Suspended(s, id, AwaitRecheck) && s.now <= time
    case SubmissionAnswered(id, _) => Suspended(s, id, AwaitSubmission)
    case OwnerResumes(id) =>
      && id in s.handlers && s.handlers[id].Owner? && s.handlers[id].input.Valid()
      && id in s.processes && s.processes[id].pc.Settled?
    case JoinerResumes(id) =>
      && id in s.handlers && s.handlers[id].Joiner?
      && s.handlers[id].owner in s.processes && s.processes[s.handlers[id].owner].pc.Settled?
  }

  /** The process moves on, and the call it was suspended on is logged. */
  function Moved(s: State, id: Id, pc: Pc, event: Event): State
    requires id in s.processes
  {
    s.(processes := s.processes[id := s.processes[id].(pc := pc)], log := s.log + [Logged(id, s.now, event)])
  }

  function Respond(s: State, id: Id, input: Input, status: nat, source: Source): State {
    s.(handlers := s.handlers[id := Answered(input, status, source)])
  }

  function Refusal(verdict: Verdict): nat { if verdict.TooMany? then 429 else 503 }

  function AfterStatus(reading: Reading): Pc {
    match reading
    case Granted => Settled(AlreadyGranted)
    case NotGranted => AwaitGate
    case Unconvertible => Settled(Failed(500))
    case Rejected => Settled(Failed(503))
  }

  function AfterGate(answer: GateAnswer): Pc {
    match answer
    case Accepts => AwaitSimulation
    case Refuses => Settled(Failed(409))
    case RefusesUnprintably => Settled(Failed(500))
    case GateRejected => Settled(Failed(503))
  }

  function AfterSubmission(sent: SubmitAnswer): Outcome {
    match sent
    case Sent(txHash) => Submitted(txHash)
    case SentUnprintably => SubmittedUnprintably
    case SubmitRejected => Failed(503)
  }

  function AfterSimulation(accepted: bool): Pc {
    if accepted then AwaitRecheck else Settled(Failed(422))
  }

  function Started(s: State, id: Id, input: Input): State
    requires input.Valid()
  {
    s.(processes := s.processes[id := Process(input, AwaitStatus)],
       inflight := s.inflight[input.Key() := id],
       handlers := s.handlers[id := Owner(input)])
  }

  /** The IP limiter, asked once the account limiter has accepted. */
  ghost function AskedIp(c: Settings, s: State, id: Id, input: Input, ip: string): State
    requires input.Valid()
  {
    var (ips, verdict) := Consumed(s.ips, ip, c.ipLimit, c.requestWindow, s.now);
    var s1 := s.(ips := ips);
    if verdict == Accepted then Started(s1, id, input) else Respond(s1, id, input, Refusal(verdict), NoProcess)
  }

  ghost function Arrived(c: Settings, s: State, id: Id, input: Input, ip: string, first: int, second: int): State
    requires input.Valid()
  {
    if input.Key() in s.inflight then
      s.(handlers := s.handlers[id := Joiner(input, s.inflight[input.Key()])], now := second)
    else
      var (accounts, verdict) := Consumed(s.accounts, input.account, c.accountLimit, c.requestWindow, first);
      var s1 := s.(accounts := accounts, now := second);
      if verdict == Accepted then AskedIp(c, s1, id, input, ip)
      else Respond(s1, id, input, Refusal(verdict), NoProcess)
  }

  ghost function Rechecked(c: Settings, s: State, id: Id, reading: Reading, time: int): State
    requires id in s.processes
  {
    var input := s.processes[id].input;
    var read := StatusRead(input.account, reading);
    match reading
    case Granted => Moved(s, id, Settled(AlreadyGranted), read)
    // the second read stands outside every try: what it throws is not an HttpError
    case Unconvertible => Moved(s, id, Settled(Failed(500)), read)
    case Rejected => Moved(s, id, Settled(Failed(500)), read)
    case NotGranted =>
      var (sponsor, verdict) := Consumed(s.sponsor, GLOBAL, c.sponsorLimit, c.sponsorWindow, time);
      var s1 := s.(sponsor := sponsor, now := time);
      if verdict != Accepted then Moved(s1, id, Settled(Failed(Refusal(verdict))), read)
      else
        var s2 := Moved(s1, id, AwaitSubmission, read);
        s2.(log := s2.log + [Logged(id, time, SubmitIssued(input.account, input.proof, input.pub))])
  }

  ghost function Apply(c: Settings, s: State, step: Step): State
    requires Enabled(s, step)
  {
    match step
    case Arrive(id, input, ip, first, second) => Arrived(c, s, id, input, ip, first, second)
    case StatusAnswered(id, reading) =>
      Moved(s, id, AfterStatus(reading), StatusRead(s.processes[id].input.account, reading))
    case GateAnswered(id, answer) =>
      var input := s.processes[id].input;
      Moved(s, id, AfterGate(answer), GateAsked(input.account, input.pub, answer))
    case SimulationAnswered(id, accepted) =>
      var input := s.processes[id].input;
      Moved(s, id, AfterSimulation(accepted), Simulated(input.account, input.proof, input.pub, accepted))
    case RecheckAnswered(id, reading, time) => Rechecked(c, s, id, reading, time)
    case SubmissionAnswered(id, sent) =>
      Moved(s, id, Settled(AfterSubmission(sent)), SubmitAnswered(sent))
    case OwnerResumes(id) =>
      var input := s.handlers[id].input;
      var s1 := Respond(s, id, input, s.processes[id].pc.outcome.Status(), From(id));
      s1.(inflight := s1.inflight - {input.Key()})
    case JoinerResumes(id) =>
      var (input, owner) := (s.handlers[id].input, s.handlers[id].owner);
      Respond(s, id, input, s.processes[owner].pc.outcome.Status(), From(owner))
  }

  // ------------------------------------------------------ single flight

  /** An in-flight entry names the handler that set it. */
  ghost predicate InflightOk(s: State, key: FlightKey) {
    key in s.inflight ==>
      var id := s.inflight[key];
      id in s.handlers && s.handlers[id].Owner? && s.handlers[id].input.Valid() && s.handlers[id].input.Key() == key
  }

  /** The same account, epoch and nullifier; the proofs may differ. */
  ghost predicate Shares(a: Input, b: Input) {
    && a.Valid() && b.Valid()
    && a.account == b.account && a.pub[3] == b.pub[3] && a.pub[0] == b.pub[0]
  }

  ghost predicate SameRun(s: State, input: Input, owner: Id) {
    owner in s.processes && Shares(s.processes[owner].input, input)
  }

  /** An owner is in flight with a process of its own. A joiner waits on a run
      of its own key, and an answered request answered what that run settled to. */
  ghost predicate HandlerOk(s: State, id: Id) {
    id in s.handlers ==>
      match s.handlers[id]
      case Owner(input) =>
        && input.Valid() && input.Key() in s.inflight && s.inflight[input.Key()] == id
        && id in s.processes && s.processes[id].input == input
      case Joiner(input, owner) => SameRun(s, input, owner)
      case Answered(input, status, NoProcess) => (status == 429 || status == 503) && id !in s.processes
      case Answered(input, status, From(owner)) =>
        SameRun(s, input, owner) && s.processes[owner].pc.Settled? && status == s.processes[owner].pc.outcome.Status()
  }

  /** A process belongs to the request of the same id; once that has been answered it is settled. */
  ghost predicate ProcessOk(s: State, id: Id) {
    id in s.processes ==>
      && s.processes[id].input.Valid()
      && id in s.handlers && s.handlers[id].input == s.processes[id].input
      && (s.handlers[id].Owner? || (s.handlers[id].Answered? && s.processes[id].pc.Settled?))
  }

  ghost predicate FlightInvariant(s: State) {
    && (forall key :: InflightOk(s, key))
    && (forall id :: HandlerOk(s, id))
    && (forall id :: ProcessOk(s, id))
  }

  /** A process that is not settled moves on. */
  lemma MoveKeepsFlight(s: State, t: State, id: Id, pc: Pc)
    requires FlightInvariant(s) && id in s.processes && !s.processes[id].pc.Settled?
    requires t.inflight == s.inflight && t.handlers == s.handlers
    requires t.processes == s.processes[id := s.processes[id].(pc := pc)]
    ensures FlightInvariant(t)
  {
    forall key ensures InflightOk(t, key) { assert InflightOk(s, key); }
    forall other ensures HandlerOk(t, other) && ProcessOk(t, other) {
      assert HandlerOk(s, other) && ProcessOk(s, other) && ProcessOk(s, id);
    }
  }

  /** A new request that starts no run. */
  lemma BystanderKeepsFlight(s: State, t: State, id: Id, handler: Handler)
    requires FlightInvariant(s) && id !in s.handlers
    requires t.inflight == s.inflight && t.processes == s.processes && t.handlers == s.handlers[id := handler]
    requires (handler.Joiner? && SameRun(s, handler.input, handler.owner))
          || (handler.Answered? && handler.source == NoProcess && (handler.status == 429 || handler.status == 503))
    ensures FlightInvariant(t)
  {
    forall key ensures InflightOk(t, key) { assert InflightOk(s, key); }
    forall other ensures HandlerOk(t, other) && ProcessOk(t, other) {
      assert HandlerOk(s, other) && ProcessOk(s, other);
    }
  }

  /** A new request that finds no run in flight and starts one. */
  lemma StartKeepsFlight(s: State, t: State, id: Id, input: Input)
    requires FlightInvariant(s) && id !in s.handlers && input.Valid() && input.Key() !in s.inflight
    requires t.inflight == s.inflight[input.Key() := id]
    requires t.processes == s.processes[id := Process(input, AwaitStatus)]
    requires t.handlers == s.handlers[id := Owner(input)]
    ensures FlightInvariant(t)
  {
    assert ProcessOk(s, id);
    forall key ensures InflightOk(t, key) { assert InflightOk(s, key); }
    forall other ensures HandlerOk(t, other) && ProcessOk(t, other) {
      assert HandlerOk(s, other) && ProcessOk(s, other);
    }
  }

  /** The finally block: the entry an owner deletes is its own. */
  lemma OwnerKeepsFlight(s: State, t: State, id: Id)
    requires FlightInvariant(s) && id in s.handlers && s.handlers[id].Owner? && s.handlers[id].input.Valid()
    requires id in s.processes && s.processes[id].pc.Settled?
    requires t.inflight == s.inflight - {s.handlers[id].input.Key()} && t.processes == s.processes
    requires var status := s.processes[id].pc.outcome.Status();
             t.handlers == s.handlers[id := Answered(s.handlers[id].input, status, From(id))]
    ensures FlightInvariant(t)
  {
    assert HandlerOk(s, id);
    forall key ensures InflightOk(t, key) { assert InflightOk(s, key); }
    forall other ensures HandlerOk(t, other) && ProcessOk(t, other) {
      assert HandlerOk(s, other) && ProcessOk(s, other);
    }
  }

  lemma JoinerKeepsFlight(s: State, t: State, id: Id)
    requires FlightInvariant(s) && id in s.handlers && s.handlers[id].Joiner?
    requires s.handlers[id].owner in s.processes && s.processes[s.handlers[id].owner].pc.Settled?
    requires t.inflight == s.inflight && t.processes == s.processes
    requires var (input, owner) := (s.handlers[id].input, s.handlers[id].owner);
             t.handlers == s.handlers[id := Answered(input, s.processes[owner].pc.outcome.Status(), From(owner))]
    ensures FlightInvariant(t)
  {
    assert HandlerOk(s, id);
    forall key ensures InflightOk(t, key) { assert InflightOk(s, key); }
    forall other ensures HandlerOk(t, other) && ProcessOk(t, other) {
      assert HandlerOk(s, other) && ProcessOk(s, other);
    }
  }

  /** A request that was not joined: it starts a run, or is refused by a limiter. */
  ghost predicate Decided(s: State, t: State, id: Id, input: Input)
    requires input.Valid()
  {
    && t.log == s.log && t.sponsor == s.sponsor
    && (|| (&& t.inflight == s.inflight[input.Key() := id]
            && t.processes == s.processes[id := Process(input, AwaitStatus)]
            && t.handlers == s.handlers[id := Owner(input)])
        || (&& t.inflight == s.inflight && t.processes == s.processes
            && id in t.handlers && t.handlers == s.handlers[id := t.handlers[id]]
            && t.handlers[id].Answered? && t.handlers[id].source == NoProcess
            && (t.handlers[id].status == 429 || t.handlers[id].status == 503)))
  }

  lemma IpDecides(c: Settings, s: State, id: Id, input: Input, ip: string)
    requires input.Valid()
    ensures var t := AskedIp(c, s, id, input, ip);
            && Decided(s, t, id, input) && t.accounts == s.accounts && t.now == s.now
            && t.ips == Consumed(s.ips, ip, c.ipLimit, c.requestWindow, s.now).0
            && (Consumed(s.ips, ip, c.ipLimit, c.requestWindow, s.now).1 == Accepted || t.processes == s.processes)
  {
    hide Consumed;
  }

  /** An arrival joins the run in flight, or is decided by the limiters. */
  lemma ArrivalEffect(c: Settings, s: State, step: Step)
    requires Enabled(s, step) && step.Arrive?
    ensures var (t, id, input) := (Apply(c, s, step), step.id, step.input);
            && t.now == step.second
            && if input.Key() in s.inflight then
                 && t == s.(handlers := t.handlers, now := t.now)
                 && t.handlers == s.handlers[id := Joiner(input, s.inflight[input.Key()])]
               else
                 Decided(s, t, id, input)
  {
    if step.input.Key() !in s.inflight {
      AccountDecides(c, s, step.id, step.input, step.ip, step.first, step.second);
    }
    hide Consumed, AskedIp, Decided;
  }

  lemma AccountDecides(c: Settings, s: State, id: Id, input: Input, ip: string, first: int, second: int)
    requires input.Valid() && input.Key() !in s.inflight
    ensures Decided(s, Arrived(c, s, id, input, ip, first, second), id, input)
    ensures Arrived(c, s, id, input, ip, first, second).now == second
  {
    var (accounts, verdict) := Consumed(s.accounts, input.account, c.accountLimit, c.requestWindow, first);
    var s1 := s.(accounts := accounts, now := second);
    hide Consumed;
    if verdict == Accepted {
      IpDecides(c, s1, id, input, ip);
      hide AskedIp;
      assert Arrived(c, s, id, input, ip, first, second) == AskedIp(c, s1, id, input, ip);
    } else {
      hide AskedIp;
    }
  }

  lemma ArrivalKeepsFlight(c: Settings, s: State, step: Step)
    requires FlightInvariant(s) && Enabled(s, step) && step.Arrive?
    ensures FlightInvariant(Apply(c, s, step))
  {
    var (t, id, input) := (Apply(c, s, step), step.id, step.input);
    ArrivalEffect(c, s, step);
    hide FlightInvariant, Apply;
    if input.Key() in s.inflight {
      OwnerOf(s, input.Key());
      BystanderKeepsFlight(s, t, id, Joiner(input, s.inflight[input.Key()]));
    } else if t.handlers[id].Answered? {
      BystanderKeepsFlight(s, t, id, t.handlers[id]);
    } else {
      StartKeepsFlight(s, t, id, input);
    }
  }

  lemma OwnerOf(s: State, key: FlightKey)
    requires FlightInvariant(s) && key in s.inflight
    ensures var id := s.inflight[key];
            id in s.processes && s.processes[id].input.Valid() && s.processes[id].input.Key() == key
  {
    assert InflightOk(s, key) && HandlerOk(s, s.inflight[key]);
  }

  predicate Resumes(step: Step) { step.OwnerResumes? || step.JoinerResumes? }

  predicate IsAnswer(step: Step) { !step.Arrive? && !Resumes(step) }

  /** A suspended process moves, and nothing else of the flight changes. */
  ghost predicate OnlyMoves(s: State, t: State, id: Id) {
    && id in s.processes && !s.processes[id].pc.Settled?
    && id in t.processes && t.processes == s.processes[id := s.processes[id].(pc := t.processes[id].pc)]
    && t.inflight == s.inflight && t.handlers == s.handlers
  }

  lemma RecheckMoves(c: Settings, s: State, id: Id, reading: Reading, time: int)
    requires Suspended(s, id, AwaitRecheck)
    ensures OnlyMoves(s, Rechecked(c, s, id, reading, time), id)
  {
    hide Consumed;
  }

  lemma AnswerMoves(c: Settings, s: State, step: Step)
    requires Enabled(s, step) && IsAnswer(step)
    ensures OnlyMoves(s, Apply(c, s, step), step.id)
  {
    if step.RecheckAnswered? {
      RecheckMoves(c, s, step.id, step.reading, step.time);
    } else {
      hide Rechecked;
    }
  }

  lemma FlightKept(c: Settings, s: State, step: Step)
    requires FlightInvariant(s) && Enabled(s, step)
    ensures FlightInvariant(Apply(c, s, step))
  {
    hide FlightInvariant;
    var t := Apply(c, s, step);
    if step.Arrive? {
      ArrivalKeepsFlight(c, s, step);
    } else if step.OwnerResumes? {
      OwnerKeepsFlight(s, t, step.id);
    } else if step.JoinerResumes? {
      JoinerKeepsFlight(s, t, step.id);
    } else {
      AnswerMoves(c, s, step);
      MoveKeepsFlight(s, t, step.id, t.processes[step.id].pc);
    }
  }

  // ------------------------------------------------- what a submit cost

  /** What the chain was asked on behalf of one process, in order. */
  ghost function Trace(log: seq<Logged>, id: Id): seq<Event> {
    if log == [] then []
    else
      var (init, last) := (log[..|log| - 1], log[|log| - 1]);
      Trace(init, id) + if last.process == id then [last.event] else []
  }

  /** The only way to a submit: two reads that found no grant, a gate that
      accepts, a proof that simulates, all for the very account, proof and pub. */
  ghost function Script(input: Input): seq<Event> {
    [ StatusRead(input.account, NotGranted),
      GateAsked(input.account, input.pub, Accepts),
      Simulated(input.account, input.proof, input.pub, true),
      StatusRead(input.account, NotGranted),
      SubmitIssued(input.account, input.proof, input.pub) ]
  }

  ghost function Progress(pc: Pc): nat {
    match pc
    case AwaitStatus => 0
    case AwaitGate => 1
    case AwaitSimulation => 2
    case AwaitRecheck => 3
    case AwaitSubmission => 5
    case Settled(_) => 5
  }

  ghost predicate NoSubmit(trace: seq<Event>) {
    forall k :: 0 <= k < |trace| ==> !trace[k].SubmitIssued?
  }

  /** What each outcome says about what the chain answered: where the script was left, and why. */
  ghost predicate Explained(outcome: Outcome, input: Input, trace: seq<Event>) {
    match outcome
    case Submitted(txHash) => trace == LeftAt(input, 5, SubmitAnswered(Sent(txHash)))
    case SubmittedUnprintably => trace == LeftAt(input, 5, SubmitAnswered(SentUnprintably))
    case AlreadyGranted =>
      || trace == LeftAt(input, 0, StatusRead(input.account, Granted))
      || trace == LeftAt(input, 3, StatusRead(input.account, Granted))
    case Failed(status) =>
      || (status == 409 && trace == LeftAt(input, 1, GateAsked(input.account, input.pub, Refuses)))
      || (status == 422 && trace == LeftAt(input, 2, Simulated(input.account, input.proof, input.pub, false)))
      || (status == 429 && trace == LeftAt(input, 3, StatusRead(input.account, NotGranted)))
      || (status == 503 && (|| trace == LeftAt(input, 0, StatusRead(input.account, Rejected))
                            || trace == LeftAt(input, 1, GateAsked(input.account, input.pub, GateRejected))
                            || trace == LeftAt(input, 5, SubmitAnswered(SubmitRejected))))
      || (status == 500 && (|| trace == LeftAt(input, 0, StatusRead(input.account, Unconvertible))
                            || trace == LeftAt(input, 1, GateAsked(input.account, input.pub, RefusesUnprintably))
                            || trace == LeftAt(input, 3, StatusRead(input.account, Unconvertible))
                            || trace == LeftAt(input, 3, StatusRead(input.account, Rejected))))
  }

  ghost function LeftAt(input: Input, n: nat, event: Event): seq<Event>
    requires n <= 5
  {
    Script(input)[..n] + [event]
  }

  ghost predicate TraceOk(s: State, id: Id) {
    if id !in s.processes then Trace(s.log, id) == []
    else
      var (input, pc) := (s.processes[id].input, s.processes[id].pc);
      if pc.Settled? then Explained(pc.outcome, input, Trace(s.log, id))
      else Trace(s.log, id) == Script(input)[..Progress(pc)]
  }

  ghost predicate TraceInvariant(s: State) {
    forall id :: TraceOk(s, id)
  }

  lemma TraceSnoc(log: seq<Logged>, e: Logged, id: Id)
    ensures Trace(log + [e], id) == Trace(log, id) + if e.process == id then [e.event] else []
  {
    assert (log + [e])[..|log|] == log;
  }

  /** The events a step adds are its own process's, and they continue that process's trace. */
  ghost predicate Continues(s: State, t: State, id: Id, events: seq<Event>) {
    && Trace(t.log, id) == Trace(s.log, id) + events
    && forall other :: other != id ==> Trace(t.log, other) == Trace(s.log, other)
  }

  lemma MovedContinues(s: State, id: Id, pc: Pc, event: Event)
    requires id in s.processes
    ensures Continues(s, Moved(s, id, pc, event), id, [event])
  {
    forall other
      ensures Trace(s.log + [Logged(id, s.now, event)], other) ==
              Trace(s.log, other) + if id == other then [event] else []
    {
      TraceSnoc(s.log, Logged(id, s.now, event), other);
    }
  }

  lemma MoveTraced(s: State, id: Id, pc: Pc, event: Event)
    requires id in s.processes && !s.processes[id].pc.Settled? && TraceOk(s, id)
    requires var (input, n) := (s.processes[id].input, Progress(s.processes[id].pc));
             if pc.Settled? then Explained(pc.outcome, input, LeftAt(input, n, event))
             else Progress(pc) == n + 1 && event == Script(input)[n]
    ensures var t := Moved(s, id, pc, event);
            TraceOk(t, id) && forall other :: other != id ==> Trace(t.log, other) == Trace(s.log, other)
  {
    hide Explained;
    MovedContinues(s, id, pc, event);
    var script := Script(s.processes[id].input);
    if !pc.Settled? {
      assert script[..Progress(pc)] == script[..Progress(pc) - 1] + [script[Progress(pc) - 1]];
    }
  }

  /** The second read and the submit that follows it in the same run. */
  lemma SubmitTraced(s: State, id: Id)
    requires Suspended(s, id, AwaitRecheck) && TraceOk(s, id)
    ensures var input := s.processes[id].input;
            var s1 := Moved(s, id, AwaitSubmission, StatusRead(input.account, NotGranted));
            var t := Moved(s1, id, AwaitSubmission, SubmitIssued(input.account, input.proof, input.pub));
            TraceOk(t, id) && forall other :: other != id ==> Trace(t.log, other) == Trace(s.log, other)
  {
    var input := s.processes[id].input;
    var script := Script(input);
    var s1 := Moved(s, id, AwaitSubmission, script[3]);
    MovedContinues(s, id, AwaitSubmission, script[3]);
    MovedContinues(s1, id, AwaitSubmission, script[4]);
    assert script[..5] == script[..3] + [script[3]] + [script[4]];
  }

  /** The sponsor bucket has one key, so its limiter never runs out of capacity. */
  ghost predicate OneSponsorKey(s: State) { s.sponsor.Keys <= {GLOBAL} }

  lemma NeverExhausted(c: Settings, s: State, time: int)
    requires OneSponsorKey(s)
    ensures Consumed(s.sponsor, GLOBAL, c.sponsorLimit, c.sponsorWindow, time) ==
            Count(s.sponsor, GLOBAL, c.sponsorLimit, c.sponsorWindow, time)
  {
    SubsetSize(s.sponsor.Keys, {GLOBAL});
    assert |s.sponsor| == |s.sponsor.Keys|;
  }

  lemma RecheckTraced(c: Settings, s: State, id: Id, reading: Reading, time: int)
    requires Suspended(s, id, AwaitRecheck) && TraceOk(s, id) && OneSponsorKey(s)
    ensures var t := Rechecked(c, s, id, reading, time);
            TraceOk(t, id) && forall other :: other != id ==> Trace(t.log, other) == Trace(s.log, other)
  {
    var t := Rechecked(c, s, id, reading, time);
    var s1 := s.(now := t.now, sponsor := t.sponsor);
    assert TraceOk(s1, id);
    var read := StatusRead(s.processes[id].input.account, reading);
    if t.processes[id].pc == AwaitSubmission {
      RecheckSubmits(c, s, id, reading, time);
      SubmitTraced(s1, id);
    } else {
      RecheckSettles(c, s, id, reading, time);
      hide Rechecked, Explained, LeftAt, TraceOk;
      MoveTraced(s1, id, t.processes[id].pc, read);
    }
  }

  lemma RecheckSettles(c: Settings, s: State, id: Id, reading: Reading, time: int)
    requires Suspended(s, id, AwaitRecheck) && OneSponsorKey(s)
    requires Rechecked(c, s, id, reading, time).processes[id].pc != AwaitSubmission
    ensures var t := Rechecked(c, s, id, reading, time);
            var input := s.processes[id].input;
            var read := StatusRead(input.account, reading);
            && t == Moved(s.(now := t.now, sponsor := t.sponsor), id, t.processes[id].pc, read)
            && t.processes[id].pc.Settled?
            && Explained(t.processes[id].pc.outcome, input, LeftAt(input, 3, read))
  {
    NeverExhausted(c, s, time);
    hide Consumed, LeftAt, Script;
  }

  lemma RecheckSubmits(c: Settings, s: State, id: Id, reading: Reading, time: int)
    requires Suspended(s, id, AwaitRecheck) && Rechecked(c, s, id, reading, time).processes[id].pc == AwaitSubmission
    ensures var t := Rechecked(c, s, id, reading, time);
            var s1 := s.(now := t.now, sponsor := t.sponsor);
            var input := s.processes[id].input;
            && reading == NotGranted
            && t == Moved(Moved(s1, id, AwaitSubmission, StatusRead(input.account, NotGranted)), id, AwaitSubmission,
                          SubmitIssued(input.account, input.proof, input.pub))
  {
    hide Consumed;
  }

  lemma AnswerTraced(c: Settings, s: State, step: Step)
    requires Enabled(s, step) && IsAnswer(step) && TraceOk(s, step.id) && OneSponsorKey(s)
    ensures var t := Apply(c, s, step);
            TraceOk(t, step.id) && forall other :: other != step.id ==> Trace(t.log, other) == Trace(s.log, other)
  {
    var input := s.processes[step.id].input;
    match step {
      case StatusAnswered(id, reading) =>
        MoveTraced(s, id, AfterStatus(reading), StatusRead(input.account, reading));
      case GateAnswered(id, answer) =>
        MoveTraced(s, id, AfterGate(answer), GateAsked(input.account, input.pub, answer));
      case SimulationAnswered(id, accepted) =>
        MoveTraced(s, id, AfterSimulation(accepted), Simulated(input.account, input.proof, input.pub, accepted));
      case RecheckAnswered(id, reading, time) => RecheckTraced(c, s, id, reading, time);
      case SubmissionAnswered(id, sent) =>
        MoveTraced(s, id, Settled(AfterSubmission(sent)), SubmitAnswered(sent));
    }
  }

  /** No process but one, and no trace but its own, is touched. */
  ghost predicate OnlyTouches(s: State, t: State, id: Id) {
    forall other :: other != id ==>
      && Trace(t.log, other) == Trace(s.log, other)
      && (other in t.processes <==> other in s.processes)
      && (other in s.processes ==> t.processes[other] == s.processes[other])
  }

  lemma ArrivalTraced(c: Settings, s: State, step: Step)
    requires FlightInvariant(s) && TraceOk(s, step.id) && Enabled(s, step) && step.Arrive?
    ensures TraceOk(Apply(c, s, step), step.id) && OnlyTouches(s, Apply(c, s, step), step.id)
  {
    assert ProcessOk(s, step.id);
    hide FlightInvariant;
    ArrivalEffect(c, s, step);
    hide Apply;
  }

  lemma ResumeTraced(c: Settings, s: State, step: Step)
    requires TraceOk(s, step.id) && Enabled(s, step) && Resumes(step)
    ensures TraceOk(Apply(c, s, step), step.id) && OnlyTouches(s, Apply(c, s, step), step.id)
  {
    hide Arrived, Rechecked, Trace, Explained;
  }

  lemma StepTraced(c: Settings, s: State, step: Step)
    requires FlightInvariant(s) && TraceOk(s, step.id) && OneSponsorKey(s) && Enabled(s, step)
    ensures TraceOk(Apply(c, s, step), step.id) && OnlyTouches(s, Apply(c, s, step), step.id)
  {
    hide FlightInvariant, TraceOk, OneSponsorKey;
    if step.Arrive? {
      ArrivalTraced(c, s, step);
    } else if Resumes(step) {
      ResumeTraced(c, s, step);
    } else {
      AnswerTraced(c, s, step);
      AnswerMoves(c, s, step);
    }
    hide Apply;
  }

  lemma TraceKept(c: Settings, s: State, step: Step)
    requires FlightInvariant(s) && TraceInvariant(s) && OneSponsorKey(s) && Enabled(s, step)
    ensures TraceInvariant(Apply(c, s, step))
  {
    var t := Apply(c, s, step);
    assert TraceOk(s, step.id);
    StepTraced(c, s, step);
    hide Apply, Explained, Trace, FlightInvariant;
    forall id
      ensures TraceOk(t, id)
    {
      assert TraceOk(s, id);
    }
  }

  lemma QuietStep(c: Settings, s: State, step: Step)
    requires Enabled(s, step) && !IsAnswer(step)
    ensures Apply(c, s, step).log == s.log && Apply(c, s, step).sponsor == s.sponsor
    ensures s.now <= Apply(c, s, step).now
  {
    if step.Arrive? {
      ArrivalEffect(c, s, step);
      hide Apply;
    } else {
      hide Arrived, Rechecked, Consumed;
    }
  }

  // -------------------------------------------------- sponsored submits

  ghost function SubmitTimes(log: seq<Logged>): seq<int> {
    if log == [] then []
    else
      var (init, last) := (log[..|log| - 1], log[|log| - 1]);
      SubmitTimes(init) + if last.event.SubmitIssued? then [last.time] else []
  }

  lemma SubmitTimesSnoc(log: seq<Logged>, e: Logged)
    ensures SubmitTimes(log + [e]) == SubmitTimes(log) + if e.event.SubmitIssued? then [e.time] else []
  {
    assert (log + [e])[..|log|] == log;
  }

  /** Every submit was counted by the sponsor limiter, and nothing else was. */
  ghost predicate SponsorInvariant(c: Settings, s: State)
    requires c.Positive()
  {
    && OneSponsorKey(s)
    && WindowInvariant(SubmitTimes(s.log), s.sponsor, GLOBAL, c.sponsorLimit, c.sponsorWindow, s.now)
  }

  lemma QuietKeepsSponsor(c: Settings, s: State, t: State)
    requires c.Positive() && SponsorInvariant(c, s)
    requires s.now <= t.now && t.sponsor == s.sponsor && SubmitTimes(t.log) == SubmitTimes(s.log)
    ensures SponsorInvariant(c, t)
  {
    InvariantLater(SubmitTimes(s.log), s.sponsor, GLOBAL, c.sponsorLimit, c.sponsorWindow, s.now, t.now);
  }

  lemma CountKeepsKey(bucket: Bucket, key: string, maximum: nat, window: nat, now: int)
    requires bucket.Keys <= {key}
    ensures var (after, verdict) := Count(bucket, key, maximum, window, now);
            after.Keys <= {key} && verdict != Exhausted
  {
  }

  lemma SponsorCounts(c: Settings, s: State, time: int)
    requires c.Positive() && SponsorInvariant(c, s) && s.now <= time
    ensures var (after, verdict) := Consumed(s.sponsor, GLOBAL, c.sponsorLimit, c.sponsorWindow, time);
            && verdict != Exhausted
            && after.Keys <= {GLOBAL}
            && WindowInvariant(SubmitTimes(s.log) + if verdict == Accepted then [time] else [], after, GLOBAL,
                               c.sponsorLimit, c.sponsorWindow, time)
  {
    NeverExhausted(c, s, time);
    CountKeepsKey(s.sponsor, GLOBAL, c.sponsorLimit, c.sponsorWindow, time);
    hide Consumed, Count, WindowInvariant;
    assert SubmitTimes(s.log) + [] == SubmitTimes(s.log);
    CountKeepsSpans(SubmitTimes(s.log), s.sponsor, GLOBAL, c.sponsorLimit, c.sponsorWindow, s.now, time);
  }

  lemma RecheckKeepsSponsor(c: Settings, s: State, id: Id, reading: Reading, time: int)
    requires c.Positive() && SponsorInvariant(c, s) && Suspended(s, id, AwaitRecheck) && s.now <= time
    ensures SponsorInvariant(c, Rechecked(c, s, id, reading, time))
  {
    var t := Rechecked(c, s, id, reading, time);
    var input := s.processes[id].input;
    var read := Logged(id, t.now, StatusRead(input.account, reading));
    SubmitTimesSnoc(s.log, read);
    if reading != NotGranted {
      QuietKeepsSponsor(c, s, t);
    } else {
      SponsorCounts(c, s, time);
      assert SubmitTimes(s.log) + [] == SubmitTimes(s.log);
      hide Consumed, WindowInvariant;
      SubmitTimesSnoc(s.log + [read], Logged(id, time, SubmitIssued(input.account, input.proof, input.pub)));
    }
  }

  lemma SponsorKept(c: Settings, s: State, step: Step)
    requires c.Positive() && SponsorInvariant(c, s) && Enabled(s, step)
    ensures SponsorInvariant(c, Apply(c, s, step))
  {
    hide SponsorInvariant, Rechecked, Arrived;
    var t := Apply(c, s, step);
    if step.RecheckAnswered? {
      RecheckKeepsSponsor(c, s, step.id, step.reading, step.time);
    } else {
      if !IsAnswer(step) {
        QuietStep(c, s, step);
      } else {
        SubmitTimesSnoc(s.log, t.log[|s.log|]);
      }
      QuietKeepsSponsor(c, s, t);
    }
  }
}
