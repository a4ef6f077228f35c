/** The teacher client's retry loop and half-open circuit breaker. The backend's answers and the
    clock are inputs of every call; costs, logging and back-off delays are not modelled. */
module TeacherCircuit {
  import opened Basics

  datatype Config = Config(maxRetries: nat, threshold: int, recoveryTimeout: real)

  /** The four fields of the breaker. */
  datatype Circuit = Circuit(open: bool, halfOpen: bool, openedAt: Option<real>, failures: nat)

  /** What one backend request does. A malformed answer raises after the success path has run. */
  datatype Answer = Success | Malformed | Retryable | NonRetryable

  /** One request: when it is sent, its answer, and the clock when the answer is handled. */
  datatype Attempt = Attempt(start: real, answer: Answer, finish: real)

  /** One call of generate: the clock at the gate, the other two gates, and the requests it may make. */
  datatype Call = Call(clock: real, budgetLeft: bool, backendKnown: bool, attempts: nat -> Attempt)

  datatype Outcome =
    | Returned
    | CircuitBlocked | BudgetExceeded | UnknownBackend
    | Raised | ProbeFailed | CircuitOpened | RetriesExhausted

  /** A request as the backend sees it: when it is sent, and the breaker at that moment. */
  datatype Request = Request(start: real, circuit: Circuit)

  /** Result of a call: the breaker afterwards, the outcome, and the requests that were sent. */
  datatype Step = Step(circuit: Circuit, outcome: Outcome, requests: seq<Request>)

  const INITIAL := Circuit(false, false, None, 0)

  // ------------------------------------------------------------ transitions

  /** The gate: None when the call is blocked. */
  function CheckCircuit(cfg: Config, c: Circuit, now: real): Option<Circuit> {
    if !c.open then Some(c)
    else if c.openedAt.None? then Some(c)
    else if now - c.openedAt.value >= cfg.recoveryTimeout then Some(c.(halfOpen := true))
    else None
  }

  function CloseIfHalfOpen(c: Circuit): Circuit {
    if c.halfOpen then Circuit(false, false, None, c.failures) else c
  }

  /** Handling of a retryable failure: the new breaker and the exception raised, if any. */
  function Fail(cfg: Config, c: Circuit, now: real): (Circuit, Option<Outcome>) {
    var d := c.(failures := c.failures + 1);
    if d.failures >= cfg.threshold && d.halfOpen then
      (d.(halfOpen := false, openedAt := Some(now)), Some(ProbeFailed))
    else if d.failures >= cfg.threshold && !d.open then
      (d.(open := true, openedAt := Some(now), halfOpen := false), Some(CircuitOpened))
    else (d, None)
  }

  /** The retry loop from attempt k on. */
  function Retry(cfg: Config, c: Circuit, attempts: nat -> Attempt, k: nat): Step
    decreases cfg.maxRetries - k
  {
    if k >= cfg.maxRetries then Step(c, RetriesExhausted, [])
    else
      var sent := [Request(attempts(k).start, c)];
      match attempts(k).answer
      case Success => Step(CloseIfHalfOpen(c), Returned, sent)
      case NonRetryable => Step(c, Raised, sent)
      case answer =>
        var before := if answer.Malformed? then CloseIfHalfOpen(c) else c;
        var (d, raised) := Fail(cfg, before, attempts(k).finish);
        if raised.Some? then Step(d, raised.value, sent)
        else
          var rest := Retry(cfg, d, attempts, k + 1);
          Step(rest.circuit, rest.outcome, sent + rest.requests)
  }

  function CallApi(cfg: Config, c: Circuit, call: Call): Step {
    var gate := CheckCircuit(cfg, c, call.clock);
    if gate.None? then Step(c, CircuitBlocked, [])
    else if !call.budgetLeft then Step(gate.value, BudgetExceeded, [])
    else if !call.backendKnown then Step(gate.value, UnknownBackend, [])
    else Retry(cfg, gate.value, call.attempts, 0)
  }

  function Generate(cfg: Config, c: Circuit, call: Call): Step {
    var step := CallApi(cfg, c, call);
    if step.outcome.Returned? then step.(circuit := step.circuit.(failures := 0)) else step
  }

  // -------------------------------------------------------------- invariant

  /** Open exactly when the failures have reached the threshold, exactly when an opening time is
      set; half-open only while open. */
  predicate Consistent(cfg: Config, c: Circuit) {
    && (c.open <==> c.failures >= cfg.threshold)
    && (c.open <==> c.openedAt.Some?)
    && (c.halfOpen ==> c.open)
  }

  /** Inside the retry loop an open circuit is being probed. */
  predicate Probing(c: Circuit) {
    c.open ==> c.halfOpen
  }

  /** The retry loop keeps the invariant, up to the counter reset that follows a success; an open
      circuit gets a single request, a closed one no more than the failures still tolerated. */
  lemma {:induction false} RetryConsistent(cfg: Config, c: Circuit, attempts: nat -> Attempt, k: nat)
    requires cfg.threshold >= 1 && Consistent(cfg, c) && Probing(c)
    ensures var s := Retry(cfg, c, attempts, k);
            && Consistent(cfg, if s.outcome.Returned? then s.circuit.(failures := 0) else s.circuit)
            && (k >= cfg.maxRetries ==> s.requests == [])
            && (k < cfg.maxRetries ==> 1 <= |s.requests| <= cfg.maxRetries - k)
            && (c.open ==> |s.requests| <= 1)
            && (!c.open ==> |s.requests| <= cfg.threshold - c.failures)
    decreases cfg.maxRetries - k
  {
    if k < cfg.maxRetries && (attempts(k).answer.Retryable? || attempts(k).answer.Malformed?) {
      var before := if attempts(k).answer.Malformed? then CloseIfHalfOpen(c) else c;
      var (d, raised) := Fail(cfg, before, attempts(k).finish);
      if raised.None? { RetryConsistent(cfg, d, attempts, k + 1); }
    }
  }

  /** Request number i of a retry loop that started in state c at attempt k. */
  function SentAs(c: Circuit, attempts: nat -> Attempt, k: nat, i: nat): Request {
    Request(attempts(k + i).start, c.(failures := c.failures + i))
  }

  /** Every request of a retry loop is sent while the breaker is open, half open and since when it was
      before the loop: no request follows an opening or a closing within the same call. */
  lemma {:induction false} RetryRequests(cfg: Config, c: Circuit, attempts: nat -> Attempt, k: nat)
    requires Consistent(cfg, c)
    ensures var sent := Retry(cfg, c, attempts, k).requests;
            forall i :: 0 <= i < |sent| ==> sent[i] == SentAs(c, attempts, k, i)
    decreases cfg.maxRetries - k
  {
    if k < cfg.maxRetries && (attempts(k).answer.Retryable? || attempts(k).answer.Malformed?) {
      var before := if attempts(k).answer.Malformed? then CloseIfHalfOpen(c) else c;
      var (d, raised) := Fail(cfg, before, attempts(k).finish);
      if raised.None? {
        assert d == c.(failures := c.failures + 1);
        RetryRequests(cfg, d, attempts, k + 1);
        var sent, rest := Retry(cfg, c, attempts, k).requests, Retry(cfg, d, attempts, k + 1).requests;
        forall i | 0 <= i < |sent|
          ensures sent[i] == SentAs(c, attempts, k, i)
        {
          if i > 0 { assert sent[i] == rest[i - 1] == SentAs(d, attempts, k + 1, i - 1); }
        }
      }
    }
  }

  /** The gate opens the way to the backend exactly when the circuit is closed or its timeout is over. */
  lemma GateConsistent(cfg: Config, c: Circuit, now: real)
    requires Consistent(cfg, c)
    ensures CheckCircuit(cfg, c, now).Some? <==> !c.open || now - c.openedAt.value >= cfg.recoveryTimeout
    ensures CheckCircuit(cfg, c, now).Some? ==>
              var d := CheckCircuit(cfg, c, now).value;
              && Consistent(cfg, d) && Probing(d)
              && d.open == c.open && d.failures == c.failures && d.openedAt == c.openedAt
  {
  }

  /** Every call keeps the invariant. While the circuit is open and the timeout is running, a call is
      blocked and sends nothing; an open circuit never gets more than one request per call. */
  lemma GenerateConsistent(cfg: Config, c: Circuit, call: Call)
    requires cfg.threshold >= 1 && Consistent(cfg, c)
    ensures var s := Generate(cfg, c, call);
            && Consistent(cfg, s.circuit)
            && (c.open && call.clock - c.openedAt.value < cfg.recoveryTimeout ==>
                  s == Step(c, CircuitBlocked, []))
            && (c.open && |s.requests| > 0 ==>
                  call.clock - c.openedAt.value >= cfg.recoveryTimeout && |s.requests| == 1)
            && (!c.open ==> |s.requests| <= cfg.threshold - c.failures && |s.requests| <= cfg.maxRetries)
  {
    GateConsistent(cfg, c, call.clock);
    var gate := CheckCircuit(cfg, c, call.clock);
    if gate.Some? { RetryConsistent(cfg, gate.value, call.attempts, 0); }
  }

  /** A fresh client satisfies the invariant exactly when the threshold is at least 1. */
  lemma InitiallyConsistent(cfg: Config)
    ensures Consistent(cfg, INITIAL) <==> cfg.threshold >= 1
  {
  }

  /** A half-open probe that fails sends exactly one request and restarts the timer; one that
      succeeds closes the circuit and clears the counter. */
  lemma Probe(cfg: Config, c: Circuit, call: Call)
    requires cfg.maxRetries >= 1 && Consistent(cfg, c) && c.open
    requires call.clock - c.openedAt.value >= cfg.recoveryTimeout && call.budgetLeft && call.backendKnown
    ensures var s, first := Generate(cfg, c, call), call.attempts(0);
            var reopened := Circuit(true, false, Some(first.finish), c.failures + 1);
            && s.requests == [Request(first.start, c.(halfOpen := true))]
            && (first.answer.Retryable? ==> s.circuit == reopened && s.outcome == ProbeFailed)
            && (first.answer.Malformed? ==> s.circuit == reopened && s.outcome == CircuitOpened)
            && (first.answer.NonRetryable? ==> s.circuit == c.(halfOpen := true) && s.outcome == Raised)
            && (first.answer.Success? ==> s.circuit == INITIAL && s.outcome == Returned)
  {
  }

  /** A call that is blocked, has no budget left or names no known backend sends nothing, and the first
      of these that applies is reported; only an overdue timeout is noted. */
  lemma GatedCalls(cfg: Config, c: Circuit, call: Call)
    requires Consistent(cfg, c)
    ensures var s := Generate(cfg, c, call);
            var waiting := c.open && call.clock - c.openedAt.value < cfg.recoveryTimeout;
            && (waiting ==> s == Step(c, CircuitBlocked, []))
            && (!waiting && !call.budgetLeft ==> s == Step(c.(halfOpen := c.open), BudgetExceeded, []))
            && (!waiting && call.budgetLeft && !call.backendKnown ==>
                  s == Step(c.(halfOpen := c.open), UnknownBackend, []))
  {
  }

  predicate Failed(attempt: Attempt) {
    attempt.answer.Retryable? || attempt.answer.Malformed?
  }

  /** The four ways a loop on a closed breaker ends, n attempts after attempt k has started. */
  lemma {:induction false} ClosedRetry(cfg: Config, f: nat, attempts: nat -> Attempt, k: nat, n: nat)
    requires f < cfg.threshold && k + n <= cfg.maxRetries
    requires forall j: nat :: k <= j < k + n ==> Failed(attempts(j))
    ensures var s := Retry(cfg, Circuit(false, false, None, f), attempts, k);
            && (k + n < cfg.maxRetries && f + n < cfg.threshold && attempts(k + n).answer.Success? ==>
                  s.circuit == Circuit(false, false, None, f + n) && s.outcome == Returned && |s.requests| == n + 1)
            && (k + n < cfg.maxRetries && f + n < cfg.threshold && attempts(k + n).answer.NonRetryable? ==>
                  s.circuit == Circuit(false, false, None, f + n) && s.outcome == Raised && |s.requests| == n + 1)
            && (f + n == cfg.threshold ==>
                  && s.circuit == Circuit(true, false, Some(attempts(k + n - 1).finish), cfg.threshold)
                  && s.outcome == CircuitOpened && |s.requests| == n)
            && (k + n == cfg.maxRetries && f + n < cfg.threshold ==>
                  s.circuit == Circuit(false, false, None, f + n) && s.outcome == RetriesExhausted && |s.requests| == n)
    decreases n
  {
    if n > 0 && f + n <= cfg.threshold {
      assert Failed(attempts(k));
      if f + 1 < cfg.threshold { ClosedRetry(cfg, f + 1, attempts, k + 1, n - 1); }
    }
  }

  /** A call on a closed breaker, after n failures in a row: a success clears the counter, an error not
      to be retried keeps it, the failure that reaches the threshold opens the breaker at that moment,
      and when the retries run out it stays closed. Every request was sent on a closed breaker. */
  lemma ClosedCall(cfg: Config, c: Circuit, call: Call, n: nat)
    requires cfg.threshold >= 1 && Consistent(cfg, c) && !c.open && call.budgetLeft && call.backendKnown
    requires n <= cfg.maxRetries && forall j: nat :: j < n ==> Failed(call.attempts(j))
    ensures var s := Generate(cfg, c, call);
            && (n < cfg.maxRetries && c.failures + n < cfg.threshold && call.attempts(n).answer.Success? ==>
                  s.circuit == Circuit(false, false, None, 0) && s.outcome == Returned && |s.requests| == n + 1)
            && (n < cfg.maxRetries && c.failures + n < cfg.threshold && call.attempts(n).answer.NonRetryable? ==>
                  && s.circuit == Circuit(false, false, None, c.failures + n) && s.outcome == Raised
                  && |s.requests| == n + 1)
            && (c.failures + n == cfg.threshold ==>
                  && s.circuit == Circuit(true, false, Some(call.attempts(n - 1).finish), cfg.threshold)
                  && s.outcome == CircuitOpened && |s.requests| == n)
            && (n == cfg.maxRetries && c.failures + n < cfg.threshold ==>
                  && s.circuit == Circuit(false, false, None, c.failures + n) && s.outcome == RetriesExhausted
                  && |s.requests| == n)
            && forall i :: 0 <= i < |s.requests| ==>
                 s.requests[i] == Request(call.attempts(i).start, Circuit(false, false, None, c.failures + i))
  {
    assert c == Circuit(false, false, None, c.failures);
    ClosedRetry(cfg, c.failures, call.attempts, 0, n);
    RetryRequests(cfg, c, call.attempts, 0);
    var sent := Retry(cfg, c, call.attempts, 0).requests;
    hide Retry;
    forall i | 0 <= i < |sent|
      ensures sent[i] == Request(call.attempts(i).start, Circuit(false, false, None, c.failures + i))
    {
      assert sent[i] == SentAs(c, call.attempts, 0, i);
    }
  }

  // ------------------------------------------------------------- whole runs

  /** The breaker after a run of calls. */
  function Run(cfg: Config, c: Circuit, calls: seq<Call>): Circuit
    decreases |calls|
  {
    if |calls| == 0 then c else Run(cfg, Generate(cfg, c, calls[0]).circuit, calls[1..])
  }

  /** All requests of a run, each with the breaker at the moment it was sent. */
  function Log(cfg: Config, c: Circuit, calls: seq<Call>): seq<Request>
    decreases |calls|
  {
    if |calls| == 0 then []
    else
      var s := Generate(cfg, c, calls[0]);
      s.requests + Log(cfg, s.circuit, calls[1..])
  }

  /** The clock does not run backwards within a call ... */
  ghost predicate Ordered(call: Call) {
    && (forall k: nat :: call.clock <= call.attempts(k).start <= call.attempts(k).finish)
    && (forall j: nat, k: nat :: j < k ==> call.attempts(j).finish <= call.attempts(k).start)
  }

  /** A request may be sent: the breaker is closed, or half open with its timeout over. */
  predicate Allowed(cfg: Config, request: Request) {
    var c := request.circuit;
    Consistent(cfg, c) &&
    (c.open ==> c.halfOpen && request.start - c.openedAt.value >= cfg.recoveryTimeout)
  }

  lemma CallIsSafe(cfg: Config, c: Circuit, call: Call)
    requires cfg.threshold >= 1 && Consistent(cfg, c) && Ordered(call)
    ensures forall request :: request in Generate(cfg, c, call).requests ==> Allowed(cfg, request)
  {
    GateConsistent(cfg, c, call.clock);
    var gate := CheckCircuit(cfg, c, call.clock);
    if gate.Some? && call.budgetLeft && call.backendKnown {
      RetryConsistent(cfg, gate.value, call.attempts, 0);
      RetryRequests(cfg, gate.value, call.attempts, 0);
      var sent := Generate(cfg, c, call).requests;
      forall i | 0 <= i < |sent|
        ensures Allowed(cfg, sent[i])
      {
        assert sent[i] == SentAs(gate.value, call.attempts, 0, i);
      }
    }
  }

  /** Safety of every run: between calls the invariant holds, and whenever a request is sent the
      breaker at that very moment is closed, or half open with its recovery timeout elapsed. */
  lemma {:induction false} RunIsSafe(cfg: Config, c: Circuit, calls: seq<Call>)
    requires cfg.threshold >= 1 && Consistent(cfg, c)
    requires forall i :: 0 <= i < |calls| ==> Ordered(calls[i])
    ensures Consistent(cfg, Run(cfg, c, calls))
    ensures forall request :: request in Log(cfg, c, calls) ==> Allowed(cfg, request)
    decreases |calls|
  {
    if |calls| > 0 {
      assert Ordered(calls[0]);
      GenerateConsistent(cfg, c, calls[0]);
      CallIsSafe(cfg, c, calls[0]);
      RunIsSafe(cfg, Generate(cfg, c, calls[0]).circuit, calls[1..]);
    }
  }

  /** Every request of this call fails in a retryable way, those it can send no later than `end`. */
  ghost predicate Outage(cfg: Config, call: Call, end: real) {
    forall k: nat :: call.attempts(k).answer.Retryable? && (k < cfg.maxRetries ==> call.attempts(k).finish <= end)
  }

  /** Requests sent over a run. */
  function Sent(cfg: Config, c: Circuit, calls: seq<Call>): nat {
    |Log(cfg, c, calls)|
  }

  function Times(n: nat, x: real): real {
    if n == 0 then 0.0 else x + Times(n - 1, x)
  }

  /** State of a client that has seen only an outage from `begin` to `end`: the failure counter counts
      the requests, and past the threshold every further request has cost a full recovery timeout. */
  predicate InOutage(cfg: Config, c: Circuit, begin: real, end: real) {
    && Consistent(cfg, c)
    && (c.open ==> begin + Times(c.failures - cfg.threshold, cfg.recoveryTimeout) <= c.openedAt.value <= end)
  }

  lemma {:induction false} RetryInOutage(cfg: Config, c: Circuit, attempts: nat -> Attempt, k: nat,
                                         begin: real, end: real)
    requires cfg.threshold >= 1 && !c.open && InOutage(cfg, c, begin, end)
    requires forall j: nat :: attempts(j).answer.Retryable? && begin <= attempts(j).finish
    requires forall j: nat :: j < cfg.maxRetries ==> attempts(j).finish <= end
    ensures var s := Retry(cfg, c, attempts, k);
            && !s.outcome.Returned? && InOutage(cfg, s.circuit, begin, end)
            && s.circuit.failures == c.failures + |s.requests|
            && s.circuit.failures <= cfg.threshold
    decreases cfg.maxRetries - k
  {
    if k < cfg.maxRetries {
      var (d, raised) := Fail(cfg, c, attempts(k).finish);
      if raised.None? { RetryInOutage(cfg, d, attempts, k + 1, begin, end); }
    }
  }

  lemma CallInOutage(cfg: Config, c: Circuit, call: Call, begin: real, end: real)
    requires cfg.threshold >= 1 && InOutage(cfg, c, begin, end)
    requires Ordered(call) && Outage(cfg, call, end) && begin <= call.clock
    ensures var s := Generate(cfg, c, call);
            InOutage(cfg, s.circuit, begin, end) && s.circuit.failures == c.failures + |s.requests|
  {
    GateConsistent(cfg, c, call.clock);
    var gate := CheckCircuit(cfg, c, call.clock);
    if gate.Some? && call.budgetLeft && call.backendKnown {
      if !c.open {
        RetryInOutage(cfg, c, call.attempts, 0, begin, end);
      } else if cfg.maxRetries >= 1 {
        Probe(cfg, c, call);
      }
    }
  }

  /** Load during an outage: the failure counter equals the requests sent; until the threshold is
      reached the circuit is closed, and each request beyond it has moved the opening time on by at
      least one recovery timeout, so these timeouts add up to no more than the outage lasts. */
  lemma {:induction false} OutageLoad(cfg: Config, c: Circuit, calls: seq<Call>, begin: real, end: real)
    requires cfg.threshold >= 1 && InOutage(cfg, c, begin, end)
    requires forall i :: 0 <= i < |calls| ==>
                           Ordered(calls[i]) && Outage(cfg, calls[i], end) && begin <= calls[i].clock
    ensures var d := Run(cfg, c, calls);
            && d.failures == c.failures + Sent(cfg, c, calls)
            && (d.open <==> d.failures >= cfg.threshold)
            && (d.open ==> d.openedAt.Some?)
            && (d.open ==> d.openedAt.value >= begin + Times(d.failures - cfg.threshold, cfg.recoveryTimeout))
            && (d.open ==> Times(d.failures - cfg.threshold, cfg.recoveryTimeout) <= end - begin)
    decreases |calls|
  {
    if |calls| > 0 {
      assert Outage(cfg, calls[0], end) && Ordered(calls[0]);
      CallInOutage(cfg, c, calls[0], begin, end);
      OutageLoad(cfg, Generate(cfg, c, calls[0]).circuit, calls[1..], begin, end);
    }
  }

  // -------------------------------------------------------------- the client

  /** The client object. */
  class TeacherClient {
    const cfg: Config
    var circuitOpen: bool
    var circuitHalfOpen: bool
    var circuitOpenedAt: Option<real>
    var consecutiveFailures: nat

    constructor (cfg: Config)
      ensures this.cfg == cfg && State() == INITIAL
    {
      this.cfg := cfg;
      circuitOpen, circuitHalfOpen, circuitOpenedAt, consecutiveFailures := false, false, None, 0;
    }

    function State(): Circuit
      reads this
    {
      Circuit(circuitOpen, circuitHalfOpen, circuitOpenedAt, consecutiveFailures)
    }

    /** The gate; false stands for the raised CircuitBreakerOpenError. */
    method Check(now: real) returns (allowed: bool)
      modifies this
      ensures var gate := CheckCircuit(cfg, old(State()), now);
              allowed == gate.Some? && State() == if allowed then gate.value else old(State())
    {
      if !circuitOpen { return true; }
      if circuitOpenedAt.None? { return true; }
      var elapsed := now - circuitOpenedAt.value;
      if elapsed >= cfg.recoveryTimeout {
        circuitHalfOpen := true;
        return true;
      }
      allowed := false;
    }

    /** Gates, then the retry loop. */
    method Call(call: Call) returns (outcome: Outcome, requests: seq<Request>)
      modifies this
      ensures Step(State(), outcome, requests) == CallApi(cfg, old(State()), call)
    {
      var allowed := Check(call.clock);
      if !allowed { return CircuitBlocked, []; }
      if !call.budgetLeft { return BudgetExceeded, []; }
      if !call.backendKnown { return UnknownBackend, []; }
      ghost var gate := State();
      requests := [];
      for attempt := 0 to cfg.maxRetries
        invariant var rest := Retry(cfg, State(), call.attempts, attempt);
                  Retry(cfg, gate, call.attempts, 0) == Step(rest.circuit, rest.outcome, requests + rest.requests)
      {
        var a := call.attempts(attempt);
        ghost var rest := Retry(cfg, State(), call.attempts, attempt).requests;
        assert rest == rest[..1] + rest[1..] && requests + rest == requests + rest[..1] + rest[1..];
        requests := requests + [Request(a.start, State())];
        if (a.answer.Success? || a.answer.Malformed?) && circuitHalfOpen {
          circuitOpen, circuitHalfOpen, circuitOpenedAt := false, false, None;
        }
        if a.answer.Success? { return Returned, requests; }
        if a.answer.NonRetryable? { return Raised, requests; }
        consecutiveFailures := consecutiveFailures + 1;
        if consecutiveFailures >= cfg.threshold {
          if circuitHalfOpen {
            circuitHalfOpen := false;
            circuitOpenedAt := Some(a.finish);
            return ProbeFailed, requests;
          }
          if !circuitOpen {
            circuitOpen := true;
            circuitOpenedAt := Some(a.finish);
            circuitHalfOpen := false;
            return CircuitOpened, requests;
          }
        }
      }
      outcome := RetriesExhausted;
    }

    /** The public entry point: a returned answer resets the failure counter. */
    method GenerateAnswer(call: Call) returns (outcome: Outcome, requests: seq<Request>)
      modifies this
      ensures Step(State(), outcome, requests) == Generate(cfg, old(State()), call)
      ensures cfg.threshold >= 1 && old(Consistent(cfg, State())) ==> Consistent(cfg, State())
    {
      GenerateConsistentIf(cfg, State(), call);
      outcome, requests := Call(call);
      if outcome.Returned? { consecutiveFailures := 0; }
    }
  }

  lemma GenerateConsistentIf(cfg: Config, c: Circuit, call: Call)
    ensures cfg.threshold >= 1 && Consistent(cfg, c) ==> Consistent(cfg, Generate(cfg, c, call).circuit)
  {
    if cfg.threshold >= 1 && Consistent(cfg, c) { GenerateConsistent(cfg, c, call); }
  }
}
