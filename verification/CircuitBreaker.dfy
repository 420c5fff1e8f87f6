/** The MangaDex circuit breaker and its composition with the request spacer under one permit. */
module CircuitBreaker {
  import opened Numbers
  import opened Options
  import opened SlotSchedule

  // Durations and instants are in milliseconds.
  const MANGADEX_FAILURE_THRESHOLD: nat := 3
  const MANGADEX_CIRCUIT_COOLDOWN: nat := 5 * 60 * 1000
  const MANGADEX_CIRCUIT_MAX_COOLDOWN: nat := 60 * 60 * 1000
  const DURATION_MAX: nat := 0xffff_ffff_ffff_ffff * 1000 + 999
  const U32_MAX: nat := 0xffff_ffff

  datatype RequestResult = Success | Failure | Throttled

  /** The locked state of the breaker. */
  datatype Circuit = Circuit(consecutiveFailures: nat, openUntil: Option<int>, probing: bool, openCount: nat)

  datatype Policy = Policy(threshold: nat, cooldown: nat)

  const CLOSED := Circuit(0, None, false, 0)

  predicate Admits(c: Circuit, now: int) {
    c.openUntil.Some? ==> c.openUntil.value <= now && !c.probing
  }

  /** The circuit after a request was let through. */
  function Admitted(c: Circuit): Circuit {
    if c.openUntil.Some? then c.(probing := true) else c
  }

  function CheckedMul(duration: nat, multiplier: nat): Option<nat> {
    if duration * multiplier <= DURATION_MAX then Some(duration * multiplier) else None
  }

  function Pow2(n: nat): nat {
    if n == 0 then 1 else 2 * Pow2(n - 1)
  }

  /** The cooldown of the opening that finds `openCount` earlier ones. */
  function Cooldown(cooldown: nat, openCount: nat): nat {
    var scaled := match CheckedMul(cooldown, Pow2(Min(openCount, 3)))
      case Some(product) => product
      case None => MANGADEX_CIRCUIT_MAX_COOLDOWN;
    Min(scaled, MANGADEX_CIRCUIT_MAX_COOLDOWN)
  }

  function Recorded(c: Circuit, result: RequestResult, now: int, policy: Policy): Circuit {
    if result.Success? then CLOSED
    else
      var failures := c.consecutiveFailures + 1;
      if result.Throttled? || c.probing || failures >= policy.threshold then
        Circuit(0, Some(now + Cooldown(policy.cooldown, c.openCount)), false, Min(c.openCount + 1, U32_MAX))
      else c.(consecutiveFailures := failures, probing := false)
  }

  class MangaDexCircuitBreaker {
    const failureThreshold: nat
    const cooldown: nat
    var consecutiveFailures: nat
    var openUntil: Option<int>
    var halfOpenProbeActive: bool
    var openCount: nat

    function State(): Circuit
      reads this
    {
      Circuit(consecutiveFailures, openUntil, halfOpenProbeActive, openCount)
    }

    constructor (failureThreshold: nat, cooldown: nat)
      ensures State() == CLOSED
      ensures this.failureThreshold == failureThreshold && this.cooldown == cooldown
    {
      this.failureThreshold, this.cooldown := failureThreshold, cooldown;
      consecutiveFailures, openUntil, halfOpenProbeActive, openCount := 0, None, false, 0;
    }

    method AllowsRequest(now: int) returns (allowed: bool)
      modifies this
      ensures allowed == Admits(old(State()), now)
      ensures State() == if allowed then Admitted(old(State())) else old(State())
    {
      if openUntil.Some? {
        if openUntil.value > now {
          return false;
        }
        if halfOpenProbeActive {
          return false;
        }
        halfOpenProbeActive := true;
      }
      return true;
    }

    method RecordResult(result: RequestResult, now: int)
      modifies this
      ensures State() == Recorded(old(State()), result, now, Policy(failureThreshold, cooldown))
    {
      if result.Success? {
        consecutiveFailures, openUntil, halfOpenProbeActive, openCount := 0, None, false, 0;
        return;
      }
      var failedProbe := halfOpenProbeActive;
      halfOpenProbeActive := false;
      consecutiveFailures := consecutiveFailures + 1;
      if result.Throttled? || failedProbe || consecutiveFailures >= failureThreshold {
        var multiplier := Pow2(Min(openCount, 3));
        var product := CheckedMul(cooldown, multiplier);
        var capped := if product.Some? then product.value else MANGADEX_CIRCUIT_MAX_COOLDOWN;
        openUntil := Some(now + Min(capped, MANGADEX_CIRCUIT_MAX_COOLDOWN));
        consecutiveFailures := 0;
        openCount := Min(openCount + 1, U32_MAX);
      }
    }
  }

  // ---------------------------------------------------------------- whole runs of `send`

  /** A finished request: when it was sent, when its result was recorded, whether it was sent while
      the circuit was half open, and the result. */
  datatype Attempt = Attempt(start: int, finish: int, probe: bool, result: RequestResult)

  datatype Phase = Idle | Holding(slot: int) | InFlight(start: int)

  /** Any number of callers share the semaphore, the spacer, the breaker and one clock. */
  datatype System = System(permits: nat, phases: map<nat, Phase>, nextFree: int, circuit: Circuit,
                           now: int, log: seq<Attempt>)

  datatype Step =
    | Tick(elapsed: nat)
    | Acquire(caller: nat)
    | Refuse(caller: nat)
    | Send(caller: nat)
    | Finish(caller: nat, result: RequestResult)

  predicate Enabled(s: System, step: Step) {
    match step
    case Tick(_) => true
    case Acquire(i) => i in s.phases && s.phases[i].Idle? && s.permits > 0
    case Refuse(i) =>
      i in s.phases && s.phases[i].Holding? && s.phases[i].slot <= s.now && !Admits(s.circuit, s.now)
    case Send(i) =>
      i in s.phases && s.phases[i].Holding? && s.phases[i].slot <= s.now && Admits(s.circuit, s.now)
    case Finish(i, _) => i in s.phases && s.phases[i].InFlight?
  }

  function Apply(s: System, step: Step, policy: Policy): System
    requires Enabled(s, step)
  {
    match step
    case Tick(elapsed) => s.(now := s.now + elapsed)
    case Acquire(i) =>
      var slot := Max(s.nextFree, s.now);
      s.(permits := s.permits - 1, phases := s.phases[i := Holding(slot)],
         nextFree := slot + MANGADEX_MIN_REQUEST_INTERVAL)
    case Refuse(i) => s.(permits := s.permits + 1, phases := s.phases[i := Idle])
    case Send(i) => s.(circuit := Admitted(s.circuit), phases := s.phases[i := InFlight(s.now)])
    case Finish(i, result) =>
      s.(permits := s.permits + 1, phases := s.phases[i := Idle],
         circuit := Recorded(s.circuit, result, s.now, policy),
         log := s.log + [Attempt(s.phases[i].start, s.now, s.circuit.probing, result)])
  }

  predicate Initial(s: System) {
    && s.permits == 1 && s.circuit == CLOSED && s.log == []
    && forall i :: i in s.phases ==> s.phases[i].Idle?
  }

  /** `states` is a run of `send` calls that takes `steps` one after the other. */
  predicate IsRun(states: seq<System>, steps: seq<Step>, policy: Policy) {
    && |states| == |steps| + 1 && Initial(states[0])
    && forall k :: 0 <= k < |steps| ==>
         Enabled(states[k], steps[k]) && states[k + 1] == Apply(states[k], steps[k], policy)
  }

  // ---------------------------------------------------------------- outages, read off the log alone

  /** The attempts after the latest success. */
  function Outage(log: seq<Attempt>): seq<Attempt> {
    if log == [] then []
    else
      var last := log[|log| - 1];
      if last.result.Success? then [] else Outage(log[..|log| - 1]) + [last]
  }

  /** How many attempts of an outage it takes to open the circuit for the first time: up to the first
      throttled reply, but never more than the threshold. None while the circuit is still closed. */
  function Opening(outage: seq<Attempt>, threshold: nat): (opening: Option<nat>)
    ensures opening.Some? ==> 1 <= opening.value <= |outage| && opening.value <= Max(threshold, 1)
    ensures opening.None? ==> |outage| < Max(threshold, 1)
  {
    if outage == [] then None
    else
      var earlier := Opening(outage[..|outage| - 1], threshold);
      if earlier.Some? then earlier
      else if outage[|outage| - 1].result.Throttled? || |outage| >= threshold then Some(|outage|)
      else None
  }

  /** The wait imposed by the opening that finds n earlier ones, and by the first n openings together. */
  function Backoff(cooldown: nat, n: nat): nat {
    Min(cooldown * Pow2(Min(n, 3)), MANGADEX_CIRCUIT_MAX_COOLDOWN)
  }

  function TotalBackoff(cooldown: nat, n: nat): nat {
    if n == 0 then 0 else TotalBackoff(cooldown, n - 1) + Backoff(cooldown, n - 1)
  }

  lemma CooldownIsBackoff(cooldown: nat, n: nat)
    ensures Cooldown(cooldown, Min(n, U32_MAX)) == Backoff(cooldown, n)
  {
    assert Min(Min(n, U32_MAX), 3) == Min(n, 3);
  }

  /** An outage is what was attempted after the latest success. */
  lemma {:induction false} OutageIs(log: seq<Attempt>) returns (n: nat)
    ensures n <= |log| && Outage(log) == log[n..]
    ensures n == 0 || log[n - 1].result == Success
    ensures forall k :: n <= k < |log| ==> log[k].result != Success
  {
    n := |log|;
    if log != [] && !log[|log| - 1].result.Success? {
      var rest := log[..|log| - 1];
      n := OutageIs(rest);
      assert log[n..] == rest[n..] + [log[|log| - 1]];
    }
  }

  /** The attempt that first opens the circuit is the first that is throttled or reaches the threshold. */
  lemma {:induction false} OpeningIs(outage: seq<Attempt>, threshold: nat, n: nat)
    ensures Opening(outage, threshold) == Some(n) <==>
            && 1 <= n <= |outage| && (outage[n - 1].result == Throttled || n >= threshold)
            && forall m :: 0 <= m < n - 1 ==> outage[m].result != Throttled && m + 1 < threshold
  {
    if outage != [] {
      var rest := outage[..|outage| - 1];
      OpeningIs(rest, threshold, n);
      assert forall k :: 0 <= k < |rest| ==> rest[k] == outage[k];
      if Opening(rest, threshold).Some? {
        OpeningIs(rest, threshold, Opening(rest, threshold).value);
      } else {
        NotOpened(rest, threshold);
      }
    }
  }

  lemma {:induction false} NotOpened(outage: seq<Attempt>, threshold: nat)
    requires Opening(outage, threshold).None?
    ensures forall m :: 0 <= m < |outage| ==> outage[m].result != Throttled && m + 1 < threshold
  {
    if outage != [] {
      var rest := outage[..|outage| - 1];
      NotOpened(rest, threshold);
      assert forall k :: 0 <= k < |rest| ==> rest[k] == outage[k];
    }
  }

  /** Each wait is the cooldown times one, two, four and from then on eight, but never more than an hour. */
  lemma BackoffIs(cooldown: nat, n: nat)
    ensures var scaled := cooldown * (if n == 0 then 1 else if n == 1 then 2 else if n == 2 then 4 else 8);
            Backoff(cooldown, n) == if scaled < 3_600_000 then scaled else 3_600_000
  {
    assert Pow2(0) == 1 && Pow2(1) == 2 && Pow2(2) == 4 && Pow2(3) == 8;
  }

  /** The circuit is determined by the outage in progress. */
  ghost predicate Explains(outage: seq<Attempt>, c: Circuit, policy: Policy) {
    match Opening(outage, policy.threshold)
    case None => c == Circuit(|outage|, None, false, 0)
    case Some(n) =>
      && c.consecutiveFailures == 0
      && c.openCount == Min(|outage| - n + 1, U32_MAX)
      && c.openUntil == Some(outage[|outage| - 1].finish + Backoff(policy.cooldown, |outage| - n))
  }

  /** Attempts take their turns, exactly those after the first opening are probes, and each probe waits
      out the cooldown set by the attempt before it. */
  ghost predicate Paced(outage: seq<Attempt>, policy: Policy) {
    var opening := Opening(outage, policy.threshold);
    && (forall j :: 0 <= j < |outage| ==> outage[j].start <= outage[j].finish)
    && (forall j :: 0 <= j < |outage| ==> (outage[j].probe <==> opening.Some? && j >= opening.value))
    && (opening.Some? ==> forall j :: opening.value <= j < |outage| ==>
          outage[j].start >= outage[j - 1].finish + Backoff(policy.cooldown, j - opening.value))
  }

  /** One permit, at most one caller past the semaphore, and a circuit that matches the log. */
  ghost predicate Inv(s: System, policy: Policy) {
    && OnePermit(s)
    && LogMatches(s, policy)
    && InFlightMatches(s)
  }

  lemma OutageGrows(log: seq<Attempt>, a: Attempt)
    ensures Outage(log + [a]) == if a.result.Success? then [] else Outage(log) + [a]
  {
    assert (log + [a])[..|log|] == log;
  }

  lemma OpeningGrows(outage: seq<Attempt>, a: Attempt, threshold: nat)
    ensures Opening(outage + [a], threshold) ==
            var earlier := Opening(outage, threshold);
            if earlier.Some? then earlier
            else if a.result.Throttled? || |outage| + 1 >= threshold then Some(|outage| + 1) else None
  {
    assert (outage + [a])[..|outage|] == outage;
  }

  /** The circuit a failed attempt is recorded in, and the attempt. */
  ghost predicate CanFail(outage: seq<Attempt>, c: Circuit, a: Attempt, policy: Policy) {
    && Explains(outage, c, policy) && Paced(outage, policy)
    && !a.result.Success? && a.start <= a.finish && a.probe == c.probing
    && (c.probing <==> c.openUntil.Some?)
    && (c.openUntil.Some? ==> c.openUntil.value <= a.start)
  }

  lemma FailureExplained(outage: seq<Attempt>, c: Circuit, a: Attempt, policy: Policy)
    requires CanFail(outage, c, a, policy)
    ensures Explains(outage + [a], Recorded(c, a.result, a.finish, policy), policy)
  {
    OpeningGrows(outage, a, policy.threshold);
    match Opening(outage, policy.threshold)
    case None => CooldownIsBackoff(policy.cooldown, 0);
    case Some(n) => CooldownIsBackoff(policy.cooldown, |outage| - n + 1);
  }

  lemma FailurePaced(outage: seq<Attempt>, c: Circuit, a: Attempt, policy: Policy)
    requires CanFail(outage, c, a, policy)
    ensures Paced(outage + [a], policy)
  {
    var grown := outage + [a];
    assert forall j :: 0 <= j < |outage| ==> grown[j] == outage[j];
    assert grown[|outage|] == a;
    OpeningGrows(outage, a, policy.threshold);
  }

  /** The part of the invariant about the semaphore. */
  ghost predicate OnePermit(s: System) {
    && s.permits <= 1
    && (forall i, j :: i in s.phases && j in s.phases && !s.phases[i].Idle? && !s.phases[j].Idle? ==> i == j)
    && (s.permits == 1 <==> forall i :: i in s.phases ==> s.phases[i].Idle?)
  }

  lemma PermitStep(s: System, step: Step, policy: Policy)
    requires OnePermit(s) && Enabled(s, step)
    ensures OnePermit(Apply(s, step, policy))
  {
    var after := Apply(s, step, policy);
    if step.Acquire? || step.Send? {
      assert step.caller in after.phases && !after.phases[step.caller].Idle?;
    }
  }

  /** The part about the request in flight, if there is one. */
  ghost predicate InFlightMatches(s: System) {
    && (forall i :: i in s.phases && s.phases[i].InFlight? ==>
          && s.phases[i].start <= s.now
          && (s.circuit.probing <==> s.circuit.openUntil.Some?)
          && (s.circuit.openUntil.Some? ==> s.circuit.openUntil.value <= s.phases[i].start))
    && ((forall i :: i in s.phases ==> !s.phases[i].InFlight?) ==> !s.circuit.probing)
  }

  lemma InFlightStep(s: System, step: Step, policy: Policy)
    requires OnePermit(s) && InFlightMatches(s) && Enabled(s, step)
    ensures InFlightMatches(Apply(s, step, policy))
  {
    var after := Apply(s, step, policy);
    if step.Send? {
      assert after.phases[step.caller].InFlight?;
    } else if !step.Finish? {
      forall i | i in s.phases && s.phases[i].InFlight? ensures i in after.phases && after.phases[i].InFlight? {
      }
    }
  }

  ghost predicate LogMatches(s: System, policy: Policy) {
    Explains(Outage(s.log), s.circuit, policy) && Paced(Outage(s.log), policy)
  }

  lemma AdmittedExplained(outage: seq<Attempt>, c: Circuit, policy: Policy)
    requires Explains(outage, c, policy)
    ensures Explains(outage, Admitted(c), policy)
  {
  }

  lemma FinishStep(s: System, caller: nat, result: RequestResult, policy: Policy)
    requires InFlightMatches(s) && LogMatches(s, policy) && Enabled(s, Finish(caller, result))
    ensures LogMatches(Apply(s, Finish(caller, result), policy), policy)
  {
    var a := Attempt(s.phases[caller].start, s.now, s.circuit.probing, result);
    OutageGrows(s.log, a);
    if !result.Success? {
      var outage := Outage(s.log);
      assert CanFail(outage, s.circuit, a, policy);
      FailureExplained(outage, s.circuit, a, policy);
      FailurePaced(outage, s.circuit, a, policy);
    }
  }

  lemma LogStep(s: System, step: Step, policy: Policy)
    requires InFlightMatches(s) && LogMatches(s, policy) && Enabled(s, step)
    ensures LogMatches(Apply(s, step, policy), policy)
  {
    match step
    case Finish(caller, result) => FinishStep(s, caller, result, policy);
    case Send(_) => AdmittedExplained(Outage(s.log), s.circuit, policy);
    case _ =>
  }

  lemma InvStep(s: System, step: Step, policy: Policy)
    requires Inv(s, policy) && Enabled(s, step)
    ensures Inv(Apply(s, step, policy), policy)
  {
    PermitStep(s, step, policy);
    InFlightStep(s, step, policy);
    LogStep(s, step, policy);
  }

  lemma {:induction false} InvAlong(states: seq<System>, steps: seq<Step>, policy: Policy, k: nat)
    requires IsRun(states, steps, policy) && k < |states|
    ensures Inv(states[k], policy)
  {
    if k > 0 {
      InvAlong(states, steps, policy, k - 1);
      InvStep(states[k - 1], steps[k - 1], policy);
    }
  }

  /** No two requests are ever in flight, or even past the semaphore, together. */
  lemma OneAtATime(states: seq<System>, steps: seq<Step>, policy: Policy, k: nat, i: nat, j: nat)
    requires IsRun(states, steps, policy) && k < |states|
    requires i in states[k].phases && j in states[k].phases
    requires !states[k].phases[i].Idle? && !states[k].phases[j].Idle?
    ensures i == j
  {
    InvAlong(states, steps, policy, k);
  }

  lemma {:induction false} PacedSum(outage: seq<Attempt>, policy: Policy, first: nat, j: nat)
    requires Paced(outage, policy) && Opening(outage, policy.threshold) == Some(first)
    requires first <= j < |outage|
    ensures outage[j].start >= outage[first - 1].finish + TotalBackoff(policy.cooldown, j - first + 1)
  {
    if j > first {
      PacedSum(outage, policy, first, j - 1);
    }
  }

  /** At most `threshold` attempts (one, if it is zero) come before or at the first opening; every later
      one is a probe; and the n-th probe is sent no earlier than the first opening plus the sum of the
      first n backoffs. */
  ghost predicate Bounded(outage: seq<Attempt>, policy: Policy) {
    match Opening(outage, policy.threshold)
    case None => |outage| < Max(policy.threshold, 1) && forall j :: 0 <= j < |outage| ==> !outage[j].probe
    case Some(first) =>
      && first <= Max(policy.threshold, 1)
      && (forall j :: 0 <= j < |outage| ==> (outage[j].probe <==> j >= first))
      && forall n :: 1 <= n <= |outage| - first ==>
           outage[first + n - 1].start >= outage[first - 1].finish + TotalBackoff(policy.cooldown, n)
  }

  lemma PacedIsBounded(outage: seq<Attempt>, policy: Policy)
    requires Paced(outage, policy)
    ensures Bounded(outage, policy)
  {
    var opening := Opening(outage, policy.threshold);
    if opening.Some? {
      var first := opening.value;
      forall n | 1 <= n <= |outage| - first
        ensures outage[first + n - 1].start >= outage[first - 1].finish + TotalBackoff(policy.cooldown, n)
      {
        PacedSum(outage, policy, first, first + n - 1);
      }
    }
  }

  /** Outage bound: in any run, the attempts since the latest success are bounded as described. */
  lemma OutageBound(states: seq<System>, steps: seq<Step>, policy: Policy, k: nat)
    requires IsRun(states, steps, policy) && k < |states|
    ensures Bounded(Outage(states[k].log), policy)
  {
    InvAlong(states, steps, policy, k);
    PacedIsBounded(Outage(states[k].log), policy);
  }

  /** Once the circuit has opened, `start` is no earlier than all the backoffs so far allow. */
  ghost predicate WaitedOut(outage: seq<Attempt>, start: int, policy: Policy) {
    match Opening(outage, policy.threshold)
    case None => true
    case Some(first) =>
      start >= outage[first - 1].finish + TotalBackoff(policy.cooldown, |outage| - first + 1)
  }

  lemma BackoffsSoFar(outage: seq<Attempt>, policy: Policy, first: nat)
    requires Paced(outage, policy) && Opening(outage, policy.threshold) == Some(first)
    ensures outage[|outage| - 1].finish >= outage[first - 1].finish + TotalBackoff(policy.cooldown, |outage| - first)
  {
    var last := |outage| - 1;
    if first <= last {
      PacedSum(outage, policy, first, last);
      assert last - first + 1 == |outage| - first && outage[last].finish >= outage[last].start;
    }
  }

  lemma StartAfterBackoffs(outage: seq<Attempt>, c: Circuit, start: int, policy: Policy)
    requires Explains(outage, c, policy) && Paced(outage, policy)
    requires c.openUntil.Some? ==> c.openUntil.value <= start
    ensures c.openUntil.Some? <==> Opening(outage, policy.threshold).Some?
    ensures WaitedOut(outage, start, policy)
  {
    var opening := Opening(outage, policy.threshold);
    if opening.Some? {
      BackoffsSoFar(outage, policy, opening.value);
    }
  }

  lemma ProbeOf(s: System, policy: Policy, i: nat)
    requires LogMatches(s, policy) && InFlightMatches(s) && i in s.phases && s.phases[i].InFlight?
    ensures s.circuit.probing <==> Opening(Outage(s.log), policy.threshold).Some?
    ensures WaitedOut(Outage(s.log), s.phases[i].start, policy)
  {
    StartAfterBackoffs(Outage(s.log), s.circuit, s.phases[i].start, policy);
  }

  /** The same for a request on its way during an outage: once the circuit has opened it is a probe, and
      it was sent no earlier than all the backoffs so far allow. */
  lemma ProbeInFlight(states: seq<System>, steps: seq<Step>, policy: Policy, k: nat, i: nat)
    requires IsRun(states, steps, policy) && k < |states|
    requires i in states[k].phases && states[k].phases[i].InFlight?
    ensures states[k].circuit.probing <==> Opening(Outage(states[k].log), policy.threshold).Some?
    ensures WaitedOut(Outage(states[k].log), states[k].phases[i].start, policy)
  {
    InvAlong(states, steps, policy, k);
    ProbeOf(states[k], policy, i);
  }

  /** With the shipped constants the waits are five, ten, twenty and forty minutes, then forty for ever:
      the one-hour cap is never reached. */
  lemma {:induction false} ShippedBackoff(n: nat)
    ensures TotalBackoff(MANGADEX_CIRCUIT_COOLDOWN, n) ==
            (match n case 0 => 0 case 1 => 5 case 2 => 15 case 3 => 35 case _ => 75 + 40 * (n - 4)) * 60 * 1000
  {
    if n > 0 {
      ShippedBackoff(n - 1);
      assert Pow2(Min(n - 1, 3)) == if n == 1 then 1 else if n == 2 then 2 else if n == 3 then 4 else 8;
    }
  }

  /** When a request is let through, in terms of the log alone: always, before the circuit has opened in the
      outage under way (or outside any); afterwards only when no probe is out and the backoff counted from
      the latest attempt has passed. */
  lemma AdmissionIff(states: seq<System>, steps: seq<Step>, policy: Policy, k: nat)
    requires IsRun(states, steps, policy) && k < |states|
    ensures var s := states[k];
            var outage := Outage(s.log);
            var opening := Opening(outage, policy.threshold);
            Admits(s.circuit, s.now) <==>
            || opening.None?
            || (&& (forall i :: i in s.phases ==> !s.phases[i].InFlight?)
                && s.now >= outage[|outage| - 1].finish + Backoff(policy.cooldown, |outage| - opening.value))
  {
    InvAlong(states, steps, policy, k);
  }

  lemma ShippedWaits(outage: seq<Attempt>, first: nat, n: nat)
    requires Bounded(outage, Policy(3, MANGADEX_CIRCUIT_COOLDOWN)) && Opening(outage, 3) == Some(first)
    requires 1 <= n <= |outage| - first
    ensures outage[first + n - 1].start
            >= outage[first - 1].finish
               + (match n case 1 => 5 case 2 => 15 case 3 => 35 case _ => 75 + 40 * (n - 4)) * 60_000
  {
    var waited := TotalBackoff(MANGADEX_CIRCUIT_COOLDOWN, n);
    assert outage[first + n - 1].start >= outage[first - 1].finish + waited;
    ShippedBackoff(n);
  }

  ghost predicate ShippedBounded(outage: seq<Attempt>, n: nat) {
    match Opening(outage, 3)
    case None => |outage| < 3
    case Some(first) =>
      && 1 <= first <= 3
      && (1 <= n <= |outage| - first ==>
            outage[first + n - 1].start
            >= outage[first - 1].finish
               + (match n case 1 => 5 case 2 => 15 case 3 => 35 case _ => 75 + 40 * (n - 4)) * 60_000)
  }

  lemma ShippedBound(outage: seq<Attempt>, n: nat)
    requires Bounded(outage, Policy(3, MANGADEX_CIRCUIT_COOLDOWN))
    ensures ShippedBounded(outage, n)
  {
    var opening := Opening(outage, 3);
    if opening.Some? && 1 <= n <= |outage| - opening.value {
      ShippedWaits(outage, opening.value, n);
    }
  }

  /** The same with the shipped policy: the circuit opens at the third failure in a row at the latest, and the
      probes wait five, ten, twenty and then always forty minutes. */
  lemma ShippedOutage(states: seq<System>, steps: seq<Step>, k: nat, n: nat)
    requires IsRun(states, steps, Policy(MANGADEX_FAILURE_THRESHOLD, MANGADEX_CIRCUIT_COOLDOWN)) && k < |states|
    ensures ShippedBounded(Outage(states[k].log), n)
  {
    OutageBound(states, steps, Policy(MANGADEX_FAILURE_THRESHOLD, MANGADEX_CIRCUIT_COOLDOWN), k);
    ShippedBound(Outage(states[k].log), n);
  }

  // ---------------------------------------------------------------- the spacer in `send`

  lemma {:induction false} NextFreeForward(states: seq<System>, steps: seq<Step>, policy: Policy, k: nat, m: nat)
    requires IsRun(states, steps, policy) && k <= m < |states|
    ensures states[k].nextFree <= states[m].nextFree
    ensures (forall j :: k <= j < m ==> !steps[j].Acquire?) ==> states[k].nextFree == states[m].nextFree
  {
    if k < m {
      NextFreeForward(states, steps, policy, k, m - 1);
    }
  }

  /** In every run, a caller past the semaphore gets a slot no sooner than it asks, and any two slots are a
      quarter of a second apart; the next one is no later than that requires. */
  lemma SlotsInRun(states: seq<System>, steps: seq<Step>, policy: Policy, k: nat, m: nat)
    requires IsRun(states, steps, policy) && k < m < |steps| && steps[k].Acquire? && steps[m].Acquire?
    ensures states[k + 1].phases[steps[k].caller].Holding? && states[m + 1].phases[steps[m].caller].Holding?
    ensures var (first, second) := (states[k + 1].phases[steps[k].caller].slot,
                                    states[m + 1].phases[steps[m].caller].slot);
            && first >= states[k].now && second >= states[m].now && second >= first + 250
            && ((forall j :: k < j < m ==> !steps[j].Acquire?) ==> second == states[m].now || second == first + 250)
  {
    NextFreeForward(states, steps, policy, k + 1, m);
  }

  /** A request is sent no sooner than its slot, and during an outage no sooner than the wait set by the latest
      attempt is over. */
  lemma SentOnTime(states: seq<System>, steps: seq<Step>, policy: Policy, k: nat)
    requires IsRun(states, steps, policy) && k < |steps| && steps[k].Send?
    ensures var c := steps[k].caller;
            && states[k].phases[c].Holding? && states[k].phases[c].slot <= states[k].now
            && states[k + 1].phases[c] == InFlight(states[k].now)
            && var outage := Outage(states[k].log);
               var opening := Opening(outage, policy.threshold);
               opening.Some? ==>
                 states[k].now >= outage[|outage| - 1].finish + Backoff(policy.cooldown, |outage| - opening.value)
  {
    AdmissionIff(states, steps, policy, k);
  }
}
