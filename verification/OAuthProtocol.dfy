/** Any number of callers, on any number of API instances, share the token row through its row lock.
    Each interleaving of their steps amounts to one legal history of the row, so everything proved about
    legal histories holds of every interleaving. */
module OAuthProtocol {
  import opened Options
  import opened OAuth

  /** Where a caller stands: waiting for the row lock in a transaction begun at `begun`, holding it while
      a refresh token is with the server, or waiting to record a rejected token. */
  datatype Phase =
    | Idle
    | Waiting(rejected: Option<string>, begun: int)
    | Exchanging(rejected: Option<string>, begun: int, locked: int, presented: string)
    | Marking(token: string, begun: int)

  datatype System = System(row: Option<Row>, holder: Option<nat>, callers: map<nat, Phase>, now: int)

  datatype Step =
    | Tick(elapsed: nat)
    | Seed(access: string, refresh: string, expiresAt: int)
    | Begin(caller: nat, rejected: Option<string>)
    | Lock(caller: nat)
    | Settled(caller: nat, reply: Reply)
    | BeginMark(caller: nat, token: string)
    | Mark(caller: nat)

  /** The row lock is free, so caller i can take it. */
  predicate CanLock(s: System, i: nat) {
    i in s.callers && s.holder.None?
  }

  predicate Enabled(s: System, step: Step) {
    match step
    case Tick(_) => true
    case Seed(_, _, _) => true
    case Begin(i, _) => i in s.callers && s.callers[i].Idle?
    case BeginMark(i, _) => i in s.callers && s.callers[i].Idle?
    case Lock(i) => CanLock(s, i) && s.callers[i].Waiting?
    case Mark(i) => CanLock(s, i) && s.callers[i].Marking?
    case Settled(i, _) => i in s.callers && s.callers[i].Exchanging?
  }

  function Apply(s: System, step: Step): System
    requires Enabled(s, step)
  {
    match step
    case Tick(elapsed) => s.(now := s.now + elapsed)
    case Seed(access, refresh, expiresAt) =>
      if s.row.None? then s.(row := Some(Row(access, refresh, expiresAt, None, false))) else s
    case Begin(i, rejected) => s.(callers := s.callers[i := Waiting(rejected, s.now)])
    case BeginMark(i, token) => s.(callers := s.callers[i := Marking(token, s.now)])
    case Lock(i) =>
      var w := s.callers[i];
      if s.row.Some? && Decide(s.row.value, w.rejected, s.now).Exchange? then
        s.(holder := Some(i),
           callers := s.callers[i := Exchanging(w.rejected, w.begun, s.now, s.row.value.refresh)])
      else s.(callers := s.callers[i := Idle])
    case Mark(i) =>
      s.(row := if s.row.Some? then Some(Marked(s.row.value, s.callers[i].token, s.callers[i].begun)) else None,
         callers := s.callers[i := Idle])
    case Settled(i, reply) =>
      s.(row := if s.row.Some? then Some(Settle(s.row.value, reply, s.callers[i].begun, s.now)) else None,
         holder := None, callers := s.callers[i := Idle])
  }

  /** What the step commits to the history of the row. */
  function Committed(s: System, step: Step): seq<Event>
    requires Enabled(s, step)
  {
    match step
    case Seed(access, refresh, expiresAt) => [Seeded(access, refresh, expiresAt)]
    case Mark(i) => [MarkedRejected(s.callers[i].token, s.callers[i].begun)]
    case Settled(i, reply) =>
      var e := s.callers[i];
      [Exchanged(e.rejected, Timing(e.begun, e.locked, s.now, reply), e.presented)]
    case Lock(i) =>
      var rejected := s.callers[i].rejected;
      if s.row.None? then [Refused(rejected, s.now)]
      else
        (match Decide(s.row.value, rejected, s.now)
         case Refuse => [Refused(rejected, s.now)]
         case HandOut(token) => [HandedOut(rejected, s.now, token)]
         case Exchange(_) => [])
    case Tick(_) => []
    case Begin(_, _) => []
    case BeginMark(_, _) => []
  }

  /** The history committed by the first k steps. */
  function History(states: seq<System>, steps: seq<Step>, k: nat): seq<Event>
    requires k <= |steps| < |states|
    requires forall i :: 0 <= i < |steps| ==> Enabled(states[i], steps[i])
  {
    if k == 0 then [] else History(states, steps, k - 1) + Committed(states[k - 1], steps[k - 1])
  }

  predicate Initial(s: System) {
    s.row.None? && s.holder.None? && forall i :: i in s.callers ==> s.callers[i].Idle?
  }

  ghost predicate IsRun(states: seq<System>, steps: seq<Step>) {
    && |states| == |steps| + 1 && Initial(states[0])
    && forall k :: 0 <= k < |steps| ==> Enabled(states[k], steps[k]) && states[k + 1] == Apply(states[k], steps[k])
  }

  /** The server never grants a refresh token that the row has held before. */
  ghost predicate NeverReissued(states: seq<System>, steps: seq<Step>)
    requires IsRun(states, steps)
  {
    forall k :: 0 <= k < |steps| && steps[k].Settled? && steps[k].reply.Granted? ==>
      steps[k].reply.refresh !in Held(History(states, steps, k))
  }

  /** The row is what the history makes it; a caller past its decision holds the lock, and the row has not
      moved since it decided. */
  ghost predicate Inv(s: System, log: seq<Event>) {
    Legal(log) && s.row == Replay(log) && LockHeld(s)
  }

  lemma LegalAppend(log: seq<Event>, e: Event)
    requires Legal(log) && Follows(log, e)
    ensures Legal(log + [e])
  {
    assert (log + [e])[..|log|] == log;
  }

  /** A step commits at most one event, which may follow, and moves the row as the event does. */
  lemma StepCommits(s: System, log: seq<Event>, step: Step)
    requires Inv(s, log) && Enabled(s, step)
    requires step.Settled? && step.reply.Granted? ==> step.reply.refresh !in Held(log)
    ensures var events := Committed(s, step);
            && |events| <= 1
            && (events == [] ==> Apply(s, step).row == s.row)
            && (events != [] ==> Follows(log, events[0]) && Apply(s, step).row == After(s.row, events[0]))
  {
  }

  /** The invariant without its history. */
  ghost predicate LockHeld(s: System) {
    && (forall i :: i in s.callers && s.callers[i].Waiting? ==> s.callers[i].begun <= s.now)
    && (forall i :: i in s.callers && s.callers[i].Exchanging? ==>
          var e := s.callers[i];
          && s.holder == Some(i) && e.begun <= e.locked <= s.now
          && s.row.Some? && Decide(s.row.value, e.rejected, e.locked) == Exchange(e.presented))
    && (s.holder.Some? ==> s.holder.value in s.callers && s.callers[s.holder.value].Exchanging?)
  }

  lemma LockStep(s: System, step: Step)
    requires LockHeld(s) && Enabled(s, step)
    ensures LockHeld(Apply(s, step))
  {
  }

  lemma InvStep(s: System, log: seq<Event>, step: Step)
    requires Inv(s, log) && Enabled(s, step)
    requires step.Settled? && step.reply.Granted? ==> step.reply.refresh !in Held(log)
    ensures Inv(Apply(s, step), log + Committed(s, step))
  {
    var events := Committed(s, step);
    StepCommits(s, log, step);
    LockStep(s, step);
    if events == [] {
      assert log + events == log;
    } else {
      assert events == [events[0]];
      LegalAppend(log, events[0]);
      ReplayAppend(log, events[0]);
    }
  }

  lemma {:induction false} InvAlong(states: seq<System>, steps: seq<Step>, k: nat)
    requires IsRun(states, steps) && NeverReissued(states, steps) && k <= |steps|
    ensures Inv(states[k], History(states, steps, k))
  {
    if k > 0 {
      InvAlong(states, steps, k - 1);
      InvStep(states[k - 1], History(states, steps, k - 1), steps[k - 1]);
    }
  }

  /** Every interleaving commits a legal history, and the row is what that history makes it. */
  lemma Linearizable(states: seq<System>, steps: seq<Step>)
    requires IsRun(states, steps) && NeverReissued(states, steps)
    ensures Legal(History(states, steps, |steps|)) && states[|steps|].row == Replay(History(states, steps, |steps|))
  {
    InvAlong(states, steps, |steps|);
  }

  /** In every interleaving, a refresh token on its way to the server has never had a 2xx reply, and no
      other caller has one on its way. */
  lemma PresentedIsUnspent(states: seq<System>, steps: seq<Step>, k: nat, i: nat)
    requires IsRun(states, steps) && NeverReissued(states, steps) && k <= |steps|
    requires i in states[k].callers && states[k].callers[i].Exchanging?
    ensures states[k].callers[i].presented !in Spent(History(states, steps, k))
    ensures forall j :: j in states[k].callers && states[k].callers[j].Exchanging? ==> j == i
  {
    InvAlong(states, steps, k);
    StoredIsUnspent(History(states, steps, k));
  }

  /** In every interleaving, once the row demands reauthorization no token is handed out or presented. */
  lemma ClosedInEveryRun(states: seq<System>, steps: seq<Step>, k: nat)
    requires IsRun(states, steps) && NeverReissued(states, steps) && k < |steps|
    requires IsClosed(states[k].row)
    ensures IsClosed(states[k + 1].row)
    ensures forall e :: e in Committed(states[k], steps[k]) ==> !IsUse(e)
    ensures forall i :: i in states[k].callers ==> !states[k].callers[i].Exchanging?
  {
    InvAlong(states, steps, k);
  }

  // ---------------------------------------------------------------- cooldowns in every run

  lemma {:induction false} LockAlong(states: seq<System>, steps: seq<Step>, k: nat)
    requires IsRun(states, steps) && k <= |steps|
    ensures LockHeld(states[k])
  {
    if k > 0 {
      LockAlong(states, steps, k - 1);
      LockStep(states[k - 1], steps[k - 1]);
    }
  }

  /** The instant until which the step silences the row, if it does. */
  function SilencedBy(s: System, step: Step): Option<int>
    requires Enabled(s, step)
  {
    var events := Committed(s, step);
    if events == [] then None else SilencesUntil(s.row, events[0])
  }

  /** A mark that replaces the pause by one that ends before `until`. */
  predicate CutsShort(s: System, step: Step, until: int)
    requires Enabled(s, step)
  {
    step.Mark? && SilencedBy(s, step).Some? && SilencedBy(s, step).value < until
  }

  /** Either the time has come, or the row turns everybody away; and whoever is with the server got the lock
      no sooner. */
  ghost predicate WaitsUntil(s: System, until: int) {
    && (s.now >= until || Silent(s.row, until))
    && forall c :: c in s.callers && s.callers[c].Exchanging? ==> s.callers[c].locked >= until
  }

  lemma WaitStarts(s: System, step: Step)
    requires LockHeld(s) && Enabled(s, step) && SilencedBy(s, step).Some?
    ensures WaitsUntil(Apply(s, step), SilencedBy(s, step).value)
  {
  }

  lemma WaitStays(s: System, step: Step, until: int)
    requires LockHeld(s) && Enabled(s, step) && WaitsUntil(s, until) && !CutsShort(s, step, until)
    ensures WaitsUntil(Apply(s, step), until)
    ensures forall e :: e in Committed(s, step) && IsUse(e) ==> LockedAt(e) >= until
  {
  }

  lemma {:induction false} WaitsAlong(states: seq<System>, steps: seq<Step>, i: nat, j: nat, until: int)
    requires IsRun(states, steps) && i < j <= |steps| && SilencedBy(states[i], steps[i]) == Some(until)
    requires forall k :: i < k < j ==> !CutsShort(states[k], steps[k], until)
    ensures WaitsUntil(states[j], until)
  {
    LockAlong(states, steps, j - 1);
    if i < j - 1 {
      WaitsAlong(states, steps, i, j - 1, until);
      WaitStays(states[j - 1], steps[j - 1], until);
    } else {
      WaitStarts(states[i], steps[i]);
    }
  }

  /** In every interleaving, a failed exchange, or a second 401 recorded against the stored token, silences
      every caller: until one minute after its transaction began, nobody who gets the row lock is handed a
      token or presents one, unless a mark whose transaction began even earlier is recorded in between. */
  lemma CooldownInEveryRun(states: seq<System>, steps: seq<Step>, i: nat, j: nat, until: int)
    requires IsRun(states, steps) && i < j < |steps| && SilencedBy(states[i], steps[i]) == Some(until)
    requires forall k :: i < k <= j ==> !CutsShort(states[k], steps[k], until)
    ensures forall e :: e in Committed(states[j], steps[j]) && IsUse(e) ==> LockedAt(e) >= until
  {
    LockAlong(states, steps, j);
    WaitsAlong(states, steps, i, j, until);
    WaitStays(states[j], steps[j], until);
  }

  // ---------------------------------------------------------------- exactly when a pause lasts

  lemma {:induction false} ClockForward(states: seq<System>, steps: seq<Step>, i: nat, j: nat)
    requires IsRun(states, steps) && i <= j <= |steps|
    ensures states[i].now <= states[j].now
  {
    if i < j {
      ClockForward(states, steps, i, j - 1);
    }
  }

  lemma QuietStep(s: System, step: Step, until: int)
    requires LockHeld(s) && Enabled(s, step) && WaitsUntil(s, until) && s.now < until && !IsClosed(s.row)
    ensures !IsClosed(Apply(s, step).row)
    ensures CutsShort(s, step, until) ==> !Silent(Apply(s, step).row, until)
  {
  }

  lemma {:induction false} OpenAlong(states: seq<System>, steps: seq<Step>, i: nat, j: nat, until: int)
    requires IsRun(states, steps) && i < j <= |steps| && SilencedBy(states[i], steps[i]) == Some(until)
    requires states[j].now < until && !IsClosed(states[i + 1].row)
    requires forall k :: i < k < j ==> !CutsShort(states[k], steps[k], until)
    ensures !IsClosed(states[j].row)
  {
    if i + 1 < j {
      ClockForward(states, steps, j - 1, j);
      OpenAlong(states, steps, i, j - 1, until);
      LockAlong(states, steps, j - 1);
      WaitsAlong(states, steps, i, j - 1, until);
      QuietStep(states[j - 1], steps[j - 1], until);
    }
  }

  lemma CutEndsSilence(states: seq<System>, steps: seq<Step>, i: nat, k: nat, until: int)
    requires IsRun(states, steps) && i < k < |steps| && SilencedBy(states[i], steps[i]) == Some(until)
    requires states[k].now < until && !IsClosed(states[i + 1].row)
    requires forall m :: i < m < k ==> !CutsShort(states[m], steps[m], until)
    requires CutsShort(states[k], steps[k], until)
    ensures !Silent(states[k + 1].row, until)
  {
    OpenAlong(states, steps, i, k, until);
    LockAlong(states, steps, k);
    WaitsAlong(states, steps, i, k, until);
    QuietStep(states[k], steps[k], until);
  }

  ghost predicate AllSilent(states: seq<System>, i: nat, j: nat, until: int)
    requires j < |states|
  {
    forall k :: i < k <= j ==> Silent(states[k].row, until)
  }

  ghost predicate NoneCutsShort(states: seq<System>, steps: seq<Step>, i: nat, j: nat, until: int)
    requires IsRun(states, steps) && j <= |steps|
  {
    forall k :: i < k < j ==> !CutsShort(states[k], steps[k], until)
  }

  lemma FirstCut(states: seq<System>, steps: seq<Step>, i: nat, j: nat, until: int) returns (k: nat)
    requires IsRun(states, steps) && j <= |steps| && !NoneCutsShort(states, steps, i, j, until)
    ensures i < k < j && CutsShort(states[k], steps[k], until) && NoneCutsShort(states, steps, i, k, until)
  {
    k := i + 1;
    while !CutsShort(states[k], steps[k], until)
      invariant i < k < j && NoneCutsShort(states, steps, i, k, until)
      decreases j - k
    {
      if k + 1 == j {
        assert NoneCutsShort(states, steps, i, j, until);
      }
      k := k + 1;
    }
  }

  lemma ClosedStep(s: System, step: Step)
    requires LockHeld(s) && Enabled(s, step) && IsClosed(s.row)
    ensures IsClosed(Apply(s, step).row)
  {
  }

  lemma {:induction false} ClosedAlong(states: seq<System>, steps: seq<Step>, i: nat, j: nat)
    requires IsRun(states, steps) && i <= j <= |steps| && IsClosed(states[i].row)
    ensures IsClosed(states[j].row)
  {
    if i < j {
      ClosedAlong(states, steps, i, j - 1);
      LockAlong(states, steps, j - 1);
      ClosedStep(states[j - 1], steps[j - 1]);
    }
  }

  /** Exactly when a pause lasts, in every interleaving. While its time has not come, the row turns everybody
      away until `until` at every moment if and only if it was closed with the pause, or no mark that began
      earlier than the pause was recorded since. */
  lemma PauseHoldsIff(states: seq<System>, steps: seq<Step>, i: nat, j: nat, until: int)
    requires IsRun(states, steps) && i < j <= |steps| && SilencedBy(states[i], steps[i]) == Some(until)
    requires states[j].now < until
    ensures AllSilent(states, i, j, until) <==>
            IsClosed(states[i + 1].row) || NoneCutsShort(states, steps, i, j, until)
  {
    if IsClosed(states[i + 1].row) {
      forall k | i < k <= j ensures Silent(states[k].row, until) {
        ClosedAlong(states, steps, i + 1, k);
      }
    } else if NoneCutsShort(states, steps, i, j, until) {
      forall k | i < k <= j ensures Silent(states[k].row, until) {
        WaitsAlong(states, steps, i, k, until);
        ClockForward(states, steps, k, j);
      }
    } else {
      var k := FirstCut(states, steps, i, j, until);
      ClockForward(states, steps, k, j);
      CutEndsSilence(states, steps, i, k, until);
    }
  }

  lemma FailureLeaves(s: System, caller: nat, reply: Reply)
    requires LockHeld(s) && Enabled(s, Settled(caller, reply)) && !Accepted(reply)
    ensures var begun := s.callers[caller].begun;
            var after := Apply(s, Settled(caller, reply)).row;
            && begun <= s.now && SilencedBy(s, Settled(caller, reply)) == Some(begun + COOLDOWN)
            && (IsClosed(after) <==> Closes(reply))
            && (Silent(after, s.now + COOLDOWN) <==> Closes(reply) || begun == s.now)
  {
  }

  /** The promise of a 60-second pause after a failed exchange, in every interleaving: the row turns everybody
      away for a full minute from the failure if and only if the reply closed it, or the transaction began at
      the instant it failed and no mark begun before that instant was recorded in the meantime. */
  lemma FullMinuteInEveryRun(states: seq<System>, steps: seq<Step>, i: nat, j: nat)
    requires IsRun(states, steps) && i < j <= |steps| && steps[i].Settled? && !Accepted(steps[i].reply)
    requires states[j].now < states[i].now + 60
    ensures var until := states[i].now + 60;
            AllSilent(states, i, j, until) <==>
            || Closes(steps[i].reply)
            || (&& states[i].callers[steps[i].caller].begun == states[i].now
                && NoneCutsShort(states, steps, i, j, until))
  {
    var until := states[i].now + COOLDOWN;
    LockAlong(states, steps, i);
    FailureLeaves(states[i], steps[i].caller, steps[i].reply);
    if Closes(steps[i].reply) {
      forall k | i < k <= j ensures Silent(states[k].row, until) {
        ClosedAlong(states, steps, i + 1, k);
      }
    } else if states[i].callers[steps[i].caller].begun == states[i].now {
      PauseHoldsIff(states, steps, i, j, until);
    } else {
      assert !Silent(states[i + 1].row, until);
    }
  }

  function TwoCallers(row: Option<Row>, holder: Option<nat>, first: Phase, second: Phase, now: int): System {
    System(row, holder, map[0 := first, 1 := second], now)
  }

  lemma RunOn(states: seq<System>, steps: seq<Step>, step: Step, next: System)
    requires IsRun(states, steps) && Enabled(states[|steps|], step) && next == Apply(states[|steps|], step)
    ensures IsRun(states + [next], steps + [step])
  {
    var longer, more := states + [next], steps + [step];
    forall k | 0 <= k < |more| ensures Enabled(longer[k], more[k]) && longer[k + 1] == Apply(longer[k], more[k]) {
      assert longer[k] == states[k] && (k < |steps| ==> more[k] == steps[k] && longer[k + 1] == states[k + 1]);
    }
  }

  /** Caller 0 starts to record a second 401 at 0; caller 1 reports the same token at 5 and gets the lock. */
  lemma MarkThenReport(a: string, r: string) returns (states: seq<System>, steps: seq<Step>)
    requires a != ""
    ensures IsRun(states, steps) && |steps| == 5
    ensures states[5] == TwoCallers(Some(Row(a, r, 1000, None, false)), Some(1), Marking(a, 0),
                                    Exchanging(Some(a), 5, 5, r), 5)
  {
    var row := Some(Row(a, r, 1000, None, false));
    var idle := TwoCallers(None, None, Idle, Idle, 0);
    var seeded := TwoCallers(row, None, Idle, Idle, 0);
    var marking := TwoCallers(row, None, Marking(a, 0), Idle, 0);
    var later := TwoCallers(row, None, Marking(a, 0), Idle, 5);
    var waiting := TwoCallers(row, None, Marking(a, 0), Waiting(Some(a), 5), 5);
    var asking := TwoCallers(row, Some(1), Marking(a, 0), Exchanging(Some(a), 5, 5, r), 5);
    RunOn([idle], [], Seed(a, r, 1000), seeded);
    RunOn([idle] + [seeded], [] + [Seed(a, r, 1000)], BeginMark(0, a), marking);
    states, steps := [idle] + [seeded] + [marking], [] + [Seed(a, r, 1000)] + [BeginMark(0, a)];
    RunOn(states, steps, Tick(5), later);
    states, steps := states + [later], steps + [Tick(5)];
    RunOn(states, steps, Begin(1, Some(a)), waiting);
    states, steps := states + [waiting], steps + [Begin(1, Some(a))];
    RunOn(states, steps, Lock(1), asking);
    states, steps := states + [asking], steps + [Lock(1)];
  }

  /** An older mark does end a pause. The exchange fails at once, which pauses the row until 65; then the mark
      begun at 0 is recorded, and the row is not silent until 65: at 60 it lets a caller that reports the
      token present the refresh token, and hands the token to any other. */
  lemma OlderMarkCutsPause(a: string, r: string) returns (states: seq<System>, steps: seq<Step>)
    requires a != ""
    ensures IsRun(states, steps) && |steps| == 7 && steps[5] == Settled(1, NoReply)
    ensures states[5].callers[1].begun == states[5].now && SilencedBy(states[5], steps[5]) == Some(65)
    ensures states[7].now == 5 && !AllSilent(states, 5, 7, 65)
    ensures states[7].row.Some? && Decide(states[7].row.value, Some(a), 60) == Exchange(r)
    ensures Decide(states[7].row.value, None, 60) == HandOut(a)
  {
    states, steps := MarkThenReport(a, r);
    var row := Row(a, r, 1000, Some(65), false);
    var paused := TwoCallers(Some(row), None, Marking(a, 0), Idle, 5);
    var cut := TwoCallers(Some(row.(retryAfter := Some(60))), None, Idle, Idle, 5);
    RunOn(states, steps, Settled(1, NoReply), paused);
    states, steps := states + [paused], steps + [Settled(1, NoReply)];
    RunOn(states, steps, Mark(0), cut);
    states, steps := states + [cut], steps + [Mark(0)];
    assert !Silent(states[7].row, 65);
  }

  /** In every interleaving, recording a second 401 for a token silences whoever locks the row within a
      minute of the mark if and only if the row then still stores that token, or is closed, or is paused for
      that long already; or there is no row to begin with. */
  lemma MarkSilencesIff(states: seq<System>, steps: seq<Step>, k: nat)
    requires IsRun(states, steps) && k < |steps| && steps[k].Mark?
    ensures var (before, after, m) := (states[k].row, states[k + 1].row, states[k].callers[steps[k].caller]);
            var until := m.begun + 60;
            (forall rejected, now :: now < until ==> after.None? || Decide(after.value, rejected, now) == Refuse)
            <==> before.None? || before.value.access == m.token || Silent(before, until)
  {
    var m := states[k].callers[steps[k].caller];
    if states[k].row.Some? {
      SilentIff(states[k + 1].row.value, m.begun + COOLDOWN);
    } else {
      assert states[k + 1].row.None?;
    }
  }

  /** The token in the row only changes when a caller is granted one: between a grant and a mark of the
      granted token without another grant, the mark finds it stored. */
  lemma {:induction false} TokenStays(states: seq<System>, steps: seq<Step>, i: nat, j: nat)
    requires IsRun(states, steps) && i <= j <= |steps| && states[i].row.Some?
    requires forall k :: i <= k < j && steps[k].Settled? ==> !Accepted(steps[k].reply)
    ensures states[j].row.Some? && states[j].row.value.access == states[i].row.value.access
  {
    if i < j {
      TokenStays(states, steps, i, j - 1);
    }
  }
}
