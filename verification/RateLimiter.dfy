/** The per-client sliding-window rate limiter. It keeps one pruned queue of instants per client; the
    specification is the full log of accepted requests, which the code never stores. */
module RateLimiter {

  const WINDOW: nat := 60_000   // milliseconds

  type Client(==) = nat
  type Queues = map<Client, seq<int>>

  datatype Accepted = Accepted(client: Client, at: int)

  // ---------------------------------------------------------------- specification: the full log

  /** The instants after `cutoff` at which `client` was accepted. */
  function Recent(log: seq<Accepted>, client: Client, cutoff: int): (times: seq<int>)
    ensures forall k :: 0 <= k < |times| ==> times[k] > cutoff
  {
    if log == [] then []
    else
      var last := log[|log| - 1];
      var earlier := Recent(log[..|log| - 1], client, cutoff);
      if last.client == client && last.at > cutoff then earlier + [last.at] else earlier
  }

  /** The clients accepted at least once after `cutoff`. */
  function Active(log: seq<Accepted>, cutoff: int): set<Client> {
    set k | 0 <= k < |log| && log[k].at > cutoff :: log[k].client
  }

  /** What a limiter with the whole log in front of it decides. */
  predicate LogAllows(log: seq<Accepted>, client: Client, now: int, perMinute: nat, maxClients: nat) {
    var active := Active(log, now - WINDOW);
    && (client in active || |active| < maxClients)
    && |Recent(log, client, now - WINDOW)| < perMinute
  }

  /** How often `client` was accepted in the window (end - 60 s, end]. */
  function Count(log: seq<Accepted>, client: Client, end: int): nat {
    if log == [] then 0
    else
      var last := log[|log| - 1];
      Count(log[..|log| - 1], client, end)
      + (if last.client == client && end - WINDOW < last.at <= end then 1 else 0)
  }

  ghost predicate Ordered(log: seq<Accepted>) {
    forall i, j :: 0 <= i < j < |log| ==> log[i].at <= log[j].at
  }

  // ---------------------------------------------------------------- pruning

  /** The queue without its leading instants up to `cutoff`. */
  function Prune(times: seq<int>, cutoff: int): seq<int> {
    if times != [] && times[0] <= cutoff then Prune(times[1..], cutoff) else times
  }

  /** The code's `retain`: prune every queue and forget the clients whose queue is empty. */
  function PruneAll(clients: Queues, cutoff: int): Queues {
    map c | c in clients && Prune(clients[c], cutoff) != [] :: Prune(clients[c], cutoff)
  }

  lemma {:induction false} PruneAppend(times: seq<int>, t: int, cutoff: int)
    requires t > cutoff
    ensures Prune(times + [t], cutoff) == Prune(times, cutoff) + [t]
  {
    if times == [] {
    } else if times[0] <= cutoff {
      assert (times + [t])[1..] == times[1..] + [t];
      PruneAppend(times[1..], t, cutoff);
    }
  }

  lemma {:induction false} PruneExpired(times: seq<int>, cutoff: int)
    requires forall k :: 0 <= k < |times| ==> times[k] <= cutoff
    ensures Prune(times, cutoff) == []
  {
    if times != [] {
      PruneExpired(times[1..], cutoff);
    }
  }

  lemma {:induction false} RecentExpired(log: seq<Accepted>, client: Client, cutoff: int, later: int)
    requires forall k :: 0 <= k < |log| ==> log[k].at <= later
    ensures forall k :: 0 <= k < |Recent(log, client, cutoff)| ==> Recent(log, client, cutoff)[k] <= later
  {
    if log != [] {
      RecentExpired(log[..|log| - 1], client, cutoff, later);
    }
  }

  lemma {:induction false} NothingRecent(log: seq<Accepted>, client: Client, cutoff: int)
    requires forall k :: 0 <= k < |log| ==> log[k].at <= cutoff
    ensures Recent(log, client, cutoff) == []
  {
    if log != [] {
      NothingRecent(log[..|log| - 1], client, cutoff);
    }
  }

  /** Pruning a queue later is the same as reading the log with the later cutoff. */
  lemma {:induction false} PruneRecent(log: seq<Accepted>, client: Client, cutoff: int, later: int)
    requires Ordered(log) && cutoff <= later
    ensures Prune(Recent(log, client, cutoff), later) == Recent(log, client, later)
  {
    if log != [] {
      var last := log[|log| - 1];
      var rest := log[..|log| - 1];
      PruneRecent(rest, client, cutoff, later);
      if last.client == client {
        if last.at > later {
          PruneAppend(Recent(rest, client, cutoff), last.at, later);
        } else {
          RecentExpired(log, client, cutoff, later);
          PruneExpired(Recent(log, client, cutoff), later);
          NothingRecent(rest, client, later);
        }
      }
    }
  }

  lemma {:induction false} ActiveMeansRecent(log: seq<Accepted>, client: Client, cutoff: int)
    ensures client in Active(log, cutoff) <==> Recent(log, client, cutoff) != []
  {
    if log != [] {
      var rest := log[..|log| - 1];
      ActiveMeansRecent(rest, client, cutoff);
      assert forall k :: 0 <= k < |rest| ==> log[k] == rest[k];
      if client in Active(log, cutoff) {
        var k :| 0 <= k < |log| && log[k].at > cutoff && log[k].client == client;
        assert k < |rest| ==> rest[k].client in Active(rest, cutoff);
      }
      if client in Active(rest, cutoff) {
        var k :| 0 <= k < |rest| && rest[k].at > cutoff && rest[k].client == client;
        assert log[k].client in Active(log, cutoff);
      }
    }
  }

  // ---------------------------------------------------------------- the limiter

  /** Every queue is the log cut to the window of the latest call. */
  ghost predicate Represents(clients: Queues, log: seq<Accepted>, lastCall: int, maxClients: nat) {
    && Ordered(log)
    && (forall k :: 0 <= k < |log| ==> log[k].at <= lastCall)
    && (forall c :: c in clients ==> clients[c] == Recent(log, c, lastCall - WINDOW))
    && (forall c :: c !in clients ==> Recent(log, c, lastCall - WINDOW) == [])
    && |clients| <= maxClients
  }

  class RateLimiter {
    const requestsPerMinute: nat
    const maxClients: nat
    var clients: Queues
    ghost var log: seq<Accepted>
    ghost var lastCall: int

    ghost predicate Valid()
      reads this
    {
      Represents(clients, log, lastCall, maxClients) && WithinBudget(log, requestsPerMinute)
    }

    constructor (requestsPerMinute: nat, maxClients: nat, now: int)
      ensures Valid() && log == [] && lastCall == now
      ensures this.requestsPerMinute == requestsPerMinute && this.maxClients == maxClients
    {
      this.requestsPerMinute, this.maxClients := requestsPerMinute, maxClients;
      clients := map[];
      log := [];
      lastCall := now;
    }

    method Allows(client: Client, now: int) returns (ok: bool)
      requires Valid() && lastCall <= now
      modifies this
      ensures Valid() && lastCall == now
      ensures ok == LogAllows(old(log), client, now, requestsPerMinute, maxClients)
      ensures log == if ok then old(log) + [Accepted(client, now)] else old(log)
    {
      ghost var before := clients;
      StepIsLog(clients, log, lastCall, client, now, requestsPerMinute, maxClients);
      clients := RetainRecent(clients, now - WINDOW);
      if client !in clients && |clients| >= maxClients {
        ok := false;
      } else {
        var requests := if client in clients then clients[client] else [];
        clients := clients[client := requests];
        ok := |requests| < requestsPerMinute;
        if ok {
          clients := clients[client := requests + [now]];
        }
      }
      assert (clients, ok) == Step(before, client, now, requestsPerMinute, maxClients);
      log := Logged(log, client, now, ok);
      lastCall := now;
    }
  }

  ghost function Logged(log: seq<Accepted>, client: Client, now: int, ok: bool): seq<Accepted> {
    if ok then log + [Accepted(client, now)] else log
  }

  /** One call of `allows` on the queues. A client that is refused may leave an empty queue behind. */
  function Step(clients: Queues, client: Client, now: int, perMinute: nat, maxClients: nat): (Queues, bool) {
    var kept := PruneAll(clients, now - WINDOW);
    if client !in kept && |kept| >= maxClients then (kept, false)
    else
      var entered := kept[client := if client in kept then kept[client] else []];
      if |entered[client]| >= perMinute then (entered, false)
      else (entered[client := entered[client] + [now]], true)
  }

  /** The queues decide exactly as the full log would, and go on representing it. */
  lemma StepIsLog(clients: Queues, log: seq<Accepted>, lastCall: int, client: Client, now: int,
                  perMinute: nat, maxClients: nat)
    requires Represents(clients, log, lastCall, maxClients) && lastCall <= now
    requires WithinBudget(log, perMinute)
    ensures var (after, ok) := Step(clients, client, now, perMinute, maxClients);
            && ok == LogAllows(log, client, now, perMinute, maxClients)
            && Represents(after, Logged(log, client, now, ok), now, maxClients)
            && WithinBudget(Logged(log, client, now, ok), perMinute)
  {
    var kept := PruneAll(clients, now - WINDOW);
    PrunedRepresents(clients, log, lastCall, now, maxClients);
    if client in kept || |kept| < maxClients {
      EnterRepresents(kept, log, client, now, maxClients);
      var entered := kept[client := if client in kept then kept[client] else []];
      if |entered[client]| < perMinute {
        AcceptedRepresents(entered, log, client, now, maxClients);
        BudgetKept(log, client, now, perMinute);
      }
    }
  }

  /** The loop of `retain`, with the inner loop that pops expired instants off each queue. */
  method RetainRecent(clients: Queues, cutoff: int) returns (kept: Queues)
    ensures kept == PruneAll(clients, cutoff)
  {
    kept := map[];
    var todo := clients.Keys;
    while todo != {}
      invariant todo <= clients.Keys
      invariant kept == PruneAll(map c | c in clients && c !in todo :: clients[c], cutoff)
      decreases todo
    {
      var c :| c in todo;
      var requests := clients[c];
      while requests != [] && requests[0] <= cutoff
        invariant Prune(requests, cutoff) == Prune(clients[c], cutoff)
        decreases |requests|
      {
        requests := requests[1..];
      }
      if requests != [] {
        kept := kept[c := requests];
      }
      todo := todo - {c};
    }
    assert (map c | c in clients && c !in todo :: clients[c]) == clients;
  }

  lemma SubsetSize(a: set<Client>, b: set<Client>)
    requires a <= b
    ensures |a| <= |b|
  {
    assert b == a + (b - a);
  }

  /** After pruning at `now`, the tracked clients are exactly the active ones of the log. */
  lemma PrunedRepresents(clients: Queues, log: seq<Accepted>, lastCall: int, now: int, maxClients: nat)
    requires Represents(clients, log, lastCall, maxClients) && lastCall <= now
    ensures var kept := PruneAll(clients, now - WINDOW);
            Represents(kept, log, now, maxClients) && kept.Keys == Active(log, now - WINDOW)
  {
    var kept := PruneAll(clients, now - WINDOW);
    forall c
      ensures c in kept ==> kept[c] == Recent(log, c, now - WINDOW)
      ensures c !in kept ==> Recent(log, c, now - WINDOW) == []
      ensures c in kept <==> c in Active(log, now - WINDOW)
    {
      PruneRecent(log, c, lastCall - WINDOW, now - WINDOW);
      ActiveMeansRecent(log, c, now - WINDOW);
      assert Prune([], now - WINDOW) == [];
    }
    SubsetSize(kept.Keys, clients.Keys);
  }

  lemma EnterRepresents(kept: Queues, log: seq<Accepted>, client: Client, now: int, maxClients: nat)
    requires Represents(kept, log, now, maxClients)
    requires client in kept || |kept| < maxClients
    ensures var entered := kept[client := if client in kept then kept[client] else []];
            Represents(entered, log, now, maxClients) && entered[client] == Recent(log, client, now - WINDOW)
  {
    var entered := kept[client := if client in kept then kept[client] else []];
    assert entered.Keys == kept.Keys + {client};
  }

  lemma AcceptedRepresents(clients: Queues, log: seq<Accepted>, client: Client, now: int, maxClients: nat)
    requires Represents(clients, log, now, maxClients) && client in clients
    ensures Represents(clients[client := clients[client] + [now]], log + [Accepted(client, now)], now, maxClients)
  {
    var grown := log + [Accepted(client, now)];
    assert grown[..|log|] == log;
    assert clients[client := clients[client] + [now]].Keys == clients.Keys;
  }

  // ---------------------------------------------------------------- the promise, over every window

  /** No client is accepted more than `perMinute` times in any window (t - 60 s, t]. */
  ghost predicate WithinBudget(log: seq<Accepted>, perMinute: nat) {
    forall c: Client, t: int :: Count(log, c, t) <= perMinute
  }

  lemma {:induction false} CountWithinRecent(log: seq<Accepted>, client: Client, end: int, cutoff: int)
    requires cutoff <= end - WINDOW
    ensures Count(log, client, end) <= |Recent(log, client, cutoff)|
  {
    if log != [] {
      CountWithinRecent(log[..|log| - 1], client, end, cutoff);
    }
  }

  /** Accepting a client with room in its own window overruns no window at all. */
  lemma BudgetKept(log: seq<Accepted>, client: Client, now: int, perMinute: nat)
    requires WithinBudget(log, perMinute)
    requires |Recent(log, client, now - WINDOW)| < perMinute
    ensures WithinBudget(log + [Accepted(client, now)], perMinute)
  {
    var grown := log + [Accepted(client, now)];
    assert grown[..|log|] == log;
    forall c: Client, t: int ensures Count(grown, c, t) <= perMinute {
      if c == client && now <= t {
        CountWithinRecent(log, c, t, now - WINDOW);
      } else {
        assert Count(log, c, t) <= perMinute;
      }
    }
  }

  // ---------------------------------------------------------------- whole runs

  datatype Call = Call(client: Client, at: int)

  /** The log of a limiter that keeps everything and decides by `LogAllows`. */
  function IdealLog(calls: seq<Call>, perMinute: nat, maxClients: nat): seq<Accepted> {
    if calls == [] then []
    else
      var last := calls[|calls| - 1];
      var log := IdealLog(calls[..|calls| - 1], perMinute, maxClients);
      if LogAllows(log, last.client, last.at, perMinute, maxClients) then log + [Accepted(last.client, last.at)]
      else log
  }

  /** The queues of the real limiter after the same calls. */
  function RealQueues(calls: seq<Call>, perMinute: nat, maxClients: nat): Queues {
    if calls == [] then map[]
    else
      var last := calls[|calls| - 1];
      Step(RealQueues(calls[..|calls| - 1], perMinute, maxClients), last.client, last.at, perMinute, maxClients).0
  }

  /** Over any run in order of time, the real limiter answers the next call as the ideal one does, it
      tracks no more than `maxClients` clients, and nobody exceeds the budget in any window. */
  lemma {:induction false} RunIsExact(calls: seq<Call>, perMinute: nat, maxClients: nat, next: Call)
    requires forall i, j :: 0 <= i < j < |calls| ==> calls[i].at <= calls[j].at
    requires calls != [] ==> calls[|calls| - 1].at <= next.at
    ensures var log := IdealLog(calls, perMinute, maxClients);
            var queues := RealQueues(calls, perMinute, maxClients);
            && Represents(queues, log, if calls == [] then next.at else calls[|calls| - 1].at, maxClients)
            && WithinBudget(log, perMinute)
            && Step(queues, next.client, next.at, perMinute, maxClients).1
               == LogAllows(log, next.client, next.at, perMinute, maxClients)
  {
    var log := IdealLog(calls, perMinute, maxClients);
    var queues := RealQueues(calls, perMinute, maxClients);
    if calls == [] {
      StepIsLog(queues, log, next.at, next.client, next.at, perMinute, maxClients);
    } else {
      var last := calls[|calls| - 1];
      var rest := calls[..|calls| - 1];
      RunIsExact(rest, perMinute, maxClients, last);
      var before := if rest == [] then last.at else rest[|rest| - 1].at;
      StepIsLog(RealQueues(rest, perMinute, maxClients), IdealLog(rest, perMinute, maxClients), before,
                last.client, last.at, perMinute, maxClients);
      StepIsLog(queues, log, last.at, next.client, next.at, perMinute, maxClients);
    }
  }

  // ---------------------------------------------------------------- the answers alone

  /** The real limiter's answer to call k of a run, and all its answers. */
  predicate IsAnswer(answer: bool, calls: seq<Call>, perMinute: nat, maxClients: nat, k: nat)
    requires k < |calls|
  {
    answer == Step(RealQueues(calls[..k], perMinute, maxClients), calls[k].client, calls[k].at, perMinute, maxClients).1
  }

  ghost predicate AreAnswers(answers: seq<bool>, calls: seq<Call>, perMinute: nat, maxClients: nat) {
    |answers| == |calls| && forall k :: 0 <= k < |calls| ==> IsAnswer(answers[k], calls, perMinute, maxClients, k)
  }

  ghost predicate InOrder(calls: seq<Call>) { forall i, j :: 0 <= i < j < |calls| ==> calls[i].at <= calls[j].at }

  /** The calls before the n-th of a client that were accepted after `since` and no later than `until`. */
  ghost function AcceptedIn(calls: seq<Call>, answers: seq<bool>, n: nat, client: Client, since: int, until: int)
    : set<nat>
    requires n <= |calls| == |answers|
  {
    set j: nat | j < n && answers[j] && calls[j].client == client && since < calls[j].at <= until
  }

  ghost function ClientsSince(calls: seq<Call>, answers: seq<bool>, n: nat, since: int): set<Client>
    requires n <= |calls| == |answers|
  {
    set j: nat | j < n && answers[j] && since < calls[j].at :: calls[j].client
  }

  lemma AnswerIs(answer: bool, calls: seq<Call>, perMinute: nat, maxClients: nat, k: nat, log: seq<Accepted>)
    requires InOrder(calls) && k < |calls| && IsAnswer(answer, calls, perMinute, maxClients, k)
    requires IdealLog(calls[..k], perMinute, maxClients) == log
    ensures answer == LogAllows(log, calls[k].client, calls[k].at, perMinute, maxClients)
    ensures IdealLog(calls[..k + 1], perMinute, maxClients) ==
            if answer then log + [Accepted(calls[k].client, calls[k].at)] else log
  {
    RunIsExact(calls[..k], perMinute, maxClients, calls[k]);
    assert calls[..k + 1][..k] == calls[..k];
  }

  /** The accepted ones among the first n calls. */
  function Taken(calls: seq<Call>, answers: seq<bool>, n: nat): seq<Accepted>
    requires n <= |calls| == |answers|
  {
    if n == 0 then []
    else
      var earlier := Taken(calls, answers, n - 1);
      if answers[n - 1] then earlier + [Accepted(calls[n - 1].client, calls[n - 1].at)] else earlier
  }

  lemma TakenNext(calls: seq<Call>, answers: seq<bool>, perMinute: nat, maxClients: nat, k: nat, log: seq<Accepted>)
    requires InOrder(calls) && AreAnswers(answers, calls, perMinute, maxClients) && k < |calls|
    requires IdealLog(calls[..k], perMinute, maxClients) == log == Taken(calls, answers, k)
    ensures IdealLog(calls[..k + 1], perMinute, maxClients) == Taken(calls, answers, k + 1)
  {
    AnswerIs(answers[k], calls, perMinute, maxClients, k, log);
  }

  lemma {:induction false} IdealIsTaken(calls: seq<Call>, answers: seq<bool>, perMinute: nat, maxClients: nat, n: nat)
    requires InOrder(calls) && AreAnswers(answers, calls, perMinute, maxClients) && n <= |calls|
    ensures IdealLog(calls[..n], perMinute, maxClients) == Taken(calls, answers, n)
  {
    if n > 0 {
      IdealIsTaken(calls, answers, perMinute, maxClients, n - 1);
      TakenNext(calls, answers, perMinute, maxClients, n - 1, Taken(calls, answers, n - 1));
    }
  }

  lemma AcceptedNext(calls: seq<Call>, answers: seq<bool>, n: nat, client: Client, since: int, until: int)
    requires n < |calls| == |answers|
    ensures |AcceptedIn(calls, answers, n + 1, client, since, until)|
         == |AcceptedIn(calls, answers, n, client, since, until)|
            + if answers[n] && calls[n].client == client && since < calls[n].at <= until then 1 else 0
  {
    var before := AcceptedIn(calls, answers, n, client, since, until);
    var after := AcceptedIn(calls, answers, n + 1, client, since, until);
    assert after == if answers[n] && calls[n].client == client && since < calls[n].at <= until then before + {n}
                    else before;
  }

  lemma RecentAppend(log: seq<Accepted>, a: Accepted, client: Client, since: int)
    ensures Recent(log + [a], client, since) ==
            Recent(log, client, since) + if a.client == client && a.at > since then [a.at] else []
  {
    assert (log + [a])[..|log|] == log;
  }

  lemma CountAppend(log: seq<Accepted>, a: Accepted, client: Client, end: int)
    ensures Count(log + [a], client, end)
         == Count(log, client, end) + if a.client == client && end - WINDOW < a.at <= end then 1 else 0
  {
    assert (log + [a])[..|log|] == log;
  }

  lemma ActiveAppend(log: seq<Accepted>, a: Accepted, since: int)
    ensures Active(log + [a], since) == if a.at > since then Active(log, since) + {a.client} else Active(log, since)
  {
    var all := log + [a];
    assert all[|log|] == a;
    forall c | c in Active(log, since) ensures c in Active(all, since) {
      var k :| 0 <= k < |log| && log[k].at > since && log[k].client == c;
      assert all[k] == log[k];
    }
  }

  lemma {:induction false} RecentIs(calls: seq<Call>, answers: seq<bool>, n: nat, client: Client, since: int,
                                    until: int)
    requires n <= |calls| == |answers| && forall j :: 0 <= j < n ==> calls[j].at <= until
    ensures |Recent(Taken(calls, answers, n), client, since)| == |AcceptedIn(calls, answers, n, client, since, until)|
  {
    if n == 0 {
      assert AcceptedIn(calls, answers, 0, client, since, until) == {};
    } else {
      RecentIs(calls, answers, n - 1, client, since, until);
      AcceptedNext(calls, answers, n - 1, client, since, until);
      RecentAppend(Taken(calls, answers, n - 1), Accepted(calls[n - 1].client, calls[n - 1].at), client, since);
    }
  }

  lemma {:induction false} CountIs(calls: seq<Call>, answers: seq<bool>, n: nat, client: Client, end: int)
    requires n <= |calls| == |answers|
    ensures Count(Taken(calls, answers, n), client, end)
         == |AcceptedIn(calls, answers, n, client, end - 60_000, end)|
  {
    if n == 0 {
      assert AcceptedIn(calls, answers, 0, client, end - 60_000, end) == {};
    } else {
      CountIs(calls, answers, n - 1, client, end);
      AcceptedNext(calls, answers, n - 1, client, end - 60_000, end);
      CountAppend(Taken(calls, answers, n - 1), Accepted(calls[n - 1].client, calls[n - 1].at), client, end);
    }
  }

  lemma ClientsNext(calls: seq<Call>, answers: seq<bool>, n: nat, since: int)
    requires n < |calls| == |answers|
    ensures ClientsSince(calls, answers, n + 1, since)
         == ClientsSince(calls, answers, n, since) + if answers[n] && since < calls[n].at then {calls[n].client} else {}
  {
    if answers[n] && since < calls[n].at {
      assert calls[n].client in ClientsSince(calls, answers, n + 1, since);
    }
    forall c | c in ClientsSince(calls, answers, n, since) ensures c in ClientsSince(calls, answers, n + 1, since) {
      var j: nat :| j < n && answers[j] && since < calls[j].at && calls[j].client == c;
    }
  }

  lemma {:induction false} ActiveIs(calls: seq<Call>, answers: seq<bool>, n: nat, since: int)
    requires n <= |calls| == |answers|
    ensures Active(Taken(calls, answers, n), since) == ClientsSince(calls, answers, n, since)
  {
    if n > 0 {
      ActiveIs(calls, answers, n - 1, since);
      ClientsNext(calls, answers, n - 1, since);
      ActiveAppend(Taken(calls, answers, n - 1), Accepted(calls[n - 1].client, calls[n - 1].at), since);
    }
  }

  /** A client with fewer than its budget of calls accepted in the last minute may pass if it had one accepted
      then or fewer than `maxClients` clients had. */
  ghost predicate MayPass(calls: seq<Call>, answers: seq<bool>, n: nat, client: Client, now: int, perMinute: nat,
                          maxClients: nat)
    requires n <= |calls| == |answers|
  {
    var others := ClientsSince(calls, answers, n, now - 60_000);
    && |AcceptedIn(calls, answers, n, client, now - 60_000, now)| < perMinute
    && (client in others || |others| < maxClients)
  }

  lemma LogAllowsIs(calls: seq<Call>, answers: seq<bool>, n: nat, client: Client, now: int, perMinute: nat,
                    maxClients: nat, log: seq<Accepted>)
    requires n <= |calls| == |answers| && forall j :: 0 <= j < n ==> calls[j].at <= now
    requires log == Taken(calls, answers, n)
    ensures LogAllows(log, client, now, perMinute, maxClients) <==>
            MayPass(calls, answers, n, client, now, perMinute, maxClients)
  {
    RecentIs(calls, answers, n, client, now - 60_000, now);
    ActiveIs(calls, answers, n, now - 60_000);
  }

  /** Which calls of a run are accepted, in terms of the calls and the answers alone. */
  lemma AcceptedIff(calls: seq<Call>, answers: seq<bool>, perMinute: nat, maxClients: nat, k: nat)
    requires InOrder(calls) && AreAnswers(answers, calls, perMinute, maxClients) && k < |calls|
    ensures answers[k] <==> MayPass(calls, answers, k, calls[k].client, calls[k].at, perMinute, maxClients)
  {
    var log := Taken(calls, answers, k);
    IdealIsTaken(calls, answers, perMinute, maxClients, k);
    AnswerIs(answers[k], calls, perMinute, maxClients, k, log);
    LogAllowsIs(calls, answers, k, calls[k].client, calls[k].at, perMinute, maxClients, log);
  }

  /** And in no minute, whenever it starts, is a client accepted more often than its budget. */
  lemma NoMinuteOverrun(calls: seq<Call>, answers: seq<bool>, perMinute: nat, maxClients: nat, client: Client, end: int)
    requires InOrder(calls) && AreAnswers(answers, calls, perMinute, maxClients)
    ensures |AcceptedIn(calls, answers, |calls|, client, end - 60_000, end)| <= perMinute
  {
    CountIs(calls, answers, |calls|, client, end);
    IdealIsTaken(calls, answers, perMinute, maxClients, |calls|);
    assert calls[..|calls|] == calls;
    IdealWithinBudget(calls, perMinute, maxClients);
  }

  lemma IdealWithinBudget(calls: seq<Call>, perMinute: nat, maxClients: nat)
    requires InOrder(calls)
    ensures WithinBudget(IdealLog(calls, perMinute, maxClients), perMinute)
  {
    RunIsExact(calls, perMinute, maxClients, if calls == [] then Call(0, 0) else calls[|calls| - 1]);
  }
}
