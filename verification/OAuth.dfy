/** The stored Mercado Livre OAuth tokens: one database row, renewed with a single-use refresh token
    (sections 6 and 5.2 of RFC 6749). Instants and durations are in seconds. */
module OAuth {
  import opened Options

  const EXPIRY_MARGIN: nat := 60
  const COOLDOWN: nat := 60
  const MAX_EXPIRES_IN: nat := 31_536_000
  const MAX_TOKEN_LENGTH: nat := 16_384
  const UNAUTHORIZED: nat := 401

  datatype Row = Row(access: string, refresh: string, expiresAt: int, retryAfter: Option<int>, closed: bool)

  /** The outcome of presenting a refresh token: no reply, a 2xx reply that decodes, a 2xx reply that
      does not, or any other status with the error code of its body, if there is one. */
  datatype Reply =
    | NoReply
    | Granted(access: string, refresh: string, expiresIn: int)
    | Garbled
    | Rejected(status: nat, error: Option<string>)

  datatype Decision = Refuse | HandOut(token: string) | Exchange(refresh: string)

  /** White space and control characters, by code point. */
  predicate IsBlankOrControl(c: char) {
    var n := c as int;
    n <= 0x20 || 0x7f <= n <= 0xa0 || n in {0x1680, 0x2028, 0x2029, 0x202f, 0x205f, 0x3000} || 0x2000 <= n <= 0x200a
  }

  /** The length of the UTF-8 encoding. */
  function ByteLength(text: string): nat {
    if text == "" then 0
    else
      var n := text[0] as int;
      (if n < 0x80 then 1 else if n < 0x800 then 2 else if n < 0x1_0000 then 3 else 4) + ByteLength(text[1..])
  }

  lemma {:induction false} AsciiLength(text: string)
    requires forall i :: 0 <= i < |text| ==> text[i] as int < 0x80
    ensures ByteLength(text) == |text|
  {
    if text != "" {
      AsciiLength(text[1..]);
    }
  }

  predicate ValidToken(token: string) {
    token != "" && ByteLength(token) <= MAX_TOKEN_LENGTH && forall c :: c in token ==> !IsBlankOrControl(c)
  }

  predicate Accepted(reply: Reply) {
    reply.Granted? && ValidToken(reply.access) && ValidToken(reply.refresh) && 1 <= reply.expiresIn <= MAX_EXPIRES_IN
  }

  /** Did the server answer with a 2xx status, and so possibly use up the refresh token? */
  predicate Succeeded(reply: Reply) { reply.Granted? || reply.Garbled? }

  predicate IsPermanent(reply: Reply) {
    && reply.Rejected? && reply.status in {400, UNAUTHORIZED} && reply.error.Some?
    && reply.error.value in {"invalid_grant", "invalid_client", "unauthorized_client"}
  }

  /** What a caller that just locked the row does; `rejected` is a token it saw refused upstream. */
  function Decide(row: Row, rejected: Option<string>, now: int): Decision {
    if row.closed || (row.retryAfter.Some? && row.retryAfter.value > now) then Refuse
    else if row.access != "" && row.expiresAt > now + EXPIRY_MARGIN && rejected != Some(row.access)
    then HandOut(row.access)
    else Exchange(row.refresh)
  }

  /** The row after a failed exchange. The database's `now()` is the start of the transaction, `begun`. */
  function Failed(row: Row, permanent: bool, begun: int): Row {
    row.(retryAfter := Some(begun + COOLDOWN), closed := permanent)
  }

  /** The row after an exchange in a transaction begun at `begun` and answered at `now`. */
  function Settle(row: Row, reply: Reply, begun: int, now: int): Row {
    if Accepted(reply) then Row(reply.access, reply.refresh, now + reply.expiresIn, None, false)
    else Failed(row, Succeeded(reply) || IsPermanent(reply), begun)
  }

  function Marked(row: Row, token: string, begun: int): Row {
    if row.access == token then row.(retryAfter := Some(begun + COOLDOWN)) else row
  }

  /** When a call begins its transaction, gets the lock, and has its reply, and what the reply is. */
  datatype Timing = Timing(begun: int, locked: int, settled: int, reply: Reply)

  /** The token a call returns, and the row it leaves. */
  function TokenCall(row: Row, rejected: Option<string>, t: Timing): (Row, Option<string>) {
    match Decide(row, rejected, t.locked)
    case Refuse => (row, None)
    case HandOut(token) => (row, Some(token))
    case Exchange(_) =>
      (Settle(row, t.reply, t.begun, t.settled), if Accepted(t.reply) then Some(t.reply.access) else None)
  }

  /** The token row as the server sees it, one locked call at a time. */
  class MercadoLivreOAuth {
    var row: Option<Row>

    constructor ()
      ensures row == None
    {
      row := None;
    }

    /** Seeds a new client only: a row that exists is never replaced. */
    method Initialize(seed: Option<string>, access: string, expiresAt: int) returns (ok: bool)
      modifies this
      ensures ok <==> seed.None? || (ValidToken(seed.value) && (access == "" || ValidToken(access)))
      ensures row == if ok && seed.Some? && old(row).None? then Some(Row(access, seed.value, expiresAt, None, false))
                     else old(row)
    {
      if seed.None? {
        return true;
      }
      if !ValidToken(seed.value) || (access != "" && !ValidToken(access)) {
        return false;
      }
      if row.None? {
        row := Some(Row(access, seed.value, expiresAt, None, false));
      }
      return true;
    }

    method Token(rejected: Option<string>, t: Timing) returns (token: Option<string>)
      modifies this
      ensures old(row).None? ==> row.None? && token.None?
      ensures old(row).Some? ==> (row, token) == (Some(TokenCall(old(row).value, rejected, t).0),
                                                  TokenCall(old(row).value, rejected, t).1)
    {
      if row.None? {
        return None;
      }
      var stored := row.value;
      if stored.closed || (stored.retryAfter.Some? && stored.retryAfter.value > t.locked) {
        return None;
      }
      if stored.access != "" && stored.expiresAt > t.locked + EXPIRY_MARGIN
         && (rejected.None? || rejected.value != stored.access) {
        return Some(stored.access);
      }
      match t.reply
      case NoReply =>
        token := Fail(false, t.begun);
      case Rejected(status, error) =>
        var permanent := (status == 400 || status == UNAUTHORIZED) && error.Some?
          && error.value in {"invalid_grant", "invalid_client", "unauthorized_client"};
        token := Fail(permanent, t.begun);
      case Garbled =>
        token := Fail(true, t.begun);
      case Granted(access, refresh, expiresIn) =>
        if ValidToken(access) && ValidToken(refresh) && 1 <= expiresIn <= MAX_EXPIRES_IN {
          row := Some(Row(access, refresh, t.settled + expiresIn, None, false));
          token := Some(access);
        } else {
          token := Fail(true, t.begun);
        }
    }

    method Fail(permanent: bool, begun: int) returns (token: Option<string>)
      requires row.Some?
      modifies this
      ensures row == Some(Failed(old(row).value, permanent, begun)) && token == None
    {
      row := Some(row.value.(retryAfter := Some(begun + COOLDOWN), closed := permanent));
      token := None;
    }

    method MarkRejected(rejected: string, begun: int)
      modifies this
      ensures row == if old(row).Some? then Some(Marked(old(row).value, rejected, begun)) else None
    {
      if row.Some? && row.value.access == rejected {
        row := Some(row.value.(retryAfter := Some(begun + COOLDOWN)));
      }
    }
  }

  // ---------------------------------------------------------------- histories of the row

  /** One committed access to the row. */
  datatype Event =
    | Seeded(access: string, refresh: string, expiresAt: int)
    | Refused(rejected: Option<string>, at: int)
    | HandedOut(rejected: Option<string>, at: int, token: string)
    | Exchanged(rejected: Option<string>, timing: Timing, presented: string)
    | MarkedRejected(token: string, begun: int)

  /** The row after one more event. */
  function After(row: Option<Row>, e: Event): Option<Row> {
    match e
    case Seeded(access, refresh, expiresAt) =>
      if row.None? then Some(Row(access, refresh, expiresAt, None, false)) else row
    case Exchanged(_, t, _) => if row.Some? then Some(Settle(row.value, t.reply, t.begun, t.settled)) else None
    case MarkedRejected(token, begun) => if row.Some? then Some(Marked(row.value, token, begun)) else None
    case Refused(_, _) => row
    case HandedOut(_, _, _) => row
  }

  /** The row a history leaves. */
  function Replay(log: seq<Event>): Option<Row> {
    if log == [] then None else After(Replay(log[..|log| - 1]), log[|log| - 1])
  }

  /** Every refresh token the row ever held. */
  function Held(log: seq<Event>): set<string> {
    if log == [] then {}
    else
      var row := Replay(log);
      Held(log[..|log| - 1]) + (if row.Some? then {row.value.refresh} else {})
  }

  /** May `e` follow `log`? The row must lead to that decision, and the server must not reissue a
      refresh token. */
  predicate Follows(log: seq<Event>, e: Event) {
    var row := Replay(log);
    match e
    case Seeded(_, _, _) => true
    case MarkedRejected(_, _) => true
    case Refused(rejected, at) => row.None? || Decide(row.value, rejected, at) == Refuse
    case HandedOut(rejected, at, token) => row.Some? && Decide(row.value, rejected, at) == HandOut(token)
    case Exchanged(rejected, t, presented) =>
      && row.Some? && Decide(row.value, rejected, t.locked) == Exchange(presented)
      && t.begun <= t.locked <= t.settled
      && (t.reply.Granted? ==> t.reply.refresh !in Held(log))
  }

  ghost predicate Legal(log: seq<Event>) {
    log == [] || (Legal(log[..|log| - 1]) && Follows(log[..|log| - 1], log[|log| - 1]))
  }

  lemma {:induction false} LegalPrefix(log: seq<Event>, k: nat)
    requires Legal(log) && k <= |log|
    ensures Legal(log[..k])
    ensures k < |log| ==> Follows(log[..k], log[k])
  {
    if k < |log| {
      var rest := log[..|log| - 1];
      if k < |rest| {
        LegalPrefix(rest, k);
      }
      assert rest[..k] == log[..k];
    } else {
      assert log[..k] == log;
    }
  }

  predicate IsCall(e: Event) { e.Refused? || e.HandedOut? || e.Exchanged? }

  /** A call that gets a token or presents one. */
  predicate IsUse(e: Event) { e.HandedOut? || e.Exchanged? }

  function LockedAt(e: Event): int
    requires IsCall(e)
  {
    if e.Exchanged? then e.timing.locked else e.at
  }

  predicate Grants(e: Event) { e.Exchanged? && Accepted(e.timing.reply) }

  // ---------------------------------------------------------------- single use of refresh tokens

  /** The refresh tokens whose exchange got a 2xx reply. */
  function Spent(log: seq<Event>): set<string> {
    if log == [] then {}
    else
      var last := log[|log| - 1];
      Spent(log[..|log| - 1]) + (if last.Exchanged? && Succeeded(last.timing.reply) then {last.presented} else {})
  }

  lemma {:induction false} StoredIsUnspent(log: seq<Event>)
    requires Legal(log)
    ensures Spent(log) <= Held(log)
    ensures Replay(log).Some? ==> Replay(log).value.refresh in Held(log)
    ensures Replay(log).Some? && !Replay(log).value.closed ==> Replay(log).value.refresh !in Spent(log)
    ensures Replay(log).None? ==> Spent(log) == {}
  {
    if log != [] {
      StoredIsUnspent(log[..|log| - 1]);
    }
  }

  lemma {:induction false} SpentEarlier(log: seq<Event>, i: nat, k: nat)
    requires i < k <= |log| && log[i].Exchanged? && Succeeded(log[i].timing.reply)
    ensures log[i].presented in Spent(log[..k])
  {
    assert log[..k][..k - 1] == log[..k - 1];
    if i < k - 1 {
      SpentEarlier(log, i, k - 1);
    }
  }

  /** A refresh token that once got a 2xx reply is never presented again. */
  lemma SingleUse(log: seq<Event>, i: nat, j: nat)
    requires Legal(log) && i < j < |log| && log[i].Exchanged? && log[j].Exchanged?
    requires Succeeded(log[i].timing.reply)
    ensures log[j].presented != log[i].presented
  {
    LegalPrefix(log, j);
    StoredIsUnspent(log[..j]);
    SpentEarlier(log, i, j);
  }

  // ---------------------------------------------------------------- the closed state

  predicate IsClosed(row: Option<Row>) { row.Some? && row.value.closed }

  /** Once reauthorization is required it stays so, and nothing but refusals (and harmless seeds and
      marks) follows. */
  lemma {:induction false} ClosedForGood(log: seq<Event>, i: nat, j: nat)
    requires Legal(log) && i <= j <= |log| && IsClosed(Replay(log[..i]))
    ensures IsClosed(Replay(log[..j]))
    ensures j < |log| ==> !log[j].Exchanged? && !log[j].HandedOut?
  {
    LegalPrefix(log, j);
    if i < j {
      ClosedForGood(log, i, j - 1);
      assert log[..j][..j - 1] == log[..j - 1];
    }
  }

  /** A 2xx reply that cannot be used, or one of three error codes under status 400 or 401. */
  predicate Closes(reply: Reply) { (Succeeded(reply) && !Accepted(reply)) || IsPermanent(reply) }

  ghost predicate EverClosed(log: seq<Event>) {
    exists k :: 0 <= k < |log| && log[k].Exchanged? && Closes(log[k].timing.reply)
  }

  lemma {:induction false} ClosedIfEver(log: seq<Event>)
    requires Legal(log)
    ensures IsClosed(Replay(log)) <==> EverClosed(log)
  {
    if log != [] {
      var rest, last := log[..|log| - 1], log[|log| - 1];
      ClosedIfEver(rest);
      EverClosedNext(rest, last);
      assert log == rest + [last];
    }
  }

  lemma EverClosedNext(log: seq<Event>, e: Event)
    ensures EverClosed(log + [e]) <==> EverClosed(log) || (e.Exchanged? && Closes(e.timing.reply))
  {
    var all := log + [e];
    assert all[|log|] == e;
    if k :| 0 <= k < |log| && log[k].Exchanged? && Closes(log[k].timing.reply) {
      assert all[k] == log[k];
    }
  }

  /** A token of at most 16 KiB without white space or control characters. */
  predicate IsUsable(token: string) {
    token != "" && ByteLength(token) <= 16_384 && forall i :: 0 <= i < |token| ==> !IsBlankOrControl(token[i])
  }

  lemma UsableIsValid(token: string)
    ensures IsUsable(token) <==> ValidToken(token)
  {
    if IsUsable(token) {
      forall c | c in token ensures !IsBlankOrControl(c) {
        var i :| 0 <= i < |token| && token[i] == c;
      }
    }
  }

  /** The row demands reauthorization exactly when some exchange of its history was answered by one of three
      error codes under status 400 or 401, or by a 2xx reply that does not decode, carries an unusable token, or
      gives no lifetime between a second and a year: no failure of another kind closes it, and nothing that
      follows opens it again. */
  lemma ClosedIff(log: seq<Event>)
    requires Legal(log)
    ensures (Replay(log).Some? && Replay(log).value.closed) <==>
            exists k :: 0 <= k < |log| && log[k].Exchanged? &&
              match log[k].timing.reply
              case NoReply => false
              case Garbled => true
              case Rejected(status, error) =>
                && (status == 400 || status == 401)
                && (error == Some("invalid_grant") || error == Some("invalid_client")
                    || error == Some("unauthorized_client"))
              case Granted(access, refresh, expiresIn) =>
                !IsUsable(access) || !IsUsable(refresh) || expiresIn < 1 || expiresIn > 31_536_000
  {
    ClosedIfEver(log);
    forall k | 0 <= k < |log| && log[k].Exchanged? && log[k].timing.reply.Granted?
      ensures IsUsable(log[k].timing.reply.access) <==> ValidToken(log[k].timing.reply.access)
      ensures IsUsable(log[k].timing.reply.refresh) <==> ValidToken(log[k].timing.reply.refresh)
    {
      UsableIsValid(log[k].timing.reply.access);
      UsableIsValid(log[k].timing.reply.refresh);
    }
  }

  // ---------------------------------------------------------------- cooldowns

  /** The instant until which event e of a history silences the row, if it does. */
  function SilencesUntil(before: Option<Row>, e: Event): Option<int> {
    if e.Exchanged? && !Accepted(e.timing.reply) then Some(e.timing.begun + 60)
    else if e.MarkedRejected? && before.Some? && before.value.access == e.token then Some(e.begun + 60)
    else None
  }

  ghost predicate Silent(row: Option<Row>, until: int) {
    row.Some? && (row.value.closed || (row.value.retryAfter.Some? && row.value.retryAfter.value >= until))
  }

  lemma ReplayAppend(log: seq<Event>, e: Event)
    ensures Replay(log + [e]) == After(Replay(log), e)
  {
    assert (log + [e])[..|log|] == log;
  }

  /** Silent until an instant means: whoever locks the row before it is turned away. */
  lemma SilentIff(row: Row, until: int)
    ensures Silent(Some(row), until) <==> forall rejected, now :: now < until ==> Decide(row, rejected, now) == Refuse
  {
    if !Silent(Some(row), until) {
      assert Decide(row, None, until - 1) != Refuse;
    }
  }

  /** The row as a failed exchange leaves it, if nobody else touches it, pauses for the promised 60 seconds
      from the failure exactly when no time passed between the start of the transaction and the failure.
      Nobody can know that before the call: it is a matter of how long the lock and the reply took. */
  lemma FullMinuteIff(row: Row, rejected: Option<string>, t: Timing)
    requires Decide(row, rejected, t.locked).Exchange? && t.begun <= t.locked <= t.settled
    requires !Accepted(t.reply) && !Succeeded(t.reply) && !IsPermanent(t.reply)
    ensures (forall now, reported :: t.settled <= now < t.settled + 60 ==>
               Decide(Settle(row, t.reply, t.begun, t.settled), reported, now) == Refuse)
            <==> t.begun == t.settled
  {
    if t.begun < t.settled {
      var soon := if t.settled > t.begun + COOLDOWN then t.settled else t.begun + COOLDOWN;
      assert Decide(Settle(row, t.reply, t.begun, t.settled), None, soon) != Refuse;
    }
  }

  /** An exchange begun at 0 that times out at 15 may be repeated at 60 instead of 75. */
  lemma ShortMinute()
    ensures var row := Row("", "R", 0, None, false);
            var failed := Settle(row, NoReply, 0, 15);
            && Decide(failed, None, 59) == Refuse
            && Decide(failed, None, 60) == Exchange("R")
  {
  }

  // ---------------------------------------------------------------- what a call gets

  /** Event i of a history set the pause that holds before event j: no later one set another or granted a
      token. */
  ghost predicate SetsPause(log: seq<Event>, i: nat, j: nat, until: int)
    requires j <= |log|
  {
    && i < j && SilencesUntil(Replay(log[..i]), log[i]) == Some(until)
    && forall k :: i < k < j ==> !Grants(log[k]) && SilencesUntil(Replay(log[..k]), log[k]).None?
  }

  lemma PauseStep(row: Row, e: Event)
    ensures After(Some(row), e).Some?
    ensures After(Some(row), e).value.retryAfter ==
            if Grants(e) then None
            else if SilencesUntil(Some(row), e).Some? then SilencesUntil(Some(row), e)
            else row.retryAfter
  {
  }

  lemma PauseLater(log: seq<Event>, j: nat, i: nat, until: int)
    requires j < |log| && SetsPause(log, i, j, until)
    requires !Grants(log[j]) && SilencesUntil(Replay(log[..j]), log[j]).None?
    ensures SetsPause(log, i, j + 1, until)
  {
  }

  lemma PauseNext(log: seq<Event>, p: nat, until: int)
    requires p < |log| && Replay(log[..p]).Some? && Follows(log[..p], log[p])
    requires Replay(log[..p + 1]) == After(Replay(log[..p]), log[p])
    requires Replay(log[..p]).value.retryAfter == Some(until) <==> exists i :: SetsPause(log, i, p, until)
    ensures Replay(log[..p + 1]).value.retryAfter == Some(until) <==>
            exists i, j :: j == p + 1 && SetsPause(log, i, j, until)
  {
    var e, j := log[p], p + 1;
    PauseStep(Replay(log[..p]).value, e);
    if SilencesUntil(Replay(log[..p]), e).Some? {
      assert SilencesUntil(Replay(log[..p]), e) == Some(until) ==> SetsPause(log, p, j, until);
    } else if !Grants(e) {
      if i :| SetsPause(log, i, p, until) {
        PauseLater(log, p, i, until);
      }
      if i :| SetsPause(log, i, j, until) {
        assert SetsPause(log, i, p, until);
      }
    }
  }

  lemma {:induction false} PauseIs(log: seq<Event>, j: nat, until: int)
    requires Legal(log) && j <= |log| && Replay(log[..j]).Some?
    ensures Replay(log[..j]).value.retryAfter == Some(until) <==> exists i :: SetsPause(log, i, j, until)
  {
    if j > 0 {
      var p := j - 1;
      LegalPrefix(log, p);
      assert log[..j][..p] == log[..p];
      if Replay(log[..p]).Some? {
        PauseIs(log, p, until);
        PauseNext(log, p, until);
      } else {
        NoPauseYet(log, j, until);
      }
    }
  }

  /** Before the row exists nothing is exchanged or marked. */
  lemma {:induction false} NoPauseYet(log: seq<Event>, j: nat, until: int)
    requires Legal(log) && 0 < j <= |log| && Replay(log[..j - 1]).None?
    ensures forall i :: !SetsPause(log, i, j, until)
    ensures Replay(log[..j]).Some? ==> Replay(log[..j]).value.retryAfter.None?
  {
    assert log[..j][..j - 1] == log[..j - 1];
    LegalPrefix(log, j - 1);
    forall i | 0 <= i < j ensures SilencesUntil(Replay(log[..i]), log[i]).None? {
      LegalPrefix(log, i);
      NoneEarlier(log, i, j - 1);
    }
  }

  lemma {:induction false} NoneEarlier(log: seq<Event>, i: nat, j: nat)
    requires i <= j <= |log| && Replay(log[..j]).None?
    ensures Replay(log[..i]).None?
  {
    if i < j {
      assert log[..j][..j - 1] == log[..j - 1];
      NoneEarlier(log, i, j - 1);
    }
  }

  /** Which calls are turned away, and what the others get. A call fails at once exactly when there is no row,
      when it demands reauthorization, or when the pause set last, and not ended by a grant, is not over. Any
      other call is handed the stored token if it has more than a minute left and is not the one reported, and
      otherwise presents the stored refresh token. */
  lemma CallGets(log: seq<Event>, j: nat)
    requires Legal(log) && j < |log| && IsCall(log[j])
    ensures log[j].Refused? <==>
            || Replay(log[..j]).None? || Replay(log[..j]).value.closed
            || exists i, until :: SetsPause(log, i, j, until) && LockedAt(log[j]) < until
    ensures !log[j].Refused? ==>
              var row := Replay(log[..j]).value;
              if row.access != "" && LockedAt(log[j]) + 60 < row.expiresAt && log[j].rejected != Some(row.access)
              then log[j].HandedOut? && log[j].token == row.access
              else log[j].Exchanged? && log[j].presented == row.refresh
  {
    LegalPrefix(log, j);
    var row := Replay(log[..j]);
    if row.Some? {
      if row.value.retryAfter.Some? {
        PauseIs(log, j, row.value.retryAfter.value);
      }
      if i, until :| SetsPause(log, i, j, until) && LockedAt(log[j]) < until {
        PauseIs(log, j, until);
      }
    }
  }

  /** What the row stores: the tokens of the latest grant, its expiry counted from the reply; before any grant,
      what it was first seeded with. */
  lemma {:induction false} StoredComesFrom(log: seq<Event>) returns (i: nat)
    requires Legal(log) && Replay(log).Some?
    ensures i < |log| && forall k :: i < k < |log| ==> !Grants(log[k])
    ensures var row := Replay(log).value;
            if log[i].Seeded? then
              && row.access == log[i].access && row.refresh == log[i].refresh && row.expiresAt == log[i].expiresAt
              && forall k :: 0 <= k < i ==> !log[k].Seeded?
            else
              && Grants(log[i])
              && row.access == log[i].timing.reply.access && row.refresh == log[i].timing.reply.refresh
              && row.expiresAt == log[i].timing.settled + log[i].timing.reply.expiresIn
  {
    var rest, last := log[..|log| - 1], log[|log| - 1];
    if Grants(last) || Replay(rest).None? {
      i := |log| - 1;
      if Replay(rest).None? {
        NotSeededBefore(rest);
      }
    } else {
      i := StoredComesFrom(rest);
    }
  }

  lemma {:induction false} NotSeededBefore(log: seq<Event>)
    requires Replay(log).None?
    ensures forall k :: 0 <= k < |log| ==> !log[k].Seeded?
  {
    if log != [] {
      NotSeededBefore(log[..|log| - 1]);
    }
  }

  // ---------------------------------------------------------------- one exchange per expiry

  /** While no later grant intervenes, the row holds what the grant at i stored. */
  lemma {:induction false} GrantStays(log: seq<Event>, i: nat, j: nat)
    requires Legal(log) && i < j <= |log| && Grants(log[i])
    requires forall k :: i < k < j ==> !Grants(log[k])
    ensures var row := Replay(log[..j]);
            && row.Some? && row.value.access == log[i].timing.reply.access
            && row.value.refresh == log[i].timing.reply.refresh
            && row.value.expiresAt == log[i].timing.settled + log[i].timing.reply.expiresIn
  {
    LegalPrefix(log, j - 1);
    assert log[..j][..j - 1] == log[..j - 1];
    if i < j - 1 {
      GrantStays(log, i, j - 1);
    }
  }

  /** After a grant, every token handed out is the granted one, fresh for another minute; and no exchange
      is even attempted before the last minute of its life, except for a caller that saw it refused. */
  lemma UntilTheNextGrant(log: seq<Event>, i: nat, j: nat)
    requires Legal(log) && i < j < |log| && Grants(log[i])
    requires forall k :: i < k < j ==> !Grants(log[k])
    ensures var granted := log[i].timing.reply;
            var expiresAt := log[i].timing.settled + granted.expiresIn;
            && (log[j].HandedOut? ==> log[j].token == granted.access && log[j].at + 60 < expiresAt)
            && (log[j].Exchanged? ==>
                  log[j].timing.locked + 60 >= expiresAt || log[j].rejected == Some(granted.access))
  {
    LegalPrefix(log, j);
    GrantStays(log, i, j);
  }

  /** Any number of callers, one exchange: in a stretch that ends before the last minute of every token
      granted in it, and in which no caller reports such a token as refused, at most one exchange
      succeeds. */
  lemma OneExchangePerExpiry(log: seq<Event>, from: nat, i: nat, j: nat)
    requires Legal(log) && from <= i <= j < |log| && Grants(log[i]) && Grants(log[j])
    requires forall k, g :: from <= g < k < |log| && Grants(log[g]) && log[k].Exchanged? ==>
               log[k].timing.locked + 60 < log[g].timing.settled + log[g].timing.reply.expiresIn
               && log[k].rejected != Some(log[g].timing.reply.access)
    ensures i == j
  {
    if i < j {
      var k := NextGrant(log, i, j);
      UntilTheNextGrant(log, i, k);
    }
  }

  lemma NextGrant(log: seq<Event>, i: nat, j: nat) returns (next: nat)
    requires i < j < |log| && Grants(log[j])
    ensures i < next <= j && Grants(log[next]) && forall k :: i < k < next ==> !Grants(log[k])
  {
    next := i + 1;
    while !Grants(log[next])
      invariant i < next <= j && forall k :: i < k < next ==> !Grants(log[k])
      decreases j - next
    {
      next := next + 1;
    }
  }

  /** The event neither exchanges a token nor pauses the row because of this one. */
  predicate LeavesBe(e: Event, token: string) {
    !e.Exchanged? && !(e.MarkedRejected? && e.token == token)
  }

  /** Is the event, if it is a call, one that comes before the last minute of a token and does not report
      that token as refused? Nor may it record a second refusal of the token. */
  predicate IsOrdinary(e: Event, token: string, expiresAt: int) {
    && (IsCall(e) ==> LockedAt(e) + 60 < expiresAt && e.rejected != Some(token))
    && (e.MarkedRejected? ==> e.token != token)
  }

  function GrantedRow(t: Timing): Row
    requires Accepted(t.reply)
  {
    Row(t.reply.access, t.reply.refresh, t.settled + t.reply.expiresIn, None, false)
  }

  lemma GrantStores(log: seq<Event>, e: Event)
    requires Follows(log, e) && Grants(e)
    ensures After(Replay(log), e) == Some(GrantedRow(e.timing))
  {
  }

  lemma LeftAlone(row: Row, e: Event)
    requires LeavesBe(e, row.access)
    ensures After(Some(row), e) == Some(row)
  {
  }

  lemma {:induction false} GrantIsKept(log: seq<Event>, i: nat, j: nat)
    requires Legal(log) && i < j <= |log| && Grants(log[i])
    requires forall k :: i < k < j ==> LeavesBe(log[k], log[i].timing.reply.access)
    ensures Replay(log[..j]) == Some(GrantedRow(log[i].timing))
  {
    assert log[..j] == log[..j - 1] + [log[j - 1]];
    ReplayAppend(log[..j - 1], log[j - 1]);
    if i < j - 1 {
      GrantIsKept(log, i, j - 1);
      LeftAlone(GrantedRow(log[i].timing), log[j - 1]);
    } else {
      LegalPrefix(log, i);
      GrantStores(log[..i], log[i]);
    }
  }

  /** Every caller is served. After a grant, with no exchange and no second 401 for the granted token in
      between, a call before the last minute of its life is handed that token, unless it reports that very
      token as refused. */
  lemma GrantIsServed(log: seq<Event>, i: nat, j: nat)
    requires Legal(log) && i < j < |log| && Grants(log[i])
    requires forall k :: i < k < j ==> LeavesBe(log[k], log[i].timing.reply.access)
    requires var t := log[i].timing;
             IsCall(log[j]) && IsOrdinary(log[j], t.reply.access, t.settled + t.reply.expiresIn)
    ensures log[j].HandedOut? && log[j].token == log[i].timing.reply.access
  {
    LegalPrefix(log, j);
    GrantIsKept(log, i, j);
  }

  /** One exchange serves everybody. From a grant on, as long as callers come before the last minute of the
      token's life and none reports it as refused, there is exactly one exchange, the granting one, and all
      other callers, whatever their number, get the token it stored. */
  lemma {:induction false} OneExchangeServesAll(log: seq<Event>, i: nat, end: nat)
    requires Legal(log) && i < end <= |log| && Grants(log[i])
    requires var t := log[i].timing;
             forall k :: i < k < end ==> IsOrdinary(log[k], t.reply.access, t.settled + t.reply.expiresIn)
    ensures forall k :: i <= k < end ==> (log[k].Exchanged? <==> k == i)
    ensures forall k :: i < k < end && IsCall(log[k]) ==>
              log[k].HandedOut? && log[k].token == log[i].timing.reply.access
  {
    if i < end - 1 {
      OneExchangeServesAll(log, i, end - 1);
      if IsCall(log[end - 1]) {
        GrantIsServed(log, i, end - 1);
      }
    }
  }

  // ---------------------------------------------------------------- a GET with its retry

  /** The row after accesses of other callers. */
  function Applied(row: Option<Row>, events: seq<Event>): Option<Row> {
    if events == [] then row else After(Applied(row, events[..|events| - 1]), events[|events| - 1])
  }

  /** What surrounds one GET: its two token calls, the moment its mark would begin, what other callers commit
      between the token calls and between the second one and the mark, and the upstream's answers to the two
      attempts, None when there is no answer. */
  datatype Surroundings = Surroundings(first: Timing, between: seq<Event>, second: Timing, meanwhile: seq<Event>,
                                       marked: int, replies: (Option<nat>, Option<nat>))

  datatype GetResult = Answer(status: nat) | Unavailable | Upstream | NotConfigured

  /** A GET with a stored token, renewed and retried once after a 401: the result, the tokens sent, and the
      row left, before a mark is recorded in it. */
  function GetCall(row: Option<Row>, g: Surroundings): (GetResult, seq<string>, Option<Row>) {
    if row.None? then (Unavailable, [], None)
    else
      var (once, token) := TokenCall(row.value, None, g.first);
      if token.None? then (Unavailable, [], Some(once))
      else if g.replies.0.None? then (Upstream, [token.value], Some(once))
      else if g.replies.0.value != UNAUTHORIZED then (Answer(g.replies.0.value), [token.value], Some(once))
      else
        var again := Applied(Some(once), g.between);
        if again.None? then (Unavailable, [token.value], None)
        else
          var (twice, refreshed) := TokenCall(again.value, token, g.second);
          if refreshed.None? then (Unavailable, [token.value], Some(twice))
          else
            var bearers := [token.value, refreshed.value];
            if g.replies.1.None? then (Upstream, bearers, Some(twice))
            else if g.replies.1.value != UNAUTHORIZED then (Answer(g.replies.1.value), bearers, Some(twice))
            else (Answer(UNAUTHORIZED), bearers, Applied(Some(twice), g.meanwhile))
  }

  /** The row a GET leaves: marked after a second 401. */
  function RowAfterGet(row: Option<Row>, g: Surroundings): Option<Row> {
    var (result, bearers, left) := GetCall(row, g);
    if result != Answer(UNAUTHORIZED) || left.None? || |bearers| < 2 then left
    else Some(Marked(left.value, bearers[1], g.marked))
  }

  /** What comes of a GET. It sends at most two tokens, the second only after a 401, and gives the last answer,
      or an upstream error where there is none; without a token to send it is unavailable. A stored token with
      more than a minute left is sent as it is and, unless it is refused, the row stays as it was; a closed or
      paused row sends none. */
  lemma GetOutcome(row: Option<Row>, g: Surroundings)
    ensures var (result, bearers, left) := GetCall(row, g);
            && |bearers| <= 2
            && (|bearers| == 0 ==> result == Unavailable)
            && (|bearers| == 1 ==> result == if g.replies.0 == None then Upstream
                                             else if g.replies.0 == Some(401) then Unavailable
                                             else Answer(g.replies.0.value))
            && (|bearers| == 2 ==> g.replies.0 == Some(401)
                                   && result == if g.replies.1 == None then Upstream else Answer(g.replies.1.value))
    ensures var (_, bearers, left) := GetCall(row, g);
            if row.None? then bearers == [] && left.None?
            else
              var (stored, at) := (row.value, g.first.locked);
              if stored.closed || (stored.retryAfter.Some? && at < stored.retryAfter.value) then
                bearers == [] && left == row
              else if stored.access != "" && at + 60 < stored.expiresAt then
                bearers != [] && bearers[0] == stored.access && (g.replies.0 != Some(401) ==> left == row)
              else bearers != [] ==> g.first.reply.Granted? && bearers[0] == g.first.reply.access
  {
  }

  lemma {:induction false} AppliedKeeps(row: Option<Row>, events: seq<Event>)
    requires row.Some?
    ensures Applied(row, events).Some?
    ensures (forall k :: 0 <= k < |events| ==> !Grants(events[k])) ==>
              Applied(row, events).value.access == row.value.access
  {
    if events != [] {
      AppliedKeeps(row, events[..|events| - 1]);
    }
  }

  /** A 401 is passed on only after a retry. It silences every caller that locks the row within a minute of
      the mark if and only if the row, when the mark is recorded, still stores the token of the retry, or is
      closed, or is paused for that long already. The first is so if no other caller was granted a token
      since the retry got its own. The retry repeats the rejected token only if somebody was granted that
      very token anew. */
  lemma RepeatedUnauthorized(row: Option<Row>, g: Surroundings)
    requires GetCall(row, g).0 == Answer(UNAUTHORIZED)
    ensures var (_, bearers, left) := GetCall(row, g);
            var after := RowAfterGet(row, g);
            && |bearers| == 2 && left.Some? && after.Some?
            && ((forall rejected, now :: now < g.marked + 60 ==> Decide(after.value, rejected, now) == Refuse)
                <==> left.value.access == bearers[1] || Silent(left, g.marked + 60))
            && ((forall k :: 0 <= k < |g.meanwhile| ==> !Grants(g.meanwhile[k])) ==> left.value.access == bearers[1])
            && (bearers[0] == bearers[1] ==> Accepted(g.second.reply) && g.second.reply.access == bearers[0])
  {
    var (once, token) := TokenCall(row.value, None, g.first);
    AppliedKeeps(Some(once), g.between);
    var (twice, refreshed) := TokenCall(Applied(Some(once), g.between).value, token, g.second);
    AppliedKeeps(Some(twice), g.meanwhile);
    SilentIff(RowAfterGet(row, g).value, g.marked + COOLDOWN);
  }

  /** The mark can come too late: between the retry and the mark another caller reports the retried token
      and is granted a new one. The mark then changes nothing, and the new token is handed out at once. */
  lemma LateMark()
    ensures var renewed := Timing(1, 1, 1, Granted("B", "S", 1000));
            var other := Exchanged(Some("B"), Timing(2, 2, 2, Granted("C", "T", 1000)), "S");
            var g := Surroundings(Timing(0, 0, 0, NoReply), [], renewed, [other], 3, (Some(401), Some(401)));
            var stored := Some(Row("A", "R", 1000, None, false));
            && Decide(Row("B", "S", 1001, None, false), other.rejected, 2) == Exchange(other.presented)
            && GetCall(stored, g).0 == Answer(UNAUTHORIZED)
            && RowAfterGet(stored, g) == Some(Row("C", "T", 1002, None, false))
            && Decide(RowAfterGet(stored, g).value, None, 3) == HandOut("C")
  {
    var once := Row("B", "S", 1001, None, false);
    var other := Exchanged(Some("B"), Timing(2, 2, 2, Granted("C", "T", 1000)), "S");
    assert ByteLength("B") == 1 && ByteLength("C") == 1 && ByteLength("S") == 1 && ByteLength("T") == 1;
    assert [other][..0] == [] && Applied(Some(once), [other]) == After(Some(once), other);
  }

  /** Accesses of other callers, in the order in which they commit. */
  method Others(oauth: MercadoLivreOAuth, events: seq<Event>)
    modifies oauth
    ensures oauth.row == Applied(old(oauth.row), events)
  {
    oauth.row := Applied(oauth.row, events);
  }

  method AuthorizedGet(oauth: MercadoLivreOAuth?, configured: Option<string>, g: Surroundings)
    returns (result: GetResult, bearers: seq<string>)
    modifies oauth
    ensures oauth == null ==>
              if configured.None? then result == NotConfigured && bearers == []
              else
                && bearers == [configured.value]
                && result == if g.replies.0.Some? then Answer(g.replies.0.value) else Upstream
    ensures oauth != null ==>
              && (result, bearers) == (GetCall(old(oauth.row), g).0, GetCall(old(oauth.row), g).1)
              && oauth.row == RowAfterGet(old(oauth.row), g)
  {
    bearers := [];
    var token := configured;
    if oauth != null {
      token := oauth.Token(None, g.first);
    }
    if token.None? {
      return if oauth == null then NotConfigured else Unavailable, bearers;
    }
    bearers := [token.value];
    if g.replies.0.None? {
      return Upstream, bearers;
    }
    if g.replies.0.value == UNAUTHORIZED && oauth != null {
      Others(oauth, g.between);
      var refreshed := oauth.Token(Some(token.value), g.second);
      if refreshed.None? {
        return Unavailable, bearers;
      }
      bearers := [token.value, refreshed.value];
      if g.replies.1.None? {
        return Upstream, bearers;
      }
      if g.replies.1.value == UNAUTHORIZED {
        Others(oauth, g.meanwhile);
        oauth.MarkRejected(refreshed.value, g.marked);
      }
      return Answer(g.replies.1.value), bearers;
    }
    return Answer(g.replies.0.value), bearers;
  }
}
