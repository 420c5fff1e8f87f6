/** The response cache as its clients see it: what a run of requests says about each answer. */
module CacheVisits {
  import opened Numbers
  import opened Options
  import opened ResponseCache

  // ---------------------------------------------------------------- query parameters

  /** The part stands at position i, between separators or ends of the text. */
  predicate StandsAt(text: string, separator: char, part: string, i: nat) {
    && i + |part| <= |text| && text[i..i + |part|] == part
    && (i == 0 || text[i - 1] == separator)
    && (i + |part| == |text| || text[i + |part|] == separator)
  }

  ghost predicate StandsLater(text: string, separator: char, part: string) {
    exists i :: i > 0 && StandsAt(text, separator, part, i)
  }

  ghost predicate HasParameter(query: Option<string>, parameter: string) {
    query.Some? && exists i :: StandsAt(query.value, '&', parameter, i)
  }

  lemma ShiftedPart(text: string, separator: char, part: string, i: nat)
    requires text != ""
    ensures StandsAt(text, separator, part, i + 1) <==>
            StandsAt(text[1..], separator, part, i) && (i == 0 ==> text[0] == separator)
  {
    if i + 1 + |part| <= |text| {
      assert text[i + 1..i + 1 + |part|] == text[1..][i..i + |part|];
    }
  }

  lemma LaterParts(text: string, separator: char, part: string)
    requires text != ""
    ensures StandsLater(text, separator, part) <==>
            StandsLater(text[1..], separator, part)
            || (text[0] == separator && StandsAt(text[1..], separator, part, 0))
  {
    if i :| i > 0 && StandsAt(text, separator, part, i) {
      ShiftedPart(text, separator, part, i - 1);
    }
    if i :| i > 0 && StandsAt(text[1..], separator, part, i) {
      ShiftedPart(text, separator, part, i);
    }
    ShiftedPart(text, separator, part, 0);
  }

  lemma {:induction false} SplitParts(text: string, separator: char, part: string)
    requires separator !in part
    ensures var parts := Split(text, separator);
            && parts != []
            && (parts[0] == part <==> StandsAt(text, separator, part, 0))
            && (part in parts[1..] <==> StandsLater(text, separator, part))
  {
    if text == "" {
      return;
    }
    SplitParts(text[1..], separator, part);
    LaterParts(text, separator, part);
    var rest := Split(text[1..], separator);
    if text[0] == separator {
      assert Split(text, separator)[1..] == rest;
      assert part in rest <==> part == rest[0] || part in rest[1..];
      if part != "" && |part| <= |text| {
        assert text[0..|part|][0] == separator && part[0] != separator;
      }
    } else {
      FirstPart(text, separator, part, rest[0]);
      assert Split(text, separator)[1..] == rest[1..];
    }
  }

  lemma {:induction false} FirstPartIs(text: string, separator: char)
    ensures var parts := Split(text, separator);
            parts != [] && separator !in parts[0] && StandsAt(text, separator, parts[0], 0)
  {
    if text != "" && text[0] != separator {
      FirstPartIs(text[1..], separator);
      var rest := Split(text[1..], separator)[0];
      assert text[0..|rest| + 1] == [text[0]] + text[1..][0..|rest|];
    }
  }

  lemma ShorterStops(text: string, separator: char, a: string, b: string)
    requires StandsAt(text, separator, a, 0) && StandsAt(text, separator, b, 0) && |a| < |b|
    ensures separator in b
  {
    assert b[|a|] == text[|a|];
  }

  lemma OneFirstPart(text: string, separator: char, a: string, b: string)
    requires separator !in a && separator !in b
    requires StandsAt(text, separator, a, 0) && StandsAt(text, separator, b, 0)
    ensures a == b
  {
    if |a| < |b| {
      ShorterStops(text, separator, a, b);
    } else if |b| < |a| {
      ShorterStops(text, separator, b, a);
    }
  }

  lemma FirstPart(text: string, separator: char, part: string, rest: string)
    requires text != "" && text[0] != separator && separator !in part
    requires Split(text[1..], separator) != [] && Split(text[1..], separator)[0] == rest
    ensures [text[0]] + rest == part <==> StandsAt(text, separator, part, 0)
  {
    FirstPartIs(text, separator);
    if StandsAt(text, separator, part, 0) {
      OneFirstPart(text, separator, part, Split(text, separator)[0]);
    }
  }

  /** A refresh is asked for exactly when `refresh=true` is one of the parameters. */
  lemma RefreshParameter(query: Option<string>)
    ensures RequestsRefresh(query) <==> HasParameter(query, "refresh=true")
  {
    if query.Some? {
      SplitParts(query.value, '&', "refresh=true");
      var parts := Split(query.value, '&');
      assert "refresh=true" in parts <==> parts[0] == "refresh=true" || "refresh=true" in parts[1..];
      assert StandsLater(query.value, '&', "refresh=true") ==> HasParameter(query, "refresh=true");
      if i :| StandsAt(query.value, '&', "refresh=true", i) {
        assert i > 0 ==> StandsLater(query.value, '&', "refresh=true");
      }
    }
  }

  // ---------------------------------------------------------------- what a hit repeats

  lemma SameUri(a: Request, b: Request)
    requires '?' !in a.path && '?' !in b.path
    ensures Uri(a) == Uri(b) <==> a.path == b.path && a.query == b.query
  {
    PathOfUri(a);
    PathOfUri(b);
    if Uri(a) == Uri(b) {
      assert Uri(a)[|a.path|..] == (if a.query.Some? then "?" + a.query.value else "");
      assert Uri(b)[|b.path|..] == (if b.query.Some? then "?" + b.query.value else "");
      if a.query.Some? {
        assert ("?" + a.query.value)[1..] == a.query.value;
      }
      if b.query.Some? {
        assert ("?" + b.query.value)[1..] == b.query.value;
      }
    }
  }

  /** A GET of a path other than "/mangas" with the parameter `refresh=true`. */
  ghost predicate AsksForRefresh(r: Request) {
    r.isGet && r.path != "/mangas" && HasParameter(r.query, "refresh=true")
  }

  /** A write that the handler answered with any status from 200 to 299. */
  predicate IsSuccessfulWrite(v: Visit) {
    !v.request.isGet && 200 <= v.reply.response.status && v.reply.response.status <= 299
  }

  function TtlOf(v: Visit, config: Config): nat {
    match v.reply.ttl
    case Some(ttl) => ttl
    case None => config.ttl
  }

  /** The handler's answer may be stored. */
  predicate IsStorable(v: Visit, config: Config) {
    && v.reply.response.status == 200 && v.reply.sized
    && |v.reply.response.body| <= 1_048_576 && |v.reply.response.body| <= config.maxBytes
  }

  /** The answer `sent` to visit k repeats what the handler answered at visit j: the same request, the handler's
      body under status 200, and its headers but for the two the cache sets; the answer is still fresh, and
      since then no write succeeded and nobody asked for a refresh of the path. */
  ghost predicate Repeats(visits: seq<Visit>, sent: Response, j: nat, k: nat, config: Config)
    requires j < k < |visits|
  {
    var (a, b) := (visits[j], visits[k]);
    && a.request.isGet && a.request.path == b.request.path && a.request.query == b.request.query
    && IsStorable(a, config)
    && sent.status == 200 && sent.body == a.reply.response.body
    && sent.headers == a.reply.response.headers["cache-control" := MaxAge(TtlOf(a, config))]["x-cache" := XCache(Hit)]
    && TtlOf(a, config) > 0 && b.now - a.later < TtlOf(a, config)
    && forall m :: j < m < k ==>
         && !IsSuccessfulWrite(visits[m])
         && !(AsksForRefresh(visits[m].request) && visits[m].request.path == b.request.path)
  }

  lemma StoredAnswer(s: State, v: Visit, config: Config, after: State, event: Event)
    requires IsVisit(s, v, config, after, event) && event.Handled? && event.stored.Some?
    ensures v.request.isGet && event.uri == Uri(v.request) && IsStorable(v, config)
    ensures event.stored.value.insertedAt == v.later && event.stored.value.ttl == TtlOf(v, config)
    ensures var reply := v.reply.response;
            FromCache(event.stored.value)
            == Response(200, reply.headers["cache-control" := MaxAge(TtlOf(v, config))]["x-cache" := XCache(Hit)],
                        reply.body)
  {
  }

  lemma Superseding(s: State, v: Visit, config: Config, after: State, event: Event, r: Request)
    requires IsVisit(s, v, config, after, event) && '?' !in r.path
    ensures IsSuccessfulWrite(v) ==> Supersedes(event, Uri(r))
    ensures AsksForRefresh(v.request) && v.request.path == r.path ==> Supersedes(event, Uri(r))
  {
    RefreshParameter(v.request.query);
    PathOfUri(r);
  }

  /** Coherence of hits, in terms of the requests and the handlers' answers alone. */
  lemma HitsRepeatAnswers(visits: seq<Visit>, states: seq<State>, history: seq<Event>, config: Config, k: nat)
    returns (j: nat)
    requires IsRun(visits, states, history, config) && k < |visits| && history[k].Replayed?
    ensures visits[k].request.isGet && !AsksForRefresh(visits[k].request)
    ensures j < k && Repeats(visits, history[k].sent, j, k, config)
  {
    HitsAreCoherent(visits, states, history, config, k);
    assert IsVisit(states[k], visits[k], config, states[k + 1], history[k]);
    RefreshParameter(visits[k].request.query);
    var uri := Uri(visits[k].request);
    RefinesAlong(visits, states, history, config, k);
    var source := IdealOrigin(history[..k], uri);
    assert IsVisit(states[source], visits[source], config, states[source + 1], history[source]);
    StoredAnswer(states[source], visits[source], config, states[source + 1], history[source]);
    SameUri(visits[source].request, visits[k].request);
    forall m | source < m < k
      ensures !IsSuccessfulWrite(visits[m])
      ensures !(AsksForRefresh(visits[m].request) && visits[m].request.path == visits[k].request.path)
    {
      assert IsVisit(states[m], visits[m], config, states[m + 1], history[m]);
      Superseding(states[m], visits[m], config, states[m + 1], history[m], visits[k].request);
      assert !Supersedes(history[..k][m], uri);
    }
    j := source;
  }

  // ---------------------------------------------------------------- what is a hit, and what the others send

  /** Visit m concerns another request and stores nothing, and it is no reason to forget what is stored for
      `r`. */
  ghost predicate Spares(v: Visit, r: Request, config: Config) {
    && !IsSuccessfulWrite(v)
    && (v.request.isGet && !AsksForRefresh(v.request) ==>
          (v.request.path, v.request.query) != (r.path, r.query) && !IsStorable(v, config))
    && (AsksForRefresh(v.request) ==> v.request.path != r.path)
  }

  lemma SparedStep(s: State, v: Visit, config: Config, after: State, event: Event, r: Request)
    requires IsVisit(s, v, config, after, event) && Spares(v, r, config) && '?' !in r.path && Uri(r) in s.entries
    ensures Uri(r) in after.entries && after.entries[Uri(r)] == s.entries[Uri(r)]
  {
    RefreshParameter(v.request.query);
    PathOfUri(v.request);
    PathOfUri(r);
    SameUri(v.request, r);
  }

  predicate Keeps(states: seq<State>, m: nat, uri: string)
    requires m + 1 < |states|
  {
    uri in states[m].entries ==> uri in states[m + 1].entries && states[m + 1].entries[uri] == states[m].entries[uri]
  }

  lemma SparedNext(visits: seq<Visit>, states: seq<State>, history: seq<Event>, config: Config, r: Request, m: nat)
    requires IsRun(visits, states, history, config) && m < |visits| && Spares(visits[m], r, config)
    requires '?' !in r.path
    ensures Keeps(states, m, Uri(r))
  {
    assert IsVisit(states[m], visits[m], config, states[m + 1], history[m]);
    if Uri(r) in states[m].entries {
      SparedStep(states[m], visits[m], config, states[m + 1], history[m], r);
    }
  }

  lemma {:induction false} KeptAlong(states: seq<State>, uri: string, from: nat, k: nat)
    requires from <= k < |states| && uri in states[from].entries
    requires forall m :: from <= m < k ==> Keeps(states, m, uri)
    ensures uri in states[k].entries && states[k].entries[uri] == states[from].entries[uri]
  {
    if from < k {
      KeptAlong(states, uri, from, k - 1);
      assert Keeps(states, k - 1, uri);
    }
  }

  lemma StoringStep(s: State, v: Visit, config: Config, after: State, event: Event)
    requires IsVisit(s, v, config, after, event) && v.request.isGet && !AsksForRefresh(v.request)
    requires !event.Replayed? && IsStorable(v, config)
    ensures event.Handled? && event.stored.Some?
    ensures Uri(v.request) in after.entries && after.entries[Uri(v.request)] == event.stored.value
  {
    RefreshParameter(v.request.query);
  }

  lemma HitStep(s: State, v: Visit, config: Config, after: State, event: Event)
    requires IsVisit(s, v, config, after, event) && v.request.isGet && !AsksForRefresh(v.request)
    requires Uri(v.request) in s.entries
    requires Elapsed(s.entries[Uri(v.request)].insertedAt, v.now) < s.entries[Uri(v.request)].ttl
    ensures event.Replayed?
  {
    RefreshParameter(v.request.query);
  }

  /** The cache does its work: once the handler gave a storable answer to a GET, the next GET of the same
      request within its time-to-live is answered from the cache, as long as the visits in between store
      nothing and are no reason to forget. */
  lemma RepeatIsHit(visits: seq<Visit>, states: seq<State>, history: seq<Event>, config: Config, j: nat, k: nat)
    requires IsRun(visits, states, history, config) && j < k < |visits|
    requires visits[j].request.isGet && !AsksForRefresh(visits[j].request)
    requires visits[k].request == visits[j].request
    requires !history[j].Replayed? && IsStorable(visits[j], config)
    requires forall m :: j < m < k ==> Spares(visits[m], visits[j].request, config)
    requires TtlOf(visits[j], config) > 0 && visits[k].now - visits[j].later < TtlOf(visits[j], config)
    ensures history[k].Replayed? && Repeats(visits, history[k].sent, j, k, config)
  {
    var r := visits[j].request;
    assert IsVisit(states[j], visits[j], config, states[j + 1], history[j]);
    StoringStep(states[j], visits[j], config, states[j + 1], history[j]);
    StoredAnswer(states[j], visits[j], config, states[j + 1], history[j]);
    forall m | j + 1 <= m < k ensures Keeps(states, m, Uri(r)) {
      SparedNext(visits, states, history, config, r, m);
    }
    KeptAlong(states, Uri(r), j + 1, k);
    assert IsVisit(states[k], visits[k], config, states[k + 1], history[k]);
    HitStep(states[k], visits[k], config, states[k + 1], history[k]);
    assert history[k].sent == FromCache(states[k].entries[Uri(r)]);
  }

  /** An answer that does not come from the cache is the handler's own: same status, same body, same headers but
      for the cache's two, marked as missed exactly if it is stored. */
  lemma OthersAreHandled(visits: seq<Visit>, states: seq<State>, history: seq<Event>, config: Config, k: nat)
    requires IsRun(visits, states, history, config) && k < |visits|
    requires visits[k].request.isGet && !AsksForRefresh(visits[k].request) && !history[k].Replayed?
    ensures var reply := visits[k].reply.response;
            && history[k].Handled? && history[k].sent.status == reply.status && history[k].sent.body == reply.body
            && (reply.status != 200 ==> history[k].sent.headers == reply.headers)
            && (reply.status == 200 && !IsStorable(visits[k], config) ==>
                  history[k].sent.headers == reply.headers["x-cache" := XCache(Bypass)])
            && (IsStorable(visits[k], config) ==>
                  history[k].sent.headers
                  == reply.headers["cache-control" := MaxAge(TtlOf(visits[k], config))]["x-cache" := XCache(Miss)])
  {
    assert IsVisit(states[k], visits[k], config, states[k + 1], history[k]);
    RefreshParameter(visits[k].request.query);
  }
}
