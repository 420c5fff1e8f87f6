/** The bounded in-memory response cache and the middleware in front of the catalog handlers. */
module ResponseCache {
  import opened Numbers
  import opened Options

  const USIZE_MAX: nat := 0xffff_ffff_ffff_ffff
  const MAX_CACHE_ENTRY_BYTES: nat := 1024 * 1024
  const OK: nat := 200

  type Bytes = seq<bv8>

  datatype Mark = Hit | Miss | Bypass
  datatype HeaderValue = XCache(mark: Mark) | MaxAge(seconds: nat) | Text(text: string)
  type Headers = map<string, HeaderValue>

  const X_CACHE := "x-cache"
  const CACHE_CONTROL := "cache-control"

  // Instants and time-to-live values are in seconds.
  datatype Cached = Cached(insertedAt: int, ttl: nat, status: nat, headers: Headers, body: Bytes)
  datatype Config = Config(ttl: nat, maxEntries: nat, maxBytes: nat)

  type Entries = map<string, Cached>
  datatype State = State(entries: Entries, totalBytes: nat)

  function SatAdd(a: nat, b: nat): nat { Min(a + b, USIZE_MAX) }

  function SatSub(a: nat, b: nat): nat { if a < b then 0 else a - b }

  function Elapsed(since: int, now: int): nat { if now < since then 0 else now - since }

  // ---------------------------------------------------------------- accounting

  /** The bytes held by the stored bodies. */
  ghost function Sum(entries: Entries): nat {
    if entries == map[] then 0
    else
      var k :| k in entries;
      |entries[k].body| + Sum(entries - {k})
  }

  lemma {:induction false} SumRemove(entries: Entries, k: string)
    requires k in entries
    ensures Sum(entries) == |entries[k].body| + Sum(entries - {k})
    decreases |entries|
  {
    var first :| first in entries && Sum(entries) == |entries[first].body| + Sum(entries - {first});
    if first != k {
      SumRemove(entries - {first}, k);
      SumRemove(entries - {k}, first);
      assert entries - {first} - {k} == entries - {k} - {first};
    }
  }

  lemma SumInsert(entries: Entries, k: string, c: Cached)
    requires k !in entries
    ensures Sum(entries[k := c]) == Sum(entries) + |c.body|
  {
    SumRemove(entries[k := c], k);
    assert entries[k := c] - {k} == entries;
  }

  /** The running total is right and the configured limits hold; a configured `maxEntries` of zero
      still lets one entry in. */
  ghost predicate Valid(s: State, config: Config) {
    && s.totalBytes == Sum(s.entries)
    && s.totalBytes <= config.maxBytes
    && |s.entries| <= (if config.maxEntries == 0 then 1 else config.maxEntries)
  }

  /** The middleware stores no larger body. */
  predicate AreSmall(entries: Entries) { forall k :: k in entries ==> |entries[k].body| <= MAX_CACHE_ENTRY_BYTES }

  /** The limits leave the byte count no room to overflow: either the budget is below the largest machine
      word, or as many bodies as there may be entries fit in a word. */
  predicate HasHeadroom(config: Config) {
    config.maxBytes < USIZE_MAX || config.maxEntries * MAX_CACHE_ENTRY_BYTES <= USIZE_MAX
  }

  /** Is a body of this size one for which the headroom was reckoned? */
  predicate IsReckoned(bytes: nat, config: Config) { config.maxBytes < USIZE_MAX || bytes <= MAX_CACHE_ENTRY_BYTES }

  predicate AreReckoned(entries: Entries, config: Config) {
    HasHeadroom(config) && forall k :: k in entries ==> IsReckoned(|entries[k].body|, config)
  }

  /** What the cache keeps at all times. */
  ghost predicate IsSound(s: State, config: Config) {
    Valid(s, config) && config.maxBytes <= USIZE_MAX && AreReckoned(s.entries, config)
  }

  lemma {:induction false} SumBound(entries: Entries)
    requires AreSmall(entries)
    ensures Sum(entries) <= |entries| * MAX_CACHE_ENTRY_BYTES
    decreases |entries|
  {
    if entries != map[] {
      var k :| k in entries;
      var rest := entries - {k};
      assert |rest| == |entries| - 1;
      SumRemove(entries, k);
      assert |entries[k].body| <= MAX_CACHE_ENTRY_BYTES;
      assert AreSmall(rest);
      SumBound(rest);
      OneMore(|rest|, Sum(rest), |entries[k].body|);
    }
  }

  lemma OneMore(count: nat, sum: nat, bytes: nat)
    requires sum <= count * MAX_CACHE_ENTRY_BYTES && bytes <= MAX_CACHE_ENTRY_BYTES
    ensures sum + bytes <= (count + 1) * MAX_CACHE_ENTRY_BYTES
  {
  }

  /** Does the saturating budget check decide as exact arithmetic would? It is made only while there is room
      for one more entry. */
  predicate IsExact(total: nat, count: nat, bytes: nat, config: Config) {
    count < config.maxEntries ==> (SatAdd(total, bytes) > config.maxBytes <==> total + bytes > config.maxBytes)
  }

  lemma ExactWithHeadroom(entries: Entries, bytes: nat, config: Config)
    requires AreReckoned(entries, config) && IsReckoned(bytes, config)
    ensures IsExact(Sum(entries), |entries|, bytes, config)
    ensures config.maxBytes == USIZE_MAX && |entries| < config.maxEntries ==> Sum(entries) + bytes <= USIZE_MAX
  {
    if config.maxBytes >= USIZE_MAX && |entries| < config.maxEntries {
      SumBound(entries);
      assert (|entries| + 1) * MAX_CACHE_ENTRY_BYTES <= config.maxEntries * MAX_CACHE_ENTRY_BYTES;
    }
  }

  // ---------------------------------------------------------------- eviction

  ghost predicate Fits(entries: Entries, bytes: nat, config: Config) {
    |entries| < config.maxEntries && Sum(entries) + bytes <= config.maxBytes
  }

  function Without(entries: Entries, victims: seq<string>): (left: Entries)
    ensures forall k :: k in left ==> k in entries && left[k] == entries[k]
  {
    if victims == [] then entries
    else Without(entries, victims[..|victims| - 1]) - {victims[|victims| - 1]}
  }

  /** `victims` were evicted one by one: each was stored no later than everything still there, and none
      was evicted while the newcomer already fitted. */
  ghost predicate Evicting(entries: Entries, victims: seq<string>, bytes: nat, config: Config) {
    victims == []
    || (var last := |victims| - 1;
        && Evicting(entries, victims[..last], bytes, config)
        && OldestOf(Without(entries, victims[..last]), victims[last], bytes, config))
  }

  ghost predicate OldestOf(entries: Entries, victim: string, bytes: nat, config: Config) {
    && victim in entries && !Fits(entries, bytes, config)
    && forall k :: k in entries ==> entries[victim].insertedAt <= entries[k].insertedAt
  }

  /** The eviction is over: the newcomer fits, or nothing is left. */
  ghost predicate Evicts(entries: Entries, victims: seq<string>, bytes: nat, config: Config) {
    && Evicting(entries, victims, bytes, config)
    && (Fits(Without(entries, victims), bytes, config) || Without(entries, victims) == map[])
  }

  lemma EvictOne(base: Entries, left: Entries, victims: seq<string>, victim: string, bytes: nat, config: Config)
    requires Evicting(base, victims, bytes, config) && left == Without(base, victims)
    requires OldestOf(left, victim, bytes, config) && AreReckoned(left, config)
    ensures Evicting(base, victims + [victim], bytes, config)
    ensures left - {victim} == Without(base, victims + [victim]) && |left - {victim}| < |left|
    ensures AreReckoned(left - {victim}, config) && Sum(left - {victim}) <= Sum(left)
  {
    assert (victims + [victim])[..|victims|] == victims;
    SumRemove(left, victim);
  }

  /** `insert`: which entry goes first among equally old ones is up to the hash map. */
  ghost predicate Inserts(s: State, key: string, c: Cached, config: Config, after: State, stored: bool) {
    if |c.body| > config.maxBytes then after == s && !stored
    else
      && stored
      && exists victims ::
           && Evicts(s.entries - {key}, victims, |c.body|, config)
           && after.entries == Without(s.entries - {key}, victims)[key := c]
           && after.totalBytes == Sum(after.entries)
  }

  lemma InsertStores(s: State, left: Entries, key: string, c: Cached, config: Config, victims: seq<string>)
    returns (after: State)
    requires Evicts(s.entries - {key}, victims, |c.body|, config) && left == Without(s.entries - {key}, victims)
    requires AreReckoned(left, config) && IsReckoned(|c.body|, config)
    requires Sum(left) + |c.body| <= config.maxBytes <= USIZE_MAX && (|left| < config.maxEntries || left == map[])
    ensures after == State(left[key := c], Sum(left) + |c.body|)
    ensures Inserts(s, key, c, config, after, true) && IsSound(after, config)
  {
    after := State(left[key := c], Sum(left) + |c.body|);
    SumInsert(left, key, c);
  }

  lemma {:induction false} VictimIsOldest(base: Entries, victims: seq<string>, bytes: nat, config: Config,
                                          v: string, k: string)
    requires Evicting(base, victims, bytes, config)
    requires v in base && v !in Without(base, victims) && k in Without(base, victims)
    ensures base[v].insertedAt <= base[k].insertedAt
  {
    var last := |victims| - 1;
    if v != victims[last] {
      VictimIsOldest(base, victims[..last], bytes, config, v, k);
    }
  }

  lemma PutBack(entries: Entries, k: string)
    requires k in entries
    ensures (entries - {k})[k := entries[k]] == entries
  {
  }

  lemma TakeBack(entries: Entries, k: string, c: Cached)
    requires k !in entries
    ensures entries[k := c] - {k} == entries
  {
  }

  lemma LastVictimDidNotFit(base: Entries, victims: seq<string>, bytes: nat, config: Config)
    requires Evicting(base, victims, bytes, config) && victims != []
    ensures var v := victims[|victims| - 1];
            v in base && v !in Without(base, victims) && !Fits(Without(base, victims)[v := base[v]], bytes, config)
  {
    var last := |victims| - 1;
    var before := Without(base, victims[..last]);
    assert OldestOf(before, victims[last], bytes, config);
    PutBack(before, victims[last]);
  }

  /** What eviction means for whoever was there before: an evicted entry is no younger than any entry
      that stayed, and unless nothing stayed behind, putting back the last one evicted would leave no
      room for the newcomer. */
  lemma EvictionOrder(s: State, key: string, c: Cached, config: Config, after: State)
    requires Inserts(s, key, c, config, after, true)
    ensures var base := s.entries - {key};
            var stayed := after.entries - {key};
            && (forall v, k :: v in base && v !in stayed && k in stayed ==> base[v].insertedAt <= base[k].insertedAt)
            && (stayed != base ==>
                  exists v :: v in base && v !in stayed && !Fits(stayed[v := base[v]], |c.body|, config))
            && (Fits(stayed, |c.body|, config) || stayed == map[])
  {
    var base := s.entries - {key};
    var victims :| Evicts(base, victims, |c.body|, config) && after.entries == Without(base, victims)[key := c];
    var stayed := after.entries - {key};
    TakeBack(Without(base, victims), key, c);
    forall v, k | v in base && v !in stayed && k in stayed ensures base[v].insertedAt <= base[k].insertedAt {
      VictimIsOldest(base, victims, |c.body|, config, v, k);
    }
    if victims != [] {
      LastVictimDidNotFit(base, victims, |c.body|, config);
    }
  }

  lemma InsertKeepsLimits(s: State, key: string, c: Cached, config: Config, after: State)
    requires Valid(s, config) && Inserts(s, key, c, config, after, true)
    ensures Valid(after, config)
  {
    var stayed := after.entries - {key};
    EvictionOrder(s, key, c, config, after);
    SumInsert(stayed, key, c);
    PutBack(after.entries, key);
  }

  // ---------------------------------------------------------------- requests and what they leave behind

  datatype Request = Request(isGet: bool, path: string, query: Option<string>)
  datatype Response = Response(status: nat, headers: Headers, body: Bytes)

  /** What the handler behind the cache answers: `sized` if the body length is known beforehand, and
      possibly a time-to-live of its own. */
  datatype Reply = Reply(response: Response, sized: bool, ttl: Option<nat>)

  function Uri(r: Request): string {
    r.path + (if r.query.Some? then "?" + r.query.value else "")
  }

  predicate IsSuccess(status: nat) { 200 <= status < 300 }

  function Split(text: string, separator: char): seq<string> {
    if text == "" then [""]
    else if text[0] == separator then [""] + Split(text[1..], separator)
    else
      var rest := Split(text[1..], separator);
      if rest == [] then [[text[0]]] else [[text[0]] + rest[0]] + rest[1..]
  }

  predicate RequestsRefresh(query: Option<string>) {
    query.Some? && "refresh=true" in Split(query.value, '&')
  }

  predicate Refreshes(r: Request) {
    r.path != "/mangas" && RequestsRefresh(r.query)
  }

  /** One line of the history of a cache. */
  datatype Event =
    | Cleared                                                            // a write succeeded
    | Passed                                                             // a write failed
    | Refreshed(path: string)                                            // a refresh of that path
    | Handled(uri: string, sent: Response, stored: Option<Cached>)       // the handler answered a GET
    | Replayed(uri: string, sent: Response)                              // the cache answered a GET

  /** Does the event end the life of whatever was stored for `uri`? */
  predicate Supersedes(e: Event, uri: string) {
    e.Cleared? || (e.Refreshed? && e.path == PathOf(uri)) || (e.Handled? && e.uri == uri)
  }

  /** What an unbounded map that never forgets would hold for `uri`. */
  function Ideal(history: seq<Event>, uri: string): Option<Cached> {
    if history == [] then None
    else
      var last := history[|history| - 1];
      if Supersedes(last, uri) then (if last.Handled? then last.stored else None)
      else Ideal(history[..|history| - 1], uri)
  }

  /** The bounded cache holds a part of the unbounded map. */
  ghost predicate Refines(entries: Entries, history: seq<Event>) {
    forall k :: k in entries ==> Ideal(history, k) == Some(entries[k])
  }

  function WithMark(r: Response, mark: Mark): Response {
    r.(headers := r.headers[X_CACHE := XCache(mark)])
  }

  function FromCache(c: Cached): Response {
    WithMark(Response(c.status, c.headers, c.body), Hit)
  }

  function TimeToLive(reply: Reply, config: Config): nat {
    if reply.ttl.Some? then reply.ttl.value else config.ttl
  }

  /** The record made of a cacheable reply. */
  function ToCache(reply: Reply, config: Config, at: int): Cached {
    var ttl := TimeToLive(reply, config);
    Cached(at, ttl, reply.response.status, reply.response.headers[CACHE_CONTROL := MaxAge(ttl)], reply.response.body)
  }

  predicate TooBig(reply: Reply, config: Config) {
    !reply.sized || |reply.response.body| > Min(config.maxBytes, MAX_CACHE_ENTRY_BYTES)
  }

  /** One pass of a request through the middleware: the lookup happens at `now`; if the handler runs it
      answers `reply`, and the record is made at `later`. */
  ghost predicate Serves(s: State, r: Request, now: int, reply: Reply, later: int, config: Config,
                         after: State, event: Event)
  {
    if !r.isGet then
      if IsSuccess(reply.response.status) then event == Cleared && after == State(map[], 0)
      else event == Passed && after == s
    else if Refreshes(r) then
      && event == Refreshed(r.path)
      && after.entries == OffPath(s.entries, PathOf(Uri(r))) && after.totalBytes == Sum(after.entries)
    else
      var found := Found(s, Uri(r), now);
      if found.Some? then event == Replayed(Uri(r), FromCache(found.value)) && after == s
      else
        var missed := AfterGet(s, Uri(r), now);
        if reply.response.status != OK then
          event == Handled(Uri(r), reply.response, None) && after == State(missed, Sum(missed))
        else if TooBig(reply, config) then
          event == Handled(Uri(r), WithMark(reply.response, Bypass), None) && after == State(missed, Sum(missed))
        else
          var c := ToCache(reply, config, later);
          && event == Handled(Uri(r), WithMark(Response(c.status, c.headers, c.body), Miss), Some(c))
          && Inserts(State(missed, Sum(missed)), Uri(r), c, config, after, true)
  }

  function Found(s: State, key: string, now: int): Option<Cached> {
    if key in s.entries && Elapsed(s.entries[key].insertedAt, now) < s.entries[key].ttl
    then Some(s.entries[key]) else None
  }

  /** The entries after a lookup, which drops an expired entry. */
  function AfterGet(s: State, key: string, now: int): Entries {
    if Found(s, key, now).Some? then s.entries else s.entries - {key}
  }

  function PathOf(uri: string): string {
    if uri == "" || uri[0] == '?' then "" else [uri[0]] + PathOf(uri[1..])
  }

  function OffPath(entries: Entries, path: string): Entries {
    map k | k in entries && PathOf(k) != path :: entries[k]
  }

  lemma {:induction false} OldestExists(entries: Entries, keys: set<string>) returns (oldest: string)
    requires keys != {} && keys <= entries.Keys
    ensures oldest in keys && forall k :: k in keys ==> entries[oldest].insertedAt <= entries[k].insertedAt
    decreases keys
  {
    var k :| k in keys;
    oldest := k;
    if keys != {k} {
      var other := OldestExists(entries, keys - {k});
      if entries[other].insertedAt < entries[k].insertedAt {
        oldest := other;
      }
    }
  }

  /** The state behind the cache's mutex. */
  class Cache {
    const config: Config
    var entries: Entries
    var totalBytes: nat

    ghost function Now(): State
      reads this
    {
      State(entries, totalBytes)
    }

    ghost predicate Ready()
      reads this
    {
      IsSound(Now(), config)
    }

    constructor (config: Config)
      requires config.maxBytes <= USIZE_MAX && HasHeadroom(config)
      ensures Ready() && entries == map[] && this.config == config
    {
      this.config := config;
      entries, totalBytes := map[], 0;
    }

    method Remove(key: string)
      requires totalBytes == Sum(entries)
      modifies this
      ensures entries == old(entries) - {key} && totalBytes == Sum(entries) <= old(totalBytes)
    {
      if key in entries {
        SumRemove(entries, key);
        totalBytes := SatSub(totalBytes, |entries[key].body|);
        entries := entries - {key};
      } else {
        assert entries == entries - {key};
      }
    }

    method Get(key: string, now: int) returns (found: Option<Cached>)
      requires Ready()
      modifies this
      ensures Ready()
      ensures found == Found(old(Now()), key, now) && entries == AfterGet(old(Now()), key, now)
    {
      if key !in entries {
        assert entries == entries - {key};
        return None;
      }
      var entry := entries[key];
      if Elapsed(entry.insertedAt, now) >= entry.ttl {
        Remove(key);
        return None;
      }
      return Some(entry);
    }

    method Oldest() returns (oldest: string)
      requires entries != map[]
      ensures oldest in entries && forall k :: k in entries ==> entries[oldest].insertedAt <= entries[k].insertedAt
    {
      ghost var some := OldestExists(entries, entries.Keys);
      oldest :| oldest in entries && forall k :: k in entries ==> entries[oldest].insertedAt <= entries[k].insertedAt;
    }

    method EvictFor(bytes: nat) returns (ghost victims: seq<string>)
      requires totalBytes == Sum(entries) <= config.maxBytes && bytes <= config.maxBytes
      requires AreReckoned(entries, config) && IsReckoned(bytes, config)
      modifies this
      ensures Evicts(old(entries), victims, bytes, config)
      ensures entries == Without(old(entries), victims) && AreReckoned(entries, config)
      ensures totalBytes == Sum(entries) && totalBytes + bytes <= config.maxBytes
      ensures |entries| < config.maxEntries || entries == map[]
    {
      victims := [];
      assert Without(entries, []) == entries;
      while |entries| >= config.maxEntries || SatAdd(totalBytes, bytes) > config.maxBytes
        invariant entries == Without(old(entries), victims)
        invariant totalBytes == Sum(entries) <= config.maxBytes
        invariant AreReckoned(entries, config)
        invariant Evicting(old(entries), victims, bytes, config)
        decreases |entries|
      {
        if entries == map[] {
          break;
        }
        var oldest := Oldest();
        EvictOne(old(entries), entries, victims, oldest, bytes, config);
        victims := victims + [oldest];
        Remove(oldest);
      }
      ExactWithHeadroom(entries, bytes, config);
    }

    method Put(key: string, response: Cached)
      requires totalBytes + |response.body| <= USIZE_MAX
      modifies this
      ensures Now() == State(old(entries)[key := response], old(totalBytes) + |response.body|)
    {
      totalBytes := SatAdd(totalBytes, |response.body|);
      entries := entries[key := response];
    }

    method Insert(key: string, response: Cached) returns (stored: bool)
      requires Ready() && IsReckoned(|response.body|, config)
      modifies this
      ensures Ready()
      ensures Inserts(old(Now()), key, response, config, Now(), stored)
    {
      if |response.body| > config.maxBytes {
        return false;
      }
      Remove(key);
      ghost var victims := EvictFor(|response.body|);
      ghost var after := InsertStores(old(Now()), entries, key, response, config, victims);
      Put(key, response);
      assert Now() == after;
      stored := true;
    }

    method InvalidatePath(path: string)
      requires Ready()
      modifies this
      ensures Ready() && entries == OffPath(old(entries), path)
    {
      var keys := set k | k in entries && PathOf(k) == path;
      while keys != {}
        invariant keys <= entries.Keys && entries.Keys <= old(entries).Keys
        invariant forall k :: k in entries ==> entries[k] == old(entries)[k]
        invariant forall k :: k in old(entries) ==> (k in entries <==> PathOf(k) != path || k in keys)
        invariant forall k :: k in keys ==> PathOf(k) == path
        invariant Ready()
        decreases keys
      {
        var key :| key in keys;
        Remove(key);
        keys := keys - {key};
      }
    }

    method Clear()
      requires Ready()
      modifies this
      ensures Ready() && entries == map[]
    {
      entries, totalBytes := map[], 0;
    }

    /** The middleware; `event` says what happened and which response was sent. */
    method Serve(r: Request, now: int, reply: Reply, later: int) returns (event: Event)
      requires Ready() && '?' !in r.path
      modifies this
      ensures Ready()
      ensures Serves(old(Now()), r, now, reply, later, config, Now(), event)
    {
      if !r.isGet {
        if IsSuccess(reply.response.status) {
          Clear();
          return Cleared;
        }
        return Passed;
      }
      if Refreshes(r) {
        PathOfUri(r);
        InvalidatePath(r.path);
        return Refreshed(r.path);
      }
      var key := Uri(r);
      var cached := Get(key, now);
      if cached.Some? {
        return Replayed(key, FromCache(cached.value));
      }
      if reply.response.status != OK {
        return Handled(key, reply.response, None);
      }
      var maxEntryBytes := Min(config.maxBytes, MAX_CACHE_ENTRY_BYTES);
      if !reply.sized || |reply.response.body| > maxEntryBytes {
        return Handled(key, WithMark(reply.response, Bypass), None);
      }
      var c := ToCache(reply, config, later);
      var stored := Insert(key, c);
      return Handled(key, WithMark(Response(c.status, c.headers, c.body), if stored then Miss else Bypass), Some(c));
    }
  }

  lemma {:induction false} PathOfPrefix(path: string, rest: string)
    requires '?' !in path && (rest == "" || rest[0] == '?')
    ensures PathOf(path + rest) == path
  {
    if path == "" {
      assert path + rest == rest;
    } else {
      assert (path + rest)[1..] == path[1..] + rest;
      PathOfPrefix(path[1..], rest);
    }
  }

  lemma PathOfUri(r: Request)
    requires '?' !in r.path
    ensures PathOf(Uri(r)) == r.path
  {
    PathOfPrefix(r.path, if r.query.Some? then "?" + r.query.value else "");
  }

  // ---------------------------------------------------------------- whole runs

  datatype Visit = Visit(request: Request, now: int, reply: Reply, later: int)

  /** A run of the middleware from an empty cache: what happened at each visit and the state it left. */
  ghost predicate IsRun(visits: seq<Visit>, states: seq<State>, history: seq<Event>, config: Config) {
    && |history| == |visits| && |states| == |visits| + 1 && states[0] == State(map[], 0)
    && forall k :: 0 <= k < |visits| ==> IsVisit(states[k], visits[k], config, states[k + 1], history[k])
  }

  ghost predicate IsVisit(s: State, v: Visit, config: Config, after: State, event: Event) {
    '?' !in v.request.path && Serves(s, v.request, v.now, v.reply, v.later, config, after, event)
  }

  lemma IdealAppend(history: seq<Event>, e: Event, uri: string)
    ensures Ideal(history + [e], uri) ==
            if Supersedes(e, uri) then (if e.Handled? then e.stored else None) else Ideal(history, uri)
  {
    assert (history + [e])[..|history|] == history;
  }

  /** An insertion adds the newcomer and otherwise only forgets. */
  lemma InsertOnlyForgets(s: State, key: string, c: Cached, config: Config, after: State)
    requires Inserts(s, key, c, config, after, true)
    ensures key in after.entries && after.entries[key] == c
    ensures forall k :: k in after.entries && k != key ==> k in s.entries && s.entries[k] == after.entries[k]
  {
  }

  /** Whatever eviction and expiry drop, every visit keeps the cache inside the unbounded map. */
  lemma RefinesStep(s: State, history: seq<Event>, v: Visit, config: Config, after: State, event: Event)
    requires Refines(s.entries, history) && IsVisit(s, v, config, after, event)
    ensures Refines(after.entries, history + [event])
  {
    var uri := Uri(v.request);
    PathOfUri(v.request);
    if event.Handled? && event.stored.Some? {
      var missed := AfterGet(s, uri, v.now);
      InsertOnlyForgets(State(missed, Sum(missed)), uri, event.stored.value, config, after);
    }
    forall k | k in after.entries ensures Ideal(history + [event], k) == Some(after.entries[k]) {
      IdealAppend(history, event, k);
    }
  }

  lemma {:induction false} RefinesAlong(visits: seq<Visit>, states: seq<State>, history: seq<Event>,
                                        config: Config, k: nat)
    requires IsRun(visits, states, history, config) && k < |states|
    ensures Refines(states[k].entries, history[..k])
  {
    if k > 0 {
      RefinesAlong(visits, states, history, config, k - 1);
      assert history[..k] == history[..k - 1] + [history[k - 1]];
      RefinesStep(states[k - 1], history[..k - 1], visits[k - 1], config, states[k], history[k - 1]);
    }
  }

  lemma MissKeepsLimits(s: State, key: string, now: int, config: Config)
    requires Valid(s, config)
    ensures var missed := AfterGet(s, key, now); Valid(State(missed, Sum(missed)), config)
  {
    DropKeepsLimits(s.entries, AfterGet(s, key, now));
  }

  lemma HandledKeepsLimits(s: State, v: Visit, config: Config, after: State, event: Event)
    requires Valid(s, config) && IsVisit(s, v, config, after, event) && event.Handled?
    ensures Valid(after, config)
  {
    var uri := Uri(v.request);
    var missed := AfterGet(s, uri, v.now);
    MissKeepsLimits(s, uri, v.now, config);
    if event.stored.Some? {
      InsertKeepsLimits(State(missed, Sum(missed)), uri, event.stored.value, config, after);
    }
  }

  lemma RefreshedKeepsLimits(s: State, v: Visit, config: Config, after: State, event: Event)
    requires Valid(s, config) && IsVisit(s, v, config, after, event) && event.Refreshed?
    ensures Valid(after, config)
  {
    DropKeepsLimits(s.entries, after.entries);
  }

  /** Every visit keeps the running total exact and the limits met. */
  lemma ValidStep(s: State, v: Visit, config: Config, after: State, event: Event)
    requires Valid(s, config) && IsVisit(s, v, config, after, event)
    ensures Valid(after, config)
  {
    match event
    case Handled(_, _, _) => HandledKeepsLimits(s, v, config, after, event);
    case Refreshed(_) => RefreshedKeepsLimits(s, v, config, after, event);
    case Cleared => assert Sum(map[]) == 0;
    case _ =>
  }

  lemma {:induction false} DropKeepsLimits(entries: Entries, kept: Entries)
    requires kept.Keys <= entries.Keys && forall k :: k in kept ==> kept[k] == entries[k]
    ensures |kept| <= |entries| && Sum(kept) <= Sum(entries)
    decreases |entries|
  {
    if k :| k in entries && k !in kept {
      SumRemove(entries, k);
      DropKeepsLimits(entries - {k}, kept);
    } else {
      assert kept == entries;
    }
  }

  lemma {:induction false} ValidAlong(visits: seq<Visit>, states: seq<State>, history: seq<Event>,
                                      config: Config, k: nat)
    requires IsRun(visits, states, history, config) && k < |states|
    ensures Valid(states[k], config)
  {
    if k > 0 {
      ValidAlong(visits, states, history, config, k - 1);
      ValidStep(states[k - 1], visits[k - 1], config, states[k], history[k - 1]);
    }
  }

  lemma SmallStep(s: State, v: Visit, config: Config, after: State, event: Event)
    requires AreSmall(s.entries) && IsVisit(s, v, config, after, event)
    ensures AreSmall(after.entries)
  {
    if event.Handled? && event.stored.Some? {
      var missed := AfterGet(s, Uri(v.request), v.now);
      InsertOnlyForgets(State(missed, Sum(missed)), Uri(v.request), event.stored.value, config, after);
    }
  }

  lemma {:induction false} SmallAlong(visits: seq<Visit>, states: seq<State>, history: seq<Event>,
                                      config: Config, k: nat)
    requires IsRun(visits, states, history, config) && k < |states|
    ensures AreSmall(states[k].entries)
  {
    if k > 0 {
      SmallAlong(visits, states, history, config, k - 1);
      SmallStep(states[k - 1], visits[k - 1], config, states[k], history[k - 1]);
    }
  }

  // ---------------------------------------------------------------- the byte count never saturates

  ghost predicate Reachable(s: State, config: Config) {
    exists visits, states, history :: IsRun(visits, states, history, config) && states[|visits|] == s
  }

  lemma ReachableIsSmall(s: State, config: Config)
    requires Reachable(s, config)
    ensures AreSmall(s.entries) && s.totalBytes == Sum(s.entries)
  {
    var visits, states, history :| IsRun(visits, states, history, config) && states[|visits|] == s;
    SmallAlong(visits, states, history, config, |visits|);
    ValidAlong(visits, states, history, config, |visits|);
  }

  lemma OneMoreVisit(s: State, v: Visit, config: Config, after: State, event: Event)
    requires Reachable(s, config) && IsVisit(s, v, config, after, event)
    ensures Reachable(after, config)
  {
    var visits, states, history :| IsRun(visits, states, history, config) && states[|visits|] == s;
    assert IsRun(visits + [v], states + [after], history + [event], config);
    assert (states + [after])[|visits + [v]|] == after;
  }

  function Repeat<T>(x: T, n: nat): (s: seq<T>)
    ensures |s| == n && forall i :: 0 <= i < n ==> s[i] == x
  {
    seq(n, _ => x)
  }

  /** A GET for the n-th of many addresses, answered with a body of the greatest size. */
  function BigVisit(n: nat): Visit {
    var big := Response(OK, map[], Repeat(0, MAX_CACHE_ENTRY_BYTES));
    Visit(Request(true, Repeat('a', n), None), 0, Reply(big, true, None), 0)
  }

  lemma InsertsIntoRoom(s: State, key: string, c: Cached, config: Config)
    requires key !in s.entries && Fits(s.entries, |c.body|, config)
    ensures var after := s.entries[key := c];
            && Inserts(s, key, c, config, State(after, Sum(after)), true)
            && Sum(after) == Sum(s.entries) + |c.body| && |after| == |s.entries| + 1
  {
    assert s.entries - {key} == s.entries == Without(s.entries - {key}, []);
    assert Evicts(s.entries - {key}, [], |c.body|, config);
    SumInsert(s.entries, key, c);
  }

  lemma BigVisitUri(n: nat)
    ensures var r := BigVisit(n).request; Uri(r) == Repeat('a', n) && !Refreshes(r) && '?' !in r.path
  {
    assert Repeat('a', n) + "" == Repeat('a', n);
  }

  lemma MissIsStored(s: State, v: Visit, config: Config, after: State) returns (event: Event)
    requires v.request.isGet && !Refreshes(v.request) && '?' !in v.request.path
    requires Uri(v.request) !in s.entries && s.totalBytes == Sum(s.entries)
    requires v.reply.response.status == OK && !TooBig(v.reply, config)
    requires Inserts(s, Uri(v.request), ToCache(v.reply, config, v.later), config, after, true)
    ensures IsVisit(s, v, config, after, event)
  {
    var uri, c := Uri(v.request), ToCache(v.reply, config, v.later);
    assert s.entries - {uri} == s.entries;
    event := Handled(uri, WithMark(Response(c.status, c.headers, c.body), Miss), Some(c));
  }

  lemma BigVisitStores(s: State, n: nat, config: Config) returns (after: State)
    requires Reachable(s, config) && |s.entries| == n && Fits(s.entries, MAX_CACHE_ENTRY_BYTES, config)
    requires forall k :: k in s.entries ==> |k| < n
    ensures Reachable(after, config) && |after.entries| == n + 1
    ensures after.totalBytes == Sum(after.entries) == Sum(s.entries) + MAX_CACHE_ENTRY_BYTES
    ensures forall k :: k in after.entries ==> |k| <= n
  {
    var v := BigVisit(n);
    var key, c := Uri(v.request), ToCache(v.reply, config, v.later);
    BigVisitUri(n);
    ReachableIsSmall(s, config);
    InsertsIntoRoom(s, key, c, config);
    after := State(s.entries[key := c], Sum(s.entries[key := c]));
    var event := MissIsStored(s, v, config, after);
    OneMoreVisit(s, v, config, after, event);
  }

  lemma EmptyIsReachable(config: Config)
    ensures Reachable(State(map[], 0), config) && Sum(map[]) == 0
  {
    var visits: seq<Visit> := [];
    var states := [State(map[], 0)];
    assert IsRun(visits, states, [], config) && states[|visits|] == State(map[], 0);
  }

  /** n bodies of the greatest size, all with addresses shorter than n. */
  ghost predicate IsFull(s: State, n: nat, config: Config) {
    && Reachable(s, config) && |s.entries| == n
    && s.totalBytes == Sum(s.entries) == n * MAX_CACHE_ENTRY_BYTES
    && forall k :: k in s.entries ==> |k| < n
  }

  lemma FillOne(s: State, n: nat, config: Config) returns (after: State)
    requires IsFull(s, n, config) && n < config.maxEntries
    requires (n + 1) * MAX_CACHE_ENTRY_BYTES <= config.maxBytes
    ensures IsFull(after, n + 1, config)
  {
    assert (n + 1) * MAX_CACHE_ENTRY_BYTES == n * MAX_CACHE_ENTRY_BYTES + MAX_CACHE_ENTRY_BYTES;
    after := BigVisitStores(s, n, config);
  }

  lemma LessFits(n: nat, config: Config)
    requires (n + 1) * MAX_CACHE_ENTRY_BYTES <= config.maxBytes
    ensures n * MAX_CACHE_ENTRY_BYTES <= config.maxBytes
  {
  }

  lemma {:induction false} Filled(n: nat, config: Config) returns (s: State)
    requires n <= config.maxEntries && n * MAX_CACHE_ENTRY_BYTES <= config.maxBytes
    ensures IsFull(s, n, config)
  {
    if n == 0 {
      EmptyIsReachable(config);
      s := State(map[], 0);
    } else {
      LessFits(n - 1, config);
      var before := Filled(n - 1, config);
      s := FillOne(before, n - 1, config);
    }
  }

  /** In every state that the middleware can reach, the budget check is exact for every body it may store,
      if and only if the limits leave headroom. The shipped limits do, and so does the largest budget with
      fewer than 2^44 entries. */
  lemma NeverSaturatesIff(config: Config)
    requires config.maxBytes <= USIZE_MAX
    ensures HasHeadroom(config) <==>
            forall s, bytes: nat :: Reachable(s, config) && bytes <= Min(config.maxBytes, MAX_CACHE_ENTRY_BYTES) ==>
              IsExact(s.totalBytes, |s.entries|, bytes, config)
  {
    if HasHeadroom(config) {
      forall s, bytes: nat | Reachable(s, config) && bytes <= Min(config.maxBytes, MAX_CACHE_ENTRY_BYTES)
        ensures IsExact(s.totalBytes, |s.entries|, bytes, config)
      {
        ReachableIsSmall(s, config);
        ExactWithHeadroom(s.entries, bytes, config);
      }
    } else {
      var n := USIZE_MAX / MAX_CACHE_ENTRY_BYTES;
      var s := Filled(n, config);
      assert !IsExact(s.totalBytes, |s.entries|, MAX_CACHE_ENTRY_BYTES, config);
    }
  }

  lemma {:induction false} IdealOrigin(history: seq<Event>, uri: string) returns (j: nat)
    requires Ideal(history, uri).Some?
    ensures j < |history| && history[j].Handled? && history[j].uri == uri && history[j].stored == Ideal(history, uri)
    ensures forall i :: j < i < |history| ==> !Supersedes(history[i], uri)
  {
    var last := |history| - 1;
    if Supersedes(history[last], uri) {
      j := last;
    } else {
      j := IdealOrigin(history[..last], uri);
    }
  }

  /** Coherence of hits. In every run, a visit answered from the cache repeats, up to the `x-cache`
      header, the response sent when the handler last answered that very URI, with the body the handler
      gave. Since then no write has succeeded, the path was not refreshed, and the time-to-live set for
      that response has not passed. */
  lemma HitsAreCoherent(visits: seq<Visit>, states: seq<State>, history: seq<Event>, config: Config, k: nat)
    requires IsRun(visits, states, history, config)
    requires k < |visits| && history[k].Replayed?
    ensures exists j :: 0 <= j < k && IsSourceOf(visits, history, j, k, config)
  {
    assert IsVisit(states[k], visits[k], config, states[k + 1], history[k]);
    var uri := Uri(visits[k].request);
    RefinesAlong(visits, states, history, config, k);
    var j := IdealOrigin(history[..k], uri);
    StoredAsSent(visits, states, history, config, j);
    assert history[k].sent == FromCache(states[k].entries[uri]);
    assert IsSourceOf(visits, history, j, k, config);
  }

  /** Visit k replays what visit j sent; nothing in between superseded it, and it is still fresh. */
  ghost predicate IsSourceOf(visits: seq<Visit>, history: seq<Event>, j: nat, k: nat, config: Config)
    requires j < k < |history| == |visits|
  {
    && Uri(visits[j].request) == Uri(visits[k].request)
    && history[k].Replayed? && history[j].Handled?
    && history[k].sent == WithMark(history[j].sent, Hit)
    && history[j].sent.status == OK && history[j].sent.body == visits[j].reply.response.body
    && (forall i :: j < i < k ==> !Supersedes(history[i], Uri(visits[k].request)))
    && Elapsed(visits[j].later, visits[k].now) < TimeToLive(visits[j].reply, config)
  }

  lemma StoredAsSent(visits: seq<Visit>, states: seq<State>, history: seq<Event>, config: Config, j: nat)
    requires IsRun(visits, states, history, config)
    requires j < |history| && history[j].Handled? && history[j].stored.Some?
    ensures var v, c := visits[j], history[j].stored.value;
            && history[j].uri == Uri(v.request)
            && history[j].sent.status == OK && history[j].sent.body == v.reply.response.body
            && c.insertedAt == v.later && c.ttl == TimeToLive(v.reply, config)
            && FromCache(c) == WithMark(history[j].sent, Hit)
  {
    assert IsVisit(states[j], visits[j], config, states[j + 1], history[j]);
    var c := history[j].stored.value;
    assert history[j].sent == WithMark(Response(c.status, c.headers, c.body), Miss);
    assert c.headers[X_CACHE := XCache(Miss)][X_CACHE := XCache(Hit)] == c.headers[X_CACHE := XCache(Hit)];
  }
}
