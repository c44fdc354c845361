/** The result cache of data providers (shared/engine.py): the cache key,
    and what a request may be answered from the cache.

    Times are integers on one clock that never runs backwards. A request is
    two steps, because the function it runs is awaited in between: the
    lookup when it begins, the store when it finishes. Requests overlap in
    any way. */
module DataProviderCache {
  import opened Wrappers
  import opened Strings

  // ------------------------------------------------------------ cache key

  /** `paramHash` is the first 16 hex digits of the parameters' SHA-256, or
      None when there are no parameters. */
  function ComputeCacheKey(name: string, paramHash: Option<string>, orgId: Option<string>): string {
    if paramHash.None? then
      if Truthy(orgId) then orgId.value + ":" + name else name
    else if Truthy(orgId) then orgId.value + ":" + name + ":" + paramHash.value
    else name + ":" + paramHash.value
  }

  predicate IsHash(h: string) {
    |h| == 16 && forall c :: c in h ==> '0' <= c <= '9' || 'a' <= c <= 'f'
  }

  /** What a key is computed from. An empty org id counts as none. */
  datatype Identity = Identity(name: string, paramHash: Option<string>, orgId: Option<string>)

  predicate Plain(x: Identity) {
    && ':' !in x.name
    && (x.paramHash.Some? ==> IsHash(x.paramHash.value))
    && (x.orgId.Some? ==> x.orgId.value != "" && ':' !in x.orgId.value)
  }

  function KeyOf(x: Identity): string {
    ComputeCacheKey(x.name, x.paramHash, x.orgId)
  }

  function KeyParts(x: Identity): seq<string> {
    (if x.orgId.Some? then [x.orgId.value] else []) + [x.name]
    + (if x.paramHash.Some? then [x.paramHash.value] else [])
  }

  lemma KeyIsJoin(x: Identity)
    requires Plain(x)
    ensures KeyOf(x) == Join(KeyParts(x), ':') && AllWithout(KeyParts(x), ':')
  {
    var parts := KeyParts(x);
    if |parts| == 3 {
      assert Join(parts[1..], ':') == parts[1] + ":" + parts[2] by {
        assert parts[1..][1..] == [parts[2]];
      }
      assert parts[0] + ":" + parts[1] + ":" + parts[2] == parts[0] + ":" + (parts[1] + ":" + parts[2]);
    } else if |parts| == 2 {
      assert parts[1..] == [parts[1]];
    }
  }

  /** An org's provider without parameters, whose name looks like a hash,
      against a provider named like the org. */
  predicate Confused(x: Identity, y: Identity) {
    && x.orgId.Some? && x.paramHash.None? && y.orgId.None? && y.paramHash.Some?
    && x.orgId.value == y.name && x.name == y.paramHash.value
  }

  /** Which keys coincide, exactly. */
  lemma KeysCoincideIff(x: Identity, y: Identity)
    requires Plain(x) && Plain(y)
    ensures KeyOf(x) == KeyOf(y) <==> x == y || Confused(x, y) || Confused(y, x)
  {
    KeyIsJoin(x);
    KeyIsJoin(y);
    SplitOfJoin(KeyParts(x), ':');
    SplitOfJoin(KeyParts(y), ':');
    if KeyOf(x) == KeyOf(y) {
      var p, q := KeyParts(x), KeyParts(y);
      assert p == q;
      assert |p| == |q| && p[0] == q[0] && (|p| > 1 ==> p[1] == q[1]) && (|p| > 2 ==> p[2] == q[2]);
    }
  }

  /** So no two differ in name, parameters' hash or org and share a key, as
      long as no provider's name has the form of a hash. */
  lemma KeysAreInjective(x: Identity, y: Identity)
    requires Plain(x) && Plain(y) && !IsHash(x.name) && !IsHash(y.name)
    requires KeyOf(x) == KeyOf(y)
    ensures x == y
  {
    KeysCoincideIff(x, y);
  }

  /** And the restriction is needed: every hash-like name collides. */
  lemma HashLikeNameCollides(h: string, orgId: string)
    requires IsHash(h) && orgId != "" && ':' !in orgId
    ensures var x, y := Identity(h, None, Some(orgId)), Identity(orgId, Some(h), None);
      Plain(x) && Plain(y) && x != y && KeyOf(x) == KeyOf(y)
  {
    KeysCoincideIff(Identity(h, None, Some(orgId)), Identity(orgId, Some(h), None));
  }

  // ------------------------------------------------------------ the cache

  /** A result; `failure` says it is a dict whose 'success' is False. */
  datatype Data = Data(id: nat, failure: bool)

  datatype Entry = Entry(data: Data, expiresAt: int)

  datatype Request = Request(identity: Identity, dataProvider: bool, noCache: bool, ttl: int)

  datatype Run = Returned(data: Data) | Failed

  datatype Status = Success | CompletedWithErrors | FailedStatus

  datatype Response = Response(status: Status, data: Option<Data>, cached: bool)

  type Entries = map<string, Entry>

  /** _check_cache: the cache afterwards, and the entry found. An expired
      entry is dropped. */
  function Checked(entries: Entries, key: string, now: int): (Entries, Option<Entry>) {
    if key !in entries then (entries, None)
    else if now < entries[key].expiresAt then (entries, Some(entries[key]))
    else (entries - {key}, None)
  }

  /** execute up to the await. */
  function Begun(entries: Entries, req: Request, now: int): (Entries, Option<Entry>) {
    if req.dataProvider && !req.noCache then Checked(entries, KeyOf(req.identity), now) else (entries, None)
  }

  /** execute after the await. */
  function Ended(entries: Entries, req: Request, run: Run, now: int): Entries {
    if run.Returned? && req.dataProvider
    then entries[KeyOf(req.identity) := Entry(run.data, now + req.ttl)]
    else entries
  }

  function FromCache(e: Entry): Response {
    Response(Success, Some(e.data), true)
  }

  function FromRun(run: Run): Response {
    match run
    case Returned(d) => Response(if d.failure then CompletedWithErrors else Success, Some(d), false)
    case Failed => Response(FailedStatus, None, false)
  }

  class ProviderCache {
    var entries: Entries

    constructor ()
      ensures entries == map[]
    {
      entries := map[];
    }

    method CheckCache(key: string, now: int) returns (found: Option<Entry>)
      modifies this
      ensures (entries, found) == Checked(old(entries), key, now)
    {
      if key !in entries {
        return None;
      }
      var cachedEntry := entries[key];
      if now < cachedEntry.expiresAt {
        return Some(cachedEntry);
      }
      entries := entries - {key};
      return None;
    }

    method CacheResult(key: string, data: Data, ttl: int, now: int) returns (expiresAt: int)
      modifies this
      ensures expiresAt == now + ttl && entries == old(entries)[key := Entry(data, expiresAt)]
    {
      expiresAt := now + ttl;
      entries := entries[key := Entry(data, expiresAt)];
    }

    /** Some: the request is answered from the cache. None: the function has
        to be run. */
    method BeginExecute(req: Request, now: int) returns (answer: Option<Response>)
      modifies this
      ensures entries == Begun(old(entries), req, now).0
      ensures answer == match Begun(old(entries), req, now).1 { case Some(e) => Some(FromCache(e)) case None => None }
    {
      if req.dataProvider && !req.noCache {
        var cacheKey := ComputeCacheKey(req.identity.name, req.identity.paramHash, req.identity.orgId);
        var found := CheckCache(cacheKey, now);
        if found.Some? {
          return Some(FromCache(found.value));
        }
      }
      return None;
    }

    method FinishExecute(req: Request, run: Run, now: int) returns (response: Response)
      modifies this
      ensures entries == Ended(old(entries), req, run, now) && response == FromRun(run)
    {
      if run.Returned? && req.dataProvider {
        var cacheKey := ComputeCacheKey(req.identity.name, req.identity.paramHash, req.identity.orgId);
        var expiresAt := CacheResult(cacheKey, run.data, req.ttl, now);
      }
      response := FromRun(run);
    }
  }

  // ------------------------------------------------------- whole histories

  datatype Event = Begin(now: int, req: Request) | End(now: int, req: Request, run: Run)

  function Step(entries: Entries, ev: Event): Entries {
    match ev
    case Begin(now, req) => Begun(entries, req, now).0
    case End(now, req, run) => Ended(entries, req, run, now)
  }

  /** The cache after a history that starts with an empty one. */
  function After(history: seq<Event>): Entries {
    if history == [] then map[] else Step(After(history[..|history| - 1]), history[|history| - 1])
  }

  ghost predicate ClockRuns(history: seq<Event>) {
    forall i, j :: 0 <= i < j < |history| ==> history[i].now <= history[j].now
  }

  /** A run whose result may be served for `key` later on. */
  predicate Stores(ev: Event, key: string) {
    ev.End? && ev.run.Returned? && ev.req.dataProvider && KeyOf(ev.req.identity) == key
  }

  /** The most recent successful run for `key`, as result and deadline. Said
      of the history alone. */
  function LastSuccess(history: seq<Event>, key: string): Option<Entry> {
    if history == [] then None
    else
      var ev := history[|history| - 1];
      if Stores(ev, key) then Some(Entry(ev.run.data, ev.now + ev.req.ttl))
      else LastSuccess(history[..|history| - 1], key)
  }

  ghost predicate NotAfter(history: seq<Event>, now: int) {
    forall i :: 0 <= i < |history| ==> history[i].now <= now
  }

  /** The cache forgets only what has expired, and what it holds is the most
      recent success. */
  lemma {:induction false} CacheFollowsHistory(history: seq<Event>, key: string, now: int)
    requires ClockRuns(history) && NotAfter(history, now)
    ensures key in After(history) ==> LastSuccess(history, key) == Some(After(history)[key])
    ensures key !in After(history) && LastSuccess(history, key).Some? ==>
      LastSuccess(history, key).value.expiresAt <= now
  {
    if history != [] {
      var n := |history| - 1;
      CacheFollowsHistory(history[..n], key, history[n].now);
    }
  }

  /** When a request is answered from the cache, and with what: exactly when
      it is a data provider's, does not decline the cache, and the most recent
      successful run under its key has not outlived its own TTL. Then the
      answer is that run's result. */
  lemma {:induction false} CachedIff(history: seq<Event>, req: Request, now: int)
    requires ClockRuns(history) && NotAfter(history, now)
    ensures var last := LastSuccess(history, KeyOf(req.identity));
      Begun(After(history), req, now).1 ==
        if req.dataProvider && !req.noCache && last.Some? && now < last.value.expiresAt then last else None
  {
    CacheFollowsHistory(history, KeyOf(req.identity), now);
  }

  /** A run that fails, or a workflow's, leaves every later answer as it was,
      wherever in the history it stands: the cache is the same without it. */
  lemma {:induction false} FailedRunsChangeNothing(before: seq<Event>, ev: Event, after: seq<Event>, key: string)
    requires ev.End? && (ev.run.Failed? || !ev.req.dataProvider)
    ensures LastSuccess(before + [ev] + after, key) == LastSuccess(before + after, key)
    ensures After(before + [ev] + after) == After(before + after)
  {
    var with, without := before + [ev] + after, before + after;
    if after == [] {
      assert with[..|with| - 1] == before == without;
    } else {
      var n := |after| - 1;
      FailedRunsChangeNothing(before, ev, after[..n], key);
      assert with[..|with| - 1] == before + [ev] + after[..n];
      assert without[..|without| - 1] == before + after[..n];
    }
  }

  /** A request that declines the cache is run, and its result is what the
      next request gets within the TTL. */
  lemma {:induction false} NoCacheRefreshes(history: seq<Event>, req: Request, start: int, data: Data, end: int,
                                            next: Request, now: int)
    requires ClockRuns(history) && NotAfter(history, start) && start <= end <= now < end + req.ttl
    requires req.dataProvider && req.noCache
    requires next.dataProvider && !next.noCache && KeyOf(next.identity) == KeyOf(req.identity)
    ensures Begun(After(history), req, start).1 == None
    ensures var longer := history + [Begin(start, req), End(end, req, Returned(data))];
      Begun(After(longer), next, now).1 == Some(Entry(data, end + req.ttl))
  {
    var longer := history + [Begin(start, req), End(end, req, Returned(data))];
    assert longer[..|longer| - 1] == history + [Begin(start, req)];
    CachedIff(longer, next, now);
  }

  /** What a response tells: whether it comes from the cache, what the run
      returned, and how the run went. */
  lemma ResponseTells(run: Run, e: Entry)
    ensures !FromRun(run).cached && FromCache(e).cached && FromCache(e).data == Some(e.data)
    ensures FromRun(run).data == (if run.Returned? then Some(run.data) else None)
    ensures FromRun(run).status == FailedStatus <==> run.Failed?
    ensures FromRun(run).status == CompletedWithErrors <==> run.Returned? && run.data.failure
  {
  }

  /** A cached response is the run's own response marked as cached, except
      that a result with success == False comes back as a plain success. */
  lemma CachedResponseAgreesIff(d: Data, expiresAt: int)
    ensures FromCache(Entry(d, expiresAt)).data == FromRun(Returned(d)).data
    ensures FromCache(Entry(d, expiresAt)).status == FromRun(Returned(d)).status <==> !d.failure
  {
  }
}
