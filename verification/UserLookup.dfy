/** How stale an answer of get_user_organization can be
    (shared/user_lookup.py).

    Lookups of an email's organisation are cached for 30 seconds. A lookup
    that misses awaits the database; the answer is what the database holds
    when it serves the query, but the cache entry is stamped afterwards, when
    the await has ended. Lookups and database changes interleave in any way,
    on one clock that never runs backwards, in microseconds.

    An organisation id, or its absence, is an Option<string>. */
module UserLookup {
  import opened Wrappers

  const TTL: int := 30_000_000

  /** `readAt` is bookkeeping: when the database was read. */
  datatype Entry = Entry(orgId: Option<string>, cachedAt: int, readAt: int)

  type Cache = map<string, Entry>

  /** The cache test at the top of the function: the cache afterwards, and
      the entry served. An expired entry is dropped. */
  function Probe(cache: Cache, email: string, now: int): (Cache, Option<Entry>) {
    if email !in cache then (cache, None)
    else if now - cache[email].cachedAt < TTL then (cache, Some(cache[email]))
    else (cache - {email}, None)
  }

  class OrgCache {
    var entries: Cache

    constructor ()
      ensures entries == map[]
    {
      entries := map[];
    }

    /** Up to the await: Some is the answer, None means ask the database. */
    method CheckCache(email: string, now: int) returns (answer: Option<Option<string>>)
      modifies this
      ensures entries == Probe(old(entries), email, now).0
      ensures answer == match Probe(old(entries), email, now).1 { case Some(e) => Some(e.orgId) case None => None }
    {
      if email in entries {
        var entry := entries[email];
        var age := now - entry.cachedAt;
        if age < TTL {
          return Some(entry.orgId);
        }
        entries := entries - {email};
      }
      return None;
    }

    /** After the await, also when the user has no organisation. */
    method Remember(email: string, orgId: Option<string>, readAt: int, now: int)
      modifies this
      ensures entries == old(entries)[email := Entry(orgId, now, readAt)]
    {
      entries := entries[email := Entry(orgId, now, readAt)];
    }
  }

  // ---------------------------------------------------------------- runs

  /** A lookup between its two halves. */
  datatype Flight = Asking(email: string) | Served(email: string, orgId: Option<string>, readAt: int)

  /** What a step handed to a caller. */
  datatype Return = Return(email: string, orgId: Option<string>, onError: bool)

  datatype State = State(
    now: int,
    db: map<string, string>,
    cache: Cache,
    flights: map<nat, Flight>,
    returned: Option<Return>)

  function InDb(s: State, email: string): Option<string> {
    if email in s.db then Some(s.db[email]) else None
  }

  ghost predicate Assign(s: State, s': State, email: string, orgId: string) {
    s' == s.(now := s'.now, db := s.db[email := orgId], returned := None)
  }

  ghost predicate Remove(s: State, s': State, email: string) {
    s' == s.(now := s'.now, db := s.db - {email}, returned := None)
  }

  ghost predicate Begin(s: State, s': State, id: nat, email: string) {
    && id !in s.flights
    && var (cache, found) := Probe(s.cache, email, s'.now);
      if found.Some? then
        s' == s.(now := s'.now, cache := cache, returned := Some(Return(email, found.value.orgId, false)))
      else
        s' == s.(now := s'.now, cache := cache, flights := s.flights[id := Asking(email)], returned := None)
  }

  ghost predicate Serve(s: State, s': State, id: nat) {
    && id in s.flights && s.flights[id].Asking?
    && var email := s.flights[id].email;
      s' == s.(now := s'.now, flights := s.flights[id := Served(email, InDb(s, email), s'.now)], returned := None)
  }

  /** `latency` bounds the time from the database's read to the stamp. */
  ghost predicate Finish(s: State, s': State, id: nat, latency: nat) {
    && id in s.flights && s.flights[id].Served?
    && var f := s.flights[id];
      && s'.now - f.readAt <= latency
      && s' == s.(now := s'.now, cache := s.cache[f.email := Entry(f.orgId, s'.now, f.readAt)],
                  flights := s.flights - {id}, returned := Some(Return(f.email, f.orgId, false)))
  }

  ghost predicate Fail(s: State, s': State, id: nat) {
    && id in s.flights
    && s' == s.(now := s'.now, flights := s.flights - {id}, returned := Some(Return(s.flights[id].email, None, true)))
  }

  ghost predicate Next(s: State, s': State, latency: nat) {
    && s.now <= s'.now
    && (|| (exists email, orgId :: Assign(s, s', email, orgId))
        || (exists email :: Remove(s, s', email))
        || (exists id, email :: Begin(s, s', id, email))
        || (exists id :: Serve(s, s', id))
        || (exists id :: Finish(s, s', id, latency))
        || (exists id :: Fail(s, s', id)))
  }

  ghost predicate Run(run: seq<State>, latency: nat) {
    && run != []
    && run[0].cache == map[] && run[0].flights == map[] && run[0].returned == None
    && forall k :: 0 < k < |run| ==> Next(run[k - 1], run[k], latency)
  }

  /** The last instant, as seen from step k, at which the database was as in
      state j: it stays so until the next step. */
  function LastInstant(run: seq<State>, j: nat, k: nat): int
    requires j <= k < |run|
  {
    if j < k then run[j + 1].now else run[k].now
  }

  /** The database held this value at some instant less than `bound` before
      step k. */
  ghost predicate WithinBound(run: seq<State>, k: nat, email: string, orgId: Option<string>, bound: int)
    requires k < |run|
  {
    exists j :: 0 <= j <= k && InDb(run[j], email) == orgId && run[k].now - LastInstant(run, j, k) < bound
  }

  /** Every answer of the run, except the None after an error, is within. */
  ghost predicate AllWithin(run: seq<State>, bound: int) {
    forall k :: 0 <= k < |run| && run[k].returned.Some? && !run[k].returned.value.onError ==>
      WithinBound(run, k, run[k].returned.value.email, run[k].returned.value.orgId, bound)
  }

  // ---------------------------------------------------------- upper bound

  ghost predicate WasRead(run: seq<State>, k: nat, email: string, orgId: Option<string>, at: int)
    requires k < |run|
  {
    exists j :: 0 <= j < k && InDb(run[j], email) == orgId && run[j + 1].now == at
  }

  ghost predicate Inv(run: seq<State>, k: nat, latency: nat)
    requires k < |run|
  {
    && (forall e :: e in run[k].cache ==>
         && WasRead(run, k, e, run[k].cache[e].orgId, run[k].cache[e].readAt)
         && run[k].cache[e].cachedAt - run[k].cache[e].readAt <= latency)
    && (forall id :: id in run[k].flights && run[k].flights[id].Served? ==>
         WasRead(run, k, run[k].flights[id].email, run[k].flights[id].orgId, run[k].flights[id].readAt))
    && (run[k].returned.Some? && !run[k].returned.value.onError ==>
         exists at :: run[k].now - at < TTL + latency
           && WasRead(run, k, run[k].returned.value.email, run[k].returned.value.orgId, at))
  }

  lemma ReadStays(run: seq<State>, k: nat, email: string, orgId: Option<string>, at: int)
    requires 0 < k < |run| && WasRead(run, k - 1, email, orgId, at)
    ensures WasRead(run, k, email, orgId, at)
  {
  }

  lemma {:induction false} RunInv(run: seq<State>, k: nat, latency: nat)
    requires Run(run, latency) && k < |run|
    ensures Inv(run, k, latency)
  {
    if k > 0 {
      RunInv(run, k - 1, latency);
      StepInv(run, k, latency);
    }
  }

  lemma StepInv(run: seq<State>, k: nat, latency: nat)
    requires 0 < k < |run| && Next(run[k - 1], run[k], latency) && Inv(run, k - 1, latency)
    ensures Inv(run, k, latency)
  {
    var s, s' := run[k - 1], run[k];
    forall e, v, at | WasRead(run, k - 1, e, v, at) ensures WasRead(run, k, e, v, at) {
      ReadStays(run, k, e, v, at);
    }
    if id: nat, email :| Begin(s, s', id, email) {
      var found := Probe(s.cache, email, s'.now).1;
      if found.Some? {
        assert s'.now - found.value.readAt < TTL + latency;
      }
    } else if id: nat :| Serve(s, s', id) {
      assert InDb(run[k - 1], s.flights[id].email) == s'.flights[id].orgId && run[k - 1 + 1].now == s'.now;
    } else if id: nat :| Finish(s, s', id, latency) {
      var f := s.flights[id];
      assert WasRead(run, k, f.email, f.orgId, f.readAt) && s'.now - f.readAt < TTL + latency;
    }
  }

  lemma AlwaysWithin(run: seq<State>, latency: nat)
    requires Run(run, latency)
    ensures AllWithin(run, TTL + latency)
  {
    forall k | 0 <= k < |run| && run[k].returned.Some? && !run[k].returned.value.onError
      ensures WithinBound(run, k, run[k].returned.value.email, run[k].returned.value.orgId, TTL + latency)
    {
      var r := run[k].returned.value;
      RunInv(run, k, latency);
      var at :| run[k].now - at < TTL + latency && WasRead(run, k, r.email, r.orgId, at);
      var j :| 0 <= j < k && InDb(run[j], r.email) == r.orgId && run[j + 1].now == at;
      assert LastInstant(run, j, k) == at;
    }
  }

  // ------------------------------------------------- the bound is the best

  const BEFORE: map<string, string> := map["ann" := "acme"]
  const AFTER: map<string, string> := map["ann" := "umbrella"]

  /** The database is read and changed at 0, the lookup ends at `latency`, and
      the entry is served one tick before it expires. */
  function LateRun(latency: nat): seq<State> {
    var was := Some("acme");
    var entry := Entry(was, latency, 0);
    [ State(0, BEFORE, map[], map[], None),
      State(0, BEFORE, map[], map[0 := Asking("ann")], None),
      State(0, BEFORE, map[], map[0 := Served("ann", was, 0)], None),
      State(0, AFTER, map[], map[0 := Served("ann", was, 0)], None),
      State(latency, AFTER, map["ann" := entry], map[], Some(Return("ann", was, false))),
      State(latency + TTL - 1, AFTER, map["ann" := entry], map[], Some(Return("ann", was, false))) ]
  }

  lemma LateRunIsARun(latency: nat)
    ensures Run(LateRun(latency), latency)
  {
    var run := LateRun(latency);
    assert Begin(run[0], run[1], 0, "ann");
    assert Serve(run[1], run[2], 0);
    assert Assign(run[2], run[3], "ann", "umbrella");
    assert Finish(run[3], run[4], 0, latency);
    assert Begin(run[4], run[5], 1, "ann");
    forall k | 0 < k < |run| ensures Next(run[k - 1], run[k], latency) {
    }
  }

  /** How stale an answer can be, exactly: when queries take up to `latency`
      from the read to the stamp, every answer of every run was true less
      than `bound` ago if and only if `bound` is at least the TTL plus that
      latency. So "within 30 seconds" is right just when the read and the
      stamp coincide. */
  lemma StalenessBoundIff(latency: nat, bound: int)
    ensures (forall run :: Run(run, latency) ==> AllWithin(run, bound)) <==> bound >= 30_000_000 + latency
  {
    if bound >= TTL + latency {
      forall run | Run(run, latency) ensures AllWithin(run, bound) {
        AlwaysWithin(run, latency);
        WiderBound(run, TTL + latency, bound);
      }
    } else {
      var run := LateRun(latency);
      LateRunIsARun(latency);
      assert run[5].returned.Some?;
      assert !WithinBound(run, 5, "ann", Some("acme"), bound);
    }
  }

  lemma WiderBound(run: seq<State>, bound: int, wider: int)
    requires AllWithin(run, bound) && bound <= wider
    ensures AllWithin(run, wider)
  {
    forall k | 0 <= k < |run| && run[k].returned.Some? && !run[k].returned.value.onError
      ensures WithinBound(run, k, run[k].returned.value.email, run[k].returned.value.orgId, wider)
    {
      var j :| 0 <= j <= k && InDb(run[j], run[k].returned.value.email) == run[k].returned.value.orgId
        && run[k].now - LastInstant(run, j, k) < bound;
      assert run[k].now - LastInstant(run, j, k) < wider;
    }
  }

  // ------------------------------------------- what the cache answers with

  /** Step j ends a lookup of `email` and stamps its entry. */
  ghost predicate StampsAs(run: seq<State>, j: nat, id: nat, email: string, latency: nat)
    requires 0 < j < |run|
  {
    Finish(run[j - 1], run[j], id, latency) && run[j - 1].flights[id].email == email
  }

  ghost predicate Stamps(run: seq<State>, j: nat, email: string, latency: nat)
    requires 0 < j < |run|
  {
    exists id :: StampsAs(run, j, id, email, latency)
  }

  /** As of step k, the entry of `email` was stamped last at step j. */
  ghost predicate LastStamp(run: seq<State>, k: nat, j: nat, email: string, latency: nat)
    requires k < |run|
  {
    0 < j <= k && Stamps(run, j, email, latency) && forall i :: j < i <= k ==> !Stamps(run, i, email, latency)
  }

  ghost predicate StampKept(run: seq<State>, k: nat, j: nat, email: string)
    requires j <= k < |run|
  {
    if email in run[k].cache then
      && run[k].cache[email].cachedAt == run[j].now
      && run[j].returned == Some(Return(email, run[k].cache[email].orgId, false))
    else
      run[k].now - run[j].now >= TTL
  }

  /** An entry in the cache is what its last stamp put there; one that is
      missing although stamped has expired. */
  ghost predicate EntryOk(run: seq<State>, k: nat, email: string, latency: nat)
    requires k < |run|
  {
    && (email in run[k].cache ==> exists j: nat :: LastStamp(run, k, j, email, latency))
    && (forall j: nat :: LastStamp(run, k, j, email, latency) ==> StampKept(run, k, j, email))
  }

  lemma UnstampedStep(run: seq<State>, k: nat, email: string, latency: nat)
    requires 0 < k < |run| && Next(run[k - 1], run[k], latency) && !Stamps(run, k, email, latency)
    ensures email in run[k].cache ==> email in run[k - 1].cache && run[k].cache[email] == run[k - 1].cache[email]
    ensures email in run[k - 1].cache && email !in run[k].cache ==>
      run[k].now - run[k - 1].cache[email].cachedAt >= TTL
  {
    var s, s' := run[k - 1], run[k];
    if id: nat :| Finish(s, s', id, latency) {
      assert !StampsAs(run, k, id, email, latency);
    }
  }

  lemma {:induction false} EntriesOk(run: seq<State>, k: nat, email: string, latency: nat)
    requires Run(run, latency) && k < |run|
    ensures EntryOk(run, k, email, latency)
  {
    if k > 0 {
      EntriesOk(run, k - 1, email, latency);
      if Stamps(run, k, email, latency) {
        var id: nat :| StampsAs(run, k, id, email, latency);
        assert LastStamp(run, k, k, email, latency);
      } else {
        UnstampedStep(run, k, email, latency);
        forall j: nat ensures LastStamp(run, k, j, email, latency) <==> LastStamp(run, k - 1, j, email, latency) {
        }
        if email in run[k].cache {
          var j: nat :| LastStamp(run, k - 1, j, email, latency);
          assert LastStamp(run, k, j, email, latency);
        }
        assert run[k - 1].now <= run[k].now;
        forall j: nat | LastStamp(run, k, j, email, latency) ensures StampKept(run, k, j, email) {
          assert LastStamp(run, k - 1, j, email, latency) && StampKept(run, k - 1, j, email);
        }
      }
    }
  }

  ghost predicate YoungStamp(run: seq<State>, k: nat, j: nat, email: string, latency: nat)
    requires 0 < k < |run|
  {
    LastStamp(run, k - 1, j, email, latency) && run[k].now - run[j].now < TTL
  }

  /** In every run, a lookup is answered from the cache exactly when the last
      stamp of its email is less than the TTL old; the answer is then the one
      that lookup gave. */
  lemma ExpiredIsNotServed(run: seq<State>, k: nat, id: nat, email: string, latency: nat)
    requires Run(run, latency) && 0 < k < |run| && Begin(run[k - 1], run[k], id, email)
    ensures run[k].returned.Some? <==>
      exists j: nat :: YoungStamp(run, k, j, email, latency)
    ensures forall j: nat :: YoungStamp(run, k, j, email, latency) ==> run[k].returned == run[j].returned
  {
    EntriesOk(run, k - 1, email, latency);
    assert run[k - 1].now <= run[k].now by {
      assert Next(run[k - 1], run[k], latency);
    }
    if run[k].returned.Some? {
      var j: nat :| LastStamp(run, k - 1, j, email, latency);
      assert StampKept(run, k - 1, j, email);
      assert YoungStamp(run, k, j, email, latency);
    }
    forall j: nat | YoungStamp(run, k, j, email, latency)
      ensures run[k].returned.Some? && run[k].returned == run[j].returned
    {
      assert StampKept(run, k - 1, j, email);
    }
  }
}
