/** Lazy creation of blob containers under two levels of asyncio locks
    (shared/blob_storage.py, _ensure_container_exists), as a system of
    interleaved steps.

    Coroutines of several service instances share one lock table,
    `_container_locks`, guarded by `_container_locks_lock`; each service
    keeps its own set of initialised containers. A coroutine may be
    switched out between any two steps below, which is more often than at
    the `await`s of the source. Other processes may create containers too;
    nobody deletes one. Any storage call may fail. */
module ContainerInit {
  import opened Wrappers

  type Container = string
  type Service = nat
  type LockId = nat

  /** Where a call of _ensure_container_exists stands. */
  datatype Place =
    | Begin                        // before the first membership test
    | WantTable                    // waiting for the table lock
    | InTable                      // holds the table lock
    | LeaveTable(lk: LockId)       // holds it, knows the container's lock
    | WantLock(lk: LockId)         // waiting for the container's lock
    | Locked(lk: LockId)           // holds it, before the second test
    | Probing(lk: LockId)          // holds it, awaiting exists()
    | Creating(lk: LockId)         // holds it, awaiting create_container()
    | Marking(lk: LockId)          // holds it, about to add to the set
    | Returned
    | Raised

  datatype Call = Call(service: Service, container: Container, at: Place)

  /** What the calls share. `outside` and `created` are bookkeeping: the
      containers other processes created, and this process's successful
      create_container() calls in order. `initialized` holds the pairs of a
      service and a container in its _initialized_containers. */
  datatype Shared = Shared(
    locks: map<Container, LockId>,
    nextLock: LockId,
    tableHolder: Option<nat>,
    holders: map<LockId, nat>,
    initialized: set<(Service, Container)>,
    existing: set<Container>,
    outside: set<Container>,
    created: seq<Container>)

  datatype State = State(sh: Shared, calls: seq<Call>)

  predicate InSection(p: Place) {
    p.Locked? || p.Probing? || p.Creating? || p.Marking?
  }

  /** Awaiting an answer of the storage account. */
  predicate AsksStorage(p: Place) {
    p.Probing? || p.Creating?
  }

  predicate Over(p: Place) {
    p.Returned? || p.Raised?
  }

  // --------------------------------------------------------------- steps

  /** Only the two lock acquisitions can make a call wait. */
  predicate Enabled(sh: Shared, at: Place) {
    match at
    case WantTable => sh.tableHolder == None
    case WantLock(lk) => lk !in sh.holders
    case Returned => false
    case Raised => false
    case _ => true
  }

  function Release(sh: Shared, lk: LockId): Shared {
    sh.(holders := sh.holders - {lk})
  }

  /** One step of call number `i`. `fails` is the storage account's choice
      to let the awaited operation raise. */
  function Step(sh: Shared, i: nat, me: Call, fails: bool): (Shared, Place) {
    var c := me.container;
    match me.at
    case Begin =>
      (sh, if (me.service, c) in sh.initialized then Returned else WantTable)
    case WantTable =>
      (sh.(tableHolder := Some(i)), InTable)
    case InTable =>
      if c in sh.locks then (sh, LeaveTable(sh.locks[c]))
      else (sh.(locks := sh.locks[c := sh.nextLock], nextLock := sh.nextLock + 1), LeaveTable(sh.nextLock))
    case LeaveTable(lk) =>
      (sh.(tableHolder := None), WantLock(lk))
    case WantLock(lk) =>
      (sh.(holders := sh.holders[lk := i]), Locked(lk))
    case Locked(lk) =>
      if (me.service, c) in sh.initialized then (Release(sh, lk), Returned)
      else (sh, Probing(lk))
    case Probing(lk) =>
      if fails then (Release(sh, lk), Raised)
      else (sh, if c in sh.existing then Marking(lk) else Creating(lk))
    case Creating(lk) =>
      if fails then (Release(sh, lk), Raised)
      else if c in sh.existing then (sh, Marking(lk))  // ResourceExistsError
      else (sh.(existing := sh.existing + {c}, created := sh.created + [c]), Marking(lk))
    case Marking(lk) =>
      (Release(sh, lk).(initialized := sh.initialized + {(me.service, c)}), Returned)
    case Returned => (sh, me.at)
    case Raised => (sh, me.at)
  }

  function After(s: State, i: nat, fails: bool): State
    requires i < |s.calls|
  {
    var (sh, at) := Step(s.sh, i, s.calls[i], fails);
    State(sh, s.calls[i := s.calls[i].(at := at)])
  }

  ghost predicate CallStep(s: State, s': State, i: nat, fails: bool) {
    i < |s.calls| && Enabled(s.sh, s.calls[i].at) && s' == After(s, i, fails)
  }

  ghost predicate OutsideCreate(s: State, s': State, c: Container) {
    c !in s.sh.existing && s' == s.(sh := s.sh.(existing := s.sh.existing + {c}, outside := s.sh.outside + {c}))
  }

  /** A new request enters _ensure_container_exists. */
  ghost predicate NewCall(s: State, s': State, service: Service, c: Container) {
    s' == s.(calls := s.calls + [Call(service, c, Begin)])
  }

  ghost predicate Next(s: State, s': State) {
    || (exists i, fails :: CallStep(s, s', i, fails))
    || (exists c :: OutsideCreate(s, s', c))
    || (exists service, c :: NewCall(s, s', service, c))
  }

  ghost predicate Start(s: State) {
    && s.sh.locks == map[] && s.sh.tableHolder == None && s.sh.holders == map[] && s.sh.initialized == {}
    && s.sh.created == [] && s.sh.outside == s.sh.existing
    && s.calls == []
  }

  ghost predicate Run(run: seq<State>) {
    && run != [] && Start(run[0])
    && forall k :: 0 < k < |run| ==> Next(run[k - 1], run[k])
  }

  // ----------------------------------------------------------- invariant

  ghost predicate Knows(sh: Shared, c: Container, lk: LockId) {
    c in sh.locks && sh.locks[c] == lk
  }

  ghost predicate Holds(sh: Shared, i: nat, c: Container, lk: LockId) {
    Knows(sh, c, lk) && lk in sh.holders && sh.holders[lk] == i
  }

  /** The container is in the set of the call's own service. */
  predicate Noted(sh: Shared, me: Call) {
    (me.service, me.container) in sh.initialized
  }

  /** What a call's place says about the shared state. */
  ghost predicate CallOk(sh: Shared, i: nat, me: Call) {
    match me.at
    case Begin => true
    case WantTable => true
    case InTable => sh.tableHolder == Some(i)
    case LeaveTable(lk) => sh.tableHolder == Some(i) && Knows(sh, me.container, lk)
    case WantLock(lk) => Knows(sh, me.container, lk)
    case Locked(lk) => Holds(sh, i, me.container, lk)
    case Probing(lk) => Holds(sh, i, me.container, lk) && !Noted(sh, me)
    case Creating(lk) =>
      Holds(sh, i, me.container, lk) && !Noted(sh, me) && (me.container in sh.existing ==> me.container in sh.outside)
    case Marking(lk) => Holds(sh, i, me.container, lk) && !Noted(sh, me) && me.container in sh.existing
    case Returned => (me.service, me.container) in sh.initialized && me.container in sh.existing
    case Raised => true
  }

  ghost predicate CallsOk(s: State) {
    forall i :: 0 <= i < |s.calls| ==> CallOk(s.sh, i, s.calls[i])
  }

  /** One lock object per container, numbered in order of creation. */
  ghost predicate LocksOk(sh: Shared) {
    && (forall c :: c in sh.locks ==> sh.locks[c] < sh.nextLock)
    && (forall c, d :: c in sh.locks && d in sh.locks && sh.locks[c] == sh.locks[d] ==> c == d)
  }

  /** A lock that is held is held by a call inside the matching section. */
  ghost predicate HoldersOk(s: State) {
    && (forall lk :: lk in s.sh.holders ==>
         && s.sh.holders[lk] < |s.calls|
         && InSection(s.calls[s.sh.holders[lk]].at) && s.calls[s.sh.holders[lk]].at.lk == lk)
    && (s.sh.tableHolder.Some? ==>
         && s.sh.tableHolder.value < |s.calls|
         && (s.calls[s.sh.tableHolder.value].at.InTable? || s.calls[s.sh.tableHolder.value].at.LeaveTable?))
  }

  ghost predicate ContainersOk(sh: Shared) {
    && (forall p :: p in sh.initialized ==> p.1 in sh.existing)
    && (forall i, j :: 0 <= i < j < |sh.created| ==> sh.created[i] != sh.created[j])
    && (forall c :: c in sh.created ==> c in sh.existing)
    && sh.outside <= sh.existing
  }

  ghost predicate Inv(s: State) {
    CallsOk(s) && LocksOk(s.sh) && HoldersOk(s) && ContainersOk(s.sh)
  }

  /** At most one call per container is past its container lock. */
  lemma SectionIsExclusive(s: State, i: nat, j: nat)
    requires CallsOk(s)
    requires i < |s.calls| && j < |s.calls| && s.calls[i].container == s.calls[j].container
    requires InSection(s.calls[i].at) && InSection(s.calls[j].at)
    ensures i == j
  {
    assert CallOk(s.sh, i, s.calls[i]) && CallOk(s.sh, j, s.calls[j]);
  }

  lemma CallStepKeepsOthers(s: State, i: nat, fails: bool, j: nat)
    requires Inv(s) && i < |s.calls| && Enabled(s.sh, s.calls[i].at)
    requires j < |s.calls| && j != i
    ensures CallOk(After(s, i, fails).sh, j, s.calls[j])
  {
    var me, other := s.calls[i], s.calls[j];
    assert CallOk(s.sh, i, me) && CallOk(s.sh, j, other);
    if InSection(me.at) && InSection(other.at) && me.container == other.container {
      SectionIsExclusive(s, i, j);
    }
  }

  lemma CallStepMovesMe(s: State, i: nat, fails: bool)
    requires Inv(s) && i < |s.calls| && Enabled(s.sh, s.calls[i].at)
    ensures CallOk(After(s, i, fails).sh, i, After(s, i, fails).calls[i])
    ensures LocksOk(After(s, i, fails).sh) && ContainersOk(After(s, i, fails).sh)
  {
    assert CallOk(s.sh, i, s.calls[i]);
  }

  lemma CallStepHolders(s: State, i: nat, fails: bool)
    requires Inv(s) && i < |s.calls| && Enabled(s.sh, s.calls[i].at)
    ensures HoldersOk(After(s, i, fails))
  {
    assert CallOk(s.sh, i, s.calls[i]);
  }

  lemma NextKeepsInv(s: State, s': State)
    requires Inv(s) && Next(s, s')
    ensures Inv(s')
  {
    if i, fails :| CallStep(s, s', i, fails) {
      forall j | 0 <= j < |s'.calls| ensures CallOk(s'.sh, j, s'.calls[j]) {
        if j == i { CallStepMovesMe(s, i, fails); } else { CallStepKeepsOthers(s, i, fails, j); }
      }
      CallStepMovesMe(s, i, fails);
      CallStepHolders(s, i, fails);
    } else {
      forall j | 0 <= j < |s'.calls| ensures CallOk(s'.sh, j, s'.calls[j]) {
        assert j < |s.calls| ==> CallOk(s.sh, j, s.calls[j]);
      }
    }
  }

  // -------------------------------------------------------- over all runs

  lemma {:induction false} RunInv(run: seq<State>, k: nat)
    requires Run(run) && k < |run|
    ensures Inv(run[k])
  {
    if k > 0 {
      RunInv(run, k - 1);
      NextKeepsInv(run[k - 1], run[k]);
    }
  }

  lemma NextKeepsLock(s: State, s': State, c: Container)
    requires Next(s, s') && c in s.sh.locks
    ensures c in s'.sh.locks && s'.sh.locks[c] == s.sh.locks[c]
  {
  }

  /** Once made, a container's lock object is never replaced. */
  lemma {:induction false} LockIsNeverReplaced(run: seq<State>, k: nat, m: nat, c: Container)
    requires Run(run) && k <= m < |run| && c in run[k].sh.locks
    ensures c in run[m].sh.locks && run[m].sh.locks[c] == run[k].sh.locks[c]
  {
    if k < m {
      LockIsNeverReplaced(run, k, m - 1, c);
      NextKeepsLock(run[m - 1], run[m], c);
    }
  }

  /** Everything promised about a state reached by any interleaving. */
  lemma SafeInEveryRun(run: seq<State>, k: nat)
    requires Run(run) && k < |run|
    // at most one call per container checks and creates
    ensures forall i, j | 0 <= i < |run[k].calls| && 0 <= j < |run[k].calls| ::
              (run[k].calls[i].container == run[k].calls[j].container
               && InSection(run[k].calls[i].at) && InSection(run[k].calls[j].at)) ==> i == j
    // no container is created twice
    ensures forall i, j :: 0 <= i < j < |run[k].sh.created| ==> run[k].sh.created[i] != run[k].sh.created[j]
    // a container in any service's set exists
    ensures forall p :: p in run[k].sh.initialized ==> p.1 in run[k].sh.existing
    // a call that returned normally left an existing container behind, and noted it
    ensures forall i :: 0 <= i < |run[k].calls| && run[k].calls[i].at == Returned
              ==> run[k].calls[i].container in run[k].sh.existing
                  && (run[k].calls[i].service, run[k].calls[i].container) in run[k].sh.initialized
    // create_container() finds the container present only if another process made it
    ensures forall i :: 0 <= i < |run[k].calls| && run[k].calls[i].at.Creating?
              && run[k].calls[i].container in run[k].sh.existing
              ==> run[k].calls[i].container in run[k].sh.outside
    // storage is asked about a container only until the service has noted it
    ensures forall i :: 0 <= i < |run[k].calls| && AsksStorage(run[k].calls[i].at)
              ==> !Noted(run[k].sh, run[k].calls[i])
  {
    RunInv(run, k);
    var s := run[k];
    forall i, j | 0 <= i < |s.calls| && 0 <= j < |s.calls| && s.calls[i].container == s.calls[j].container
                  && InSection(s.calls[i].at) && InSection(s.calls[j].at)
      ensures i == j
    {
      SectionIsExclusive(s, i, j);
    }
    forall i | 0 <= i < |s.calls| ensures CallOk(s.sh, i, s.calls[i]) {
    }
  }

  // ------------------------------------------------- when a call may raise

  /** At step k, call i has a storage operation that fails. */
  ghost predicate FailsAt(run: seq<State>, k: nat, i: nat)
    requires 0 < k < |run|
  {
    i < |run[k - 1].calls| && AsksStorage(run[k - 1].calls[i].at) && CallStep(run[k - 1], run[k], i, true)
  }

  lemma FailingRaises(s: State, i: nat)
    requires i < |s.calls|
    ensures AsksStorage(s.calls[i].at) ==> After(s, i, true).calls[i].at == Raised
    ensures s.calls[i].at != Raised ==> After(s, i, false).calls[i].at != Raised
  {
  }

  lemma RaisedStep(s: State, s': State, i: nat)
    requires Next(s, s') && i < |s.calls|
    ensures i < |s'.calls|
    ensures s'.calls[i].at == Raised <==>
      s.calls[i].at == Raised || (AsksStorage(s.calls[i].at) && CallStep(s, s', i, true))
  {
    if j: nat, fails :| CallStep(s, s', j, fails) {
      assert j != i ==> s'.calls[i] == s.calls[i];
      FailingRaises(s, i);
    } else {
      FailingRaises(s, i);
    }
  }

  /** In every run, a call has raised exactly when a storage operation of its
      own has failed. */
  lemma {:induction false} RaisedIff(run: seq<State>, k: nat, i: nat)
    requires Run(run) && k < |run| && i < |run[k].calls|
    ensures run[k].calls[i].at == Raised <==> exists m: nat :: 0 < m <= k && FailsAt(run, m, i)
  {
    if k > 0 {
      var s, s' := run[k - 1], run[k];
      assert Next(s, s');
      if i < |s.calls| {
        RaisedIff(run, k - 1, i);
        RaisedStep(s, s', i);
        assert FailsAt(run, k, i) <==> AsksStorage(s.calls[i].at) && CallStep(s, s', i, true);
      } else {
        CallsStay(run, k, i);
      }
    }
  }

  /** Calls are numbered in order of arrival. */
  lemma CallsStay(run: seq<State>, k: nat, i: nat)
    requires Run(run) && 0 < k < |run| && |run[k - 1].calls| <= i < |run[k].calls|
    ensures run[k].calls[i].at == Begin
    ensures forall m: nat :: 0 < m <= k ==> !FailsAt(run, m, i)
  {
    forall m: nat | 0 < m <= k ensures !FailsAt(run, m, i) {
      FewerCalls(run, m - 1, k - 1);
    }
    assert Next(run[k - 1], run[k]);
  }

  lemma {:induction false} FewerCalls(run: seq<State>, m: nat, k: nat)
    requires Run(run) && m <= k < |run|
    ensures |run[m].calls| <= |run[k].calls|
  {
    if m < k {
      FewerCalls(run, m, k - 1);
      assert Next(run[k - 1], run[k]);
    }
  }

  /** So while storage does not fail no call raises, and whoever has ended has
      returned. By NoDeadlock and StepsAreBounded, everybody ends. */
  lemma WithoutFailuresAllReturn(run: seq<State>, k: nat, i: nat)
    requires Run(run) && k < |run| && i < |run[k].calls|
    requires forall m: nat, j: nat :: 0 < m <= k ==> !FailsAt(run, m, j)
    ensures Over(run[k].calls[i].at) ==> run[k].calls[i].at == Returned
  {
    RaisedIff(run, k, i);
  }

  /** A call that arrives when its container has been noted returns without
      taking a lock or asking storage. */
  lemma {:induction false} NotedReturnsAtOnce(run: seq<State>, k: nat, m: nat, i: nat)
    requires Run(run) && k <= m < |run| && i < |run[k].calls|
    requires run[k].calls[i].at == Begin && Noted(run[k].sh, run[k].calls[i])
    ensures i < |run[m].calls| && Noted(run[m].sh, run[m].calls[i])
    ensures run[m].calls[i].at == Begin || run[m].calls[i].at == Returned
  {
    if k < m {
      NotedReturnsAtOnce(run, k, m - 1, i);
      assert Next(run[m - 1], run[m]);
    }
  }

  // ------------------------------------------- no deadlock, all calls end

  /** Which call can move when call i wants to: the table lock's holder, the
      container lock's holder, or i itself. The first two never wait, because
      the table lock is given back before the container lock is asked for. */
  function Mover(s: State, i: nat): nat
    requires i < |s.calls|
  {
    match s.calls[i].at
    case WantTable => if s.sh.tableHolder.Some? then s.sh.tableHolder.value else i
    case WantLock(lk) => if lk in s.sh.holders then s.sh.holders[lk] else i
    case _ => i
  }

  /** As long as a call is unfinished, some unfinished call can step. */
  lemma NoDeadlock(run: seq<State>, k: nat, i: nat)
    requires Run(run) && k < |run| && i < |run[k].calls| && !Over(run[k].calls[i].at)
    ensures var j := Mover(run[k], i);
      j < |run[k].calls| && CallStep(run[k], After(run[k], j, false), j, false)
  {
    RunInv(run, k);
  }

  /** Steps a call still has to take. */
  function Remaining(at: Place): nat {
    match at
    case Begin => 9
    case WantTable => 8
    case InTable => 7
    case LeaveTable(_) => 6
    case WantLock(_) => 5
    case Locked(_) => 4
    case Probing(_) => 3
    case Creating(_) => 2
    case Marking(_) => 1
    case Returned => 0
    case Raised => 0
  }

  function Work(calls: seq<Call>): nat {
    if calls == [] then 0 else Remaining(calls[0].at) + Work(calls[1..])
  }

  lemma {:induction false} WorkUpdate(calls: seq<Call>, i: nat, c: Call)
    requires i < |calls|
    ensures Work(calls[i := c]) == Work(calls) - Remaining(calls[i].at) + Remaining(c.at)
  {
    if i > 0 {
      WorkUpdate(calls[1..], i - 1, c);
      assert calls[i := c][1..] == calls[1..][i - 1 := c];
    }
  }

  lemma {:induction false} WorkAppend(calls: seq<Call>, c: Call)
    ensures Work(calls + [c]) == Work(calls) + Remaining(c.at)
  {
    if calls != [] {
      WorkAppend(calls[1..], c);
      assert (calls + [c])[1..] == calls[1..] + [c];
    }
  }

  lemma CallStepPays(s: State, i: nat, fails: bool)
    requires i < |s.calls| && Enabled(s.sh, s.calls[i].at)
    ensures Remaining(After(s, i, fails).calls[i].at) < Remaining(s.calls[i].at)
    ensures After(s, i, fails).sh.outside == s.sh.outside
  {
  }

  /** Work left, less ten for every call received and one for every outside
      creation, falls with every step of the system. */
  lemma NextPays(s: State, s': State)
    requires Inv(s) && Next(s, s')
    ensures Work(s'.calls) + 10 * |s.calls| + |s.sh.outside| < Work(s.calls) + 10 * |s'.calls| + |s'.sh.outside|
  {
    if i: nat, fails :| CallStep(s, s', i, fails) {
      CallStepPays(s, i, fails);
      WorkUpdate(s.calls, i, s'.calls[i]);
    } else if service, c :| NewCall(s, s', service, c) {
      WorkAppend(s.calls, Call(service, c, Begin));
    } else {
      var c :| OutsideCreate(s, s', c);
      assert c !in s.sh.outside;
    }
  }

  /** A run can only be long because calls arrive or other processes create
      containers: each call accounts for at most ten steps, its arrival
      included. With NoDeadlock, calls that stop arriving all finish. */
  lemma {:induction false} StepsAreBounded(run: seq<State>, k: nat)
    requires Run(run) && k < |run|
    ensures k + Work(run[k].calls) + |run[0].sh.outside| <= 10 * |run[k].calls| + |run[k].sh.outside|
  {
    if k > 0 {
      StepsAreBounded(run, k - 1);
      RunInv(run, k - 1);
      NextPays(run[k - 1], run[k]);
    }
  }
}
