/** No lost updates: clients that read a row with get_entity, change their
    copy, and write it back with update_entity_with_etag, interleaved in any
    way (shared/async_storage.py, where each call awaits the table).

    A guarded update is two steps. The caller's half takes the tag out of the
    dictionary and sends; the table's half happens later, and decides. What has
    been sent may arrive at any time, more than once, or never, and its answer
    may be lost: the caller's dictionary has lost its tag either way.

    A local change is any function on the copy that leaves its PartitionKey
    and RowKey alone; the tag is not the caller's to change. Tags need not
    be globally unique: the table only never gives one row the same tag
    twice. */
module OptimisticUpdates {
  import opened Wrappers
  import opened TableStorage

  type Edit = Dict -> Dict

  /** A successful update, as the change it stands for. */
  datatype Change = Change(mode: Mode, edit: Edit)

  /** A client's copy of a row. `addr`, `base`, `seen` and `edit` are
      bookkeeping: where it was read, the row's content then, how many changes
      it had seen, and the local changes made to the copy since. */
  datatype Client = Client(dict: Dict, addr: Address, base: Dict, seen: nat, edit: Edit)

  /** An update on its way: the copy as it was when it was sent. */
  datatype Message = Message(copy: Client, mode: Mode)

  datatype State = State(rows: Table, clients: map<nat, Client>, sent: seq<Message>, log: map<Address, seq<Change>>)

  /** What is common to a run: the deployment, and the table it starts from. */
  datatype World = World(table: string, scope: Option<string>, codec: Codec, first: Table)

  // ---------------------------------------------------------------- steps

  /** The caller's view of stored content: datetimes parsed, no tag. */
  function View(w: World, props: Dict): Dict {
    WithoutEtag(Deserialize(props, w.codec))
  }

  predicate KeepsAddress(d: Dict, d': Dict) {
    && ("PartitionKey" in d <==> "PartitionKey" in d')
    && ("PartitionKey" in d ==> d'["PartitionKey"] == d["PartitionKey"])
    && ("RowKey" in d <==> "RowKey" in d')
    && ("RowKey" in d ==> d'["RowKey"] == d["RowKey"])
  }

  /** A local change to a copy; its tag, if it still has one, stays. */
  function Edited(d: Dict, f: Edit): Dict {
    var d' := WithoutEtag(f(WithoutEtag(d)));
    if "etag" in d then d'["etag" := d["etag"]] else d'
  }

  /** Local changes in sequence. */
  function Then(e: Edit, f: Edit): Edit {
    (d: Dict) => WithoutEtag(f(WithoutEtag(e(d))))
  }

  function CopyOf(w: World, s: State, a: Address): Client
    requires a in s.rows
  {
    Client(Fetched(s.rows[a], w.codec), a, s.rows[a].props, |Log(s, a)|, (d: Dict) => d)
  }

  ghost predicate Get(w: World, s: State, s': State, i: nat, a: Address) {
    && a in s.rows
    && s' == s.(clients := s.clients[i := CopyOf(w, s, a)])
  }

  ghost predicate EditCopy(s: State, s': State, i: nat, f: Edit) {
    && i in s.clients
    && var c := s.clients[i];
      && KeepsAddress(WithoutEtag(c.dict), f(WithoutEtag(c.dict)))
      && s' == s.(clients := s.clients[i :=
           c.(dict := Edited(c.dict, f), edit := Then(c.edit, f))])
  }

  /** The dictionary a guarded update leaves its caller with, whatever the
      table makes of it. */
  function LeftBehind(w: World, d: Dict): Dict {
    var keyed := WithPartitionKey(w.table, w.scope, d);
    if keyed.Err? then d
    else if "RowKey" !in keyed.value then keyed.value
    else WithoutEtag(keyed.value)
  }

  lemma CallerIsLeftWith(w: World, rows: Table, d: Dict, mode: Mode, tag: string)
    ensures GuardedUpdate(rows, w.table, w.scope, w.codec, d, mode, tag).dict == LeftBehind(w, d)
  {
    var keyed := WithPartitionKey(w.table, w.scope, d);
    if keyed.Ok? && "etag" !in keyed.value {
      assert WithoutEtag(keyed.value) == keyed.value;
    }
  }

  ghost predicate Send(w: World, s: State, s': State, i: nat, mode: Mode) {
    && i in s.clients
    && var c := s.clients[i];
      s' == s.(clients := s.clients[i := c.(dict := LeftBehind(w, c.dict))], sent := s.sent + [Message(c, mode)])
  }

  function Decided(w: World, s: State, m: Message, tag: string): Outcome {
    GuardedUpdate(s.rows, w.table, w.scope, w.codec, m.copy.dict, m.mode, tag)
  }

  /** `tag` is the one the row gets if the table accepts. */
  ghost predicate Deliver(w: World, s: State, s': State, n: nat, tag: string) {
    && n < |s.sent|
    && var m := s.sent[n];
      var a := m.copy.addr;
      && (a in s.rows ==> tag !in s.rows[a].used)
      && var out := Decided(w, s, m, tag);
        s' == s.(rows := out.rows,
                 log := if out.answer.Ok? then s.log[a := Log(s, a) + [Change(m.mode, m.copy.edit)]] else s.log)
  }

  ghost predicate Next(w: World, s: State, s': State) {
    || (exists i, a :: Get(w, s, s', i, a))
    || (exists i, f :: EditCopy(s, s', i, f))
    || (exists i, mode :: Send(w, s, s', i, mode))
    || (exists n, tag :: Deliver(w, s, s', n, tag))
  }

  function Log(s: State, a: Address): seq<Change> {
    if a in s.log then s.log[a] else []
  }

  ghost predicate RowOk(a: Address, r: Row) {
    && HasAddress(r.props) && AddressOf(r.props) == a
    && r.etag in r.used
  }

  ghost predicate Run(w: World, run: seq<State>) {
    && run != []
    && run[0] == State(w.first, map[], [], map[])
    && (forall a :: a in w.first ==> RowOk(a, w.first[a]))
    && forall k :: 0 < k < |run| ==> Next(w, run[k - 1], run[k])
  }

  // ---------------------------------------------------- what must come out

  /** One change applied to stored content, in one piece. */
  function ApplyChange(w: World, ch: Change, props: Dict): Dict {
    Written(ch.mode, props, Serialize(WithoutEtag(ch.edit(View(w, props))), w.codec))
  }

  /** The changes applied one after another. */
  function Replay(w: World, log: seq<Change>, props: Dict): Dict {
    if log == [] then props
    else ApplyChange(w, log[|log| - 1], Replay(w, log[..|log| - 1], props))
  }

  /** A copy that still has its tag is its base plus its edits; and the row has
      that tag exactly while it is the base and no change has come since. */
  ghost predicate ClientOk(w: World, s: State, c: Client) {
    "etag" in c.dict ==>
      && c.addr in s.rows
      && HasAddress(c.dict) && AddressOf(c.dict) == c.addr
      && WithoutEtag(c.dict) == WithoutEtag(c.edit(View(w, c.base)))
      && c.dict["etag"].Text?
      && c.dict["etag"].s in s.rows[c.addr].used
      && c.seen <= |Log(s, c.addr)|
      && (s.rows[c.addr].etag == c.dict["etag"].s <==> |Log(s, c.addr)| == c.seen)
      && (s.rows[c.addr].etag == c.dict["etag"].s ==> s.rows[c.addr].props == c.base)
  }

  ghost predicate RowsOk(w: World, s: State) {
    && s.rows.Keys == w.first.Keys
    && forall a :: a in s.rows ==> RowOk(a, s.rows[a]) && s.rows[a].props == Replay(w, Log(s, a), w.first[a].props)
  }

  ghost predicate Inv(w: World, s: State) {
    && RowsOk(w, s)
    && (forall i :: i in s.clients ==> ClientOk(w, s, s.clients[i]))
    && (forall n :: 0 <= n < |s.sent| ==> ClientOk(w, s, s.sent[n].copy))
  }

  lemma CopyIsOk(w: World, s: State, a: Address)
    requires a in s.rows && RowOk(a, s.rows[a])
    ensures ClientOk(w, s, CopyOf(w, s, a))
  {
    var props := s.rows[a].props;
    var dict := Fetched(s.rows[a], w.codec);
    assert "PartitionKey" in props && "RowKey" in props && "PartitionKey" !in DATE_FIELDS && "RowKey" !in DATE_FIELDS;
    assert WithoutEtag(dict) == WithoutEtag(Deserialize(props, w.codec));
  }

  /** What a copy claims depends on the table and the log only. */
  lemma SameTable(w: World, s: State, s': State, c: Client)
    requires ClientOk(w, s, c) && s'.rows == s.rows && s'.log == s.log
    ensures ClientOk(w, s', c)
  {
  }

  /** A step that leaves table and log alone, and puts in a good copy. */
  lemma CopyStepKeepsInv(w: World, s: State, s': State, i: nat)
    requires Inv(w, s) && s'.rows == s.rows && s'.log == s.log && s.sent <= s'.sent
    requires forall j :: j in s'.clients && j != i ==> j in s.clients && s'.clients[j] == s.clients[j]
    requires i in s'.clients && ClientOk(w, s, s'.clients[i])
    requires forall n :: |s.sent| <= n < |s'.sent| ==> ClientOk(w, s, s'.sent[n].copy)
    ensures Inv(w, s')
  {
    assert forall a :: Log(s', a) == Log(s, a);
    forall j | j in s'.clients ensures ClientOk(w, s', s'.clients[j]) {
      SameTable(w, s, s', s'.clients[j]);
    }
    forall n | 0 <= n < |s'.sent| ensures ClientOk(w, s', s'.sent[n].copy) {
      assert n < |s.sent| ==> s'.sent[n] == s.sent[n];
      SameTable(w, s, s', s'.sent[n].copy);
    }
  }

  lemma GetKeepsInv(w: World, s: State, s': State, i: nat, a: Address)
    requires Inv(w, s) && Get(w, s, s', i, a)
    ensures Inv(w, s')
  {
    CopyIsOk(w, s, a);
    CopyStepKeepsInv(w, s, s', i);
  }

  lemma EditedCopy(d: Dict, f: Edit)
    ensures WithoutEtag(Edited(d, f)) == WithoutEtag(f(WithoutEtag(d)))
    ensures "etag" in Edited(d, f) <==> "etag" in d
    ensures "etag" in d ==> Edited(d, f)["etag"] == d["etag"]
    ensures KeepsAddress(WithoutEtag(d), f(WithoutEtag(d))) ==> KeepsAddress(d, Edited(d, f))
  {
  }

  lemma EditKeepsClient(w: World, s: State, c: Client, f: Edit)
    requires ClientOk(w, s, c) && KeepsAddress(WithoutEtag(c.dict), f(WithoutEtag(c.dict)))
    ensures ClientOk(w, s, c.(dict := Edited(c.dict, f), edit := Then(c.edit, f)))
  {
    EditedCopy(c.dict, f);
  }

  lemma EditCopyKeepsInv(w: World, s: State, s': State, i: nat, f: Edit)
    requires Inv(w, s) && EditCopy(s, s', i, f)
    ensures Inv(w, s')
  {
    EditKeepsClient(w, s, s.clients[i], f);
    CopyStepKeepsInv(w, s, s', i);
  }

  lemma SendKeepsInv(w: World, s: State, s': State, i: nat, mode: Mode)
    requires Inv(w, s) && Send(w, s, s', i, mode)
    ensures Inv(w, s')
  {
    var c := s.clients[i];
    assert "etag" in LeftBehind(w, c.dict) ==> "etag" in c.dict && ("PartitionKey" !in c.dict || "RowKey" !in c.dict);
    CopyStepKeepsInv(w, s, s', i);
  }

  /** When the table accepts a copy with a tag, and what it then writes. */
  lemma GuardedUpdateWithTag(w: World, rows: Table, d: Dict, mode: Mode, tag: string)
    requires "etag" in d && d["etag"].Text? && HasAddress(d)
    ensures var out := GuardedUpdate(rows, w.table, w.scope, w.codec, d, mode, tag);
      var a := AddressOf(d);
      && (out.answer.Ok? <==> a in rows && rows[a].etag == d["etag"].s)
      && (out.answer.Err? ==> out.rows == rows)
      && var sent := Serialize(WithoutEtag(d), w.codec);
      && (out.answer.Ok? ==> out.rows == Put(rows, a, Written(mode, rows[a].props, sent), tag))
      && HasAddress(sent) && AddressOf(sent) == a
  {
  }

  lemma GuardedUpdateWithoutTag(w: World, rows: Table, d: Dict, mode: Mode, tag: string)
    requires "etag" !in d
    ensures var out := GuardedUpdate(rows, w.table, w.scope, w.codec, d, mode, tag);
      out.answer.Err? && out.rows == rows
  {
  }

  /** An update that goes through writes what its edits make of the row as it
      is now. */
  lemma SuccessIsApplyChange(w: World, s: State, n: nat, tag: string)
    requires Inv(w, s) && n < |s.sent| && Decided(w, s, s.sent[n], tag).answer.Ok?
    ensures var c := s.sent[n].copy;
      && c.addr in s.rows
      && var props := ApplyChange(w, Change(s.sent[n].mode, c.edit), s.rows[c.addr].props);
      && Decided(w, s, s.sent[n], tag).rows == Put(s.rows, c.addr, props, tag)
      && HasAddress(props) && AddressOf(props) == c.addr
  {
    var m := s.sent[n];
    assert ClientOk(w, s, m.copy);
    if "etag" in m.copy.dict {
      GuardedUpdateWithTag(w, s.rows, m.copy.dict, m.mode, tag);
    } else {
      GuardedUpdateWithoutTag(w, s.rows, m.copy.dict, m.mode, tag);
    }
  }

  /** A refused one changes nothing. */
  lemma RefusalChangesNothing(w: World, s: State, n: nat, tag: string)
    requires Inv(w, s) && n < |s.sent| && Decided(w, s, s.sent[n], tag).answer.Err?
    ensures Decided(w, s, s.sent[n], tag).rows == s.rows
  {
    var m := s.sent[n];
    assert ClientOk(w, s, m.copy);
    if "etag" in m.copy.dict {
      GuardedUpdateWithTag(w, s.rows, m.copy.dict, m.mode, tag);
    } else {
      GuardedUpdateWithoutTag(w, s.rows, m.copy.dict, m.mode, tag);
    }
  }

  /** A write under a new tag leaves every copy's claim true: copies of that
      row now carry a tag the row no longer has. */
  lemma PutKeepsClient(w: World, s: State, s': State, c: Client, a: Address, props: Dict, ch: Change, tag: string)
    requires ClientOk(w, s, c) && a in s.rows && tag !in s.rows[a].used
    requires s'.rows == Put(s.rows, a, props, tag) && s'.log == s.log[a := Log(s, a) + [ch]]
    ensures ClientOk(w, s', c)
  {
    if c.addr != a {
      assert Log(s', c.addr) == Log(s, c.addr);
    }
  }

  lemma CommitKeepsRows(w: World, s: State, s': State, a: Address, ch: Change, tag: string)
    requires RowsOk(w, s) && a in s.rows
    requires HasAddress(ApplyChange(w, ch, s.rows[a].props)) && AddressOf(ApplyChange(w, ch, s.rows[a].props)) == a
    requires s'.rows == Put(s.rows, a, ApplyChange(w, ch, s.rows[a].props), tag)
    requires s'.log == s.log[a := Log(s, a) + [ch]]
    ensures RowsOk(w, s')
  {
    var log := Log(s, a) + [ch];
    assert log[..|log| - 1] == Log(s, a);
    forall b | b in s'.rows
      ensures RowOk(b, s'.rows[b]) && s'.rows[b].props == Replay(w, Log(s', b), w.first[b].props)
    {
      assert RowOk(b, s.rows[b]);
      assert b != a ==> Log(s', b) == Log(s, b);
    }
  }

  lemma DeliverKeepsInv(w: World, s: State, s': State, n: nat, tag: string)
    requires Inv(w, s) && Deliver(w, s, s', n, tag)
    ensures Inv(w, s')
  {
    var m := s.sent[n];
    var a, ch := m.copy.addr, Change(m.mode, m.copy.edit);
    if Decided(w, s, m, tag).answer.Ok? {
      SuccessIsApplyChange(w, s, n, tag);
      var props := ApplyChange(w, ch, s.rows[a].props);
      CommitKeepsRows(w, s, s', a, ch, tag);
      forall j | j in s'.clients ensures ClientOk(w, s', s'.clients[j]) {
        PutKeepsClient(w, s, s', s.clients[j], a, props, ch, tag);
      }
      forall k | 0 <= k < |s'.sent| ensures ClientOk(w, s', s'.sent[k].copy) {
        PutKeepsClient(w, s, s', s.sent[k].copy, a, props, ch, tag);
      }
    } else {
      RefusalChangesNothing(w, s, n, tag);
    }
  }

  lemma NextKeepsInv(w: World, s: State, s': State)
    requires Inv(w, s) && Next(w, s, s')
    ensures Inv(w, s')
  {
    if i: nat, a :| Get(w, s, s', i, a) {
      GetKeepsInv(w, s, s', i, a);
    } else if i: nat, f :| EditCopy(s, s', i, f) {
      EditCopyKeepsInv(w, s, s', i, f);
    } else if i: nat, mode :| Send(w, s, s', i, mode) {
      SendKeepsInv(w, s, s', i, mode);
    } else {
      var n: nat, tag :| Deliver(w, s, s', n, tag);
      DeliverKeepsInv(w, s, s', n, tag);
    }
  }

  lemma {:induction false} RunInv(w: World, run: seq<State>, k: nat)
    requires Run(w, run) && k < |run|
    ensures Inv(w, run[k])
  {
    if k > 0 {
      RunInv(w, run, k - 1);
      NextKeepsInv(w, run[k - 1], run[k]);
    }
  }

  /** In every run, every row is what the successful changes make of its
      first content when they are applied one after another in commit order:
      none is lost, none is applied to anything but the row's latest content. */
  lemma NoLostUpdates(w: World, run: seq<State>, k: nat)
    requires Run(w, run) && k < |run|
    ensures run[k].rows.Keys == w.first.Keys
    ensures forall a :: a in w.first ==>
      run[k].rows[a].props == Replay(w, Log(run[k], a), w.first[a].props)
  {
    RunInv(w, run, k);
  }

  /** When an update goes through on arrival: exactly when the copy had its tag
      as it was sent, and no change to the row has been committed since the
      copy was read. */
  lemma AcceptedIff(w: World, run: seq<State>, k: nat, n: nat, tag: string)
    requires Run(w, run) && k < |run| && n < |run[k].sent|
    ensures var m := run[k].sent[n];
      Decided(w, run[k], m, tag).answer.Ok? <==>
        "etag" in m.copy.dict && |Log(run[k], m.copy.addr)| == m.copy.seen
  {
    RunInv(w, run, k);
    var m := run[k].sent[n];
    assert ClientOk(w, run[k], m.copy);
    if "etag" in m.copy.dict {
      GuardedUpdateWithTag(w, run[k].rows, m.copy.dict, m.mode, tag);
    } else {
      GuardedUpdateWithoutTag(w, run[k].rows, m.copy.dict, m.mode, tag);
    }
  }

  lemma NextGrows(w: World, s: State, s': State, a: Address)
    requires Next(w, s, s')
    ensures |Log(s, a)| <= |Log(s', a)| && s.sent <= s'.sent
  {
  }

  lemma {:induction false} RunGrows(w: World, run: seq<State>, k: nat, m: nat, a: Address)
    requires Run(w, run) && k <= m < |run|
    ensures |Log(run[k], a)| <= |Log(run[m], a)| && run[k].sent <= run[m].sent
  {
    if k < m {
      RunGrows(w, run, k, m - 1, a);
      NextGrows(w, run[m - 1], run[m], a);
    }
  }

  /** An update takes effect at most once, however often it arrives: once it
      has been accepted, it is refused ever after. */
  lemma AcceptedOnce(w: World, run: seq<State>, k: nat, n: nat, tag: string, m: nat, tag': string)
    requires Run(w, run) && 0 < k <= m < |run|
    requires Deliver(w, run[k - 1], run[k], n, tag) && Decided(w, run[k - 1], run[k - 1].sent[n], tag).answer.Ok?
    ensures n < |run[m].sent| && run[m].sent[n] == run[k - 1].sent[n]
    ensures Decided(w, run[m], run[m].sent[n], tag').answer.Err?
  {
    var a := run[k - 1].sent[n].copy.addr;
    AcceptedIff(w, run, k - 1, n, tag);
    RunGrows(w, run, k - 1, m, a);
    RunGrows(w, run, k, m, a);
    AcceptedIff(w, run, m, n, tag');
  }

  /** The unguarded update_entity does lose changes. Two clients get the same
      row, each makes its change, and one writes after the other: whatever the
      first change was, a replacing update leaves what the second makes of the
      content both had read. */
  lemma UnguardedUpdateLosesAChange(w: World, rows: Table, a: Address, first: Edit, second: Edit,
                                    tag1: string, tag2: string)
    requires a in rows && RowOk(a, rows[a])
    requires forall d :: KeepsAddress(d, first(d)) && KeepsAddress(d, second(d))
    ensures var copy := Fetched(rows[a], w.codec);
      var one := TableUpdate(rows, Serialize(first(copy), w.codec), Replace, tag1);
      && one.Ok?
      && var two := TableUpdate(one.value, Serialize(second(copy), w.codec), Replace, tag2);
      two.Ok? && two.value[a].props == Serialize(second(copy), w.codec)
  {
    var copy := Fetched(rows[a], w.codec);
    FetchedKeepsAddress(w, rows[a], a);
    assert KeepsAddress(copy, first(copy)) && KeepsAddress(copy, second(copy));
  }

  lemma FetchedKeepsAddress(w: World, row: Row, a: Address)
    requires RowOk(a, row)
    ensures var copy := Fetched(row, w.codec); HasAddress(copy) && AddressOf(copy) == a
  {
    assert "PartitionKey" !in DATE_FIELDS && "RowKey" !in DATE_FIELDS;
  }

  /** Adding one to a counter. */
  function Incremented(d: Dict): Dict {
    if "n" in d && d["n"].Number? then d["n" := Number(d["n"].n + 1)] else d
  }

  predicate Counts(d: Dict, n: int) {
    "n" in d && d["n"] == Number(n)
  }

  /** So a counter that two clients increment goes up by one, in either mode. */
  lemma UnguardedIncrementIsLost(w: World, rows: Table, a: Address, mode: Mode, n: int, tag1: string, tag2: string)
    requires a in rows && RowOk(a, rows[a]) && Counts(rows[a].props, n)
    ensures var copy := Incremented(Fetched(rows[a], w.codec));
      var one := TableUpdate(rows, Serialize(copy, w.codec), mode, tag1);
      && one.Ok?
      && var two := TableUpdate(one.value, Serialize(copy, w.codec), mode, tag2);
      two.Ok? && Counts(two.value[a].props, n + 1)
  {
    FetchedKeepsAddress(w, rows[a], a);
    assert "n" !in DATE_FIELDS;
    var sent := Serialize(Incremented(Fetched(rows[a], w.codec)), w.codec);
    assert Counts(sent, n + 1) && HasAddress(sent) && AddressOf(sent) == a;
  }

  /** While with guarded updates two committed increments make it go up by
      two, and so on. */
  lemma {:induction false} GuardedIncrementsAdd(w: World, log: seq<Change>, props: Dict, n: int)
    requires Counts(props, n) && forall i :: 0 <= i < |log| ==> log[i].edit == Incremented
    ensures Counts(Replay(w, log, props), n + |log|)
  {
    if log != [] {
      var k := |log| - 1;
      GuardedIncrementsAdd(w, log[..k], props, n);
      OneIncrement(w, log[k], Replay(w, log[..k], props), n + k);
    }
  }

  lemma OneIncrement(w: World, ch: Change, props: Dict, n: int)
    requires Counts(props, n) && ch.edit == Incremented
    ensures Counts(ApplyChange(w, ch, props), n + 1)
  {
    assert "n" !in DATE_FIELDS;
    assert Counts(View(w, props), n);
    assert Counts(WithoutEtag(Incremented(View(w, props))), n + 1);
  }
}
