/** What a depth-first cycle search finds when it stops a search without
    unwinding its path (shared/validators.py, detect_circular_dependencies).

    A name is troubled when it leads to a closed walk. A search follows, from
    name to name, the first troubled dependency that it comes to; the others
    it comes to before are finished and leave no trace. So a run is settled by
    the order of the fields and by `next`, which maps each troubled name to the
    dependency the search took from it: `Rounds` is the whole run, said without
    the search. The order in which a set is iterated matters only through
    `next`. */
module SearchTrail {
  import opened Graphs

  // ------------------------------------------- the dependencies followed

  type Choice = map<string, string>

  /** `next` takes each troubled name to a troubled dependency of its. */
  ghost predicate Chooses(g: Graph, next: Choice) {
    && (forall v {:trigger Troubled(g, v)} :: Troubled(g, v) <==> v in next)
    && (forall v {:trigger next[v]} :: v in next ==> Edge(g, v, next[v]) && next[v] in next)
  }

  ghost predicate Closed(next: Choice) {
    forall v {:trigger next[v]} :: v in next ==> next[v] in next
  }

  /** Following `next` does not leave these names. */
  ghost predicate Keeps(next: Choice, s: seq<string>) {
    Elements(s) <= next.Keys && forall v {:trigger next[v]} :: v in s ==> next[v] in s
  }

  /** The graph that is left when each name keeps only what it is mapped to. */
  function Only(next: Choice): Graph {
    map v | v in next :: {next[v]}
  }

  lemma {:induction false} NoDupFits(s: seq<string>, all: set<string>)
    requires NoDup(s) && Elements(s) <= all
    ensures |s| <= |all|
  {
    if s != [] {
      assert s[0] in Elements(s);
      assert forall i :: 0 < i < |s| ==> s[1..][i - 1] == s[i];
      NoDupFits(s[1..], all - {s[0]});
    }
  }

  function Orbit(next: Choice, v: string, steps: nat): (w: seq<string>)
    requires Closed(next) && v in next
    ensures |w| == steps + 1 && w[0] == v
    ensures forall i :: 0 <= i < |w| ==> w[i] in next
    ensures forall i :: 0 <= i < |w| - 1 ==> w[i + 1] == next[w[i]]
    decreases steps
  {
    if steps == 0 then [v]
    else
      var rest := Orbit(next, next[v], steps - 1);
      assert rest[0] == next[v];
      [v] + rest
  }

  /** Who can always go on comes back. */
  lemma ClosedIsTroubled(g: Graph, next: Choice, v: string)
    requires Closed(next) && v in next
    requires forall x :: x in next ==> Edge(g, x, next[x])
    ensures Troubled(g, v)
  {
    var w := Orbit(next, v, |next.Keys|);
    if NoDup(w) {
      NoDupFits(w, next.Keys);
    }
  }

  lemma OneLessToFollow(next: Choice, path: seq<string>, node: string)
    requires node in next && node !in path
    ensures next.Keys - Elements(path + [node]) < next.Keys - Elements(path)
  {
    assert Elements(path + [node]) == Elements(path) + {node};
    assert node in next.Keys - Elements(path);
  }

  /** The path when a search from `node` is put on top of `path`: it goes on
      until it meets the path. */
  function Follow(next: Choice, path: seq<string>, node: string): (r: seq<string>)
    ensures path <= r
    ensures node in next && node !in path ==> path + [node] <= r
    decreases next.Keys - Elements(path)
  {
    if node !in next || node in path then path
    else
      OneLessToFollow(next, path, node);
      Follow(next, path + [node], next[node])
  }

  ghost predicate TrailOk(next: Choice, path: seq<string>) {
    NoDup(path) && Keeps(next, path)
  }

  /** One search on top of `before`: each name added is mapped to the one
      after it, the last to a name on the path. */
  ghost predicate Searched(next: Choice, before: seq<string>, node: string, path: seq<string>) {
    && |before| < |path| && path[..|before|] == before && path[|before|] == node
    && NoDup(path)
    && (forall i :: |before| <= i < |path| ==> path[i] in next)
    && (forall i :: |before| < i < |path| ==> path[i] == next[path[i - 1]])
    && OnPath(next, path)
  }

  lemma {:induction false} FollowIsSearch(next: Choice, path: seq<string>, node: string)
    requires Closed(next) && node in next && node !in path && NoDup(path)
    ensures Searched(next, path, node, Follow(next, path, node))
    decreases next.Keys - Elements(path)
  {
    OneLessToFollow(next, path, node);
    var longer := path + [node];
    var r := Follow(next, longer, next[node]);
    if next[node] !in longer {
      FollowIsSearch(next, longer, next[node]);
      assert r[..|path|] == r[..|longer|][..|path|] == path;
      assert r[|path|] == r[..|longer|][|path|] == node;
    } else {
      assert r == longer;
    }
  }

  lemma SearchIsOk(next: Choice, before: seq<string>, node: string, path: seq<string>)
    requires TrailOk(next, before) && Searched(next, before, node, path)
    ensures TrailOk(next, path)
  {
    assert path == before + path[|before|..];
    forall v | v in path ensures v in next && next[v] in path {
      if v !in before {
        var i :| |before| <= i < |path| && path[i] == v;
        if i + 1 < |path| {
          assert path[i + 1] == next[path[i + 1 - 1]];
        }
      } else {
        assert v in Elements(before);
      }
    }
  }

  /** A search adds nothing but what its start leads to. */
  lemma SearchIsLed(next: Choice, before: seq<string>, node: string, path: seq<string>, i: nat)
    requires Searched(next, before, node, path) && |before| <= i < |path|
    ensures Leads(Only(next), node, path[i])
  {
    var w := path[|before|..i + 1];
    forall k | 0 <= k < |w| - 1 ensures Edge(Only(next), w[k], w[k + 1]) {
      assert path[|before| + k + 1] == next[path[|before| + k + 1 - 1]];
    }
    assert IsWalkFromTo(Only(next), node, path[i], w);
  }

  /** What is closed under `next` is not left by following it. */
  lemma {:induction false} StaysIn(next: Choice, s: seq<string>, w: seq<string>)
    requires Walk(Only(next), w) && w != [] && w[0] in s
    requires Keeps(next, s)
    ensures w[|w| - 1] in s
  {
    if |w| > 1 {
      assert Edge(Only(next), w[0], w[1]);
      forall i | 0 <= i < |w| - 2 ensures Edge(Only(next), w[1..][i], w[1..][i + 1]) {
        assert Edge(Only(next), w[i + 1], w[i + 1 + 1]);
      }
      StaysIn(next, s, w[1..]);
    }
  }

  lemma StaysInAll(next: Choice, s: seq<string>, a: string, x: string)
    requires Keeps(next, s) && a in s && Leads(Only(next), a, x)
    ensures x in s
  {
    var w :| IsWalkFromTo(Only(next), a, x, w);
    StaysIn(next, s, w);
  }

  // ---------------------------------------------------------- whole runs

  /** The path at the end, where in it each search began, and the messages:
      each is a piece of the path closed up by the name it starts with. */
  datatype Trail = Trail(path: seq<string>, starts: seq<nat>, messages: seq<seq<string>>)

  /** The message when the last name on the path refers to `hit`. */
  function Message(path: seq<string>, hit: string): seq<string>
    requires hit in path
  {
    path[FirstIndex(path, hit)..] + [hit]
  }

  predicate OnPath(next: Choice, path: seq<string>) {
    path != [] && path[|path| - 1] in next && next[path[|path| - 1]] in path
  }

  /** The name the last one on the path refers to. */
  function Hit(next: Choice, path: seq<string>): string
    requires OnPath(next, path)
  {
    next[path[|path| - 1]]
  }

  function Reported(next: Choice, t: Trail, path: seq<string>): Trail
    requires OnPath(next, path)
  {
    Trail(path, t.starts + [|t.path|], t.messages + [Message(path, Hit(next, path))])
  }

  /** One round of the loop over the fields. A field without trouble, and one
      already on the path, changes nothing. */
  function Round(next: Choice, t: Trail, name: string): Trail {
    if name !in next || name in t.path || !OnPath(next, Follow(next, t.path, name)) then t
    else Reported(next, t, Follow(next, t.path, name))
  }

  function Rounds(next: Choice, names: seq<string>): Trail {
    if names == [] then Trail([], [], [])
    else Round(next, Rounds(next, names[..|names| - 1]), names[|names| - 1])
  }

  lemma {:induction false} RoundsOk(next: Choice, names: seq<string>)
    requires Closed(next)
    ensures TrailOk(next, Rounds(next, names).path)
  {
    if names != [] {
      var n := |names| - 1;
      RoundsOk(next, names[..n]);
      var path := Rounds(next, names[..n]).path;
      if names[n] in next && names[n] !in path {
        FollowIsSearch(next, path, names[n]);
        SearchIsOk(next, path, names[n], Follow(next, path, names[n]));
      }
    }
  }

  /** A search adds to the path what its name leads to. */
  lemma SearchAdds(next: Choice, before: seq<string>, node: string, path: seq<string>, x: string)
    requires TrailOk(next, before) && Searched(next, before, node, path)
    ensures x in path <==> x in before || Leads(Only(next), node, x)
  {
    assert path == before + path[|before|..];
    if x in path && x !in before {
      var i :| 0 <= i < |path| && path[i] == x;
      SearchIsLed(next, before, node, path, i);
    }
    if Leads(Only(next), node, x) {
      SearchIsOk(next, before, node, path);
      StaysInAll(next, path, node, x);
    }
  }

  lemma RoundAdds(next: Choice, t: Trail, name: string, x: string)
    requires Closed(next) && TrailOk(next, t.path)
    ensures x in Round(next, t, name).path <==> x in t.path || Leads(Only(next), name, x)
  {
    if name in t.path {
      if Leads(Only(next), name, x) {
        StaysInAll(next, t.path, name, x);
      }
    } else if name in next {
      FollowIsSearch(next, t.path, name);
      SearchAdds(next, t.path, name, Follow(next, t.path, name), x);
    }
  }

  ghost predicate AnyLeads(g: Graph, names: seq<string>, x: string) {
    exists j :: 0 <= j < |names| && Leads(g, names[j], x)
  }

  lemma AnyLeadsPrefix(g: Graph, names: seq<string>, x: string)
    requires names != []
    ensures AnyLeads(g, names, x) <==> AnyLeads(g, names[..|names| - 1], x) || Leads(g, names[|names| - 1], x)
  {
    var n := |names| - 1;
    assert forall j :: 0 <= j < n ==> names[..n][j] == names[j];
  }

  /** The path holds what the names so far lead to. */
  lemma {:induction false} PathIsWhatNamesLeadTo(next: Choice, names: seq<string>, x: string)
    requires Closed(next)
    ensures x in Rounds(next, names).path <==> AnyLeads(Only(next), names, x)
  {
    if names != [] {
      var n := |names| - 1;
      RoundsOk(next, names[..n]);
      PathIsWhatNamesLeadTo(next, names[..n], x);
      RoundAdds(next, Rounds(next, names[..n]), names[n], x);
      AnyLeadsPrefix(Only(next), names, x);
    }
  }

  // ----------------------------------------------- which messages are cycles

  /** A round of a troubled name that is not on the path yet. */
  lemma RoundIsSearch(next: Choice, t: Trail, name: string)
    requires Closed(next) && TrailOk(next, t.path) && name in next && name !in t.path
    ensures var path := Follow(next, t.path, name);
      && Searched(next, t.path, name, path)
      && Round(next, t, name) == Reported(next, t, path)
  {
    FollowIsSearch(next, t.path, name);
  }

  /** A message follows `next` all the way round exactly when its search has
      not run into what earlier searches left on the path. */
  lemma OwnMessageIff(next: Choice, before: seq<string>, node: string, path: seq<string>)
    requires TrailOk(next, before) && Searched(next, before, node, path)
    ensures ClosedWalk(Only(next), Message(path, Hit(next, path))) <==> Hit(next, path) !in before
  {
    var hit := Hit(next, path);
    var from := FirstIndex(path, hit);
    var m := Message(path, hit);
    assert forall i :: 0 <= i < |m| - 1 ==> m[i] == path[from + i];
    if from >= |before| {
      assert path[..from][..|before|] == before;
      assert hit !in before;
      forall i | 0 <= i < |m| - 1 ensures Edge(Only(next), m[i], m[i + 1]) {
        if i + 1 < |m| - 1 {
          assert path[from + i + 1] == next[path[from + i + 1 - 1]];
        }
      }
    } else {
      var seam := |before| - 1;
      assert path[..|before|][seam] == path[seam] && path[..|before|][from] == path[from];
      assert m[seam - from] == before[seam] && m[seam - from + 1] == node;
      assert node !in before;
      assert !Edge(Only(next), m[seam - from], m[seam - from + 1]);
    }
  }

  /** A search runs into the path exactly when its start leads there. */
  lemma RunsIntoPathIff(next: Choice, before: seq<string>, node: string, path: seq<string>)
    requires TrailOk(next, before) && Searched(next, before, node, path)
    ensures Hit(next, path) in before <==> exists x :: x in before && Leads(Only(next), node, x)
  {
    var last := path[|path| - 1];
    if next[last] in before {
      SearchIsLed(next, before, node, path, |path| - 1);
      assert next[last] in Elements(before);
      LeadsOn(Only(next), node, last, next[last]);
    } else {
      var own := path[|before|..];
      OwnPartIsKept(next, before, node, path);
      assert own[0] == node;
      forall x | Leads(Only(next), node, x) ensures x !in before {
        StaysInAll(next, own, node, x);
        PartsAreApart(path, |before|, x);
      }
    }
  }

  lemma LeadsOn(g: Graph, a: string, b: string, c: string)
    requires Leads(g, a, b) && Edge(g, b, c)
    ensures Leads(g, a, c)
  {
    var w :| IsWalkFromTo(g, a, b, w);
    assert IsWalkFromTo(g, a, c, w + [c]);
  }

  lemma PartsAreApart(path: seq<string>, at: nat, x: string)
    requires NoDup(path) && at <= |path| && x in path[at..]
    ensures x !in path[..at]
  {
  }

  lemma OwnPartIsKept(next: Choice, before: seq<string>, node: string, path: seq<string>)
    requires Searched(next, before, node, path) && Hit(next, path) !in before
    ensures Keeps(next, path[|before|..])
  {
    var own := path[|before|..];
    forall v | v in own ensures v in next && next[v] in own {
      var i :| 0 <= i < |own| && own[i] == v;
      assert v == path[|before| + i];
      if i < |own| - 1 {
        assert own[i + 1] == path[|before| + i + 1] == next[path[|before| + i + 1 - 1]];
      } else {
        assert path == before + own;
      }
    }
  }

  /** Both lead into the same trouble. */
  ghost predicate Meet(g: Graph, a: string, b: string) {
    exists x :: Troubled(g, x) && Leads(g, a, x) && Leads(g, b, x)
  }

  ghost predicate MeetsAny(g: Graph, names: seq<string>, name: string) {
    exists j :: 0 <= j < |names| && Meet(g, names[j], name)
  }

  ghost predicate ApartFrom(g: Graph, earlier: seq<string>, name: string) {
    MeetsAny(g, earlier, name) ==> AnyLeads(g, earlier, name)
  }

  /** A name that leads into the trouble of a name further up is itself led to
      by a name further up. */
  ghost predicate Apart(g: Graph, names: seq<string>) {
    forall i :: 0 <= i < |names| ==> ApartFrom(g, names[..i], names[i])
  }

  ghost predicate AllClosed(g: Graph, messages: seq<seq<string>>) {
    forall k :: 0 <= k < |messages| ==> ClosedWalk(g, messages[k])
  }

  lemma OnlyIsTroubled(next: Choice, x: string)
    requires Closed(next)
    ensures Troubled(Only(next), x) <==> x in next
  {
    if x in next {
      ClosedIsTroubled(Only(next), next, x);
    } else {
      forall w | Walk(Only(next), w) && w != [] && w[0] == x ensures NoDup(w) {
        WalkBegins(Only(next), w);
      }
    }
  }

  lemma LedIsTroubled(next: Choice, a: string, x: string)
    requires Closed(next) && Leads(Only(next), a, x)
    ensures a in next && Troubled(Only(next), x)
  {
    var w :| IsWalkFromTo(Only(next), a, x, w);
    if |w| > 1 {
      assert Edge(Only(next), w[|w| - 2], w[|w| - 2 + 1]);
    }
    OnlyIsTroubled(next, x);
  }

  /** What a search starting at a name meets on the path. */
  lemma MeetsEarlierIff(next: Choice, names: seq<string>, name: string)
    requires Closed(next)
    ensures (exists x :: x in Rounds(next, names).path && Leads(Only(next), name, x)) <==>
      MeetsAny(Only(next), names, name)
  {
    var g := Only(next);
    if x :| x in Rounds(next, names).path && Leads(g, name, x) {
      PathIsWhatNamesLeadTo(next, names, x);
      var j :| 0 <= j < |names| && Leads(g, names[j], x);
      LedIsTroubled(next, name, x);
      assert Meet(g, names[j], name);
    }
    if j :| 0 <= j < |names| && Meet(g, names[j], name) {
      var x :| Troubled(g, x) && Leads(g, names[j], x) && Leads(g, name, x);
      PathIsWhatNamesLeadTo(next, names, x);
    }
  }

  lemma OneMoreClosed(g: Graph, messages: seq<seq<string>>, m: seq<string>)
    ensures AllClosed(g, messages + [m]) <==> AllClosed(g, messages) && ClosedWalk(g, m)
  {
    var all := messages + [m];
    assert forall k :: 0 <= k < |messages| ==> all[k] == messages[k];
    assert all[|messages|] == m;
  }

  /** Whether one more round leaves all messages closed. */
  lemma RoundIsClosedIff(next: Choice, names: seq<string>, name: string)
    requires Closed(next)
    ensures var t := Rounds(next, names);
      AllClosed(Only(next), Round(next, t, name).messages) <==>
        && AllClosed(Only(next), t.messages)
        && (name !in t.path ==> !MeetsAny(Only(next), names, name))
  {
    var g, t := Only(next), Rounds(next, names);
    MeetsEarlierIff(next, names, name);
    RoundsOk(next, names);
    if name in next && name !in t.path {
      var path := Follow(next, t.path, name);
      FollowIsSearch(next, t.path, name);
      OwnMessageIff(next, t.path, name, path);
      RunsIntoPathIff(next, t.path, name, path);
      OneMoreClosed(g, t.messages, Message(path, Hit(next, path)));
    }
  }

  lemma ApartPrefix(g: Graph, names: seq<string>)
    requires names != []
    ensures var n := |names| - 1; Apart(g, names) <==> Apart(g, names[..n]) && ApartFrom(g, names[..n], names[n])
  {
    var n := |names| - 1;
    forall i | 0 <= i < n ensures names[..n][..i] == names[..i] && names[..n][i] == names[i] {
    }
  }

  lemma {:induction false} FollowedMessagesAreCyclesIff(next: Choice, names: seq<string>)
    requires Closed(next)
    ensures AllClosed(Only(next), Rounds(next, names).messages) <==> Apart(Only(next), names)
  {
    if names != [] {
      var n := |names| - 1;
      FollowedMessagesAreCyclesIff(next, names[..n]);
      RoundIsClosedIff(next, names[..n], names[n]);
      ApartPrefix(Only(next), names);
      PathIsWhatNamesLeadTo(next, names[..n], names[n]);
    }
  }

  // ------------------------------------------------ in terms of the graph

  lemma OnlyIsPart(g: Graph, next: Choice, w: seq<string>)
    requires Chooses(g, next) && Walk(Only(next), w)
    ensures Walk(g, w)
  {
    forall i | 0 <= i < |w| - 1 ensures Edge(g, w[i], w[i + 1]) {
      assert Edge(Only(next), w[i], w[i + 1]);
      assert w[i + 1] == next[w[i]];
    }
  }

  /** On every graph: if the names are apart along the dependencies that were
      followed, every message names a cycle. */
  lemma MessagesAreCycles(g: Graph, next: Choice, names: seq<string>)
    requires Chooses(g, next) && Apart(Only(next), names)
    ensures AllClosed(g, Rounds(next, names).messages)
  {
    FollowedMessagesAreCyclesIff(next, names);
    forall m | m in Rounds(next, names).messages ensures ClosedWalk(g, m) {
      OnlyIsPart(g, next, m);
    }
  }

  /** That holds in whatever order dependencies are visited. */
  ghost predicate ApartHoweverSearched(g: Graph, names: seq<string>) {
    forall next :: Chooses(g, next) ==> Apart(Only(next), names)
  }

  /** No name has two troubled dependencies. */
  ghost predicate OneWayOut(g: Graph) {
    forall v, a, b :: Edge(g, v, a) && Edge(g, v, b) && Troubled(g, a) && Troubled(g, b) ==> a == b
  }

  /** Then every walk into trouble follows `next`. */
  lemma WalkIsFollowed(g: Graph, next: Choice, w: seq<string>)
    requires Chooses(g, next) && OneWayOut(g)
    requires Walk(g, w) && w != [] && Troubled(g, w[|w| - 1])
    ensures Walk(Only(next), w) && w[0] in next
  {
    TroubleAlongWalk(g, w, 0);
    forall i | 0 <= i < |w| - 1 ensures Edge(Only(next), w[i], w[i + 1]) {
      TroubleAlongWalk(g, w, i);
      TroubleAlongWalk(g, w, i + 1);
      assert Edge(g, w[i], w[i + 1]) && Edge(g, w[i], next[w[i]]);
    }
  }

  lemma ClosedWalkIff(g: Graph, next: Choice, w: seq<string>)
    requires Chooses(g, next) && OneWayOut(g)
    ensures ClosedWalk(g, w) <==> ClosedWalk(Only(next), w)
  {
    if ClosedWalk(g, w) {
      ClosedWalkIsTrouble(g, w, |w| - 1);
      WalkIsFollowed(g, next, w);
    }
    if ClosedWalk(Only(next), w) {
      OnlyIsPart(g, next, w);
    }
  }

  lemma LeadsIff(g: Graph, next: Choice, a: string, x: string)
    requires Chooses(g, next) && OneWayOut(g) && Troubled(g, x)
    ensures Leads(g, a, x) <==> Leads(Only(next), a, x)
  {
    if Leads(g, a, x) {
      var w :| IsWalkFromTo(g, a, x, w);
      WalkIsFollowed(g, next, w);
      assert IsWalkFromTo(Only(next), a, x, w);
    }
    if Leads(Only(next), a, x) {
      var w :| IsWalkFromTo(Only(next), a, x, w);
      OnlyIsPart(g, next, w);
      assert IsWalkFromTo(g, a, x, w);
    }
  }

  lemma MeetIff(g: Graph, next: Choice, a: string, b: string)
    requires Chooses(g, next) && OneWayOut(g)
    ensures Meet(g, a, b) <==> Meet(Only(next), a, b)
    ensures Meet(g, a, b) ==> Troubled(g, b)
  {
    if x :| Troubled(g, x) && Leads(g, a, x) && Leads(g, b, x) {
      LeadsIff(g, next, a, x);
      LeadsIff(g, next, b, x);
      OnlyIsTroubled(next, x);
      assert Meet(Only(next), a, b);
    }
    if x :| Troubled(Only(next), x) && Leads(Only(next), a, x) && Leads(Only(next), b, x) {
      OnlyIsTroubled(next, x);
      LeadsIff(g, next, a, x);
      LeadsIff(g, next, b, x);
      assert Meet(g, a, b);
    }
  }

  lemma MeetsAnyIff(g: Graph, next: Choice, earlier: seq<string>, name: string)
    requires Chooses(g, next) && OneWayOut(g)
    ensures MeetsAny(g, earlier, name) <==> MeetsAny(Only(next), earlier, name)
    ensures MeetsAny(g, earlier, name) ==> Troubled(g, name)
  {
    forall j | 0 <= j < |earlier|
      ensures Meet(g, earlier[j], name) <==> Meet(Only(next), earlier[j], name)
      ensures Meet(g, earlier[j], name) ==> Troubled(g, name)
    {
      MeetIff(g, next, earlier[j], name);
    }
  }

  lemma AnyLeadsIff(g: Graph, next: Choice, earlier: seq<string>, name: string)
    requires Chooses(g, next) && OneWayOut(g) && Troubled(g, name)
    ensures AnyLeads(g, earlier, name) <==> AnyLeads(Only(next), earlier, name)
  {
    forall h | 0 <= h < |earlier| ensures Leads(g, earlier[h], name) <==> Leads(Only(next), earlier[h], name) {
      LeadsIff(g, next, earlier[h], name);
    }
  }

  lemma ApartFromIff(g: Graph, next: Choice, earlier: seq<string>, name: string)
    requires Chooses(g, next) && OneWayOut(g)
    ensures ApartFrom(g, earlier, name) <==> ApartFrom(Only(next), earlier, name)
  {
    MeetsAnyIff(g, next, earlier, name);
    if MeetsAny(g, earlier, name) {
      AnyLeadsIff(g, next, earlier, name);
    }
  }

  lemma ApartIff(g: Graph, next: Choice, names: seq<string>)
    requires Chooses(g, next) && OneWayOut(g)
    ensures Apart(g, names) <==> Apart(Only(next), names)
  {
    forall i | 0 <= i < |names|
      ensures ApartFrom(g, names[..i], names[i]) <==> ApartFrom(Only(next), names[..i], names[i])
    {
      ApartFromIff(g, next, names[..i], names[i]);
    }
  }

  /** When no name has two troubled dependencies, every message names a cycle
      exactly when each name that leads into the trouble of a name further up
      is itself led to by a name further up. */
  lemma MessagesAreCyclesIff(g: Graph, next: Choice, names: seq<string>)
    requires Chooses(g, next) && OneWayOut(g)
    ensures AllClosed(g, Rounds(next, names).messages) <==> Apart(g, names)
  {
    var messages := Rounds(next, names).messages;
    forall k | 0 <= k < |messages| ensures ClosedWalk(g, messages[k]) <==> ClosedWalk(Only(next), messages[k]) {
      ClosedWalkIff(g, next, messages[k]);
    }
    ApartIff(g, next, names);
    FollowedMessagesAreCyclesIff(next, names);
  }

  // ------------------------------------------------ one message at a time

  /** Where the search of the k-th message ended. */
  function EndOf(t: Trail, k: nat): nat
    requires k < |t.starts|
  {
    if k + 1 < |t.starts| then t.starts[k + 1] else |t.path|
  }

  ghost predicate IsPiece(next: Choice, path: seq<string>, m: seq<string>, from: nat, to: nat) {
    && from < to <= |path|
    && m == path[from..to] + [path[from]]
    && path[to - 1] in next && next[path[to - 1]] == path[from]
  }

  ghost predicate IsSeamOrStep(next: Choice, t: Trail, i: nat)
    requires 0 < i < |t.path|
  {
    i in t.starts || (t.path[i - 1] in next && t.path[i] == next[t.path[i - 1]])
  }

  ghost predicate HasPiece(next: Choice, t: Trail, k: nat)
    requires k < |t.messages| && |t.starts| == |t.messages|
  {
    exists from: nat :: IsPiece(next, t.path, t.messages[k], from, EndOf(t, k))
  }

  /** The path steps along `next` except where a search begins, and each
      message is a piece of it that ends where its search ended. */
  ghost predicate Shaped(next: Choice, t: Trail) {
    && |t.starts| == |t.messages|
    && (forall k :: 0 <= k < |t.starts| ==> t.starts[k] < |t.path|)
    && (forall i :: 0 < i < |t.path| ==> IsSeamOrStep(next, t, i))
    && (forall k :: 0 <= k < |t.messages| ==> HasPiece(next, t, k))
  }

  lemma LongerPath(next: Choice, path: seq<string>, path': seq<string>, m: seq<string>, from: nat, to: nat)
    requires path <= path' && IsPiece(next, path, m, from, to)
    ensures IsPiece(next, path', m, from, to)
  {
    assert path'[from..to] == path[from..to];
  }

  lemma LongerIsShaped(next: Choice, t: Trail, name: string, path: seq<string>)
    requires Shaped(next, t) && Searched(next, t.path, name, path)
    ensures Shaped(next, Reported(next, t, path))
  {
    var t' := Reported(next, t, path);
    forall k | 0 <= k < |t'.messages| ensures HasPiece(next, t', k) {
      if k < |t.messages| {
        assert HasPiece(next, t, k);
        var from: nat :| IsPiece(next, t.path, t.messages[k], from, EndOf(t, k));
        assert t.path <= path;
        LongerPath(next, t.path, path, t.messages[k], from, EndOf(t, k));
        assert IsPiece(next, t'.path, t'.messages[k], from, EndOf(t', k));
      } else {
        var from: nat := FirstIndex(path, Hit(next, path));
        assert IsPiece(next, t'.path, t'.messages[k], from, EndOf(t', k));
      }
    }
    forall i | 0 < i < |path| ensures IsSeamOrStep(next, t', i) {
      if i < |t.path| {
        assert IsSeamOrStep(next, t, i);
        assert t.path == path[..|t.path|];
        if i in t.starts {
          var k :| 0 <= k < |t.starts| && t.starts[k] == i;
          assert t'.starts[k] == i;
        }
      } else if i == |t.path| {
        assert t'.starts[|t.starts|] == i;
      }
    }
  }

  lemma RoundIsShaped(next: Choice, t: Trail, name: string)
    requires Closed(next) && TrailOk(next, t.path) && Shaped(next, t)
    ensures Shaped(next, Round(next, t, name))
  {
    if name in next && name !in t.path {
      RoundIsSearch(next, t, name);
      LongerIsShaped(next, t, name, Follow(next, t.path, name));
    }
  }

  lemma {:induction false} RoundsShaped(next: Choice, names: seq<string>)
    requires Closed(next)
    ensures Shaped(next, Rounds(next, names))
  {
    if names != [] {
      var n := |names| - 1;
      RoundsShaped(next, names[..n]);
      RoundsOk(next, names[..n]);
      RoundIsShaped(next, Rounds(next, names[..n]), names[n]);
    }
  }

  ghost predicate SeamsAreEdges(g: Graph, t: Trail, from: nat, to: nat) {
    forall i :: i in t.starts && from < i < to <= |t.path| ==> Edge(g, t.path[i - 1], t.path[i])
  }

  lemma PieceIsCycleIff(g: Graph, next: Choice, t: Trail, m: seq<string>, from: nat, to: nat)
    requires Chooses(g, next) && Shaped(next, t) && IsPiece(next, t.path, m, from, to)
    ensures ClosedWalk(g, m) <==> SeamsAreEdges(g, t, from, to)
  {
    assert forall i :: 0 <= i < |m| - 1 ==> m[i] == t.path[from + i];
    if ClosedWalk(g, m) {
      forall i | i in t.starts && from < i < to ensures Edge(g, t.path[i - 1], t.path[i]) {
        assert Edge(g, m[i - 1 - from], m[i - 1 - from + 1]);
      }
    } else {
      var i :| 0 <= i < |m| - 1 && !Edge(g, m[i], m[i + 1]);
      if i + 1 < |m| - 1 {
        assert IsSeamOrStep(next, t, from + i + 1);
        assert !Edge(g, t.path[from + i + 1 - 1], t.path[from + i + 1]);
      }
    }
  }

  /** On every graph, message by message: it names a cycle exactly when,
      wherever it crosses the start of a search, the name before refers to the
      name that search started from. */
  lemma MessageIsCycleIff(g: Graph, next: Choice, names: seq<string>, k: nat)
    requires Chooses(g, next) && k < |Rounds(next, names).messages|
    ensures var t := Rounds(next, names);
      && |t.starts| == |t.messages|
      && exists from: nat ::
           && IsPiece(next, t.path, t.messages[k], from, EndOf(t, k))
           && (ClosedWalk(g, t.messages[k]) <==> SeamsAreEdges(g, t, from, EndOf(t, k)))
  {
    var t := Rounds(next, names);
    RoundsShaped(next, names);
    assert HasPiece(next, t, k);
    var from: nat :| IsPiece(next, t.path, t.messages[k], from, EndOf(t, k));
    PieceIsCycleIff(g, next, t, t.messages[k], from, EndOf(t, k));
  }

  ghost predicate EndsByEdge(g: Graph, m: seq<string>) {
    |m| >= 2 && m[0] == m[|m| - 1] && Edge(g, m[|m| - 2], m[|m| - 1])
  }

  /** Every message ends where it begins, by an edge. */
  ghost predicate AllEndByEdge(g: Graph, messages: seq<seq<string>>) {
    forall k :: 0 <= k < |messages| ==> EndsByEdge(g, messages[k])
  }

  lemma MessagesEnd(g: Graph, next: Choice, names: seq<string>)
    requires Chooses(g, next)
    ensures AllEndByEdge(g, Rounds(next, names).messages)
  {
    var t := Rounds(next, names);
    RoundsShaped(next, names);
    forall k | 0 <= k < |t.messages| ensures EndsByEdge(g, t.messages[k]) {
      assert HasPiece(next, t, k);
      var from: nat :| IsPiece(next, t.path, t.messages[k], from, EndOf(t, k));
    }
  }

  // ------------------------------------------------- while a search runs

  /** What is already on the path need not be mapped yet. */
  lemma {:induction false} FollowIgnores(next: Choice, path: seq<string>, node: string, x: string, y: string)
    requires x in path
    ensures Follow(next[x := y], path, node) == Follow(next, path, node)
    decreases next.Keys - Elements(path)
  {
    if node in next && node !in path {
      OneLessToFollow(next, path, node);
      FollowIgnores(next, path + [node], next[node], x, y);
    }
  }

  ghost predicate Extends(next: Choice, next': Choice) {
    next.Keys <= next'.Keys && forall v {:trigger next[v]} :: v in next ==> next'[v] == next[v]
  }

  lemma ExtendsTrans(a: Choice, b: Choice, c: Choice)
    requires Extends(a, b) && Extends(b, c)
    ensures Extends(a, c)
  {
    forall v | v in a ensures c[v] == a[v] {
      assert b[v] == a[v];
    }
  }

  lemma {:induction false} FollowGrows(next: Choice, next': Choice, path: seq<string>, node: string)
    requires Closed(next) && Extends(next, next') && node in next
    ensures Follow(next', path, node) == Follow(next, path, node)
    decreases next.Keys - Elements(path)
  {
    if node !in path {
      OneLessToFollow(next, path, node);
      FollowGrows(next, next', path + [node], next[node]);
    }
  }

  /** Rounds that are over stay as they were when more names are mapped. */
  lemma {:induction false} RoundsGrow(next: Choice, next': Choice, names: seq<string>)
    requires Closed(next) && Extends(next, next')
    requires forall i :: 0 <= i < |names| ==> names[i] in next || names[i] !in next'
    ensures Rounds(next', names) == Rounds(next, names)
  {
    if names != [] {
      var n := |names| - 1;
      RoundsGrow(next, next', names[..n]);
      RoundsOk(next, names[..n]);
      RoundGrows(next, next', Rounds(next, names[..n]), names[n]);
    }
  }

  lemma RoundGrows(next: Choice, next': Choice, t: Trail, name: string)
    requires Closed(next) && Extends(next, next') && TrailOk(next, t.path)
    requires name in next || name !in next'
    ensures Round(next', t, name) == Round(next, t, name)
  {
    if name in next && name !in t.path {
      FollowGrows(next, next', t.path, name);
      RoundIsSearch(next, t, name);
      var path := Follow(next, t.path, name);
      assert OnPath(next', path) && Hit(next', path) == Hit(next, path);
    }
  }

  lemma OneMoreRound(next: Choice, next': Choice, names: seq<string>, name: string)
    requires Closed(next) && Extends(next, next')
    requires forall x :: x in names ==> x in next || x !in next'
    ensures Rounds(next', names + [name]) == Round(next', Rounds(next, names), name)
  {
    RoundsGrow(next, next', names);
    assert (names + [name])[..|names|] == names;
  }

  /** There is a message exactly when some field leads to a closed walk, and
      the first message names one. */
  lemma {:induction false} FirstMessageIsCycle(next: Choice, names: seq<string>)
    requires Closed(next)
    ensures var t := Rounds(next, names);
      && (t.messages == [] <==> t.path == [])
      && (t.messages == [] <==> forall i :: 0 <= i < |names| ==> names[i] !in next)
      && (t.messages != [] ==> ClosedWalk(Only(next), t.messages[0]))
  {
    if names != [] {
      var n := |names| - 1;
      FirstMessageIsCycle(next, names[..n]);
      RoundsOk(next, names[..n]);
      var t := Rounds(next, names[..n]);
      assert forall i :: 0 <= i < n ==> names[..n][i] == names[i];
      if names[n] in next && names[n] !in t.path {
        var path := Follow(next, t.path, names[n]);
        FollowIsSearch(next, t.path, names[n]);
        OwnMessageIff(next, t.path, names[n], path);
      }
    }
  }
}
