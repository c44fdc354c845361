/** The form dependency checker (shared/validators.py).

    A form is a list of fields; a field's data-provider inputs name other
    fields, either directly or inside a JavaScript expression. The module
    holds the two checks the source makes on that reference graph: the
    depth-first cycle search, and the position check, which wants every
    referenced field to stand earlier in the form.

    `extract` stands for extract_field_references: any function from an
    expression to the finite set of names it mentions. Sets of names are
    iterated in an arbitrary order, as Python's are. */
module FormDependencies {
  import opened Wrappers
  import opened Graphs
  import opened SearchTrail

  // ---------------------------------------------------------------- data

  datatype InputMode = Static | FieldRef | Expression

  datatype InputConfig = InputConfig(mode: InputMode, fieldName: Option<string>, expression: Option<string>)

  /** `inputs` is dataProviderInputs, in dictionary order; absent and empty
      are both "no inputs" in the source. */
  datatype FormField = FormField(name: string, inputs: seq<(string, InputConfig)>)

  type Extractor = string -> set<string>

  datatype FieldError =
    | NonExistent(field: string, ref: string, param: string)
    | Forward(field: string, ref: string)

  /** The names one data-provider input refers to. */
  function InputRefs(cfg: InputConfig, extract: Extractor): set<string> {
    match cfg.mode
    case FieldRef => if Truthy(cfg.fieldName) then {cfg.fieldName.value} else {}
    case Expression => if Truthy(cfg.expression) then extract(cfg.expression.value) else {}
    case Static => {}
  }

  function FieldRefs(f: FormField, extract: Extractor): set<string> {
    set k, r | 0 <= k < |f.inputs| && r in InputRefs(f.inputs[k].1, extract) :: r
  }

  /** The same, said input by input: a field reference names its field if it
      names any, an expression those found in it unless it is empty. */
  ghost predicate RefersTo(cfg: InputConfig, extract: Extractor, r: string) {
    || (cfg.mode == FieldRef && cfg.fieldName == Some(r) && r != "")
    || (cfg.mode == Expression
       && cfg.expression.Some? && cfg.expression.value != "" && r in extract(cfg.expression.value))
  }

  ghost predicate FieldRefersTo(f: FormField, extract: Extractor, r: string) {
    exists k :: 0 <= k < |f.inputs| && RefersTo(f.inputs[k].1, extract, r)
  }

  lemma FieldRefsIff(f: FormField, extract: Extractor, r: string)
    ensures r in FieldRefs(f, extract) <==> FieldRefersTo(f, extract, r)
  {
    forall k | 0 <= k < |f.inputs|
      ensures r in InputRefs(f.inputs[k].1, extract) <==> RefersTo(f.inputs[k].1, extract, r)
    {
    }
  }

  function Names(fields: seq<FormField>): set<string> {
    set f | f in fields :: f.name
  }

  function NameList(fields: seq<FormField>): (names: seq<string>)
    ensures |names| == |fields| && forall i :: 0 <= i < |names| ==> names[i] == fields[i].name
  {
    if fields == [] then [] else [fields[0].name] + NameList(fields[1..])
  }

  lemma AllNamed(fields: seq<FormField>)
    ensures Elements(NameList(fields)) == Names(fields)
  {
    forall f | f in fields ensures f.name in NameList(fields) {
      var i :| 0 <= i < |fields| && fields[i] == f;
      assert NameList(fields)[i] == f.name;
    }
  }

  // --------------------------------------------------- build the graph

  /** The dependencies recorded under `name`: those of the last field of that
      name that has inputs, because a later field overwrites an earlier one
      but a field without inputs is skipped. */
  function DepsOf(fields: seq<FormField>, name: string, extract: Extractor): set<string> {
    if fields == [] then {}
    else
      var last := fields[|fields| - 1];
      if last.name == name && last.inputs != [] then FieldRefs(last, extract)
      else DepsOf(fields[..|fields| - 1], name, extract)
  }

  function GraphOf(fields: seq<FormField>, extract: Extractor): Graph {
    map n | n in Names(fields) :: DepsOf(fields, n, extract)
  }

  /** Each recorded dependency is a reference made by a field of that name. */
  lemma {:induction false} DepsComeFromAField(fields: seq<FormField>, name: string, extract: Extractor, r: string)
    requires r in DepsOf(fields, name, extract)
    ensures exists i :: 0 <= i < |fields| && fields[i].name == name && r in FieldRefs(fields[i], extract)
  {
    var n := |fields| - 1;
    if !(fields[n].name == name && fields[n].inputs != []) {
      DepsComeFromAField(fields[..n], name, extract, r);
      var i :| 0 <= i < n && fields[..n][i].name == name && r in FieldRefs(fields[..n][i], extract);
      assert fields[i].name == name;
    }
  }

  /** The field whose references count for `name`: the last one with inputs. */
  ghost predicate Decides(fields: seq<FormField>, i: nat, name: string) {
    && i < |fields| && fields[i].name == name && fields[i].inputs != []
    && forall j :: i < j < |fields| && fields[j].name == name ==> fields[j].inputs == []
  }

  lemma {:induction false} DepsOfIff(fields: seq<FormField>, name: string, extract: Extractor, r: string)
    ensures r in DepsOf(fields, name, extract) <==>
      exists i: nat :: Decides(fields, i, name) && FieldRefersTo(fields[i], extract, r)
  {
    if fields != [] {
      var n := |fields| - 1;
      if fields[n].name == name && fields[n].inputs != [] {
        assert Decides(fields, n, name);
        FieldRefsIff(fields[n], extract, r);
      } else {
        DepsOfIff(fields[..n], name, extract, r);
        assert forall j :: 0 <= j < n ==> fields[..n][j] == fields[j];
        forall i: nat ensures Decides(fields, i, name) <==> Decides(fields[..n], i, name) {
        }
        if r in DepsOf(fields, name, extract) {
          var i: nat :| Decides(fields[..n], i, name) && FieldRefersTo(fields[..n][i], extract, r);
          assert Decides(fields, i, name);
        }
        if i: nat :| Decides(fields, i, name) && FieldRefersTo(fields[i], extract, r) {
          assert Decides(fields[..n], i, name);
        }
      }
    }
  }

  /** Which edges the graph has, from the form itself: b is declared, and the
      last field named a that has inputs has one that refers to b. */
  lemma EdgeIff(fields: seq<FormField>, extract: Extractor, a: string, b: string)
    ensures Edge(GraphOf(fields, extract), a, b) <==>
      && (exists f :: f in fields && f.name == b)
      && exists i: nat :: Decides(fields, i, a) && FieldRefersTo(fields[i], extract, b)
  {
    DepsOfIff(fields, a, extract, b);
    if i: nat :| Decides(fields, i, a) {
      assert fields[i] in fields;
    }
  }

  method CollectReferences(f: FormField, extract: Extractor) returns (dependencies: set<string>)
    ensures dependencies == FieldRefs(f, extract)
  {
    dependencies := {};
    for k := 0 to |f.inputs|
      invariant dependencies == set m, r | 0 <= m < k && r in InputRefs(f.inputs[m].1, extract) :: r
    {
      dependencies := dependencies + InputRefs(f.inputs[k].1, extract);
    }
  }

  method BuildDependencyGraph(fields: seq<FormField>, extract: Extractor) returns (graph: Graph)
    ensures graph == GraphOf(fields, extract)
  {
    graph := map[];
    for i := 0 to |fields|
      invariant graph.Keys == Names(fields[..i])
      invariant forall n :: n in graph ==> graph[n] == {}
    {
      graph := graph[fields[i].name := {}];
      assert fields[..i + 1] == fields[..i] + [fields[i]];
    }
    assert fields[..|fields|] == fields;
    for i := 0 to |fields|
      invariant graph.Keys == Names(fields)
      invariant forall n :: n in graph ==> graph[n] == DepsOf(fields[..i], n, extract)
    {
      assert fields[..i + 1][..i] == fields[..i];
      if fields[i].inputs == [] {
        continue;
      }
      var dependencies := CollectReferences(fields[i], extract);
      graph := graph[fields[i].name := dependencies];
    }
    assert fields[..|fields|] == fields;
  }

  // -------------------------------------------------- the cycle search

  /** list.index */
  method IndexOf(s: seq<string>, x: string) returns (k: nat)
    requires x in s
    ensures k == FirstIndex(s, x)
  {
    k := 0;
    while s[k] != x
      invariant k < |s| && x !in s[..k]
      decreases |s| - k
    {
      k := k + 1;
    }
    FirstIndexIs(s, x, k);
  }

  lemma FirstIndexIs(s: seq<string>, x: string, k: nat)
    requires k < |s| && s[k] == x && x !in s[..k]
    ensures FirstIndex(s, x) == k
  {
    var j := FirstIndex(s, x);
    assert j >= k && k >= j;
  }

  ghost predicate Dealt(next: Choice, finished: seq<string>, names: seq<string>) {
    forall x :: x in names ==> x in next || x in finished
  }

  lemma DealtMore(next: Choice, finished: seq<string>, next': Choice, finished': seq<string>,
                  names: seq<string>, name: string)
    requires Closed(next) && Extends(next, next') && finished <= finished' && next'.Keys !! Elements(finished')
    requires Dealt(next, finished, names) && (name in next' || name in finished')
    ensures Dealt(next', finished', names + [name])
    ensures Rounds(next', names + [name]) == Round(next', Rounds(next, names), name)
  {
    forall x | x in finished ensures x in finished' && x !in next' {
      assert x in Elements(finished');
    }
    OneMoreRound(next, next', names, name);
  }

  /** The state that detect_circular_dependencies shares with its inner dfs.
      An error is kept as the list of names its message joins with arrows.

      dfs returns at once when it meets a cycle and then skips the two
      statements that take its node off recStack and currentPath. So the
      names of an unfinished search stay there, and later searches run on
      top of them. Three ghost fields tell what happened: `starts`, where in
      currentPath the unfinished searches began; `next`, which dependency each
      name was left by; `finished`, the order in which dfs calls came back
      without a cycle. */
  class CycleSearch {
    const graph: Graph
    var visited: set<string>
    var recStack: set<string>
    var currentPath: seq<string>
    var errors: seq<seq<string>>
    ghost var starts: seq<nat>
    ghost var next: Choice
    ghost var finished: seq<string>

    ghost predicate Valid()
      reads this
    {
      && NoDup(currentPath)
      && recStack == Elements(currentPath)
      && visited <= graph.Keys
      && visited == recStack + Elements(finished)
      && recStack !! Elements(finished)
      && DependenciesFirst(graph, finished)
      && next.Keys <= recStack
      && forall v {:trigger next[v]} :: v in next ==> Edge(graph, v, next[v]) && next[v] in recStack
    }

    /** The names whose search is still going on. */
    ghost function Pending(): set<string>
      reads this
    {
      recStack - next.Keys
    }

    /** Between two searches. */
    ghost predicate Quiet()
      reads this
    {
      Valid() && next.Keys == recStack
    }

    ghost function Contents(): Trail
      reads this
    {
      Trail(currentPath, starts, errors)
    }

    lemma NextIsClosed()
      requires Quiet()
      ensures Closed(next)
    {
    }

    /** When every name has been visited, `next` is defined where there is
      trouble, and leads on into it. */
    lemma NextChooses(names: seq<string>)
      requires Quiet() && DealtWith(names) && graph.Keys == Elements(names)
      ensures Chooses(graph, next)
    {
      forall v ensures Troubled(graph, v) <==> v in next {
        if v in next {
          ClosedIsTroubled(graph, next, v);
        } else if v in finished {
          DependenciesFirstIsUntroubled(graph, finished, v);
        } else {
          assert v !in names;
          if Troubled(graph, v) {
            TroubledIsDeclared(graph, v);
          }
        }
      }
    }

    constructor (g: Graph)
      ensures Quiet() && graph == g
      ensures visited == {} && Contents() == Trail([], [], []) && next == map[]
    {
      graph := g;
      visited, recStack, currentPath, errors := {}, {}, [], [];
      starts, next, finished := [], map[], [];
    }

    /** visited.add, rec_stack.add, current_path.append */
    method Enter(node: string)
      requires Valid()
      requires node in graph && node !in visited
      modifies this`visited, this`recStack, this`currentPath
      ensures Valid()
      ensures visited == old(visited) + {node}
      ensures currentPath == old(currentPath) + [node]
    {
      visited := visited + {node};
      recStack := recStack + {node};
      currentPath := currentPath + [node];
    }

    /** current_path.pop, rec_stack.remove */
    method Leave(node: string)
      requires Valid()
      requires currentPath != [] && currentPath[|currentPath| - 1] == node
      requires forall b :: Edge(graph, node, b) ==> b in finished
      requires node !in next && forall v {:trigger next[v]} :: v in next ==> next[v] != node
      modifies this`recStack, this`currentPath, this`finished
      ensures Valid()
      ensures currentPath == old(currentPath)[..|old(currentPath)| - 1]
      ensures finished == old(finished) + [node]
    {
      AppendFinished(graph, finished, node);
      currentPath := currentPath[..|currentPath| - 1];
      recStack := recStack - {node};
      finished := finished + [node];
    }

    /** The message for a neighbour that is still on the stack. */
    method Report(neighbor: string)
      requires Valid()
      requires neighbor in recStack
      modifies this`errors
      ensures errors == old(errors) + [Message(currentPath, neighbor)]
    {
      var start := IndexOf(currentPath, neighbor);
      var cycle := currentPath[start..] + [neighbor];
      errors := errors + [cycle];
    }

    /** An unfinished search from `node` on top of `path`: the path has grown as
        `next` says, which now maps what was added, and there is one message
        more. */
    ghost predicate Unfinished(node: string, path: seq<string>, errorsBefore: seq<seq<string>>)
      reads this
    {
      && node in next && currentPath == Follow(next, path, node)
      && OnPath(next, currentPath) && errors == errorsBefore + [Message(currentPath, Hit(next, currentPath))]
    }

    /** The search goes on from `node` to `neighbor` for good. */
    ghost method LeaveBy(node: string, neighbor: string)
      requires Valid() && node in recStack && node !in next && neighbor in recStack && Edge(graph, node, neighbor)
      modifies this`next
      ensures next == old(next)[node := neighbor]
      ensures Valid() && Extends(old(next), next) && Pending() == old(Pending()) - {node}
    {
      next := next[node := neighbor];
    }

    /** The search from `neighbor` is unfinished, so the one from `node` is. */
    ghost method Unwind(node: string, neighbor: string, path: seq<string>, errorsBefore: seq<seq<string>>)
      requires Valid() && Unfinished(neighbor, path + [node], errorsBefore)
      requires node in recStack && node !in path && node !in next && neighbor !in path + [node]
      requires Edge(graph, node, neighbor)
      modifies this`next
      ensures Valid() && Extends(old(next), next) && Pending() == old(Pending()) - {node}
      ensures Unfinished(node, path, errorsBefore)
    {
      StepOnPath(next, path, node, neighbor);
      LeaveBy(node, neighbor);
    }

    /** The search from `node` meets the path at `neighbor`. */
    method Close(node: string, neighbor: string, ghost path: seq<string>)
      requires Valid() && currentPath == path + [node] && node !in path
      requires node !in next && neighbor in recStack && Edge(graph, node, neighbor)
      modifies this`next, this`errors
      ensures Valid() && Extends(old(next), next) && Pending() == old(Pending()) - {node}
      ensures Unfinished(node, path, old(errors))
    {
      LeaveBy(node, neighbor);
      Report(neighbor);
      assert Follow(next, path + [node], neighbor) == path + [node];
    }

    /** If nothing is found, only `visited` and `finished` have changed. */
    method Dfs(node: string) returns (found: bool)
      requires Valid()
      requires node in graph && node !in visited
      modifies this`visited, this`recStack, this`currentPath, this`errors, this`next, this`finished
      ensures Valid()
      ensures old(visited) < visited && node in visited
      ensures old(finished) <= finished
      ensures !found ==> errors == old(errors) && currentPath == old(currentPath) && next == old(next)
      ensures !found ==> node in finished
      ensures found ==> Extends(old(next), next) && Pending() == old(Pending())
      ensures found ==> Unfinished(node, old(currentPath), old(errors))
      decreases graph.Keys - visited, 0
    {
      Enter(node);
      var todo := graph[node];
      while todo != {}
        invariant Valid() && todo <= graph[node]
        invariant currentPath == old(currentPath) + [node]
        invariant errors == old(errors) && next == old(next)
        invariant old(visited) + {node} <= visited && old(finished) <= finished
        invariant forall b :: Edge(graph, node, b) && b !in todo ==> b in finished
        decreases todo
      {
        var neighbor :| neighbor in todo;
        todo := todo - {neighbor};
        if neighbor !in graph {
          continue;
        }
        found := Visit(node, neighbor, old(currentPath));
        if found {
          return true;
        }
      }
      Leave(node);
      found := false;
    }

    /** What dfs does about one declared neighbour; `path` is the path without
        `node`. */
    method Visit(node: string, neighbor: string, ghost path: seq<string>) returns (found: bool)
      requires Valid()
      requires currentPath == path + [node] && node !in next && Edge(graph, node, neighbor)
      modifies this`visited, this`recStack, this`currentPath, this`errors, this`next, this`finished
      ensures Valid()
      ensures old(visited) <= visited
      ensures old(finished) <= finished
      ensures !found ==> errors == old(errors) && currentPath == old(currentPath) && next == old(next)
      ensures !found ==> neighbor in finished
      ensures found ==> Extends(old(next), next) && Pending() == old(Pending()) - {node}
      ensures found ==> Unfinished(node, path, old(errors))
      decreases graph.Keys - visited, 1
    {
      assert currentPath[|path|] == node && currentPath[..|path|] == path;
      if neighbor !in visited {
        found := Dfs(neighbor);
        if found {
          ghost var before := next;
          Unwind(node, neighbor, path, old(errors));
          ExtendsTrans(old(next), before, next);
        }
      } else if neighbor in recStack {
        Close(node, neighbor, path);
        found := true;
      } else {
        found := false;
      }
    }

    ghost predicate DealtWith(names: seq<string>)
      reads this
    {
      Dealt(next, finished, names) && Contents() == Rounds(next, names)
    }

    /** One round of the loop over the fields. */
    method SearchFrom(name: string)
      requires Quiet() && name in graph
      modifies this
      ensures Quiet()
      ensures name in next || name in finished
      ensures old(finished) <= finished && Extends(old(next), next)
      ensures Contents() == Round(next, old(Contents()), name)
    {
      if name !in visited {
        var found := Dfs(name);
        if found {
          assert forall x :: x in recStack && x !in next ==> x in old(Pending());
          starts := starts + [|old(currentPath)|];
        }
      }
    }

    /** The loop over the fields. */
    method SearchAll(names: seq<string>)
      requires Quiet() && DealtWith([])
      requires forall x :: x in names ==> x in graph
      modifies this
      ensures Quiet() && DealtWith(names)
    {
      for i := 0 to |names|
        invariant Quiet() && DealtWith(names[..i])
      {
        assert names[..i + 1] == names[..i] + [names[i]];
        ghost var before, finishedBefore := next, finished;
        NextIsClosed();
        SearchFrom(names[i]);
        DealtMore(before, finishedBefore, next, finished, names[..i], names[i]);
      }
      assert names[..|names|] == names;
    }
  }

  /** A search that goes on from `node` to `neighbor`. */
  lemma StepOnPath(next: Choice, path: seq<string>, node: string, neighbor: string)
    requires node !in path && node !in next && neighbor in next && neighbor !in path + [node]
    requires var r := Follow(next, path + [node], neighbor); NoDup(r) && OnPath(next, r)
    ensures var r := Follow(next, path + [node], neighbor);
      var next' := next[node := neighbor];
      Follow(next', path, node) == r && OnPath(next', r) && Hit(next', r) == Hit(next, r)
  {
    FollowIgnores(next, path + [node], neighbor, node, neighbor);
    var r := Follow(next, path + [node], neighbor);
    assert (path + [node])[|path|] == node;
    assert r[|path|] == node && r[|path| + 1] == neighbor;
  }

  lemma TroubledIsDeclared(g: Graph, v: string)
    requires Troubled(g, v)
    ensures v in g
  {
    var w :| Walk(g, w) && w != [] && w[0] == v && !NoDup(w);
    WalkBegins(g, w);
  }

  /** The source's own entry point. `next` is where the search went on from
      each troubled field; the messages are those of `Rounds`. None is given
      exactly when the graph, cut down to declared fields, has no closed walk;
      the first names one; when no field has two troubled dependencies, all
      do exactly when each field that leads into the trouble of a field further
      up is itself led to by a field further up; and on any form all do if that
      is so along every way the search could take. */
  method DetectCircularDependencies(fields: seq<FormField>, extract: Extractor)
    returns (errors: seq<seq<string>>, ghost next: Choice)
    ensures Chooses(GraphOf(fields, extract), next) && errors == Rounds(next, NameList(fields)).messages
    ensures errors == [] <==> Acyclic(GraphOf(fields, extract))
    ensures errors != [] ==> ClosedWalk(GraphOf(fields, extract), errors[0])
    ensures OneWayOut(GraphOf(fields, extract)) ==>
      (AllClosed(GraphOf(fields, extract), errors) <==> Apart(GraphOf(fields, extract), NameList(fields)))
    ensures ApartHoweverSearched(GraphOf(fields, extract), NameList(fields)) ==>
      AllClosed(GraphOf(fields, extract), errors)
    ensures AllEndByEdge(GraphOf(fields, extract), errors)
  {
    var g := BuildDependencyGraph(fields, extract);
    var search := new CycleSearch(g);
    AllNamed(fields);
    search.SearchAll(NameList(fields));
    errors, next := search.errors, search.next;
    search.NextChooses(NameList(fields));
    ResultFacts(g, next, NameList(fields));
  }

  lemma SilentIffAcyclic(g: Graph, next: Choice, names: seq<string>)
    requires Chooses(g, next) && g.Keys == Elements(names)
    ensures Rounds(next, names).messages == [] <==> Acyclic(g)
  {
    FirstMessageIsCycle(next, names);
    AcyclicIff(g);
    if i :| 0 <= i < |names| && names[i] in next {
      assert Troubled(g, names[i]);
    }
    if a :| Troubled(g, a) {
      TroubledIsDeclared(g, a);
    }
  }

  lemma ResultFacts(g: Graph, next: Choice, names: seq<string>)
    requires Chooses(g, next) && g.Keys == Elements(names)
    ensures var errors := Rounds(next, names).messages;
      && (errors == [] <==> Acyclic(g))
      && (errors != [] ==> ClosedWalk(g, errors[0]))
      && (OneWayOut(g) ==> (AllClosed(g, errors) <==> Apart(g, names)))
      && (ApartHoweverSearched(g, names) ==> AllClosed(g, errors))
      && AllEndByEdge(g, errors)
  {
    SilentIffAcyclic(g, next, names);
    FirstMessageIsCycle(next, names);
    if Rounds(next, names).messages != [] {
      OnlyIsPart(g, next, Rounds(next, names).messages[0]);
    }
    if OneWayOut(g) {
      MessagesAreCyclesIff(g, next, names);
    }
    if ApartHoweverSearched(g, names) {
      MessagesAreCycles(g, next, names);
    }
    MessagesEnd(g, next, names);
  }

  /** What is recorded under a name are the references of one field. */
  lemma {:induction false} DepsAreOneFields(fields: seq<FormField>, name: string, extract: Extractor)
    ensures DepsOf(fields, name, extract) == {} ||
      exists i :: 0 <= i < |fields| && DepsOf(fields, name, extract) == FieldRefs(fields[i], extract)
  {
    if fields != [] {
      var n := |fields| - 1;
      DepsAreOneFields(fields[..n], name, extract);
      assert forall i :: 0 <= i < n ==> fields[..n][i] == fields[i];
    }
  }

  ghost predicate RefersToBoth(fields: seq<FormField>, f: FormField, extract: Extractor, a: string, b: string) {
    FieldRefersTo(f, extract, a) && FieldRefersTo(f, extract, b) && {a, b} <= Names(fields)
  }

  ghost predicate OneReferenceEach(fields: seq<FormField>, extract: Extractor) {
    forall i, a, b :: 0 <= i < |fields| && RefersToBoth(fields, fields[i], extract, a, b) ==> a == b
  }

  /** The simplest forms whose messages are settled by the condition above:
      each field refers to at most one declared field. */
  lemma OneReferenceIsOneWayOut(fields: seq<FormField>, extract: Extractor)
    requires OneReferenceEach(fields, extract)
    ensures OneWayOut(GraphOf(fields, extract))
  {
    var g := GraphOf(fields, extract);
    forall v, a, b | Edge(g, v, a) && Edge(g, v, b) ensures a == b {
      DepsAreOneFields(fields, v, extract);
      var i :| 0 <= i < |fields| && g[v] == FieldRefs(fields[i], extract);
      FieldRefsIff(fields[i], extract, a);
      FieldRefsIff(fields[i], extract, b);
      assert RefersToBoth(fields, fields[i], extract, a, b);
    }
  }

  /** A field with a single input that refers to another field. */
  function Referring(name: string, to: string): FormField {
    FormField(name, [("p", InputConfig(FieldRef, Some(to), None))])
  }

  const TANGLED_FORM: seq<FormField> := [Referring("a", "b"), Referring("b", "a"), Referring("c", "a")]
  const TANGLE: Graph := map["a" := {"b"}, "b" := {"a"}, "c" := {"a"}]
  const WAYS: Choice := map["a" := "b", "b" := "a", "c" := "a"]

  lemma ReferringRefs(name: string, to: string, extract: Extractor)
    requires to != ""
    ensures FieldRefs(Referring(name, to), extract) == {to}
  {
    var f := Referring(name, to);
    assert to in InputRefs(f.inputs[0].1, extract);
  }

  lemma TangledGraph(extract: Extractor)
    ensures GraphOf(TANGLED_FORM, extract) == TANGLE && NameList(TANGLED_FORM) == ["a", "b", "c"]
  {
    var f := TANGLED_FORM;
    ReferringRefs("a", "b", extract);
    ReferringRefs("b", "a", extract);
    ReferringRefs("c", "a", extract);
    assert f[..2] == [f[0], f[1]] && [f[0], f[1]][..1] == [f[0]];
    assert f[0].name == "a" && f[1].name == "b" && f[2].name == "c";
    assert Names(f) == {"a", "b", "c"};
    assert DepsOf([f[0]], "a", extract) == DepsOf(f[..2], "a", extract) == {"b"};
    assert DepsOf(f[..2], "b", extract) == {"a"} && DepsOf(f, "c", extract) == {"a"};
    assert f[1..] == [f[1], f[2]] && [f[1], f[2]][1..] == [f[2]] && [f[2]][1..] == [];
    assert NameList([f[2]]) == ["c"] && NameList(f[1..]) == ["b", "c"];
  }

  lemma TangledWays(next: Choice)
    requires Chooses(TANGLE, next)
    ensures next == WAYS
  {
    var w := ["a", "b", "a"];
    assert Edge(TANGLE, "a", "b") && Edge(TANGLE, "b", "a") && Edge(TANGLE, "c", "a");
    assert ClosedWalk(TANGLE, w);
    ClosedWalkIsTrouble(TANGLE, w, 0);
    ClosedWalkIsTrouble(TANGLE, w, 1);
    TroubleSpreads(TANGLE, "c", "a");
    forall v | v in next ensures v in WAYS && next[v] == WAYS[v] {
      TroubledIsDeclared(TANGLE, v);
      assert Edge(TANGLE, v, next[v]);
    }
  }

  lemma TangledPaths()
    ensures Follow(WAYS, [], "a") == ["a", "b"] && Follow(WAYS, ["a", "b"], "c") == ["a", "b", "c"]
  {
    var ab, abc := ["a", "b"], ["a", "b", "c"];
    assert ["a"] + ["b"] == ab && ab + ["c"] == abc && [] + ["a"] == ["a"];
    assert Follow(WAYS, ["a"], "b") == Follow(WAYS, ab, "a") == ab;
    assert Follow(WAYS, ab, "c") == Follow(WAYS, abc, "a") == abc;
  }

  lemma TangledRounds()
    ensures Rounds(WAYS, ["a", "b", "c"]).messages == [["a", "b", "a"], ["a", "b", "c", "a"]]
  {
    var ab, abc := ["a", "b"], ["a", "b", "c"];
    TangledPaths();
    assert abc[..2] == ab && ab[..1] == ["a"] && ["a"][..0] == [];
    assert Message(ab, "a") == ["a", "b", "a"] && Message(abc, "a") == ["a", "b", "c", "a"];
    var t := Trail(ab, [0], [["a", "b", "a"]]);
    assert Rounds(WAYS, ["a"]) == Reported(WAYS, Trail([], [], []), ab) == t;
    assert Rounds(WAYS, ab) == Round(WAYS, t, "b") == t;
    assert Rounds(WAYS, abc) == Round(WAYS, t, "c") == Reported(WAYS, t, abc);
  }

  lemma TangledMessages(extract: Extractor, next: Choice)
    requires Chooses(GraphOf(TANGLED_FORM, extract), next)
    ensures Rounds(next, NameList(TANGLED_FORM)).messages == [["a", "b", "a"], ["a", "b", "c", "a"]]
    ensures !ClosedWalk(GraphOf(TANGLED_FORM, extract), ["a", "b", "c", "a"])
  {
    TangledGraph(extract);
    TangledWays(next);
    TangledRounds();
    var m := ["a", "b", "c", "a"];
    assert !Edge(TANGLE, m[1], m[1 + 1]);
  }

  /** Why only the first message is promised to be a cycle. In the form
      a -> b -> a, c -> a the first search leaves a, b on the stack, so the
      search from c reports a, b, c, a although b does not refer to c. */
  method LaterMessageNamesNoCycle(extract: Extractor) returns (errors: seq<seq<string>>)
    ensures errors == [["a", "b", "a"], ["a", "b", "c", "a"]]
    ensures !ClosedWalk(GraphOf(TANGLED_FORM, extract), errors[1])
  {
    ghost var next;
    errors, next := DetectCircularDependencies(TANGLED_FORM, extract);
    TangledMessages(extract, next);
  }

  const WIDER_TANGLE: Graph := map["a" := {"b"}, "b" := {"a", "c"}, "c" := {"a"}]

  lemma WiderTangleEdges()
    ensures Edge(WIDER_TANGLE, "a", "b") && Edge(WIDER_TANGLE, "b", "a")
    ensures Edge(WIDER_TANGLE, "b", "c") && Edge(WIDER_TANGLE, "c", "a")
    ensures forall v {:trigger WAYS[v]} :: v in WAYS ==> Edge(WIDER_TANGLE, v, WAYS[v]) && WAYS[v] in WAYS
  {
  }

  lemma WaysOfWiderTangle()
    ensures Chooses(WIDER_TANGLE, WAYS)
  {
    WiderTangleEdges();
    forall v | v in WAYS ensures Troubled(WIDER_TANGLE, v) {
      ClosedIsTroubled(WIDER_TANGLE, WAYS, v);
    }
    forall v | Troubled(WIDER_TANGLE, v) ensures v in WAYS {
      TroubledIsDeclared(WIDER_TANGLE, v);
    }
  }

  lemma WiderTangleCycles()
    ensures ClosedWalk(WIDER_TANGLE, ["a", "b", "a"]) && ClosedWalk(WIDER_TANGLE, ["a", "b", "c", "a"])
    ensures !ClosedWalk(Only(WAYS), ["a", "b", "c", "a"])
  {
    WiderTangleEdges();
    var long := ["a", "b", "c", "a"];
    assert !Edge(Only(WAYS), long[1], long[1 + 1]);
  }

  lemma TwoMessages(g: Graph, next: Choice, names: seq<string>, m: seq<string>, long: seq<string>)
    requires Closed(next) && Rounds(next, names).messages == [m, long]
    requires ClosedWalk(g, m) && ClosedWalk(g, long) && !ClosedWalk(Only(next), long)
    ensures AllClosed(g, Rounds(next, names).messages) && !Apart(Only(next), names)
  {
    assert Rounds(next, names).messages[1] == long;
    FollowedMessagesAreCyclesIff(next, names);
  }

  /** Why being apart along the dependencies taken is not necessary when fields
      have several: if b refers to c as well, the same search gives the same
      messages, and a, b, c, a is a cycle. */
  lemma ApartIsNotNecessary()
    ensures Chooses(WIDER_TANGLE, WAYS)
    ensures AllClosed(WIDER_TANGLE, Rounds(WAYS, ["a", "b", "c"]).messages)
    ensures !Apart(Only(WAYS), ["a", "b", "c"])
  {
    WaysOfWiderTangle();
    WiderTangleCycles();
    TangledRounds();
    TwoMessages(WIDER_TANGLE, WAYS, ["a", "b", "c"], ["a", "b", "a"], ["a", "b", "c", "a"]);
  }

  /** A cycle that runs through an expression is found like any other: a uses
      b in an expression, b refers to a. */
  method CycleThroughExpression(extract: Extractor) returns (errors: seq<seq<string>>)
    requires extract("context.field.b") == {"b"}
    ensures errors == [["a", "b", "a"]]
  {
    ghost var next;
    ExpressionGraph(extract);
    errors, next := DetectCircularDependencies(EXPRESSION_FORM, extract);
    ExpressionMessages(next);
  }

  const EXPRESSION_FORM: seq<FormField> :=
    [FormField("a", [("p", InputConfig(Expression, None, Some("context.field.b")))]), Referring("b", "a")]
  const PAIR: Graph := map["a" := {"b"}, "b" := {"a"}]
  const PAIR_WAYS: Choice := map["a" := "b", "b" := "a"]

  lemma ExpressionGraph(extract: Extractor)
    requires extract("context.field.b") == {"b"}
    ensures GraphOf(EXPRESSION_FORM, extract) == PAIR && NameList(EXPRESSION_FORM) == ["a", "b"]
  {
    var f := EXPRESSION_FORM;
    ReferringRefs("b", "a", extract);
    assert "b" in InputRefs(f[0].inputs[0].1, extract);
    assert FieldRefs(f[0], extract) == {"b"};
    assert f[..1] == [f[0]] && f[1..] == [f[1]] && [f[1]][1..] == [];
    assert f[0].name == "a" && f[1].name == "b";
    assert Names(f) == {"a", "b"};
    assert DepsOf([f[0]], "a", extract) == DepsOf(f, "a", extract) == {"b"};
    assert NameList([f[1]]) == ["b"];
  }

  lemma ExpressionMessages(next: Choice)
    requires Chooses(PAIR, next)
    ensures Rounds(next, ["a", "b"]).messages == [["a", "b", "a"]]
  {
    assert ClosedWalk(PAIR, ["a", "b", "a"]);
    ClosedWalkIsTrouble(PAIR, ["a", "b", "a"], 0);
    ClosedWalkIsTrouble(PAIR, ["a", "b", "a"], 1);
    forall v | v in next ensures v in PAIR_WAYS && next[v] == PAIR_WAYS[v] {
      TroubledIsDeclared(PAIR, v);
      assert Edge(PAIR, v, next[v]);
    }
    assert next == PAIR_WAYS;
    PairRounds();
  }

  lemma PairRounds()
    ensures Rounds(PAIR_WAYS, ["a", "b"]).messages == [["a", "b", "a"]]
  {
    var ab := ["a", "b"];
    assert ["a"] + ["b"] == ab && [] + ["a"] == ["a"];
    assert Follow(PAIR_WAYS, ["a"], "b") == Follow(PAIR_WAYS, ab, "a") == ab;
    assert Follow(PAIR_WAYS, [], "a") == ab;
    assert ab[..1] == ["a"] && ["a"][..0] == [];
    assert Message(ab, "a") == ["a", "b", "a"];
    var t := Trail(ab, [0], [["a", "b", "a"]]);
    assert Rounds(PAIR_WAYS, ["a"]) == Reported(PAIR_WAYS, Trail([], [], []), ab) == t;
    assert Rounds(PAIR_WAYS, ab) == Round(PAIR_WAYS, t, "b") == t;
  }

  // ------------------------------------------------- the position check

  /** field_positions: a later field of the same name overwrites. */
  function Position(fields: seq<FormField>, name: string): (i: nat)
    requires name in Names(fields)
    ensures i < |fields| && fields[i].name == name
    ensures forall j :: i < j < |fields| ==> fields[j].name != name
  {
    var n := |fields| - 1;
    if fields[n].name == name then n
    else
      assert fields == fields[..n] + [fields[n]];
      Position(fields[..n], name)
  }

  /** What one reference is reported as, if anything. */
  function CheckReference(fields: seq<FormField>, field: string, param: string, ref: string): Option<FieldError>
    requires field in Names(fields)
  {
    if ref !in Names(fields) then Some(NonExistent(field, ref, param))
    else if Position(fields, ref) >= Position(fields, field) then Some(Forward(field, ref))
    else None
  }

  function ReferenceErrors(fields: seq<FormField>, field: string, param: string, refs: set<string>): set<FieldError>
    requires field in Names(fields)
  {
    set r | r in refs && CheckReference(fields, field, param, r).Some? :: CheckReference(fields, field, param, r).value
  }

  function InputErrors(fields: seq<FormField>, f: FormField, k: nat, extract: Extractor): set<FieldError>
    requires f.name in Names(fields) && k < |f.inputs|
  {
    ReferenceErrors(fields, f.name, f.inputs[k].0, InputRefs(f.inputs[k].1, extract))
  }

  ghost predicate Backward(fields: seq<FormField>, extract: Extractor, i: nat, r: string)
    requires i < |fields|
  {
    r in Names(fields) && Position(fields, r) < Position(fields, fields[i].name)
  }

  /** Every referenced name is declared, and further up than the referrer. */
  ghost predicate RefersBackwards(fields: seq<FormField>, extract: Extractor) {
    forall i, r :: 0 <= i < |fields| && FieldRefersTo(fields[i], extract, r) ==> Backward(fields, extract, i, r)
  }

  /** Input k of field i, which is `param` of a field named `field`, refers to
      `ref`. */
  ghost predicate Mentions(fields: seq<FormField>, extract: Extractor, i: nat, k: nat,
                           field: string, param: string, ref: string) {
    && i < |fields| && k < |fields[i].inputs|
    && fields[i].name == field && fields[i].inputs[k].0 == param
    && RefersTo(fields[i].inputs[k].1, extract, ref)
  }

  ghost predicate LastAt(fields: seq<FormField>, name: string, p: nat) {
    p < |fields| && fields[p].name == name && forall j :: p < j < |fields| ==> fields[j].name != name
  }

  /** What the check has to report, from the form itself: references to
      undeclared names, and those to fields that do not stand further up. */
  ghost predicate Faulty(fields: seq<FormField>, extract: Extractor, e: FieldError) {
    if e.NonExistent? then
      && (exists i, k :: Mentions(fields, extract, i, k, e.field, e.param, e.ref))
      && forall f :: f in fields ==> f.name != e.ref
    else
      && (exists i, k, param :: Mentions(fields, extract, i, k, e.field, param, e.ref))
      && exists p, q :: LastAt(fields, e.ref, p) && LastAt(fields, e.field, q) && p >= q
  }

  method CheckInput(fields: seq<FormField>, f: FormField, k: nat, extract: Extractor,
                    names: set<string>, positions: map<string, nat>) returns (errors: seq<FieldError>)
    requires f.name in Names(fields) && k < |f.inputs|
    requires names == Names(fields) == positions.Keys
    requires forall n :: n in names ==> positions[n] == Position(fields, n)
    ensures (set e | e in errors) == InputErrors(fields, f, k, extract)
  {
    errors := [];
    var refs := InputRefs(f.inputs[k].1, extract);
    var param := f.inputs[k].0;
    var todo := refs;
    while todo != {}
      invariant todo <= refs
      invariant (set e | e in errors) == ReferenceErrors(fields, f.name, param, refs - todo)
    {
      var ref :| ref in todo;
      ghost var done := refs - todo;
      todo := todo - {ref};
      assert refs - todo == done + {ref};
      ghost var c := CheckReference(fields, f.name, param, ref);
      assert ReferenceErrors(fields, f.name, param, done + {ref}) ==
        ReferenceErrors(fields, f.name, param, done) + (if c.Some? then {c.value} else {});
      if ref !in names {
        errors := errors + [NonExistent(f.name, ref, param)];
      } else if positions[ref] >= positions[f.name] {
        errors := errors + [Forward(f.name, ref)];
      }
    }
  }

  ghost predicate FieldHasError(fields: seq<FormField>, f: FormField, extract: Extractor, e: FieldError)
    requires f.name in Names(fields)
  {
    exists k :: 0 <= k < |f.inputs| && e in InputErrors(fields, f, k, extract)
  }

  method CheckField(fields: seq<FormField>, f: FormField, extract: Extractor,
                    names: set<string>, positions: map<string, nat>) returns (errors: seq<FieldError>)
    requires f.name in Names(fields)
    requires names == Names(fields) == positions.Keys
    requires forall n :: n in names ==> positions[n] == Position(fields, n)
    ensures forall e :: e in errors <==> FieldHasError(fields, f, extract, e)
  {
    errors := [];
    for m := 0 to |f.inputs|
      invariant forall e :: e in errors <==> exists k :: 0 <= k < m && e in InputErrors(fields, f, k, extract)
    {
      var more := CheckInput(fields, f, m, extract, names, positions);
      assert forall e :: e in more <==> e in set x | x in more;
      errors := errors + more;
    }
  }

  method FieldPositions(fields: seq<FormField>) returns (positions: map<string, nat>)
    ensures positions.Keys == Names(fields)
    ensures forall n :: n in positions ==> positions[n] == Position(fields, n)
  {
    positions := map[];
    for i := 0 to |fields|
      invariant positions.Keys == Names(fields[..i])
      invariant forall n :: n in positions ==> positions[n] == Position(fields[..i], n)
    {
      positions := positions[fields[i].name := i];
      assert fields[..i + 1] == fields[..i] + [fields[i]];
      assert fields[..i + 1][..i] == fields[..i];
    }
    assert fields[..|fields|] == fields;
  }

  /** Reports exactly the faulty references, and none exactly when every
      reference points backwards. */
  method ValidateFieldReferences(fields: seq<FormField>, extract: Extractor) returns (errors: seq<FieldError>)
    ensures forall e :: e in errors <==> Faulty(fields, extract, e)
    ensures errors == [] <==> RefersBackwards(fields, extract)
  {
    var names := Names(fields);
    var positions := FieldPositions(fields);
    errors := [];
    for i := 0 to |fields|
      invariant forall e :: e in errors <==> exists j :: 0 <= j < i && FieldHasError(fields, fields[j], extract, e)
    {
      var more := CheckField(fields, fields[i], extract, names, positions);
      errors := errors + more;
    }
    NoErrorsIff(fields, extract, errors);
    forall e ensures e in errors <==> Faulty(fields, extract, e) {
      FaultyIff(fields, extract, e);
    }
  }

  lemma NameIsDeclared(fields: seq<FormField>, name: string)
    ensures name in Names(fields) <==> exists f :: f in fields && f.name == name
    ensures name in Names(fields) ==> LastAt(fields, name, Position(fields, name))
    ensures forall p :: LastAt(fields, name, p) ==> name in Names(fields) && p == Position(fields, name)
  {
    forall p: nat | LastAt(fields, name, p) ensures name in Names(fields) {
      assert fields[p] in fields;
    }
  }

  /** One input's errors. */
  lemma InputErrorIff(fields: seq<FormField>, extract: Extractor, i: nat, k: nat, e: FieldError)
    requires i < |fields| && k < |fields[i].inputs|
    ensures fields[i].name in Names(fields)
    ensures e in InputErrors(fields, fields[i], k, extract) <==>
      && Mentions(fields, extract, i, k, e.field, if e.NonExistent? then e.param else fields[i].inputs[k].0, e.ref)
      && if e.NonExistent? then e.ref !in Names(fields)
         else e.ref in Names(fields) && Position(fields, e.ref) >= Position(fields, fields[i].name)
  {
    assert fields[i] in fields;
    var cfg := fields[i].inputs[k].1;
    assert e.ref in InputRefs(cfg, extract) <==> RefersTo(cfg, extract, e.ref);
    assert e in InputErrors(fields, fields[i], k, extract) ==>
      CheckReference(fields, fields[i].name, fields[i].inputs[k].0, e.ref) == Some(e);
  }

  lemma FaultyIff(fields: seq<FormField>, extract: Extractor, e: FieldError)
    ensures (exists i :: 0 <= i < |fields| && FieldHasError(fields, fields[i], extract, e)) <==>
      Faulty(fields, extract, e)
  {
    NameIsDeclared(fields, e.ref);
    NameIsDeclared(fields, e.field);
    if i :| 0 <= i < |fields| && FieldHasError(fields, fields[i], extract, e) {
      var k :| 0 <= k < |fields[i].inputs| && e in InputErrors(fields, fields[i], k, extract);
      InputErrorIff(fields, extract, i, k, e);
      assert Mentions(fields, extract, i, k, e.field, fields[i].inputs[k].0, e.ref);
    }
    if Faulty(fields, extract, e) {
      var i: nat, k: nat, param :| Mentions(fields, extract, i, k, e.field, param, e.ref)
        && (e.NonExistent? ==> param == e.param);
      InputErrorIff(fields, extract, i, k, e);
      assert FieldHasError(fields, fields[i], extract, e);
    }
  }

  /** A field has an error exactly when one of its references is not backward. */
  lemma FieldErrorIff(fields: seq<FormField>, extract: Extractor, i: nat)
    requires i < |fields|
    ensures (exists e :: FieldHasError(fields, fields[i], extract, e)) <==>
      exists r :: FieldRefersTo(fields[i], extract, r) && !Backward(fields, extract, i, r)
  {
    var f := fields[i];
    forall r ensures r in FieldRefs(f, extract) <==> FieldRefersTo(f, extract, r) {
      FieldRefsIff(f, extract, r);
    }
    if e :| FieldHasError(fields, f, extract, e) {
      var k :| 0 <= k < |f.inputs| && e in InputErrors(fields, f, k, extract);
      var r :| r in InputRefs(f.inputs[k].1, extract) && CheckReference(fields, f.name, f.inputs[k].0, r) == Some(e);
      assert r in FieldRefs(f, extract) && !Backward(fields, extract, i, r);
    }
    if r :| FieldRefersTo(f, extract, r) && !Backward(fields, extract, i, r) {
      var k :| 0 <= k < |f.inputs| && r in InputRefs(f.inputs[k].1, extract);
      var c := CheckReference(fields, f.name, f.inputs[k].0, r);
      assert c.value in InputErrors(fields, f, k, extract);
      assert FieldHasError(fields, f, extract, c.value);
    }
  }

  lemma NoErrorsIff(fields: seq<FormField>, extract: Extractor, errors: seq<FieldError>)
    requires forall e :: e in errors <==> exists i :: 0 <= i < |fields| && FieldHasError(fields, fields[i], extract, e)
    ensures errors == [] <==> RefersBackwards(fields, extract)
  {
    if errors != [] {
      assert errors[0] in errors;
      var i :| 0 <= i < |fields| && FieldHasError(fields, fields[i], extract, errors[0]);
      FieldErrorIff(fields, extract, i);
      var r :| FieldRefersTo(fields[i], extract, r) && !Backward(fields, extract, i, r);
    }
    if !RefersBackwards(fields, extract) {
      var i, r :| 0 <= i < |fields| && FieldRefersTo(fields[i], extract, r) && !Backward(fields, extract, i, r);
      FieldErrorIff(fields, extract, i);
      var e :| FieldHasError(fields, fields[i], extract, e);
      assert e in errors;
    }
  }

  // ------------------------------------------- one check implies the other

  /** A form that passes the position check has an acyclic graph, with the
      positions as topological order. By the contracts of the two methods,
      the cycle search is then silent as well. */
  lemma BackwardReferencesAreAcyclic(fields: seq<FormField>, extract: Extractor)
    requires RefersBackwards(fields, extract)
    ensures FallsAlongEdges(GraphOf(fields, extract), map n | n in Names(fields) :: Position(fields, n))
    ensures Acyclic(GraphOf(fields, extract))
  {
    var g := GraphOf(fields, extract);
    var rank: map<string, int> := map n | n in Names(fields) :: Position(fields, n);
    forall a, b | Edge(g, a, b) ensures rank[b] < rank[a] {
      EdgeIff(fields, extract, a, b);
      var i: nat :| Decides(fields, i, a) && FieldRefersTo(fields[i], extract, b);
      assert Backward(fields, extract, i, b);
    }
    RankedIsAcyclic(g, rank);
  }

  /** The other way round fails: a may use the later b without any cycle. */
  lemma AcyclicFormMayReferForward(extract: Extractor)
    ensures var fields := [FormField("a", [("p", InputConfig(FieldRef, Some("b"), None))]), FormField("b", [])];
      !RefersBackwards(fields, extract) && Acyclic(GraphOf(fields, extract))
  {
    var fields := [FormField("a", [("p", InputConfig(FieldRef, Some("b"), None))]), FormField("b", [])];
    var cfg := InputConfig(FieldRef, Some("b"), None);
    assert fields[0].inputs[0].1 == cfg && "b" in InputRefs(cfg, extract);
    assert RefersTo(cfg, extract, "b") && FieldRefersTo(fields[0], extract, "b");
    assert fields[1].name == "b" && fields[0].name == "a";
    assert !Backward(fields, extract, 0, "b");
    assert !RefersBackwards(fields, extract);
    var g := GraphOf(fields, extract);
    forall x, y | Edge(g, x, y) ensures x == "a" && y == "b" {
      DepsComeFromAField(fields, x, extract, y);
    }
    RankedIsAcyclic(g, map n | n in g :: if n == "a" then 1 else 0);
  }
}
