/** Graphs of references between names: walks, cycles, and names that lead to
    one. */
module Graphs {
  type Graph = map<string, set<string>>

  /** An edge between two declared fields. References to undeclared names
      are skipped by the search. */
  ghost predicate Edge(g: Graph, a: string, b: string) {
    a in g && b in g && b in g[a]
  }

  ghost predicate Walk(g: Graph, w: seq<string>) {
    forall i :: 0 <= i < |w| - 1 ==> Edge(g, w[i], w[i + 1])
  }

  ghost predicate ClosedWalk(g: Graph, w: seq<string>) {
    |w| >= 2 && w[0] == w[|w| - 1] && Walk(g, w)
  }

  ghost predicate Acyclic(g: Graph) {
    forall w :: !ClosedWalk(g, w)
  }

  ghost predicate NoDup(s: seq<string>) {
    forall i, j :: 0 <= i < j < |s| ==> s[i] != s[j]
  }

  ghost function Elements(s: seq<string>): set<string> {
    set x | x in s
  }

  function FirstIndex(s: seq<string>, x: string): (k: nat)
    requires x in s
    ensures k < |s| && s[k] == x && x !in s[..k]
  {
    if s[0] == x then 0 else 1 + FirstIndex(s[1..], x)
  }

  /** `rank` falls along every edge: a topological order. */
  ghost predicate FallsAlongEdges(g: Graph, rank: map<string, int>) {
    && g.Keys <= rank.Keys
    && forall a, b :: Edge(g, a, b) ==> rank[b] < rank[a]
  }

  lemma {:induction false} RankFallsAlongWalk(g: Graph, rank: map<string, int>, w: seq<string>, i: nat)
    requires FallsAlongEdges(g, rank) && Walk(g, w)
    requires 0 < i < |w|
    ensures w[0] in rank && w[i] in rank && rank[w[i]] < rank[w[0]]
  {
    assert Edge(g, w[i - 1], w[i]);
    if i > 1 {
      RankFallsAlongWalk(g, rank, w, i - 1);
    }
  }

  /** A graph with a topological order has no closed walk. */
  lemma RankedIsAcyclic(g: Graph, rank: map<string, int>)
    requires FallsAlongEdges(g, rank)
    ensures Acyclic(g)
  {
    forall w ensures !ClosedWalk(g, w) {
      if ClosedWalk(g, w) {
        RankFallsAlongWalk(g, rank, w, |w| - 1);
      }
    }
  }

  /** A walk from `a` to `b`, possibly of no step. */
  ghost predicate IsWalkFromTo(g: Graph, a: string, b: string, w: seq<string>) {
    Walk(g, w) && w != [] && w[0] == a && w[|w| - 1] == b
  }

  ghost predicate Leads(g: Graph, a: string, b: string) {
    a in g && exists w :: IsWalkFromTo(g, a, b, w)
  }

  /** Some walk from `a` comes back to where it has been. */
  ghost predicate Troubled(g: Graph, a: string) {
    exists w :: Walk(g, w) && w != [] && w[0] == a && !NoDup(w)
  }

  lemma WalkBegins(g: Graph, w: seq<string>)
    requires Walk(g, w)
    ensures |w| <= 1 || w[0] in g
  {
    if |w| > 1 {
      assert Edge(g, w[0], w[0 + 1]);
    }
  }

  lemma TroubleSpreads(g: Graph, a: string, b: string)
    requires Edge(g, a, b) && Troubled(g, b)
    ensures Troubled(g, a)
  {
    var w :| Walk(g, w) && w != [] && w[0] == b && !NoDup(w);
    var w' := [a] + w;
    var i, j :| 0 <= i < j < |w| && w[i] == w[j];
    assert w'[i + 1] == w'[j + 1] && !NoDup(w');
    assert Walk(g, w');
  }

  /** Trouble at the end of a walk is trouble all along it. */
  lemma {:induction false} TroubleAlongWalk(g: Graph, w: seq<string>, i: nat)
    requires Walk(g, w) && i < |w| && Troubled(g, w[|w| - 1])
    ensures Troubled(g, w[i])
    decreases |w| - i
  {
    if i < |w| - 1 {
      TroubleAlongWalk(g, w, i + 1);
      TroubleSpreads(g, w[i], w[i + 1]);
    }
  }

  /** Everything on a closed walk is troubled, and trouble means there is one. */
  lemma ClosedWalkIsTrouble(g: Graph, w: seq<string>, i: nat)
    requires ClosedWalk(g, w) && i < |w|
    ensures Troubled(g, w[i])
  {
    assert Troubled(g, w[0]);
    TroubleAlongWalk(g, w, i);
  }

  lemma AcyclicIff(g: Graph)
    ensures Acyclic(g) <==> forall a :: !Troubled(g, a)
  {
    if a :| Troubled(g, a) {
      var w :| Walk(g, w) && w != [] && w[0] == a && !NoDup(w);
      var i, j :| 0 <= i < j < |w| && w[i] == w[j];
      assert ClosedWalk(g, w[i..j + 1]);
    }
    if w :| ClosedWalk(g, w) {
      ClosedWalkIsTrouble(g, w, 0);
    }
  }

  /** Every element's declared dependencies come before it. */
  ghost predicate DependenciesFirst(g: Graph, order: seq<string>) {
    forall i, b :: 0 <= i < |order| && Edge(g, order[i], b) ==> b in order[..i]
  }

  lemma {:induction false} WalkGoesBack(g: Graph, order: seq<string>, w: seq<string>, i: nat, j: nat)
    requires DependenciesFirst(g, order) && Walk(g, w) && i < j < |w| && w[i] in order
    ensures w[j] in order[..FirstIndex(order, w[i])]
  {
    if i + 1 < j {
      WalkGoesBack(g, order, w, i, j - 1);
    }
    assert Edge(g, w[j - 1], w[j - 1 + 1]);
    var k := FirstIndex(order, w[j - 1]);
    assert w[j] in order[..k];
    assert i + 1 < j ==> k <= FirstIndex(order, w[i]);
  }

  /** An order in which dependencies come first holds no troubled name. */
  lemma DependenciesFirstIsUntroubled(g: Graph, order: seq<string>, a: string)
    requires DependenciesFirst(g, order) && a in order
    ensures !Troubled(g, a)
  {
    forall w | Walk(g, w) && w != [] && w[0] == a ensures NoDup(w) {
      forall i, j | 0 <= i < j < |w| ensures w[i] != w[j] {
        if i > 0 {
          WalkGoesBack(g, order, w, 0, i);
        }
        WalkGoesBack(g, order, w, i, j);
      }
    }
  }

  lemma AppendFinished(g: Graph, order: seq<string>, x: string)
    requires DependenciesFirst(g, order)
    requires forall b :: Edge(g, x, b) ==> b in order
    ensures DependenciesFirst(g, order + [x])
  {
    forall i, b | 0 <= i <= |order| && Edge(g, (order + [x])[i], b) ensures b in (order + [x])[..i] {
      assert (order + [x])[..i] == order[..i];
      assert order[..|order|] == order;
    }
  }
}
