/** Loops as the search records them while it peels bases off the graph, and why every
    cycle ends up in a loop and the loops nest. */
module LoopNest {
  import opened Graphs
  import opened Tarjan

  datatype Loop = Loop(body: set<Node>, base: Node)

  /** The graph on the nodes ns only. */
  ghost function Within(g: Graph, ns: set<Node>): (r: Graph)
    ensures r.Keys == g.Keys * ns
    ensures forall x, y :: Edge(r, x, y) <==> Edge(g, x, y) && x in ns && y in ns
  {
    map n | n in g && n in ns :: g[n] * ns
  }

  /** A closed walk through two blocks or more. */
  ghost predicate Cycle(g: Graph, p: seq<Node>) {
    Walk(g, p) && p[0] == p[|p| - 1] && exists i :: 0 <= i < |p| && p[i] != p[0]
  }

  ghost predicate AllIn(p: seq<Node>, s: set<Node>) {
    forall x :: x in p ==> x in s
  }

  ghost function Elements(s: seq<Node>): set<Node> {
    set x | x in s
  }

  /** Any two blocks reach each other without leaving the set. */
  ghost predicate StronglyConnected(g: Graph, body: set<Node>) {
    forall x, y {:trigger Reaches(Within(g, body), x, y)} :: x in body && y in body ==> Reaches(Within(g, body), x, y)
  }

  /** Some edge from outside the body leads to its block b. */
  ghost predicate Entered(g: Graph, body: set<Node>, b: Node) {
    b in body && exists x :: x !in body && Edge(g, x, b)
  }

  /** Two blocks or more that reach each other among themselves. */
  ghost predicate Knot(g: Graph, d: set<Node>) {
    d <= g.Keys && |d| >= 2 && StronglyConnected(g, d)
  }

  ghost predicate IsLoop(g: Graph, l: Loop) {
    Knot(g, l.body) && Entered(g, l.body, l.base)
  }

  /** The loop holds all of d, and its base is in d. */
  ghost predicate Catches(l: Loop, d: set<Node>) {
    l.base in d && d <= l.body
  }

  ghost predicate Caught(loops: seq<Loop>, d: set<Node>) {
    exists i :: 0 <= i < |loops| && Catches(loops[i], d)
  }

  /** The later loop avoids the earlier one, or lies in it away from its base. */
  ghost predicate NestedOrApart(earlier: Loop, later: Loop) {
    later.body !! earlier.body || later.body <= earlier.body - {earlier.base}
  }

  ghost predicate Nest(loops: seq<Loop>) {
    forall i, j {:trigger loops[i], loops[j]} :: 0 <= i < j < |loops| ==> NestedOrApart(loops[i], loops[j])
  }

  /** The set is a union of components. */
  ghost predicate UnionOfComponents(g: Graph, s: set<Node>) {
    forall x, y {:trigger Connected(g, x, y)} :: Connected(g, x, y) && x in g && y in g ==> (x in s <==> y in s)
  }

  /** What the search promises about the loops it records, in recording order. */
  ghost predicate IsLoopForest(g: Graph, loops: seq<Loop>) {
    && (forall i {:trigger loops[i]} :: 0 <= i < |loops| ==> IsLoop(g, loops[i]))
    && Nest(loops)
    && (forall d {:trigger Caught(loops, d)} :: Knot(g, d) ==> Caught(loops, d))
  }

  ghost predicate KnotDone(nodes: set<Node>, loops: seq<Loop>, d: set<Node>) {
    d <= nodes || Caught(loops, d)
  }

  ghost predicate LoopKept(g: Graph, round: set<Node>, nodes: set<Node>, l: Loop) {
    IsLoop(g, l) && UnionOfComponents(Within(g, round), l.body) && l.base !in nodes
  }

  /** In a round that began on the nodes `round`: `todo` are the components whose base is
      still to be removed, `nodes` what is left of the graph. */
  ghost predicate RoundAt(g: Graph, round: set<Node>, nodes: set<Node>, todo: set<set<Node>>, loops: seq<Loop>) {
    && nodes <= round <= g.Keys
    && (forall c :: c in todo ==> IsComponent(Within(g, round), c) && |c| >= 2 && c <= nodes)
    && (forall i :: 0 <= i < |loops| ==> LoopKept(g, round, nodes, loops[i]))
    && Nest(loops)
    && (forall d {:trigger KnotDone(nodes, loops, d)} :: Knot(g, d) ==> KnotDone(nodes, loops, d))
  }

  // ----------------------------------------------------------- walks and subsets

  lemma WalkWithin(g: Graph, ns: set<Node>, p: seq<Node>)
    requires Walk(g, p) && AllIn(p, ns)
    ensures Walk(Within(g, ns), p)
  {
  }

  lemma WalkOut(g: Graph, ns: set<Node>, p: seq<Node>)
    requires Walk(Within(g, ns), p)
    ensures Walk(g, p)
  {
    forall i, j | 0 <= i && j == i + 1 && j < |p| ensures Edge(g, p[i], p[j]) {
      assert Edge(Within(g, ns), p[i], p[j]);
    }
  }

  lemma ReachesMore(g: Graph, small: set<Node>, large: set<Node>, x: Node, y: Node)
    requires small <= large && Reaches(Within(g, small), x, y)
    ensures Reaches(Within(g, large), x, y)
  {
    var p :| WalkBetween(Within(g, small), p, x, y);
    forall i, j | 0 <= i && j == i + 1 && j < |p| ensures Edge(Within(g, large), p[i], p[j]) {
      assert Edge(Within(g, small), p[i], p[j]);
    }
    assert WalkBetween(Within(g, large), p, x, y);
  }

  lemma WalkSuffix(g: Graph, p: seq<Node>, k: nat)
    requires Walk(g, p) && k < |p|
    ensures WalkBetween(g, p[k..], p[k], p[|p| - 1])
  {
    var q := p[k..];
    forall i, j | 0 <= i && j == i + 1 && j < |q| ensures Edge(g, q[i], q[j]) {
      assert q[i] == p[k + i] && q[j] == p[k + j];
    }
  }

  /** The nodes of a closed walk reach each other. */
  lemma CycleConnected(g: Graph, p: seq<Node>, x: Node)
    requires Walk(g, p) && p[0] == p[|p| - 1] && x in p
    ensures Connected(g, p[0], x)
  {
    var k :| 0 <= k < |p| && p[k] == x;
    WalkPrefix(g, p, p[0], p[0], k);
    WalkSuffix(g, p, k);
  }

  /** A walk between nodes of one component stays in it. */
  lemma WalkInComponent(g: Graph, c: set<Node>, p: seq<Node>, x: Node, y: Node)
    requires Closed(g) && IsComponent(g, c) && x in c && y in c && WalkBetween(g, p, x, y)
    ensures AllIn(p, c)
  {
    forall z | z in p ensures z in c {
      var k :| 0 <= k < |p| && p[k] == z;
      WalkPrefix(g, p, x, y, k);
      WalkSuffix(g, p, k);
      assert Connected(g, y, x);
      ReachesTrans(g, z, y, x);
      assert Connected(g, x, z);
      if k > 0 {
        assert Edge(g, p[k - 1], p[k]);
      }
    }
  }

  lemma ComponentIsStronglyConnected(g: Graph, ns: set<Node>, c: set<Node>)
    requires Closed(g) && IsComponent(Within(g, ns), c)
    ensures StronglyConnected(g, c)
  {
    var small := Within(g, ns);
    forall x, y | x in c && y in c ensures Reaches(Within(g, c), x, y) {
      assert Connected(small, x, y);
      var p :| WalkBetween(small, p, x, y);
      WalkInComponent(small, c, p, x, y);
      WalkOut(g, ns, p);
      WalkWithin(g, c, p);
      assert WalkBetween(Within(g, c), p, x, y);
    }
  }

  // ------------------------------------------------------------- finding the base

  /** A set of blocks that can be reached from a block outside is entered somewhere. */
  lemma {:induction false} ReachedSetIsEntered(g: Graph, s: set<Node>, p: seq<Node>, a: Node, y: Node)
    requires WalkBetween(g, p, a, y) && a !in s && y in s
    ensures exists b :: Entered(g, s, b)
    decreases |p|
  {
    var k := |p| - 2;
    assert Edge(g, p[k], p[k + 1]);
    if p[k] in s {
      WalkPrefix(g, p, a, y, k);
      ReachedSetIsEntered(g, s, p[..k + 1], a, p[k]);
    } else {
      assert Entered(g, s, y);
    }
  }

  lemma OtherMember(c: set<Node>, x: Node) returns (y: Node)
    requires |c| >= 2
    ensures y in c && y != x
  {
    if c - {x} == {} {
      assert c <= {x};
      SubsetCard(c, {x});
    }
    y :| y in c - {x};
  }

  /** Every component of two blocks or more has a block that is entered from outside. */
  ghost predicate ComponentsEntered(g: Graph) {
    forall c {:trigger IsComponent(g, c)} :: IsComponent(g, c) && |c| >= 2 ==> exists b :: Entered(g, c, b)
  }

  /** A component of what is left of the graph has a base to find, unless it is a whole
      component of the graph that no edge enters. */
  lemma ComponentIsEntered(g: Graph, ns: set<Node>, c: set<Node>)
    requires ns <= g.Keys && IsComponent(Within(g, ns), c) && |c| >= 2
    ensures (exists b :: Entered(g, c, b)) || IsComponent(g, c)
  {
    var small := Within(g, ns);
    forall x, y | x in c && y in c ensures Connected(g, x, y) {
      assert Connected(small, x, y);
      ReachesOut(g, ns, x, y);
      ReachesOut(g, ns, y, x);
    }
    if !IsComponent(g, c) {
      var x, y :| x in c && y in g && y !in c && Connected(g, x, y);
      var p :| WalkBetween(g, p, y, x);
      ReachedSetIsEntered(g, c, p, y, x);
    }
  }

  lemma ReachesOut(g: Graph, ns: set<Node>, x: Node, y: Node)
    requires Reaches(Within(g, ns), x, y)
    ensures Reaches(g, x, y)
  {
    var p :| WalkBetween(Within(g, ns), p, x, y);
    WalkOut(g, ns, p);
    assert WalkBetween(g, p, x, y);
  }

  /** The entry has no predecessor and reaches every block. */
  ghost predicate IsEntryRooted(g: Graph) {
    (forall x :: !Edge(g, x, ENTRY)) && forall x :: x in g ==> Reaches(g, ENTRY, x)
  }

  /** That is so where every block is reachable from an entry without predecessors. */
  lemma RootedIsEntered(g: Graph)
    requires IsEntryRooted(g)
    ensures ComponentsEntered(g)
  {
    forall c | IsComponent(g, c) && |c| >= 2 ensures exists b :: Entered(g, c, b) {
      EntryInNoComponent(g, c);
      var y :| y in c;
      var p :| WalkBetween(g, p, ENTRY, y);
      ReachedSetIsEntered(g, c, p, ENTRY, y);
    }
  }

  /** Blocks 1 and 2 form a loop that a folded branch has cut off from the entry. */
  function CutOffLoop(): Graph {
    map[0 := {}, 1 := {2}, 2 := {1}]
  }

  lemma CutOffLoopIsNotEntered()
    ensures !ComponentsEntered(CutOffLoop())
  {
    var g, c: set<Node> := CutOffLoop(), {1, 2};
    assert Edge(g, 1, 2) && Edge(g, 2, 1);
    ReachesEdge(g, 1, 2);
    ReachesEdge(g, 2, 1);
    ReachesSelf(g, 1);
    ReachesSelf(g, 2);
    forall y | y in g && Reaches(g, 1, y) ensures y in c {
      var p :| WalkBetween(g, p, 1, y);
      ReachesStaysIn(g, c, 1, p, y);
    }
    forall y | y in g && Reaches(g, 2, y) ensures y in c {
      var p :| WalkBetween(g, p, 2, y);
      ReachesStaysIn(g, c, 2, p, y);
    }
    assert IsComponent(g, c) && forall b :: !Entered(g, c, b);
  }

  /** The entry is in no component of two blocks or more. */
  lemma EntryInNoComponent(g: Graph, c: set<Node>)
    requires IsComponent(g, c) && |c| >= 2 && forall x :: !Edge(g, x, ENTRY)
    ensures ENTRY !in c
  {
    forall x, p | x != ENTRY ensures !WalkBetween(g, p, x, ENTRY) {
      assert |p| > 1 && p[|p| - 1] == ENTRY ==> !Edge(g, p[|p| - 2], p[|p| - 1]);
    }
    var x := OtherMember(c, ENTRY);
    assert ENTRY in c ==> Connected(g, ENTRY, x);
  }

  // ------------------------------------------------------------------- peeling

  lemma FirstRound(g: Graph, todo: set<set<Node>>)
    requires Closed(g) && AreComponents(Within(g, g.Keys), todo)
    ensures RoundAt(g, g.Keys, g.Keys, todo, [])
  {
  }

  lemma ComponentIsUnion(g: Graph, c: set<Node>)
    requires IsComponent(g, c)
    ensures UnionOfComponents(g, c)
  {
    forall x, y | Connected(g, x, y) && x in g && y in g ensures x in c <==> y in c {
      assert Connected(g, y, x);
    }
  }

  /** Removing the base of one component. */
  lemma PeelOne(g: Graph, round: set<Node>, nodes: set<Node>, todo: set<set<Node>>, loops: seq<Loop>, c: set<Node>,
                b: Node)
    requires Closed(g) && RoundAt(g, round, nodes, todo, loops) && c in todo && Entered(g, c, b)
    ensures RoundAt(g, round, nodes - {b}, todo - {c}, loops + [Loop(c, b)])
  {
    var loops2, nodes2, l := loops + [Loop(c, b)], nodes - {b}, Loop(c, b);
    var small := Within(g, round);
    ComponentIsStronglyConnected(g, round, c);
    ComponentIsUnion(small, c);
    assert LoopKept(g, round, nodes2, l);
    forall d | d in todo - {c} ensures d <= nodes2 {
      ComponentsDisjoint(small, c, d);
    }
    forall i | 0 <= i < |loops2| ensures LoopKept(g, round, nodes2, loops2[i]) {
      assert i < |loops| ==> LoopKept(g, round, nodes, loops[i]);
    }
    forall i, j | 0 <= i < j < |loops2| ensures NestedOrApart(loops2[i], loops2[j]) {
      if j < |loops| {
        assert NestedOrApart(loops[i], loops[j]);
      } else {
        assert LoopKept(g, round, nodes, loops[i]);
        ComponentNests(small, nodes, loops[i], c);
      }
    }
    forall d | Knot(g, d) ensures KnotDone(nodes2, loops2, d) {
      PeelCatches(g, round, nodes, loops, c, b, d);
    }
  }

  lemma ComponentNests(small: Graph, nodes: set<Node>, l: Loop, c: set<Node>)
    requires IsComponent(small, c) && c <= nodes && UnionOfComponents(small, l.body) && l.base !in nodes
    ensures c !! l.body || c <= l.body - {l.base}
  {
    if x :| x in c && x in l.body {
      forall y | y in c ensures y in l.body {
        assert Connected(small, x, y);
      }
    }
  }

  lemma PeelCatches(g: Graph, round: set<Node>, nodes: set<Node>, loops: seq<Loop>, c: set<Node>, b: Node, d: set<Node>)
    requires nodes <= round && IsComponent(Within(g, round), c) && b in c && Knot(g, d) && KnotDone(nodes, loops, d)
    ensures KnotDone(nodes - {b}, loops + [Loop(c, b)], d)
  {
    var loops2 := loops + [Loop(c, b)];
    if Caught(loops, d) {
      var i :| 0 <= i < |loops| && Catches(loops[i], d);
      assert Catches(loops2[i], d);
    } else if b in d {
      KnotInComponent(g, round, c, b, d);
      assert Catches(loops2[|loops|], d);
    }
  }

  /** A knot among the remaining blocks lies in one component of them. */
  lemma KnotInComponent(g: Graph, ns: set<Node>, c: set<Node>, b: Node, d: set<Node>)
    requires IsComponent(Within(g, ns), c) && Knot(g, d) && d <= ns && b in c && b in d
    ensures d <= c
  {
    forall x | x in d ensures x in c {
      assert Reaches(Within(g, d), b, x) && Reaches(Within(g, d), x, b);
      ReachesMore(g, d, ns, b, x);
      ReachesMore(g, d, ns, x, b);
      assert Connected(Within(g, ns), b, x);
    }
  }

  lemma OnCycle(g: Graph, p: seq<Node>, x: Node, y: Node)
    requires Walk(g, p) && p[0] == p[|p| - 1] && x in p && y in p && |p| > 1
    ensures Connected(g, x, y) && y in g
  {
    CycleConnected(g, p, x);
    CycleConnected(g, p, y);
    ConnectedTrans(g, x, p[0], y);
    var k :| 0 <= k < |p| && p[k] == y;
    assert Edge(g, p[0], p[1]) && (k + 1 < |p| ==> Edge(g, p[k], p[k + 1]));
  }

  /** The next round starts on what is left. */
  lemma NextRound(g: Graph, round: set<Node>, nodes: set<Node>, loops: seq<Loop>, todo: set<set<Node>>)
    requires RoundAt(g, round, nodes, {}, loops) && AreComponents(Within(g, nodes), todo)
    ensures RoundAt(g, nodes, nodes, todo, loops)
  {
    forall i | 0 <= i < |loops| ensures LoopKept(g, nodes, nodes, loops[i]) {
      assert LoopKept(g, round, nodes, loops[i]);
      forall x, y | Connected(Within(g, nodes), x, y) && x in Within(g, nodes) && y in Within(g, nodes)
        ensures x in loops[i].body <==> y in loops[i].body
      {
        ReachesMore(g, nodes, round, x, y);
        ReachesMore(g, nodes, round, y, x);
        assert Connected(Within(g, round), x, y);
      }
    }
  }

  /** When no component of two blocks is left, every knot is caught. */
  lemma PeelingEnds(g: Graph, round: set<Node>, nodes: set<Node>, loops: seq<Loop>)
    requires RoundAt(g, round, nodes, {}, loops) && AreComponents(Within(g, nodes), {})
    ensures IsLoopForest(g, loops)
  {
    forall i | 0 <= i < |loops| ensures IsLoop(g, loops[i]) {
      assert LoopKept(g, round, nodes, loops[i]);
    }
    forall d | Knot(g, d) ensures Caught(loops, d) {
      assert KnotDone(nodes, loops, d);
      if d <= nodes {
        NoKnotLeft(g, nodes, d);
      }
    }
  }

  lemma NoKnotLeft(g: Graph, nodes: set<Node>, d: set<Node>)
    requires Knot(g, d) && d <= nodes
    ensures !AreComponents(Within(g, nodes), {})
  {
    var small := Within(g, nodes);
    var x :| x in d;
    SccIsComponent(small, x);
    SccSelf(small, x);
    KnotInComponent(g, nodes, Scc(small, x), x, d);
    SubsetCard(d, Scc(small, x));
    var none: set<set<Node>> := {};
    assert Scc(small, x) !in none;
  }

  // ------------------------------------------------- what the recorded loops are

  /** Every cycle through two blocks or more lies in a recorded loop, through its base. */
  lemma CyclesAreCaught(g: Graph, loops: seq<Loop>, p: seq<Node>)
    requires Closed(g) && IsLoopForest(g, loops) && Cycle(g, p)
    ensures exists i :: 0 <= i < |loops| && loops[i].base in p && AllIn(p, loops[i].body)
  {
    var d := Elements(p);
    CycleIsKnot(g, p);
    assert Caught(loops, d);
    var i :| 0 <= i < |loops| && Catches(loops[i], d);
  }

  lemma CycleIsKnot(g: Graph, p: seq<Node>)
    requires Closed(g) && Cycle(g, p)
    ensures Knot(g, Elements(p))
  {
    var d := Elements(p);
    var i :| 0 <= i < |p| && p[i] != p[0];
    SubsetCard({p[0], p[i]}, d);
    WalkWithin(g, d, p);
    forall x, y | x in d && y in d ensures Reaches(Within(g, d), x, y) {
      OnCycle(Within(g, d), p, x, y);
    }
    forall x | x in d ensures x in g {
      OnCycle(Within(g, d), p, p[0], x);
    }
  }

  /** The bases of the recorded loops properly around c. */
  ghost function BasesAround(loops: seq<Loop>, c: set<Node>): set<Node> {
    set i: nat | i < |loops| && c < loops[i].body :: loops[i].base
  }

  /** c is a component of two blocks or more once the bases around it are taken out. */
  ghost predicate IsInnerComponent(g: Graph, loops: seq<Loop>, c: set<Node>) {
    IsComponent(Within(g, g.Keys - BasesAround(loops, c)), c) && |c| >= 2
  }

  ghost predicate Recorded(loops: seq<Loop>, c: set<Node>) {
    exists i :: 0 <= i < |loops| && loops[i].body == c
  }

  /** The recorded loops are exactly the components of the graph without the bases of the
      loops around them. */
  lemma RecordedIff(g: Graph, loops: seq<Loop>, c: set<Node>)
    requires Closed(g) && IsLoopForest(g, loops)
    ensures Recorded(loops, c) <==> IsInnerComponent(g, loops, c)
  {
    if IsInnerComponent(g, loops, c) {
      InnerIsRecorded(g, loops, c);
    }
    if Recorded(loops, c) {
      var i :| 0 <= i < |loops| && loops[i].body == c;
      RecordedIsInner(g, loops, i);
    }
  }

  lemma ComponentIsKnot(g: Graph, ns: set<Node>, c: set<Node>)
    requires Closed(g) && IsComponent(Within(g, ns), c) && |c| >= 2
    ensures Knot(g, c)
  {
    ComponentIsStronglyConnected(g, ns, c);
  }

  lemma BaseIsAround(loops: seq<Loop>, c: set<Node>, i: nat)
    requires i < |loops|
    ensures c < loops[i].body ==> loops[i].base in BasesAround(loops, c)
  {
  }

  lemma InnerIsRecorded(g: Graph, loops: seq<Loop>, c: set<Node>)
    requires Closed(g) && IsLoopForest(g, loops) && IsInnerComponent(g, loops, c)
    ensures Recorded(loops, c)
  {
    ComponentIsKnot(g, g.Keys - BasesAround(loops, c), c);
    assert Caught(loops, c);
    var i: nat :| i < |loops| && Catches(loops[i], c);
    BaseIsAround(loops, c, i);
  }

  lemma RecordedIsInner(g: Graph, loops: seq<Loop>, i: nat)
    requires Closed(g) && IsLoopForest(g, loops) && i < |loops|
    ensures IsInnerComponent(g, loops, loops[i].body)
  {
    var c := loops[i].body;
    var ns := g.Keys - BasesAround(loops, c);
    var small := Within(g, ns);
    BasesAroundAvoid(g, loops, i);
    var x :| x in c;
    var d := Scc(small, x);
    SccIsComponent(small, x);
    SccSelf(small, x);
    KnotInComponent(g, ns, d, x, c);
    SubsetCard(c, d);
    ComponentIsKnot(g, ns, d);
    assert Caught(loops, d);
    var m: nat :| m < |loops| && Catches(loops[m], d);
    BaseIsAround(loops, c, m);
  }

  lemma BasesAroundAvoid(g: Graph, loops: seq<Loop>, i: nat)
    requires IsLoopForest(g, loops) && i < |loops|
    ensures loops[i].body <= g.Keys - BasesAround(loops, loops[i].body)
  {
    assert IsLoop(g, loops[i]);
    forall j: nat | j < |loops| && loops[i].body < loops[j].body ensures loops[j].base !in loops[i].body {
      NestCases(loops, i, j);
    }
  }

  lemma NestCases(loops: seq<Loop>, i: nat, j: nat)
    requires Nest(loops) && i < |loops| && j < |loops|
    ensures (i < j ==> NestedOrApart(loops[i], loops[j])) && (j < i ==> NestedOrApart(loops[j], loops[i]))
  {
  }

  /** A graph with such loops has no component without an entry. */
  lemma ForestIsEntered(g: Graph, loops: seq<Loop>)
    requires Closed(g) && IsLoopForest(g, loops)
    ensures ComponentsEntered(g)
  {
    forall c | IsComponent(g, c) && |c| >= 2 ensures exists b :: Entered(g, c, b) {
      WithinAll(g);
      ComponentIsKnot(g, g.Keys, c);
      assert Caught(loops, c);
      var i: nat :| i < |loops| && Catches(loops[i], c);
      assert IsLoop(g, loops[i]);
      KnotInComponent(g, g.Keys, c, loops[i].base, loops[i].body);
      assert loops[i].body == c && Entered(g, c, loops[i].base);
    }
  }

  /** When a search finds no component any more. */
  lemma SearchIsOver(g: Graph, nodes: set<Node>, loops: seq<Loop>)
    requires Closed(g) && RoundAt(g, nodes, nodes, {}, loops) && AreComponents(Within(g, nodes), {})
    ensures IsLoopForest(g, loops) && ComponentsEntered(g)
    ensures forall c :: Recorded(loops, c) <==> IsInnerComponent(g, loops, c)
  {
    PeelingEnds(g, nodes, nodes, loops);
    ForestIsEntered(g, loops);
    forall c ensures Recorded(loops, c) <==> IsInnerComponent(g, loops, c) {
      RecordedIff(g, loops, c);
    }
  }

  lemma WithinAll(g: Graph)
    requires Closed(g)
    ensures Within(g, g.Keys) == g
  {
    forall n | n in g ensures g[n] * g.Keys == g[n] {
      forall y | y in g[n] ensures y in g.Keys {
        assert Edge(g, n, y);
      }
    }
  }
}
