/** Finite directed graphs, walks and dominance, shared by the analyses over
    control-flow graphs and by the inliner's call graph. */
module Graphs {

  type Node = nat

  type Graph = map<Node, set<Node>>

  /** The entry block is the first one in the function's block list. */
  const ENTRY: Node := 0

  predicate Edge(g: Graph, a: Node, b: Node) {
    a in g && b in g[a]
  }

  ghost predicate Walk(g: Graph, p: seq<Node>) {
    && p != []
    && forall i, j {:trigger p[i], p[j]} :: 0 <= i && j == i + 1 && j < |p| ==> Edge(g, p[i], p[j])
  }

  ghost predicate WalkBetween(g: Graph, p: seq<Node>, a: Node, b: Node) {
    Walk(g, p) && p[0] == a && p[|p| - 1] == b
  }

  ghost predicate Reaches(g: Graph, a: Node, b: Node) {
    exists p :: WalkBetween(g, p, a, b)
  }

  /** d lies on every walk from the entry to b. */
  ghost predicate Dominates(g: Graph, d: Node, b: Node) {
    forall p :: WalkBetween(g, p, ENTRY, b) ==> d in p
  }

  ghost predicate StrictlyDominates(g: Graph, d: Node, b: Node) {
    d != b && Dominates(g, d, b)
  }

  /** Both ends of every edge are nodes of the graph. */
  ghost predicate Closed(g: Graph) {
    forall a, b :: Edge(g, a, b) ==> b in g
  }

  lemma ReachesSelf(g: Graph, a: Node)
    ensures Reaches(g, a, a)
  {
    assert WalkBetween(g, [a], a, a);
  }

  lemma WalkAppend(g: Graph, p: seq<Node>, a: Node, b: Node, c: Node)
    requires WalkBetween(g, p, a, b) && Edge(g, b, c)
    ensures WalkBetween(g, p + [c], a, c)
  {
  }

  lemma WalkJoin(g: Graph, p: seq<Node>, q: seq<Node>, a: Node, b: Node, c: Node)
    requires WalkBetween(g, p, a, b) && WalkBetween(g, q, b, c)
    ensures WalkBetween(g, p + q[1..], a, c)
  {
  }

  lemma ReachesStep(g: Graph, a: Node, b: Node, c: Node)
    requires Reaches(g, a, b) && Edge(g, b, c)
    ensures Reaches(g, a, c)
  {
    var p :| WalkBetween(g, p, a, b);
    WalkAppend(g, p, a, b, c);
  }

  lemma ReachesTrans(g: Graph, a: Node, b: Node, c: Node)
    requires Reaches(g, a, b) && Reaches(g, b, c)
    ensures Reaches(g, a, c)
  {
    var p :| WalkBetween(g, p, a, b);
    var q :| WalkBetween(g, q, b, c);
    WalkJoin(g, p, q, a, b, c);
  }

  lemma ReachesEdge(g: Graph, a: Node, b: Node)
    requires Edge(g, a, b)
    ensures Reaches(g, a, b)
  {
    ReachesSelf(g, a);
    ReachesStep(g, a, a, b);
  }

  /** A set closed under edges holds everything its members reach. */
  lemma {:induction false} ReachesStaysIn(g: Graph, s: set<Node>, a: Node, p: seq<Node>, b: Node)
    requires a in s && WalkBetween(g, p, a, b)
    requires forall x, y :: x in s && Edge(g, x, y) ==> y in s
    ensures b in s && (forall x :: x in p ==> x in s)
    decreases |p|
  {
    if |p| > 1 {
      var i := |p| - 1;
      assert Edge(g, p[i - 1], p[i]);
      ReachesStaysIn(g, s, a, p[..i], p[i - 1]);
    }
  }

  lemma WalkPrefix(g: Graph, p: seq<Node>, a: Node, b: Node, k: nat)
    requires WalkBetween(g, p, a, b) && k < |p|
    ensures WalkBetween(g, p[..k + 1], a, p[k])
  {
  }

  /** A dominator of a reachable node is on the way to it. */
  lemma DominatorReaches(g: Graph, d: Node, b: Node)
    requires Reaches(g, ENTRY, b) && Dominates(g, d, b)
    ensures Reaches(g, ENTRY, d) && Reaches(g, d, b)
  {
    var p :| WalkBetween(g, p, ENTRY, b);
    var k :| 0 <= k < |p| && p[k] == d;
    WalkPrefix(g, p, ENTRY, b, k);
    assert WalkBetween(g, p[k..], d, b);
  }

  /** A strict dominator of b dominates every predecessor of b. */
  lemma StrictDominatorOfPred(g: Graph, d: Node, b: Node, p: Node)
    requires StrictlyDominates(g, d, b) && Edge(g, p, b)
    ensures Dominates(g, d, p)
  {
    forall w | WalkBetween(g, w, ENTRY, p) ensures d in w {
      WalkAppend(g, w, ENTRY, p, b);
      assert d in w + [b];
    }
  }

  lemma DominatesSelf(g: Graph, b: Node)
    ensures Dominates(g, b, b)
  {
    forall w | WalkBetween(g, w, ENTRY, b) ensures b in w {
      assert w[|w| - 1] == b;
    }
  }

  lemma {:induction false} SubsetCard(s: set<Node>, t: set<Node>)
    requires s <= t
    ensures |s| <= |t|
  {
    if s != {} {
      var x :| x in s;
      SubsetCard(s - {x}, t - {x});
    }
  }
}
