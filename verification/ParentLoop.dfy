/** The enclosing loop that `get_parent_loop` looks up through one predecessor of the
    base, and when that is the right answer. */
module ParentLoop {
  import opened Wrappers
  import opened Graphs
  import opened LoopNest

  ghost predicate BodiesAre(loops: seq<Loop>, loopSet: set<set<Node>>) {
    forall c :: c in loopSet <==> exists i :: 0 <= i < |loops| && loops[i].body == c
  }

  /** The least recorded loop that properly encloses l. */
  ghost predicate IsParentOf(loopSet: set<set<Node>>, l: set<Node>, p: set<Node>) {
    p in loopSet && l < p && forall q :: q in loopSet && l < q ==> p <= q
  }

  ghost predicate HasParent(loopSet: set<set<Node>>, l: set<Node>) {
    exists q :: q in loopSet && l < q
  }

  /** What the lookup is meant to return. */
  ghost predicate IsRight(loopSet: set<set<Node>>, l: set<Node>, r: Option<set<Node>>) {
    if r.Some? then IsParentOf(loopSet, l, r.value) else !HasParent(loopSet, l)
  }

  /** Some recorded loop holds p but not the base. */
  ghost predicate Hidden(loopSet: set<set<Node>>, base: Node, p: Node) {
    exists s :: s in loopSet && p in s && base !in s
  }

  /** What it returns: the innermost loop of p, if there is one and it holds the base. */
  ghost predicate IsAnswer(loopSet: set<set<Node>>, base: Node, p: Node, r: Option<set<Node>>) {
    && (r.Some? <==> (exists s :: s in loopSet && p in s) && !Hidden(loopSet, base, p))
    && (r.Some? ==> r.value in loopSet && base in r.value && p in r.value && forall s :: s in loopSet && p in s ==>
      r.value <= s)
  }

  /** The answer when p is the first predecessor of the base outside the loop, if any. */
  ghost predicate LookupGives(loopSet: set<set<Node>>, base: Node, p: Option<Node>, r: Option<set<Node>>) {
    if p.Some? then IsAnswer(loopSet, base, p.value, r) else r.None?
  }

  /** The least loop around l holds p, and no recorded loop holds p without the base. */
  ghost predicate LeadsToParent(loopSet: set<set<Node>>, l: set<Node>, base: Node, p: Node) {
    !Hidden(loopSet, base, p) && exists q :: IsParentOf(loopSet, l, q) && p in q
  }

  /** Every recorded loop is entered at its base only. */
  ghost predicate SingleEntry(g: Graph, loops: seq<Loop>) {
    forall i, b {:trigger Entered(g, loops[i].body, b)} :: 0 <= i < |loops| && Entered(g, loops[i].body, b) ==>
      b == loops[i].base
  }

  /** Recorded loops that share a block are nested. */
  lemma SharedAreNested(loops: seq<Loop>, i: nat, j: nat, x: Node)
    requires Nest(loops) && i < |loops| && j < |loops| && x in loops[i].body && x in loops[j].body
    ensures loops[i].body <= loops[j].body || loops[j].body <= loops[i].body
  {
    if i < j {
      assert NestedOrApart(loops[i], loops[j]);
    } else if j < i {
      assert NestedOrApart(loops[j], loops[i]);
    }
  }

  /** A predecessor of the base lies in every loop around it. */
  lemma PredInEnclosing(g: Graph, loops: seq<Loop>, i: nat, j: nat, p: Node)
    requires Nest(loops) && SingleEntry(g, loops) && i < |loops| && j < |loops|
    requires loops[i].base in loops[i].body && loops[i].body < loops[j].body && Edge(g, p, loops[i].base)
    ensures p in loops[j].body
  {
    var b := loops[i].base;
    assert j < i ==> NestedOrApart(loops[j], loops[i]);
    assert p !in loops[j].body ==> Entered(g, loops[j].body, b);
  }

  /** The answer is always a loop around l. */
  lemma AnswerEncloses(loops: seq<Loop>, loopSet: set<set<Node>>, i: nat, p: Node, r: Option<set<Node>>)
    requires Nest(loops) && BodiesAre(loops, loopSet) && i < |loops| && loops[i].base in loops[i].body &&
      p !in loops[i].body
    requires IsAnswer(loopSet, loops[i].base, p, r) && r.Some?
    ensures loops[i].body < r.value
  {
    var j :| 0 <= j < |loops| && loops[j].body == r.value;
    SharedAreNested(loops, i, j, loops[i].base);
  }

  /** The answer is right iff there is no loop around l, or the predecessor leads to the
      least one. */
  lemma AnswerIsRightIff(loops: seq<Loop>, loopSet: set<set<Node>>, i: nat, p: Option<Node>, r: Option<set<Node>>)
    requires Nest(loops) && BodiesAre(loops, loopSet) && i < |loops| && loops[i].base in loops[i].body
    requires (p.Some? ==> p.value !in loops[i].body) && LookupGives(loopSet, loops[i].base, p, r)
    ensures IsRight(loopSet, loops[i].body, r) <==>
      !HasParent(loopSet, loops[i].body) || (p.Some? && LeadsToParent(loopSet, loops[i].body, loops[i].base, p.value))
  {
    var l := loops[i].body;
    if r.Some? {
      AnswerEncloses(loops, loopSet, i, p.value, r);
    }
    if p.Some? && LeadsToParent(loopSet, l, loops[i].base, p.value) {
      var q :| IsParentOf(loopSet, l, q) && p.value in q;
      assert r.Some? && r.value <= q <= r.value;
    }
  }

  /** The same when the predecessor at k is the first outside the loop. */
  lemma LookupIsRightIff(loops: seq<Loop>, loopSet: set<set<Node>>, i: nat, ps: seq<Node>, k: nat,
                         r: Option<set<Node>>)
    requires Nest(loops) && BodiesAre(loops, loopSet) && i < |loops| && loops[i].base in loops[i].body
    requires k < |ps| && ps[k] !in loops[i].body && forall j :: 0 <= j < k ==> ps[j] in loops[i].body
    requires IsAnswer(loopSet, loops[i].base, ps[k], r)
    ensures r.Some? ==> loops[i].body < r.value
    ensures IsRight(loopSet, loops[i].body, r) <==>
      || !HasParent(loopSet, loops[i].body)
      || exists l :: 0 <= l < |ps| && ps[l] !in loops[i].body && (forall j :: 0 <= j < l ==> ps[j] in loops[i].body) &&
           LeadsToParent(loopSet, loops[i].body, loops[i].base, ps[l])
  {
    AnswerIsRightIff(loops, loopSet, i, Some(ps[k]), r);
    if r.Some? {
      AnswerEncloses(loops, loopSet, i, ps[k], r);
    }
    forall l | 0 <= l < |ps| && ps[l] !in loops[i].body && forall j :: 0 <= j < l ==> ps[j] in loops[i].body
      ensures l == k
    {
    }
  }

  /** Where loops are entered at their bases only, every loop around l holds the
      predecessor, so that only a recorded loop that holds it without the base is in the way. */
  lemma SingleEntryRightIff(g: Graph, loops: seq<Loop>, loopSet: set<set<Node>>, i: nat, p: Node, r: Option<set<Node>>)
    requires Nest(loops) && SingleEntry(g, loops) && BodiesAre(loops, loopSet)
    requires i < |loops| && loops[i].base in loops[i].body && p !in loops[i].body && Edge(g, p, loops[i].base)
    requires IsAnswer(loopSet, loops[i].base, p, r)
    ensures IsRight(loopSet, loops[i].body, r) <==>
      !HasParent(loopSet, loops[i].body) || !Hidden(loopSet, loops[i].base, p)
  {
    var l := loops[i].body;
    forall q | q in loopSet && l < q ensures p in q {
      var j :| 0 <= j < |loops| && loops[j].body == q;
      PredInEnclosing(g, loops, i, j, p);
    }
    if r.Some? {
      AnswerEncloses(loops, loopSet, i, p, r);
    }
  }

  // ------------------------------------------------------------- a hidden parent

  /** Block 1 heads a loop with two inner loops, {2, 3} and {4, 5}, one after the other. */
  function TwoInnerLoops(): Graph {
    map[0 := {1}, 1 := {2}, 2 := {3}, 3 := {2, 4}, 4 := {5}, 5 := {4, 1}]
  }

  lemma RoundTripConnects(g: Graph, body: set<Node>, p: seq<Node>)
    requires Walk(g, p) && p[0] == p[|p| - 1] && AllIn(p, body) && forall x :: x in body ==> x in p
    ensures StronglyConnected(g, body)
  {
    WalkWithin(g, body, p);
    forall x, y | x in body && y in body ensures Reaches(Within(g, body), x, y) {
      CycleConnected(Within(g, body), p, x);
      CycleConnected(Within(g, body), p, y);
      ReachesTrans(Within(g, body), x, p[0], y);
    }
  }

  lemma TwoInnerEdges(a: Node, b: Node)
    ensures Edge(TwoInnerLoops(), a, b) <==>
      (a < 5 && b == a + 1) || (a == 3 && b == 2) || (a == 5 && (b == 4 || b == 1))
  {
  }

  lemma OuterIsKnot()
    ensures Knot(TwoInnerLoops(), {1, 2, 3, 4, 5})
  {
    RoundTripConnects(TwoInnerLoops(), {1, 2, 3, 4, 5}, [1, 2, 3, 4, 5, 1]);
  }

  lemma InnersAreKnots()
    ensures Knot(TwoInnerLoops(), {2, 3}) && Knot(TwoInnerLoops(), {4, 5})
  {
    RoundTripConnects(TwoInnerLoops(), {2, 3}, [2, 3, 2]);
    RoundTripConnects(TwoInnerLoops(), {4, 5}, [4, 5, 4]);
  }

  lemma KnotAvoidsEntry(d: set<Node>)
    requires Knot(TwoInnerLoops(), d)
    ensures d <= {1, 2, 3, 4, 5}
  {
    var small := Within(TwoInnerLoops(), d);
    if 0 in d {
      var x := OtherMember(d, 0);
      assert Reaches(small, x, 0);
      var p :| WalkBetween(small, p, x, 0);
      assert Edge(small, p[|p| - 2], p[|p| - 1]);
      TwoInnerEdges(p[|p| - 2], 0);
    }
  }

  /** Away from block 1 there are no other knots than the two inner loops. */
  lemma InnerKnots(d: set<Node>)
    requires Knot(TwoInnerLoops(), d) && d <= {2, 3, 4, 5}
    ensures d == {2, 3} || d == {4, 5}
  {
    var small := Within(TwoInnerLoops(), d);
    forall x: Node, y: Node | x in {4, 5} && Edge(small, x, y) ensures y in {4, 5} {
      TwoInnerEdges(x, y);
    }
    forall x, y | x in d && y in d && x in {4, 5} ensures y in {4, 5} {
      assert Reaches(small, x, y);
      var p :| WalkBetween(small, p, x, y);
      ReachesStaysIn(small, {4, 5}, x, p, y);
    }
    if 4 in d || 5 in d {
      assert d <= {4, 5};
      PairIsWhole(d, 4, 5);
    } else {
      assert d <= {2, 3};
      PairIsWhole(d, 2, 3);
    }
  }

  lemma PairIsWhole(d: set<Node>, x: Node, y: Node)
    requires d <= {x, y} && |d| >= 2
    ensures d == {x, y}
  {
    if x !in d {
      SubsetCard(d, {y});
    }
    if y !in d {
      SubsetCard(d, {x});
    }
  }

  lemma OuterIsRecorded(loops: seq<Loop>) returns (m: nat)
    requires IsLoopForest(TwoInnerLoops(), loops)
    ensures m < |loops| && loops[m] == Loop({1, 2, 3, 4, 5}, 1)
  {
    var d: set<Node> := {1, 2, 3, 4, 5};
    OuterIsKnot();
    assert Caught(loops, d);
    m :| m < |loops| && Catches(loops[m], d);
    assert IsLoop(TwoInnerLoops(), loops[m]);
    KnotAvoidsEntry(loops[m].body);
    var x :| x !in loops[m].body && Edge(TwoInnerLoops(), x, loops[m].base);
    TwoInnerEdges(x, loops[m].base);
  }

  lemma OthersAreInner(loops: seq<Loop>, i: nat)
    requires IsLoopForest(TwoInnerLoops(), loops) && i < |loops|
    ensures loops[i] == Loop({1, 2, 3, 4, 5}, 1) || loops[i].body == {2, 3} || loops[i].body == {4, 5}
  {
    var m := OuterIsRecorded(loops);
    assert IsLoop(TwoInnerLoops(), loops[i]);
    KnotAvoidsEntry(loops[i].body);
    NestCases(loops, i, m);
    if i > m {
      assert loops[i].body <= {1, 2, 3, 4, 5} - {1};
      InnerKnots(loops[i].body);
    }
  }

  lemma InnerIsFound(loops: seq<Loop>, d: set<Node>)
    requires IsLoopForest(TwoInnerLoops(), loops) && (d == {2, 3} || d == {4, 5})
    ensures Recorded(loops, d)
  {
    InnersAreKnots();
    assert Caught(loops, d);
    var k: nat :| k < |loops| && Catches(loops[k], d);
    OthersAreInner(loops, k);
  }

  /** Whatever the search does on this graph, it records these three loops. */
  lemma ThreeLoopsRecorded(loops: seq<Loop>, loopSet: set<set<Node>>)
    requires IsLoopForest(TwoInnerLoops(), loops) && BodiesAre(loops, loopSet)
    ensures loopSet == {{1, 2, 3, 4, 5}, {2, 3}, {4, 5}}
  {
    var m := OuterIsRecorded(loops);
    InnerIsFound(loops, {2, 3});
    InnerIsFound(loops, {4, 5});
    forall c | c in loopSet ensures c in {{1, 2, 3, 4, 5}, {2, 3}, {4, 5}} {
      var i: nat :| i < |loops| && loops[i].body == c;
      OthersAreInner(loops, i);
    }
  }

  /** Asked for the loop around {4, 5}, whose base 4 is entered from block 3 of the
      sibling loop, the lookup finds none. */
  lemma SiblingHidesParent(loops: seq<Loop>, loopSet: set<set<Node>>, r: Option<set<Node>>)
    requires IsLoopForest(TwoInnerLoops(), loops) && BodiesAre(loops, loopSet) && IsAnswer(loopSet, 4, 3, r)
    ensures r == None && !IsRight(loopSet, {4, 5}, r)
  {
    ThreeLoopsRecorded(loops, loopSet);
    var s, q, l: set<Node> := {2, 3}, {1, 2, 3, 4, 5}, {4, 5};
    assert s in loopSet && 3 in s && 4 !in s;
    assert q in loopSet && l < q;
  }
}
