/** Strongly connected components, and what Tarjan's search keeps while it runs: the
    invariants are stated on snapshots of its state. */
module Tarjan {
  import opened Graphs

  ghost predicate Connected(g: Graph, x: Node, y: Node) {
    Reaches(g, x, y) && Reaches(g, y, x)
  }

  /** The strongly connected component of x. */
  ghost function Scc(g: Graph, x: Node): set<Node> {
    set y | y in g && Connected(g, x, y)
  }

  lemma SccSelf(g: Graph, x: Node)
    requires x in g
    ensures x in Scc(g, x)
  {
    ReachesSelf(g, x);
  }

  lemma ConnectedTrans(g: Graph, x: Node, y: Node, z: Node)
    requires Connected(g, x, y) && Connected(g, y, z)
    ensures Connected(g, x, z)
  {
    ReachesTrans(g, x, y, z);
    ReachesTrans(g, z, y, x);
  }

  lemma SccSame(g: Graph, x: Node, y: Node)
    requires Connected(g, x, y)
    ensures Scc(g, x) == Scc(g, y)
  {
    forall z | z in g ensures Connected(g, x, z) <==> Connected(g, y, z) {
      if Connected(g, x, z) {
        ConnectedTrans(g, y, x, z);
      }
      if Connected(g, y, z) {
        ConnectedTrans(g, x, y, z);
      }
    }
  }

  /** Visit numbers, the stack, and the nodes whose visit has not returned yet. */
  datatype Search = Search(num: map<Node, nat>, count: nat, stack: seq<Node>, gray: set<Node>)

  ghost predicate Completed(s: Search, x: Node) {
    x in s.num && x !in s.stack
  }

  ghost predicate Shape(g: Graph, s: Search) {
    && s.num.Keys <= g.Keys && (forall x :: x in s.num ==> s.num[x] < s.count)
    && (forall x :: x in s.gray ==> x in s.stack)
    && (forall x :: x in s.stack ==> x in s.num)
    && (forall i, j :: 0 <= i < j < |s.stack| ==> s.num[s.stack[i]] < s.num[s.stack[j]])
  }

  /** A visited node whose visit has returned has no unvisited successor. */
  ghost predicate NoBlackToWhite(g: Graph, s: Search) {
    forall x, y {:trigger Edge(g, x, y)} :: x in s.num && x !in s.gray && Edge(g, x, y) ==> y in s.num
  }

  /** Older nodes on the stack reach newer ones. */
  ghost predicate OldReachNew(g: Graph, s: Search)
    requires Shape(g, s)
  {
    forall x, y {:trigger Reaches(g, x, y)} :: x in s.stack && y in s.stack && s.num[x] <= s.num[y] ==> Reaches(g, x, y)
  }

  ghost predicate ReachesGray(g: Graph, s: Search, y: Node, x: Node)
    requires Shape(g, s) && y in s.num
  {
    x in s.gray && s.num[x] <= s.num[y] && Reaches(g, y, x)
  }

  ghost predicate HasGray(g: Graph, s: Search, y: Node)
    requires Shape(g, s) && y in s.num
  {
    exists x :: ReachesGray(g, s, y, x)
  }

  /** Every node on the stack reaches an older one that is still being visited. */
  ghost predicate AllReachGray(g: Graph, s: Search)
    requires Shape(g, s)
  {
    forall y {:trigger HasGray(g, s, y)} :: y in s.stack ==> HasGray(g, s, y)
  }

  /** Components leave the stack as a whole. */
  ghost predicate WholeComponents(g: Graph, s: Search) {
    forall x, y {:trigger Connected(g, x, y)} :: Completed(s, x) && y in g && Connected(g, x, y) ==> Completed(s, y)
  }

  ghost predicate Inv(g: Graph, s: Search) {
    && Closed(g) && Shape(g, s) && NoBlackToWhite(g, s) && OldReachNew(g, s) && AllReachGray(g, s) &&
      WholeComponents(g, s)
  }

  /** The components found so far that have two nodes or more. */
  ghost predicate Found(g: Graph, s: Search, result: set<set<Node>>) {
    forall c {:trigger c in result} :: c in result <==> exists x :: Completed(s, x) && c == Scc(g, x) && |c| >= 2
  }

  // ------------------------------------------------------------ entering n

  ghost function Pushed(s: Search, n: Node): Search {
    Search(s.num[n := s.count], s.count + 1, s.stack + [n], s.gray + {n})
  }

  ghost predicate MayVisit(g: Graph, s: Search, n: Node) {
    Inv(g, s) && n in g && n !in s.num && forall x :: x in s.gray ==> Reaches(g, x, n)
  }

  lemma PushKeepsInv(g: Graph, s: Search, n: Node)
    requires MayVisit(g, s, n)
    ensures Inv(g, Pushed(s, n))
  {
    PushKeepsShape(g, s, n);
    PushKeepsOrder(g, s, n);
    PushKeepsGray(g, s, n);
    PushKeepsWhole(g, s, n);
  }

  lemma PushKeepsShape(g: Graph, s: Search, n: Node)
    requires Shape(g, s) && NoBlackToWhite(g, s) && n in g && n !in s.num
    ensures Shape(g, Pushed(s, n)) && NoBlackToWhite(g, Pushed(s, n))
  {
  }

  lemma PushKeepsWhole(g: Graph, s: Search, n: Node)
    requires WholeComponents(g, s) && n !in s.num
    ensures WholeComponents(g, Pushed(s, n))
  {
    forall x, y | Completed(Pushed(s, n), x) && y in g && Connected(g, x, y) ensures Completed(Pushed(s, n), y) {
      assert Completed(s, x) && Completed(s, y);
    }
  }

  lemma PushKeepsGray(g: Graph, s: Search, n: Node)
    requires Shape(g, s) && AllReachGray(g, s) && n !in s.num && Shape(g, Pushed(s, n))
    ensures AllReachGray(g, Pushed(s, n))
  {
    var t := Pushed(s, n);
    forall y | y in t.stack ensures HasGray(g, t, y) {
      if y == n {
        ReachesSelf(g, n);
        assert ReachesGray(g, t, n, n);
      } else {
        assert HasGray(g, s, y);
        var x :| ReachesGray(g, s, y, x);
        assert ReachesGray(g, t, y, x);
      }
    }
  }

  lemma PushKeepsOrder(g: Graph, s: Search, n: Node)
    requires MayVisit(g, s, n) && Shape(g, Pushed(s, n))
    ensures OldReachNew(g, Pushed(s, n))
  {
    var t := Pushed(s, n);
    forall x, y | x in t.stack && y in t.stack && t.num[x] <= t.num[y] ensures Reaches(g, x, y) {
      if x == y {
        ReachesSelf(g, x);
      } else if y == n {
        assert HasGray(g, s, x);
        var z :| ReachesGray(g, s, x, z);
        ReachesTrans(g, x, z, n);
      }
    }
  }

  // ------------------------------------------------------- the successor loop

  ghost predicate NumsKept(s: Search, t: Search) {
    s.count <= t.count && forall x :: x in s.num ==> x in t.num && t.num[x] == s.num[x]
  }

  ghost predicate Lowest(g: Graph, s: Search, n: Node, low: nat, y: Node)
    requires Shape(g, s)
  {
    y in s.stack && s.num[y] == low && Reaches(g, n, y)
  }

  /** Edges from what the visit left on the stack to what was there before end at or
      above `low`; those of n itself only count once they were looked at. */
  ghost predicate NoneLower(g: Graph, s0: Search, s: Search, n: Node, seen: set<Node>, low: nat)
    requires Shape(g, s)
  {
    forall x, y {:trigger Edge(g, x, y)} ::
      x in s.stack && x !in s0.stack && y in s0.stack && y in s.stack && Edge(g, x, y) && (x == n ==> y in seen) ==>
        low <= s.num[y]
  }

  /** In the loop over the successors of n, those in `seen` done. */
  ghost predicate Visiting(g: Graph, s0: Search, s: Search, n: Node, seen: set<Node>, low: nat) {
    && MayVisit(g, s0, n) && Inv(g, s) && NumsKept(s0, s) && s.gray == s0.gray + {n} && s0.stack + [n] <= s.stack
    && n in s.num && s.num[n] == s0.count && seen <= s.num.Keys && low <= s.num[n]
    && (exists y :: Lowest(g, s, n, low, y))
    && NoneLower(g, s0, s, n, seen, low)
  }

  /** What a visit of n achieves. */
  ghost predicate Visited(g: Graph, s0: Search, s: Search, n: Node, low: nat) {
    && Inv(g, s) && NumsKept(s0, s) && s.gray == s0.gray && s0.stack <= s.stack
    && n in s.num && s.num[n] == s0.count && low <= s.num[n]
    && (if n in s.stack then exists y :: Lowest(g, s, n, low, y) else low == s.num[n])
    && NoneLower(g, s0, s, n, s0.num.Keys, low)
  }

  lemma VisitBegins(g: Graph, s0: Search, n: Node)
    requires MayVisit(g, s0, n)
    ensures Visiting(g, s0, Pushed(s0, n), n, {}, s0.count)
  {
    PushKeepsInv(g, s0, n);
    ReachesSelf(g, n);
    assert Lowest(g, Pushed(s0, n), n, s0.count, n);
  }

  lemma ChildMayBeVisited(g: Graph, s0: Search, s: Search, n: Node, seen: set<Node>, low: nat, su: Node)
    requires Visiting(g, s0, s, n, seen, low) && Edge(g, n, su) && su !in s.num
    ensures MayVisit(g, s, su)
  {
    forall x | x in s.gray ensures Reaches(g, x, su) {
      if x == n {
        ReachesSelf(g, n);
      }
      ReachesStep(g, x, n, su);
    }
  }

  function Min(a: nat, b: nat): nat {
    if a < b then a else b
  }

  /** An unvisited successor was visited. */
  lemma ChildVisited(g: Graph, s0: Search, s: Search, t: Search, n: Node, seen: set<Node>, low: nat, su: Node,
                     lowSu: nat)
    requires Visiting(g, s0, s, n, seen, low) && Edge(g, n, su) && su !in s.num && Visited(g, s, t, su, lowSu)
    ensures Visiting(g, s0, t, n, seen + {su}, Min(lowSu, low))
  {
    assert s0.stack + [n] <= t.stack;
    if lowSu < low {
      var y :| Lowest(g, t, su, lowSu, y);
      ReachesEdge(g, n, su);
      ReachesTrans(g, n, su, y);
      assert Lowest(g, t, n, lowSu, y);
    } else {
      var y :| Lowest(g, s, n, low, y);
      assert y in t.stack;
      assert Lowest(g, t, n, low, y);
    }
    forall x, y | x in t.stack && x !in s0.stack && y in s0.stack && y in t.stack && Edge(g, x, y) &&
      (x == n ==> y in seen + {su})
      ensures Min(lowSu, low) <= t.num[y]
    {
      assert y in s.stack && y in s.num;
    }
  }

  /** A visited successor counts if it is on the stack. */
  lemma SuccessorSeen(g: Graph, s0: Search, s: Search, n: Node, seen: set<Node>, low: nat, su: Node)
    requires Visiting(g, s0, s, n, seen, low) && Edge(g, n, su) && su in s.num
    ensures Visiting(g, s0, s, n, seen + {su}, if su in s.stack then Min(s.num[su], low) else low)
  {
    ReachesEdge(g, n, su);
    if su in s.stack && s.num[su] < low {
      assert Lowest(g, s, n, s.num[su], su);
    }
  }

  // ------------------------------------------------------------- leaving n

  /** A node that reaches an older one need not be gray itself. */
  lemma GrayMayLeave(g: Graph, s: Search, n: Node, y0: Node, y: Node)
    requires Shape(g, s) && AllReachGray(g, s) && n in s.num && y in s.stack
    requires y0 in s.stack && s.num[y0] < s.num[n] && Reaches(g, n, y0)
    ensures exists x :: ReachesGray(g, s, y, x) && x != n
  {
    assert HasGray(g, s, y) && HasGray(g, s, y0);
    var x :| ReachesGray(g, s, y, x);
    if x == n {
      var z0 :| ReachesGray(g, s, y0, z0);
      ReachesTrans(g, y, n, y0);
      ReachesTrans(g, y, y0, z0);
      assert ReachesGray(g, s, y, z0);
    }
  }

  lemma BlackenKeepsInv(g: Graph, s: Search, n: Node, y0: Node)
    requires Inv(g, s) && n in s.num && y0 in s.stack && s.num[y0] < s.num[n] && Reaches(g, n, y0)
    requires forall y :: Edge(g, n, y) ==> y in s.num
    ensures Inv(g, s.(gray := s.gray - {n}))
  {
    var t := s.(gray := s.gray - {n});
    BlackenKeepsGray(g, s, n, y0);
    StayWhole(g, s, t);
    BlackenKeepsShape(g, s, n);
  }

  lemma BlackenKeepsShape(g: Graph, s: Search, n: Node)
    requires Shape(g, s) && NoBlackToWhite(g, s) && OldReachNew(g, s) && n in s.num
    requires forall y :: Edge(g, n, y) ==> y in s.num
    ensures var t := s.(gray := s.gray - {n}); Shape(g, t) && NoBlackToWhite(g, t) && OldReachNew(g, t)
  {
  }

  lemma BlackenKeepsGray(g: Graph, s: Search, n: Node, y0: Node)
    requires Shape(g, s) && AllReachGray(g, s) && n in s.num && y0 in s.stack && s.num[y0] < s.num[n] &&
      Reaches(g, n, y0)
    ensures var t := s.(gray := s.gray - {n}); Shape(g, t) && AllReachGray(g, t)
  {
    var t := s.(gray := s.gray - {n});
    forall y | y in t.stack ensures HasGray(g, t, y) {
      GrayMayLeave(g, s, n, y0, y);
      var x :| ReachesGray(g, s, y, x) && x != n;
      assert ReachesGray(g, t, y, x);
    }
  }

  lemma StayWhole(g: Graph, s: Search, t: Search)
    requires WholeComponents(g, s) && t.num == s.num && t.stack == s.stack
    ensures WholeComponents(g, t)
  {
    forall x, y | Completed(t, x) && y in g && Connected(g, x, y) ensures Completed(t, y) {
      assert Completed(s, x) && Completed(s, y);
    }
  }

  /** n reaches an older node: it stays on the stack. */
  lemma StaysOnStack(g: Graph, s0: Search, s: Search, n: Node, low: nat)
    requires n in g && Visiting(g, s0, s, n, g[n], low) && low < s.num[n]
    ensures Visited(g, s0, s.(gray := s0.gray), n, low)
  {
    var t := s.(gray := s0.gray);
    var y0 :| Lowest(g, s, n, low, y0);
    assert s0.gray == s.gray - {n};
    BlackenKeepsInv(g, s, n, y0);
    assert Lowest(g, t, n, low, y0);
    assert n in s.stack by { assert (s0.stack + [n])[|s0.stack|] == n; }
  }

  /** What is on the stack from n on. */
  ghost function Segment(s0: Search, s: Search): set<Node>
    requires s0.stack <= s.stack
  {
    set x | x in s.stack[|s0.stack|..]
  }

  lemma SegmentReachesBack(g: Graph, s0: Search, s: Search, n: Node, low: nat, y: Node)
    requires n in g && Visiting(g, s0, s, n, g[n], low) && y in Segment(s0, s)
    ensures Connected(g, n, y)
  {
    var k := |s0.stack|;
    assert s.stack[k] == n by { assert (s0.stack + [n])[k] == n; }
    var j :| 0 <= j < |s.stack[k..]| && s.stack[k..][j] == y;
    assert s.stack[k + j] == y;
    assert HasGray(g, s, y);
    var z :| ReachesGray(g, s, y, z);
    assert s.num[z] <= s.num[n];
    ReachesTrans(g, y, z, n);
  }

  lemma {:induction false} ReachedIsInSegment(g: Graph, s0: Search, s: Search, n: Node, low: nat, w: seq<Node>, y: Node)
    requires n in g && Visiting(g, s0, s, n, g[n], low) && low == s.num[n] && WalkBetween(g, w, n, y) &&
      Reaches(g, y, n)
    ensures y in Segment(s0, s)
    decreases |w|
  {
    var k := |s0.stack|;
    assert s.stack[k] == n by { assert (s0.stack + [n])[k] == n; }
    assert n in s.stack[k..] by { assert s.stack[k..][0] == n; }
    if |w| > 1 {
      var i := |w| - 2;
      var x := w[i];
      assert Edge(g, w[i], w[i + 1]);
      WalkPrefix(g, w, n, y, i);
      ReachesEdge(g, x, y);
      ReachesTrans(g, x, y, n);
      ReachedIsInSegment(g, s0, s, n, low, w[..i + 1], x);
      SegmentOrOlder(s0, s, x);
      assert y in s.num && Reaches(g, n, y);
      assert Connected(g, y, n);
      assert !Completed(s, y);
      SegmentOrOlder(s0, s, y);
      SegmentIsNew(g, s0, s, x);
      OldNumbers(g, s0, s);
    }
  }

  lemma OldNumbers(g: Graph, s0: Search, s: Search)
    requires Shape(g, s0) && NumsKept(s0, s)
    ensures forall y :: y in s0.stack ==> y in s.num && s.num[y] < s0.count
  {
  }

  lemma SegmentOrOlder(s0: Search, s: Search, x: Node)
    requires s0.stack <= s.stack
    ensures x in s.stack <==> x in s0.stack || x in Segment(s0, s)
  {
    assert s.stack == s0.stack + s.stack[|s0.stack|..];
  }

  lemma SegmentIsNew(g: Graph, s0: Search, s: Search, x: Node)
    requires Shape(g, s) && s0.stack <= s.stack && x in Segment(s0, s)
    ensures x !in s0.stack
  {
    var k := |s0.stack|;
    var j :| 0 <= j < |s.stack[k..]| && s.stack[k..][j] == x;
    assert s.stack[k + j] == x;
    forall i | 0 <= i < k ensures s0.stack[i] != x {
      assert s.stack[i] == s0.stack[i] && s.num[s.stack[i]] < s.num[s.stack[k + j]];
    }
  }

  /** When the low link of n is its own number, the stack from n on is its component. */
  lemma SegmentIsScc(g: Graph, s0: Search, s: Search, n: Node, low: nat)
    requires n in g && Visiting(g, s0, s, n, g[n], low) && low == s.num[n]
    ensures Segment(s0, s) == Scc(g, n)
  {
    forall y ensures y in Segment(s0, s) <==> y in Scc(g, n) {
      if y in Segment(s0, s) {
        SegmentReachesBack(g, s0, s, n, low, y);
        SegmentOrOlder(s0, s, y);
      }
      if y in Scc(g, n) {
        var w :| WalkBetween(g, w, n, y);
        ReachedIsInSegment(g, s0, s, n, low, w, y);
      }
    }
  }

  /** The component of n leaves the stack. */
  lemma LeavesStack(g: Graph, s0: Search, s: Search, n: Node, low: nat)
    requires n in g && Visiting(g, s0, s, n, g[n], low) && low == s.num[n]
    ensures Visited(g, s0, Search(s.num, s.count, s0.stack, s0.gray), n, low)
    ensures forall x :: Completed(Search(s.num, s.count, s0.stack, s0.gray), x) <==> Completed(s, x) || x in Scc(g, n)
  {
    var t := Search(s.num, s.count, s0.stack, s0.gray);
    SegmentIsScc(g, s0, s, n, low);
    assert s.stack[..|s0.stack|] == s0.stack;
    forall x ensures Completed(t, x) <==> Completed(s, x) || x in Scc(g, n) {
      SegmentOrOlder(s0, s, x);
      if x in Segment(s0, s) {
        SegmentIsNew(g, s0, s, x);
      }
    }
    PoppedIsWhole(g, s, t, n);
    PoppedKeepsInv(g, s0, s, n, low);
    SccSelf(g, n);
  }

  lemma PoppedIsWhole(g: Graph, s: Search, t: Search, n: Node)
    requires n in g && Inv(g, s) && forall x :: Completed(t, x) <==> Completed(s, x) || x in Scc(g, n)
    ensures WholeComponents(g, t)
  {
    forall x, y | Completed(t, x) && y in g && Connected(g, x, y) ensures Completed(t, y) {
      if x in Scc(g, n) {
        ConnectedTrans(g, n, x, y);
      }
    }
  }

  lemma PoppedKeepsInv(g: Graph, s0: Search, s: Search, n: Node, low: nat)
    requires n in g && Visiting(g, s0, s, n, g[n], low)
    ensures var t := Search(s.num, s.count, s0.stack, s0.gray);
      Shape(g, t) && NoBlackToWhite(g, t) && OldReachNew(g, t) && AllReachGray(g, t)
  {
    var t := Search(s.num, s.count, s0.stack, s0.gray);
    PoppedKeepsShape(g, s0, s);
    forall y | y in t.stack ensures HasGray(g, t, y) {
      assert HasGray(g, s0, y);
      var x :| ReachesGray(g, s0, y, x);
      assert ReachesGray(g, t, y, x);
    }
  }

  lemma PoppedKeepsShape(g: Graph, s0: Search, s: Search)
    requires Shape(g, s0) && Shape(g, s) && NumsKept(s0, s) && s0.stack <= s.stack
    ensures Shape(g, Search(s.num, s.count, s0.stack, s0.gray))
    ensures forall x :: x in s0.stack ==> x in s.stack
  {
  }

  lemma FoundKept(g: Graph, s: Search, t: Search, result: set<set<Node>>)
    requires Found(g, s, result) && forall x :: Completed(t, x) <==> Completed(s, x)
    ensures Found(g, t, result)
  {
  }

  lemma FoundMore(g: Graph, s: Search, t: Search, result: set<set<Node>>, n: Node)
    requires n in g && Found(g, s, result) && forall x :: Completed(t, x) <==> Completed(s, x) || x in Scc(g, n)
    ensures Found(g, t, if |Scc(g, n)| == 1 then result else result + {Scc(g, n)})
  {
    var c0 := Scc(g, n);
    SccSelf(g, n);
    forall x | x in c0 ensures Scc(g, x) == c0 {
      SccSame(g, n, x);
    }
    assert |c0| >= 1 by { assert c0 != {}; }
  }

  // ----------------------------------------------------------- the whole search

  lemma SearchStarts(g: Graph)
    requires Closed(g)
    ensures Inv(g, Search(map[], 0, [], {})) && Found(g, Search(map[], 0, [], {}), {})
  {
  }

  /** Between two top-level visits the stack is empty. */
  lemma StackIsEmpty(g: Graph, s: Search)
    requires Inv(g, s) && s.gray == {}
    ensures s.stack == []
  {
    assert s.stack != [] ==> s.stack[0] in s.stack && HasGray(g, s, s.stack[0]);
  }

  /** c is a largest set of mutually reachable nodes. */
  ghost predicate IsComponent(g: Graph, c: set<Node>) {
    && c != {} && c <= g.Keys
    && (forall x, y {:trigger Connected(g, x, y)} :: x in c && y in g ==> (y in c <==> Connected(g, x, y)))
  }

  /** Exactly the components with two nodes or more. */
  ghost predicate AreComponents(g: Graph, result: set<set<Node>>) {
    forall c {:trigger c in result} :: c in result <==> IsComponent(g, c) && |c| >= 2
  }

  lemma SearchEnds(g: Graph, s: Search, result: set<set<Node>>)
    requires Inv(g, s) && s.gray == {} && s.num.Keys == g.Keys && Found(g, s, result)
    ensures AreComponents(g, result)
  {
    StackIsEmpty(g, s);
    forall c ensures c in result <==> IsComponent(g, c) && |c| >= 2 {
      if c in result {
        var x :| Completed(s, x) && c == Scc(g, x) && |c| >= 2;
        SccIsComponent(g, x);
      }
      if IsComponent(g, c) && |c| >= 2 {
        var x :| x in c;
        ComponentIsScc(g, c, x);
        assert Completed(s, x);
      }
    }
  }

  lemma SccIsComponent(g: Graph, x: Node)
    requires x in g
    ensures IsComponent(g, Scc(g, x))
  {
    SccSelf(g, x);
    forall y, z | y in Scc(g, x) && z in g ensures z in Scc(g, x) <==> Connected(g, y, z) {
      SccSame(g, x, y);
    }
  }

  lemma ComponentIsScc(g: Graph, c: set<Node>, x: Node)
    requires IsComponent(g, c) && x in c
    ensures c == Scc(g, x)
  {
  }

  /** Components that share a node are the same. */
  lemma ComponentsDisjoint(g: Graph, c: set<Node>, d: set<Node>)
    requires IsComponent(g, c) && IsComponent(g, d) && c != d
    ensures c !! d
  {
    if x :| x in c && x in d {
      ComponentIsScc(g, c, x);
      ComponentIsScc(g, d, x);
    }
  }
}
