/** The dominator pass for one function: post-order numbering, immediate
    dominators by iteration, dominance frontiers and the dominator tree. */
module Dominators {
  import opened Wrappers
  import opened Graphs
  import opened ControlFlow
  import opened DomTree
  import opened IdomFixpoint
  import opened PostOrder
  import opened Frontiers

  ghost predicate OnTheWay(up: Tree, id: Numbering, p: Node, b: Node, runner: Option<Node>, passed: set<Node>) {
    && Climbs(up, id) && p in up && b in up && runner.Some? && runner.value in up
    && runner.value in Anc(up, id, p) && Up(up, b) in Anc(up, id, runner.value)
    && passed == Anc(up, id, p) - Anc(up, id, runner.value)
  }

  /** The runner from p towards the parent of b, having passed `passed`. A block that was
      not placed stands alone. */
  ghost predicate Running(up: Tree, id: Numbering, p: Node, b: Node, runner: Option<Node>, passed: set<Node>) {
    if b in up then OnTheWay(up, id, p, b, runner, passed)
    else p !in up && ((runner == Some(p) && passed == {}) || (runner == None && passed == {p}))
  }

  ghost function RunLeft(up: Tree, id: Numbering, b: Node, runner: Option<Node>): nat {
    if runner == None then 0
    else if b in up && ENTRY in id && runner.value in id && id[runner.value] <= id[ENTRY]
    then 1 + id[ENTRY] - id[runner.value]
    else 1
  }

  ghost function ParentOf(up: Tree, b: Node): Option<Node> {
    if b in up then Some(up[b]) else None
  }

  lemma RunStarts(g: Cfg, id: Numbering, up: Tree, p: Node, b: Node)
    requires g.Valid() && g.ReachablePreds() && IsDominatorTree(g.Edges(), id, up) && Edge(g.Edges(), p, b)
    ensures Running(up, id, p, b, Some(p), {})
  {
    SameReachability(g, id, up, p, b);
    if b in up {
      IdomAbovePred(g.Edges(), id, up, p, b);
      AncBasics(up, id, p);
    }
  }

  lemma RunSteps(up: Tree, id: Numbering, p: Node, b: Node, runner: Option<Node>, passed: set<Node>)
    requires Climbs(up, id) && Running(up, id, p, b, runner, passed) && runner != ParentOf(up, b)
    ensures runner.Some? && (runner.value in up || runner.value == p)
    ensures Running(up, id, p, b, ParentOf(up, runner.value), passed + {runner.value})
    ensures RunLeft(up, id, b, ParentOf(up, runner.value)) < RunLeft(up, id, b, runner)
  {
    if b in up {
      RunnerStep(up, id, p, b, runner.value);
    }
  }

  lemma RunEnds(up: Tree, id: Numbering, p: Node, b: Node, runner: Option<Node>, passed: set<Node>)
    requires Climbs(up, id) && Running(up, id, p, b, runner, passed) && runner == ParentOf(up, b)
    ensures passed == RunnerSet(up, id, p, b)
  {
  }

  lemma SameReachability(g: Cfg, id: Numbering, up: Tree, p: Node, b: Node)
    requires g.Valid() && g.ReachablePreds() && IsDominatorTree(g.Edges(), id, up) && Edge(g.Edges(), p, b)
    ensures p in up <==> b in up
  {
    if Reaches(g.Edges(), ENTRY, p) {
      ReachesStep(g.Edges(), ENTRY, p, b);
    }
    assert g.IsReachable(b) ==> g.IsReachable(p);
  }

  /** Each of the first n blocks is listed as a child of its parent, and of no other. */
  ghost predicate ChildrenUpTo(up: Tree, children: map<Node, set<Node>>, n: nat) {
    forall x: Node, b: Node {:trigger b in children[x]} :: x in children ==>
      (b in children[x] <==> b < n && b in up && up[b] == x && b != x)
  }

  class Dominators {
    const g: Cfg
    var reversePostOrder: seq<Node>
    var postOrderId: Numbering
    var idom: Tree
    var frontier: map<Node, set<Node>>
    var children: map<Node, set<Node>>
    ghost var par: Tree

    constructor (g: Cfg)
      ensures this.g == g && reversePostOrder == [] && postOrderId == map[] && idom == map[]
      ensures frontier == map[] && children == map[]
    {
      this.g := g;
      reversePostOrder, postOrderId, idom, frontier, children := [], map[], map[], map[], map[];
    }

    ghost function Snapshot(visited: set<Node>): Dfs
      reads this
    {
      Dfs(reversePostOrder, postOrderId, par, visited)
    }

    /** `post_order_visit`: numbers everything first met from bb, bb last. */
    method PostOrderVisit(bb: Node, visited0: set<Node>) returns (visited: set<Node>)
      requires g.Valid() && bb in g.Edges() && bb !in visited0 && visited0 <= g.Edges().Keys
      modifies this`reversePostOrder, this`postOrderId, this`par
      ensures visited0 <= visited <= g.Edges().Keys
      ensures Snapshot(visited) == Visit(g, bb, old(Snapshot(visited0)))
      decreases g.Edges().Keys - visited0
    {
      ghost var start := Snapshot(visited0 + {bb});
      visited := visited0 + {bb};
      for i := 0 to |g.succs[bb]|
        invariant visited0 + {bb} <= visited <= g.Edges().Keys
        invariant VisitSuccs(g, bb, i, Snapshot(visited)) == VisitSuccs(g, bb, 0, start)
      {
        var b := g.succs[bb][i];
        g.EdgeLists(bb, b);
        if b !in visited {
          par := par[b := bb];
          visited := PostOrderVisit(b, visited);
        }
      }
      postOrderId := postOrderId[bb := |reversePostOrder|];
      reversePostOrder := reversePostOrder + [bb];
    }

    ghost predicate IsNumbered()
      reads this`reversePostOrder, this`postOrderId, this`par
    {
      && Numbered(g.Edges(), postOrderId, par) && CountsDown(reversePostOrder, postOrderId)
      && postOrderId.Keys <= g.Edges().Keys
    }

    /** `create_reverse_post_order` */
    method CreateReversePostOrder()
      requires g.Valid()
      modifies this`reversePostOrder, this`postOrderId, this`par
      ensures IsNumbered()
    {
      reversePostOrder, postOrderId, par := [], map[], map[ENTRY := ENTRY];
      ghost var start := Snapshot({});
      var visited := PostOrderVisit(ENTRY, {});
      VisitFinishes(g, ENTRY, start);
      NumberingComplete(g.Edges(), start, Snapshot(visited), visited);
      reversePostOrder := Reversed(reversePostOrder);
      par := map x | x in visited :: par[x];
    }

    /** `intersect`: the nearest block on both idom chains. */
    method Intersect(b1: Node, b2: Node) returns (b: Node)
      requires Climbs(idom, postOrderId) && Injective(postOrderId) && b1 in idom && b2 in idom
      ensures b in idom
      ensures Anc(idom, postOrderId, b) == Anc(idom, postOrderId, b1) * Anc(idom, postOrderId, b2)
    {
      b := b1;
      var other := b2;
      while b != other
        invariant b in idom && other in idom
        invariant SameMeet(idom, postOrderId, b, other, b1, b2)
        decreases 2 * postOrderId[ENTRY] - postOrderId[b] - postOrderId[other]
      {
        assert !SameNumber(postOrderId, b, other);
        ghost var bStart, otherStart := postOrderId[b], postOrderId[other];
        while postOrderId[b] < postOrderId[other]
          invariant b in idom && other in idom && bStart <= postOrderId[b]
          invariant SameMeet(idom, postOrderId, b, other, b1, b2)
          decreases postOrderId[ENTRY] - postOrderId[b]
        {
          SameMeetStep(idom, postOrderId, b, other, b1, b2);
          b := idom[b];
        }
        while postOrderId[other] < postOrderId[b]
          invariant b in idom && other in idom && otherStart <= postOrderId[other]
          invariant SameMeet(idom, postOrderId, b, other, b1, b2)
          decreases postOrderId[ENTRY] - postOrderId[other]
        {
          SameMeetStep(idom, postOrderId, other, b, b1, b2);
          other := idom[other];
        }
      }
    }

    /** One evaluation of the body of `create_idom`'s block loop: the first placed
        predecessor, intersected with the other placed ones. */
    method NewIdom(bb: Node) returns (newIdom: Node)
      requires g.Valid() && Climbs(idom, postOrderId) && Injective(postOrderId)
      requires exists p :: p in idom && Edge(g.Edges(), p, bb)
      ensures IsMeet(g.Edges(), postOrderId, idom, bb, newIdom)
    {
      ghost var placed :| placed in idom && Edge(g.Edges(), placed, bb);
      g.EdgeLists(placed, bb);
      var preds := g.preds[bb];
      var first := 0;
      while preds[first] !in idom
        invariant first < |preds| && forall j :: 0 <= j < first ==> preds[j] !in idom
        decreases |preds| - first
      {
        first := first + 1;
      }
      var pred := preds[first];
      newIdom := pred;
      for i := 0 to |preds|
        invariant newIdom in idom && CommonAnc(idom, postOrderId, preds, i, pred, newIdom)
      {
        var p := preds[i];
        ghost var before := newIdom;
        if p != pred && p in idom {
          newIdom := Intersect(p, newIdom);
        }
        CommonAncStep(idom, postOrderId, preds, i, pred, before, newIdom);
      }
      MeetOfList(g, postOrderId, idom, bb, pred, newIdom);
    }

    /** `create_idom` has run to its fixpoint. */
    ghost predicate HasIdoms()
      reads this`reversePostOrder, this`postOrderId, this`par, this`idom
    {
      && IsNumbered() && idom.Keys == postOrderId.Keys && Sound(g.Edges(), postOrderId, par, idom)
      && StableAbove(g.Edges(), postOrderId, idom, -1)
    }

    /** The block loop's body for position k of the order. */
    method HandleBlock(k: nat, ghost start: Tree, changed0: bool) returns (changed: bool)
      requires g.Valid() && k < |reversePostOrder|
      requires SweepAt(g.Edges(), postOrderId, par, reversePostOrder, start, idom, changed0, k)
      modifies this`idom
      ensures SweepAt(g.Edges(), postOrderId, par, reversePostOrder, start, idom, changed, k + 1)
    {
      changed := changed0;
      var bb := reversePostOrder[k];
      if bb == ENTRY {
        SweepSkipsEntry(g.Edges(), postOrderId, par, reversePostOrder, start, idom, changed, k);
        return;
      }
      SweepHasPlacedPred(g.Edges(), postOrderId, par, reversePostOrder, start, idom, changed, k);
      var newIdom := NewIdom(bb);
      SweepStep(g.Edges(), postOrderId, par, reversePostOrder, start, idom, changed, k, newIdom);
      if bb !in idom || idom[bb] != newIdom {
        idom := idom[bb := newIdom];
        changed := true;
      }
    }

    /** One sweep over the blocks in reverse post-order. */
    method Sweep() returns (changed: bool)
      requires g.Valid() && CountsDown(reversePostOrder, postOrderId)
      requires PassAt(g.Edges(), postOrderId, par, idom, postOrderId[ENTRY])
      modifies this`idom
      ensures SweepAt(g.Edges(), postOrderId, par, reversePostOrder, old(idom), idom, changed, |reversePostOrder|)
    {
      changed := false;
      SweepStarts(g.Edges(), postOrderId, par, reversePostOrder, idom);
      for k := 0 to |reversePostOrder|
        invariant SweepAt(g.Edges(), postOrderId, par, reversePostOrder, old(idom), idom, changed, k)
      {
        changed := HandleBlock(k, old(idom), changed);
      }
    }

    /** `create_idom`: sweep until no parent changes. */
    method CreateIdom()
      requires g.Valid() && IsNumbered()
      modifies this`idom
      ensures HasIdoms()
    {
      idom := map[ENTRY := ENTRY];
      PassStart(g.Edges(), postOrderId, par);
      var changed := true;
      while changed
        invariant PassAt(g.Edges(), postOrderId, par, idom, postOrderId[ENTRY])
        invariant !changed ==> idom.Keys == postOrderId.Keys && StableAbove(g.Edges(), postOrderId, idom, -1)
        decreases Slack(reversePostOrder, idom, postOrderId), changed
      {
        ghost var start := idom;
        changed := Sweep();
        SweepEnds(g.Edges(), postOrderId, par, reversePostOrder, start, idom, changed);
      }
    }

    /** `get_idom`: null for a block the depth-first search never met. */
    function GetIdom(b: Node): Option<Node>
      reads this`idom
    {
      if b in idom then Some(idom[b]) else None
    }

    ghost predicate HasFrontierKeys()
      reads this`frontier
    {
      frontier.Keys == g.Edges().Keys
    }

    /** The runner loop for predecessor p of bb. */
    method RunFrom(p: Node, bb: Node)
      requires g.Valid() && g.ReachablePreds() && IsTree() && HasFrontierKeys() && Edge(g.Edges(), p, bb)
      modifies this`frontier
      ensures HasFrontierKeys()
      ensures Marked(old(frontier), frontier, bb, RunnerSet(idom, postOrderId, p, bb))
    {
      RunStarts(g, postOrderId, idom, p, bb);
      var runner := Some(p);
      ghost var passed: set<Node> := {};
      while runner != GetIdom(bb)
        invariant HasFrontierKeys() && Marked(old(frontier), frontier, bb, passed)
        invariant Running(idom, postOrderId, p, bb, runner, passed)
        decreases RunLeft(idom, postOrderId, bb, runner)
      {
        RunSteps(idom, postOrderId, p, bb, runner, passed);
        var r := runner.value;
        MarkStep(old(frontier), frontier, bb, passed, r);
        frontier := frontier[r := frontier[r] + {bb}];
        passed := passed + {r};
        runner := GetIdom(r);
      }
      RunEnds(idom, postOrderId, p, bb, runner, passed);
    }

    /** The predecessor loop for one join. */
    method MarkJoin(bb: Node)
      requires g.Valid() && g.ReachablePreds() && IsTree() && HasFrontierKeys() && bb < |g.preds|
      modifies this`frontier
      ensures HasFrontierKeys()
      ensures Marked(old(frontier), frontier, bb, RunnersInto(g, idom, postOrderId, bb))
    {
      var ps := g.preds[bb];
      if |ps| >= 2 {
        for j := 0 to |ps|
          invariant HasFrontierKeys()
          invariant Marked(old(frontier), frontier, bb, RunnersUpTo(idom, postOrderId, ps, j, bb))
        {
          g.EdgeLists(ps[j], bb);
          ghost var before := frontier;
          RunFrom(ps[j], bb);
          MarkedTrans(old(frontier), before, frontier, bb,
            RunnersUpTo(idom, postOrderId, ps, j, bb), RunnerSet(idom, postOrderId, ps[j], bb));
        }
      }
    }

    ghost predicate IsTree()
      reads this`idom, this`postOrderId
    {
      IsDominatorTree(g.Edges(), postOrderId, idom) && idom.Keys <= g.Edges().Keys
    }

    /** `create_dominance_frontier` */
    method CreateDominanceFrontier()
      requires g.Valid() && g.ReachablePreds() && IsTree()
      requires HasFrontierKeys() && forall x :: x in frontier ==> frontier[x] == {}
      modifies this`frontier
      ensures FrontiersUpTo(g, idom, postOrderId, frontier, |g.preds|)
    {
      for bb := 0 to |g.preds|
        invariant FrontiersUpTo(g, idom, postOrderId, frontier, bb)
      {
        ghost var before := frontier;
        MarkJoin(bb);
        FrontiersStep(g, idom, postOrderId, before, frontier, bb);
      }
    }

    /** `create_dom_tree_succ` */
    method CreateDomTreeSucc()
      requires IsTree() && children.Keys == g.Edges().Keys && forall x :: x in children ==> children[x] == {}
      modifies this`children
      ensures ChildrenUpTo(idom, children, |g.succs|) && children.Keys == g.Edges().Keys
    {
      for bb := 0 to |g.succs|
        invariant ChildrenUpTo(idom, children, bb) && children.Keys == g.Edges().Keys
      {
        if bb in idom && idom[bb] != bb {
          assert Up(idom, bb) in idom;
          children := children[idom[bb] := children[idom[bb]] + {bb}];
        }
      }
    }

    /** `Dominators::run` for one function. */
    method Run()
      requires g.Valid() && g.ReachablePreds()
      modifies this
      ensures IsTree()
      ensures FrontiersUpTo(g, idom, postOrderId, frontier, |g.preds|)
      ensures ChildrenUpTo(idom, children, |g.succs|) && children.Keys == g.Edges().Keys
    {
      frontier := map b | b in g.Edges().Keys :: {};
      children := map b | b in g.Edges().Keys :: {};
      CreateReversePostOrder();
      CreateIdom();
      FixpointIsDominance(g.Edges(), postOrderId, par, idom);
      CreateDominanceFrontier();
      CreateDomTreeSucc();
    }
  }
}
