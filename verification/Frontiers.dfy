/** Dominance frontiers: what the runner loops mark, and that this is the
    textbook frontier. */
module Frontiers {
  import opened Wrappers
  import opened Graphs
  import opened ControlFlow
  import opened DomTree
  import opened IdomFixpoint

  /** The blocks that the runner started at predecessor p of join b passes. */
  ghost function RunnerSet(up: Tree, id: Numbering, p: Node, b: Node): set<Node>
    requires Climbs(up, id)
  {
    if p in up && b in up then Anc(up, id, p) - Anc(up, id, Up(up, b)) else {p}
  }

  type Frontier = map<Node, set<Node>>

  /** b was added to the frontiers of exactly the blocks xs. */
  ghost predicate Marked(before: Frontier, after: Frontier, b: Node, xs: set<Node>) {
    && after.Keys == before.Keys
    && forall x: Node, y: Node {:trigger y in after[x]} :: x in before ==>
      (y in after[x] <==> y in before[x] || (y == b && x in xs))
  }

  lemma MarkStep(before: Frontier, after: Frontier, b: Node, xs: set<Node>, r: Node)
    requires Marked(before, after, b, xs) && r in after
    ensures Marked(before, after[r := after[r] + {b}], b, xs + {r})
  {
  }

  lemma RunnerStep(up: Tree, id: Numbering, p: Node, b: Node, r: Node)
    requires Climbs(up, id) && p in up && b in up && r in Anc(up, id, p) && r in up
    requires Up(up, b) in Anc(up, id, r) && r != Up(up, b)
    ensures r != ENTRY && Up(up, r) in Anc(up, id, p) && Up(up, b) in Anc(up, id, Up(up, r))
    ensures Up(up, r) in up && id[r] < id[Up(up, r)] <= id[ENTRY]
    ensures Anc(up, id, p) - Anc(up, id, Up(up, r)) == Anc(up, id, p) - Anc(up, id, r) + {r}
  {
    AncBasics(up, id, r);
    AncTrans(up, id, r, p);
    if r != ENTRY {
      AncBasics(up, id, Up(up, r));
    }
  }

  /** At the fixpoint the parent of a block is on the chain of each of its predecessors. */
  lemma IdomAbovePred(g: Graph, id: Numbering, up: Tree, p: Node, b: Node)
    requires Climbs(up, id) && StableAbove(g, id, up, -1)
    requires Edge(g, p, b) && p in up && b in up
    ensures up[b] in Anc(up, id, p)
  {
    if b == ENTRY {
      AncBasics(up, id, p);
    } else {
      assert IsMeet(g, id, up, b, Up(up, b));
      AncBasics(up, id, up[b]);
      assert AbovePreds(g, id, up, b, up[b]);
    }
  }

  lemma MarkedTrans(f: Frontier, g: Frontier, h: Frontier, b: Node, xs: set<Node>, ys: set<Node>)
    requires Marked(f, g, b, xs) && Marked(g, h, b, ys)
    ensures Marked(f, h, b, xs + ys)
  {
  }

  /** What the runners started at the first k predecessors of b pass. */
  ghost function RunnersUpTo(up: Tree, id: Numbering, ps: seq<Node>, k: nat, b: Node): set<Node>
    requires Climbs(up, id) && k <= |ps|
  {
    if k == 0 then {} else RunnersUpTo(up, id, ps, k - 1, b) + RunnerSet(up, id, ps[k - 1], b)
  }

  /** All blocks whose frontier receives b: only joins are looked at. */
  ghost function RunnersInto(g: Cfg, up: Tree, id: Numbering, b: Node): set<Node>
    requires Climbs(up, id) && b < |g.preds|
  {
    if |g.preds[b]| >= 2 then RunnersUpTo(up, id, g.preds[b], |g.preds[b]|, b) else {}
  }

  /** The frontiers after the joins below n have been handled. */
  ghost predicate FrontiersUpTo(g: Cfg, up: Tree, id: Numbering, f: Frontier, n: nat)
    requires Climbs(up, id) && n <= |g.preds|
  {
    && f.Keys == g.Edges().Keys
    && forall x: Node, b: Node {:trigger b in f[x]} :: x in f ==>
      (b in f[x] <==> b < n && x in RunnersInto(g, up, id, b))
  }

  lemma FrontiersStep(g: Cfg, up: Tree, id: Numbering, f: Frontier, h: Frontier, n: nat)
    requires Climbs(up, id) && n < |g.preds| && FrontiersUpTo(g, up, id, f, n)
    requires Marked(f, h, n, RunnersInto(g, up, id, n))
    ensures FrontiersUpTo(g, up, id, h, n + 1)
  {
  }

  lemma {:induction false} InRunners(up: Tree, id: Numbering, ps: seq<Node>, k: nat, b: Node, x: Node)
    requires Climbs(up, id) && k <= |ps|
    ensures x in RunnersUpTo(up, id, ps, k, b) <==> exists j :: 0 <= j < k && x in RunnerSet(up, id, ps[j], b)
  {
    if k > 0 {
      InRunners(up, id, ps, k - 1, b, x);
    }
  }

  /** The placed blocks, their chains and the dominators they stand for. */
  ghost predicate IsDominatorTree(g: Graph, id: Numbering, up: Tree) {
    && Climbs(up, id)
    && (forall b {:trigger Reaches(g, ENTRY, b)} :: b in up <==> Reaches(g, ENTRY, b))
    && (forall b, d {:trigger d in Anc(up, id, b)} :: b in up ==> (d in Anc(up, id, b) <==> Dominates(g, d, b)))
    && StableAbove(g, id, up, -1)
  }

  /** b is in the frontier of x iff x dominates some predecessor of b and does not
      strictly dominate b. */
  lemma FrontierIsExact(g: Cfg, id: Numbering, up: Tree, b: Node, x: Node)
    requires g.Valid() && g.ReachablePreds() && IsDominatorTree(g.Edges(), id, up)
    requires b in up && b in g.Edges() && b != ENTRY
    ensures x in RunnersInto(g, up, id, b) <==>
            (exists p :: Edge(g.Edges(), p, b) && Dominates(g.Edges(), x, p)) && !StrictlyDominates(g.Edges(), x, b)
  {
    var ps, gr := g.preds[b], g.Edges();
    InRunners(up, id, ps, |ps|, b, x);
    forall p ensures Edge(gr, p, b) <==> p in ps { g.EdgeLists(p, b); }
    forall p | p in ps ensures x in RunnerSet(up, id, p, b) <==> Dominates(gr, x, p) && !StrictlyDominates(gr, x, b) {
      RunnerSetIsExact(g, id, up, b, p, x);
    }
    if |ps| < 2 {
      forall p | Edge(gr, p, b) && Dominates(gr, x, p) ensures StrictlyDominates(gr, x, b) {
        SolePredDominators(g, id, up, b, p, x);
      }
    }
  }

  lemma RunnerSetIsExact(g: Cfg, id: Numbering, up: Tree, b: Node, p: Node, x: Node)
    requires g.ReachablePreds() && IsDominatorTree(g.Edges(), id, up)
    requires b in up && b != ENTRY && Edge(g.Edges(), p, b)
    ensures x in RunnerSet(up, id, p, b) <==> Dominates(g.Edges(), x, p) && !StrictlyDominates(g.Edges(), x, b)
  {
    StrictAncIsParentAnc(g.Edges(), id, up, b, x);
    assert g.IsReachable(b) && g.IsReachable(p);
    assert x in Anc(up, id, p) <==> Dominates(g.Edges(), x, p);
  }

  lemma StrictAncIsParentAnc(g: Graph, id: Numbering, up: Tree, b: Node, x: Node)
    requires IsDominatorTree(g, id, up) && b in up && b != ENTRY
    ensures x in Anc(up, id, Up(up, b)) <==> StrictlyDominates(g, x, b)
  {
    AncBasics(up, id, Up(up, b));
    assert x in Anc(up, id, b) <==> Dominates(g, x, b);
  }

  lemma SolePredDominators(g: Cfg, id: Numbering, up: Tree, b: Node, p: Node, x: Node)
    requires g.Valid() && g.ReachablePreds() && IsDominatorTree(g.Edges(), id, up) && b in up && b != ENTRY
    requires Edge(g.Edges(), p, b) && |g.preds[b]| < 2 && Dominates(g.Edges(), x, p)
    ensures StrictlyDominates(g.Edges(), x, b)
  {
    var gr := g.Edges();
    forall q | Edge(gr, q, b) ensures q == p {
      g.EdgeLists(q, b);
      g.EdgeLists(p, b);
    }
    assert g.IsReachable(b) && g.IsReachable(p);
    assert x in Anc(up, id, p) <==> Dominates(gr, x, p);
    assert IsMeet(gr, id, up, b, Up(up, b)) && AbovePreds(gr, id, up, b, x);
    StrictAncIsParentAnc(gr, id, up, b, x);
  }

  /** The parent is the immediate dominator: it strictly dominates the block and
      every other strict dominator dominates it. */
  lemma ParentIsImmediateDominator(g: Graph, id: Numbering, up: Tree, b: Node)
    requires IsDominatorTree(g, id, up) && b in up && b != ENTRY
    ensures StrictlyDominates(g, up[b], b)
    ensures forall d :: StrictlyDominates(g, d, b) ==> Dominates(g, d, up[b])
  {
    AncBasics(up, id, Up(up, b));
    StrictAncIsParentAnc(g, id, up, b, up[b]);
    forall d | StrictlyDominates(g, d, b) ensures Dominates(g, d, up[b]) {
      StrictAncIsParentAnc(g, id, up, b, d);
    }
  }

  /** The runner after k steps; null steps to null, as `idom_[nullptr]` does. */
  ghost function RunnerAt(up: Tree, p: Node, k: nat): Option<Node> {
    if k == 0 then Some(p)
    else match RunnerAt(up, p, k - 1)
      case None => None
      case Some(r) => if r in up then Some(up[r]) else None
  }

  lemma {:induction false} RunnerClimbs(up: Tree, id: Numbering, p: Node, a: Node) returns (k: nat)
    requires Climbs(up, id) && p in up && a in Anc(up, id, p)
    ensures RunnerAt(up, p, k) == Some(a)
    decreases id[ENTRY] - id[p]
  {
    if a == p {
      k := 0;
    } else {
      k := RunnerClimbs(up, id, Up(up, p), a);
      RunnerShift(up, p, k);
      k := k + 1;
    }
  }

  lemma {:induction false} RunnerShift(up: Tree, p: Node, k: nat)
    requires p in up
    ensures RunnerAt(up, p, k + 1) == RunnerAt(up, up[p], k)
  {
    if k > 0 {
      RunnerShift(up, p, k - 1);
    }
  }

  lemma {:induction false} RunnerFromOutside(up: Tree, p: Node, k: nat)
    requires p !in up
    ensures k > 0 ==> RunnerAt(up, p, k) == None
  {
    if k > 1 {
      RunnerFromOutside(up, p, k - 1);
    }
  }

  /** The runner loop of predecessor p at join b ends: the runner meets b's parent, which is
      null for an unreachable b. */
  ghost predicate RunnerEnds(up: Tree, b: Node, p: Node) {
    exists k :: RunnerAt(up, p, k) == if b in up then Some(up[b]) else None
  }

  /** The runner loop at a reachable join b ends iff the predecessor it starts from is
      reachable: otherwise the runner turns null and stays so. */
  lemma RunnerEndsIff(g: Graph, id: Numbering, up: Tree, b: Node, p: Node)
    requires IsDominatorTree(g, id, up) && b in up && Edge(g, p, b)
    ensures RunnerEnds(up, b, p) <==> Reaches(g, ENTRY, p)
  {
    if Reaches(g, ENTRY, p) {
      IdomAbovePred(g, id, up, p, b);
      var k := RunnerClimbs(up, id, p, up[b]);
    } else {
      assert Up(up, b) in up && Reaches(g, ENTRY, up[b]);
      forall k ensures RunnerAt(up, p, k) != Some(up[b]) {
        RunnerFromOutside(up, p, k);
      }
    }
  }

  /** Every runner loop of `create_dominance_frontier` ends. */
  ghost predicate AllRunnersEnd(cfg: Cfg, up: Tree) {
    forall b: Node, p: Node {:trigger RunnerEnds(up, b, p)} ::
      b < |cfg.preds| && |cfg.preds[b]| >= 2 && p in cfg.preds[b] ==> RunnerEnds(up, b, p)
  }

  /** No reachable block with two listed predecessors or more has an unreachable one. */
  ghost predicate JoinsAreReachable(cfg: Cfg) {
    forall b: Node, p: Node {:trigger p in cfg.preds[b]} ::
      b < |cfg.preds| && |cfg.preds[b]| >= 2 && p in cfg.preds[b] && cfg.IsReachable(b) ==> cfg.IsReachable(p)
  }

  /** The frontiers are computed to the end iff this is so. */
  lemma AllRunnersEndIff(cfg: Cfg, id: Numbering, up: Tree)
    requires cfg.Valid() && IsDominatorTree(cfg.Edges(), id, up)
    ensures AllRunnersEnd(cfg, up) <==> JoinsAreReachable(cfg)
  {
    var g := cfg.Edges();
    forall b: Node, p: Node | b < |cfg.preds| && p in cfg.preds[b]
      ensures RunnerEnds(up, b, p) <==> (cfg.IsReachable(b) ==> cfg.IsReachable(p))
    {
      cfg.EdgeLists(p, b);
      if b in up {
        RunnerEndsIff(g, id, up, b, p);
      } else {
        RunnerAtUnreachable(cfg, id, up, b, p);
      }
    }
  }

  lemma RunnerAtUnreachable(cfg: Cfg, id: Numbering, up: Tree, b: Node, p: Node)
    requires IsDominatorTree(cfg.Edges(), id, up) && b !in up && Edge(cfg.Edges(), p, b)
    ensures RunnerEnds(up, b, p)
  {
    if Reaches(cfg.Edges(), ENTRY, p) {
      ReachesStep(cfg.Edges(), ENTRY, p, b);
    }
    RunnerFromOutside(up, p, 1);
  }

  // ------------------------------------------------------- an `if` without `else`

  /** `if (c) s;` and what follows: block 1 runs s, block 2 is the unused else-block, and
      both jump to block 3, where control also goes when c fails. */
  function IfWithoutElse(): Cfg {
    Cfg([[1, 3], [3], [3], []], [[], [0], [], [0, 1, 2]])
  }

  /** Its frontiers are never done: the runner that starts at block 2 turns null. */
  lemma IfWithoutElseRunsOn(id: Numbering, up: Tree)
    requires IsDominatorTree(IfWithoutElse().Edges(), id, up)
    ensures IfWithoutElse().Valid() && !AllRunnersEnd(IfWithoutElse(), up)
  {
    var cfg := IfWithoutElse();
    var g := cfg.Edges();
    IfWithoutElseIsValid(cfg);
    cfg.EdgeLists(0, 3);
    ReachesEdge(g, ENTRY, 3);
    if cfg.IsReachable(2) {
      var w :| WalkBetween(g, w, ENTRY, 2);
      assert Edge(g, w[|w| - 2], w[|w| - 1]);
      cfg.EdgeLists(w[|w| - 2], 2);
    }
    AllRunnersEndIff(cfg, id, up);
    assert 2 in cfg.preds[3];
  }

  lemma IfWithoutElseIsValid(cfg: Cfg)
    requires cfg == IfWithoutElse()
    ensures cfg.Valid()
  {
  }
}
