/** What phi placement leaves in the code: the phis in front of the blocks, where they
    stand, and that the renaming walk needs no more of them. */
module PlacedPhis {
  import opened Graphs
  import opened ControlFlow
  import opened DomTree
  import opened Frontiers
  import opened IdomFixpoint
  import opened Ir
  import opened Scopes
  import opened Promotion
  import opened PhiPlacement

  /** How many phis were put in front of b. */
  ghost function Shift(f0: Func, f1: Func, b: Node): nat
    requires PhisPlaced(f0, f1)
  {
    if b < |f1.code| then
      assert PhisLeadTo(f1.code[b], f0.code[b]);
      |f1.code[b].instrs| - |f0.code[b].instrs|
    else 0
  }

  lemma PhisBeforeShift(f0: Func, f1: Func, b: Node, k: nat)
    requires PhisPlaced(f0, f1) && k < |InstrsOf(f1, b)|
    ensures InstrsOf(f1, b)[k].op.Phi? <==> k < Shift(f0, f1, b)
    ensures |InstrsOf(f1, b)| == |InstrsOf(f0, b)| + Shift(f0, f1, b)
  {
    PhisSplit(f0, f1, b);
  }

  lemma ShiftedInstr(f0: Func, f1: Func, b: Node, k: nat)
    requires PhisPlaced(f0, f1) && b < |f1.code| && k < |f0.code[b].instrs|
    ensures k + Shift(f0, f1, b) < |f1.code[b].instrs|
    ensures f1.code[b].instrs[k + Shift(f0, f1, b)] == f0.code[b].instrs[k] && !f0.code[b].instrs[k].op.Phi?
  {
    PhisSplit(f0, f1, b);
  }

  lemma {:induction false} ShiftedStores(f0: Func, f1: Func, b: Node, k: nat, v: Name)
    requires PhisPlaced(f0, f1) && k <= |InstrsOf(f0, b)|
    ensures k + Shift(f0, f1, b) <= |InstrsOf(f1, b)|
    ensures HasStore(InstrsOf(f1, b)[..k + Shift(f0, f1, b)], v) <==> HasStore(InstrsOf(f0, b)[..k], v)
  {
    var one, zero, d := InstrsOf(f1, b), InstrsOf(f0, b), Shift(f0, f1, b);
    if k == 0 {
      forall i | 0 <= i < d ensures !IsCellStore(one[i].op) {
        PhisBeforeShift(f0, f1, b, i);
      }
    } else {
      ShiftedStores(f0, f1, b, k - 1, v);
      ShiftedInstr(f0, f1, b, k - 1);
      HasStoreSnoc(one, k - 1 + d, v);
      HasStoreSnoc(zero, k - 1, v);
    }
  }

  /** The phis in front move no slot. */
  lemma PlacedSlots(f0: Func, f1: Func)
    requires PhisPlaced(f0, f1) && SlotsAllocated(f0)
    ensures SlotsAllocated(f1)
  {
    forall b: Node, k: nat, v: Name | f1.cfg.IsReachable(b) && AccessAt(f1, b, k, v)
      ensures AllocatedAbove(f1, b, k, v)
    {
      var d := Shift(f0, f1, b);
      PhisBeforeShift(f0, f1, b, k);
      ShiftedInstr(f0, f1, b, k - d);
      assert AccessAt(f0, b, k - d, v);
      var a: Node, i: nat :| AllocAbove(f0, b, k - d, v, a, i);
      ShiftedInstr(f0, f1, a, i);
      assert AllocAbove(f1, b, k, v, a, i + Shift(f0, f1, a));
    }
  }

  lemma SameScalarSlots(f0: Func, f1: Func, v: Name)
    requires PhisPlaced(f0, f1)
    ensures ScalarSlot(f1, v) <==> ScalarSlot(f0, v)
  {
    if ScalarSlot(f0, v) {
      var a: Node, i: nat :| ScalarAt(f0, a, i, v);
      ShiftedInstr(f0, f1, a, i);
      assert ScalarAt(f1, a, i + Shift(f0, f1, a), v);
    }
    if ScalarSlot(f1, v) {
      var a: Node, i: nat :| ScalarAt(f1, a, i, v);
      var d := Shift(f0, f1, a);
      PhisBeforeShift(f0, f1, a, i);
      ShiftedInstr(f0, f1, a, i - d);
      assert ScalarAt(f0, a, i - d, v);
    }
  }

  // ------------------------------------------------------ phis are complete

  lemma SamePhisAndStores(f0: Func, f1: Func, has: set<(Node, Name)>, next: Name, b: Node, v: Name)
    requires Placed(f0, f1, has, next) && b < |f1.code|
    ensures HasPhi(InstrsOf(f1, b), v) <==> (b, v) in has
    ensures HasStore(InstrsOf(f1, b), v) <==> HasStore(InstrsOf(f0, b), v)
  {
    assert PlacedAt(f0, f1, has, b);
    assert (b, v) in has <==> HasPhi(f1.code[b].instrs, v);
    var k := Shift(f0, f1, b);
    var one, old_ := f1.code[b].instrs, f0.code[b].instrs;
    if HasStore(one, v) {
      var i :| 0 <= i < |one| && IsCellStore(one[i].op) && one[i].op.to.slot == v;
      PhisBeforeShift(f0, f1, b, i);
      ShiftedInstr(f0, f1, b, i - k);
      assert IsCellStore(old_[i - k].op) && old_[i - k].op.to.slot == v;
    }
    if HasStore(old_, v) {
      var i :| 0 <= i < |old_| && IsCellStore(old_[i].op) && old_[i].op.to.slot == v;
      ShiftedInstr(f0, f1, b, i);
      assert IsCellStore(one[i + k].op) && one[i + k].op.to.slot == v;
    }
  }

  lemma InPhiBlocks(has: set<(Node, Name)>, b: Node, v: Name)
    ensures b in PhiBlocks(has, v) <==> (b, v) in has
  {
    if (b, v) in has {
      assert (b, v).0 == b;
    }
  }

  /** The placed phis are all the renaming walk needs. */
  lemma PlacedIsComplete(f0: Func, t: Ssa, frontier: Frontier, has: set<(Node, Name)>, next: Name)
    requires ValidSsa(t) && Placed(f0, t.f, has, next) && PhisAreIterated(f0, frontier, has)
    requires FrontiersUpTo(t.f.cfg, t.up, t.id, frontier, |t.f.cfg.preds|) && t.f.cfg.preds[ENTRY] == []
    ensures PhisComplete(t)
  {
    forall p, s, r, v | p in t.up && s in t.up && Edge(t.f.cfg.Edges(), p, s)
        && r in RunnerSet(t.up, t.id, p, s) && DefinesSlot(t.f, r, v)
      ensures HasPhi(InstrsOf(t.f, s), v)
    {
      RunnerInFrontier(t, frontier, p, s, r);
      AncBasics(t.up, t.id, p);
      SamePhisAndStores(f0, t.f, has, next, r, v);
      SamePhisAndStores(f0, t.f, has, next, s, v);
      InPhiBlocks(has, r, v);
      InPhiBlocks(has, s, v);
      assert IsIterated(frontier, StoringBlocks(f0, v), PhiBlocks(has, v));
      assert s in FrontierOf(frontier, r);
    }
  }

  lemma RunnerInFrontier(t: Ssa, frontier: Frontier, p: Node, s: Node, r: Node)
    requires ValidSsa(t) && FrontiersUpTo(t.f.cfg, t.up, t.id, frontier, |t.f.cfg.preds|) && t.f.cfg.preds[ENTRY] == []
    requires p in t.up && s in t.up && Edge(t.f.cfg.Edges(), p, s) && r in RunnerSet(t.up, t.id, p, s)
    ensures s < |t.f.code| && r < |t.f.code| && s in FrontierOf(frontier, r)
  {
    var cfg := t.f.cfg;
    var ps := cfg.preds[s];
    cfg.EdgeLists(p, s);
    AncBasics(t.up, t.id, p);
    var j :| 0 <= j < |ps| && ps[j] == p;
    if |ps| < 2 {
      SoleRunnerEmpty(t, p, s, r);
    }
    InRunners(t.up, t.id, ps, |ps|, s, r);
    assert r in RunnerSet(t.up, t.id, ps[j], s);
    assert s in frontier[r] <==> s < |cfg.preds| && r in RunnersInto(cfg, t.up, t.id, s);
  }

  /** A block with one predecessor is no join, and its runner passes nothing. */
  lemma SoleRunnerEmpty(t: Ssa, p: Node, s: Node, r: Node)
    requires ValidSsa(t) && p in t.up && s in t.up && Edge(t.f.cfg.Edges(), p, s) && |t.f.cfg.preds[s]| < 2
    requires t.f.cfg.preds[ENTRY] == []
    ensures r !in RunnerSet(t.up, t.id, p, s)
  {
    var gr := t.f.cfg.Edges();
    t.f.cfg.EdgeLists(p, s);
    forall q | q in t.up && Edge(gr, q, s) ensures q == p {
      t.f.cfg.EdgeLists(q, s);
    }
    assert IsMeet(gr, t.id, t.up, s, Up(t.up, s));
    assert r in Anc(t.up, t.id, p) ==> AbovePreds(gr, t.id, t.up, s, r);
  }

  /** A variable that is stored nowhere has no phi, and a block without predecessors no
      phi at all. */
  lemma PhiNeedsStore(f0: Func, frontier: Frontier, has: set<(Node, Name)>, s: Node, v: Name)
    requires PhisAreIterated(f0, frontier, has) && (s, v) in has
    ensures exists b: Node :: b < |f0.code| && HasStore(InstrsOf(f0, b), v)
    ensures exists x :: s in FrontierOf(frontier, x)
  {
    InPhiBlocks(has, s, v);
    var defs, p := StoringBlocks(f0, v), PhiBlocks(has, v);
    assert IsIterated(frontier, defs, p);
    assert defs == {} ==> ClosedFor(frontier, defs, {});
    var b :| b in defs;
    if forall x :: s !in FrontierOf(frontier, x) {
      assert ClosedFor(frontier, defs, p - {s});
    }
  }

  lemma FrontierBlocksAreJoins(cfg: Cfg, up: Tree, id: Numbering, frontier: Frontier, x: Node, y: Node)
    requires Climbs(up, id) && FrontiersUpTo(cfg, up, id, frontier, |cfg.preds|) && y in FrontierOf(frontier, x)
    ensures y < |cfg.preds| && |cfg.preds[y]| >= 2
  {
    assert y in frontier[x] <==> y < |cfg.preds| && x in RunnersInto(cfg, up, id, y);
  }

  lemma EntryHasNoPhi(f0: Func, t: Ssa, frontier: Frontier, has: set<(Node, Name)>, next: Name, v: Name)
    requires Climbs(t.up, t.id) && ValidFunc(t.f) && t.f.cfg.preds[ENTRY] == []
    requires FrontiersUpTo(t.f.cfg, t.up, t.id, frontier, |t.f.cfg.preds|)
    requires Placed(f0, t.f, has, next) && PhisAreIterated(f0, frontier, has)
    ensures !HasPhi(InstrsOf(t.f, ENTRY), v)
  {
    SamePhisAndStores(f0, t.f, has, next, ENTRY, v);
    if (ENTRY, v) in has {
      PhiNeedsStore(f0, frontier, has, ENTRY, v);
      var x :| ENTRY in FrontierOf(frontier, x);
      FrontierBlocksAreJoins(t.f.cfg, t.up, t.id, frontier, x, ENTRY);
    }
  }
}
