/** Mem2Reg on one function, from the input the code generator promises to the
    promoted function and its meaning. */
module Mem2RegPass {
  import opened Graphs
  import opened ControlFlow
  import opened DomTree
  import opened Frontiers
  import opened Ir
  import opened Scopes
  import opened Promotion
  import opened Renaming
  import opened RenameWalk
  import opened PhiPlacement
  import opened PlacedPhis
  import opened MeaningPreserved
  import opened SsaForm
  import opened PhiPairs
  import opened VisitOrder
  import opened ReachingStores
  import opened GivesUp
  import Dominators
  import CodeUses
  import Mem2Reg

  ghost predicate NoPhis(f: Func) {
    forall b, i {:trigger f.code[b].instrs[i]} :: 0 <= b < |f.code| && 0 <= i < |f.code[b].instrs| ==>
      !f.code[b].instrs[i].op.Phi?
  }

  /** What the pass relies on. */
  ghost predicate Promotable(f: Func) {
    && ValidFunc(f) && UniqueIds(f) && NoPhis(f) && DefsDominateUses(f) && SlotsAllocated(f) && SlotsDontEscape(f)
    && f.cfg.preds[ENTRY] == [] && f.cfg.ReachablePreds()
  }

  // --------------------------------------------------- values in scope

  lemma {:induction false} ValsGrow(instrs: seq<Instr>, k: nat, k2: nat, sc: Scope)
    requires k <= k2 <= |instrs|
    ensures BodyScope(instrs, k, sc).vals <= BodyScope(instrs, k2, sc).vals
  {
    if k < k2 {
      ValsGrow(instrs, k, k2 - 1, sc);
    }
  }

  lemma {:induction false} PhisKeepVals(instrs: seq<Instr>, j: nat, sc: Scope)
    requires j <= |instrs|
    ensures PhiScope(instrs, j, sc).vals == sc.vals
  {
    if j > 0 {
      PhisKeepVals(instrs, j - 1, sc);
    }
  }

  lemma ValsAt(t: Ssa, b: Node, k: nat, k2: nat)
    requires Climbs(t.up, t.id) && b in t.up && k <= k2 <= |InstrsOf(t.f, b)|
    ensures ScopeIn(t, b).vals <= ScopeAt(t, b, k).vals <= ScopeAt(t, b, k2).vals
  {
    var instrs := InstrsOf(t.f, b);
    PhisKeepVals(instrs, |instrs|, ScopeIn(t, b));
    var mid := PhiScope(instrs, |instrs|, ScopeIn(t, b));
    ValsGrow(instrs, 0, k, mid);
    ValsGrow(instrs, k, k2, mid);
  }

  lemma {:induction false} ValsDownTree(t: Ssa, a: Node, b: Node)
    requires Climbs(t.up, t.id) && b in t.up && a in Anc(t.up, t.id, b)
    ensures t.f.args <= ScopeIn(t, b).vals
    ensures a in t.up && (a != b ==> ScopeOut(t, a).vals <= ScopeIn(t, b).vals)
    decreases t.id[ENTRY] - t.id[b]
  {
    if b != ENTRY {
      var u := Up(t.up, b);
      var n := |InstrsOf(t.f, u)|;
      ValsAt(t, u, n, n);
      assert ScopeIn(t, b) == ScopeOut(t, u);
      AncBasics(t.up, t.id, u);
      ValsDownTree(t, if a == b then u else a, u);
    }
  }

  /** A defining instruction brings its value into scope. */
  lemma DefEntersScope(f0: Func, t: Ssa, a: Node, i: nat, x: Name)
    requires Climbs(t.up, t.id) && PhisPlaced(f0, t.f) && a in t.up && IdAt(f0, a, i, x) &&
      Defines(f0.code[a].instrs[i].op)
    ensures i + Shift(f0, t.f, a) + 1 <= |InstrsOf(t.f, a)| && x in ScopeAt(t, a, i + Shift(f0, t.f, a) + 1).vals
  {
    ShiftedInstr(f0, t.f, a, i);
  }

  /** x is an argument, or defined above instruction k of b in the dominator tree. */
  ghost predicate AboveOnTree(f0: Func, t: Ssa, b: Node, k: nat, x: Name)
    requires Climbs(t.up, t.id) && b in t.up
  {
    x in f0.args || exists a: Node, i: nat :: AboveAt(f0, t, b, k, x, a, i)
  }

  ghost predicate AboveAt(f0: Func, t: Ssa, b: Node, k: nat, x: Name, a: Node, i: nat)
    requires Climbs(t.up, t.id) && b in t.up
  {
    && IdAt(f0, a, i, x) && Defines(f0.code[a].instrs[i].op)
    && a in t.up && (if a == b then i < k else a in Anc(t.up, t.id, b))
  }

  lemma DominanceOnTree(f0: Func, t: Ssa, b: Node, k: nat, x: Name)
    requires ValidSsa(t) && PhisPlaced(f0, t.f) && b in t.up && DefinedAbove(f0, b, k, x)
    ensures AboveOnTree(f0, t, b, k, x)
  {
    if x !in f0.args {
      var a: Node, i: nat :| DefAbove(f0, b, k, x, a, i);
      if a != b {
        DominatorInTree(t, a, b);
      }
      assert AboveAt(f0, t, b, k, x, a, i);
    }
  }

  /** A value defined above the read is in scope there once phis are in front. */
  lemma DefinedIsInScope(f0: Func, t: Ssa, b: Node, k: nat, x: Name)
    requires Climbs(t.up, t.id) && PhisPlaced(f0, t.f) && b in t.up && k <= |InstrsOf(f0, b)|
    requires AboveOnTree(f0, t, b, k, x)
    ensures k + Shift(f0, t.f, b) <= |InstrsOf(t.f, b)| && x in ScopeAt(t, b, k + Shift(f0, t.f, b)).vals
  {
    var k1 := k + Shift(f0, t.f, b);
    if x in f0.args {
      AncBasics(t.up, t.id, b);
      ValsDownTree(t, b, b);
      ValsAt(t, b, k1, k1);
    } else {
      var a: Node, i: nat :| AboveAt(f0, t, b, k, x, a, i);
      DefEntersScope(f0, t, a, i, x);
      ValueReaches(t, a, i + Shift(f0, t.f, a) + 1, b, k1, x);
    }
  }

  /** What is in scope at a point is in scope at every point below it. */
  lemma ValueReaches(t: Ssa, a: Node, i: nat, b: Node, k: nat, x: Name)
    requires Climbs(t.up, t.id) && a in t.up && b in t.up && i <= |InstrsOf(t.f, a)| && k <= |InstrsOf(t.f, b)|
    requires if a == b then i <= k else a in Anc(t.up, t.id, b)
    requires x in ScopeAt(t, a, i).vals
    ensures x in ScopeAt(t, b, k).vals
  {
    if a == b {
      ValsAt(t, a, i, k);
    } else {
      ValsAt(t, a, i, |InstrsOf(t.f, a)|);
      ValueComesDown(t, a, b, k);
    }
  }

  lemma ValueComesDown(t: Ssa, a: Node, b: Node, k: nat)
    requires Climbs(t.up, t.id) && b in t.up && a in Anc(t.up, t.id, b) && a != b && k <= |InstrsOf(t.f, b)|
    ensures a in t.up && ScopeAt(t, a, |InstrsOf(t.f, a)|).vals <= ScopeAt(t, b, k).vals
  {
    ValsDownTree(t, a, b);
    ValsAt(t, b, k, k);
  }

  lemma DominatorInTree(t: Ssa, a: Node, b: Node)
    requires IsDominatorTree(t.f.cfg.Edges(), t.id, t.up) && b in t.up && Dominates(t.f.cfg.Edges(), a, b)
    ensures a in t.up && a in Anc(t.up, t.id, b)
  {
    assert a in Anc(t.up, t.id, b) <==> Dominates(t.f.cfg.Edges(), a, b);
    AncBasics(t.up, t.id, b);
  }

  lemma ReadIsShifted(f0: Func, f1: Func, b: Node, k: nat, x: Name)
    requires PhisPlaced(f0, f1) && ReadAt(f1, b, k, x)
    ensures k >= Shift(f0, f1, b) && ReadAt(f0, b, k - Shift(f0, f1, b), x)
  {
    PhisBeforeShift(f0, f1, b, k);
    ShiftedInstr(f0, f1, b, k - Shift(f0, f1, b));
  }

  lemma UseIsInScope(f0: Func, t: Ssa, b: Node, k: nat, x: Name)
    requires ValidSsa(t) && PhisPlaced(f0, t.f) && b in t.up && k <= |InstrsOf(f0, b)| && DefinedAbove(f0, b, k, x)
    ensures k + Shift(f0, t.f, b) <= |InstrsOf(t.f, b)| && x in ScopeAt(t, b, k + Shift(f0, t.f, b)).vals
  {
    DominanceOnTree(f0, t, b, k, x);
    DefinedIsInScope(f0, t, b, k, x);
  }

  lemma UsesAreInScope(f0: Func, t: Ssa)
    requires DefsDominateUses(f0) && ValidSsa(t) && PhisPlaced(f0, t.f)
    ensures OperandsAvailable(t)
  {
    forall b: Node, k: nat, x: Name | b in t.up && ReadAt(t.f, b, k, x) ensures x in ScopeAt(t, b, k).vals {
      ReadIsShifted(f0, t.f, b, k, x);
      assert f0.cfg.IsReachable(b);
      UseIsInScope(f0, t, b, k - Shift(f0, t.f, b), x);
    }
    forall b: Node, x: Name | b in t.up && ReadAtEnd(t.f, b, x) ensures x in ScopeOut(t, b).vals {
      SameTerm(f0, t.f, b);
      assert ReadAtEnd(f0, b, x) && f0.cfg.IsReachable(b);
      UseIsInScope(f0, t, b, |InstrsOf(f0, b)|, x);
    }
  }

  // ------------------------------------------------- the inputs of the walk

  lemma ListedChildren(t: Ssa, children: map<Node, set<Node>>, b: Node)
    requires ValidSsa(t) && Dominators.ChildrenUpTo(t.up, children, |t.f.cfg.succs|) && b in children
    ensures AreChildren(t, b, children[b])
  {
    forall c ensures c in children[b] <==> c in t.up && c != ENTRY && t.up[c] == b && c != b {
      assert c in t.up ==> c in t.f.cfg.Edges();
      assert Up(t.up, ENTRY) == ENTRY;
    }
  }

  // --------------------------------------------------------- `remove_alloca`

  ghost function ScalarAllocas(instrs: seq<Instr>): set<Name> {
    set ins | ins in instrs && ins.op == Alloca(true) :: ins.id
  }

  method CollectAllocas(instrs: seq<Instr>) returns (waitDelete: set<Name>)
    ensures waitDelete == ScalarAllocas(instrs)
  {
    waitDelete := {};
    for i := 0 to |instrs|
      invariant waitDelete == ScalarAllocas(instrs[..i])
    {
      assert instrs[..i + 1] == instrs[..i] + [instrs[i]];
      AllocasSnoc(instrs[..i], instrs[i]);
      if instrs[i].op == Alloca(true) {
        waitDelete := waitDelete + {instrs[i].id};
      }
    }
    assert instrs[..|instrs|] == instrs;
  }

  lemma AllocasSnoc(instrs: seq<Instr>, ins: Instr)
    ensures ScalarAllocas(instrs + [ins]) == ScalarAllocas(instrs) + (if ins.op == Alloca(true) then {ins.id} else {})
  {
    forall x
      ensures x in ScalarAllocas(instrs + [ins]) <==>
        x in ScalarAllocas(instrs) || (ins.op == Alloca(true) && x == ins.id)
    {
      if x in ScalarAllocas(instrs) {
        var a :| a in instrs && a.op == Alloca(true) && a.id == x;
        assert a in instrs + [ins];
      }
      if ins.op == Alloca(true) && x == ins.id {
        assert ins in instrs + [ins];
      }
    }
  }

  ghost predicate AllocasGone(c: Code, c2: Code) {
    c2 == Code(Without(c.instrs, ScalarAllocas(c.instrs)), c.term)
  }

  /** `remove_alloca` */
  method RemoveAlloca(code: seq<Code>) returns (r: seq<Code>)
    ensures |r| == |code| && forall b {:trigger r[b]} :: 0 <= b < |code| ==> AllocasGone(code[b], r[b])
  {
    r := [];
    for b := 0 to |code|
      invariant |r| == b && forall c {:trigger r[c]} :: 0 <= c < b ==> AllocasGone(code[c], r[c])
    {
      var waitDelete := CollectAllocas(code[b].instrs);
      r := r + [Code(Without(code[b].instrs, waitDelete), code[b].term)];
    }
  }

  /** The walk neither adds nor drops an alloca. */
  lemma {:induction false} RenderedAllocas(t: Ssa, sigma: map<Name, Operand>, fills: Fills, b: Node, instrs: seq<Instr>)
    requires Climbs(t.up, t.id)
    ensures ScalarAllocas(Render(t, Deleted, sigma, fills, b, instrs)) == ScalarAllocas(instrs)
  {
    if instrs != [] {
      var k := |instrs| - 1;
      var rest := Render(t, Deleted, sigma, fills, b, instrs[..k]);
      RenderedAllocas(t, sigma, fills, b, instrs[..k]);
      assert instrs == instrs[..k] + [instrs[k]];
      AllocasSnoc(instrs[..k], instrs[k]);
      AllocasSnoc(rest, RenderInstr(t, sigma, fills, b, instrs[k]));
      assert Dropped(Deleted, sigma, instrs[k]) ==> rest + [] == rest;
    }
  }

  lemma AllocasFinish(t: Ssa, sigma: map<Name, Operand>, fills: Fills, b: Node, c: Code, c2: Code)
    requires Climbs(t.up, t.id) && UniqueIds(t.f) && b < |t.f.code|
    requires BlockIs(t, c, Deleted, sigma, fills, b) && AllocasGone(c, c2)
    ensures BlockIs(t, c2, Final, sigma, fills, b)
  {
    var instrs := t.f.code[b].instrs;
    var gone := ScalarAllocas(c.instrs);
    RenderedAllocas(t, sigma, fills, b, instrs);
    forall i | 0 <= i < |instrs| ensures Lists(gone, Deleted, Final, sigma, instrs[i]) {
      var x := instrs[i].id;
      assert IdAt(t.f, b, i, x);
      if x in gone {
        var a :| a in instrs && a.op == Alloca(true) && a.id == x;
        var j :| 0 <= j < |instrs| && instrs[j] == a;
        assert IdAt(t.f, b, j, x);
      }
    }
    RenderDeletes(t, sigma, fills, b, instrs, Deleted, Final, gone);
  }

  // ------------------------------------------------------------ the whole pass

  /** f2 accesses no slot that is not allocated, and runs as f0 does. */
  ghost predicate SameBehaviour(f0: Func, f2: Func) {
    SlotsAllocated(f2) && forall m {:trigger SameRuns(f0, f2, m)} :: SameRuns(f0, f2, m)
  }

  /** No block that can run still loads or stores a promoted slot, or allocates one. */
  ghost predicate FreeOfSlots(f: Func) {
    forall b, i {:trigger f.code[b].instrs[i]} ::
      0 <= b < |f.code| && f.cfg.IsReachable(b) && 0 <= i < |f.code[b].instrs| ==>
      var op := f.code[b].instrs[i].op; !IsCellLoad(op) && !IsCellStore(op) && op != Alloca(true)
  }

  lemma PromotedRuns(f0: Func, t: Ssa, f2: Func, sigma: map<Name, Operand>, fills: Fills)
    requires Promotes(f0, t, f2, sigma, fills)
    ensures forall m :: SameRuns(f0, f2, m)
  {
    forall m ensures SameRuns(f0, f2, m) {
      forall actuals, w, n ensures SameProgress(Run(f0, m, Start(actuals, w), n), Run(f2, m, Start(actuals, w), n)) {
        RunsMatch(f0, t, f2, sigma, fills, m, actuals, w, n);
      }
    }
  }

  lemma {:induction false} RenderedIsFree(t: Ssa, sigma: map<Name, Operand>, fills: Fills, b: Node, instrs: seq<Instr>)
    requires Climbs(t.up, t.id) && forall i :: 0 <= i < |instrs| && IsCellLoad(instrs[i].op) ==> instrs[i].id in sigma
    ensures forall ins :: ins in Render(t, Final, sigma, fills, b, instrs) ==>
      !IsCellLoad(ins.op) && !IsCellStore(ins.op) && ins.op != Alloca(true)
  {
    if instrs != [] {
      var k := |instrs| - 1;
      RenderedIsFree(t, sigma, fills, b, instrs[..k]);
      SubstKeepsKind(sigma, instrs[k].op);
    }
  }

  /** No slot of the function is left iff every load has a name. */
  lemma PromotedIsFree(f0: Func, t: Ssa, f2: Func, sigma: map<Name, Operand>, fills: Fills)
    requires Promotes(f0, t, f2, sigma, fills)
    ensures FreeOfSlots(f2) <==> LoadsNamed(t)
  {
    if LoadsNamed(t) {
      forall b, i | 0 <= b < |f2.code| && f2.cfg.IsReachable(b) && 0 <= i < |f2.code[b].instrs|
        ensures var op := f2.code[b].instrs[i].op; !IsCellLoad(op) && !IsCellStore(op) && op != Alloca(true)
      {
        assert t.f.cfg.IsReachable(b);
        PromotedBlockIsFree(f0, t, f2, sigma, fills, b, i);
      }
    } else {
      var b, k, v :| b in t.up && UnnamedLoad(t, b, k, v);
      UnnamedStays(f0, t, f2, sigma, fills, b, k, v);
      assert f2.cfg.IsReachable(b);
    }
  }

  lemma PromotedBlockIsFree(f0: Func, t: Ssa, f2: Func, sigma: map<Name, Operand>, fills: Fills, b: Node, i: nat)
    requires Promotes(f0, t, f2, sigma, fills) && LoadsNamed(t) && b in t.up && i < |InstrsOf(f2, b)|
    ensures var op := InstrsOf(f2, b)[i].op; !IsCellLoad(op) && !IsCellStore(op) && op != Alloca(true)
  {
    var instrs := t.f.code[b].instrs;
    PromotedCode(f0, t, f2, sigma, fills, b);
    forall k | 0 <= k < |instrs| && IsCellLoad(instrs[k].op) ensures instrs[k].id in sigma {
      LoadReplacedIff(t, sigma, b, k);
      assert !UnnamedLoad(t, b, k, instrs[k].op.from.slot);
    }
    RenderedIsFree(t, sigma, fills, b, instrs);
    assert InstrsOf(f2, b)[i] in InstrsOf(f2, b);
  }

  /** The instruction is one of these with its operands replaced. */
  ghost predicate ComesFrom(sigma: map<Name, Operand>, instrs: seq<Instr>, ins2: Instr) {
    exists ins :: ins in instrs && ins2 == Instr(ins.id, SubstOp(sigma, ins.op))
  }

  /** Apart from its phis, the reachable code of f2 is that of f with operands replaced;
      only accesses to promoted slots and scalar allocas may be missing. */
  ghost predicate KeepsCode(f: Func, f2: Func, sigma: map<Name, Operand>) {
    && (forall b, ins2 {:trigger ins2 in InstrsOf(f2, b)} :: f.cfg.IsReachable(b) && ins2 in InstrsOf(f2, b) ==>
      ins2.op.Phi? || ComesFrom(sigma, InstrsOf(f, b), ins2))
    && (forall b, ins {:trigger ins in InstrsOf(f, b)} :: f.cfg.IsReachable(b) && ins in InstrsOf(f, b) ==>
          IsCellLoad(ins.op) || IsCellStore(ins.op) || ins.op == Alloca(true) ||
          Instr(ins.id, SubstOp(sigma, ins.op)) in InstrsOf(f2, b))
  }

  lemma CodeIsKept(f0: Func, t: Ssa, f2: Func, sigma: map<Name, Operand>, fills: Fills)
    requires Promotes(f0, t, f2, sigma, fills)
    ensures KeepsCode(f0, f2, sigma)
  {
    forall b, ins2 | f0.cfg.IsReachable(b) && ins2 in InstrsOf(f2, b)
      ensures ins2.op.Phi? || ComesFrom(sigma, InstrsOf(f0, b), ins2)
    {
      assert t.f.cfg.IsReachable(b);
      if !ins2.op.Phi? {
        KeptComesFrom(f0, t, f2, sigma, fills, b, ins2);
      }
    }
    forall b, ins | f0.cfg.IsReachable(b) && ins in InstrsOf(f0, b)
      ensures IsCellLoad(ins.op) || IsCellStore(ins.op) || ins.op == Alloca(true) ||
        Instr(ins.id, SubstOp(sigma, ins.op)) in InstrsOf(f2, b)
    {
      assert t.f.cfg.IsReachable(b);
      if !IsCellLoad(ins.op) && !IsCellStore(ins.op) && ins.op != Alloca(true) {
        OtherIsKept(f0, t, f2, sigma, fills, b, ins);
      }
    }
  }

  lemma KeptComesFrom(f0: Func, t: Ssa, f2: Func, sigma: map<Name, Operand>, fills: Fills, b: Node, ins2: Instr)
    requires Promotes(f0, t, f2, sigma, fills) && b in t.up && ins2 in InstrsOf(f2, b) && !ins2.op.Phi?
    ensures ComesFrom(sigma, InstrsOf(f0, b), ins2)
  {
    var instrs := InstrsOf(t.f, b);
    PromotedCode(f0, t, f2, sigma, fills, b);
    var r: nat :| r < |InstrsOf(f2, b)| && InstrsOf(f2, b)[r] == ins2;
    var k := RenderFrom(t, sigma, fills, b, instrs, r);
    SubstKeepsKind(sigma, instrs[k].op);
    BehindPhis(f0, t.f, b, k);
  }

  lemma BehindPhis(f0: Func, f1: Func, b: Node, k: nat)
    requires PhisPlaced(f0, f1) && k < |InstrsOf(f1, b)| && !InstrsOf(f1, b)[k].op.Phi?
    ensures InstrsOf(f1, b)[k] in InstrsOf(f0, b)
  {
    PhisBeforeShift(f0, f1, b, k);
    ShiftedInstr(f0, f1, b, k - Shift(f0, f1, b));
  }

  lemma OtherIsKept(f0: Func, t: Ssa, f2: Func, sigma: map<Name, Operand>, fills: Fills, b: Node, ins: Instr)
    requires Promotes(f0, t, f2, sigma, fills) && b in t.up && ins in InstrsOf(f0, b)
    requires !IsCellLoad(ins.op) && !IsCellStore(ins.op) && ins.op != Alloca(true)
    ensures Instr(ins.id, SubstOp(sigma, ins.op)) in InstrsOf(f2, b)
  {
    PromotedCode(f0, t, f2, sigma, fills, b);
    var j: nat :| j < |InstrsOf(f0, b)| && InstrsOf(f0, b)[j] == ins;
    ShiftedInstr(f0, t.f, b, j);
    RenderAt(t, sigma, fills, b, InstrsOf(t.f, b), j + Shift(f0, t.f, b));
  }

  /** What placement leaves behind is what the walk needs. */
  lemma WalkIsReady(f0: Func, t: Ssa, frontier: Frontier, has: set<(Node, Name)>, next: Name)
    requires Promotable(f0) && Placed(f0, t.f, has, next) && PhisAreIterated(f0, frontier, has)
    requires IsDominatorTree(t.f.cfg.Edges(), t.id, t.up) && t.up.Keys <= t.f.cfg.Edges().Keys
    requires FrontiersUpTo(t.f.cfg, t.up, t.id, frontier, |t.f.cfg.preds|)
    ensures Renamable(f0, t) && PhisReady(f0, t)
  {
    SameTerms(f0, t.f);
    PlacedSlots(f0, t.f);
    JoinsHavePhis(f0, t, frontier, has, next);
    UsesAreInScope(f0, t);
    PlacedIsComplete(f0, t, frontier, has, next);
    forall v ensures !HasPhi(InstrsOf(t.f, ENTRY), v) {
      EntryHasNoPhi(f0, t, frontier, has, next, v);
    }
    forall b {:trigger t.f.code[b]} | 0 <= b < |t.f.code| ensures NoPairs(t.f.code[b].instrs) {
      assert PlacedAt(f0, t.f, has, b);
    }
    CodeStarts(t);
  }

  lemma SameTerms(f0: Func, f1: Func)
    requires ValidFunc(f0) && PhisPlaced(f0, f1)
    ensures ValidFunc(f1)
  {
    forall b, s {:trigger s in f1.cfg.succs[b]} | 0 <= b < |f1.code|
      ensures s in f1.cfg.succs[b] <==> s in Targets(f1.code[b].term)
    {
      SameTerm(f0, f1, b);
    }
  }

  lemma WalkStarts(f0: Func, t: Ssa, addr: Addresses)
    requires Renamable(f0, t)
    ensures MayEnter(t, addr, Walk(t.f.code, map[], map[], [], {}), ENTRY) && Subtree(t, ENTRY) == t.up.Keys
  {
    EntryIsFirst(t, addr);
    forall v ensures TopIs(map[], ScopeIn(t, ENTRY), v) && KeyGrows(t, map[], map[], {}, v) {}
    forall b | b in t.up ensures ENTRY in Anc(t.up, t.id, b) {
      AncBasics(t.up, t.id, b);
    }
  }

  lemma BlockFinishes(t: Ssa, w: Walk, code: seq<Code>, b: Node)
    requires Climbs(t.up, t.id) && UniqueIds(t.f) && WalkOk(t, w) && w.deleted == t.up.Keys && |code| == |w.code|
    requires b in t.up && b < |t.f.code| && b < |code| && AllocasGone(w.code[b], code[b])
    ensures BlockIs(t, code[b], Final, w.sigma, w.fills, b)
  {
    assert BlockIs(t, w.code[b], Deleted, w.sigma, w.fills, b);
    AllocasFinish(t, w.sigma, w.fills, b, w.code[b], code[b]);
  }

  lemma CodeFinishes(t: Ssa, w: Walk, code: seq<Code>)
    requires Climbs(t.up, t.id) && UniqueIds(t.f) && WalkOk(t, w) && w.deleted == t.up.Keys && |code| == |w.code|
    requires forall b {:trigger code[b]} :: 0 <= b < |code| ==> AllocasGone(w.code[b], code[b])
    requires AllSettled(t, w.sigma, w.fills, t.up.Keys) && FillsGrow(t.f.cfg, [], w.fills, t.up.Keys)
    ensures IsPromoted(t, t.f.(code := code), w.sigma, w.fills)
  {
    forall b {:trigger code[b]} | b in t.up && b < |t.f.code| ensures BlockIs(t, code[b], Final, w.sigma, w.fills, b) {
      BlockFinishes(t, w, code, b);
    }
    forall p: Node, s: Node | p in t.up && Edge(t.f.cfg.Edges(), p, s) ensures (p, s) in w.fills {
      assert Settled(t, w.sigma, w.fills, p);
    }
    forall b | b in t.up ensures Covers(t, w.sigma, b) {
      assert Settled(t, w.sigma, w.fills, b);
    }
  }

  /** The pass keeps where the terminators lead. */
  lemma TermsAreKept(t: Ssa, w: Walk, code: seq<Code>)
    requires Climbs(t.up, t.id) && ValidFunc(t.f) && WalkOk(t, w) && |code| == |w.code|
    requires forall b {:trigger code[b]} :: 0 <= b < |code| ==> AllocasGone(w.code[b], code[b])
    ensures ValidFunc(t.f.(code := code))
  {
    forall b, s {:trigger s in t.f.cfg.succs[b]} | 0 <= b < |code|
      ensures s in t.f.cfg.succs[b] <==> s in Targets(code[b].term)
    {
      assert AllocasGone(w.code[b], code[b]) && BlockIs(t, w.code[b], StageOf(w.deleted, b), w.sigma, w.fills, b);
      assert Targets(code[b].term) == Targets(t.f.code[b].term);
    }
  }

  /** After the walk and the removal of the allocas. */
  lemma WalkFinishes(f0: Func, t: Ssa, w: Walk, code: seq<Code>)
    requires Renamable(f0, t)
    requires WalkOk(t, w) && w.deleted == t.up.Keys && AllSettled(t, w.sigma, w.fills, t.up.Keys)
    requires FillsGrow(t.f.cfg, [], w.fills, t.up.Keys)
    requires |code| == |w.code| && forall b {:trigger code[b]} :: 0 <= b < |code| ==> AllocasGone(w.code[b], code[b])
    ensures Promotes(f0, t, t.f.(code := code), w.sigma, w.fills)
  {
    CodeFinishes(t, w, code);
  }

  /** What the walk from the entry needs, and what it leaves. */
  ghost predicate Renamable(f0: Func, t: Ssa) {
    && ValidSsa(t) && OperandsAvailable(t) && PhisComplete(t) && PhisPlaced(f0, t.f) && ValidFunc(f0)
    && f0.cfg.preds[ENTRY] == [] && (forall v :: !HasPhi(InstrsOf(t.f, ENTRY), v)) && SlotsAllocated(t.f)
    && CodeIs(t, t.f.code, map[], [], {})
  }

  /** f2 is in SSA form and behaves as f0 iff every load of a scalar slot of f0 is reached
      by a store; it is free of slots iff every load is. */
  ghost predicate IsResult(f0: Func, f2: Func) {
    && ValidFunc(f2) && f2.cfg == f0.cfg && f2.args == f0.args && (exists sigma :: KeepsCode(f0, f2, sigma))
    && (IsSsaForm(f2) <==> ScalarLoadsReached(f0)) && (SameBehaviour(f0, f2) <==> ScalarLoadsReached(f0))
    && (FreeOfSlots(f2) <==> LoadsReached(f0)) && HasPhisOf(f0, f2)
  }

  /** The phis of f2 have all their operands iff a store reaches every edge to a join, and
      two or more iff stores reach two edges to every join. */
  ghost predicate HasPhisOf(f0: Func, f2: Func) {
    (PhisFilled(f2) <==> EdgesReached(f0)) && (PhisHaveTwo(f2) <==> JoinsFedTwice(f0))
  }

  lemma WalkPromotes(f0: Func, t: Ssa, w0: Walk, w: Walk, code: seq<Code>)
    requires Renamable(f0, t) && PhisReady(f0, t) && Visited(t, w0, w, t.up.Keys) && w0.deleted == {} && w0.fills == []
    requires |code| == |w.code| && forall b {:trigger code[b]} :: 0 <= b < |code| ==> AllocasGone(w.code[b], code[b])
    ensures IsResult(f0, f0.(code := code))
  {
    var f2 := f0.(code := code);
    assert t.f.(code := code) == f2;
    WalkFinishes(f0, t, w, code);
    TermsAreKept(t, w, code);
    PromotedIsResult(f0, t, f2, w.sigma, w.fills);
  }

  lemma PromotedIsResult(f0: Func, t: Ssa, f2: Func, sigma: map<Name, Operand>, fills: Fills)
    requires Promotes(f0, t, f2, sigma, fills) && PhisReady(f0, t) && SlotsAllocated(t.f) && ValidFunc(f2)
    ensures IsResult(f0, f2)
  {
    PromotedMeans(f0, t, f2, sigma, fills);
    PromotedIsFree(f0, t, f2, sigma, fills);
    PromotedPhis(f0, t, f2, sigma, fills);
    CodeIsKept(f0, t, f2, sigma, fills);
    NamedIffReached(f0, t);
  }

  lemma PromotedMeans(f0: Func, t: Ssa, f2: Func, sigma: map<Name, Operand>, fills: Fills)
    requires Promotes(f0, t, f2, sigma, fills) && PhisReady(f0, t) && SlotsAllocated(t.f)
    ensures (IsSsaForm(f2) <==> ScalarLoadsReached(f0)) && (SameBehaviour(f0, f2) <==> ScalarLoadsReached(f0))
  {
    PromotedRuns(f0, t, f2, sigma, fills);
    SlotsStayIff(f0, t, f2, sigma, fills);
    PromotedIsSsa(f0, t, f2, sigma, fills);
    NamedIffReached(f0, t);
  }

  lemma PromotedPhis(f0: Func, t: Ssa, f2: Func, sigma: map<Name, Operand>, fills: Fills)
    requires Promotes(f0, t, f2, sigma, fills) && PhisReady(f0, t)
    ensures HasPhisOf(f0, f2)
  {
    PhisFilledIff(f0, t, f2, sigma, fills);
    PhisHaveTwoIff(f0, t, f2, sigma, fills);
    NamedIffReached(f0, t);
    NamedTwiceIff(f0, t);
  }

  /** `Mem2Reg::run` on one function, whose blocks lie at these addresses. `next` is above
      every identity in use. ok is false where the pass would stop at an assertion or read
      an empty stack. */
  method PromoteToRegisters(f: Func, addr: Addresses, next: Name) returns (ok: bool, f2: Func)
    requires Promotable(f) && AreAddresses(f.cfg, addr) && IdsBelow(f, next)
    ensures ok <==> NeverStops(f, addr)
    ensures ok ==> ValidFunc(f2) && f2.cfg == f.cfg && f2.args == f.args && exists sigma :: KeepsCode(f, f2, sigma)
    ensures ok ==> (PhisHaveTwo(f2) <==> JoinsFedTwice(f))
    ensures ok ==> (IsSsaForm(f2) <==> ScalarLoadsReached(f)) && (SameBehaviour(f, f2) <==> ScalarLoadsReached(f))
    ensures ok ==> (FreeOfSlots(f2) <==> LoadsReached(f)) && (PhisFilled(f2) <==> EdgesReached(f))
    ensures StoredFirst(f) ==> ok && IsSsaForm(f2) && SameBehaviour(f, f2)
    ensures StoredFirst(f) ==> FreeOfSlots(f2) && PhisFilled(f2) && PhisHaveTwo(f2)
  {
    var dominators := new Dominators.Dominators(f.cfg);
    dominators.Run();
    var placer := new PhiPlacer(f, dominators.frontier, next);
    PlacedStart(f, next);
    forall x, y | y in FrontierOf(placer.frontier, x) ensures y < |f.code| {
      FrontierBlocksAreJoins(f.cfg, dominators.idom, dominators.postOrderId, placer.frontier, x, y);
    }
    placer.GeneratePhi();
    ghost var t := Ssa(placer.Now(), dominators.idom, dominators.postOrderId);
    WalkIsReady(f, t, placer.frontier, placer.has, placer.next);
    forall b | b in t.up ensures AreChildren(t, b, dominators.children[b]) {
      ListedChildren(t, dominators.children, b);
    }
    ok, f2 := Rename(f, dominators.children, addr, placer.code, t);
    StoredFirstGives(f, addr);
  }

  lemma StoredFirstGives(f: Func, addr: Addresses)
    requires Promotable(f)
    ensures StoredFirst(f) ==> NeverStops(f, addr) && LoadsReached(f) && ScalarLoadsReached(f)
    ensures StoredFirst(f) ==> EdgesReached(f) && JoinsFedTwice(f)
  {
    if StoredFirst(f) {
      StoredFirstMissesNothing(f);
      ReachedJoinsAreFed(f);
    }
  }

  /** The walk from the entry and `remove_alloca`. */
  method Rename(f: Func, children: map<Node, set<Node>>, addr: Addresses, code: seq<Code>,
                ghost t: Ssa) returns (ok: bool, f2: Func)
    requires Renamable(f, t) && PhisReady(f, t) && AreAddresses(f.cfg, addr) && t.f == f.(code := code)
    requires forall b :: b in t.up ==> b in children && AreChildren(t, b, children[b])
    ensures ok <==> NeverStops(f, addr)
    ensures ok ==> IsResult(f, f2)
  {
    f2 := f;
    ghost var lists := CodeUses.FollowStarts(t.f);
    var renamer := new Mem2Reg.Renamer(f.cfg, children, addr, code, t, lists);
    WalkStarts(f, t, addr);
    NoneStuckIff(f, t, addr);
    ghost var w0 := renamer.Now();
    ok := renamer.ReName(ENTRY);
    if ok {
      var code2 := RemoveAlloca(renamer.code);
      f2 := f.(code := code2);
      WalkPromotes(f, t, w0, renamer.Now(), code2);
    }
  }
}
