/** Mem2Reg and then the live-variable pass, as the driver runs them: the second reads two
    pairs of every phi that the first leaves. */
module PromotedLiveness {
  import opened Graphs
  import opened ControlFlow
  import opened Ir
  import opened Scopes
  import opened Promotion
  import opened PhiPlacement
  import opened ReachingStores
  import opened PhiPairs
  import opened VisitOrder
  import opened GivesUp
  import opened Mem2RegPass
  import opened PromotionCases
  import opened UseSets
  import ActiveVars

  ghost predicate AllReachable(cfg: Cfg) {
    forall b: Node {:trigger cfg.IsReachable(b)} :: b < |cfg.succs| ==> cfg.IsReachable(b)
  }

  ghost predicate InBoundsAt(f: Func, b: Node, ins: Instr) {
    f.cfg.IsReachable(b) && ins in InstrsOf(f, b) ==> HasAsked(ins.op)
  }

  /** No reachable instruction makes the pass read past its operands. */
  ghost predicate ReachableInBounds(f: Func) {
    forall b, ins {:trigger InBoundsAt(f, b, ins)} :: InBoundsAt(f, b, ins)
  }

  lemma InBoundsReachable(f: Func)
    requires |f.code| == |f.cfg.succs|
    ensures ReadsInBounds(f) ==> ReachableInBounds(f)
    ensures AllReachable(f.cfg) && ReachableInBounds(f) ==> ReadsInBounds(f)
  {
    if ReadsInBounds(f) {
      forall b: Node, ins | ins in InstrsOf(f, b) ensures InBoundsAt(f, b, ins) {
        assert AllHaveAsked(f.code[b].instrs, |f.code[b].instrs|);
      }
    }
    if AllReachable(f.cfg) && ReachableInBounds(f) {
      forall b: Node, k | b < |f.code| && 0 <= k < |f.code[b].instrs| ensures HasAsked(f.code[b].instrs[k].op) {
        var ins := f.code[b].instrs[k];
        assert f.cfg.IsReachable(b) && ins in InstrsOf(f, b);
        assert InBoundsAt(f, b, ins);
      }
    }
  }

  lemma SubstKeepsAsked(sigma: map<Name, Operand>, op: Op)
    requires !op.Phi?
    ensures HasAsked(SubstOp(sigma, op)) <==> HasAsked(op)
  {
  }

  lemma KeptInBounds(f: Func, f2: Func, sigma: map<Name, Operand>, b: Node, ins2: Instr)
    requires KeepsCode(f, f2, sigma) && f2.cfg == f.cfg && ReachableInBounds(f) && PhisHaveTwo(f2)
    ensures InBoundsAt(f2, b, ins2)
  {
    if f.cfg.IsReachable(b) && ins2 in InstrsOf(f2, b) {
      var k: nat :| k < |f2.code[b].instrs| && f2.code[b].instrs[k] == ins2;
      if !ins2.op.Phi? {
        assert ComesFrom(sigma, InstrsOf(f, b), ins2);
        var ins :| ins in InstrsOf(f, b) && ins2 == Instr(ins.id, SubstOp(sigma, ins.op));
        assert InBoundsAt(f, b, ins);
        SubstKeepsAsked(sigma, ins.op);
      }
    }
  }

  lemma WasInBounds(f: Func, f2: Func, sigma: map<Name, Operand>, b: Node, ins: Instr)
    requires NoPhis(f) && KeepsCode(f, f2, sigma) && f2.cfg == f.cfg && ReachableInBounds(f2)
    ensures InBoundsAt(f, b, ins)
  {
    if f.cfg.IsReachable(b) && ins in InstrsOf(f, b) {
      var k: nat :| k < |f.code[b].instrs| && f.code[b].instrs[k] == ins;
      var ins2 := Instr(ins.id, SubstOp(sigma, ins.op));
      if ins2 in InstrsOf(f2, b) {
        assert InBoundsAt(f2, b, ins2);
        SubstKeepsAsked(sigma, ins.op);
      }
    }
  }

  lemma InBoundsHaveTwo(f: Func)
    requires ReachableInBounds(f)
    ensures PhisHaveTwo(f)
  {
    forall s: Node, k: nat {:trigger f.code[s].instrs[k]}
      | f.cfg.IsReachable(s) && s < |f.code| && k < |f.code[s].instrs| && f.code[s].instrs[k].op.Phi?
      ensures |f.code[s].instrs[k].op.pairs| >= 2
    {
      var ins := f.code[s].instrs[k];
      assert ins in InstrsOf(f, s);
      assert InBoundsAt(f, s, ins);
    }
  }

  /** All that promotion adds are phis. */
  lemma PromotedInBoundsIff(f: Func, f2: Func, sigma: map<Name, Operand>)
    requires NoPhis(f) && KeepsCode(f, f2, sigma) && f2.cfg == f.cfg
    ensures ReachableInBounds(f2) <==> ReachableInBounds(f) && PhisHaveTwo(f2)
  {
    if ReachableInBounds(f) && PhisHaveTwo(f2) {
      forall b, ins2 ensures InBoundsAt(f2, b, ins2) {
        KeptInBounds(f, f2, sigma, b, ins2);
      }
    }
    if ReachableInBounds(f2) {
      forall b, ins ensures InBoundsAt(f, b, ins) {
        WasInBounds(f, f2, sigma, b, ins);
      }
      InBoundsHaveTwo(f2);
    }
  }

  /** The live-variable pass on a promoted function stays in bounds only if stores reach
      two edges to every join; where all blocks are reachable and all instructions have the
      operands it asks for, exactly then. */
  method PromoteAndAnalyse(f: Func, addr: Addresses, next: Name) returns (promoted: bool, analysed: bool)
    requires Promotable(f) && AreAddresses(f.cfg, addr) && IdsBelow(f, next)
    ensures promoted <==> NeverStops(f, addr)
    ensures analysed ==> promoted && JoinsFedTwice(f)
    ensures AllReachable(f.cfg) && ReachableInBounds(f) ==> (analysed <==> promoted && JoinsFedTwice(f))
  {
    var f2;
    promoted, f2 := PromoteToRegisters(f, addr, next);
    analysed := promoted;
    if promoted {
      ghost var sigma :| KeepsCode(f, f2, sigma);
      PromotedInBoundsIff(f, f2, sigma);
      InBoundsReachable(f2);
      var active := new ActiveVars.ActiveVars();
      analysed := active.Run(f2);
    }
  }

  /** Of the edges to the block where the two branches meet, a store reaches one. */
  lemma TwoBranchesIsFedOnce()
    ensures !JoinsFedTwice(TwoBranches())
  {
    var f := TwoBranches();
    ForkJoins(0, 3);
    ForkReachable(3);
    ForkIsCfg(f);
    assert f.cfg.IsReachable(3) && IteratedJoin(f, 0, 3);
    forall p, i | p in ReachedEnds(f, 0) && ListsAt(f.cfg, p, i, 3) ensures p == 1 && i == 0 {
      ForkLeads(0, p);
      StoreInFork(p, 0);
      assert InstrsOf(f, p)[..|InstrsOf(f, p)|] == InstrsOf(f, p);
    }
    assert !TwoEdges(f.cfg, ReachedEnds(f, 0), 3);
  }

  /** Wherever its blocks lie, that function does not get through both passes. */
  method AnalyseTwoBranches(addr: Addresses) returns (analysed: bool)
    requires AreAddresses(TwoBranches().cfg, addr)
    ensures !analysed
  {
    TwoBranchesIsPromotable();
    TwoBranchesIds(TwoBranches());
    TwoBranchesIsFedOnce();
    TwoBranchesInBounds(TwoBranches());
    var promoted;
    promoted, analysed := PromoteAndAnalyse(TwoBranches(), addr, 10);
  }

  lemma TwoBranchesInBounds(f: Func)
    requires f == TwoBranches()
    ensures ReachableInBounds(f)
  {
    forall b: Node, ins | ins in InstrsOf(f, b) ensures InBoundsAt(f, b, ins) {
      assert f.code[b].instrs == [ins];
    }
  }

  /** With a store in the entry block both passes get through, wherever the blocks lie. */
  method AnalyseStoredBranches(addr: Addresses) returns (analysed: bool)
    requires AreAddresses(StoredBranches().cfg, addr)
    ensures analysed
  {
    var f := StoredBranches();
    StoredBranchesIsPromotable(f);
    StoredBranchesIsStoredFirst(f);
    StoredFirstGives(f, addr);
    StoredBranchesInBounds(f);
    var promoted;
    promoted, analysed := PromoteAndAnalyse(f, addr, 10);
  }

  lemma StoredBranchesInBounds(f: Func)
    requires f == StoredBranches()
    ensures ReachableInBounds(f) && AllReachable(f.cfg)
  {
    StoredBranchesIsValid(f);
    forall b: Node, ins | ins in InstrsOf(f, b) ensures InBoundsAt(f, b, ins) {
      var k: nat :| k < |InstrsOf(f, b)| && InstrsOf(f, b)[k] == ins;
      StoredBranchesCode(f, b, k);
    }
    ForkIsCfg(TwoBranches());
    forall b: Node | b < |f.cfg.succs| ensures f.cfg.IsReachable(b) {
      ForkReachable(b);
    }
  }
}
