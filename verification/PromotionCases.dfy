/** Two small functions that Mem2Reg does not serve: one whose kept load loses its slot,
    and one that is promoted or not depending on where its blocks lie in memory. */
module PromotionCases {
  import opened Wrappers
  import opened Graphs
  import opened ControlFlow
  import opened DomTree
  import opened Ir
  import opened Scopes
  import opened PhiPlacement
  import opened ReachingStores
  import opened SsaForm
  import opened PhiPairs
  import opened VisitOrder
  import opened GivesUp
  import opened Mem2RegPass

  // ------------------------------------------------------ a return that is not stored

  /** `int main(void) { output(1); }`: the slot of the result is loaded, never stored. */
  function UnstoredReturn(): Func {
    Func({}, Cfg([[]], [[]]),
         [Code([Instr(0, Alloca(true)), Instr(1, Call(0, [Const(Word(1))])), Instr(2, Load(Cell(0)))],
           Return(Some(Ref(2))))])
  }

  lemma UnstoredReturnIsValid(f: Func)
    requires f == UnstoredReturn()
    ensures ValidFunc(f) && NoPhis(f) && f.cfg.preds[ENTRY] == [] && f.cfg.ReachablePreds()
  {
  }

  lemma UnstoredReturnCode(f: Func, b: Node, k: nat)
    requires f == UnstoredReturn() && k < |InstrsOf(f, b)|
    ensures b == 0 && InstrsOf(f, b)[k].id == k && forall x :: !ReadAt(f, b, k, x)
    ensures forall v :: AccessAt(f, b, k, v) ==> k == 2 && v == 0
  {
  }

  lemma UnstoredReturnHasDefs(f: Func)
    requires f == UnstoredReturn()
    ensures UniqueIds(f) && SlotsDontEscape(f) && DefsDominateUses(f) && SlotsAllocated(f)
  {
    forall b: Node, k: nat | k < |InstrsOf(f, b)|
      ensures b == 0 && InstrsOf(f, b)[k].id == k && (forall x :: !ReadAt(f, b, k, x)) && forall v ::
        AccessAt(f, b, k, v) ==> k == 2 && v == 0
    {
      UnstoredReturnCode(f, b, k);
    }
    assert AllocAbove(f, 0, 2, 0, 0, 0) && DefAbove(f, 0, 3, 2, 0, 2);
  }

  lemma UnstoredReturnIsPromotable()
    ensures Promotable(UnstoredReturn())
  {
    UnstoredReturnIsValid(UnstoredReturn());
    UnstoredReturnHasDefs(UnstoredReturn());
  }

  /** The pass ends in every order, and the load stays without its slot: the result is
      neither in SSA form nor does it mean anything. */
  lemma UnstoredReturnLosesSlot()
    ensures !ScalarLoadsReached(UnstoredReturn())
    ensures forall addr: Addresses :: NeverStops(UnstoredReturn(), addr)
  {
    var f := UnstoredReturn();
    ReachesSelf(f.cfg.Edges(), ENTRY);
    assert LoadAt(f, 0, 2, 0) && ScalarAt(f, 0, 0, 0);
    assert UnreachedLoad(f, 0, 2, 0);
    forall c: Node, v: Name ensures !DefinesVar(f, c, v) {
      assert HoldsJoins(f, v, {});
    }
  }

  method PromoteUnstoredReturn(addr: Addresses) returns (f2: Func)
    requires AreAddresses(UnstoredReturn().cfg, addr)
    ensures !IsSsaForm(f2) && !SameBehaviour(UnstoredReturn(), f2)
  {
    UnstoredReturnIsPromotable();
    UnstoredReturnLosesSlot();
    UnstoredReturnIds(UnstoredReturn());
    var ok;
    ok, f2 := PromoteToRegisters(UnstoredReturn(), addr, 3);
  }

  lemma UnstoredReturnIds(f: Func)
    requires f == UnstoredReturn()
    ensures IdsBelow(f, 3)
  {
    forall b: Node, k: nat, x: Name | IdAt(f, b, k, x) ensures x < 3 {
      UnstoredReturnCode(f, b, k);
    }
  }

  // ----------------------------------------------------------------- two branches

  /** `int a; if (c) a = 1; else output(1); return a;` */
  function TwoBranches(): Func {
    Func({9}, Cfg([[1, 2], [3], [3], []], [[], [0], [0], [1, 2]]),
         [Code([Instr(0, Alloca(true))], Branch(Ref(9), 1, 2)),
          Code([Instr(1, Store(Const(Word(1)), Cell(0)))], Jump(3)),
          Code([Instr(2, Call(0, [Const(Word(1))]))], Jump(3)),
          Code([Instr(3, Load(Cell(0)))], Return(Some(Ref(3))))])
  }

  function Fork(): Graph {
    TwoBranches().cfg.Edges()
  }

  lemma ForkIsCfg(f: Func)
    requires f == TwoBranches()
    ensures f.cfg.Edges() == Fork()
  {
  }

  lemma ForkEdges(a: Node, b: Node)
    ensures Edge(Fork(), a, b) <==> (a == 0 && (b == 1 || b == 2)) || ((a == 1 || a == 2) && b == 3)
  {
  }

  lemma ForkWalks()
    ensures WalkBetween(Fork(), [0], 0, 0) && WalkBetween(Fork(), [0, 1], 0, 1) && WalkBetween(Fork(), [0, 2], 0, 2)
    ensures WalkBetween(Fork(), [0, 1, 3], 0, 3) && WalkBetween(Fork(), [0, 2, 3], 0, 3)
    ensures forall b: Node :: b < 4 ==> Reaches(Fork(), ENTRY, b)
  {
    assert Edge(Fork(), 0, 1) && Edge(Fork(), 0, 2) && Edge(Fork(), 1, 3) && Edge(Fork(), 2, 3);
    forall b: Node | b < 4 ensures Reaches(Fork(), ENTRY, b) {
      var w := if b == 0 then [0] else if b == 3 then [0, 1, 3] else [0, b];
      assert WalkBetween(Fork(), w, ENTRY, b);
    }
  }

  lemma ForkDominance(d: Node, b: Node)
    requires b < 4
    ensures Dominates(Fork(), d, b) <==> d == 0 || d == b
  {
    ForkWalks();
    DominatesSelf(Fork(), b);
    forall w | WalkBetween(Fork(), w, ENTRY, b) ensures 0 in w {
      assert w[0] == 0;
    }
    if Dominates(Fork(), d, b) {
      assert b == 0 ==> d in [0];
      assert b == 1 ==> d in [0, 1];
      assert b == 2 ==> d in [0, 2];
      assert b == 3 ==> d in [0, 1, 3] && d in [0, 2, 3];
    }
  }

  lemma ForkReachable(b: Node)
    ensures Reaches(Fork(), ENTRY, b) <==> b < 4
  {
    ForkWalks();
    if Reaches(Fork(), ENTRY, b) {
      var w :| WalkBetween(Fork(), w, ENTRY, b);
      if |w| > 1 {
        assert Edge(Fork(), w[|w| - 2], w[|w| - 1]);
        ForkEdges(w[|w| - 2], b);
      }
    }
  }

  lemma ForkIdom(d: Node, b: Node)
    requires b < 4
    ensures IsIdom(Fork(), d, b) <==> d == 0 && b != 0
  {
    forall e ensures Dominates(Fork(), e, b) <==> e == 0 || e == b {
      ForkDominance(e, b);
    }
    if d < 4 {
      forall e ensures Dominates(Fork(), e, d) <==> e == 0 || e == d {
        ForkDominance(e, d);
      }
    }
  }

  lemma ForkFrontier(x: Node, y: Node)
    ensures InFrontier(Fork(), x, y) <==> (x == 1 || x == 2) && y == 3
  {
    ForkReachable(y);
    ForkEdges(1, 3);
    ForkEdges(2, 3);
    forall p ensures Edge(Fork(), p, y) ==> p < 3 && (Dominates(Fork(), x, p) <==> x == 0 || x == p) {
      ForkEdges(p, y);
      if p < 4 {
        ForkDominance(x, p);
      }
    }
    if y < 4 {
      ForkDominance(x, y);
    }
    ForkDominance(x, 1);
    ForkDominance(x, 2);
  }

  lemma StoreInFork(x: Node, v: Name)
    ensures HasStore(InstrsOf(TwoBranches(), x), v) <==> x == 1 && v == 0
  {
    var f := TwoBranches();
    assert IsCellStore(f.code[1].instrs[0].op) && f.code[1].instrs[0].op.to.slot == 0;
    if HasStore(InstrsOf(f, x), v) {
      var i :| 0 <= i < |InstrsOf(f, x)| && IsCellStore(InstrsOf(f, x)[i].op) && InstrsOf(f, x)[i].op.to.slot == v;
      assert i == 0;
    }
  }

  /** The one join is the block where the branches meet. */
  lemma ForkJoins(v: Name, b: Node)
    ensures IteratedJoin(TwoBranches(), v, b) <==> v == 0 && b == 3
  {
    var f := TwoBranches();
    forall x: Node ensures HasStore(InstrsOf(f, x), v) <==> x == 1 && v == 0 {
      StoreInFork(x, v);
    }
    forall x: Node, y: Node ensures InFrontier(Fork(), x, y) <==> (x == 1 || x == 2) && y == 3 {
      ForkFrontier(x, y);
    }
    var joins: set<Node> := if v == 0 then {3} else {};
    ForkIsCfg(f);
    assert HoldsJoins(f, v, joins);
    if v == 0 && b == 3 {
      forall s | HoldsJoins(f, v, s) ensures b in s {
        assert HasStore(InstrsOf(f, 1), v) && InFrontier(Fork(), 1, 3);
      }
    }
  }

  lemma ForkLeads(v: Name, b: Node)
    ensures StoreLeads(TwoBranches(), v, b) <==> v == 0 && b == 3
  {
    var f, g := TwoBranches(), Fork();
    ForkEdges(1, 3);
    ReachesSelf(g, 3);
    StoreInFork(1, 0);
    assert Leads(g, 1, 3);
    if StoreLeads(f, v, b) {
      var a :| HasStore(InstrsOf(f, a), v) && Leads(g, a, b);
      StoreInFork(a, v);
      var c :| Edge(g, a, c) && Reaches(g, c, b);
      ForkEdges(a, c);
      var w :| WalkBetween(g, w, c, b);
      if |w| > 1 {
        assert Edge(g, w[0], w[1]);
        ForkEdges(w[0], w[1]);
      }
    }
  }

  /** Only the branch without the store misses a name. */
  lemma ForkMisses(b: Node, v: Name)
    ensures MissesName(TwoBranches(), b, v) <==> b == 2 && v == 0
    ensures forall k: nat :: !UnreachedLoad(TwoBranches(), b, k, v)
    ensures b == 2 && v == 0 ==> UnreachedEdge(TwoBranches(), 2, 3, 0)
  {
    var f := TwoBranches();
    ForkReachable(b);
    ForkLeads(v, b);
    forall k: nat ensures !UnreachedLoad(f, b, k, v) {}
    forall s: Node ensures UnreachedEdge(f, b, s, v) <==> b == 2 && v == 0 && s == 3 {
      ForkJoins(v, s);
      ForkEdges(b, s);
      StoreInFork(b, v);
      assert InstrsOf(f, b)[..|InstrsOf(f, b)|] == InstrsOf(f, b);
    }
    assert b == 2 && v == 0 ==> UnreachedEdge(f, b, 3, v);
  }

  lemma ForkSiblings(addr: Addresses, x: Node, y: Node)
    ensures LowerSibling(Fork(), addr, x, y) <==> 0 < x < 4 && 0 < y < 4 && x in addr && y in addr && addr[x] < addr[y]
  {
    ForkReachable(x);
    ForkReachable(y);
    if x < 4 && y < 4 {
      ForkIdom(0, x);
      ForkIdom(0, y);
      forall d ensures IsIdom(Fork(), d, x) ==> x != 0 {
        ForkIdom(d, x);
      }
      forall d ensures IsIdom(Fork(), d, y) ==> y != 0 {
        ForkIdom(d, y);
      }
    }
  }

  lemma EntersBeforeTwo(addr: Addresses, c: Node)
    requires 0 < c < 4 && c in addr && 2 in addr
    ensures EnteredBefore(Fork(), addr, c, 2) <==> addr[c] < addr[2]
  {
    ForkDominance(c, 2);
    forall x, y ensures LowerSibling(Fork(), addr, x, y) && Dominates(Fork(), x, c) && Dominates(Fork(), y, 2) <==>
      x == c && y == 2 && addr[c] < addr[2]
    {
      ForkSiblings(addr, x, y);
      ForkDominance(x, c);
      ForkDominance(y, 2);
    }
    assert addr[c] < addr[2] ==> LowerSibling(Fork(), addr, c, 2) && Dominates(Fork(), c, c);
  }

  /** The walk gets through iff the branch without the store lies below the other branch
      and below the block where they meet. */
  lemma OrderDecides(addr: Addresses)
    requires AreAddresses(TwoBranches().cfg, addr)
    ensures NeverStops(TwoBranches(), addr) <==> addr[2] < addr[1] && addr[2] < addr[3]
  {
    var f := TwoBranches();
    forall b: Node, v: Name ensures MissesName(f, b, v) <==> b == 2 && v == 0 {
      ForkMisses(b, v);
    }
    forall c: Node ensures DefinesVar(f, c, 0) <==> c == 1 || c == 3 {
      StoreInFork(c, 0);
      ForkJoins(0, c);
    }
    EntersBeforeTwo(addr, 1);
    EntersBeforeTwo(addr, 3);
    ForkReachable(1);
    ForkReachable(3);
    assert !SameNumber(addr, 1, 2) && !SameNumber(addr, 3, 2);
    assert GivenBefore(f, addr, 2, 0) <==> addr[1] < addr[2] || addr[3] < addr[2];
    assert StopsAt(f, addr, 2, 0) <==> GivenBefore(f, addr, 2, 0);
  }

  lemma TwoBranchesIsValid(f: Func)
    requires f == TwoBranches()
    ensures ValidFunc(f) && f.cfg.preds[ENTRY] == [] && NoPhis(f)
  {
  }

  lemma TwoBranchesCode(f: Func, b: Node, k: nat)
    requires f == TwoBranches() && k < |InstrsOf(f, b)|
    ensures b < 4 && k == 0 && InstrsOf(f, b)[k].id == b && forall x :: !ReadAt(f, b, k, x)
  {
  }

  lemma TwoBranchesHasIds(f: Func)
    requires f == TwoBranches()
    ensures UniqueIds(f) && SlotsDontEscape(f)
  {
    forall b: Node, k: nat, x: Name | IdAt(f, b, k, x) ensures b == x < 4 && k == 0 {
      TwoBranchesCode(f, b, k);
    }
    forall b: Node, k: nat, x: Name ensures !ReadAt(f, b, k, x) {
      if k < |InstrsOf(f, b)| {
        TwoBranchesCode(f, b, k);
      }
    }
  }

  lemma TwoBranchesIsReachable(f: Func)
    requires f == TwoBranches()
    ensures f.cfg.ReachablePreds()
  {
    ForkIsCfg(f);
    forall p: Node, s: Node | Edge(Fork(), p, s) ensures Reaches(Fork(), ENTRY, p) {
      ForkEdges(p, s);
      ForkReachable(p);
    }
  }

  lemma TwoBranchesHasSlots(f: Func)
    requires f == TwoBranches()
    ensures SlotsAllocated(f)
  {
    ForkIsCfg(f);
    forall b: Node, k: nat, v: Name | AccessAt(f, b, k, v) ensures AllocatedAbove(f, b, k, v) {
      ForkDominance(0, b);
      assert AllocAbove(f, b, k, v, 0, 0);
    }
  }

  lemma TwoBranchesHasDefs(f: Func)
    requires f == TwoBranches()
    ensures DefsDominateUses(f)
  {
    forall b: Node, k: nat, x: Name ensures !ReadAt(f, b, k, x) {
      if k < |InstrsOf(f, b)| {
        TwoBranchesCode(f, b, k);
      }
    }
    forall b: Node, x: Name | ReadAtEnd(f, b, x) ensures DefinedAbove(f, b, |InstrsOf(f, b)|, x) {
      assert x in f.args || DefAbove(f, 3, 1, 3, 3, 0);
    }
  }

  lemma TwoBranchesIsPromotable()
    ensures Promotable(TwoBranches())
  {
    var f := TwoBranches();
    TwoBranchesIsValid(f);
    TwoBranchesHasIds(f);
    TwoBranchesIsReachable(f);
    TwoBranchesHasSlots(f);
    TwoBranchesHasDefs(f);
  }

  /** Only where the walk gets through does the pass promote it; the phi then lacks the
      pair of the branch without the store. */
  method PromoteTwoBranches(addr: Addresses) returns (ok: bool, f2: Func)
    requires AreAddresses(TwoBranches().cfg, addr)
    ensures ok <==> addr[2] < addr[1] && addr[2] < addr[3]
    ensures ok ==> IsSsaForm(f2) && SameBehaviour(TwoBranches(), f2) && FreeOfSlots(f2) && !PhisFilled(f2)
  {
    TwoBranchesIsPromotable();
    OrderDecides(addr);
    TwoBranchesReached();
    TwoBranchesIds(TwoBranches());
    ok, f2 := PromoteToRegisters(TwoBranches(), addr, 10);
  }

  lemma TwoBranchesReached()
    ensures LoadsReached(TwoBranches()) && !EdgesReached(TwoBranches())
  {
    var f := TwoBranches();
    forall b: Node, k: nat, v: Name ensures !UnreachedLoad(f, b, k, v) {
      ForkMisses(b, v);
    }
    ForkMisses(2, 0);
  }

  lemma TwoBranchesIds(f: Func)
    requires f == TwoBranches()
    ensures IdsBelow(f, 10)
  {
    forall b: Node, k: nat, x: Name | IdAt(f, b, k, x) ensures x < 10 {
      TwoBranchesCode(f, b, k);
    }
  }

  // ------------------------------------------------------------ stored beforehand

  /** `int a = 0; if (c) a = 1; else output(1); return a;` */
  function StoredBranches(): Func {
    Func({9}, Cfg([[1, 2], [3], [3], []], [[], [0], [0], [1, 2]]),
         [Code([Instr(0, Alloca(true)), Instr(4, Store(Const(Word(0)), Cell(0)))], Branch(Ref(9), 1, 2)),
          Code([Instr(1, Store(Const(Word(1)), Cell(0)))], Jump(3)),
          Code([Instr(2, Call(0, [Const(Word(1))]))], Jump(3)),
          Code([Instr(3, Load(Cell(0)))], Return(Some(Ref(3))))])
  }

  lemma StoredBranchesIsValid(f: Func)
    requires f == StoredBranches()
    ensures ValidFunc(f) && f.cfg == TwoBranches().cfg && NoPhis(f)
  {
  }

  lemma StoredBranchesCode(f: Func, b: Node, k: nat)
    requires f == StoredBranches() && k < |InstrsOf(f, b)|
    ensures b < 4 && (k == 0 || (b == 0 && k == 1)) && forall x :: !ReadAt(f, b, k, x)
    ensures InstrsOf(f, b)[k].id == if k == 1 then 4 else b
  {
  }

  lemma StoredBranchesHasIds(f: Func)
    requires f == StoredBranches()
    ensures UniqueIds(f) && SlotsDontEscape(f) && IdsBelow(f, 10)
  {
    forall b: Node, k: nat, x: Name | IdAt(f, b, k, x)
      ensures if k == 1 then b == 0 && x == 4 else k == 0 && b == x < 4
    {
      StoredBranchesCode(f, b, k);
    }
    forall b: Node, k: nat, x: Name ensures !ReadAt(f, b, k, x) {
      if k < |InstrsOf(f, b)| {
        StoredBranchesCode(f, b, k);
      }
    }
  }

  lemma StoredBranchesHasDefs(f: Func)
    requires f == StoredBranches()
    ensures SlotsAllocated(f) && DefsDominateUses(f)
  {
    StoredBranchesIsValid(f);
    forall b: Node, k: nat, v: Name | AccessAt(f, b, k, v) ensures AllocatedAbove(f, b, k, v) {
      ForkDominance(0, b);
      assert AllocAbove(f, b, k, v, 0, 0);
    }
    forall b: Node, k: nat, x: Name ensures !ReadAt(f, b, k, x) {
      if k < |InstrsOf(f, b)| {
        StoredBranchesCode(f, b, k);
      }
    }
    forall b: Node, x: Name | ReadAtEnd(f, b, x) ensures DefinedAbove(f, b, |InstrsOf(f, b)|, x) {
      assert x in f.args || DefAbove(f, 3, 1, 3, 3, 0);
    }
  }

  lemma StoredBranchesIsPromotable(f: Func)
    requires f == StoredBranches()
    ensures Promotable(f) && IdsBelow(f, 10)
  {
    StoredBranchesIsValid(f);
    StoredBranchesHasIds(f);
    StoredBranchesHasDefs(f);
    TwoBranchesIsReachable(TwoBranches());
  }

  lemma StoredBranchesIsStoredFirst(f: Func)
    requires f == StoredBranches()
    ensures StoredFirst(f)
  {
    assert IsCellStore(f.code[0].instrs[1].op) && f.code[0].instrs[1].op.to.slot == 0;
    assert HasStore(InstrsOf(f, ENTRY), 0);
  }
}
