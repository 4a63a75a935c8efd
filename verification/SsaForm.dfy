/** Mem2Reg builds SSA form: every name is defined once, its definition dominates its
    uses, and phi operands are defined at the end of the block they come from. */
module SsaForm {
  import opened Wrappers
  import opened Graphs
  import opened ControlFlow
  import opened DomTree
  import opened Ir
  import opened Scopes
  import opened Promotion
  import opened MeaningPreserved
  import opened RenameWalk

  ghost predicate NamedOnce(f: Func) {
    && (forall b, i, c, j, x {:trigger IdAt(f, b, i, x), IdAt(f, c, j, x)} ::
          f.cfg.IsReachable(b) && f.cfg.IsReachable(c) && IdAt(f, b, i, x) && IdAt(f, c, j, x) ==> b == c && i == j)
    && (forall b, i, x {:trigger IdAt(f, b, i, x)} :: f.cfg.IsReachable(b) && IdAt(f, b, i, x) ==> x !in f.args)
  }

  /** The phi at (s, k) has the pair (x, p). */
  ghost predicate PairAt(f: Func, s: Node, k: nat, x: Name, p: Node) {
    k < |InstrsOf(f, s)| && InstrsOf(f, s)[k].op.Phi? && (Ref(x), p) in InstrsOf(f, s)[k].op.pairs
  }

  ghost predicate PhiOperandsReach(f: Func) {
    forall s, k, x, p {:trigger PairAt(f, s, k, x, p)} :: f.cfg.IsReachable(s) && PairAt(f, s, k, x, p) ==>
      f.cfg.IsReachable(p) && DefinedAbove(f, p, |InstrsOf(f, p)|, x)
  }

  /** Operands count as uses, and so do the slots that loads and stores address. */
  ghost predicate IsSsaForm(f: Func) {
    NamedOnce(f) && DefsDominateUses(f) && PhiOperandsReach(f) && SlotsAllocated(f)
  }

  // ------------------------------------------------------ positions in rendered code

  lemma {:induction false} RenderAt(t: Ssa, sigma: map<Name, Operand>, fills: Fills, b: Node, instrs: seq<Instr>,
                                    k: nat)
    requires Climbs(t.up, t.id) && k < |instrs| && !Dropped(Final, sigma, instrs[k])
    ensures var r, at := Render(t, Final, sigma, fills, b, instrs), |Render(t, Final, sigma, fills, b, instrs[..k])|;
      at < |r| && r[at] == RenderInstr(t, sigma, fills, b, instrs[k])
    decreases |instrs|
  {
    var n := |instrs| - 1;
    if k < n {
      RenderAt(t, sigma, fills, b, instrs[..n], k);
      assert instrs[..n][..k] == instrs[..k];
    }
  }

  lemma RenderBefore(t: Ssa, sigma: map<Name, Operand>, fills: Fills, b: Node, instrs: seq<Instr>, k: nat, l: nat)
    requires Climbs(t.up, t.id) && k < l <= |instrs| && !Dropped(Final, sigma, instrs[k])
    ensures |Render(t, Final, sigma, fills, b, instrs[..k])| < |Render(t, Final, sigma, fills, b, instrs[..l])|
  {
    RenderAt(t, sigma, fills, b, instrs[..l], k);
    assert instrs[..l][..k] == instrs[..k];
  }

  lemma {:induction false} RenderFrom(t: Ssa, sigma: map<Name, Operand>, fills: Fills, b: Node, instrs: seq<Instr>,
                                      r: nat) returns (k: nat)
    requires Climbs(t.up, t.id) && r < |Render(t, Final, sigma, fills, b, instrs)|
    ensures k < |instrs| && !Dropped(Final, sigma, instrs[k])
    ensures r == |Render(t, Final, sigma, fills, b, instrs[..k])|
    ensures Render(t, Final, sigma, fills, b, instrs)[r] == RenderInstr(t, sigma, fills, b, instrs[k])
    decreases |instrs|
  {
    var n := |instrs| - 1;
    if r < |Render(t, Final, sigma, fills, b, instrs[..n])| {
      k := RenderFrom(t, sigma, fills, b, instrs[..n], r);
      assert instrs[..n][..k] == instrs[..k];
    } else {
      k := n;
    }
  }

  // -------------------------------------------------------------- what stays defined

  lemma SubstKeepsDefines(sigma: map<Name, Operand>, op: Op)
    ensures Defines(SubstOp(sigma, op)) <==> Defines(op)
  {
  }

  /** The code of a reachable block after promotion. */
  lemma PromotedCode(f0: Func, t: Ssa, f2: Func, sigma: map<Name, Operand>, fills: Fills, b: Node)
    requires Promotes(f0, t, f2, sigma, fills) && b in t.up
    ensures b < |t.f.code| && InstrsOf(f2, b) == Render(t, Final, sigma, fills, b, InstrsOf(t.f, b))
    ensures f2.code[b].term == SubstTerm(sigma, t.f.code[b].term)
  {
  }

  /** A definition whose name is not replaced survives, at the rendered position. */
  lemma DefinitionStays(f0: Func, t: Ssa, f2: Func, sigma: map<Name, Operand>, fills: Fills, a: Node, i: nat, x: Name)
    requires Promotes(f0, t, f2, sigma, fills) && a in t.up && IdAt(t.f, a, i, x) &&
      Defines(t.f.code[a].instrs[i].op) && x !in sigma
    ensures !Dropped(Final, sigma, t.f.code[a].instrs[i])
    ensures var r := |Render(t, Final, sigma, fills, a, InstrsOf(t.f, a)[..i])|;
      IdAt(f2, a, r, x) && Defines(f2.code[a].instrs[r].op)
  {
    var ins := t.f.code[a].instrs[i];
    PromotedCode(f0, t, f2, sigma, fills, a);
    RenderAt(t, sigma, fills, a, InstrsOf(t.f, a), i);
    SubstKeepsDefines(sigma, ins.op);
  }

  ghost predicate PhisInFront(t: Ssa, b: Node, k: nat) {
    forall i :: k <= i < |InstrsOf(t.f, b)| ==> !InstrsOf(t.f, b)[i].op.Phi?
  }

  lemma FixedIsNotReplaced(t: Ssa, sigma: map<Name, Operand>, b: Node, k: nat, x: Name)
    requires Climbs(t.up, t.id) && UniqueIds(t.f) && OperandsAvailable(t) && OnlyReplacements(t, sigma)
    requires b in t.up && k <= |InstrsOf(t.f, b)| && x in ScopeAt(t, b, k).avail && x !in ScopeAt(t, b, k).sub
    ensures x !in sigma
  {
    if x in sigma {
      var c, j :| ReplacedAt(t, c, j, x, sigma[x]);
      ReplacedKnown(t, b, k, c, j, x, sigma[x]);
    }
  }

  lemma AboveDominates(t: Ssa, b: Node, a: Node)
    requires ValidSsa(t) && b in t.up && a in Anc(t.up, t.id, b)
    ensures a in t.up && (a != b ==> StrictlyDominates(t.f.cfg.Edges(), a, b))
  {
    AncBasics(t.up, t.id, b);
    assert a in Anc(t.up, t.id, b) <==> Dominates(t.f.cfg.Edges(), a, b);
  }

  lemma AboveIsInTree(t: Ssa, b: Node, a: Node)
    requires ValidSsa(t) && b in t.up && (a == b || StrictlyDominates(t.f.cfg.Edges(), a, b))
    ensures a in t.up
  {
    assert a != b ==> (a in Anc(t.up, t.id, b) <==> Dominates(t.f.cfg.Edges(), a, b));
    AncBasics(t.up, t.id, b);
  }

  /** A name that is in scope and not replaced is defined above in the promoted function. */
  lemma FixedIsDefined(f0: Func, t: Ssa, f2: Func, sigma: map<Name, Operand>, fills: Fills, b: Node, k: nat, o: Operand)
    requires Promotes(f0, t, f2, sigma, fills) && b in t.up && k <= |InstrsOf(t.f, b)| && PhisInFront(t, b, k)
    requires Fixed(ScopeAt(t, b, k), o) && o.Ref?
    ensures DefinedAbove(f2, b, |Render(t, Final, sigma, fills, b, InstrsOf(t.f, b)[..k])|, o.name)
  {
    var x, n := o.name, |InstrsOf(t.f, b)|;
    FixedIsNotReplaced(t, sigma, b, k, x);
    ScopeIsAbove(t, b, n, k);
    assert DefinedBefore(t, b, n, k, x);
    if x !in t.f.args {
      var a: Node, i: nat :| DefinedAt(t, b, n, k, x, a, i);
      AboveDominates(t, b, a);
      DefinitionIsAbove(f0, t, f2, sigma, fills, b, k, x, a, i);
    }
  }

  lemma DefinitionIsAbove(f0: Func, t: Ssa, f2: Func, sigma: map<Name, Operand>, fills: Fills, b: Node, k: nat, x: Name,
                          a: Node, i: nat)
    requires Promotes(f0, t, f2, sigma, fills) && a in t.up && b in t.up && k <= |InstrsOf(t.f, b)| && x !in sigma
    requires IdAt(t.f, a, i, x) && Defines(t.f.code[a].instrs[i].op)
    requires if a == b then i < k else StrictlyDominates(t.f.cfg.Edges(), a, b)
    ensures DefinedAbove(f2, b, |Render(t, Final, sigma, fills, b, InstrsOf(t.f, b)[..k])|, x)
  {
    var r := |Render(t, Final, sigma, fills, a, InstrsOf(t.f, a)[..i])|;
    DefinitionStays(f0, t, f2, sigma, fills, a, i, x);
    if a == b {
      RenderBefore(t, sigma, fills, b, InstrsOf(t.f, b), i, k);
    }
    assert DefAbove(f2, b, |Render(t, Final, sigma, fills, b, InstrsOf(t.f, b)[..k])|, x, a, r);
  }

  // ------------------------------------------------------------------------- uses

  lemma ReadsSubst(sigma: map<Name, Operand>, op: Op, o: Operand)
    requires !op.Phi? && o in Reads(SubstOp(sigma, op))
    ensures exists y :: y in Reads(op) && Resolve(sigma, y) == o
  {
    match op {
      case Load(Mem(p)) => assert p in Reads(op);
      case Store(val, Cell(_)) => assert val in Reads(op);
      case Store(val, Mem(p)) => assert val in Reads(op) && p in Reads(op);
      case Calc(_, args) =>
        var i :| 0 <= i < |args| && SubstAll(sigma, args)[i] == o;
        assert args[i] in Reads(op);
      case Call(_, args) =>
        var i :| 0 <= i < |args| && SubstAll(sigma, args)[i] == o;
        assert args[i] in Reads(op);
      case _ =>
    }
  }

  /** Rewriting an operand that is in scope gives one that is and is not replaced. */
  lemma RewrittenIsFixed(f0: Func, t: Ssa, f2: Func, sigma: map<Name, Operand>, fills: Fills, b: Node, k: nat,
                         y: Operand)
    requires Promotes(f0, t, f2, sigma, fills) && b in t.up && k <= |InstrsOf(t.f, b)|
    requires y.Ref? ==> y.name in ScopeAt(t, b, k).vals
    ensures Fixed(ScopeAt(t, b, k), Resolve(sigma, y))
  {
    ScopeTidy(t, b, |InstrsOf(t.f, b)|, k);
    SigmaAgrees(t, sigma, b, k);
    ResolveFixed(ScopeAt(t, b, k), y);
  }

  lemma ReadIsDefined(f0: Func, t: Ssa, f2: Func, sigma: map<Name, Operand>, fills: Fills, b: Node, r: nat, x: Name)
    requires Promotes(f0, t, f2, sigma, fills) && b in t.up && ReadAt(f2, b, r, x)
    ensures DefinedAbove(f2, b, r, x)
  {
    var instrs := InstrsOf(t.f, b);
    PromotedCode(f0, t, f2, sigma, fills, b);
    var k := RenderFrom(t, sigma, fills, b, instrs, r);
    var op := instrs[k].op;
    ReadsSubst(sigma, op, Ref(x));
    var y :| y in Reads(op) && Resolve(sigma, y) == Ref(x);
    assert y.Ref? ==> ReadAt(t.f, b, k, y.name);
    RewrittenIsFixed(f0, t, f2, sigma, fills, b, k, y);
    PhisLead(f0, t, b, k);
    FixedIsDefined(f0, t, f2, sigma, fills, b, k, Ref(x));
  }

  lemma PhisLead(f0: Func, t: Ssa, b: Node, k: nat)
    requires PhisPlaced(f0, t.f) && k < |InstrsOf(t.f, b)| && !InstrsOf(t.f, b)[k].op.Phi?
    ensures PhisInFront(t, b, k)
  {
    var instrs := InstrsOf(t.f, b);
    PhisSplit(f0, t.f, b);
    var shift := |instrs| - |f0.code[b].instrs|;
    forall i | k <= i < |instrs| ensures !instrs[i].op.Phi? {
      assert instrs[i] == f0.code[b].instrs[i - shift];
    }
  }

  lemma TermReadsSubst(sigma: map<Name, Operand>, term: Term, o: Operand)
    requires o in TermReads(SubstTerm(sigma, term))
    ensures exists y :: y in TermReads(term) && Resolve(sigma, y) == o
  {
    match term {
      case Branch(cond, _, _) => assert cond in TermReads(term);
      case Return(Some(val)) => assert val in TermReads(term);
      case _ =>
    }
  }

  lemma EndReadIsDefined(f0: Func, t: Ssa, f2: Func, sigma: map<Name, Operand>, fills: Fills, b: Node, x: Name)
    requires Promotes(f0, t, f2, sigma, fills) && b in t.up && ReadAtEnd(f2, b, x)
    ensures DefinedAbove(f2, b, |InstrsOf(f2, b)|, x)
  {
    PromotedCode(f0, t, f2, sigma, fills, b);
    TermReadsSubst(sigma, t.f.code[b].term, Ref(x));
    var y :| y in TermReads(t.f.code[b].term) && Resolve(sigma, y) == Ref(x);
    assert y.Ref? ==> ReadAtEnd(t.f, b, y.name);
    RewrittenIsFixed(f0, t, f2, sigma, fills, b, |InstrsOf(t.f, b)|, y);
    EndIsDefined(f0, t, f2, sigma, fills, b, Ref(x));
  }

  lemma EndIsDefined(f0: Func, t: Ssa, f2: Func, sigma: map<Name, Operand>, fills: Fills, b: Node, o: Operand)
    requires Promotes(f0, t, f2, sigma, fills) && b in t.up && Fixed(ScopeOut(t, b), o) && o.Ref?
    ensures DefinedAbove(f2, b, |InstrsOf(f2, b)|, o.name)
  {
    var n := |InstrsOf(t.f, b)|;
    PromotedCode(f0, t, f2, sigma, fills, b);
    assert InstrsOf(t.f, b)[..n] == InstrsOf(t.f, b);
    FixedIsDefined(f0, t, f2, sigma, fills, b, n, o);
  }

  lemma {:induction false} PairsAreNames(t: Ssa, fills: Fills, s: Node, v: Name, q: (Operand, Node))
    requires Climbs(t.up, t.id) && q in PairsFor(t, fills, s, v)
    ensures q.1 in t.up && v in ScopeOut(t, q.1).cur && q.0 == ScopeOut(t, q.1).cur[v]
  {
    var init := fills[..|fills| - 1];
    if q in PairsFor(t, init, s, v) {
      PairsAreNames(t, init, s, v, q);
    }
  }

  lemma PairIsDefined(f0: Func, t: Ssa, f2: Func, sigma: map<Name, Operand>, fills: Fills, s: Node, r: nat, x: Name,
                      p: Node)
    requires Promotes(f0, t, f2, sigma, fills) && s in t.up && PairAt(f2, s, r, x, p)
    ensures p in t.up && DefinedAbove(f2, p, |InstrsOf(f2, p)|, x)
  {
    var instrs := InstrsOf(t.f, s);
    PromotedCode(f0, t, f2, sigma, fills, s);
    var k := RenderFrom(t, sigma, fills, s, instrs, r);
    assert RenderInstr(t, sigma, fills, s, instrs[k]).op.Phi? ==> instrs[k].op.Phi?;
    PairsAreNames(t, fills, s, instrs[k].op.slot, (Ref(x), p));
    ScopeTidy(t, p, |InstrsOf(t.f, p)|, |InstrsOf(t.f, p)|);
    EndIsDefined(f0, t, f2, sigma, fills, p, Ref(x));
  }

  lemma PromotedNamedOnce(f0: Func, t: Ssa, f2: Func, sigma: map<Name, Operand>, fills: Fills)
    requires Promotes(f0, t, f2, sigma, fills)
    ensures NamedOnce(f2)
  {
    forall b: Node, i: nat, x: Name | f2.cfg.IsReachable(b) && IdAt(f2, b, i, x)
      ensures exists k: nat :: IdAt(t.f, b, k, x) && i == |Render(t, Final, sigma, fills, b, InstrsOf(t.f, b)[..k])|
    {
      PromotedCode(f0, t, f2, sigma, fills, b);
      var k := RenderFrom(t, sigma, fills, b, InstrsOf(t.f, b), i);
      assert IdAt(t.f, b, k, x);
    }
  }

  // ------------------------------------------------------------- the slots

  /** Every load of an integer or float slot has a name to be replaced by. */
  ghost predicate ScalarLoadsNamed(t: Ssa)
    requires Climbs(t.up, t.id)
  {
    forall b, k, v {:trigger UnnamedLoad(t, b, k, v)} :: b in t.up && UnnamedLoad(t, b, k, v) ==> !ScalarSlot(t.f, v)
  }

  ghost predicate LoadsNamed(t: Ssa)
    requires Climbs(t.up, t.id)
  {
    forall b, k, v {:trigger UnnamedLoad(t, b, k, v)} :: b in t.up ==> !UnnamedLoad(t, b, k, v)
  }

  /** What is left of instruction k of b, if it is left. */
  ghost function PlaceOf(t: Ssa, sigma: map<Name, Operand>, fills: Fills, b: Node, k: nat): nat
    requires Climbs(t.up, t.id) && k <= |InstrsOf(t.f, b)|
  {
    |Render(t, Final, sigma, fills, b, InstrsOf(t.f, b)[..k])|
  }

  /** A load without a name stays, and nothing else that accesses a slot does. */
  lemma AccessIsUnnamed(f0: Func, t: Ssa, f2: Func, sigma: map<Name, Operand>, fills: Fills, b: Node, r: nat,
                        v: Name) returns (k: nat)
    requires Promotes(f0, t, f2, sigma, fills) && b in t.up && AccessAt(f2, b, r, v)
    ensures UnnamedLoad(t, b, k, v) && r == PlaceOf(t, sigma, fills, b, k)
  {
    PromotedCode(f0, t, f2, sigma, fills, b);
    k := RenderFrom(t, sigma, fills, b, InstrsOf(t.f, b), r);
    SubstKeepsKind(sigma, InstrsOf(t.f, b)[k].op);
    LoadReplacedIff(t, sigma, b, k);
  }

  lemma UnnamedStays(f0: Func, t: Ssa, f2: Func, sigma: map<Name, Operand>, fills: Fills, b: Node, k: nat, v: Name)
    requires Promotes(f0, t, f2, sigma, fills) && b in t.up && UnnamedLoad(t, b, k, v)
    ensures AccessAt(f2, b, PlaceOf(t, sigma, fills, b, k), v)
    ensures var r := PlaceOf(t, sigma, fills, b, k); IsCellLoad(f2.code[b].instrs[r].op)
  {
    var ins := InstrsOf(t.f, b)[k];
    PromotedCode(f0, t, f2, sigma, fills, b);
    LoadReplacedIff(t, sigma, b, k);
    RenderAt(t, sigma, fills, b, InstrsOf(t.f, b), k);
    SubstKeepsKind(sigma, ins.op);
  }

  /** The alloca of a pointer stays where it is. */
  lemma PointerSlotStays(f0: Func, t: Ssa, f2: Func, sigma: map<Name, Operand>, fills: Fills,
                         b: Node, k: nat, v: Name, a: Node, i: nat)
    requires Promotes(f0, t, f2, sigma, fills) && b in t.up && k <= |InstrsOf(t.f, b)|
    requires AllocAbove(t.f, b, k, v, a, i) && t.f.code[a].instrs[i].op == Alloca(false)
    ensures AllocatedAbove(f2, b, PlaceOf(t, sigma, fills, b, k), v)
  {
    AboveIsInTree(t, b, a);
    PromotedCode(f0, t, f2, sigma, fills, a);
    RenderAt(t, sigma, fills, a, InstrsOf(t.f, a), i);
    if a == b {
      RenderBefore(t, sigma, fills, b, InstrsOf(t.f, b), i, k);
    }
    assert AllocAbove(f2, b, PlaceOf(t, sigma, fills, b, k), v, a, PlaceOf(t, sigma, fills, a, i));
  }

  /** The alloca of a scalar goes: what is left are allocas of pointers. */
  lemma AllocaIsPointer(f0: Func, t: Ssa, f2: Func, sigma: map<Name, Operand>, fills: Fills, a: Node, i: nat,
                        v: Name) returns (k: nat)
    requires Promotes(f0, t, f2, sigma, fills) && a in t.up && IdAt(f2, a, i, v) && f2.code[a].instrs[i].op.Alloca?
    ensures IdAt(t.f, a, k, v) && t.f.code[a].instrs[k].op == Alloca(false)
  {
    PromotedCode(f0, t, f2, sigma, fills, a);
    k := RenderFrom(t, sigma, fills, a, InstrsOf(t.f, a), i);
  }

  lemma ScalarSlotGoes(f0: Func, t: Ssa, f2: Func, sigma: map<Name, Operand>, fills: Fills, b: Node, r: nat, v: Name)
    requires Promotes(f0, t, f2, sigma, fills) && b in t.up && ScalarSlot(t.f, v)
    ensures !AllocatedAbove(f2, b, r, v)
  {
    var c: Node, j: nat :| ScalarAt(t.f, c, j, v);
    if AllocatedAbove(f2, b, r, v) {
      var a: Node, i: nat :| AllocAbove(f2, b, r, v, a, i);
      AboveIsInTree(t, b, a);
      var k := AllocaIsPointer(f0, t, f2, sigma, fills, a, i, v);
    }
  }

  /** The slots that are still accessed are still allocated iff every load of a scalar slot
      has a name: an unnamed one stays while the alloca it reads from is removed. */
  lemma SlotsStayIff(f0: Func, t: Ssa, f2: Func, sigma: map<Name, Operand>, fills: Fills)
    requires Promotes(f0, t, f2, sigma, fills) && SlotsAllocated(t.f)
    ensures SlotsAllocated(f2) <==> ScalarLoadsNamed(t)
  {
    if ScalarLoadsNamed(t) {
      forall b: Node, r: nat, v: Name | f2.cfg.IsReachable(b) && AccessAt(f2, b, r, v)
        ensures AllocatedAbove(f2, b, r, v)
      {
        assert t.f.cfg.IsReachable(b);
        var k := AccessIsUnnamed(f0, t, f2, sigma, fills, b, r, v);
        assert AccessAt(t.f, b, k, v);
        var a: Node, i: nat :| AllocAbove(t.f, b, k, v, a, i);
        assert t.f.code[a].instrs[i].op == Alloca(true) ==> ScalarAt(t.f, a, i, v);
        PointerSlotStays(f0, t, f2, sigma, fills, b, k, v, a, i);
      }
    }
    if SlotsAllocated(f2) {
      forall b: Node, k: nat, v: Name | b in t.up && UnnamedLoad(t, b, k, v) ensures !ScalarSlot(t.f, v) {
        UnnamedStays(f0, t, f2, sigma, fills, b, k, v);
        assert f2.cfg.IsReachable(b);
        if ScalarSlot(t.f, v) {
          ScalarSlotGoes(f0, t, f2, sigma, fills, b, PlaceOf(t, sigma, fills, b, k), v);
        }
      }
    }
  }

  /** The promoted function is in SSA form iff every load of a scalar slot has a name. */
  lemma PromotedIsSsa(f0: Func, t: Ssa, f2: Func, sigma: map<Name, Operand>, fills: Fills)
    requires Promotes(f0, t, f2, sigma, fills) && SlotsAllocated(t.f)
    ensures IsSsaForm(f2) <==> ScalarLoadsNamed(t)
  {
    SlotsStayIff(f0, t, f2, sigma, fills);
    PromotedNamedOnce(f0, t, f2, sigma, fills);
    forall b: Node, k: nat, x: Name | f2.cfg.IsReachable(b) && ReadAt(f2, b, k, x) ensures DefinedAbove(f2, b, k, x) {
      ReadIsDefined(f0, t, f2, sigma, fills, b, k, x);
    }
    forall b: Node, x: Name | f2.cfg.IsReachable(b) && ReadAtEnd(f2, b, x)
      ensures DefinedAbove(f2, b, |InstrsOf(f2, b)|, x)
    {
      EndReadIsDefined(f0, t, f2, sigma, fills, b, x);
    }
    forall s: Node, k: nat, x: Name, p: Node | f2.cfg.IsReachable(s) && PairAt(f2, s, k, x, p)
      ensures f2.cfg.IsReachable(p) && DefinedAbove(f2, p, |InstrsOf(f2, p)|, x)
    {
      PairIsDefined(f0, t, f2, sigma, fills, s, k, x, p);
    }
  }
}
