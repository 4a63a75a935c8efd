/** The promoted function as a function of the original one with its phis placed:
    which operands are rewritten, which pairs the phis get, what is deleted. */
module Promotion {
  import opened Wrappers
  import opened Graphs
  import opened ControlFlow
  import opened DomTree
  import opened Ir
  import opened Scopes

  function SubstAll(sub: map<Name, Operand>, os: seq<Operand>): (r: seq<Operand>)
    ensures |r| == |os|
  {
    seq(|os|, i requires 0 <= i < |os| => Resolve(sub, os[i]))
  }

  function SubstAddr(sub: map<Name, Operand>, a: Addr): Addr {
    match a
    case Cell(_) => a
    case Mem(p) => Mem(Resolve(sub, p))
  }

  function SubstPairs(sub: map<Name, Operand>, ps: seq<(Operand, Node)>): (r: seq<(Operand, Node)>)
    ensures |r| == |ps|
  {
    seq(|ps|, i requires 0 <= i < |ps| => (Resolve(sub, ps[i].0), ps[i].1))
  }

  /** What `replace_all_use_with` does to one user. */
  function SubstOp(sub: map<Name, Operand>, op: Op): Op {
    match op
    case Phi(v, pairs) => Phi(v, SubstPairs(sub, pairs))
    case Load(a) => Load(SubstAddr(sub, a))
    case Store(val, a) => Store(Resolve(sub, val), SubstAddr(sub, a))
    case Calc(code, args) => Calc(code, SubstAll(sub, args))
    case Call(fn, args) => Call(fn, SubstAll(sub, args))
    case Alloca(_) => op
  }

  function SubstTerm(sub: map<Name, Operand>, t: Term): Term {
    match t
    case Jump(_) => t
    case Branch(cond, b, c) => Branch(Resolve(sub, cond), b, c)
    case Return(None) => t
    case Return(Some(val)) => Return(Some(Resolve(sub, val)))
  }

  /** The edges (p, s) whose phi operands have been filled in, in that order. */
  type Fills = seq<(Node, Node)>

  /** How often the edge e is listed, if it starts in bs. */
  ghost function Listed(cfg: Cfg, bs: set<Node>, e: (Node, Node)): nat {
    if e.0 in bs && e.0 < |cfg.succs| then multiset(cfg.succs[e.0])[e.1] else 0
  }

  /** From f1 to f2 the edge e was filled once for every time it is listed. */
  ghost predicate FilledOnce(cfg: Cfg, f1: Fills, f2: Fills, bs: set<Node>, e: (Node, Node)) {
    multiset(f2)[e] == multiset(f1)[e] + Listed(cfg, bs, e)
  }

  /** Exactly the edges out of bs were filled, each as often as it is listed. */
  ghost predicate FillsGrow(cfg: Cfg, f1: Fills, f2: Fills, bs: set<Node>) {
    forall e {:trigger FilledOnce(cfg, f1, f2, bs, e)} :: FilledOnce(cfg, f1, f2, bs, e)
  }

  /** The pairs the phi for v in s has after these fills. */
  ghost function PairsFor(t: Ssa, fills: Fills, s: Node, v: Name): seq<(Operand, Node)>
    requires Climbs(t.up, t.id)
  {
    if fills == [] then []
    else
      var e := fills[|fills| - 1];
      PairsFor(t, fills[..|fills| - 1], s, v) +
      (if e.1 == s && e.0 in t.up && v in ScopeOut(t, e.0).cur then [(ScopeOut(t, e.0).cur[v], e.0)] else [])
  }

  /** How far the walk has got with a block: operands rewritten, promoted loads and
      stores deleted, or scalar allocas deleted as well. */
  datatype Stage = Walking | Deleted | Final

  predicate Dropped(stage: Stage, sigma: map<Name, Operand>, ins: Instr) {
    || (stage != Walking && (IsCellStore(ins.op) || (IsCellLoad(ins.op) && ins.id in sigma)))
    || (stage == Final && ins.op == Alloca(true))
  }

  ghost function RenderInstr(t: Ssa, sigma: map<Name, Operand>, fills: Fills, b: Node, ins: Instr): Instr
    requires Climbs(t.up, t.id)
  {
    if ins.op.Phi? then Instr(ins.id, Phi(ins.op.slot, PairsFor(t, fills, b, ins.op.slot)))
    else Instr(ins.id, SubstOp(sigma, ins.op))
  }

  ghost function Render(t: Ssa, stage: Stage, sigma: map<Name, Operand>, fills: Fills, b: Node,
                        instrs: seq<Instr>): seq<Instr>
    requires Climbs(t.up, t.id)
  {
    if instrs == [] then []
    else
      var ins := instrs[|instrs| - 1];
      Render(t, stage, sigma, fills, b, instrs[..|instrs| - 1]) +
      (if Dropped(stage, sigma, ins) then [] else [RenderInstr(t, sigma, fills, b, ins)])
  }

  /** Only replaced loads are rewritten, each to its replacement. */
  ghost predicate OnlyReplacements(t: Ssa, sigma: map<Name, Operand>) {
    forall x :: x in sigma ==> Replaced(t, x, sigma[x])
  }

  /** f2 is f with every promoted slot turned into names: t.f is f with phis placed. */
  ghost predicate IsPromoted(t: Ssa, f2: Func, sigma: map<Name, Operand>, fills: Fills)
    requires Climbs(t.up, t.id)
  {
    && f2.cfg == t.f.cfg && f2.args == t.f.args && |f2.code| == |t.f.code|
    && OnlyReplacements(t, sigma)
    && (forall b :: b in t.up ==> Covers(t, sigma, b))
    && (forall p: Node, s: Node {:trigger (p, s) in fills} :: p in t.up && Edge(t.f.cfg.Edges(), p, s) ==>
      (p, s) in fills)
    && FillsGrow(t.f.cfg, [], fills, t.up.Keys)
    && (forall b {:trigger f2.code[b]} :: b in t.up && b < |t.f.code| ==>
          f2.code[b] == Code(Render(t, Final, sigma, fills, b, t.f.code[b].instrs), SubstTerm(sigma, t.f.code[b].term)))
  }

  ghost predicate Covers(t: Ssa, sigma: map<Name, Operand>, b: Node)
    requires Climbs(t.up, t.id) && b in t.up
  {
    CoversScope(sigma, ScopeOut(t, b))
  }

  /** t.f is f0, which has no phis, with phis in front of its blocks. */
  ghost predicate PhisPlaced(f0: Func, f1: Func) {
    && f1.cfg == f0.cfg && f1.args == f0.args && |f1.code| == |f0.code|
    && forall b {:trigger PhisLeadTo(f1.code[b], f0.code[b])} :: 0 <= b < |f0.code| ==>
         PhisLeadTo(f1.code[b], f0.code[b])
  }

  lemma SameTerm(f0: Func, f1: Func, b: Node)
    requires PhisPlaced(f0, f1) && b < |f0.code|
    ensures f1.code[b].term == f0.code[b].term
  {
    assert PhisLeadTo(f1.code[b], f0.code[b]);
  }

  /** The code of a block splits into its phis and what was there before. */
  lemma PhisSplit(f0: Func, f1: Func, b: Node)
    requires PhisPlaced(f0, f1) && b < |f0.code|
    ensures |f0.code[b].instrs| <= |f1.code[b].instrs|
    ensures var k := |f1.code[b].instrs| - |f0.code[b].instrs|;
      && f1.code[b].instrs == f1.code[b].instrs[..k] + f0.code[b].instrs
      && (forall i :: 0 <= i < k ==> f1.code[b].instrs[i].op.Phi?)
    ensures forall i :: 0 <= i < |f0.code[b].instrs| ==> !f0.code[b].instrs[i].op.Phi?
  {
    assert PhisLeadTo(f1.code[b], f0.code[b]);
  }

  /** c1 is c0, which has no phis, with phis in front. */
  ghost predicate PhisLeadTo(c1: Code, c0: Code) {
    && c1.term == c0.term && |c0.instrs| <= |c1.instrs|
    && var k := |c1.instrs| - |c0.instrs|;
       && c1.instrs[k..] == c0.instrs
       && (forall i :: 0 <= i < k ==> c1.instrs[i].op.Phi?)
       && (forall i :: 0 <= i < |c0.instrs| ==> !c0.instrs[i].op.Phi?)
  }

  // ------------------------------------------------------------- the simulation

  /** The promoted state represents the original one: equal memory and output, every
      cell that is not awaiting a phi equals its current name, every value in scope
      equals what its uses now refer to. */
  ghost predicate Rel(sc: Scope, awaiting: seq<Instr>, o: State, n: State) {
    && o.world == n.world && n.cells == map[]
    && (forall v :: !HasPhi(awaiting, v) ==> CellRel(sc, v, o, n))
    && (forall x {:trigger x in sc.vals} :: x in sc.vals ==> Read(o.env, x) == Value(n.env, Resolve(sc.sub, Ref(x))))
  }

  ghost predicate CellRel(sc: Scope, v: Name, o: State, n: State) {
    Read(o.cells, v) == (if v in sc.cur then Value(n.env, sc.cur[v]) else Undef)
  }

  /** The whole-function rewriting agrees with what is known in this scope. */
  ghost predicate Agrees(sigma: map<Name, Operand>, sc: Scope) {
    forall x {:trigger x in sc.vals} :: x in sc.vals ==> Resolve(sigma, Ref(x)) == Resolve(sc.sub, Ref(x))
  }

  lemma OperandSim(sc: Scope, sigma: map<Name, Operand>, o: State, n: State, x: Operand)
    requires Rel(sc, [], o, n) && Agrees(sigma, sc) && (x.Ref? ==> x.name in sc.vals)
    ensures Value(n.env, Resolve(sigma, x)) == Value(o.env, x)
  {
  }

  lemma OperandsSim(sc: Scope, sigma: map<Name, Operand>, o: State, n: State, xs: seq<Operand>)
    requires Rel(sc, [], o, n) && Agrees(sigma, sc) && (forall x :: Ref(x) in xs ==> x in sc.vals)
    ensures Values(n.env, SubstAll(sigma, xs)) == Values(o.env, xs)
  {
    forall i | 0 <= i < |xs| ensures Value(n.env, Resolve(sigma, xs[i])) == Value(o.env, xs[i]) {
      assert xs[i] in xs;
      OperandSim(sc, sigma, o, n, xs[i]);
    }
  }

  /** Defining a fresh value on both sides. */
  lemma DefineSim(sc: Scope, awaiting: seq<Instr>, o: State, n: State, x: Name, val: Val)
    requires Rel(sc, awaiting, o, n) && Tidy(sc) && x !in sc.avail
    ensures Rel(sc.Define(x), awaiting, o.(env := o.env[x := val]), n.(env := n.env[x := val]))
  {
    var sc2, o2, n2 := sc.Define(x), o.(env := o.env[x := val]), n.(env := n.env[x := val]);
    forall v | !HasPhi(awaiting, v) ensures CellRel(sc2, v, o2, n2) {
      assert CellRel(sc, v, o, n);
    }
  }

  lemma StepSim(m: Machine, ins: Instr, sigma: map<Name, Operand>, sc: Scope, o: State, n: State)
    requires Rel(sc, [], o, n) && Tidy(sc) && Agrees(sigma, sc) && !ins.op.Phi? && ins.id !in sc.avail
    requires forall x :: Ref(x) in Reads(ins.op) ==> x in sc.vals
    requires IsCellLoad(ins.op) ==> (ins.id in sigma <==> ins.op.from.slot in sc.cur)
    ensures Rel(BodyStep(ins, sc), [], Step(m, ins, o),
                if Dropped(Final, sigma, ins) then n else Step(m, Instr(ins.id, SubstOp(sigma, ins.op)), n))
  {
    match ins.op {
      case Load(Cell(v)) =>
        assert CellRel(sc, v, o, n);
        if v in sc.cur {
          LoadSim(ins, v, sc, o, n);
        } else {
          DefineSim(sc, [], o, n, ins.id, Undef);
        }
      case Load(Mem(p)) =>
        assert p in Reads(ins.op);
        OperandSim(sc, sigma, o, n, p);
        DefineSim(sc, [], o, n, ins.id, m.load(Value(o.env, p), o.world));
      case Store(val, Cell(v)) =>
        assert val in Reads(ins.op);
        OperandSim(sc, sigma, o, n, val);
        StoreSim(val, v, sc, o, n);
      case Store(val, Mem(p)) =>
        assert val in Reads(ins.op) && p in Reads(ins.op);
        OperandSim(sc, sigma, o, n, val);
        OperandSim(sc, sigma, o, n, p);
        WorldSim(sc, o, n, m.store(Value(o.env, p), Value(o.env, val), o.world));
      case Calc(code, args) =>
        OperandsSim(sc, sigma, o, n, args);
        DefineSim(sc, [], o, n, ins.id, m.compute(code, Values(o.env, args)));
      case Call(fn, args) =>
        OperandsSim(sc, sigma, o, n, args);
        var r := m.call(fn, Values(o.env, args), o.world);
        DefineSim(sc, [], o, n, ins.id, r.0);
        WorldSim(sc.Define(ins.id), o.(env := o.env[ins.id := r.0]), n.(env := n.env[ins.id := r.0]), r.1);
      case Alloca(scalar) =>
        if scalar {
          DefineOldSim(sc, o, n, ins.id, m.slot(ins.id));
        } else {
          DefineSim(sc, [], o, n, ins.id, m.slot(ins.id));
        }
    }
  }

  lemma WorldSim(sc: Scope, o: State, n: State, w: World)
    requires Rel(sc, [], o, n)
    ensures Rel(sc, [], o.(world := w), n.(world := w))
  {
    var o2, n2 := o.(world := w), n.(world := w);
    forall v ensures CellRel(sc, v, o2, n2) {
      assert CellRel(sc, v, o, n);
    }
  }

  lemma DefineOldSim(sc: Scope, o: State, n: State, x: Name, val: Val)
    requires Rel(sc, [], o, n) && x !in sc.vals
    ensures Rel(sc, [], o.(env := o.env[x := val]), n)
  {
    var o2 := o.(env := o.env[x := val]);
    forall v ensures CellRel(sc, v, o2, n) {
      assert CellRel(sc, v, o, n);
    }
  }

  lemma LoadSim(ins: Instr, v: Name, sc: Scope, o: State, n: State)
    requires Rel(sc, [], o, n) && Tidy(sc) && ins.id !in sc.avail && v in sc.cur && CellRel(sc, v, o, n)
    ensures Rel(sc.(sub := sc.sub[ins.id := sc.cur[v]]).Define(ins.id), [],
                o.(env := o.env[ins.id := Read(o.cells, v)]), n)
  {
    var sc2 := sc.(sub := sc.sub[ins.id := sc.cur[v]]).Define(ins.id);
    var o2 := o.(env := o.env[ins.id := Read(o.cells, v)]);
    forall u ensures CellRel(sc2, u, o2, n) {
      assert CellRel(sc, u, o, n);
    }
  }

  lemma StoreSim(val: Operand, v: Name, sc: Scope, o: State, n: State)
    requires Rel(sc, [], o, n) && Value(n.env, Resolve(sc.sub, val)) == Value(o.env, val)
    ensures Rel(sc.(cur := sc.cur[v := Resolve(sc.sub, val)]), [], o.(cells := o.cells[v := Value(o.env, val)]), n)
  {
    var sc2, o2 := sc.(cur := sc.cur[v := Resolve(sc.sub, val)]), o.(cells := o.cells[v := Value(o.env, val)]);
    forall u ensures CellRel(sc2, u, o2, n) {
      assert CellRel(sc, u, o, n);
    }
  }

  lemma {:induction false} RenderPrefix(t: Ssa, stage: Stage, sigma: map<Name, Operand>, fills: Fills, b: Node,
                                        instrs: seq<Instr>, k: nat)
    requires Climbs(t.up, t.id) && k < |instrs|
    ensures Render(t, stage, sigma, fills, b, instrs[..k + 1]) ==
      Render(t, stage, sigma, fills, b, instrs[..k]) +
      (if Dropped(stage, sigma, instrs[k]) then [] else [RenderInstr(t, sigma, fills, b, instrs[k])])
  {
    assert instrs[..k + 1][..k] == instrs[..k];
  }

  ghost predicate CoversScope(sigma: map<Name, Operand>, sc: Scope) {
    forall x :: x in sc.sub ==> x in sigma && sigma[x] == sc.sub[x]
  }

  /** Rewriting the whole function at once agrees with the scope of every point. */
  lemma AgreesHere(t: Ssa, sigma: map<Name, Operand>, b: Node, k: nat)
    requires ValidSsa(t) && OperandsAvailable(t) && OnlyReplacements(t, sigma) && b in t.up && k <= |InstrsOf(t.f, b)|
    requires CoversScope(sigma, ScopeAt(t, b, k))
    ensures Agrees(sigma, ScopeAt(t, b, k))
  {
    var sc := ScopeAt(t, b, k);
    ScopeTidy(t, b, |InstrsOf(t.f, b)|, k);
    forall x | x in sc.vals ensures Resolve(sigma, Ref(x)) == Resolve(sc.sub, Ref(x)) {
      if x in sigma {
        var c, i :| ReplacedAt(t, c, i, x, sigma[x]);
        ReplacedKnown(t, b, k, c, i, x, sigma[x]);
      }
    }
  }

  lemma SigmaAgrees(t: Ssa, sigma: map<Name, Operand>, b: Node, k: nat)
    requires ValidSsa(t) && OperandsAvailable(t) && OnlyReplacements(t, sigma) && b in t.up && Covers(t, sigma, b)
    requires k <= |InstrsOf(t.f, b)|
    ensures Agrees(sigma, ScopeAt(t, b, k))
  {
    GrowsInBlock(t, b, k, |InstrsOf(t.f, b)|);
    AgreesHere(t, sigma, b, k);
  }

  /** A promoted load is rewritten iff its variable has a name there. */
  lemma LoadReplacedIff(t: Ssa, sigma: map<Name, Operand>, b: Node, k: nat)
    requires ValidSsa(t) && OperandsAvailable(t) && OnlyReplacements(t, sigma) && b in t.up && Covers(t, sigma, b)
    requires k < |InstrsOf(t.f, b)| && IsCellLoad(InstrsOf(t.f, b)[k].op)
    ensures InstrsOf(t.f, b)[k].id in sigma <==> InstrsOf(t.f, b)[k].op.from.slot in ScopeAt(t, b, k).cur
  {
    var ins := InstrsOf(t.f, b)[k];
    if ins.op.from.slot in ScopeAt(t, b, k).cur {
      assert ins.id in ScopeAt(t, b, k + 1).sub;
      GrowsInBlock(t, b, k + 1, |InstrsOf(t.f, b)|);
    }
    if ins.id in sigma {
      var c, i :| ReplacedAt(t, c, i, ins.id, sigma[ins.id]);
      assert IdAt(t.f, c, i, ins.id) && IdAt(t.f, b, k, ins.id);
    }
  }

  lemma InstrSim(t: Ssa, m: Machine, sigma: map<Name, Operand>, b: Node, k: nat, o: State, n: State)
    requires ValidSsa(t) && OperandsAvailable(t) && OnlyReplacements(t, sigma) && b in t.up && Covers(t, sigma, b)
    requires k < |InstrsOf(t.f, b)| && !InstrsOf(t.f, b)[k].op.Phi? && Rel(ScopeAt(t, b, k), [], o, n)
    ensures var ins := InstrsOf(t.f, b)[k];
      Rel(ScopeAt(t, b, k + 1), [], Step(m, ins, o),
          if Dropped(Final, sigma, ins) then n else Step(m, Instr(ins.id, SubstOp(sigma, ins.op)), n))
  {
    var ins, len := InstrsOf(t.f, b)[k], |InstrsOf(t.f, b)|;
    ScopeTidy(t, b, len, k);
    FreshAt(t, b, len, k, k);
    SigmaAgrees(t, sigma, b, k);
    if IsCellLoad(ins.op) {
      LoadReplacedIff(t, sigma, b, k);
    }
    forall x | Ref(x) in Reads(ins.op) ensures x in ScopeAt(t, b, k).vals {
      assert ReadAt(t.f, b, k, x);
    }
    StepSim(m, ins, sigma, ScopeAt(t, b, k), o, n);
  }

  /** What running the rendering of one instruction does. */
  ghost function StepRendered(t: Ssa, m: Machine, sigma: map<Name, Operand>, fills: Fills, b: Node, ins: Instr,
                              n: State): State
    requires Climbs(t.up, t.id)
  {
    if Dropped(Final, sigma, ins) then n else Step(m, RenderInstr(t, sigma, fills, b, ins), n)
  }

  lemma ExecRendered(t: Ssa, m: Machine, sigma: map<Name, Operand>, fills: Fills, b: Node, instrs: seq<Instr>, k: nat,
                     n: State)
    requires Climbs(t.up, t.id) && k < |instrs|
    ensures Exec(m, Render(t, Final, sigma, fills, b, instrs[..k + 1]), n) ==
      StepRendered(t, m, sigma, fills, b, instrs[k], Exec(m, Render(t, Final, sigma, fills, b, instrs[..k]), n))
  {
    var rest := Render(t, Final, sigma, fills, b, instrs[..k]);
    RenderPrefix(t, Final, sigma, fills, b, instrs, k);
    ExecSnoc(m, rest, RenderInstr(t, sigma, fills, b, instrs[k]), n);
    assert rest + [] == rest;
  }

  /** One instruction, dropped or rewritten; phis have run on the edge. */
  lemma RenderedSim(t: Ssa, m: Machine, sigma: map<Name, Operand>, fills: Fills, b: Node, k: nat,
                    o: State, n: State, o2: State, n2: State)
    requires ValidSsa(t) && OperandsAvailable(t) && OnlyReplacements(t, sigma) && b in t.up && Covers(t, sigma, b)
    requires k < |InstrsOf(t.f, b)| && Rel(ScopeAt(t, b, k), [], o, n)
    requires o2 == Step(m, InstrsOf(t.f, b)[k], o) && n2 == StepRendered(t, m, sigma, fills, b, InstrsOf(t.f, b)[k], n)
    ensures Rel(ScopeAt(t, b, k + 1), [], o2, n2)
  {
    if !InstrsOf(t.f, b)[k].op.Phi? {
      InstrSim(t, m, sigma, b, k, o, n);
    }
  }

  ghost predicate BodyRel(t: Ssa, m: Machine, sigma: map<Name, Operand>, fills: Fills, b: Node, k: nat, o: State,
                          n: State)
    requires Climbs(t.up, t.id) && b in t.up && k <= |InstrsOf(t.f, b)|
  {
    Rel(ScopeAt(t, b, k), [], Exec(m, InstrsOf(t.f, b)[..k], o),
        Exec(m, Render(t, Final, sigma, fills, b, InstrsOf(t.f, b)[..k]), n))
  }

  lemma ExecBodies(t: Ssa, m: Machine, sigma: map<Name, Operand>, fills: Fills, b: Node, k: nat, o: State, n: State)
    returns (ok: State, nk: State, o2: State, n2: State)
    requires Climbs(t.up, t.id) && b in t.up && k < |InstrsOf(t.f, b)|
    ensures BodyRel(t, m, sigma, fills, b, k, o, n) <==> Rel(ScopeAt(t, b, k), [], ok, nk)
    ensures BodyRel(t, m, sigma, fills, b, k + 1, o, n) <==> Rel(ScopeAt(t, b, k + 1), [], o2, n2)
    ensures o2 == Step(m, InstrsOf(t.f, b)[k], ok) && n2 == StepRendered(t, m, sigma, fills, b, InstrsOf(t.f, b)[k], nk)
  {
    var instrs := InstrsOf(t.f, b);
    ok, nk := Exec(m, instrs[..k], o), Exec(m, Render(t, Final, sigma, fills, b, instrs[..k]), n);
    o2, n2 := Exec(m, instrs[..k + 1], o), Exec(m, Render(t, Final, sigma, fills, b, instrs[..k + 1]), n);
    ExecRendered(t, m, sigma, fills, b, instrs, k, n);
    ExecSnoc(m, instrs[..k], instrs[k], o);
    assert instrs[..k + 1] == instrs[..k] + [instrs[k]];
  }

  /** The bodies of a block run in step. */
  lemma {:induction false} BodySim(t: Ssa, m: Machine, sigma: map<Name, Operand>, fills: Fills, b: Node, k: nat,
                                   o: State, n: State)
    requires ValidSsa(t) && OperandsAvailable(t) && OnlyReplacements(t, sigma) && b in t.up && Covers(t, sigma, b)
    requires k <= |InstrsOf(t.f, b)| && Rel(ScopeAt(t, b, 0), [], o, n)
    ensures BodyRel(t, m, sigma, fills, b, k, o, n)
  {
    if k > 0 {
      BodySim(t, m, sigma, fills, b, k - 1, o, n);
      var ok, nk, o2, n2 := ExecBodies(t, m, sigma, fills, b, k - 1, o, n);
      RenderedSim(t, m, sigma, fills, b, k - 1, ok, nk, o2, n2);
    }
  }

  /** The pair the promoted phi takes on an edge is the name reaching the end of the
      predecessor, or undef when there is none. */
  lemma {:induction false} PhiTakesName(t: Ssa, fills: Fills, p: Node, s: Node, v: Name, env: map<Name, Val>)
    requires Climbs(t.up, t.id) && p in t.up
    ensures var val := PhiValue(PairsFor(t, fills, s, v), p, env);
      if v in ScopeOut(t, p).cur && (p, s) in fills then val == Value(env, ScopeOut(t, p).cur[v]) else val == Undef
  {
    if fills != [] {
      var init, e := fills[..|fills| - 1], fills[|fills| - 1];
      PhiTakesName(t, init, p, s, v, env);
      PhiValueAppend(PairsFor(t, init, s, v), if e.1 == s && e.0 in t.up && v in ScopeOut(t, e.0).cur
        then [(ScopeOut(t, e.0).cur[v], e.0)] else [], p, env);
      PairsNamePreds(t, init, p, s, v);
      assert fills == init + [e];
    }
  }

  lemma {:induction false} PhiValueAppend(ps: seq<(Operand, Node)>, qs: seq<(Operand, Node)>, p: Node,
                                          env: map<Name, Val>)
    ensures PhiValue(ps + qs, p, env) == if Mentions(ps, p) then PhiValue(ps, p, env) else PhiValue(qs, p, env)
  {
    if ps == [] {
      assert ps + qs == qs;
    } else {
      assert (ps + qs)[1..] == ps[1..] + qs;
      PhiValueAppend(ps[1..], qs, p, env);
      if ps[0].1 != p && Mentions(ps, p) {
        var i :| 0 <= i < |ps| && ps[i].1 == p;
        assert ps[1..][i - 1].1 == p;
      }
      if Mentions(ps[1..], p) {
        var i :| 0 <= i < |ps[1..]| && ps[1..][i].1 == p;
        assert ps[i + 1].1 == p;
      }
    }
  }

  lemma {:induction false} PairsNamePreds(t: Ssa, fills: Fills, p: Node, s: Node, v: Name)
    requires Climbs(t.up, t.id)
    ensures Mentions(PairsFor(t, fills, s, v), p) <==> (p, s) in fills && p in t.up && v in ScopeOut(t, p).cur
  {
    if fills != [] {
      var init, e := fills[..|fills| - 1], fills[|fills| - 1];
      PairsNamePreds(t, init, p, s, v);
      assert fills == init + [e];
      var ps := PairsFor(t, init, s, v);
      if Mentions(ps, p) {
        var i :| 0 <= i < |ps| && ps[i].1 == p;
        assert PairsFor(t, fills, s, v)[i].1 == p;
      }
      if e == (p, s) && p in t.up && v in ScopeOut(t, p).cur {
        assert PairsFor(t, fills, s, v)[|ps|].1 == p;
      }
    }
  }
}
