/** Removing unmarked instructions changes nothing a run can observe. */
module DeadCode {
  import opened Wrappers
  import opened Graphs
  import opened Ir
  import opened Scopes

  type Module = seq<Func>

  // ------------------------------------------------------------ what is marked

  /** `is_effect` on instructions other than terminators. */
  ghost predicate IsEffect(op: Op, nonEffect: set<nat>) {
    match op
    case Store(_, _) => true
    case Call(callee, _) => callee !in nonEffect
    case _ => false
  }

  /** Which instruction an identity stands for. */
  type Defs = map<Name, Op>

  ghost predicate DefsAre(f: Func, defs: Defs) {
    && (forall b: Node, i: nat, x: Name {:trigger IdAt(f, b, i, x)} :: IdAt(f, b, i, x) ==>
      x in defs && defs[x] == f.code[b].instrs[i].op)
    && (forall x {:trigger x in defs} :: x in defs ==> exists b: Node, i: nat :: IdAt(f, b, i, x))
  }

  ghost predicate IsInstr(f: Func, x: Name) {
    exists b: Node, i: nat :: IdAt(f, b, i, x)
  }

  /** Every instruction that the instruction x refers to is in w. */
  ghost predicate ClosedAt(defs: Defs, w: set<Name>, x: Name) {
    x in defs ==> forall y :: Ref(y) in Operands(defs[x]) && y in defs ==> y in w
  }

  ghost predicate IsClosed(defs: Defs, w: set<Name>) {
    forall x {:trigger ClosedAt(defs, w, x)} :: x in w ==> ClosedAt(defs, w, x)
  }

  /** The instructions marking starts from: the effects, and what terminators read. */
  ghost predicate IsRoot(f: Func, defs: Defs, nonEffect: set<nat>, x: Name) {
    x in defs && (IsEffect(defs[x], nonEffect) || exists b: Node :: ReadAtEnd(f, b, x))
  }

  ghost predicate HoldsRoots(f: Func, defs: Defs, nonEffect: set<nat>, w: set<Name>) {
    forall x {:trigger IsRoot(f, defs, nonEffect, x)} :: IsRoot(f, defs, nonEffect, x) ==> x in w
  }

  /** The least set of instructions that holds the roots and all they refer to. */
  ghost predicate IsMarked(f: Func, defs: Defs, nonEffect: set<nat>, w: set<Name>) {
    && w <= defs.Keys && IsClosed(defs, w) && HoldsRoots(f, defs, nonEffect, w)
    && forall s {:trigger IsClosed(defs, s)} :: IsClosed(defs, s) && HoldsRoots(f, defs, nonEffect, s) ==> w <= s
  }

  /** f2 is f without the instructions outside w. */
  ghost predicate IsSwept(f: Func, f2: Func, w: set<Name>) {
    && f2.cfg == f.cfg && f2.args == f.args && |f2.code| == |f.code|
    && forall b {:trigger f2.code[b]} :: 0 <= b < |f.code| ==>
         f2.code[b] == Code(Without(f.code[b].instrs, Ids(f.code[b].instrs) - w), f.code[b].term)
  }

  // ------------------------------------------------------- functions without effect

  /** `get_non_effect_func`: a defined function that holds no store and no call. */
  ghost predicate IsNonEffect(f: Func) {
    f.code != [] && forall b, i {:trigger f.code[b].instrs[i]} :: 0 <= b < |f.code| && 0 <= i < |f.code[b].instrs| ==>
      !f.code[b].instrs[i].op.Store? && !f.code[b].instrs[i].op.Call?
  }

  ghost predicate AreNonEffect(mod: Module, s: set<nat>) {
    forall c: nat {:trigger c in s} :: c in s <==> c < |mod| && IsNonEffect(mod[c])
  }

  ghost function WorldOf(c: Config): World {
    match c
    case At(_, st) => st.world
    case Done(_, w) => w
  }

  lemma {:induction false} ExecKeepsWorld(m: Machine, instrs: seq<Instr>, st: State)
    requires forall i :: 0 <= i < |instrs| ==> !instrs[i].op.Store? && !instrs[i].op.Call?
    ensures Exec(m, instrs, st).world == st.world
  {
    if instrs != [] {
      ExecKeepsWorld(m, instrs[..|instrs| - 1], st);
    }
  }

  /** Running such a function never changes memory or output. */
  lemma {:induction false} NonEffectKeepsWorld(f: Func, m: Machine, c: Config, n: nat)
    requires IsNonEffect(f)
    ensures WorldOf(Run(f, m, c, n)) == WorldOf(c)
  {
    if n > 0 {
      NonEffectKeepsWorld(f, m, c, n - 1);
      var d := Run(f, m, c, n - 1);
      if d.At? && d.block < |f.code| {
        ExecKeepsWorld(m, f.code[d.block].instrs, d.st);
      }
    }
  }

  /** The world a call leaves behind is the one the callee returns with. */
  ghost predicate Returns(f: Func, m: Machine, w: World, after: World) {
    exists actuals, n: nat, r :: Run(f, m, Start(actuals, w), n) == Done(r, after)
  }

  /** If c is a function without effect, this call of it returns. */
  ghost predicate CallReturns(mod: Module, m: Machine, c: nat, vs: seq<Val>, w: World) {
    c < |mod| && IsNonEffect(mod[c]) ==> Returns(mod[c], m, w, m.call(c, vs, w).1)
  }

  /** If instruction i is a call, it returns in the state the body has reached. */
  ghost predicate ReturnsAt(mod: Module, m: Machine, instrs: seq<Instr>, i: nat, st: State) {
    i < |instrs| && instrs[i].op.Call? ==>
      var s := Exec(m, instrs[..i], st);
      CallReturns(mod, m, instrs[i].op.callee, Values(s.env, instrs[i].op.actuals), s.world)
  }

  ghost predicate BodyReturns(mod: Module, m: Machine, instrs: seq<Instr>, st: State) {
    forall i: nat {:trigger ReturnsAt(mod, m, instrs, i, st)} :: ReturnsAt(mod, m, instrs, i, st)
  }

  ghost predicate BlockReturns(mod: Module, f: Func, m: Machine, c: Config) {
    c.At? && c.block < |f.code| ==> BodyReturns(mod, m, f.code[c.block].instrs, c.st)
  }

  /** Every call of a function without effect in the first n blocks of this run returns. */
  ghost predicate CallsReturn(mod: Module, f: Func, m: Machine, c: Config, n: nat) {
    forall k: nat {:trigger Run(f, m, c, k)} :: k < n ==> BlockReturns(mod, f, m, Run(f, m, c, k))
  }

  lemma CallKeepsWorld(mod: Module, m: Machine, c: nat, vs: seq<Val>, w: World)
    requires CallReturns(mod, m, c, vs, w) && c < |mod| && IsNonEffect(mod[c])
    ensures m.call(c, vs, w).1 == w
  {
    var after := m.call(c, vs, w).1;
    assert Returns(mod[c], m, w, after);
    var actuals, n: nat, r :| Run(mod[c], m, Start(actuals, w), n) == Done(r, after);
    NonEffectKeepsWorld(mod[c], m, Start(actuals, w), n);
  }

  // ------------------------------------------------------------------ simulation

  ghost predicate SameEnv(gone: set<Name>, o: map<Name, Val>, n: map<Name, Val>) {
    forall x :: x !in gone ==> Read(o, x) == Read(n, x)
  }

  /** The states differ at most in the values of removed instructions. */
  ghost predicate SameBut(gone: set<Name>, o: State, n: State) {
    o.cells == n.cells && o.world == n.world && SameEnv(gone, o.env, n.env)
  }

  ghost predicate NoneGone(gone: set<Name>, os: seq<Operand>) {
    forall x :: Ref(x) in os ==> x !in gone
  }

  lemma OperandsSame(gone: set<Name>, o: State, n: State, os: seq<Operand>)
    requires SameBut(gone, o, n) && NoneGone(gone, os)
    ensures forall a :: a in os ==> Value(o.env, a) == Value(n.env, a)
    ensures Values(o.env, os) == Values(n.env, os)
  {
    forall a | a in os ensures Value(o.env, a) == Value(n.env, a) {}
  }

  lemma KeptStep(m: Machine, gone: set<Name>, ins: Instr, o: State, n: State)
    requires SameBut(gone, o, n) && NoneGone(gone, Operands(ins.op))
    ensures SameBut(gone, Step(m, ins, o), Step(m, ins, n))
  {
    OperandsSame(gone, o, n, Operands(ins.op));
    match ins.op {
      case Load(Mem(p)) => assert p in Operands(ins.op);
      case Store(val, Mem(p)) => assert val in Operands(ins.op) && p in Operands(ins.op);
      case Store(val, Cell(v)) => assert val in Operands(ins.op);
      case _ =>
    }
  }

  lemma GoneStep(mod: Module, m: Machine, gone: set<Name>, nonEffect: set<nat>, ins: Instr, o: State, n: State)
    requires SameBut(gone, o, n) && ins.id in gone && !IsEffect(ins.op, nonEffect)
    requires ins.op.Call? ==> CallReturns(mod, m, ins.op.callee, Values(o.env, ins.op.actuals), o.world)
    requires forall c :: c in nonEffect ==> c < |mod| && IsNonEffect(mod[c])
    ensures SameBut(gone, Step(m, ins, o), n)
  {
    if ins.op.Call? {
      CallKeepsWorld(mod, m, ins.op.callee, Values(o.env, ins.op.actuals), o.world);
    }
  }

  /** What the sweep relies on, for one list of instructions. */
  ghost predicate Sweepable(gone: set<Name>, nonEffect: set<nat>, instrs: seq<Instr>) {
    forall i {:trigger instrs[i]} :: 0 <= i < |instrs| ==>
      if instrs[i].id in gone then !IsEffect(instrs[i].op, nonEffect) else NoneGone(gone, Operands(instrs[i].op))
  }

  lemma PrefixReturns(mod: Module, m: Machine, instrs: seq<Instr>, k: nat, st: State)
    requires BodyReturns(mod, m, instrs, st) && k <= |instrs|
    ensures BodyReturns(mod, m, instrs[..k], st)
  {
    forall i: nat ensures ReturnsAt(mod, m, instrs[..k], i, st) {
      assert ReturnsAt(mod, m, instrs, i, st);
      assert i < k ==> instrs[..k][..i] == instrs[..i];
    }
  }

  lemma {:induction false} BodySame(mod: Module, m: Machine, gone: set<Name>, nonEffect: set<nat>, instrs: seq<Instr>,
                                    o: State, n: State)
    requires SameBut(gone, o, n) && Sweepable(gone, nonEffect, instrs) && BodyReturns(mod, m, instrs, o)
    requires forall c :: c in nonEffect ==> c < |mod| && IsNonEffect(mod[c])
    ensures SameBut(gone, Exec(m, instrs, o), Exec(m, Without(instrs, gone), n))
  {
    if instrs != [] {
      var k := |instrs| - 1;
      var init, ins := instrs[..k], instrs[k];
      PrefixReturns(mod, m, instrs, k, o);
      BodySame(mod, m, gone, nonEffect, init, o, n);
      if ins.id in gone {
        assert ReturnsAt(mod, m, instrs, k, o);
        assert Without(instrs, gone) == Without(init, gone);
        GoneStep(mod, m, gone, nonEffect, ins, Exec(m, init, o), Exec(m, Without(init, gone), n));
      } else {
        ExecSnoc(m, Without(init, gone), ins, n);
        KeptStep(m, gone, ins, Exec(m, init, o), Exec(m, Without(init, gone), n));
      }
    }
  }

  lemma {:induction false} PhiValueSame(gone: set<Name>, pairs: seq<(Operand, Node)>, p: Node, o: map<Name, Val>,
                                        n: map<Name, Val>)
    requires SameEnv(gone, o, n) && forall i :: 0 <= i < |pairs| && pairs[i].0.Ref? ==> pairs[i].0.name !in gone
    ensures PhiValue(pairs, p, o) == PhiValue(pairs, p, n)
  {
    if pairs != [] {
      PhiValueSame(gone, pairs[1..], p, o, n);
    }
  }

  lemma KeptPhi(gone: set<Name>, ins: Instr, p: Node, o: map<Name, Val>, n: map<Name, Val>)
    requires SameEnv(gone, o, n) && ins.op.Phi? && NoneGone(gone, Operands(ins.op))
    ensures PhiValue(ins.op.pairs, p, o) == PhiValue(ins.op.pairs, p, n)
  {
    forall i | 0 <= i < |ins.op.pairs| && ins.op.pairs[i].0.Ref? ensures ins.op.pairs[i].0.name !in gone {
      assert Operands(ins.op)[i] == ins.op.pairs[i].0;
    }
    PhiValueSame(gone, ins.op.pairs, p, o, n);
  }

  lemma SetSame(gone: set<Name>, x: Name, val: Val, o: map<Name, Val>, n: map<Name, Val>)
    requires SameEnv(gone, o, n)
    ensures SameEnv(gone, o[x := val], n[x := val])
    ensures x in gone ==> SameEnv(gone, o[x := val], n)
  {
  }

  lemma {:induction false} PhisSame(gone: set<Name>, nonEffect: set<nat>, instrs: seq<Instr>, p: Node,
                                    o: map<Name, Val>, n: map<Name, Val>)
    requires SameEnv(gone, o, n) && Sweepable(gone, nonEffect, instrs)
    ensures SameEnv(gone, PhiEnv(instrs, p, o), PhiEnv(Without(instrs, gone), p, n))
  {
    if instrs != [] {
      var k := |instrs| - 1;
      var init, ins := instrs[..k], instrs[k];
      var kept := Without(init, gone);
      PhisSame(gone, nonEffect, init, p, o, n);
      PhiEnvSnoc(kept, ins, p, n);
      if ins.op.Phi? {
        SetSame(gone, ins.id, PhiValue(ins.op.pairs, p, o), PhiEnv(init, p, o), PhiEnv(kept, p, n));
      }
      if ins.id in gone {
        assert Without(instrs, gone) == kept;
      } else if ins.op.Phi? {
        KeptPhi(gone, ins, p, o, n);
      }
    }
  }

  /** f2 is f without `gone`, and nothing that stays needs what goes. */
  ghost predicate Swept(f: Func, f2: Func, gone: set<Name>, nonEffect: set<nat>) {
    && |f2.code| == |f.code|
    && (forall b {:trigger f2.code[b]} :: 0 <= b < |f.code| ==>
      f2.code[b] == Code(Without(f.code[b].instrs, gone), f.code[b].term))
    && (forall b {:trigger f.code[b]} :: 0 <= b < |f.code| ==>
          Sweepable(gone, nonEffect, f.code[b].instrs) && NoneGone(gone, TermReads(f.code[b].term)))
  }

  ghost predicate SameAt(gone: set<Name>, c: Config, c2: Config) {
    match c
    case Done(_, _) => c2 == c
    case At(b, o) => c2.At? && c2.block == b && SameBut(gone, o, c2.st)
  }

  lemma EnterSame(f: Func, f2: Func, gone: set<Name>, nonEffect: set<nat>, p: Node, s: Node, o: State, n: State)
    requires Swept(f, f2, gone, nonEffect) && SameBut(gone, o, n)
    ensures SameAt(gone, Enter(f, p, s, o), Enter(f2, p, s, n))
  {
    if s < |f.code| {
      assert f2.code[s] == Code(Without(f.code[s].instrs, gone), f.code[s].term);
      PhisSame(gone, nonEffect, f.code[s].instrs, p, o.env, n.env);
    }
  }

  lemma LeaveSame(f: Func, f2: Func, gone: set<Name>, nonEffect: set<nat>, b: Node, o: State, n: State)
    requires Swept(f, f2, gone, nonEffect) && b < |f.code| && SameBut(gone, o, n)
    ensures SameAt(gone, Leave(f, b, f.code[b].term, o), Leave(f2, b, f2.code[b].term, n))
  {
    var term := f.code[b].term;
    assert f2.code[b].term == term;
    OperandsSame(gone, o, n, TermReads(term));
    match term {
      case Jump(s) => EnterSame(f, f2, gone, nonEffect, b, s, o, n);
      case Branch(cond, x, y) =>
        assert cond in TermReads(term);
        EnterSame(f, f2, gone, nonEffect, b, if Truthy(Value(o.env, cond)) then x else y, o, n);
      case Return(None) =>
      case Return(Some(val)) => assert val in TermReads(term);
    }
  }

  lemma {:induction false} SweptRuns(mod: Module, f: Func, f2: Func, gone: set<Name>, nonEffect: set<nat>, m: Machine,
                                     c: Config, n: nat)
    requires Swept(f, f2, gone, nonEffect) && CallsReturn(mod, f, m, c, n)
    requires forall g :: g in nonEffect ==> g < |mod| && IsNonEffect(mod[g])
    ensures SameAt(gone, Run(f, m, c, n), Run(f2, m, c, n))
  {
    if n > 0 {
      SweptRuns(mod, f, f2, gone, nonEffect, m, c, n - 1);
      var o, c2 := Run(f, m, c, n - 1), Run(f2, m, c, n - 1);
      if o.At? && o.block < |f.code| {
        var b := o.block;
        assert f2.code[b] == Code(Without(f.code[b].instrs, gone), f.code[b].term);
        assert BlockReturns(mod, f, m, o);
        BodySame(mod, m, gone, nonEffect, f.code[b].instrs, o.st, c2.st);
        LeaveSame(f, f2, gone, nonEffect, b, Exec(m, f.code[b].instrs, o.st), Exec(m, f2.code[b].instrs, c2.st));
      }
    }
  }
}
