/** What running means, on the examples the documentation gives: calls and memory in order,
    and phis that take their operands by the edge, all at once. */
module IrCases {
  import opened Wrappers
  import opened Graphs
  import opened ControlFlow
  import opened Ir

  /** The promoted `main` of the documentation: two inputs are read, and where the first is
      less than the second they are passed on in the other order. */
  function InOrder(): Func {
    Func({}, Cfg([[1, 2], [2], []], [[], [0], [0, 1]]),
         [Code([Instr(3, Call(0, [])), Instr(4, Call(0, [])), Instr(7, Calc(Compare(0), [Ref(3), Ref(4)]))],
               Branch(Ref(7), 1, 2)),
          Code([], Jump(2)),
          Code([Instr(20, Phi(0, [(Ref(4), 0), (Ref(3), 1)])), Instr(21, Phi(1, [(Ref(3), 0), (Ref(4), 1)])),
                Instr(17, Call(1, [Ref(21), Ref(20)]))],
               Return(Some(Ref(17))))])
  }

  lemma ExecThree(m: Machine, a: Instr, b: Instr, c: Instr, st: State)
    ensures Exec(m, [a, b, c], st) == Step(m, c, Step(m, b, Step(m, a, st)))
  {
    assert [a, b, c] == [] + [a] + [b] + [c];
    ExecSnoc(m, [], a, st);
    ExecSnoc(m, [] + [a], b, st);
    ExecSnoc(m, [] + [a] + [b], c, st);
  }

  lemma PhiEnvThree(a: Instr, b: Instr, c: Instr, p: Node, env: map<Name, Val>)
    requires a.op.Phi? && b.op.Phi? && !c.op.Phi?
    ensures PhiEnv([a, b, c], p, env) ==
      env[a.id := PhiValue(a.op.pairs, p, env)][b.id := PhiValue(b.op.pairs, p, env)]
  {
    assert [a, b, c] == [] + [a] + [b] + [c];
    PhiEnvSnoc([], a, p, env);
    PhiEnvSnoc([] + [a], b, p, env);
    PhiEnvSnoc([] + [a] + [b], c, p, env);
  }

  lemma PhiOfTwo(x: Operand, y: Operand, p: Node, q: Node, env: map<Name, Val>)
    requires p != q
    ensures PhiValue([(x, p), (y, q)], p, env) == Value(env, x) && PhiValue([(x, p), (y, q)], q, env) == Value(env, y)
  {
    assert [(x, p), (y, q)][1..] == [(y, q)];
  }

  /** Entering the last block from p, with the inputs read. */
  lemma LastBlock(m: Machine, p: Node, st: State)
    requires p == 0 || p == 1
    ensures var x, y := Read(st.env, 3), Read(st.env, 4);
      var r := m.call(1, if p == 0 then [x, y] else [y, x], st.world);
      Advance(InOrder(), m, Enter(InOrder(), p, 2, st)) == Done(Some(r.0), r.1)
  {
    var instrs := InOrder().code[2].instrs;
    PhiEnvThree(instrs[0], instrs[1], instrs[2], p, st.env);
    PhiOfTwo(Ref(4), Ref(3), 0, 1, st.env);
    PhiOfTwo(Ref(3), Ref(4), 0, 1, st.env);
    var s := Enter(InOrder(), p, 2, st).st;
    ExecThree(m, instrs[0], instrs[1], instrs[2], s);
    var x, y := Read(st.env, 3), Read(st.env, 4);
    assert Values(s.env, [Ref(21), Ref(20)]) == if p == 0 then [x, y] else [y, x];
  }

  lemma FirstBlock(m: Machine, actuals: map<Name, Val>, w: World)
    ensures var r1 := m.call(0, [], w); var r2 := m.call(0, [], r1.1);
      var c := m.compute(Compare(0), [r1.0, r2.0]);
      var st := State(actuals[3 := r1.0][4 := r2.0][7 := c], map[], r2.1);
      Advance(InOrder(), m, Start(actuals, w)) == Enter(InOrder(), 0, if Truthy(c) then 1 else 2, st)
  {
    var instrs := InOrder().code[0].instrs;
    var s0 := State(actuals, map[], w);
    ExecThree(m, instrs[0], instrs[1], instrs[2], s0);
    var r1 := m.call(0, [], w);
    var s1 := Step(m, instrs[0], s0);
    assert Values(s0.env, []) == [];
    var s2 := Step(m, instrs[1], s1);
    assert Values(s1.env, []) == [];
    assert Values(s2.env, [Ref(3), Ref(4)]) == [Read(s2.env, 3), Read(s2.env, 4)];
  }

  /** On every machine the two inputs are read one after the other and passed on, the second
      in front iff the comparison holds. */
  lemma InOrderRuns(m: Machine, actuals: map<Name, Val>, w: World)
    ensures var r1 := m.call(0, [], w); var r2 := m.call(0, [], r1.1);
      var less := Truthy(m.compute(Compare(0), [r1.0, r2.0]));
      var r := m.call(1, if less then [r2.0, r1.0] else [r1.0, r2.0], r2.1);
      Run(InOrder(), m, Start(actuals, w), if less then 3 else 2) == Done(Some(r.0), r.1)
  {
    var f, c0 := InOrder(), Start(actuals, w);
    var r1 := m.call(0, [], w);
    var r2 := m.call(0, [], r1.1);
    var c := m.compute(Compare(0), [r1.0, r2.0]);
    var st := State(actuals[3 := r1.0][4 := r2.0][7 := c], map[], r2.1);
    FirstBlock(m, actuals, w);
    assert Run(f, m, c0, 1) == Advance(f, m, Run(f, m, c0, 0));
    if Truthy(c) {
      PhiEnvNone(st.env);
      assert Advance(f, m, Enter(f, 0, 1, st)) == Enter(f, 1, 2, st);
      LastBlock(m, 1, st);
      assert Run(f, m, c0, 2) == Enter(f, 1, 2, st);
    } else {
      LastBlock(m, 0, st);
    }
  }

  lemma PhiEnvNone(env: map<Name, Val>)
    ensures PhiEnv([], 0, env) == env
  {
  }

  /** Two phis that take each other's value swap them. */
  lemma PhisSwap(x: Name, y: Name, p: Node, env: map<Name, Val>)
    requires x != y
    ensures PhiEnv([Instr(x, Phi(0, [(Ref(y), p)])), Instr(y, Phi(1, [(Ref(x), p)]))], p, env) ==
      env[x := Read(env, y)][y := Read(env, x)]
  {
    var a, b := Instr(x, Phi(0, [(Ref(y), p)])), Instr(y, Phi(1, [(Ref(x), p)]));
    assert [a, b] == [] + [a] + [b];
    PhiEnvSnoc([], a, p, env);
    PhiEnvSnoc([] + [a], b, p, env);
  }

  /** Stores its argument in an array of its own and returns what it loads from there. */
  function StoreThenLoad(): Func {
    Func({0}, Cfg([[]], [[]]),
         [Code([Instr(1, Alloca(false)), Instr(2, Store(Ref(0), Mem(Ref(1)))), Instr(3, Load(Mem(Ref(1))))],
               Return(Some(Ref(3))))])
  }

  /** An alloca yields an address, a store writes memory and a load reads it. */
  lemma StoredIsLoaded(m: Machine, actuals: map<Name, Val>, w: World)
    ensures var val, ptr := Read(actuals, 0), m.slot(1); var w2 := m.store(ptr, val, w);
      Run(StoreThenLoad(), m, Start(actuals, w), 1) == Done(Some(m.load(ptr, w2)), w2)
  {
    var f, c := StoreThenLoad(), Start(actuals, w);
    var instrs := f.code[0].instrs;
    ExecThree(m, instrs[0], instrs[1], instrs[2], c.st);
    assert Run(f, m, c, 1) == Advance(f, m, Run(f, m, c, 0));
  }
}
