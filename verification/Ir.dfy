/** LightIR functions and what running them does. An instruction is its own value:
    operands refer to the identity of the defining instruction or argument. */
module Ir {
  import opened Wrappers
  import opened Graphs
  import opened ControlFlow

  type Name = nat

  datatype Val = Undef | Word(bits: int)

  datatype Operand = Const(value: Val) | Ref(name: Name)

  /** A load or store address: a stack slot named by its alloca, or a computed or
      global pointer. */
  datatype Addr = Cell(slot: Name) | Mem(ptr: Operand)

  datatype Opcode = Binary(kind: nat) | Compare(pred: nat) | Gep | Zext | FpToSi | SiToFp

  datatype Op =
    | Phi(slot: Name, pairs: seq<(Operand, Node)>)
    | Load(from: Addr)
    | Store(val: Operand, to: Addr)
    | Calc(opcode: Opcode, args: seq<Operand>)
    | Call(callee: nat, actuals: seq<Operand>)
    | Alloca(scalar: bool)

  datatype Instr = Instr(id: Name, op: Op)

  datatype Term =
    | Jump(target: Node)
    | Branch(cond: Operand, onTrue: Node, onFalse: Node)
    | Return(result: Option<Operand>)

  datatype Code = Code(instrs: seq<Instr>, term: Term)

  datatype Func = Func(args: set<Name>, cfg: Cfg, code: seq<Code>)

  /** Loads and stores of promoted stack slots. */
  predicate IsCellLoad(op: Op) {
    op.Load? && op.from.Cell?
  }

  predicate IsCellStore(op: Op) {
    op.Store? && op.to.Cell?
  }

  /** The instruction leaves a value that operands may refer to. Slots of promoted
      scalars are only used as addresses. */
  predicate Defines(op: Op) {
    !op.Store? && op != Alloca(true)
  }

  function Targets(t: Term): set<Node> {
    match t
    case Jump(b) => {b}
    case Branch(_, b, c) => {b, c}
    case Return(_) => {}
  }

  function AddrOperands(a: Addr): seq<Operand> {
    match a
    case Cell(v) => []
    case Mem(p) => [p]
  }

  /** The operand that holds the address; a slot is the alloca itself. */
  function AddressOperand(a: Addr): Operand {
    match a
    case Cell(v) => Ref(v)
    case Mem(p) => p
  }

  /** The values an instruction reads when it runs in place; a phi reads on entry. */
  function Reads(op: Op): seq<Operand> {
    match op
    case Phi(_, _) => []
    case Load(a) => AddrOperands(a)
    case Store(val, a) => [val] + AddrOperands(a)
    case Calc(_, args) => args
    case Call(_, args) => args
    case Alloca(_) => []
  }

  /** All operands of an instruction, addresses and phi values included; blocks and
      callees aside. */
  function Operands(op: Op): seq<Operand> {
    match op
    case Phi(_, pairs) => seq(|pairs|, i requires 0 <= i < |pairs| => pairs[i].0)
    case Load(a) => [AddressOperand(a)]
    case Store(val, a) => [val, AddressOperand(a)]
    case _ => Reads(op)
  }

  function TermReads(t: Term): seq<Operand> {
    match t
    case Jump(_) => []
    case Branch(cond, _, _) => [cond]
    case Return(Some(val)) => [val]
    case Return(None) => []
  }

  /** Well-formed functions: one block of code per CFG node, and the successor list
      holds exactly the terminator's targets. */
  ghost predicate ValidFunc(f: Func) {
    && f.cfg.Valid() && |f.code| == |f.cfg.succs|
    && (forall b, t {:trigger t in f.cfg.succs[b]} :: 0 <= b < |f.code| ==>
      (t in f.cfg.succs[b] <==> t in Targets(f.code[b].term)))
  }

  // ---------------------------------------------------------------- semantics

  datatype World = World(memory: map<int, Val>, output: seq<Val>)

  /** The parts of execution the passes do not look into. */
  datatype Machine = Machine(
    compute: (Opcode, seq<Val>) -> Val,
    load: (Val, World) -> Val,
    store: (Val, Val, World) -> World,
    call: (nat, seq<Val>, World) -> (Val, World),
    slot: Name -> Val)

  datatype State = State(env: map<Name, Val>, cells: map<Name, Val>, world: World)

  function Read(m: map<Name, Val>, n: Name): Val {
    if n in m then m[n] else Undef
  }

  function Value(env: map<Name, Val>, o: Operand): Val {
    match o
    case Const(c) => c
    case Ref(n) => Read(env, n)
  }

  function Values(env: map<Name, Val>, os: seq<Operand>): seq<Val> {
    seq(|os|, i requires 0 <= i < |os| => Value(env, os[i]))
  }

  predicate Truthy(v: Val) {
    v.Word? && v.bits != 0
  }

  /** One instruction other than a phi; phis were handled on entering the block. */
  function Step(m: Machine, ins: Instr, st: State): State {
    match ins.op
    case Phi(_, _) => st
    case Load(Cell(v)) => st.(env := st.env[ins.id := Read(st.cells, v)])
    case Load(Mem(p)) => st.(env := st.env[ins.id := m.load(Value(st.env, p), st.world)])
    case Store(val, Cell(v)) => st.(cells := st.cells[v := Value(st.env, val)])
    case Store(val, Mem(p)) => st.(world := m.store(Value(st.env, p), Value(st.env, val), st.world))
    case Calc(code, args) => st.(env := st.env[ins.id := m.compute(code, Values(st.env, args))])
    case Call(fn, args) =>
      var r := m.call(fn, Values(st.env, args), st.world);
      st.(env := st.env[ins.id := r.0], world := r.1)
    case Alloca(_) => st.(env := st.env[ins.id := m.slot(ins.id)])
  }

  function Exec(m: Machine, instrs: seq<Instr>, st: State): State {
    if instrs == [] then st
    else Step(m, instrs[|instrs| - 1], Exec(m, instrs[..|instrs| - 1], st))
  }

  /** The operand a phi takes when the block is entered from p; no pair reads as undef. */
  function PhiValue(pairs: seq<(Operand, Node)>, p: Node, env: map<Name, Val>): Val {
    if pairs == [] then Undef
    else if pairs[0].1 == p then Value(env, pairs[0].0)
    else PhiValue(pairs[1..], p, env)
  }

  ghost predicate Mentions(pairs: seq<(Operand, Node)>, p: Node) {
    exists i :: 0 <= i < |pairs| && pairs[i].1 == p
  }

  /** All phis of the block at once, every operand read in the old environment. */
  function PhiEnv(instrs: seq<Instr>, p: Node, env: map<Name, Val>): map<Name, Val> {
    if instrs == [] then env
    else
      var rest := PhiEnv(instrs[..|instrs| - 1], p, env);
      var ins := instrs[|instrs| - 1];
      if ins.op.Phi? then rest[ins.id := PhiValue(ins.op.pairs, p, env)] else rest
  }

  /** At: about to run the body of `block`, its phis done. */
  datatype Config = At(block: Node, st: State) | Done(result: Option<Val>, world: World)

  function Enter(f: Func, p: Node, s: Node, st: State): Config {
    if s < |f.code| then At(s, st.(env := PhiEnv(f.code[s].instrs, p, st.env))) else Done(None, st.world)
  }

  function Leave(f: Func, b: Node, t: Term, st: State): Config {
    match t
    case Jump(s) => Enter(f, b, s, st)
    case Branch(cond, s1, s2) => Enter(f, b, if Truthy(Value(st.env, cond)) then s1 else s2, st)
    case Return(None) => Done(None, st.world)
    case Return(Some(val)) => Done(Some(Value(st.env, val)), st.world)
  }

  /** Runs one block and takes its edge. */
  function Advance(f: Func, m: Machine, c: Config): Config {
    match c
    case Done(_, _) => c
    case At(b, st) => if b < |f.code| then Leave(f, b, f.code[b].term, Exec(m, f.code[b].instrs, st)) else c
  }

  function Run(f: Func, m: Machine, c: Config, n: nat): Config {
    if n == 0 then c else Advance(f, m, Run(f, m, c, n - 1))
  }

  /** At the same block with the same memory and output, or returned alike. */
  ghost predicate SameProgress(c: Config, c2: Config) {
    match c
    case Done(_, _) => c2 == c
    case At(b, o) => c2.At? && c2.block == b && c2.st.world == o.world
  }

  function Start(actuals: map<Name, Val>, w: World): Config {
    At(ENTRY, State(actuals, map[], w))
  }

  lemma ExecSnoc(m: Machine, instrs: seq<Instr>, ins: Instr, st: State)
    ensures Exec(m, instrs + [ins], st) == Step(m, ins, Exec(m, instrs, st))
  {
    assert (instrs + [ins])[..|instrs|] == instrs;
  }

  lemma PhiEnvSnoc(instrs: seq<Instr>, ins: Instr, p: Node, env: map<Name, Val>)
    ensures PhiEnv(instrs + [ins], p, env) ==
      (if ins.op.Phi? then PhiEnv(instrs, p, env)[ins.id := PhiValue(ins.op.pairs, p, env)] else PhiEnv(instrs, p, env))
  {
    assert (instrs + [ins])[..|instrs|] == instrs;
  }

  /** Control only ever follows CFG edges. */
  lemma LeaveFollowsEdge(f: Func, b: Node, st: State)
    requires ValidFunc(f) && b < |f.code|
    ensures var c := Leave(f, b, f.code[b].term, st); c.At? ==> Edge(f.cfg.Edges(), b, c.block)
  {
  }

  /** On this machine f2 goes through the same blocks as f, with the same memory and
      output, and returns the same value, for all arguments and initial memory and after
      any number of blocks. */
  ghost predicate SameRuns(f: Func, f2: Func, m: Machine) {
    forall actuals, w, n {:trigger Run(f, m, Start(actuals, w), n)} ::
      SameProgress(Run(f, m, Start(actuals, w), n), Run(f2, m, Start(actuals, w), n))
  }

  // ------------------------------------------------------------ instruction lists

  ghost function Ids(instrs: seq<Instr>): (r: set<Name>)
    ensures forall i :: 0 <= i < |instrs| ==> instrs[i].id in r
  {
    set ins | ins in instrs :: ins.id
  }

  ghost function IdsOf(code: seq<Code>): set<Name> {
    if code == [] then {} else IdsOf(code[..|code| - 1]) + Ids(code[|code| - 1].instrs)
  }

  lemma IdsSnoc(instrs: seq<Instr>, ins: Instr)
    ensures Ids(instrs + [ins]) == Ids(instrs) + {ins.id}
  {
    assert ins in instrs + [ins];
    forall x | x in Ids(instrs) ensures x in Ids(instrs + [ins]) {
      var a :| a in instrs && a.id == x;
      assert a in instrs + [ins];
    }
  }

  /** `delete_instr` for every listed instruction of one block. */
  function Without(instrs: seq<Instr>, gone: set<Name>): seq<Instr> {
    if instrs == [] then []
    else
      var ins := instrs[|instrs| - 1];
      Without(instrs[..|instrs| - 1], gone) + (if ins.id in gone then [] else [ins])
  }

  lemma WithoutSnoc(instrs: seq<Instr>, ins: Instr, gone: set<Name>)
    ensures Without(instrs + [ins], gone) == Without(instrs, gone) + (if ins.id in gone then [] else [ins])
  {
    assert (instrs + [ins])[..|instrs|] == instrs;
  }
}
