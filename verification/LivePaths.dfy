/** Liveness in terms of the operands the instructions have, instead of the use sets the
    pass records. */
module LivePaths {
  import opened Wrappers
  import opened Graphs
  import opened Ir
  import opened Liveness
  import opened UseSets
  import opened LivenessSound

  /** The instruction has the operand that u stands for; a phi, for the block of its pair. */
  ghost predicate HasOperand(op: Op, u: Use) {
    if op.Phi? then u.1.Some? && (Ref(u.0), u.1.value) in op.pairs else u.1 == None && Ref(u.0) in Operands(op)
  }

  lemma TakesOperand(os: seq<Operand>, i: nat, def: set<Name>, u: Use)
    ensures u in TakeAt(os, i, def) <==> i < |os| && u.1 == None && os[i] == Ref(u.0) && u.0 !in def
  {
  }

  /** Whatever is recorded is an operand of the instruction. */
  lemma RecordedIsOperand(op: Op, def: set<Name>, left: set<Name>, u: Use)
    requires u in OpUses(op, def, left)
    ensures HasOperand(op, u)
  {
    match op {
      case Phi(_, pairs) =>
      case Load(a) =>
      case Store(val, a) =>
      case Calc(code, args) =>
        TakesOperand(args, 0, def, u);
        TakesOperand(args, 1, def, u);
        TakesOperand(args, 2, def, u);
        assert |args| > 0 && args[0].Ref? ==> Ref(args[0].name) == args[0];
      case Call(_, args) => TakeAllTakes(args, def, u);
      case Alloca(_) =>
    }
  }

  lemma ExposedOnly(op: Op, def: set<Name>, left: set<Name>, u: Use)
    requires RecordsAll(op, def, left) && u in OpUses(op, def, left)
    ensures u.0 !in def
  {
    match op {
      case Calc(code, args) =>
        TakesOperand(args, 0, def, u);
        TakesOperand(args, 1, def, u);
        TakesOperand(args, 2, def, u);
      case Call(_, args) => TakeAllTakes(args, def, u);
      case _ =>
    }
  }

  lemma OperandIsRecorded(op: Op, def: set<Name>, left: set<Name>, u: Use)
    requires RecordsAll(op, def, left) && HasOperand(op, u) && u.0 !in def
    ensures u in OpUses(op, def, left)
  {
    CompleteIff(op, def, left);
    match op {
      case Load(a) =>
      case Store(val, a) =>
      case _ =>
    }
  }

  /** Under the guards the recorded uses are the operands that are not defined yet. */
  lemma RecordedAreOperands(op: Op, def: set<Name>, left: set<Name>, u: Use)
    requires RecordsAll(op, def, left)
    ensures u in OpUses(op, def, left) <==> HasOperand(op, u) && u.0 !in def
  {
    if u in OpUses(op, def, left) {
      RecordedIsOperand(op, def, left, u);
      ExposedOnly(op, def, left, u);
    }
    if HasOperand(op, u) && u.0 !in def {
      OperandIsRecorded(op, def, left, u);
    }
  }

  // ------------------------------------------------------------------- blocks

  /** Instruction k of b has the operand u, and nothing up to it defines the value. */
  ghost predicate FirstReadAt(c: Code, k: nat, u: Use) {
    k < |c.instrs| && HasOperand(c.instrs[k].op, u) && u.0 !in Ids(c.instrs[..k + 1])
  }

  ghost predicate FirstReadAtEnd(c: Code, u: Use) {
    u.1 == None && Ref(u.0) in TermReads(c.term) && u.0 !in Ids(c.instrs)
  }

  /** The block reads the value before it defines it; a phi, on the edge from its block. */
  ghost predicate ReadsFirst(c: Code, u: Use) {
    (exists k: nat :: FirstReadAt(c, k, u)) || FirstReadAtEnd(c, u)
  }

  ghost predicate RecordsAt(c: Code, left: set<Name>, k: nat) {
    k < |c.instrs| ==> RecordsAll(c.instrs[k].op, Ids(c.instrs[..k + 1]), left)
  }

  /** The pass looks the instruction up in `def` with its own identity entered first. */
  lemma UsesAtAre(c: Code, k: nat, left: set<Name>, u: Use)
    requires k < |c.instrs| && RecordsAt(c, left, k)
    ensures u in BodyUses(c.instrs, k + 1, left) <==> u in BodyUses(c.instrs, k, left) || FirstReadAt(c, k, u)
  {
    RecordedAreOperands(c.instrs[k].op, Ids(c.instrs[..k + 1]), left, u);
  }

  ghost predicate FirstReadBelow(c: Code, n: nat, u: Use) {
    exists k: nat :: k < n && FirstReadAt(c, k, u)
  }

  lemma FirstReadSnoc(c: Code, n: nat, u: Use)
    ensures FirstReadBelow(c, n + 1, u) <==> FirstReadBelow(c, n, u) || FirstReadAt(c, n, u)
  {
  }

  ghost predicate AllRecorded(c: Code, left: set<Name>) {
    forall k: nat {:trigger RecordsAt(c, left, k)} :: RecordsAt(c, left, k)
  }

  lemma {:induction false} BodyUsesAre(c: Code, n: nat, left: set<Name>, u: Use)
    requires n <= |c.instrs| && AllRecorded(c, left)
    ensures u in BodyUses(c.instrs, n, left) <==> FirstReadBelow(c, n, u)
  {
    if n > 0 {
      var k := n - 1;
      BodyUsesAre(c, k, left, u);
      assert RecordsAt(c, left, k);
      UsesAtAre(c, k, left, u);
      FirstReadSnoc(c, k, u);
    }
  }

  lemma BlockUsesAre(c: Code, left: set<Name>, u: Use)
    requires AllRecorded(c, left)
    ensures u in BlockUses(c, left) <==> ReadsFirst(c, u)
  {
    assert FirstReadBelow(c, |c.instrs|, u) <==> exists k: nat :: FirstReadAt(c, k, u);
    BodyUsesAre(c, |c.instrs|, left, u);
    TakeAllTakes(TermReads(c.term), Ids(c.instrs), u);
  }

  // -------------------------------------------------------------------- paths

  ghost predicate Step(f: Func, w: seq<Node>, i: nat)
    requires |f.code| == |f.cfg.succs|
  {
    i + 1 < |w| ==> w[i] < |f.code| && w[i + 1] in f.cfg.succs[w[i]]
  }

  /** w is a path of the function. */
  ghost predicate Follows(f: Func, w: seq<Node>)
    requires |f.code| == |f.cfg.succs|
  {
    forall i: nat {:trigger Step(f, w, i)} :: Step(f, w, i)
  }

  /** The path w leaves its first block and its last block reads v first, in place or in a
      phi for the last edge; no block in between defines v. */
  ghost predicate ReadsOn(f: Func, v: Name, w: seq<Node>)
    requires |f.code| == |f.cfg.succs|
  {
    && |w| >= 2 && Follows(f, w)
    && (forall i :: 0 < i < |w| - 1 ==> w[i] < |f.code| && v !in Ids(f.code[w[i]].instrs))
    && w[|w| - 1] < |f.code|
    && (ReadsFirst(f.code[w[|w| - 1]], (v, None)) || ReadsFirst(f.code[w[|w| - 1]], (v, Some(w[|w| - 2]))))
  }

  ghost predicate ReadLater(f: Func, v: Name, b: Node)
    requires |f.code| == |f.cfg.succs|
  {
    exists w :: ReadsOn(f, v, w) && w[0] == b
  }

  lemma UsesAre(f: Func, b: Node, u: Use)
    requires |f.code| == |f.cfg.succs| && Recorded(f) && b < |f.code|
    ensures u in FlowOf(f).use[b] <==> ReadsFirst(f.code[b], u)
  {
    forall k: nat ensures RecordsAt(f.code[b], LeftValues(f), k) {
      assert k < |f.code[b].instrs| ==> RecordedAt(f, b, k);
    }
    BlockUsesAre(f.code[b], LeftValues(f), u);
  }

  /** Where the uses are recorded, the paths over use sets are paths over operands. */
  lemma LiveAfterIff(f: Func, v: Name, b: Node)
    requires |f.code| == |f.cfg.succs| && Recorded(f) && ValidFlow(FlowOf(f))
    ensures LiveAfter(FlowOf(f), v, b) <==> ReadLater(f, v, b)
  {
    forall w ensures ReadsAlong(FlowOf(f), v, w) <==> ReadsOn(f, v, w) {
      PathsAgree(f, v, w);
    }
  }

  lemma ArcsAgree(f: Func, w: seq<Node>)
    requires |f.code| == |f.cfg.succs|
    ensures Chain(FlowOf(f), w) <==> Follows(f, w)
  {
    var p := FlowOf(f);
    if Chain(p, w) {
      forall i: nat ensures Step(f, w, i) {
        var j := i + 1;
        assert j < |w| ==> Arc(p, w[i], w[j]);
      }
    }
    if Follows(f, w) {
      forall i, j | 0 <= i && j == i + 1 && j < |w| ensures Arc(p, w[i], w[j]) {
        assert Step(f, w, i);
      }
    }
  }

  lemma PathsAgree(f: Func, v: Name, w: seq<Node>)
    requires |f.code| == |f.cfg.succs| && Recorded(f) && ValidFlow(FlowOf(f))
    ensures ReadsAlong(FlowOf(f), v, w) <==> ReadsOn(f, v, w)
  {
    ArcsAgree(f, w);
    if |w| >= 2 && w[|w| - 1] < |f.code| {
      UsesAre(f, w[|w| - 1], (v, None));
      UsesAre(f, w[|w| - 1], (v, Some(w[|w| - 2])));
    }
  }
}
