/** Liveness means what it should: values that are not live at the end of a block do
    not influence how the function goes on. */
module LivenessSound {
  import opened Wrappers
  import opened Graphs
  import opened ControlFlow
  import opened Ir
  import opened Scopes
  import opened Liveness
  import opened UseSets

  ghost predicate SameOn(names: set<Name>, e1: map<Name, Val>, e2: map<Name, Val>) {
    forall x :: x in names ==> Read(e1, x) == Read(e2, x)
  }

  ghost predicate SameElse(s1: State, s2: State) {
    s1.cells == s2.cells && s1.world == s2.world
  }

  ghost predicate IsStoreId(f: Func, x: Name) {
    exists b: Node, i: nat :: IdAt(f, b, i, x) && f.code[b].instrs[i].op.Store?
  }

  /** No instruction reads itself or a store, and every instruction's uses are recorded. */
  ghost predicate Recorded(f: Func) {
    && (forall b: Node, k: nat {:trigger RecordedAt(f, b, k)} :: b < |f.code| && k < |f.code[b].instrs| ==>
      RecordedAt(f, b, k))
    && (forall b: Node, k: nat, x {:trigger ReadAt(f, b, k, x)} :: ReadAt(f, b, k, x) ==>
      x != f.code[b].instrs[k].id && !IsStoreId(f, x))
    && (forall b: Node, x {:trigger ReadAtEnd(f, b, x)} :: ReadAtEnd(f, b, x) ==> !IsStoreId(f, x))
    && (|f.code| == |f.cfg.succs| ==> forall x :: x in AllNames(FlowOf(f).use) ==> !IsStoreId(f, x))
  }

  ghost predicate RecordedAt(f: Func, b: Node, k: nat)
    requires b < |f.code| && k < |f.code[b].instrs|
  {
    RecordsAll(f.code[b].instrs[k].op, Ids(f.code[b].instrs[..k + 1]), LeftValues(f))
  }

  /** A least solution for a function whose uses are recorded. */
  ghost predicate Analysed(f: Func, ins: Sets, outs: Sets) {
    && ValidFunc(f) && Recorded(f) && ValidFlow(FlowOf(f)) && IsLeast(FlowOf(f), ins, outs)
  }

  /** x has been given a value by the phis or the first k instructions. */
  ghost predicate Bound(instrs: seq<Instr>, k: nat, x: Name) {
    exists i :: 0 <= i < |instrs| && instrs[i].id == x && !instrs[i].op.Store? && (i < k || instrs[i].op.Phi?)
  }

  ghost predicate AgreesOn(instrs: seq<Instr>, live: set<Use>, k: nat, x: Name, s1: State, s2: State) {
    (x, None) in live || Bound(instrs, k, x) ==> Read(s1.env, x) == Read(s2.env, x)
  }

  /** Before instruction k the two states agree on what is live in and what was defined. */
  ghost predicate AgreeAt(instrs: seq<Instr>, live: set<Use>, k: nat, s1: State, s2: State) {
    SameElse(s1, s2) && forall x {:trigger AgreesOn(instrs, live, k, x, s1, s2)} :: AgreesOn(instrs, live, k, x, s1, s2)
  }

  lemma {:induction false} BodyUsesHold(instrs: seq<Instr>, k: nat, n: nat, left: set<Name>)
    requires k < n <= |instrs|
    ensures OpUses(instrs[k].op, Ids(instrs[..k + 1]), left) <= BodyUses(instrs, n, left)
  {
    if k + 1 < n {
      BodyUsesHold(instrs, k, n - 1, left);
    }
  }

  /** A value read by instruction k is live in or already defined. */
  lemma ReadIsKnown(f: Func, ins: Sets, outs: Sets, b: Node, k: nat, x: Name)
    requires Analysed(f, ins, outs) && b < |f.code| && ReadAt(f, b, k, x)
    ensures (x, None) in ins[b] || Bound(f.code[b].instrs, k, x)
  {
    var instrs, left := f.code[b].instrs, LeftValues(f);
    var def := Ids(instrs[..k + 1]);
    assert RecordedAt(f, b, k);
    CompleteIff(instrs[k].op, def, left);
    if x in def {
      var i :| 0 <= i < |instrs[..k + 1]| && instrs[..k + 1][i].id == x;
      assert instrs[i].id == x && IdAt(f, b, i, x);
    } else {
      BodyUsesHold(instrs, k, |instrs|, left);
      assert InHolds(FlowOf(f), ins, outs, b);
    }
  }

  lemma StepAgrees(m: Machine, instrs: seq<Instr>, live: set<Use>, k: nat, s1: State, s2: State)
    requires k < |instrs| && AgreeAt(instrs, live, k, s1, s2)
    requires forall x :: Ref(x) in Reads(instrs[k].op) ==> Read(s1.env, x) == Read(s2.env, x)
    ensures AgreeAt(instrs, live, k + 1, Step(m, instrs[k], s1), Step(m, instrs[k], s2))
  {
    var ins := instrs[k];
    var t1, t2 := Step(m, ins, s1), Step(m, ins, s2);
    StepSame(m, ins, s1, s2);
    var next := k + 1;
    forall x ensures AgreesOn(instrs, live, next, x, t1, t2) {
      assert AgreesOn(instrs, live, k, x, s1, s2);
      if Bound(instrs, next, x) && x != ins.id {
        var i :| 0 <= i < |instrs| && instrs[i].id == x && !instrs[i].op.Store? && (i < next || instrs[i].op.Phi?);
        assert Bound(instrs, k, x);
      }
      StepKeeps(m, ins, s1, x);
      StepKeeps(m, ins, s2, x);
      if x == ins.id && ins.op.Phi? {
        assert Bound(instrs, k, x);
      }
      if x == ins.id && ins.op.Store? && Bound(instrs, next, x) {
        var i :| 0 <= i < |instrs| && instrs[i].id == x && !instrs[i].op.Store? && (i < next || instrs[i].op.Phi?);
        assert Bound(instrs, k, x);
      }
    }
  }

  lemma StepKeeps(m: Machine, ins: Instr, s: State, x: Name)
    ensures x != ins.id || ins.op.Store? || ins.op.Phi? ==> Read(Step(m, ins, s).env, x) == Read(s.env, x)
  {
  }

  /** Equal operands give an equal result. */
  lemma StepSame(m: Machine, ins: Instr, s1: State, s2: State)
    requires SameElse(s1, s2) && forall x :: Ref(x) in Reads(ins.op) ==> Read(s1.env, x) == Read(s2.env, x)
    ensures SameElse(Step(m, ins, s1), Step(m, ins, s2))
    ensures !ins.op.Store? && !ins.op.Phi? ==> Read(Step(m, ins, s1).env, ins.id) == Read(Step(m, ins, s2).env, ins.id)
  {
    forall o | o in Reads(ins.op) ensures Ir.Value(s1.env, o) == Ir.Value(s2.env, o) {}
    match ins.op {
      case Calc(_, args) => assert Values(s1.env, args) == Values(s2.env, args);
      case Call(_, args) => assert Values(s1.env, args) == Values(s2.env, args);
      case Store(val, Mem(p)) => assert val in Reads(ins.op) && p in Reads(ins.op);
      case Store(val, Cell(_)) => assert val in Reads(ins.op);
      case Load(Mem(p)) => assert p in Reads(ins.op);
      case _ =>
    }
  }

  lemma {:induction false} BodyAgrees(f: Func, ins: Sets, outs: Sets, m: Machine, b: Node, k: nat, s1: State, s2: State)
    requires Analysed(f, ins, outs) && b < |f.code| && k <= |f.code[b].instrs|
    requires AgreeAt(f.code[b].instrs, ins[b], 0, s1, s2)
    ensures AgreeAt(f.code[b].instrs, ins[b], k, Exec(m, f.code[b].instrs[..k], s1), Exec(m, f.code[b].instrs[..k], s2))
  {
    var instrs := f.code[b].instrs;
    if k > 0 {
      var j := k - 1;
      BodyAgrees(f, ins, outs, m, b, j, s1, s2);
      var t1, t2 := Exec(m, instrs[..j], s1), Exec(m, instrs[..j], s2);
      forall x | Ref(x) in Reads(instrs[j].op) ensures Read(t1.env, x) == Read(t2.env, x) {
        assert ReadAt(f, b, j, x);
        ReadIsKnown(f, ins, outs, b, j, x);
        assert AgreesOn(instrs, ins[b], j, x, t1, t2);
      }
      StepAgrees(m, instrs, ins[b], j, t1, t2);
      assert instrs[..k] == instrs[..j] + [instrs[j]];
      ExecSnoc(m, instrs[..j], instrs[j], s1);
      ExecSnoc(m, instrs[..j], instrs[j], s2);
    }
  }

  /** At the end of b: the terminator reads the same, and live-out values agree. */
  lemma EndAgrees(f: Func, ins: Sets, outs: Sets, b: Node, s1: State, s2: State)
    requires Analysed(f, ins, outs) && b < |f.code| && AgreeAt(f.code[b].instrs, ins[b], |f.code[b].instrs|, s1, s2)
    ensures forall o :: o in TermReads(f.code[b].term) ==> Ir.Value(s1.env, o) == Ir.Value(s2.env, o)
    ensures SameOn(Names(outs[b]), s1.env, s2.env)
  {
    var instrs, n := f.code[b].instrs, |f.code[b].instrs|;
    assert InHolds(FlowOf(f), ins, outs, b);
    forall x | Ref(x) in TermReads(f.code[b].term) ensures Read(s1.env, x) == Read(s2.env, x) {
      assert ReadAtEnd(f, b, x);
      TakeAllTakes(TermReads(f.code[b].term), Ids(instrs), (x, None));
      DefinedIsBound(f, b, x);
      assert AgreesOn(instrs, ins[b], n, x, s1, s2);
    }
    forall x | x in Names(outs[b]) ensures Read(s1.env, x) == Read(s2.env, x) {
      LiveIsNamed(f, ins, outs, b, x);
      DefinedIsBound(f, b, x);
      assert AgreesOn(instrs, ins[b], n, x, s1, s2);
    }
  }

  lemma DefinedIsBound(f: Func, b: Node, x: Name)
    requires b < |f.code| && !IsStoreId(f, x)
    ensures x in Ids(f.code[b].instrs) ==> Bound(f.code[b].instrs, |f.code[b].instrs|, x)
  {
    var instrs := f.code[b].instrs;
    if x in Ids(instrs) {
      var i :| 0 <= i < |instrs| && instrs[i].id == x;
      assert IdAt(f, b, i, x);
    }
  }

  /** What is live is read somewhere, so it is no store. */
  lemma LiveIsNamed(f: Func, ins: Sets, outs: Sets, b: Node, x: Name)
    requires Analysed(f, ins, outs) && b < |f.code| && x in Names(outs[b])
    ensures (x, None) in outs[b] && !IsStoreId(f, x)
  {
    var p := FlowOf(f);
    LeastIsPaths(p, ins, outs, b, x);
    var w :| ReadsAlong(p, x, w) && w[0] == b;
    var last := w[|w| - 1];
    NameOf(p.use, last, if (x, None) in p.use[last] then (x, None) else (x, Some(w[|w| - 2])));
  }

  // ------------------------------------------------------------ across an edge

  lemma {:induction false} PhiValueSame(pairs: seq<(Operand, Node)>, p: Node, e1: map<Name, Val>, e2: map<Name, Val>)
    requires forall x :: (Ref(x), p) in pairs ==> Read(e1, x) == Read(e2, x)
    ensures PhiValue(pairs, p, e1) == PhiValue(pairs, p, e2)
  {
    if pairs != [] {
      assert pairs[0] in pairs;
      forall x | (Ref(x), p) in pairs[1..] ensures Read(e1, x) == Read(e2, x) {
        assert (Ref(x), p) in pairs;
      }
      PhiValueSame(pairs[1..], p, e1, e2);
    }
  }

  ghost predicate PhiAgreesOn(instrs: seq<Instr>, live: set<Use>, x: Name, e1: map<Name, Val>, e2: map<Name, Val>) {
    (x, None) in live || (exists i :: 0 <= i < |instrs| && instrs[i].id == x && instrs[i].op.Phi?) ==>
      Read(e1, x) == Read(e2, x)
  }

  lemma {:induction false} PhiEnvAgrees(instrs: seq<Instr>, live: set<Use>, p: Node, e1: map<Name, Val>,
                                        e2: map<Name, Val>)
    requires forall x :: (x, None) in live ==> Read(e1, x) == Read(e2, x)
    requires forall i, x :: 0 <= i < |instrs| && instrs[i].op.Phi? && (Ref(x), p) in instrs[i].op.pairs ==>
      Read(e1, x) == Read(e2, x)
    ensures forall x {:trigger PhiAgreesOn(instrs, live, x, PhiEnv(instrs, p, e1), PhiEnv(instrs, p, e2))} ::
      PhiAgreesOn(instrs, live, x, PhiEnv(instrs, p, e1), PhiEnv(instrs, p, e2))
  {
    if instrs != [] {
      var k := |instrs| - 1;
      var init, ins := instrs[..k], instrs[k];
      forall i, x | 0 <= i < |init| && init[i].op.Phi? && (Ref(x), p) in init[i].op.pairs
        ensures Read(e1, x) == Read(e2, x)
      {
        assert instrs[i] == init[i];
      }
      PhiEnvAgrees(init, live, p, e1, e2);
      if ins.op.Phi? {
        PhiValueSame(ins.op.pairs, p, e1, e2);
      }
      forall x ensures PhiAgreesOn(instrs, live, x, PhiEnv(instrs, p, e1), PhiEnv(instrs, p, e2)) {
        assert PhiAgreesOn(init, live, x, PhiEnv(init, p, e1), PhiEnv(init, p, e2));
        if exists i :: 0 <= i < |instrs| && instrs[i].id == x && instrs[i].op.Phi? {
          var i :| 0 <= i < |instrs| && instrs[i].id == x && instrs[i].op.Phi?;
          assert i < k ==> init[i].id == x && init[i].op.Phi?;
        }
      }
    }
  }

  /** States that agree on the values live at the end of b agree inside the successor. */
  lemma EnterAgrees(f: Func, ins: Sets, outs: Sets, b: Node, s: Node, s1: State, s2: State)
    requires Analysed(f, ins, outs) && Edge(f.cfg.Edges(), b, s) && b < |f.code| && SameElse(s1, s2)
    requires SameOn(Names(outs[b]), s1.env, s2.env)
    ensures s < |f.code|
    ensures AgreeAt(f.code[s].instrs, ins[s], 0, Enter(f, b, s, s1).st, Enter(f, b, s, s2).st)
  {
    var p := FlowOf(f);
    f.cfg.EdgeLists(b, s);
    assert Arc(p, b, s) && OutHolds(p, ins, outs, b, s);
    var instrs := f.code[s].instrs;
    forall x | (x, None) in ins[s] ensures Read(s1.env, x) == Read(s2.env, x) {
      CarriedIsSame(outs[b], (x, None), b, s1, s2);
    }
    forall i, x | 0 <= i < |instrs| && instrs[i].op.Phi? && (Ref(x), b) in instrs[i].op.pairs
      ensures Read(s1.env, x) == Read(s2.env, x)
    {
      PhiPairIsUse(f, ins, outs, s, i, x, b);
      CarriedIsSame(outs[b], (x, Some(b)), b, s1, s2);
    }
    PhiEnvAgrees(instrs, ins[s], b, s1.env, s2.env);
    var t1, t2 := Enter(f, b, s, s1).st, Enter(f, b, s, s2).st;
    forall x ensures AgreesOn(instrs, ins[s], 0, x, t1, t2) {
      assert PhiAgreesOn(instrs, ins[s], x, t1.env, t2.env);
    }
  }

  lemma CarriedIsSame(out: set<Use>, u: Use, b: Node, s1: State, s2: State)
    requires SameOn(Names(out), s1.env, s2.env) && Carried(u, b) <= out && (u.1 == None || u.1 == Some(b))
    ensures Read(s1.env, u.0) == Read(s2.env, u.0)
  {
    var v: Use := (u.0, None);
    assert v in Carried(u, b) && v.0 in Names(out);
  }

  lemma PhiPairIsUse(f: Func, ins: Sets, outs: Sets, s: Node, i: nat, x: Name, b: Node)
    requires Analysed(f, ins, outs) && s < |f.code| && i < |f.code[s].instrs| && f.code[s].instrs[i].op.Phi?
    requires (Ref(x), b) in f.code[s].instrs[i].op.pairs
    ensures (x, Some(b)) in ins[s]
  {
    var instrs, left := f.code[s].instrs, LeftValues(f);
    assert RecordedAt(f, s, i);
    CompleteIff(instrs[i].op, Ids(instrs[..i + 1]), left);
    BodyUsesHold(instrs, i, |instrs|, left);
    assert InHolds(FlowOf(f), ins, outs, s);
  }

  // ------------------------------------------------------------------ whole runs

  ghost predicate Alike(f: Func, ins: Sets, c1: Config, c2: Config)
    requires |ins| == |f.code|
  {
    match c1
    case Done(_, _) => c2 == c1
    case At(b, s1) => c2.At? && c2.block == b && b < |f.code| && AgreeAt(f.code[b].instrs, ins[b], 0, s1, c2.st)
  }

  lemma AdvanceAlike(f: Func, ins: Sets, outs: Sets, m: Machine, c1: Config, c2: Config)
    requires Analysed(f, ins, outs) && Alike(f, ins, c1, c2)
    ensures Alike(f, ins, Advance(f, m, c1), Advance(f, m, c2))
  {
    if c1.At? {
      var b := c1.block;
      var instrs, term := f.code[b].instrs, f.code[b].term;
      BodyAgrees(f, ins, outs, m, b, |instrs|, c1.st, c2.st);
      assert instrs[..|instrs|] == instrs;
      var t1, t2 := Exec(m, instrs, c1.st), Exec(m, instrs, c2.st);
      EndAgrees(f, ins, outs, b, t1, t2);
      LeaveFollowsEdge(f, b, t1);
      LeaveAlike(f, ins, outs, b, t1, t2);
    }
  }

  lemma LeaveAlike(f: Func, ins: Sets, outs: Sets, b: Node, t1: State, t2: State)
    requires Analysed(f, ins, outs) && b < |f.code| && SameElse(t1, t2) && SameOn(Names(outs[b]), t1.env, t2.env)
    requires forall o :: o in TermReads(f.code[b].term) ==> Ir.Value(t1.env, o) == Ir.Value(t2.env, o)
    ensures Alike(f, ins, Leave(f, b, f.code[b].term, t1), Leave(f, b, f.code[b].term, t2))
  {
    var term := f.code[b].term;
    LeaveFollowsEdge(f, b, t1);
    match term {
      case Jump(s) =>
        if s < |f.code| {
          EnterAgrees(f, ins, outs, b, s, t1, t2);
        }
      case Branch(cond, x, y) =>
        assert cond in TermReads(term);
        var s := if Truthy(Ir.Value(t1.env, cond)) then x else y;
        if s < |f.code| {
          EnterAgrees(f, ins, outs, b, s, t1, t2);
        }
      case Return(None) =>
      case Return(Some(val)) => assert val in TermReads(term);
    }
  }

  lemma {:induction false} RunsAlike(f: Func, ins: Sets, outs: Sets, m: Machine, c1: Config, c2: Config, n: nat)
    requires Analysed(f, ins, outs) && Alike(f, ins, c1, c2)
    ensures Alike(f, ins, Run(f, m, c1, n), Run(f, m, c2, n))
  {
    if n > 0 {
      RunsAlike(f, ins, outs, m, c1, c2, n - 1);
      AdvanceAlike(f, ins, outs, m, Run(f, m, c1, n - 1), Run(f, m, c2, n - 1));
    }
  }

  /** Two states that agree on the values live at the end of b, in memory and output,
      continue identically along any edge out of b, on every machine. */
  lemma LivenessIsSound(f: Func, ins: Sets, outs: Sets, m: Machine, b: Node, s: Node, s1: State, s2: State, n: nat)
    requires Analysed(f, ins, outs) && Edge(f.cfg.Edges(), b, s) && b < |f.code|
    requires SameElse(s1, s2) && SameOn(Names(outs[b]), s1.env, s2.env)
    ensures SameProgress(Run(f, m, Enter(f, b, s, s1), n), Run(f, m, Enter(f, b, s, s2), n))
  {
    EnterAgrees(f, ins, outs, b, s, s1, s2);
    RunsAlike(f, ins, outs, m, Enter(f, b, s, s1), Enter(f, b, s, s2), n);
  }

  /** States that agree on `live[b]`, in memory and output, go on identically from b. */
  ghost predicate Suffices(f: Func, live: seq<set<Name>>)
    requires |live| == |f.code|
  {
    forall m, b: Node, s: Node, s1, s2, n: nat
      {:trigger Run(f, m, Enter(f, b, s, s1), n), Run(f, m, Enter(f, b, s, s2), n)} ::
      b < |f.code| && Edge(f.cfg.Edges(), b, s) && SameElse(s1, s2) && SameOn(live[b], s1.env, s2.env)
      ==> SameProgress(Run(f, m, Enter(f, b, s, s1), n), Run(f, m, Enter(f, b, s, s2), n))
  }

  lemma LiveOutSuffices(f: Func, ins: Sets, outs: Sets, live: seq<set<Name>>)
    requires Analysed(f, ins, outs) && |live| == |f.code| && forall b :: 0 <= b < |live| ==> live[b] == Names(outs[b])
    ensures Suffices(f, live)
  {
    forall m, b: Node, s: Node, s1, s2, n: nat
      | b < |f.code| && Edge(f.cfg.Edges(), b, s) && SameElse(s1, s2) && SameOn(live[b], s1.env, s2.env)
      ensures SameProgress(Run(f, m, Enter(f, b, s, s1), n), Run(f, m, Enter(f, b, s, s2), n))
    {
      LivenessIsSound(f, ins, outs, m, b, s, s1, s2, n);
    }
  }

  // ------------------------------------------------------------ the lost index

  /** Block 1 returns the address of element 1 of array 0; both are arguments. */
  function GepExample(): Func {
    Func({0, 1}, Cfg([[1], []], [[], [0]]),
         [Code([], Jump(1)), Code([Instr(2, Calc(Gep, [Ref(0), Ref(1)]))], Return(Some(Ref(2))))])
  }

  /** The guard fails for a two-operand gep with an exposed index, and rightly so: the
      index is not live at the end of block 0, though the result depends on it. */
  lemma GepIndexIsLost(ins: Sets, outs: Sets)
    requires ValidFlow(FlowOf(GepExample())) && IsLeast(FlowOf(GepExample()), ins, outs)
    ensures 1 !in Names(outs[0])
    ensures ValidFunc(GepExample()) && UniqueIds(GepExample())
    ensures !Suffices(GepExample(), [Names(outs[0]), Names(outs[1])])
  {
    GepExampleIsValid();
    GepLiveness(FlowOf(GepExample()), ins, outs);
    GepRunsDiffer(Names(outs[0]), Names(outs[1]));
  }

  lemma GepExampleIsValid()
    ensures ValidFunc(GepExample()) && UniqueIds(GepExample()) && ValidFlow(FlowOf(GepExample()))
  {
    assert GepExample().cfg.succs[0][0] == 1;
  }

  lemma GepLiveness(p: Flow, ins: Sets, outs: Sets)
    requires p == FlowOf(GepExample()) && ValidFlow(p) && IsLeast(p, ins, outs)
    ensures Names(outs[0]) <= {0}
  {
    GepUses();
    assert p.succs == [[1], []];
    var none: set<Use> := {};
    var i: Sets, o: Sets := [{(0, None)}, {(0, None)}], [{(0, None)}, none];
    forall b: Node, s: Node | Arc(p, b, s) ensures s < 2 && OutHolds(p, i, o, b, s) {
      assert b == 0 && s == 1;
    }
    assert IsSolution(p, i, o);
    assert Below(p, outs, o);
    assert outs[0] <= o[0];
  }

  lemma GepUses()
    ensures FlowOf(GepExample()).use == [{}, {(0, None)}] && FlowOf(GepExample()).def == [{}, {2}]
  {
    var f := GepExample();
    var c := f.code[1];
    assert c.instrs[..1] == c.instrs && Ids(c.instrs) == {2};
    assert OpUses(c.instrs[0].op, {2}, LeftValues(f)) == {(0, None)};
    assert BodyUses(c.instrs, 1, LeftValues(f)) == {(0, None)};
    assert BlockUses(c, LeftValues(f)) == {(0, None)};
    assert BlockUses(f.code[0], LeftValues(f)) == {} && Ids(f.code[0].instrs) == {};
  }

  function SecondArg(c: Opcode, vs: seq<Val>): Val {
    if |vs| == 2 then vs[1] else Undef
  }

  function SecondArgMachine(): Machine {
    Machine(SecondArg, (v, w) => Undef, (v, u, w) => w, (n, vs, w) => (Undef, w), n => Undef)
  }

  lemma GepRun(s: State)
    ensures var f := GepExample();
      Run(f, SecondArgMachine(), Enter(f, 0, 1, s), 1) == Done(Some(Read(s.env, 1)), s.world)
  {
    var f, m := GepExample(), SecondArgMachine();
    var ins := f.code[1].instrs[0];
    assert f.code[1].instrs == [] + [ins];
    PhiEnvSnoc([], ins, 0, s.env);
    ExecSnoc(m, [], ins, s);
    assert Values(s.env, [Ref(0), Ref(1)]) == [Read(s.env, 0), Read(s.env, 1)];
    assert Run(f, m, Enter(f, 0, 1, s), 1) == Advance(f, m, Run(f, m, Enter(f, 0, 1, s), 0));
  }

  lemma GepRunsDiffer(live0: set<Name>, live1: set<Name>)
    requires live0 <= {0}
    ensures !Suffices(GepExample(), [live0, live1])
  {
    var f, m := GepExample(), SecondArgMachine();
    var w := World(map[], []);
    var s1, s2 := State(map[1 := Word(1)], map[], w), State(map[1 := Word(2)], map[], w);
    GepRun(s1);
    GepRun(s2);
    f.cfg.EdgeLists(0, 1);
    assert Edge(f.cfg.Edges(), 0, 1) && SameOn(live0, s1.env, s2.env);
  }
}
