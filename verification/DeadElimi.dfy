/** The dead code pass: mark from the effects along operands, then delete what is
    not marked. */
module DeadElimi {
  import opened Wrappers
  import opened Graphs
  import opened ControlFlow
  import opened Ir
  import opened Scopes
  import opened DeadCode
  import opened NeededCode

  // ------------------------------------------- instructions by their identity

  function DefsIn(instrs: seq<Instr>): Defs {
    if instrs == [] then map[] else DefsIn(instrs[..|instrs| - 1])[instrs[|instrs| - 1].id := instrs[|instrs| - 1].op]
  }

  /** Stands for the pointers by which operands refer to instructions. */
  function DefsOf(code: seq<Code>): Defs {
    if code == [] then map[] else DefsOf(code[..|code| - 1]) + DefsIn(code[|code| - 1].instrs)
  }

  lemma {:induction false} DefsInAre(instrs: seq<Instr>, x: Name)
    ensures x in DefsIn(instrs) <==> x in Ids(instrs)
    ensures x in DefsIn(instrs) ==> exists i :: 0 <= i < |instrs| && instrs[i] == Instr(x, DefsIn(instrs)[x])
  {
    if instrs != [] {
      var k := |instrs| - 1;
      DefsInAre(instrs[..k], x);
      assert instrs == instrs[..k] + [instrs[k]];
      IdsSnoc(instrs[..k], instrs[k]);
      if x != instrs[k].id && x in DefsIn(instrs) {
        var i :| 0 <= i < k && instrs[..k][i] == Instr(x, DefsIn(instrs[..k])[x]);
        assert instrs[i] == Instr(x, DefsIn(instrs)[x]);
      }
    }
  }

  ghost predicate DefAt(code: seq<Code>, x: Name, op: Op) {
    exists b, i :: 0 <= b < |code| && 0 <= i < |code[b].instrs| && code[b].instrs[i] == Instr(x, op)
  }

  lemma {:induction false} DefsOfAre(code: seq<Code>, x: Name)
    ensures x in DefsOf(code) ==> DefAt(code, x, DefsOf(code)[x])
    ensures forall b, i :: 0 <= b < |code| && 0 <= i < |code[b].instrs| && code[b].instrs[i].id == x ==>
      x in DefsOf(code)
  {
    if code != [] {
      var k := |code| - 1;
      DefsOfAre(code[..k], x);
      DefsInAre(code[k].instrs, x);
      if x in DefsIn(code[k].instrs) {
        var i :| 0 <= i < |code[k].instrs| && code[k].instrs[i] == Instr(x, DefsIn(code[k].instrs)[x]);
      } else if x in DefsOf(code) {
        var b, i :| 0 <= b < k && 0 <= i < |code[..k][b].instrs| &&
          code[..k][b].instrs[i] == Instr(x, DefsOf(code[..k])[x]);
        assert code[b].instrs[i] == Instr(x, DefsOf(code)[x]);
      }
      forall b, i | 0 <= b < |code| && 0 <= i < |code[b].instrs| && code[b].instrs[i].id == x
        ensures x in DefsOf(code)
      {
        if b < k {
          assert code[..k][b].instrs[i].id == x;
        }
      }
    }
  }

  lemma DefsOfFunc(f: Func)
    requires UniqueIds(f)
    ensures DefsAre(f, DefsOf(f.code))
  {
    var defs := DefsOf(f.code);
    forall b: Node, i: nat, x: Name | IdAt(f, b, i, x) ensures x in defs && defs[x] == f.code[b].instrs[i].op {
      DefsOfAre(f.code, x);
      var c, j :| 0 <= c < |f.code| && 0 <= j < |f.code[c].instrs| && f.code[c].instrs[j] == Instr(x, defs[x]);
      assert IdAt(f, c, j, x);
    }
    forall x | x in defs ensures exists b: Node, i: nat :: IdAt(f, b, i, x) {
      DefsOfAre(f.code, x);
      var c, j :| 0 <= c < |f.code| && 0 <= j < |f.code[c].instrs| && f.code[c].instrs[j] == Instr(x, defs[x]);
      assert IdAt(f, c, j, x);
    }
  }

  // ------------------------------------------------------------------- marking

  /** From w0 the marks grew to w by marking xs: what is new refers only to marked
      instructions, and nothing was marked without need. */
  ghost predicate MarkedFrom(defs: Defs, w0: set<Name>, w: set<Name>, xs: set<Name>) {
    && w0 <= w && xs <= w && w <= w0 + defs.Keys
    && (forall y {:trigger ClosedAt(defs, w, y)} :: y in w && y !in w0 ==> ClosedAt(defs, w, y))
    && (forall s {:trigger IsClosed(defs, s)} :: IsClosed(defs, s) && w0 <= s && xs <= s ==> w <= s)
  }

  lemma MarkedTrans(defs: Defs, w0: set<Name>, w1: set<Name>, w2: set<Name>, xs: set<Name>, ys: set<Name>)
    requires MarkedFrom(defs, w0, w1, xs) && MarkedFrom(defs, w1, w2, ys)
    ensures MarkedFrom(defs, w0, w2, xs + ys)
  {
    forall y | y in w2 && y !in w0 ensures ClosedAt(defs, w2, y) {
      if y in w1 {
        assert ClosedAt(defs, w1, y);
      }
    }
  }

  lemma MarkedNothing(defs: Defs, w: set<Name>)
    ensures MarkedFrom(defs, w, w, {})
  {
  }

  /** The instructions among the first k operands. */
  ghost function OperandDefs(defs: Defs, os: seq<Operand>, k: nat): set<Name>
    requires k <= |os|
  {
    if k == 0 then {}
    else
      OperandDefs(defs, os, k - 1) + (if os[k - 1].Ref? && os[k - 1].name in defs then {os[k - 1].name} else {})
  }

  lemma {:induction false} OperandDefsAre(defs: Defs, os: seq<Operand>, k: nat, y: Name)
    requires k <= |os|
    ensures y in OperandDefs(defs, os, k) <==> Ref(y) in os[..k] && y in defs
  {
    if k > 0 {
      OperandDefsAre(defs, os, k - 1, y);
      assert os[..k] == os[..k - 1] + [os[k - 1]];
    }
  }

  /** Marking x itself and then its operands. */
  lemma MarkedWithOperands(defs: Defs, w0: set<Name>, w: set<Name>, x: Name)
    requires x in defs && MarkedFrom(defs, w0 + {x}, w, OperandDefs(defs, Operands(defs[x]), |Operands(defs[x])|))
    ensures MarkedFrom(defs, w0, w, {x})
  {
    var os := Operands(defs[x]);
    var ts := OperandDefs(defs, os, |os|);
    assert os[..|os|] == os;
    forall y ensures y in ts <==> Ref(y) in os && y in defs {
      OperandDefsAre(defs, os, |os|, y);
    }
    assert ClosedAt(defs, w, x);
    forall s | IsClosed(defs, s) && w0 <= s && {x} <= s ensures w <= s {
      assert ClosedAt(defs, s, x);
      assert ts <= s;
    }
  }

  // --------------------------------------------------------------------- roots

  ghost function BodyRoots(instrs: seq<Instr>, k: nat, nonEffect: set<nat>): set<Name>
    requires k <= |instrs|
  {
    if k == 0 then {}
    else
      BodyRoots(instrs, k - 1, nonEffect) + (if IsEffect(instrs[k - 1].op, nonEffect) then {instrs[k - 1].id} else {})
  }

  ghost function BlockRoots(defs: Defs, c: Code, nonEffect: set<nat>): set<Name> {
    BodyRoots(c.instrs, |c.instrs|, nonEffect) + OperandDefs(defs, TermReads(c.term), |TermReads(c.term)|)
  }

  ghost function RootsTo(f: Func, defs: Defs, b: nat, nonEffect: set<nat>): set<Name>
    requires b <= |f.code|
  {
    if b == 0 then {} else RootsTo(f, defs, b - 1, nonEffect) + BlockRoots(defs, f.code[b - 1], nonEffect)
  }

  lemma {:induction false} BodyRootsAre(instrs: seq<Instr>, k: nat, nonEffect: set<nat>, x: Name)
    requires k <= |instrs|
    ensures x in BodyRoots(instrs, k, nonEffect) <==>
      exists i :: 0 <= i < k && instrs[i].id == x && IsEffect(instrs[i].op, nonEffect)
  {
    if k > 0 {
      BodyRootsAre(instrs, k - 1, nonEffect, x);
    }
  }

  ghost predicate RootIn(f: Func, defs: Defs, b: nat, nonEffect: set<nat>, x: Name) {
    b < |f.code| && x in BlockRoots(defs, f.code[b], nonEffect)
  }

  ghost predicate RootBelow(f: Func, defs: Defs, b: nat, nonEffect: set<nat>, x: Name) {
    exists c: nat :: c < b && RootIn(f, defs, c, nonEffect, x)
  }

  lemma RootSnoc(f: Func, defs: Defs, b: nat, nonEffect: set<nat>, x: Name)
    ensures RootBelow(f, defs, b + 1, nonEffect, x) <==>
      RootBelow(f, defs, b, nonEffect, x) || RootIn(f, defs, b, nonEffect, x)
  {
  }

  lemma {:induction false} RootsToAre(f: Func, defs: Defs, b: nat, nonEffect: set<nat>, x: Name)
    requires b <= |f.code|
    ensures x in RootsTo(f, defs, b, nonEffect) <==> RootBelow(f, defs, b, nonEffect, x)
  {
    if b > 0 {
      RootsToAre(f, defs, b - 1, nonEffect, x);
      RootSnoc(f, defs, b - 1, nonEffect, x);
    }
  }

  lemma RootsAre(f: Func, defs: Defs, nonEffect: set<nat>, x: Name)
    requires DefsAre(f, defs)
    ensures x in RootsTo(f, defs, |f.code|, nonEffect) <==> IsRoot(f, defs, nonEffect, x)
  {
    RootsToAre(f, defs, |f.code|, nonEffect, x);
    if x in RootsTo(f, defs, |f.code|, nonEffect) {
      var b: nat :| b < |f.code| && RootIn(f, defs, b, nonEffect, x);
      RootOfBlock(f, defs, nonEffect, b, x);
    }
    if IsRoot(f, defs, nonEffect, x) {
      if IsEffect(defs[x], nonEffect) {
        var b: Node, i: nat :| IdAt(f, b, i, x);
        BodyRootsAre(f.code[b].instrs, |f.code[b].instrs|, nonEffect, x);
        assert RootIn(f, defs, b, nonEffect, x);
      } else {
        var b: Node :| ReadAtEnd(f, b, x);
        var os := TermReads(f.code[b].term);
        OperandDefsAre(defs, os, |os|, x);
        assert os[..|os|] == os && RootIn(f, defs, b, nonEffect, x);
      }
    }
  }

  lemma RootOfBlock(f: Func, defs: Defs, nonEffect: set<nat>, b: nat, x: Name)
    requires DefsAre(f, defs) && RootIn(f, defs, b, nonEffect, x)
    ensures IsRoot(f, defs, nonEffect, x)
  {
    var instrs, os := f.code[b].instrs, TermReads(f.code[b].term);
    BodyRootsAre(instrs, |instrs|, nonEffect, x);
    OperandDefsAre(defs, os, |os|, x);
    assert os[..|os|] == os;
    if x in BodyRoots(instrs, |instrs|, nonEffect) {
      var i :| 0 <= i < |instrs| && instrs[i].id == x && IsEffect(instrs[i].op, nonEffect);
      assert IdAt(f, b, i, x);
    } else {
      assert ReadAtEnd(f, b, x);
    }
  }

  lemma MarkingEnds(f: Func, defs: Defs, nonEffect: set<nat>, w: set<Name>)
    requires DefsAre(f, defs) && MarkedFrom(defs, {}, w, RootsTo(f, defs, |f.code|, nonEffect))
    ensures IsMarked(f, defs, nonEffect, w)
  {
    var roots := RootsTo(f, defs, |f.code|, nonEffect);
    forall x ensures x in roots <==> IsRoot(f, defs, nonEffect, x) {
      RootsAre(f, defs, nonEffect, x);
    }
    forall s | IsClosed(defs, s) && HoldsRoots(f, defs, nonEffect, s) ensures w <= s {
      assert roots <= s;
    }
  }

  // ---------------------------------------------------------------- what follows

  lemma {:induction false} SameRemoval(instrs: seq<Instr>, g1: set<Name>, g2: set<Name>)
    requires forall i :: 0 <= i < |instrs| ==> (instrs[i].id in g1 <==> instrs[i].id in g2)
    ensures Without(instrs, g1) == Without(instrs, g2)
  {
    if instrs != [] {
      SameRemoval(instrs[..|instrs| - 1], g1, g2);
    }
  }

  /** Keeping the marked instructions keeps every run. */
  lemma SweptIsSafe(f: Func, f2: Func, defs: Defs, nonEffect: set<nat>, w: set<Name>)
    requires DefsAre(f, defs) && IsMarked(f, defs, nonEffect, w) && IsSwept(f, f2, w)
    ensures Swept(f, f2, defs.Keys - w, nonEffect)
  {
    var gone := defs.Keys - w;
    forall b {:trigger f2.code[b]} | 0 <= b < |f.code|
      ensures f2.code[b] == Code(Without(f.code[b].instrs, gone), f.code[b].term)
    {
      var instrs := f.code[b].instrs;
      forall i | 0 <= i < |instrs| ensures instrs[i].id in Ids(instrs) - w <==> instrs[i].id in gone {
        assert IdAt(f, b, i, instrs[i].id);
      }
      SameRemoval(instrs, Ids(instrs) - w, gone);
    }
    forall b | 0 <= b < |f.code|
      ensures Sweepable(gone, nonEffect, f.code[b].instrs) && NoneGone(gone, TermReads(f.code[b].term))
    {
      BlockIsSweepable(f, defs, nonEffect, w, b);
    }
  }

  lemma BlockIsSweepable(f: Func, defs: Defs, nonEffect: set<nat>, w: set<Name>, b: Node)
    requires DefsAre(f, defs) && IsMarked(f, defs, nonEffect, w) && b < |f.code|
    ensures Sweepable(defs.Keys - w, nonEffect, f.code[b].instrs) && NoneGone(defs.Keys - w, TermReads(f.code[b].term))
  {
    var gone, instrs := defs.Keys - w, f.code[b].instrs;
    forall i | 0 <= i < |instrs|
      ensures if instrs[i].id in gone then !IsEffect(instrs[i].op, nonEffect)
              else NoneGone(gone, Operands(instrs[i].op))
    {
      var x := instrs[i].id;
      assert IdAt(f, b, i, x);
      assert IsEffect(defs[x], nonEffect) ==> IsRoot(f, defs, nonEffect, x);
      assert x in w ==> ClosedAt(defs, w, x);
    }
    forall x | Ref(x) in TermReads(f.code[b].term) ensures x !in gone {
      assert ReadAtEnd(f, b, x);
      assert x in defs ==> IsRoot(f, defs, nonEffect, x);
    }
  }

  /** No operand of f2 refers to an instruction of f that is no longer there. */
  ghost predicate NoneDangling(f: Func, f2: Func) {
    && (forall b, i, x {:trigger Ref(x) in Operands(f2.code[b].instrs[i].op)} ::
          0 <= b < |f2.code| && 0 <= i < |f2.code[b].instrs| &&
          Ref(x) in Operands(f2.code[b].instrs[i].op) && IsInstr(f, x)
          ==> IsInstr(f2, x))
    && (forall b: Node, x {:trigger ReadAtEnd(f2, b, x)} :: ReadAtEnd(f2, b, x) && IsInstr(f, x) ==> IsInstr(f2, x))
  }

  lemma {:induction false} WithoutHolds(instrs: seq<Instr>, gone: set<Name>, ins: Instr)
    ensures ins in Without(instrs, gone) <==> ins in instrs && ins.id !in gone
  {
    if instrs != [] {
      var k := |instrs| - 1;
      WithoutHolds(instrs[..k], gone, ins);
      assert instrs == instrs[..k] + [instrs[k]];
    }
  }

  lemma MarkedStays(f: Func, f2: Func, defs: Defs, w: set<Name>, x: Name)
    requires DefsAre(f, defs) && IsSwept(f, f2, w) && x in w && IsInstr(f, x)
    ensures IsInstr(f2, x)
  {
    var b: Node, i: nat :| IdAt(f, b, i, x);
    var ins := f.code[b].instrs[i];
    assert f2.code[b].instrs == Without(f.code[b].instrs, Ids(f.code[b].instrs) - w);
    WithoutHolds(f.code[b].instrs, Ids(f.code[b].instrs) - w, ins);
    var j :| 0 <= j < |f2.code[b].instrs| && f2.code[b].instrs[j] == ins;
    assert IdAt(f2, b, j, x);
  }

  lemma SweptHasNoneDangling(f: Func, f2: Func, defs: Defs, nonEffect: set<nat>, w: set<Name>)
    requires DefsAre(f, defs) && IsMarked(f, defs, nonEffect, w) && IsSwept(f, f2, w)
    ensures NoneDangling(f, f2)
  {
    forall b, i, x | 0 <= b < |f2.code| && 0 <= i < |f2.code[b].instrs| &&
      Ref(x) in Operands(f2.code[b].instrs[i].op) && IsInstr(f, x)
      ensures IsInstr(f2, x)
    {
      var ins, instrs := f2.code[b].instrs[i], f.code[b].instrs;
      assert f2.code[b].instrs == Without(instrs, Ids(instrs) - w);
      WithoutHolds(instrs, Ids(instrs) - w, ins);
      var j :| 0 <= j < |instrs| && instrs[j] == ins;
      assert IdAt(f, b, j, ins.id) && ClosedAt(defs, w, ins.id);
      MarkedStays(f, f2, defs, w, x);
    }
    forall b: Node, x | ReadAtEnd(f2, b, x) && IsInstr(f, x) ensures IsInstr(f2, x) {
      assert f2.code[b].term == f.code[b].term && ReadAtEnd(f, b, x) && IsRoot(f, defs, nonEffect, x);
      MarkedStays(f, f2, defs, w, x);
    }
  }

  /** An instruction stays iff a chain of operands leads to it from where one starts. */
  ghost predicate KeepsNeeded(mod: Module, f: Func, f2: Func) {
    |f2.code| == |f.code| && forall b, ins {:trigger ins in f.code[b].instrs} {:trigger ins in f2.code[b].instrs} ::
      0 <= b < |f.code| ==> (ins in f2.code[b].instrs <==> ins in f.code[b].instrs && Needed(mod, f, ins.id))
  }

  lemma SweptKeepsNeeded(mod: Module, f: Func, f2: Func, defs: Defs, nonEffect: set<nat>, w: set<Name>)
    requires DefsAre(f, defs) && AreNonEffect(mod, nonEffect) && IsMarked(f, defs, nonEffect, w) && IsSwept(f, f2, w)
    ensures KeepsNeeded(mod, f, f2)
  {
    MarkedIff(mod, f, defs, nonEffect, w);
    forall b, ins | 0 <= b < |f.code|
      ensures ins in f2.code[b].instrs <==> ins in f.code[b].instrs && Needed(mod, f, ins.id)
    {
      var instrs := f.code[b].instrs;
      assert f2.code[b].instrs == Without(instrs, Ids(instrs) - w);
      WithoutHolds(instrs, Ids(instrs) - w, ins);
    }
  }

  // ------------------------------------------------------------------- the pass

  /** f2 is f cleaned: exactly the least marked set is kept. */
  ghost predicate IsCleaned(f: Func, f2: Func, nonEffect: set<nat>) {
    exists w :: IsMarked(f, DefsOf(f.code), nonEffect, w) && IsSwept(f, f2, w)
  }

  /** What cleaning promises for one function of the module: exactly the needed
      instructions stay, and every run is the same for as long as the calls it makes
      return. */
  ghost predicate IsFaithfulCleaning(mod: Module, f: Func, f2: Func) {
    && (forall s {:trigger AreNonEffect(mod, s)} :: AreNonEffect(mod, s) ==> IsCleaned(f, f2, s))
    && NoneDangling(f, f2) && KeepsNeeded(mod, f, f2)
    && (forall m, actuals, w, n {:trigger CallsReturn(mod, f, m, Start(actuals, w), n)} ::
          CallsReturn(mod, f, m, Start(actuals, w), n) ==>
          SameProgress(Run(f, m, Start(actuals, w), n), Run(f2, m, Start(actuals, w), n)))
  }

  lemma CleanedIsFaithful(mod: Module, f: Func, f2: Func, nonEffect: set<nat>, w: set<Name>)
    requires UniqueIds(f) && AreNonEffect(mod, nonEffect)
    requires IsMarked(f, DefsOf(f.code), nonEffect, w) && IsSwept(f, f2, w)
    ensures IsFaithfulCleaning(mod, f, f2)
  {
    var defs := DefsOf(f.code);
    DefsOfFunc(f);
    SweptIsSafe(f, f2, defs, nonEffect, w);
    SweptHasNoneDangling(f, f2, defs, nonEffect, w);
    SweptKeepsNeeded(mod, f, f2, defs, nonEffect, w);
    forall s | AreNonEffect(mod, s) ensures IsCleaned(f, f2, s) {
      assert forall c :: c in s <==> c in nonEffect;
      assert s == nonEffect;
    }
    forall m, actuals, world, n | CallsReturn(mod, f, m, Start(actuals, world), n)
      ensures SameProgress(Run(f, m, Start(actuals, world), n), Run(f2, m, Start(actuals, world), n))
    {
      SweptRuns(mod, f, f2, defs.Keys - w, nonEffect, m, Start(actuals, world), n);
    }
  }

  // ------------------------------------------------------ a callee that loops

  /** A function without store and call that never returns. */
  function Looping(): Func {
    Func({}, Cfg([[0]], [[0]]), [Code([], Jump(0))])
  }

  /** Calls function 1 and returns. */
  function Caller(): Func {
    Func({}, Cfg([[]], [[]]), [Code([Instr(0, Call(1, []))], Return(None))])
  }

  lemma {:induction false} LoopingRuns(m: Machine, st: State, n: nat)
    ensures Run(Looping(), m, At(0, st), n).At? && Run(Looping(), m, At(0, st), n).block == 0
  {
    if n > 0 {
      LoopingRuns(m, st, n - 1);
    }
  }

  /** No call of it returns. */
  lemma LoopingNeverReturns(m: Machine, vs: seq<Val>, w: World)
    ensures !CallReturns([Caller(), Looping()], m, 1, vs, w)
  {
    forall actuals, n: nat ensures Run(Looping(), m, Start(actuals, w), n).At? {
      LoopingRuns(m, State(actuals, map[], w), n);
    }
  }

  /** The call is dropped all the same; a machine on which it would do something tells the
      difference. */
  lemma LoopingCallIsDropped(f2: Func)
    requires IsFaithfulCleaning([Caller(), Looping()], Caller(), f2)
    ensures f2.code == [Code([], Return(None))] && exists m :: !SameRuns(Caller(), f2, m)
  {
    LoopingIsUnmarked(f2);
    var w := World(map[], []);
    var m := Machine((c, vs) => Undef, (v, w) => Undef, (v, u, w) => w, (n, vs, w) => (Undef, World(map[], [Undef])),
                     n => Undef);
    CallerRuns(m, w);
    assert Run(f2, m, Start(map[], w), 0) == At(0, State(map[], map[], w));
    assert Run(f2, m, Start(map[], w), 1) == Advance(f2, m, Run(f2, m, Start(map[], w), 0)) == Done(None, w);
    assert !SameProgress(Run(Caller(), m, Start(map[], w), 1), Run(f2, m, Start(map[], w), 1));
    assert !SameRuns(Caller(), f2, m);
  }

  lemma CallerRuns(m: Machine, w: World)
    ensures Run(Caller(), m, Start(map[], w), 1) == Done(None, m.call(1, [], w).1)
  {
    var c, ins := Start(map[], w), Instr(0, Call(1, []));
    assert Caller().code[0].instrs == [] + [ins];
    ExecSnoc(m, [], ins, c.st);
    assert Run(Caller(), m, c, 1) == Advance(Caller(), m, Run(Caller(), m, c, 0));
    assert Values(c.st.env, []) == [];
  }

  lemma LoopingIsUnmarked(f2: Func)
    requires IsFaithfulCleaning([Caller(), Looping()], Caller(), f2)
    ensures f2.code == [Code([], Return(None))]
  {
    var mod, f := [Caller(), Looping()], Caller();
    assert mod[0].code[0].instrs[0].op.Call?;
    assert AreNonEffect(mod, {1});
    var defs := DefsOf(f.code);
    var w :| IsMarked(f, defs, {1}, w) && IsSwept(f, f2, w);
    DefsOfFunc(f);
    assert IsClosed(defs, {}) && HoldsRoots(f, defs, {1}, {});
    assert w == {};
    var ins := f.code[0].instrs[0];
    assert f.code[0].instrs == [] + [ins];
    IdsSnoc([], ins);
    WithoutSnoc([], ins, Ids([ins]) - w);
    assert f2.code[0] == Code(Without([ins], Ids([ins]) - w), Return(None));
  }

  class DeadElimi {
    var nonEffect: set<nat>
    var worklist: set<Name>
    var removelist: set<Name>

    constructor ()
    {
      nonEffect, worklist, removelist := {}, {}, {};
    }

    /** The two inner loops of `get_non_effect_func` for one function. */
    static method HasNoEffect(f: Func) returns (r: bool)
      requires f.code != []
      ensures r <==> IsNonEffect(f)
    {
      r := true;
      for b := 0 to |f.code|
        invariant r <==> forall c, i {:trigger f.code[c].instrs[i]} :: 0 <= c < b && 0 <= i < |f.code[c].instrs| ==>
          !f.code[c].instrs[i].op.Store? && !f.code[c].instrs[i].op.Call?
      {
        var found := false;
        var instrs := f.code[b].instrs;
        for i := 0 to |instrs|
          invariant !found && forall j :: 0 <= j < i ==> !instrs[j].op.Store? && !instrs[j].op.Call?
        {
          if instrs[i].op.Store? || instrs[i].op.Call? {
            found := true;
            assert r ==> !(forall c, j {:trigger f.code[c].instrs[j]} ::
              0 <= c < b + 1 && 0 <= j < |f.code[c].instrs| ==>
              !f.code[c].instrs[j].op.Store? && !f.code[c].instrs[j].op.Call?);
            break;
          }
        }
        r := r && !found;
      }
    }

    /** `get_non_effect_func` */
    method GetNonEffectFunc(mod: Module)
      requires nonEffect == {}
      modifies this`nonEffect
      ensures AreNonEffect(mod, nonEffect)
    {
      for c := 0 to |mod|
        invariant forall d: nat {:trigger d in nonEffect} :: d in nonEffect <==> d < c && IsNonEffect(mod[d])
      {
        if mod[c].code != [] {
          var none := HasNoEffect(mod[c]);
          if none {
            nonEffect := nonEffect + {c};
          }
        }
      }
    }

    /** `mark` */
    method Mark(defs: Defs, x: Name)
      requires x in defs
      modifies this`worklist
      ensures MarkedFrom(defs, old(worklist), worklist, {x})
      decreases defs.Keys - worklist, 1
    {
      if x in worklist {
        return;
      }
      worklist := worklist + {x};
      MarkOperands(defs, Operands(defs[x]));
      MarkedWithOperands(defs, old(worklist), worklist, x);
    }

    /** The operand loop of `mark`. */
    method MarkOperands(defs: Defs, os: seq<Operand>)
      modifies this`worklist
      ensures MarkedFrom(defs, old(worklist), worklist, OperandDefs(defs, os, |os|))
      decreases defs.Keys - worklist, 2
    {
      MarkedNothing(defs, worklist);
      for k := 0 to |os|
        invariant MarkedFrom(defs, old(worklist), worklist, OperandDefs(defs, os, k))
      {
        if os[k].Ref? && os[k].name in defs {
          ghost var before := worklist;
          Mark(defs, os[k].name);
          MarkedTrans(defs, old(worklist), before, worklist, OperandDefs(defs, os, k), {os[k].name});
        }
      }
    }

    /** `is_effect` on instructions other than terminators. */
    method HasEffect(op: Op) returns (r: bool)
      ensures r <==> op.Store? || (op.Call? && op.callee !in nonEffect)
    {
      match op {
        case Store(_, _) => r := true;
        case Call(callee, _) => r := callee !in nonEffect;
        case _ => r := false;
      }
    }

    /** Marks the effects of one block; its terminator is one. */
    method MarkBlock(defs: Defs, c: Code)
      requires forall i :: 0 <= i < |c.instrs| ==> c.instrs[i].id in defs
      modifies this`worklist
      ensures MarkedFrom(defs, old(worklist), worklist, BlockRoots(defs, c, nonEffect))
    {
      MarkedNothing(defs, worklist);
      for k := 0 to |c.instrs|
        invariant MarkedFrom(defs, old(worklist), worklist, BodyRoots(c.instrs, k, nonEffect))
      {
        var effect := HasEffect(c.instrs[k].op);
        if effect {
          ghost var before := worklist;
          Mark(defs, c.instrs[k].id);
          MarkedTrans(defs, old(worklist), before, worklist, BodyRoots(c.instrs, k, nonEffect), {c.instrs[k].id});
        }
      }
      ghost var before := worklist;
      MarkOperands(defs, TermReads(c.term));
      MarkedTrans(defs, old(worklist), before, worklist, BodyRoots(c.instrs, |c.instrs|, nonEffect),
                  OperandDefs(defs, TermReads(c.term), |TermReads(c.term)|));
    }

    /** The first loop of `run` for one function. */
    method MarkAll(ghost mod: Module, f: Func, defs: Defs)
      requires DefsAre(f, defs) && worklist == {} && AreNonEffect(mod, nonEffect)
      modifies this`worklist
      ensures IsMarked(f, defs, nonEffect, worklist)
      ensures forall x {:trigger x in worklist} :: x in worklist <==> Needed(mod, f, x)
    {
      MarkedNothing(defs, worklist);
      for b := 0 to |f.code|
        invariant MarkedFrom(defs, {}, worklist, RootsTo(f, defs, b, nonEffect))
      {
        forall i | 0 <= i < |f.code[b].instrs| ensures f.code[b].instrs[i].id in defs {
          assert IdAt(f, b, i, f.code[b].instrs[i].id);
        }
        ghost var before := worklist;
        MarkBlock(defs, f.code[b]);
        MarkedTrans(defs, {}, before, worklist, RootsTo(f, defs, b, nonEffect), BlockRoots(defs, f.code[b], nonEffect));
      }
      MarkingEnds(f, defs, nonEffect, worklist);
      MarkedIff(mod, f, defs, nonEffect, worklist);
    }

    /** The second loop of `run`: per block, collect what is not marked and delete it. */
    method Sweep(f: Func) returns (f2: Func)
      modifies this`removelist
      ensures IsSwept(f, f2, worklist)
    {
      var code := [];
      for b := 0 to |f.code|
        invariant |code| == b
        invariant forall c :: 0 <= c < b ==>
          code[c] == Code(Without(f.code[c].instrs, Ids(f.code[c].instrs) - worklist), f.code[c].term)
      {
        removelist := {};
        var instrs := f.code[b].instrs;
        for i := 0 to |instrs|
          invariant removelist == Ids(instrs[..i]) - worklist
        {
          assert instrs[..i + 1] == instrs[..i] + [instrs[i]];
          IdsSnoc(instrs[..i], instrs[i]);
          if instrs[i].id !in worklist {
            removelist := removelist + {instrs[i].id};
          }
        }
        assert instrs[..|instrs|] == instrs;
        code := code + [Code(Without(instrs, removelist), f.code[b].term)];
      }
      f2 := f.(code := code);
    }

    /** The body of `run` for one function. */
    method Clean(ghost mod: Module, f: Func) returns (f2: Func)
      requires UniqueIds(f) && AreNonEffect(mod, nonEffect)
      modifies this`worklist, this`removelist
      ensures IsFaithfulCleaning(mod, f, f2)
    {
      worklist := {};
      DefsOfFunc(f);
      MarkAll(mod, f, DefsOf(f.code));
      f2 := Sweep(f);
      CleanedIsFaithful(mod, f, f2, nonEffect, worklist);
    }

    /** `DeadElimi::run` */
    method Run(mod: Module) returns (mod2: Module)
      requires nonEffect == {} && forall c :: 0 <= c < |mod| ==> UniqueIds(mod[c])
      modifies this
      ensures |mod2| == |mod| && forall c {:trigger mod2[c]} :: 0 <= c < |mod| ==>
        IsFaithfulCleaning(mod, mod[c], mod2[c])
    {
      GetNonEffectFunc(mod);
      mod2 := [];
      for c := 0 to |mod|
        invariant |mod2| == c && AreNonEffect(mod, nonEffect)
        invariant forall d {:trigger mod2[d]} :: 0 <= d < c ==> IsFaithfulCleaning(mod, mod[d], mod2[d])
      {
        var f2 := Clean(mod, mod[c]);
        mod2 := mod2 + [f2];
      }
    }
  }
}
