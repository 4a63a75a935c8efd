/** The live-variable pass for one function: use and def sets block by block, then
    sweeps over the blocks until no in-set grows. */
module ActiveVars {
  import opened Wrappers
  import opened Graphs
  import opened Ir
  import opened Scopes
  import opened Liveness
  import opened UseSets
  import opened LivenessSound
  import opened LivePaths

  class ActiveVars {
    var liveIn: seq<set<Name>>
    var liveOut: seq<set<Name>>

    constructor ()
    {
      liveIn, liveOut := [], [];
    }

    // ------------------------------------------------------ use and def sets

    static method CollectIds(instrs: seq<Instr>) returns (ids: set<Name>)
      ensures ids == Ids(instrs)
    {
      ids := {};
      for i := 0 to |instrs|
        invariant ids == Ids(instrs[..i])
      {
        assert instrs[..i + 1] == instrs[..i] + [instrs[i]];
        ids := ids + {instrs[i].id};
        IdsSnoc(instrs[..i], instrs[i]);
      }
      assert instrs[..|instrs|] == instrs;
    }

    /** `all_left_value` */
    static method CollectLeftValues(f: Func) returns (left: set<Name>)
      ensures left == LeftValues(f)
      ensures forall x :: x in left <==> x in f.args || exists b: Node, i: nat :: IdAt(f, b, i, x)
    {
      LeftValuesAre(f);
      left := {};
      for b := 0 to |f.code|
        invariant left == IdsOf(f.code[..b])
      {
        assert f.code[..b + 1][..b] == f.code[..b];
        var ids := CollectIds(f.code[b].instrs);
        left := left + ids;
      }
      assert f.code[..|f.code|] == f.code;
      left := left + f.args;
    }

    /** `get_operand(i)` of arithmetic and conversions: ok is false past the last operand. */
    static method LookAt(os: seq<Operand>, i: nat, def: set<Name>) returns (ok: bool, us: set<Use>)
      ensures ok <==> i < |os|
      ensures ok ==> us == TakeAt(os, i, def)
    {
      ok, us := i < |os|, {};
      if ok && os[i].Ref? && os[i].name !in def {
        us := {(os[i].name, None)};
      }
    }

    /** The two operands of pair i of a phi. */
    static method LookAtPair(pairs: seq<(Operand, Node)>, i: nat, def: set<Name>,
                             left: set<Name>) returns (ok: bool, us: set<Use>)
      ensures ok <==> i < |pairs|
      ensures ok ==> us == TakePair(pairs, i, def, left)
    {
      ok, us := i < |pairs|, {};
      if ok && pairs[i].0.Ref? && pairs[i].0.name !in def && pairs[i].0.name in left {
        us := {(pairs[i].0.name, Some(pairs[i].1))};
      }
    }

    /** The first n operands, one after the other. */
    static method LookAtFirst(os: seq<Operand>, n: nat, def: set<Name>) returns (ok: bool, us: set<Use>)
      ensures ok <==> n <= |os|
      ensures ok ==> us == TakeAll(os[..n], def)
    {
      ok, us := true, {};
      for i := 0 to n
        invariant i <= |os| && us == TakeAll(os[..i], def)
      {
        var u;
        ok, u := LookAt(os, i, def);
        if !ok {
          return;
        }
        assert os[..i + 1][..i] == os[..i];
        us := us + u;
      }
    }

    /** A gep with two operands or with three; the index of the former stands for its base. */
    static method LookAtGep(args: seq<Operand>, def: set<Name>) returns (us: set<Use>)
      ensures us == TakeGep(args, def)
    {
      us := {};
      if |args| == 2 {
        var ok, base := LookAt(args, 0, def);
        us := base;
        if args[1].Ref? && args[1].name !in def && args[0].Ref? {
          us := us + {(args[0].name, None)};
        }
      } else if |args| == 3 {
        var ok, base := LookAt(args, 0, def);
        var ok2, index := LookAt(args, 2, def);
        us := base + index;
      }
    }

    /** The cases of the instruction loop. ok is false where an operand is asked for that the
        instruction does not have. */
    static method RecordUses(op: Op, def: set<Name>, left: set<Name>) returns (ok: bool, us: set<Use>)
      ensures ok <==> HasAsked(op)
      ensures ok ==> us == OpUses(op, def, left)
    {
      ok, us := true, {};
      TakeFirst(Operands(op), def);
      match op {
        case Phi(_, pairs) =>
          ok, us := LookAtPair(pairs, 0, def, left);
          if ok {
            var more;
            ok, more := LookAtPair(pairs, 1, def, left);
            us := us + more;
          }
        case Load(a) => ok, us := LookAtFirst([AddressOperand(a)], 1, def);
        case Store(val, a) => ok, us := LookAtFirst([val, AddressOperand(a)], 2, def);
        case Calc(Binary(_), args) => ok, us := LookAtFirst(args, 2, def);
        case Calc(Compare(_), args) => ok, us := LookAtFirst(args, 2, def);
        case Calc(Gep, args) => us := LookAtGep(args, def);
        case Calc(Zext, args) =>
          if |args| > 0 {
            ok, us := LookAtFirst(args, 1, def);
          }
        case Calc(_, args) => ok, us := LookAtFirst(args, 1, def);
        case Call(_, args) => ok, us := LookAtFirst(args, |args|, def);
        case Alloca(_) =>
      }
    }

    /** The instruction loop for one block. ok is false where it would read past the
        operands of an instruction. */
    static method BlockSets(c: Code, left: set<Name>) returns (ok: bool, use: set<Use>, def: set<Name>)
      ensures ok <==> AllHaveAsked(c.instrs, |c.instrs|)
      ensures ok ==> use == BlockUses(c, left) && def == Ids(c.instrs)
    {
      ok, use, def := true, {}, {};
      for k := 0 to |c.instrs|
        invariant SetsAt(c.instrs, k, left, use, def)
      {
        SetsStep(c.instrs, k, left, use, def);
        def := def + {c.instrs[k].id};
        var more;
        ok, more := RecordUses(c.instrs[k].op, def, left);
        if !ok {
          return;
        }
        use := use + more;
      }
      assert c.instrs[..|c.instrs|] == c.instrs;
      use := use + TermUses(c.term, def);
    }

    static method Collect(f: Func) returns (ok: bool, p: Flow)
      requires |f.code| == |f.cfg.succs|
      ensures ok <==> ReadsInBounds(f)
      ensures ok ==> p == FlowOf(f)
    {
      p := Flow(f.cfg.succs, [], []);
      var useB: Sets, defB: seq<set<Name>> := [], [];
      for b := 0 to |f.code|
        invariant |useB| == |defB| == b
        invariant forall c {:trigger f.code[c]} :: 0 <= c < b ==> AllHaveAsked(f.code[c].instrs, |f.code[c].instrs|)
        invariant forall c :: 0 <= c < b ==>
          useB[c] == BlockUses(f.code[c], LeftValues(f)) && defB[c] == Ids(f.code[c].instrs)
      {
        var left := CollectLeftValues(f);
        var use, def;
        ok, use, def := BlockSets(f.code[b], left);
        if !ok {
          return;
        }
        useB, defB := useB + [use], defB + [def];
      }
      ok, p := true, Flow(f.cfg.succs, useB, defB);
    }

    // ----------------------------------------------------------- the sweeps

    /** What the successors of b ask for at its end. */
    static method CollectOut(p: Flow, ins: Sets, outs0: Sets, b: Node) returns (outs: Sets)
      requires Partial(p, ins, outs0) && b < |p.succs|
      ensures Partial(p, ins, outs)
      ensures forall c :: 0 <= c < |outs| && c != b ==> outs[c] == outs0[c]
      ensures forall s {:trigger Arc(p, b, s)} :: Arc(p, b, s) ==> OutHolds(p, ins, outs, b, s)
    {
      outs := outs0;
      for i := 0 to |p.succs[b]|
        invariant Partial(p, ins, outs)
        invariant forall c :: 0 <= c < |outs| && c != b ==> outs[c] == outs0[c]
        invariant forall j :: 0 <= j < i ==> OutHolds(p, ins, outs, b, p.succs[b][j])
      {
        var s := p.succs[b][i];
        var todo := ins[s];
        while todo != {}
          invariant todo <= ins[s] && Partial(p, ins, outs)
          invariant forall c :: 0 <= c < |outs| && c != b ==> outs[c] == outs0[c]
          invariant forall j :: 0 <= j < i ==> OutHolds(p, ins, outs, b, p.succs[b][j])
          invariant forall u :: u in ins[s] - todo ==> Carried(u, b) <= outs[b]
          decreases todo
        {
          var u :| u in todo;
          assert Arc(p, b, s);
          OutGrows(p, ins, outs, b, s, u);
          if u.1 == None {
            outs := outs[b := outs[b] + {u}];
          } else if u.1 == Some(b) {
            outs := outs[b := outs[b] + {(u.0, None)}];
          }
          assert outs[b] == outs[b] + Carried(u, b);
          todo := todo - {u};
        }
      }
    }

    /** Adds to the in-set of b its uses, then what is live at its end and not defined. */
    static method GrowIn(p: Flow, ins0: Sets, outs: Sets, b: Node, flag0: bool) returns (ins: Sets, flag: bool)
      requires Partial(p, ins0, outs) && b < |p.succs|
      ensures Partial(p, ins, outs) && InHolds(p, ins, outs, b)
      ensures flag ==> flag0 && ins == ins0
      ensures Missing(p, ins) <= Missing(p, ins0) && (flag0 && !flag ==> Missing(p, ins) < Missing(p, ins0))
    {
      ins, flag := AddAll(p, ins0, outs, b, p.use[b], flag0);
      ins, flag := AddAll(p, ins, outs, b, (set u | u in outs[b] && u.0 !in p.def[b]), flag);
    }

    /** Inserts the pairs of `more` one by one, noting whether any was missing. */
    static method AddAll(p: Flow, ins0: Sets, ghost outs: Sets, b: Node, more: set<Use>,
                         flag0: bool) returns (ins: Sets, flag: bool)
      requires Partial(p, ins0, outs) && b < |p.succs|
      requires forall u :: u in more ==> u in p.use[b] || (u in outs[b] && u.0 !in p.def[b])
      ensures Partial(p, ins, outs) && ins == ins0[b := ins0[b] + more]
      ensures flag ==> flag0 && ins == ins0
      ensures Missing(p, ins) <= Missing(p, ins0) && (flag0 && !flag ==> Missing(p, ins) < Missing(p, ins0))
    {
      ins, flag := ins0, flag0;
      var todo := more;
      ghost var seen: set<Use> := {};
      assert ins0[b] + seen == ins0[b] && ins0[b := ins0[b]] == ins0;
      while todo != {}
        invariant todo <= more && seen == more - todo && Partial(p, ins, outs) && ins == ins0[b := ins0[b] + seen]
        invariant flag ==> flag0 && ins == ins0
        invariant Missing(p, ins) <= Missing(p, ins0) && (flag0 && !flag ==> Missing(p, ins) < Missing(p, ins0))
        decreases todo
      {
        var u :| u in todo;
        PairAdded(p, ins0, seen, outs, b, u);
        if u !in ins[b] {
          ins, flag := ins[b := ins[b] + {u}], false;
        }
        todo, seen := todo - {u}, seen + {u};
      }
      assert seen == more;
    }

    /** One pass over all blocks. */
    static method Sweep(p: Flow, ins0: Sets, outs0: Sets) returns (ins: Sets, outs: Sets, flag: bool)
      requires Partial(p, ins0, outs0)
      ensures Partial(p, ins, outs)
      ensures if flag then IsLeast(p, ins, outs) else Missing(p, ins) < Missing(p, ins0)
    {
      ins, outs, flag := ins0, outs0, true;
      for b := 0 to |p.succs|
        invariant Partial(p, ins, outs) && Missing(p, ins) <= Missing(p, ins0)
        invariant if flag then ins == ins0 && SweptTo(p, ins, outs, b) else Missing(p, ins) < Missing(p, ins0)
      {
        ghost var before, flagBefore := outs, flag;
        outs := CollectOut(p, ins, outs, b);
        ins, flag := GrowIn(p, ins, outs, b, flag);
        if flag {
          SweptOneMore(p, ins, before, outs, b);
        }
      }
      if flag {
        SweepEnds(p, ins, outs);
      }
    }

    /** The `while` loop: sweeps until no in-set grew. */
    static method Solve(p: Flow) returns (ins: Sets, outs: Sets)
      requires ValidFlow(p)
      ensures IsLeast(p, ins, outs)
    {
      ins := seq(|p.succs|, i => {});
      outs := ins;
      PartialStarts(p, ins);
      var flag := false;
      while !flag
        invariant Partial(p, ins, outs) && (flag ==> IsLeast(p, ins, outs))
        decreases !flag, Missing(p, ins)
      {
        ins, outs, flag := Sweep(p, ins, outs);
      }
    }

    static method Firsts(us: set<Use>) returns (r: set<Name>)
      ensures r == Names(us)
    {
      r := {};
      var todo := us;
      while todo != {}
        invariant todo <= us && r == Names(us - todo)
        decreases todo
      {
        var u :| u in todo;
        NamesAdd(us - todo, u);
        r := r + {u.0};
        todo := todo - {u};
        assert us - todo == us - (todo + {u}) + {u};
      }
      assert us - todo == us;
    }

    /** `ActiveVars::run` for one function: a value is live at the end of a block iff some
        path from there reads it before any block on the way defines it. ok is false where
        the pass would read past the operands of an instruction. */
    method Run(f: Func) returns (ok: bool)
      requires ValidFunc(f)
      modifies this
      ensures ok <==> ReadsInBounds(f)
      ensures ok <==> forall b, k {:trigger f.code[b].instrs[k]} :: 0 <= b < |f.code| && 0 <= k < |f.code[b].instrs| ==>
        var op := f.code[b].instrs[k].op;
        && (op.Phi? ==> |op.pairs| >= 2)
        && (op.Calc? && (op.opcode.Binary? || op.opcode.Compare?) ==> |op.args| >= 2)
        && (op.Calc? && (op.opcode.FpToSi? || op.opcode.SiToFp?) ==> |op.args| >= 1)
      ensures ok ==> |liveIn| == |liveOut| == |f.code| && ValidFlow(FlowOf(f))
      ensures ok ==> forall b: Node, v {:trigger v in liveOut[b]} :: b < |f.code| ==>
        (v in liveOut[b] <==> LiveAfter(FlowOf(f), v, b))
      ensures ok ==> forall b: Node, v {:trigger v in liveIn[b]} :: b < |f.code| ==>
        (v in liveIn[b] <==> v in Names(FlowOf(f).use[b]) || (v !in FlowOf(f).def[b] && LiveAfter(FlowOf(f), v, b)))
      ensures Recorded(f) ==> ok && Suffices(f, liveOut) && forall b: Node, v {:trigger v in liveOut[b]} ::
        b < |f.code| ==> (v in liveOut[b] <==> ReadLater(f, v, b))
    {
      var p;
      ok, p := Collect(f);
      RecordedInBounds(f);
      if !ok {
        return;
      }
      FlowIsValid(f);
      var ins, outs := Solve(p);
      liveIn, liveOut := [], [];
      for b := 0 to |f.code|
        invariant |liveIn| == |liveOut| == b
        invariant forall c :: 0 <= c < b ==> liveIn[c] == Names(ins[c]) && liveOut[c] == Names(outs[c])
      {
        var i := Firsts(ins[b]);
        var o := Firsts(outs[b]);
        liveIn, liveOut := liveIn + [i], liveOut + [o];
      }
      forall b: Node, v | b < |f.code| ensures v in liveOut[b] <==> LiveAfter(p, v, b) {
        LeastIsPaths(p, ins, outs, b, v);
      }
      if Recorded(f) {
        forall b: Node, v ensures LiveAfter(p, v, b) <==> ReadLater(f, v, b) {
          LiveAfterIff(f, v, b);
        }
        LiveOutSuffices(f, ins, outs, liveOut);
      }
      forall b: Node, v | b < |f.code|
        ensures v in liveIn[b] <==> v in Names(p.use[b]) || (v !in p.def[b] && LiveAfter(p, v, b))
      {
        LiveInIsPaths(p, ins, outs, b, v);
      }
    }
  }

  lemma MissingPairAdded(p: Flow, ins: Sets, outs: Sets, b: Node, u: Use)
    requires Partial(p, ins, outs) && b < |ins| && (u in p.use[b] || (u in outs[b] && u.0 !in p.def[b])) && u !in ins[b]
    ensures Partial(p, ins[b := ins[b] + {u}], outs)
    ensures Missing(p, ins[b := ins[b] + {u}]) < Missing(p, ins)
  {
    InUniverse(p, ins, outs, b, u);
    InGrows(p, ins, outs, b, u);
    MissingDrops(Universe(p), ins, b, u);
  }

  /** The step of inserting u into the in-set of b, where `seen` was inserted before. */
  lemma PairAdded(p: Flow, ins0: Sets, seen: set<Use>, outs: Sets, b: Node, u: Use)
    requires b < |ins0| && Partial(p, ins0[b := ins0[b] + seen], outs)
    requires u in p.use[b] || (u in outs[b] && u.0 !in p.def[b])
    ensures var ins, ins2 := ins0[b := ins0[b] + seen], ins0[b := ins0[b] + (seen + {u})];
      && (u in ins[b] ==> ins2 == ins)
      && (u !in ins[b] ==> ins2 == ins[b := ins[b] + {u}] && Partial(p, ins2, outs))
      && (u !in ins[b] ==> Missing(p, ins2) < Missing(p, ins))
  {
    var ins := ins0[b := ins0[b] + seen];
    assert ins[b] + {u} == ins0[b] + (seen + {u});
    if u !in ins[b] {
      MissingPairAdded(p, ins, outs, b, u);
    } else {
      assert ins[b] + {u} == ins[b];
    }
  }

  lemma NamesAdd(us: set<Use>, u: Use)
    ensures Names(us + {u}) == Names(us) + {u.0}
  {
    forall x ensures x in Names(us + {u}) <==> x in Names(us) || x == u.0 {
      if x in Names(us) {
        var w :| w in us && w.0 == x;
        assert w in us + {u};
      }
      assert u in us + {u};
    }
  }

  lemma {:induction false} IdsOfAre(code: seq<Code>, x: Name)
    ensures x in IdsOf(code) <==>
      exists b: Node, i: nat :: b < |code| && i < |code[b].instrs| && code[b].instrs[i].id == x
  {
    if code != [] {
      var k := |code| - 1;
      IdsOfAre(code[..k], x);
      if x in Ids(code[k].instrs) {
        var i :| 0 <= i < |code[k].instrs| && code[k].instrs[i].id == x;
      }
    }
  }

  lemma LeftValuesAre(f: Func)
    ensures forall x :: x in LeftValues(f) <==> x in f.args || exists b: Node, i: nat :: IdAt(f, b, i, x)
  {
    forall x ensures x in IdsOf(f.code) <==> exists b: Node, i: nat :: IdAt(f, b, i, x) {
      IdsOfAre(f.code, x);
      if x in IdsOf(f.code) {
        var b: Node, i: nat :| b < |f.code| && i < |f.code[b].instrs| && f.code[b].instrs[i].id == x;
        assert IdAt(f, b, i, x);
      }
    }
  }

  /** Where every use is recorded, nothing is read past its operands. */
  lemma RecordedInBounds(f: Func)
    ensures Recorded(f) ==> ReadsInBounds(f)
  {
    if Recorded(f) {
      forall b: Node, k: nat | b < |f.code| && k < |f.code[b].instrs| ensures HasAsked(f.code[b].instrs[k].op) {
        assert RecordedAt(f, b, k);
      }
    }
  }

  lemma FlowIsValid(f: Func)
    requires ValidFunc(f)
    ensures ValidFlow(FlowOf(f))
  {
    forall b, i | 0 <= b < |f.cfg.succs| && 0 <= i < |f.cfg.succs[b]| ensures f.cfg.succs[b][i] < |f.cfg.succs| {
      assert f.cfg.succs[b][i] in f.cfg.succs[b];
    }
  }

  lemma SweptOneMore(p: Flow, ins: Sets, before: Sets, outs: Sets, b: Node)
    requires ValidFlow(p) && Fits(p, ins) && Fits(p, before) && Fits(p, outs) && b < |p.succs|
    requires SweptTo(p, ins, before, b) && InHolds(p, ins, outs, b)
    requires forall c :: 0 <= c < |outs| && c != b ==> outs[c] == before[c]
    requires forall s {:trigger Arc(p, b, s)} :: Arc(p, b, s) ==> OutHolds(p, ins, outs, b, s)
    ensures SweptTo(p, ins, outs, b + 1)
  {
    forall c: Node, s: Node | c < b + 1 && Arc(p, c, s) ensures s < |ins| && OutHolds(p, ins, outs, c, s) {
      ArcInRange(p, c, s);
      assert c < b ==> OutHolds(p, ins, before, c, s) && outs[c] == before[c];
    }
    forall c | 0 <= c < b + 1 && c < |ins| ensures InHolds(p, ins, outs, c) {
      assert c < b ==> InHolds(p, ins, before, c) && outs[c] == before[c];
    }
  }

  lemma LiveInIsPaths(p: Flow, ins: Sets, outs: Sets, b: Node, v: Name)
    requires ValidFlow(p) && IsLeast(p, ins, outs) && b < |ins|
    ensures v in Names(ins[b]) <==> v in Names(p.use[b]) || (v !in p.def[b] && LiveAfter(p, v, b))
  {
    PathsAreSolution(p);
    LeastIsPaths(p, ins, outs, b, v);
    assert InHolds(p, ins, outs, b) && Below(p, ins, PathIns(p));
    assert ins[b] <= PathIns(p)[b];
    if v in Names(ins[b]) {
      var u :| u in ins[b] && u.0 == v;
      assert u in PathIn(p, b);
    }
    if v in Names(p.use[b]) {
      var u :| u in p.use[b] && u.0 == v;
      assert u in ins[b];
    }
    if v in Names(outs[b]) && v !in p.def[b] {
      var u :| u in outs[b] && u.0 == v;
      assert u in ins[b];
    }
  }

  /** What the instruction loop has collected before instruction k. */
  ghost predicate SetsAt(instrs: seq<Instr>, k: nat, left: set<Name>, use: set<Use>, def: set<Name>) {
    k <= |instrs| && use == BodyUses(instrs, k, left) && def == Ids(instrs[..k]) && AllHaveAsked(instrs, k)
  }

  lemma SetsStep(instrs: seq<Instr>, k: nat, left: set<Name>, use: set<Use>, def: set<Name>)
    requires k < |instrs| && SetsAt(instrs, k, left, use, def)
    ensures var d := def + {instrs[k].id};
      HasAsked(instrs[k].op) ==> SetsAt(instrs, k + 1, left, use + OpUses(instrs[k].op, d, left), d)
  {
    assert instrs[..k + 1] == instrs[..k] + [instrs[k]];
    IdsSnoc(instrs[..k], instrs[k]);
  }
}
