/** Mem2Reg preserves meaning: the promoted function runs in lockstep with the
    original one, block by block, on every machine and for every number of steps. */
module MeaningPreserved {
  import opened Wrappers
  import opened Graphs
  import opened ControlFlow
  import opened DomTree
  import opened Frontiers
  import opened Ir
  import opened Scopes
  import opened Promotion

  /** Entering s from p, before the phis: names of variables without a phi in s carry over. */
  lemma EdgeSim(t: Ssa, p: Node, s: Node, o: State, n: State)
    requires ValidSsa(t) && OperandsAvailable(t) && PhisComplete(t)
    requires p in t.up && s in t.up && s != ENTRY && Edge(t.f.cfg.Edges(), p, s)
    requires Rel(ScopeOut(t, p), [], o, n)
    ensures Rel(ScopeIn(t, s), InstrsOf(t.f, s), o, n)
  {
    var u, sc, out := Up(t.up, s), ScopeIn(t, s), ScopeOut(t, p);
    IdomAbovePred(t.f.cfg.Edges(), t.id, t.up, p, s);
    GrowsDownTree(t, u, p);
    assert sc == ScopeOut(t, u);
    forall v | !HasPhi(InstrsOf(t.f, s), v) ensures CellRel(sc, v, o, n) {
      EdgeConsistency(t, p, s, v);
      assert CellRel(out, v, o, n);
    }
    forall x | x in sc.vals ensures Read(o.env, x) == Value(n.env, Resolve(sc.sub, Ref(x))) {
      EdgeResolves(t, p, u, x);
    }
  }

  lemma EdgeResolves(t: Ssa, p: Node, u: Node, x: Name)
    requires ValidSsa(t) && OperandsAvailable(t) && p in t.up && u in t.up
    requires Grows(ScopeOut(t, u), ScopeOut(t, p)) && x in ScopeOut(t, u).vals
    ensures x in ScopeOut(t, p).vals
    ensures Resolve(ScopeOut(t, u).sub, Ref(x)) == Resolve(ScopeOut(t, p).sub, Ref(x))
  {
    var n := |InstrsOf(t.f, p)|;
    ScopeTidy(t, u, |InstrsOf(t.f, u)|, |InstrsOf(t.f, u)|);
    if x in ScopeOut(t, p).sub {
      SubIsReplaced(t, p, n, n, x);
      var o := ScopeOut(t, p).sub[x];
      var c, i :| ReplacedAt(t, c, i, x, o);
      ReplacedKnown(t, u, |InstrsOf(t.f, u)|, c, i, x, o);
    }
  }

  /** A promoted phi gives its variable a name that equals the cell. */
  lemma PushSim(sc: Scope, ins: Instr, rest: seq<Instr>, o: State, n: State, val: Val)
    requires ins.op.Phi? && Rel(sc, [ins] + rest, o, n) && Tidy(sc) && ins.id !in sc.avail
    requires val == Read(o.cells, ins.op.slot)
    ensures Rel(sc.(cur := sc.cur[ins.op.slot := Ref(ins.id)], avail := sc.avail + {ins.id}), rest,
                o, n.(env := n.env[ins.id := val]))
  {
    var v, x := ins.op.slot, ins.id;
    var sc2, n2 := sc.(cur := sc.cur[v := Ref(x)], avail := sc.avail + {x}), n.(env := n.env[x := val]);
    forall u | !HasPhi(rest, u) ensures CellRel(sc2, u, o, n2) {
      if u != v {
        HasPhiCons(ins, rest, u);
        assert CellRel(sc, u, o, n);
      }
    }
  }

  lemma SkipSim(sc: Scope, ins: Instr, rest: seq<Instr>, o: State, n: State)
    requires !ins.op.Phi? && Rel(sc, [ins] + rest, o, n)
    ensures Rel(sc, rest, o, n)
  {
    forall u | !HasPhi(rest, u) ensures CellRel(sc, u, o, n) {
      HasPhiCons(ins, rest, u);
    }
  }

  ghost function PhisDone(t: Ssa, sigma: map<Name, Operand>, fills: Fills, s: Node, j: nat, p: Node, n: State): State
    requires Climbs(t.up, t.id) && j <= |InstrsOf(t.f, s)|
  {
    n.(env := PhiEnv(Render(t, Final, sigma, fills, s, InstrsOf(t.f, s)[..j]), p, n.env))
  }

  /** The promoted phis of s run on the edge from p, one after the other. */
  lemma {:induction false} PhisSim(t: Ssa, sigma: map<Name, Operand>, fills: Fills, p: Node, s: Node, j: nat, o: State,
                                   n: State)
    requires ValidSsa(t) && OperandsAvailable(t) && PhisComplete(t)
    requires p in t.up && s in t.up && s != ENTRY && Edge(t.f.cfg.Edges(), p, s) && (p, s) in fills
    requires Rel(ScopeOut(t, p), [], o, n) && j <= |InstrsOf(t.f, s)|
    ensures Rel(Point(t, s, j, 0), InstrsOf(t.f, s)[j..], o, PhisDone(t, sigma, fills, s, j, p, n))
  {
    var instrs := InstrsOf(t.f, s);
    if j == 0 {
      EdgeSim(t, p, s, o, n);
      assert instrs[0..] == instrs && instrs[..0] == [];
    } else {
      PhisSim(t, sigma, fills, p, s, j - 1, o, n);
      PhiSimStep(t, sigma, fills, p, s, j - 1, o, n);
    }
  }

  /** One more phi done on the edge. */
  lemma PhisDoneStep(t: Ssa, sigma: map<Name, Operand>, fills: Fills, s: Node, j: nat, p: Node, n: State)
    requires Climbs(t.up, t.id) && j < |InstrsOf(t.f, s)|
    ensures var ins, nj := InstrsOf(t.f, s)[j], PhisDone(t, sigma, fills, s, j, p, n);
      PhisDone(t, sigma, fills, s, j + 1, p, n) ==
        if ins.op.Phi? then nj.(env := nj.env[ins.id := PhiValue(PairsFor(t, fills, s, ins.op.slot), p, n.env)]) else nj
  {
    var instrs := InstrsOf(t.f, s);
    var ins := instrs[j];
    var before := Render(t, Final, sigma, fills, s, instrs[..j]);
    RenderPrefix(t, Final, sigma, fills, s, instrs, j);
    PhiEnvSnoc(before, RenderInstr(t, sigma, fills, s, ins), p, n.env);
    assert Dropped(Final, sigma, ins) ==> Render(t, Final, sigma, fills, s, instrs[..j + 1]) == before;
  }

  lemma PhiSimStep(t: Ssa, sigma: map<Name, Operand>, fills: Fills, p: Node, s: Node, j: nat, o: State, n: State)
    requires ValidSsa(t) && OperandsAvailable(t)
    requires p in t.up && s in t.up && (p, s) in fills
    requires Rel(ScopeOut(t, p), [], o, n) && j < |InstrsOf(t.f, s)|
    requires Rel(Point(t, s, j, 0), InstrsOf(t.f, s)[j..], o, PhisDone(t, sigma, fills, s, j, p, n))
    ensures Rel(Point(t, s, j + 1, 0), InstrsOf(t.f, s)[j + 1..], o, PhisDone(t, sigma, fills, s, j + 1, p, n))
  {
    var instrs := InstrsOf(t.f, s);
    var ins, sc, nj := instrs[j], Point(t, s, j, 0), PhisDone(t, sigma, fills, s, j, p, n);
    PhisDoneStep(t, sigma, fills, s, j, p, n);
    assert instrs[j..] == [ins] + instrs[j + 1..];
    if ins.op.Phi? {
      var v := ins.op.slot;
      PhiTakesName(t, fills, p, s, v, n.env);
      assert CellRel(ScopeOut(t, p), v, o, n);
      FreshAt(t, s, j, 0, j);
      ScopeTidy(t, s, j, 0);
      PushSim(sc, ins, instrs[j + 1..], o, nj, Read(o.cells, v));
    } else {
      SkipSim(sc, ins, instrs[j + 1..], o, nj);
    }
  }

  /** The two runs are at the same block with matching states, or have returned alike. */
  ghost predicate Matches(t: Ssa, c: Config, c2: Config)
    requires Climbs(t.up, t.id)
  {
    match c
    case Done(_, _) => c2 == c
    case At(b, o) => c2.At? && c2.block == b && b in t.up && Rel(ScopeAt(t, b, 0), [], o, c2.st)
  }

  /** f2 is what Mem2Reg makes of f0, by way of t.f, f0 with its phis placed. */
  ghost predicate Promotes(f0: Func, t: Ssa, f2: Func, sigma: map<Name, Operand>, fills: Fills) {
    && ValidSsa(t) && OperandsAvailable(t) && PhisComplete(t) && PhisPlaced(f0, t.f) && ValidFunc(f0)
    && IsPromoted(t, f2, sigma, fills)
    && f0.cfg.preds[ENTRY] == [] && (forall v :: !HasPhi(InstrsOf(t.f, ENTRY), v))
  }

  lemma {:induction false} ExecSkipsPhis(m: Machine, phis: seq<Instr>, body: seq<Instr>, st: State)
    requires forall i :: 0 <= i < |phis| ==> phis[i].op.Phi?
    ensures Exec(m, phis + body, st) == Exec(m, body, st)
    decreases |phis| + |body|
  {
    if body != [] {
      var k := |body| - 1;
      assert (phis + body)[..|phis + body| - 1] == phis + body[..k];
      ExecSkipsPhis(m, phis, body[..k], st);
    } else if phis != [] {
      var k := |phis| - 1;
      assert phis + body == phis && phis[..k] + [] == phis[..k];
      ExecSkipsPhis(m, phis[..k], [], st);
    }
  }

  lemma {:induction false} NoPhisKeepEnv(instrs: seq<Instr>, p: Node, env: map<Name, Val>)
    requires forall i :: 0 <= i < |instrs| ==> !instrs[i].op.Phi?
    ensures PhiEnv(instrs, p, env) == env
  {
    if instrs != [] {
      NoPhisKeepEnv(instrs[..|instrs| - 1], p, env);
    }
  }

  lemma EnterMatches(f0: Func, t: Ssa, f2: Func, sigma: map<Name, Operand>, fills: Fills, p: Node, s: Node, o: State,
                     n: State)
    requires Promotes(f0, t, f2, sigma, fills) && p in t.up && Edge(t.f.cfg.Edges(), p, s)
    requires Rel(ScopeOut(t, p), [], o, n)
    ensures Matches(t, Enter(f0, p, s, o), Enter(f2, p, s, n))
  {
    var gr := t.f.cfg.Edges();
    var len := |InstrsOf(t.f, s)|;
    f0.cfg.EdgeLists(p, s);
    assert Reaches(gr, ENTRY, p);
    ReachesStep(gr, ENTRY, p, s);
    assert (p, s) in fills;
    PhisSim(t, sigma, fills, p, s, len, o, n);
    assert InstrsOf(t.f, s)[len..] == [] && InstrsOf(t.f, s)[..len] == InstrsOf(t.f, s);
    assert f2.code[s].instrs == Render(t, Final, sigma, fills, s, t.f.code[s].instrs);
    SameTerm(f0, t.f, s);
    PhisSplit(f0, t.f, s);
    NoPhisKeepEnv(f0.code[s].instrs, p, o.env);
  }

  lemma AdvanceMatches(f0: Func, t: Ssa, f2: Func, sigma: map<Name, Operand>, fills: Fills, m: Machine, b: Node,
                       o: State, n: State)
    requires Promotes(f0, t, f2, sigma, fills) && b in t.up && Rel(ScopeAt(t, b, 0), [], o, n)
    ensures Matches(t, Advance(f0, m, At(b, o)), Advance(f2, m, At(b, n)))
  {
    var instrs := t.f.code[b].instrs;
    var k := |instrs| - |f0.code[b].instrs|;
    PhisSplit(f0, t.f, b);
    ExecSkipsPhis(m, instrs[..k], f0.code[b].instrs, o);
    BodySim(t, m, sigma, fills, b, |instrs|, o, n);
    assert instrs[..|instrs|] == instrs;
    LeaveMatches(f0, t, f2, sigma, fills, b, Exec(m, instrs, o), Exec(m, f2.code[b].instrs, n));
  }

  lemma LeaveMatches(f0: Func, t: Ssa, f2: Func, sigma: map<Name, Operand>, fills: Fills, b: Node, o: State, n: State)
    requires Promotes(f0, t, f2, sigma, fills) && b in t.up && b < |t.f.code| && Rel(ScopeOut(t, b), [], o, n)
    ensures Matches(t, Leave(f0, b, f0.code[b].term, o), Leave(f2, b, f2.code[b].term, n))
  {
    var term := f0.code[b].term;
    SameTerm(f0, t.f, b);
    assert t.f.code[b].term == term && f2.code[b].term == SubstTerm(sigma, term);
    SigmaAgrees(t, sigma, b, |InstrsOf(t.f, b)|);
    forall x | Ref(x) in TermReads(term) ensures x in ScopeOut(t, b).vals {
      assert ReadAtEnd(t.f, b, x);
    }
    LeaveFollowsEdge(f0, b, o);
    match term {
      case Jump(s) =>
        EnterMatches(f0, t, f2, sigma, fills, b, s, o, n);
      case Branch(cond, s1, s2) =>
        assert cond in TermReads(term);
        OperandSim(ScopeOut(t, b), sigma, o, n, cond);
        EnterMatches(f0, t, f2, sigma, fills, b, if Truthy(Value(o.env, cond)) then s1 else s2, o, n);
      case Return(None) =>
      case Return(Some(val)) =>
        assert val in TermReads(term);
        OperandSim(ScopeOut(t, b), sigma, o, n, val);
    }
  }

  lemma StartMatches(f0: Func, t: Ssa, f2: Func, sigma: map<Name, Operand>, fills: Fills, actuals: map<Name, Val>,
                     w: World)
    requires Promotes(f0, t, f2, sigma, fills)
    ensures Matches(t, Start(actuals, w), Start(actuals, w))
  {
    var st := State(actuals, map[], w);
    EntryScope(t, |InstrsOf(t.f, ENTRY)|);
    forall v ensures CellRel(ScopeAt(t, ENTRY, 0), v, st, st) {}
  }

  lemma {:induction false} EntryScope(t: Ssa, j: nat)
    requires Climbs(t.up, t.id) && j <= |InstrsOf(t.f, ENTRY)| && (forall v :: !HasPhi(InstrsOf(t.f, ENTRY), v))
    ensures Point(t, ENTRY, j, 0) == Scope(map[], map[], t.f.args, t.f.args)
  {
    if j > 0 {
      EntryScope(t, j - 1);
      var ins := InstrsOf(t.f, ENTRY)[j - 1];
      assert ins.op.Phi? ==> HasPhi(InstrsOf(t.f, ENTRY), ins.op.slot);
    }
  }

  /** For every machine, arguments, initial memory and number of steps the promoted
      function is at the same block as the original, with the same memory, output and
      values, or has returned the same result. */
  lemma {:induction false} RunsMatch(f0: Func, t: Ssa, f2: Func, sigma: map<Name, Operand>, fills: Fills,
                                     m: Machine, actuals: map<Name, Val>, w: World, n: nat)
    requires Promotes(f0, t, f2, sigma, fills)
    ensures Matches(t, Run(f0, m, Start(actuals, w), n), Run(f2, m, Start(actuals, w), n))
  {
    if n == 0 {
      StartMatches(f0, t, f2, sigma, fills, actuals, w);
    } else {
      RunsMatch(f0, t, f2, sigma, fills, m, actuals, w, n - 1);
      var c := Run(f0, m, Start(actuals, w), n - 1);
      if c.At? {
        AdvanceMatches(f0, t, f2, sigma, fills, m, c.block, c.st, Run(f2, m, Start(actuals, w), n - 1).st);
      }
    }
  }
}
