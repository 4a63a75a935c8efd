/** One visit of the renaming walk, phase by phase, on snapshots of its state. */
module RenameWalk {
  import opened Graphs
  import opened ControlFlow
  import opened DomTree
  import opened Ir
  import opened Scopes
  import opened Promotion
  import opened Renaming

  /** The walk's state. Code and stacks are the pass's own; the rest records what has
      been replaced, which phi operands were filled and which blocks are finished. */
  datatype Walk = Walk(code: seq<Code>, stacks: Stacks, sigma: map<Name, Operand>, fills: Fills, deleted: set<Node>)

  ghost predicate WalkOk(t: Ssa, w: Walk)
    requires Climbs(t.up, t.id)
  {
    CodeIs(t, w.code, w.sigma, w.fills, w.deleted) && OnlyReplacements(t, w.sigma)
  }

  ghost predicate InBlock(t: Ssa, w: Walk, b: Node)
    requires Climbs(t.up, t.id)
  {
    WalkOk(t, w) && b in t.up && b < |t.f.code| && b !in w.deleted
  }

  /** While a block is visited its instructions are those of t.f, rewritten. */
  lemma InstrIs(t: Ssa, w: Walk, b: Node, k: nat)
    requires Climbs(t.up, t.id) && InBlock(t, w, b) && k < |t.f.code[b].instrs|
    ensures |w.code[b].instrs| == |t.f.code[b].instrs|
    ensures w.code[b].instrs[k] == RenderInstr(t, w.sigma, w.fills, b, t.f.code[b].instrs[k])
  {
    assert BlockIs(t, w.code[b], Walking, w.sigma, w.fills, b);
    RenderLength(t, w.sigma, w.fills, b, t.f.code[b].instrs);
  }

  lemma SameLength(t: Ssa, w: Walk, b: Node)
    requires Climbs(t.up, t.id) && InBlock(t, w, b)
    ensures b < |w.code| && |w.code[b].instrs| == |t.f.code[b].instrs|
  {
    assert BlockIs(t, w.code[b], Walking, w.sigma, w.fills, b);
    RenderLength(t, w.sigma, w.fills, b, t.f.code[b].instrs);
  }

  /** Every name on a stack is an argument or defined above the current point in the
      dominator tree, and none is a promoted load. */
  lemma StackedNamesAreAbove(t: Ssa, m: Stacks, b: Node, k: nat, v: Name, i: nat)
    requires ValidSsa(t) && OperandsAvailable(t) && b in t.up && k <= |InstrsOf(t.f, b)| && TopsAre(m, ScopeAt(t, b, k))
    requires i < |StackOf(m, v)| && StackOf(m, v)[i].Ref?
    ensures DefinedBefore(t, b, |InstrsOf(t.f, b)|, k, StackOf(m, v)[i].name)
    ensures forall o :: !Replaced(t, StackOf(m, v)[i].name, o)
  {
    var x, n := StackOf(m, v)[i].name, |InstrsOf(t.f, b)|;
    assert TopIs(m, ScopeAt(t, b, k), v) && Fixed(ScopeAt(t, b, k), StackOf(m, v)[i]);
    ScopeIsAbove(t, b, n, k);
    forall o ensures !Replaced(t, x, o) {
      forall c, j ensures !ReplacedAt(t, c, j, x, o) {
        if ReplacedAt(t, c, j, x, o) {
          ReplacedKnown(t, b, k, c, j, x, o);
        }
      }
    }
  }

  // ------------------------------------------------------- step 3: push phis

  ghost predicate PhisAt(t: Ssa, w: Walk, base: Stacks, b: Node, j: nat)
    requires Climbs(t.up, t.id)
  {
    && InBlock(t, w, b) && j <= |t.f.code[b].instrs|
    && TopsAre(w.stacks, Point(t, b, j, 0)) && Pushed(base, w.stacks, t.f.code[b].instrs, j, 0)
    && CoversScope(w.sigma, ScopeIn(t, b))
  }

  lemma PhisBegin(t: Ssa, w: Walk, b: Node)
    requires Climbs(t.up, t.id) && InBlock(t, w, b) && TopsAre(w.stacks, ScopeIn(t, b)) &&
      CoversScope(w.sigma, ScopeIn(t, b))
    ensures PhisAt(t, w, w.stacks, b, 0)
  {
    forall v ensures PushedFor(w.stacks, w.stacks, t.f.code[b].instrs, 0, 0, v) {}
  }

  lemma PhisStep(t: Ssa, w: Walk, base: Stacks, b: Node, j: nat)
    requires ValidSsa(t) && OperandsAvailable(t) && PhisAt(t, w, base, b, j) && j < |t.f.code[b].instrs|
    ensures var ins := t.f.code[b].instrs[j];
      PhisAt(t, if ins.op.Phi? then w.(stacks := Push(w.stacks, ins.op.slot, Ref(ins.id))) else w, base, b, j + 1)
  {
    var ins := t.f.code[b].instrs[j];
    PushedPhi(base, w.stacks, t.f.code[b].instrs, j);
    if ins.op.Phi? {
      FreshAt(t, b, j, 0, j);
      ScopeTidy(t, b, j, 0);
      PhiTops(w.stacks, Point(t, b, j, 0), ins.op.slot, ins.id);
    }
  }

  // ------------------------------------- steps 4 and 5: loads and stores

  /** `gone` lists the replaced loads and promoted stores among the first k instructions. */
  ghost predicate GoneUpTo(gone: set<Name>, sigma: map<Name, Operand>, instrs: seq<Instr>, k: nat)
    requires k <= |instrs|
  {
    && (forall i :: 0 <= i < k ==> Lists(gone, Walking, Deleted, sigma, instrs[i]))
    && (forall x :: x in gone ==> exists i :: 0 <= i < k && instrs[i].id == x)
  }

  ghost predicate BodyAt(t: Ssa, w: Walk, base: Stacks, b: Node, k: nat, gone: set<Name>)
    requires Climbs(t.up, t.id)
  {
    && InBlock(t, w, b) && k <= |t.f.code[b].instrs|
    && TopsAre(w.stacks, ScopeAt(t, b, k)) && Pushed(base, w.stacks, t.f.code[b].instrs, |t.f.code[b].instrs|, k)
    && CoversScope(w.sigma, ScopeAt(t, b, k))
    && GoneUpTo(gone, w.sigma, t.f.code[b].instrs, k)
  }

  lemma {:induction false} PhisKeepSub(instrs: seq<Instr>, j: nat, sc: Scope)
    requires j <= |instrs|
    ensures PhiScope(instrs, j, sc).sub == sc.sub
  {
    if j > 0 {
      PhisKeepSub(instrs, j - 1, sc);
    }
  }

  lemma BodyBegin(t: Ssa, w: Walk, base: Stacks, b: Node)
    requires Climbs(t.up, t.id) && PhisAt(t, w, base, b, |InstrsOf(t.f, b)|)
    ensures BodyAt(t, w, base, b, 0, {})
  {
    PhisKeepSub(t.f.code[b].instrs, |t.f.code[b].instrs|, ScopeIn(t, b));
  }

  /** Listing instruction k itself keeps the earlier ones as they are. */
  lemma GoneStep(t: Ssa, gone: set<Name>, sigma: map<Name, Operand>, b: Node, k: nat, gone2: set<Name>,
                 sigma2: map<Name, Operand>)
    requires UniqueIds(t.f) && b < |t.f.code| && k < |t.f.code[b].instrs|
    requires GoneUpTo(gone, sigma, t.f.code[b].instrs, k)
    requires var x := t.f.code[b].instrs[k].id; gone <= gone2 <= gone + {x} && sigma2 - {x} == sigma - {x}
    requires t.f.code[b].instrs[k].id in gone2 <==> Dropped(Deleted, sigma2, t.f.code[b].instrs[k])
    ensures GoneUpTo(gone2, sigma2, t.f.code[b].instrs, k + 1)
  {
    var instrs := t.f.code[b].instrs;
    var x := instrs[k].id;
    assert IdAt(t.f, b, k, x);
    forall i | 0 <= i < k ensures Lists(gone2, Walking, Deleted, sigma2, instrs[i]) {
      var y := instrs[i].id;
      assert IdAt(t.f, b, i, y);
      assert Lists(gone, Walking, Deleted, sigma, instrs[i]);
      assert y in sigma2 <==> y in sigma2 - {x};
      assert y in sigma <==> y in sigma - {x};
    }
    forall y | y in gone2 ensures exists i :: 0 <= i < k + 1 && instrs[i].id == y {
      if y == x {
        assert instrs[k].id == y;
      } else {
        var i :| 0 <= i < k && instrs[i].id == y;
      }
    }
  }

  /** The stacks, whatever the instruction is. */
  lemma BodyStacksStep(t: Ssa, w: Walk, base: Stacks, b: Node, k: nat, gone: set<Name>)
    requires ValidSsa(t) && OperandsAvailable(t) && BodyAt(t, w, base, b, k, gone) && k < |t.f.code[b].instrs|
    ensures var m := BodyStacks(t.f.code[b].instrs[k], ScopeAt(t, b, k).sub, w.stacks);
      TopsAre(m, ScopeAt(t, b, k + 1)) && Pushed(base, m, t.f.code[b].instrs, |t.f.code[b].instrs|, k + 1)
  {
    var ins, n, sc := t.f.code[b].instrs[k], |t.f.code[b].instrs|, ScopeAt(t, b, k);
    ScopeTidy(t, b, n, k);
    if !ins.op.Phi? {
      FreshAt(t, b, n, k, k);
    }
    forall x | Ref(x) in Reads(ins.op) ensures x in sc.vals {
      assert ReadAt(t.f, b, k, x);
    }
    BodyTops(ins, w.stacks, sc);
    PushedStore(base, w.stacks, t.f.code[b].instrs, k, sc.sub);
  }

  ghost predicate SigmaGrows(s1: map<Name, Operand>, s2: map<Name, Operand>) {
    forall x :: x in s1 ==> x in s2 && s2[x] == s1[x]
  }

  /** Every use of the load x becomes o. */
  ghost function WithReplaced(w: Walk, x: Name, o: Operand): Walk {
    w.(code := ReplaceAll(w.code, x, o), sigma := w.sigma[x := o])
  }

  /** A load whose variable has a name: every use becomes that name. */
  lemma BodyLoad(t: Ssa, w: Walk, base: Stacks, b: Node, k: nat, gone: set<Name>)
    requires ValidSsa(t) && OperandsAvailable(t) && BodyAt(t, w, base, b, k, gone) && k < |t.f.code[b].instrs|
    requires var ins := t.f.code[b].instrs[k]; IsCellLoad(ins.op) && StackOf(w.stacks, ins.op.from.slot) != []
    ensures var ins := t.f.code[b].instrs[k]; var s := StackOf(w.stacks, ins.op.from.slot); var o := s[|s| - 1];
      && BodyAt(t, WithReplaced(w, ins.id, o), base, b, k + 1, gone + {ins.id})
      && SigmaGrows(w.sigma, WithReplaced(w, ins.id, o).sigma)
  {
    var ins, sc := t.f.code[b].instrs[k], ScopeAt(t, b, k);
    var v, x := ins.op.from.slot, ins.id;
    var s := StackOf(w.stacks, v);
    var o := s[|s| - 1];
    assert TopIs(w.stacks, sc, v);
    LoadIsReplaced(t, w, b, k, o);
    BodyStacksStep(t, w, base, b, k, gone);
    GoneStep(t, gone, w.sigma, b, k, gone + {x}, w.sigma[x := o]);
  }

  lemma LoadScope(t: Ssa, b: Node, k: nat)
    requires Climbs(t.up, t.id) && b in t.up && k < |InstrsOf(t.f, b)|
    requires var op := InstrsOf(t.f, b)[k].op; IsCellLoad(op) && op.from.slot in ScopeAt(t, b, k).cur
    ensures var ins, sc := InstrsOf(t.f, b)[k], ScopeAt(t, b, k);
      ScopeAt(t, b, k + 1).sub == sc.sub[ins.id := sc.cur[ins.op.from.slot]]
  {
  }

  lemma ReplacementCovers(sigma: map<Name, Operand>, sc: Scope, sc2: Scope, x: Name, o: Operand)
    requires CoversScope(sigma, sc) && sc2.sub == sc.sub[x := o] && (x in sigma ==> sigma[x] == o)
    ensures CoversScope(sigma[x := o], sc2) && SigmaGrows(sigma, sigma[x := o])
  {
  }

  lemma LoadIsReplaced(t: Ssa, w: Walk, b: Node, k: nat, o: Operand)
    requires ValidSsa(t) && OperandsAvailable(t) && InBlock(t, w, b) && k < |t.f.code[b].instrs|
    requires CoversScope(w.sigma, ScopeAt(t, b, k))
    requires var op := t.f.code[b].instrs[k].op;
      IsCellLoad(op) && op.from.slot in ScopeAt(t, b, k).cur && o == ScopeAt(t, b, k).cur[op.from.slot]
    ensures var x := t.f.code[b].instrs[k].id;
      && InBlock(t, w.(code := ReplaceAll(w.code, x, o), sigma := w.sigma[x := o]), b)
      && CoversScope(w.sigma[x := o], ScopeAt(t, b, k + 1)) && SigmaGrows(w.sigma, w.sigma[x := o])
  {
    var x := t.f.code[b].instrs[k].id;
    assert IdAt(t.f, b, k, x) && ReplacedAt(t, b, k, x, o);
    CodeReplaces(t, w.code, w.sigma, w.fills, w.deleted, b, k, x, o);
    LoadScope(t, b, k);
    ReplacementCovers(w.sigma, ScopeAt(t, b, k), ScopeAt(t, b, k + 1), x, o);
  }

  /** A load whose variable has no name stays. */
  lemma BodyUnnamedLoad(t: Ssa, w: Walk, base: Stacks, b: Node, k: nat, gone: set<Name>)
    requires ValidSsa(t) && OperandsAvailable(t) && BodyAt(t, w, base, b, k, gone) && k < |t.f.code[b].instrs|
    requires var ins := t.f.code[b].instrs[k]; IsCellLoad(ins.op) && StackOf(w.stacks, ins.op.from.slot) == []
    ensures t.f.code[b].instrs[k].op.from.slot !in ScopeAt(t, b, k).cur
    ensures BodyAt(t, w, base, b, k + 1, gone)
  {
    var ins := t.f.code[b].instrs[k];
    assert TopIs(w.stacks, ScopeAt(t, b, k), ins.op.from.slot);
    BodyStacksStep(t, w, base, b, k, gone);
    if ins.id in w.sigma {
      var c, i :| ReplacedAt(t, c, i, ins.id, w.sigma[ins.id]);
      assert IdAt(t.f, c, i, ins.id) && IdAt(t.f, b, k, ins.id);
    }
    NotListed(t, w.sigma, b, k, gone);
    GoneStep(t, gone, w.sigma, b, k, gone, w.sigma);
  }

  lemma NotListed(t: Ssa, sigma: map<Name, Operand>, b: Node, k: nat, gone: set<Name>)
    requires UniqueIds(t.f) && b < |t.f.code| && k < |t.f.code[b].instrs| &&
      GoneUpTo(gone, sigma, t.f.code[b].instrs, k)
    ensures t.f.code[b].instrs[k].id !in gone
  {
    var x := t.f.code[b].instrs[k].id;
    if x in gone {
      var i :| 0 <= i < k && t.f.code[b].instrs[i].id == x;
      assert IdAt(t.f, b, i, x) && IdAt(t.f, b, k, x);
    }
  }

  /** A promoted store pushes the value it stores, as rewritten so far. */
  lemma BodyStore(t: Ssa, w: Walk, base: Stacks, b: Node, k: nat, gone: set<Name>)
    requires ValidSsa(t) && OperandsAvailable(t) && BodyAt(t, w, base, b, k, gone) && k < |t.f.code[b].instrs|
    requires IsCellStore(t.f.code[b].instrs[k].op)
    ensures |w.code[b].instrs| == |t.f.code[b].instrs|
    ensures var ins := w.code[b].instrs[k];
      && IsCellStore(ins.op) && ins.op.to == t.f.code[b].instrs[k].op.to && ins.id == t.f.code[b].instrs[k].id
      && BodyAt(t, w.(stacks := Push(w.stacks, ins.op.to.slot, ins.op.val)), base, b, k + 1, gone + {ins.id})
  {
    var ins, sc := t.f.code[b].instrs[k], ScopeAt(t, b, k);
    InstrIs(t, w, b, k);
    AgreesHere(t, w.sigma, b, k);
    BodyStacksStep(t, w, base, b, k, gone);
    GoneStep(t, gone, w.sigma, b, k, gone + {ins.id}, w.sigma);
    if ins.op.val.Ref? {
      assert ReadAt(t.f, b, k, ins.op.val.name);
    }
    assert Resolve(w.sigma, ins.op.val) == Resolve(sc.sub, ins.op.val);
  }

  lemma BodyOther(t: Ssa, w: Walk, base: Stacks, b: Node, k: nat, gone: set<Name>)
    requires ValidSsa(t) && OperandsAvailable(t) && BodyAt(t, w, base, b, k, gone) && k < |t.f.code[b].instrs|
    requires var ins := t.f.code[b].instrs[k]; !IsCellLoad(ins.op) && !IsCellStore(ins.op)
    ensures BodyAt(t, w, base, b, k + 1, gone)
  {
    BodyStacksStep(t, w, base, b, k, gone);
    NotListed(t, w.sigma, b, k, gone);
    GoneStep(t, gone, w.sigma, b, k, gone, w.sigma);
  }

  // ------------------------------------------------- step 6: fill the phis

  /** The edges from b to these successors, in order. */
  ghost function EdgesTo(b: Node, ss: seq<Node>): Fills {
    if ss == [] then [] else EdgesTo(b, ss[..|ss| - 1]) + [(b, ss[|ss| - 1])]
  }

  lemma {:induction false} EdgesToCount(b: Node, ss: seq<Node>, e: (Node, Node))
    ensures multiset(EdgesTo(b, ss))[e] == if e.0 == b then multiset(ss)[e.1] else 0
  {
    if ss != [] {
      EdgesToCount(b, ss[..|ss| - 1], e);
      assert ss == ss[..|ss| - 1] + [ss[|ss| - 1]];
    }
  }

  /** The first i edges out of b have been filled, and nothing else since `before`. */
  ghost predicate FillsAt(t: Ssa, w: Walk, b: Node, before: Fills, gone: set<Name>, i: nat)
    requires Climbs(t.up, t.id)
  {
    && InBlock(t, w, b) && b < |t.f.cfg.succs| && i <= |t.f.cfg.succs[b]|
    && TopsAre(w.stacks, ScopeOut(t, b)) && CoversScope(w.sigma, ScopeOut(t, b))
    && GoneUpTo(gone, w.sigma, t.f.code[b].instrs, |t.f.code[b].instrs|)
    && w.fills == before + EdgesTo(b, t.f.cfg.succs[b][..i])
  }

  lemma FillsStep(t: Ssa, w: Walk, b: Node, before: Fills, gone: set<Name>, i: nat)
    requires Climbs(t.up, t.id) && FillsAt(t, w, b, before, gone, i)
    requires i < |t.f.cfg.succs[b]| && t.f.cfg.succs[b][i] < |w.code|
    ensures var s := t.f.cfg.succs[b][i];
      FillsAt(t, w.(code := w.code[s := Code(FillPhis(w.code[s].instrs, ScopeOut(t, b).cur, b), w.code[s].term)],
                    fills := w.fills + [(b, s)]), b, before, gone, i + 1)
  {
    var s := t.f.cfg.succs[b][i];
    CodeFills(t, w.code, w.sigma, w.fills, w.deleted, b, s);
    EdgesToSnoc(b, t.f.cfg.succs[b], i);
  }

  lemma EdgesToSnoc(b: Node, ss: seq<Node>, i: nat)
    requires i < |ss|
    ensures EdgesTo(b, ss[..i + 1]) == EdgesTo(b, ss[..i]) + [(b, ss[i])]
  {
    assert ss[..i + 1][..i] == ss[..i];
  }

  /** Filling with the stack tops is filling with the names that reach the end of b. */
  lemma FillPhiFromTop(t: Ssa, m: Stacks, b: Node, ins: Instr)
    requires Climbs(t.up, t.id) && b in t.up && TopsAre(m, ScopeOut(t, b)) && ins.op.Phi?
    ensures var s := StackOf(m, ins.op.slot);
      FillPhi(ins, ScopeOut(t, b).cur, b) ==
        if s == [] then ins else Instr(ins.id, Phi(ins.op.slot, ins.op.pairs + [(s[|s| - 1], b)]))
    ensures StackOf(m, ins.op.slot) == [] <==> ins.op.slot !in ScopeOut(t, b).cur
  {
    assert TopIs(m, ScopeOut(t, b), ins.op.slot);
  }

  lemma SubstKeepsKind(sigma: map<Name, Operand>, op: Op)
    ensures SubstOp(sigma, op).Phi? <==> op.Phi?
    ensures IsCellLoad(SubstOp(sigma, op)) <==> IsCellLoad(op)
    ensures IsCellStore(SubstOp(sigma, op)) <==> IsCellStore(op)
    ensures IsCellLoad(op) ==> SubstOp(sigma, op).from == op.from
    ensures IsCellStore(op) ==> SubstOp(sigma, op).to == op.to
  {
  }

  /** The walk keeps the phis of every block. */
  lemma {:induction false} RenderedPhis(t: Ssa, stage: Stage, sigma: map<Name, Operand>, fills: Fills, b: Node,
                                        instrs: seq<Instr>, v: Name)
    requires Climbs(t.up, t.id)
    ensures HasPhi(Render(t, stage, sigma, fills, b, instrs), v) <==> HasPhi(instrs, v)
  {
    if instrs != [] {
      var k := |instrs| - 1;
      var rest, one := Render(t, stage, sigma, fills, b, instrs[..k]), RenderInstr(t, sigma, fills, b, instrs[k]);
      RenderedPhis(t, stage, sigma, fills, b, instrs[..k], v);
      HasSnoc(instrs[..k], instrs[k], v);
      assert instrs == instrs[..k] + [instrs[k]];
      SubstKeepsKind(sigma, instrs[k].op);
      HasSnoc(rest, one, v);
      assert rest + [] == rest;
    }
  }

  // ------------------------------------------- where a name is missing

  /** Load k of b reads a variable that has no name there. */
  ghost predicate UnnamedLoad(t: Ssa, b: Node, k: nat, v: Name)
    requires Climbs(t.up, t.id) && b in t.up
  {
    && k < |InstrsOf(t.f, b)| && IsCellLoad(InstrsOf(t.f, b)[k].op)
    && InstrsOf(t.f, b)[k].op.from.slot == v && v !in ScopeAt(t, b, k).cur
  }

  /** A phi of the successor s asks b for a name that b does not have. */
  ghost predicate UnnamedEdge(t: Ssa, b: Node, s: Node, v: Name)
    requires Climbs(t.up, t.id) && b in t.up
  {
    Edge(t.f.cfg.Edges(), b, s) && HasPhi(InstrsOf(t.f, s), v) && v !in ScopeOut(t, b).cur
  }

  ghost predicate Unnamed(t: Ssa, b: Node, v: Name)
    requires Climbs(t.up, t.id) && b in t.up
  {
    (exists k: nat :: UnnamedLoad(t, b, k, v)) || (exists s: Node :: UnnamedEdge(t, b, s, v))
  }

  /** Block b, entered with the stacks m, reads a stack that exists and is empty. */
  ghost predicate MeetsEmpty(t: Ssa, m: Stacks, b: Node)
    requires Climbs(t.up, t.id) && b in t.up
  {
    exists v :: Unnamed(t, b, v) && v in m
  }

  ghost predicate LoadFlows(t: Ssa, m: Stacks, b: Node, k: nat)
    requires Climbs(t.up, t.id) && b in t.up
  {
    forall v :: UnnamedLoad(t, b, k, v) ==> v !in m
  }

  ghost predicate EdgeFlows(t: Ssa, m: Stacks, b: Node, s: Node)
    requires Climbs(t.up, t.id) && b in t.up
  {
    forall v :: UnnamedEdge(t, b, s, v) ==> v !in m
  }

  /** The first n instructions meet no empty stack. */
  ghost predicate LoadsFlow(t: Ssa, m: Stacks, b: Node, n: nat)
    requires Climbs(t.up, t.id) && b in t.up
  {
    forall k {:trigger LoadFlows(t, m, b, k)} :: 0 <= k < n ==> LoadFlows(t, m, b, k)
  }

  lemma LoadsFlowSnoc(t: Ssa, m: Stacks, b: Node, k: nat)
    requires Climbs(t.up, t.id) && b in t.up && k < |InstrsOf(t.f, b)|
    ensures LoadsFlow(t, m, b, k + 1) <==> LoadsFlow(t, m, b, k) && LoadFlows(t, m, b, k)
    ensures !LoadsFlow(t, m, b, k + 1) ==> !LoadsFlow(t, m, b, |InstrsOf(t.f, b)|)
  {
  }

  /** The first n successors ask for no name on an empty stack. */
  ghost predicate EdgesFlow(t: Ssa, m: Stacks, b: Node, n: nat)
    requires Climbs(t.up, t.id) && b in t.up && b < |t.f.cfg.succs| && n <= |t.f.cfg.succs[b]|
  {
    forall j :: 0 <= j < n ==> EdgeFlows(t, m, b, t.f.cfg.succs[b][j])
  }

  lemma MeetsEmptyIff(t: Ssa, m: Stacks, b: Node)
    requires ValidSsa(t) && b in t.up && b < |t.f.cfg.succs|
    ensures !MeetsEmpty(t, m, b) <==> LoadsFlow(t, m, b, |InstrsOf(t.f, b)|) && EdgesFlow(t, m, b, |t.f.cfg.succs[b]|)
  {
    forall s: Node, v | UnnamedEdge(t, b, s, v) && v in m ensures !EdgesFlow(t, m, b, |t.f.cfg.succs[b]|) {
      t.f.cfg.EdgeLists(b, s);
      var j :| 0 <= j < |t.f.cfg.succs[b]| && t.f.cfg.succs[b][j] == s;
      assert !EdgeFlows(t, m, b, t.f.cfg.succs[b][j]);
    }
    forall k: nat, v | UnnamedLoad(t, b, k, v) && v in m ensures !LoadFlows(t, m, b, k) {}
  }

  /** In the middle of b, a stack is there and empty exactly where b was entered with its
      key and has no name for the variable. */
  lemma LoadFlowsIff(t: Ssa, w: Walk, base: Stacks, b: Node, k: nat, gone: set<Name>)
    requires Climbs(t.up, t.id) && BodyAt(t, w, base, b, k, gone) && k < |t.f.code[b].instrs|
    requires IsCellLoad(t.f.code[b].instrs[k].op)
    ensures var v := t.f.code[b].instrs[k].op.from.slot;
      LoadFlows(t, base, b, k) <==> !(v in w.stacks && w.stacks[v] == [])
  {
    var v := t.f.code[b].instrs[k].op.from.slot;
    assert TopIs(w.stacks, ScopeAt(t, b, k), v);
    assert PushedFor(base, w.stacks, t.f.code[b].instrs, |t.f.code[b].instrs|, k, v);
    assert UnnamedLoad(t, b, k, v) <==> v !in ScopeAt(t, b, k).cur;
  }

  /** No phi among these asks for a stack that is there and empty. */
  ghost predicate NoneEmpty(m: Stacks, instrs: seq<Instr>) {
    forall v :: HasPhi(instrs, v) && v in m ==> m[v] != []
  }

  lemma NoneEmptySnoc(m: Stacks, instrs: seq<Instr>, i: nat)
    requires i < |instrs|
    ensures var op := instrs[i].op;
      NoneEmpty(m, instrs[..i + 1]) <==> NoneEmpty(m, instrs[..i]) && !(op.Phi? && op.slot in m && m[op.slot] == [])
    ensures !NoneEmpty(m, instrs[..i + 1]) ==> !NoneEmpty(m, instrs)
  {
    assert instrs[..i + 1] == instrs[..i] + [instrs[i]];
    forall v
      ensures HasPhi(instrs[..i + 1], v) <==> HasPhi(instrs[..i], v) || (instrs[i].op.Phi? && instrs[i].op.slot == v)
    {
      HasSnoc(instrs[..i], instrs[i], v);
    }
    forall v | HasPhi(instrs[..i + 1], v) ensures HasPhi(instrs, v) {
      var j :| 0 <= j < i + 1 && instrs[..i + 1][j].op.Phi? && instrs[..i + 1][j].op.slot == v;
      assert instrs[j] == instrs[..i + 1][j];
    }
  }

  lemma EdgeFlowsIff(t: Ssa, w: Walk, base: Stacks, b: Node, s: Node)
    requires Climbs(t.up, t.id) && WalkOk(t, w) && b in t.up && TopsAre(w.stacks, ScopeOut(t, b))
    requires Pushed(base, w.stacks, InstrsOf(t.f, b), |InstrsOf(t.f, b)|, |InstrsOf(t.f, b)|)
    requires Edge(t.f.cfg.Edges(), b, s) && s < |w.code|
    ensures EdgeFlows(t, base, b, s) <==> NoneEmpty(w.stacks, w.code[s].instrs)
  {
    var n := |InstrsOf(t.f, b)|;
    assert BlockIs(t, w.code[s], StageOf(w.deleted, s), w.sigma, w.fills, s);
    forall v ensures HasPhi(w.code[s].instrs, v) <==> HasPhi(InstrsOf(t.f, s), v) {
      RenderedPhis(t, StageOf(w.deleted, s), w.sigma, w.fills, s, t.f.code[s].instrs, v);
    }
    forall v
      ensures (UnnamedEdge(t, b, s, v) ==> v !in base) <==>
        (HasPhi(w.code[s].instrs, v) && v in w.stacks ==> w.stacks[v] != [])
    {
      assert TopIs(w.stacks, ScopeOut(t, b), v) && PushedFor(base, w.stacks, InstrsOf(t.f, b), n, n, v);
    }
  }

  // ------------------------------------------------- the dominator subtree

  ghost function Subtree(t: Ssa, b: Node): set<Node>
    requires Climbs(t.up, t.id)
  {
    set x | x in t.up && b in Anc(t.up, t.id, x)
  }

  ghost function Subtrees(t: Ssa, cs: set<Node>): set<Node>
    requires Climbs(t.up, t.id)
  {
    set x | x in t.up && exists c :: c in cs && c in Anc(t.up, t.id, x)
  }

  ghost predicate AreChildren(t: Ssa, b: Node, cs: set<Node>) {
    forall c :: c in cs <==> c in t.up && c != ENTRY && t.up[c] == b && c != b
  }

  /** A block's subtree is the block and its children's subtrees. */
  lemma SubtreeSplits(t: Ssa, b: Node, cs: set<Node>)
    requires Climbs(t.up, t.id) && b in t.up && AreChildren(t, b, cs)
    ensures Subtree(t, b) == {b} + Subtrees(t, cs) && b !in Subtrees(t, cs)
  {
    forall x | x in t.up ensures b in Anc(t.up, t.id, x) <==> x == b || exists c :: c in cs && c in Anc(t.up, t.id, x) {
      if b in Anc(t.up, t.id, x) && x != b {
        ChildOnChain(t, b, cs, x);
      }
      if exists c :: c in cs && c in Anc(t.up, t.id, x) {
        var c :| c in cs && c in Anc(t.up, t.id, x);
        AncBasics(t.up, t.id, Up(t.up, c));
        AncTrans(t.up, t.id, c, x);
      }
      AncBasics(t.up, t.id, x);
    }
    forall c | c in cs ensures c !in Anc(t.up, t.id, b) {
      AncBasics(t.up, t.id, b);
      assert Up(t.up, c) == b;
    }
  }

  lemma BlockInSubtree(t: Ssa, w: Walk, b: Node)
    requires ValidSsa(t) && b in t.up && WalkOk(t, w) && Subtree(t, b) !! w.deleted
    ensures b in Subtree(t, b) && InBlock(t, w, b) && b < |t.f.cfg.succs|
  {
    AncBasics(t.up, t.id, b);
  }

  lemma {:induction false} ChildOnChain(t: Ssa, b: Node, cs: set<Node>, x: Node)
    requires Climbs(t.up, t.id) && x in t.up && b in Anc(t.up, t.id, x) && x != b && AreChildren(t, b, cs)
    ensures exists c :: c in cs && c in Anc(t.up, t.id, x)
    decreases t.id[ENTRY] - t.id[x]
  {
    AncBasics(t.up, t.id, x);
    if Up(t.up, x) == b {
      assert x in cs;
    } else {
      ChildOnChain(t, b, cs, Up(t.up, x));
    }
  }

  /** Different children have disjoint subtrees. */
  lemma SubtreesDisjoint(t: Ssa, b: Node, cs: set<Node>, done: set<Node>, c: Node)
    requires Climbs(t.up, t.id) && AreChildren(t, b, cs) && done <= cs && c in cs - done
    ensures Subtrees(t, done) !! Subtree(t, c)
  {
    forall x | x in Subtrees(t, done) && x in Subtree(t, c) ensures false {
      var d :| d in done && d in Anc(t.up, t.id, x);
      SiblingsApart(t, b, c, d, x);
    }
  }

  lemma SubtreesAdd(t: Ssa, done: set<Node>, c: Node)
    requires Climbs(t.up, t.id)
    ensures Subtrees(t, done + {c}) == Subtrees(t, done) + Subtree(t, c)
  {
  }

  lemma {:induction false} SiblingsApart(t: Ssa, b: Node, c: Node, d: Node, x: Node)
    requires Climbs(t.up, t.id) && x in t.up && c in Anc(t.up, t.id, x) && d in Anc(t.up, t.id, x) && c != d
    requires c in t.up && d in t.up && c != ENTRY && d != ENTRY && t.up[c] == b && t.up[d] == b
    ensures false
    decreases t.id[ENTRY] - t.id[x]
  {
    assert Up(t.up, c) == b && Up(t.up, d) == b;
    AncBasics(t.up, t.id, b);
    if x != c && x != d {
      SiblingsApart(t, b, c, d, Up(t.up, x));
    }
  }

  // ----------------------------------------------- which loads are replaced where

  ghost predicate InstrIn(t: Ssa, bs: set<Node>, x: Name) {
    exists c: Node, i: nat :: c in bs && IdAt(t.f, c, i, x)
  }

  /** From s1 to s2 only loads of the blocks bs were replaced. */
  ghost predicate ReplacedWithin(t: Ssa, s1: map<Name, Operand>, s2: map<Name, Operand>, bs: set<Node>) {
    forall x {:trigger InstrIn(t, bs, x)} :: x in s2 ==> x in s1 || InstrIn(t, bs, x)
  }

  lemma ReplacedWithinTrans(t: Ssa, s1: map<Name, Operand>, s2: map<Name, Operand>, s3: map<Name, Operand>,
                            bs: set<Node>, cs: set<Node>)
    requires ReplacedWithin(t, s1, s2, bs) && ReplacedWithin(t, s2, s3, cs)
    ensures ReplacedWithin(t, s1, s3, bs + cs)
  {
    forall x | x in s3 && x !in s1 ensures InstrIn(t, bs + cs, x) {
      if InstrIn(t, cs, x) {
        var c: Node, i: nat :| c in cs && IdAt(t.f, c, i, x);
        assert c in bs + cs;
      } else {
        assert InstrIn(t, bs, x);
        var c: Node, i: nat :| c in bs && IdAt(t.f, c, i, x);
        assert c in bs + cs;
      }
    }
  }

  /** In the middle of block b: its replaced loads are among those listed for deletion, and
      none of its instructions was replaced before. */
  ghost predicate ReplacedSince(t: Ssa, before: set<Name>, sigma: map<Name, Operand>, gone: set<Name>, b: Node) {
    sigma.Keys <= before + gone && before !! Ids(InstrsOf(t.f, b))
  }

  /** Where steps 4 and 5 stand before instruction k, when s0 was replaced on entry. */
  ghost predicate RewritingAt(t: Ssa, w: Walk, base: Stacks, s0: map<Name, Operand>, b: Node, k: nat, gone: set<Name>)
    requires Climbs(t.up, t.id)
  {
    BodyAt(t, w, base, b, k, gone) && ReplacedSince(t, s0.Keys, w.sigma, gone, b) && SigmaGrows(s0, w.sigma)
  }

  lemma RewritingBegins(t: Ssa, w: Walk, base: Stacks, b: Node)
    requires Climbs(t.up, t.id) && PhisAt(t, w, base, b, |InstrsOf(t.f, b)|)
    requires ReplacedSince(t, w.sigma.Keys, w.sigma, {}, b)
    ensures RewritingAt(t, w, base, w.sigma, b, 0, {})
    ensures b < |w.code| && |w.code[b].instrs| == |InstrsOf(t.f, b)|
  {
    BodyBegin(t, w, base, b);
    SameLength(t, w, b);
  }

  /** The walk after a store pushed its value. */
  ghost function WithPushed(w: Walk, v: Name, o: Operand): Walk {
    w.(stacks := Push(w.stacks, v, o))
  }

  lemma RewritesStore(t: Ssa, w: Walk, base: Stacks, s0: map<Name, Operand>, b: Node, k: nat, gone: set<Name>)
    requires ValidSsa(t) && OperandsAvailable(t) && RewritingAt(t, w, base, s0, b, k, gone)
    requires k < |t.f.code[b].instrs| && IsCellStore(t.f.code[b].instrs[k].op)
    ensures b < |w.code| && k < |w.code[b].instrs|
    ensures var ins := w.code[b].instrs[k];
      IsCellStore(ins.op) &&
      RewritingAt(t, WithPushed(w, ins.op.to.slot, ins.op.val), base, s0, b, k + 1, gone + {ins.id})
  {
    BodyStore(t, w, base, b, k, gone);
  }

  lemma RewritesOther(t: Ssa, w: Walk, base: Stacks, s0: map<Name, Operand>, b: Node, k: nat, gone: set<Name>)
    requires ValidSsa(t) && OperandsAvailable(t) && RewritingAt(t, w, base, s0, b, k, gone)
    requires k < |t.f.code[b].instrs|
    requires var ins := t.f.code[b].instrs[k]; !IsCellLoad(ins.op) && !IsCellStore(ins.op)
    ensures RewritingAt(t, w, base, s0, b, k + 1, gone)
  {
    BodyOther(t, w, base, b, k, gone);
  }

  /** The load that comes next has not been replaced. */
  lemma NextIsNotReplaced(t: Ssa, w: Walk, base: Stacks, s0: map<Name, Operand>, b: Node, k: nat, gone: set<Name>)
    requires Climbs(t.up, t.id) && UniqueIds(t.f) && RewritingAt(t, w, base, s0, b, k, gone)
    requires k < |InstrsOf(t.f, b)|
    ensures InstrsOf(t.f, b)[k].id !in w.sigma
  {
    var instrs := t.f.code[b].instrs;
    var x := instrs[k].id;
    if x in gone {
      var i :| 0 <= i < k && instrs[i].id == x;
      assert IdAt(t.f, b, i, x) && IdAt(t.f, b, k, x);
    }
  }

  lemma ReplacedInBlock(t: Ssa, s1: map<Name, Operand>, s2: map<Name, Operand>, gone: set<Name>, b: Node, k: nat)
    requires b < |t.f.code| && k <= |t.f.code[b].instrs|
    requires ReplacedSince(t, s1.Keys, s2, gone, b) && GoneUpTo(gone, s2, t.f.code[b].instrs, k)
    ensures ReplacedWithin(t, s1, s2, {b})
  {
    forall x | x in s2 && x !in s1 ensures InstrIn(t, {b}, x) {
      var i: nat :| i < k && t.f.code[b].instrs[i].id == x;
      assert b in {b} && IdAt(t.f, b, i, x);
    }
  }

  /** On entering b nothing of b has been replaced. */
  lemma NothingReplaced(t: Ssa, sigma: map<Name, Operand>, bs: set<Node>, b: Node)
    requires UniqueIds(t.f) && ReplacedWithin(t, map[], sigma, bs) && b !in bs
    ensures ReplacedSince(t, sigma.Keys, sigma, {}, b)
  {
    forall x | x in sigma && x in Ids(InstrsOf(t.f, b)) ensures false {
      assert InstrIn(t, bs, x);
      var c: Node, i: nat :| c in bs && IdAt(t.f, c, i, x);
      var j: nat :| j < |InstrsOf(t.f, b)| && InstrsOf(t.f, b)[j].id == x;
      assert IdAt(t.f, b, j, x);
    }
  }

  /** The name that replaces a load is no replaced load, nor the load itself. */
  lemma TopIsNotReplaced(t: Ssa, sigma: map<Name, Operand>, b: Node, k: nat, x: Name, o: Operand)
    requires ValidSsa(t) && OperandsAvailable(t) && OnlyReplacements(t, sigma) && ReplacedAt(t, b, k, x, o)
    ensures o != Ref(x) && forall y :: y in sigma ==> o != Ref(y)
  {
    var s2 := sigma[x := o];
    assert Replaced(t, x, o);
    ReplacedIsUnmentioned(t, s2, x, o);
    forall y | y in sigma ensures o != Ref(y) {
      ReplacedIsUnmentioned(t, s2, y, s2[y]);
      assert s2[x] == o;
    }
  }

  /** So it is for the top of the stack when the load comes next. */
  lemma TopIsFresh(t: Ssa, w: Walk, base: Stacks, b: Node, k: nat, gone: set<Name>)
    requires ValidSsa(t) && OperandsAvailable(t) && BodyAt(t, w, base, b, k, gone) && k < |t.f.code[b].instrs|
    requires var ins := t.f.code[b].instrs[k]; IsCellLoad(ins.op) && StackOf(w.stacks, ins.op.from.slot) != []
    ensures var ins := t.f.code[b].instrs[k]; var s := StackOf(w.stacks, ins.op.from.slot);
      s[|s| - 1] != Ref(ins.id) && forall y :: y in w.sigma ==> s[|s| - 1] != Ref(y)
  {
    var ins := t.f.code[b].instrs[k];
    var s := StackOf(w.stacks, ins.op.from.slot);
    assert TopIs(w.stacks, ScopeAt(t, b, k), ins.op.from.slot);
    TopIsNotReplaced(t, w.sigma, b, k, ins.id, s[|s| - 1]);
  }

  /** What replacing the load x by the top o of its variable's stack comes to. */
  lemma NamedLoad(t: Ssa, w: Walk, base: Stacks, b: Node, k: nat, gone: set<Name>, x: Name, v: Name, o: Operand)
    requires ValidSsa(t) && OperandsAvailable(t) && BodyAt(t, w, base, b, k, gone) && k < |t.f.code[b].instrs|
    requires t.f.code[b].instrs[k] == Instr(x, Load(Cell(v)))
    requires v in w.stacks && w.stacks[v] != [] && w.stacks[v][|w.stacks[v]| - 1] == o
    ensures BodyAt(t, WithReplaced(w, x, o), base, b, k + 1, gone + {x})
    ensures SigmaGrows(w.sigma, WithReplaced(w, x, o).sigma) && o != Ref(x) && forall y :: y in w.sigma ==> o != Ref(y)
  {
    BodyLoad(t, w, base, b, k, gone);
    TopIsFresh(t, w, base, b, k, gone);
  }

  /** No name that reaches the end of a block is a replaced load. */
  lemma NamesAreNotReplaced(t: Ssa, sigma: map<Name, Operand>, b: Node)
    requires ValidSsa(t) && OperandsAvailable(t) && OnlyReplacements(t, sigma) && b in t.up
    ensures forall v, y :: v in ScopeOut(t, b).cur && y in sigma ==> ScopeOut(t, b).cur[v] != Ref(y)
  {
    forall y | y in sigma ensures Unmentioned(t, sigma, y) {
      ReplacedIsUnmentioned(t, sigma, y, sigma[y]);
    }
  }

  // ------------------------------------------------------------ what is done

  /** Block b is finished: its replacements are made and its successors' phis filled. */
  ghost predicate Settled(t: Ssa, sigma: map<Name, Operand>, fills: Fills, b: Node)
    requires Climbs(t.up, t.id) && b in t.up
  {
    Covers(t, sigma, b) && forall s: Node :: Edge(t.f.cfg.Edges(), b, s) ==> (b, s) in fills
  }

  ghost predicate AllSettled(t: Ssa, sigma: map<Name, Operand>, fills: Fills, bs: set<Node>)
    requires Climbs(t.up, t.id)
  {
    forall b :: b in bs ==> b in t.up && Settled(t, sigma, fills, b)
  }

  lemma SettledGrows(t: Ssa, s1: map<Name, Operand>, f1: Fills, s2: map<Name, Operand>, f2: Fills, bs: set<Node>)
    requires Climbs(t.up, t.id) && AllSettled(t, s1, f1, bs) && SigmaGrows(s1, s2) && f1 <= f2
    ensures AllSettled(t, s2, f2, bs)
  {
    forall b | b in bs ensures Settled(t, s2, f2, b) {
      assert Settled(t, s1, f1, b);
      forall s: Node | Edge(t.f.cfg.Edges(), b, s) ensures (b, s) in f2 {
        assert (b, s) in f1;
      }
    }
  }

  /** Replacements made in other blocks do not change what b deletes. */
  lemma GoneStable(t: Ssa, b: Node, gone: set<Name>, s1: map<Name, Operand>, s2: map<Name, Operand>)
    requires ValidSsa(t) && OperandsAvailable(t) && b in t.up && b < |t.f.code|
    requires OnlyReplacements(t, s1) && OnlyReplacements(t, s2) && Covers(t, s1, b) && SigmaGrows(s1, s2)
    requires GoneUpTo(gone, s1, t.f.code[b].instrs, |t.f.code[b].instrs|)
    ensures Covers(t, s2, b) && GoneUpTo(gone, s2, t.f.code[b].instrs, |t.f.code[b].instrs|)
  {
    var instrs := t.f.code[b].instrs;
    forall i | 0 <= i < |instrs| ensures Lists(gone, Walking, Deleted, s2, instrs[i]) {
      assert Lists(gone, Walking, Deleted, s1, instrs[i]);
      if IsCellLoad(instrs[i].op) {
        LoadReplacedIff(t, s1, b, i);
        LoadReplacedIff(t, s2, b, i);
      }
    }
  }

  /** Some block among bs gives v a name. */
  ghost predicate DefinedIn(t: Ssa, bs: set<Node>, v: Name) {
    exists c :: c in bs && DefinesSlot(t.f, c, v)
  }

  ghost predicate KeyGrows(t: Ssa, m1: Stacks, m2: Stacks, bs: set<Node>, v: Name) {
    v in m2 <==> v in m1 || DefinedIn(t, bs, v)
  }

  /** Visiting the blocks bs adds the keys of the variables they define; no key goes. */
  ghost predicate KeysGrow(t: Ssa, m1: Stacks, m2: Stacks, bs: set<Node>) {
    forall v {:trigger KeyGrows(t, m1, m2, bs, v)} :: KeyGrows(t, m1, m2, bs, v)
  }

  lemma KeysGrowTrans(t: Ssa, m1: Stacks, m2: Stacks, m3: Stacks, bs: set<Node>, cs: set<Node>)
    requires KeysGrow(t, m1, m2, bs) && KeysGrow(t, m2, m3, cs)
    ensures KeysGrow(t, m1, m3, bs + cs)
  {
    forall v ensures KeyGrows(t, m1, m3, bs + cs, v) {
      assert KeyGrows(t, m1, m2, bs, v) && KeyGrows(t, m2, m3, cs, v);
    }
  }

  /** What a visit of the dominator subtree `bs` has achieved from w1 to w2. */
  ghost predicate Visited(t: Ssa, w1: Walk, w2: Walk, bs: set<Node>)
    requires Climbs(t.up, t.id)
  {
    && WalkOk(t, w2) && SameStacks(w1.stacks, w2.stacks) && Progress(t, w1, w2, bs)
    && bs !! w1.deleted && w2.deleted == w1.deleted + bs && AllSettled(t, w2.sigma, w2.fills, bs)
  }

  /** Keys, replacements and fills of the blocks bs were added. */
  ghost predicate Progress(t: Ssa, w1: Walk, w2: Walk, bs: set<Node>) {
    && KeysGrow(t, w1.stacks, w2.stacks, bs) && SigmaGrows(w1.sigma, w2.sigma) && w1.fills <= w2.fills
    && FillsGrow(t.f.cfg, w1.fills, w2.fills, bs) && ReplacedWithin(t, w1.sigma, w2.sigma, bs)
  }

  lemma VisitedNothing(t: Ssa, w: Walk)
    requires Climbs(t.up, t.id) && WalkOk(t, w)
    ensures Visited(t, w, w, {})
  {
    forall v ensures SameStack(w.stacks, w.stacks, v) && KeyGrows(t, w.stacks, w.stacks, {}, v) {}
    forall e ensures FilledOnce(t.f.cfg, w.fills, w.fills, {}, e) {}
  }

  lemma FillsGrowTrans(cfg: Cfg, f1: Fills, f2: Fills, f3: Fills, bs: set<Node>, cs: set<Node>)
    requires FillsGrow(cfg, f1, f2, bs) && FillsGrow(cfg, f2, f3, cs) && bs !! cs
    ensures FillsGrow(cfg, f1, f3, bs + cs)
  {
    forall e ensures FilledOnce(cfg, f1, f3, bs + cs, e) {
      assert FilledOnce(cfg, f1, f2, bs, e) && FilledOnce(cfg, f2, f3, cs, e);
    }
  }

  lemma BlockFills(cfg: Cfg, before: Fills, fills: Fills, b: Node)
    requires b < |cfg.succs| && fills == before + EdgesTo(b, cfg.succs[b])
    ensures FillsGrow(cfg, before, fills, {b})
  {
    forall e ensures FilledOnce(cfg, before, fills, {b}, e) {
      EdgesToCount(b, cfg.succs[b], e);
    }
  }

  lemma VisitedTrans(t: Ssa, w1: Walk, w2: Walk, w3: Walk, bs: set<Node>, cs: set<Node>)
    requires Climbs(t.up, t.id) && Visited(t, w1, w2, bs) && Visited(t, w2, w3, cs)
    ensures Visited(t, w1, w3, bs + cs)
  {
    SettledGrows(t, w2.sigma, w2.fills, w3.sigma, w3.fills, bs);
    KeysGrowTrans(t, w1.stacks, w2.stacks, w3.stacks, bs, cs);
    FillsGrowTrans(t.f.cfg, w1.fills, w2.fills, w3.fills, bs, cs);
    ReplacedWithinTrans(t, w1.sigma, w2.sigma, w3.sigma, bs, cs);
    forall v ensures SameStack(w1.stacks, w3.stacks, v) {
      assert SameStack(w1.stacks, w2.stacks, v) && SameStack(w2.stacks, w3.stacks, v);
    }
    assert w1.fills <= w3.fills;
  }

  /** The children start where their parent ends. */
  lemma ChildBegins(t: Ssa, w: Walk, w1: Walk, b: Node, cs: set<Node>, done: set<Node>, c: Node)
    requires Climbs(t.up, t.id) && b in t.up && AreChildren(t, b, cs) && done <= cs && c in cs - done
    requires Visited(t, w, w1, Subtrees(t, done)) && Subtrees(t, cs) !! w.deleted
    requires TopsAre(w.stacks, ScopeOut(t, b)) && CoversScope(w.sigma, ScopeOut(t, b))
    ensures c in t.up && t.id[b] > t.id[c] && Subtree(t, c) !! w1.deleted && Subtree(t, c) <= Subtrees(t, cs)
    ensures TopsAre(w1.stacks, ScopeIn(t, c)) && CoversScope(w1.sigma, ScopeIn(t, c))
  {
    assert Up(t.up, c) == b && ScopeIn(t, c) == ScopeOut(t, b);
    TopsTransfer(w.stacks, w1.stacks, ScopeOut(t, b));
    SubtreesDisjoint(t, b, cs, done, c);
  }

  lemma ChildEnds(t: Ssa, w: Walk, w1: Walk, w2: Walk, done: set<Node>, c: Node)
    requires Climbs(t.up, t.id) && Visited(t, w, w1, Subtrees(t, done)) && Visited(t, w1, w2, Subtree(t, c))
    ensures Visited(t, w, w2, Subtrees(t, done + {c}))
  {
    VisitedTrans(t, w, w1, w2, Subtrees(t, done), Subtree(t, c));
    SubtreesAdd(t, done, c);
  }

  /** The code of b with the listed instructions deleted, b marked finished. */
  ghost function Finish(w: Walk, b: Node, gone: set<Name>): Walk
    requires b < |w.code|
  {
    w.(code := w.code[b := Code(Without(w.code[b].instrs, gone), w.code[b].term)], deleted := w.deleted + {b})
  }

  /** w1 is w0 with more replaced, pushed and filled, no block finished in between. */
  ghost predicate Working(w0: Walk, w1: Walk) {
    SigmaGrows(w0.sigma, w1.sigma) && w0.fills <= w1.fills && w1.deleted == w0.deleted
  }

  /** Once the children are done and the stacks are popped, b itself is settled. */
  lemma BlockSettles(t: Ssa, w0: Walk, w1: Walk, w2: Walk, stacks: Stacks, b: Node, cs: set<Node>, gone: set<Name>)
    requires ValidSsa(t) && OperandsAvailable(t) && AreChildren(t, b, cs) && Subtree(t, b) !! w0.deleted
    requires Working(w0, w1) && b < |t.f.cfg.succs| && FillsAt(t, w1, b, w0.fills, gone, |t.f.cfg.succs[b]|)
    requires Visited(t, w1, w2, Subtrees(t, cs)) && SameStacks(w0.stacks, stacks)
    requires Pushed(w0.stacks, w1.stacks, InstrsOf(t.f, b), |InstrsOf(t.f, b)|, |InstrsOf(t.f, b)|)
    requires stacks.Keys == w2.stacks.Keys && ReplacedWithin(t, w0.sigma, w1.sigma, {b})
    ensures b < |w2.code| && Visited(t, w0, Finish(w2.(stacks := stacks), b, gone), Subtree(t, b))
  {
    SubtreeSplits(t, b, cs);
    BlockKeysGrow(t, w0.stacks, w1.stacks, b);
    BlockIsSettled(t, w0.fills, w1, w2, b, gone);
    FillsGrowTrans(t.f.cfg, w0.fills, w1.fills, w2.fills, {b}, Subtrees(t, cs));
    ReplacedWithinTrans(t, w0.sigma, w1.sigma, w2.sigma, {b}, Subtrees(t, cs));
    CodeDeletes(t, w2.code, w2.sigma, w2.fills, w2.deleted, b, gone);
    KeysGrowTrans(t, w0.stacks, w1.stacks, w2.stacks, {b}, Subtrees(t, cs));
    SameKeysGrow(t, w0.stacks, w2.stacks, stacks, Subtree(t, b));
    assert w0.deleted + Subtree(t, b) == w2.deleted + {b};
  }

  lemma SameKeysGrow(t: Ssa, m1: Stacks, m2: Stacks, m3: Stacks, bs: set<Node>)
    requires KeysGrow(t, m1, m2, bs) && m3.Keys == m2.Keys
    ensures KeysGrow(t, m1, m3, bs)
  {
    forall v ensures KeyGrows(t, m1, m3, bs, v) {
      assert KeyGrows(t, m1, m2, bs, v);
    }
  }

  /** The keys after a block's own pushes. */
  lemma BlockKeysGrow(t: Ssa, m1: Stacks, m2: Stacks, b: Node)
    requires Pushed(m1, m2, InstrsOf(t.f, b), |InstrsOf(t.f, b)|, |InstrsOf(t.f, b)|)
    ensures KeysGrow(t, m1, m2, {b})
  {
    forall v ensures KeyGrows(t, m1, m2, {b}, v) {
      KeyAfterBlock(m1, m2, InstrsOf(t.f, b), v);
      assert DefinesSlot(t.f, b, v) ==> b in {b};
    }
  }

  lemma BlockIsSettled(t: Ssa, before: Fills, w1: Walk, w2: Walk, b: Node, gone: set<Name>)
    requires ValidSsa(t) && OperandsAvailable(t) && b < |t.f.cfg.succs|
    requires FillsAt(t, w1, b, before, gone, |t.f.cfg.succs[b]|)
    requires SigmaGrows(w1.sigma, w2.sigma) && OnlyReplacements(t, w2.sigma) && w1.fills <= w2.fills
    ensures Settled(t, w2.sigma, w2.fills, b) && FillsGrow(t.f.cfg, before, w1.fills, {b})
    ensures GoneUpTo(gone, w2.sigma, t.f.code[b].instrs, |t.f.code[b].instrs|)
  {
    GoneStable(t, b, gone, w1.sigma, w2.sigma);
    var ss := t.f.cfg.succs[b];
    assert ss[..|ss|] == ss;
    BlockFills(t.f.cfg, before, w1.fills, b);
    forall s: Node | Edge(t.f.cfg.Edges(), b, s) ensures (b, s) in w2.fills {
      t.f.cfg.EdgeLists(b, s);
      assert FilledOnce(t.f.cfg, before, w1.fills, {b}, (b, s));
    }
  }
}
