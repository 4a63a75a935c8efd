/** The effects of the renaming walk on code and stacks, as pure functions, and the
    facts that keep the code equal to its rendering. */
module Renaming {
  import opened Wrappers
  import opened Graphs
  import opened DomTree
  import opened Ir
  import opened Scopes
  import opened Promotion

  // ------------------------------------------------------------------- code

  function SubstInstr(sub: map<Name, Operand>, ins: Instr): Instr {
    Instr(ins.id, SubstOp(sub, ins.op))
  }

  function SubstInstrs(sub: map<Name, Operand>, instrs: seq<Instr>): (r: seq<Instr>)
    ensures |r| == |instrs| && forall i :: 0 <= i < |instrs| ==> r[i] == SubstInstr(sub, instrs[i])
  {
    seq(|instrs|, i requires 0 <= i < |instrs| => SubstInstr(sub, instrs[i]))
  }

  /** `replace_all_use_with`: every use of x anywhere in the function becomes o. */
  function ReplaceAll(code: seq<Code>, x: Name, o: Operand): (r: seq<Code>)
    ensures |r| == |code|
  {
    seq(|code|, b requires 0 <= b < |code| =>
      Code(SubstInstrs(map[x := o], code[b].instrs), SubstTerm(map[x := o], code[b].term)))
  }

  function StageOf(deleted: set<Node>, b: Node): Stage {
    if b in deleted then Deleted else Walking
  }

  ghost predicate BlockIs(t: Ssa, c: Code, stage: Stage, sigma: map<Name, Operand>, fills: Fills, b: Node)
    requires Climbs(t.up, t.id) && b < |t.f.code|
  {
    c == Code(Render(t, stage, sigma, fills, b, t.f.code[b].instrs), SubstTerm(sigma, t.f.code[b].term))
  }

  /** The code is t.f as far as the walk has rewritten it. */
  ghost predicate CodeIs(t: Ssa, code: seq<Code>, sigma: map<Name, Operand>, fills: Fills, deleted: set<Node>)
    requires Climbs(t.up, t.id)
  {
    && |code| == |t.f.code|
    && forall b {:trigger code[b]} :: 0 <= b < |code| ==> BlockIs(t, code[b], StageOf(deleted, b), sigma, fills, b)
  }

  lemma {:induction false} RenderLength(t: Ssa, sigma: map<Name, Operand>, fills: Fills, b: Node, instrs: seq<Instr>)
    requires Climbs(t.up, t.id)
    ensures |Render(t, Walking, sigma, fills, b, instrs)| == |instrs|
    ensures forall i :: 0 <= i < |instrs| ==>
      Render(t, Walking, sigma, fills, b, instrs)[i] == RenderInstr(t, sigma, fills, b, instrs[i])
  {
    if instrs != [] {
      RenderLength(t, sigma, fills, b, instrs[..|instrs| - 1]);
    }
  }

  ghost predicate NoPairs(instrs: seq<Instr>) {
    forall i :: 0 <= i < |instrs| && instrs[i].op.Phi? ==> instrs[i].op.pairs == []
  }

  /** Before the walk starts nothing is rewritten. */
  lemma {:induction false} RenderStart(t: Ssa, b: Node, instrs: seq<Instr>)
    requires Climbs(t.up, t.id) && NoPairs(instrs)
    ensures Render(t, Walking, map[], [], b, instrs) == instrs
  {
    if instrs != [] {
      var k := |instrs| - 1;
      var ins := instrs[k];
      RenderStart(t, b, instrs[..k]);
      SubstNothing(ins.op);
      assert RenderInstr(t, map[], [], b, ins) == ins;
      assert instrs == instrs[..k] + [ins];
    }
  }

  lemma SubstNothing(op: Op)
    requires op.Phi? ==> op.pairs == []
    ensures SubstOp(map[], op) == op
  {
    match op {
      case Calc(_, args) => assert SubstAll(map[], args) == args;
      case Call(_, args) => assert SubstAll(map[], args) == args;
      case Phi(_, pairs) => assert SubstPairs(map[], pairs) == pairs;
      case _ =>
    }
  }

  lemma CodeStarts(t: Ssa)
    requires Climbs(t.up, t.id) && forall b {:trigger t.f.code[b]} :: 0 <= b < |t.f.code| ==>
      NoPairs(t.f.code[b].instrs)
    ensures CodeIs(t, t.f.code, map[], [], {})
  {
    forall b {:trigger t.f.code[b]} | 0 <= b < |t.f.code| ensures BlockIs(t, t.f.code[b], Walking, map[], [], b) {
      RenderStart(t, b, t.f.code[b].instrs);
    }
  }

  /** No operand in use refers to x. */
  ghost predicate Unmentioned(t: Ssa, sigma: map<Name, Operand>, x: Name)
    requires Climbs(t.up, t.id)
  {
    && (forall y :: y in sigma ==> sigma[y] != Ref(x))
    && (forall p, v {:trigger ScopeOut(t, p).cur[v]} :: p in t.up && v in ScopeOut(t, p).cur ==>
      ScopeOut(t, p).cur[v] != Ref(x))
  }

  /** A replaced load is never itself a name on a stack or a replacement. */
  lemma ReplacedIsUnmentioned(t: Ssa, sigma: map<Name, Operand>, x: Name, o: Operand)
    requires ValidSsa(t) && OperandsAvailable(t) && OnlyReplacements(t, sigma) && Replaced(t, x, o)
    ensures Unmentioned(t, sigma, x) && o != Ref(x)
    ensures x in sigma ==> sigma[x] == o
  {
    var c, i :| ReplacedAt(t, c, i, x, o);
    forall y, oy | Replaced(t, y, oy) ensures oy != Ref(x) {
      var b, k :| ReplacedAt(t, b, k, y, oy);
      ScopeTidy(t, b, |InstrsOf(t.f, b)|, k);
      if oy == Ref(x) {
        ReplacedKnown(t, b, k, c, i, x, o);
      }
    }
    forall p, v | p in t.up && v in ScopeOut(t, p).cur ensures ScopeOut(t, p).cur[v] != Ref(x) {
      var n := |InstrsOf(t.f, p)|;
      ScopeTidy(t, p, n, n);
      if ScopeOut(t, p).cur[v] == Ref(x) {
        ReplacedKnown(t, p, n, c, i, x, o);
      }
    }
    if x in sigma {
      var b, k :| ReplacedAt(t, b, k, x, sigma[x]);
      assert IdAt(t.f, b, k, x) && IdAt(t.f, c, i, x);
    }
  }

  lemma ResolveThen(sigma: map<Name, Operand>, x: Name, o: Operand, y: Operand)
    requires (forall z :: z in sigma ==> sigma[z] != Ref(x)) && (x in sigma ==> sigma[x] == o) && o != Ref(x)
    ensures Resolve(map[x := o], Resolve(sigma, y)) == Resolve(sigma[x := o], y)
  {
  }

  lemma SubstThen(sigma: map<Name, Operand>, x: Name, o: Operand, op: Op)
    requires (forall z :: z in sigma ==> sigma[z] != Ref(x)) && (x in sigma ==> sigma[x] == o) && o != Ref(x)
    requires !op.Phi?
    ensures SubstOp(map[x := o], SubstOp(sigma, op)) == SubstOp(sigma[x := o], op)
  {
    forall y ensures Resolve(map[x := o], Resolve(sigma, y)) == Resolve(sigma[x := o], y) {
      ResolveThen(sigma, x, o, y);
    }
    match op {
      case Calc(_, args) =>
        assert SubstAll(map[x := o], SubstAll(sigma, args)) == SubstAll(sigma[x := o], args);
      case Call(_, args) =>
        assert SubstAll(map[x := o], SubstAll(sigma, args)) == SubstAll(sigma[x := o], args);
      case _ =>
    }
  }

  lemma {:induction false} PairsKeep(t: Ssa, fills: Fills, s: Node, v: Name, x: Name, o: Operand)
    requires Climbs(t.up, t.id)
    requires forall p, u {:trigger ScopeOut(t, p).cur[u]} :: p in t.up && u in ScopeOut(t, p).cur ==>
      ScopeOut(t, p).cur[u] != Ref(x)
    ensures SubstPairs(map[x := o], PairsFor(t, fills, s, v)) == PairsFor(t, fills, s, v)
  {
    if fills != [] {
      var init, e := fills[..|fills| - 1], fills[|fills| - 1];
      PairsKeep(t, init, s, v, x, o);
      var ps := PairsFor(t, fills, s, v);
      var qs := PairsFor(t, init, s, v);
      assert forall i :: 0 <= i < |qs| ==> SubstPairs(map[x := o], qs)[i] == qs[i];
    }
  }

  lemma {:induction false} RenderReplaces(t: Ssa, stage: Stage, sigma: map<Name, Operand>, fills: Fills, b: Node,
                                          instrs: seq<Instr>, x: Name, o: Operand)
    requires Climbs(t.up, t.id) && Unmentioned(t, sigma, x) && (x in sigma ==> sigma[x] == o) && o != Ref(x)
    requires stage == Walking || forall i :: 0 <= i < |instrs| ==> instrs[i].id != x
    ensures SubstInstrs(map[x := o], Render(t, stage, sigma, fills, b, instrs)) ==
      Render(t, stage, sigma[x := o], fills, b, instrs)
  {
    if instrs != [] {
      var k := |instrs| - 1;
      var ins := instrs[k];
      RenderReplaces(t, stage, sigma, fills, b, instrs[..k], x, o);
      if ins.op.Phi? {
        PairsKeep(t, fills, b, ins.op.slot, x, o);
      } else {
        SubstThen(sigma, x, o, ins.op);
      }
      var one := if Dropped(stage, sigma, ins) then [] else [RenderInstr(t, sigma, fills, b, ins)];
      SubstInstrsAppend(map[x := o], Render(t, stage, sigma, fills, b, instrs[..k]), one);
    }
  }

  lemma SubstInstrsAppend(sub: map<Name, Operand>, xs: seq<Instr>, ys: seq<Instr>)
    ensures SubstInstrs(sub, xs + ys) == SubstInstrs(sub, xs) + SubstInstrs(sub, ys)
  {
  }

  /** Replacing a load in a block the walk has not finished. */
  lemma CodeReplaces(t: Ssa, code: seq<Code>, sigma: map<Name, Operand>, fills: Fills, deleted: set<Node>,
                     b: Node, k: nat, x: Name, o: Operand)
    requires ValidSsa(t) && OperandsAvailable(t) && OnlyReplacements(t, sigma)
    requires CodeIs(t, code, sigma, fills, deleted) && ReplacedAt(t, b, k, x, o) && b !in deleted
    ensures CodeIs(t, ReplaceAll(code, x, o), sigma[x := o], fills, deleted)
    ensures OnlyReplacements(t, sigma[x := o]) && (x in sigma ==> sigma[x] == o)
  {
    assert Replaced(t, x, o);
    ReplacedIsUnmentioned(t, sigma, x, o);
    var code2 := ReplaceAll(code, x, o);
    forall c {:trigger code2[c]} | 0 <= c < |code2|
      ensures BlockIs(t, code2[c], StageOf(deleted, c), sigma[x := o], fills, c)
    {
      assert BlockIs(t, code[c], StageOf(deleted, c), sigma, fills, c);
      BlockReplaces(t, code[c], StageOf(deleted, c), sigma, fills, b, k, c, x, o);
    }
  }

  lemma BlockReplaces(t: Ssa, c: Code, stage: Stage, sigma: map<Name, Operand>, fills: Fills, b: Node, k: nat, d: Node,
                      x: Name, o: Operand)
    requires Climbs(t.up, t.id) && UniqueIds(t.f) && IdAt(t.f, b, k, x) && d < |t.f.code|
    requires Unmentioned(t, sigma, x) && (x in sigma ==> sigma[x] == o) && o != Ref(x)
    requires BlockIs(t, c, stage, sigma, fills, d) && (b == d ==> stage == Walking)
    ensures BlockIs(t, Code(SubstInstrs(map[x := o], c.instrs), SubstTerm(map[x := o], c.term)), stage, sigma[x := o],
      fills, d)
  {
    var instrs := t.f.code[d].instrs;
    if stage != Walking {
      forall i | 0 <= i < |instrs| ensures instrs[i].id != x {
        assert IdAt(t.f, d, i, instrs[i].id);
      }
    }
    RenderReplaces(t, stage, sigma, fills, d, instrs, x, o);
    match t.f.code[d].term {
      case Branch(cond, _, _) => ResolveThen(sigma, x, o, cond);
      case Return(Some(val)) => ResolveThen(sigma, x, o, val);
      case _ =>
    }
  }

  // ------------------------------------------------------------ filling phis

  /** Step 6 for one phi: append the name on top of its variable's stack. */
  function FillPhi(ins: Instr, names: map<Name, Operand>, p: Node): Instr {
    if ins.op.Phi? && ins.op.slot in names
    then Instr(ins.id, Phi(ins.op.slot, ins.op.pairs + [(names[ins.op.slot], p)]))
    else ins
  }

  function FillPhis(instrs: seq<Instr>, names: map<Name, Operand>, p: Node): (r: seq<Instr>)
    ensures |r| == |instrs| && forall i :: 0 <= i < |instrs| ==> r[i] == FillPhi(instrs[i], names, p)
  {
    seq(|instrs|, i requires 0 <= i < |instrs| => FillPhi(instrs[i], names, p))
  }

  lemma PairsFilled(t: Ssa, fills: Fills, e: (Node, Node), s: Node, v: Name)
    requires Climbs(t.up, t.id)
    ensures PairsFor(t, fills + [e], s, v) == PairsFor(t, fills, s, v) +
      (if e.1 == s && e.0 in t.up && v in ScopeOut(t, e.0).cur then [(ScopeOut(t, e.0).cur[v], e.0)] else [])
  {
    assert (fills + [e])[..|fills|] == fills;
  }

  lemma InstrFills(t: Ssa, sigma: map<Name, Operand>, fills: Fills, p: Node, s: Node, b: Node, ins: Instr)
    requires Climbs(t.up, t.id) && p in t.up
    ensures RenderInstr(t, sigma, fills + [(p, s)], b, ins) ==
      if b == s then FillPhi(RenderInstr(t, sigma, fills, b, ins), ScopeOut(t, p).cur, p)
      else RenderInstr(t, sigma, fills, b, ins)
  {
    if ins.op.Phi? {
      var v := ins.op.slot;
      PairsFilled(t, fills, (p, s), b, v);
      assert PairsFor(t, fills, b, v) + [] == PairsFor(t, fills, b, v);
    } else {
      assert !SubstOp(sigma, ins.op).Phi?;
    }
  }

  /** Filling distributes over lists. */
  lemma FillPhisAppend(xs: seq<Instr>, ys: seq<Instr>, names: map<Name, Operand>, p: Node)
    ensures FillPhis(xs + ys, names, p) == FillPhis(xs, names, p) + FillPhis(ys, names, p)
  {
  }

  lemma FillPhisOne(ins: Instr, names: map<Name, Operand>, p: Node)
    ensures FillPhis([ins], names, p) == [FillPhi(ins, names, p)] && FillPhis([], names, p) == []
  {
  }

  lemma {:induction false} RenderFills(t: Ssa, stage: Stage, sigma: map<Name, Operand>, fills: Fills, p: Node, s: Node,
                                       b: Node, instrs: seq<Instr>)
    requires Climbs(t.up, t.id) && p in t.up
    ensures Render(t, stage, sigma, fills + [(p, s)], b, instrs) ==
      if b == s then FillPhis(Render(t, stage, sigma, fills, b, instrs), ScopeOut(t, p).cur, p)
      else Render(t, stage, sigma, fills, b, instrs)
  {
    var names := ScopeOut(t, p).cur;
    if instrs == [] {
      FillPhisOne(Instr(0, Alloca(true)), names, p);
    } else {
      var k := |instrs| - 1;
      var ins := instrs[k];
      RenderFills(t, stage, sigma, fills, p, s, b, instrs[..k]);
      InstrFills(t, sigma, fills, p, s, b, ins);
      var rest, one := Render(t, stage, sigma, fills, b, instrs[..k]), RenderInstr(t, sigma, fills, b, ins);
      FillPhisAppend(rest, if Dropped(stage, sigma, ins) then [] else [one], names, p);
      FillPhisOne(one, names, p);
    }
  }

  lemma CodeFills(t: Ssa, code: seq<Code>, sigma: map<Name, Operand>, fills: Fills, deleted: set<Node>, p: Node,
                  s: Node)
    requires Climbs(t.up, t.id) && p in t.up && s < |code| && CodeIs(t, code, sigma, fills, deleted)
    ensures CodeIs(t, code[s := Code(FillPhis(code[s].instrs, ScopeOut(t, p).cur, p), code[s].term)], sigma,
      fills + [(p, s)], deleted)
  {
    var code2 := code[s := Code(FillPhis(code[s].instrs, ScopeOut(t, p).cur, p), code[s].term)];
    forall b {:trigger code2[b]} | 0 <= b < |code2|
      ensures BlockIs(t, code2[b], StageOf(deleted, b), sigma, fills + [(p, s)], b)
    {
      assert BlockIs(t, code[b], StageOf(deleted, b), sigma, fills, b);
      RenderFills(t, StageOf(deleted, b), sigma, fills, p, s, b, t.f.code[b].instrs);
    }
  }

  // ---------------------------------------------------------------- deletion

  /** `gone` lists exactly what the next stage drops on top of this one. */
  ghost predicate Lists(gone: set<Name>, from: Stage, to: Stage, sigma: map<Name, Operand>, ins: Instr) {
    Dropped(to, sigma, ins) <==> Dropped(from, sigma, ins) || ins.id in gone
  }

  lemma {:induction false} RenderDeletes(t: Ssa, sigma: map<Name, Operand>, fills: Fills, b: Node, instrs: seq<Instr>,
                                         from: Stage, to: Stage, gone: set<Name>)
    requires Climbs(t.up, t.id)
    requires forall i :: 0 <= i < |instrs| ==> Lists(gone, from, to, sigma, instrs[i])
    ensures Without(Render(t, from, sigma, fills, b, instrs), gone) == Render(t, to, sigma, fills, b, instrs)
  {
    if instrs != [] {
      var k := |instrs| - 1;
      RenderDeletes(t, sigma, fills, b, instrs[..k], from, to, gone);
      var rest, ins := Render(t, from, sigma, fills, b, instrs[..k]), RenderInstr(t, sigma, fills, b, instrs[k]);
      assert Lists(gone, from, to, sigma, instrs[k]) && ins.id == instrs[k].id;
      WithoutSnoc(rest, ins, gone);
      if Dropped(from, sigma, instrs[k]) {
        assert Render(t, from, sigma, fills, b, instrs) == rest;
      } else {
        assert Render(t, from, sigma, fills, b, instrs) == rest + [ins];
      }
    }
  }

  /** Deleting the replaced loads and the promoted stores finishes block b. */
  lemma CodeDeletes(t: Ssa, code: seq<Code>, sigma: map<Name, Operand>, fills: Fills, deleted: set<Node>, b: Node,
                    gone: set<Name>)
    requires Climbs(t.up, t.id) && b < |code| && CodeIs(t, code, sigma, fills, deleted) && b !in deleted
    requires forall i :: 0 <= i < |t.f.code[b].instrs| ==> Lists(gone, Walking, Deleted, sigma, t.f.code[b].instrs[i])
    ensures CodeIs(t, code[b := Code(Without(code[b].instrs, gone), code[b].term)], sigma, fills, deleted + {b})
  {
    var code2 := code[b := Code(Without(code[b].instrs, gone), code[b].term)];
    RenderDeletes(t, sigma, fills, b, t.f.code[b].instrs, Walking, Deleted, gone);
    forall c {:trigger code2[c]} | 0 <= c < |code2|
      ensures BlockIs(t, code2[c], StageOf(deleted + {b}, c), sigma, fills, c)
    {
      assert BlockIs(t, code[c], StageOf(deleted, c), sigma, fills, c);
    }
  }

  // ------------------------------------------------------------------ stacks

  type Stacks = map<Name, seq<Operand>>

  function StackOf(m: Stacks, v: Name): seq<Operand> {
    if v in m then m[v] else []
  }

  function Push(m: Stacks, v: Name, o: Operand): Stacks {
    m[v := StackOf(m, v) + [o]]
  }

  /** The stack of v is empty iff v has no name here; otherwise its top is that name.
      Everything on it is defined above and is no replaced load. */
  ghost predicate TopIs(m: Stacks, sc: Scope, v: Name) {
    var s := StackOf(m, v);
    && (s != [] <==> v in sc.cur)
    && (v in sc.cur ==> s[|s| - 1] == sc.cur[v])
    && (forall i :: 0 <= i < |s| ==> Fixed(sc, s[i]))
  }

  ghost predicate TopsAre(m: Stacks, sc: Scope) {
    forall v {:trigger TopIs(m, sc, v)} :: TopIs(m, sc, v)
  }

  ghost predicate SameStack(m1: Stacks, m2: Stacks, v: Name) {
    StackOf(m1, v) == StackOf(m2, v)
  }

  ghost predicate SameStacks(m1: Stacks, m2: Stacks) {
    forall v {:trigger SameStack(m1, m2, v)} :: SameStack(m1, m2, v)
  }

  lemma TopsTransfer(m1: Stacks, m2: Stacks, sc: Scope)
    requires SameStacks(m1, m2) && TopsAre(m1, sc)
    ensures TopsAre(m2, sc)
  {
    forall v ensures TopIs(m2, sc, v) {
      assert SameStack(m1, m2, v) && TopIs(m1, sc, v);
    }
  }

  lemma PhiTops(m: Stacks, sc: Scope, v: Name, x: Name)
    requires TopsAre(m, sc) && x !in sc.avail && sc.sub.Keys <= sc.avail
    ensures TopsAre(Push(m, v, Ref(x)), sc.(cur := sc.cur[v := Ref(x)], avail := sc.avail + {x}))
  {
    var m2, sc2 := Push(m, v, Ref(x)), sc.(cur := sc.cur[v := Ref(x)], avail := sc.avail + {x});
    forall u ensures TopIs(m2, sc2, u) {
      assert TopIs(m, sc, u);
    }
  }

  /** Steps 4 and 5 for one instruction. */
  function BodyStacks(ins: Instr, sub: map<Name, Operand>, m: Stacks): Stacks {
    if IsCellStore(ins.op) then Push(m, ins.op.to.slot, Resolve(sub, ins.op.val)) else m
  }

  lemma BodyTops(ins: Instr, m: Stacks, sc: Scope)
    requires TopsAre(m, sc) && Tidy(sc) && (!ins.op.Phi? ==> ins.id !in sc.avail)
    requires forall x :: Ref(x) in Reads(ins.op) ==> x in sc.vals
    ensures TopsAre(BodyStacks(ins, sc.sub, m), BodyStep(ins, sc))
  {
    var m2, sc2 := BodyStacks(ins, sc.sub, m), BodyStep(ins, sc);
    if IsCellStore(ins.op) {
      assert ins.op.val in Reads(ins.op);
      ResolveFixed(sc, ins.op.val);
    }
    forall u ensures TopIs(m2, sc2, u) {
      assert TopIs(m, sc, u);
    }
  }

  /** How many names the first k instructions push for v. */
  function PhiPushes(instrs: seq<Instr>, k: nat, v: Name): nat
    requires k <= |instrs|
  {
    if k == 0 then 0
    else PhiPushes(instrs, k - 1, v) + (if instrs[k - 1].op.Phi? && instrs[k - 1].op.slot == v then 1 else 0)
  }

  function StorePushes(instrs: seq<Instr>, k: nat, v: Name): nat
    requires k <= |instrs|
  {
    if k == 0 then 0
    else
      StorePushes(instrs, k - 1, v) + (if IsCellStore(instrs[k - 1].op) && instrs[k - 1].op.to.slot == v then 1 else 0)
  }

  lemma {:induction false} PushesGrow(instrs: seq<Instr>, k: nat, n: nat, v: Name)
    requires k <= n <= |instrs|
    ensures PhiPushes(instrs, k, v) <= PhiPushes(instrs, n, v) && StorePushes(instrs, k, v) <= StorePushes(instrs, n, v)
  {
    if k < n {
      PushesGrow(instrs, k, n - 1, v);
    }
  }

  /** On top of `base`, the stack of v holds `extra` more names. */
  ghost predicate Above(base: Stacks, m: Stacks, v: Name, extra: int) {
    StackOf(base, v) <= StackOf(m, v) && |StackOf(m, v)| == |StackOf(base, v)| + extra
  }

  /** A variable gets its key in the map of stacks with its first name. */
  ghost predicate KeyIs(base: Stacks, m: Stacks, v: Name) {
    v in m <==> v in base || StackOf(m, v) != []
  }

  ghost predicate PushedFor(base: Stacks, m: Stacks, instrs: seq<Instr>, j: nat, k: nat, v: Name)
    requires j <= |instrs| && k <= |instrs|
  {
    Above(base, m, v, PhiPushes(instrs, j, v) + StorePushes(instrs, k, v)) && KeyIs(base, m, v)
  }

  /** The phis of the first j and the stores of the first k instructions were pushed. */
  ghost predicate Pushed(base: Stacks, m: Stacks, instrs: seq<Instr>, j: nat, k: nat)
    requires j <= |instrs| && k <= |instrs|
  {
    forall v {:trigger PushedFor(base, m, instrs, j, k, v)} :: PushedFor(base, m, instrs, j, k, v)
  }

  ghost predicate PoppedFor(base: Stacks, m: Stacks, instrs: seq<Instr>, k: nat, v: Name)
    requires k <= |instrs|
  {
    Above(base, m, v, Total(instrs, v) - PhiPushes(instrs, k, v) - StorePushes(instrs, k, v))
  }

  /** The names of the first k instructions have been popped again. */
  ghost predicate Popped(base: Stacks, m: Stacks, instrs: seq<Instr>, k: nat)
    requires k <= |instrs|
  {
    forall v {:trigger PoppedFor(base, m, instrs, k, v)} :: PoppedFor(base, m, instrs, k, v)
  }

  function Total(instrs: seq<Instr>, v: Name): nat {
    PhiPushes(instrs, |instrs|, v) + StorePushes(instrs, |instrs|, v)
  }

  /** The variable an instruction pushed a name for. */
  predicate PushesFor(op: Op, v: Name) {
    (op.Phi? && op.slot == v) || (IsCellStore(op) && op.to.slot == v)
  }

  function Pop(m: Stacks, v: Name): Stacks
    requires StackOf(m, v) != []
  {
    m[v := StackOf(m, v)[..|StackOf(m, v)| - 1]]
  }

  lemma PushedPhi(base: Stacks, m: Stacks, instrs: seq<Instr>, j: nat)
    requires j < |instrs| && Pushed(base, m, instrs, j, 0)
    ensures Pushed(base, if instrs[j].op.Phi? then Push(m, instrs[j].op.slot, Ref(instrs[j].id)) else m,
                   instrs, j + 1, 0)
  {
    var m2 := if instrs[j].op.Phi? then Push(m, instrs[j].op.slot, Ref(instrs[j].id)) else m;
    var next := j + 1;
    forall v ensures PushedFor(base, m2, instrs, next, 0, v) {
      assert PushedFor(base, m, instrs, j, 0, v);
    }
  }

  lemma PushedStore(base: Stacks, m: Stacks, instrs: seq<Instr>, k: nat, sub: map<Name, Operand>)
    requires k < |instrs| && Pushed(base, m, instrs, |instrs|, k)
    ensures Pushed(base, BodyStacks(instrs[k], sub, m), instrs, |instrs|, k + 1)
  {
    var m2 := BodyStacks(instrs[k], sub, m);
    var next := k + 1;
    forall v ensures PushedFor(base, m2, instrs, |instrs|, next, v) {
      assert PushedFor(base, m, instrs, |instrs|, k, v);
    }
  }

  lemma PopOne(base: Stacks, m: Stacks, instrs: seq<Instr>, k: nat, v: Name)
    requires k < |instrs| && Popped(base, m, instrs, k) && PushesFor(instrs[k].op, v)
    ensures StackOf(m, v) != [] && Popped(base, Pop(m, v), instrs, k + 1)
  {
    PushesGrow(instrs, k + 1, |instrs|, v);
    assert PoppedFor(base, m, instrs, k, v);
    var m2 := Pop(m, v);
    var next := k + 1;
    forall u ensures PoppedFor(base, m2, instrs, next, u) {
      assert PoppedFor(base, m, instrs, k, u);
    }
  }

  lemma PopNone(base: Stacks, m: Stacks, instrs: seq<Instr>, k: nat)
    requires k < |instrs| && Popped(base, m, instrs, k) && !instrs[k].op.Phi? && !IsCellStore(instrs[k].op)
    ensures Popped(base, m, instrs, k + 1)
  {
    var next := k + 1;
    forall u ensures PoppedFor(base, m, instrs, next, u) {
      assert PoppedFor(base, m, instrs, k, u);
    }
  }

  lemma {:induction false} PushesShow(instrs: seq<Instr>, k: nat, v: Name)
    requires k <= |instrs|
    ensures PhiPushes(instrs, k, v) > 0 <==> HasPhi(instrs[..k], v)
    ensures StorePushes(instrs, k, v) > 0 <==> HasStore(instrs[..k], v)
  {
    if k > 0 {
      PushesShow(instrs, k - 1, v);
      HasSnoc(instrs[..k - 1], instrs[k - 1], v);
      assert instrs[..k] == instrs[..k - 1] + [instrs[k - 1]];
    }
  }

  /** A block that defines a variable leaves its key behind. */
  lemma KeyAfterBlock(base: Stacks, m: Stacks, instrs: seq<Instr>, v: Name)
    requires Pushed(base, m, instrs, |instrs|, |instrs|)
    ensures v in m <==> v in base || HasPhi(instrs, v) || HasStore(instrs, v)
  {
    PushesShow(instrs, |instrs|, v);
    assert instrs[..|instrs|] == instrs;
    assert PushedFor(base, m, instrs, |instrs|, |instrs|, v);
  }

  lemma PopsBegin(base: Stacks, m: Stacks, m2: Stacks, instrs: seq<Instr>)
    requires Pushed(base, m, instrs, |instrs|, |instrs|) && SameStacks(m, m2)
    ensures Popped(base, m2, instrs, 0)
  {
    forall u ensures PoppedFor(base, m2, instrs, 0, u) {
      assert SameStack(m, m2, u);
      assert PushedFor(base, m, instrs, |instrs|, |instrs|, u);
    }
  }

  lemma PopsEnd(base: Stacks, m: Stacks, instrs: seq<Instr>)
    requires Popped(base, m, instrs, |instrs|)
    ensures SameStacks(base, m)
  {
    forall u ensures SameStack(base, m, u) {
      assert PoppedFor(base, m, instrs, |instrs|, u);
    }
  }
}
