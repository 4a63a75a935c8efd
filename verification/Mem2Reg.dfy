/** The Mem2Reg pass for one function: the renaming walk over the dominator tree. */
module Mem2Reg {
  import opened Graphs
  import opened ControlFlow
  import opened DomTree
  import opened Ir
  import opened Scopes
  import opened Promotion
  import opened Renaming
  import opened RenameWalk
  import opened VisitOrder
  import opened UseRuns
  import opened CodeUses

  class Renamer {
    const cfg: Cfg
    const children: map<Node, set<Node>>
    const addr: Addresses
    var code: seq<Code>
    var stacks: Stacks

    ghost const t: Ssa
    ghost var sigma: map<Name, Operand>
    ghost var fills: Fills
    ghost var deleted: set<Node>
    /** The operands of the code as slots with use lists, edited alongside the code. */
    ghost var lists: UseTable

    constructor (cfg: Cfg, children: map<Node, set<Node>>, addr: Addresses, code: seq<Code>, ghost t: Ssa,
                 ghost lists: UseTable)
      requires Follows(code, lists, {})
      ensures this.cfg == cfg && this.children == children && this.addr == addr && this.t == t
      ensures Now() == Walk(code, map[], map[], [], {}) && InStep()
    {
      this.cfg, this.children, this.addr, this.code, this.t := cfg, children, addr, code, t;
      stacks, sigma, fills, deleted, this.lists := map[], map[], [], {}, lists;
    }

    /** The use lists are those of the code, in order. */
    ghost predicate InStep()
      reads this`code, this`sigma, this`lists
    {
      Follows(code, lists, sigma.Keys)
    }

    ghost function Now(): Walk
      reads this`code, this`stacks, this`sigma, this`fills, this`deleted
    {
      Walk(code, stacks, sigma, fills, deleted)
    }

    /** What the steps for one block rely on. */
    ghost predicate Placed() {
      ValidSsa(t) && OperandsAvailable(t) && cfg == t.f.cfg
    }

    /** The inputs the walk relies on. */
    ghost predicate Ready() {
      && Placed() && AreAddresses(cfg, addr)
      && (forall b :: b in t.up ==> b in children && AreChildren(t, b, children[b]))
    }

    /** Step 3 for instruction j. */
    method PushOne(bb: Node, j: nat, ghost base: Stacks)
      requires Placed() && PhisAt(t, Now(), base, bb, j) && j < |InstrsOf(t.f, bb)|
      modifies this`stacks
      ensures PhisAt(t, Now(), base, bb, j + 1)
    {
      ghost var w := Now();
      InstrIs(t, w, bb, j);
      PhisStep(t, w, base, bb, j);
      SubstKeepsKind(sigma, t.f.code[bb].instrs[j].op);
      var ins := code[bb].instrs[j];
      if ins.op.Phi? {
        stacks := Push(stacks, ins.op.slot, Ref(ins.id));
        assert Now() == w.(stacks := stacks);
      }
    }

    /** Step 3: push the phis of bb. */
    method PushPhis(bb: Node)
      requires Placed() && InBlock(t, Now(), bb)
      requires TopsAre(stacks, ScopeIn(t, bb)) && CoversScope(sigma, ScopeIn(t, bb))
      modifies this`stacks
      ensures PhisAt(t, Now(), old(stacks), bb, |InstrsOf(t.f, bb)|)
    {
      PhisBegin(t, Now(), bb);
      SameLength(t, Now(), bb);
      for j := 0 to |code[bb].instrs|
        invariant PhisAt(t, Now(), old(stacks), bb, j)
      {
        PushOne(bb, j, old(stacks));
      }
    }

    /** Step 4: every use of the load becomes the top of its variable's stack, by value and by
        use list alike. */
    method ReplaceUses(x: Name, top: Operand)
      requires InStep() && x !in sigma && top != Ref(x) && forall y :: y in sigma ==> top != Ref(y)
      modifies this`code, this`sigma, this`lists
      ensures Now() == WithReplaced(old(Now()), x, top)
      ensures lists == Apply(old(lists), Replace(Def(x), ItemOf(top))) && InStep()
    {
      ReplaceFollows(code, lists, sigma.Keys, x, top);
      code := ReplaceAll(code, x, top);
      sigma := sigma[x := top];
      lists := Apply(lists, Replace(Def(x), ItemOf(top)));
      assert sigma.Keys == old(sigma).Keys + {x};
    }

    method ReplaceLoad(x: Name, top: Operand, ghost base: Stacks, ghost bb: Node, ghost k: nat, ghost gone: set<Name>)
      requires Climbs(t.up, t.id) && BodyAt(t, WithReplaced(Now(), x, top), base, bb, k, gone)
      requires SigmaGrows(sigma, WithReplaced(Now(), x, top).sigma)
      requires InStep() && x !in sigma && top != Ref(x) && forall y :: y in sigma ==> top != Ref(y)
      modifies this`code, this`sigma, this`lists
      ensures Now() == WithReplaced(old(Now()), x, top) && InStep()
      ensures SigmaGrows(old(sigma), sigma) && BodyAt(t, Now(), base, bb, k, gone)
    {
      ghost var w2 := WithReplaced(Now(), x, top);
      ReplaceUses(x, top);
      assert Now() == w2 && sigma == w2.sigma;
    }

    /** Step 4 for a load whose variable has a name. */
    method ReplaceNamedLoad(bb: Node, k: nat, ghost base: Stacks, ghost waitDelete: set<Name>, x: Name, v: Name)
      requires Placed() && BodyAt(t, Now(), base, bb, k, waitDelete) && k < |InstrsOf(t.f, bb)|
      requires t.f.code[bb].instrs[k] == Instr(x, Load(Cell(v))) && v in stacks && stacks[v] != []
      requires InStep() && x !in sigma
      modifies this`code, this`sigma, this`lists
      ensures SigmaGrows(old(sigma), sigma) && BodyAt(t, Now(), base, bb, k + 1, waitDelete + {x})
      ensures InStep() && sigma.Keys == old(sigma).Keys + {x}
    {
      var top := stacks[v][|stacks[v]| - 1];
      NamedLoad(t, Now(), base, bb, k, waitDelete, x, v, top);
      ReplaceLoad(x, top, base, bb, k + 1, waitDelete + {x});
    }

    /** Step 4 for the load at k. Gives up where the stack exists but is empty: where the
        variable has no name and had its key already on entry to bb. */
    method RewriteLoad(bb: Node, k: nat, ghost base: Stacks, ghost s0: map<Name, Operand>,
                       waitDelete: set<Name>) returns (ok: bool, gone: set<Name>)
      requires Placed() && RewritingAt(t, Now(), base, s0, bb, k, waitDelete) && k < |InstrsOf(t.f, bb)|
      requires k < |code[bb].instrs| && IsCellLoad(code[bb].instrs[k].op)
      requires InStep()
      modifies this`code, this`sigma, this`lists
      ensures ok ==> RewritingAt(t, Now(), base, s0, bb, k + 1, gone) && InStep()
      ensures ok <==> LoadFlows(t, base, bb, k)
    {
      ok, gone := true, waitDelete;
      InstrIs(t, Now(), bb, k);
      SubstKeepsKind(sigma, t.f.code[bb].instrs[k].op);
      LoadFlowsIff(t, Now(), base, bb, k, waitDelete);
      NextIsNotReplaced(t, Now(), base, s0, bb, k, waitDelete);
      var x, v := code[bb].instrs[k].id, code[bb].instrs[k].op.from.slot;
      if v in stacks && stacks[v] != [] {
        ReplaceNamedLoad(bb, k, base, gone, x, v);
        gone := gone + {x};
      } else {
        BodyUnnamedLoad(t, Now(), base, bb, k, gone);
        ok := v !in stacks;
      }
    }

    /** Step 5 for the store at k. */
    method RewriteStore(bb: Node, k: nat, ghost base: Stacks, ghost s0: map<Name, Operand>,
                        waitDelete: set<Name>) returns (gone: set<Name>)
      requires Placed() && RewritingAt(t, Now(), base, s0, bb, k, waitDelete) && k < |InstrsOf(t.f, bb)|
      requires IsCellStore(t.f.code[bb].instrs[k].op)
      modifies this`stacks
      ensures RewritingAt(t, Now(), base, s0, bb, k + 1, gone)
    {
      ghost var w := Now();
      RewritesStore(t, w, base, s0, bb, k, waitDelete);
      var ins := code[bb].instrs[k];
      stacks := Push(stacks, ins.op.to.slot, ins.op.val);
      gone := waitDelete + {ins.id};
      assert Now() == WithPushed(w, ins.op.to.slot, ins.op.val);
    }

    /** Steps 4 and 5 for instruction k. */
    method RewriteOne(bb: Node, k: nat, ghost base: Stacks, ghost s0: map<Name, Operand>,
                      waitDelete: set<Name>) returns (ok: bool, gone: set<Name>)
      requires Placed() && RewritingAt(t, Now(), base, s0, bb, k, waitDelete) && k < |InstrsOf(t.f, bb)|
      requires InStep()
      modifies this`code, this`stacks, this`sigma, this`lists
      ensures ok ==> RewritingAt(t, Now(), base, s0, bb, k + 1, gone) && InStep()
      ensures ok <==> LoadFlows(t, base, bb, k)
    {
      ok, gone := true, waitDelete;
      InstrIs(t, Now(), bb, k);
      SubstKeepsKind(sigma, t.f.code[bb].instrs[k].op);
      var ins := code[bb].instrs[k];
      if IsCellLoad(ins.op) {
        ok, gone := RewriteLoad(bb, k, base, s0, waitDelete);
      } else if IsCellStore(ins.op) {
        gone := RewriteStore(bb, k, base, s0, waitDelete);
      } else {
        RewritesOther(t, Now(), base, s0, bb, k, gone);
      }
    }

    /** Steps 4 and 5: replace loads by the top of their stack, push what stores store. */
    method RewriteBody(bb: Node, ghost base: Stacks) returns (ok: bool, waitDelete: set<Name>)
      requires Placed() && PhisAt(t, Now(), base, bb, |InstrsOf(t.f, bb)|)
      requires InStep() && ReplacedSince(t, sigma.Keys, sigma, {}, bb)
      modifies this`code, this`stacks, this`sigma, this`lists
      ensures ok ==> RewritingAt(t, Now(), base, old(sigma), bb, |InstrsOf(t.f, bb)|, waitDelete) && InStep()
      ensures ok <==> LoadsFlow(t, base, bb, |InstrsOf(t.f, bb)|)
    {
      ok, waitDelete := true, {};
      RewritingBegins(t, Now(), base, bb);
      ghost var s0 := sigma;
      var n := |code[bb].instrs|;
      for k := 0 to n
        invariant RewritingAt(t, Now(), base, s0, bb, k, waitDelete)
        invariant InStep() && LoadsFlow(t, base, bb, k)
      {
        LoadsFlowSnoc(t, base, bb, k);
        ok, waitDelete := RewriteOne(bb, k, base, s0, waitDelete);
        if !ok {
          return;
        }
      }
    }

    /** Step 6 for one successor: append the current names to its phis. Gives up at a
        stack that exists but is empty. */
    method FillOne(bb: Node, s: Node) returns (ok: bool)
      requires Placed() && bb in t.up && TopsAre(stacks, ScopeOut(t, bb)) && s < |code|
      requires InStep() && OnlyReplacements(t, sigma)
      modifies this`code, this`lists
      ensures ok ==> code == old(code)[s := Code(FillPhis(old(code)[s].instrs, ScopeOut(t, bb).cur, bb),
        old(code)[s].term)]
      ensures ok ==> lists == FillLists(old(lists), old(code)[s].instrs, ScopeOut(t, bb).cur, bb) && InStep()
      ensures ok <==> NoneEmpty(stacks, old(code)[s].instrs)
    {
      ok := true;
      ghost var names := ScopeOut(t, bb).cur;
      var instrs := code[s].instrs;
      var filled := [];
      for i := 0 to |instrs|
        invariant code == old(code) && lists == old(lists) && filled == FillPhis(instrs[..i], names, bb) &&
          NoneEmpty(stacks, instrs[..i])
      {
        var ins := instrs[i];
        assert instrs[..i + 1] == instrs[..i] + [ins];
        NoneEmptySnoc(stacks, instrs, i);
        if ins.op.Phi? {
          FillPhiFromTop(t, stacks, bb, ins);
          var v := ins.op.slot;
          if v in stacks {
            if stacks[v] == [] {
              return false;
            }
            ins := Instr(ins.id, Phi(v, ins.op.pairs + [(stacks[v][|stacks[v]| - 1], bb)]));
          }
        }
        filled := filled + [ins];
      }
      assert instrs[..|instrs|] == instrs;
      NamesAreNotReplaced(t, sigma, bb);
      FillFollows(code, lists, sigma.Keys, s, names, bb);
      lists := FillLists(lists, instrs, names, bb);
      code := code[s := Code(filled, code[s].term)];
    }

    /** Step 6 for successor i of bb. */
    method FillSuccessor(bb: Node, i: nat, ghost base: Stacks, ghost before: Fills,
                         ghost gone: set<Name>) returns (ok: bool)
      requires Placed() && FillsAt(t, Now(), bb, before, gone, i) && i < |cfg.succs[bb]|
      requires Pushed(base, stacks, InstrsOf(t.f, bb), |InstrsOf(t.f, bb)|, |InstrsOf(t.f, bb)|)
      requires InStep()
      modifies this`code, this`fills, this`lists
      ensures ok ==> FillsAt(t, Now(), bb, before, gone, i + 1) && InStep()
      ensures ok <==> EdgeFlows(t, base, bb, cfg.succs[bb][i])
    {
      var s := cfg.succs[bb][i];
      cfg.EdgeLists(bb, s);
      ghost var w := Now();
      EdgeFlowsIff(t, w, base, bb, s);
      FillsStep(t, w, bb, before, gone, i);
      ok := FillOne(bb, s);
      fills := fills + [(bb, s)];
      assert ok ==> Now() == w.(code := code, fills := fills);
    }

    /** Step 6. */
    method FillSuccessors(bb: Node, ghost base: Stacks, ghost gone: set<Name>) returns (ok: bool)
      requires Placed() && FillsAt(t, Now(), bb, fills, gone, 0)
      requires Pushed(base, stacks, InstrsOf(t.f, bb), |InstrsOf(t.f, bb)|, |InstrsOf(t.f, bb)|)
      requires InStep()
      modifies this`code, this`fills, this`lists
      ensures ok ==> FillsAt(t, Now(), bb, old(fills), gone, |cfg.succs[bb]|) && InStep()
      ensures ok <==> EdgesFlow(t, base, bb, |cfg.succs[bb]|)
    {
      ok := true;
      ghost var before := fills;
      for i := 0 to |cfg.succs[bb]|
        invariant FillsAt(t, Now(), bb, before, gone, i) && InStep() && EdgesFlow(t, base, bb, i)
      {
        ok := FillSuccessor(bb, i, base, before, gone);
        if !ok {
          return;
        }
      }
    }

    /** Step 7: pop what this block pushed. */
    method PopAll(bb: Node, ghost base: Stacks)
      requires Placed() && InBlock(t, Now(), bb) && Popped(base, stacks, InstrsOf(t.f, bb), 0)
      modifies this`stacks
      ensures SameStacks(base, stacks) && stacks.Keys == old(stacks).Keys
    {
      ghost var w, instrs := Now(), InstrsOf(t.f, bb);
      SameLength(t, w, bb);
      for k := 0 to |code[bb].instrs|
        invariant Popped(base, stacks, instrs, k) && stacks.Keys == old(stacks).Keys
      {
        InstrIs(t, w, bb, k);
        SubstKeepsKind(sigma, instrs[k].op);
        var ins := code[bb].instrs[k];
        if IsCellStore(ins.op) {
          PopOne(base, stacks, instrs, k, ins.op.to.slot);
          stacks := Pop(stacks, ins.op.to.slot);
        } else if ins.op.Phi? {
          PopOne(base, stacks, instrs, k, ins.op.slot);
          stacks := Pop(stacks, ins.op.slot);
        } else {
          PopNone(base, stacks, instrs, k);
        }
      }
      PopsEnd(base, stacks, instrs);
    }

    /** Step 7 when the stacks are again as they were after steps 3 to 6. */
    method PopBlock(bb: Node, ghost base: Stacks, ghost pushed: Stacks)
      requires Placed() && InBlock(t, Now(), bb) && SameStacks(pushed, stacks)
      requires Pushed(base, pushed, InstrsOf(t.f, bb), |InstrsOf(t.f, bb)|, |InstrsOf(t.f, bb)|)
      modifies this`stacks
      ensures SameStacks(base, stacks) && stacks.Keys == old(stacks).Keys
    {
      PopsBegin(base, pushed, stacks, InstrsOf(t.f, bb));
      PopAll(bb, base);
    }

    /** The deletions at the end of the visit. */
    method DeleteAll(bb: Node, waitDelete: set<Name>)
      requires bb < |code| && InStep()
      modifies this`code, this`deleted, this`lists
      ensures Now() == Finish(old(Now()), bb, waitDelete)
      ensures lists == DeleteLists(old(lists), old(code)[bb].instrs, waitDelete) && InStep()
    {
      DeleteFollows(code, lists, sigma.Keys, bb, waitDelete);
      lists := DeleteLists(lists, code[bb].instrs, waitDelete);
      code := code[bb := Code(Without(code[bb].instrs, waitDelete), code[bb].term)];
      deleted := deleted + {bb};
    }

    /** Step 7 and the deletions, once the children of bb are done. */
    method LeaveBlock(bb: Node, waitDelete: set<Name>, ghost w0: Walk, ghost w1: Walk)
      requires Placed() && bb in t.up && bb in children && AreChildren(t, bb, children[bb])
      requires Subtree(t, bb) !! w0.deleted && Working(w0, w1)
      requires bb < |cfg.succs| && FillsAt(t, w1, bb, w0.fills, waitDelete, |cfg.succs[bb]|)
      requires Pushed(w0.stacks, w1.stacks, InstrsOf(t.f, bb), |InstrsOf(t.f, bb)|, |InstrsOf(t.f, bb)|)
      requires Visited(t, w1, Now(), Subtrees(t, children[bb])) && InBlock(t, Now(), bb)
      requires InStep() && ReplacedWithin(t, w0.sigma, w1.sigma, {bb})
      modifies this`code, this`stacks, this`deleted, this`lists
      ensures Visited(t, w0, Now(), Subtree(t, bb)) && InStep()
    {
      ghost var w2 := Now();
      PopBlock(bb, w0.stacks, w1.stacks);
      BlockSettles(t, w0, w1, w2, stacks, bb, children[bb], waitDelete);
      assert Now() == w2.(stacks := stacks);
      DeleteAll(bb, waitDelete);
    }

    /** The first element of a set that is ordered by address. */
    method First(todo: set<Node>) returns (c: Node)
      requires todo != {} && forall x :: x in todo ==> x in addr
      ensures c in todo && forall x :: x in todo ==> addr[c] <= addr[x]
    {
      c :| c in todo;
      var rest := todo - {c};
      while rest != {}
        invariant rest <= todo && c in todo && forall x :: x in todo - rest ==> addr[c] <= addr[x]
        decreases rest
      {
        var x :| x in rest;
        rest := rest - {x};
        if addr[x] < addr[c] {
          c := x;
        }
      }
    }

    /** Visits the child of bb that comes next. */
    method ReNameNext(bb: Node, ghost w: Walk, todo: set<Node>) returns (ok: bool, c: Node)
      requires Ready() && bb in t.up && BeforeChildren(t, addr, w, bb, children[bb]) && todo <= children[bb] &&
        todo != {}
      requires ChildrenAt(t, addr, w, Now(), children[bb], children[bb] - todo) && InStep()
      modifies this`code, this`stacks, this`sigma, this`fills, this`deleted, this`lists
      ensures c in todo
      ensures ok ==> ChildrenAt(t, addr, w, Now(), children[bb], children[bb] - (todo - {c})) && InStep()
      ensures !ok ==> !NoneStuck(t, addr, Subtrees(t, children[bb]))
      decreases t.id[bb], 0
    {
      c := First(todo);
      ghost var w1 := Now();
      ChildMayBeEntered(t, addr, w, w1, bb, children[bb], todo, c);
      ok := ReName(c);
      if ok {
        ChildIsDone(t, addr, w, w1, Now(), children[bb], todo, c);
      }
    }

    /** Visits the children of bb in the dominator tree, by ascending address. */
    method ReNameChildren(bb: Node) returns (ok: bool)
      requires Ready() && bb in t.up && BeforeChildren(t, addr, Now(), bb, children[bb]) && InStep()
      modifies this`code, this`stacks, this`sigma, this`fills, this`deleted, this`lists
      ensures ok ==> Visited(t, old(Now()), Now(), Subtrees(t, children[bb])) && InStep()
      ensures ok <==> NoneStuck(t, addr, Subtrees(t, children[bb]))
      decreases t.id[bb], 1
    {
      ok := true;
      var todo := children[bb];
      ghost var w := Now();
      ChildrenBegin(t, addr, w, bb, children[bb]);
      while todo != {}
        invariant todo <= children[bb] && ChildrenAt(t, addr, w, Now(), children[bb], children[bb] - todo) && InStep()
        decreases todo
      {
        var c;
        ok, c := ReNameNext(bb, w, todo);
        if !ok {
          return;
        }
        todo := todo - {c};
      }
      ChildrenEnd(t, addr, w, Now(), children[bb]);
    }

    /** Steps 3 to 6. They fail exactly where bb reads a stack that exists and is empty. */
    method RewriteBlock(bb: Node) returns (ok: bool, waitDelete: set<Name>)
      requires Placed() && InBlock(t, Now(), bb) && bb < |cfg.succs|
      requires TopsAre(stacks, ScopeIn(t, bb)) && CoversScope(sigma, ScopeIn(t, bb))
      requires InStep() && ReplacedSince(t, sigma.Keys, sigma, {}, bb)
      modifies this`code, this`stacks, this`sigma, this`fills, this`lists
      ensures ok ==> Working(old(Now()), Now()) && InStep() && ReplacedWithin(t, old(sigma), sigma, {bb})
      ensures ok ==> FillsAt(t, Now(), bb, old(fills), waitDelete, |cfg.succs[bb]|)
      ensures ok ==> Pushed(old(stacks), stacks, InstrsOf(t.f, bb), |InstrsOf(t.f, bb)|, |InstrsOf(t.f, bb)|)
      ensures ok <==> !MeetsEmpty(t, old(stacks), bb)
    {
      ghost var base := stacks;
      MeetsEmptyIff(t, base, bb);
      PushPhis(bb);
      ok, waitDelete := RewriteBody(bb, base);
      if ok {
        ReplacedInBlock(t, old(sigma), sigma, waitDelete, bb, |InstrsOf(t.f, bb)|);
        ok := FillSuccessors(bb, base, waitDelete);
      }
    }

    /** `re_name`. It gives up exactly where some block of the subtree misses a name that a
        block entered before it gave. */
    method ReName(bb: Node) returns (ok: bool)
      requires Ready() && MayEnter(t, addr, Now(), bb) && InStep()
      modifies this`code, this`stacks, this`sigma, this`fills, this`deleted, this`lists
      ensures ok ==> Visited(t, old(Now()), Now(), Subtree(t, bb)) && InStep()
      ensures ok <==> NoneStuck(t, addr, Subtree(t, bb))
      decreases t.id[bb], 2
    {
      ghost var w0 := Now();
      assert AreChildren(t, bb, children[bb]);
      BlockInSubtree(t, w0, bb);
      NothingReplaced(t, sigma, Entered(t, addr, bb), bb);
      EnterStuckIff(t, addr, w0, bb, children[bb]);
      var waitDelete;
      ok, waitDelete := RewriteBlock(bb);
      if ok {
        ghost var w1 := Now();
        ChildrenAreNext(t, addr, w0, w1, bb, children[bb], waitDelete);
        ok := ReNameChildren(bb);
        if ok {
          LeaveBlock(bb, waitDelete, w0, w1);
        }
      }
    }
  }
}
