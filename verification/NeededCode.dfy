/** Which instructions are not dead, by opcode and by chains of operands. */
module NeededCode {
  import opened Wrappers
  import opened Graphs
  import opened Ir
  import opened Scopes
  import opened DeadCode

  ghost predicate HoldsStoreOrCall(f: Func) {
    exists b: Node, i: nat :: b < |f.code| && i < |f.code[b].instrs| &&
      (f.code[b].instrs[i].op.Store? || f.code[b].instrs[i].op.Call?)
  }

  /** A store, or a call of a function that the module does not define or that holds a
      store or a call. */
  ghost predicate HasEffect(mod: Module, op: Op) {
    op.Store? || (op.Call? && (op.callee >= |mod| || mod[op.callee].code == [] || HoldsStoreOrCall(mod[op.callee])))
  }

  /** One of the operands is the value y, or the stack slot y. */
  ghost predicate RefersTo(op: Op, y: Name) {
    match op
    case Phi(_, pairs) => exists i :: 0 <= i < |pairs| && pairs[i].0 == Ref(y)
    case Load(Cell(v)) => v == y
    case Load(Mem(ptr)) => ptr == Ref(y)
    case Store(val, Cell(v)) => val == Ref(y) || v == y
    case Store(val, Mem(ptr)) => val == Ref(y) || ptr == Ref(y)
    case Calc(_, args) => Ref(y) in args
    case Call(_, args) => Ref(y) in args
    case Alloca(_) => false
  }

  ghost predicate EndsWith(t: Term, x: Name) {
    (t.Branch? && t.cond == Ref(x)) || (t.Return? && t.result == Some(Ref(x)))
  }

  /** x has an effect, or a terminator branches on it or returns it. */
  ghost predicate IsStart(mod: Module, f: Func, x: Name) {
    || (exists b: Node, i: nat :: IdAt(f, b, i, x) && HasEffect(mod, f.code[b].instrs[i].op))
    || (IsInstr(f, x) && exists b :: 0 <= b < |f.code| && EndsWith(f.code[b].term, x))
  }

  ghost predicate RefersAt(f: Func, x: Name, y: Name) {
    exists b: Node, i: nat :: IdAt(f, b, i, x) && RefersTo(f.code[b].instrs[i].op, y)
  }

  /** Every instruction of the chain refers to the next one. */
  ghost predicate IsChain(f: Func, p: seq<Name>) {
    && (forall i :: 0 <= i < |p| ==> IsInstr(f, p[i]))
    && forall i, j {:trigger p[i], p[j]} :: 0 <= i && j == i + 1 && j < |p| ==> RefersAt(f, p[i], p[j])
  }

  ghost predicate NeededBy(mod: Module, f: Func, p: seq<Name>, x: Name) {
    p != [] && IsChain(f, p) && IsStart(mod, f, p[0]) && p[|p| - 1] == x
  }

  ghost predicate Needed(mod: Module, f: Func, x: Name) {
    exists p :: NeededBy(mod, f, p, x)
  }

  // ------------------------------------------------------------- marking is this

  lemma OperandsIff(op: Op, y: Name)
    ensures Ref(y) in Operands(op) <==> RefersTo(op, y)
  {
    match op {
      case Phi(_, pairs) =>
        if RefersTo(op, y) {
          var i :| 0 <= i < |pairs| && pairs[i].0 == Ref(y);
          assert Operands(op)[i] == Ref(y);
        }
      case _ =>
    }
  }

  lemma EffectIff(mod: Module, nonEffect: set<nat>, op: Op)
    requires AreNonEffect(mod, nonEffect)
    ensures IsEffect(op, nonEffect) <==> HasEffect(mod, op)
  {
    if op.Call? && op.callee < |mod| {
      var f := mod[op.callee];
      assert op.callee in nonEffect <==> IsNonEffect(f);
      assert IsNonEffect(f) <==> f.code != [] && !HoldsStoreOrCall(f);
    }
  }

  lemma StartIff(mod: Module, f: Func, defs: Defs, nonEffect: set<nat>, x: Name)
    requires DefsAre(f, defs) && AreNonEffect(mod, nonEffect)
    ensures IsStart(mod, f, x) <==> IsRoot(f, defs, nonEffect, x)
  {
    assert x in defs <==> IsInstr(f, x);
    if x in defs {
      EffectIff(mod, nonEffect, defs[x]);
    }
    forall b: Node ensures ReadAtEnd(f, b, x) <==> b < |f.code| && EndsWith(f.code[b].term, x) {}
  }

  lemma {:induction false} ChainIsMarked(mod: Module, f: Func, defs: Defs, nonEffect: set<nat>, w: set<Name>,
                                         p: seq<Name>, x: Name)
    requires DefsAre(f, defs) && AreNonEffect(mod, nonEffect) && IsMarked(f, defs, nonEffect, w)
    requires NeededBy(mod, f, p, x)
    ensures x in w
  {
    var k := |p| - 1;
    if k == 0 {
      StartIff(mod, f, defs, nonEffect, x);
    } else {
      var q := p[..k];
      ChainIsMarked(mod, f, defs, nonEffect, w, q, p[k - 1]);
      assert RefersAt(f, p[k - 1], p[k]);
      var b: Node, i: nat :| IdAt(f, b, i, p[k - 1]) && RefersTo(f.code[b].instrs[i].op, x);
      OperandsIff(defs[p[k - 1]], x);
      assert ClosedAt(defs, w, p[k - 1]);
    }
  }

  lemma NeededGoesOn(mod: Module, f: Func, defs: Defs, x: Name, y: Name)
    requires DefsAre(f, defs) && x in defs && y in defs && Needed(mod, f, x) && Ref(y) in Operands(defs[x])
    ensures Needed(mod, f, y)
  {
    var p :| NeededBy(mod, f, p, x);
    var b: Node, i: nat :| IdAt(f, b, i, x);
    OperandsIff(defs[x], y);
    assert RefersAt(f, x, y) && IsInstr(f, y);
    ChainGoesOn(f, p, y);
    assert NeededBy(mod, f, p + [y], y);
  }

  lemma ChainGoesOn(f: Func, p: seq<Name>, y: Name)
    requires p != [] && IsChain(f, p) && RefersAt(f, p[|p| - 1], y) && IsInstr(f, y)
    ensures IsChain(f, p + [y])
  {
  }

  /** The least marked set holds exactly the needed instructions. */
  lemma MarkedIff(mod: Module, f: Func, defs: Defs, nonEffect: set<nat>, w: set<Name>)
    requires DefsAre(f, defs) && AreNonEffect(mod, nonEffect) && IsMarked(f, defs, nonEffect, w)
    ensures forall x :: x in w <==> Needed(mod, f, x)
  {
    var needed := set x | x in defs && Needed(mod, f, x);
    forall x | x in needed ensures ClosedAt(defs, needed, x) {
      forall y | Ref(y) in Operands(defs[x]) && y in defs ensures y in needed {
        NeededGoesOn(mod, f, defs, x, y);
      }
    }
    forall x | IsRoot(f, defs, nonEffect, x) ensures x in needed {
      StartIff(mod, f, defs, nonEffect, x);
      assert NeededBy(mod, f, [x], x);
    }
    assert IsClosed(defs, needed) && HoldsRoots(f, defs, nonEffect, needed);
    forall x | Needed(mod, f, x) ensures x in w {
      var p :| NeededBy(mod, f, p, x);
      ChainIsMarked(mod, f, defs, nonEffect, w, p, x);
    }
  }
}
