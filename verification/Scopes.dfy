/** What the renaming walk knows at each program point, as a function of the idom
    chain: the name on top of every variable's stack, what each promoted load has
    been replaced by, and the values defined so far, with or without the phis. */
module Scopes {
  import opened Graphs
  import opened ControlFlow
  import opened DomTree
  import opened Frontiers
  import opened Ir

  datatype Scope = Scope(cur: map<Name, Operand>, sub: map<Name, Operand>, avail: set<Name>, vals: set<Name>) {

    function Define(x: Name): Scope {
      this.(avail := avail + {x}, vals := vals + {x})
    }
  }

  function Resolve(sub: map<Name, Operand>, o: Operand): Operand {
    match o
    case Const(_) => o
    case Ref(n) => if n in sub then sub[n] else o
  }

  /** After the first k instructions' phis were pushed (step 3 of the walk). */
  ghost function PhiScope(instrs: seq<Instr>, k: nat, sc: Scope): Scope
    requires k <= |instrs|
  {
    if k == 0 then sc
    else
      var s := PhiScope(instrs, k - 1, sc);
      var ins := instrs[k - 1];
      if ins.op.Phi? then s.(cur := s.cur[ins.op.slot := Ref(ins.id)], avail := s.avail + {ins.id}) else s
  }

  /** One instruction of the load/store loop (steps 4 and 5 of the walk). */
  ghost function BodyStep(ins: Instr, s: Scope): Scope {
    match ins.op
    case Phi(_, _) => s
    case Load(Cell(v)) =>
      if v in s.cur then s.(sub := s.sub[ins.id := s.cur[v]]).Define(ins.id) else s.Define(ins.id)
    case Store(val, Cell(v)) => s.(cur := s.cur[v := Resolve(s.sub, val)])
    case _ => if Defines(ins.op) then s.Define(ins.id) else s
  }

  ghost function BodyScope(instrs: seq<Instr>, k: nat, sc: Scope): Scope
    requires k <= |instrs|
  {
    if k == 0 then sc else BodyStep(instrs[k - 1], BodyScope(instrs, k - 1, sc))
  }

  /** A function with its dominator tree. */
  datatype Ssa = Ssa(f: Func, up: Tree, id: Numbering)

  ghost predicate ValidSsa(t: Ssa) {
    && ValidFunc(t.f) && t.f.cfg.ReachablePreds() && UniqueIds(t.f)
    && IsDominatorTree(t.f.cfg.Edges(), t.id, t.up) && t.up.Keys <= t.f.cfg.Edges().Keys
  }

  ghost predicate IdAt(f: Func, b: Node, i: nat, x: Name) {
    b < |f.code| && i < |f.code[b].instrs| && f.code[b].instrs[i].id == x
  }

  /** Instruction identities are distinct, and distinct from the arguments. */
  ghost predicate UniqueIds(f: Func) {
    && (forall b, i, c, j, x {:trigger IdAt(f, b, i, x), IdAt(f, c, j, x)} :: IdAt(f, b, i, x) && IdAt(f, c, j, x) ==>
      b == c && i == j)
    && (forall b, i, x {:trigger IdAt(f, b, i, x)} :: IdAt(f, b, i, x) ==> x !in f.args)
  }

  ghost function InstrsOf(f: Func, b: Node): seq<Instr> {
    if b < |f.code| then f.code[b].instrs else []
  }

  /** On entering b: what reaches the end of its parent in the dominator tree. */
  ghost function ScopeIn(t: Ssa, b: Node): Scope
    requires Climbs(t.up, t.id) && b in t.up
    decreases t.id[ENTRY] - t.id[b], 0
  {
    if b == ENTRY then Scope(map[], map[], t.f.args, t.f.args)
    else
      var u := Up(t.up, b);
      Point(t, u, |InstrsOf(t.f, u)|, |InstrsOf(t.f, u)|)
  }

  /** Block b with j instructions' phis pushed and k instructions run. */
  ghost function Point(t: Ssa, b: Node, j: nat, k: nat): Scope
    requires Climbs(t.up, t.id) && b in t.up && j <= |InstrsOf(t.f, b)| && k <= |InstrsOf(t.f, b)|
    decreases t.id[ENTRY] - t.id[b], 1
  {
    BodyScope(InstrsOf(t.f, b), k, PhiScope(InstrsOf(t.f, b), j, ScopeIn(t, b)))
  }

  /** Before instruction k of b. */
  ghost function ScopeAt(t: Ssa, b: Node, k: nat): Scope
    requires Climbs(t.up, t.id) && b in t.up && k <= |InstrsOf(t.f, b)|
  {
    Point(t, b, |InstrsOf(t.f, b)|, k)
  }

  ghost function ScopeOut(t: Ssa, b: Node): Scope
    requires Climbs(t.up, t.id) && b in t.up
  {
    ScopeAt(t, b, |InstrsOf(t.f, b)|)
  }

  /** s2 knows everything s1 knows about the values defined at s1. */
  ghost predicate Grows(s1: Scope, s2: Scope) {
    s1.avail <= s2.avail && s1.vals <= s2.vals && forall x :: x in s1.sub ==> x in s2.sub && s2.sub[x] == s1.sub[x]
  }

  /** The promoted load x, instruction k of block b, is replaced by o. */
  ghost predicate ReplacedAt(t: Ssa, b: Node, k: nat, x: Name, o: Operand) {
    && Climbs(t.up, t.id) && b in t.up && IdAt(t.f, b, k, x)
    && var op := t.f.code[b].instrs[k].op;
       IsCellLoad(op) && op.from.slot in ScopeAt(t, b, k).cur && o == ScopeAt(t, b, k).cur[op.from.slot]
  }

  ghost predicate Replaced(t: Ssa, x: Name, o: Operand) {
    exists b, k :: ReplacedAt(t, b, k, x, o)
  }

  ghost predicate IsPoint(t: Ssa, b: Node, j: nat, k: nat) {
    && Climbs(t.up, t.id) && b in t.up && j <= |InstrsOf(t.f, b)| && k <= |InstrsOf(t.f, b)|
    && (k == 0 || j == |InstrsOf(t.f, b)|)
  }

  /** x is an argument or defined above the point (b, j, k). */
  ghost predicate DefinedBefore(t: Ssa, b: Node, j: nat, k: nat, x: Name)
    requires Climbs(t.up, t.id) && b in t.up
  {
    x in t.f.args || exists a, i :: DefinedAt(t, b, j, k, x, a, i)
  }

  ghost predicate DefinedAt(t: Ssa, b: Node, j: nat, k: nat, x: Name, a: Node, i: nat)
    requires Climbs(t.up, t.id) && b in t.up
  {
    && IdAt(t.f, a, i, x) && Defines(t.f.code[a].instrs[i].op) && a in Anc(t.up, t.id, b)
    && (a == b ==> i < k || (i < j && t.f.code[a].instrs[i].op.Phi?))
  }

  ghost predicate ReadAt(f: Func, b: Node, k: nat, x: Name) {
    k < |InstrsOf(f, b)| && Ref(x) in Reads(InstrsOf(f, b)[k].op)
  }

  ghost predicate ReadAtEnd(f: Func, b: Node, x: Name) {
    b < |f.code| && Ref(x) in TermReads(f.code[b].term)
  }

  /** Every operand is defined at or above the point that reads it. */
  ghost predicate OperandsAvailable(t: Ssa)
    requires Climbs(t.up, t.id)
  {
    && (forall b, k, x {:trigger ReadAt(t.f, b, k, x)} :: b in t.up && ReadAt(t.f, b, k, x) ==>
      x in ScopeAt(t, b, k).vals)
    && (forall b, x {:trigger ReadAtEnd(t.f, b, x)} :: b in t.up && ReadAtEnd(t.f, b, x) ==> x in ScopeOut(t, b).vals)
  }

  /** o is defined here and will never be replaced. */
  ghost predicate Fixed(sc: Scope, o: Operand) {
    o.Ref? ==> o.name in sc.avail && o.name !in sc.sub
  }

  ghost predicate Tidy(sc: Scope) {
    && sc.sub.Keys <= sc.avail && sc.vals <= sc.avail
    && (forall v :: v in sc.cur ==> Fixed(sc, sc.cur[v]))
    && (forall x :: x in sc.sub ==> Fixed(sc, sc.sub[x]))
  }

  lemma GrowsTrans(s1: Scope, s2: Scope, s3: Scope)
    requires Grows(s1, s2) && Grows(s2, s3)
    ensures Grows(s1, s3)
  {
  }

  /** Whatever is in scope is defined above. */
  lemma {:induction false} ScopeIsAbove(t: Ssa, b: Node, j: nat, k: nat)
    requires IsPoint(t, b, j, k)
    ensures forall x :: x in Point(t, b, j, k).avail ==> DefinedBefore(t, b, j, k, x)
    decreases t.id[ENTRY] - t.id[b], j + k
  {
    var ins := InstrsOf(t.f, b);
    AncBasics(t.up, t.id, b);
    if k > 0 {
      ScopeIsAbove(t, b, j, k - 1);
      assert IdAt(t.f, b, k - 1, ins[k - 1].id);
      forall x | x in Point(t, b, j, k).avail ensures DefinedBefore(t, b, j, k, x) {
        ScopeIsAboveStep(t, b, j, k - 1, j, k, x, k - 1);
      }
    } else if j > 0 {
      ScopeIsAbove(t, b, j - 1, k);
      assert IdAt(t.f, b, j - 1, ins[j - 1].id);
      forall x | x in Point(t, b, j, k).avail ensures DefinedBefore(t, b, j, k, x) {
        ScopeIsAboveStep(t, b, j - 1, k, j, k, x, j - 1);
      }
    } else if b != ENTRY {
      var u := Up(t.up, b);
      var n := |InstrsOf(t.f, u)|;
      ScopeIsAbove(t, u, n, n);
      AncBasics(t.up, t.id, u);
      assert Point(t, b, 0, 0) == Point(t, u, n, n);
      forall x | x in Point(t, b, 0, 0).avail ensures DefinedBefore(t, b, 0, 0, x) {
        assert DefinedBefore(t, u, n, n, x);
        if x !in t.f.args {
          var a, i :| DefinedAt(t, u, n, n, x, a, i);
          assert DefinedAt(t, b, 0, 0, x, a, i);
        }
      }
    }
  }

  lemma ScopeIsAboveStep(t: Ssa, b: Node, j: nat, k: nat, j2: nat, k2: nat, x: Name, i: nat)
    requires Climbs(t.up, t.id) && b in t.up && j <= j2 && k <= k2
    requires DefinedBefore(t, b, j, k, x) ||
      (IdAt(t.f, b, i, x) && Defines(t.f.code[b].instrs[i].op) && b in Anc(t.up, t.id, b)
      && (i < k2 || (i < j2 && t.f.code[b].instrs[i].op.Phi?)))
    ensures DefinedBefore(t, b, j2, k2, x)
  {
    if DefinedBefore(t, b, j, k, x) {
      if x !in t.f.args {
        var a, l :| DefinedAt(t, b, j, k, x, a, l);
        assert DefinedAt(t, b, j2, k2, x, a, l);
      }
    } else {
      assert DefinedAt(t, b, j2, k2, x, b, i);
    }
  }

  /** An instruction's own value is not in scope before it. */
  lemma FreshAt(t: Ssa, b: Node, j: nat, k: nat, i: nat)
    requires IsPoint(t, b, j, k) && UniqueIds(t.f) && i < |InstrsOf(t.f, b)|
    requires i >= k && (i >= j || !InstrsOf(t.f, b)[i].op.Phi?)
    ensures InstrsOf(t.f, b)[i].id !in Point(t, b, j, k).avail
  {
    var x := InstrsOf(t.f, b)[i].id;
    assert IdAt(t.f, b, i, x);
    ScopeIsAbove(t, b, j, k);
    assert x !in t.f.args;
    forall a, l ensures !DefinedAt(t, b, j, k, x, a, l) {
      assert IdAt(t.f, a, l, x) ==> a == b && l == i;
    }
  }

  lemma ResolveFixed(sc: Scope, o: Operand)
    requires Tidy(sc) && (o.Ref? ==> o.name in sc.avail)
    ensures Fixed(sc, Resolve(sc.sub, o))
  {
  }

  lemma PushKeepsTidy(sc: Scope, v: Name, x: Name)
    requires Tidy(sc) && x !in sc.avail
    ensures var s := sc.(cur := sc.cur[v := Ref(x)], avail := sc.avail + {x}); Tidy(s) && Grows(sc, s)
  {
  }

  lemma BodyStepKeepsTidy(ins: Instr, sc: Scope)
    requires Tidy(sc) && (!ins.op.Phi? ==> ins.id !in sc.avail)
    requires forall x :: Ref(x) in Reads(ins.op) ==> x in sc.vals
    ensures Tidy(BodyStep(ins, sc)) && Grows(sc, BodyStep(ins, sc))
  {
    match ins.op {
      case Store(val, Cell(v)) =>
        assert val in Reads(ins.op);
        ResolveFixed(sc, val);
      case _ =>
    }
  }

  /** Along every idom chain scopes stay tidy and only grow. */
  lemma {:induction false} ScopeTidy(t: Ssa, b: Node, j: nat, k: nat)
    requires IsPoint(t, b, j, k) && UniqueIds(t.f) && OperandsAvailable(t)
    ensures Tidy(Point(t, b, j, k)) && Grows(ScopeIn(t, b), Point(t, b, j, k))
    decreases t.id[ENTRY] - t.id[b], j + k
  {
    var ins := InstrsOf(t.f, b);
    if k > 0 {
      ScopeTidy(t, b, j, k - 1);
      if !ins[k - 1].op.Phi? {
        FreshAt(t, b, j, k - 1, k - 1);
      }
      forall x | Ref(x) in Reads(ins[k - 1].op) ensures x in Point(t, b, j, k - 1).vals {
        assert ReadAt(t.f, b, k - 1, x) && Point(t, b, j, k - 1) == ScopeAt(t, b, k - 1);
      }
      BodyStepKeepsTidy(ins[k - 1], Point(t, b, j, k - 1));
      GrowsTrans(ScopeIn(t, b), Point(t, b, j, k - 1), Point(t, b, j, k));
    } else if j > 0 {
      ScopeTidy(t, b, j - 1, k);
      FreshAt(t, b, j - 1, k, j - 1);
      if ins[j - 1].op.Phi? {
        PushKeepsTidy(Point(t, b, j - 1, k), ins[j - 1].op.slot, ins[j - 1].id);
      }
      GrowsTrans(ScopeIn(t, b), Point(t, b, j - 1, k), Point(t, b, j, k));
    } else if b != ENTRY {
      var n := |InstrsOf(t.f, Up(t.up, b))|;
      ScopeTidy(t, Up(t.up, b), n, n);
    }
  }

  /** From a point of a block, or from anywhere above it, knowledge only grows. */
  lemma {:induction false} GrowsInBlock(t: Ssa, b: Node, k: nat, k2: nat)
    requires Climbs(t.up, t.id) && b in t.up && k <= k2 <= |InstrsOf(t.f, b)|
    requires UniqueIds(t.f) && OperandsAvailable(t)
    ensures Grows(ScopeAt(t, b, k), ScopeAt(t, b, k2))
    decreases k2
  {
    if k < k2 {
      var n := |InstrsOf(t.f, b)|;
      GrowsInBlock(t, b, k, k2 - 1);
      ScopeTidy(t, b, n, k2 - 1);
      var ins := InstrsOf(t.f, b)[k2 - 1];
      if !ins.op.Phi? {
        FreshAt(t, b, n, k2 - 1, k2 - 1);
      }
      forall x | Ref(x) in Reads(ins.op) ensures x in ScopeAt(t, b, k2 - 1).vals {
        assert ReadAt(t.f, b, k2 - 1, x);
      }
      BodyStepKeepsTidy(ins, ScopeAt(t, b, k2 - 1));
    }
  }

  lemma {:induction false} GrowsDownTree(t: Ssa, a: Node, b: Node)
    requires Climbs(t.up, t.id) && b in t.up && a in t.up && a in Anc(t.up, t.id, b)
    requires UniqueIds(t.f) && OperandsAvailable(t)
    ensures Grows(ScopeOut(t, a), ScopeOut(t, b))
    ensures a != b ==> Grows(ScopeOut(t, a), ScopeIn(t, b))
    decreases t.id[ENTRY] - t.id[b]
  {
    if a != b {
      var n := |InstrsOf(t.f, b)|;
      GrowsDownTree(t, a, Up(t.up, b));
      ScopeTidy(t, b, n, n);
      GrowsTrans(ScopeOut(t, a), ScopeIn(t, b), ScopeOut(t, b));
    }
  }

  /** The replacement of a load does not depend on where it is looked up from. */
  lemma ReplacedKnown(t: Ssa, b: Node, k: nat, c: Node, i: nat, x: Name, o: Operand)
    requires Climbs(t.up, t.id) && b in t.up && k <= |InstrsOf(t.f, b)|
    requires UniqueIds(t.f) && OperandsAvailable(t)
    requires ReplacedAt(t, c, i, x, o) && x in ScopeAt(t, b, k).avail
    ensures x in ScopeAt(t, b, k).sub && ScopeAt(t, b, k).sub[x] == o
  {
    var n, nc := |InstrsOf(t.f, b)|, |InstrsOf(t.f, c)|;
    ScopeIsAbove(t, b, n, k);
    assert x !in t.f.args;
    var a, l :| DefinedAt(t, b, n, k, x, a, l);
    assert IdAt(t.f, a, l, x) && IdAt(t.f, c, i, x);
    assert x in ScopeAt(t, c, i + 1).sub && ScopeAt(t, c, i + 1).sub[x] == o;
    if c == b {
      GrowsInBlock(t, b, i + 1, k);
    } else {
      GrowsInBlock(t, c, i + 1, nc);
      GrowsDownTree(t, c, b);
      ScopeTidy(t, b, n, k);
    }
  }

  /** Whatever is recorded as replaced was replaced at its own load. */
  lemma {:induction false} SubIsReplaced(t: Ssa, b: Node, j: nat, k: nat, x: Name)
    requires IsPoint(t, b, j, k) && x in Point(t, b, j, k).sub
    ensures Replaced(t, x, Point(t, b, j, k).sub[x])
    decreases t.id[ENTRY] - t.id[b], j + k
  {
    var ins := InstrsOf(t.f, b);
    if k > 0 {
      if x in Point(t, b, j, k - 1).sub && Point(t, b, j, k - 1).sub[x] == Point(t, b, j, k).sub[x] {
        SubIsReplaced(t, b, j, k - 1, x);
      } else {
        assert ReplacedAt(t, b, k - 1, x, Point(t, b, j, k).sub[x]);
      }
    } else if j > 0 {
      SubIsReplaced(t, b, j - 1, k, x);
    } else if b != ENTRY {
      var u := Up(t.up, b);
      assert Point(t, b, 0, 0) == Point(t, u, |InstrsOf(t.f, u)|, |InstrsOf(t.f, u)|);
      SubIsReplaced(t, u, |InstrsOf(t.f, u)|, |InstrsOf(t.f, u)|, x);
    }
  }

  // ------------------------------------------- definitions dominate uses

  /** x is an argument, or defined earlier in b, or in a block strictly dominating b. */
  ghost predicate DefinedAbove(f: Func, b: Node, k: nat, x: Name) {
    x in f.args || exists a: Node, i: nat :: DefAbove(f, b, k, x, a, i)
  }

  ghost predicate DefAbove(f: Func, b: Node, k: nat, x: Name, a: Node, i: nat) {
    && IdAt(f, a, i, x) && Defines(f.code[a].instrs[i].op)
    && (if a == b then i < k else StrictlyDominates(f.cfg.Edges(), a, b))
  }

  ghost predicate DefsDominateUses(f: Func) {
    && (forall b, k, x {:trigger ReadAt(f, b, k, x)} :: f.cfg.IsReachable(b) && ReadAt(f, b, k, x) ==>
      DefinedAbove(f, b, k, x))
    && (forall b, x {:trigger ReadAtEnd(f, b, x)} :: f.cfg.IsReachable(b) && ReadAtEnd(f, b, x)
          ==> DefinedAbove(f, b, |InstrsOf(f, b)|, x))
  }

  /** Instruction k of b loads or stores the stack slot v. */
  ghost predicate AccessAt(f: Func, b: Node, k: nat, v: Name) {
    && k < |InstrsOf(f, b)|
    && var op := InstrsOf(f, b)[k].op;
       (IsCellLoad(op) && op.from.slot == v) || (IsCellStore(op) && op.to.slot == v)
  }

  /** The slot v is allocated at (a, i), above instruction k of b. */
  ghost predicate AllocAbove(f: Func, b: Node, k: nat, v: Name, a: Node, i: nat) {
    && IdAt(f, a, i, v) && f.code[a].instrs[i].op.Alloca?
    && (if a == b then i < k else StrictlyDominates(f.cfg.Edges(), a, b))
  }

  ghost predicate AllocatedAbove(f: Func, b: Node, k: nat, v: Name) {
    exists a: Node, i: nat :: AllocAbove(f, b, k, v, a, i)
  }

  /** Every slot that is loaded or stored is allocated above the access. */
  ghost predicate SlotsAllocated(f: Func) {
    forall b, k, v {:trigger AccessAt(f, b, k, v)} :: f.cfg.IsReachable(b) && AccessAt(f, b, k, v) ==>
      AllocatedAbove(f, b, k, v)
  }

  /** v is the slot of an integer or a float. */
  ghost predicate ScalarSlot(f: Func, v: Name) {
    exists a: Node, i: nat :: ScalarAt(f, a, i, v)
  }

  ghost predicate ScalarAt(f: Func, a: Node, i: nat, v: Name) {
    IdAt(f, a, i, v) && f.code[a].instrs[i].op == Alloca(true)
  }

  // ------------------------------------------------------- across a CFG edge

  ghost predicate HasPhi(instrs: seq<Instr>, v: Name) {
    exists i :: 0 <= i < |instrs| && instrs[i].op.Phi? && instrs[i].op.slot == v
  }

  lemma HasPhiCons(ins: Instr, rest: seq<Instr>, v: Name)
    ensures HasPhi([ins] + rest, v) <==> (ins.op.Phi? && ins.op.slot == v) || HasPhi(rest, v)
  {
    if ins.op.Phi? && ins.op.slot == v {
      assert ([ins] + rest)[0] == ins;
    }
    if HasPhi(rest, v) {
      var i :| 0 <= i < |rest| && rest[i].op.Phi? && rest[i].op.slot == v;
      assert ([ins] + rest)[i + 1] == rest[i];
    }
  }

  ghost predicate HasStore(instrs: seq<Instr>, v: Name) {
    exists i :: 0 <= i < |instrs| && IsCellStore(instrs[i].op) && instrs[i].op.to.slot == v
  }

  lemma HasSnoc(instrs: seq<Instr>, ins: Instr, v: Name)
    ensures HasPhi(instrs + [ins], v) <==> HasPhi(instrs, v) || (ins.op.Phi? && ins.op.slot == v)
    ensures HasStore(instrs + [ins], v) <==> HasStore(instrs, v) || (IsCellStore(ins.op) && ins.op.to.slot == v)
  {
    var all := instrs + [ins];
    assert all[|instrs|] == ins;
    if HasPhi(instrs, v) {
      var i :| 0 <= i < |instrs| && instrs[i].op.Phi? && instrs[i].op.slot == v;
      assert all[i] == instrs[i];
    }
    if HasStore(instrs, v) {
      var i :| 0 <= i < |instrs| && IsCellStore(instrs[i].op) && instrs[i].op.to.slot == v;
      assert all[i] == instrs[i];
    }
  }

  /** Block b gives variable v a new name. */
  ghost predicate DefinesSlot(f: Func, b: Node, v: Name) {
    HasPhi(InstrsOf(f, b), v) || HasStore(InstrsOf(f, b), v)
  }

  /** Where a runner for join s passes a block that defines v, s has a phi for v. */
  ghost predicate PhisComplete(t: Ssa)
    requires Climbs(t.up, t.id)
  {
    forall p, s, r, v {:trigger r in RunnerSet(t.up, t.id, p, s), DefinesSlot(t.f, r, v)} ::
      p in t.up && s in t.up && Edge(t.f.cfg.Edges(), p, s) && r in RunnerSet(t.up, t.id, p, s) &&
        DefinesSlot(t.f, r, v)
      ==> HasPhi(InstrsOf(t.f, s), v)
  }

  ghost predicate SameName(s1: Scope, s2: Scope, v: Name) {
    (v in s1.cur <==> v in s2.cur) && (v in s1.cur ==> s1.cur[v] == s2.cur[v])
  }

  lemma {:induction false} UndefinedKeepsName(instrs: seq<Instr>, j: nat, k: nat, sc: Scope, v: Name)
    requires j <= |instrs| && k <= |instrs| && !HasPhi(instrs, v) && !HasStore(instrs, v)
    ensures SameName(sc, BodyScope(instrs, k, PhiScope(instrs, j, sc)), v)
    decreases j + k
  {
    if k > 0 {
      UndefinedKeepsName(instrs, j, k - 1, sc, v);
    } else if j > 0 {
      UndefinedKeepsName(instrs, j - 1, k, sc, v);
    }
  }

  /** SSA edge consistency: along an edge to a block without a phi for v, the name
      reaching the end of the predecessor is the one reaching the end of the
      successor's immediate dominator. */
  lemma EdgeConsistency(t: Ssa, p: Node, s: Node, v: Name)
    requires ValidSsa(t) && PhisComplete(t)
    requires p in t.up && s in t.up && s != ENTRY && Edge(t.f.cfg.Edges(), p, s)
    requires !HasPhi(InstrsOf(t.f, s), v)
    ensures SameName(ScopeOut(t, p), ScopeIn(t, s), v)
  {
    IdomAbovePred(t.f.cfg.Edges(), t.id, t.up, p, s);
    AncBasics(t.up, t.id, p);
    RunnerKeepsName(t, p, s, p, v);
  }

  lemma {:induction false} RunnerKeepsName(t: Ssa, p: Node, s: Node, r: Node, v: Name)
    requires ValidSsa(t) && PhisComplete(t)
    requires p in t.up && s in t.up && s != ENTRY && Edge(t.f.cfg.Edges(), p, s)
    requires !HasPhi(InstrsOf(t.f, s), v)
    requires r in t.up && r in Anc(t.up, t.id, p) && Up(t.up, s) in Anc(t.up, t.id, r)
    ensures SameName(ScopeOut(t, r), ScopeIn(t, s), v)
    decreases t.id[ENTRY] - t.id[r]
  {
    var u := Up(t.up, s);
    if r == u {
      assert ScopeOut(t, u) == ScopeIn(t, s);
    } else {
      RunnerStep(t.up, t.id, p, s, r);
      AncBasics(t.up, t.id, r);
      AncBasics(t.up, t.id, u);
      assert r in RunnerSet(t.up, t.id, p, s) && !DefinesSlot(t.f, r, v);
      var n := |InstrsOf(t.f, r)|;
      UndefinedKeepsName(InstrsOf(t.f, r), n, n, ScopeIn(t, r), v);
      RunnerKeepsName(t, p, s, Up(t.up, r), v);
    }
  }
}
