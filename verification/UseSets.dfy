/** What each instruction puts into its block's use set, exactly as the pass has it,
    and when that is everything the instruction reads. */
module UseSets {
  import opened Wrappers
  import opened Graphs
  import opened Ir
  import opened Liveness

  /** A non-constant operand no instruction so far has defined. */
  function Exposed(o: Operand, def: set<Name>): bool {
    o.Ref? && o.name !in def
  }

  function Take(o: Operand, def: set<Name>): set<Use> {
    if Exposed(o, def) then {(o.name, None)} else {}
  }

  function TakeAt(os: seq<Operand>, i: nat, def: set<Name>): set<Use> {
    if i < |os| then Take(os[i], def) else {}
  }

  function TakeAll(os: seq<Operand>, def: set<Name>): set<Use> {
    if os == [] then {} else TakeAll(os[..|os| - 1], def) + Take(os[|os| - 1], def)
  }

  /** A phi pair counts only if its value is an instruction or an argument. */
  function TakePair(pairs: seq<(Operand, Node)>, i: nat, def: set<Name>, left: set<Name>): set<Use> {
    if i < |pairs| && Exposed(pairs[i].0, def) && pairs[i].0.name in left
    then {(pairs[i].0.name, Some(pairs[i].1))}
    else {}
  }

  /** Of an index without a base pointer the pass records the base pointer again. */
  function TakeGep(args: seq<Operand>, def: set<Name>): set<Use> {
    if |args| == 2 then
      TakeAt(args, 0, def) + (if Exposed(args[1], def) && args[0].Ref? then {(args[0].name, None)} else {})
    else if |args| == 3 then TakeAt(args, 0, def) + TakeAt(args, 2, def)
    else {}
  }

  /** The uses one instruction adds; `def` holds it and everything above it. */
  function OpUses(op: Op, def: set<Name>, left: set<Name>): set<Use> {
    match op
    case Phi(_, pairs) => TakePair(pairs, 0, def, left) + TakePair(pairs, 1, def, left)
    case Load(a) => Take(AddressOperand(a), def)
    case Store(val, a) => Take(val, def) + Take(AddressOperand(a), def)
    case Calc(Binary(_), args) => TakeAt(args, 0, def) + TakeAt(args, 1, def)
    case Calc(Compare(_), args) => TakeAt(args, 0, def) + TakeAt(args, 1, def)
    case Calc(Gep, args) => TakeGep(args, def)
    case Calc(_, args) => TakeAt(args, 0, def)
    case Call(_, args) => TakeAll(args, def)
    case Alloca(_) => {}
  }

  function TermUses(t: Term, def: set<Name>): set<Use> {
    TakeAll(TermReads(t), def)
  }

  ghost function BodyUses(instrs: seq<Instr>, k: nat, left: set<Name>): set<Use>
    requires k <= |instrs|
  {
    if k == 0 then {} else BodyUses(instrs, k - 1, left) + OpUses(instrs[k - 1].op, Ids(instrs[..k]), left)
  }

  ghost function BlockUses(c: Code, left: set<Name>): set<Use> {
    BodyUses(c.instrs, |c.instrs|, left) + TermUses(c.term, Ids(c.instrs))
  }

  /** All instructions and arguments of the function. */
  ghost function LeftValues(f: Func): set<Name> {
    f.args + IdsOf(f.code)
  }

  ghost function FlowOf(f: Func): Flow
    requires |f.code| == |f.cfg.succs|
  {
    Flow(f.cfg.succs,
         seq(|f.code|, b requires 0 <= b < |f.code| => BlockUses(f.code[b], LeftValues(f))),
         seq(|f.code|, b requires 0 <= b < |f.code| => Ids(f.code[b].instrs)))
  }

  // ------------------------------------------------------- when uses are complete

  /** The operands the pass asks for by their position are there: of a phi the first two
      pairs, of arithmetic two operands, of a conversion between int and float one. */
  ghost predicate HasAsked(op: Op) {
    match op
    case Phi(_, pairs) => |pairs| >= 2
    case Calc(Binary(_), args) => |args| >= 2
    case Calc(Compare(_), args) => |args| >= 2
    case Calc(FpToSi, args) => |args| >= 1
    case Calc(SiToFp, args) => |args| >= 1
    case _ => true
  }

  ghost predicate AllHaveAsked(instrs: seq<Instr>, n: nat)
    requires n <= |instrs|
  {
    forall k {:trigger instrs[k]} :: 0 <= k < n ==> HasAsked(instrs[k].op)
  }

  /** No instruction makes the pass read past its operands. */
  ghost predicate ReadsInBounds(f: Func) {
    forall b {:trigger f.code[b]} :: 0 <= b < |f.code| ==> AllHaveAsked(f.code[b].instrs, |f.code[b].instrs|)
  }

  /** Every value the instruction reads before it is defined in the block is recorded,
      and no operand is asked for that it does not have. */
  ghost predicate Complete(op: Op, def: set<Name>, left: set<Name>) {
    && HasAsked(op)
    && (forall x :: Ref(x) in Reads(op) && x !in def ==> (x, None) in OpUses(op, def, left))
    && (op.Phi? ==> forall x: Name, p: Node :: (Ref(x), p) in op.pairs ==> (x, Some(p)) in OpUses(op, def, left))
  }

  /** The guards of the branches that record too little: a two-operand gep with an
      exposed index other than its base, the middle operand of a three-operand gep,
      operands beyond those looked at, phi pairs that are skipped, and phis with fewer
      than two pairs. */
  ghost predicate RecordsAll(op: Op, def: set<Name>, left: set<Name>) {
    HasAsked(op) && match op
    case Phi(_, pairs) =>
      forall i | 0 <= i < |pairs| :: pairs[i].0.Ref? ==>
        && pairs[i].0.name !in def && pairs[i].0.name in left
        && (i < 2 || pairs[i] in pairs[..2])
    case Calc(Gep, args) =>
      if |args| == 2 then !Exposed(args[1], def) || args[1] == args[0]
      else if |args| == 3 then !Exposed(args[1], def) || args[1] == args[0] || args[1] == args[2]
      else forall i | 0 <= i < |args| :: !Exposed(args[i], def)
    case Calc(Binary(_), args) => ExtraCovered(args, 2, def)
    case Calc(Compare(_), args) => ExtraCovered(args, 2, def)
    case Calc(_, args) => ExtraCovered(args, 1, def)
    case _ => true
  }

  /** Operands after the first n are not exposed, or repeat one of the first n. */
  predicate ExtraCovered(args: seq<Operand>, n: nat, def: set<Name>) {
    forall i | 0 <= i < |args| :: Exposed(args[i], def) ==> i < n || args[i] in args[..n]
  }

  lemma {:induction false} TakeAllTakes(os: seq<Operand>, def: set<Name>, u: Use)
    ensures u in TakeAll(os, def) <==> u.1 == None && u.0 !in def && Ref(u.0) in os
  {
    if os != [] {
      TakeAllTakes(os[..|os| - 1], def, u);
      assert os == os[..|os| - 1] + [os[|os| - 1]];
    }
  }

  lemma TakeFirst(os: seq<Operand>, def: set<Name>)
    ensures |os| >= 1 ==> TakeAll(os[..1], def) == TakeAt(os, 0, def)
    ensures |os| >= 2 ==> TakeAll(os[..2], def) == TakeAt(os, 0, def) + TakeAt(os, 1, def)
    ensures TakeAll(os[..|os|], def) == TakeAll(os, def)
  {
    if |os| >= 1 {
      assert os[..1][..0] == [];
    }
    if |os| >= 2 {
      assert os[..2][..1] == os[..1];
    }
    assert os[..|os|] == os;
  }

  /** An instruction's uses are complete exactly under the guards. */
  lemma CompleteIff(op: Op, def: set<Name>, left: set<Name>)
    ensures Complete(op, def, left) <==> RecordsAll(op, def, left)
  {
    match op {
      case Phi(_, pairs) => PhiCompleteIff(op, def, left);
      case Calc(code, args) => CalcCompleteIff(op, def, left);
      case Call(_, args) =>
        forall x | Ref(x) in args && x !in def ensures (x, None) in TakeAll(args, def) {
          TakeAllTakes(args, def, (x, None));
        }
      case Load(a) =>
      case Store(val, a) =>
      case Alloca(_) =>
    }
  }

  lemma PhiCompleteIff(op: Op, def: set<Name>, left: set<Name>)
    requires op.Phi?
    ensures Complete(op, def, left) <==> RecordsAll(op, def, left)
  {
    var pairs := op.pairs;
    if Complete(op, def, left) {
      forall i | 0 <= i < |pairs| && pairs[i].0.Ref?
        ensures pairs[i].0.name !in def && pairs[i].0.name in left && (i < 2 || pairs[i] in pairs[..2])
      {
        var x, p := pairs[i].0.name, pairs[i].1;
        assert (Ref(x), p) in pairs && (x, Some(p)) in OpUses(op, def, left);
        var j: nat :| j < 2 && (x, Some(p)) in TakePair(pairs, j, def, left);
        assert pairs[j] == (Ref(x), p);
        if i >= 2 {
          assert pairs[..2][j] == pairs[i];
        }
      }
    }
    if RecordsAll(op, def, left) {
      forall x: Name, p: Node | (Ref(x), p) in pairs ensures (x, Some(p)) in OpUses(op, def, left) {
        var i :| 0 <= i < |pairs| && pairs[i] == (Ref(x), p);
        if i >= 2 {
          var j :| 0 <= j < 2 && pairs[..2][j] == pairs[i];
          assert pairs[j] == (Ref(x), p) && (x, Some(p)) in TakePair(pairs, j, def, left);
        } else {
          assert (x, Some(p)) in TakePair(pairs, i, def, left);
        }
      }
    }
  }

  lemma CalcCompleteIff(op: Op, def: set<Name>, left: set<Name>)
    requires op.Calc?
    ensures Complete(op, def, left) <==> RecordsAll(op, def, left)
  {
    var args := op.args;
    if Complete(op, def, left) {
      forall i | 0 <= i < |args| && Exposed(args[i], def) ensures (args[i].name, None) in OpUses(op, def, left) {
        assert args[i] in args && Ref(args[i].name) in Reads(op);
      }
      CalcRecords(op, def, left);
    }
    if RecordsAll(op, def, left) {
      forall x | Ref(x) in args && x !in def ensures (x, None) in OpUses(op, def, left) {
        var i :| 0 <= i < |args| && args[i] == Ref(x);
        assert Exposed(args[i], def);
        match op.opcode {
          case Binary(_) => CoveredIsTaken(args, 2, def, i);
          case Compare(_) => CoveredIsTaken(args, 2, def, i);
          case Gep =>
          case Zext => CoveredIsTaken(args, 1, def, i);
          case FpToSi => CoveredIsTaken(args, 1, def, i);
          case SiToFp => CoveredIsTaken(args, 1, def, i);
        }
      }
    }
  }

  lemma CoveredIsTaken(args: seq<Operand>, n: nat, def: set<Name>, i: nat)
    requires i < |args| && ExtraCovered(args, n, def) && Exposed(args[i], def)
    ensures exists j: nat :: j < n && (args[i].name, None) in TakeAt(args, j, def)
  {
    if i >= n {
      var j :| 0 <= j < |args[..n]| && args[..n][j] == args[i];
      assert (args[i].name, None) in TakeAt(args, j, def);
    } else {
      assert (args[i].name, None) in TakeAt(args, i, def);
    }
  }

  lemma CalcRecords(op: Op, def: set<Name>, left: set<Name>)
    requires op.Calc? && HasAsked(op)
    requires forall i :: 0 <= i < |op.args| && Exposed(op.args[i], def) ==>
      (op.args[i].name, None) in OpUses(op, def, left)
    ensures RecordsAll(op, def, left)
  {
    var args := op.args;
    if !op.opcode.Gep? {
      var n: nat := if op.opcode.Binary? || op.opcode.Compare? then 2 else 1;
      forall i | 0 <= i < |args| && Exposed(args[i], def) ensures i < n || args[i] in args[..n] {
        assert (args[i].name, None) in TakeAt(args, 0, def) || (n == 2 && (args[i].name, None) in TakeAt(args, 1, def));
        if i >= n {
          assert args[..n][0] == args[0] && (n == 2 ==> args[..n][1] == args[1]);
        }
      }
    }
  }

  // ------------------------------------------------- which operands are looked at

  /** What is recorded for a calculation with n operands depends on operand i. */
  ghost predicate LooksAt(code: Opcode, n: nat, i: nat) {
    exists args, o, def, left :: ChangesUses(code, n, i, args, o, def, left)
  }

  ghost predicate ChangesUses(code: Opcode, n: nat, i: nat, args: seq<Operand>, o: Operand, def: set<Name>,
                              left: set<Name>) {
    |args| == n && i < n && OpUses(Calc(code, args[i := o]), def, left) != OpUses(Calc(code, args), def, left)
  }

  /** Of arithmetic and comparisons these are the first two operands, of a gep with two
      operands both, of one with three the first and the last, and otherwise the first. */
  lemma LooksAtIff(code: Opcode, n: nat, i: nat)
    requires i < n
    ensures LooksAt(code, n, i) <==>
      if code.Binary? || code.Compare? then i < 2
      else if code.Gep? then n == 2 || (n == 3 && i != 1)
      else i == 0
  {
    var looked := if code.Binary? || code.Compare? then i < 2
                  else if code.Gep? then n == 2 || (n == 3 && i != 1)
                  else i == 0;
    var base := if code.Gep? && i == 1 then Ref(0) else Const(Undef);
    var args := seq(n, j requires 0 <= j < n => if j == 0 then base else Const(Undef));
    var before, after := Calc(code, args), Calc(code, args[i := Ref(1)]);
    if code.Gep? && n == 2 && i == 1 {
      assert (0, None) in OpUses(after, {0}, {}) && (0, None) !in OpUses(before, {0}, {});
      assert ChangesUses(code, n, i, args, Ref(1), {0}, {});
    } else if looked {
      assert (1, None) in OpUses(after, {}, {}) && (1, None) !in OpUses(before, {}, {});
      assert ChangesUses(code, n, i, args, Ref(1), {}, {});
    } else {
      OthersDontMatter(code, n, i);
    }
  }

  lemma OthersDontMatter(code: Opcode, n: nat, i: nat)
    requires i < n
    requires if code.Binary? || code.Compare? then i >= 2 else if code.Gep? then n > 3 || n == 1 || (n == 3 && i == 1)
             else i > 0
    ensures !LooksAt(code, n, i)
  {
    forall args, o, def, left ensures !ChangesUses(code, n, i, args, o, def, left) {
      if |args| == n {
        assert forall j :: 0 <= j < n && j != i ==> args[i := o][j] == args[j];
      }
    }
  }

  /** No operand is missing iff all the positions looked at exist. Of a gep and an
      extension the pass looks at the number of operands first. */
  lemma HasAskedIff(op: Op)
    requires op.Calc? && !op.opcode.Gep? && !op.opcode.Zext?
    ensures HasAsked(op) <==> forall n: nat, i: nat :: i < n && LooksAt(op.opcode, n, i) ==> i < |op.args|
  {
    LooksAtIff(op.opcode, 1, 0);
    LooksAtIff(op.opcode, 2, 1);
    forall n: nat, i: nat | i < n && LooksAt(op.opcode, n, i)
      ensures if op.opcode.Binary? || op.opcode.Compare? then i < 2 else i == 0
    {
      LooksAtIff(op.opcode, n, i);
    }
  }

  /** Of a phi these are the first two pairs. */
  lemma PhiLooksAtIff(n: nat, i: nat)
    requires i < n
    ensures (exists slot, pairs, q, def, left :: ChangesPhiUses(n, i, slot, pairs, q, def, left)) <==> i < 2
  {
    if i < 2 {
      var pairs := seq(n, j requires 0 <= j < n => (Const(Undef), 0));
      assert (1, Some(0)) in OpUses(Phi(0, pairs[i := (Ref(1), 0)]), {}, {1});
      assert (1, Some(0)) !in OpUses(Phi(0, pairs), {}, {1});
      assert ChangesPhiUses(n, i, 0, pairs, (Ref(1), 0), {}, {1});
    }
    forall slot, pairs, q, def, left | ChangesPhiUses(n, i, slot, pairs, q, def, left) ensures i < 2 {
    }
  }

  ghost predicate ChangesPhiUses(n: nat, i: nat, slot: Name, pairs: seq<(Operand, Node)>, q: (Operand, Node),
                                 def: set<Name>, left: set<Name>) {
    |pairs| == n && i < n && OpUses(Phi(slot, pairs[i := q]), def, left) != OpUses(Phi(slot, pairs), def, left)
  }
}
