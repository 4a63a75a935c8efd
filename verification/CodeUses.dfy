/** Operands as slots with use lists: what the renaming walk does to the code by value is
    what `replace_all_use_with`, `add_operand` and `delete_instr` do by use list. */
module CodeUses {
  import opened Wrappers
  import opened Graphs
  import opened Ir
  import opened Scopes
  import opened Promotion
  import opened Renaming
  import opened UseRuns
  import UseLists

  /** What has a use list: the value of an instruction or an argument, a constant, a promoted
      slot, which is only used as an address, a block, a function. Terminators only use. */
  datatype Item =
    | Def(name: Name)
    | Literal(value: Val)
    | Frame(slot: Name)
    | Block(block: Node)
    | Callee(fn: nat)
    | Ending(of: Node)

  type Slot = UseLists.Slot<Item>
  type UseTable = UseLists.Snapshot<Item>

  function ItemOf(o: Operand): Item {
    match o
    case Const(c) => Literal(c)
    case Ref(n) => Def(n)
  }

  function AddrItem(a: Addr): Item {
    match a
    case Cell(v) => Frame(v)
    case Mem(p) => ItemOf(p)
  }

  function Items(os: seq<Operand>): seq<Item> {
    seq(|os|, i requires 0 <= i < |os| => ItemOf(os[i]))
  }

  /** Values and blocks alternate. */
  function PairItems(pairs: seq<(Operand, Node)>): seq<Item> {
    seq(2 * |pairs|, i requires 0 <= i < 2 * |pairs| =>
      if i % 2 == 0 then ItemOf(pairs[i / 2].0) else Block(pairs[i / 2].1))
  }

  /** The operand slots of an instruction, in order. */
  function OpItems(op: Op): seq<Item> {
    match op
    case Phi(_, pairs) => PairItems(pairs)
    case Load(a) => [AddrItem(a)]
    case Store(val, a) => [ItemOf(val), AddrItem(a)]
    case Calc(_, args) => Items(args)
    case Call(fn, args) => [Callee(fn)] + Items(args)
    case Alloca(_) => []
  }

  function TermItems(t: Term): seq<Item> {
    match t
    case Jump(b) => [Block(b)]
    case Branch(cond, b, c) => [ItemOf(cond), Block(b), Block(c)]
    case Return(None) => []
    case Return(Some(val)) => [ItemOf(val)]
  }

  /** Different operands are different items, and none is an address of a slot, a block or
      a function. */
  lemma ItemsDiffer(o: Operand, o2: Operand)
    ensures ItemOf(o) == ItemOf(o2) <==> o == o2
    ensures !ItemOf(o).Frame? && !ItemOf(o).Block? && !ItemOf(o).Callee? && !ItemOf(o).Ending?
  {
  }

  /** A phi holds values and blocks in turn, a call its callee in front. */
  lemma SlotCount(op: Op)
    ensures |OpItems(op)| ==
      if op.Phi? then 2 * |op.pairs| else if op.Call? then 1 + |op.actuals| else |Operands(op)|
    ensures op.Call? ==> OpItems(op)[0] == Callee(op.callee)
  {
  }

  lemma PairSlots(pairs: seq<(Operand, Node)>, i: nat)
    requires i < |pairs|
    ensures PairItems(pairs)[2 * i] == ItemOf(pairs[i].0) && PairItems(pairs)[2 * i + 1] == Block(pairs[i].1)
  {
    assert (2 * i) / 2 == i && (2 * i) % 2 == 0 && (2 * i + 1) / 2 == i && (2 * i + 1) % 2 == 1;
  }

  /** Every operand of another instruction has its slot. */
  lemma SlotIsOperand(op: Op, i: nat)
    requires !op.Phi? && i < |Operands(op)|
    ensures var slot: nat := if op.Call? then i + 1 else i;
      slot < |OpItems(op)| && ItemIs(OpItems(op)[slot], Operands(op)[i])
  {
    SlotCount(op);
    match op {
      case Calc(_, args) => assert Items(args)[i] == ItemOf(args[i]);
      case Call(fn, args) => assert OpItems(op)[i + 1] == Items(args)[i];
      case _ =>
    }
  }

  /** The item stands for the operand; a slot that is an address, for its alloca. */
  ghost predicate ItemIs(y: Item, o: Operand) {
    match o
    case Const(val) => y == Literal(val)
    case Ref(x) => y == Def(x) || y == Frame(x)
  }

  // -------------------------------------------------------- the slots of a function

  ghost predicate InstrHolds(ins: Instr, s: Slot, y: Item) {
    s.0 == Def(ins.id) && s.1 < |OpItems(ins.op)| && OpItems(ins.op)[s.1] == y
  }

  ghost predicate TermHolds(t: Term, b: Node, s: Slot, y: Item) {
    s.0 == Ending(b) && s.1 < |TermItems(t)| && TermItems(t)[s.1] == y
  }

  ghost predicate BodyHolds(instrs: seq<Instr>, s: Slot, y: Item) {
    exists k :: 0 <= k < |instrs| && InstrHolds(instrs[k], s, y)
  }

  ghost predicate BlockHolds(code: seq<Code>, b: Node, s: Slot, y: Item) {
    b < |code| && (BodyHolds(code[b].instrs, s, y) || TermHolds(code[b].term, b, s, y))
  }

  /** Slot s of the code holds y. */
  ghost predicate CodeHolds(code: seq<Code>, s: Slot, y: Item) {
    exists b: Node :: BlockHolds(code, b, s, y)
  }

  /** These are the operand slots of the code. */
  ghost predicate Shows(code: seq<Code>, slots: map<Slot, Item>) {
    forall s, y {:trigger CodeHolds(code, s, y)} :: CodeHolds(code, s, y) <==> s in slots && slots[s] == y
  }

  ghost predicate HeldElsewhere(code: seq<Code>, b: Node, s: Slot, y: Item) {
    exists c: Node :: c != b && BlockHolds(code, c, s, y)
  }

  lemma HeldInOr(code: seq<Code>, b: Node, s: Slot, y: Item)
    ensures CodeHolds(code, s, y) <==> BlockHolds(code, b, s, y) || HeldElsewhere(code, b, s, y)
  {
    if CodeHolds(code, s, y) {
      var c: Node :| BlockHolds(code, c, s, y);
    }
  }

  lemma ElsewhereSame(code: seq<Code>, b: Node, c2: Code, s: Slot, y: Item)
    requires b < |code|
    ensures HeldElsewhere(code[b := c2], b, s, y) <==> HeldElsewhere(code, b, s, y)
  {
    if HeldElsewhere(code, b, s, y) {
      var c: Node :| c != b && BlockHolds(code, c, s, y);
      OtherBlockSame(code, b, c2, c, s, y);
    }
    if HeldElsewhere(code[b := c2], b, s, y) {
      var c: Node :| c != b && BlockHolds(code[b := c2], c, s, y);
      OtherBlockSame(code, b, c2, c, s, y);
    }
  }

  lemma OtherBlockSame(code: seq<Code>, b: Node, c2: Code, c: Node, s: Slot, y: Item)
    requires b < |code| && c != b
    ensures BlockHolds(code[b := c2], c, s, y) <==> BlockHolds(code, c, s, y)
  {
    assert c < |code| ==> code[b := c2][c] == code[c];
  }

  ghost predicate NamedAt(code: seq<Code>, b: Node, k: nat, x: Name) {
    b < |code| && k < |code[b].instrs| && code[b].instrs[k].id == x
  }

  ghost predicate UniqueCode(code: seq<Code>) {
    forall b, k, c, j, x {:trigger NamedAt(code, b, k, x), NamedAt(code, c, j, x)} ::
      NamedAt(code, b, k, x) && NamedAt(code, c, j, x) ==> b == c && k == j
  }

  lemma SamePlace(code: seq<Code>, b: Node, k: nat, c: Node, j: nat)
    requires UniqueCode(code) && b < |code| && k < |code[b].instrs| && c < |code| && j < |code[c].instrs|
    requires code[b].instrs[k].id == code[c].instrs[j].id
    ensures b == c && k == j
  {
    assert NamedAt(code, b, k, code[b].instrs[k].id) && NamedAt(code, c, j, code[b].instrs[k].id);
  }

  ghost predicate AllUses(h: UseTable) {
    forall y: Item :: y in h.uses
  }

  ghost function Defs(xs: set<Name>): set<Item> {
    set x | x in xs :: Def(x)
  }

  /** The use lists are those of the code, in order, where the values xs were replaced. */
  ghost predicate Follows(code: seq<Code>, h: UseTable, xs: set<Name>) {
    AllUses(h) && UniqueCode(code) && Shows(code, h.slots) && InOrder(h, Defs(xs))
  }

  // ---------------------------------------------------------------- replacing

  function Swapped(y: Item, x: Item, o: Item): Item {
    if y == x then o else y
  }

  function SwapAll(items: seq<Item>, x: Item, o: Item): seq<Item> {
    seq(|items|, i requires 0 <= i < |items| => Swapped(items[i], x, o))
  }

  lemma SubstPairItems(pairs: seq<(Operand, Node)>, x: Name, o: Operand)
    ensures PairItems(SubstPairs(map[x := o], pairs)) == SwapAll(PairItems(pairs), Def(x), ItemOf(o))
  {
  }

  lemma SubstAllItems(os: seq<Operand>, x: Name, o: Operand)
    ensures Items(SubstAll(map[x := o], os)) == SwapAll(Items(os), Def(x), ItemOf(o))
  {
  }

  lemma SubstItems(op: Op, x: Name, o: Operand)
    ensures OpItems(SubstOp(map[x := o], op)) == SwapAll(OpItems(op), Def(x), ItemOf(o))
  {
    match op {
      case Phi(_, pairs) => SubstPairItems(pairs, x, o);
      case Calc(_, args) => SubstAllItems(args, x, o);
      case Call(fn, args) =>
        SubstAllItems(args, x, o);
        assert SwapAll([Callee(fn)] + Items(args), Def(x), ItemOf(o)) ==
          [Callee(fn)] + SwapAll(Items(args), Def(x), ItemOf(o));
      case _ =>
    }
  }

  lemma SubstTermItems(t: Term, x: Name, o: Operand)
    ensures TermItems(SubstTerm(map[x := o], t)) == SwapAll(TermItems(t), Def(x), ItemOf(o))
  {
  }

  lemma SwapHolds(code: seq<Code>, x: Name, o: Operand, s: Slot, y: Item)
    requires CodeHolds(code, s, y)
    ensures CodeHolds(ReplaceAll(code, x, o), s, Swapped(y, Def(x), ItemOf(o)))
  {
    var b: Node :| BlockHolds(code, b, s, y);
    var z, c2 := Swapped(y, Def(x), ItemOf(o)), ReplaceAll(code, x, o)[b];
    if BodyHolds(code[b].instrs, s, y) {
      var k :| 0 <= k < |code[b].instrs| && InstrHolds(code[b].instrs[k], s, y);
      SubstItems(code[b].instrs[k].op, x, o);
      assert InstrHolds(c2.instrs[k], s, z);
    } else {
      SubstTermItems(code[b].term, x, o);
    }
    assert BlockHolds(ReplaceAll(code, x, o), b, s, z);
  }

  lemma SwapHeld(code: seq<Code>, x: Name, o: Operand, s: Slot, z: Item)
    requires CodeHolds(ReplaceAll(code, x, o), s, z)
    ensures exists y :: CodeHolds(code, s, y) && z == Swapped(y, Def(x), ItemOf(o))
  {
    var b: Node :| BlockHolds(ReplaceAll(code, x, o), b, s, z);
    var c2 := ReplaceAll(code, x, o)[b];
    if BodyHolds(c2.instrs, s, z) {
      var k :| 0 <= k < |c2.instrs| && InstrHolds(c2.instrs[k], s, z);
      SubstItems(code[b].instrs[k].op, x, o);
      var y := OpItems(code[b].instrs[k].op)[s.1];
      assert InstrHolds(code[b].instrs[k], s, y) && BlockHolds(code, b, s, y);
    } else {
      SubstTermItems(code[b].term, x, o);
      var y := TermItems(code[b].term)[s.1];
      assert BlockHolds(code, b, s, y);
    }
  }

  /** Replacing by use list is replacing by value, where the value was not replaced before
      and the new one never was. */
  lemma ReplaceFollows(code: seq<Code>, h: UseTable, xs: set<Name>, x: Name, o: Operand)
    requires Follows(code, h, xs) && x !in xs && o != Ref(x) && ItemOf(o) !in Defs(xs)
    ensures Follows(ReplaceAll(code, x, o), Apply(h, Replace(Def(x), ItemOf(o))), xs + {x})
  {
    var e := Replace(Def(x), ItemOf(o));
    EditIsMeant(h, Defs(xs), e);
    assert Defs(xs + {x}) == Defs(xs) + {Def(x)};
    var code2, slots2 := ReplaceAll(code, x, o), ApplyToSlots(h.slots, e);
    forall b, k, z ensures NamedAt(code2, b, k, z) <==> NamedAt(code, b, k, z) {}
    forall s: Slot, z ensures CodeHolds(code2, s, z) <==> s in slots2 && slots2[s] == z {
      if CodeHolds(code2, s, z) {
        SwapHeld(code, x, o, s, z);
      }
      if s in h.slots {
        SwapHolds(code, x, o, s, h.slots[s]);
      }
    }
  }

  // ------------------------------------------------------------------- filling

  ghost function AppendPair(h: UseTable, ins: Instr, o: Operand, p: Node): (r: UseTable)
    requires AllUses(h) && ins.op.Phi?
    ensures AllUses(r)
  {
    Apply(Apply(h, Append(Def(ins.id), PairSlot(ins, 0).1, ItemOf(o))),
          Append(Def(ins.id), PairSlot(ins, 1).1, Block(p)))
  }

  /** `add_phi_pair_operand` for the phis among these instructions. */
  ghost function FillLists(h: UseTable, instrs: seq<Instr>, names: map<Name, Operand>, p: Node): (r: UseTable)
    requires AllUses(h)
    ensures AllUses(r)
  {
    if instrs == [] then h
    else
      var r, ins := FillLists(h, instrs[..|instrs| - 1], names, p), instrs[|instrs| - 1];
      if ins.op.Phi? && ins.op.slot in names then AppendPair(r, ins, names[ins.op.slot], p) else r
  }

  /** The code with instruction k of block b exchanged. */
  ghost function Exchanged(code: seq<Code>, b: Node, k: nat, ins: Instr): seq<Code>
    requires b < |code| && k < |code[b].instrs|
  {
    code[b := Code(code[b].instrs[k := ins], code[b].term)]
  }

  lemma ExchangedIsUnique(code: seq<Code>, b: Node, k: nat, ins: Instr)
    requires UniqueCode(code) && b < |code| && k < |code[b].instrs| && ins.id == code[b].instrs[k].id
    ensures UniqueCode(Exchanged(code, b, k, ins))
  {
    var code2 := Exchanged(code, b, k, ins);
    forall c, i, x ensures NamedAt(code2, c, i, x) <==> NamedAt(code, c, i, x) {}
  }

  /** An instruction with more operands holds what it held, and what was added. */
  lemma LongerInstrHolds(ins: Instr, ins2: Instr, more: seq<Item>, s: Slot, y: Item)
    requires ins2.id == ins.id && OpItems(ins2.op) == OpItems(ins.op) + more
    ensures InstrHolds(ins2, s, y) <==> InstrHolds(ins, s, y) || Added(ins, more, s, y)
  {
  }

  ghost predicate Added(ins: Instr, more: seq<Item>, s: Slot, y: Item) {
    var n := |OpItems(ins.op)|;
    s.0 == Def(ins.id) && n <= s.1 < n + |more| && y == more[s.1 - n]
  }

  lemma LongerBodyHolds(instrs: seq<Instr>, k: nat, ins: Instr, more: seq<Item>, s: Slot, y: Item)
    requires k < |instrs| && ins.id == instrs[k].id && OpItems(ins.op) == OpItems(instrs[k].op) + more
    ensures BodyHolds(instrs[k := ins], s, y) <==> BodyHolds(instrs, s, y) || Added(instrs[k], more, s, y)
  {
    LongerInstrHolds(instrs[k], ins, more, s, y);
    var instrs2 := instrs[k := ins];
    if BodyHolds(instrs, s, y) {
      var j :| 0 <= j < |instrs| && InstrHolds(instrs[j], s, y);
      assert InstrHolds(instrs2[j], s, y);
    }
    if BodyHolds(instrs2, s, y) {
      var j :| 0 <= j < |instrs2| && InstrHolds(instrs2[j], s, y);
      assert j != k ==> InstrHolds(instrs[j], s, y);
    }
    assert InstrHolds(instrs2[k], s, y) ==> BodyHolds(instrs2, s, y);
  }

  lemma LongerHolds(code: seq<Code>, b: Node, k: nat, ins: Instr, more: seq<Item>, s: Slot, y: Item)
    requires b < |code| && k < |code[b].instrs| && ins.id == code[b].instrs[k].id
    requires OpItems(ins.op) == OpItems(code[b].instrs[k].op) + more
    ensures CodeHolds(Exchanged(code, b, k, ins), s, y) <==>
      CodeHolds(code, s, y) || Added(code[b].instrs[k], more, s, y)
  {
    var c2 := Code(code[b].instrs[k := ins], code[b].term);
    LongerBodyHolds(code[b].instrs, k, ins, more, s, y);
    HeldInOr(code, b, s, y);
    HeldInOr(code[b := c2], b, s, y);
    ElsewhereSame(code, b, c2, s, y);
    assert BlockHolds(code[b := c2], b, s, y) <==> BodyHolds(c2.instrs, s, y) || TermHolds(c2.term, b, s, y);
  }

  /** No slot behind the last operand of an instruction is taken. */
  lemma NoSlotBehind(code: seq<Code>, b: Node, k: nat, n: nat, y: Item)
    requires UniqueCode(code) && b < |code| && k < |code[b].instrs| && n >= |OpItems(code[b].instrs[k].op)|
    ensures !CodeHolds(code, (Def(code[b].instrs[k].id), n), y)
  {
    var s: Slot := (Def(code[b].instrs[k].id), n);
    forall c: Node ensures !BlockHolds(code, c, s, y) {
      forall j | c < |code| && 0 <= j < |code[c].instrs| ensures !InstrHolds(code[c].instrs[j], s, y) {
        if code[c].instrs[j].id == code[b].instrs[k].id {
          SamePlace(code, c, j, b, k);
        }
      }
    }
  }

  lemma PairItemsAppend(pairs: seq<(Operand, Node)>, o: Operand, p: Node)
    ensures PairItems(pairs + [(o, p)]) == PairItems(pairs) + [ItemOf(o), Block(p)]
  {
  }

  function WithPair(ins: Instr, o: Operand, p: Node): Instr
    requires ins.op.Phi?
  {
    Instr(ins.id, Phi(ins.op.slot, ins.op.pairs + [(o, p)]))
  }

  ghost function PairSlot(ins: Instr, i: nat): Slot
    requires ins.op.Phi?
  {
    var n: nat := 2 * |ins.op.pairs| + i;
    (Def(ins.id), n)
  }

  lemma PairAdded(ins: Instr, a0: Item, a1: Item, s: Slot, y: Item)
    requires ins.op.Phi?
    ensures Added(ins, [a0, a1], s, y) <==> (s == PairSlot(ins, 0) && y == a0) || (s == PairSlot(ins, 1) && y == a1)
  {
    assert s == (s.0, s.1);
  }

  lemma AppendHolds(code: seq<Code>, b: Node, k: nat, o: Operand, p: Node, s: Slot, y: Item)
    requires b < |code| && k < |code[b].instrs| && code[b].instrs[k].op.Phi?
    ensures var ins := code[b].instrs[k];
      CodeHolds(Exchanged(code, b, k, WithPair(ins, o, p)), s, y) <==>
        CodeHolds(code, s, y) || (s == PairSlot(ins, 0) && y == ItemOf(o)) || (s == PairSlot(ins, 1) && y == Block(p))
  {
    var ins := code[b].instrs[k];
    PairItemsAppend(ins.op.pairs, o, p);
    PairAdded(ins, ItemOf(o), Block(p), s, y);
    LongerHolds(code, b, k, WithPair(ins, o, p), [ItemOf(o), Block(p)], s, y);
  }

  lemma AppendShows(code: seq<Code>, slots: map<Slot, Item>, b: Node, k: nat, o: Operand, p: Node)
    requires UniqueCode(code) && Shows(code, slots)
    requires b < |code| && k < |code[b].instrs| && code[b].instrs[k].op.Phi?
    ensures var ins := code[b].instrs[k]; var at0, at1 := PairSlot(ins, 0), PairSlot(ins, 1);
      && at0 !in slots && at1 !in slots
      && Shows(Exchanged(code, b, k, WithPair(ins, o, p)), slots[at0 := ItemOf(o)][at1 := Block(p)])
  {
    var ins := code[b].instrs[k];
    var at0, at1 := PairSlot(ins, 0), PairSlot(ins, 1);
    var slots2 := slots[at0 := ItemOf(o)][at1 := Block(p)];
    FreeSlot(code, slots, b, k, at0.1);
    FreeSlot(code, slots, b, k, at1.1);
    forall s: Slot, y
      ensures CodeHolds(Exchanged(code, b, k, WithPair(ins, o, p)), s, y) <==> s in slots2 && slots2[s] == y
    {
      AppendHolds(code, b, k, o, p, s, y);
      assert CodeHolds(code, s, y) <==> s in slots && slots[s] == y;
    }
  }

  /** Appending one pair to one phi. */
  lemma AppendFollows(code: seq<Code>, h: UseTable, xs: set<Name>, b: Node, k: nat, o: Operand, p: Node)
    requires Follows(code, h, xs) && b < |code| && k < |code[b].instrs| && code[b].instrs[k].op.Phi?
    requires ItemOf(o) !in Defs(xs)
    ensures var ins := code[b].instrs[k];
      Follows(Exchanged(code, b, k, WithPair(ins, o, p)), AppendPair(h, ins, o, p), xs)
  {
    var ins := code[b].instrs[k];
    AppendShows(code, h.slots, b, k, o, p);
    ExchangedIsUnique(code, b, k, WithPair(ins, o, p));
    var e1 := Append(Def(ins.id), PairSlot(ins, 0).1, ItemOf(o));
    var e2 := Append(Def(ins.id), PairSlot(ins, 1).1, Block(p));
    EditIsMeant(h, Defs(xs), e1);
    EditIsMeant(Apply(h, e1), Defs(xs), e2);
  }

  lemma ShownIsHeld(code: seq<Code>, slots: map<Slot, Item>, s: Slot)
    requires Shows(code, slots) && s in slots
    ensures CodeHolds(code, s, slots[s])
  {
  }

  lemma FreeSlot(code: seq<Code>, slots: map<Slot, Item>, b: Node, k: nat, n: nat)
    requires UniqueCode(code) && Shows(code, slots)
    requires b < |code| && k < |code[b].instrs| && n >= |OpItems(code[b].instrs[k].op)|
    ensures (Def(code[b].instrs[k].id), n) !in slots
  {
    var s: Slot := (Def(code[b].instrs[k].id), n);
    if s in slots {
      ShownIsHeld(code, slots, s);
      NoSlotBehind(code, b, k, n, slots[s]);
    }
  }

  /** The first j instructions of block b filled. */
  ghost function FilledTo(code: seq<Code>, b: Node, names: map<Name, Operand>, p: Node, j: nat): seq<Code>
    requires b < |code| && j <= |code[b].instrs|
  {
    code[b := Code(FillPhis(code[b].instrs[..j], names, p) + code[b].instrs[j..], code[b].term)]
  }

  lemma {:induction false} FillToFollows(code: seq<Code>, h: UseTable, xs: set<Name>, b: Node,
                                         names: map<Name, Operand>,
                                         p: Node, j: nat)
    requires Follows(code, h, xs) && b < |code| && j <= |code[b].instrs|
    requires forall v :: v in names ==> ItemOf(names[v]) !in Defs(xs)
    ensures Follows(FilledTo(code, b, names, p, j), FillLists(h, code[b].instrs[..j], names, p), xs)
  {
    var instrs := code[b].instrs;
    if j == 0 {
      assert FillPhis(instrs[..0], names, p) + instrs[0..] == instrs;
      assert code[b := Code(instrs, code[b].term)] == code;
    } else {
      var k := j - 1;
      var before, ins := FilledTo(code, b, names, p, k), instrs[k];
      FillToFollows(code, h, xs, b, names, p, k);
      assert instrs[..j][..k] == instrs[..k] && before[b].instrs[k] == ins;
      FillPhisSnoc(instrs, names, p, k);
      assert FilledTo(code, b, names, p, j) == Exchanged(before, b, k, FillPhi(ins, names, p));
      if ins.op.Phi? && ins.op.slot in names {
        AppendFollows(before, FillLists(h, instrs[..k], names, p), xs, b, k, names[ins.op.slot], p);
      } else {
        assert before[b].instrs[k := ins] == before[b].instrs && before[b := before[b]] == before;
      }
    }
  }

  lemma FillPhisSnoc(instrs: seq<Instr>, names: map<Name, Operand>, p: Node, k: nat)
    requires k < |instrs|
    ensures FillPhis(instrs[..k + 1], names, p) + instrs[k + 1..] ==
      (FillPhis(instrs[..k], names, p) + instrs[k..])[k := FillPhi(instrs[k], names, p)]
  {
  }

  /** Filling the phis of one block by use list. */
  lemma FillFollows(code: seq<Code>, h: UseTable, xs: set<Name>, b: Node, names: map<Name, Operand>, p: Node)
    requires Follows(code, h, xs) && b < |code| && forall v :: v in names ==> ItemOf(names[v]) !in Defs(xs)
    ensures Follows(code[b := Code(FillPhis(code[b].instrs, names, p), code[b].term)],
                    FillLists(h, code[b].instrs, names, p), xs)
  {
    var n := |code[b].instrs|;
    FillToFollows(code, h, xs, b, names, p, n);
    assert code[b].instrs[..n] == code[b].instrs;
    assert FillPhis(code[b].instrs, names, p) + code[b].instrs[n..] == FillPhis(code[b].instrs, names, p);
  }

  // ------------------------------------------------------------------ deleting

  /** `delete_instr` for those of the instructions that are listed. */
  ghost function DeleteLists(h: UseTable, instrs: seq<Instr>, gone: set<Name>): (r: UseTable)
    requires AllUses(h)
    ensures AllUses(r)
  {
    if instrs == [] then h
    else
      var r, x := DeleteLists(h, instrs[..|instrs| - 1], gone), instrs[|instrs| - 1].id;
      if x in gone then Apply(r, Delete(Def(x))) else r
  }

  ghost predicate IsGone(instrs: seq<Instr>, gone: set<Name>, u: Item) {
    u.Def? && u.name in gone && u.name in Ids(instrs)
  }

  lemma {:induction false} DeleteListsSlots(h: UseTable, instrs: seq<Instr>, gone: set<Name>, xs: set<Name>)
    requires AllUses(h) && InOrder(h, Defs(xs))
    ensures InOrder(DeleteLists(h, instrs, gone), Defs(xs))
    ensures DeleteLists(h, instrs, gone).slots == map s | s in h.slots && !IsGone(instrs, gone, s.0) :: h.slots[s]
  {
    if instrs != [] {
      var init, ins := instrs[..|instrs| - 1], instrs[|instrs| - 1];
      DeleteListsSlots(h, init, gone, xs);
      assert instrs == init + [ins];
      IdsSnoc(init, ins);
      DeleteKeepsOrder(DeleteLists(h, init, gone), Defs(xs), Def(ins.id));
    }
  }

  lemma {:induction false} WithoutAt(instrs: seq<Instr>, gone: set<Name>, r: nat) returns (k: nat)
    requires r < |Without(instrs, gone)|
    ensures k < |instrs| && Without(instrs, gone)[r] == instrs[k] && instrs[k].id !in gone
    ensures r == |Without(instrs[..k], gone)|
    decreases |instrs|
  {
    var n := |instrs| - 1;
    if r < |Without(instrs[..n], gone)| {
      k := WithoutAt(instrs[..n], gone, r);
      assert instrs[..n][..k] == instrs[..k];
    } else {
      k := n;
    }
  }

  lemma {:induction false} KeptAt(instrs: seq<Instr>, gone: set<Name>, k: nat)
    requires k < |instrs| && instrs[k].id !in gone
    ensures instrs[k] in Without(instrs, gone)
    decreases |instrs|
  {
    var n := |instrs| - 1;
    if k < n {
      KeptAt(instrs[..n], gone, k);
    }
  }

  ghost function WithoutListed(code: seq<Code>, b: Node, gone: set<Name>): seq<Code>
    requires b < |code|
  {
    code[b := Code(Without(code[b].instrs, gone), code[b].term)]
  }

  lemma NamedBefore(code: seq<Code>, b: Node, gone: set<Name>, c: Node, r: nat, x: Name) returns (k: nat)
    requires b < |code| && NamedAt(WithoutListed(code, b, gone), c, r, x)
    ensures NamedAt(code, c, k, x) && r == if c == b then |Without(code[b].instrs[..k], gone)| else k
  {
    k := r;
    if c == b {
      k := WithoutAt(code[b].instrs, gone, r);
    }
  }

  lemma DeletedIsUnique(code: seq<Code>, b: Node, gone: set<Name>)
    requires UniqueCode(code) && b < |code|
    ensures UniqueCode(WithoutListed(code, b, gone))
  {
    var code2 := WithoutListed(code, b, gone);
    forall c, r, d, q, x | NamedAt(code2, c, r, x) && NamedAt(code2, d, q, x) ensures c == d && r == q {
      var k := NamedBefore(code, b, gone, c, r, x);
      var j := NamedBefore(code, b, gone, d, q, x);
    }
  }

  lemma IdInBlock(code: seq<Code>, c: Node, k: nat, b: Node)
    requires UniqueCode(code) && b < |code| && c < |code| && k < |code[c].instrs|
    ensures code[c].instrs[k].id in Ids(code[b].instrs) ==> c == b
  {
    if code[c].instrs[k].id in Ids(code[b].instrs) {
      var i :| 0 <= i < |code[b].instrs| && code[b].instrs[i].id == code[c].instrs[k].id;
      SamePlace(code, c, k, b, i);
    }
  }

  lemma WithoutHolds(instrs: seq<Instr>, gone: set<Name>, s: Slot, y: Item)
    ensures BodyHolds(Without(instrs, gone), s, y) <==> BodyHolds(instrs, s, y) && !IsGone(instrs, gone, s.0)
  {
    var kept := Without(instrs, gone);
    if BodyHolds(kept, s, y) {
      var r :| 0 <= r < |kept| && InstrHolds(kept[r], s, y);
      var k := WithoutAt(instrs, gone, r);
      assert InstrHolds(instrs[k], s, y);
    }
    if BodyHolds(instrs, s, y) && !IsGone(instrs, gone, s.0) {
      var k :| 0 <= k < |instrs| && InstrHolds(instrs[k], s, y);
      KeptAt(instrs, gone, k);
      var r :| 0 <= r < |kept| && kept[r] == instrs[k];
      assert InstrHolds(kept[r], s, y);
    }
  }

  lemma ElsewhereStays(code: seq<Code>, b: Node, gone: set<Name>, s: Slot, y: Item)
    requires UniqueCode(code) && b < |code| && HeldElsewhere(code, b, s, y)
    ensures !IsGone(code[b].instrs, gone, s.0)
  {
    var c: Node :| c != b && BlockHolds(code, c, s, y);
    if BodyHolds(code[c].instrs, s, y) {
      var k :| 0 <= k < |code[c].instrs| && InstrHolds(code[c].instrs[k], s, y);
      IdInBlock(code, c, k, b);
    }
  }

  lemma DeletedHolds(code: seq<Code>, b: Node, gone: set<Name>, s: Slot, y: Item)
    requires UniqueCode(code) && b < |code|
    ensures CodeHolds(WithoutListed(code, b, gone), s, y) <==>
      CodeHolds(code, s, y) && !IsGone(code[b].instrs, gone, s.0)
  {
    var c2 := Code(Without(code[b].instrs, gone), code[b].term);
    WithoutHolds(code[b].instrs, gone, s, y);
    HeldInOr(code, b, s, y);
    HeldInOr(code[b := c2], b, s, y);
    ElsewhereSame(code, b, c2, s, y);
    if HeldElsewhere(code, b, s, y) {
      ElsewhereStays(code, b, gone, s, y);
    }
    assert BlockHolds(code[b := c2], b, s, y) <==> BodyHolds(c2.instrs, s, y) || TermHolds(c2.term, b, s, y);
  }

  /** Deleting the listed instructions of one block by use list. */
  lemma DeleteFollows(code: seq<Code>, h: UseTable, xs: set<Name>, b: Node, gone: set<Name>)
    requires Follows(code, h, xs) && b < |code|
    ensures Follows(WithoutListed(code, b, gone), DeleteLists(h, code[b].instrs, gone), xs)
  {
    DeleteListsSlots(h, code[b].instrs, gone, xs);
    DeletedIsUnique(code, b, gone);
    var slots2 := DeleteLists(h, code[b].instrs, gone).slots;
    forall s: Slot, y ensures CodeHolds(WithoutListed(code, b, gone), s, y) <==> s in slots2 && slots2[s] == y {
      DeletedHolds(code, b, gone, s, y);
    }
  }

  // ------------------------------------------------------------------ at first

  /** Ranges over all items. */
  predicate IsItem(y: Item) {
    true
  }

  ghost function NoLists(): UseTable {
    UseLists.Snapshot(map[], imap y: Item | IsItem(y) :: [])
  }

  /** Building a function operand by operand leaves its use lists in order. */
  lemma {:induction false} ListsExist(slots: map<Slot, Item>) returns (h: UseTable)
    ensures AllUses(h) && h.slots == slots && InOrder(h, {})
    decreases |slots|
  {
    if slots == map[] {
      h := NoLists();
    } else {
      var s :| s in slots;
      var h0 := ListsExist(slots - {s});
      var e := Append(s.0, s.1, slots[s]);
      EditIsMeant(h0, {}, e);
      h := Apply(h0, e);
    }
  }

  lemma CodeIsUnique(f: Func)
    requires UniqueIds(f)
    ensures UniqueCode(f.code)
  {
    forall b, k, x ensures NamedAt(f.code, b, k, x) <==> IdAt(f, b, k, x) {}
  }

  lemma HolderOf(code: seq<Code>, s: Slot, y: Item) returns (b: Node, k: nat)
    requires CodeHolds(code, s, y) && s.0.Def?
    ensures b < |code| && k < |code[b].instrs| && InstrHolds(code[b].instrs[k], s, y)
  {
    b :| BlockHolds(code, b, s, y);
    k :| k < |code[b].instrs| && InstrHolds(code[b].instrs[k], s, y);
  }

  lemma HeldOnce(code: seq<Code>, s: Slot, y: Item, z: Item)
    requires UniqueCode(code) && CodeHolds(code, s, y) && CodeHolds(code, s, z)
    ensures y == z
  {
    if s.0.Def? {
      var b, k := HolderOf(code, s, y);
      var c, j := HolderOf(code, s, z);
      SamePlace(code, b, k, c, j);
    } else {
      var b: Node :| BlockHolds(code, b, s, y);
      var c: Node :| BlockHolds(code, c, s, z);
    }
  }

  ghost predicate IsHeld(code: seq<Code>, s: Slot) {
    exists y :: CodeHolds(code, s, y)
  }

  ghost function HeldAt(code: seq<Code>, s: Slot): (y: Item)
    requires IsHeld(code, s)
    ensures CodeHolds(code, s, y)
  {
    var y :| CodeHolds(code, s, y);
    y
  }

  ghost function InstrSlots(ins: Instr): set<Slot> {
    set i: nat | i < |OpItems(ins.op)| :: (Def(ins.id), i)
  }

  ghost function TermSlots(b: Node, t: Term): set<Slot> {
    set i: nat | i < |TermItems(t)| :: (Ending(b), i)
  }

  /** All slots of the code. */
  ghost function SlotsOf(code: seq<Code>): set<Slot> {
    (set b: Node, k: nat, s | b < |code| && k < |code[b].instrs| && s in InstrSlots(code[b].instrs[k]) :: s) +
    (set b: Node, s | b < |code| && s in TermSlots(b, code[b].term) :: s)
  }

  lemma SlotsOfHeld(code: seq<Code>, s: Slot)
    requires s in SlotsOf(code)
    ensures IsHeld(code, s)
  {
    if b: Node, k: nat :| b < |code| && k < |code[b].instrs| && s in InstrSlots(code[b].instrs[k]) {
      var y := OpItems(code[b].instrs[k].op)[s.1];
      assert InstrHolds(code[b].instrs[k], s, y) && BlockHolds(code, b, s, y) && CodeHolds(code, s, y);
    } else {
      var b: Node :| b < |code| && s in TermSlots(b, code[b].term);
      var y := TermItems(code[b].term)[s.1];
      assert BlockHolds(code, b, s, y) && CodeHolds(code, s, y);
    }
  }

  lemma HeldInSlotsOf(code: seq<Code>, s: Slot, y: Item)
    requires CodeHolds(code, s, y)
    ensures s in SlotsOf(code)
  {
    var b: Node :| BlockHolds(code, b, s, y);
    if BodyHolds(code[b].instrs, s, y) {
      var k :| 0 <= k < |code[b].instrs| && InstrHolds(code[b].instrs[k], s, y);
      assert s in InstrSlots(code[b].instrs[k]);
    } else {
      assert s in TermSlots(b, code[b].term);
    }
  }

  lemma SlotsExist(code: seq<Code>) returns (slots: map<Slot, Item>)
    requires UniqueCode(code)
    ensures Shows(code, slots)
  {
    forall s | s in SlotsOf(code) ensures IsHeld(code, s) {
      SlotsOfHeld(code, s);
    }
    slots := map s | s in SlotsOf(code) :: HeldAt(code, s);
    forall s: Slot, y ensures CodeHolds(code, s, y) <==> s in slots && slots[s] == y {
      if CodeHolds(code, s, y) {
        HeldInSlotsOf(code, s, y);
        HeldOnce(code, s, y, HeldAt(code, s));
      }
    }
  }

  /** A function with distinct identities has use lists in order. */
  lemma FollowStarts(f: Func) returns (h: UseTable)
    requires UniqueIds(f)
    ensures Follows(f.code, h, {})
  {
    CodeIsUnique(f);
    var slots := SlotsExist(f.code);
    h := ListsExist(slots);
    assert Defs({}) == {};
  }
}
