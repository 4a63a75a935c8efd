/** Use lists over a whole run of Mem2Reg's edits: as long as a replaced value is not used
    again, replacing by use list is replacing by value. */
module UseRuns {
  import opened UseLists

  /** `replace_all_use_with`, `add_phi_pair_operand` for one operand, and the detaching of
      an instruction's operands by `delete_instr`. */
  datatype Edit<V> = Replace(x: V, v: V) | Append(user: V, argNo: nat, v: V) | Delete(user: V)

  /** The slots of the deleted instruction go with it. */
  ghost function WithoutSlots<V>(slots: map<Slot<V>, V>, user: V): map<Slot<V>, V> {
    map s | s in slots && s.0 != user :: slots[s]
  }

  ghost predicate IsOperandOf<V>(slots: map<Slot<V>, V>, y: V, user: V) {
    exists s :: s in slots && s.0 == user && slots[s] == y
  }

  /** What the edit does by way of the use lists. */
  ghost function Apply<V>(h: Snapshot<V>, e: Edit<V>): Snapshot<V>
    requires e.Replace? ==> e.x in h.uses && e.v in h.uses
    requires e.Append? ==> e.v in h.uses
  {
    match e
    case Replace(x, v) => UseLists.Replaced(h, x, v)
    case Append(user, i, v) => Assigned(h, (user, i), v)
    case Delete(user) =>
      Snapshot(WithoutSlots(h.slots, user),
               imap y | y in h.uses ::
                 if IsOperandOf(h.slots, y, user) then WithoutUser(h.uses[y], user) else h.uses[y])
  }

  /** What it is meant to do to the operands. */
  ghost function ApplyToSlots<V>(slots: map<Slot<V>, V>, e: Edit<V>): map<Slot<V>, V> {
    match e
    case Replace(x, v) => map s | s in slots :: if slots[s] == x then v else slots[s]
    case Append(user, i, v) => slots[(user, i) := v]
    case Delete(user) => WithoutSlots(slots, user)
  }

  /** Every operand is recorded with its value; no slot holds a replaced value; and the
      records of the others are for slots that hold them. */
  ghost predicate InOrder<V>(h: Snapshot<V>, replaced: set<V>) {
    && (forall s {:trigger h.slots[s]} :: s in h.slots ==>
          h.slots[s] in h.uses && h.slots[s] !in replaced && Use(s.0, s.1) in h.uses[h.slots[s]])
    && (forall y, u {:trigger u in h.uses[y]} :: y in h.uses && y !in replaced && u in h.uses[y] ==>
          (u.user, u.argNo) in h.slots && h.slots[(u.user, u.argNo)] == y)
  }

  /** The edit mentions known values that have not been replaced before, and fills a slot
      that was not there. */
  ghost predicate Proper<V>(h: Snapshot<V>, replaced: set<V>, e: Edit<V>) {
    match e
    case Replace(x, v) => x in h.uses && v in h.uses && x != v && x !in replaced && v !in replaced
    case Append(user, i, v) => v in h.uses && v !in replaced && (user, i) !in h.slots
    case Delete(_) => true
  }

  ghost function ReplacedBy<V>(replaced: set<V>, e: Edit<V>): set<V> {
    if e.Replace? then replaced + {e.x} else replaced
  }

  lemma ReplaceKeepsOrder<V>(h: Snapshot<V>, replaced: set<V>, x: V, v: V)
    requires InOrder(h, replaced) && Proper(h, replaced, Replace(x, v))
    ensures InOrder(Apply(h, Replace(x, v)), replaced + {x})
    ensures Apply(h, Replace(x, v)).slots == ApplyToSlots(h.slots, Replace(x, v))
  {
    var h2 := Apply(h, Replace(x, v));
    forall s | s in h.slots ensures Use(s.0, s.1) in h.uses[x] <==> h.slots[s] == x {
      assert (s.0, s.1) == s;
    }
    forall y, u | y in h2.uses && y !in replaced + {x} && u in h2.uses[y]
      ensures (u.user, u.argNo) in h2.slots && h2.slots[(u.user, u.argNo)] == y
    {
      assert u in h.uses[y] || (y == v && u in h.uses[x]);
    }
  }

  lemma AppendKeepsOrder<V>(h: Snapshot<V>, replaced: set<V>, user: V, i: nat, v: V)
    requires InOrder(h, replaced) && Proper(h, replaced, Append(user, i, v))
    ensures InOrder(Apply(h, Append(user, i, v)), replaced)
  {
    var h2 := Apply(h, Append(user, i, v));
    forall y, u | y in h2.uses && y !in replaced && u in h2.uses[y]
      ensures (u.user, u.argNo) in h2.slots && h2.slots[(u.user, u.argNo)] == y
    {
      assert u in h.uses[y] || (y == v && u == Use(user, i));
    }
  }

  lemma DeleteKeepsOrder<V>(h: Snapshot<V>, replaced: set<V>, user: V)
    requires InOrder(h, replaced)
    ensures InOrder(Apply(h, Delete(user)), replaced)
  {
    var h2 := Apply(h, Delete(user));
    forall y, u | y in h2.uses && y !in replaced && u in h2.uses[y]
      ensures (u.user, u.argNo) in h2.slots && h2.slots[(u.user, u.argNo)] == y
    {
      assert u in h.uses[y];
      assert u.user == user ==> IsOperandOf(h.slots, y, user);
    }
  }

  /** One edit by use lists is the edit that is meant, and leaves the lists in order. */
  lemma EditIsMeant<V>(h: Snapshot<V>, replaced: set<V>, e: Edit<V>)
    requires InOrder(h, replaced) && Proper(h, replaced, e)
    ensures Apply(h, e).slots == ApplyToSlots(h.slots, e)
    ensures InOrder(Apply(h, e), ReplacedBy(replaced, e))
  {
    match e {
      case Replace(x, v) => ReplaceKeepsOrder(h, replaced, x, v);
      case Append(user, i, v) => AppendKeepsOrder(h, replaced, user, i, v);
      case Delete(user) => DeleteKeepsOrder(h, replaced, user);
    }
  }

  /** All edits of the run are proper where they are made. */
  ghost predicate ProperRun<V>(h: Snapshot<V>, replaced: set<V>, es: seq<Edit<V>>)
    decreases |es|
  {
    es == [] || (Proper(h, replaced, es[0]) && ProperRun(Apply(h, es[0]), ReplacedBy(replaced, es[0]), es[1..]))
  }

  ghost function ApplyAll<V>(h: Snapshot<V>, replaced: set<V>, es: seq<Edit<V>>): Snapshot<V>
    requires ProperRun(h, replaced, es)
    decreases |es|
  {
    if es == [] then h else ApplyAll(Apply(h, es[0]), ReplacedBy(replaced, es[0]), es[1..])
  }

  ghost function ApplyAllToSlots<V>(slots: map<Slot<V>, V>, es: seq<Edit<V>>): map<Slot<V>, V>
    decreases |es|
  {
    if es == [] then slots else ApplyAllToSlots(ApplyToSlots(slots, es[0]), es[1..])
  }

  /** Over any run of proper edits the operands end up as meant. */
  lemma {:induction false} RunIsMeant<V>(h: Snapshot<V>, replaced: set<V>, es: seq<Edit<V>>)
    requires InOrder(h, replaced) && ProperRun(h, replaced, es)
    ensures ApplyAll(h, replaced, es).slots == ApplyAllToSlots(h.slots, es)
    decreases |es|
  {
    if es != [] {
      EditIsMeant(h, replaced, es[0]);
      RunIsMeant(Apply(h, es[0]), ReplacedBy(replaced, es[0]), es[1..]);
    }
  }

  /** `remove_use_of_ops` among the values `all` is the deletion of its user: what is left of
      the lists, and the slots of the others. */
  method DetachAmong(ghost all: set<Value>, user: Value)
    requires user in all && user.Valid() && null !in user.operands
    requires forall x: Value :: x in user.operands ==> x in all
    modifies all
    ensures Now(all).uses == Apply(old(Now(all)), Delete(user)).uses
    ensures WithoutSlots(Now(all).slots, user) == Apply(old(Now(all)), Delete(user)).slots
  {
    ghost var h := Now(all);
    OperandsOf(all, user);
    user.RemoveUseOfOps();
    UsesAre(all, Apply(h, Delete(user)).uses);
  }

  lemma OperandsOf(all: set<Value>, user: Value)
    requires user in all && null !in user.operands
    ensures forall x: Value :: x in user.operands <==> IsOperandOf(Now(all).slots, x, user)
  {
    var slots := Now(all).slots;
    forall x: Value | x in user.operands ensures IsOperandOf(slots, x, user) {
      var i: nat :| i < |user.operands| && user.operands[i] == x;
      assert (user, i) in slots && slots[(user, i)] == x;
    }
  }
}
