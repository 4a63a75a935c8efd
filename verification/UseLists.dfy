/** Use lists: every value records the operand slots that were given to it. Setting an
    operand appends a record and leaves the one of the slot's former value in place. */
module UseLists {

  datatype Use<V> = Use(user: V, argNo: nat)

  ghost function Users(us: seq<Use<Value>>): set<Value> {
    set u | u in us :: u.user
  }

  /** `std::list::remove_if`, for the records of one user. */
  function WithoutUser<V(==)>(us: seq<Use<V>>, user: V): (r: seq<Use<V>>)
    ensures (forall u :: u in r ==> u in us && u.user != user) && forall u :: u in us && u.user != user ==> u in r
  {
    if us == [] then [] else (if us[0].user == user then [] else [us[0]]) + WithoutUser(us[1..], user)
  }

  /** What stays keeps its order and its number. */
  lemma {:induction false} WithoutUserJoins<V>(us: seq<Use<V>>, vs: seq<Use<V>>, user: V)
    ensures WithoutUser(us + vs, user) == WithoutUser(us, user) + WithoutUser(vs, user)
  {
    if us == [] {
      assert us + vs == vs;
    } else {
      assert (us + vs)[1..] == us[1..] + vs;
      WithoutUserJoins(us[1..], vs, user);
    }
  }

  lemma {:induction false} WithoutUserTwice<V>(us: seq<Use<V>>, user: V)
    ensures WithoutUser(WithoutUser(us, user), user) == WithoutUser(us, user)
  {
    if us != [] {
      WithoutUserTwice(us[1..], user);
      var r := WithoutUser(us[1..], user);
      assert [] + r == r && ([us[0]] + r)[1..] == r;
    }
  }

  ghost predicate Detached<V>(us: seq<Use<V>>, was: seq<Use<V>>, user: V) {
    us == WithoutUser(was, user)
  }

  lemma DetachedAgain<V>(us: seq<Use<V>>, was: seq<Use<V>>, user: V)
    requires us == was || Detached(us, was, user)
    ensures Detached(WithoutUser(us, user), was, user)
  {
    WithoutUserTwice(was, user);
  }

  lemma WithoutUserOfOne<V>(u: Use<V>, user: V)
    ensures WithoutUser([u], user) == if u.user == user then [] else [u]
  {
  }

  /** Values and users in one: a value that is no user has no operands. */
  class Value {
    var useList: seq<Use<Value>>
    var operands: seq<Value?>
    var numOps: nat

    constructor (numOps: nat)
      ensures Valid() && this.numOps == numOps && useList == [] && forall i :: 0 <= i < numOps ==> operands[i] == null
    {
      useList, operands, this.numOps := [], seq(numOps, _ => null), numOps;
    }

    ghost predicate Valid()
      reads this`operands, this`numOps
    {
      numOps == |operands|
    }

    /** `add_use` */
    method AddUse(user: Value, argNo: nat)
      modifies this`useList
      ensures useList == old(useList) + [Use(user, argNo)]
    {
      useList := useList + [Use(user, argNo)];
    }

    /** `remove_use` */
    method RemoveUse(user: Value)
      modifies this`useList
      ensures useList == WithoutUser(old(useList), user)
    {
      useList := WithoutUser(useList, user);
    }

    /** `set_operand` */
    method SetOperand(i: nat, v: Value)
      requires Valid() && i < numOps
      modifies this`operands, v`useList
      ensures Valid() && operands == old(operands)[i := v] && v.useList == old(v.useList) + [Use(this, i)]
    {
      operands := operands[i := v];
      v.AddUse(this, i);
    }

    /** `add_operand` */
    method AddOperand(v: Value)
      requires Valid()
      modifies this`operands, this`numOps, v`useList
      ensures Valid() && operands == old(operands) + [v] && v.useList == old(v.useList) + [Use(this, old(numOps))]
    {
      operands := operands + [v];
      v.AddUse(this, numOps);
      numOps := numOps + 1;
    }

    /** Every recorded slot exists. */
    ghost predicate UsesExist()
      reads this`useList, Users(useList)`operands, Users(useList)`numOps
    {
      forall k {:trigger useList[k]} :: 0 <= k < |useList| ==>
        useList[k].user.Valid() && useList[k].argNo < useList[k].user.numOps
    }

    /** `replace_all_use_with`: exactly the recorded slots change, whatever they hold. */
    method ReplaceAllUseWith(v: Value)
      requires v != this && UsesExist()
      modifies Users(useList)`operands, v`useList
      ensures UsesExist() && v.useList == old(v.useList) + useList
      ensures forall u: Value, i: nat {:trigger u.operands[i]} :: u in Users(useList) && i < |u.operands| ==>
        u.operands[i] == if Use(u, i) in useList then v else old(u.operands[i])
      ensures forall u: Value {:trigger u.operands} :: u in Users(useList) ==> |u.operands| == old(|u.operands|)
    {
      for k := 0 to |useList|
        invariant v.useList == old(v.useList) + useList[..k]
        invariant UsesExist()
        invariant forall u: Value {:trigger u.operands} :: u in Users(useList) ==> |u.operands| == old(|u.operands|)
        invariant forall u: Value, i: nat {:trigger u.operands[i]} :: u in Users(useList) && i < |u.operands| ==>
          u.operands[i] == if Use(u, i) in useList[..k] then v else old(u.operands[i])
      {
        var use := useList[k];
        assert useList[..k + 1] == useList[..k] + [use];
        assert use in useList;
        use.user.SetOperand(use.argNo, v);
      }
      assert useList[..|useList|] == useList;
    }

    /** `remove_use_of_ops`, as when an instruction is deleted. */
    method RemoveUseOfOps()
      requires Valid() && null !in operands
      modifies (set x: Value | x in operands)`useList
      ensures forall x: Value {:trigger x.useList} :: x in operands ==> x.useList == WithoutUser(old(x.useList), this)
    {
      var ops := operands;
      ghost var done: set<Value?> := {};
      ghost var was := map x: Value | x in ops :: x.useList;
      for k := 0 to |ops|
        invariant forall i {:trigger ops[i]} :: 0 <= i < k ==> ops[i] in done
        invariant forall x: Value {:trigger x.useList} :: x in was ==>
          if x in done then Detached(x.useList, was[x], this) else x.useList == was[x]
      {
        DetachedAgain(ops[k].useList, was[ops[k]], this);
        ops[k].RemoveUse(this);
        done := done + {ops[k]};
      }
    }
  }

  // ------------------------------------------------------- complete use lists

  type Slot<V> = (V, nat)

  /** What the operand slots hold, and the use lists, at one moment. */
  datatype Snapshot<!V> = Snapshot(slots: map<Slot<V>, V>, uses: imap<V, seq<Use<V>>>)

  /** Those of a set of values. */
  ghost function Now(all: set<Value>): Snapshot<Value>
    reads all
  {
    Snapshot(map u: Value, i: nat | u in all && 0 <= i < |u.operands| && u.operands[i] != null ::
               (u, i) := u.operands[i],
             imap u: Value | u in all :: u.useList)
  }

  /** The slots and users mentioned are those of the snapshot. */
  ghost predicate Closed<V>(h: Snapshot<V>) {
    && (forall s {:trigger h.slots[s]} :: s in h.slots ==> s.0 in h.uses && h.slots[s] in h.uses)
    && (forall x, u {:trigger u in h.uses[x]} :: x in h.uses && u in h.uses[x] ==> (u.user, u.argNo) in h.slots)
  }

  /** Every slot that holds a value is recorded with it. */
  ghost predicate Complete<V>(h: Snapshot<V>) {
    Closed(h) && forall s {:trigger h.slots[s]} :: s in h.slots ==> Use(s.0, s.1) in h.uses[h.slots[s]]
  }

  /** Every record of x is for a slot that holds x, or v. */
  ghost predicate NoneStale<V>(h: Snapshot<V>, x: V, v: V)
    requires Closed(h) && x in h.uses
  {
    forall u :: u in h.uses[x] ==> h.slots[(u.user, u.argNo)] == x || h.slots[(u.user, u.argNo)] == v
  }

  /** Slots that do not hold x keep what they hold. */
  ghost predicate OthersKept<V>(h: Snapshot<V>, h2: Snapshot<V>, x: V) {
    forall s {:trigger h.slots[s]} :: s in h.slots && h.slots[s] != x ==> s in h2.slots && h2.slots[s] == h.slots[s]
  }

  ghost function Replaced<V>(h: Snapshot<V>, x: V, v: V): Snapshot<V>
    requires x in h.uses && v in h.uses
  {
    Snapshot(map s | s in h.slots :: if Use(s.0, s.1) in h.uses[x] then v else h.slots[s],
             h.uses[v := h.uses[v] + h.uses[x]])
  }

  ghost function Assigned<V>(h: Snapshot<V>, s: Slot<V>, v: V): Snapshot<V>
    requires v in h.uses
  {
    Snapshot(h.slots[s := v], h.uses[v := h.uses[v] + [Use(s.0, s.1)]])
  }

  /** From complete use lists, replacing leaves no slot with the old value and the lists
      complete. */
  lemma ReplacedIsComplete<V>(h: Snapshot<V>, x: V, v: V)
    requires Complete(h) && x in h.uses && v in h.uses && x != v
    ensures Complete(Replaced(h, x, v))
    ensures forall s {:trigger Replaced(h, x, v).slots[s]} :: s in h.slots ==> Replaced(h, x, v).slots[s] != x
  {
    var h2 := Replaced(h, x, v);
    forall y, u | y in h2.uses && u in h2.uses[y] ensures (u.user, u.argNo) in h2.slots {
      assert u in h.uses[y] || (y == v && u in h.uses[x]);
    }
    forall s | s in h2.slots ensures Use(s.0, s.1) in h2.uses[h2.slots[s]] {
      if Use(s.0, s.1) !in h.uses[x] {
        assert Use(s.0, s.1) in h.uses[h.slots[s]];
      }
    }
  }

  /** It changes no other slot exactly when none of the old value's records is stale. */
  lemma OthersKeptIff<V>(h: Snapshot<V>, x: V, v: V)
    requires Closed(h) && x in h.uses && v in h.uses
    ensures OthersKept(h, Replaced(h, x, v), x) <==> NoneStale(h, x, v)
  {
    var h2 := Replaced(h, x, v);
    if OthersKept(h, h2, x) {
      forall u | u in h.uses[x] ensures h.slots[(u.user, u.argNo)] == x || h.slots[(u.user, u.argNo)] == v {
        assert h2.slots[(u.user, u.argNo)] == v;
      }
    }
    if NoneStale(h, x, v) {
      forall s | s in h.slots && h.slots[s] != x ensures h2.slots[s] == h.slots[s] {
        if Use(s.0, s.1) in h.uses[x] {
          assert h.slots[(s.0, s.1)] == v;
        }
      }
    }
  }

  /** Setting an operand keeps the lists complete, but the former value of the slot keeps
      its record, stale from then on. */
  lemma AssignedIsComplete<V>(h: Snapshot<V>, s: Slot<V>, v: V)
    requires Complete(h) && v in h.uses && s.0 in h.uses
    ensures Complete(Assigned(h, s, v))
    ensures s in h.slots && h.slots[s] != v ==>
      forall w {:trigger NoneStale(Assigned(h, s, v), h.slots[s], w)} :: w != v ==>
        !NoneStale(Assigned(h, s, v), h.slots[s], w)
  {
    var h2 := Assigned(h, s, v);
    forall y, u | y in h2.uses && u in h2.uses[y] ensures (u.user, u.argNo) in h2.slots {
      assert u in h.uses[y] || (y == v && u == Use(s.0, s.1));
    }
    forall t | t in h2.slots ensures Use(t.0, t.1) in h2.uses[h2.slots[t]] {
      if t != s {
        assert Use(t.0, t.1) in h.uses[h.slots[t]];
      }
    }
    if s in h.slots && h.slots[s] != v {
      assert Use(s.0, s.1) in h2.uses[h.slots[s]] && (s.0, s.1) == s;
    }
  }

  /** Operand i of u is what the slots say. */
  ghost predicate SlotIs(slots: map<Slot<Value>, Value>, u: Value, i: nat)
    requires i < |u.operands|
    reads u`operands
  {
    if u.operands[i] == null then (u, i) !in slots else (u, i) in slots && u.operands[i] == slots[(u, i)]
  }

  /** `replace_all_use_with` among the values `all`. */
  method ReplaceAmong(ghost all: set<Value>, x: Value, v: Value)
    requires x in all && v in all && x != v && Closed(Now(all)) && forall u :: u in all ==> u.Valid()
    modifies all
    ensures Now(all) == Replaced(old(Now(all)), x, v)
  {
    ghost var h := Now(all);
    forall k | 0 <= k < |x.useList|
      ensures x.useList[k].user in all && x.useList[k].argNo < |x.useList[k].user.operands|
    {
      assert h.uses[x] == x.useList && x.useList[k] in h.uses[x];
    }
    x.ReplaceAllUseWith(v);
    ghost var r := Replaced(h, x, v);
    forall u: Value, i: nat | u in all && i < |u.operands| ensures SlotIs(r.slots, u, i) {
      assert u in Users(x.useList) || Use(u, i) !in x.useList;
      assert SlotIs(r.slots, u, i);
    }
    SlotsAre(all, r.slots);
    UsesAre(all, r.uses);
  }

  /** `set_operand` among the values `all`. */
  method AssignAmong(ghost all: set<Value>, u: Value, i: nat, v: Value)
    requires u in all && v in all && u.Valid() && i < u.numOps
    modifies all
    ensures Now(all) == Assigned(old(Now(all)), (u, i), v)
  {
    ghost var h := Now(all);
    NowSlots(all);
    u.SetOperand(i, v);
    SlotsAfter(all, h.slots, u, i, v);
    UsesAre(all, Assigned(h, (u, i), v).uses);
  }

  lemma NowSlots(all: set<Value>)
    ensures forall u: Value, i: nat {:trigger SlotIs(Now(all).slots, u, i)} :: u in all && i < |u.operands| ==>
      SlotIs(Now(all).slots, u, i)
  {
  }

  /** The slots when only operand i of u was exchanged. */
  lemma SlotsAfter(all: set<Value>, slots: map<Slot<Value>, Value>, u: Value, i: nat, v: Value)
    requires u in all && i < |u.operands| && u.operands[i] == v
    requires forall w: Value, j: nat {:trigger SlotIs(slots, w, j)} :: w in all && j < |w.operands| ==>
      (w == u && j == i) || SlotIs(slots, w, j)
    requires forall s {:trigger s in slots} :: s in slots ==> s.0 in all && s.1 < |s.0.operands|
    ensures Now(all).slots == slots[(u, i) := v]
  {
    var slots2 := slots[(u, i) := v];
    forall w: Value, j: nat | w in all && j < |w.operands| ensures SlotIs(slots2, w, j) {
      assert (w == u && j == i) || SlotIs(slots, w, j);
    }
    SlotsAre(all, slots2);
  }

  lemma SlotsAre(all: set<Value>, m: map<Slot<Value>, Value>)
    requires forall u: Value, i: nat {:trigger SlotIs(m, u, i)} :: u in all && i < |u.operands| ==> SlotIs(m, u, i)
    requires forall s {:trigger s in m} :: s in m ==> s.0 in all && s.1 < |s.0.operands|
    ensures Now(all).slots == m
  {
    forall u: Value, i: nat | u in all && i < |u.operands|
      ensures if u.operands[i] == null then (u, i) !in m else (u, i) in m && u.operands[i] == m[(u, i)]
    {
      assert SlotIs(m, u, i);
    }
  }

  lemma UsesAre(all: set<Value>, m: imap<Value, seq<Use<Value>>>)
    requires forall u: Value {:trigger u in m} :: u in m <==> u in all
    requires forall u: Value {:trigger u.useList} :: u in all ==> u.useList == m[u]
    ensures Now(all).uses == m
  {
  }
}
