/** Step 1 and 2 of Mem2Reg: which variables are stored where, and the growing
    worklist that gives each variable phis at its iterated dominance frontier. */
module PhiPlacement {
  import opened Graphs
  import opened ControlFlow
  import opened Frontiers
  import opened Ir
  import opened Scopes
  import opened Promotion
  import opened Renaming

  function FrontierOf(f: Frontier, x: Node): set<Node> {
    if x in f then f[x] else {}
  }

  /** s holds the frontier of every block in defs and in s itself. */
  ghost predicate ClosedFor(f: Frontier, defs: set<Node>, s: set<Node>) {
    forall x, y :: (x in defs || x in s) && y in FrontierOf(f, x) ==> y in s
  }

  /** The iterated dominance frontier: the least such set. */
  ghost predicate IsIterated(f: Frontier, defs: set<Node>, p: set<Node>) {
    ClosedFor(f, defs, p) && forall s {:trigger ClosedFor(f, defs, s)} :: ClosedFor(f, defs, s) ==> p <= s
  }

  /** The worklist after its first i entries have been handled, p being the blocks
      that have received a phi. */
  ghost predicate WorkAt(f: Frontier, defs: set<Node>, work: seq<Node>, i: nat, p: set<Node>) {
    && i <= |work|
    && (forall x :: x in work <==> x in defs || x in p)
    && (forall j, y :: 0 <= j < i && y in FrontierOf(f, work[j]) ==> y in p)
    && (forall s {:trigger ClosedFor(f, defs, s)} :: ClosedFor(f, defs, s) ==> p <= s)
  }

  lemma WorkAdds(f: Frontier, defs: set<Node>, work: seq<Node>, i: nat, p: set<Node>, y: Node)
    requires WorkAt(f, defs, work, i, p) && i < |work| && y in FrontierOf(f, work[i])
    ensures WorkAt(f, defs, work + [y], i, p + {y})
  {
    forall s | ClosedFor(f, defs, s) ensures p + {y} <= s {
      assert work[i] in work;
    }
  }

  lemma WorkAdvances(f: Frontier, defs: set<Node>, work: seq<Node>, i: nat, p: set<Node>)
    requires WorkAt(f, defs, work, i, p) && i < |work| && FrontierOf(f, work[i]) <= p
    ensures WorkAt(f, defs, work, i + 1, p)
  {
  }

  lemma WorkEnds(f: Frontier, defs: set<Node>, work: seq<Node>, p: set<Node>)
    requires WorkAt(f, defs, work, |work|, p)
    ensures IsIterated(f, defs, p)
  {
    forall x, y | (x in defs || x in p) && y in FrontierOf(f, x) ensures y in p {
      assert x in work;
    }
  }

  // ---------------------------------------------------------------- the code

  ghost predicate IdsBelow(f: Func, n: Name) {
    && (forall b: Node, i: nat, x: Name {:trigger IdAt(f, b, i, x)} :: IdAt(f, b, i, x) ==> x < n)
    && (forall x :: x in f.args ==> x < n)
  }

  ghost predicate OnePhiEach(instrs: seq<Instr>) {
    forall i, j :: 0 <= i < j < |instrs| && instrs[i].op.Phi? && instrs[j].op.Phi? ==>
      instrs[i].op.slot != instrs[j].op.slot
  }

  /** f is f0 with empty phis in front, exactly those listed in `has`, one per block
      and variable, under fresh identities. */
  ghost predicate PlacedAt(f0: Func, f: Func, has: set<(Node, Name)>, b: Node)
    requires |f.code| == |f0.code| && b < |f.code|
  {
    && NoPairs(f.code[b].instrs) && OnePhiEach(f.code[b].instrs)
    && (forall v: Name {:trigger (b, v) in has} :: (b, v) in has <==> HasPhi(f.code[b].instrs, v))
  }

  ghost predicate Placed(f0: Func, f: Func, has: set<(Node, Name)>, next: Name) {
    && PhisPlaced(f0, f) && UniqueIds(f) && IdsBelow(f, next)
    && (forall b {:trigger f.code[b]} :: 0 <= b < |f.code| ==> PlacedAt(f0, f, has, b))
  }

  function AddPhi(f: Func, b: Node, v: Name, x: Name): Func
    requires b < |f.code|
  {
    f.(code := f.code[b := Code([Instr(x, Phi(v, []))] + f.code[b].instrs, f.code[b].term)])
  }

  lemma PlacedStart(f: Func, next: Name)
    requires UniqueIds(f) && IdsBelow(f, next)
    requires forall b {:trigger f.code[b]} :: 0 <= b < |f.code| ==> forall i :: 0 <= i < |f.code[b].instrs| ==>
      !f.code[b].instrs[i].op.Phi?
    ensures Placed(f, f, {}, next)
  {
    forall b | 0 <= b < |f.code| ensures PlacedAt(f, f, {}, b) {
      assert forall i :: 0 <= i < |f.code[b].instrs| ==> !f.code[b].instrs[i].op.Phi?;
    }
  }

  lemma AddPhiIds(f: Func, b: Node, v: Name, next: Name)
    requires UniqueIds(f) && IdsBelow(f, next) && b < |f.code|
    ensures UniqueIds(AddPhi(f, b, v, next)) && IdsBelow(AddPhi(f, b, v, next), next + 1)
  {
    var g := AddPhi(f, b, v, next);
    forall c: Node, i: nat, x: Name | IdAt(g, c, i, x) ensures x < next || (c == b && i == 0 && x == next)
      ensures x < next ==> IdAt(f, c, if c == b then i - 1 else i, x)
    {
      if c == b && i > 0 {
        assert IdAt(f, b, i - 1, x);
      } else if c != b {
        assert IdAt(f, c, i, x);
      }
    }
    forall c: Node, i: nat, d: Node, j: nat, x: Name | IdAt(g, c, i, x) && IdAt(g, d, j, x) ensures c == d && i == j {
      if x < next {
        assert IdAt(f, c, if c == b then i - 1 else i, x) && IdAt(f, d, if d == b then j - 1 else j, x);
      }
    }
  }

  lemma AddPhiKeepsPlaced(f0: Func, f: Func, has: set<(Node, Name)>, next: Name, b: Node, v: Name)
    requires Placed(f0, f, has, next) && b < |f.code| && (b, v) !in has
    ensures Placed(f0, AddPhi(f, b, v, next), has + {(b, v)}, next + 1)
  {
    var g, has2 := AddPhi(f, b, v, next), has + {(b, v)};
    AddPhiIds(f, b, v, next);
    assert PlacedAt(f0, f, has, b);
    var ins := Instr(next, Phi(v, []));
    forall u: Name ensures (b, u) in has2 <==> HasPhi(g.code[b].instrs, u) {
      HasPhiCons(ins, f.code[b].instrs, u);
      assert (b, u) in has <==> HasPhi(f.code[b].instrs, u);
    }
    assert !HasPhi(f.code[b].instrs, v);
    assert PlacedAt(f0, g, has2, b);
    forall c | 0 <= c < |g.code| && c != b ensures PlacedAt(f0, g, has2, c) {
      assert g.code[c] == f.code[c] && PlacedAt(f0, f, has, c);
    }
    AddPhiKeepsShape(f0, f, b, v, next);
  }

  lemma AddPhiKeepsShape(f0: Func, f: Func, b: Node, v: Name, x: Name)
    requires PhisPlaced(f0, f) && b < |f.code|
    ensures PhisPlaced(f0, AddPhi(f, b, v, x))
  {
    var g := AddPhi(f, b, v, x);
    PhiInFront(f0.code[b], f.code[b], Instr(x, Phi(v, [])));
    forall c | 0 <= c < |g.code| && c != b ensures g.code[c] == f.code[c] {}
  }

  lemma PhiInFront(c0: Code, c1: Code, ins: Instr)
    requires PhisLeadTo(c1, c0) && ins.op.Phi?
    ensures PhisLeadTo(Code([ins] + c1.instrs, c1.term), c0)
  {
    var k := |c1.instrs| - |c0.instrs|;
    assert ([ins] + c1.instrs)[k + 1..] == c1.instrs[k..];
  }

  // ---------------------------------------------------- which stores count

  /** Some store to v is not of a value that this block has already stored over: the
      filter of step 1 compares the stored value with the addresses stored to so far. */
  ghost predicate LiveStore(instrs: seq<Instr>, i: nat, v: Name) {
    && i < |instrs| && IsCellStore(instrs[i].op) && instrs[i].op.to.slot == v
    && !(instrs[i].op.val.Ref? && HasStore(instrs[..i], instrs[i].op.val.name))
  }

  ghost predicate HasLiveStore(instrs: seq<Instr>, v: Name) {
    exists i: nat :: LiveStore(instrs, i, v)
  }

  /** Promoted slots are only used as addresses. */
  ghost predicate SlotsDontEscape(f: Func) {
    forall b, v, c, k {:trigger HasStore(InstrsOf(f, b), v), ReadAt(f, c, k, v)} ::
      HasStore(InstrsOf(f, b), v) ==> !ReadAt(f, c, k, v)
  }

  /** Then the filter never drops a stored variable. */
  lemma StoresAreLive(f: Func, b: Node, v: Name)
    requires SlotsDontEscape(f) && HasStore(InstrsOf(f, b), v)
    ensures HasLiveStore(InstrsOf(f, b), v)
  {
    var instrs := InstrsOf(f, b);
    var i :| 0 <= i < |instrs| && IsCellStore(instrs[i].op) && instrs[i].op.to.slot == v;
    var val := instrs[i].op.val;
    if val.Ref? && HasStore(instrs[..i], val.name) {
      var j :| 0 <= j < i && IsCellStore(instrs[..i][j].op) && instrs[..i][j].op.to.slot == val.name;
      assert instrs[j] == instrs[..i][j] && HasStore(instrs, val.name);
      assert val in Reads(instrs[i].op) && ReadAt(f, b, i, val.name);
    }
    assert LiveStore(instrs, i, v);
  }

  lemma HasStoreSnoc(instrs: seq<Instr>, k: nat, v: Name)
    requires k < |instrs|
    ensures HasStore(instrs[..k + 1], v) <==>
      HasStore(instrs[..k], v) || (IsCellStore(instrs[k].op) && instrs[k].op.to.slot == v)
  {
    HasSnoc(instrs[..k], instrs[k], v);
    assert instrs[..k + 1] == instrs[..k] + [instrs[k]];
  }

  /** Blocks below b, and block b up to instruction k, have been scanned. */
  ghost predicate Scanned(f: Func, b: Node, k: nat, live: set<Name>, defs: map<Name, set<Node>>) {
    && (forall v {:trigger v in live} :: v in live <==>
          (exists c: Node :: c < b && HasLiveStore(InstrsOf(f, c), v)) ||
            (exists i: nat :: i < k && LiveStore(InstrsOf(f, b), i, v)))
    && (forall v, c: Node {:trigger c in defs[v]} :: v in defs && c in defs[v] ==>
      c <= b && HasStore(InstrsOf(f, c), v))
    && (forall v, c: Node {:trigger HasStore(InstrsOf(f, c), v)} :: c < b && HasStore(InstrsOf(f, c), v) ==>
      v in defs && c in defs[v])
    && (k <= |InstrsOf(f, b)| ==> forall v {:trigger HasStore(InstrsOf(f, b)[..k], v)} ::
          HasStore(InstrsOf(f, b)[..k], v) ==> v in defs && b in defs[v])
  }

  function AddDef(defs: map<Name, set<Node>>, v: Name, b: Node): map<Name, set<Node>> {
    defs[v := (if v in defs then defs[v] else {}) + {b}]
  }

  lemma ScannedStore(f: Func, b: Node, k: nat, live: set<Name>, defs: map<Name, set<Node>>)
    requires Scanned(f, b, k, live, defs) && k < |InstrsOf(f, b)| && IsCellStore(InstrsOf(f, b)[k].op)
    ensures var op := InstrsOf(f, b)[k].op; var v := op.to.slot;
      var dead := op.val.Ref? && HasStore(InstrsOf(f, b)[..k], op.val.name);
      Scanned(f, b, k + 1, if dead then live else live + {v}, AddDef(defs, v, b))
  {
    var instrs := InstrsOf(f, b);
    var v := instrs[k].op.to.slot;
    var dead := instrs[k].op.val.Ref? && HasStore(instrs[..k], instrs[k].op.val.name);
    var live2 := if dead then live else live + {v};
    forall u ensures u in live2 <==>
        (exists c: Node :: c < b && HasLiveStore(InstrsOf(f, c), u)) ||
          (exists i: nat :: i < k + 1 && LiveStore(instrs, i, u)) {
      assert u in live <==>
        (exists c: Node :: c < b && HasLiveStore(InstrsOf(f, c), u)) ||
          (exists i: nat :: i < k && LiveStore(instrs, i, u));
      assert LiveStore(instrs, k, u) <==> u == v && !dead;
    }
    forall u | HasStore(instrs[..k + 1], u) ensures u in AddDef(defs, v, b) && b in AddDef(defs, v, b)[u] {
      HasStoreSnoc(instrs, k, u);
    }
  }

  lemma ScannedOther(f: Func, b: Node, k: nat, live: set<Name>, defs: map<Name, set<Node>>)
    requires Scanned(f, b, k, live, defs) && k < |InstrsOf(f, b)| && !IsCellStore(InstrsOf(f, b)[k].op)
    ensures Scanned(f, b, k + 1, live, defs)
  {
    var instrs := InstrsOf(f, b);
    forall u ensures u in live <==>
        (exists c: Node :: c < b && HasLiveStore(InstrsOf(f, c), u)) ||
          (exists i: nat :: i < k + 1 && LiveStore(instrs, i, u)) {
      assert u in live <==>
        (exists c: Node :: c < b && HasLiveStore(InstrsOf(f, c), u)) ||
          (exists i: nat :: i < k && LiveStore(instrs, i, u));
      assert !LiveStore(instrs, k, u);
    }
    forall u | HasStore(instrs[..k + 1], u) ensures u in defs && b in defs[u] {
      HasStoreSnoc(instrs, k, u);
    }
  }

  lemma ScannedBlock(f: Func, b: Node, live: set<Name>, defs: map<Name, set<Node>>)
    requires Scanned(f, b, |InstrsOf(f, b)|, live, defs)
    ensures Scanned(f, b + 1, 0, live, defs)
  {
    var instrs := InstrsOf(f, b);
    assert instrs[..|instrs|] == instrs;
    var next := b + 1;
    forall u ensures u in live <==> exists c: Node :: c < next && HasLiveStore(InstrsOf(f, c), u) {
      assert u in live <==>
        (exists c: Node :: c < b && HasLiveStore(InstrsOf(f, c), u)) ||
          (exists i: nat :: i < |instrs| && LiveStore(instrs, i, u));
      assert HasLiveStore(instrs, u) <==> exists i: nat :: i < |instrs| && LiveStore(instrs, i, u);
    }
  }

  /** Step 1 of `generate_phi`: which variables are stored where. */
  method CollectStores(f: Func) returns (live: set<Name>, defs: map<Name, set<Node>>)
    ensures forall v {:trigger v in live} :: v in live <==>
      exists b: Node :: b < |f.code| && HasLiveStore(InstrsOf(f, b), v)
    ensures forall v, b: Node {:trigger HasStore(InstrsOf(f, b), v)} :: b < |f.code| ==>
      (HasStore(InstrsOf(f, b), v) <==> v in defs && b in defs[v])
    ensures live <= defs.Keys && forall v, b: Node {:trigger b in defs[v]} :: v in defs && b in defs[v] ==> b < |f.code|
  {
    live, defs := {}, map[];
    for b := 0 to |f.code|
      invariant Scanned(f, b, 0, live, defs) && live <= defs.Keys
    {
      var killed: set<Name> := {};
      var instrs := f.code[b].instrs;
      for k := 0 to |instrs|
        invariant Scanned(f, b, k, live, defs) && live <= defs.Keys
        invariant forall v :: v in killed <==> HasStore(instrs[..k], v)
      {
        var op := instrs[k].op;
        forall v
          ensures HasStore(instrs[..k + 1], v) <==> HasStore(instrs[..k], v) || (IsCellStore(op) && op.to.slot == v)
        {
          HasStoreSnoc(instrs, k, v);
        }
        if IsCellStore(op) {
          ScannedStore(f, b, k, live, defs);
          if !(op.val.Ref? && op.val.name in killed) {
            live := live + {op.to.slot};
          }
          killed := killed + {op.to.slot};
          defs := AddDef(defs, op.to.slot, b);
        } else {
          ScannedOther(f, b, k, live, defs);
        }
      }
      ScannedBlock(f, b, live, defs);
    }
    assert InstrsOf(f, |f.code|) == [];
  }

  /** The phi blocks of one variable. */
  ghost function PhiBlocks(has: set<(Node, Name)>, v: Name): set<Node> {
    set e | e in has && e.1 == v :: e.0
  }

  ghost function BlocksBelow(n: nat): set<Node> {
    set b: Node {:trigger IsBelow(b, n)} | IsBelow(b, n) && 0 <= b < n
  }

  ghost predicate IsBelow(b: Node, n: nat) {
    b < n
  }

  class PhiPlacer {
    const cfg: Cfg
    const frontier: Frontier
    var code: seq<Code>
    var next: Name
    var has: set<(Node, Name)>

    const f0: Func

    constructor (f: Func, frontier: Frontier, next: Name)
      ensures this.cfg == f.cfg && this.frontier == frontier && this.next == next && has == {} && code == f.code &&
        f0 == f
    {
      this.cfg, this.frontier, this.code, this.next := f.cfg, frontier, f.code, next;
      has, f0 := {}, f;
    }

    ghost function Now(): Func
      reads this`code
    {
      f0.(code := code)
    }

    ghost predicate Valid()
      reads this`code, this`has, this`next
    {
      Placed(f0, Now(), has, next)
    }

    /** The frontiers of blocks are blocks. */
    ghost predicate FrontierInCode() {
      forall x, y :: y in FrontierOf(frontier, x) ==> y < |f0.code|
    }

    /** `create_phi` and `add_instr_begin` for one frontier block. */
    method AddPhiTo(y: Node, v: Name)
      requires Valid() && y < |f0.code| && (y, v) !in has
      modifies this`code, this`next, this`has
      ensures Valid() && has == old(has) + {(y, v)}
    {
      AddPhiKeepsPlaced(f0, Now(), has, next, y, v);
      code := code[y := Code([Instr(next, Phi(v, []))] + code[y].instrs, code[y].term)];
      has := has + {(y, v)};
      next := next + 1;
    }

    /** The frontier of one worklist entry. */
    method VisitFrontier(ghost defs: set<Node>, work0: seq<Node>, i: nat, v: Name) returns (work: seq<Node>)
      requires Valid() && FrontierInCode() && WorkAt(frontier, defs, work0, i, PhiBlocks(has, v)) && i < |work0|
      modifies this`code, this`next, this`has
      ensures Valid() && WorkAt(frontier, defs, work, i + 1, PhiBlocks(has, v))
      ensures forall u :: u != v ==> PhiBlocks(has, u) == PhiBlocks(old(has), u)
      ensures PhiBlocks(old(has), v) <= PhiBlocks(has, v)
      ensures forall x :: x in PhiBlocks(has, v) && x !in PhiBlocks(old(has), v) ==> x in BlocksBelow(|f0.code|)
      ensures PhiBlocks(has, v) == PhiBlocks(old(has), v) ==> |work| == |work0|
    {
      work := work0;
      var todo := if work0[i] in frontier then frontier[work0[i]] else {};
      while todo != {}
        invariant Valid() && todo <= FrontierOf(frontier, work0[i]) && i < |work| && work[i] == work0[i]
        invariant WorkAt(frontier, defs, work, i, PhiBlocks(has, v))
        invariant FrontierOf(frontier, work0[i]) - todo <= PhiBlocks(has, v)
        invariant forall u :: u != v ==> PhiBlocks(has, u) == PhiBlocks(old(has), u)
        invariant PhiBlocks(old(has), v) <= PhiBlocks(has, v)
        invariant forall x :: x in PhiBlocks(has, v) && x !in PhiBlocks(old(has), v) ==> x in BlocksBelow(|f0.code|)
        invariant PhiBlocks(has, v) == PhiBlocks(old(has), v) ==> |work| == |work0|
        decreases todo
      {
        var y :| y in todo;
        assert IsBelow(y, |f0.code|);
        if (y, v) !in has {
          WorkAdds(frontier, defs, work, i, PhiBlocks(has, v), y);
          PhiBlocksAdd(has, y, v);
          AddPhiTo(y, v);
          work := work + [y];
        } else {
          assert (y, v).0 in PhiBlocks(has, v);
        }
        todo := todo - {y};
      }
      WorkAdvances(frontier, defs, work, i, PhiBlocks(has, v));
    }

    /** The worklist for one variable; it grows while it is scanned. */
    method PlaceFor(v: Name, defs: set<Node>)
      requires Valid() && FrontierInCode() && PhiBlocks(has, v) == {}
      modifies this`code, this`next, this`has
      ensures Valid() && IsIterated(frontier, defs, PhiBlocks(has, v))
      ensures forall u :: u != v ==> PhiBlocks(has, u) == PhiBlocks(old(has), u)
    {
      var work := ToSeq(defs);
      var i := 0;
      while i < |work|
        invariant Valid() && WorkAt(frontier, defs, work, i, PhiBlocks(has, v))
        invariant forall u :: u != v ==> PhiBlocks(has, u) == PhiBlocks(old(has), u)
        decreases BlocksBelow(|f0.code|) - PhiBlocks(has, v), |work| - i
      {
        work := VisitFrontier(defs, work, i, v);
        i := i + 1;
      }
      WorkEnds(frontier, defs, work, PhiBlocks(has, v));
    }

    /** Step 2 of `generate_phi`: one worklist per variable, in any order. */
    method PlaceAll(live: set<Name>, defs: map<Name, set<Node>>)
      requires Valid() && FrontierInCode() && has == {} && live <= defs.Keys
      modifies this`code, this`next, this`has
      ensures Valid() && AllPlaced(frontier, live, defs, has)
    {
      var todo := live;
      assert live - todo == {};
      while todo != {}
        invariant Valid() && todo <= live && AllPlaced(frontier, live - todo, defs, has)
        decreases todo
      {
        var v :| v in todo;
        ghost var has0, done := has, live - todo;
        assert VarPlaced(frontier, done, defs, has, v);
        PlaceFor(v, defs[v]);
        PlacedOneMore(frontier, done, defs, has0, has, v);
        todo := todo - {v};
        assert live - todo == done + {v};
      }
      assert live - todo == live;
    }

    /** `generate_phi` */
    method GeneratePhi()
      requires Valid() && FrontierInCode() && has == {} && SlotsDontEscape(f0)
      modifies this`code, this`next, this`has
      ensures Valid() && PhisAreIterated(f0, frontier, has)
    {
      var live, defs := CollectStores(f0);
      PlaceAll(live, defs);
      forall v: Name ensures IsIterated(frontier, StoringBlocks(f0, v), PhiBlocks(has, v)) {
        assert VarPlaced(frontier, live, defs, has, v);
        ScanMatches(f0, frontier, v, live, defs, PhiBlocks(has, v));
      }
    }
  }

  ghost predicate AllPlaced(frontier: Frontier, done: set<Name>, defs: map<Name, set<Node>>, has: set<(Node, Name)>) {
    forall v: Name {:trigger VarPlaced(frontier, done, defs, has, v)} :: VarPlaced(frontier, done, defs, has, v)
  }

  lemma PlacedOneMore(frontier: Frontier, done: set<Name>, defs: map<Name, set<Node>>, has: set<(Node, Name)>,
                      has2: set<(Node, Name)>, v: Name)
    requires AllPlaced(frontier, done, defs, has) && v in defs && IsIterated(frontier, defs[v], PhiBlocks(has2, v))
    requires forall u :: u != v ==> PhiBlocks(has2, u) == PhiBlocks(has, u)
    ensures AllPlaced(frontier, done + {v}, defs, has2)
  {
    var done2 := done + {v};
    forall u ensures VarPlaced(frontier, done2, defs, has2, u) {
      assert VarPlaced(frontier, done, defs, has, u);
    }
  }

  lemma ScanMatches(f: Func, frontier: Frontier, v: Name, live: set<Name>, defs: map<Name, set<Node>>, p: set<Node>)
    requires SlotsDontEscape(f)
    requires v in live <==> exists b: Node :: b < |f.code| && HasLiveStore(InstrsOf(f, b), v)
    requires forall b: Node {:trigger HasStore(InstrsOf(f, b), v)} :: b < |f.code| ==>
      (HasStore(InstrsOf(f, b), v) <==> v in defs && b in defs[v])
    requires v in live ==> v in defs && IsIterated(frontier, defs[v], p) && forall b :: b in defs[v] ==> b < |f.code|
    requires v !in live ==> p == {}
    ensures IsIterated(frontier, StoringBlocks(f, v), p)
  {
    if v in live {
      assert StoringBlocks(f, v) == defs[v];
    } else {
      forall b: Node | b < |f.code| ensures !HasStore(InstrsOf(f, b), v) {
        if HasStore(InstrsOf(f, b), v) {
          StoresAreLive(f, b, v);
        }
      }
      assert StoringBlocks(f, v) == {};
    }
  }

  /** Variables handled so far have their phis, the others none. */
  ghost predicate VarPlaced(frontier: Frontier, done: set<Name>, defs: map<Name, set<Node>>, has: set<(Node, Name)>,
                            v: Name) {
    if v in done then v in defs && IsIterated(frontier, defs[v], PhiBlocks(has, v)) else PhiBlocks(has, v) == {}
  }

  /** What `generate_phi` promises: every stored variable has exactly one phi in each
      block of its iterated dominance frontier, and no other variable has any. */
  ghost predicate PhisAreIterated(f0: Func, frontier: Frontier, has: set<(Node, Name)>) {
    forall v: Name {:trigger PhiBlocks(has, v)} ::
      IsIterated(frontier, StoringBlocks(f0, v), PhiBlocks(has, v))
  }

  ghost function StoringBlocks(f: Func, v: Name): set<Node> {
    set b: Node | 0 <= b < |f.code| && HasStore(InstrsOf(f, b), v)
  }

  lemma PhiBlocksAdd(has: set<(Node, Name)>, y: Node, v: Name)
    requires (y, v) !in has
    ensures PhiBlocks(has + {(y, v)}, v) == PhiBlocks(has, v) + {y} && y !in PhiBlocks(has, v)
    ensures forall u :: u != v ==> PhiBlocks(has + {(y, v)}, u) == PhiBlocks(has, u)
  {
    var has2 := has + {(y, v)};
    forall x ensures x in PhiBlocks(has2, v) <==> x in PhiBlocks(has, v) || x == y {
      if x in PhiBlocks(has, v) {
        assert (x, v) in has2;
      }
      if x == y {
        assert (y, v).0 == x && (y, v) in has2;
      }
    }
    forall u, x | u != v ensures x in PhiBlocks(has2, u) <==> x in PhiBlocks(has, u) {
      if x in PhiBlocks(has, u) {
        assert (x, u) in has2;
      }
    }
  }

  method ToSeq(s: set<Node>) returns (r: seq<Node>)
    ensures forall x :: x in r <==> x in s
  {
    r := [];
    var todo := s;
    while todo != {}
      invariant todo <= s && forall x :: x in r <==> x in s - todo
      decreases todo
    {
      var x :| x in todo;
      r, todo := r + [x], todo - {x};
    }
  }
}
