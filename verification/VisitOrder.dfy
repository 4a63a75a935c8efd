/** In which order the renaming walk enters the blocks. The dominator pass keeps the
    children of a block in a set ordered by the addresses of the block objects. */
module VisitOrder {
  import opened Graphs
  import opened ControlFlow
  import opened DomTree
  import opened Frontiers
  import opened Ir
  import opened Scopes
  import opened Promotion
  import opened Renaming
  import opened RenameWalk

  type Addresses = map<Node, nat>

  /** Every block lies at an address of its own. */
  ghost predicate AreAddresses(g: Cfg, addr: Addresses) {
    (forall b :: 0 <= b < |g.succs| ==> b in addr) && Injective(addr)
  }

  // ------------------------------------------------------ in terms of dominance

  /** The immediate dominator. */
  ghost predicate IsIdom(g: Graph, d: Node, b: Node) {
    StrictlyDominates(g, d, b) && forall e :: StrictlyDominates(g, e, b) ==> Dominates(g, e, d)
  }

  /** Of two blocks with the same immediate dominator, x lies at the lower address. */
  ghost predicate LowerSibling(g: Graph, addr: Addresses, x: Node, y: Node) {
    && Reaches(g, ENTRY, x) && Reaches(g, ENTRY, y) && x in addr && y in addr && addr[x] < addr[y]
    && exists d :: IsIdom(g, d, x) && IsIdom(g, d, y)
  }

  /** The walk enters c before b: c is above b, or in the subtree of a lower sibling. */
  ghost predicate EnteredBefore(g: Graph, addr: Addresses, c: Node, b: Node) {
    || StrictlyDominates(g, c, b)
    || exists x, y :: LowerSibling(g, addr, x, y) && Dominates(g, x, c) && Dominates(g, y, b)
  }

  // ------------------------------------------------------------------ on the tree

  ghost predicate VisitedFirst(t: Ssa, addr: Addresses, x: Node, y: Node) {
    && x in t.up && y in t.up && x != ENTRY && y != ENTRY && t.up[x] == t.up[y]
    && x in addr && y in addr && addr[x] < addr[y]
  }

  ghost predicate FinishedFirst(t: Ssa, addr: Addresses, c: Node, b: Node)
    requires Climbs(t.up, t.id) && c in t.up && b in t.up
  {
    exists x, y :: VisitedFirst(t, addr, x, y) && x in Anc(t.up, t.id, c) && y in Anc(t.up, t.id, b)
  }

  /** The blocks that are finished when b is entered. */
  ghost function Finished(t: Ssa, addr: Addresses, b: Node): set<Node>
    requires Climbs(t.up, t.id) && b in t.up
  {
    set c | c in t.up && FinishedFirst(t, addr, c, b)
  }

  /** The blocks entered before b: the finished ones and those above b. */
  ghost function Entered(t: Ssa, addr: Addresses, b: Node): set<Node>
    requires Climbs(t.up, t.id) && b in t.up
  {
    Finished(t, addr, b) + (Anc(t.up, t.id, b) - {b})
  }

  /** Block b reads an empty stack: it misses a name that a block entered before gave. */
  ghost predicate StuckAt(t: Ssa, addr: Addresses, b: Node)
    requires Climbs(t.up, t.id) && b in t.up
  {
    exists v :: Unnamed(t, b, v) && DefinedIn(t, Entered(t, addr, b), v)
  }

  ghost predicate NoneStuck(t: Ssa, addr: Addresses, bs: set<Node>)
    requires Climbs(t.up, t.id)
  {
    forall b {:trigger StuckAt(t, addr, b)} :: b in bs && b in t.up ==> !StuckAt(t, addr, b)
  }

  lemma EntryIsFirst(t: Ssa, addr: Addresses)
    requires Climbs(t.up, t.id)
    ensures Finished(t, addr, ENTRY) == {} && Entered(t, addr, ENTRY) == {}
  {
  }

  /** The keys on entry to b are the variables that the blocks entered before define. */
  lemma StuckIff(t: Ssa, addr: Addresses, m: Stacks, b: Node)
    requires Climbs(t.up, t.id) && b in t.up && KeysGrow(t, map[], m, Entered(t, addr, b))
    ensures MeetsEmpty(t, m, b) <==> StuckAt(t, addr, b)
  {
    forall v ensures v in m <==> DefinedIn(t, Entered(t, addr, b), v) {
      assert KeyGrows(t, map[], m, Entered(t, addr, b), v);
    }
  }

  /** When the children `done` of b, which lie below its child c, are finished. */
  lemma ChildIsNext(t: Ssa, addr: Addresses, b: Node, cs: set<Node>, done: set<Node>, c: Node)
    requires Climbs(t.up, t.id) && b in t.up && AreChildren(t, b, cs) && done <= cs && c in cs - done
    requires forall x :: x in cs ==> x in addr
    requires forall x :: x in cs ==> (x in done <==> addr[x] < addr[c])
    ensures Finished(t, addr, c) == Finished(t, addr, b) + Subtrees(t, done)
    ensures Entered(t, addr, c) == Entered(t, addr, b) + {b} + Subtrees(t, done)
  {
    assert Up(t.up, c) == b && Anc(t.up, t.id, c) == {c} + Anc(t.up, t.id, b);
    AncBasics(t.up, t.id, b);
    forall x | x in t.up ensures FinishedFirst(t, addr, x, c) <==>
        FinishedFirst(t, addr, x, b) || exists d :: d in done && d in Anc(t.up, t.id, x)
    {
      forall d | d in done ensures VisitedFirst(t, addr, d, c) {}
      forall d | VisitedFirst(t, addr, d, c) ensures d in done {
        assert Up(t.up, d) == b;
      }
    }
  }

  /** The children visited so far lie below the others. */
  ghost predicate VisitedLowest(addr: Addresses, cs: set<Node>, done: set<Node>) {
    && done <= cs && (forall x :: x in cs ==> x in addr)
    && (forall x, y {:trigger x in done, y in cs} :: x in done && y in cs && y !in done ==> addr[x] < addr[y])
  }

  lemma LowestIsNext(addr: Addresses, cs: set<Node>, done: set<Node>, c: Node)
    requires VisitedLowest(addr, cs, done) && Injective(addr) && c in cs - done
    requires forall x :: x in cs - done ==> addr[c] <= addr[x]
    ensures forall x :: x in cs ==> (x in done <==> addr[x] < addr[c])
    ensures VisitedLowest(addr, cs, done + {c})
  {
    forall x | x in cs - done && x != c ensures addr[c] < addr[x] {
      assert SameNumber(addr, c, x) ==> c == x;
    }
  }

  lemma ChildrenHaveAddresses(t: Ssa, addr: Addresses, b: Node, cs: set<Node>)
    requires ValidSsa(t) && AreAddresses(t.f.cfg, addr) && AreChildren(t, b, cs)
    ensures VisitedLowest(addr, cs, {})
  {
    forall x | x in cs ensures x in addr {
      assert x in t.f.cfg.Edges();
    }
  }

  lemma StuckInSubtree(t: Ssa, addr: Addresses, b: Node, cs: set<Node>)
    requires Climbs(t.up, t.id) && b in t.up && AreChildren(t, b, cs)
    ensures NoneStuck(t, addr, Subtree(t, b)) <==> !StuckAt(t, addr, b) && NoneStuck(t, addr, Subtrees(t, cs))
  {
    SubtreeSplits(t, b, cs);
  }

  lemma NoneStuckWithin(t: Ssa, addr: Addresses, cs: set<Node>, c: Node)
    requires Climbs(t.up, t.id) && c in cs && !NoneStuck(t, addr, Subtree(t, c))
    ensures !NoneStuck(t, addr, Subtrees(t, cs))
  {
    var b :| b in Subtree(t, c) && StuckAt(t, addr, b);
    assert b in Subtrees(t, cs);
  }

  // ---------------------------------------------------------- visiting the children

  /** What the walk finds when it enters b. */
  ghost predicate MayEnter(t: Ssa, addr: Addresses, w: Walk, b: Node)
    requires Climbs(t.up, t.id)
  {
    && b in t.up && WalkOk(t, w) && Subtree(t, b) !! w.deleted
    && TopsAre(w.stacks, ScopeIn(t, b)) && CoversScope(w.sigma, ScopeIn(t, b))
    && w.deleted == Finished(t, addr, b) && KeysGrow(t, map[], w.stacks, Entered(t, addr, b))
    && ReplacedWithin(t, map[], w.sigma, Entered(t, addr, b))
  }

  /** What it finds when the children cs of b are next. */
  ghost predicate BeforeChildren(t: Ssa, addr: Addresses, w: Walk, b: Node, cs: set<Node>)
    requires Climbs(t.up, t.id)
  {
    && b in t.up && AreChildren(t, b, cs) && WalkOk(t, w) && Subtrees(t, cs) !! w.deleted
    && TopsAre(w.stacks, ScopeOut(t, b)) && CoversScope(w.sigma, ScopeOut(t, b))
    && w.deleted == Finished(t, addr, b) && KeysGrow(t, map[], w.stacks, Entered(t, addr, b) + {b})
    && ReplacedWithin(t, map[], w.sigma, Entered(t, addr, b) + {b})
  }

  /** The children `done` have been visited, in order and without getting stuck. */
  ghost predicate ChildrenAt(t: Ssa, addr: Addresses, w: Walk, w1: Walk, cs: set<Node>, done: set<Node>)
    requires Climbs(t.up, t.id)
  {
    VisitedLowest(addr, cs, done) && Visited(t, w, w1, Subtrees(t, done)) && NoneStuck(t, addr, Subtrees(t, done))
  }

  lemma ChildrenBegin(t: Ssa, addr: Addresses, w: Walk, b: Node, cs: set<Node>)
    requires ValidSsa(t) && AreAddresses(t.f.cfg, addr) && BeforeChildren(t, addr, w, b, cs)
    ensures ChildrenAt(t, addr, w, w, cs, cs - cs)
  {
    assert cs - cs == {};
    VisitedNothing(t, w);
    ChildrenHaveAddresses(t, addr, b, cs);
    assert Subtrees(t, {}) == {};
  }

  lemma ChildMayBeEntered(t: Ssa, addr: Addresses, w: Walk, w1: Walk, b: Node, cs: set<Node>, todo: set<Node>, c: Node)
    requires Climbs(t.up, t.id) && Injective(addr) && BeforeChildren(t, addr, w, b, cs)
    requires todo <= cs && ChildrenAt(t, addr, w, w1, cs, cs - todo) && c in todo && forall x :: x in todo ==>
      addr[c] <= addr[x]
    ensures MayEnter(t, addr, w1, c) && t.id[c] < t.id[b]
    ensures !NoneStuck(t, addr, Subtree(t, c)) ==> !NoneStuck(t, addr, Subtrees(t, cs))
  {
    var done := cs - todo;
    LowestIsNext(addr, cs, done, c);
    ChildBegins(t, w, w1, b, cs, done, c);
    ChildIsNext(t, addr, b, cs, done, c);
    KeysGrowTrans(t, map[], w.stacks, w1.stacks, Entered(t, addr, b) + {b}, Subtrees(t, done));
    ReplacedWithinTrans(t, map[], w.sigma, w1.sigma, Entered(t, addr, b) + {b}, Subtrees(t, done));
    if !NoneStuck(t, addr, Subtree(t, c)) {
      NoneStuckWithin(t, addr, cs, c);
    }
  }

  lemma ChildIsDone(t: Ssa, addr: Addresses, w: Walk, w1: Walk, w2: Walk, cs: set<Node>, todo: set<Node>, c: Node)
    requires Climbs(t.up, t.id) && Injective(addr) && todo <= cs && ChildrenAt(t, addr, w, w1, cs, cs - todo)
    requires c in todo && forall x :: x in todo ==> addr[c] <= addr[x]
    requires Visited(t, w1, w2, Subtree(t, c)) && NoneStuck(t, addr, Subtree(t, c))
    ensures ChildrenAt(t, addr, w, w2, cs, cs - (todo - {c}))
  {
    var done := cs - todo;
    LowestIsNext(addr, cs, done, c);
    ChildEnds(t, w, w1, w2, done, c);
    SubtreesAdd(t, done, c);
    assert done + {c} == cs - (todo - {c});
  }

  lemma ChildrenEnd(t: Ssa, addr: Addresses, w: Walk, w1: Walk, cs: set<Node>)
    requires Climbs(t.up, t.id) && ChildrenAt(t, addr, w, w1, cs, cs - {})
    ensures Visited(t, w, w1, Subtrees(t, cs)) && NoneStuck(t, addr, Subtrees(t, cs))
  {
    assert cs - {} == cs;
  }

  /** Step 6 done, the children of b are next. */
  lemma ChildrenAreNext(t: Ssa, addr: Addresses, w: Walk, w1: Walk, b: Node, cs: set<Node>, gone: set<Name>)
    requires ValidSsa(t) && AreChildren(t, b, cs) && MayEnter(t, addr, w, b) && w1.deleted == w.deleted
    requires FillsAt(t, w1, b, w.fills, gone, |t.f.cfg.succs[b]|)
    requires Pushed(w.stacks, w1.stacks, InstrsOf(t.f, b), |InstrsOf(t.f, b)|, |InstrsOf(t.f, b)|)
    requires ReplacedWithin(t, w.sigma, w1.sigma, {b})
    ensures BeforeChildren(t, addr, w1, b, cs) && b !in w1.deleted + Subtrees(t, cs)
  {
    SubtreeSplits(t, b, cs);
    BlockKeysGrow(t, w.stacks, w1.stacks, b);
    KeysGrowTrans(t, map[], w.stacks, w1.stacks, Entered(t, addr, b), {b});
    ReplacedWithinTrans(t, map[], w.sigma, w1.sigma, Entered(t, addr, b), {b});
  }

  /** Whether entering b gets stuck in b or below. */
  lemma EnterStuckIff(t: Ssa, addr: Addresses, w: Walk, b: Node, cs: set<Node>)
    requires Climbs(t.up, t.id) && AreChildren(t, b, cs) && MayEnter(t, addr, w, b)
    ensures NoneStuck(t, addr, Subtree(t, b)) <==> !MeetsEmpty(t, w.stacks, b) && NoneStuck(t, addr, Subtrees(t, cs))
  {
    StuckIff(t, addr, w.stacks, b);
    StuckInSubtree(t, addr, b, cs);
  }

  // --------------------------------------------------------- tree and dominance

  lemma OnChainIff(t: Ssa, a: Node, b: Node)
    requires ValidSsa(t) && b in t.up
    ensures a in Anc(t.up, t.id, b) <==> Dominates(t.f.cfg.Edges(), a, b)
  {
  }

  lemma IdomIsParent(t: Ssa, d: Node, b: Node)
    requires ValidSsa(t) && b in t.up
    ensures IsIdom(t.f.cfg.Edges(), d, b) <==> b != ENTRY && t.up[b] == d
  {
    var g := t.f.cfg.Edges();
    if b == ENTRY {
      OnChainIff(t, d, ENTRY);
    } else {
      ParentIsImmediateDominator(g, t.id, t.up, b);
      if IsIdom(g, d, b) {
        var u := Up(t.up, b);
        OnChainIff(t, d, b);
        OnChainIff(t, d, u);
        AncBasics(t.up, t.id, b);
        OnChainIff(t, u, d);
        AncBasics(t.up, t.id, d);
        AncBasics(t.up, t.id, u);
      }
    }
  }

  lemma SiblingsIff(t: Ssa, addr: Addresses, x: Node, y: Node)
    requires ValidSsa(t)
    ensures VisitedFirst(t, addr, x, y) <==> LowerSibling(t.f.cfg.Edges(), addr, x, y)
  {
    var g := t.f.cfg.Edges();
    if x in t.up && y in t.up {
      forall d ensures IsIdom(g, d, x) <==> x != ENTRY && t.up[x] == d {
        IdomIsParent(t, d, x);
      }
      forall d ensures IsIdom(g, d, y) <==> y != ENTRY && t.up[y] == d {
        IdomIsParent(t, d, y);
      }
      assert Reaches(g, ENTRY, x) && Reaches(g, ENTRY, y);
      assert VisitedFirst(t, addr, x, y) ==> IsIdom(g, t.up[x], x) && IsIdom(g, t.up[x], y);
    }
  }

  /** The blocks entered before b, told from the graph and the addresses alone. */
  lemma EnteredIff(t: Ssa, addr: Addresses, c: Node, b: Node)
    requires ValidSsa(t) && c in t.up && b in t.up
    ensures c in Entered(t, addr, b) <==> EnteredBefore(t.f.cfg.Edges(), addr, c, b)
  {
    var g := t.f.cfg.Edges();
    OnChainIff(t, c, b);
    forall x, y ensures VisitedFirst(t, addr, x, y) <==> LowerSibling(g, addr, x, y) {
      SiblingsIff(t, addr, x, y);
    }
    forall x ensures x in Anc(t.up, t.id, c) <==> Dominates(g, x, c) {
      OnChainIff(t, x, c);
    }
    forall y ensures y in Anc(t.up, t.id, b) <==> Dominates(g, y, b) {
      OnChainIff(t, y, b);
    }
  }

  // ------------------------------------------------------------- for every order

  /** Two blocks neither of which is above the other hang below two siblings. */
  lemma {:induction false} ApartBelowSiblings(t: Ssa, c: Node, b: Node) returns (x: Node, y: Node)
    requires Climbs(t.up, t.id) && c in t.up && b in t.up
    requires c !in Anc(t.up, t.id, b) && b !in Anc(t.up, t.id, c)
    ensures x in t.up && y in t.up && x != y && x != ENTRY && y != ENTRY && t.up[x] == t.up[y]
    ensures x in Anc(t.up, t.id, c) && y in Anc(t.up, t.id, b)
    decreases t.id[ENTRY] - t.id[b]
  {
    AncBasics(t.up, t.id, c);
    AncBasics(t.up, t.id, b);
    var u := Up(t.up, b);
    if u in Anc(t.up, t.id, c) {
      y := b;
      x := ChildTowards(t, u, c);
    } else {
      AncBasics(t.up, t.id, u);
      x, y := ApartBelowSiblings(t, c, u);
    }
  }

  lemma {:induction false} ChildTowards(t: Ssa, u: Node, c: Node) returns (x: Node)
    requires Climbs(t.up, t.id) && c in t.up && u in Anc(t.up, t.id, c) && u != c
    ensures x in t.up && x != ENTRY && t.up[x] == u && x in Anc(t.up, t.id, c)
    decreases t.id[ENTRY] - t.id[c]
  {
    AncBasics(t.up, t.id, c);
    if Up(t.up, c) == u {
      x := c;
    } else {
      x := ChildTowards(t, u, Up(t.up, c));
    }
  }

  /** Any block may lie lowest. */
  lemma LowestBlock(g: Cfg, x: Node) returns (addr: Addresses)
    ensures AreAddresses(g, addr) && forall y :: 0 <= y < |g.succs| && y != x < |g.succs| ==> addr[x] < addr[y]
  {
    addr := map n | n in g.Edges() :: if n == x then 0 else n + 1;
  }

  /** Some choice of addresses lets the walk enter c before b, iff b is not above c. */
  lemma SomeOrderIff(t: Ssa, c: Node, b: Node)
    requires ValidSsa(t) && c in t.up && b in t.up
    ensures (exists addr: Addresses :: AreAddresses(t.f.cfg, addr) && c in Entered(t, addr, b)) <==>
      !Dominates(t.f.cfg.Edges(), b, c)
  {
    OnChainIff(t, b, c);
    if b in Anc(t.up, t.id, c) {
      forall addr: Addresses ensures c !in Entered(t, addr, b) {
        AboveIsFirst(t, addr, c, b);
      }
    } else {
      var addr := SomeOrderEnters(t, c, b);
    }
  }

  lemma SomeOrderEnters(t: Ssa, c: Node, b: Node) returns (addr: Addresses)
    requires ValidSsa(t) && c in t.up && b in t.up && b !in Anc(t.up, t.id, c)
    ensures AreAddresses(t.f.cfg, addr) && c in Entered(t, addr, b)
  {
    AncBasics(t.up, t.id, b);
    if c in Anc(t.up, t.id, b) {
      addr := LowestBlock(t.f.cfg, c);
    } else {
      var x, y := ApartBelowSiblings(t, c, b);
      addr := LowestBlock(t.f.cfg, x);
      assert x in t.f.cfg.Edges() && y in t.f.cfg.Edges();
      assert VisitedFirst(t, addr, x, y);
    }
  }

  lemma AboveIsFirst(t: Ssa, addr: Addresses, c: Node, b: Node)
    requires Climbs(t.up, t.id) && c in t.up && b in Anc(t.up, t.id, c) && b in t.up
    ensures c !in Entered(t, addr, b)
  {
    AncBasics(t.up, t.id, b);
    AncBasics(t.up, t.id, c);
    AncTrans(t.up, t.id, b, c);
    forall x, y | VisitedFirst(t, addr, x, y) && x in Anc(t.up, t.id, c) && y in Anc(t.up, t.id, b) ensures false {
      SiblingsApart(t, t.up[x], x, y, c);
    }
  }
}
