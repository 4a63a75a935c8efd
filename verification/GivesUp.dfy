/** Which loads and phis the renaming walk finds no name for, and when it gives up, told
    from the function before promotion. */
module GivesUp {
  import opened Graphs
  import opened ControlFlow
  import opened DomTree
  import opened Ir
  import opened Scopes
  import opened RenameWalk
  import opened PlacedPhis
  import opened ReachingStores
  import opened SsaForm
  import opened PhiPairs
  import opened VisitOrder

  ghost predicate LoadAt(f: Func, b: Node, k: nat, v: Name) {
    k < |InstrsOf(f, b)| && IsCellLoad(InstrsOf(f, b)[k].op) && InstrsOf(f, b)[k].op.from.slot == v
  }

  /** A reachable load of v that no store to v reaches. */
  ghost predicate UnreachedLoad(f: Func, b: Node, k: nat, v: Name) {
    f.cfg.IsReachable(b) && LoadAt(f, b, k, v) && !StoreReaches(f, b, k, v)
  }

  /** An edge to a join of v's iterated frontier whose start no store to v reaches. */
  ghost predicate UnreachedEdge(f: Func, b: Node, s: Node, v: Name) {
    && f.cfg.IsReachable(b) && Edge(f.cfg.Edges(), b, s) && IteratedJoin(f, v, s)
    && !StoreReaches(f, b, |InstrsOf(f, b)|, v)
  }

  ghost predicate MissesName(f: Func, b: Node, v: Name) {
    (exists k: nat :: UnreachedLoad(f, b, k, v)) || (exists s: Node :: UnreachedEdge(f, b, s, v))
  }

  /** A block that the walk enters before b defines v. */
  ghost predicate GivenBefore(f: Func, addr: Addresses, b: Node, v: Name) {
    exists c :: f.cfg.IsReachable(c) && EnteredBefore(f.cfg.Edges(), addr, c, b) && DefinesVar(f, c, v)
  }

  /** b misses a name for v whose stack is there already. */
  ghost predicate StopsAt(f: Func, addr: Addresses, b: Node, v: Name) {
    MissesName(f, b, v) && GivenBefore(f, addr, b, v)
  }

  ghost predicate NeverStops(f: Func, addr: Addresses) {
    forall b, v {:trigger StopsAt(f, addr, b, v)} :: !StopsAt(f, addr, b, v)
  }

  /** A block that misses a name is above every block that defines the variable. */
  ghost predicate MissesOnlyAbove(f: Func) {
    forall b, c, v {:trigger MissesName(f, b, v), DefinesVar(f, c, v)} ::
      MissesName(f, b, v) && f.cfg.IsReachable(c) && DefinesVar(f, c, v) ==> Dominates(f.cfg.Edges(), b, c)
  }

  /** Every load of an integer or float slot is reached by a store to it. */
  ghost predicate ScalarLoadsReached(f: Func) {
    forall b, k, v {:trigger UnreachedLoad(f, b, k, v)} :: UnreachedLoad(f, b, k, v) ==> !ScalarSlot(f, v)
  }

  ghost predicate LoadsReached(f: Func) {
    forall b, k, v {:trigger UnreachedLoad(f, b, k, v)} :: !UnreachedLoad(f, b, k, v)
  }

  ghost predicate EdgesReached(f: Func) {
    forall b, s, v {:trigger UnreachedEdge(f, b, s, v)} :: !UnreachedEdge(f, b, s, v)
  }

  /** The reachable blocks at whose end a path from a store to v arrives. */
  ghost function ReachedEnds(f: Func, v: Name): iset<Node> {
    iset p | f.cfg.IsReachable(p) && StoreReaches(f, p, |InstrsOf(f, p)|, v)
  }

  /** To every join of a variable's iterated frontier lead two listed edges from blocks
      at whose end a store to it arrives. */
  ghost predicate JoinsFedTwice(f: Func) {
    forall s, v {:trigger IteratedJoin(f, v, s)} :: f.cfg.IsReachable(s) && IteratedJoin(f, v, s) ==>
      TwoEdges(f.cfg, ReachedEnds(f, v), s)
  }

  /** f0 with its phis placed, as the walk finds it. */
  ghost predicate PhisReady(f0: Func, t: Ssa) {
    ValidSsa(t) && PhisComplete(t) && PhisAtJoins(f0, t)
  }

  lemma UnnamedLoadIff(f0: Func, t: Ssa, b: Node, k: nat, v: Name)
    requires PhisReady(f0, t) && b in t.up
    ensures UnreachedLoad(f0, b, k, v) <==> UnnamedLoad(t, b, k + Shift(f0, t.f, b), v)
  {
    assert f0.cfg.IsReachable(b);
    if k < |InstrsOf(f0, b)| {
      ShiftedInstr(f0, t.f, b, k);
      NamedIff(f0, t, b, k, v);
    }
  }

  lemma UnnamedLoadIsShifted(f0: Func, t: Ssa, b: Node, k: nat, v: Name)
    requires PhisReady(f0, t) && b in t.up && UnnamedLoad(t, b, k, v)
    ensures k >= Shift(f0, t.f, b) && UnreachedLoad(f0, b, k - Shift(f0, t.f, b), v)
  {
    PhisBeforeShift(f0, t.f, b, k);
    UnnamedLoadIff(f0, t, b, k - Shift(f0, t.f, b), v);
  }

  lemma UnnamedEdgeIff(f0: Func, t: Ssa, b: Node, s: Node, v: Name)
    requires PhisReady(f0, t) && b in t.up
    ensures UnreachedEdge(f0, b, s, v) <==> UnnamedEdge(t, b, s, v)
  {
    var g, n := f0.cfg.Edges(), |InstrsOf(f0, b)|;
    assert f0.cfg.IsReachable(b);
    NamedIff(f0, t, b, n, v);
    assert n + Shift(f0, t.f, b) == |InstrsOf(t.f, b)|;
    if Edge(g, b, s) {
      ReachesStep(g, ENTRY, b, s);
      assert HasPhi(InstrsOf(t.f, s), v) <==> IteratedJoin(f0, v, s);
    }
  }

  lemma UnnamedIff(f0: Func, t: Ssa, b: Node, v: Name)
    requires PhisReady(f0, t) && b in t.up
    ensures MissesName(f0, b, v) <==> Unnamed(t, b, v)
  {
    forall k: nat | UnreachedLoad(f0, b, k, v) ensures Unnamed(t, b, v) {
      UnnamedLoadIff(f0, t, b, k, v);
    }
    forall k: nat | UnnamedLoad(t, b, k, v) ensures MissesName(f0, b, v) {
      UnnamedLoadIsShifted(f0, t, b, k, v);
    }
    forall s: Node ensures UnreachedEdge(f0, b, s, v) <==> UnnamedEdge(t, b, s, v) {
      UnnamedEdgeIff(f0, t, b, s, v);
    }
  }

  lemma DefinedInIff(f0: Func, t: Ssa, addr: Addresses, b: Node, v: Name)
    requires PhisReady(f0, t) && b in t.up
    ensures DefinedIn(t, Entered(t, addr, b), v) <==> GivenBefore(f0, addr, b, v)
  {
    if DefinedIn(t, Entered(t, addr, b), v) {
      var c :| c in Entered(t, addr, b) && DefinesSlot(t.f, c, v);
      AncBasics(t.up, t.id, b);
      EnteredIff(t, addr, c, b);
      assert f0.cfg.IsReachable(c);
    }
    if GivenBefore(f0, addr, b, v) {
      var c :| f0.cfg.IsReachable(c) && EnteredBefore(f0.cfg.Edges(), addr, c, b) && DefinesVar(f0, c, v);
      EnteredIff(t, addr, c, b);
      assert DefinesSlot(t.f, c, v);
    }
  }

  lemma StuckAtIff(f0: Func, t: Ssa, addr: Addresses, b: Node)
    requires PhisReady(f0, t) && b in t.up
    ensures StuckAt(t, addr, b) <==> exists v :: StopsAt(f0, addr, b, v)
  {
    forall v ensures Unnamed(t, b, v) && DefinedIn(t, Entered(t, addr, b), v) <==> StopsAt(f0, addr, b, v) {
      UnnamedIff(f0, t, b, v);
      DefinedInIff(f0, t, addr, b, v);
    }
  }

  /** The walk gives up iff some block misses a name that a block entered before defines. */
  lemma NoneStuckIff(f0: Func, t: Ssa, addr: Addresses)
    requires PhisReady(f0, t)
    ensures NoneStuck(t, addr, t.up.Keys) <==> NeverStops(f0, addr)
  {
    forall b | b in t.up ensures StuckAt(t, addr, b) <==> exists v :: StopsAt(f0, addr, b, v) {
      StuckAtIff(f0, t, addr, b);
    }
    forall b, v | StopsAt(f0, addr, b, v) ensures b in t.up {
      assert t.f.cfg.IsReachable(b);
    }
  }

  /** What the walk finds without a name is what no store reaches. */
  lemma NamedIffReached(f0: Func, t: Ssa)
    requires PhisReady(f0, t)
    ensures ScalarLoadsNamed(t) <==> ScalarLoadsReached(f0)
    ensures LoadsNamed(t) <==> LoadsReached(f0)
    ensures EdgesNamed(t) <==> EdgesReached(f0)
  {
    forall b: Node, k: nat, v: Name | UnreachedLoad(f0, b, k, v)
      ensures b in t.up && UnnamedLoad(t, b, k + Shift(f0, t.f, b), v) && (ScalarSlot(f0, v) <==> ScalarSlot(t.f, v))
    {
      assert t.f.cfg.IsReachable(b);
      UnnamedLoadIff(f0, t, b, k, v);
      SameScalarSlots(f0, t.f, v);
    }
    forall b: Node, k: nat, v: Name | b in t.up && UnnamedLoad(t, b, k, v)
      ensures k >= Shift(f0, t.f, b) && UnreachedLoad(f0, b, k - Shift(f0, t.f, b), v) &&
        (ScalarSlot(f0, v) <==> ScalarSlot(t.f, v))
    {
      UnnamedLoadIsShifted(f0, t, b, k, v);
      SameScalarSlots(f0, t.f, v);
    }
    forall b: Node, s: Node, v: Name ensures UnreachedEdge(f0, b, s, v) <==> b in t.up && UnnamedEdge(t, b, s, v) {
      assert UnreachedEdge(f0, b, s, v) ==> t.f.cfg.IsReachable(b);
      if b in t.up {
        UnnamedEdgeIff(f0, t, b, s, v);
      }
    }
  }

  lemma NamingIsReached(f0: Func, t: Ssa, v: Name)
    requires PhisReady(f0, t)
    ensures NamingBlocks(t, v) == ReachedEnds(f0, v)
  {
    forall p ensures p in NamingBlocks(t, v) <==> p in ReachedEnds(f0, v) {
      assert p in t.up <==> f0.cfg.IsReachable(p);
      if p in t.up {
        var n := |InstrsOf(f0, p)|;
        NamedIff(f0, t, p, n, v);
        assert n + Shift(f0, t.f, p) == |InstrsOf(t.f, p)|;
      }
    }
  }

  /** The phis that get two names are the joins that stores reach along two edges. */
  lemma NamedTwiceIff(f0: Func, t: Ssa)
    requires PhisReady(f0, t)
    ensures JoinsNamedTwice(t) <==> JoinsFedTwice(f0)
  {
    forall s, v ensures s in t.up && HasPhi(InstrsOf(t.f, s), v) <==> f0.cfg.IsReachable(s) && IteratedJoin(f0, v, s)
      ensures NamingBlocks(t, v) == ReachedEnds(f0, v)
    {
      NamingIsReached(f0, t, v);
      assert s in t.up <==> f0.cfg.IsReachable(s);
    }
  }

  // ------------------------------------------------------------ joins are fed

  /** If p is the only predecessor of s, what dominates p strictly dominates s. */
  lemma SinglePredIsNoJoin(g: Graph, x: Node, p: Node, s: Node)
    requires Reaches(g, ENTRY, s) && s != ENTRY && Dominates(g, x, p) && forall q :: Edge(g, q, s) ==> q == p
    ensures StrictlyDominates(g, x, s)
  {
    forall w | WalkBetween(g, w, ENTRY, s) ensures x in w && x != s {
      var i := FirstAt(w, s);
      WalkPrefix(g, w, ENTRY, s, i - 1);
      assert Edge(g, w[i - 1], w[i]);
    }
  }

  lemma {:induction false} FirstAt(w: seq<Node>, s: Node) returns (i: nat)
    requires s in w
    ensures i < |w| && w[i] == s && s !in w[..i]
  {
    if w[0] == s {
      i := 0;
    } else {
      var k := FirstAt(w[1..], s);
      i := k + 1;
      assert w[..i] == [w[0]] + w[1..][..k];
    }
  }

  lemma JoinIsInFrontier(f: Func, v: Name, s: Node)
    requires ValidFunc(f) && IteratedJoin(f, v, s)
    ensures exists x :: InFrontier(f.cfg.Edges(), x, s)
  {
    var g := f.cfg.Edges();
    var others := g.Keys - {s};
    if !exists x :: InFrontier(g, x, s) {
      forall x, y | InFrontier(g, x, y) ensures y in others {
        var p :| Edge(g, p, y);
        f.cfg.EdgeLists(p, y);
      }
      assert HoldsJoins(f, v, others);
    }
  }

  lemma JoinHasTwoPreds(f: Func, v: Name, s: Node)
    requires ValidFunc(f) && f.cfg.preds[ENTRY] == [] && IteratedJoin(f, v, s)
    ensures exists p: Node, q: Node :: p != q && Edge(f.cfg.Edges(), p, s) && Edge(f.cfg.Edges(), q, s)
  {
    var g := f.cfg.Edges();
    JoinIsInFrontier(f, v, s);
    var x :| InFrontier(g, x, s);
    var p :| Edge(g, p, s) && Dominates(g, x, p);
    f.cfg.EdgeLists(p, s);
    if forall q :: Edge(g, q, s) ==> q == p {
      SinglePredIsNoJoin(g, x, p, s);
    }
  }

  /** Where a store reaches every edge to a join, it reaches two of them. */
  lemma ReachedJoinsAreFed(f: Func)
    requires ValidFunc(f) && f.cfg.ReachablePreds() && f.cfg.preds[ENTRY] == [] && EdgesReached(f)
    ensures JoinsFedTwice(f)
  {
    forall s, v | f.cfg.IsReachable(s) && IteratedJoin(f, v, s) ensures TwoEdges(f.cfg, ReachedEnds(f, v), s) {
      JoinHasTwoPreds(f, v, s);
      var g := f.cfg.Edges();
      var p: Node, q: Node :| p != q && Edge(g, p, s) && Edge(g, q, s);
      assert !UnreachedEdge(f, p, s, v) && !UnreachedEdge(f, q, s, v);
      assert p in ReachedEnds(f, v) && q in ReachedEnds(f, v);
      var i :| 0 <= i < |f.cfg.succs[p]| && f.cfg.succs[p][i] == s;
      var j :| 0 <= j < |f.cfg.succs[q]| && f.cfg.succs[q][j] == s;
      assert ListsAt(f.cfg, p, i, s) && ListsAt(f.cfg, q, j, s);
    }
  }

  /** The walk gets through in every order iff a block that misses a name is above every
      block that defines the variable. */
  lemma EveryOrderIff(f: Func, up: Tree, id: Numbering)
    requires ValidSsa(Ssa(f, up, id))
    ensures (forall addr {:trigger AreAddresses(f.cfg, addr)} :: AreAddresses(f.cfg, addr) ==> NeverStops(f, addr)) <==>
      MissesOnlyAbove(f)
  {
    var t, g := Ssa(f, up, id), f.cfg.Edges();
    forall b, c, v | MissesName(f, b, v) && f.cfg.IsReachable(c) && DefinesVar(f, c, v) && !Dominates(g, b, c)
      ensures exists addr :: AreAddresses(f.cfg, addr) && !NeverStops(f, addr)
    {
      assert f.cfg.IsReachable(b);
      SomeOrderIff(t, c, b);
      var addr: Addresses :| AreAddresses(f.cfg, addr) && c in Entered(t, addr, b);
      EnteredIff(t, addr, c, b);
      assert StopsAt(f, addr, b, v);
    }
    forall addr, b, v | AreAddresses(f.cfg, addr) && StopsAt(f, addr, b, v) ensures !MissesOnlyAbove(f) {
      var c :| f.cfg.IsReachable(c) && EnteredBefore(g, addr, c, b) && DefinesVar(f, c, v);
      assert f.cfg.IsReachable(b);
      EnteredIff(t, addr, c, b);
      SomeOrderIff(t, c, b);
    }
  }

  // --------------------------------------------------------------- stored first

  /** Every promoted slot that is stored or loaded is stored in the entry block, before
      any load of it there. */
  ghost predicate StoredFirst(f: Func) {
    && (forall b, v {:trigger HasStore(InstrsOf(f, b), v)} :: HasStore(InstrsOf(f, b), v) ==>
      HasStore(InstrsOf(f, ENTRY), v))
    && (forall b: Node, k: nat, v {:trigger LoadAt(f, b, k, v)} :: LoadAt(f, b, k, v) ==>
          if b == ENTRY then HasStore(InstrsOf(f, ENTRY)[..k], v) else HasStore(InstrsOf(f, ENTRY), v))
  }

  /** Then no name is ever missing. */
  lemma StoredFirstMissesNothing(f: Func)
    requires ValidFunc(f) && f.cfg.ReachablePreds() && StoredFirst(f)
    ensures LoadsReached(f) && EdgesReached(f)
  {
    forall b: Node, k: nat, v: Name | f.cfg.IsReachable(b) && LoadAt(f, b, k, v) ensures StoreReaches(f, b, k, v) {
      if b != ENTRY {
        EntryLeads(f, b, v);
      }
    }
    forall b: Node, s: Node, v: Name | f.cfg.IsReachable(b) && IteratedJoin(f, v, s)
      ensures StoreReaches(f, b, |InstrsOf(f, b)|, v)
    {
      JoinIsLed(f, v, s);
      assert InstrsOf(f, b)[..|InstrsOf(f, b)|] == InstrsOf(f, b);
      if b != ENTRY {
        EntryLeads(f, b, v);
      }
    }
  }

  lemma EntryLeads(f: Func, b: Node, v: Name)
    requires f.cfg.IsReachable(b) && b != ENTRY && HasStore(InstrsOf(f, ENTRY), v)
    ensures StoreLeads(f, v, b)
  {
    var g := f.cfg.Edges();
    var w :| WalkBetween(g, w, ENTRY, b);
    assert Edge(g, w[0], w[1]) && WalkBetween(g, w[1..], w[1], b);
    assert Leads(g, ENTRY, b);
  }
}
