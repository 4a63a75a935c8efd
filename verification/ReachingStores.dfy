/** Where a promoted variable has a name during the renaming walk: exactly where some path
    from a store to it arrives. */
module ReachingStores {
  import opened Graphs
  import opened ControlFlow
  import opened DomTree
  import opened Frontiers
  import opened Ir
  import opened Scopes
  import opened Promotion
  import opened PhiPlacement
  import opened PlacedPhis

  // ------------------------------------------------- in terms of the function

  /** A path of one edge or more leads from a to b. */
  ghost predicate Leads(g: Graph, a: Node, b: Node) {
    exists c :: Edge(g, a, c) && Reaches(g, c, b)
  }

  ghost predicate StoreLeads(f: Func, v: Name, b: Node) {
    exists a :: HasStore(InstrsOf(f, a), v) && Leads(f.cfg.Edges(), a, b)
  }

  /** A path from a store to v arrives before instruction k of b. */
  ghost predicate StoreReaches(f: Func, b: Node, k: nat, v: Name)
    requires k <= |InstrsOf(f, b)|
  {
    HasStore(InstrsOf(f, b)[..k], v) || StoreLeads(f, v, b)
  }

  /** y is in the dominance frontier of x. */
  ghost predicate InFrontier(g: Graph, x: Node, y: Node) {
    Reaches(g, ENTRY, y) && (exists p :: Edge(g, p, y) && Dominates(g, x, p)) && !StrictlyDominates(g, x, y)
  }

  /** s holds the frontier of every block that stores v and of its own members. */
  ghost predicate HoldsJoins(f: Func, v: Name, s: set<Node>) {
    forall x, y {:trigger InFrontier(f.cfg.Edges(), x, y)} ::
      (HasStore(InstrsOf(f, x), v) || x in s) && InFrontier(f.cfg.Edges(), x, y) ==> y in s
  }

  /** b is in the iterated dominance frontier of the blocks that store v. */
  ghost predicate IteratedJoin(f: Func, v: Name, b: Node) {
    forall s {:trigger HoldsJoins(f, v, s)} :: HoldsJoins(f, v, s) ==> b in s
  }

  /** b stores v or is a join of v's iterated frontier. */
  ghost predicate DefinesVar(f: Func, b: Node, v: Name) {
    HasStore(InstrsOf(f, b), v) || IteratedJoin(f, v, b)
  }

  /** Such a block is strictly above b, or b is a join, or a store comes earlier in b. */
  ghost predicate DefinedOver(f: Func, b: Node, k: nat, v: Name)
    requires k <= |InstrsOf(f, b)|
  {
    || HasStore(InstrsOf(f, b)[..k], v) || IteratedJoin(f, v, b)
    || exists c :: StrictlyDominates(f.cfg.Edges(), c, b) && DefinesVar(f, c, v)
  }

  lemma LeadsOn(g: Graph, a: Node, b: Node, c: Node)
    requires (Leads(g, a, b) && Reaches(g, b, c)) || (Reaches(g, a, b) && Edge(g, b, c))
    ensures Leads(g, a, c)
  {
    if Leads(g, a, b) && Reaches(g, b, c) {
      var d :| Edge(g, a, d) && Reaches(g, d, b);
      ReachesTrans(g, d, b, c);
    } else {
      var p :| WalkBetween(g, p, a, b);
      if |p| == 1 {
        ReachesSelf(g, c);
      } else {
        assert Edge(g, p[0], p[1]);
        assert WalkBetween(g, p[1..], p[1], b);
        ReachesStep(g, p[1], b, c);
      }
    }
  }

  lemma StrictDominatorLeads(g: Graph, d: Node, b: Node)
    requires Reaches(g, ENTRY, b) && StrictlyDominates(g, d, b)
    ensures Leads(g, d, b)
  {
    DominatorReaches(g, d, b);
    var p :| WalkBetween(g, p, d, b);
    assert Edge(g, p[0], p[1]) && WalkBetween(g, p[1..], p[1], b);
  }

  lemma FrontierIsLed(cfg: Cfg, x: Node, y: Node)
    requires cfg.ReachablePreds() && InFrontier(cfg.Edges(), x, y)
    ensures Leads(cfg.Edges(), x, y)
  {
    var g := cfg.Edges();
    var p :| Edge(g, p, y) && Dominates(g, x, p);
    assert cfg.IsReachable(y) && cfg.IsReachable(p);
    DominatorReaches(g, x, p);
    LeadsOn(g, x, p, y);
  }

  /** A store leads to every join of its variable's iterated frontier. */
  lemma JoinIsLed(f: Func, v: Name, b: Node)
    requires ValidFunc(f) && f.cfg.ReachablePreds() && IteratedJoin(f, v, b)
    ensures StoreLeads(f, v, b)
  {
    var g := f.cfg.Edges();
    var s := set y: Node | y in g && StoreLeads(f, v, y);
    forall x, y | (HasStore(InstrsOf(f, x), v) || x in s) && InFrontier(g, x, y) ensures y in s {
      FrontierIsLed(f.cfg, x, y);
      var p :| Edge(g, p, y);
      f.cfg.EdgeLists(p, y);
      if !HasStore(InstrsOf(f, x), v) {
        var a :| HasStore(InstrsOf(f, a), v) && Leads(g, a, x);
        var d :| Edge(g, x, d) && Reaches(g, d, y);
        ReachesEdge(g, x, d);
        ReachesTrans(g, x, d, y);
        LeadsOn(g, a, x, y);
      }
    }
    assert HoldsJoins(f, v, s);
  }

  // ------------------------------------------------------ phis stand at the joins

  /** t.f is f0 with a phi at every join of every variable, and nowhere else. */
  ghost predicate PhisAtJoins(f0: Func, t: Ssa) {
    && ValidFunc(f0) && PhisPlaced(f0, t.f) && t.f.cfg.preds[ENTRY] == []
    && (forall s, v {:trigger HasPhi(InstrsOf(t.f, s), v)} :: s in t.up ==>
      (HasPhi(InstrsOf(t.f, s), v) <==> IteratedJoin(f0, v, s)))
    && (forall s, v {:trigger HasStore(InstrsOf(t.f, s), v)} {:trigger HasStore(InstrsOf(f0, s), v)} ::
          HasStore(InstrsOf(t.f, s), v) <==> HasStore(InstrsOf(f0, s), v))
  }

  lemma FrontierOfIff(t: Ssa, frontier: Frontier, x: Node, y: Node)
    requires ValidSsa(t) && FrontiersUpTo(t.f.cfg, t.up, t.id, frontier, |t.f.cfg.preds|) && t.f.cfg.preds[ENTRY] == []
    requires y in t.up
    ensures y in FrontierOf(frontier, x) <==> InFrontier(t.f.cfg.Edges(), x, y)
    ensures InFrontier(t.f.cfg.Edges(), x, y) ==> x in t.up
  {
    var g := t.f.cfg.Edges();
    if InFrontier(g, x, y) {
      var p :| Edge(g, p, y) && Dominates(g, x, p);
      assert t.f.cfg.IsReachable(y) && t.f.cfg.IsReachable(p);
      DominatorReaches(g, x, p);
      assert x in t.up;
    }
    if y == ENTRY {
      forall p ensures !Edge(g, p, ENTRY) {
        t.f.cfg.EdgeLists(p, ENTRY);
      }
      assert x in frontier ==> ENTRY !in frontier[x];
    } else {
      FrontierIsExact(t.f.cfg, t.id, t.up, y, x);
      assert x in frontier ==> (y in frontier[x] <==> x in RunnersInto(t.f.cfg, t.up, t.id, y));
    }
  }

  /** What the worklists place is the textbook iterated frontier. */
  lemma PlacedIffJoin(f0: Func, t: Ssa, frontier: Frontier, has: set<(Node, Name)>, v: Name, b: Node)
    requires ValidSsa(t) && FrontiersUpTo(t.f.cfg, t.up, t.id, frontier, |t.f.cfg.preds|) && t.f.cfg.preds[ENTRY] == []
    requires ValidFunc(f0) && f0.cfg == t.f.cfg && PhisAreIterated(f0, frontier, has) && b in t.up
    ensures b in PhiBlocks(has, v) <==> IteratedJoin(f0, v, b)
  {
    var g, defs, phis := f0.cfg.Edges(), StoringBlocks(f0, v), PhiBlocks(has, v);
    assert IsIterated(frontier, defs, phis);
    forall x ensures HasStore(InstrsOf(f0, x), v) <==> x in defs {}
    if b in phis {
      forall s | HoldsJoins(f0, v, s) ensures b in s {
        HeldByAll(t, frontier, f0, v, s);
      }
    }
    if IteratedJoin(f0, v, b) {
      var s := set y | y in phis && y in t.up;
      forall x, y | (x in defs || x in s) && InFrontier(g, x, y) ensures y in s {
        assert y in t.up;
        FrontierOfIff(t, frontier, x, y);
      }
      assert HoldsJoins(f0, v, s);
    }
  }

  /** A set closed under the textbook frontier, with the unreachable blocks, is closed
      under the computed one. */
  lemma HeldByAll(t: Ssa, frontier: Frontier, f0: Func, v: Name, s: set<Node>)
    requires ValidSsa(t) && FrontiersUpTo(t.f.cfg, t.up, t.id, frontier, |t.f.cfg.preds|) && t.f.cfg.preds[ENTRY] == []
    requires ValidFunc(f0) && f0.cfg == t.f.cfg && HoldsJoins(f0, v, s)
    ensures ClosedFor(frontier, StoringBlocks(f0, v), s + (set x | x in f0.cfg.Edges() && x !in t.up))
  {
    var s2 := s + (set x | x in f0.cfg.Edges() && x !in t.up);
    forall x, y | (x in StoringBlocks(f0, v) || x in s2) && y in FrontierOf(frontier, x) ensures y in s2 {
      FrontierBlocksAreJoins(t.f.cfg, t.up, t.id, frontier, x, y);
      if y in t.up {
        FrontierOfIff(t, frontier, x, y);
      }
    }
  }

  lemma JoinsHavePhis(f0: Func, t: Ssa, frontier: Frontier, has: set<(Node, Name)>, next: Name)
    requires ValidSsa(t) && FrontiersUpTo(t.f.cfg, t.up, t.id, frontier, |t.f.cfg.preds|) && t.f.cfg.preds[ENTRY] == []
    requires ValidFunc(f0) && Placed(f0, t.f, has, next) && PhisAreIterated(f0, frontier, has)
    ensures PhisAtJoins(f0, t)
  {
    forall s: Node, v ensures s in t.up ==> (HasPhi(InstrsOf(t.f, s), v) <==> IteratedJoin(f0, v, s))
      ensures HasStore(InstrsOf(t.f, s), v) <==> HasStore(InstrsOf(f0, s), v)
    {
      if s < |f0.code| {
        SamePhisAndStores(f0, t.f, has, next, s, v);
        InPhiBlocks(has, s, v);
      }
      if s in t.up {
        PlacedIffJoin(f0, t, frontier, has, v, s);
      }
    }
  }

  // ---------------------------------------------------------------- names on the tree

  lemma {:induction false} PhiNames(instrs: seq<Instr>, j: nat, sc: Scope, v: Name)
    requires j <= |instrs|
    ensures v in PhiScope(instrs, j, sc).cur <==> v in sc.cur || HasPhi(instrs[..j], v)
  {
    if j > 0 {
      PhiNames(instrs, j - 1, sc, v);
      HasSnoc(instrs[..j - 1], instrs[j - 1], v);
      assert instrs[..j] == instrs[..j - 1] + [instrs[j - 1]];
    }
  }

  lemma {:induction false} BodyNames(instrs: seq<Instr>, k: nat, sc: Scope, v: Name)
    requires k <= |instrs|
    ensures v in BodyScope(instrs, k, sc).cur <==> v in sc.cur || HasStore(instrs[..k], v)
  {
    if k > 0 {
      BodyNames(instrs, k - 1, sc, v);
      HasSnoc(instrs[..k - 1], instrs[k - 1], v);
      assert instrs[..k] == instrs[..k - 1] + [instrs[k - 1]];
    }
  }

  lemma NamesAt(t: Ssa, b: Node, k: nat, v: Name)
    requires Climbs(t.up, t.id) && b in t.up && k <= |InstrsOf(t.f, b)|
    ensures v in ScopeAt(t, b, k).cur <==> HasStore(InstrsOf(t.f, b)[..k], v) || v in ScopeAt(t, b, 0).cur
    ensures v in ScopeAt(t, b, 0).cur <==>
      HasPhi(InstrsOf(t.f, b), v) || (b != ENTRY && v in ScopeOut(t, Up(t.up, b)).cur)
    ensures v in ScopeOut(t, b).cur <==> HasStore(InstrsOf(t.f, b), v) || v in ScopeAt(t, b, 0).cur
  {
    var instrs := InstrsOf(t.f, b);
    var n := |instrs|;
    assert instrs[..n] == instrs;
    PhiNames(instrs, n, ScopeIn(t, b), v);
    BodyNames(instrs, k, PhiScope(instrs, n, ScopeIn(t, b)), v);
    BodyNames(instrs, n, PhiScope(instrs, n, ScopeIn(t, b)), v);
  }

  /** At the end of b a variable has a name iff a block at or above b defines it. */
  lemma {:induction false} NamedBelowDefs(t: Ssa, b: Node, v: Name)
    requires Climbs(t.up, t.id) && b in t.up
    ensures v in ScopeOut(t, b).cur <==> exists c :: c in Anc(t.up, t.id, b) && DefinesSlot(t.f, c, v)
    decreases t.id[ENTRY] - t.id[b]
  {
    NamesAt(t, b, 0, v);
    AncBasics(t.up, t.id, b);
    assert DefinesSlot(t.f, b, v) ==> b in Anc(t.up, t.id, b);
    if b != ENTRY {
      NamedBelowDefs(t, Up(t.up, b), v);
    }
  }

  lemma LeadsWalk(g: Graph, a: Node, b: Node) returns (w: seq<Node>)
    requires Leads(g, a, b)
    ensures WalkBetween(g, w, a, b) && |w| > 1
  {
    var c :| Edge(g, a, c) && Reaches(g, c, b);
    var q :| WalkBetween(g, q, c, b);
    w := [a] + q;
  }

  /** A path from a store arrives with the variable named. */
  lemma {:induction false} PathIsNamed(t: Ssa, a: Node, w: seq<Node>, b: Node, v: Name)
    requires ValidSsa(t) && PhisComplete(t) && t.f.cfg.preds[ENTRY] == []
    requires HasStore(InstrsOf(t.f, a), v) && WalkBetween(t.f.cfg.Edges(), w, a, b) && b in t.up
    ensures v in ScopeOut(t, b).cur && (|w| > 1 ==> v in ScopeAt(t, b, 0).cur)
    decreases |w|
  {
    NamesAt(t, b, 0, v);
    if |w| > 1 {
      var k := |w| - 2;
      var p := w[k];
      assert Edge(t.f.cfg.Edges(), w[k], w[k + 1]);
      t.f.cfg.EdgeLists(p, b);
      assert t.f.cfg.IsReachable(b) && t.f.cfg.IsReachable(p);
      PathIsNamed(t, a, w[..k + 1], p, v);
      if !HasPhi(InstrsOf(t.f, b), v) {
        EdgeConsistency(t, p, b, v);
      }
    }
  }

  /** At the start of b a variable has a name iff b is a join of its iterated frontier or
      a block that defines it is strictly above b. */
  lemma NamedAtStartIff(f0: Func, t: Ssa, b: Node, v: Name)
    requires ValidSsa(t) && PhisAtJoins(f0, t) && b in t.up
    ensures v in ScopeAt(t, b, 0).cur <==>
      IteratedJoin(f0, v, b) || exists c :: StrictlyDominates(f0.cfg.Edges(), c, b) && DefinesVar(f0, c, v)
  {
    var g := t.f.cfg.Edges();
    NamesAt(t, b, 0, v);
    if b == ENTRY {
      forall c ensures !StrictlyDominates(g, c, ENTRY) {
        assert WalkBetween(g, [ENTRY], ENTRY, ENTRY);
      }
    } else {
      var u := Up(t.up, b);
      NamedBelowDefs(t, u, v);
      AncBasics(t.up, t.id, u);
      forall c ensures c in Anc(t.up, t.id, u) <==> StrictlyDominates(g, c, b) {
        StrictAncIsParentAnc(g, t.id, t.up, b, c);
      }
    }
  }

  /** What defines a variable above b leads a store to b. */
  lemma AboveIsLed(f: Func, c: Node, b: Node, v: Name)
    requires ValidFunc(f) && f.cfg.ReachablePreds() && f.cfg.IsReachable(b)
    requires StrictlyDominates(f.cfg.Edges(), c, b) && DefinesVar(f, c, v)
    ensures StoreLeads(f, v, b)
  {
    var g := f.cfg.Edges();
    StrictDominatorLeads(g, c, b);
    if !HasStore(InstrsOf(f, c), v) {
      JoinIsLed(f, v, c);
      var a :| HasStore(InstrsOf(f, a), v) && Leads(g, a, c);
      DominatorReaches(g, c, b);
      LeadsOn(g, a, c, b);
    }
  }

  /** That is so iff a path from a store leads to b. */
  lemma NamedAtStartIsLed(f0: Func, t: Ssa, b: Node, v: Name)
    requires ValidSsa(t) && PhisComplete(t) && PhisAtJoins(f0, t) && b in t.up
    ensures v in ScopeAt(t, b, 0).cur <==> StoreLeads(f0, v, b)
  {
    if StoreLeads(f0, v, b) {
      var a :| HasStore(InstrsOf(f0, a), v) && Leads(f0.cfg.Edges(), a, b);
      var w := LeadsWalk(f0.cfg.Edges(), a, b);
      assert HasStore(InstrsOf(t.f, a), v);
      PathIsNamed(t, a, w, b, v);
    }
    NamedAtStartIff(f0, t, b, v);
    if IteratedJoin(f0, v, b) {
      JoinIsLed(f0, v, b);
    } else if c :| StrictlyDominates(f0.cfg.Edges(), c, b) && DefinesVar(f0, c, v) {
      assert f0.cfg.IsReachable(b);
      AboveIsLed(f0, c, b, v);
    }
  }

  /** A variable has a name before instruction k of b iff a store reaches it, iff a store
      or a join of its iterated frontier is above in the dominator tree or in b. */
  lemma NamedIff(f0: Func, t: Ssa, b: Node, k: nat, v: Name)
    requires ValidSsa(t) && PhisComplete(t) && PhisAtJoins(f0, t) && b in t.up && k <= |InstrsOf(f0, b)|
    ensures k + Shift(f0, t.f, b) <= |InstrsOf(t.f, b)|
    ensures v in ScopeAt(t, b, k + Shift(f0, t.f, b)).cur <==> StoreReaches(f0, b, k, v)
    ensures StoreReaches(f0, b, k, v) <==> DefinedOver(f0, b, k, v)
  {
    ShiftedStores(f0, t.f, b, k, v);
    NamesAt(t, b, k + Shift(f0, t.f, b), v);
    NamedAtStartIsLed(f0, t, b, v);
    NamedAtStartIff(f0, t, b, v);
  }
}
