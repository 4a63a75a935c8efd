/** The pairs of the promoted phis: which blocks they name, how often, and what is
    missing. */
module PhiPairs {
  import opened Graphs
  import opened ControlFlow
  import opened DomTree
  import opened Ir
  import opened Scopes
  import opened Promotion
  import opened MeaningPreserved
  import opened Renaming
  import opened RenameWalk
  import opened SsaForm

  /** The blocks the pairs name, in order. */
  function BlocksOf(pairs: seq<(Operand, Node)>): (r: seq<Node>)
    ensures |r| == |pairs|
  {
    seq(|pairs|, i requires 0 <= i < |pairs| => pairs[i].1)
  }

  /** How often p lists s as a successor. */
  ghost function Listings(cfg: Cfg, p: Node, s: Node): nat {
    if p < |cfg.succs| then multiset(cfg.succs[p])[s] else 0
  }

  /** v has a name at the end of p. */
  ghost predicate NamedAtEnd(t: Ssa, p: Node, v: Name)
    requires Climbs(t.up, t.id)
  {
    p in t.up && v in ScopeOut(t, p).cur
  }

  lemma BlocksOfAppend(ps: seq<(Operand, Node)>, qs: seq<(Operand, Node)>)
    ensures BlocksOf(ps + qs) == BlocksOf(ps) + BlocksOf(qs)
  {
  }

  lemma FillCounts(t: Ssa, fills: Fills, e: (Node, Node), s: Node, v: Name, p: Node)
    requires Climbs(t.up, t.id)
    ensures multiset(BlocksOf(PairsFor(t, fills + [e], s, v)))[p] == multiset(BlocksOf(PairsFor(t, fills, s, v)))[p] +
      if e == (p, s) && NamedAtEnd(t, p, v) then 1 else 0
  {
    var one := if e.1 == s && NamedAtEnd(t, e.0, v) then [(ScopeOut(t, e.0).cur[v], e.0)] else [];
    PairsFilled(t, fills, e, s, v);
    BlocksOfAppend(PairsFor(t, fills, s, v), one);
    assert BlocksOf(one) == if one == [] then [] else [e.0];
  }

  lemma {:induction false} PairCount(t: Ssa, fills: Fills, s: Node, v: Name, p: Node)
    requires Climbs(t.up, t.id)
    ensures multiset(BlocksOf(PairsFor(t, fills, s, v)))[p] ==
      if NamedAtEnd(t, p, v) then multiset(fills)[(p, s)] else 0
  {
    if fills != [] {
      var init, e := fills[..|fills| - 1], fills[|fills| - 1];
      PairCount(t, init, s, v, p);
      FillCounts(t, init, e, s, v, p);
      assert fills == init + [e];
    }
  }

  /** A promoted phi names each block once for every time the block lists its own, if the
      variable has a name at the end of that block, and names no other block. */
  lemma PhiNamesEdges(f0: Func, t: Ssa, f2: Func, sigma: map<Name, Operand>, fills: Fills, s: Node, r: nat, p: Node)
    requires Promotes(f0, t, f2, sigma, fills) && s in t.up && r < |InstrsOf(f2, s)| && InstrsOf(f2, s)[r].op.Phi?
    ensures var op := InstrsOf(f2, s)[r].op;
      && HasPhi(InstrsOf(t.f, s), op.slot)
      && multiset(BlocksOf(op.pairs))[p] == if NamedAtEnd(t, p, op.slot) then Listings(f2.cfg, p, s) else 0
  {
    var instrs := InstrsOf(t.f, s);
    PromotedCode(f0, t, f2, sigma, fills, s);
    var k := RenderFrom(t, sigma, fills, s, instrs, r);
    SubstKeepsKind(sigma, instrs[k].op);
    assert instrs[k].op.Phi?;
    PairCount(t, fills, s, instrs[k].op.slot, p);
    assert FilledOnce(t.f.cfg, [], fills, t.up.Keys, (p, s));
  }

  /** Where t.f has a phi, so has the promoted function. */
  lemma PhiStays(f0: Func, t: Ssa, f2: Func, sigma: map<Name, Operand>, fills: Fills, s: Node, v: Name)
    requires Promotes(f0, t, f2, sigma, fills) && s in t.up && HasPhi(InstrsOf(t.f, s), v)
    ensures HasPhi(InstrsOf(f2, s), v)
  {
    PromotedCode(f0, t, f2, sigma, fills, s);
    RenderedPhis(t, Final, sigma, fills, s, InstrsOf(t.f, s), v);
  }

  // ------------------------------------------------------------- complete phis

  /** Every phi has one pair for each edge from a reachable block. */
  ghost predicate PhisFilled(f: Func) {
    forall p: Node, s: Node, k: nat {:trigger Edge(f.cfg.Edges(), p, s), f.code[s].instrs[k]} ::
      f.cfg.IsReachable(p) && Edge(f.cfg.Edges(), p, s) && s < |f.code| && 0 <= k < |f.code[s].instrs| &&
        f.code[s].instrs[k].op.Phi?
      ==> multiset(BlocksOf(f.code[s].instrs[k].op.pairs))[p] == Listings(f.cfg, p, s)
  }

  ghost predicate EdgesNamed(t: Ssa)
    requires Climbs(t.up, t.id)
  {
    forall b, s, v {:trigger UnnamedEdge(t, b, s, v)} :: b in t.up ==> !UnnamedEdge(t, b, s, v)
  }

  /** No phi misses a pair iff every block has a name for the phis of its successors. */
  lemma PhisFilledIff(f0: Func, t: Ssa, f2: Func, sigma: map<Name, Operand>, fills: Fills)
    requires Promotes(f0, t, f2, sigma, fills)
    ensures PhisFilled(f2) <==> EdgesNamed(t)
  {
    if EdgesNamed(t) {
      forall p: Node, s: Node, k: nat
        | f2.cfg.IsReachable(p) && Edge(f2.cfg.Edges(), p, s) && s < |f2.code| && 0 <= k < |f2.code[s].instrs| &&
          f2.code[s].instrs[k].op.Phi?
        ensures multiset(BlocksOf(f2.code[s].instrs[k].op.pairs))[p] == Listings(f2.cfg, p, s)
      {
        ReachesStep(t.f.cfg.Edges(), ENTRY, p, s);
        PhiNamesEdges(f0, t, f2, sigma, fills, s, k, p);
        assert !UnnamedEdge(t, p, s, f2.code[s].instrs[k].op.slot);
      }
    }
    if PhisFilled(f2) {
      forall p: Node, s: Node, v: Name | p in t.up ensures !UnnamedEdge(t, p, s, v) {
        if UnnamedEdge(t, p, s, v) {
          PhiMissesPair(f0, t, f2, sigma, fills, p, s, v);
        }
      }
    }
  }

  lemma PhiMissesPair(f0: Func, t: Ssa, f2: Func, sigma: map<Name, Operand>, fills: Fills, p: Node, s: Node, v: Name)
    requires Promotes(f0, t, f2, sigma, fills) && p in t.up && UnnamedEdge(t, p, s, v)
    ensures !PhisFilled(f2)
  {
    var g := t.f.cfg.Edges();
    ReachesStep(g, ENTRY, p, s);
    PhiStays(f0, t, f2, sigma, fills, s, v);
    var r :| 0 <= r < |InstrsOf(f2, s)| && InstrsOf(f2, s)[r].op.Phi? && InstrsOf(f2, s)[r].op.slot == v;
    PhiNamesEdges(f0, t, f2, sigma, fills, s, r, p);
    assert f2.cfg.IsReachable(p) && Edge(f2.cfg.Edges(), p, s) && f2.code[s].instrs[r].op.Phi?;
    assert Listings(f2.cfg, p, s) > 0;
  }

  // -------------------------------------------------------- phis with two pairs

  /** Every phi of a reachable block has two pairs or more. */
  ghost predicate PhisHaveTwo(f: Func) {
    forall s: Node, k: nat {:trigger f.code[s].instrs[k]} ::
      f.cfg.IsReachable(s) && s < |f.code| && k < |f.code[s].instrs| && f.code[s].instrs[k].op.Phi? ==>
        |f.code[s].instrs[k].op.pairs| >= 2
  }

  ghost predicate ListsAt(cfg: Cfg, p: Node, i: nat, s: Node) {
    p < |cfg.succs| && i < |cfg.succs[p]| && cfg.succs[p][i] == s
  }

  /** Two listed edges lead to s from these blocks; one block may list s twice. */
  ghost predicate TwoEdges(cfg: Cfg, from: iset<Node>, s: Node) {
    exists p, i, q, j :: (p, i) != (q, j) && p in from && q in from && ListsAt(cfg, p, i, s) && ListsAt(cfg, q, j, s)
  }

  ghost function NamingBlocks(t: Ssa, v: Name): iset<Node>
    requires Climbs(t.up, t.id)
  {
    iset p | NamedAtEnd(t, p, v)
  }

  ghost predicate JoinsNamedTwice(t: Ssa)
    requires Climbs(t.up, t.id)
  {
    forall s, v {:trigger HasPhi(InstrsOf(t.f, s), v)} :: s in t.up && HasPhi(InstrsOf(t.f, s), v) ==>
      TwoEdges(t.f.cfg, NamingBlocks(t, v), s)
  }

  lemma {:induction false} TwiceIn(xs: seq<Node>, x: Node)
    ensures multiset(xs)[x] >= 2 <==> exists i, j :: 0 <= i < j < |xs| && xs[i] == x == xs[j]
  {
    if xs != [] {
      var n := |xs| - 1;
      var init := xs[..n];
      TwiceIn(init, x);
      assert xs == init + [xs[n]];
      if multiset(init)[x] >= 2 {
        var i, j :| 0 <= i < j < |init| && init[i] == x == init[j];
        assert xs[i] == x == xs[j];
      } else if multiset(xs)[x] >= 2 {
        assert x in init;
        var i :| 0 <= i < |init| && init[i] == x;
        assert xs[i] == x == xs[n];
      }
      if exists i, j :: 0 <= i < j < |xs| && xs[i] == x == xs[j] {
        var i, j :| 0 <= i < j < |xs| && xs[i] == x == xs[j];
        assert init[i] == x && (j < n ==> init[j] == x);
      }
    }
  }

  /** A list that names each of these blocks as often as it lists s has two entries iff
      two listed edges lead to s from them. */
  lemma TwoEntriesIff(cfg: Cfg, from: iset<Node>, s: Node, blocks: seq<Node>)
    requires forall p :: multiset(blocks)[p] == if p in from then Listings(cfg, p, s) else 0
    ensures |blocks| >= 2 <==> TwoEdges(cfg, from, s)
  {
    if |blocks| >= 2 {
      var p, q := blocks[0], blocks[1];
      if p == q {
        TwiceIn(blocks, p);
        TwiceIn(cfg.succs[p], s);
        var i, j :| 0 <= i < j < |cfg.succs[p]| && cfg.succs[p][i] == s == cfg.succs[p][j];
        assert ListsAt(cfg, p, i, s) && ListsAt(cfg, p, j, s);
      } else {
        assert multiset(blocks)[p] > 0 && multiset(blocks)[q] > 0;
        var i :| 0 <= i < |cfg.succs[p]| && cfg.succs[p][i] == s;
        var j :| 0 <= j < |cfg.succs[q]| && cfg.succs[q][j] == s;
        assert ListsAt(cfg, p, i, s) && ListsAt(cfg, q, j, s);
      }
    }
    if TwoEdges(cfg, from, s) {
      var p, i, q, j :|
        (p, i) != (q, j) && p in from && q in from && ListsAt(cfg, p, i, s) && ListsAt(cfg, q, j, s);
      assert multiset(blocks)[p] > 0 && multiset(blocks)[q] > 0;
      if p == q {
        TwiceIn(cfg.succs[p], s);
        TwiceIn(blocks, p);
      } else {
        assert p in blocks && q in blocks;
      }
    }
  }

  lemma PhiHasTwoIff(f0: Func, t: Ssa, f2: Func, sigma: map<Name, Operand>, fills: Fills, s: Node, r: nat)
    requires Promotes(f0, t, f2, sigma, fills) && s in t.up && r < |InstrsOf(f2, s)| && InstrsOf(f2, s)[r].op.Phi?
    ensures var op := InstrsOf(f2, s)[r].op;
      |op.pairs| >= 2 <==> TwoEdges(f2.cfg, NamingBlocks(t, op.slot), s)
  {
    var op := InstrsOf(f2, s)[r].op;
    forall p ensures multiset(BlocksOf(op.pairs))[p] == if p in NamingBlocks(t, op.slot) then Listings(f2.cfg, p, s)
                                                        else 0
    {
      PhiNamesEdges(f0, t, f2, sigma, fills, s, r, p);
    }
    TwoEntriesIff(f2.cfg, NamingBlocks(t, op.slot), s, BlocksOf(op.pairs));
  }

  /** Every promoted phi has two pairs iff two listed edges to its block start where the
      variable has a name. */
  lemma PhisHaveTwoIff(f0: Func, t: Ssa, f2: Func, sigma: map<Name, Operand>, fills: Fills)
    requires Promotes(f0, t, f2, sigma, fills)
    ensures PhisHaveTwo(f2) <==> JoinsNamedTwice(t)
  {
    if JoinsNamedTwice(t) {
      forall s: Node, k: nat
        | f2.cfg.IsReachable(s) && s < |f2.code| && k < |f2.code[s].instrs| && f2.code[s].instrs[k].op.Phi?
        ensures |f2.code[s].instrs[k].op.pairs| >= 2
      {
        assert t.f.cfg.IsReachable(s);
        PhiNamesEdges(f0, t, f2, sigma, fills, s, k, ENTRY);
        PhiHasTwoIff(f0, t, f2, sigma, fills, s, k);
      }
    }
    if PhisHaveTwo(f2) {
      forall s, v | s in t.up && HasPhi(InstrsOf(t.f, s), v) ensures TwoEdges(t.f.cfg, NamingBlocks(t, v), s) {
        PhiStays(f0, t, f2, sigma, fills, s, v);
        var r: nat :| r < |InstrsOf(f2, s)| && InstrsOf(f2, s)[r].op.Phi? && InstrsOf(f2, s)[r].op.slot == v;
        assert f2.cfg.IsReachable(s) && f2.code[s].instrs[r].op.Phi?;
        PhiHasTwoIff(f0, t, f2, sigma, fills, s, r);
      }
    }
  }
}
