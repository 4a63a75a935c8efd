/** Invariants of the immediate-dominator iteration, and why its fixpoint is
    the dominator tree. */
module IdomFixpoint {
  import opened Graphs
  import opened ControlFlow
  import opened DomTree

  /** What the depth-first numbering gives: `par` is the depth-first tree, every
      numbered block is reachable and has a higher-numbered predecessor there. */
  ghost predicate Numbered(g: Graph, id: Numbering, par: Tree) {
    && Climbs(par, id) && par.Keys == id.Keys && Injective(id)
    && (forall b {:trigger Up(par, b)} :: b in id && b != ENTRY ==> Edge(g, Up(par, b), b))
    && (forall b {:trigger Reaches(g, ENTRY, b)} :: b in id <==> Reaches(g, ENTRY, b))
  }

  /** c is on y's depth-first chain and every strict dominator of y dominates c. */
  ghost predicate SoundParent(g: Graph, id: Numbering, par: Tree, y: Node, c: Node)
    requires Climbs(par, id) && y in par
  {
    && c in Anc(par, id, y)
    && (y != ENTRY ==> forall d :: StrictlyDominates(g, d, y) ==> Dominates(g, d, c))
  }

  ghost predicate Sound(g: Graph, id: Numbering, par: Tree, up: Tree) {
    && Climbs(up, id) && Climbs(par, id) && up.Keys <= par.Keys
    && (forall y {:trigger Up(par, y)} :: y in up && y != ENTRY ==> Up(par, y) in up)
    && (forall y {:trigger SoundParent(g, id, par, y, Up(up, y))} :: y in up ==> SoundParent(g, id, par, y, Up(up, y)))
  }

  /** z lies on the chain of every predecessor of y placed so far. */
  ghost predicate AbovePreds(g: Graph, id: Numbering, up: Tree, y: Node, z: Node)
    requires Climbs(up, id)
  {
    forall p :: p in up && Edge(g, p, y) ==> z in Anc(up, id, p)
  }

  /** What `create_idom` assigns: the nearest common ancestor of the placed predecessors. */
  ghost predicate IsMeet(g: Graph, id: Numbering, up: Tree, y: Node, c: Node)
    requires Climbs(up, id)
  {
    c in up && forall z :: z in Anc(up, id, c) <==> AbovePreds(g, id, up, y, z)
  }

  /** Recomputing a parent can only move it up its own chain. */
  ghost predicate OnlyUp(g: Graph, id: Numbering, up: Tree)
    requires Climbs(up, id)
  {
    forall y, z {:trigger AbovePreds(g, id, up, y, z)} ::
      y in up && y != ENTRY && AbovePreds(g, id, up, y, z) ==> z in Anc(up, id, Up(up, y))
  }

  /** Sweep state of one block: once handled it hangs from its depth-first parent's
      chain; before that it still does as far up as number i. */
  ghost predicate SweptAt(id: Numbering, par: Tree, up: Tree, y: Node, i: int)
    requires Climbs(up, id) && y in up
  {
    && Up(par, y) in up
    && (id[y] > i ==> Up(up, y) in Anc(up, id, Up(par, y)))
    && (id[y] <= i ==> forall x {:trigger x in Anc(up, id, Up(par, y))} ::
          x in Anc(up, id, Up(up, y)) && x in up && id[x] <= i ==> x in Anc(up, id, Up(par, y)))
  }

  /** The pass has handled exactly the blocks numbered above i. */
  ghost predicate Swept(id: Numbering, par: Tree, up: Tree, i: int)
    requires Climbs(up, id)
  {
    forall y {:trigger SweptAt(id, par, up, y, i)} :: y in up && y != ENTRY ==> SweptAt(id, par, up, y, i)
  }

  /** A depth-first descendant p of c is reached from c through lower numbers, so a
      dominator of p numbered above c dominates c as well. */
  lemma {:induction false} DominatorOfDescendant(g: Graph, id: Numbering, par: Tree, c: Node, p: Node, d: Node)
    requires Numbered(g, id, par) && p in id && c in Anc(par, id, p)
    requires Dominates(g, d, p) && d in id && c in id && id[d] > id[c]
    ensures Dominates(g, d, c)
    decreases id[ENTRY] - id[p]
  {
    if p != c {
      AncBasics(par, id, p);
      StrictDominatorOfPred(g, d, p, Up(par, p));
      DominatorOfDescendant(g, id, par, c, Up(par, p), d);
    }
  }

  /** Every dominator of a placed block is on its chain. */
  lemma {:induction false} DominatorsOnChain(g: Graph, id: Numbering, par: Tree, up: Tree, y: Node, d: Node)
    requires Numbered(g, id, par) && Sound(g, id, par, up) && y in up && Dominates(g, d, y)
    ensures d in Anc(up, id, y)
    decreases id[ENTRY] - id[y]
  {
    if y == ENTRY {
      assert WalkBetween(g, [ENTRY], ENTRY, ENTRY);
      assert d in [ENTRY];
    } else if d != y {
      assert SoundParent(g, id, par, y, Up(up, y));
      assert StrictlyDominates(g, d, y);
      DominatorsOnChain(g, id, par, up, Up(up, y), d);
    }
  }

  /** The meet of the placed predecessors is a sound parent. */
  lemma MeetIsSound(g: Graph, id: Numbering, par: Tree, up: Tree, b: Node, c: Node)
    requires Numbered(g, id, par) && Sound(g, id, par, up)
    requires b in id && b != ENTRY && Up(par, b) in up && IsMeet(g, id, up, b, c)
    ensures c in Anc(up, id, Up(par, b)) && id[b] < id[c] && SoundParent(g, id, par, b, c)
  {
    var p := Up(par, b);
    AncBasics(up, id, c);
    assert AbovePreds(g, id, up, b, c);
    ParentsWithin(g, id, par, up, p);
    AncBasics(up, id, p);
    forall d | StrictlyDominates(g, d, b) ensures Dominates(g, d, c) {
      MeetDominated(g, id, par, up, b, c, d);
    }
  }

  lemma ParentsWithin(g: Graph, id: Numbering, par: Tree, up: Tree, p: Node)
    requires Sound(g, id, par, up) && p in up
    ensures Anc(up, id, p) <= Anc(par, id, p)
  {
    forall y | y in up ensures Up(up, y) in Anc(par, id, y) {
      assert SoundParent(g, id, par, y, Up(up, y));
    }
    AncWithin(up, par, id, p);
  }

  /** A strict dominator of b dominates the meet c of b's placed predecessors. */
  lemma MeetDominated(g: Graph, id: Numbering, par: Tree, up: Tree, b: Node, c: Node, d: Node)
    requires Numbered(g, id, par) && Sound(g, id, par, up)
    requires b in id && b != ENTRY && Up(par, b) in up && IsMeet(g, id, up, b, c)
    requires StrictlyDominates(g, d, b)
    ensures Dominates(g, d, c)
  {
    forall q | q in up && Edge(g, q, b) ensures d in Anc(up, id, q) {
      StrictDominatorOfPred(g, d, b, q);
      DominatorsOnChain(g, id, par, up, q, d);
    }
    assert AbovePreds(g, id, up, b, d);
    AncBasics(up, id, c);
    if d != c {
      var p := Up(par, b);
      assert AbovePreds(g, id, up, b, c);
      StrictDominatorOfPred(g, d, b, p);
      ParentsWithin(g, id, par, up, p);
      DominatorOfDescendant(g, id, par, c, p, d);
    } else {
      DominatesSelf(g, c);
    }
  }

  /** The parent assigned next is the old one or lies strictly above it. */
  lemma MeetMovesUp(g: Graph, id: Numbering, up: Tree, b: Node, c: Node)
    requires Climbs(up, id) && OnlyUp(g, id, up)
    requires b in up && b != ENTRY && IsMeet(g, id, up, b, c)
    ensures c in Anc(up, id, Up(up, b)) && (c != Up(up, b) ==> id[Up(up, b)] < id[c])
  {
    AncBasics(up, id, c);
    assert AbovePreds(g, id, up, b, c);
    AncBasics(up, id, Up(up, b));
  }

  lemma UpdateClimbs(up: Tree, id: Numbering, b: Node, c: Node)
    requires Climbs(up, id) && b in id && b != ENTRY && c in up && id[b] < id[c]
    ensures Climbs(up[b := c], id)
  {
    var up2 := up[b := c];
    forall y | y in up2 && y != ENTRY ensures Up(up2, y) in up2 && id[y] < id[Up(up2, y)] {
      assert y != b ==> Up(up2, y) == Up(up, y);
    }
  }

  /** One assignment of the pass keeps every invariant and advances the sweep. */
  lemma UpdateKeepsSwept(g: Graph, id: Numbering, par: Tree, up: Tree, b: Node, c: Node)
    requires b in id && Numbered(g, id, par) && Sound(g, id, par, up) && Swept(id, par, up, id[b])
    requires b != ENTRY && Up(par, b) in up && IsMeet(g, id, up, b, c)
    requires Climbs(up[b := c], id) && id[b] < id[c] && c in Anc(up, id, Up(par, b))
    ensures Swept(id, par, up[b := c], id[b] as int - 1)
  {
    var up2 := up[b := c];
    forall y | y in up2 && y != ENTRY ensures SweptAt(id, par, up2, y, id[b] as int - 1) {
      if y == b {
        AncBasics(up, id, Up(par, b));
        AncUpdateOther(up, id, b, c, Up(par, b));
      } else {
        assert SweptAt(id, par, up, y, id[b]);
        UpdateKeepsSweptAt(id, par, up, b, c, y);
      }
    }
  }

  lemma UpdateKeepsSweptAt(id: Numbering, par: Tree, up: Tree, b: Node, c: Node, y: Node)
    requires Climbs(up, id) && Climbs(up[b := c], id) && Injective(id) && b in id && b != ENTRY
    requires y in up && y != b && y != ENTRY && (Up(par, y) in up ==> id[y] < id[Up(par, y)])
    requires SweptAt(id, par, up, y, id[b])
    ensures SweptAt(id, par, up[b := c], y, id[b] as int - 1)
  {
    var up2 := up[b := c];
    if id[y] > id[b] {
      AncBasics(up, id, Up(par, y));
      AncUpdateOther(up, id, b, c, Up(par, y));
    } else {
      assert !SameNumber(id, y, b);
      forall x | x in Anc(up2, id, Up(up, y)) && x in up2 && id[x] <= id[b] as int - 1
        ensures x in Anc(up2, id, Up(par, y))
      {
        AncUpdateLow(up, id, b, c, Up(up, y), x);
        AncUpdateLow(up, id, b, c, Up(par, y), x);
      }
    }
  }

  lemma UpdateKeepsSound(g: Graph, id: Numbering, par: Tree, up: Tree, b: Node, c: Node)
    requires Sound(g, id, par, up) && b in id && b != ENTRY && b in par && Up(par, b) in up
    requires c in up && id[b] < id[c] && SoundParent(g, id, par, b, c)
    ensures Sound(g, id, par, up[b := c])
  {
    UpdateClimbs(up, id, b, c);
    var up2 := up[b := c];
    forall y | y in up2 ensures SoundParent(g, id, par, y, Up(up2, y)) {
      assert y != b ==> Up(up2, y) == Up(up, y);
    }
  }

  /** First placement of b: chains of the others do not change, b's own is the meet. */
  lemma PlaceKeepsOnlyUp(g: Graph, id: Numbering, up: Tree, b: Node, c: Node)
    requires Climbs(up, id) && OnlyUp(g, id, up) && b in id && b !in up && b != ENTRY
    requires IsMeet(g, id, up, b, c) && Climbs(up[b := c], id)
    ensures OnlyUp(g, id, up[b := c])
  {
    var up2 := up[b := c];
    forall y | y in up ensures Anc(up2, id, y) == Anc(up, id, y) {
      AncBasics(up, id, y);
      AncUpdateOther(up, id, b, c, y);
    }
    forall y, z | y in up2 && y != ENTRY && AbovePreds(g, id, up2, y, z) ensures z in Anc(up2, id, Up(up2, y)) {
      assert AbovePreds(g, id, up, y, z);
    }
  }

  /** Moving b up keeps `OnlyUp`: a block hanging below b still has a predecessor
      below b, because its depth-first parent is one. */
  lemma MoveKeepsOnlyUp(g: Graph, id: Numbering, par: Tree, up: Tree, b: Node, c: Node)
    requires Climbs(up, id) && Climbs(up[b := c], id) && OnlyUp(g, id, up)
    requires b in up && b != ENTRY && IsMeet(g, id, up, b, c)
    requires forall y {:trigger Up(par, y)} :: y in up && y != ENTRY ==> Up(par, y) in up && Edge(g, Up(par, y), y)
    requires forall y :: y in up && id[y] == id[b] ==> y == b
    requires Swept(id, par, up, id[b])
    ensures OnlyUp(g, id, up[b := c])
  {
    var up2 := up[b := c];
    MeetMovesUp(g, id, up, b, c);
    forall y, z | y in up2 && y != ENTRY && AbovePreds(g, id, up2, y, z) ensures z in Anc(up2, id, Up(up2, y)) {
      MoveShrinksAbove(g, id, up, b, c, y, z);
      if y == b {
        AncBasics(up, id, c);
        AncUpdateOther(up, id, b, c, c);
      } else {
        assert SweptAt(id, par, up, y, id[b]);
        MoveKeepsOnlyUpAt(id, par, up, b, c, y, z);
      }
    }
  }

  lemma MoveShrinksAbove(g: Graph, id: Numbering, up: Tree, b: Node, c: Node, y: Node, z: Node)
    requires Climbs(up, id) && Climbs(up[b := c], id) && b in up && b != ENTRY && c in Anc(up, id, Up(up, b))
    requires AbovePreds(g, id, up[b := c], y, z)
    ensures AbovePreds(g, id, up, y, z)
  {
    forall p | p in up && Edge(g, p, y) ensures z in Anc(up, id, p) {
      AncUpdateShrinks(up, id, b, c, p);
    }
  }

  lemma MoveKeepsOnlyUpAt(id: Numbering, par: Tree, up: Tree, b: Node, c: Node, y: Node, z: Node)
    requires Climbs(up, id) && Climbs(up[b := c], id) && b in up && b != ENTRY
    requires y in up && y != ENTRY && y != b && SweptAt(id, par, up, y, id[b]) && (id[y] == id[b] ==> y == b)
    requires z in Anc(up, id, Up(up, y)) && z in Anc(up[b := c], id, Up(par, y))
    ensures z in Anc(up[b := c], id, Up(up, y))
  {
    AncBasics(up, id, Up(up, y));
    if b !in Anc(up, id, Up(up, y)) {
      AncUpdateOther(up, id, b, c, Up(up, y));
    } else {
      MoveKeepsCommon(id, up, b, c, Up(up, y), Up(par, y), z);
    }
  }

  /** If b is above both p and q, so is z after b moved, once z is above p then and
      was above q before. */
  lemma MoveKeepsCommon(id: Numbering, up: Tree, b: Node, c: Node, q: Node, p: Node, z: Node)
    requires Climbs(up, id) && Climbs(up[b := c], id) && b in up && b != ENTRY && p in up && q in up
    requires b in Anc(up, id, p) && b in Anc(up, id, q)
    requires z in Anc(up[b := c], id, p) && z in Anc(up, id, q)
    requires z in id
    ensures z in Anc(up[b := c], id, q)
  {
    var up2 := up[b := c];
    if id[z] <= id[b] {
      AncUpdateLow(up, id, b, c, q, z);
    } else {
      AncUpdateLow(up, id, b, c, q, b);
      AncUpdateLow(up, id, b, c, p, b);
      AncBasics(up2, id, p);
      AncChain(up2, id, b, z, p);
      AncTrans(up2, id, b, q);
    }
  }

  /** After a full sweep the next one may start at the top again. */
  lemma SweptRestarts(id: Numbering, par: Tree, up: Tree)
    requires Climbs(up, id) && Swept(id, par, up, -1)
    ensures Swept(id, par, up, id[ENTRY])
  {
    forall y | y in up && y != ENTRY ensures SweptAt(id, par, up, y, id[ENTRY]) {
      assert SweptAt(id, par, up, y, -1);
      AncTrans(up, id, Up(up, y), Up(par, y));
    }
  }

  /** Every block of a chain lies on every walk from the entry, once no parent changes. */
  lemma {:induction false} ChainDominates(g: Graph, id: Numbering, up: Tree, w: seq<Node>, b: Node, a: Node)
    requires Climbs(up, id) && b in up && WalkBetween(g, w, ENTRY, b)
    requires forall x :: Reaches(g, ENTRY, x) ==> x in up
    requires forall y {:trigger IsMeet(g, id, up, y, Up(up, y))} :: y in up && y != ENTRY ==>
      IsMeet(g, id, up, y, Up(up, y))
    requires a in Anc(up, id, b)
    ensures a in w
    decreases |w|
  {
    if b != ENTRY && a != b {
      var k := |w| - 1;
      var p := w[k - 1];
      assert Edge(g, p, w[k]);
      WalkPrefix(g, w, ENTRY, b, k - 1);
      assert IsMeet(g, id, up, b, Up(up, b)) && AbovePreds(g, id, up, b, a);
      ChainDominates(g, id, up, w[..k], p, a);
    }
  }

  /** The fixpoint: chains are exactly the dominator sets. */
  lemma FixpointIsDominance(g: Graph, id: Numbering, par: Tree, up: Tree)
    requires Numbered(g, id, par) && Sound(g, id, par, up) && up.Keys == id.Keys
    requires forall y {:trigger IsMeet(g, id, up, y, Up(up, y))} :: y in up && y != ENTRY ==>
      IsMeet(g, id, up, y, Up(up, y))
    ensures forall b, d {:trigger d in Anc(up, id, b)} :: b in up ==> (d in Anc(up, id, b) <==> Dominates(g, d, b))
  {
    forall b, d | b in up && d in Anc(up, id, b) ensures Dominates(g, d, b) {
      forall w | WalkBetween(g, w, ENTRY, b) ensures d in w {
        ChainDominates(g, id, up, w, b, d);
      }
    }
    forall b, d | b in up && Dominates(g, d, b) ensures d in Anc(up, id, b) {
      DominatorsOnChain(g, id, par, up, b, d);
    }
  }

  /** How far the placed parents still are from the entry, summed over `order`. */
  ghost function Slack(order: seq<Node>, up: Tree, id: Numbering): nat
    requires ENTRY in id
  {
    if order == [] then 0 else SlackOf(order[0], up, id) + Slack(order[1..], up, id)
  }

  ghost function SlackOf(b: Node, up: Tree, id: Numbering): nat
    requires ENTRY in id
  {
    if b !in up || up[b] !in id then id[ENTRY] + 1
    else if id[ENTRY] < id[up[b]] then 0
    else id[ENTRY] - id[up[b]]
  }

  /** Every assignment that changes a parent uses up slack. */
  lemma {:induction false} SlackDrops(order: seq<Node>, up: Tree, id: Numbering, b: Node, c: Node)
    requires ENTRY in id && SlackOf(b, up[b := c], id) < SlackOf(b, up, id)
    ensures Slack(order, up[b := c], id) <= Slack(order, up, id)
    ensures b in order ==> Slack(order, up[b := c], id) < Slack(order, up, id)
  {
    if order != [] {
      SlackDrops(order[1..], up, id, b, c);
    }
  }

  /** What holds when the pass is about to handle number i. */
  ghost predicate PassAt(g: Graph, id: Numbering, par: Tree, up: Tree, i: int) {
    && Numbered(g, id, par) && Sound(g, id, par, up) && OnlyUp(g, id, up) && Swept(id, par, up, i)
    && (forall x :: x in id && id[x] > i ==> x in up)
  }

  /** Recomputing a parent numbered above i would change nothing. */
  ghost predicate StableAbove(g: Graph, id: Numbering, up: Tree, i: int)
    requires Climbs(up, id)
  {
    forall y {:trigger IsMeet(g, id, up, y, Up(up, y))} :: y in up && y != ENTRY && id[y] > i ==>
      IsMeet(g, id, up, y, Up(up, y))
  }

  lemma PassStart(g: Graph, id: Numbering, par: Tree)
    requires Numbered(g, id, par)
    ensures PassAt(g, id, par, map[ENTRY := ENTRY], id[ENTRY])
  {
    var up := map[ENTRY := ENTRY];
    assert Climbs(up, id);
    AncBasics(par, id, ENTRY);
    forall x | x in id ensures id[x] <= id[ENTRY] {
      assert x in par;
    }
  }

  /** Placing or moving b to the meet of its placed predecessors advances the pass. */
  lemma PassStep(g: Graph, id: Numbering, par: Tree, up: Tree, b: Node, c: Node)
    requires b in id && b != ENTRY && PassAt(g, id, par, up, id[b]) && IsMeet(g, id, up, b, c)
    ensures PassAt(g, id, par, up[b := c], id[b] as int - 1)
    ensures b in up && c != up[b] ==> SlackOf(b, up[b := c], id) < SlackOf(b, up, id)
    ensures b !in up ==> SlackOf(b, up[b := c], id) < SlackOf(b, up, id)
  {
    MeetIsSound(g, id, par, up, b, c);
    UpdateKeepsSound(g, id, par, up, b, c);
    UpdateKeepsSwept(g, id, par, up, b, c);
    forall x | x in id && id[x] > id[b] as int - 1 ensures x in up[b := c] {
      assert SameNumber(id, x, b) ==> x == b;
    }
    PassStepOnlyUp(g, id, par, up, b, c);
    PassStepSlack(g, id, up, b, c);
  }

  lemma PassStepOnlyUp(g: Graph, id: Numbering, par: Tree, up: Tree, b: Node, c: Node)
    requires b in id && b != ENTRY && PassAt(g, id, par, up, id[b]) && IsMeet(g, id, up, b, c)
    requires Climbs(up[b := c], id)
    ensures OnlyUp(g, id, up[b := c])
  {
    if b in up {
      forall y | y in up && id[y] == id[b] ensures y == b {
        assert SameNumber(id, y, b);
      }
      MoveKeepsOnlyUp(g, id, par, up, b, c);
    } else {
      PlaceKeepsOnlyUp(g, id, up, b, c);
    }
  }

  lemma PassStepSlack(g: Graph, id: Numbering, up: Tree, b: Node, c: Node)
    requires Climbs(up, id) && OnlyUp(g, id, up) && b in id && b != ENTRY && IsMeet(g, id, up, b, c)
    ensures b in up && c != up[b] ==> SlackOf(b, up[b := c], id) < SlackOf(b, up, id)
    ensures b !in up ==> SlackOf(b, up[b := c], id) < SlackOf(b, up, id)
  {
    if b in up {
      MeetMovesUp(g, id, up, b, c);
      AncBasics(up, id, Up(up, b));
    }
  }

  lemma StableStep(g: Graph, id: Numbering, up: Tree, b: Node)
    requires Climbs(up, id) && Injective(id) && b in up && StableAbove(g, id, up, id[b])
    requires b != ENTRY && IsMeet(g, id, up, b, Up(up, b))
    ensures StableAbove(g, id, up, id[b] as int - 1)
  {
    forall y | y in up && y != ENTRY && id[y] > id[b] as int - 1 ensures IsMeet(g, id, up, y, Up(up, y)) {
      assert SameNumber(id, y, b) ==> y == b;
    }
  }

  lemma MeetOfList(g: Cfg, id: Numbering, up: Tree, b: Node, pred: Node, c: Node)
    requires g.Valid() && Climbs(up, id) && c in up && b < |g.preds| && pred in g.preds[b] && pred in up
    requires CommonAnc(up, id, g.preds[b], |g.preds[b]|, pred, c)
    ensures IsMeet(g.Edges(), id, up, b, c)
  {
    var ps := g.preds[b];
    forall p ensures Edge(g.Edges(), p, b) <==> p in ps {
      g.EdgeLists(p, b);
    }
    forall z ensures z in Anc(up, id, c) <==> AbovePreds(g.Edges(), id, up, b, z) {
      if z in Anc(up, id, c) {
        forall p | p in up && Edge(g.Edges(), p, b) ensures z in Anc(up, id, p) {
          var j :| 0 <= j < |ps| && ps[j] == p;
        }
      }
    }
  }

  /** `order` lists the numbered blocks from the entry down. */
  ghost predicate CountsDown(order: seq<Node>, id: Numbering) {
    && order != [] && ENTRY in id && order[0] == ENTRY
    && (forall x :: x in id ==> id[x] < |order|)
    && (forall k :: 0 <= k < |order| ==> order[k] in id && id[order[k]] == |order| - 1 - k)
  }

  /** One sweep, begun at `start`, before it handles position k of the order. */
  ghost predicate SweepAt(g: Graph, id: Numbering, par: Tree, order: seq<Node>, start: Tree, up: Tree, changed: bool,
                          k: nat)
  {
    && CountsDown(order, id) && k <= |order|
    && PassAt(g, id, par, up, |order| - 1 - k)
    && (if changed then Slack(order, up, id) < Slack(order, start, id)
        else up == start && StableAbove(g, id, up, |order| - 1 - k))
  }

  lemma SweepStarts(g: Graph, id: Numbering, par: Tree, order: seq<Node>, up: Tree)
    requires CountsDown(order, id) && PassAt(g, id, par, up, id[ENTRY])
    ensures SweepAt(g, id, par, order, up, up, false, 0)
  {
    assert id[order[0]] == |order| - 1;
    forall y | y in up && y != ENTRY ensures id[y] <= |order| - 1 {}
  }

  lemma SweepSkipsEntry(g: Graph, id: Numbering, par: Tree, order: seq<Node>, start: Tree, up: Tree, changed: bool,
                        k: nat)
    requires SweepAt(g, id, par, order, start, up, changed, k) && k < |order| && order[k] == ENTRY
    ensures SweepAt(g, id, par, order, start, up, changed, k + 1)
  {
    assert id[order[0]] == id[order[k]];
    forall x | x in id && id[x] > |order| - 2 ensures x in up {
      assert SameNumber(id, x, ENTRY) ==> x == ENTRY;
    }
    SweptPastEntry(id, par, up);
  }

  lemma SweptPastEntry(id: Numbering, par: Tree, up: Tree)
    requires Climbs(up, id) && Swept(id, par, up, id[ENTRY])
    ensures Swept(id, par, up, id[ENTRY] as int - 1)
  {
    forall y | y in up && y != ENTRY ensures SweptAt(id, par, up, y, id[ENTRY] as int - 1) {
      assert SweptAt(id, par, up, y, id[ENTRY]);
      assert id[y] < id[Up(up, y)];
    }
  }

  /** The depth-first parent is placed before its child is handled, so the
      `assert(pred)` of the block loop never fires. */
  lemma SweepHasPlacedPred(g: Graph, id: Numbering, par: Tree, order: seq<Node>, start: Tree, up: Tree, changed: bool,
                           k: nat)
    requires SweepAt(g, id, par, order, start, up, changed, k) && k < |order| && order[k] != ENTRY
    ensures Up(par, order[k]) in up && Edge(g, Up(par, order[k]), order[k])
  {
  }

  lemma SameUpdate(up: Tree, b: Node, c: Node)
    requires b in up && up[b] == c
    ensures up[b := c] == up
  {
  }

  lemma SweepStep(g: Graph, id: Numbering, par: Tree, order: seq<Node>, start: Tree, up: Tree, changed: bool, k: nat,
                  c: Node)
    requires SweepAt(g, id, par, order, start, up, changed, k) && k < |order| && order[k] != ENTRY
    requires IsMeet(g, id, up, order[k], c)
    ensures if order[k] in up && up[order[k]] == c then SweepAt(g, id, par, order, start, up, changed, k + 1)
            else SweepAt(g, id, par, order, start, up[order[k] := c], true, k + 1)
  {
    var b := order[k];
    PassStep(g, id, par, up, b, c);
    if b in up && up[b] == c {
      SameUpdate(up, b, c);
      if !changed {
        StableStep(g, id, up, b);
      }
    } else {
      SlackDrops(order, up, id, b, c);
    }
  }

  lemma SweepEnds(g: Graph, id: Numbering, par: Tree, order: seq<Node>, start: Tree, up: Tree, changed: bool)
    requires SweepAt(g, id, par, order, start, up, changed, |order|)
    ensures PassAt(g, id, par, up, id[ENTRY])
    ensures up.Keys == id.Keys
  {
    SweptRestarts(id, par, up);
  }
}
