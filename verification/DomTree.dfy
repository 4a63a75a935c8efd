/** Candidate dominator trees, stored like `idom_`: every placed block maps to
    its parent, the entry to itself. Post-order numbers grow towards the entry. */
module DomTree {
  import opened Graphs

  type Tree = map<Node, Node>
  type Numbering = map<Node, nat>

  /** `get_idom`, with an unplaced block standing for itself. */
  function Up(up: Tree, b: Node): Node {
    if b in up then up[b] else b
  }

  ghost predicate Climbs(up: Tree, id: Numbering) {
    && ENTRY in up && Up(up, ENTRY) == ENTRY && up.Keys <= id.Keys
    && (forall b :: b in up ==> id[b] <= id[ENTRY])
    && (forall b {:trigger Up(up, b)} :: b in up && b != ENTRY ==> Up(up, b) in up && id[b] < id[Up(up, b)])
  }

  ghost predicate Injective(id: Numbering) {
    forall a, b {:trigger SameNumber(id, a, b)} :: a in id && b in id && SameNumber(id, a, b) ==> a == b
  }

  ghost predicate SameNumber(id: Numbering, a: Node, b: Node)
    requires a in id && b in id
  {
    id[a] == id[b]
  }

  /** The idom chain of b as a set, b and the entry included. */
  ghost function Anc(up: Tree, id: Numbering, b: Node): set<Node>
    requires Climbs(up, id) && b in up
    decreases id[ENTRY] - id[b]
  {
    if b == ENTRY then {ENTRY} else {b} + Anc(up, id, Up(up, b))
  }

  lemma {:induction false} AncBasics(up: Tree, id: Numbering, b: Node)
    requires Climbs(up, id) && b in up
    ensures b in Anc(up, id, b) && ENTRY in Anc(up, id, b)
    ensures Anc(up, id, b) <= up.Keys
    ensures forall x :: x in Anc(up, id, b) ==> x in up && id[b] <= id[x] <= id[ENTRY]
    ensures forall x :: x in Anc(up, id, b) && x != b ==> id[b] < id[x]
    decreases id[ENTRY] - id[b]
  {
    if b != ENTRY {
      AncBasics(up, id, Up(up, b));
    }
  }

  lemma {:induction false} AncTrans(up: Tree, id: Numbering, a: Node, b: Node)
    requires Climbs(up, id) && b in up && a in Anc(up, id, b)
    ensures a in up && Anc(up, id, a) <= Anc(up, id, b)
    decreases id[ENTRY] - id[b]
  {
    if b != ENTRY && a != b {
      AncTrans(up, id, a, Up(up, b));
    }
  }

  /** An idom chain is linearly ordered by post-order number. */
  lemma {:induction false} AncChain(up: Tree, id: Numbering, x: Node, y: Node, b: Node)
    requires Climbs(up, id) && b in up
    requires x in Anc(up, id, b) && y in Anc(up, id, b)
    requires x in up && y in up && (id[x] < id[y] || x == y)
    ensures y in Anc(up, id, x)
    decreases id[ENTRY] - id[b]
  {
    AncBasics(up, id, b);
    if x != b {
      AncChain(up, id, x, y, Up(up, b));
    }
  }

  /** If every parent in `up` lies on the `par` chain, so does every ancestor. */
  lemma {:induction false} AncWithin(up: Tree, par: Tree, id: Numbering, b: Node)
    requires Climbs(up, id) && Climbs(par, id) && up.Keys <= par.Keys && b in up
    requires forall y :: y in up ==> Up(up, y) in Anc(par, id, y)
    ensures Anc(up, id, b) <= Anc(par, id, b)
    decreases id[ENTRY] - id[b]
  {
    if b != ENTRY {
      AncWithin(up, par, id, Up(up, b));
      AncTrans(par, id, Up(up, b), b);
    }
    AncBasics(par, id, b);
  }

  /** Re-parenting b leaves the part of every chain at or below b's number alone. */
  lemma {:induction false} AncUpdateLow(up: Tree, id: Numbering, b: Node, c: Node, y: Node, x: Node)
    requires Climbs(up, id) && Climbs(up[b := c], id) && b != ENTRY && y in up
    requires x in id && b in id && id[x] <= id[b]
    ensures x in Anc(up[b := c], id, y) <==> x in Anc(up, id, y)
    decreases id[ENTRY] - id[y]
  {
    if y == b {
      AncBasics(up, id, b);
      AncBasics(up[b := c], id, b);
    } else if y != ENTRY {
      AncUpdateLow(up, id, b, c, Up(up, y), x);
    }
  }

  /** Chains that avoid b are not touched by re-parenting b. */
  lemma {:induction false} AncUpdateOther(up: Tree, id: Numbering, b: Node, c: Node, y: Node)
    requires Climbs(up, id) && Climbs(up[b := c], id) && b != ENTRY && y in up
    requires b !in Anc(up, id, y)
    ensures Anc(up[b := c], id, y) == Anc(up, id, y)
    decreases id[ENTRY] - id[y]
  {
    AncBasics(up, id, y);
    if y != ENTRY {
      AncUpdateOther(up, id, b, c, Up(up, y));
    }
  }

  /** Moving b up its own chain only shrinks chains. */
  lemma {:induction false} AncUpdateShrinks(up: Tree, id: Numbering, b: Node, c: Node, y: Node)
    requires Climbs(up, id) && Climbs(up[b := c], id) && b != ENTRY && y in up && b in up
    requires c in Anc(up, id, Up(up, b))
    ensures Anc(up[b := c], id, y) <= Anc(up, id, y)
    decreases id[ENTRY] - id[y]
  {
    if y == b {
      AncTrans(up, id, c, Up(up, b));
      AncBasics(up, id, Up(up, b));
      AncBasics(up, id, c);
      AncUpdateOther(up, id, b, c, c);
    } else if y != ENTRY {
      AncUpdateShrinks(up, id, b, c, Up(up, y));
    }
  }

  /** Two pairs of blocks have the same common ancestors. */
  ghost predicate SameMeet(up: Tree, id: Numbering, x: Node, y: Node, b1: Node, b2: Node)
    requires Climbs(up, id) && x in up && y in up && b1 in up && b2 in up
  {
    Anc(up, id, x) * Anc(up, id, y) == Anc(up, id, b1) * Anc(up, id, b2)
  }

  /** The lower of two fingers may climb without losing a common ancestor. */
  lemma SameMeetStep(up: Tree, id: Numbering, x: Node, y: Node, b1: Node, b2: Node)
    requires Climbs(up, id) && x in up && y in up && b1 in up && b2 in up
    requires id[x] < id[y] && SameMeet(up, id, x, y, b1, b2)
    ensures x != ENTRY && up[x] in up && id[x] < id[up[x]] <= id[ENTRY]
    ensures SameMeet(up, id, up[x], y, b1, b2) && SameMeet(up, id, y, up[x], b1, b2)
  {
    AncBasics(up, id, y);
    assert Up(up, x) == up[x];
  }

  /** The chain of c holds exactly what the chain of pred shares with the chains of
      the placed blocks among the first k of ps. */
  ghost predicate CommonAnc(up: Tree, id: Numbering, ps: seq<Node>, k: nat, pred: Node, c: Node)
    requires Climbs(up, id) && c in up && pred in up && k <= |ps|
  {
    forall z :: z in Anc(up, id, c) <==>
      z in Anc(up, id, pred) && forall j :: 0 <= j < k && ps[j] in up ==> z in Anc(up, id, ps[j])
  }

  lemma CommonAncStep(up: Tree, id: Numbering, ps: seq<Node>, k: nat, pred: Node, c: Node, d: Node)
    requires Climbs(up, id) && c in up && d in up && pred in up && k < |ps| && CommonAnc(up, id, ps, k, pred, c)
    requires if ps[k] != pred && ps[k] in up then Anc(up, id, d) == Anc(up, id, ps[k]) * Anc(up, id, c) else d == c
    ensures CommonAnc(up, id, ps, k + 1, pred, d)
  {
  }
}
