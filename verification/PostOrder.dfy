/** The depth-first post-order numbering: a functional account of
    `post_order_visit` and what the finished numbering satisfies. */
module PostOrder {
  import opened Graphs
  import opened ControlFlow
  import opened DomTree
  import opened IdomFixpoint

  /** `order` lists the numbered blocks by increasing number. */
  ghost predicate InOrder(order: seq<Node>, id: Numbering) {
    && (forall x :: x in id <==> x in order)
    && (forall i :: 0 <= i < |order| ==> order[i] in id && id[order[i]] == i)
  }

  lemma InOrderBelow(order: seq<Node>, id: Numbering)
    requires InOrder(order, id)
    ensures forall x :: x in id ==> id[x] < |order| && order[id[x]] == x
  {
    forall x | x in id ensures id[x] < |order| && order[id[x]] == x {
      var i :| 0 <= i < |order| && order[i] == x;
    }
  }

  /** `par` makes `young` a tree below `root`, numbered upwards; `root` may still
      lack its number. */
  ghost predicate DfsTree(g: Graph, young: set<Node>, root: Node, par: Tree, id: Numbering) {
    forall x :: x in young && x != root ==>
      && x in par && x in id && par[x] in young && Edge(g, par[x], x)
      && (par[x] in id ==> id[x] < id[par[x]])
      && (par[x] !in id ==> par[x] == root)
  }

  lemma DfsTreeJoin(g: Graph, xs: set<Node>, root: Node, par: Tree, id: Numbering,
                    young: set<Node>, b: Node, par2: Tree, id2: Numbering)
    requires DfsTree(g, xs, root, par, id) && DfsTree(g, young, b, par2, id2)
    requires root in xs && root !in id2 && b in id2 && b in par2 && par2[b] == root && Edge(g, root, b)
    requires Extends(par, par2, xs) && Extends(id, id2, id.Keys)
    requires young <= id2.Keys
    ensures DfsTree(g, xs + young, root, par2, id2)
  {
  }

  ghost predicate SuccsIn(g: Graph, xs: set<Node>, ys: set<Node>) {
    forall x, s :: x in xs && Edge(g, x, s) ==> s in ys
  }

  ghost predicate AllReachedFrom(g: Graph, b: Node, xs: set<Node>) {
    forall x :: x in xs ==> Reaches(g, b, x)
  }

  ghost predicate Extends(older: Tree, newer: Tree, xs: set<Node>) {
    forall x :: x in xs && x in older ==> x in newer && newer[x] == older[x]
  }

  /** A snapshot of the depth-first search. */
  datatype Dfs = Dfs(order: seq<Node>, id: Numbering, par: Tree, visited: set<Node>)

  /** `post_order_visit(b)` from state `st`. */
  ghost function Visit(g: Cfg, b: Node, st: Dfs): (r: Dfs)
    requires g.Valid() && b in g.Edges() && b !in st.visited && st.visited <= g.Edges().Keys
    ensures st.visited < r.visited <= g.Edges().Keys
    decreases g.Edges().Keys - st.visited, 0
  {
    var r := VisitSuccs(g, b, 0, st.(visited := st.visited + {b}));
    r.(order := r.order + [b], id := r.id[b := |r.order|])
  }

  /** The loop over the successors of b from position k on. */
  ghost function VisitSuccs(g: Cfg, b: Node, k: nat, st: Dfs): (r: Dfs)
    requires g.Valid() && b in g.Edges() && k <= |g.succs[b]| && st.visited <= g.Edges().Keys
    ensures st.visited <= r.visited <= g.Edges().Keys
    decreases g.Edges().Keys - st.visited, |g.succs[b]| - k
  {
    if k == |g.succs[b]| then st
    else
      var s := g.succs[b][k];
      g.EdgeLists(b, s);
      VisitSuccs(g, b, k + 1, if s in st.visited then st else Visit(g, s, st.(par := st.par[s := b])))
  }

  ghost predicate DfsStart(a: Dfs, root: Node) {
    root !in a.visited && InOrder(a.order, a.id) && a.id.Keys <= a.visited
  }

  /** Between a and z exactly the blocks `more` were numbered. */
  ghost predicate Counted(a: Dfs, z: Dfs, more: set<Node>) {
    && InOrder(z.order, z.id) && a.order <= z.order
    && z.id.Keys == a.id.Keys + more && Extends(a.id, z.id, a.id.Keys)
  }

  /** Between a and z exactly the blocks `young` were met, all from `root`; the
      successors of `closed` have been looked at. */
  ghost predicate Explored(g: Graph, root: Node, a: Dfs, z: Dfs, young: set<Node>, closed: set<Node>) {
    && root in young && young !! a.visited && z.visited == a.visited + young
    && Extends(a.par, z.par, a.visited + {root})
    && DfsTree(g, young, root, z.par, z.id)
    && SuccsIn(g, closed, z.visited) && AllReachedFrom(g, root, young)
  }

  /** The search from `root`, entered at `a`, has come to `z` with `root` still open. */
  ghost predicate Open(g: Graph, root: Node, a: Dfs, z: Dfs, young: set<Node>) {
    Counted(a, z, young - {root}) && Explored(g, root, a, z, young, young - {root})
  }

  /** The search from `root`, entered at `a`, has returned at `z`. */
  ghost predicate Finished(g: Graph, root: Node, a: Dfs, z: Dfs, young: set<Node>) {
    && Counted(a, z, young) && Explored(g, root, a, z, young, young)
    && z.order != [] && z.order[|z.order| - 1] == root
  }

  lemma OpenStart(g: Graph, root: Node, a: Dfs)
    requires DfsStart(a, root)
    ensures Open(g, root, a, a.(visited := a.visited + {root}), {root})
  {
    ReachesSelf(g, root);
  }

  lemma CountedTrans(a: Dfs, b: Dfs, c: Dfs, xs: set<Node>, ys: set<Node>)
    requires Counted(a, b, xs) && Counted(b, c, ys)
    ensures Counted(a, c, xs + ys)
  {
  }

  lemma ExploredStep(g: Graph, root: Node, a: Dfs, z: Dfs, young: set<Node>, b: Node, y: Dfs, younger: set<Node>)
    requires Explored(g, root, a, z, young, young - {root}) && Edge(g, root, b) && b !in z.visited
    requires Explored(g, b, z.(par := z.par[b := root]), y, younger, younger)
    requires Extends(z.id, y.id, z.id.Keys) && root !in y.id && younger <= y.id.Keys && young - {root} <= z.id.Keys
    ensures Explored(g, root, a, y, young + younger, young + younger - {root})
  {
    forall x | x in younger ensures Reaches(g, root, x) {
      ReachesEdge(g, root, b);
      ReachesTrans(g, root, b, x);
    }
    assert y.par[b] == root;
    DfsTreeJoin(g, young, root, z.par, z.id, younger, b, y.par, y.id);
  }

  lemma OpenStep(g: Graph, root: Node, a: Dfs, z: Dfs, young: set<Node>, b: Node, y: Dfs, younger: set<Node>)
    requires DfsStart(a, root) && Open(g, root, a, z, young) && Edge(g, root, b) && b !in z.visited
    requires Finished(g, b, z.(par := z.par[b := root]), y, younger)
    ensures Open(g, root, a, y, young + younger)
  {
    CountedTrans(a, z, y, young - {root}, younger);
    assert young - {root} + younger == young + younger - {root};
    ExploredStep(g, root, a, z, young, b, y, younger);
  }

  lemma CountedClose(a: Dfs, z: Dfs, root: Node, more: set<Node>)
    requires Counted(a, z, more) && root !in z.id && root !in more
    ensures Counted(a, z.(order := z.order + [root], id := z.id[root := |z.order|]), more + {root})
  {
    InOrderBelow(z.order, z.id);
  }

  lemma OpenClose(g: Graph, root: Node, a: Dfs, z: Dfs, young: set<Node>)
    requires DfsStart(a, root) && Open(g, root, a, z, young)
    requires forall s :: Edge(g, root, s) ==> s in z.visited
    ensures Finished(g, root, a, z.(order := z.order + [root], id := z.id[root := |z.order|]), young)
  {
    InOrderBelow(z.order, z.id);
    CountedClose(a, z, root, young - {root});
    assert young - {root} + {root} == young;
  }

  function Reversed(s: seq<Node>): (r: seq<Node>)
    ensures |r| == |s| && forall i :: 0 <= i < |s| ==> r[i] == s[|s| - 1 - i]
  {
    seq(|s|, i requires 0 <= i < |s| => s[|s| - 1 - i])
  }

  lemma {:induction false} VisitFinishes(g: Cfg, b: Node, a: Dfs)
    requires g.Valid() && b in g.Edges() && a.visited <= g.Edges().Keys && DfsStart(a, b)
    ensures Finished(g.Edges(), b, a, Visit(g, b, a), Visit(g, b, a).visited - a.visited)
    decreases g.Edges().Keys - a.visited, 0
  {
    OpenStart(g.Edges(), b, a);
    var z := a.(visited := a.visited + {b});
    VisitSuccsOpen(g, b, 0, a, z, {b});
    var y := VisitSuccs(g, b, 0, z);
    forall s | Edge(g.Edges(), b, s) ensures s in y.visited {
      g.EdgeLists(b, s);
    }
    OpenClose(g.Edges(), b, a, y, y.visited - a.visited);
  }

  lemma {:induction false} VisitSuccsOpen(g: Cfg, b: Node, k: nat, a: Dfs, z: Dfs, young: set<Node>)
    requires g.Valid() && b in g.Edges() && k <= |g.succs[b]| && z.visited <= g.Edges().Keys
    requires DfsStart(a, b) && Open(g.Edges(), b, a, z, young)
    ensures var y := VisitSuccs(g, b, k, z); Open(g.Edges(), b, a, y, y.visited - a.visited)
    ensures forall j :: k <= j < |g.succs[b]| ==> g.succs[b][j] in VisitSuccs(g, b, k, z).visited
    decreases g.Edges().Keys - z.visited, |g.succs[b]| - k + 1
  {
    if k == |g.succs[b]| {
      assert young == z.visited - a.visited;
    } else {
      var s, next := g.succs[b][k], k + 1;
      g.EdgeLists(b, s);
      if s in z.visited {
        VisitSuccsOpen(g, b, next, a, z, young);
      } else {
        var y := Visit(g, s, z.(par := z.par[s := b]));
        VisitSuccOpen(g, b, s, a, z, young);
        VisitSuccsOpen(g, b, next, a, y, young + (y.visited - z.visited));
      }
    }
  }

  lemma {:induction false} VisitSuccOpen(g: Cfg, b: Node, s: Node, a: Dfs, z: Dfs, young: set<Node>)
    requires g.Valid() && Edge(g.Edges(), b, s) && s in g.Edges() && z.visited <= g.Edges().Keys
    requires DfsStart(a, b) && Open(g.Edges(), b, a, z, young) && s !in z.visited
    ensures var y := Visit(g, s, z.(par := z.par[s := b])); Open(g.Edges(), b, a, y, young + (y.visited - z.visited))
    decreases g.Edges().Keys - z.visited, 1
  {
    var z1 := z.(par := z.par[s := b]);
    assert DfsStart(z1, s);
    VisitFinishes(g, s, z1);
    var y := Visit(g, s, z1);
    OpenStep(g.Edges(), b, a, z, young, s, y, y.visited - z.visited);
  }

  /** A finished search from the entry has met exactly the reachable blocks. */
  lemma MetIsReachable(g: Graph, a: Dfs, z: Dfs, young: set<Node>)
    requires a.visited == {} && Explored(g, ENTRY, a, z, young, young)
    ensures forall b {:trigger Reaches(g, ENTRY, b)} :: b in young <==> Reaches(g, ENTRY, b)
  {
    forall b | Reaches(g, ENTRY, b) ensures b in young {
      var p :| WalkBetween(g, p, ENTRY, b);
      ReachesStaysIn(g, young, ENTRY, p, b);
    }
  }

  lemma TreeClimbs(g: Graph, young: set<Node>, par: Tree, order: seq<Node>, id: Numbering, tree: Tree)
    requires DfsTree(g, young, ENTRY, par, id) && InOrder(order, id) && id.Keys == young
    requires order != [] && order[|order| - 1] == ENTRY && ENTRY in par && par[ENTRY] == ENTRY
    requires young <= par.Keys && tree == map x | x in young :: par[x]
    ensures Climbs(tree, id) && Injective(id) && CountsDown(Reversed(order), id)
    ensures forall b {:trigger Up(tree, b)} :: b in young && b != ENTRY ==> Edge(g, Up(tree, b), b)
  {
    InOrderBelow(order, id);
    assert id[ENTRY] == |order| - 1;
  }

  /** The search numbers exactly the reachable blocks, injectively, the entry highest
      and each other block below its depth-first parent. */
  lemma NumberingComplete(g: Graph, a: Dfs, z: Dfs, young: set<Node>)
    requires a == Dfs([], map[], map[ENTRY := ENTRY], {}) && Finished(g, ENTRY, a, z, young)
    ensures young == z.id.Keys && young <= z.par.Keys
    ensures Numbered(g, z.id, map x | x in young :: z.par[x]) && CountsDown(Reversed(z.order), z.id)
  {
    MetIsReachable(g, a, z, young);
    forall x | x in young ensures x in z.par {
      assert x != ENTRY ==> z.par[x] in young;
    }
    TreeClimbs(g, young, z.par, z.order, z.id, map x | x in young :: z.par[x]);
  }
}
