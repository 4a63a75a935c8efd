/** The loop search for one function: Tarjan's search, the choice of a base for every
    component, and the rounds that remove bases to find inner loops. */
module LoopSearch {
  import opened Wrappers
  import opened Graphs
  import opened ControlFlow
  import opened Tarjan
  import opened LoopNest
  import opened ParentLoop

  // ------------------------------------------------------ the remaining graph

  /** Neighbour sets of the remaining nodes, as erasing the removed bases leaves them.
      A removed base keeps its edges into the nodes that were left at the time. */
  ghost predicate GraphAt(g: Graph, nodes: set<Node>, succs: Graph, prevs: Graph, reserved: set<Node>) {
    && nodes <= g.Keys && succs.Keys == g.Keys && prevs.Keys == g.Keys && reserved == g.Keys - nodes
    && (forall x: Node, y: Node {:trigger y in succs[x]} :: x in nodes ==>
      (y in succs[x] <==> Edge(g, x, y) && y in nodes))
    && (forall x: Node, y: Node {:trigger y in prevs[x]} :: x in nodes ==>
      (y in prevs[x] <==> Edge(g, y, x) && y in nodes))
    && (forall r: Node, y: Node {:trigger y in succs[r]} :: r in reserved && y in nodes ==>
      (y in succs[r] <==> Edge(g, r, y)))
  }

  /** `m` is `before` with x erased from the sets of the nodes in `from`. */
  ghost predicate Erased(before: Graph, m: Graph, from: set<Node>, x: Node) {
    && m.Keys == before.Keys
    && forall n: Node, y: Node {:trigger y in m[n]} :: n in m ==>
      (y in m[n] <==> y in before[n] && !(n in from && y == x))
  }

  lemma ErasedOne(before: Graph, m: Graph, from: set<Node>, x: Node, n: Node)
    requires Erased(before, m, from, x) && n in m
    ensures Erased(before, m[n := m[n] - {x}], from + {n}, x)
  {
  }

  lemma BaseErased(g: Graph, nodes: set<Node>, succs: Graph, prevs: Graph, reserved: set<Node>,
                   base: Node, succs2: Graph, prevs2: Graph)
    requires Closed(g) && GraphAt(g, nodes, succs, prevs, reserved) && base in nodes
    requires Erased(prevs, prevs2, succs[base], base) && Erased(succs, succs2, prevs2[base], base)
    ensures GraphAt(g, nodes - {base}, succs2, prevs2, reserved + {base})
  {
  }

  lemma WithinIsSuccs(g: Graph, nodes: set<Node>, succs: Graph, prevs: Graph, reserved: set<Node>)
    requires Closed(g) && GraphAt(g, nodes, succs, prevs, reserved)
    ensures Closed(Within(g, nodes)) && Within(g, nodes).Keys == nodes
    ensures forall x :: x in nodes ==> succs[x] == Within(g, nodes)[x]
  {
    var small := Within(g, nodes);
    forall x | x in nodes ensures succs[x] == small[x] {
      forall y ensures y in succs[x] <==> y in small[x] {
        assert y in small[x] <==> Edge(small, x, y);
      }
    }
  }

  /** Low links of nodes visited before stay, but for those in `but`. */
  ghost predicate LinksKept(index: map<Node, nat>, before: map<Node, nat>, after: map<Node, nat>, but: set<Node>) {
    forall x {:trigger after[x]} {:trigger x in after} :: x in index && x in before && x !in but ==>
      x in after && after[x] == before[x]
  }

  lemma LinksKeptSinceEntry(index: map<Node, nat>, index1: map<Node, nat>, before: map<Node, nat>, low1: map<Node, nat>,
                            after: map<Node, nat>, n: Node)
    requires n !in index && index.Keys <= index1.Keys && n in low1 && low1 == before[n := low1[n]]
    requires LinksKept(index1, low1, after, {n})
    ensures LinksKept(index, before, after, {})
  {
  }

  // ----------------------------------------------------------- the loop tables

  ghost predicate LastHolding(loops: seq<Loop>, b: Node, i: nat) {
    i < |loops| && b in loops[i].body && forall j :: i < j < |loops| ==> b !in loops[j].body
  }

  ghost predicate Holds(loops: seq<Loop>, b: Node) {
    exists i :: 0 <= i < |loops| && b in loops[i].body
  }

  /** The three maps and the set of loops say what was recorded, the last loop winning in
      bb2base. */
  ghost predicate TablesAre(loops: seq<Loop>, loopSet: set<set<Node>>, base2loop: map<Node, set<Node>>,
                            loop2base: map<set<Node>, Node>, bb2base: map<Node, Node>) {
    && BodiesAre(loops, loopSet) && KeyedBy(loops, base2loop, loop2base) && LastWins(loops, bb2base)
  }

  ghost predicate KeyedBy(loops: seq<Loop>, base2loop: map<Node, set<Node>>, loop2base: map<set<Node>, Node>) {
    && (forall i {:trigger loops[i]} :: 0 <= i < |loops| ==>
          && loops[i].base in base2loop && base2loop[loops[i].base] == loops[i].body
          && loops[i].body in loop2base && loop2base[loops[i].body] == loops[i].base)
    && (forall b {:trigger b in base2loop} :: b in base2loop ==> exists i :: 0 <= i < |loops| && loops[i].base == b)
    && (forall c {:trigger c in loop2base} :: c in loop2base ==> exists i :: 0 <= i < |loops| && loops[i].body == c)
  }

  ghost predicate LastWins(loops: seq<Loop>, bb2base: map<Node, Node>) {
    && (forall b {:trigger b in bb2base} :: b in bb2base <==> Holds(loops, b))
    && (forall b {:trigger bb2base[b]} :: b in bb2base ==>
      exists i: nat :: LastHolding(loops, b, i) && bb2base[b] == loops[i].base)
  }

  /** `insert` keeps an entry that is there already. */
  function Insert<K, V>(m: map<K, V>, k: K, v: V): map<K, V> {
    if k in m then m else m[k := v]
  }

  lemma InsertKeeps<K, V>(m: map<K, V>, k: K, v: V)
    ensures var r := Insert(m, k, v);
      r.Keys == m.Keys + {k} && (forall x :: x in m ==> r[x] == m[x]) && (k !in m ==> r[k] == v)
  {
  }

  ghost predicate MappedTo(before: map<Node, Node>, after: map<Node, Node>, body: set<Node>, base: Node) {
    && after.Keys == before.Keys + body
    && forall b :: b in after ==> after[b] == if b in body then base else before[b]
  }

  lemma TablesGrow(loops: seq<Loop>, loopSet: set<set<Node>>, base2loop: map<Node, set<Node>>,
                   loop2base: map<set<Node>, Node>, bb2base: map<Node, Node>, l: Loop, bb2base2: map<Node, Node>)
    requires TablesAre(loops, loopSet, base2loop, loop2base, bb2base)
    requires forall i :: 0 <= i < |loops| ==> loops[i].base != l.base && loops[i].body != l.body
    requires MappedTo(bb2base, bb2base2, l.body, l.base)
    ensures TablesAre(loops + [l], loopSet + {l.body}, Insert(base2loop, l.base, l.body),
      Insert(loop2base, l.body, l.base), bb2base2)
  {
    SetGrows(loops, loopSet, l);
    LastTablesGrow(loops, bb2base, l, bb2base2);
    KeysGrow(loops, base2loop, loop2base, l);
  }

  lemma SetGrows(loops: seq<Loop>, loopSet: set<set<Node>>, l: Loop)
    requires BodiesAre(loops, loopSet)
    ensures BodiesAre(loops + [l], loopSet + {l.body})
  {
    var loops2 := loops + [l];
    forall c ensures c in loopSet + {l.body} <==> exists i :: 0 <= i < |loops2| && loops2[i].body == c {
      if c in loopSet {
        var i :| 0 <= i < |loops| && loops[i].body == c;
        assert loops2[i].body == c;
      }
      assert loops2[|loops|].body == l.body;
    }
  }

  lemma KeysGrow(loops: seq<Loop>, base2loop: map<Node, set<Node>>, loop2base: map<set<Node>, Node>, l: Loop)
    requires KeyedBy(loops, base2loop, loop2base)
    requires forall i :: 0 <= i < |loops| ==> loops[i].base != l.base && loops[i].body != l.body
    ensures KeyedBy(loops + [l], Insert(base2loop, l.base, l.body), Insert(loop2base, l.body, l.base))
  {
    assert l.base !in base2loop && l.body !in loop2base;
    var loops2 := loops + [l];
    assert loops2[|loops|] == l;
    forall b | b in base2loop ensures exists i :: 0 <= i < |loops2| && loops2[i].base == b {
      var i :| 0 <= i < |loops| && loops[i].base == b;
      assert loops2[i].base == b;
    }
    forall c | c in loop2base ensures exists i :: 0 <= i < |loops2| && loops2[i].body == c {
      var i :| 0 <= i < |loops| && loops[i].body == c;
      assert loops2[i].body == c;
    }
  }

  lemma LastTablesGrow(loops: seq<Loop>, bb2base: map<Node, Node>, l: Loop, bb2base2: map<Node, Node>)
    requires LastWins(loops, bb2base) && MappedTo(bb2base, bb2base2, l.body, l.base)
    ensures LastWins(loops + [l], bb2base2)
  {
    var loops2 := loops + [l];
    assert loops2[|loops|] == l;
    forall b ensures Holds(loops2, b) <==> Holds(loops, b) || b in l.body {
      if Holds(loops, b) {
        var i :| 0 <= i < |loops| && b in loops[i].body;
        assert b in loops2[i].body;
      }
    }
    forall b | b in bb2base2 ensures exists i: nat :: LastHolding(loops2, b, i) && bb2base2[b] == loops2[i].base {
      if b in l.body {
        assert LastHolding(loops2, b, |loops|);
      } else {
        var i: nat :| LastHolding(loops, b, i) && bb2base[b] == loops[i].base;
        assert LastHolding(loops2, b, i);
      }
    }
  }

  /** The loop recorded last among those holding b lies in all of them. */
  lemma LastIsInnermost(loops: seq<Loop>, b: Node, i: nat, k: nat)
    requires Nest(loops) && LastHolding(loops, b, i) && k < |loops| && b in loops[k].body
    ensures loops[i].body <= loops[k].body
  {
    assert k <= i;
    assert k < i ==> NestedOrApart(loops[k], loops[i]);
  }

  class LoopSearch {
    var nodes: set<Node>
    var succs: Graph
    var prevs: Graph
    var reserved: set<Node>

    var indexCount: nat
    var index: map<Node, nat>
    var lowlink: map<Node, nat>
    var onStack: set<Node>
    var stack: seq<Node>
    var sccs: set<set<Node>>

    var loopSet: set<set<Node>>
    var base2loop: map<Node, set<Node>>
    var loop2base: map<set<Node>, Node>
    var bb2base: map<Node, Node>

    ghost var gray: set<Node>
    ghost var loops: seq<Loop>

    constructor ()
      ensures TablesOk() && loops == []
    {
      nodes, succs, prevs, reserved := {}, map[], map[], {};
      indexCount, index, lowlink, onStack, stack, sccs := 0, map[], map[], {}, [], {};
      loopSet, base2loop, loop2base, bb2base := {}, map[], map[], map[];
      gray, loops := {}, [];
    }

    /** `build_cfg` */
    method BuildCfg(cfg: Cfg)
      requires cfg.Valid()
      modifies this`nodes, this`succs, this`prevs, this`reserved, this`index, this`lowlink, this`onStack
      ensures GraphAt(cfg.Edges(), nodes, succs, prevs, reserved) && nodes == cfg.Edges().Keys && index == map[] &&
        onStack == {}
    {
      succs := map b | 0 <= b < |cfg.succs| :: set s | s in cfg.succs[b];
      nodes, reserved := succs.Keys, {};
      index, lowlink, onStack := map[], map[], {};
      prevs := map b | 0 <= b < |cfg.preds| :: set p | p in cfg.preds[b];
      forall x: Node, y: Node ensures Edge(cfg.Edges(), x, y) <==> x < |cfg.succs| && y in cfg.succs[x] {
        cfg.EdgeLists(x, y);
      }
      forall x: Node, y: Node | y in nodes ensures Edge(cfg.Edges(), x, y) <==> x in cfg.preds[y] {
        cfg.EdgeLists(x, y);
      }
    }

    // ------------------------------------------------------------ Tarjan

    ghost function Now(): Search
      reads this`index, this`indexCount, this`stack, this`gray
    {
      Search(index, indexCount, stack, gray)
    }

    ghost predicate SuccsAre(g: Graph)
      reads this`succs
    {
      forall x :: x in g ==> x in succs && succs[x] == g[x]
    }

    ghost predicate Searching(g: Graph)
      reads this`stack, this`onStack, this`index, this`indexCount, this`gray, this`sccs
    {
      && onStack == Elements(stack) && Found(g, Now(), sccs)
    }

    /** The component of n leaves the stack. */
    method PopComponent(n: Node, ghost bottom: seq<Node>) returns (component: set<Node>)
      requires bottom + [n] <= stack && forall i :: 0 <= i < |stack| && stack[i] == n ==> i == |bottom|
      modifies this`stack, this`onStack
      ensures stack == bottom && component == Elements(old(stack)[|bottom|..])
      ensures onStack == old(onStack) - component
    {
      ghost var k := |stack| - 1;
      assert stack[|bottom|] == n by { assert (bottom + [n])[|bottom|] == n; }
      var tmp := stack[|stack| - 1];
      onStack, component, stack := onStack - {tmp}, {tmp}, stack[..|stack| - 1];
      while tmp != n
        invariant |bottom| <= k < |old(stack)| && stack == old(stack)[..k] && tmp == old(stack)[k]
        invariant component == Elements(old(stack)[k..])
        invariant onStack == old(onStack) - component
        decreases k
      {
        assert old(stack)[k - 1..] == [old(stack)[k - 1]] + old(stack)[k..];
        tmp := stack[|stack| - 1];
        onStack, component, stack := onStack - {tmp}, component + {tmp}, stack[..|stack| - 1];
        k := k - 1;
      }
    }

    /** One successor of n. */
    method HandleSuccessor(g: Graph, n: Node, su: Node, ghost s0: Search, ghost seen: set<Node>)
      requires SuccsAre(g) && Edge(g, n, su) && n in lowlink && Visiting(g, s0, Now(), n, seen, lowlink[n]) &&
        Searching(g)
      modifies this`index, this`indexCount, this`lowlink, this`onStack, this`stack, this`sccs, this`gray
      ensures n in lowlink && Visiting(g, s0, Now(), n, seen + {su}, lowlink[n]) && Searching(g)
      ensures LinksKept(old(index), old(lowlink), lowlink, {n}) && old(index).Keys <= index.Keys
      decreases g.Keys - index.Keys, 1
    {
      ghost var s, low := Now(), lowlink[n];
      if su !in index {
        ChildMayBeVisited(g, s0, s, n, seen, low, su);
        Traverse(g, su);
        ChildVisited(g, s0, s, Now(), n, seen, low, su, lowlink[su]);
        lowlink := lowlink[n := Min(lowlink[su], lowlink[n])];
      } else {
        SuccessorSeen(g, s0, s, n, seen, low, su);
        assert su in onStack <==> su in stack;
        if su in onStack {
          lowlink := lowlink[n := Min(index[su], lowlink[n])];
        }
      }
    }

    /** The loop over the successors of n. */
    method TraverseSuccessors(g: Graph, n: Node, ghost s0: Search)
      requires SuccsAre(g) && n in g && n in lowlink && Visiting(g, s0, Now(), n, {}, lowlink[n]) && Searching(g)
      modifies this`index, this`indexCount, this`lowlink, this`onStack, this`stack, this`sccs, this`gray
      ensures n in lowlink && Visiting(g, s0, Now(), n, g[n], lowlink[n]) && Searching(g)
      ensures LinksKept(old(index), old(lowlink), lowlink, {n})
      decreases g.Keys - index.Keys, 2
    {
      var todo := succs[n];
      ghost var seen: set<Node> := {};
      while todo != {}
        invariant todo <= g[n] && seen == g[n] - todo
        invariant n in lowlink && Visiting(g, s0, Now(), n, seen, lowlink[n]) && Searching(g)
        invariant old(index).Keys <= index.Keys && LinksKept(old(index), old(lowlink), lowlink, {n})
        decreases todo
      {
        var su :| su in todo;
        HandleSuccessor(g, n, su, s0, seen);
        todo, seen := todo - {su}, seen + {su};
      }
      assert seen == g[n];
    }

    /** The end of `traverse`: a component root takes its component off the stack. */
    method LeaveNode(g: Graph, n: Node, ghost s0: Search)
      requires n in g && n in lowlink && Visiting(g, s0, Now(), n, g[n], lowlink[n]) && Searching(g)
      modifies this`onStack, this`stack, this`sccs, this`gray
      ensures Visited(g, s0, Now(), n, lowlink[n]) && Searching(g)
    {
      ghost var s, low := Now(), lowlink[n];
      if index[n] == lowlink[n] {
        LeavesStack(g, s0, s, n, low);
        SegmentIsScc(g, s0, s, n, low);
        StackSplits(g, s0, s, n);
        var component := PopComponent(n, s0.stack);
        gray := s0.gray;
        assert Now() == Search(s.num, s.count, s0.stack, s0.gray);
        FoundMore(g, s, Now(), sccs, n);
        if |component| != 1 {
          sccs := sccs + {component};
        }
      } else {
        StaysOnStack(g, s0, s, n, low);
        gray := s0.gray;
        assert Now() == s.(gray := s0.gray);
        FoundKept(g, s, Now(), sccs);
      }
    }

    /** The beginning of `traverse`. */
    method EnterNode(g: Graph, n: Node)
      requires MayVisit(g, Now(), n) && Searching(g)
      modifies this`index, this`indexCount, this`lowlink, this`onStack, this`stack, this`gray
      ensures Now() == Pushed(old(Now()), n) && Searching(g)
      ensures lowlink == old(lowlink)[n := old(indexCount)]
    {
      ghost var s0 := Now();
      assert Elements(stack + [n]) == Elements(stack) + {n};
      index, lowlink := index[n := indexCount], lowlink[n := indexCount];
      indexCount := indexCount + 1;
      stack, onStack := stack + [n], onStack + {n};
      gray := gray + {n};
      FoundKept(g, s0, Now(), sccs);
    }

    /** `traverse` */
    method Traverse(g: Graph, n: Node)
      requires SuccsAre(g) && MayVisit(g, Now(), n) && Searching(g)
      modifies this`index, this`indexCount, this`lowlink, this`onStack, this`stack, this`sccs, this`gray
      ensures n in lowlink && Visited(g, old(Now()), Now(), n, lowlink[n]) && Searching(g)
      ensures LinksKept(old(index), old(lowlink), lowlink, {})
      decreases g.Keys - index.Keys, 0
    {
      ghost var s0 := Now();
      VisitBegins(g, s0, n);
      EnterNode(g, n);
      ghost var index1, low1 := index, lowlink;
      TraverseSuccessors(g, n, s0);
      LinksKeptSinceEntry(old(index), index1, old(lowlink), low1, lowlink, n);
      LeaveNode(g, n, s0);
    }

    /** `strongly_connected_components`: the remaining nodes in any order. */
    method StronglyConnectedComponents(g: Graph) returns (found: bool)
      requires Closed(g) && SuccsAre(g) && nodes == g.Keys && index == map[] && onStack == {} && sccs == {}
      modifies this`index, this`indexCount, this`lowlink, this`onStack, this`stack, this`sccs, this`gray
      ensures AreComponents(g, sccs) && (found <==> sccs != {})
    {
      indexCount, stack, gray := 0, [], {};
      SearchStarts(g);
      var todo := nodes;
      while todo != {}
        invariant Inv(g, Now()) && gray == {} && Searching(g)
        invariant todo <= nodes && nodes - todo <= index.Keys
        decreases todo
      {
        var n :| n in todo;
        if n !in index {
          Traverse(g, n);
        }
        todo := todo - {n};
      }
      SearchEnds(g, Now(), sccs);
      found := sccs != {};
    }

    // ----------------------------------------------------------- peeling

    /** `find_loop_base`: a block entered from outside, along an edge that is left or
        along one of a removed base. */
    method FindLoopBase(ghost g: Graph, component: set<Node>) returns (base: Option<Node>)
      requires Closed(g) && GraphAt(g, nodes, succs, prevs, reserved) && component <= nodes
      ensures base.Some? ==> Entered(g, component, base.value)
      ensures base.None? ==> forall b :: !Entered(g, component, b)
    {
      base := None;
      var todo := component;
      while todo != {}
        invariant todo <= component && (base.Some? ==> Entered(g, component, base.value))
        invariant base.None? ==> forall n :: n in component - todo ==> prevs[n] <= component
        decreases todo
      {
        var n :| n in todo;
        var left := prevs[n];
        while left != {}
          invariant left <= prevs[n] && (base.Some? ==> Entered(g, component, base.value))
          invariant base.None? ==> prevs[n] - left <= component
          invariant base.None? ==> forall m :: m in component - todo ==> prevs[m] <= component
          decreases left
        {
          var prev :| prev in left;
          if prev !in component {
            assert Edge(g, prev, n);
            base := Some(n);
          }
          left := left - {prev};
        }
        todo := todo - {n};
      }
      if base.None? {
        base := FindInReserved(g, component);
      }
    }

    /** The second half of `find_loop_base`. */
    method FindInReserved(ghost g: Graph, component: set<Node>) returns (base: Option<Node>)
      requires Closed(g) && GraphAt(g, nodes, succs, prevs, reserved) && component <= nodes
      requires forall n :: n in component ==> prevs[n] <= component
      ensures base.Some? ==> Entered(g, component, base.value)
      ensures base.None? ==> forall b :: !Entered(g, component, b)
    {
      base := None;
      var todo := reserved;
      while todo != {}
        invariant todo <= reserved && (base.Some? ==> Entered(g, component, base.value))
        invariant base.None? ==> forall r :: r in reserved - todo ==> succs[r] !! component
        decreases todo
      {
        var res :| res in todo;
        var left := succs[res];
        while left != {}
          invariant left <= succs[res] && (base.Some? ==> Entered(g, component, base.value))
          invariant base.None? ==> (succs[res] - left) !! component
          invariant base.None? ==> forall r :: r in reserved - todo ==> succs[r] !! component
          decreases left
        {
          var succ :| succ in left;
          if succ in component {
            assert Edge(g, res, succ);
            base := Some(succ);
          }
          left := left - {succ};
        }
        todo := todo - {res};
      }
      if base.None? {
        forall b, x | b in component && x !in component ensures !Edge(g, x, b) {
          assert x in nodes ==> x !in prevs[b];
          assert x in reserved ==> b !in succs[x];
        }
      }
    }

    /** Step 5: every block of the loop now belongs to its base. */
    method MapToBase(body: set<Node>, base: Node)
      modifies this`bb2base
      ensures MappedTo(old(bb2base), bb2base, body, base)
    {
      var todo := body;
      while todo != {}
        invariant todo <= body && MappedTo(old(bb2base), bb2base, body - todo, base)
        decreases todo
      {
        var bb :| bb in todo;
        bb2base := bb2base[bb := base];
        todo := todo - {bb};
      }
      assert body - todo == body;
    }

    ghost predicate TablesOk()
      reads this`loops, this`loopSet, this`base2loop, this`loop2base, this`bb2base
    {
      TablesAre(loops, loopSet, base2loop, loop2base, bb2base)
    }

    /** Steps 4 and 5: record the loop. */
    method Record(body: set<Node>, base: Node)
      requires TablesOk() && forall i :: 0 <= i < |loops| ==> loops[i].base != base && loops[i].body != body
      modifies this`loops, this`loopSet, this`base2loop, this`loop2base, this`bb2base
      ensures TablesOk() && loops == old(loops) + [Loop(body, base)]
    {
      loopSet := loopSet + {body};
      base2loop := Insert(base2loop, base, body);
      loop2base := Insert(loop2base, body, base);
      MapToBase(body, base);
      MapToBase(body, base);
      TablesGrow(loops, old(loopSet), old(base2loop), old(loop2base), old(bb2base), Loop(body, base), bb2base);
      loops := loops + [Loop(body, base)];
    }

    /** Erases the base from its successors' predecessors. */
    method EraseFromSuccessors(base: Node)
      requires base in succs && succs[base] <= prevs.Keys
      modifies this`prevs
      ensures Erased(old(prevs), prevs, succs[base], base)
    {
      var todo := succs[base];
      while todo != {}
        invariant todo <= succs[base] && Erased(old(prevs), prevs, succs[base] - todo, base)
        decreases todo
      {
        var su :| su in todo;
        ErasedOne(old(prevs), prevs, succs[base] - todo, base, su);
        assert succs[base] - (todo - {su}) == succs[base] - todo + {su};
        prevs := prevs[su := prevs[su] - {base}];
        todo := todo - {su};
      }
      assert succs[base] - todo == succs[base];
    }

    /** Erases the base from its predecessors' successors. */
    method EraseFromPredecessors(base: Node)
      requires base in prevs && prevs[base] <= succs.Keys
      modifies this`succs
      ensures Erased(old(succs), succs, prevs[base], base)
    {
      var todo := prevs[base];
      while todo != {}
        invariant todo <= prevs[base] && Erased(old(succs), succs, prevs[base] - todo, base)
        decreases todo
      {
        var prev :| prev in todo;
        ErasedOne(old(succs), succs, prevs[base] - todo, base, prev);
        assert prevs[base] - (todo - {prev}) == prevs[base] - todo + {prev};
        succs := succs[prev := succs[prev] - {base}];
        todo := todo - {prev};
      }
      assert prevs[base] - todo == prevs[base];
    }

    /** Step 6: take the base out of the graph. */
    method RemoveBase(ghost g: Graph, base: Node)
      requires Closed(g) && GraphAt(g, nodes, succs, prevs, reserved) && base in nodes
      modifies this`nodes, this`succs, this`prevs, this`reserved
      ensures GraphAt(g, nodes, succs, prevs, reserved) && nodes == old(nodes) - {base}
    {
      reserved, nodes := reserved + {base}, nodes - {base};
      EraseFromSuccessors(base);
      EraseFromPredecessors(base);
      BaseErased(g, old(nodes), old(succs), old(prevs), old(reserved), base, succs, prevs);
    }

    ghost predicate PeelingOk(g: Graph, round: set<Node>, todo: set<set<Node>>)
      reads this`nodes, this`succs, this`prevs, this`reserved, this`loops, this`loopSet, this`base2loop, this`loop2base,
        this`bb2base
    {
      Closed(g) && GraphAt(g, nodes, succs, prevs, reserved) && TablesOk() && RoundAt(g, round, nodes, todo, loops)
    }

    /** Steps 3 to 6 for one component. ok is false where the base is null, which is so
        only for a component of the graph that no edge enters. */
    method PeelComponent(ghost g: Graph, ghost round: set<Node>, ghost todo: set<set<Node>>,
                         scc: set<Node>) returns (ok: bool)
      requires PeelingOk(g, round, todo) && scc in todo
      modifies this`nodes, this`succs, this`prevs, this`reserved, this`loops, this`loopSet, this`base2loop,
        this`loop2base, this`bb2base
      ensures ok ==> PeelingOk(g, round, todo - {scc}) && nodes < old(nodes)
      ensures ok <==> exists b :: Entered(g, scc, b)
      ensures !ok ==> !ComponentsEntered(g)
    {
      ComponentIsEntered(g, round, scc);
      var base := FindLoopBase(g, scc);
      ok := base.Some?;
      if ok {
        PeelOne(g, round, nodes, todo, loops, scc, base.value);
        NewLoopDiffers(g, round, nodes, loops, scc, base.value);
        Record(scc, base.value);
        RemoveBase(g, base.value);
      }
    }

    /** Steps 3 to 6 for every component of a round, in any order. */
    method PeelRound(ghost g: Graph) returns (ok: bool)
      requires PeelingOk(g, nodes, sccs) && sccs != {}
      modifies this`nodes, this`succs, this`prevs, this`reserved, this`loops, this`loopSet, this`base2loop,
        this`loop2base, this`bb2base
      ensures ok ==> PeelingOk(g, old(nodes), {}) && nodes < old(nodes)
      ensures !ok ==> !ComponentsEntered(g)
    {
      ok := true;
      var todo := sccs;
      while todo != {}
        invariant todo <= sccs && PeelingOk(g, old(nodes), todo)
        invariant nodes <= old(nodes) && (todo != sccs ==> nodes < old(nodes))
        decreases todo
      {
        var scc :| scc in todo;
        ok := PeelComponent(g, old(nodes), todo, scc);
        if !ok {
          return;
        }
        todo := todo - {scc};
      }
    }

    ghost predicate RoundReady(g: Graph, found: bool)
      reads this`nodes, this`succs, this`prevs, this`reserved, this`loops, this`loopSet, this`base2loop, this`loop2base,
        this`bb2base, this`sccs
    {
      PeelingOk(g, nodes, sccs) && (found <==> sccs != {}) && AreComponents(Within(g, nodes), sccs)
    }

    /** Steps 1 and the first search of step 2. */
    method FirstSearch(cfg: Cfg) returns (found: bool)
      requires cfg.Valid() && TablesOk() && loops == []
      modifies this`nodes, this`succs, this`prevs, this`reserved
      modifies this`index, this`indexCount, this`lowlink, this`onStack, this`stack, this`sccs, this`gray
      ensures RoundReady(cfg.Edges(), found)
    {
      BuildCfg(cfg);
      forall a, b | Edge(cfg.Edges(), a, b) ensures b in cfg.Edges() {
        cfg.EdgeLists(a, b);
      }
      sccs := {};
      found := SearchRemaining(cfg.Edges());
      FirstRound(cfg.Edges(), sccs);
    }

    /** The end of a round and the search that decides about the next one. */
    method NextSearch(ghost g: Graph, ghost round: set<Node>) returns (found: bool)
      requires PeelingOk(g, round, {})
      modifies this`index, this`indexCount, this`lowlink, this`onStack, this`stack, this`sccs, this`gray
      ensures RoundReady(g, found)
    {
      sccs := {};
      index, lowlink, onStack := map[], map[], {};
      found := SearchRemaining(g);
      NextRound(g, round, nodes, loops, sccs);
    }

    /** One round and the search that decides about the next one. */
    method NextRoundOrEnd(ghost g: Graph) returns (ok: bool, found: bool)
      requires RoundReady(g, true)
      modifies this
      ensures ok ==> RoundReady(g, found) && nodes < old(nodes)
      ensures !ok ==> !ComponentsEntered(g)
    {
      found := false;
      ok := PeelRound(g);
      if ok {
        found := NextSearch(g, old(nodes));
      }
    }

    /** `LoopSearch::run` on one function. ok is false where some base is null: exactly when
        a component of two blocks or more is not entered from outside. */
    method Run(cfg: Cfg) returns (ok: bool)
      requires cfg.Valid() && TablesOk() && loops == []
      modifies this
      ensures ok ==> TablesOk() && IsLoopForest(cfg.Edges(), loops)
      ensures ok ==> forall c :: c in loopSet <==> IsInnerComponent(cfg.Edges(), loops, c)
      ensures ok <==> ComponentsEntered(cfg.Edges())
    {
      ghost var g := cfg.Edges();
      ok := true;
      var found := FirstSearch(cfg);
      while found
        invariant RoundReady(g, found)
        decreases nodes
      {
        ok, found := NextRoundOrEnd(g);
        if !ok {
          return;
        }
      }
      SearchIsOver(g, nodes, loops);
      assert forall c :: c in loopSet <==> Recorded(loops, c);
    }

    /** One evaluation of the outer loop's condition. */
    method SearchRemaining(ghost g: Graph) returns (found: bool)
      requires Closed(g) && GraphAt(g, nodes, succs, prevs, reserved) && index == map[] && onStack == {} && sccs == {}
      modifies this`index, this`indexCount, this`lowlink, this`onStack, this`stack, this`sccs, this`gray
      ensures AreComponents(Within(g, nodes), sccs) && (found <==> sccs != {})
    {
      WithinIsSuccs(g, nodes, succs, prevs, reserved);
      var remaining := map n | n in nodes :: succs[n];
      assert remaining == Within(g, nodes);
      found := StronglyConnectedComponents(remaining);
    }

    /** `get_inner_loop`: null for a block in no loop, otherwise a recorded loop that lies
        in every recorded loop holding the block. */
    method GetInnerLoop(bb: Node) returns (r: Option<set<Node>>)
      requires TablesOk() && Nest(loops)
      ensures r.None? <==> forall l :: l in loopSet ==> bb !in l
      ensures r.Some? ==> r.value in loopSet && bb in r.value && forall l :: l in loopSet && bb in l ==> r.value <= l
    {
      if bb !in bb2base {
        r := None;
        assert !Holds(loops, bb);
      } else {
        ghost var i: nat :| LastHolding(loops, bb, i) && bb2base[bb] == loops[i].base;
        r := Some(base2loop[bb2base[bb]]);
        forall l | l in loopSet && bb in l ensures r.value <= l {
          var k :| 0 <= k < |loops| && loops[k].body == l;
          LastIsInnermost(loops, bb, i, k);
        }
      }
    }

    /** `get_parent_loop`: decided by the first predecessor of the base outside the loop,
        and right iff no loop encloses this one or that predecessor leads to the least one
        that does. */
    method GetParentLoop(cfg: Cfg, ghost i: nat, loop: set<Node>) returns (r: Option<set<Node>>)
      requires TablesOk() && Nest(loops) && i < |loops| && loops[i].body == loop && loops[i].base in loop
      requires loops[i].base < |cfg.preds|
      ensures var ps := cfg.preds[loops[i].base];
        || (r.None? && forall j :: 0 <= j < |ps| ==> ps[j] in loop)
        || exists k :: 0 <= k < |ps| && ps[k] !in loop && (forall j :: 0 <= j < k ==> ps[j] in loop) &&
             IsAnswer(loopSet, loops[i].base, ps[k], r)
      ensures r.Some? ==> loop < r.value
      ensures var ps := cfg.preds[loops[i].base];
        IsRight(loopSet, loop, r) <==>
          || !HasParent(loopSet, loop)
          || exists k :: 0 <= k < |ps| && ps[k] !in loop && (forall j :: 0 <= j < k ==> ps[j] in loop) &&
               LeadsToParent(loopSet, loop, loops[i].base, ps[k])
    {
      r := None;
      var base := loop2base[loop];
      var ps := cfg.preds[base];
      for k := 0 to |ps|
        invariant r == None && forall j :: 0 <= j < k ==> ps[j] in loop
      {
        if ps[k] !in loop {
          r := GetInnerLoop(ps[k]);
          if r.Some? && base !in r.value {
            assert Hidden(loopSet, base, ps[k]);
            r := None;
          }
          LookupIsRightIff(loops, loopSet, i, ps, k, r);
          return;
        }
      }
      AnswerIsRightIff(loops, loopSet, i, None, r);
    }
  }

  lemma NewLoopDiffers(g: Graph, round: set<Node>, nodes: set<Node>, loops: seq<Loop>, c: set<Node>, b: Node)
    requires (forall i :: 0 <= i < |loops| ==> LoopKept(g, round, nodes, loops[i])) && c <= nodes && b in c
    ensures forall i :: 0 <= i < |loops| ==> loops[i].base != b && loops[i].body != c
  {
    forall i | 0 <= i < |loops| ensures loops[i].base != b && loops[i].body != c {
      assert LoopKept(g, round, nodes, loops[i]);
    }
  }

  lemma StackSplits(g: Graph, s0: Search, s: Search, n: Node)
    requires Shape(g, s) && s0.stack + [n] <= s.stack
    ensures Elements(s0.stack) == Elements(s.stack) - Segment(s0, s) &&
      Segment(s0, s) == Elements(s.stack[|s0.stack|..])
    ensures forall i :: 0 <= i < |s.stack| && s.stack[i] == n ==> i == |s0.stack|
  {
    OnceOnStack(g, s0, s, n);
    forall x ensures x in s0.stack <==> x in s.stack && x !in Segment(s0, s) {
      SegmentOrOlder(s0, s, x);
      if x in Segment(s0, s) {
        SegmentIsNew(g, s0, s, x);
      }
    }
  }

  lemma OnceOnStack(g: Graph, s0: Search, s: Search, n: Node)
    requires Shape(g, s) && s0.stack + [n] <= s.stack
    ensures forall i :: 0 <= i < |s.stack| && s.stack[i] == n ==> i == |s0.stack|
  {
    assert s.stack[|s0.stack|] == n by { assert (s0.stack + [n])[|s0.stack|] == n; }
  }
}
