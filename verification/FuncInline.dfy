/** The inliner's recursion check and its scan over main: why it ends, and that what it
    leaves are exactly the calls it may not expand. */
module FuncInline {
  import opened Graphs
  import opened CallCycles

  /** All the inliner's decisions depend on: which instructions call what. */
  datatype Item = CallTo(fn: Node) | Other

  type Block = seq<Item>

  datatype Program = Program(funcs: seq<seq<Block>>, main: Node)

  const MAX_INLINE_BB := 4
  const MAX_INLINE_INST := 5

  ghost predicate Calls(p: Program, a: Node, b: Node) {
    a < |p.funcs| && exists k :: 0 <= k < |p.funcs[a]| && CallTo(b) in p.funcs[a][k]
  }

  ghost predicate ValidProgram(p: Program) {
    p.main < |p.funcs| && forall a: Node, b: Node {:trigger Calls(p, a, b)} :: Calls(p, a, b) ==> b < |p.funcs|
  }

  predicate IsLarge(p: Program, f: Node)
    requires f < |p.funcs|
  {
    |p.funcs[f]| > MAX_INLINE_BB
  }

  /** `func_succ`: who calls which function of at most four blocks. */
  ghost predicate SuccsAre(p: Program, g: Graph) {
    forall a: Node, b: Node {:trigger Edge(g, a, b)} :: Edge(g, a, b) <==>
      b < |p.funcs| && !IsLarge(p, b) && Calls(p, a, b)
  }

  /** The marks of the recursion check. */
  ghost predicate MarksAre(p: Program, g: Graph, recursive: set<Node>) {
    forall s {:trigger s in recursive} :: s in recursive <==> IsBack(g, {}, p.main, s)
  }

  /** A program with its call graph, its ignored and its recursive functions. */
  datatype Checked = Checked(p: Program, g: Graph, ignored: set<Node>, recursive: set<Node>)

  ghost predicate IsChecked(c: Checked) {
    && ValidProgram(c.p) && SuccsAre(c.p, c.g) && MarksAre(c.p, c.g, c.recursive)
    && (forall f: Node {:trigger f in c.ignored} :: f in c.ignored <==> f < |c.p.funcs| && IsLarge(c.p, f))
  }

  /** One to four blocks, each of at most five instructions. */
  ghost predicate IsSmall(p: Program, fn: Node) {
    && fn < |p.funcs| && 1 <= |p.funcs[fn]| <= 4
    && forall k :: 0 <= k < |p.funcs[fn]| ==> |p.funcs[fn][k]| <= 5
  }

  /** w is a simple path of calls from main to functions of at most four blocks, and its
      end calls fn, which has at most four blocks and lies on w. */
  ghost predicate LeadsBackTo(p: Program, fn: Node, w: seq<Node>) {
    && w != [] && w[0] == p.main && Simple(w) && Calls(p, w[|w| - 1], fn) && fn in w
    && fn < |p.funcs| && |p.funcs[fn]| <= 4
    && forall i, j {:trigger w[i], w[j]} :: 0 <= i && j == i + 1 && j < |w| ==>
         Calls(p, w[i], w[j]) && w[j] < |p.funcs| && |p.funcs[w[j]]| <= 4
  }

  ghost predicate IsLedBackTo(p: Program, fn: Node) {
    exists w :: LeadsBackTo(p, fn, w)
  }

  /** A call to fn is expanded. */
  ghost predicate Inlinable(c: Checked, fn: Node) {
    IsSmall(c.p, fn) && !IsLedBackTo(c.p, fn)
  }

  /** The recursion check marks the functions that some path from main leads back to. */
  lemma MarkedIff(c: Checked, fn: Node)
    requires IsChecked(c)
    ensures fn in c.recursive <==> IsLedBackTo(c.p, fn)
  {
    if fn in c.recursive {
      var w :| LeadsBack(c.g, {}, c.p.main, fn, w);
      PathHasCalls(c, fn, w);
    }
    if IsLedBackTo(c.p, fn) {
      var w :| LeadsBackTo(c.p, fn, w);
      PathHasEdges(c, fn, w);
    }
  }

  lemma PathHasCalls(c: Checked, fn: Node, w: seq<Node>)
    requires IsChecked(c) && LeadsBack(c.g, {}, c.p.main, fn, w)
    ensures LeadsBackTo(c.p, fn, w)
  {
    forall i, j | 0 <= i && j == i + 1 && j < |w|
      ensures Calls(c.p, w[i], w[j]) && w[j] < |c.p.funcs| && |c.p.funcs[w[j]]| <= 4
    {
      assert Edge(c.g, w[i], w[j]);
    }
    assert Edge(c.g, w[|w| - 1], fn);
  }

  lemma PathHasEdges(c: Checked, fn: Node, w: seq<Node>)
    requires IsChecked(c) && LeadsBackTo(c.p, fn, w)
    ensures LeadsBack(c.g, {}, c.p.main, fn, w)
  {
    forall i, j | 0 <= i && j == i + 1 && j < |w| ensures Edge(c.g, w[i], w[j]) {
      assert Calls(c.p, w[i], w[j]);
    }
  }

  // --------------------------------------------- calls that are expanded nest

  /** Calls to functions that may be inlined. */
  ghost function Kept(c: Checked): (r: Graph)
    ensures forall a: Node, b: Node {:trigger Edge(r, a, b)} :: Edge(r, a, b) <==>
      Calls(c.p, a, b) && Inlinable(c, b)
  {
    map a: Node | 0 <= a < |c.p.funcs| :: KeptCallees(c, a)
  }

  ghost function KeptCallees(c: Checked, a: Node): set<Node> {
    set b: Node {:trigger Calls(c.p, a, b)} | 0 <= b < |c.p.funcs| && Calls(c.p, a, b) && Inlinable(c, b)
  }

  ghost predicate IsExpanded(c: Checked, s: Node) {
    exists t :: Edge(Kept(c), t, s)
  }

  lemma {:induction false} KeptWalkIsWalk(c: Checked, w: seq<Node>, a: Node, b: Node)
    requires IsChecked(c) && WalkBetween(Kept(c), w, a, b)
    ensures WalkBetween(c.g, w, a, b)
  {
    forall i, j | 0 <= i && j == i + 1 && j < |w| ensures Edge(c.g, w[i], w[j]) {
      assert Edge(Kept(c), w[i], w[j]);
    }
  }

  lemma KeptReaches(c: Checked, x: Node)
    requires IsChecked(c) && Reaches(Kept(c), c.p.main, x)
    ensures Reaches(c.g, c.p.main, x)
  {
    var w :| WalkBetween(Kept(c), w, c.p.main, x);
    KeptWalkIsWalk(c, w, c.p.main, x);
  }

  /** A cycle of inlinable calls that main reaches would hold a marked function. */
  lemma KeptCycleIsMarked(c: Checked, x: Node, y: Node)
    requires IsChecked(c) && Reaches(Kept(c), c.p.main, x) && Edge(Kept(c), x, y) && Reaches(Kept(c), y, x)
    ensures exists s :: IsExpanded(c, s) && s in c.recursive
  {
    var w :| WalkBetween(Kept(c), w, y, x);
    var on := set z | z in w;
    forall z | z in on ensures HasSuccessorIn(c.g, on, z) && IsExpanded(c, z) {
      OnKeptCycle(c, w, x, y, on, z);
    }
    KeptReaches(c, x);
    assert w[|w| - 1] in on;
    var s := OnCycleMarked(c, on, x);
  }

  lemma OnCycleMarked(c: Checked, on: set<Node>, x: Node) returns (s: Node)
    requires IsChecked(c) && x in on && Reaches(c.g, c.p.main, x) && forall y :: y in on ==> HasSuccessorIn(c.g, on, y)
    ensures s in on && s in c.recursive
  {
    CyclesAreMarked(c.g, c.p.main, on, x);
    s :| s in on && IsBack(c.g, {}, c.p.main, s);
  }

  lemma ExpandedIsUnmarked(c: Checked, s: Node)
    requires IsChecked(c) && IsExpanded(c, s)
    ensures s !in c.recursive
  {
    MarkedIff(c, s);
  }

  /** No function that main reaches through inlinable calls reaches itself that way. */
  lemma NoKeptCycle(c: Checked, x: Node, y: Node)
    requires IsChecked(c) && Reaches(Kept(c), c.p.main, x) && Edge(Kept(c), x, y)
    ensures !Reaches(Kept(c), y, x)
  {
    if Reaches(Kept(c), y, x) {
      KeptCycleIsMarked(c, x, y);
      var s :| IsExpanded(c, s) && s in c.recursive;
      ExpandedIsUnmarked(c, s);
    }
  }

  lemma OnKeptCycle(c: Checked, w: seq<Node>, x: Node, y: Node, on: set<Node>, z: Node)
    requires IsChecked(c) && WalkBetween(Kept(c), w, y, x) && Edge(Kept(c), x, y) && z in w && on == set n | n in w
    ensures HasSuccessorIn(c.g, on, z) && IsExpanded(c, z)
  {
    var k := Kept(c);
    var i :| 0 <= i < |w| && w[i] == z;
    var next := if i + 1 < |w| then w[i + 1] else y;
    assert Edge(k, z, next) && next in on && Edge(c.g, z, next);
    assert i > 0 ==> Edge(k, w[i - 1], w[i]);
  }

  ghost function ReachSet(c: Checked, x: Node): set<Node> {
    set y | 0 <= y < |c.p.funcs| && Reaches(Kept(c), x, y)
  }

  ghost function Rank(c: Checked, x: Node): nat {
    |ReachSet(c, x)|
  }

  /** An expanded call leads to a function of smaller rank. */
  lemma RankDrops(c: Checked, x: Node, y: Node)
    requires IsChecked(c) && Reaches(Kept(c), c.p.main, x) && Edge(Kept(c), x, y)
    ensures Rank(c, y) < Rank(c, x) && Reaches(Kept(c), c.p.main, y)
  {
    var k := Kept(c);
    NoKeptCycle(c, x, y);
    ReachesStep(k, c.p.main, x, y);
    ReachesSelf(k, x);
    ReachesEdge(k, x, y);
    forall z | z in ReachSet(c, y) ensures z in ReachSet(c, x) {
      ReachesTrans(k, x, y, z);
    }
    assert x in ReachSet(c, x) && x !in ReachSet(c, y);
    ProperSubsetCard(ReachSet(c, y), ReachSet(c, x), x);
  }

  lemma ProperSubsetCard(s: set<Node>, t: set<Node>, x: Node)
    requires s <= t && x in t && x !in s
    ensures |s| < |t|
  {
    SubsetCard(s, t - {x});
  }

  // ----------------------------------------------------- weights and leaf calls

  ghost function Flat(blocks: seq<Block>): seq<Item> {
    if blocks == [] then [] else Flat(blocks[..|blocks| - 1]) + blocks[|blocks| - 1]
  }

  ghost predicate ItemOk(c: Checked, x: Item, r: nat) {
    x.CallTo? && Inlinable(c, x.fn) ==> Called(c, x.fn) && Rank(c, x.fn) < r
  }

  /** Some function that main reaches through inlinable calls calls fn that way. */
  ghost predicate Called(c: Checked, fn: Node) {
    exists a :: Reaches(Kept(c), c.p.main, a) && Edge(Kept(c), a, fn)
  }

  /** main itself never is, so the body copied is never the one that is changing. */
  lemma CalledIsNotMain(c: Checked, fn: Node)
    requires IsChecked(c) && Called(c, fn)
    ensures fn != c.p.main && Reaches(Kept(c), c.p.main, fn)
  {
    var a :| Reaches(Kept(c), c.p.main, a) && Edge(Kept(c), a, fn);
    ReachesStep(Kept(c), c.p.main, a, fn);
    NoKeptCycle(c, a, fn);
  }

  /** Every inlinable call in the items is one main can reach, of rank below r. */
  ghost predicate Expandable(c: Checked, items: seq<Item>, r: nat) {
    forall i {:trigger items[i]} :: 0 <= i < |items| ==> ItemOk(c, items[i], r)
  }

  lemma {:induction false} FlatHolds(blocks: seq<Block>, x: Item)
    ensures x in Flat(blocks) <==> exists k :: 0 <= k < |blocks| && x in blocks[k]
  {
    if blocks != [] {
      FlatHolds(blocks[..|blocks| - 1], x);
    }
  }

  /** The body of a function main can reach is expandable below the function's rank. */
  lemma BodyExpandable(c: Checked, x: Node)
    requires IsChecked(c) && x < |c.p.funcs| && Reaches(Kept(c), c.p.main, x)
    ensures Expandable(c, Flat(c.p.funcs[x]), Rank(c, x))
  {
    var items := Flat(c.p.funcs[x]);
    forall i | 0 <= i < |items| ensures ItemOk(c, items[i], Rank(c, x)) {
      if items[i].CallTo? && Inlinable(c, items[i].fn) {
        FlatHolds(c.p.funcs[x], items[i]);
        assert Calls(c.p, x, items[i].fn) && Edge(Kept(c), x, items[i].fn);
        RankDrops(c, x, items[i].fn);
      }
    }
  }

  /** Weight of the items: an inlinable call weighs one more than its callee's body. */
  ghost function Weight(c: Checked, items: seq<Item>, r: nat): nat
    requires IsChecked(c) && Expandable(c, items, r)
    decreases r, |items|
  {
    if items == [] then 0
    else
      var init, x := items[..|items| - 1], items[|items| - 1];
      Weight(c, init, r) + ItemWeight(c, x, r)
  }

  ghost function ItemWeight(c: Checked, x: Item, r: nat): nat
    requires IsChecked(c) && ItemOk(c, x, r)
    decreases r, 0
  {
    if x.CallTo? && Inlinable(c, x.fn) then
      CalledIsNotMain(c, x.fn);
      BodyExpandable(c, x.fn);
      1 + Weight(c, Flat(c.p.funcs[x.fn]), Rank(c, x.fn))
    else 0
  }

  /** The calls that full expansion leaves. */
  ghost function Leaves(c: Checked, items: seq<Item>, r: nat): multiset<Node>
    requires IsChecked(c) && Expandable(c, items, r)
    decreases r, |items|
  {
    if items == [] then multiset{}
    else
      var init, x := items[..|items| - 1], items[|items| - 1];
      Leaves(c, init, r) + ItemLeaves(c, x, r)
  }

  ghost function ItemLeaves(c: Checked, x: Item, r: nat): multiset<Node>
    requires IsChecked(c) && ItemOk(c, x, r)
    decreases r, 0
  {
    if x.Other? then multiset{}
    else if Inlinable(c, x.fn) then
      CalledIsNotMain(c, x.fn);
      BodyExpandable(c, x.fn);
      Leaves(c, Flat(c.p.funcs[x.fn]), Rank(c, x.fn))
    else multiset{x.fn}
  }

  lemma {:induction false} ExpansionJoins(c: Checked, xs: seq<Item>, ys: seq<Item>, r: nat)
    requires IsChecked(c) && Expandable(c, xs, r) && Expandable(c, ys, r)
    ensures Expandable(c, xs + ys, r)
    ensures Weight(c, xs + ys, r) == Weight(c, xs, r) + Weight(c, ys, r)
    ensures Leaves(c, xs + ys, r) == Leaves(c, xs, r) + Leaves(c, ys, r)
    decreases |ys|
  {
    if ys == [] {
      assert xs + ys == xs;
    } else {
      var init, y := ys[..|ys| - 1], ys[|ys| - 1];
      assert (xs + ys)[..|xs + ys| - 1] == xs + init;
      ExpansionJoins(c, xs, init, r);
    }
  }

  /** The bound is only there for termination. */
  lemma {:induction false} ExpansionBound(c: Checked, xs: seq<Item>, r1: nat, r2: nat)
    requires IsChecked(c) && Expandable(c, xs, r1) && r1 <= r2
    ensures Expandable(c, xs, r2)
    ensures Weight(c, xs, r1) == Weight(c, xs, r2) && Leaves(c, xs, r1) == Leaves(c, xs, r2)
    decreases |xs|
  {
    if xs != [] {
      ExpansionBound(c, xs[..|xs| - 1], r1, r2);
    }
  }

  // -------------------------------------------------------------------- the scan

  /** Every inlinable call in main as it is now is one main could always reach. */
  ghost predicate Scanning(c: Checked, blocks: seq<Block>) {
    IsChecked(c) && Expandable(c, Flat(blocks), |c.p.funcs| + 1)
  }

  ghost function WeightOf(c: Checked, blocks: seq<Block>): nat
    requires Scanning(c, blocks)
  {
    Weight(c, Flat(blocks), |c.p.funcs| + 1)
  }

  ghost function LeavesOf(c: Checked, blocks: seq<Block>): multiset<Node>
    requires Scanning(c, blocks)
  {
    Leaves(c, Flat(blocks), |c.p.funcs| + 1)
  }

  lemma {:induction false} FlatJoins(xs: seq<Block>, ys: seq<Block>)
    ensures Flat(xs + ys) == Flat(xs) + Flat(ys)
    decreases |ys|
  {
    if ys == [] {
      assert xs + ys == xs;
    } else {
      var init := ys[..|ys| - 1];
      assert (xs + ys)[..|xs + ys| - 1] == xs + init;
      FlatJoins(xs, init);
    }
  }

  lemma FlatOne(b: Block)
    ensures Flat([b]) == b
  {
    assert [b][..0] == [];
  }

  lemma RankBound(c: Checked, x: Node)
    ensures Rank(c, x) <= |c.p.funcs|
  {
    var n := |c.p.funcs|;
    FirstCard(n);
    SubsetCard(ReachSet(c, x), First(n));
  }

  ghost function First(n: nat): set<Node> {
    if n == 0 then {} else First(n - 1) + {n - 1}
  }

  lemma {:induction false} FirstCard(n: nat)
    ensures |First(n)| <= n && forall y: Node :: y < n <==> y in First(n)
  {
    if n > 0 {
      FirstCard(n - 1);
    }
  }

  lemma ScanStarts(c: Checked)
    requires IsChecked(c)
    ensures Scanning(c, c.p.funcs[c.p.main])
  {
    ReachesSelf(Kept(c), c.p.main);
    BodyExpandable(c, c.p.main);
    RankBound(c, c.p.main);
    ExpansionBound(c, Flat(c.p.funcs[c.p.main]), Rank(c, c.p.main), |c.p.funcs| + 1);
  }

  /** Block i split at the call at j: the callee's blocks go behind it, the rest of the
      block to the end of the list. */
  function Spliced(blocks: seq<Block>, i: nat, j: nat, body: seq<Block>): seq<Block>
    requires i < |blocks| && j < |blocks[i]|
  {
    blocks[..i] + [blocks[i][..j] + [Other]] + body + blocks[i + 1..] + [blocks[i][j + 1..]]
  }

  /** Splicing expands one call: weight goes down, the calls that stay are the same. */
  lemma SpliceExpands(c: Checked, blocks: seq<Block>, i: nat, j: nat, fn: Node)
    requires Scanning(c, blocks) && i < |blocks| && j < |blocks[i]| && blocks[i][j] == CallTo(fn) && Inlinable(c, fn)
    ensures var after := Spliced(blocks, i, j, c.p.funcs[fn]);
      Scanning(c, after) && WeightOf(c, after) < WeightOf(c, blocks) && LeavesOf(c, after) == LeavesOf(c, blocks)
  {
    var r := |c.p.funcs| + 1;
    var a, x, y, z := Flat(blocks[..i]), blocks[i][..j], blocks[i][j + 1..], Flat(blocks[i + 1..]);
    var body := Flat(c.p.funcs[fn]);
    FlatBefore(blocks, i, j);
    FlatAfter(blocks, i, j, c.p.funcs[fn]);
    assert Flat(blocks)[|a| + j] == CallTo(fn);
    assert ItemOk(c, CallTo(fn), r);
    PartsExpandable(c, a, x, CallTo(fn), y, z, r);
    CalledIsNotMain(c, fn);
    BodyExpandable(c, fn);
    ExpansionBound(c, body, Rank(c, fn), r);
    SpliceCounts(c, a, x, fn, body, y, z, r);
  }

  lemma FlatAround(blocks: seq<Block>, i: nat)
    requires i < |blocks|
    ensures Flat(blocks) == Flat(blocks[..i]) + blocks[i] + Flat(blocks[i + 1..])
  {
    var front, rest := blocks[..i] + [blocks[i]], blocks[i + 1..];
    FlatSnoc(blocks[..i], blocks[i]);
    FlatJoins(front, rest);
    SplitAt(blocks, i);
  }

  lemma SplitAt(blocks: seq<Block>, i: nat)
    requires i < |blocks|
    ensures blocks == blocks[..i] + [blocks[i]] + blocks[i + 1..]
  {
  }

  lemma FlatSnoc(xs: seq<Block>, b: Block)
    ensures Flat(xs + [b]) == Flat(xs) + b
  {
    assert (xs + [b])[..|xs|] == xs;
  }

  lemma FlatBefore(blocks: seq<Block>, i: nat, j: nat)
    requires i < |blocks| && j < |blocks[i]|
    ensures Flat(blocks) ==
      Flat(blocks[..i]) + blocks[i][..j] + [blocks[i][j]] + blocks[i][j + 1..] + Flat(blocks[i + 1..])
  {
    FlatAround(blocks, i);
    assert blocks[i] == blocks[i][..j] + [blocks[i][j]] + blocks[i][j + 1..];
  }

  lemma FlatAfter(blocks: seq<Block>, i: nat, j: nat, body: seq<Block>)
    requires i < |blocks| && j < |blocks[i]|
    ensures Flat(Spliced(blocks, i, j, body)) ==
      Flat(blocks[..i]) + blocks[i][..j] + [Other] + Flat(body) + Flat(blocks[i + 1..]) + blocks[i][j + 1..]
  {
    var head, rest := blocks[i][..j] + [Other], blocks[i][j + 1..];
    FlatJoins(blocks[..i] + [head] + body + blocks[i + 1..], [rest]);
    FlatJoins(blocks[..i] + [head] + body, blocks[i + 1..]);
    FlatJoins(blocks[..i] + [head], body);
    FlatJoins(blocks[..i], [head]);
    FlatOne(head);
    FlatOne(rest);
  }

  lemma PartsExpandable(c: Checked, a: seq<Item>, x: seq<Item>, call: Item, y: seq<Item>, z: seq<Item>, r: nat)
    requires Expandable(c, a + x + [call] + y + z, r)
    ensures Expandable(c, a, r) && Expandable(c, x, r) && Expandable(c, y, r) && Expandable(c, z, r)
  {
    var all := a + x + [call] + y + z;
    forall i | 0 <= i < |a| ensures ItemOk(c, a[i], r) {
      assert all[i] == a[i];
    }
    forall i | 0 <= i < |x| ensures ItemOk(c, x[i], r) {
      assert all[|a| + i] == x[i];
    }
    forall i | 0 <= i < |y| ensures ItemOk(c, y[i], r) {
      assert all[|a| + |x| + 1 + i] == y[i];
    }
    forall i | 0 <= i < |z| ensures ItemOk(c, z[i], r) {
      assert all[|a| + |x| + 1 + |y| + i] == z[i];
    }
  }

  lemma SpliceCounts(c: Checked, a: seq<Item>, x: seq<Item>, fn: Node, body: seq<Item>, y: seq<Item>, z: seq<Item>,
                     r: nat)
    requires IsChecked(c) && Expandable(c, a, r) && Expandable(c, x, r) && Expandable(c, y, r) && Expandable(c, z, r)
    requires Inlinable(c, fn) && ItemOk(c, CallTo(fn), r) && body == Flat(c.p.funcs[fn]) && Expandable(c, body, r)
    requires Expandable(c, body, Rank(c, fn)) && Weight(c, body, Rank(c, fn)) == Weight(c, body, r)
    requires Leaves(c, body, Rank(c, fn)) == Leaves(c, body, r)
    ensures var before, after := a + x + [CallTo(fn)] + y + z, a + x + [Other] + body + z + y;
      && Expandable(c, before, r) && Expandable(c, after, r)
      && Weight(c, after, r) < Weight(c, before, r) && Leaves(c, after, r) == Leaves(c, before, r)
  {
    SingleItem(c, CallTo(fn), r);
    SingleItem(c, Other, r);
    ExpansionJoins(c, a, x, r);
    ExpansionJoins(c, a + x, [CallTo(fn)], r);
    ExpansionJoins(c, a + x + [CallTo(fn)], y, r);
    ExpansionJoins(c, a + x + [CallTo(fn)] + y, z, r);
    ExpansionJoins(c, a + x, [Other], r);
    ExpansionJoins(c, a + x + [Other], body, r);
    ExpansionJoins(c, a + x + [Other] + body, z, r);
    ExpansionJoins(c, a + x + [Other] + body + z, y, r);
  }

  lemma SingleItem(c: Checked, x: Item, r: nat)
    requires IsChecked(c) && ItemOk(c, x, r)
    ensures Expandable(c, [x], r) && Weight(c, [x], r) == ItemWeight(c, x, r) &&
      Leaves(c, [x], r) == ItemLeaves(c, x, r)
  {
    assert [x][..0] == [];
  }

  /** The calls in the items, inlinable or not. */
  ghost function CallsIn(items: seq<Item>): multiset<Node> {
    if items == [] then multiset{}
    else
      CallsIn(items[..|items| - 1]) +
      (if items[|items| - 1].CallTo? then multiset{items[|items| - 1].fn} else multiset{})
  }

  ghost predicate NoneInlinable(c: Checked, items: seq<Item>) {
    forall i :: 0 <= i < |items| && items[i].CallTo? ==> !Inlinable(c, items[i].fn)
  }

  /** Once nothing is left to expand, the leaves are the calls there are. */
  lemma {:induction false} LeavesAreCalls(c: Checked, items: seq<Item>, r: nat)
    requires IsChecked(c) && Expandable(c, items, r) && NoneInlinable(c, items)
    ensures Leaves(c, items, r) == CallsIn(items)
    decreases |items|
  {
    if items != [] {
      LeavesAreCalls(c, items[..|items| - 1], r);
    }
  }

  /** The call found at (i, j) leads to another function than main. */
  lemma FoundIsCalled(c: Checked, blocks: seq<Block>, i: nat, j: nat)
    requires Scanning(c, blocks) && i < |blocks| && j < |blocks[i]| && blocks[i][j].CallTo? &&
      Inlinable(c, blocks[i][j].fn)
    ensures blocks[i][j].fn != c.p.main
  {
    FlatBefore(blocks, i, j);
    assert Flat(blocks)[|Flat(blocks[..i])| + j] == blocks[i][j];
    CalledIsNotMain(c, blocks[i][j].fn);
  }

  // ------------------------------------------------------------ which calls are left

  /** fn is called by x or by a function that x reaches through expanded calls. */
  ghost predicate CalledBelow(c: Checked, x: Node, fn: Node) {
    exists a :: Reaches(Kept(c), x, a) && Calls(c.p, a, fn)
  }

  lemma CalledBelowStep(c: Checked, x: Node, fn: Node)
    ensures CalledBelow(c, x, fn) <==> Calls(c.p, x, fn) || exists y :: Edge(Kept(c), x, y) && CalledBelow(c, y, fn)
  {
    var g := Kept(c);
    ReachesSelf(g, x);
    if CalledBelow(c, x, fn) && !Calls(c.p, x, fn) {
      var a :| Reaches(g, x, a) && Calls(c.p, a, fn);
      var w :| WalkBetween(g, w, x, a);
      assert Edge(g, w[0], w[1]) && WalkBetween(g, w[1..], w[1], a);
      assert CalledBelow(c, w[1], fn);
    }
    forall y | Edge(g, x, y) && CalledBelow(c, y, fn) ensures CalledBelow(c, x, fn) {
      var a :| Reaches(g, y, a) && Calls(c.p, a, fn);
      ReachesEdge(g, x, y);
      ReachesTrans(g, x, y, a);
    }
  }

  /** Expanding the item x leaves a call to fn, unless fn is expanded as well. */
  ghost predicate LeftBy(c: Checked, x: Item, fn: Node) {
    x == CallTo(fn) || (x.CallTo? && Inlinable(c, x.fn) && CalledBelow(c, x.fn, fn))
  }

  ghost predicate LeftAmong(c: Checked, items: seq<Item>, fn: Node) {
    exists x :: x in items && LeftBy(c, x, fn)
  }

  lemma LeftAmongSnoc(c: Checked, items: seq<Item>, x: Item, fn: Node)
    ensures LeftAmong(c, items + [x], fn) <==> LeftAmong(c, items, fn) || LeftBy(c, x, fn)
  {
    assert forall y :: y in items + [x] <==> y in items || y == x;
  }

  /** What full expansion leaves of these items. */
  lemma {:induction false} LeavesIff(c: Checked, items: seq<Item>, r: nat, fn: Node)
    requires IsChecked(c) && Expandable(c, items, r)
    ensures fn in Leaves(c, items, r) <==> !Inlinable(c, fn) && LeftAmong(c, items, fn)
    decreases r, |items|
  {
    if items != [] {
      var init, x := items[..|items| - 1], items[|items| - 1];
      LeavesIff(c, init, r, fn);
      ItemLeavesIff(c, x, r, fn);
      assert items == init + [x];
      LeftAmongSnoc(c, init, x, fn);
    }
  }

  lemma {:induction false} ItemLeavesIff(c: Checked, x: Item, r: nat, fn: Node)
    requires IsChecked(c) && ItemOk(c, x, r)
    ensures fn in ItemLeaves(c, x, r) <==> !Inlinable(c, fn) && LeftBy(c, x, fn)
    decreases r, 0
  {
    if x.CallTo? && Inlinable(c, x.fn) {
      CalledIsNotMain(c, x.fn);
      BodyExpandable(c, x.fn);
      LeavesIff(c, Flat(c.p.funcs[x.fn]), Rank(c, x.fn), fn);
      BodyLeaves(c, x.fn, fn);
    }
  }

  /** The body of x leaves a call to fn iff fn is called below x. */
  lemma BodyLeaves(c: Checked, x: Node, fn: Node)
    requires x < |c.p.funcs|
    ensures LeftAmong(c, Flat(c.p.funcs[x]), fn) <==> CalledBelow(c, x, fn)
  {
    var body := Flat(c.p.funcs[x]);
    CalledBelowStep(c, x, fn);
    forall y ensures CallTo(y) in body <==> Calls(c.p, x, y) {
      FlatHolds(c.p.funcs[x], CallTo(y));
    }
    if LeftAmong(c, body, fn) {
      var i :| i in body && LeftBy(c, i, fn);
      assert i == CallTo(i.fn);
      assert i.fn != fn ==> Edge(Kept(c), x, i.fn);
    }
    if Calls(c.p, x, fn) {
      assert CallTo(fn) in body && LeftBy(c, CallTo(fn), fn);
    }
    forall y | Edge(Kept(c), x, y) && CalledBelow(c, y, fn) ensures CallTo(y) in body && LeftBy(c, CallTo(y), fn) {
    }
  }

  lemma {:induction false} CallsInHolds(items: seq<Item>, fn: Node)
    ensures fn in CallsIn(items) <==> CallTo(fn) in items
  {
    if items != [] {
      CallsInHolds(items[..|items| - 1], fn);
      assert items == items[..|items| - 1] + [items[|items| - 1]];
    }
  }

  /** a calls b, a function of one to four blocks, of at most five instructions each, that
      no path from main leads back to. */
  ghost predicate ExpandsTo(p: Program, a: Node, b: Node) {
    && Calls(p, a, b) && b < |p.funcs| && 1 <= |p.funcs[b]| <= 4
    && (forall k :: 0 <= k < |p.funcs[b]| ==> |p.funcs[b][k]| <= 5)
    && !IsLedBackTo(p, b)
  }

  /** w starts at main and follows such calls. */
  ghost predicate ExpandsAlong(p: Program, w: seq<Node>) {
    && w != [] && w[0] == p.main
    && forall i, j {:trigger w[i], w[j]} :: 0 <= i && j == i + 1 && j < |w| ==> ExpandsTo(p, w[i], w[j])
  }

  /** Calls to fn are left: main calls it directly or by way of expanded calls, and it is
      no function of one to four blocks of at most five instructions each, or some path
      from main leads back to it. */
  ghost predicate IsLeft(p: Program, fn: Node) {
    && fn < |p.funcs|
    && (|p.funcs[fn]| == 0 || |p.funcs[fn]| > 4 || (exists k :: 0 <= k < |p.funcs[fn]| && |p.funcs[fn][k]| > 5) ||
      IsLedBackTo(p, fn))
    && exists w :: ExpandsAlong(p, w) && Calls(p, w[|w| - 1], fn)
  }

  lemma LeftIff(c: Checked, fn: Node)
    requires IsChecked(c) && Scanning(c, c.p.funcs[c.p.main])
    ensures fn in LeavesOf(c, c.p.funcs[c.p.main]) <==> IsLeft(c.p, fn)
  {
    LeavesIff(c, Flat(c.p.funcs[c.p.main]), |c.p.funcs| + 1, fn);
    BodyLeaves(c, c.p.main, fn);
    CalledBelowIff(c, fn);
    IsLeftIff(c, fn);
  }

  lemma IsLeftIff(c: Checked, fn: Node)
    requires IsChecked(c)
    ensures IsLeft(c.p, fn) <==> !Inlinable(c, fn) && exists w :: ExpandsAlong(c.p, w) && Calls(c.p, w[|w| - 1], fn)
  {
  }

  lemma CalledBelowIff(c: Checked, fn: Node)
    requires IsChecked(c)
    ensures CalledBelow(c, c.p.main, fn) <==> exists w :: ExpandsAlong(c.p, w) && Calls(c.p, w[|w| - 1], fn)
  {
    forall w ensures ExpandsAlong(c.p, w) <==> Walk(Kept(c), w) && w[0] == c.p.main {
      WalksAgree(c, w);
    }
    if CalledBelow(c, c.p.main, fn) {
      var a :| Reaches(Kept(c), c.p.main, a) && Calls(c.p, a, fn);
      var w :| WalkBetween(Kept(c), w, c.p.main, a);
      assert ExpandsAlong(c.p, w);
    }
    if exists w :: ExpandsAlong(c.p, w) && Calls(c.p, w[|w| - 1], fn) {
      var w :| ExpandsAlong(c.p, w) && Calls(c.p, w[|w| - 1], fn);
      assert WalkBetween(Kept(c), w, c.p.main, w[|w| - 1]);
    }
  }

  lemma KeptIff(c: Checked, a: Node, b: Node)
    requires IsChecked(c)
    ensures Edge(Kept(c), a, b) <==> ExpandsTo(c.p, a, b)
  {
  }

  lemma WalksAgree(c: Checked, w: seq<Node>)
    requires IsChecked(c)
    ensures ExpandsAlong(c.p, w) <==> Walk(Kept(c), w) && w[0] == c.p.main
  {
    forall i, j | 0 <= i && j == i + 1 && j < |w| ensures Edge(Kept(c), w[i], w[j]) <==> ExpandsTo(c.p, w[i], w[j]) {
      KeptIff(c, w[i], w[j]);
    }
  }

  ghost function Callees(p: Program, a: Node): set<Node> {
    set b: Node {:trigger Calls(p, a, b)} | 0 <= b < |p.funcs| && Calls(p, a, b)
  }

  ghost function CallGraph(p: Program): Graph {
    map a: Node | 0 <= a < |p.funcs| :: Callees(p, a)
  }

  /** fn calls itself, directly or by way of other functions. */
  ghost predicate OnCallCycle(p: Program, fn: Node) {
    exists t :: Calls(p, t, fn) && Reaches(CallGraph(p), fn, t)
  }

  lemma LeftReason(p: Program, fn: Node)
    requires ValidProgram(p) && IsLeft(p, fn)
    ensures
      && fn < |p.funcs|
      && (|p.funcs[fn]| == 0 || |p.funcs[fn]| > 4 || (exists k :: 0 <= k < |p.funcs[fn]| && |p.funcs[fn][k]| > 5) ||
        OnCallCycle(p, fn))
  {
    if IsLedBackTo(p, fn) {
      var w :| LeadsBackTo(p, fn, w);
      var i :| 0 <= i < |w| && w[i] == fn;
      var v := w[i..];
      forall k, l | 0 <= k && l == k + 1 && l < |v| ensures Edge(CallGraph(p), v[k], v[l]) {
        assert v[k] == w[i + k] && v[l] == w[i + l];
      }
      assert WalkBetween(CallGraph(p), v, fn, w[|w| - 1]);
    }
  }

  function WithEdge(g: Graph, a: Node, b: Node): Graph {
    g[a := (if a in g then g[a] else {}) + {b}]
  }

  lemma EdgeAdded(g: Graph, a: Node, b: Node)
    ensures forall x: Node, y: Node {:trigger Edge(WithEdge(g, a, b), x, y)} :: Edge(WithEdge(g, a, b), x, y) <==>
      Edge(g, x, y) || (x == a && y == b)
  {
  }

  // -------------------------------------------------------------------- the pass

  class FuncInline {
    var ignoreFunc: set<Node>
    var recursiveFunc: set<Node>
    var funcSucc: Graph
    var visited: set<Node>

    constructor ()
      ensures ignoreFunc == {} && recursiveFunc == {} && funcSucc == map[] && visited == {}
    {
      ignoreFunc, recursiveFunc, funcSucc, visited := {}, {}, map[], {};
    }

    /** `judge_recur` */
    method JudgeRecur(ghost all: set<Node>, entry: Node)
      requires entry !in visited && entry in all && visited <= all
      requires forall a: Node, b: Node {:trigger Edge(funcSucc, a, b)} :: Edge(funcSucc, a, b) ==> b in all
      modifies this`visited, this`recursiveFunc
      ensures visited == old(visited)
      ensures forall s {:trigger s in recursiveFunc} :: s in recursiveFunc <==>
        s in old(recursiveFunc) || IsBack(funcSucc, old(visited), entry, s)
      decreases all - visited
    {
      ghost var v0 := visited;
      visited := visited + {entry};
      var todo := if entry in funcSucc then funcSucc[entry] else {};
      ghost var seen: set<Node> := {};
      while todo != {}
        invariant visited == v0 + {entry}
        invariant forall d :: d in todo || d in seen <==> Edge(funcSucc, entry, d)
        invariant forall s {:trigger s in recursiveFunc} :: s in recursiveFunc <==>
          s in old(recursiveFunc) || (s in seen && s in visited) ||
            exists d :: d in seen && d !in visited && IsBack(funcSucc, visited, d, s)
        decreases todo
      {
        var succ :| succ in todo;
        assert Edge(funcSucc, entry, succ);
        if succ in visited {
          recursiveFunc := recursiveFunc + {succ};
        } else {
          JudgeRecur(all, succ);
        }
        todo, seen := todo - {succ}, seen + {succ};
      }
      visited := visited - {entry};
      forall s ensures s in recursiveFunc <==> s in old(recursiveFunc) || IsBack(funcSucc, v0, entry, s) {
        BackStep(funcSucc, v0, entry, s);
      }
    }

    /** The uses of func, each by an instruction of its caller. */
    static method CallsIt(body: seq<Block>, fn: Node) returns (r: bool)
      ensures r <==> exists k :: 0 <= k < |body| && CallTo(fn) in body[k]
    {
      r := false;
      for k := 0 to |body|
        invariant r <==> exists l :: 0 <= l < k && CallTo(fn) in body[l]
      {
        r := r || CallTo(fn) in body[k];
      }
    }

    /** The first loop of `run`. */
    method BuildSuccs(p: Program)
      requires ValidProgram(p) && ignoreFunc == {} && funcSucc == map[]
      modifies this`ignoreFunc, this`funcSucc
      ensures SuccsAre(p, funcSucc) && forall f: Node {:trigger f in ignoreFunc} :: f in ignoreFunc <==>
        f < |p.funcs| && IsLarge(p, f)
    {
      for func := 0 to |p.funcs|
        invariant forall f: Node {:trigger f in ignoreFunc} :: f in ignoreFunc <==> f < func && IsLarge(p, f)
        invariant forall a: Node, b: Node {:trigger Edge(funcSucc, a, b)} :: Edge(funcSucc, a, b) <==>
          b < func && !IsLarge(p, b) && Calls(p, a, b)
      {
        if IsLarge(p, func) {
          ignoreFunc := ignoreFunc + {func};
        } else {
          AddCallers(p, func);
        }
      }
    }

    /** Adds func to the successors of each of its callers. */
    method AddCallers(p: Program, func: Node)
      modifies this`funcSucc
      ensures forall a: Node, b: Node {:trigger Edge(funcSucc, a, b)} :: Edge(funcSucc, a, b) <==>
        Edge(old(funcSucc), a, b) || (b == func && Calls(p, a, b))
    {
      for user := 0 to |p.funcs|
        invariant forall a: Node, b: Node {:trigger Edge(funcSucc, a, b)} :: Edge(funcSucc, a, b) <==>
          Edge(old(funcSucc), a, b) || (b == func && a < user && Calls(p, a, b))
      {
        var uses := CallsIt(p.funcs[user], func);
        assert uses <==> Calls(p, user, func);
        if uses {
          EdgeAdded(funcSucc, user, func);
          funcSucc := WithEdge(funcSucc, user, func);
        }
      }
    }

    /** `can_be_inlined`, for a call to fn. */
    method CanBeInlined(p: Program, fn: Node) returns (r: bool)
      requires IsChecked(Checked(p, funcSucc, ignoreFunc, recursiveFunc))
      ensures r <==> IsSmall(p, fn) && !IsLedBackTo(p, fn)
    {
      MarkedIff(Checked(p, funcSucc, ignoreFunc, recursiveFunc), fn);
      if fn >= |p.funcs| || |p.funcs[fn]| > MAX_INLINE_BB || |p.funcs[fn]| == 0 {
        return false;
      }
      for k := 0 to |p.funcs[fn]|
        invariant forall l :: 0 <= l < k ==> |p.funcs[fn][l]| <= 5
      {
        if |p.funcs[fn][k]| > MAX_INLINE_INST {
          return false;
        }
      }
      r := fn !in ignoreFunc && fn !in recursiveFunc;
    }

    /** The instruction loop of `inlining` on one block: the first call to inline. */
    method FindCall(p: Program, block: Block) returns (j: nat)
      requires IsChecked(Checked(p, funcSucc, ignoreFunc, recursiveFunc))
      ensures j <= |block|
      ensures forall i :: 0 <= i < j && block[i].CallTo? ==> !IsSmall(p, block[i].fn) || IsLedBackTo(p, block[i].fn)
      ensures j < |block| ==> block[j].CallTo? && IsSmall(p, block[j].fn) && !IsLedBackTo(p, block[j].fn)
    {
      j := 0;
      while j < |block|
        invariant j <= |block|
        invariant forall i :: 0 <= i < j && block[i].CallTo? ==> !IsSmall(p, block[i].fn) || IsLedBackTo(p, block[i].fn)
        decreases |block| - j
      {
        if block[j].CallTo? {
          var inlinable := CanBeInlined(p, block[j].fn);
          if inlinable {
            return;
          }
        }
        j := j + 1;
      }
    }

    /** `inlining` on main: it ends, no inlinable call is left, and the calls that are
        left are those of the full expansion, no more and no fewer. */
    method Inlining(p: Program) returns (blocks: seq<Block>)
      requires IsChecked(Checked(p, funcSucc, ignoreFunc, recursiveFunc))
      ensures var c := Checked(p, funcSucc, ignoreFunc, recursiveFunc);
        && NoneInlinable(c, Flat(blocks)) && Scanning(c, p.funcs[p.main])
        && CallsIn(Flat(blocks)) == LeavesOf(c, p.funcs[p.main])
    {
      ghost var c := Checked(p, funcSucc, ignoreFunc, recursiveFunc);
      blocks := p.funcs[p.main];
      ScanStarts(c);
      var i := 0;
      while i < |blocks|
        invariant i <= |blocks| && Scanning(c, blocks) && NoneInlinable(c, Flat(blocks[..i]))
        invariant LeavesOf(c, blocks) == LeavesOf(c, p.funcs[p.main])
        decreases WeightOf(c, blocks), |blocks| - i
      {
        var j := FindCall(p, blocks[i]);
        ghost var before := blocks;
        if j < |blocks[i]| {
          var fn := blocks[i][j].fn;
          FoundIsCalled(c, blocks, i, j);
          SpliceExpands(c, blocks, i, j, fn);
          blocks := Spliced(blocks, i, j, p.funcs[fn]);
        }
        ScannedOne(c, before, blocks, i, j);
        i := i + 1;
      }
      assert blocks[..|blocks|] == blocks;
      LeavesAreCalls(c, Flat(blocks), |p.funcs| + 1);
    }

    /** `run`, up to the removal of functions that are no longer called. */
    method Run(p: Program) returns (blocks: seq<Block>)
      requires ValidProgram(p) && ignoreFunc == {} && recursiveFunc == {} && funcSucc == map[] && visited == {}
      modifies this
      ensures var c := Checked(p, funcSucc, ignoreFunc, recursiveFunc);
        && IsChecked(c) && Scanning(c, p.funcs[p.main])
        && CallsIn(Flat(blocks)) == LeavesOf(c, p.funcs[p.main])
      ensures forall fn: Node {:trigger CallTo(fn) in Flat(blocks)} :: CallTo(fn) in Flat(blocks) ==>
        && fn < |p.funcs|
        && (|p.funcs[fn]| == 0 || |p.funcs[fn]| > 4 || (exists k :: 0 <= k < |p.funcs[fn]| && |p.funcs[fn][k]| > 5) ||
          OnCallCycle(p, fn))
      ensures forall fn: Node {:trigger CallTo(fn) in Flat(blocks)} :: CallTo(fn) in Flat(blocks) <==> IsLeft(p, fn)
    {
      BuildSuccs(p);
      FirstCard(|p.funcs|);
      JudgeRecur(First(|p.funcs|), p.main);
      blocks := Inlining(p);
      ghost var c := Checked(p, funcSucc, ignoreFunc, recursiveFunc);
      forall fn: Node
        ensures CallTo(fn) in Flat(blocks) <==> IsLeft(p, fn)
        ensures IsLeft(p, fn) ==>
          && fn < |p.funcs|
          && (|p.funcs[fn]| == 0 || |p.funcs[fn]| > 4 || (exists k :: 0 <= k < |p.funcs[fn]| && |p.funcs[fn][k]| > 5) ||
            OnCallCycle(p, fn))
      {
        CallsInHolds(Flat(blocks), fn);
        LeftIff(c, fn);
        if IsLeft(p, fn) {
          LeftReason(p, fn);
        }
      }
    }
  }

  /** After one step of the scan the blocks up to i hold no inlinable call. */
  lemma ScannedOne(c: Checked, before: seq<Block>, blocks: seq<Block>, i: nat, j: nat)
    requires i < |before| && j <= |before[i]| && NoneInlinable(c, Flat(before[..i]))
    requires forall k :: 0 <= k < j && before[i][k].CallTo? ==> !Inlinable(c, before[i][k].fn)
    requires if j == |before[i]| then blocks == before
             else before[i][j].CallTo? && before[i][j].fn < |c.p.funcs| &&
                  blocks == Spliced(before, i, j, c.p.funcs[before[i][j].fn])
    ensures i + 1 <= |blocks| && NoneInlinable(c, Flat(blocks[..i + 1]))
  {
    var head := if j == |before[i]| then before[i] else before[i][..j] + [Other];
    assert blocks[..i + 1] == before[..i] + [head];
    FlatJoins(before[..i], [head]);
    FlatOne(head);
  }
}
