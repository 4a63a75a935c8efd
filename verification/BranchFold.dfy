/** Folding branches on constants: the second half of constant propagation. */
module BranchFold {
  import opened Wrappers
  import opened Graphs
  import opened ControlFlow
  import opened Ir

  // -------------------------------------------------------------- list removal

  /** `std::list::remove` */
  function Removed(xs: seq<Node>, x: Node): (r: seq<Node>)
    ensures forall y :: multiset(r)[y] == if y == x then 0 else multiset(xs)[y]
  {
    if xs == [] then []
    else
      assert xs == [xs[0]] + xs[1..];
      (if xs[0] == x then [] else [xs[0]]) + Removed(xs[1..], x)
  }

  lemma {:induction false} RemovedTwice(xs: seq<Node>, x: Node)
    ensures Removed(Removed(xs, x), x) == Removed(xs, x)
  {
    if xs != [] {
      RemovedTwice(xs[1..], x);
      var r := Removed(xs[1..], x);
      assert [] + r == r && ([xs[0]] + r)[1..] == r;
    }
  }

  /** What stays keeps its order. */
  lemma {:induction false} RemovedJoins(xs: seq<Node>, ys: seq<Node>, x: Node)
    ensures Removed(xs + ys, x) == Removed(xs, x) + Removed(ys, x)
  {
    if xs == [] {
      assert xs + ys == ys;
    } else {
      assert (xs + ys)[1..] == xs[1..] + ys;
      RemovedJoins(xs[1..], ys, x);
    }
  }

  type Pairs = seq<(Operand, Node)>

  /** The pair loop: erasing a pair moves the next one into its place, and the loop goes
      on behind it. */
  function Dropped(pairs: Pairs, b: Node): (r: Pairs)
    ensures |r| <= |pairs|
  {
    if pairs == [] then []
    else if pairs[0].1 != b then [pairs[0]] + Dropped(pairs[1..], b)
    else if |pairs| == 1 then []
    else [pairs[1]] + Dropped(pairs[2..], b)
  }

  /** Two pairs in a row name b. */
  ghost predicate TwoInARow(pairs: Pairs, b: Node) {
    exists i, j {:trigger pairs[i], pairs[j]} :: 0 <= i && j == i + 1 && j < |pairs| && pairs[i].1 == b &&
      pairs[j].1 == b
  }

  /** The loop leaves no pair naming b exactly when no two in a row named it. */
  lemma {:induction false} DroppedLeavesNoneIff(pairs: Pairs, b: Node)
    ensures Mentions(Dropped(pairs, b), b) <==> TwoInARow(pairs, b)
    decreases |pairs|
  {
    if pairs != [] {
      if pairs[0].1 != b {
        DroppedLeavesNoneIff(pairs[1..], b);
        NamesFront(pairs[0], Dropped(pairs[1..], b), b);
        RowFront(pairs, b);
      } else if |pairs| > 1 {
        NamesFront(pairs[1], Dropped(pairs[2..], b), b);
        if pairs[1].1 == b {
          assert pairs[0].1 == b && pairs[1].1 == b;
        } else {
          DroppedLeavesNoneIff(pairs[2..], b);
          RowFront(pairs, b);
          RowFront(pairs[1..], b);
          assert pairs[1..][1..] == pairs[2..];
        }
      }
    }
  }

  lemma NamesFront(q: (Operand, Node), rest: Pairs, b: Node)
    ensures Mentions([q] + rest, b) <==> q.1 == b || Mentions(rest, b)
  {
    var all := [q] + rest;
    if Mentions(rest, b) {
      var i :| 0 <= i < |rest| && rest[i].1 == b;
      assert all[i + 1].1 == b;
    }
    assert all[0] == q;
    if Mentions(all, b) && q.1 != b {
      var i :| 0 <= i < |all| && all[i].1 == b;
      assert rest[i - 1].1 == b;
    }
  }

  lemma RowFront(pairs: Pairs, b: Node)
    requires pairs != [] && (pairs[0].1 != b || |pairs| == 1 || pairs[1].1 != b)
    ensures TwoInARow(pairs, b) <==> TwoInARow(pairs[1..], b)
  {
    var rest := pairs[1..];
    if TwoInARow(pairs, b) {
      var i, j :| 0 <= i && j == i + 1 && j < |pairs| && pairs[i].1 == b && pairs[j].1 == b;
      assert rest[i - 1].1 == b && rest[j - 1].1 == b;
    }
    if TwoInARow(rest, b) {
      var i, j :| 0 <= i && j == i + 1 && j < |rest| && rest[i].1 == b && rest[j].1 == b;
      assert pairs[i + 1].1 == b && pairs[j + 1].1 == b;
    }
  }

  /** On every other edge the phi takes the value it took before. */
  lemma {:induction false} DroppedKeepsOthers(pairs: Pairs, b: Node, p: Node, env: map<Name, Val>)
    requires p != b
    ensures PhiValue(Dropped(pairs, b), p, env) == PhiValue(pairs, p, env)
    decreases |pairs|
  {
    if pairs != [] {
      if pairs[0].1 != b {
        DroppedKeepsOthers(pairs[1..], b, p, env);
      } else if |pairs| > 1 {
        DroppedKeepsOthers(pairs[2..], b, p, env);
        assert pairs[1..][1..] == pairs[2..];
      }
    }
  }

  lemma {:induction false} DroppedIsPart(pairs: Pairs, b: Node, q: (Operand, Node))
    requires q in Dropped(pairs, b)
    ensures q in pairs
    decreases |pairs|
  {
    if pairs[0].1 != b {
      if q != pairs[0] {
        DroppedIsPart(pairs[1..], b, q);
      }
    } else if q != pairs[1] {
      DroppedIsPart(pairs[2..], b, q);
    }
  }

  // ----------------------------------------------------------------- one block

  function DropIn(ins: Instr, b: Node): Instr {
    if ins.op.Phi? then Instr(ins.id, Phi(ins.op.slot, Dropped(ins.op.pairs, b))) else ins
  }

  function DropAll(instrs: seq<Instr>, b: Node): (r: seq<Instr>)
    ensures |r| == |instrs| && forall i :: 0 <= i < |r| ==> r[i] == DropIn(instrs[i], b)
  {
    seq(|instrs|, i requires 0 <= i < |instrs| => DropIn(instrs[i], b))
  }

  /** Successor s of the folded block b, whose branch now always goes to keep. */
  function UnlinkOne(f: Func, b: Node, keep: Node, s: Node): Func
    requires s < |f.code| == |f.cfg.preds|
  {
    var cfg := Cfg(f.cfg.succs, f.cfg.preds[s := Removed(f.cfg.preds[s], b)]);
    var code := if s != keep then f.code[s := Code(DropAll(f.code[s].instrs, b), f.code[s].term)] else f.code;
    Func(f.args, cfg, code)
  }

  /** The first i successors of b, in list order. */
  ghost function UnlinkTo(f: Func, b: Node, keep: Node, i: nat): (r: Func)
    requires |f.cfg.preds| == |f.cfg.succs| == |f.code| && b < |f.code| && i <= |f.cfg.succs[b]|
    requires forall s :: s in f.cfg.succs[b] ==> s < |f.code|
    ensures r.cfg.succs == f.cfg.succs && |r.cfg.preds| == |r.code| == |f.code|
  {
    if i == 0 then f
    else
      assert f.cfg.succs[b][i - 1] in f.cfg.succs[b];
      UnlinkOne(UnlinkTo(f, b, keep, i - 1), b, keep, f.cfg.succs[b][i - 1])
  }

  /** The new unconditional branch. */
  function Relink(f: Func, b: Node, keep: Node): Func
    requires b < |f.code| && keep < |f.cfg.preds| && b < |f.cfg.succs|
  {
    Func(f.args, Cfg(f.cfg.succs[b := [keep]], f.cfg.preds[keep := f.cfg.preds[keep] + [b]]),
         f.code[b := Code(f.code[b].instrs, Jump(keep))])
  }

  /** The target a constant branch takes. */
  function TargetOf(t: Term): Option<Node> {
    match t
    case Branch(Const(Word(k)), onTrue, onFalse) => Some(if k != 0 then onTrue else onFalse)
    case _ => None
  }

  // ------------------------------------------------------------------ meaning

  /** y is x, or a phi that differs from x only on the edge from b. */
  ghost predicate SamePhi(b: Node, x: Instr, y: Instr) {
    y == x || (x.op.Phi? && y.op.Phi? && y.id == x.id && SamePairs(b, x.op.pairs, y.op.pairs))
  }

  ghost predicate SamePairs(b: Node, ps: Pairs, qs: Pairs) {
    forall p, env {:trigger PhiValue(qs, p, env)} :: p != b ==> PhiValue(qs, p, env) == PhiValue(ps, p, env)
  }

  ghost predicate SameBlock(b: Node, xs: seq<Instr>, ys: seq<Instr>) {
    |xs| == |ys| && forall i {:trigger ys[i]} :: 0 <= i < |xs| ==> SamePhi(b, xs[i], ys[i])
  }

  lemma {:induction false} SameBlockExec(b: Node, m: Machine, xs: seq<Instr>, ys: seq<Instr>, st: State)
    requires SameBlock(b, xs, ys)
    ensures Exec(m, ys, st) == Exec(m, xs, st)
  {
    if xs != [] {
      var k := |xs| - 1;
      SameBlockExec(b, m, xs[..k], ys[..k], st);
      assert SamePhi(b, xs[k], ys[k]);
    }
  }

  lemma {:induction false} SameBlockPhis(b: Node, xs: seq<Instr>, ys: seq<Instr>, p: Node, env: map<Name, Val>)
    requires SameBlock(b, xs, ys) && (p != b || xs == ys)
    ensures PhiEnv(ys, p, env) == PhiEnv(xs, p, env)
  {
    if xs != [] && p != b {
      var k := |xs| - 1;
      SameBlockPhis(b, xs[..k], ys[..k], p, env);
      assert SamePhi(b, xs[k], ys[k]);
    }
  }

  lemma DropAllSame(b: Node, xs: seq<Instr>, ys: seq<Instr>)
    requires SameBlock(b, xs, ys)
    ensures SameBlock(b, xs, DropAll(ys, b))
  {
    var zs := DropAll(ys, b);
    forall i | 0 <= i < |xs| ensures SamePhi(b, xs[i], zs[i]) {
      assert SamePhi(b, xs[i], ys[i]);
      if ys[i].op.Phi? {
        forall p, env | p != b ensures PhiValue(zs[i].op.pairs, p, env) == PhiValue(xs[i].op.pairs, p, env) {
          DroppedKeepsOthers(ys[i].op.pairs, b, p, env);
        }
      }
    }
  }

  /** g is f after some successors of b were unlinked. */
  ghost predicate Unlinked(f: Func, g: Func, b: Node, keep: Node, i: nat) {
    && g.args == f.args && |g.code| == |f.code| && g.cfg.succs == f.cfg.succs &&
      |g.cfg.preds| == |f.cfg.preds| == |f.code|
    && b < |f.cfg.succs| && i <= |f.cfg.succs[b]|
    && (forall s {:trigger g.code[s]} :: 0 <= s < |f.code| ==>
      g.code[s].term == f.code[s].term && SameBlock(b, f.code[s].instrs, g.code[s].instrs))
    && (keep < |f.code| ==> g.code[keep].instrs == f.code[keep].instrs)
    && (forall s {:trigger g.cfg.preds[s]} :: 0 <= s < |f.code| ==>
          forall p :: multiset(g.cfg.preds[s])[p] ==
            if p == b && s in f.cfg.succs[b][..i] then 0 else multiset(f.cfg.preds[s])[p])
  }

  /** The predecessor lists are those of f without b at the first i successors. */
  ghost predicate PredsAt(f: Func, g: Func, b: Node, i: nat)
    requires b < |f.cfg.succs| && i <= |f.cfg.succs[b]|
  {
    |g.cfg.preds| == |f.cfg.preds| && forall s {:trigger g.cfg.preds[s]} :: 0 <= s < |f.cfg.preds| ==>
      g.cfg.preds[s] == if s in f.cfg.succs[b][..i] then Removed(f.cfg.preds[s], b) else f.cfg.preds[s]
  }

  lemma PredsStep(f: Func, g: Func, b: Node, keep: Node, i: nat)
    requires b < |f.cfg.succs| && i < |f.cfg.succs[b]| && PredsAt(f, g, b, i)
    requires f.cfg.succs[b][i] < |g.code| == |g.cfg.preds|
    ensures PredsAt(f, UnlinkOne(g, b, keep, f.cfg.succs[b][i]), b, i + 1)
  {
    var s0 := f.cfg.succs[b][i];
    RemovedTwice(f.cfg.preds[s0], b);
    assert f.cfg.succs[b][..i + 1] == f.cfg.succs[b][..i] + [s0];
  }

  /** The predecessor lists when the branch of b is folded: b goes from those of all its
      successors and comes last in that of `keep`. */
  ghost predicate PredsFolded(f: Func, g: Func, b: Node, keep: Node) {
    |g.cfg.preds| == |f.cfg.preds| && b < |f.cfg.succs| && forall s {:trigger g.cfg.preds[s]} ::
      0 <= s < |f.cfg.preds| ==>
      g.cfg.preds[s] == if s == keep then Removed(f.cfg.preds[s], b) + [b]
                        else if s in f.cfg.succs[b] then Removed(f.cfg.preds[s], b) else f.cfg.preds[s]
  }

  lemma PredsFinish(f: Func, g: Func, b: Node, keep: Node)
    requires FoldsAt(f, b, keep) && PredsAt(f, g, b, |f.cfg.succs[b]|) && |g.code| == |f.code| && b < |g.cfg.succs|
    requires keep < |g.cfg.preds|
    ensures PredsFolded(f, Relink(g, b, keep), b, keep)
  {
    KeepInRange(f, b, keep);
    var ss := f.cfg.succs[b];
    assert ss[..|ss|] == ss;
  }

  lemma UnlinkStarts(f: Func, b: Node, keep: Node)
    requires |f.cfg.preds| == |f.cfg.succs| == |f.code| && b < |f.cfg.succs|
    ensures Unlinked(f, f, b, keep, 0)
  {
  }

  lemma UnlinkStep(f: Func, g: Func, b: Node, keep: Node, i: nat)
    requires Unlinked(f, g, b, keep, i) && i < |f.cfg.succs[b]| && f.cfg.succs[b][i] < |f.code|
    ensures Unlinked(f, UnlinkOne(g, b, keep, f.cfg.succs[b][i]), b, keep, i + 1)
  {
    var s0 := f.cfg.succs[b][i];
    var h := UnlinkOne(g, b, keep, s0);
    var next := i + 1;
    assert f.cfg.succs[b][..next] == f.cfg.succs[b][..i] + [s0];
    DropAllSame(b, f.code[s0].instrs, g.code[s0].instrs);
    forall s | 0 <= s < |f.code|
      ensures h.code[s].term == f.code[s].term && SameBlock(b, f.code[s].instrs, h.code[s].instrs)
    {
      assert g.code[s].term == f.code[s].term;
    }
    forall s | 0 <= s < |f.code|
      ensures forall p ::
        multiset(h.cfg.preds[s])[p] == if p == b && s in f.cfg.succs[b][..next] then 0 else multiset(f.cfg.preds[s])[p]
    {
      assert s != s0 ==> h.cfg.preds[s] == g.cfg.preds[s];
    }
  }

  /** Successor and predecessor lists hold each edge equally often. */
  ghost predicate Mirrored(cfg: Cfg) {
    forall p, s {:trigger cfg.succs[p], cfg.preds[s]} :: 0 <= p < |cfg.succs| && 0 <= s < |cfg.preds| ==>
      multiset(cfg.succs[p])[s] == multiset(cfg.preds[s])[p]
  }

  /** f and g run in lockstep, through the same states. */
  ghost predicate EqualRuns(f: Func, g: Func) {
    forall m, c, n: nat {:trigger Run(g, m, c, n)} :: Run(g, m, c, n) == Run(f, m, c, n)
  }

  ghost predicate FoldsAt(f: Func, b: Node, keep: Node) {
    ValidFunc(f) && b < |f.code| && TargetOf(f.code[b].term) == Some(keep)
  }

  lemma KeepInRange(f: Func, b: Node, keep: Node)
    requires FoldsAt(f, b, keep)
    ensures keep in f.cfg.succs[b] && keep < |f.code|
  {
    assert keep in Targets(f.code[b].term);
  }

  /** The function with the branch of b folded. */
  ghost function Folded(f: Func, b: Node, keep: Node): Func
    requires FoldsAt(f, b, keep)
  {
    KeepInRange(f, b, keep);
    Relink(UnlinkTo(f, b, keep, |f.cfg.succs[b]|), b, keep)
  }

  lemma FoldKeepsValid(f: Func, g: Func, b: Node, keep: Node)
    requires FoldsAt(f, b, keep) && Mirrored(f.cfg) && Unlinked(f, g, b, keep, |f.cfg.succs[b]|) && keep < |f.code|
    ensures ValidFunc(Relink(g, b, keep)) && Mirrored(Relink(g, b, keep).cfg)
  {
    var h := Relink(g, b, keep);
    FoldKeepsMirror(f, g, b, keep);
    MirroredIsValid(h.cfg);
    forall x, t {:trigger t in h.cfg.succs[x]} | 0 <= x < |h.code|
      ensures t in h.cfg.succs[x] <==> t in Ir.Targets(h.code[x].term)
    {
      if x != b {
        assert g.code[x].term == f.code[x].term && h.code[x].term == f.code[x].term && h.cfg.succs[x] == f.cfg.succs[x];
      }
    }
  }

  lemma FoldKeepsMirror(f: Func, g: Func, b: Node, keep: Node)
    requires FoldsAt(f, b, keep) && Mirrored(f.cfg) && Unlinked(f, g, b, keep, |f.cfg.succs[b]|) && keep < |f.code|
    ensures Mirrored(Relink(g, b, keep).cfg)
    ensures forall x, t {:trigger t in Relink(g, b, keep).cfg.succs[x]} ::
      0 <= x < |f.code| && t in Relink(g, b, keep).cfg.succs[x] ==> t < |f.code|
    ensures forall x, t {:trigger t in Relink(g, b, keep).cfg.preds[x]} ::
      0 <= x < |f.code| && t in Relink(g, b, keep).cfg.preds[x] ==> t < |f.code|
  {
    var h := Relink(g, b, keep);
    var ss := f.cfg.succs[b];
    assert ss[..|ss|] == ss;
    forall p, s | 0 <= p < |h.cfg.succs| && 0 <= s < |h.cfg.preds|
      ensures multiset(h.cfg.succs[p])[s] == multiset(h.cfg.preds[s])[p]
    {
      assert multiset(f.cfg.succs[p])[s] == multiset(f.cfg.preds[s])[p];
      assert multiset(g.cfg.preds[s])[p] == if p == b && s in ss then 0 else multiset(f.cfg.preds[s])[p];
      assert p == b && s !in ss ==> multiset(ss)[s] == 0;
    }
    forall x, t | 0 <= x < |f.code| && t in h.cfg.preds[x] && t != b ensures t in f.cfg.preds[x] {
      assert multiset(h.cfg.preds[x])[t] > 0;
      assert multiset(g.cfg.preds[x])[t] == multiset(f.cfg.preds[x])[t];
    }
  }

  lemma MirroredIsValid(cfg: Cfg)
    requires Mirrored(cfg) && 0 < |cfg.succs| == |cfg.preds|
    requires forall p, s {:trigger s in cfg.succs[p]} :: 0 <= p < |cfg.succs| && s in cfg.succs[p] ==> s < |cfg.succs|
    requires forall p, s {:trigger p in cfg.preds[s]} :: 0 <= s < |cfg.preds| && p in cfg.preds[s] ==> p < |cfg.preds|
    ensures cfg.Valid()
  {
    forall p, s {:trigger s in cfg.succs[p]} | 0 <= p < |cfg.succs| && s in cfg.succs[p] ensures p in cfg.preds[s] {
      assert multiset(cfg.succs[p])[s] == multiset(cfg.preds[s])[p];
    }
    forall p, s {:trigger p in cfg.preds[s]} | 0 <= s < |cfg.preds| && p in cfg.preds[s] ensures s in cfg.succs[p] {
      assert multiset(cfg.succs[p])[s] == multiset(cfg.preds[s])[p];
    }
  }

  lemma FoldKeepsAdvance(f: Func, g: Func, b: Node, keep: Node, m: Machine, c: Config)
    requires FoldsAt(f, b, keep) && Unlinked(f, g, b, keep, |f.cfg.succs[b]|) && keep < |f.code|
    ensures Advance(Relink(g, b, keep), m, c) == Advance(f, m, c)
  {
    var h := Relink(g, b, keep);
    if c.At? && c.block < |f.code| {
      var x := c.block;
      assert g.code[x].term == f.code[x].term && SameBlock(b, f.code[x].instrs, g.code[x].instrs);
      SameBlockExec(b, m, f.code[x].instrs, g.code[x].instrs, c.st);
      var st := Exec(m, f.code[x].instrs, c.st);
      FoldKeepsEntry(f, g, b, keep, x, keep, st);
      match f.code[x].term {
        case Jump(s) => FoldKeepsEntry(f, g, b, keep, x, s, st);
        case Branch(cond, s1, s2) =>
          FoldKeepsEntry(f, g, b, keep, x, if Truthy(Value(st.env, cond)) then s1 else s2, st);
        case Return(_) =>
      }
    }
  }

  lemma FoldKeepsEntry(f: Func, g: Func, b: Node, keep: Node, p: Node, s: Node, st: State)
    requires FoldsAt(f, b, keep) && Unlinked(f, g, b, keep, |f.cfg.succs[b]|) && keep < |f.code|
    requires p != b || s == keep
    ensures Enter(Relink(g, b, keep), p, s, st) == Enter(f, p, s, st)
  {
    if s < |f.code| {
      assert g.code[s].term == f.code[s].term && SameBlock(b, f.code[s].instrs, g.code[s].instrs);
      SameBlockPhis(b, f.code[s].instrs, g.code[s].instrs, p, st.env);
    }
  }

  lemma {:induction false} FoldKeepsRun(f: Func, g: Func, b: Node, keep: Node, m: Machine, c: Config, n: nat)
    requires FoldsAt(f, b, keep) && Unlinked(f, g, b, keep, |f.cfg.succs[b]|) && keep < |f.code|
    ensures Run(Relink(g, b, keep), m, c, n) == Run(f, m, c, n)
  {
    if n > 0 {
      FoldKeepsRun(f, g, b, keep, m, c, n - 1);
      FoldKeepsAdvance(f, g, b, keep, m, Run(f, m, c, n - 1));
    }
  }

  lemma FoldKeepsRuns(f: Func, g: Func, b: Node, keep: Node)
    requires FoldsAt(f, b, keep) && Unlinked(f, g, b, keep, |f.cfg.succs[b]|) && keep < |f.code|
    ensures EqualRuns(f, Relink(g, b, keep))
  {
    forall m, c, n: nat ensures Run(Relink(g, b, keep), m, c, n) == Run(f, m, c, n) {
      FoldKeepsRun(f, g, b, keep, m, c, n);
    }
  }

  lemma EqualRunsTrans(f: Func, g: Func, h: Func)
    requires EqualRuns(f, g) && EqualRuns(g, h)
    ensures EqualRuns(f, h)
  {
    forall m, c, n: nat ensures Run(h, m, c, n) == Run(f, m, c, n) {
      assert Run(h, m, c, n) == Run(g, m, c, n);
    }
  }

  // ------------------------------------------------------------ phis and edges

  /** Every phi has at most one pair for a block, and only pairs for predecessors. */
  ghost predicate PairsFit(f: Func) {
    forall s, i {:trigger f.code[s].instrs[i]} ::
      0 <= s < |f.code| && s < |f.cfg.preds| && 0 <= i < |f.code[s].instrs| && f.code[s].instrs[i].op.Phi? ==>
      PairsFitIn(f.code[s].instrs[i].op.pairs, f.cfg.preds[s])
  }

  ghost predicate OnePairEach(pairs: Pairs) {
    forall i, j :: 0 <= i < j < |pairs| ==> pairs[i].1 != pairs[j].1
  }

  ghost predicate PairsFitIn(pairs: Pairs, preds: seq<Node>) {
    OnePairEach(pairs) && forall q :: q in pairs ==> q.1 in preds
  }

  lemma {:induction false} DroppedStaysSingle(pairs: Pairs, b: Node)
    requires OnePairEach(pairs)
    ensures OnePairEach(Dropped(pairs, b)) && !Mentions(Dropped(pairs, b), b)
    decreases |pairs|
  {
    DroppedLeavesNoneIff(pairs, b);
    if pairs != [] {
      var r := Dropped(pairs, b);
      if pairs[0].1 != b {
        DroppedStaysSingle(pairs[1..], b);
        FrontStaysSingle(pairs, pairs[0], 1, b);
      } else if |pairs| > 1 {
        DroppedStaysSingle(pairs[2..], b);
        FrontStaysSingle(pairs, pairs[1], 2, b);
      }
    }
  }

  lemma FrontStaysSingle(pairs: Pairs, q: (Operand, Node), k: nat, b: Node)
    requires OnePairEach(pairs) && 0 < k <= |pairs| && q == pairs[k - 1] && OnePairEach(Dropped(pairs[k..], b))
    ensures OnePairEach([q] + Dropped(pairs[k..], b))
  {
    var rest := Dropped(pairs[k..], b);
    var all := [q] + rest;
    forall i, j | 0 <= i < j < |all| ensures all[i].1 != all[j].1 {
      if i == 0 {
        DroppedIsPart(pairs[k..], b, rest[j - 1]);
        var l :| 0 <= l < |pairs[k..]| && pairs[k..][l] == rest[j - 1];
        assert pairs[k + l] == rest[j - 1];
      }
    }
  }

  /** After dropping, the pairs fit a predecessor list without b. */
  lemma DroppedFits(pairs: Pairs, preds: seq<Node>, b: Node)
    requires PairsFitIn(pairs, preds)
    ensures PairsFitIn(Dropped(pairs, b), Removed(preds, b))
  {
    var r := Dropped(pairs, b);
    DroppedStaysSingle(pairs, b);
    forall q | q in r ensures q.1 in Removed(preds, b) {
      DroppedIsPart(pairs, b, q);
      var i :| 0 <= i < |r| && r[i] == q;
      assert q.1 == b ==> Mentions(r, b);
      assert multiset(preds)[q.1] > 0;
      assert multiset(Removed(preds, b))[q.1] > 0;
    }
  }

  /** While b's successors are unlinked: pairs fit, where a pair naming b may stand
      without its edge in `keep` only. */
  ghost predicate FitsMeanwhile(g: Func, b: Node, keep: Node) {
    && |g.cfg.preds| == |g.code|
    && forall s, i {:trigger g.code[s].instrs[i]} ::
         0 <= s < |g.code| && 0 <= i < |g.code[s].instrs| && g.code[s].instrs[i].op.Phi? ==>
         PairsFitIn(g.code[s].instrs[i].op.pairs, if s == keep then g.cfg.preds[s] + [b] else g.cfg.preds[s])
  }

  lemma UnlinkKeepsFit(g: Func, b: Node, keep: Node, s0: Node)
    requires FitsMeanwhile(g, b, keep) && s0 < |g.code|
    ensures FitsMeanwhile(UnlinkOne(g, b, keep, s0), b, keep)
  {
    var h := UnlinkOne(g, b, keep, s0);
    forall s, i | 0 <= s < |h.code| && 0 <= i < |h.code[s].instrs| && h.code[s].instrs[i].op.Phi?
      ensures PairsFitIn(h.code[s].instrs[i].op.pairs, if s == keep then h.cfg.preds[s] + [b] else h.cfg.preds[s])
    {
      var pairs := g.code[s].instrs[i].op.pairs;
      assert PairsFitIn(pairs, if s == keep then g.cfg.preds[s] + [b] else g.cfg.preds[s]);
      if s == s0 && s != keep {
        DroppedFits(pairs, g.cfg.preds[s], b);
      } else if s == s0 {
        RemovedKeepsFit(pairs, g.cfg.preds[s], b);
      }
    }
  }

  lemma RemovedKeepsFit(pairs: Pairs, preds: seq<Node>, b: Node)
    requires PairsFitIn(pairs, preds + [b])
    ensures PairsFitIn(pairs, Removed(preds, b) + [b])
  {
    forall q | q in pairs ensures q.1 in Removed(preds, b) + [b] {
      if q.1 != b {
        assert q.1 in preds && multiset(preds)[q.1] > 0;
        assert multiset(Removed(preds, b))[q.1] > 0;
      } else {
        assert (Removed(preds, b) + [b])[|Removed(preds, b)|] == b;
      }
    }
  }

  lemma FitStarts(f: Func, b: Node, keep: Node)
    requires PairsFit(f) && |f.cfg.preds| == |f.code|
    ensures FitsMeanwhile(f, b, keep)
  {
    forall s, i | 0 <= s < |f.code| && 0 <= i < |f.code[s].instrs| && f.code[s].instrs[i].op.Phi?
      ensures PairsFitIn(f.code[s].instrs[i].op.pairs, if s == keep then f.cfg.preds[s] + [b] else f.cfg.preds[s])
    {
      assert PairsFitIn(f.code[s].instrs[i].op.pairs, f.cfg.preds[s]);
    }
  }

  lemma FitEnds(g: Func, b: Node, keep: Node)
    requires FitsMeanwhile(g, b, keep) && b < |g.code| && keep < |g.cfg.preds| && b < |g.cfg.succs|
    ensures PairsFit(Relink(g, b, keep))
  {
    var h := Relink(g, b, keep);
    forall s, i | 0 <= s < |h.code| && s < |h.cfg.preds| && 0 <= i < |h.code[s].instrs| && h.code[s].instrs[i].op.Phi?
      ensures PairsFitIn(h.code[s].instrs[i].op.pairs, h.cfg.preds[s])
    {
      assert h.code[s].instrs[i] == g.code[s].instrs[i];
      assert PairsFitIn(g.code[s].instrs[i].op.pairs, if s == keep then g.cfg.preds[s] + [b] else g.cfg.preds[s]);
    }
  }

  /** No phi outside `keep` has a pair naming b. */
  ghost predicate OnlyKeptNames(g: Func, b: Node, keep: Node) {
    forall s, i {:trigger g.code[s].instrs[i]} ::
      0 <= s < |g.code| && s != keep && 0 <= i < |g.code[s].instrs| && g.code[s].instrs[i].op.Phi? ==>
      !Mentions(g.code[s].instrs[i].op.pairs, b)
  }

  /** Once b only leads to `keep`, fitting pairs cannot name it elsewhere. */
  lemma FoldedIsUnnamed(g: Func, b: Node, keep: Node)
    requires ValidFunc(g) && Mirrored(g.cfg) && PairsFit(g) && b < |g.code| && g.cfg.succs[b] == [keep]
    ensures OnlyKeptNames(g, b, keep)
  {
    forall s, i | 0 <= s < |g.code| && s != keep && 0 <= i < |g.code[s].instrs| && g.code[s].instrs[i].op.Phi?
      ensures !Mentions(g.code[s].instrs[i].op.pairs, b)
    {
      var pairs := g.code[s].instrs[i].op.pairs;
      assert PairsFitIn(pairs, g.cfg.preds[s]);
      assert multiset(g.cfg.succs[b])[s] == multiset(g.cfg.preds[s])[b];
      forall j | 0 <= j < |pairs| ensures pairs[j].1 != b {
        assert pairs[j] in pairs && multiset(g.cfg.preds[s])[pairs[j].1] > 0;
      }
    }
  }

  // ------------------------------------------------------------------- the pass

  /** What folding keeps and achieves for a whole function. */
  ghost predicate FoldedTo(f: Func, g: Func) {
    && ValidFunc(g) && Mirrored(g.cfg) && EqualRuns(f, g) && |g.code| == |f.code| && g.args == f.args
    && (PairsFit(f) ==> PairsFit(g))
  }

  /** What becomes of one block's terminator and successor list: a branch on a constant is
      a jump to its first target unless the constant is zero, and then to its second. */
  ghost predicate TermFolded(t: Term, ss: seq<Node>, t2: Term, ss2: seq<Node>) {
    if t.Branch? && t.cond.Const? && t.cond.value.Word? then
      && (t.cond.value.bits != 0 ==> t2 == Jump(t.onTrue) && ss2 == [t.onTrue])
      && (t.cond.value.bits == 0 ==> t2 == Jump(t.onFalse) && ss2 == [t.onFalse])
    else t2 == t && ss2 == ss
  }

  /** The blocks from b on are as they were, those before are folded. */
  ghost predicate FoldedUpTo(f: Func, g: Func, b: nat)
    requires |f.code| == |f.cfg.succs| && |g.code| == |g.cfg.succs| == |f.code|
  {
    forall c {:trigger g.code[c]} {:trigger g.cfg.succs[c]} :: 0 <= c < |f.code| ==>
      if c < b then TermFolded(f.code[c].term, f.cfg.succs[c], g.code[c].term, g.cfg.succs[c])
      else g.code[c].term == f.code[c].term && g.cfg.succs[c] == f.cfg.succs[c]
  }

  /** The first i successors of b are done. */
  ghost predicate FoldingAt(f: Func, g: Func, b: Node, keep: Node, i: nat) {
    && FoldsAt(f, b, keep) && Mirrored(f.cfg) && keep < |f.code|
    && Unlinked(f, g, b, keep, i) && PredsAt(f, g, b, i) && (PairsFit(f) ==> FitsMeanwhile(g, b, keep))
  }

  lemma FoldingStarts(f: Func, b: Node, keep: Node)
    requires FoldsAt(f, b, keep) && Mirrored(f.cfg)
    ensures FoldingAt(f, f, b, keep, 0)
  {
    KeepInRange(f, b, keep);
    UnlinkStarts(f, b, keep);
    if PairsFit(f) {
      FitStarts(f, b, keep);
    }
  }

  lemma FoldingStep(f: Func, g: Func, b: Node, keep: Node, i: nat)
    requires FoldingAt(f, g, b, keep, i) && i < |f.cfg.succs[b]|
    ensures f.cfg.succs[b][i] < |g.code| == |g.cfg.preds| && g.cfg.succs == f.cfg.succs
    ensures FoldingAt(f, UnlinkOne(g, b, keep, f.cfg.succs[b][i]), b, keep, i + 1)
  {
    var s := f.cfg.succs[b][i];
    assert s in f.cfg.succs[b] && s < |f.code|;
    UnlinkStep(f, g, b, keep, i);
    PredsStep(f, g, b, keep, i);
    if PairsFit(f) {
      UnlinkKeepsFit(g, b, keep, s);
    }
  }

  lemma FoldingEnds(f: Func, g: Func, b: Node, keep: Node)
    requires b < |f.cfg.succs| && FoldingAt(f, g, b, keep, |f.cfg.succs[b]|)
    ensures b < |g.code| && keep < |g.cfg.preds| && b < |g.cfg.succs|
    ensures FoldedTo(f, Relink(g, b, keep)) && PredsFolded(f, Relink(g, b, keep), b, keep)
    ensures forall c :: 0 <= c < |f.code| && c != b ==> Relink(g, b, keep).code[c].term == f.code[c].term
    ensures PairsFit(f) ==> OnlyKeptNames(Relink(g, b, keep), b, keep)
  {
    FoldFinishes(f, g, b, keep);
    PredsFinish(f, g, b, keep);
    if PairsFit(f) {
      FoldedIsUnnamed(Relink(g, b, keep), b, keep);
    }
  }

  class BranchFolder {
    var func: Func

    constructor (f: Func)
      ensures func == f
    {
      func := f;
    }

    /** The pair loop on one phi, operand positions counted in pairs. */
    static method DropPairs(pairs0: Pairs, b: Node) returns (pairs: Pairs)
      ensures pairs == Dropped(pairs0, b)
    {
      pairs := pairs0;
      var i := 0;
      while i < |pairs|
        invariant DroppedTo(pairs0, pairs, i, b)
        decreases |pairs| - i
      {
        DropStep(pairs0, pairs, i, b);
        if pairs[i].1 == b {
          pairs := pairs[..i] + pairs[i + 1..];
        }
        i := i + 1;
      }
    }

    /** The instruction loop on one dropped successor. */
    static method DropPhis(instrs: seq<Instr>, b: Node) returns (r: seq<Instr>)
      ensures r == DropAll(instrs, b)
    {
      r := [];
      for i := 0 to |instrs|
        invariant |r| == i && forall j :: 0 <= j < i ==> r[j] == DropIn(instrs[j], b)
      {
        var ins := instrs[i];
        if ins.op.Phi? {
          var pairs := DropPairs(ins.op.pairs, b);
          ins := Instr(ins.id, Phi(ins.op.slot, pairs));
        }
        r := r + [ins];
      }
    }

    /** `remove_pre_basic_block` */
    static method RemoveFrom(xs: seq<Node>, x: Node) returns (r: seq<Node>)
      ensures r == Removed(xs, x)
    {
      r := [];
      for i := 0 to |xs|
        invariant r == Removed(xs[..i], x)
      {
        RemovedJoins(xs[..i], [xs[i]], x);
        assert xs[..i + 1] == xs[..i] + [xs[i]];
        if xs[i] != x {
          r := r + [xs[i]];
        }
      }
      assert xs[..|xs|] == xs;
    }

    /** One successor of bb. */
    method Unlink(bb: Node, keep: Node, s: Node)
      requires s < |func.code| == |func.cfg.preds|
      modifies this
      ensures func == UnlinkOne(old(func), bb, keep, s)
    {
      var code := func.code;
      if s != keep {
        var instrs := DropPhis(func.code[s].instrs, bb);
        code := code[s := Code(instrs, func.code[s].term)];
      }
      var preds := func.cfg.preds;
      var left := RemoveFrom(preds[s], bb);
      preds := preds[s := left];
      func := Func(func.args, Cfg(func.cfg.succs, preds), code);
    }

    /** Folds the branch of bb, whose condition is constant. */
    method Fold(bb: Node, keep: Node)
      requires FoldsAt(func, bb, keep) && Mirrored(func.cfg)
      modifies this
      ensures FoldedTo(old(func), func)
      ensures func == Folded(old(func), bb, keep)
      ensures func.cfg.succs == old(func).cfg.succs[bb := [keep]] && func.code[bb].term == Jump(keep)
      ensures forall b :: 0 <= b < |func.code| && b != bb ==> func.code[b].term == old(func).code[b].term
      ensures PredsFolded(old(func), func, bb, keep)
      ensures PairsFit(old(func)) ==> OnlyKeptNames(func, bb, keep)
    {
      ghost var f := func;
      FoldingStarts(f, bb, keep);
      for i := 0 to |func.cfg.succs[bb]|
        invariant func == UnlinkTo(f, bb, keep, i) && FoldingAt(f, func, bb, keep, i)
      {
        FoldingStep(f, func, bb, keep, i);
        Unlink(bb, keep, func.cfg.succs[bb][i]);
      }
      FoldingEnds(f, func, bb, keep);
      func := Relink(func, bb, keep);
    }

    /** The block loop. */
    method Run()
      requires ValidFunc(func) && Mirrored(func.cfg)
      modifies this
      ensures FoldedTo(old(func), func)
      ensures forall b {:trigger func.code[b]} {:trigger func.cfg.succs[b]} :: 0 <= b < |func.code| ==>
        TermFolded(old(func).code[b].term, old(func).cfg.succs[b], func.code[b].term, func.cfg.succs[b])
      ensures forall b {:trigger func.code[b]} :: 0 <= b < |func.code| && func.code[b].term.Branch? ==>
        !(func.code[b].term.cond.Const? && func.code[b].term.cond.value.Word?)
    {
      for bb := 0 to |func.code|
        invariant FoldedTo(old(func), func) && FoldedUpTo(old(func), func, bb)
      {
        ghost var before := func;
        var target := TargetOf(func.code[bb].term);
        if target.Some? {
          Fold(bb, target.value);
          EqualRunsTrans(old(func), before, func);
        }
      }
    }
  }

  lemma FoldFinishes(f: Func, g: Func, b: Node, keep: Node)
    requires FoldsAt(f, b, keep) && Mirrored(f.cfg) && Unlinked(f, g, b, keep, |f.cfg.succs[b]|) && keep < |f.code|
    requires PairsFit(f) ==> FitsMeanwhile(g, b, keep)
    ensures FoldedTo(f, Relink(g, b, keep))
    ensures forall c :: 0 <= c < |f.code| && c != b ==> Relink(g, b, keep).code[c].term == f.code[c].term
  {
    FoldKeepsValid(f, g, b, keep);
    FoldKeepsRuns(f, g, b, keep);
    if PairsFit(f) {
      FitEnds(g, b, keep);
    }
    forall c | 0 <= c < |f.code| && c != b ensures Relink(g, b, keep).code[c].term == f.code[c].term {
      assert g.code[c].term == f.code[c].term;
    }
  }

  /** The pair loop at position i, which may be one past the end after an erasure. */
  ghost predicate DroppedTo(pairs0: Pairs, pairs: Pairs, i: nat, b: Node) {
    if i < |pairs| then pairs[..i] + Dropped(pairs[i..], b) == Dropped(pairs0, b)
    else i <= |pairs| + 1 && pairs == Dropped(pairs0, b)
  }

  /** Erasing at i and moving on leaves the next pair alone. */
  lemma DropStep(pairs0: Pairs, pairs: Pairs, i: nat, b: Node)
    requires i < |pairs| && DroppedTo(pairs0, pairs, i, b)
    ensures DroppedTo(pairs0, if pairs[i].1 == b then pairs[..i] + pairs[i + 1..] else pairs, i + 1, b)
  {
    var rest := pairs[i..];
    var k := if pairs[i].1 == b then 2 else 1;
    if k <= |rest| {
      assert rest[k..] == pairs[i + k..] && rest[k - 1] == pairs[i + k - 1];
      var after := if k == 2 then pairs[..i] + pairs[i + 1..] else pairs;
      assert after[..i + 1] == pairs[..i] + [rest[k - 1]] && after[i + 1..] == rest[k..];
      assert Dropped(rest, b) == [rest[k - 1]] + Dropped(rest[k..], b);
    }
  }
}
