/** The liveness equations over pairs (value, incoming block or none), their least
    solution, and its reading as paths. */
module Liveness {
  import opened Wrappers
  import opened Graphs
  import opened Ir

  /** A value with the block whose edge reads it, as a phi does, or with no block. */
  type Use = (Name, Option<Node>)

  type Sets = seq<set<Use>>

  datatype Flow = Flow(succs: seq<seq<Node>>, use: Sets, def: seq<set<Name>>)

  ghost predicate ValidFlow(p: Flow) {
    && |p.use| == |p.def| == |p.succs|
    && forall b, i {:trigger p.succs[b][i]} :: 0 <= b < |p.succs| && 0 <= i < |p.succs[b]| ==> p.succs[b][i] < |p.succs|
  }

  ghost predicate Arc(p: Flow, b: Node, s: Node) {
    b < |p.succs| && s in p.succs[b]
  }

  ghost predicate Fits(p: Flow, sets: Sets) {
    |sets| == |p.succs|
  }

  /** What a pair live on entry to a successor of b asks for at the end of b. */
  function Carried(u: Use, b: Node): set<Use> {
    if u.1 == None || u.1 == Some(b) then {(u.0, None)} else {}
  }

  ghost predicate OutHolds(p: Flow, ins: Sets, outs: Sets, b: Node, s: Node)
    requires Fits(p, ins) && Fits(p, outs) && b < |outs| && s < |ins|
  {
    forall u :: u in ins[s] ==> Carried(u, b) <= outs[b]
  }

  ghost predicate InHolds(p: Flow, ins: Sets, outs: Sets, b: Node)
    requires ValidFlow(p) && Fits(p, ins) && Fits(p, outs) && b < |outs|
  {
    p.use[b] <= ins[b] && forall u :: u in outs[b] && u.0 !in p.def[b] ==> u in ins[b]
  }

  /** The equations, read as inclusions. */
  ghost predicate IsSolution(p: Flow, ins: Sets, outs: Sets)
    requires ValidFlow(p)
  {
    && Fits(p, ins) && Fits(p, outs)
    && (forall b: Node, s: Node {:trigger Arc(p, b, s)} :: Arc(p, b, s) ==> OutHolds(p, ins, outs, b, s))
    && (forall b {:trigger InHolds(p, ins, outs, b)} :: 0 <= b < |ins| ==> InHolds(p, ins, outs, b))
  }

  ghost predicate Below(p: Flow, x: Sets, y: Sets)
    requires Fits(p, x) && Fits(p, y)
  {
    forall b {:trigger x[b]} :: 0 <= b < |x| ==> x[b] <= y[b]
  }

  ghost predicate BelowSolutions(p: Flow, ins: Sets, outs: Sets)
    requires ValidFlow(p) && Fits(p, ins) && Fits(p, outs)
  {
    forall i, o {:trigger IsSolution(p, i, o)} :: IsSolution(p, i, o) ==> Below(p, ins, i) && Below(p, outs, o)
  }

  ghost predicate IsLeast(p: Flow, ins: Sets, outs: Sets)
    requires ValidFlow(p)
  {
    IsSolution(p, ins, outs) && BelowSolutions(p, ins, outs)
  }

  // ------------------------------------------------------------------- paths

  ghost predicate Chain(p: Flow, w: seq<Node>) {
    forall i, j {:trigger w[i], w[j]} :: 0 <= i && j == i + 1 && j < |w| ==> Arc(p, w[i], w[j])
  }

  /** The walk w leaves its first block, and its last block reads v, or reads it in a phi
      for the walk's last edge, before any block in between defines v. */
  ghost predicate ReadsAlong(p: Flow, v: Name, w: seq<Node>)
    requires ValidFlow(p)
  {
    && |w| >= 2 && Chain(p, w)
    && (forall i :: 0 < i < |w| - 1 ==> w[i] < |p.def| && v !in p.def[w[i]])
    && w[|w| - 1] < |p.use|
    && ((v, None) in p.use[w[|w| - 1]] || (v, Some(w[|w| - 2])) in p.use[w[|w| - 1]])
  }

  ghost predicate LiveAfter(p: Flow, v: Name, b: Node)
    requires ValidFlow(p)
  {
    exists w :: ReadsAlong(p, v, w) && w[0] == b
  }

  lemma ArcInRange(p: Flow, b: Node, s: Node)
    requires ValidFlow(p) && Arc(p, b, s)
    ensures s < |p.succs|
  {
    var i :| 0 <= i < |p.succs[b]| && p.succs[b][i] == s;
  }

  /** Any solution has v at the end of the first block of such a walk. */
  lemma {:induction false} WalkIsLive(p: Flow, ins: Sets, outs: Sets, v: Name, w: seq<Node>)
    requires ValidFlow(p) && IsSolution(p, ins, outs) && ReadsAlong(p, v, w)
    ensures w[0] < |outs| && (v, None) in outs[w[0]]
    decreases |w|
  {
    var b, s := w[0], w[1];
    assert Arc(p, b, s);
    ArcInRange(p, b, s);
    assert OutHolds(p, ins, outs, b, s) && InHolds(p, ins, outs, s);
    if |w| == 2 {
      var u: Use := if (v, None) in p.use[s] then (v, None) else (v, Some(b));
      assert u in ins[s] && (v, None) in Carried(u, b);
    } else {
      var rest := w[1..];
      forall i, j | 0 <= i && j == i + 1 && j < |rest| ensures Arc(p, rest[i], rest[j]) {
        assert rest[i] == w[i + 1] && rest[j] == w[j + 1];
      }
      WalkIsLive(p, ins, outs, v, rest);
      assert v !in p.def[w[1]];
      assert (v, None) in ins[s] && (v, None) in Carried((v, None), b);
    }
  }

  ghost function Names(us: set<Use>): set<Name> {
    set u | u in us :: u.0
  }

  ghost function AllNames(use: Sets): set<Name> {
    if use == [] then {} else AllNames(use[..|use| - 1]) + Names(use[|use| - 1])
  }

  lemma {:induction false} NameOf(use: Sets, b: nat, u: Use)
    requires b < |use| && u in use[b]
    ensures u.0 in AllNames(use)
  {
    if b < |use| - 1 {
      NameOf(use[..|use| - 1], b, u);
    }
  }

  /** The solution that the walks describe. */
  ghost function PathOut(p: Flow, b: Node): set<Use>
    requires ValidFlow(p)
  {
    set v | v in AllNames(p.use) && LiveAfter(p, v, b) :: (v, None)
  }

  ghost function PathIn(p: Flow, b: Node): set<Use>
    requires ValidFlow(p) && b < |p.use|
  {
    p.use[b] + set u | u in PathOut(p, b) && u.0 !in p.def[b]
  }

  ghost function PathOuts(p: Flow): Sets
    requires ValidFlow(p)
  {
    seq(|p.succs|, b requires 0 <= b < |p.succs| => PathOut(p, b))
  }

  ghost function PathIns(p: Flow): Sets
    requires ValidFlow(p)
  {
    seq(|p.succs|, b requires 0 <= b < |p.succs| => PathIn(p, b))
  }

  lemma PathsAreSolution(p: Flow)
    requires ValidFlow(p)
    ensures IsSolution(p, PathIns(p), PathOuts(p))
  {
    var ins, outs := PathIns(p), PathOuts(p);
    forall b: Node, s: Node | Arc(p, b, s) ensures s < |ins| && OutHolds(p, ins, outs, b, s) {
      ArcInRange(p, b, s);
      forall u | u in ins[s] ensures Carried(u, b) <= outs[b] {
        if u.1 == None || u.1 == Some(b) {
          PathExtends(p, b, s, u);
        }
      }
    }
  }

  lemma PathExtends(p: Flow, b: Node, s: Node, u: Use)
    requires ValidFlow(p) && Arc(p, b, s) && s < |p.use| && u in PathIn(p, s) && (u.1 == None || u.1 == Some(b))
    ensures (u.0, None) in PathOut(p, b)
  {
    var v := u.0;
    if u in p.use[s] {
      NameOf(p.use, s, u);
      assert ReadsAlong(p, v, [b, s]) && [b, s][0] == b;
    } else {
      assert u in PathOut(p, s) && LiveAfter(p, v, s);
      var w :| ReadsAlong(p, v, w) && w[0] == s;
      var w2 := [b] + w;
      forall i, j | 0 <= i && j == i + 1 && j < |w2| ensures Arc(p, w2[i], w2[j]) {
        assert i > 0 ==> w2[i] == w[i - 1] && w2[j] == w[j - 1];
      }
      forall i | 0 < i < |w2| - 1 ensures w2[i] < |p.def| && v !in p.def[w2[i]] {
        assert w2[i] == w[i - 1];
      }
      assert ReadsAlong(p, v, w2) && w2[0] == b;
    }
  }

  /** v is live at the end of b iff some path leaves b and reads v before defining it. */
  lemma LeastIsPaths(p: Flow, ins: Sets, outs: Sets, b: Node, v: Name)
    requires ValidFlow(p) && IsLeast(p, ins, outs) && b < |outs|
    ensures v in Names(outs[b]) <==> LiveAfter(p, v, b)
    ensures forall u :: u in outs[b] ==> u.1 == None
  {
    PathsAreSolution(p);
    assert Below(p, outs, PathOuts(p));
    assert outs[b] <= PathOuts(p)[b];
    if v in Names(outs[b]) {
      var u :| u in outs[b] && u.0 == v;
      assert u in PathOut(p, b);
    }
    if LiveAfter(p, v, b) {
      var w :| ReadsAlong(p, v, w) && w[0] == b;
      WalkIsLive(p, ins, outs, v, w);
      var u: Use := (v, None);
      assert u in outs[b] && u.0 == v;
    }
  }

  // ------------------------------------------------------------- the iteration

  /** Everything found so far is in every solution, and in- and out-sets fit. */
  ghost predicate Partial(p: Flow, ins: Sets, outs: Sets) {
    ValidFlow(p) && Fits(p, ins) && Fits(p, outs) && BelowSolutions(p, ins, outs)
  }

  lemma PartialStarts(p: Flow, none: Sets)
    requires ValidFlow(p) && Fits(p, none) && forall b {:trigger none[b]} :: 0 <= b < |none| ==> none[b] == {}
    ensures Partial(p, none, none)
  {
  }

  lemma OutGrows(p: Flow, ins: Sets, outs: Sets, b: Node, s: Node, u: Use)
    requires Partial(p, ins, outs) && Arc(p, b, s) && s < |ins| && u in ins[s]
    ensures Partial(p, ins, outs[b := outs[b] + Carried(u, b)])
  {
    var outs2 := outs[b := outs[b] + Carried(u, b)];
    forall i, o | IsSolution(p, i, o) ensures Below(p, ins, i) && Below(p, outs2, o) {
      assert OutHolds(p, i, o, b, s) && Below(p, ins, i) && Below(p, outs, o);
      assert ins[s] <= i[s] && outs[b] <= o[b];
    }
  }

  lemma InGrows(p: Flow, ins: Sets, outs: Sets, b: Node, u: Use)
    requires Partial(p, ins, outs) && b < |ins| && (u in p.use[b] || (u in outs[b] && u.0 !in p.def[b]))
    ensures Partial(p, ins[b := ins[b] + {u}], outs)
  {
    var ins2 := ins[b := ins[b] + {u}];
    forall i, o | IsSolution(p, i, o) ensures Below(p, ins2, i) && Below(p, outs, o) {
      assert InHolds(p, i, o, b) && Below(p, ins, i) && Below(p, outs, o);
      assert outs[b] <= o[b] && ins[b] <= i[b];
    }
  }

  /** Blocks below b satisfy their equations. */
  ghost predicate SweptTo(p: Flow, ins: Sets, outs: Sets, b: nat)
    requires ValidFlow(p) && Fits(p, ins) && Fits(p, outs)
  {
    && (forall c: Node, s: Node {:trigger Arc(p, c, s)} :: c < b && Arc(p, c, s) ==> OutHolds(p, ins, outs, c, s))
    && (forall c {:trigger InHolds(p, ins, outs, c)} :: 0 <= c < b && c < |ins| ==> InHolds(p, ins, outs, c))
  }

  lemma SweepEnds(p: Flow, ins: Sets, outs: Sets)
    requires Partial(p, ins, outs) && SweptTo(p, ins, outs, |p.succs|)
    ensures IsLeast(p, ins, outs)
  {
    forall c: Node, s: Node | Arc(p, c, s) ensures s < |ins| && OutHolds(p, ins, outs, c, s) {
      ArcInRange(p, c, s);
    }
  }

  // --------------------------------------------------------------- termination

  /** All pairs the iteration can ever put into one in-set. */
  ghost function Universe(p: Flow): set<Use>
    requires ValidFlow(p)
  {
    AllUses(p.use) + set v | v in AllNames(p.use) :: (v, None)
  }

  ghost function AllUses(use: Sets): set<Use> {
    if use == [] then {} else AllUses(use[..|use| - 1]) + use[|use| - 1]
  }

  lemma {:induction false} UseIn(use: Sets, b: nat, u: Use)
    requires b < |use| && u in use[b]
    ensures u in AllUses(use)
  {
    if b < |use| - 1 {
      UseIn(use[..|use| - 1], b, u);
    }
  }

  ghost function Missing(p: Flow, ins: Sets): nat
    requires ValidFlow(p)
  {
    MissingFrom(Universe(p), ins)
  }

  ghost function MissingFrom(all: set<Use>, ins: Sets): nat {
    if ins == [] then 0 else MissingFrom(all, ins[..|ins| - 1]) + |all - ins[|ins| - 1]|
  }

  lemma {:induction false} MissingDrops(all: set<Use>, ins: Sets, b: nat, u: Use)
    requires b < |ins| && u in all && u !in ins[b]
    ensures MissingFrom(all, ins[b := ins[b] + {u}]) < MissingFrom(all, ins)
  {
    var k := |ins| - 1;
    var ins2 := ins[b := ins[b] + {u}];
    if b == k {
      assert ins2[..k] == ins[..k];
      assert all - ins2[k] == (all - ins[k]) - {u};
    } else {
      assert ins2[..k] == ins[..k][b := ins[..k][b] + {u}];
      MissingDrops(all, ins[..k], b, u);
    }
  }

  /** Whatever the iteration adds is in the universe. */
  lemma InUniverse(p: Flow, ins: Sets, outs: Sets, b: Node, u: Use)
    requires Partial(p, ins, outs) && b < |outs| && (u in p.use[b] || u in outs[b])
    ensures u in Universe(p)
  {
    if u in p.use[b] {
      UseIn(p.use, b, u);
    } else {
      PathsAreSolution(p);
      assert Below(p, outs, PathOuts(p));
      assert outs[b] <= PathOuts(p)[b];
    }
  }
}
