/** The live-variable pass on the documentation's example: the guards hold there, and a phi
    keeps a value alive on its own edge only. */
module LivenessCases {
  import opened Wrappers
  import opened Graphs
  import opened ControlFlow
  import opened Ir
  import opened Scopes
  import opened Liveness
  import opened UseSets
  import opened LivenessSound
  import opened LivePaths
  import ActiveVars

  /** Block 2 takes value 3 from block 0 and value 4 from block 1, where 4 is defined. */
  function OneEachWay(): Func {
    Func({5}, Cfg([[1, 2], [2], []], [[], [0], [0, 1]]),
         [Code([Instr(3, Call(0, []))], Branch(Ref(5), 1, 2)),
          Code([Instr(4, Call(0, []))], Jump(2)),
          Code([Instr(6, Phi(0, [(Ref(3), 0), (Ref(4), 1)]))], Return(Some(Ref(6))))])
  }

  lemma OneEachWayIsValid(f: Func)
    requires f == OneEachWay()
    ensures ValidFunc(f)
  {
  }

  lemma OneEachWayHasIds(f: Func, b: Node, k: nat)
    requires f == OneEachWay() && k < |InstrsOf(f, b)|
    ensures b < 3 && k == 0 && !f.code[b].instrs[k].op.Store? && Reads(f.code[b].instrs[k].op) == []
    ensures f.code[b].instrs[k].id == if b == 2 then 6 else 3 + b
  {
  }

  lemma OneEachWayIsRecorded(f: Func)
    requires f == OneEachWay()
    ensures Recorded(f)
  {
    forall x: Name ensures !IsStoreId(f, x) {
      forall b: Node, i: nat | IdAt(f, b, i, x) ensures !f.code[b].instrs[i].op.Store? {
        OneEachWayHasIds(f, b, i);
      }
    }
    forall b: Node, k: nat, x ensures !ReadAt(f, b, k, x) {
      if k < |InstrsOf(f, b)| {
        OneEachWayHasIds(f, b, k);
      }
    }
    forall b: Node, k: nat | b < |f.code| && k < |f.code[b].instrs| ensures RecordedAt(f, b, k) {
      OneEachWayHasIds(f, b, k);
      if b == 2 {
        PhiIsRecorded(f);
      }
    }
  }

  lemma PhiIsRecorded(f: Func)
    requires f == OneEachWay()
    ensures RecordedAt(f, 2, 0)
  {
    var instrs, left := f.code[2].instrs, LeftValues(f);
    ActiveVars.LeftValuesAre(f);
    assert IdAt(f, 0, 0, 3) && IdAt(f, 1, 0, 4);
    assert instrs[..1] == instrs && Ids(instrs) == {6};
  }

  /** Block b reads first, on the edge from p, exactly this. */
  lemma OneEachWayReads(f: Func, v: Name, b: Node, p: Node)
    requires f == OneEachWay() && b < 3
    ensures !ReadsFirst(f.code[b], (v, Some(p))) || b == 2
    ensures b == 2 ==> (ReadsFirst(f.code[2], (v, Some(p))) <==> (v == 3 && p == 0) || (v == 4 && p == 1))
    ensures b != 0 ==> !ReadsFirst(f.code[b], (v, None))
  {
    var c := f.code[b];
    var u: Use := (v, Some(p));
    forall k: nat ensures FirstReadAt(c, k, u) <==> b == 2 && k == 0 && ((v == 3 && p == 0) || (v == 4 && p == 1)) {
      if k < |c.instrs| {
        OneEachWayHasIds(f, b, k);
        assert c.instrs[..1] == c.instrs && Ids(c.instrs) == {c.instrs[0].id};
      }
    }
    forall k: nat ensures !FirstReadAt(c, k, (v, None)) {
      if k < |c.instrs| {
        OneEachWayHasIds(f, b, k);
      }
    }
    assert b == 2 && ((v == 3 && p == 0) || (v == 4 && p == 1)) ==> FirstReadAt(c, 0, u);
    assert b == 2 ==> c.instrs[0].id in Ids(c.instrs);
  }

  lemma OneEachWayPaths(f: Func, v: Name, b: Node)
    requires f == OneEachWay() && b < 3
    ensures ReadLater(f, v, b) <==> (b == 0 && v == 3) || (b == 1 && v == 4)
  {
    if ReadLater(f, v, b) {
      var w :| ReadsOn(f, v, w) && w[0] == b;
      var n := |w| - 1;
      assert LivePaths.Step(f, w, n - 1);
      OneEachWayReads(f, v, w[n], w[n - 1]);
    }
    if (b == 0 && v == 3) || (b == 1 && v == 4) {
      OneEachWayReads(f, v, 2, b);
      var w := [b, 2];
      forall i: nat ensures LivePaths.Step(f, w, i) {}
      assert ReadsOn(f, v, w);
    }
  }

  lemma OneEachWayLives(f: Func, b: Node, live: set<Name>)
    requires f == OneEachWay() && b < 3 && forall v: Name :: v in live <==> ReadLater(f, v, b)
    ensures live == if b == 0 then {3} else if b == 1 then {4} else {}
  {
    forall v: Name ensures v in live <==> (b == 0 && v == 3) || (b == 1 && v == 4) {
      OneEachWayPaths(f, v, b);
    }
  }

  lemma OneEachWayLiveSets(f: Func, live: seq<set<Name>>)
    requires f == OneEachWay() && |live| == |f.code|
    requires forall b: Node, v: Name {:trigger v in live[b]} :: b < |f.code| ==> (v in live[b] <==> ReadLater(f, v, b))
    ensures |live| == 3 && live[0] == {3} && live[1] == {4} && live[2] == {}
  {
    OneEachWayLives(f, 0, live[0]);
    OneEachWayLives(f, 1, live[1]);
    OneEachWayLives(f, 2, live[2]);
  }

  method LiveOut(f: Func) returns (live: seq<set<Name>>)
    requires ValidFunc(f) && Recorded(f)
    ensures |live| == |f.code|
    ensures forall b: Node, v: Name {:trigger v in live[b]} :: b < |f.code| ==> (v in live[b] <==> ReadLater(f, v, b))
  {
    var active := new ActiveVars.ActiveVars();
    var ok := active.Run(f);
    live := active.liveOut;
  }

  /** On the way to the phi value 3 is live at the end of block 0 and not at the end of
      block 1, value 4 the other way round. */
  method AnalyseOneEachWay() returns (live: seq<set<Name>>)
    ensures |live| == 3 && live[0] == {3} && live[1] == {4} && live[2] == {}
  {
    var f := OneEachWay();
    OneEachWayIsValid(f);
    OneEachWayIsRecorded(f);
    live := LiveOut(f);
    OneEachWayLiveSets(f, live);
  }
}
