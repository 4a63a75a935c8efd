/** Control-flow graphs as the passes see them: blocks are positions in the
    function's block list, with successor and predecessor lists. */
module ControlFlow {
  import opened Graphs

  datatype Cfg = Cfg(succs: seq<seq<Node>>, preds: seq<seq<Node>>) {

    /** The two lists mirror each other. A block may be listed twice, as it is
        when both targets of a branch coincide. */
    ghost predicate Valid() {
      && 0 < |succs| == |preds|
      && (forall p, s {:trigger s in succs[p]} :: 0 <= p < |succs| && s in succs[p] ==> s < |succs| && p in preds[s])
      && (forall p, s {:trigger p in preds[s]} :: 0 <= s < |preds| && p in preds[s] ==> p < |succs| && s in succs[p])
    }

    function Edges(): Graph {
      map b | 0 <= b < |succs| :: set s | s in succs[b]
    }

    ghost predicate IsReachable(b: Node) {
      Reaches(Edges(), ENTRY, b)
    }

    /** No edge leads from an unreachable block to a reachable one. */
    ghost predicate ReachablePreds() {
      forall p, s {:trigger Edge(Edges(), p, s)} :: Edge(Edges(), p, s) && IsReachable(s) ==> IsReachable(p)
    }

    lemma EdgeLists(p: Node, s: Node)
      requires Valid()
      ensures Edge(Edges(), p, s) <==> (p < |succs| && s in succs[p])
      ensures Edge(Edges(), p, s) ==> s in Edges()
      ensures Edge(Edges(), p, s) <==> (s < |preds| && p in preds[s])
    {
    }
  }
}
