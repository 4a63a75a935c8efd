/** Which functions the recursion check marks: those that some simple path from the
    entry leads back to. */
module CallCycles {
  import opened Graphs

  ghost predicate Simple(p: seq<Node>) {
    forall i, j :: 0 <= i < j < |p| ==> p[i] != p[j]
  }

  ghost predicate Avoids(p: seq<Node>, s: set<Node>) {
    forall x :: x in p ==> x !in s
  }

  /** p is a simple path from e outside `visited` whose end has an edge back to s, on p or
      in `visited`. */
  ghost predicate LeadsBack(g: Graph, visited: set<Node>, e: Node, s: Node, p: seq<Node>) {
    && Walk(g, p) && p[0] == e && Simple(p) && Avoids(p, visited)
    && Edge(g, p[|p| - 1], s) && (s in visited || s in p)
  }

  ghost predicate IsBack(g: Graph, visited: set<Node>, e: Node, s: Node) {
    exists p :: LeadsBack(g, visited, e, s, p)
  }

  /** Such a path ends at e itself or goes on from one of its successors. */
  lemma BackStep(g: Graph, visited: set<Node>, e: Node, s: Node)
    requires e !in visited
    ensures IsBack(g, visited, e, s) <==>
      (Edge(g, e, s) && s in visited + {e}) ||
      exists d :: Edge(g, e, d) && d !in visited + {e} && IsBack(g, visited + {e}, d, s)
  {
    if IsBack(g, visited, e, s) {
      var p :| LeadsBack(g, visited, e, s, p);
      if |p| > 1 {
        PathTail(g, visited, e, s, p);
      }
    }
    if Edge(g, e, s) && s in visited + {e} {
      assert LeadsBack(g, visited, e, s, [e]);
    }
    if exists d :: Edge(g, e, d) && d !in visited + {e} && IsBack(g, visited + {e}, d, s) {
      var d :| Edge(g, e, d) && d !in visited + {e} && IsBack(g, visited + {e}, d, s);
      var q :| LeadsBack(g, visited + {e}, d, s, q);
      PathFront(g, visited, e, d, s, q);
    }
  }

  lemma PathTail(g: Graph, visited: set<Node>, e: Node, s: Node, p: seq<Node>)
    requires LeadsBack(g, visited, e, s, p) && |p| > 1
    ensures Edge(g, e, p[1]) && p[1] !in visited + {e} && LeadsBack(g, visited + {e}, p[1], s, p[1..])
  {
    var q := p[1..];
    assert Edge(g, p[0], p[1]);
    forall i, j | 0 <= i && j == i + 1 && j < |q| ensures Edge(g, q[i], q[j]) {
      assert q[i] == p[i + 1] && q[j] == p[j + 1];
    }
    assert p == [e] + q;
  }

  lemma PathFront(g: Graph, visited: set<Node>, e: Node, d: Node, s: Node, q: seq<Node>)
    requires Edge(g, e, d) && e !in visited && LeadsBack(g, visited + {e}, d, s, q)
    ensures LeadsBack(g, visited, e, s, [e] + q)
  {
    var p := [e] + q;
    forall i, j | 0 <= i && j == i + 1 && j < |p| ensures Edge(g, p[i], p[j]) {
      assert i > 0 ==> p[i] == q[i - 1] && p[j] == q[j - 1];
    }
    forall i, j | 0 <= i < j < |p| ensures p[i] != p[j] {
      assert q[j - 1] in q;
    }
  }

  // ------------------------------------------------------------- what is marked

  /** A marked function is on a cycle. */
  lemma MarkedIsOnCycle(g: Graph, e: Node, s: Node)
    requires IsBack(g, {}, e, s)
    ensures exists t :: Edge(g, t, s) && Reaches(g, s, t)
  {
    var p :| LeadsBack(g, {}, e, s, p);
    var k :| 0 <= k < |p| && p[k] == s;
    var q := p[k..];
    forall i, j | 0 <= i && j == i + 1 && j < |q| ensures Edge(g, q[i], q[j]) {
      assert q[i] == p[k + i] && q[j] == p[k + j];
    }
    assert WalkBetween(g, q, s, p[|p| - 1]);
  }

  /** A walk can be cut to a simple one. */
  lemma {:induction false} SimpleWalk(g: Graph, w: seq<Node>, a: Node, b: Node) returns (p: seq<Node>)
    requires WalkBetween(g, w, a, b)
    ensures WalkBetween(g, p, a, b) && Simple(p)
    decreases |w|
  {
    if Simple(w) {
      p := w;
    } else {
      var i, j :| 0 <= i < j < |w| && w[i] == w[j];
      var v := w[..i] + w[j..];
      forall k, l | 0 <= k && l == k + 1 && l < |v| ensures Edge(g, v[k], v[l]) {
        if l < i {
          assert Edge(g, w[k], w[l]);
        } else if k < i {
          assert Edge(g, w[k], w[i]);
        } else {
          assert Edge(g, w[k - i + j], w[l - i + j]);
        }
      }
      p := SimpleWalk(g, v, a, b);
    }
  }

  ghost predicate HasSuccessorIn(g: Graph, c: set<Node>, x: Node) {
    exists y :: y in c && Edge(g, x, y)
  }

  /** In every set of functions that each call one of the set, one of them is marked, if
      the entry reaches the set. */
  lemma CyclesAreMarked(g: Graph, e: Node, c: set<Node>, x: Node)
    requires x in c && Reaches(g, e, x) && forall y :: y in c ==> HasSuccessorIn(g, c, y)
    ensures exists s :: s in c && IsBack(g, {}, e, s)
  {
    var w :| WalkBetween(g, w, e, x);
    var p := SimpleWalk(g, w, e, x);
    FollowCycle(g, e, c, p);
  }

  ghost function NotYet(c: set<Node>, p: seq<Node>): set<Node> {
    set x | x in c && x !in p
  }

  lemma ExtendsPath(g: Graph, c: set<Node>, p: seq<Node>, y: Node)
    requires Walk(g, p) && Simple(p) && Edge(g, p[|p| - 1], y) && y !in p && y in c
    ensures Walk(g, p + [y]) && Simple(p + [y]) && NotYet(c, p + [y]) < NotYet(c, p)
  {
    assert NotYet(c, p + [y]) == NotYet(c, p) - {y} && y in NotYet(c, p);
  }

  lemma {:induction false} FollowCycle(g: Graph, e: Node, c: set<Node>, p: seq<Node>)
    requires Walk(g, p) && p[0] == e && Simple(p) && p[|p| - 1] in c && forall y :: y in c ==> HasSuccessorIn(g, c, y)
    ensures exists s :: s in c && IsBack(g, {}, e, s)
    decreases NotYet(c, p)
  {
    assert HasSuccessorIn(g, c, p[|p| - 1]);
    var y :| y in c && Edge(g, p[|p| - 1], y);
    if y in p {
      assert LeadsBack(g, {}, e, y, p);
    } else {
      ExtendsPath(g, c, p, y);
      FollowCycle(g, e, c, p + [y]);
    }
  }
}
