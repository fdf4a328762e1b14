/** Connectedness in an undirected graph, by paths. */
module Connectivity {

  type Edges = set<(nat, nat)>

  predicate Adjacent(e: Edges, x: nat, y: nat) {
    (x, y) in e || (y, x) in e
  }

  ghost predicate IsPath(e: Edges, p: seq<nat>, x: nat, y: nat) {
    && p != [] && p[0] == x && p[|p| - 1] == y
    && forall i :: 0 <= i < |p| - 1 ==> Adjacent(e, p[i], p[i + 1])
  }

  // x and y are joined by a chain of edges: the equivalence closure of the edges.
  ghost predicate Connected(e: Edges, x: nat, y: nat) {
    exists p :: IsPath(e, p, x, y)
  }

  lemma ConnectedSelf(e: Edges, x: nat)
    ensures Connected(e, x, x)
  {
    assert IsPath(e, [x], x, x);
  }

  lemma ConnectedEdge(e: Edges, x: nat, y: nat)
    requires Adjacent(e, x, y)
    ensures Connected(e, x, y)
  {
    assert IsPath(e, [x, y], x, y);
  }

  lemma ConnectedTransitive(e: Edges, x: nat, y: nat, z: nat)
    requires Connected(e, x, y) && Connected(e, y, z)
    ensures Connected(e, x, z)
  {
    var p :| IsPath(e, p, x, y);
    var q :| IsPath(e, q, y, z);
    var r := p + q[1..];
    forall i | 0 <= i < |r| - 1
      ensures Adjacent(e, r[i], r[i + 1])
    {
      if i < |p| - 1 {
        assert r[i] == p[i] && r[i + 1] == p[i + 1];
      } else {
        assert r[i] == q[i - (|p| - 1)] && r[i + 1] == q[i + 1 - (|p| - 1)];
      }
    }
    assert IsPath(e, r, x, z);
  }

  lemma ConnectedSymmetric(e: Edges, x: nat, y: nat)
    requires Connected(e, x, y)
    ensures Connected(e, y, x)
  {
    var p :| IsPath(e, p, x, y);
    var r := seq(|p|, i requires 0 <= i < |p| => p[|p| - 1 - i]);
    forall i | 0 <= i < |r| - 1
      ensures Adjacent(e, r[i], r[i + 1])
    {
      assert Adjacent(e, p[|p| - 2 - i], p[|p| - 2 - i + 1]);
    }
    assert IsPath(e, r, y, x);
  }

  lemma ConnectedMore(e: Edges, e': Edges, x: nat, y: nat)
    requires e <= e' && Connected(e, x, y)
    ensures Connected(e', x, y)
  {
    var p :| IsPath(e, p, x, y);
    assert IsPath(e', p, x, y);
  }

  // What all edges preserve, connected vertices share.
  lemma {:induction false} PathKeepsLabel<T>(e: Edges, mark: nat -> T, p: seq<nat>, x: nat, y: nat)
    requires forall u, v :: (u, v) in e ==> mark(u) == mark(v)
    requires IsPath(e, p, x, y)
    ensures mark(x) == mark(y)
    decreases |p|
  {
    if |p| > 1 {
      assert Adjacent(e, p[0], p[0 + 1]);
      forall i | 0 <= i < |p[1..]| - 1
        ensures Adjacent(e, p[1..][i], p[1..][i + 1])
      {
        assert Adjacent(e, p[i + 1], p[i + 1 + 1]);
      }
      PathKeepsLabel(e, mark, p[1..], p[1], y);
    }
  }

  lemma ConnectedKeepsLabel<T>(e: Edges, mark: nat -> T, x: nat, y: nat)
    requires forall u, v :: (u, v) in e ==> mark(u) == mark(v)
    requires Connected(e, x, y)
    ensures mark(x) == mark(y)
  {
    var p :| IsPath(e, p, x, y);
    PathKeepsLabel(e, mark, p, x, y);
  }
}
