/** Clusters of a graph by depth-first search. */
module GraphCondensers {
  import opened Connectivity

  ghost predicate Distinct(s: seq<nat>) {
    forall i, j :: 0 <= i < j < |s| ==> s[i] != s[j]
  }

  // c lists, once each, the vertices below n that are connected with x.
  ghost predicate IsComponent(e: Edges, n: nat, x: nat, c: seq<nat>) {
    && Distinct(c)
    && forall y: nat :: y in c <==> y < n && Connected(e, x, y)
  }

  predicate Covered(clusters: seq<seq<nat>>, x: nat) {
    exists i :: 0 <= i < |clusters| && x in clusters[i]
  }

  lemma DistinctJoin(a: seq<nat>, b: seq<nat>)
    requires Distinct(a) && Distinct(b) && forall x :: x in a ==> x !in b
    ensures Distinct(a + b)
  {
    forall i, j | 0 <= i < j < |a + b|
      ensures (a + b)[i] != (a + b)[j]
    {
      if i < |a| <= j {
        assert (a + b)[i] in a && (a + b)[j] in b;
      }
    }
  }

  // `found` is all that was added to the visited vertices by walking on from
  // `root`, and no edge leads from it to an unvisited vertex.
  ghost predicate Explored(e: Edges, before: set<nat>, after: set<nat>, root: nat, found: seq<nat>) {
    && Distinct(found)
    && before <= after
    && (forall x :: x in found <==> x in after - before)
    && (forall x :: x in found ==> Connected(e, root, x))
  }

  ghost predicate NoWayOut(e: Edges, inside: set<nat>, after: set<nat>) {
    forall x: nat, y: nat :: x in inside && Adjacent(e, x, y) ==> y in after
  }

  // One more neighbour of `start` has been explored.
  lemma ExploredMore(e: Edges, s0: set<nat>, s1: set<nat>, s2: set<nat>,
        start: nat, next: nat, found: seq<nat>, more: seq<nat>)
    requires Explored(e, s0, s1, start, found) && Explored(e, s1, s2, next, more) && Adjacent(e, start, next)
    ensures Explored(e, s0, s2, start, found + more)
  {
    DistinctJoin(found, more);
    forall x | x in found + more
      ensures Connected(e, start, x)
    {
      if x in more {
        ConnectedEdge(e, start, next);
        ConnectedTransitive(e, start, next, x);
      }
    }
  }

  // What is reached from `root` among vertices not visited before is the whole
  // component of `root`, when no edge led out of the visited ones.
  lemma ExploredIsComponent(e: Edges, n: nat, before: set<nat>, after: set<nat>, root: nat, found: seq<nat>)
    requires Explored(e, before, after, root, found) && root in found
    requires NoWayOut(e, before, before) && NoWayOut(e, after, after)
    requires forall x :: x in after ==> x < n
    ensures IsComponent(e, n, root, found)
  {
    forall y: nat | Connected(e, root, y)
      ensures y in found
    {
      var isFound := (x: nat) => x in after && x !in before;
      ConnectedKeepsLabel(e, isFound, root, y);
    }
  }

  class GraphCondenser {
    const n: nat
    const edges: array<seq<nat>>
    const vis: array<bool>
    ghost var e: Edges

    // Every edge is listed at both of its ends.
    ghost predicate Valid()
      reads this, edges
    {
      && edges.Length == n && vis.Length == n
      && (forall x: nat, y: nat :: x < n && y in edges[x] ==> y < n && Adjacent(e, x, y))
      && (forall x: nat, y: nat :: Adjacent(e, x, y) ==> x < n && y < n && y in edges[x])
    }

    ghost function Visited(): set<nat>
      requires vis.Length == n
      reads this, vis
    {
      set x: nat | x < n && vis[x]
    }

    ghost function Unvisited(): set<nat>
      requires vis.Length == n
      reads this, vis
    {
      set x: nat | x < n && !vis[x]
    }

    constructor (n: nat)
      ensures Valid() && this.n == n && e == {} && Visited() == {} && fresh(edges) && fresh(vis)
    {
      this.n := n;
      edges := new seq<nat>[n](_ => []);
      vis := new bool[n](_ => false);
      e := {};
      new;
      assert forall x: nat :: x < n ==> edges[x] == [];
    }

    method AddEdge(i: nat, j: nat)
      requires Valid() && i < n && j < n
      modifies this, edges
      ensures Valid() && e == old(e) + {(i, j)}
    {
      edges[i] := edges[i] + [j];
      edges[j] := edges[j] + [i];
      e := e + {(i, j)};
      forall x: nat, y: nat | x < n
        ensures y in edges[x] <==> y in old(edges[x]) || (x == i && y == j) || (x == j && y == i)
      {
      }
      assert forall x: nat, y: nat :: Adjacent(e, x, y) ==>
          Adjacent(old(e), x, y) || (x == i && y == j) || (x == j && y == i);
    }

    // Appends to `dest` what is reached from `start` through vertices that have
    // not been visited yet.
    method Visit(dest: seq<nat>, start: nat) returns (dest': seq<nat>)
      requires Valid() && start < n
      modifies vis
      ensures dest <= dest' && Explored(e, old(Visited()), Visited(), start, dest'[|dest|..])
      ensures start in Visited() && NoWayOut(e, Visited() - old(Visited()), Visited())
      decreases Unvisited(), 0
    {
      dest' := dest;
      assert dest'[|dest|..] == [];
      if !vis[start] {
        ghost var before := Visited();
        dest' := dest' + [start];
        vis[start] := true;
        ghost var here := Visited();
        assert dest'[|dest|..] == [start] && here == before + {start};
        assert start in old(Unvisited()) && start !in Unvisited();
        ConnectedSelf(e, start);
        for i := 0 to |edges[start]|
          invariant here <= Visited() && Unvisited() < old(Unvisited())
          invariant dest <= dest' && Explored(e, before, Visited(), start, dest'[|dest|..])
          invariant NoWayOut(e, Visited() - here, Visited())
          invariant forall k :: 0 <= k < i ==> edges[start][k] in Visited()
        {
          assert edges[start][i] in edges[start];
          dest' := VisitNeighbour(dest', |dest|, start, edges[start][i], before, here);
        }
      }
    }

    method VisitNeighbour(dest: seq<nat>, ghost from: nat, ghost start: nat, next: nat,
          ghost before: set<nat>, ghost here: set<nat>)
      returns (dest': seq<nat>)
      requires Valid() && next < n && Adjacent(e, start, next)
      requires from <= |dest| && Explored(e, before, Visited(), start, dest[from..])
      requires here <= Visited() && NoWayOut(e, Visited() - here, Visited())
      modifies vis
      ensures old(Visited()) <= Visited() && Unvisited() <= old(Unvisited()) && next in Visited()
      ensures dest <= dest' && Explored(e, before, Visited(), start, dest'[from..])
      ensures NoWayOut(e, Visited() - here, Visited())
      decreases Unvisited(), 1
    {
      dest' := Visit(dest, next);
      assert dest'[from..] == dest[from..] + dest'[|dest|..];
      ExploredMore(e, before, old(Visited()), Visited(), start, next, dest[from..], dest'[|dest|..]);
      assert forall x :: x in Unvisited() ==> x !in Visited();
    }

    // The cluster of the first vertex that has not been visited; empty if there
    // is none.
    method DumpCluster() returns (cluster: seq<nat>)
      requires Valid() && NoWayOut(e, Visited(), Visited())
      modifies vis
      ensures NoWayOut(e, Visited(), Visited())
      ensures cluster == [] <==> old(Unvisited()) == {}
      ensures cluster != [] ==> IsComponent(e, n, cluster[0], cluster)
      ensures old(Visited()) <= Visited() && forall x :: x in cluster <==> x in Visited() - old(Visited())
    {
      cluster := [];
      var start := 0;
      while start < n && vis[start]
        invariant start <= n && forall k: nat :: k < start ==> vis[k]
      {
        start := start + 1;
      }
      if start == n {
        return;
      }
      ghost var before := Visited();
      assert start in Unvisited();
      cluster := Visit([], start);
      assert cluster[0..] == cluster;
      assert start in cluster;
      ExploredIsComponent(e, n, before, Visited(), start, cluster);
      ComponentOfMember(e, n, start, cluster);
    }

    // The loop that takes clusters until an empty one comes.
    method Clusters() returns (clusters: seq<seq<nat>>)
      requires Valid() && Visited() == {}
      modifies vis
      ensures forall c :: c in clusters ==> c != [] && IsComponent(e, n, c[0], c)
      ensures forall x: nat :: x < n <==> Covered(clusters, x)
      ensures forall i, j :: 0 <= i < j < |clusters| ==> forall x :: x in clusters[i] ==> x !in clusters[j]
    {
      clusters := [];
      while true
        invariant NoWayOut(e, Visited(), Visited())
        invariant forall c :: c in clusters ==> c != [] && IsComponent(e, n, c[0], c)
        invariant forall x: nat :: x in Visited() <==> Covered(clusters, x)
        invariant forall i, j :: 0 <= i < j < |clusters| ==> forall x :: x in clusters[i] ==> x !in clusters[j]
        decreases Unvisited()
      {
        ghost var before, open := Visited(), Unvisited();
        assert forall x: nat :: x < n ==> x in before || x in open;
        var cluster := DumpCluster();
        if cluster == [] {
          break;
        }
        assert forall x :: x in Unvisited() ==> x !in Visited() && x < n;
        assert cluster[0] in cluster && cluster[0] in open && cluster[0] !in Unvisited();
        CoveredMore(clusters, cluster);
        clusters := clusters + [cluster];
      }
    }
  }

  lemma CoveredMore(clusters: seq<seq<nat>>, cluster: seq<nat>)
    ensures forall x :: Covered(clusters + [cluster], x) <==> Covered(clusters, x) || x in cluster
  {
    forall x: nat
      ensures Covered(clusters + [cluster], x) <==> Covered(clusters, x) || x in cluster
    {
      if x in cluster {
        assert x in (clusters + [cluster])[|clusters|];
      }
      if i :| 0 <= i < |clusters| && x in clusters[i] {
        assert x in (clusters + [cluster])[i];
      }
    }
  }

  lemma ComponentOfMember(e: Edges, n: nat, x: nat, c: seq<nat>)
    requires IsComponent(e, n, x, c) && c != []
    ensures IsComponent(e, n, c[0], c)
  {
    assert c[0] in c;
    forall y: nat
      ensures y in c <==> y < n && Connected(e, c[0], y)
    {
      if y < n && Connected(e, c[0], y) {
        ConnectedTransitive(e, x, c[0], y);
      }
      if y in c {
        ConnectedSymmetric(e, x, c[0]);
        ConnectedTransitive(e, c[0], x, y);
      }
    }
  }
}
