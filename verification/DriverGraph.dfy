/** Driver dependencies: which drivers a constructor asks for, and what that implies. */
module DriverGraph {

  /** `g[d]` lists, in order, the drivers that the constructor of driver `d` gets. */
  type Graph = seq<seq<nat>>

  predicate IsGraph(g: Graph)
  {
    forall d :: 0 <= d < |g| ==> forall k :: 0 <= k < |g[d]| ==> g[d][k] < |g|
  }

  /** Consecutive drivers depend on each other. */
  predicate IsWalk(g: Graph, p: seq<nat>)
  {
    && |p| > 0
    && (forall i :: 0 <= i < |p| ==> p[i] < |g|)
    && (forall i :: 0 <= i < |p| - 1 ==> p[i + 1] in g[p[i]])
  }

  /** A walk that comes back to a driver it has visited: a dependency cycle and a way to reach it. */
  predicate IsLasso(g: Graph, p: seq<nat>)
  {
    IsWalk(g, p) && exists i :: 0 <= i < |p| - 1 && p[i] == p[|p| - 1]
  }

  ghost predicate CycleReachable(g: Graph, d: nat)
  {
    exists p :: IsLasso(g, p) && p[0] == d
  }

  ghost predicate Connects(g: Graph, p: seq<nat>, a: nat, b: nat)
  {
    IsWalk(g, p) && p[0] == a && p[|p| - 1] == b
  }

  ghost predicate CanReach(g: Graph, a: nat, b: nat)
  {
    exists p :: Connects(g, p, a, b)
  }

  /** A construction history: no driver twice, and every driver after all its dependencies. */
  ghost predicate Topological(g: Graph, h: seq<nat>)
  {
    && (forall i :: 0 <= i < |h| ==> h[i] < |g|)
    && (forall i, j :: 0 <= i < j < |h| ==> h[i] != h[j])
    && (forall i :: 0 <= i < |h| ==> forall k :: 0 <= k < |g[h[i]]| ==> g[h[i]][k] in h[..i])
  }

  lemma TopologicalAppends(g: Graph, h: seq<nat>, d: nat)
    requires Topological(g, h) && d < |g| && d !in h
    requires forall k :: 0 <= k < |g[d]| ==> g[d][k] in h
    ensures Topological(g, h + [d])
  {
    var r := h + [d];
    forall i | 0 <= i < |r|
      ensures forall k :: 0 <= k < |g[r[i]]| ==> g[r[i]][k] in r[..i]
    {
      if i < |h| {
        assert r[..i] == h[..i] && r[i] == h[i];
      } else {
        assert r[..i] == h;
      }
    }
  }

  /** Walking along dependencies only goes back in the history. */
  lemma {:induction false} WalkDescends(g: Graph, h: seq<nat>, p: seq<nat>, k: nat)
    requires Topological(g, h) && IsWalk(g, p) && k < |h| && p[0] == h[k]
    ensures forall i :: 1 <= i < |p| ==> p[i] in h[..k]
    decreases |p|
  {
    if |p| > 1 {
      assert p[0 + 1] in g[p[0]];
      var e :| 0 <= e < |g[h[k]]| && g[h[k]][e] == p[1];
      assert p[1] in h[..k];
      var k' :| 0 <= k' < k && h[k'] == p[1];
      var q := p[1..];
      assert IsWalk(g, q) by {
        forall i | 0 <= i < |q| - 1
          ensures q[i + 1] in g[q[i]]
        {
          assert p[(i + 1) + 1] in g[p[i + 1]];
        }
      }
      WalkDescends(g, h, q, k');
      forall i | 1 <= i < |p|
        ensures p[i] in h[..k]
      {
        if i > 1 {
          assert p[i] == q[i - 1] && q[i - 1] in h[..k'];
          assert h[..k'] <= h[..k];
        }
      }
    }
  }

  /** A history holds everything its drivers can reach. */
  lemma HistoryIsClosed(g: Graph, h: seq<nat>, d: nat, x: nat)
    requires Topological(g, h) && d in h && CanReach(g, d, x)
    ensures x in h
  {
    var p :| Connects(g, p, d, x);
    var k :| 0 <= k < |h| && h[k] == d;
    WalkDescends(g, h, p, k);
    if |p| > 1 {
      assert p[|p| - 1] in h[..k];
    }
  }

  /** A walk into a cycle cannot start in the history. */
  lemma LassoStaysOutside(g: Graph, h: seq<nat>, p: seq<nat>)
    requires Topological(g, h) && IsLasso(g, p)
    ensures p[0] !in h
  {
    if p[0] in h {
      var i :| 0 <= i < |p| - 1 && p[i] == p[|p| - 1];
      Prefix(g, p, i);
      assert Connects(g, p[..i + 1], p[0], p[i]);
      HistoryIsClosed(g, h, p[0], p[i]);
      var k :| 0 <= k < |h| && h[k] == p[i];
      Suffix(g, p, i);
      var loop := p[i..];
      assert loop[|loop| - 1] == h[k] && h[k] !in h[..k];
      WalkDescends(g, h, loop, k);
    }
  }

  /** A driver that could be constructed reaches no cycle. */
  lemma HistoryExcludesCycles(g: Graph, h: seq<nat>, d: nat)
    requires Topological(g, h) && d in h
    ensures !CycleReachable(g, d)
  {
    forall p | IsLasso(g, p)
      ensures p[0] != d
    {
      LassoStaysOutside(g, h, p);
    }
  }

  lemma Prefix(g: Graph, p: seq<nat>, i: nat)
    requires IsWalk(g, p) && i < |p|
    ensures IsWalk(g, p[..i + 1])
  {
    var q := p[..i + 1];
    forall j | 0 <= j < |q| - 1
      ensures q[j + 1] in g[q[j]]
    {
      assert p[j + 1] in g[p[j]];
    }
  }

  lemma Suffix(g: Graph, p: seq<nat>, i: nat)
    requires IsWalk(g, p) && i < |p|
    ensures IsWalk(g, p[i..])
  {
    var q := p[i..];
    forall j | 0 <= j < |q| - 1
      ensures q[j + 1] in g[q[j]]
    {
      assert p[(i + j) + 1] in g[p[i + j]];
    }
  }

  lemma Extend(g: Graph, p: seq<nat>, d: nat)
    requires IsGraph(g) && IsWalk(g, p) && d in g[p[|p| - 1]]
    ensures IsWalk(g, p + [d])
  {
    var q := p + [d];
    var k :| 0 <= k < |g[p[|p| - 1]]| && g[p[|p| - 1]][k] == d;
    forall i | 0 <= i < |q| - 1
      ensures q[i + 1] in g[q[i]]
    {
      if i < |p| - 1 {
        assert p[i + 1] in g[p[i]];
      }
    }
  }

  lemma ReachSelf(g: Graph, d: nat)
    requires d < |g|
    ensures CanReach(g, d, d)
  {
    assert Connects(g, [d], d, d);
  }

  lemma ReachVia(g: Graph, d: nat, e: nat, x: nat)
    requires IsGraph(g) && d < |g| && e in g[d] && CanReach(g, e, x)
    ensures CanReach(g, d, x)
  {
    var p :| Connects(g, p, e, x);
    var q := [d] + p;
    forall i | 0 <= i < |q| - 1
      ensures q[i + 1] in g[q[i]]
    {
      if i > 0 {
        assert p[(i - 1) + 1] in g[p[i - 1]];
      }
    }
    assert Connects(g, q, d, x);
  }
}
