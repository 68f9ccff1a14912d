/** Walks in a graph where every node has at most one successor, such as the
    waits-for graph of the deadlock detector: an actor waits for at most one
    lockable, and a lockable is held by at most one actor. */
module WaitsFor {
  import opened Common

  /** The node reached from `a` after exactly `n` edges, if the walk does not end before. */
  ghost function Walk<T>(g: map<T, T>, a: T, n: nat): Option<T>
  {
    if n == 0 then Some(a)
    else if a in g then Walk(g, g[a], n - 1)
    else None
  }

  ghost predicate Reaches<T>(g: map<T, T>, a: T, b: T)
  {
    exists n: nat :: Walk(g, a, n) == Some(b)
  }

  ghost predicate Acyclic<T>(g: map<T, T>)
  {
    forall a, n: nat | a in g :: n > 0 ==> Walk(g, a, n) != Some(a)
  }

  /** A sequence of nodes each of which is the successor of the one before it. */
  ghost predicate IsPath<T>(g: map<T, T>, p: seq<T>)
  {
    && |p| > 0
    && forall i :: 0 <= i < |p| - 1 ==> p[i] in g && g[p[i]] == p[i + 1]
  }

  lemma {:induction false} WalkSplits<T>(g: map<T, T>, a: T, m: nat, n: nat)
    ensures Walk(g, a, m + n) ==
            (var w := Walk(g, a, m); if w.Some? then Walk(g, w.value, n) else None)
  {
    if m > 0 && a in g {
      WalkSplits(g, g[a], m - 1, n);
    }
  }

  /** Walking in a graph with fewer edges goes nowhere else. */
  lemma {:induction false} WalkMonotone<T>(g: map<T, T>, g': map<T, T>, a: T, n: nat)
    requires forall x | x in g :: x in g' && g'[x] == g[x]
    requires Walk(g, a, n).Some?
    ensures Walk(g', a, n) == Walk(g, a, n)
  {
    if n > 0 {
      WalkMonotone(g, g', g[a], n - 1);
    }
  }

  /** Removing edges keeps a graph acyclic. */
  lemma SubgraphAcyclic<T>(g: map<T, T>, g': map<T, T>)
    requires forall x | x in g :: x in g' && g'[x] == g[x]
    requires Acyclic(g')
    ensures Acyclic(g)
  {
    forall a, n: nat | a in g && n > 0 && Walk(g, a, n) == Some(a)
      ensures false
    {
      WalkMonotone(g, g', a, n);
    }
  }

  /** A walk that uses the extra edges into the sink `s` ends there. */
  lemma {:induction false} WalkIntoSink<T>(g: map<T, T>, g': map<T, T>, s: T, a: T, n: nat)
    requires s !in g'
    requires forall x | x in g :: x in g' && g'[x] == g[x]
    requires forall x | x in g' && x !in g :: g'[x] == s
    ensures Walk(g', a, n).Some? ==> Walk(g', a, n) == Some(s) || Walk(g', a, n) == Walk(g, a, n)
  {
    if n > 0 && a in g' {
      if a in g {
        WalkIntoSink(g, g', s, g[a], n - 1);
      } else if n > 1 {
        assert Walk(g', s, n - 1) == None;
      }
    }
  }

  /** Any number of new edges into one node that has no successor close no cycle. */
  lemma EdgesIntoSinkAcyclic<T>(g: map<T, T>, g': map<T, T>, s: T)
    requires Acyclic(g)
    requires s !in g'
    requires forall x | x in g :: x in g' && g'[x] == g[x]
    requires forall x | x in g' && x !in g :: g'[x] == s
    ensures Acyclic(g')
  {
    forall a, n: nat | a in g' && n > 0 && Walk(g', a, n) == Some(a)
      ensures false
    {
      WalkIntoSink(g, g', s, a, n);
    }
  }

  /** After adding the edge a -> b, every walk from `c` either avoids `a` and is a walk of
      the old graph, or `c` already reached `a`. */
  lemma {:induction false} WalkWithNewEdge<T>(g: map<T, T>, a: T, b: T, c: T, n: nat)
    requires a !in g
    requires Walk(g[a := b], c, n).Some?
    ensures Walk(g, c, n) == Walk(g[a := b], c, n) || Reaches(g, c, a)
  {
    if n > 0 {
      if c == a {
        assert Walk(g, c, 0) == Some(a);
      } else {
        WalkWithNewEdge(g, a, b, g[c], n - 1);
        if Reaches(g, g[c], a) {
          var k: nat :| Walk(g, g[c], k) == Some(a);
          assert Walk(g, c, k + 1) == Some(a);
        }
      }
    }
  }

  /** A new edge closes a cycle exactly when its target already reaches its source. */
  lemma NewEdgeClosesCycle<T>(g: map<T, T>, a: T, b: T)
    requires Acyclic(g)
    requires a !in g
    ensures Acyclic(g[a := b]) <==> !Reaches(g, b, a)
  {
    var g' := g[a := b];
    if Reaches(g, b, a) {
      var n: nat :| Walk(g, b, n) == Some(a);
      WalkMonotone(g, g', b, n);
      assert Walk(g', a, n + 1) == Some(a);
    } else {
      forall c, n: nat | c in g' && n > 0 && Walk(g', c, n) == Some(c)
        ensures false
      {
        CycleMeetsNewEdge(g, a, b, c, n);
      }
    }
  }

  /** A cycle of the extended graph shows that the target of the new edge reached its source. */
  lemma CycleMeetsNewEdge<T>(g: map<T, T>, a: T, b: T, c: T, n: nat)
    requires Acyclic(g)
    requires a !in g
    requires n > 0 && Walk(g[a := b], c, n) == Some(c)
    ensures Reaches(g, b, a)
  {
    var g' := g[a := b];
    WalkWithNewEdge(g, a, b, c, n);
    var k: nat :| Walk(g, c, k) == Some(a);
    WalkMonotone(g, g', c, k);
    // From a one step leads to b; from b on round the cycle back to c.
    WalkSplits(g', c, k, 1);
    assert Walk(g', a, 1) == Some(b);
    RoundTheCycle(g', c, n, k + 1);
    var m: nat :| Walk(g', b, m) == Some(c);
    WalkWithNewEdge(g, a, b, b, m);
    if Walk(g, b, m) == Some(c) {
      WalkSplits(g, b, m, k);
      assert Walk(g, b, m + k) == Some(a);
    }
  }

  /** From any point of a walk that starts on a cycle, the start is reached again. */
  lemma {:induction false} RoundTheCycle<T>(g: map<T, T>, c: T, n: nat, k: nat)
    requires n > 0 && Walk(g, c, n) == Some(c)
    requires Walk(g, c, k).Some?
    ensures exists m: nat :: Walk(g, Walk(g, c, k).value, m) == Some(c)
    decreases k
  {
    if k <= n {
      WalkSplits(g, c, k, n - k);
      assert Walk(g, Walk(g, c, k).value, n - k) == Some(c);
    } else {
      WalkSplits(g, c, n, k - n);
      RoundTheCycle(g, c, n, k - n);
    }
  }

  /** Reaching a node other than itself goes through the successor. */
  lemma ReachesStep<T>(g: map<T, T>, a: T, b: T)
    requires a != b
    ensures Reaches(g, a, b) <==> a in g && Reaches(g, g[a], b)
  {
    if Reaches(g, a, b) {
      var n: nat :| Walk(g, a, n) == Some(b);
      assert n > 0;
      assert Walk(g, g[a], n - 1) == Some(b);
    }
    if a in g && Reaches(g, g[a], b) {
      var n: nat :| Walk(g, g[a], n) == Some(b);
      assert Walk(g, a, n + 1) == Some(b);
    }
  }

  lemma ReachesTransitive<T>(g: map<T, T>, a: T, b: T, c: T)
    requires Reaches(g, a, b) && Reaches(g, b, c)
    ensures Reaches(g, a, c)
  {
    var m: nat :| Walk(g, a, m) == Some(b);
    var n: nat :| Walk(g, b, n) == Some(c);
    WalkSplits(g, a, m, n);
  }
}
