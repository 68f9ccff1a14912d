/** The deadlock detector: actors wait for lockables, lockables are held by actors.
    The waits-for graph is kept free of cycles, which is also why the search for one ends. */
module Hangman {
  import opened Common
  import opened WaitsFor

  class Actor {
    var waiting: Lockable?

    constructor ()
      ensures waiting == null
    {
      waiting := null;
    }
  }

  class Lockable {
    var holding: Actor?

    constructor ()
      ensures holding == null
    {
      holding := null;
    }
  }

  /** How an entry point ends: normally, with the panic for a misuse, or with the
      deadlock panic, which first prints the actors round the cycle. */
  datatype Outcome = Done | Misuse | Deadlock(cycle: seq<Actor>)

  datatype Event = Wait(a: Actor, l: Lockable) | Acquire(a: Actor, l: Lockable) | Release(a: Actor, l: Lockable)

  /** `a` waits for a lockable that `Edges` maps to the actor holding it. */
  ghost function Edges(actors: set<Actor>, locks: set<Lockable>): (g: map<Actor, Actor>)
    reads actors, locks
  {
    map a | a in actors && a.waiting != null && a.waiting in locks && a.waiting.holding != null
      :: a.waiting.holding
  }

  class Detector {
    const own: Lockable          // the lockable of the detector's own spinlock
    ghost var actors: set<Actor>
    ghost var locks: set<Lockable>

    ghost predicate Closed()
      reads this, actors, locks
    {
      && own !in locks
      && (forall a <- actors :: a.waiting != null ==> a.waiting in locks)
      && (forall l <- locks :: l.holding != null ==> l.holding in actors)
    }

    ghost predicate Valid()
      reads this, actors, locks
    {
      Closed() && Acyclic<Actor>(Edges(actors, locks))
    }

    constructor (own: Lockable)
      ensures Valid() && this.own == own && actors == {} && locks == {}
    {
      this.own := own;
      actors := {};
      locks := {};
      new;
      assert Edges(actors, locks) == map[];
    }

    /** Newly initialized actors and lockables may join at any time. */
    method Register(a: Actor, l: Lockable)
      requires Valid()
      requires a.waiting == null && l.holding == null && l != own
      modifies this`actors, this`locks
      ensures Valid() && actors == old(actors) + {a} && locks == old(locks) + {l}
    {
      ghost var g := Edges(actors, locks);
      actors := actors + {a};
      locks := locks + {l};
      assert forall x | x in Edges(actors, locks) :: x in g && g[x] == Edges(actors, locks)[x];
      SubgraphAcyclic(Edges(actors, locks), g);
    }

    /** Follow holder and wanted lock in turn from `start`. The search is finite because no
        actor is met twice, and it finds `target` exactly when some walk leads there. */
    method Check(start: Lockable, target: Actor) returns (found: bool)
      requires Valid() && start in locks && target in actors
      ensures found <==> start.holding != null && Reaches<Actor>(Edges(actors, locks), start.holding, target)
    {
      ghost var g := Edges(actors, locks);
      ghost var seen: set<Actor> := {};
      var cur := start.holding;
      while cur != null
        invariant cur != null ==> cur in actors
        invariant (start.holding != null && Reaches<Actor>(g, start.holding, target)) <==>
                  (cur != null && Reaches<Actor>(g, cur, target))
        invariant cur != null ==> forall v <- seen :: Reaches<Actor>(g, v, cur) && v != cur
        invariant seen <= actors
        decreases cur != null, actors - seen
      {
        if cur == target {
          assert Walk<Actor>(g, cur, 0) == Some(target);
          return true;
        }
        ReachesStep<Actor>(g, cur, target);
        if cur.waiting == null {
          break;
        }
        ghost var before := cur;
        cur := cur.waiting.holding;
        if cur != null {
          NoReturn(g, seen + {before}, before);
          seen := seen + {before};
        }
      }
      return false;
    }

    /** One step on, everything seen before still leads to where we are and is different from it. */
    lemma NoReturn(g: map<Actor, Actor>, seen: set<Actor>, cur: Actor)
      requires Acyclic<Actor>(g) && cur in g
      requires forall v <- seen :: v != cur ==> Reaches<Actor>(g, v, cur)
      ensures forall v <- seen :: Reaches<Actor>(g, v, g[cur]) && v != g[cur]
    {
      assert Walk<Actor>(g, cur, 1) == Some(g[cur]);
      assert Walk<Actor>(g, cur, 0) == Some(cur);
      forall v <- seen ensures Reaches<Actor>(g, v, g[cur]) && v != g[cur] {
        ReachesTransitive(g, v, cur, g[cur]);
        var n: nat :| Walk<Actor>(g, v, n) == Some(cur);
        WalkSplits(g, v, n, 1);
        assert Walk<Actor>(g, v, n + 1) == Some(g[cur]);
        assert v in g;
      }
    }

    /** The report printed before the deadlock panic: holder after holder until the waiting actor. */
    method Report(start: Lockable, target: Actor) returns (cycle: seq<Actor>)
      requires Valid() && start in locks && target in actors
      requires start.holding != null && Reaches<Actor>(Edges(actors, locks), start.holding, target)
      ensures IsPath<Actor>(Edges(actors, locks), cycle)
      ensures cycle[0] == start.holding && cycle[|cycle| - 1] == target
    {
      ghost var g := Edges(actors, locks);
      var cur: Actor := start.holding;
      cycle := [cur];
      ghost var left: nat :| Walk<Actor>(g, cur, left) == Some(target);
      while cur != target
        invariant IsPath<Actor>(g, cycle) && cycle[0] == start.holding && cycle[|cycle| - 1] == cur
        invariant Walk<Actor>(g, cur, left) == Some(target)
        decreases left
      {
        cur := cur.waiting.holding;
        cycle := cycle + [cur];
        left := left - 1;
      }
    }

    /** The deadlock report is made exactly when the new wait edge would close a cycle;
        otherwise the edge is recorded and the graph stays acyclic. */
    method HangmanWait(a: Actor, l: Lockable) returns (r: Outcome)
      requires Valid() && a in actors && (l == own || l in locks)
      modifies a
      ensures Valid()
      ensures l == own ==> r == Done && a.waiting == old(a.waiting)
      ensures l != own && old(a.waiting) != null ==> r == Misuse && a.waiting == old(a.waiting)
      ensures l != own && old(a.waiting) == null ==>
                && !r.Misuse?
                && (r.Deadlock? <==> l.holding != null && !Acyclic<Actor>(old(Edges(actors, locks))[a := l.holding]))
                && (r.Done? ==> a.waiting == l)
      ensures r.Deadlock? ==>
                && a.waiting == null
                && IsPath<Actor>(Edges(actors, locks), r.cycle)
                && r.cycle[0] == l.holding && r.cycle[|r.cycle| - 1] == a
      ensures !r.Done? ==> Edges(actors, locks) == old(Edges(actors, locks))
    {
      if l == own {
        return Done;
      }
      if a.waiting != null {
        return Misuse;
      }
      ghost var g := Edges(actors, locks);
      if l.holding != null {
        NewEdgeClosesCycle<Actor>(g, a, l.holding);
      }
      var found := Check(l, a);
      if found {
        var cycle := Report(l, a);
        return Deadlock(cycle);
      }
      a.waiting := l;
      assert Edges(actors, locks) == if l.holding == null then g else g[a := l.holding];
      return Done;
    }

    method HangmanAcquire(a: Actor, l: Lockable) returns (r: Outcome)
      requires Valid() && a in actors && (l == own || l in locks)
      modifies a, l
      ensures Valid() && !r.Deadlock?
      ensures r.Misuse? <==> l != own && (old(a.waiting) != l || old(l.holding) != null)
      ensures r.Misuse? || l == own ==> a.waiting == old(a.waiting) && l.holding == old(l.holding)
      ensures r.Done? && l != own ==> l.holding == a && a.waiting == null
    {
      if l == own {
        return Done;
      }
      if a.waiting != l || l.holding != null {
        return Misuse;
      }
      ghost var g := Edges(actors, locks);
      l.holding := a;
      a.waiting := null;
      EdgesIntoSinkAcyclic<Actor>(g, Edges(actors, locks), a);
      return Done;
    }

    method HangmanRelease(a: Actor, l: Lockable) returns (r: Outcome)
      requires Valid() && a in actors && (l == own || l in locks)
      modifies l
      ensures Valid() && !r.Deadlock?
      ensures r.Misuse? <==> l != own && (a.waiting != null || old(l.holding) != a)
      ensures r.Misuse? || l == own ==> l.holding == old(l.holding)
      ensures r.Done? && l != own ==> l.holding == null
    {
      if l == own {
        return Done;
      }
      if a.waiting != null || l.holding != a {
        return Misuse;
      }
      ghost var g := Edges(actors, locks);
      l.holding := null;
      SubgraphAcyclic(Edges(actors, locks), g);
      return Done;
    }

    /** Why a call does not end normally: the state it was made in, which it leaves as it is. */
    ghost predicate Refused(e: Event, r: Outcome)
      reads this, actors, locks, e.a, e.l
    {
      && e.l != own
      && match e
         case Wait(a, l) =>
           if a.waiting != null then r == Misuse
           else
             && r.Deadlock? && l.holding != null && !Acyclic<Actor>(Edges(actors, locks)[a := l.holding])
             && IsPath<Actor>(Edges(actors, locks), r.cycle)
             && r.cycle[0] == l.holding && r.cycle[|r.cycle| - 1] == a
         case Acquire(a, l) => r == Misuse && (a.waiting != l || l.holding != null)
         case Release(a, l) => r == Misuse && (a.waiting != null || l.holding != a)
    }

    /** Over any run of events the graph stays acyclic; the run stops at the first call that panics,
        and only there. */
    method Run(events: seq<Event>) returns (done: nat, last: Outcome)
      requires Valid()
      requires forall e <- events :: e.a in actors && (e.l == own || e.l in locks)
      modifies actors, locks, own
      ensures Valid() && done <= |events|
      ensures done == |events| ==> last.Done?
      ensures done < |events| ==> Refused(events[done], last)
    {
      last := Done;
      done := 0;
      while done < |events|
        invariant Valid() && done <= |events| && last == Done
      {
        match events[done] {
          case Wait(a, l) => last := HangmanWait(a, l);
          case Acquire(a, l) => last := HangmanAcquire(a, l);
          case Release(a, l) => last := HangmanRelease(a, l);
        }
        if !last.Done? {
          return;
        }
        done := done + 1;
      }
    }
  }
}
