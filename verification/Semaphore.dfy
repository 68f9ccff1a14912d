/** Counting semaphores: P and V as the sections they run under the semaphore's spinlock. Between two
    sections any other thread may run one of its own. */
module Semaphore {
  import opened Common

  const COUNT_LIMIT: nat := 0x1_0000_0000   // sem_count is an unsigned 32-bit word

  datatype Op = P(t: ThreadId) | Recheck(t: ThreadId) | V

  datatype Outcome = Done | Slept | Panic

  // ---------------------------------------------------------------------------------------------
  // The semaphore as a value

  datatype Sem = Sem(count: nat, sleepers: seq<ThreadId>, woken: set<ThreadId>)

  /** The test of the loop in P. */
  function Tested(s: Sem, t: ThreadId): Sem
  {
    if s.count == 0 then s.(sleepers := s.sleepers + [t]) else s.(count := s.count - 1)
  }

  /** One section; None where the thread is not at that point, or V fails its assertion. */
  function Step(s: Sem, op: Op): Option<Sem>
  {
    match op
    case P(t) => if t in s.sleepers || t in s.woken then None else Some(Tested(s, t))
    case Recheck(t) => if t !in s.woken then None else Some(Tested(s.(woken := s.woken - {t}), t))
    case V =>
      if s.count + 1 >= COUNT_LIMIT then None
      else if s.sleepers == [] then Some(s.(count := s.count + 1))
      else Some(Sem(s.count + 1, s.sleepers[1..], s.woken + {s.sleepers[0]}))
  }

  /** After the first n sections, if all of them can be taken. */
  function After(s: Sem, ops: seq<Op>, n: nat): Option<Sem>
    requires n <= |ops|
  {
    if n == 0 then Some(s)
    else match After(s, ops, n - 1) case None => None case Some(q) => Step(q, ops[n - 1])
  }

  /** The V calls among the first n sections. */
  function Vs(ops: seq<Op>, n: nat): nat
    requires n <= |ops|
  {
    if n == 0 then 0 else Vs(ops, n - 1) + if ops[n - 1].V? then 1 else 0
  }

  /** The P calls that come to their end in the first n sections: those that find a unit. */
  function Ps(s: Sem, ops: seq<Op>, n: nat): nat
    requires n <= |ops|
  {
    if n == 0 then 0
    else
      var q := After(s, ops, n - 1);
      Ps(s, ops, n - 1) + if q.Some? && !ops[n - 1].V? && q.value.count > 0 then 1 else 0
  }

  /** What is there is what was there, and what came in, without what went out. */
  lemma {:induction false} UnitsConserved(s: Sem, ops: seq<Op>, n: nat)
    requires n <= |ops| && After(s, ops, n).Some?
    ensures After(s, ops, n).value.count + Ps(s, ops, n) == s.count + Vs(ops, n)
  {
    if n > 0 {
      UnitsConserved(s, ops, n - 1);
    }
  }

  // ---------------------------------------------------------------------------------------------
  // The semaphore as it is kept

  class Semaphore {
    var count: nat
    var sleepers: seq<ThreadId>     // the wait channel
    var woken: set<ThreadId>        // made runnable, not yet back at the test of the loop
    ghost const initial: nat
    ghost var vs: nat               // completed V calls
    ghost var ps: nat               // completed P calls

    ghost predicate Consistent()
      reads this
    {
      && count < COUNT_LIMIT
      && (forall i, j | 0 <= i < j < |sleepers| :: sleepers[i] != sleepers[j])
      && (forall t <- sleepers :: t !in woken)
      && count == initial + vs - ps
    }

    /** While somebody sleeps, every unit of the count has a woken thread on its way to it. */
    ghost predicate Valid()
      reads this
    {
      Consistent() && (sleepers != [] ==> count <= |woken|)
    }

    ghost function Value(): Sem
      reads this
    {
      Sem(count, sleepers, woken)
    }

    /** Not inside P on this semaphore. */
    predicate Outside(t: ThreadId)
      reads this
    {
      t !in sleepers && t !in woken
    }

    constructor (initial: nat)
      requires initial < COUNT_LIMIT
      ensures Valid() && count == initial && this.initial == initial && sleepers == [] && woken == {}
      ensures vs == 0 && ps == 0
    {
      count := initial;
      sleepers := [];
      woken := {};
      this.initial := initial;
      vs, ps := 0, 0;
    }

    /** The loop of P from its test on, with the lock held: sleep if the count is zero, else take one.
        This thread's own wakeup may be the one that is missing from the cover of the count. */
    method TestAndTake(t: ThreadId) returns (r: Outcome)
      requires Consistent() && Outside(t) && (sleepers != [] ==> count <= |woken| + 1)
      modifies this`count, this`sleepers, this`ps
      ensures Valid() && r != Panic
      ensures r == Done <==> old(count) > 0
      ensures r == Slept ==> sleepers == old(sleepers) + [t] && count == old(count) && ps == old(ps)
      ensures r == Done ==> sleepers == old(sleepers) && count == old(count) - 1 && ps == old(ps) + 1
    {
      if count == 0 {
        sleepers := sleepers + [t];
        return Slept;
      }
      count := count - 1;
      ps := ps + 1;
      return Done;
    }

    /** A woken thread gets the lock back and tests again. */
    method RecheckP(t: ThreadId) returns (r: Outcome)
      requires Valid() && t in woken
      modifies this`count, this`sleepers, this`woken, this`ps
      ensures Valid() && r != Panic && woken == old(woken) - {t}
      ensures r == Done <==> old(count) > 0
      ensures r == Slept ==> sleepers == old(sleepers) + [t] && count == old(count) && ps == old(ps)
      ensures r == Done ==> sleepers == old(sleepers) && count == old(count) - 1 && ps == old(ps) + 1
    {
      assert |woken - {t}| == |woken| - 1;
      woken := woken - {t};
      r := TestAndTake(t);
    }

    /** One more, and one sleeper woken if there is any; the overflow assertion is the only panic. */
    method CallV() returns (r: Outcome)
      requires Valid()
      modifies this`count, this`sleepers, this`woken, this`vs
      ensures Valid()
      ensures r == Panic <==> old(count) == COUNT_LIMIT - 1
      ensures r == Panic ==> count == old(count) && sleepers == old(sleepers) && woken == old(woken) && vs == old(vs)
      ensures r != Panic ==> r == Done && count == old(count) + 1 && vs == old(vs) + 1
      ensures r != Panic && old(sleepers) == [] ==> sleepers == [] && woken == old(woken)
      ensures r != Panic && old(sleepers) != [] ==>
                sleepers == old(sleepers)[1..] && woken == old(woken) + {old(sleepers)[0]}
    {
      if count == COUNT_LIMIT - 1 {
        return Panic;
      }
      count := count + 1;
      vs := vs + 1;
      if sleepers != [] {
        assert |woken + {sleepers[0]}| == |woken| + 1;
        woken := woken + {sleepers[0]};
        sleepers := sleepers[1..];
      }
      return Done;
    }

    /** One section, if it can be taken. */
    method Section(op: Op) returns (ok: bool)
      requires Valid()
      modifies this`count, this`sleepers, this`woken, this`vs, this`ps
      ensures Valid() && Step(old(Value()), op) == (if ok then Some(Value()) else None)
      ensures !ok ==> Value() == old(Value())
      ensures vs == old(vs) + (if ok && op.V? then 1 else 0)
      ensures ps == old(ps) + (if ok && !op.V? && old(count) > 0 then 1 else 0)
    {
      match op {
        case P(t) =>
          if !Outside(t) {
            return false;   // a thread that is inside P cannot start another
          }
          var _ := TestAndTake(t);
        case Recheck(t) =>
          if t !in woken {
            return false;
          }
          var _ := RecheckP(t);
        case V =>
          var r := CallV();
          if r == Panic {
            return false;
          }
      }
      return true;
    }

    /** Any run of sections, in any order the threads can take them, up to the first that cannot be
        taken. The counts of calls are those of the sections done; and when nobody is on the way to
        test again, nobody sleeps on an available semaphore. */
    method Run(ops: seq<Op>) returns (done: nat)
      requires Valid()
      modifies this`count, this`sleepers, this`woken, this`vs, this`ps
      ensures Valid() && done <= |ops| && After(old(Value()), ops, done) == Some(Value())
      ensures done < |ops| ==> Step(Value(), ops[done]) == None
      ensures vs == old(vs) + Vs(ops, done) && ps == old(ps) + Ps(old(Value()), ops, done)
      ensures count == initial + vs - ps == old(count) + Vs(ops, done) - Ps(old(Value()), ops, done)
      ensures sleepers != [] ==> count <= |woken|
      ensures woken == {} ==> count == 0 || sleepers == []
    {
      done := 0;
      while done < |ops|
        invariant Valid() && done <= |ops| && After(old(Value()), ops, done) == Some(Value())
        invariant vs == old(vs) + Vs(ops, done) && ps == old(ps) + Ps(old(Value()), ops, done)
      {
        var ok := Section(ops[done]);
        if !ok {
          return;
        }
        done := done + 1;
      }
    }
  }
}
