/** Thread migration: the current CPU sheds ready threads to less busy ones. It takes one run queue lock
    at a time, so between any two of its lock sections the other CPUs may change the queues; what
    they did is given as input, one batch per section, and is arbitrary. */
module Migration {
  import opened Common

  type CpuId = nat

  /** A thread becomes ready on a run queue, is taken off the front by its CPU to run, or off
      the back by its CPU to migrate. Only a CPU itself takes threads off its queue. */
  datatype Interference = Arrive(d: CpuId, t: ThreadId) | Dispatch(d: CpuId) | Shed(d: CpuId)

  /** A thread given to another CPU, and how long that CPU's queue is then. */
  datatype Move = Move(t: ThreadId, to: CpuId, length: nat)

  function All(q: seq<seq<ThreadId>>): multiset<ThreadId>
  {
    if q == [] then multiset{} else multiset(q[0]) + All(q[1..])
  }

  function Total(q: seq<seq<ThreadId>>): nat
  {
    if q == [] then 0 else |q[0]| + Total(q[1..])
  }

  /** Adding a thread to one queue adds it to the whole. */
  lemma {:induction false} AllAdd(q: seq<seq<ThreadId>>, d: nat, s: seq<ThreadId>, t: ThreadId)
    requires d < |q| && multiset(s) == multiset(q[d]) + multiset{t}
    ensures All(q[d := s]) == All(q) + multiset{t}
  {
    if d == 0 {
      assert q[d := s][1..] == q[1..];
    } else {
      assert q[d := s][1..] == q[1..][d - 1 := s];
      AllAdd(q[1..], d - 1, s, t);
    }
  }

  lemma {:induction false} AllSize(q: seq<seq<ThreadId>>)
    ensures |All(q)| == Total(q)
  {
    if q != [] {
      AllSize(q[1..]);
    }
  }

  lemma {:induction false} TotalAppend(q: seq<seq<ThreadId>>, s: seq<ThreadId>)
    ensures Total(q + [s]) == Total(q) + |s|
  {
    if q == [] {
      assert q + [s] == [s];
      assert Total([s][1..]) == 0;
    } else {
      assert (q + [s])[1..] == q[1..] + [s];
      TotalAppend(q[1..], s);
    }
  }

  /** Queues that all hold `k` threads or more hold `|q| * k` or more together. */
  lemma {:induction false} TotalAtLeast(q: seq<seq<ThreadId>>, k: nat)
    requires forall s <- q :: |s| >= k
    ensures Total(q) >= |q| * k
  {
    if q != [] {
      var n := |q| - 1;
      TotalAtLeast(q[1..], k);
      OneTimesMore(n, k);
    }
  }

  lemma OneTimesMore(n: nat, k: nat)
    ensures (n + 1) * k == n * k + k
  {
  }

  lemma ShareCovers(total: nat, n: nat)
    requires n > 0
    ensures n * DivRoundUp(total, n) >= total
  {
    var a := total + n - 1;
    assert a == n * (a / n) + a % n;
  }

  function DivRoundUp(a: nat, b: nat): nat
    requires b > 0
  {
    (a + b - 1) / b
  }

  /** The other CPUs leave the run queues alone. */
  predicate Quiet(env: seq<seq<Interference>>)
  {
    forall i | 0 <= i < |env| :: env[i] == []
  }

  /** Thread t was given away. */
  predicate Gave(moves: seq<Move>, t: ThreadId)
  {
    exists m <- moves :: m.t == t
  }

  lemma GaveAppend(a: seq<Move>, b: seq<Move>, t: ThreadId)
    ensures Gave(a + b, t) <==> Gave(a, t) || Gave(b, t)
  {
    if Gave(a, t) {
      var m :| m in a && m.t == t;
      assert m in a + b;
    }
    if Gave(b, t) {
      var m :| m in b && m.t == t;
      assert m in a + b;
    }
  }

  /** What was in `was` is in `now` or among the moves, and nothing else is: members and number. */
  ghost predicate Split(was: seq<ThreadId>, now: seq<ThreadId>, moves: seq<Move>)
  {
    && |was| == |now| + |moves|
    && forall t :: t in was <==> t in now || Gave(moves, t)
  }

  lemma SplitMove(was: seq<ThreadId>, vs: seq<ThreadId>, moves: seq<Move>, m: Move)
    requires Split(was, vs, moves) && vs != [] && m.t == vs[0]
    ensures Split(was, vs[1..], moves + [m])
  {
    forall t ensures t in was <==> t in vs[1..] || Gave(moves + [m], t) {
      GaveAppend(moves, [m], t);
      assert vs == [vs[0]] + vs[1..];
      assert Gave([m], t) <==> t == m.t by { assert m in [m]; }
    }
  }

  lemma SplitRotate(was: seq<ThreadId>, vs: seq<ThreadId>, moves: seq<Move>)
    requires Split(was, vs, moves) && vs != []
    ensures Split(was, vs[1..] + [vs[0]], moves)
  {
    assert vs == [vs[0]] + vs[1..];
  }

  lemma SplitReceive(was: seq<ThreadId>, now: seq<ThreadId>, moves: seq<Move>, m: Move)
    requires Split(now, was, moves)
    ensures Split(now + [m.t], was, moves + [m])
  {
    forall t ensures t in now + [m.t] <==> t in was || Gave(moves + [m], t) {
      GaveAppend(moves, [m], t);
      assert Gave([m], t) <==> t == m.t by { assert m in [m]; }
    }
  }

  /** First some are given, then more. */
  lemma SplitChain(was: seq<ThreadId>, q: seq<ThreadId>, vs: seq<ThreadId>, a: seq<Move>, vs': seq<ThreadId>,
                   b: seq<Move>)
    requires Split(was, q + vs, a) && Split(vs, vs', b)
    ensures Split(was, q + vs', a + b)
  {
    forall t ensures t in was <==> t in q + vs' || Gave(a + b, t) {
      GaveAppend(a, b, t);
    }
  }

  /** Threads that land on the queue are there. */
  lemma SplitLand(was: seq<ThreadId>, q: seq<ThreadId>, vs: seq<ThreadId>, moves: seq<Move>, more: seq<ThreadId>)
    requires Split(was, q + vs, moves)
    ensures Split(was + more, (q + more) + vs, moves)
  {
  }

  class Cpus {
    var queues: seq<seq<ThreadId>>
    const me: CpuId
    const curthread: ThreadId
    var victims: seq<ThreadId>
    // What the other CPUs have added to and taken from the queues.
    var arrived: multiset<ThreadId>
    var departed: multiset<ThreadId>
    // What they have added to our own queue.
    var landed: seq<ThreadId>

    ghost predicate Valid()
      reads this
    {
      && me < |queues|
      && (forall d | 0 <= d < |queues| && d != me :: curthread !in queues[d])
    }

    /** Every thread that was there or arrived is in a queue, in our hands, or was taken by its CPU. */
    ghost predicate Conserved(before: multiset<ThreadId>)
      reads this
    {
      All(queues) + multiset(victims) + departed == before + arrived
    }

    /** Every thread that was on our own queue or landed there is there still, in our hands, or among
        those given away; and no other thread is given away. */
    ghost predicate Accounted(ours: seq<ThreadId>, moves: seq<Move>)
      reads this
    {
      me < |queues| && Split(ours + landed, queues[me] + victims, moves)
    }

    constructor (queues: seq<seq<ThreadId>>, me: CpuId, curthread: ThreadId)
      requires me < |queues|
      requires forall d | 0 <= d < |queues| && d != me :: curthread !in queues[d]
      ensures Valid() && this.queues == queues && this.me == me && this.curthread == curthread
      ensures victims == [] && arrived == multiset{} && departed == multiset{} && landed == []
    {
      this.queues, this.me, this.curthread := queues, me, curthread;
      victims, arrived, departed, landed := [], multiset{}, multiset{}, [];
    }

    method AddTail(d: CpuId, t: ThreadId)
      requires d < |queues|
      modifies this`queues
      ensures queues == old(queues)[d := old(queues)[d] + [t]]
      ensures All(queues) == All(old(queues)) + multiset{t}
    {
      AllAdd(queues, d, queues[d] + [t], t);
      queues := queues[d := queues[d] + [t]];
    }

    method RemHead(d: CpuId) returns (t: ThreadId)
      requires d < |queues| && queues[d] != []
      modifies this`queues
      ensures t == old(queues)[d][0] && queues == old(queues)[d := old(queues)[d][1..]]
      ensures All(old(queues)) == All(queues) + multiset{t}
    {
      ghost var was := queues[d];
      t := queues[d][0];
      queues := queues[d := queues[d][1..]];
      assert was == [t] + queues[d];
      AllAdd(queues, d, was, t);
      assert queues[d := was] == old(queues);
    }

    method RemTail(d: CpuId) returns (t: ThreadId)
      requires d < |queues| && queues[d] != []
      modifies this`queues
      ensures t == old(queues)[d][|old(queues)[d]| - 1]
      ensures queues == old(queues)[d := old(queues)[d][..|old(queues)[d]| - 1]]
      ensures All(old(queues)) == All(queues) + multiset{t}
    {
      ghost var was := queues[d];
      var n := |queues[d]| - 1;
      t := queues[d][n];
      queues := queues[d := queues[d][..n]];
      assert was == queues[d] + [t];
      AllAdd(queues, d, was, t);
      assert queues[d := was] == old(queues);
    }

    /** A thread becomes ready. */
    method ArriveAt(d: CpuId, t: ThreadId, ghost before: multiset<ThreadId>)
      requires Valid() && Conserved(before) && d < |queues| && (t == curthread ==> d == me)
      modifies this`queues, this`arrived, this`landed
      ensures Valid() && Conserved(before) && |queues| == |old(queues)|
      ensures old(landed) <= landed && queues[me] == old(queues)[me] + landed[|old(landed)|..]
    {
      AddTail(d, t);
      arrived := arrived + multiset{t};
      Arrival(All(old(queues)), t, multiset(victims), departed, before, old(arrived));
      if d == me {
        landed := landed + [t];
        assert landed[|old(landed)|..] == [t];
      }
    }

    /** A CPU takes a thread off its own queue. */
    method TakenFrom(d: CpuId, front: bool, ghost before: multiset<ThreadId>)
      requires Valid() && Conserved(before) && d < |queues| && d != me && queues[d] != []
      modifies this`queues, this`departed
      ensures Valid() && Conserved(before) && |queues| == |old(queues)| && queues[me] == old(queues)[me]
    {
      var t;
      if front {
        t := RemHead(d);
      } else {
        t := RemTail(d);
      }
      Departure(All(queues), t, multiset(victims), departed, before + arrived);
      departed := departed + multiset{t};
    }

    /** One action of another CPU. */
    method InterfereOnce(e: Interference, ghost before: multiset<ThreadId>)
      requires Valid() && Conserved(before)
      modifies this`queues, this`arrived, this`departed, this`landed
      ensures Valid() && Conserved(before) && |queues| == |old(queues)|
      ensures old(landed) <= landed && queues[me] == old(queues)[me] + landed[|old(landed)|..]
    {
      match e {
        case Arrive(d, t) =>
          if d < |queues| && (t == curthread ==> d == me) {
            ArriveAt(d, t, before);
          }
        case Dispatch(d) =>
          if d < |queues| && d != me && queues[d] != [] {
            TakenFrom(d, true, before);
          }
        case Shed(d) =>
          if d < |queues| && d != me && queues[d] != [] {
            TakenFrom(d, false, before);
          }
      }
    }

    static lemma Arrival(q: multiset<ThreadId>, t: ThreadId, vs: multiset<ThreadId>, gone: multiset<ThreadId>,
                         before: multiset<ThreadId>, arrived: multiset<ThreadId>)
      requires q + vs + gone == before + arrived
      ensures q + multiset{t} + vs + gone == before + (arrived + multiset{t})
    {
      assert q + multiset{t} + vs + gone == (q + vs + gone) + multiset{t};
    }

    static lemma Departure(q: multiset<ThreadId>, t: ThreadId, v: multiset<ThreadId>, d: multiset<ThreadId>,
                           all: multiset<ThreadId>)
      requires q + multiset{t} + v + d == all
      ensures q + v + (d + multiset{t}) == all
    {
    }

    /** The other CPUs run. They never take from our queue, and the current thread, which
        belongs to this CPU, never arrives anywhere else. */
    method Interfere(batch: seq<Interference>, ghost before: multiset<ThreadId>)
      requires Valid() && Conserved(before)
      modifies this`queues, this`arrived, this`departed, this`landed
      ensures Valid() && Conserved(before) && |queues| == |old(queues)|
      ensures old(landed) <= landed && queues[me] == old(queues)[me] + landed[|old(landed)|..]
      ensures batch == [] ==> queues == old(queues) && arrived == old(arrived) && departed == old(departed)
    {
      for i := 0 to |batch|
        invariant Valid() && Conserved(before) && |queues| == |old(queues)|
        invariant old(landed) <= landed && queues[me] == old(queues)[me] + landed[|old(landed)|..]
        invariant batch == [] ==> queues == old(queues) && arrived == old(arrived) && departed == old(departed)
      {
        ghost var l := landed;
        InterfereOnce(batch[i], before);
        assert landed[|old(landed)|..] == l[|old(landed)|..] + landed[|l|..];
      }
    }

    /** Interference does not upset the account. */
    method InterfereBetween(batch: seq<Interference>, ghost before: multiset<ThreadId>, ghost ours: seq<ThreadId>,
                            ghost moves: seq<Move>)
      requires Valid() && Conserved(before) && Accounted(ours, moves)
      modifies this`queues, this`arrived, this`departed, this`landed
      ensures Valid() && Conserved(before) && Accounted(ours, moves) && |queues| == |old(queues)|
      ensures |old(queues)[me]| <= |queues[me]|
      ensures batch == [] ==> queues == old(queues) && arrived == old(arrived) && departed == old(departed)
    {
      ghost var q, l := queues[me], landed;
      Interfere(batch, before);
      SplitLand(ours + l, q, victims, moves, landed[|l|..]);
      assert ours + l + landed[|l|..] == ours + landed;
    }

    /** Take the last `n` threads of our own queue, which is long enough. */
    method TakeVictims(n: nat)
      requires Valid() && victims == [] && n <= |queues[me]|
      modifies this`queues, this`victims
      ensures Valid() && |queues| == |old(queues)| && |victims| == n
      ensures queues[me] + victims == old(queues)[me]
      ensures All(queues) + multiset(victims) == All(old(queues))
    {
      for i := 0 to n
        invariant Valid() && |queues| == |old(queues)| && |victims| == i
        invariant queues[me] + victims == old(queues)[me]
        invariant All(queues) + multiset(victims) == All(old(queues))
      {
        TakeOne();
      }
    }

    method TakeOne()
      requires Valid() && queues[me] != []
      modifies this`queues, this`victims
      ensures Valid() && |queues| == |old(queues)| && |victims| == |old(victims)| + 1
      ensures queues[me] + victims == old(queues[me] + victims)
      ensures All(queues) + multiset(victims) == old(All(queues) + multiset(victims))
    {
      ghost var q, vs := queues[me], victims;
      var t := RemTail(me);
      victims := [t] + victims;
      assert q == queues[me] + [t];
      assert queues[me] + victims == q + vs;
      assert multiset(victims) == multiset(vs) + multiset{t};
    }

    /** How far the giving to queue c has come, from queues q0 and victims v0. */
    ghost predicate Giving(q0: seq<seq<ThreadId>>, v0: seq<ThreadId>, c: CpuId, oneShare: nat, toSend: nat, left: nat,
                           moves: seq<Move>)
      reads this
      requires c < |q0|
    {
      && Valid() && |queues| == |q0| && left <= toSend && left <= |victims|
      && (forall d | 0 <= d < |queues| && d != c :: queues[d] == q0[d])
      && (forall m <- moves :: m.t != curthread && m.to == c && m.length <= oneShare)
      && (|q0[c]| <= oneShare ==> |queues[c]| <= oneShare) && (|q0[c]| > oneShare ==> queues[c] == q0[c])
      && (curthread !in v0 ==> curthread !in victims && |victims| - left == |v0| - toSend)
      && All(queues) + multiset(victims) == All(q0) + multiset(v0)
      && Split(v0, victims, moves) && Split(queues[c], q0[c], moves)
    }

    /** Fill the queue of CPU c up to one share, setting the current thread aside if it comes up. */
    method Give(c: CpuId, oneShare: nat, toSend: nat) returns (left: nat, moves: seq<Move>)
      requires Valid() && c < |queues| && c != me && toSend <= |victims|
      modifies this`queues, this`victims
      ensures Valid() && |queues| == |old(queues)| && left <= toSend && left <= |victims|
      ensures forall d | 0 <= d < |queues| && d != c :: queues[d] == old(queues)[d]
      ensures forall m <- moves :: m.t != curthread && m.to == c && m.length <= oneShare
      ensures |old(queues)[c]| <= oneShare ==> |queues[c]| <= oneShare
      ensures |old(queues)[c]| > oneShare ==> queues[c] == old(queues)[c]
      ensures left == 0 || |queues[c]| >= oneShare
      ensures curthread !in old(victims) ==> curthread !in victims && |victims| - left == |old(victims)| - toSend
      ensures All(queues) + multiset(victims) == All(old(queues)) + multiset(old(victims))
      ensures Split(old(victims), victims, moves) && Split(queues[c], old(queues)[c], moves)
    {
      left := toSend;
      moves := [];
      while |queues[c]| < oneShare && left > 0
        invariant Giving(old(queues), old(victims), c, oneShare, toSend, left, moves)
        decreases left
      {
        moves := GiveNext(old(queues), old(victims), c, oneShare, toSend, left, moves);
        left := left - 1;
      }
    }

    /** The thread itself goes to the end of the victims, any other one to the queue. */
    method GiveNext(ghost q0: seq<seq<ThreadId>>, ghost v0: seq<ThreadId>, c: CpuId, ghost oneShare: nat,
                    ghost toSend: nat, ghost left: nat, moves: seq<Move>)
      returns (moves': seq<Move>)
      requires c < |q0| && c != me && Giving(q0, v0, c, oneShare, toSend, left, moves)
      requires |queues[c]| < oneShare && left > 0
      modifies this`queues, this`victims
      ensures Giving(q0, v0, c, oneShare, toSend, left - 1, moves')
    {
      var t := victims[0];
      assert victims == [t] + victims[1..];
      if t == curthread {
        SplitRotate(v0, victims, moves);
        victims := victims[1..] + [t];
        return moves;
      }
      ghost var m := Move(t, c, |queues[c]| + 1);
      SplitMove(v0, victims, moves, m);
      SplitReceive(q0[c], queues[c], moves, m);
      victims := victims[1..];
      AddTail(c, t);
      moves' := moves + [Move(t, c, |queues[c]|)];
    }

    /** Put what is left back on our own queue. */
    method ReturnVictims()
      requires Valid()
      modifies this`queues, this`victims
      ensures Valid() && |queues| == |old(queues)| && victims == []
      ensures queues[me] == old(queues)[me] + old(victims)
      ensures forall d | 0 <= d < |queues| && d != me :: queues[d] == old(queues)[d]
      ensures All(queues) == All(old(queues)) + multiset(old(victims))
    {
      while victims != []
        invariant Valid() && |queues| == |old(queues)|
        invariant queues[me] + victims == old(queues)[me] + old(victims)
        invariant forall d | 0 <= d < |queues| && d != me :: queues[d] == old(queues)[d]
        invariant All(queues) + multiset(victims) == All(old(queues)) + multiset(old(victims))
        decreases |victims|
      {
        ReturnOne();
      }
    }

    method ReturnOne()
      requires Valid() && victims != []
      modifies this`queues, this`victims
      ensures Valid() && |queues| == |old(queues)| && |victims| == |old(victims)| - 1
      ensures queues[me] + victims == old(queues[me] + victims)
      ensures forall d | 0 <= d < |queues| && d != me :: queues[d] == old(queues)[d]
      ensures All(queues) + multiset(victims) == old(All(queues) + multiset(victims))
    {
      var t := victims[0];
      ghost var q, vs := queues[me], victims;
      assert vs == [t] + vs[1..];
      AddTail(me, t);
      victims := victims[1..];
      assert q + vs == queues[me] + victims;
      assert multiset(vs) == multiset{t} + multiset(victims);
    }

    /** Our own queue has got what landed since. */
    ghost predicate LandedSince(q0: seq<ThreadId>, l0: seq<ThreadId>)
      reads this
    {
      me < |queues| && l0 <= landed && queues[me] == q0 + landed[|l0|..]
    }

    method InterfereOn(batch: seq<Interference>, ghost before: multiset<ThreadId>, ghost q0: seq<ThreadId>,
                       ghost l0: seq<ThreadId>)
      requires Valid() && Conserved(before) && LandedSince(q0, l0)
      modifies this`queues, this`arrived, this`departed, this`landed
      ensures Valid() && Conserved(before) && |queues| == |old(queues)| && LandedSince(q0, l0)
      ensures |old(queues)[me]| <= |queues[me]|
      ensures batch == [] ==> queues == old(queues) && arrived == old(arrived) && departed == old(departed)
    {
      Interfere(batch, before);
      MoreLanded(l0, old(landed), landed);
    }

    static lemma MoreLanded(a: seq<ThreadId>, b: seq<ThreadId>, c: seq<ThreadId>)
      requires a <= b <= c
      ensures c[|a|..] == b[|a|..] + c[|b|..]
    {
    }

    static lemma TotalUpTo(qs: seq<seq<ThreadId>>, i: nat)
      requires i < |qs|
      ensures Total(qs[..i + 1]) == Total(qs[..i]) + |qs[i]|
    {
      TotalAppend(qs[..i], qs[i]);
      assert qs[..i + 1] == qs[..i] + [qs[i]];
    }

    /** Count the queues one lock section at a time. Our own queue can only have grown since it
        was counted. */
    method CountQueues(env: seq<seq<Interference>>, ghost before: multiset<ThreadId>)
      returns (mine: nat, total: nat)
      requires Valid() && Conserved(before) && |env| >= |queues|
      modifies this`queues, this`arrived, this`departed, this`landed
      ensures Valid() && Conserved(before) && |queues| == |old(queues)|
      ensures old(landed) <= landed && queues[me] == old(queues)[me] + landed[|old(landed)|..]
      ensures mine <= |queues[me]| && mine <= total
      ensures Quiet(env) ==>
                && queues == old(queues) && arrived == old(arrived) && departed == old(departed)
                && mine == |queues[me]| && total == Total(queues)
    {
      mine, total := 0, 0;
      var n := |queues|;
      for i := 0 to n
        invariant Valid() && Conserved(before) && |queues| == n
        invariant LandedSince(old(queues)[me], old(landed))
        invariant Quiet(env) ==> queues == old(queues) && arrived == old(arrived) && departed == old(departed)
        invariant Quiet(env) ==> total == Total(queues[..i]) && (i > me ==> mine == |queues[me]|)
        invariant mine <= |queues[me]| && mine <= total
        invariant i <= me ==> mine == 0
      {
        InterfereOn(env[i], before, old(queues)[me], old(landed));
        total := total + |queues[i]|;
        if i == me {
          mine := |queues[i]|;
        }
        TotalUpTo(queues, i);
      }
      assert queues[..n] == queues;
    }

    /** If nothing interferes and threads are still in hand, some other queue has room: else there
        would be more threads than all the shares together. */
    lemma NothingLeftOver(oneShare: nat, before: multiset<ThreadId>)
      requires Valid() && Conserved(before) && oneShare == DivRoundUp(|before|, |queues|)
      requires QuietShare(oneShare, |victims|) && victims != []
      ensures exists d :: 0 <= d < |queues| && d != me && |queues[d]| < oneShare
    {
      var held := All(queues) + multiset(victims);
      assert held + multiset{} == before + multiset{};
      assert held + multiset{} == held && before + multiset{} == before;
      AllSize(queues);
      ShareCovers(|before|, |queues|);
      if forall d | 0 <= d < |queues| && d != me :: |queues[d]| >= oneShare {
        TotalAtLeast(queues, oneShare);
      }
    }

    /** What `ShareOut` starts from and keeps when nothing interferes. */
    ghost predicate QuietShare(oneShare: nat, toSend: nat)
      reads this
    {
      && me < |queues| && arrived == multiset{} && departed == multiset{}
      && |queues[me]| == oneShare && toSend == |victims| && curthread !in victims
    }

    /** Offer the victims to every other CPU in turn. */
    method ShareOut(env: seq<seq<Interference>>, oneShare: nat, n: nat, ghost before: multiset<ThreadId>,
                    ghost ours: seq<ThreadId>)
      returns (left: nat, moves: seq<Move>)
      requires Valid() && Conserved(before) && Accounted(ours, []) && |queues| == |env| && n <= |victims|
      modifies this`queues, this`victims, this`arrived, this`departed, this`landed
      ensures Accounted(ours, moves)
      ensures Valid() && Conserved(before) && |queues| == |old(queues)| && left <= |victims|
      ensures forall m <- moves :: m.t != curthread && m.to != me && m.to < |queues| && m.length <= oneShare
      ensures Quiet(env) && old(QuietShare(oneShare, n)) ==> QuietShare(oneShare, left)
      ensures Quiet(env) && old(QuietShare(oneShare, n)) && left > 0 ==>
                forall d | 0 <= d < |queues| && d != me :: |queues[d]| >= oneShare
    {
      moves := [];
      left := n;
      ghost var quiet := Quiet(env) && QuietShare(oneShare, n);
      for i := 0 to |env|
        invariant Valid() && Conserved(before) && Accounted(ours, moves) && |queues| == |env| && left <= |victims|
        invariant forall m <- moves :: m.t != curthread && m.to != me && m.to < |env| && m.length <= oneShare
        invariant quiet ==> QuietShare(oneShare, left)
        invariant quiet && left > 0 ==> forall d | 0 <= d < i && d != me :: |queues[d]| >= oneShare
      {
        if left > 0 && i != me {
          InterfereBetween(env[i], before, ours, moves);
          ghost var vs := victims;
          var gave;
          left, gave := Give(i, oneShare, left);
          SplitChain(ours + landed, queues[me], vs, moves, victims, gave);
          moves := moves + gave;
        }
      }
    }

    /** What is left over goes back. */
    method PutBack(batch: seq<Interference>, ghost before: multiset<ThreadId>, ghost ours: seq<ThreadId>,
                   ghost moves: seq<Move>)
      requires Valid() && Conserved(before) && Accounted(ours, moves)
      modifies this`queues, this`victims, this`arrived, this`departed, this`landed
      ensures Valid() && Conserved(before) && Accounted(ours, moves) && victims == [] && |queues| == |old(queues)|
    {
      InterfereBetween(batch, before, ours, moves);
      ReturnVictims();
      assert queues[me] + [] == queues[me];
    }

    /** Take the surplus, offer it round, and put back what nobody had room for. */
    method ShedSurplus(surplus: nat, oneShare: nat, share: seq<seq<Interference>>, putback: seq<Interference>,
                       ghost before: multiset<ThreadId>, ghost ours: seq<ThreadId>)
      returns (moves: seq<Move>)
      requires Valid() && Conserved(before) && Accounted(ours, []) && victims == [] && |share| == |queues|
      requires surplus <= |queues[me]|
      modifies this`queues, this`victims, this`arrived, this`departed, this`landed
      ensures Valid() && Conserved(before) && Accounted(ours, moves) && victims == [] && |queues| == |old(queues)|
      ensures forall m <- moves :: m.t != curthread && m.to != me && m.to < |queues| && m.length <= oneShare
      ensures Quiet(share) && old(arrived) == old(departed) == multiset{} && curthread !in old(queues)[me] &&
              |old(queues)[me]| == surplus + oneShare && oneShare == DivRoundUp(|before|, |queues|) ==>
                |queues[me]| == oneShare
    {
      ghost var quiet := Quiet(share) && arrived == departed == multiset{} && curthread !in queues[me]
        && |queues[me]| == surplus + oneShare && oneShare == DivRoundUp(|before|, |queues|);
      TakeVictims(surplus);
      assert queues[me] + victims == old(queues[me] + victims);
      assert forall t <- victims :: t in queues[me] + victims;
      var left;
      left, moves := ShareOut(share, oneShare, |victims|, before, ours);
      if victims != [] {
        if quiet {
          NothingLeftOver(oneShare, before);
        }
        PutBack(putback, before, ours, moves);
      }
    }

    lemma NothingGiven(ours: seq<ThreadId>)
      requires me < |queues| && queues[me] == ours + landed && victims == []
      ensures Accounted(ours, [])
    {
      assert queues[me] + victims == ours + landed;
    }

    /** The whole of thread_consider_migration, with a batch of interference for every lock section. No
        thread is lost or made twice, the current thread stays here, no queue is filled past one
        share; the threads that leave our queue are exactly those given away; and if nothing interferes,
        what is over one share here finds room elsewhere. */
    method ConsiderMigration(count: seq<seq<Interference>>, take: seq<Interference>,
                             share: seq<seq<Interference>>, putback: seq<Interference>)
      returns (moves: seq<Move>, oneShare: nat)
      requires Valid() && victims == [] && arrived == multiset{} && departed == multiset{} && landed == []
      requires |count| == |share| == |queues|
      modifies this
      ensures Valid() && victims == [] && |queues| == |old(queues)|
      ensures All(queues) + departed == All(old(queues)) + arrived
      ensures Accounted(old(queues)[me], moves)
      ensures forall m <- moves :: m.t != curthread && m.to != me && m.to < |queues| && m.length <= oneShare
      ensures Quiet(count) && take == [] && Quiet(share) && curthread !in old(queues)[me] ==>
                && oneShare == DivRoundUp(Total(old(queues)), |queues|)
                && |queues[me]| == if |old(queues)[me]| < oneShare then |old(queues)[me]| else oneShare
    {
      ghost var before, ours := All(queues), queues[me];
      AllSize(queues);
      moves := [];
      var mine, total := CountQueues(count, before);
      oneShare := DivRoundUp(total, |queues|);
      NothingGiven(ours);
      if mine >= oneShare {
        moves := ShedFrom(mine, oneShare, take, share, putback, before, ours);
      }
    }

    /** The part of it that moves threads. */
    method ShedFrom(mine: nat, oneShare: nat, take: seq<Interference>, share: seq<seq<Interference>>,
                    putback: seq<Interference>, ghost before: multiset<ThreadId>, ghost ours: seq<ThreadId>)
      returns (moves: seq<Move>)
      requires Valid() && Conserved(before) && Accounted(ours, []) && victims == [] && |share| == |queues|
      requires oneShare <= mine <= |queues[me]|
      modifies this`queues, this`victims, this`arrived, this`departed, this`landed
      ensures Valid() && Conserved(before) && Accounted(ours, moves) && victims == [] && |queues| == |old(queues)|
      ensures forall m <- moves :: m.t != curthread && m.to != me && m.to < |queues| && m.length <= oneShare
      ensures take == [] && Quiet(share) && old(arrived) == old(departed) == multiset{} &&
              curthread !in old(queues)[me] && mine == |old(queues)[me]| &&
              oneShare == DivRoundUp(|before|, |queues|) ==>
                |queues[me]| == oneShare
    {
      InterfereBetween(take, before, ours, []);
      moves := ShedSurplus(mine - oneShare, oneShare, share, putback, before, ours);
    }
  }
}
