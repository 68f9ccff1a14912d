/** What every reachable state of the thread system satisfies. */
module SchedulerSafety {
  import opened Common
  import opened Scheduler

  // ---------------------------------------------------------------------------------------------
  // The invariant

  /** List nodes and lists agree: a thread's node is linked on the list it is found on, once. */
  predicate Linked(s: State)
  {
    && (forall ln <- s.lists, i | 0 <= i < |s.lists[ln]| ::
          s.lists[ln][i] in s.threads && s.threads[s.lists[ln][i]].link == Some(ln))
    && (forall ln <- s.lists, i, j | 0 <= i < j < |s.lists[ln]| :: s.lists[ln][i] != s.lists[ln][j])
    && (forall t <- s.threads | s.threads[t].link.Some? ::
          s.threads[t].link.value in s.lists && t in s.lists[s.threads[t].link.value])
  }

  /** No spinlock is held by two CPUs. */
  predicate Exclusive(s: State)
  {
    forall c, d, l | 0 <= c < |s.cpus| && 0 <= d < |s.cpus| && l in s.cpus[c].held && l in s.cpus[d].held :: c == d
  }

  predicate OnCpu(s: State, t: ThreadId)
    requires Shaped(s) && t in s.threads
  {
    s.cpus[s.threads[t].cpu].cur == t
  }

  /** The locks a CPU holds at each point: through the switch it is its own run queue's lock only. */
  predicate LocksOk(s: State, c: CpuId)
    requires c < |s.cpus|
  {
    var k := s.cpus[c];
    && (k.want.Some? ==> k.want.value !in k.held)
    && match k.pc
       case Running => true
       case Idling => true
       case Entering(to, ch) =>
         var base := if to == Sleep then {Spinlock(ch)} else {};
         to != Run && if k.want == None then k.held == base + {RunQueueLock(c)}
                      else k.want == Some(RunQueueLock(c)) && k.held == base
       case Queued(to, ch) => to != Run && k.want == None && k.held == {RunQueueLock(c)}
       case Picking => if k.want == None then k.held == {RunQueueLock(c)}
                       else k.want == Some(RunQueueLock(c)) && k.held == {}
       case Switched => k.want == None && k.held == {RunQueueLock(c)}
       case Cleaning => k.want == None && k.held == {}
  }

  /** The current thread belongs to its CPU; private lists are in use only outside a switch. */
  predicate CpuOk(s: State, c: CpuId)
    requires Shaped(s) && c < |s.cpus|
  {
    var k := s.cpus[c];
    && s.threads[k.cur].cpu == c
    && (k.idle <==> k.pc == Picking || k.pc == Idling)
    && (k.pc != Running ==> s.threads[k.cur].high)
    && (k.pc != Running && k.pc != Idling ==> List(s, Waking(c)) == [] && List(s, Victims(c)) == [])
  }

  function One(b: bool): nat { if b then 1 else 0 }

  /** On a CPU, the count is the locks held or spun for plus the spl; interrupts are on exactly
      when it is zero. */
  predicate CountOk(s: State, c: CpuId)
    requires Shaped(s) && c < |s.cpus|
  {
    var k := s.cpus[c];
    var th := s.threads[k.cur];
    && th.count == |k.held| + One(k.want.Some?) + One(th.high)
    && (k.irq <==> th.count == 0)
  }

  /** Off every CPU, the count is the handed-over run queue lock plus the spl. */
  predicate ParkedCountOk(s: State, t: ThreadId)
    requires Shaped(s) && t in s.threads
  {
    !OnCpu(s, t) ==> s.threads[t].high && s.threads[t].count == 2
  }

  /** A thread that is not executing is on the list its state says. */
  predicate Parked(th: Thread)
  {
    && !th.boot
    && match th.state
       case Run => false
       case Ready => th.link == Some(RunQueue(th.cpu)) || th.link == Some(Victims(th.cpu))
       case Sleep => th.link.Some? && (th.link.value.Channel? || th.link.value.Waking?)
       case Zombie => th.link == Some(Zombies(th.cpu))
  }

  predicate Executing(th: Thread)
  {
    th.state == Run || (th.boot && th.state == Ready)
  }

  predicate PlaceOk(s: State, t: ThreadId)
    requires Shaped(s) && t in s.threads
  {
    var th := s.threads[t];
    if !OnCpu(s, t) then Parked(th)
    else
      match s.cpus[th.cpu].pc
      case Running => Executing(th) && th.link == None
      case Entering(_, _) => Executing(th) && th.link == None
      case Cleaning => Executing(th) && th.link == None
      case Queued(to, ch) =>
        (match to
         case Run => false
         case Ready => Parked(th) && th.state == Ready && th.link == Some(RunQueue(th.cpu))
         case Sleep => Executing(th) && th.link.Some? && (th.link.value == Channel(ch) || th.link.value.Waking?)
         case Zombie => Executing(th) && th.link == Some(Zombies(th.cpu)))
      case Picking => Parked(th)
      case Idling => Parked(th)
      case Switched => th.state == Ready && !th.boot && th.link == None
  }

  predicate CpusOk(s: State)
    requires Shaped(s)
  {
    forall c | 0 <= c < |s.cpus| :: LocksOk(s, c) && CpuOk(s, c) && CountOk(s, c)
  }

  predicate ThreadsOk(s: State)
    requires Shaped(s)
  {
    forall t <- s.threads :: PlaceOk(s, t) && ParkedCountOk(s, t)
  }

  predicate Inv(s: State)
  {
    Shaped(s) && Linked(s) && Exclusive(s) && CpusOk(s) && ThreadsOk(s)
  }

  /** Every CPU starts on its own first thread, interrupts off, all lists empty. */
  predicate Init(s: State)
  {
    && |s.cpus| > 0
    && s.lists == map[]
    && (forall c | 0 <= c < |s.cpus| ::
          && s.cpus[c] == Cpu(c, Running, {}, None, false, false)
          && c in s.threads && s.threads[c] == Thread(Ready, c, true, 1, false, None, true))
    && (forall t <- s.threads :: t < |s.cpus|)
  }

  lemma InitInv(s: State)
    requires Init(s)
    ensures Inv(s)
  {
  }

  // ---------------------------------------------------------------------------------------------
  // Frames: what a step of CPU c cannot disturb

  /** CPUs other than `c` keep their locks, their current thread and its counts. */
  predicate SameElsewhere(s: State, s': State, c: CpuId)
    requires Shaped(s) && Shaped(s')
  {
    && |s'.cpus| == |s.cpus| && c < |s.cpus|
    && forall d | 0 <= d < |s.cpus| && d != c ::
         && s'.cpus[d] == s.cpus[d]
         && var t := s.cpus[d].cur;
         && t in s'.threads && s'.threads[t].cpu == s.threads[t].cpu
         && s'.threads[t].high == s.threads[t].high && s'.threads[t].count == s.threads[t].count
         && List(s', Waking(d)) == List(s, Waking(d)) && List(s', Victims(d)) == List(s, Victims(d))
  }

  lemma OtherCpus(s: State, s': State, c: CpuId)
    requires Shaped(s) && CpusOk(s) && Shaped(s') && SameElsewhere(s, s', c)
    requires LocksOk(s', c) && CpuOk(s', c) && CountOk(s', c)
    ensures CpusOk(s')
  {
    forall d | 0 <= d < |s'.cpus| ensures LocksOk(s', d) && CpuOk(s', d) && CountOk(s', d) {
      if d != c {
        assert LocksOk(s, d) && CpuOk(s, d) && CountOk(s, d);
      }
    }
  }

  /** Threads other than t and u keep their place, if the current threads of c are among these two. */
  lemma OtherThreads(s: State, s': State, c: CpuId, t: ThreadId, u: ThreadId)
    requires Shaped(s) && ThreadsOk(s) && Shaped(s') && SameElsewhere(s, s', c)
    requires u == s.cpus[c].cur && (s'.cpus[c].cur == t || s'.cpus[c].cur == u)
    requires forall v <- s'.threads | v != t && v != u :: v in s.threads && s'.threads[v] == s.threads[v]
    requires t in s'.threads ==> PlaceOk(s', t) && ParkedCountOk(s', t)
    requires u in s'.threads ==> PlaceOk(s', u) && ParkedCountOk(s', u)
    ensures ThreadsOk(s')
  {
    forall v <- s'.threads ensures PlaceOk(s', v) && ParkedCountOk(s', v) {
      if v != t && v != u {
        assert PlaceOk(s, v) && ParkedCountOk(s, v);
      }
    }
  }

  /** No thread is current on two CPUs. */
  lemma OneCpuEach(s: State, c: CpuId)
    requires Shaped(s) && CpusOk(s) && c < |s.cpus|
    ensures forall d | 0 <= d < |s.cpus| && d != c :: s.cpus[d].cur != s.cpus[c].cur
  {
    assert CpuOk(s, c);
    forall d | 0 <= d < |s.cpus| && d != c ensures s.cpus[d].cur != s.cpus[c].cur {
      assert CpuOk(s, d);
    }
  }

  lemma LinkedSame(s: State, s': State)
    requires Linked(s) && s'.lists == s.lists && s'.threads.Keys == s.threads.Keys
    requires forall u <- s.threads :: s'.threads[u].link == s.threads[u].link
    ensures Linked(s')
  {
  }

  lemma ExclusiveKept(s: State, s': State, c: CpuId)
    requires Exclusive(s) && c < |s.cpus| && |s'.cpus| == |s.cpus|
    requires forall d | 0 <= d < |s.cpus| && d != c :: s'.cpus[d].held == s.cpus[d].held
    requires forall l <- s'.cpus[c].held | l !in s.cpus[c].held :: Free(s, l)
    ensures Exclusive(s')
  {
  }

  /** The CPUs and threads of the new state from their parts: c, its current threads and `t`, and
      all the others. */
  lemma Assemble(s: State, s': State, c: CpuId, t: ThreadId)
    requires Shaped(s) && CpusOk(s) && ThreadsOk(s)
    requires Shaped(s') && SameElsewhere(s, s', c)
    requires var u := s.cpus[c].cur;
             && (forall v <- s'.threads | v != t && v != u :: v in s.threads && s'.threads[v] == s.threads[v])
             && (t in s'.threads ==> PlaceOk(s', t) && ParkedCountOk(s', t))
             && (u in s'.threads ==> PlaceOk(s', u) && ParkedCountOk(s', u))
    requires s'.cpus[c].cur == t || s'.cpus[c].cur == s.cpus[c].cur
    requires LocksOk(s', c) && CpuOk(s', c) && CountOk(s', c)
    ensures CpusOk(s') && ThreadsOk(s')
  {
    OtherCpus(s, s', c);
    OtherThreads(s, s', c, t, s.cpus[c].cur);
  }

  /** Everything the invariant says about CPU c and its current thread. */
  predicate Here(s: State, c: CpuId)
    requires Shaped(s) && c < |s.cpus|
  {
    LocksOk(s, c) && CpuOk(s, c) && CountOk(s, c) && PlaceOk(s, s.cpus[c].cur)
  }

  /** A step that only moves CPU c on, with new counts or spl for its current thread. */
  predicate LocalTo(s: State, s': State, c: CpuId)
    requires Shaped(s)
  {
    && c < |s.cpus| && |s'.cpus| == |s.cpus| && s'.lists == s.lists
    && (forall d | 0 <= d < |s.cpus| && d != c :: s'.cpus[d] == s.cpus[d])
    && var t := s.cpus[c].cur;
    && s'.cpus[c].cur == t
    && s'.threads.Keys == s.threads.Keys
    && (forall u <- s.threads | u != t :: s'.threads[u] == s.threads[u])
    && s'.threads[t].link == s.threads[t].link
    && s'.threads[t].cpu == s.threads[t].cpu
  }

  lemma LocalElsewhere(s: State, s': State, c: CpuId, t: ThreadId)
    requires Shaped(s) && CpusOk(s) && LocalTo(s, s', c) && Shaped(s') && Here(s', c) && t == s.cpus[c].cur
    ensures SameElsewhere(s, s', c) && ParkedCountOk(s', t)
  {
    OneCpuEach(s, c);
  }

  lemma IsHere(s: State, c: CpuId)
    requires Inv(s) && c < |s.cpus|
    ensures Here(s, c)
  {
    assert LocksOk(s, c) && CpuOk(s, c) && CountOk(s, c) && PlaceOk(s, s.cpus[c].cur);
  }

  lemma LocalStep(s: State, s': State, c: CpuId)
    requires Inv(s) && LocalTo(s, s', c) && Shaped(s') && Here(s', c)
    requires forall l <- s'.cpus[c].held | l !in s.cpus[c].held :: Free(s, l)
    ensures Inv(s')
  {
    LinkedSame(s, s');
    ExclusiveKept(s, s', c);
    LocalElsewhere(s, s', c, s.cpus[c].cur);
    Assemble(s, s', c, s.cpus[c].cur);
  }

  // ---------------------------------------------------------------------------------------------
  // Spl and spinlock steps

  lemma SplLocal(s: State, c: CpuId, high: bool)
    requires Shaped(s) && Enabled(s, Spl(c, high)) && Here(s, c)
    ensures Asserts(s, Spl(c, high))
    ensures var s' := Next(s, Spl(c, high)); LocalTo(s, s', c) && Shaped(s') && Here(s', c)
  {
    SplLocally(s, c, high);
    SplHere(s, c, high);
  }

  lemma SplHere(s: State, c: CpuId, high: bool)
    requires Shaped(s) && Enabled(s, Spl(c, high)) && Here(s, c) && Shaped(SplX(s, c, high))
    ensures Here(SplX(s, c, high), c)
  {
  }

  lemma SplStep(s: State, c: CpuId, high: bool)
    requires Inv(s) && Enabled(s, Spl(c, high))
    ensures Asserts(s, Spl(c, high)) && Inv(Next(s, Spl(c, high)))
  {
    IsHere(s, c);
    SplLocal(s, c, high);
    LocalStep(s, Next(s, Spl(c, high)), c);
  }

  lemma SpinBeginLocal(s: State, c: CpuId, l: Lock)
    requires Shaped(s) && Enabled(s, SpinBegin(c, l)) && Here(s, c)
    ensures Asserts(s, SpinBegin(c, l))
    ensures var s' := Next(s, SpinBegin(c, l)); LocalTo(s, s', c) && Shaped(s') && Here(s', c)
  {
  }

  lemma SpinBeginStep(s: State, c: CpuId, l: Lock)
    requires Inv(s) && Enabled(s, SpinBegin(c, l))
    ensures Asserts(s, SpinBegin(c, l)) && Inv(Next(s, SpinBegin(c, l)))
  {
    IsHere(s, c);
    SpinBeginLocal(s, c, l);
    LocalStep(s, Next(s, SpinBegin(c, l)), c);
  }

  lemma SpinGrabLocal(s: State, c: CpuId)
    requires Shaped(s) && Enabled(s, SpinGrab(c)) && Here(s, c)
    ensures Asserts(s, SpinGrab(c))
    ensures var s' := Next(s, SpinGrab(c)); LocalTo(s, s', c) && Shaped(s') && Here(s', c)
  {
  }

  lemma SpinGrabStep(s: State, c: CpuId)
    requires Inv(s) && Enabled(s, SpinGrab(c))
    ensures Asserts(s, SpinGrab(c)) && Inv(Next(s, SpinGrab(c)))
  {
    IsHere(s, c);
    SpinGrabLocal(s, c);
    LocalStep(s, Next(s, SpinGrab(c)), c);
  }

  lemma SpinEndLocal(s: State, c: CpuId, l: Lock)
    requires Shaped(s) && Enabled(s, SpinEnd(c, l)) && Here(s, c)
    ensures Asserts(s, SpinEnd(c, l))
    ensures var s' := Next(s, SpinEnd(c, l)); LocalTo(s, s', c) && Shaped(s') && Here(s', c)
  {
    assert |s.cpus[c].held| == |s.cpus[c].held - {l}| + 1;
  }

  lemma SpinEndStep(s: State, c: CpuId, l: Lock)
    requires Inv(s) && Enabled(s, SpinEnd(c, l))
    ensures Asserts(s, SpinEnd(c, l)) && Inv(Next(s, SpinEnd(c, l)))
  {
    IsHere(s, c);
    SpinEndLocal(s, c, l);
    LocalStep(s, Next(s, SpinEnd(c, l)), c);
  }

  // ---------------------------------------------------------------------------------------------
  // List operations keep nodes and lists in agreement

  lemma AddTailLinked(s: State, ln: ListName, t: ThreadId)
    requires Linked(s) && t in s.threads && s.threads[t].link == None
    ensures Linked(AddTail(s, ln, t))
  {
    var s' := AddTail(s, ln, t);
    assert t !in List(s, ln);
    assert s'.lists[ln][|List(s, ln)|] == t;
    assert forall u <- List(s, ln) :: u in s'.lists[ln];
  }

  lemma AddHeadLinked(s: State, ln: ListName, t: ThreadId)
    requires Linked(s) && t in s.threads && s.threads[t].link == None
    ensures Linked(AddHead(s, ln, t))
  {
    var s' := AddHead(s, ln, t);
    assert t !in List(s, ln);
    assert s'.lists[ln][0] == t;
    assert forall u <- List(s, ln) :: u in s'.lists[ln];
  }

  lemma RemHeadLinked(s: State, ln: ListName)
    requires Linked(s) && List(s, ln) != []
    ensures List(s, ln)[0] in s.threads && s.threads[List(s, ln)[0]].link == Some(ln)
    ensures Linked(RemHead(s, ln))
  {
    var t := List(s, ln)[0];
    var s' := RemHead(s, ln);
    assert forall u <- List(s, ln) | u != t :: u in s'.lists[ln];
  }

  lemma RemTailLinked(s: State, ln: ListName)
    requires Linked(s) && List(s, ln) != []
    ensures var t := List(s, ln)[|List(s, ln)| - 1]; t in s.threads && s.threads[t].link == Some(ln)
    ensures Linked(RemTail(s, ln))
  {
    var t := List(s, ln)[|List(s, ln)| - 1];
    var s' := RemTail(s, ln);
    assert forall u <- List(s, ln) | u != t :: u in s'.lists[ln];
  }

  lemma RelocateLinked(s: State, a: ListName, b: ListName, state: ThreadState, cpu: CpuId)
    requires Linked(s) && List(s, a) != []
    ensures List(s, a)[0] in s.threads && s.threads[List(s, a)[0]].link == Some(a)
    ensures Linked(Relocate(s, a, b, state, cpu))
  {
    RemHeadLinked(s, a);
    var t := List(s, a)[0];
    var s1 := RemHead(s, a);
    var s2 := SetThread(s1, t, s1.threads[t].(state := state, cpu := cpu));
    LinkedSame(s1, s2);
    AddTailLinked(s2, b, t);
  }

  /** A step that changes one thread `t`, not its counts, and no private list but those of c. */
  predicate MoveOf(s: State, s': State, c: CpuId, t: ThreadId)
    requires Shaped(s) && Shaped(s')
  {
    && c < |s.cpus| && s'.cpus == s.cpus
    && t in s'.threads
    && s'.threads.Keys == s.threads.Keys + {t}
    && (forall u <- s.threads | u != t :: s'.threads[u] == s.threads[u])
    && (t in s.threads ==>
          && s'.threads[t].high == s.threads[t].high && s'.threads[t].count == s.threads[t].count
          && (OnCpu(s, t) ==> s'.threads[t].cpu == s.threads[t].cpu))
    && forall d | 0 <= d < |s.cpus| && d != c ::
         List(s', Waking(d)) == List(s, Waking(d)) && List(s', Victims(d)) == List(s, Victims(d))
  }

  lemma MoveElsewhere(s: State, s': State, c: CpuId, t: ThreadId)
    requires Shaped(s) && CpusOk(s) && Shaped(s') && MoveOf(s, s', c, t)
    ensures SameElsewhere(s, s', c)
  {
    forall d | 0 <= d < |s.cpus| && d != c
      ensures s'.threads[s.cpus[d].cur].cpu == s.threads[s.cpus[d].cur].cpu
    {
      assert CpuOk(s, d);
    }
  }

  lemma MoveHere(s: State, s': State, c: CpuId, t: ThreadId)
    requires Shaped(s) && Shaped(s') && MoveOf(s, s', c, t) && Busy(s.cpus[c])
    requires Here(s, c) && ParkedCountOk(s, s.cpus[c].cur)
    ensures LocksOk(s', c) && CpuOk(s', c) && CountOk(s', c)
    ensures s.cpus[c].cur != t ==> PlaceOk(s', s.cpus[c].cur) && ParkedCountOk(s', s.cpus[c].cur)
  {
  }

  lemma MoveStep(s: State, s': State, c: CpuId, t: ThreadId)
    requires Inv(s) && Shaped(s') && MoveOf(s, s', c, t) && Linked(s') && Busy(s.cpus[c])
    requires PlaceOk(s', t) && ParkedCountOk(s', t)
    ensures Inv(s')
  {
    var u := s.cpus[c].cur;
    assert LocksOk(s, c) && CpuOk(s, c) && CountOk(s, c) && PlaceOk(s, u) && ParkedCountOk(s, u);
    MoveElsewhere(s, s', c, t);
    MoveHere(s, s', c, t);
    ExclusiveKept(s, s', c);
    Assemble(s, s', c, t);
  }

  /** Moving the head of list `a` to the end of list `b` on behalf of CPU c: what is left to show
      is that the thread has a place for what it became. */
  lemma RelocateStep(s: State, c: CpuId, a: ListName, b: ListName, state: ThreadState, cpu: CpuId)
    requires Inv(s) && RelocateOk(s, c, a, b, state, cpu)
    ensures Inv(Relocate(s, a, b, state, cpu))
  {
    RelocateLinked(s, a, b, state, cpu);
    assert ParkedCountOk(s, List(s, a)[0]);
    RelocateLocal(s, c, a, b, state, cpu);
    MoveStep(s, Relocate(s, a, b, state, cpu), c, List(s, a)[0]);
  }

  predicate RelocateOk(s: State, c: CpuId, a: ListName, b: ListName, state: ThreadState, cpu: CpuId)
    requires Shaped(s)
  {
    && c < |s.cpus| && cpu < |s.cpus| && Busy(s.cpus[c])
    && List(s, a) != [] && List(s, a)[0] in s.threads
    && (a.Waking? || a.Victims? ==> a.cpu == c)
    && (b.Waking? || b.Victims? ==> b.cpu == c)
    && var t := List(s, a)[0];
    && (OnCpu(s, t) ==> cpu == s.threads[t].cpu)
    && (!OnCpu(s, t) ==> s.cpus[cpu].cur != t)
    && var s' := Relocate(s, a, b, state, cpu);
    Shaped(s') && PlaceOk(s', t)
  }

  lemma RelocateLocal(s: State, c: CpuId, a: ListName, b: ListName, state: ThreadState, cpu: CpuId)
    requires Shaped(s) && RelocateOk(s, c, a, b, state, cpu) && ParkedCountOk(s, List(s, a)[0])
    ensures var s' := Relocate(s, a, b, state, cpu); var t := List(s, a)[0];
            Shaped(s') && MoveOf(s, s', c, t) && ParkedCountOk(s', t)
  {
  }

  // ---------------------------------------------------------------------------------------------
  // Wakeups, forks and migration

  lemma WakeTakeOk(s: State, c: CpuId, ch: nat, t: ThreadId)
    requires Shaped(s) && Enabled(s, WakeTake(c, ch)) && t == List(s, Channel(ch))[0]
    requires t in s.threads && s.threads[t].link == Some(Channel(ch)) && PlaceOk(s, t)
    ensures RelocateOk(s, c, Channel(ch), Waking(c), s.threads[t].state, s.threads[t].cpu)
  {
  }

  lemma WakeTakeStep(s: State, c: CpuId, ch: nat)
    requires Inv(s) && Enabled(s, WakeTake(c, ch))
    ensures Asserts(s, WakeTake(c, ch)) && Inv(Next(s, WakeTake(c, ch)))
  {
    RemHeadLinked(s, Channel(ch));
    var t := List(s, Channel(ch))[0];
    assert PlaceOk(s, t);
    WakeTakeOk(s, c, ch, t);
    RelocateStep(s, c, Channel(ch), Waking(c), s.threads[t].state, s.threads[t].cpu);
  }

  /** The thread a waker puts on a run queue has its sleep recorded: between joining the channel
      and recording it, its own CPU holds the run queue lock the waker needs. */
  lemma WokenIsAsleep(s: State, c: CpuId)
    requires Inv(s) && Enabled(s, MakeRunnable(c))
    ensures var th := s.threads[List(s, Waking(c))[0]]; th.state == Sleep && Parked(th)
  {
    var t := List(s, Waking(c))[0];
    var d := s.threads[t].cpu;
    RemHeadLinked(s, Waking(c));
    assert PlaceOk(s, t) && LocksOk(s, d);
  }

  lemma MakeRunnableStep(s: State, c: CpuId)
    requires Inv(s) && Enabled(s, MakeRunnable(c))
    ensures Asserts(s, MakeRunnable(c)) && Inv(Next(s, MakeRunnable(c)))
  {
    WokenIsAsleep(s, c);
    var t := List(s, Waking(c))[0];
    var d := s.threads[t].cpu;
    assert PlaceOk(s, t) && LocksOk(s, d);
    MakeRunnableOk(s, c, t, d);
    RelocateStep(s, c, Waking(c), RunQueue(d), Ready, d);
  }

  lemma MakeRunnableOk(s: State, c: CpuId, t: ThreadId, d: CpuId)
    requires Shaped(s) && Enabled(s, MakeRunnable(c)) && t == List(s, Waking(c))[0] && d == s.threads[t].cpu
    requires Parked(s.threads[t]) && PlaceOk(s, t) && s.threads[t].state == Sleep
    ensures RelocateOk(s, c, Waking(c), RunQueue(d), Ready, d)
  {
  }

  lemma ForkStep(s: State, c: CpuId, d: CpuId, t: ThreadId)
    requires Inv(s) && Enabled(s, Fork(c, d, t))
    ensures Inv(Next(s, Fork(c, d, t)))
  {
    ForkLinked(s, c, d, t);
    ForkLocal(s, c, d, t);
    MoveStep(s, Next(s, Fork(c, d, t)), c, t);
  }

  lemma ForkLinked(s: State, c: CpuId, d: CpuId, t: ThreadId)
    requires Shaped(s) && Linked(s) && Enabled(s, Fork(c, d, t))
    ensures Linked(Next(s, Fork(c, d, t)))
  {
    var s1 := SetThread(s, t, Thread(Ready, d, true, 2, false, None, false));
    assert Linked(s1);
    AddTailLinked(s1, RunQueue(d), t);
  }

  lemma ForkLocal(s: State, c: CpuId, d: CpuId, t: ThreadId)
    requires Shaped(s) && Enabled(s, Fork(c, d, t))
    ensures var s' := Next(s, Fork(c, d, t));
            Shaped(s') && MoveOf(s, s', c, t) && PlaceOk(s', t) && ParkedCountOk(s', t)
  {
  }

  lemma MigTakeStep(s: State, c: CpuId)
    requires Inv(s) && Enabled(s, MigTake(c))
    ensures Asserts(s, MigTake(c)) && Inv(Next(s, MigTake(c)))
  {
    var t := List(s, RunQueue(c))[|List(s, RunQueue(c))| - 1];
    RemTailLinked(s, RunQueue(c));
    AddHeadLinked(RemTail(s, RunQueue(c)), Victims(c), t);
    assert PlaceOk(s, t) && ParkedCountOk(s, t);
    MigTakeLocal(s, c, t);
    MoveStep(s, Next(s, MigTake(c)), c, t);
  }

  lemma MigTakeLocal(s: State, c: CpuId, t: ThreadId)
    requires Shaped(s) && Enabled(s, MigTake(c)) && t == List(s, RunQueue(c))[|List(s, RunQueue(c))| - 1]
    requires t in s.threads && s.threads[t].link == Some(RunQueue(c)) && PlaceOk(s, t) && ParkedCountOk(s, t)
    ensures var s' := Next(s, MigTake(c)); Shaped(s') && MoveOf(s, s', c, t) && PlaceOk(s', t) && ParkedCountOk(s', t)
  {
  }

  lemma MigGiveStep(s: State, c: CpuId, d: CpuId)
    requires Inv(s) && Enabled(s, MigGive(c, d))
    ensures Asserts(s, MigGive(c, d)) && Inv(Next(s, MigGive(c, d)))
  {
    var t := List(s, Victims(c))[0];
    RemHeadLinked(s, Victims(c));
    assert PlaceOk(s, t) && CpuOk(s, d);
    MigGiveOk(s, c, d, t);
    RelocateStep(s, c, Victims(c), RunQueue(d), s.threads[t].state, d);
  }

  lemma MigGiveOk(s: State, c: CpuId, d: CpuId, t: ThreadId)
    requires Shaped(s) && Enabled(s, MigGive(c, d)) && t == List(s, Victims(c))[0]
    requires t in s.threads && s.threads[t].link == Some(Victims(c)) && PlaceOk(s, t) && CpuOk(s, d)
    ensures RelocateOk(s, c, Victims(c), RunQueue(d), s.threads[t].state, d)
  {
  }

  lemma MigSkipOk(s: State, c: CpuId, t: ThreadId)
    requires Shaped(s) && Enabled(s, MigSkip(c)) && t == s.cpus[c].cur
    requires t in s.threads && s.threads[t].link == Some(Victims(c)) && PlaceOk(s, t)
    ensures RelocateOk(s, c, Victims(c), Victims(c), s.threads[t].state, s.threads[t].cpu)
  {
  }

  lemma MigSkipStep(s: State, c: CpuId)
    requires Inv(s) && Enabled(s, MigSkip(c))
    ensures Asserts(s, MigSkip(c)) && Inv(Next(s, MigSkip(c)))
  {
    var t := s.cpus[c].cur;
    RemHeadLinked(s, Victims(c));
    assert PlaceOk(s, t);
    MigSkipOk(s, c, t);
    RelocateStep(s, c, Victims(c), Victims(c), s.threads[t].state, s.threads[t].cpu);
  }

  lemma MigReturnStep(s: State, c: CpuId)
    requires Inv(s) && Enabled(s, MigReturn(c))
    ensures Asserts(s, MigReturn(c)) && Inv(Next(s, MigReturn(c)))
  {
    var t := List(s, Victims(c))[0];
    RemHeadLinked(s, Victims(c));
    assert PlaceOk(s, t);
    MigReturnOk(s, c, t);
    RelocateStep(s, c, Victims(c), RunQueue(c), s.threads[t].state, s.threads[t].cpu);
  }

  lemma MigReturnOk(s: State, c: CpuId, t: ThreadId)
    requires Shaped(s) && Enabled(s, MigReturn(c)) && t == List(s, Victims(c))[0]
    requires t in s.threads && s.threads[t].link == Some(Victims(c)) && PlaceOk(s, t)
    ensures RelocateOk(s, c, Victims(c), RunQueue(c), s.threads[t].state, s.threads[t].cpu)
  {
  }

  // ---------------------------------------------------------------------------------------------
  // The context switch

  lemma SplLocally(s: State, c: CpuId, high: bool)
    requires Shaped(s) && c < |s.cpus|
    ensures LocalTo(s, SplX(s, c, high), c) && Shaped(SplX(s, c, high))
  {
  }

  lemma EnterLocally(s: State, c: CpuId)
    requires Shaped(s) && c < |s.cpus|
    ensures LocalTo(s, Enter(s, c), c) && Shaped(Enter(s, c))
  {
    var t := s.cpus[c].cur;
    SplLocally(SetThread(s, t, s.threads[t].(saved := s.threads[t].high)), c, true);
  }

  lemma ReturnLocally(s: State, c: CpuId)
    requires Shaped(s) && c < |s.cpus|
    ensures LocalTo(s, Return(s, c), c) && Shaped(Return(s, c))
  {
    SplLocally(Unlock(s, c, RunQueueLock(c)), c, s.threads[s.cpus[c].cur].saved);
  }

  lemma SwitchBeginFrame(s: State, c: CpuId, to: ThreadState, ch: nat)
    requires Shaped(s) && Enabled(s, SwitchBegin(c, to, ch)) && Here(s, c)
    ensures Asserts(s, SwitchBegin(c, to, ch))
    ensures var s' := Next(s, SwitchBegin(c, to, ch)); LocalTo(s, s', c) && Shaped(s')
  {
    EnterLocally(s, c);
  }

  lemma SwitchBeginHere(s: State, c: CpuId, to: ThreadState, ch: nat)
    requires Shaped(s) && Enabled(s, SwitchBegin(c, to, ch)) && Here(s, c)
    requires Asserts(s, SwitchBegin(c, to, ch)) && Shaped(Next(s, SwitchBegin(c, to, ch)))
    ensures Here(Next(s, SwitchBegin(c, to, ch)), c)
  {
  }

  lemma SwitchBeginLocal(s: State, c: CpuId, to: ThreadState, ch: nat)
    requires Shaped(s) && Enabled(s, SwitchBegin(c, to, ch)) && Here(s, c)
    ensures Asserts(s, SwitchBegin(c, to, ch))
    ensures var s' := Next(s, SwitchBegin(c, to, ch));
            LocalTo(s, s', c) && Shaped(s') && Here(s', c) && s'.cpus[c].held == s.cpus[c].held
  {
    SwitchBeginFrame(s, c, to, ch);
    SwitchBeginHere(s, c, to, ch);
  }

  lemma SwitchBeginStep(s: State, c: CpuId, to: ThreadState, ch: nat)
    requires Inv(s) && Enabled(s, SwitchBegin(c, to, ch))
    ensures Asserts(s, SwitchBegin(c, to, ch)) && Inv(Next(s, SwitchBegin(c, to, ch)))
  {
    IsHere(s, c);
    SwitchBeginLocal(s, c, to, ch);
    LocalStep(s, Next(s, SwitchBegin(c, to, ch)), c);
  }

  lemma SwitchReturnLocal(s: State, c: CpuId)
    requires Shaped(s) && Enabled(s, SwitchReturn(c)) && Here(s, c)
    ensures Asserts(s, SwitchReturn(c))
    ensures var s' := Next(s, SwitchReturn(c));
            LocalTo(s, s', c) && Shaped(s') && Here(s', c) && s'.cpus[c].held <= s.cpus[c].held
  {
    assert s.cpus[c].held == {RunQueueLock(c)};
    assert s.cpus[c].held - {RunQueueLock(c)} == {};
  }

  lemma SwitchReturnStep(s: State, c: CpuId)
    requires Inv(s) && Enabled(s, SwitchReturn(c))
    ensures Asserts(s, SwitchReturn(c)) && Inv(Next(s, SwitchReturn(c)))
  {
    IsHere(s, c);
    SwitchReturnLocal(s, c);
    LocalStep(s, Next(s, SwitchReturn(c)), c);
  }

  /** The current thread of c joins the list for its new state; for a sleeper, the channel's
      lock is released here, with the run queue lock still held. */
  lemma SwitchQueueAsserts(s: State, c: CpuId)
    requires Shaped(s) && Enabled(s, SwitchQueue(c)) && Here(s, c)
    ensures Asserts(s, SwitchQueue(c)) && Shaped(Next(s, SwitchQueue(c)))
  {
  }

  lemma SwitchQueueLocal(s: State, c: CpuId)
    requires Shaped(s) && Enabled(s, SwitchQueue(c)) && Here(s, c)
    requires Asserts(s, SwitchQueue(c)) && Shaped(Next(s, SwitchQueue(c)))
    ensures Here(Next(s, SwitchQueue(c)), c)
  {
    var k := s.cpus[c];
    assert k.pc.to == Sleep ==> k.held - {Spinlock(k.pc.ch)} == {RunQueueLock(c)} && |k.held| == 2;
    assert k.pc.to != Sleep ==> k.held == {RunQueueLock(c)};
  }

  /** Joining a list changes only the thread that joins, its list, and a lock and the count of its CPU. */
  lemma EnlistFrame(s: State, c: CpuId, to: ThreadState, ch: nat)
    requires Shaped(s) && c < |s.cpus|
    ensures var s', t := Enlist(s, c, to, ch), s.cpus[c].cur;
            && |s'.cpus| == |s.cpus| && (forall d | 0 <= d < |s.cpus| && d != c :: s'.cpus[d] == s.cpus[d])
            && s'.cpus[c].cur == t && s'.cpus[c].held <= s.cpus[c].held && s'.threads.Keys == s.threads.Keys
            && (forall u <- s.threads | u != t :: s'.threads[u] == s.threads[u])
            && (forall d: nat :: List(s', Waking(d)) == List(s, Waking(d)))
            && (forall d: nat :: List(s', Victims(d)) == List(s, Victims(d)))
            && forall d: nat | d != c :: List(s', RunQueue(d)) == List(s, RunQueue(d))
  {
  }

  lemma SwitchQueueFrame(s: State, c: CpuId)
    requires Shaped(s) && CpusOk(s) && Enabled(s, SwitchQueue(c)) && Asserts(s, SwitchQueue(c))
    requires Shaped(Next(s, SwitchQueue(c)))
    ensures var s' := Next(s, SwitchQueue(c)); var t := s.cpus[c].cur;
            && SameElsewhere(s, s', c) && s'.cpus[c].cur == t && s'.cpus[c].held <= s.cpus[c].held
            && s'.threads.Keys == s.threads.Keys
            && forall u <- s.threads | u != t :: s'.threads[u] == s.threads[u]
  {
    OneCpuEach(s, c);
    EnlistFrame(s, c, s.cpus[c].pc.to, s.cpus[c].pc.ch);
  }

  lemma SwitchQueueLinked(s: State, c: CpuId)
    requires Shaped(s) && Linked(s) && Enabled(s, SwitchQueue(c)) && Asserts(s, SwitchQueue(c))
    ensures Linked(Next(s, SwitchQueue(c)))
  {
    var k := s.cpus[c];
    var s' := Next(s, SwitchQueue(c));
    match k.pc.to {
      case Sleep =>
        AddTailLinked(s, Channel(k.pc.ch), k.cur);
        LinkedSame(AddTail(s, Channel(k.pc.ch), k.cur), s');
      case Zombie =>
        AddTailLinked(s, Zombies(c), k.cur);
        LinkedSame(AddTail(s, Zombies(c), k.cur), s');
      case _ =>
        var s1 := SetThread(s, k.cur, s.threads[k.cur].(state := Ready, boot := false));
        LinkedSame(s, s1);
        AddTailLinked(s1, RunQueue(c), k.cur);
        LinkedSame(AddTail(s1, RunQueue(c), k.cur), s');
    }
  }

  lemma SwitchQueueStep(s: State, c: CpuId)
    requires Inv(s) && Enabled(s, SwitchQueue(c))
    ensures Asserts(s, SwitchQueue(c)) && Inv(Next(s, SwitchQueue(c)))
  {
    var t := s.cpus[c].cur;
    assert LocksOk(s, c) && CpuOk(s, c) && CountOk(s, c) && PlaceOk(s, t);
    SwitchQueueAsserts(s, c);
    SwitchQueueLocal(s, c);
    SwitchQueueFrame(s, c);
    SwitchQueueLinked(s, c);
    var s' := Next(s, SwitchQueue(c));
    ExclusiveKept(s, s', c);
    assert ParkedCountOk(s', t);
    Assemble(s, s', c, t);
  }

  lemma SwitchSetLocal(s: State, c: CpuId)
    requires Shaped(s) && Enabled(s, SwitchSet(c)) && Here(s, c)
    ensures Asserts(s, SwitchSet(c))
    ensures var s' := Next(s, SwitchSet(c)); LocalTo(s, s', c) && Shaped(s') && Here(s', c)
  {
  }

  lemma SwitchSetStep(s: State, c: CpuId)
    requires Inv(s) && Enabled(s, SwitchSet(c))
    ensures Asserts(s, SwitchSet(c)) && Inv(Next(s, SwitchSet(c)))
  {
    IsHere(s, c);
    SwitchSetLocal(s, c);
    LocalStep(s, Next(s, SwitchSet(c)), c);
  }

  /** The old current thread is left with the lock it handed over in its count; the new one
      comes with the lock in its own. */
  lemma SwitchPickLocal(s: State, c: CpuId, t: ThreadId)
    requires Shaped(s) && Enabled(s, SwitchPick(c)) && Here(s, c) && t == List(s, RunQueue(c))[0]
    requires t in s.threads && s.threads[t].link == Some(RunQueue(c)) && PlaceOk(s, t) && ParkedCountOk(s, t)
    ensures Asserts(s, SwitchPick(c))
    ensures var s' := Next(s, SwitchPick(c)); var u := s.cpus[c].cur;
            && Shaped(s') && Here(s', c) && s'.cpus[c].cur == t
            && PlaceOk(s', u) && ParkedCountOk(s', t) && ParkedCountOk(s', u)
  {
  }

  lemma SwitchPickLinked(s: State, c: CpuId)
    requires Shaped(s) && Linked(s) && Enabled(s, SwitchPick(c)) && Asserts(s, SwitchPick(c))
    ensures Linked(Next(s, SwitchPick(c)))
  {
    RemHeadLinked(s, RunQueue(c));
    LinkedSame(RemHead(s, RunQueue(c)), Next(s, SwitchPick(c)));
  }

  lemma SwitchPickStep(s: State, c: CpuId)
    requires Inv(s) && Enabled(s, SwitchPick(c))
    ensures Asserts(s, SwitchPick(c)) && Inv(Next(s, SwitchPick(c)))
  {
    var t := List(s, RunQueue(c))[0];
    RemHeadLinked(s, RunQueue(c));
    assert LocksOk(s, c) && CpuOk(s, c) && CountOk(s, c) && PlaceOk(s, s.cpus[c].cur) && PlaceOk(s, t);
    assert ParkedCountOk(s, t);
    SwitchPickLocal(s, c, t);
    SwitchPickLinked(s, c);
    SwitchPickElsewhere(s, c, t);
    var s' := Next(s, SwitchPick(c));
    ExclusiveKept(s, s', c);
    Assemble(s, s', c, t);
  }

  lemma SwitchPickElsewhere(s: State, c: CpuId, t: ThreadId)
    requires Shaped(s) && CpusOk(s) && Enabled(s, SwitchPick(c)) && t == List(s, RunQueue(c))[0]
    requires Asserts(s, SwitchPick(c)) && Shaped(Next(s, SwitchPick(c)))
    ensures var s', u := Next(s, SwitchPick(c)), s.cpus[c].cur;
            && SameElsewhere(s, s', c) && s'.cpus[c].held == s.cpus[c].held
            && forall v <- s'.threads | v != t && v != u :: v in s.threads && s'.threads[v] == s.threads[v]
  {
    forall d | 0 <= d < |s.cpus| && d != c ensures s.cpus[d].cur != t {
      assert CpuOk(s, d);
    }
  }

  lemma SwitchIdleLocal(s: State, c: CpuId)
    requires Shaped(s) && Enabled(s, SwitchIdle(c)) && Here(s, c)
    ensures Asserts(s, SwitchIdle(c))
    ensures var s' := Next(s, SwitchIdle(c));
            LocalTo(s, s', c) && Shaped(s') && Here(s', c) && s'.cpus[c].held <= s.cpus[c].held
  {
    assert s.cpus[c].held - {RunQueueLock(c)} == {};
  }

  lemma SwitchIdleStep(s: State, c: CpuId)
    requires Inv(s) && Enabled(s, SwitchIdle(c))
    ensures Asserts(s, SwitchIdle(c)) && Inv(Next(s, SwitchIdle(c)))
  {
    IsHere(s, c);
    SwitchIdleLocal(s, c);
    LocalStep(s, Next(s, SwitchIdle(c)), c);
  }

  lemma IdleEndLocal(s: State, c: CpuId)
    requires Shaped(s) && Enabled(s, IdleEnd(c)) && Here(s, c)
    ensures Asserts(s, IdleEnd(c))
    ensures var s' := Next(s, IdleEnd(c)); LocalTo(s, s', c) && Shaped(s') && Here(s', c)
  {
  }

  lemma IdleEndStep(s: State, c: CpuId)
    requires Inv(s) && Enabled(s, IdleEnd(c))
    ensures Asserts(s, IdleEnd(c)) && Inv(Next(s, IdleEnd(c)))
  {
    IsHere(s, c);
    IdleEndLocal(s, c);
    LocalStep(s, Next(s, IdleEnd(c)), c);
  }

  lemma SwitchFinishLocal(s: State, c: CpuId)
    requires Shaped(s) && Enabled(s, SwitchFinish(c)) && Here(s, c)
    ensures Asserts(s, SwitchFinish(c))
    ensures var s' := Next(s, SwitchFinish(c));
            LocalTo(s, s', c) && Shaped(s') && Here(s', c) && s'.cpus[c].held <= s.cpus[c].held
  {
    assert s.cpus[c].held - {RunQueueLock(c)} == {};
  }

  lemma SwitchFinishStep(s: State, c: CpuId)
    requires Inv(s) && Enabled(s, SwitchFinish(c))
    ensures Asserts(s, SwitchFinish(c)) && Inv(Next(s, SwitchFinish(c)))
  {
    IsHere(s, c);
    SwitchFinishLocal(s, c);
    LocalStep(s, Next(s, SwitchFinish(c)), c);
  }

  lemma ResumeLocal(s: State, c: CpuId)
    requires Shaped(s) && Enabled(s, Resume(c)) && Here(s, c)
    ensures Asserts(s, Resume(c))
    ensures var s' := Next(s, Resume(c)); LocalTo(s, s', c) && Shaped(s') && Here(s', c)
  {
  }

  lemma ResumeStep(s: State, c: CpuId)
    requires Inv(s) && Enabled(s, Resume(c))
    ensures Asserts(s, Resume(c)) && Inv(Next(s, Resume(c)))
  {
    IsHere(s, c);
    ResumeLocal(s, c);
    LocalStep(s, Next(s, Resume(c)), c);
  }

  lemma ExorciseAsserts(s: State, c: CpuId)
    requires Inv(s) && Enabled(s, Exorcise(c))
    ensures Asserts(s, Exorcise(c))
  {
    var z := List(s, Zombies(c))[0];
    assert PlaceOk(s, z);
    forall d | 0 <= d < |s.cpus| ensures s.cpus[d].cur != z {
      assert CpuOk(s, d);
    }
  }

  /** Destroying a zombie: it is nobody's current thread, so nothing else refers to it. */
  lemma ExorciseStep(s: State, c: CpuId)
    requires Inv(s) && Enabled(s, Exorcise(c))
    ensures Asserts(s, Exorcise(c)) && Inv(Next(s, Exorcise(c)))
  {
    ExorciseAsserts(s, c);
    var z := List(s, Zombies(c))[0];
    RemHeadLinked(s, Zombies(c));
    IsHere(s, c);
    ExorciseFrame(s, c, z);
    var s' := Next(s, Exorcise(c));
    ExorciseLinked(RemHead(s, Zombies(c)), z);
    ExclusiveKept(s, s', c);
    assert ParkedCountOk(s', s.cpus[c].cur);
    Assemble(s, s', c, s.cpus[c].cur);
  }

  lemma ExorciseFrame(s: State, c: CpuId, z: ThreadId)
    requires Shaped(s) && Enabled(s, Exorcise(c)) && Asserts(s, Exorcise(c)) && z == List(s, Zombies(c))[0]
    requires Here(s, c)
    ensures var s' := Next(s, Exorcise(c)); Shaped(s') && SameElsewhere(s, s', c) && Here(s', c)
  {
  }

  lemma ExorciseLinked(s: State, z: ThreadId)
    requires Linked(s) && z in s.threads && s.threads[z].link == None
    ensures Linked(s.(threads := s.threads - {z}))
  {
  }

  // ---------------------------------------------------------------------------------------------
  // Every run

  predicate Migrates(e: Step) { e.MigTake? || e.MigGive? || e.MigSkip? || e.MigReturn? }

  lemma MigrationKeeps(s: State, e: Step)
    requires Inv(s) && Enabled(s, e) && Migrates(e)
    ensures Asserts(s, e) && Inv(Next(s, e))
  {
    match e
    case MigTake(c) => MigTakeStep(s, c);
    case MigGive(c, d) => MigGiveStep(s, c, d);
    case MigSkip(c) => MigSkipStep(s, c);
    case MigReturn(c) => MigReturnStep(s, c);
  }

  predicate Locks(e: Step) { e.Spl? || e.SpinBegin? || e.SpinGrab? || e.SpinEnd? }

  lemma LocksKeep(s: State, e: Step)
    requires Inv(s) && Enabled(s, e) && Locks(e)
    ensures Asserts(s, e) && Inv(Next(s, e))
  {
    match e
    case Spl(c, high) => SplStep(s, c, high);
    case SpinBegin(c, l) => SpinBeginStep(s, c, l);
    case SpinGrab(c) => SpinGrabStep(s, c);
    case SpinEnd(c, l) => SpinEndStep(s, c, l);
  }

  /** One step keeps the invariant, and every assertion on its way holds. */
  lemma StepKeeps(s: State, e: Step)
    requires Inv(s) && Enabled(s, e)
    ensures Asserts(s, e) && Inv(Next(s, e))
  {
    if Locks(e) {
      LocksKeep(s, e);
    } else if Migrates(e) {
      MigrationKeeps(s, e);
    } else if PartOfSwitch(e) {
      SwitchKeeps(s, e);
    } else {
      match e
      case WakeTake(c, ch) => WakeTakeStep(s, c, ch);
      case MakeRunnable(c) => MakeRunnableStep(s, c);
      case Fork(c, d, t) => ForkStep(s, c, d, t);
    }
  }

  predicate PartOfSwitch(e: Step)
  {
    || e.SwitchBegin? || e.SwitchReturn? || e.SwitchQueue? || e.SwitchSet? || e.SwitchPick? || e.SwitchIdle?
    || e.IdleEnd? || e.SwitchFinish? || e.Exorcise? || e.Resume?
  }

  lemma SwitchKeeps(s: State, e: Step)
    requires Inv(s) && Enabled(s, e) && PartOfSwitch(e)
    ensures Asserts(s, e) && Inv(Next(s, e))
  {
    match e
    case SwitchBegin(c, to, ch) => SwitchBeginStep(s, c, to, ch);
    case SwitchReturn(c) => SwitchReturnStep(s, c);
    case SwitchQueue(c) => SwitchQueueStep(s, c);
    case SwitchSet(c) => SwitchSetStep(s, c);
    case SwitchPick(c) => SwitchPickStep(s, c);
    case SwitchIdle(c) => SwitchIdleStep(s, c);
    case IdleEnd(c) => IdleEndStep(s, c);
    case SwitchFinish(c) => SwitchFinishStep(s, c);
    case Exorcise(c) => ExorciseStep(s, c);
    case Resume(c) => ResumeStep(s, c);
  }

  /** A run: a state after each step, every step enabled in the state before it. Should an assertion
      fail, nothing is said of what follows; `RunNeverPanics` shows that none does. */
  ghost predicate IsRun(b: seq<State>, steps: seq<Step>)
  {
    && |b| == |steps| + 1
    && Init(b[0])
    && forall i | 0 <= i < |steps| ::
         && Shaped(b[i]) && Enabled(b[i], steps[i])
         && (Asserts(b[i], steps[i]) ==> b[i + 1] == Next(b[i], steps[i]))
  }

  lemma {:induction false} RunInv(b: seq<State>, steps: seq<Step>, i: nat)
    requires IsRun(b, steps) && i < |b|
    ensures Inv(b[i])
  {
    if i == 0 {
      InitInv(b[0]);
    } else {
      RunInv(b, steps, i - 1);
      StepKeeps(b[i - 1], steps[i - 1]);
    }
  }

  lemma RunNeverPanics(b: seq<State>, steps: seq<Step>, i: nat)
    requires IsRun(b, steps) && i < |steps|
    ensures Asserts(b[i], steps[i])
  {
    RunInv(b, steps, i);
    StepKeeps(b[i], steps[i]);
  }

  /** In a list, at exactly one position. */
  ghost predicate OnceIn(s: State, ln: ListName, t: ThreadId)
  {
    && t in List(s, ln)
    && forall i, j | 0 <= i < j < |List(s, ln)| :: !(List(s, ln)[i] == t && List(s, ln)[j] == t)
  }

  /** Midway through its own switch: the CPU holds its run queue lock. */
  ghost predicate InSwitch(s: State, t: ThreadId)
    requires Shaped(s) && t in s.threads
  {
    && OnCpu(s, t)
    && var k := s.cpus[s.threads[t].cpu];
    RunQueueLock(s.threads[t].cpu) in k.held && (k.pc.Queued? || k.pc.Switched?)
  }

  /** In every state of every run, each ready, sleeping or zombie thread is on exactly one list, the
      one for its state, and a running one is on none. The exceptions are a thread inside its own
      switch, shielded by the run queue lock, and a CPU's first thread before its first switch. */
  lemma ListsMatchStates(b: seq<State>, steps: seq<Step>, i: nat, t: ThreadId)
    requires IsRun(b, steps) && i < |b| && t in b[i].threads
    ensures Shaped(b[i])
    ensures var s := b[i]; var th := s.threads[t];
            && (forall l1, l2 | t in List(s, l1) && t in List(s, l2) :: l1 == l2)
            && (InSwitch(s, t) || th.boot ||
                match th.state
                case Run => forall ln :: t !in List(s, ln)
                case Ready => OnceIn(s, RunQueue(th.cpu), t) || OnceIn(s, Victims(th.cpu), t)
                case Sleep => exists ln: ListName :: (ln.Channel? || ln.Waking?) && OnceIn(s, ln, t)
                case Zombie => OnceIn(s, Zombies(th.cpu), t))
  {
    RunInv(b, steps, i);
    var s := b[i];
    var th := s.threads[t];
    assert PlaceOk(s, t) && LocksOk(s, th.cpu);
    if th.link.Some? {
      assert OnceIn(s, th.link.value, t);
    }
  }

  /** Interrupts can be on only when the current thread holds no spinlock and has no raised
      spl: what the trap code asserts when an interrupt arrives outside the idle loop. */
  lemma InterruptsOnMeansClean(b: seq<State>, steps: seq<Step>, i: nat, c: CpuId)
    requires IsRun(b, steps) && i < |b| && c < |b[i].cpus|
    ensures Shaped(b[i])
    ensures var k := b[i].cpus[c]; var th := b[i].threads[k.cur];
            && (k.irq <==> th.count == 0)
            && (k.irq ==> !th.high && k.held == {} && k.want == None && k.pc == Running)
            && th.count == |k.held| + One(k.want.Some?) + One(th.high)
  {
    RunInv(b, steps, i);
    assert CountOk(b[i], c) && CpuOk(b[i], c);
  }

  /** Between leaving the old thread and finishing in the new one, a CPU holds its own run queue's
      lock and no other; a thread off every CPU accounts for exactly one handed-over lock. */
  lemma LockCarriedThroughSwitch(b: seq<State>, steps: seq<Step>, i: nat)
    requires IsRun(b, steps) && i < |b|
    ensures Shaped(b[i])
    ensures forall c | 0 <= c < |b[i].cpus| && (b[i].cpus[c].pc.Queued? || b[i].cpus[c].pc.Switched?) ::
              b[i].cpus[c].held == {RunQueueLock(c)}
    ensures forall t <- b[i].threads | !OnCpu(b[i], t) :: b[i].threads[t].count == 1 + One(b[i].threads[t].high)
  {
    RunInv(b, steps, i);
    forall c | 0 <= c < |b[i].cpus| && (b[i].cpus[c].pc.Queued? || b[i].cpus[c].pc.Switched?)
      ensures b[i].cpus[c].held == {RunQueueLock(c)}
    {
      assert LocksOk(b[i], c);
    }
    forall t <- b[i].threads | !OnCpu(b[i], t)
      ensures b[i].threads[t].count == 1 + One(b[i].threads[t].high)
    {
      assert ParkedCountOk(b[i], t);
    }
  }

  /** A step of one CPU leaves the fields of another alone, and takes nothing off its run queue. */
  ghost predicate Untouched(s: State, s': State, d: CpuId)
    requires d < |s.cpus|
  {
    |s'.cpus| == |s.cpus| && s'.cpus[d] == s.cpus[d] && List(s, RunQueue(d)) <= List(s', RunQueue(d))
  }

  predicate ChangesSpl(e: Step) { e.SwitchBegin? || e.SwitchReturn? || e.Resume? }

  /** What is local to c is nothing to d. */
  lemma LocalLeavesOthers(s: State, s': State, c: CpuId, pc: Pc, d: CpuId)
    requires Shaped(s) && LocalTo(s, s', c) && d < |s.cpus| && d != c
    ensures Untouched(s, SetPc(s', c, pc), d)
  {
  }

  lemma SplLeavesOthers(s: State, e: Step, d: CpuId)
    requires Shaped(s) && Enabled(s, e) && Asserts(s, e) && d < |s.cpus| && d != e.c && ChangesSpl(e)
    ensures Untouched(s, Next(s, e), d)
  {
    match e
    case SwitchBegin(c, to, ch) =>
      EnterLocally(s, c);
      LocalLeavesOthers(s, Enter(s, c), c, Entering(to, ch), d);
    case SwitchReturn(c) =>
      ReturnLocally(s, c);
      LocalLeavesOthers(s, Return(s, c), c, Running, d);
    case Resume(c) =>
      var high := s.threads[s.cpus[c].cur].saved;
      SplLocally(s, c, high);
      LocalLeavesOthers(s, SplX(s, c, high), c, Running, d);
  }

  lemma QueueLeavesOthers(s: State, c: CpuId, d: CpuId)
    requires Shaped(s) && Enabled(s, SwitchQueue(c)) && Asserts(s, SwitchQueue(c)) && d < |s.cpus| && d != c
    ensures Untouched(s, Next(s, SwitchQueue(c)), d)
  {
    EnlistFrame(s, c, s.cpus[c].pc.to, s.cpus[c].pc.ch);
  }

  lemma SwitchLeavesOthers(s: State, e: Step, d: CpuId)
    requires Shaped(s) && Enabled(s, e) && Asserts(s, e) && d < |s.cpus| && d != e.c
    requires PartOfSwitch(e) && !ChangesSpl(e) && !e.SwitchQueue?
    ensures Untouched(s, Next(s, e), d)
  {
  }

  lemma MovesLeaveOthers(s: State, e: Step, d: CpuId)
    requires Shaped(s) && Enabled(s, e) && Asserts(s, e) && d < |s.cpus| && d != e.c && !PartOfSwitch(e)
    ensures Untouched(s, Next(s, e), d)
  {
  }

  lemma LeavesOthers(s: State, e: Step, d: CpuId)
    requires Shaped(s) && Enabled(s, e) && Asserts(s, e) && d < |s.cpus| && d != e.c
    ensures Untouched(s, Next(s, e), d)
  {
    if ChangesSpl(e) {
      SplLeavesOthers(s, e, d);
    } else if e.SwitchQueue? {
      QueueLeavesOthers(s, e.c, d);
    } else if PartOfSwitch(e) {
      SwitchLeavesOthers(s, e, d);
    } else {
      MovesLeaveOthers(s, e, d);
    }
  }

  ghost predicate OnNoList(s: State, t: ThreadId) { forall ln :: t !in List(s, ln) }

  /** Only a CPU itself takes threads off its run queue, and while a thread runs nobody puts it on a
      list. */
  lemma OnlyOwnerTakes(b: seq<State>, steps: seq<Step>, i: nat, d: CpuId)
    requires IsRun(b, steps) && i < |steps| && d < |b[i].cpus| && steps[i].c != d
    ensures List(b[i], RunQueue(d)) <= List(b[i + 1], RunQueue(d))
    ensures b[i].cpus[d].pc == Running ==> OnNoList(b[i + 1], b[i].cpus[d].cur)
  {
    RunInv(b, steps, i);
    RunInv(b, steps, i + 1);
    StepKeeps(b[i], steps[i]);
    LeavesOthers(b[i], steps[i], d);
    if b[i].cpus[d].pc == Running {
      RunsOnNoList(b[i + 1], d);
    }
  }

  lemma RunsOnNoList(s: State, d: CpuId)
    requires Inv(s) && d < |s.cpus| && s.cpus[d].pc == Running
    ensures OnNoList(s, s.cpus[d].cur)
  {
    assert CpuOk(s, d) && PlaceOk(s, s.cpus[d].cur);
  }
}
