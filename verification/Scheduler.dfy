/** The thread system as a machine of any number of CPUs that take small steps in any order.
    A step is a piece of code between two points where another CPU can get in: spinlocks are
    the guards of the steps. The program counter of a CPU says where in a context switch it is. */
module Scheduler {
  import opened Common

  type CpuId = nat

  datatype ThreadState = Run | Ready | Sleep | Zombie

  /** A run queue's lock, or any other spinlock. Wait channel n is protected by spinlock n. */
  datatype Lock = RunQueueLock(cpu: CpuId) | Spinlock(n: nat)

  /** Run queues, wait channels and zombie lists, and the two lists private to a CPU: threads a
      waker has taken off a channel, and threads picked as victims of migration. */
  datatype ListName =
    | RunQueue(cpu: CpuId)
    | Channel(n: nat)
    | Zombies(cpu: CpuId)
    | Waking(cpu: CpuId)
    | Victims(cpu: CpuId)

  /** `high` is t_curspl, `count` is t_iplhigh_count, `saved` the spl that thread_switch restores
      when the thread runs again; `link` is the list the embedded list node is on. `boot` marks a
      CPU's first thread, whose state is still the READY of its creation. */
  datatype Thread = Thread(
    state: ThreadState, cpu: CpuId, high: bool, count: int, saved: bool, link: Option<ListName>, boot: bool)

  datatype Pc =
    | Running                                  // ordinary code of the current thread
    | Entering(to: ThreadState, ch: nat)       // in thread_switch, getting the run queue lock
    | Queued(to: ThreadState, ch: nat)         // on its list, state not yet recorded
    | Picking                                  // looking for the next thread
    | Idling                                   // in cpu_idle, run queue unlocked
    | Switched                                 // on the next thread's stack, lock still held
    | Cleaning                                 // lock released, destroying zombies

  /** `held` are the spinlocks this CPU holds, `want` the one it spins for; `irq` is the
      hardware interrupt enable. */
  datatype Cpu = Cpu(cur: ThreadId, pc: Pc, held: set<Lock>, want: Option<Lock>, irq: bool, idle: bool)

  datatype State = State(
    cpus: seq<Cpu>, threads: map<ThreadId, Thread>, lists: map<ListName, seq<ThreadId>>)

  // ---------------------------------------------------------------------------------------------
  // Access and update

  function List(s: State, ln: ListName): seq<ThreadId>
  {
    if ln in s.lists then s.lists[ln] else []
  }

  predicate Shaped(s: State)
  {
    && (forall c :: 0 <= c < |s.cpus| ==> s.cpus[c].cur in s.threads)
    && (forall t <- s.threads :: s.threads[t].cpu < |s.cpus|)
  }

  predicate Free(s: State, l: Lock)
  {
    forall c :: 0 <= c < |s.cpus| ==> l !in s.cpus[c].held
  }

  function SetCpu(s: State, c: CpuId, k: Cpu): State
    requires c < |s.cpus|
  {
    s.(cpus := s.cpus[c := k])
  }

  function SetThread(s: State, t: ThreadId, th: Thread): State
  {
    s.(threads := s.threads[t := th])
  }

  /** threadlist_addtail. */
  function AddTail(s: State, ln: ListName, t: ThreadId): State
    requires t in s.threads
  {
    s.(lists := s.lists[ln := List(s, ln) + [t]],
       threads := s.threads[t := s.threads[t].(link := Some(ln))])
  }

  /** threadlist_addhead. */
  function AddHead(s: State, ln: ListName, t: ThreadId): State
    requires t in s.threads
  {
    s.(lists := s.lists[ln := [t] + List(s, ln)],
       threads := s.threads[t := s.threads[t].(link := Some(ln))])
  }

  /** threadlist_remhead. */
  function RemHead(s: State, ln: ListName): State
    requires List(s, ln) != [] && List(s, ln)[0] in s.threads
  {
    var t := List(s, ln)[0];
    s.(lists := s.lists[ln := List(s, ln)[1..]],
       threads := s.threads[t := s.threads[t].(link := None)])
  }

  /** threadlist_remtail. */
  function RemTail(s: State, ln: ListName): State
    requires List(s, ln) != [] && List(s, ln)[|List(s, ln)| - 1] in s.threads
  {
    var t := List(s, ln)[|List(s, ln)| - 1];
    s.(lists := s.lists[ln := List(s, ln)[..|List(s, ln)| - 1]],
       threads := s.threads[t := s.threads[t].(link := None)])
  }

  /** The first thread of list `a` goes to the end of list `b`, with a new state and CPU. */
  function Relocate(s: State, a: ListName, b: ListName, state: ThreadState, cpu: CpuId): State
    requires List(s, a) != [] && List(s, a)[0] in s.threads
  {
    var t := List(s, a)[0];
    var s1 := RemHead(s, a);
    AddTail(SetThread(s1, t, s1.threads[t].(state := state, cpu := cpu)), b, t)
  }

  // ---------------------------------------------------------------------------------------------
  // Interrupt level: splraise, spllower, splx on the current thread of a CPU

  function Raise(s: State, c: CpuId): State
    requires Shaped(s) && c < |s.cpus|
  {
    var k := s.cpus[c];
    var th := s.threads[k.cur];
    SetThread(SetCpu(s, c, k.(irq := if th.count == 0 then false else k.irq)),
              k.cur, th.(count := th.count + 1))
  }

  function Lower(s: State, c: CpuId): State
    requires Shaped(s) && c < |s.cpus|
  {
    var k := s.cpus[c];
    var th := s.threads[k.cur];
    SetThread(SetCpu(s, c, k.(irq := if th.count - 1 == 0 then true else k.irq)),
              k.cur, th.(count := th.count - 1))
  }

  function SplX(s: State, c: CpuId, high: bool): State
    requires Shaped(s) && c < |s.cpus|
  {
    var k := s.cpus[c];
    var th := s.threads[k.cur];
    if !th.high && high then
      var s1 := Raise(s, c);
      SetThread(s1, k.cur, s1.threads[k.cur].(high := true))
    else if th.high && !high then
      Lower(SetThread(s, k.cur, th.(high := false)), c)
    else
      s
  }

  /** spinlock_acquire up to the spin loop. */
  function Want(s: State, c: CpuId, l: Lock): State
    requires Shaped(s) && c < |s.cpus|
  {
    var s1 := Raise(s, c);
    SetCpu(s1, c, s1.cpus[c].(want := Some(l)))
  }

  /** spinlock_release. */
  function Unlock(s: State, c: CpuId, l: Lock): State
    requires Shaped(s) && c < |s.cpus|
  {
    Lower(SetCpu(s, c, s.cpus[c].(held := s.cpus[c].held - {l})), c)
  }

  function SetPc(s: State, c: CpuId, pc: Pc): State
    requires c < |s.cpus|
  {
    SetCpu(s, c, s.cpus[c].(pc := pc))
  }

  // ---------------------------------------------------------------------------------------------
  // Steps

  datatype Step =
    | Spl(c: CpuId, high: bool)
    | SpinBegin(c: CpuId, l: Lock)
    | SpinGrab(c: CpuId)
    | SpinEnd(c: CpuId, l: Lock)
    | WakeTake(c: CpuId, ch: nat)
    | MakeRunnable(c: CpuId)
    | Fork(c: CpuId, d: CpuId, t: ThreadId)
    | MigTake(c: CpuId)
    | MigGive(c: CpuId, d: CpuId)
    | MigSkip(c: CpuId)
    | MigReturn(c: CpuId)
    | SwitchBegin(c: CpuId, to: ThreadState, ch: nat)
    | SwitchReturn(c: CpuId)
    | SwitchQueue(c: CpuId)
    | SwitchSet(c: CpuId)
    | SwitchPick(c: CpuId)
    | SwitchIdle(c: CpuId)
    | IdleEnd(c: CpuId)
    | SwitchFinish(c: CpuId)
    | Exorcise(c: CpuId)
    | Resume(c: CpuId)

  /** Ordinary code, or an interrupt handler run out of the idle loop. */
  predicate Busy(k: Cpu)
  {
    k.want == None && (k.pc == Running || k.pc == Idling)
  }

  /** When the code of a CPU is at the step and the locks it spins for are free. The assertions
      the code makes on the way are not part of this: see `Asserts`. */
  predicate Enabled(s: State, e: Step)
  {
    && e.c < |s.cpus|
    && var k := s.cpus[e.c];
    match e
    case Spl(c, high) => k.want == None && k.pc == Running
    case SpinBegin(c, l) => Busy(k) && l !in k.held
    case SpinGrab(c) => k.want.Some? && Free(s, k.want.value)
    case SpinEnd(c, l) => Busy(k) && l in k.held
    case WakeTake(c, ch) => Busy(k) && Spinlock(ch) in k.held && List(s, Channel(ch)) != []
    case MakeRunnable(c) =>
      && Busy(k) && List(s, Waking(c)) != []
      && List(s, Waking(c))[0] in s.threads
      && RunQueueLock(s.threads[List(s, Waking(c))[0]].cpu) in k.held
    case Fork(c, d, t) => Busy(k) && k.pc == Running && d < |s.cpus| && RunQueueLock(d) in k.held && t !in s.threads
    case MigTake(c) => Busy(k) && RunQueueLock(c) in k.held && List(s, RunQueue(c)) != []
    case MigGive(c, d) =>
      && Busy(k) && d < |s.cpus| && d != c && RunQueueLock(d) in k.held
      && List(s, Victims(c)) != [] && List(s, Victims(c))[0] != k.cur
    case MigSkip(c) => Busy(k) && List(s, Victims(c)) != [] && List(s, Victims(c))[0] == k.cur
    case MigReturn(c) => Busy(k) && RunQueueLock(c) in k.held && List(s, Victims(c)) != []
    case SwitchBegin(c, to, ch) =>
      && k.want == None && k.pc == Running && to != Run
      && k.held == (if to == Sleep then {Spinlock(ch)} else {})
      && List(s, Waking(c)) == [] && List(s, Victims(c)) == []
    case SwitchReturn(c) => k.want == None && k.pc.Entering? && k.pc.to == Ready && List(s, RunQueue(c)) == []
    case SwitchQueue(c) => k.want == None && k.pc.Entering? && !(k.pc.to == Ready && List(s, RunQueue(c)) == [])
    case SwitchSet(c) => k.want == None && k.pc.Queued?
    case SwitchPick(c) => k.want == None && k.pc == Picking && List(s, RunQueue(c)) != []
    case SwitchIdle(c) => k.want == None && k.pc == Picking && List(s, RunQueue(c)) == []
    case IdleEnd(c) =>
      && k.want == None && k.pc == Idling && k.held == {}
      && List(s, Waking(c)) == [] && List(s, Victims(c)) == []
    case SwitchFinish(c) => k.want == None && k.pc == Switched
    case Exorcise(c) => k.want == None && k.pc == Cleaning && List(s, Zombies(c)) != []
    case Resume(c) => k.want == None && k.pc == Cleaning && List(s, Zombies(c)) == []
  }

  /** What the code asserts (or relies on without asserting) at each step. */
  predicate Asserts(s: State, e: Step)
    requires Shaped(s) && Enabled(s, e)
  {
    var k := s.cpus[e.c];
    match e
    case Spl(c, high) => true
    case SpinBegin(c, l) => true
    case SpinGrab(c) => k.want.value !in k.held
    case SpinEnd(c, l) => s.threads[k.cur].count > 0
    case WakeTake(c, ch) => List(s, Channel(ch))[0] in s.threads
    case MakeRunnable(c) => s.threads[List(s, Waking(c))[0]].state == Sleep
    case Fork(c, d, t) => true
    case MigTake(c) => List(s, RunQueue(c))[|List(s, RunQueue(c))| - 1] in s.threads
    case MigGive(c, d) => List(s, Victims(c))[0] in s.threads
    case MigSkip(c) => k.cur in s.threads
    case MigReturn(c) => List(s, Victims(c))[0] in s.threads
    case SwitchBegin(c, to, ch) => s.threads[k.cur].cpu == c && !k.idle
    case SwitchReturn(c) => k.held == {RunQueueLock(c)}
    case SwitchQueue(c) => RunQueueLock(c) in k.held && s.threads[k.cur].link == None
    case SwitchSet(c) => k.held == {RunQueueLock(c)}
    case SwitchPick(c) =>
      && k.held == {RunQueueLock(c)}
      && List(s, RunQueue(c))[0] in s.threads
      && s.threads[List(s, RunQueue(c))[0]].state == Ready
      && s.threads[List(s, RunQueue(c))[0]].cpu == c
    case SwitchIdle(c) => k.held == {RunQueueLock(c)}
    case IdleEnd(c) => true
    case SwitchFinish(c) => k.held == {RunQueueLock(c)} && s.threads[k.cur].cpu == c
    case Exorcise(c) =>
      var z := List(s, Zombies(c))[0];
      && z in s.threads && s.threads[z].state == Zombie
      && forall d :: 0 <= d < |s.cpus| ==> s.cpus[d].cur != z
    case Resume(c) => k.held == {}
  }

  /** thread_switch begins: interrupts go off, and the CPU goes for its run queue's lock. */
  function Enter(s: State, c: CpuId): State
    requires Shaped(s) && c < |s.cpus|
  {
    var t := s.cpus[c].cur;
    Want(SplX(SetThread(s, t, s.threads[t].(saved := s.threads[t].high)), c, true), c, RunQueueLock(c))
  }

  /** thread_switch ends at once: the lock is let go of, and interrupts are as they were. */
  function Return(s: State, c: CpuId): State
    requires Shaped(s) && c < |s.cpus|
  {
    SplX(Unlock(s, c, RunQueueLock(c)), c, s.threads[s.cpus[c].cur].saved)
  }

  /** The current thread joins the list of the state it is about to be in. */
  function Enlist(s: State, c: CpuId, to: ThreadState, ch: nat): State
    requires Shaped(s) && c < |s.cpus|
  {
    var t := s.cpus[c].cur;
    match to
    case Sleep => Unlock(AddTail(s, Channel(ch), t), c, Spinlock(ch))
    case Zombie => AddTail(s, Zombies(c), t)
    case _ => AddTail(SetThread(s, t, s.threads[t].(state := Ready, boot := false)), RunQueue(c), t)
  }

  function Next(s: State, e: Step): State
    requires Shaped(s) && Enabled(s, e) && Asserts(s, e)
  {
    var k := s.cpus[e.c];
    match e
    case Spl(c, high) => SplX(s, c, high)
    case SpinBegin(c, l) => Want(s, c, l)
    case SpinGrab(c) => SetCpu(s, c, k.(held := k.held + {k.want.value}, want := None))
    case SpinEnd(c, l) => Unlock(s, c, l)
    case WakeTake(c, ch) =>
      var th := s.threads[List(s, Channel(ch))[0]];
      Relocate(s, Channel(ch), Waking(c), th.state, th.cpu)
    case MakeRunnable(c) =>
      var d := s.threads[List(s, Waking(c))[0]].cpu;
      Relocate(s, Waking(c), RunQueue(d), Ready, d)
    case Fork(c, d, t) =>
      AddTail(SetThread(s, t, Thread(Ready, d, true, 2, false, None, false)), RunQueue(d), t)
    case MigTake(c) =>
      AddHead(RemTail(s, RunQueue(c)), Victims(c), List(s, RunQueue(c))[|List(s, RunQueue(c))| - 1])
    case MigGive(c, d) => Relocate(s, Victims(c), RunQueue(d), s.threads[List(s, Victims(c))[0]].state, d)
    case MigSkip(c) => Relocate(s, Victims(c), Victims(c), s.threads[k.cur].state, s.threads[k.cur].cpu)
    case MigReturn(c) =>
      var th := s.threads[List(s, Victims(c))[0]];
      Relocate(s, Victims(c), RunQueue(c), th.state, th.cpu)
    case SwitchBegin(c, to, ch) => SetPc(Enter(s, c), c, Entering(to, ch))
    case SwitchReturn(c) => SetPc(Return(s, c), c, Running)
    case SwitchQueue(c) =>
      SetPc(Enlist(s, c, k.pc.to, k.pc.ch), c, Queued(k.pc.to, k.pc.ch))
    case SwitchSet(c) =>
      var s1 := SetThread(s, k.cur, s.threads[k.cur].(state := k.pc.to, boot := false));
      SetCpu(s1, c, k.(pc := Picking, idle := true))
    case SwitchPick(c) =>
      var t := List(s, RunQueue(c))[0];
      SetCpu(RemHead(s, RunQueue(c)), c, k.(cur := t, pc := Switched, idle := false))
    case SwitchIdle(c) => SetPc(Unlock(s, c, RunQueueLock(c)), c, Idling)
    case IdleEnd(c) => SetPc(Want(s, c, RunQueueLock(c)), c, Picking)
    case SwitchFinish(c) =>
      var s1 := SetThread(s, k.cur, s.threads[k.cur].(state := Run));
      SetPc(Unlock(s1, c, RunQueueLock(c)), c, Cleaning)
    case Exorcise(c) =>
      var z := List(s, Zombies(c))[0];
      var s1 := RemHead(s, Zombies(c));
      s1.(threads := s1.threads - {z})
    case Resume(c) => SetPc(SplX(s, c, s.threads[k.cur].saved), c, Running)
  }
}
