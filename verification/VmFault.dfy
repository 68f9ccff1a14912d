/** The page fault handler on top of the primitive operations. */
module VmFault {
  import opened Common
  import opened VmState
  import opened VmInvariant

  datatype FaultType = Read | Write | ReadOnly

  /** What loading one page from the executable does: nothing for a bss page; give up before
      reading; or copy contents in, possibly taking a nested write fault on the page itself,
      possibly coming up short. */
  datatype Load = Bss | NotRead | Copied(contents: Page, nested: bool, short: bool)

  datatype Outcome = Serviced(s: State) | Failed(s: State) | Exited(s: State) | Panic

  /** A frame for a new page, with the state it was obtained in. */
  datatype Got = NoFrame | Got(s: State, f: nat)

  function PageOf(vaddr: nat): nat { vaddr / PAGE_SIZE }

  function CountFault(s: State): State
  {
    if s.freeTlb > 0 then s.(stats := s.stats.(faults := s.stats.faults + 1, withFree := s.stats.withFree + 1))
    else s.(stats := s.stats.(faults := s.stats.faults + 1, withReplace := s.stats.withReplace + 1))
  }

  function CountReload(s: State): State { s.(stats := s.stats.(reloads := s.stats.reloads + 1)) }
  function CountSwapWrite(s: State): State { s.(stats := s.stats.(swapWrites := s.stats.swapWrites + 1)) }
  function CountElf(s: State): State { s.(stats := s.stats.(elf := s.stats.elf + 1, disk := s.stats.disk + 1)) }
  function CountSwapIn(s: State): State { s.(stats := s.stats.(swap := s.stats.swap + 1, disk := s.stats.disk + 1)) }

  function DataVictim(s: State): int
    requires Shaped(s)
  {
    VictimSearch(s.pg, s.pid, s.asp, true, |s.pg|)
  }

  function CodeVictim(s: State): int
    requires Shaped(s)
  {
    VictimSearch(s.pg, s.pid, s.asp, false, |s.pg|)
  }

  /** Evict the oldest data page to the swap file. */
  function EvictData(s: State): (r: Option<State>)
    requires Shaped(s)
    ensures r.Some? ==> Shaped(r.value)
  {
    var v := DataVictim(s);
    if v < 0 then None
    else match SwapOut(s, v) case None => None case Some(s1) => Some(CountSwapWrite(s1))
  }

  /** Drop the oldest code page. */
  function EvictCode(s: State): (r: Option<State>)
    requires Shaped(s)
    ensures r.Some? ==> Shaped(r.value)
  {
    var v := CodeVictim(s);
    if v < 0 then None else FreeFrame(s, v)
  }

  function TakeFrame(s: State): (r: Got)
    requires Shaped(s)
    ensures r.Got? ==> Shaped(r.s) && r.f < |r.s.pg|
  {
    if s.free == [] then NoFrame
    else match AllocFrame(s) case None => NoFrame case Some(s1) => Got(s1, s.free[0])
  }

  /** A free frame, or the one of a victim of the segment. */
  function ObtainFrame(s: State, data: bool): (r: Got)
    requires Shaped(s)
    ensures r.Got? ==> Shaped(r.s) && r.f < |r.s.pg|
  {
    if s.free != [] then TakeFrame(s)
    else match (if data then EvictData(s) else EvictCode(s)) case None => NoFrame case Some(s1) => TakeFrame(s1)
  }

  /** The page is in the page table: add it to the TLB. */
  function Reload(s: State, page: nat): (r: Option<State>)
    requires Shaped(s)
    ensures r.Some? ==> Shaped(r.value)
  {
    match AddTlb(s, page, s.pid) case None => None case Some(s1) => Some(CountReload(s1))
  }

  /** Clear the write permission in the page table entry of a code page. */
  function Protect(s: State, page: nat): (s': State)
    requires Shaped(s)
    ensures Shaped(s')
  {
    var i := PageSearch(s.pg, page, 0);
    if i < |s.pg| then s.(pg := s.pg[i := s.pg[i].(dirty := false)]) else s
  }

  /** The end of load_segment: a new translation, for a code page without write permission. */
  function Retranslate(s: State, page: nat, code: bool): (r: Option<State>)
    requires Shaped(s)
    ensures r.Some? ==> Shaped(r.value)
  {
    var s1 := RemoveTlb(s, page);
    AddTlb(if code then Protect(s1, page) else s1, page, s.pid)
  }

  /** load_segment for one page that is already in frame f. */
  function LoadPage(s: State, f: nat, page: nat, code: bool, load: Load): (r: Option<State>)
    requires Shaped(s) && f < |s.pg|
    ensures r.Some? ==> Shaped(r.value)
  {
    if !load.Copied? then Some(s)
    else
      match (if load.nested then Reload(CountFault(s), page) else Some(s))
      case None => None
      case Some(s1) => Retranslate(s1.(ram := s1.ram[f := load.contents]), page, code)
  }

  /** Map the page to frame f, which is the kernel's, and load it. */
  function Place(s: State, f: nat, page: nat, code: bool, load: Load): Outcome
    requires Shaped(s) && f < |s.pg|
  {
    match AddPt(s, f, page, s.pid, true)
    case None => Panic
    case Some(s1) =>
      match LoadPage(s1, f, page, code, load)
      case None => Panic
      case Some(s2) =>
        if load.NotRead? || (load.Copied? && load.short) then Failed(s2) else Serviced(CountElf(s2))
  }

  /** A page touched for the first time, or a code page that was dropped. */
  function FirstLoad(s: State, page: nat, code: bool, load: Load): Outcome
    requires Shaped(s)
  {
    match ObtainFrame(s, !code)
    case NoFrame => Panic
    case Got(s1, f) => Place(s1, f, page, code, load)
  }

  /** The data page in slot i comes in. */
  function Fetch(s: State, i: nat): Outcome
    requires Shaped(s)
  {
    if i >= |s.slots| then Panic
    else match SwapIn(s, i) case None => Panic case Some(s1) => Serviced(CountSwapIn(s1))
  }

  /** One data page goes out, the one in slot i comes in. */
  function BringIn(s: State, i: nat): Outcome
    requires Shaped(s) && i < |s.slots|
  {
    match EvictData(s)
    case None => Panic
    case Some(s1) => Fetch(s1, i)
  }

  function DataFault(s: State, page: nat, load: Load): Outcome
    requires Shaped(s)
  {
    var i := SlotSearch(s.slots, page, s.pid, 0);
    if i == |s.slots| then FirstLoad(s, page, false, load) else BringIn(s, i)
  }

  function ReloadFault(s: State, page: nat): Outcome
    requires Shaped(s)
  {
    match Reload(s, page) case None => Panic case Some(s1) => Serviced(s1)
  }

  /** The part of vm_fault that finds the page a place in memory. */
  function Service(s: State, kind: FaultType, vaddr: nat, load: Load): Outcome
    requires Shaped(s) && !kind.ReadOnly?
  {
    var page := PageOf(vaddr);
    var r := PageSearch(s.pg, page, 0);
    if r < |s.pg| && (r > 0 || kind.Write?) then ReloadFault(s, page)
    else if IsCode(s.asp, vaddr) then (if kind.Read? then FirstLoad(s, page, true, load) else Panic)
    else if IsData(s.asp, vaddr) then DataFault(s, page, load)
    else Failed(s)
  }

  /** vm_fault. A write to a read-only page is not counted, and ends the process. */
  function Fault(s: State, kind: FaultType, vaddr: nat, load: Load): Outcome
    requires Shaped(s)
  {
    if kind.ReadOnly? then Exited(s) else Service(CountFault(s), kind, vaddr, load)
  }
}
