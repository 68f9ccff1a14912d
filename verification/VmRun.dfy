/** Runs of one user process: faults, its own loads and stores through the TLB, and the kernel
    taking and giving back frames. The process sees a flat memory. */
module VmRun {
  import opened Common
  import opened VmState
  import opened VmInvariant
  import opened VmFault
  import opened VmSafety

  datatype Step =
    | TakeFault(kind: FaultType, vaddr: nat, load: Load)
    | UserLoad(vaddr: nat)
    | UserStore(vaddr: nat, value: int)
    | KernelAlloc
    | KernelFree(f: nat)
    | FlushTlb

  function WordOf(vaddr: nat): (w: nat)
    ensures w < WORDS_PER_PAGE
  {
    vaddr % PAGE_SIZE / 4
  }

  /** The TLB entry that translates the page. */
  predicate Translates(s: State, i: nat, page: nat)
  {
    i < |s.tlb| && s.tlb[i].valid && s.tlb[i].vpage == page
  }

  predicate Hits(s: State, page: nat)
    requires Shaped(s)
  {
    Translates(s, Probe(s.tlb, page, 0), page)
  }

  predicate Writable(s: State, page: nat)
    requires Shaped(s)
  {
    Hits(s, page) && s.tlb[Probe(s.tlb, page, 0)].dirty
  }

  /** What the processor and the kernel's own allocation discipline allow. */
  predicate Enabled(s: State, step: Step)
    requires Shaped(s)
  {
    match step
    case TakeFault(kind, vaddr, _) =>
      var page := PageOf(vaddr);
      if kind.ReadOnly? then Hits(s, page) && !Writable(s, page) else Misses(s, page)
    case UserLoad(vaddr) => Hits(s, PageOf(vaddr))
    case UserStore(vaddr, _) => Writable(s, PageOf(vaddr))
    case KernelAlloc => true
    case KernelFree(f) => 0 < f < |s.pg| && s.pg[f].valid && s.pg[f].pid == 0
    case FlushTlb => true
  }

  function FrameOf(s: State, page: nat): nat
    requires Shaped(s) && Hits(s, page)
  {
    s.tlb[Probe(s.tlb, page, 0)].frame
  }

  /** The word the processor reads; 0 where the translation leaves memory. */
  function ReadWord(s: State, vaddr: nat): int
    requires Shaped(s) && Hits(s, PageOf(vaddr))
  {
    var f := FrameOf(s, PageOf(vaddr));
    if f < |s.ram| then s.ram[f][WordOf(vaddr)] else 0
  }

  function SetWord(page: Page, w: nat, value: int): Page
    requires w < WORDS_PER_PAGE
  {
    page[w := value]
  }

  function WriteWord(s: State, vaddr: nat, value: int): State
    requires Shaped(s) && Hits(s, PageOf(vaddr))
  {
    var f := FrameOf(s, PageOf(vaddr));
    if f < |s.ram| then s.(ram := s.ram[f := SetWord(s.ram[f], WordOf(vaddr), value)]) else s
  }

  function OrPanic(r: Option<State>): Outcome
  {
    match r case None => Panic case Some(s) => Serviced(s)
  }

  function Next(s: State, step: Step): Outcome
    requires Shaped(s) && Enabled(s, step)
  {
    match step
    case TakeFault(kind, vaddr, load) => Fault(s, kind, vaddr, load)
    case UserLoad(_) => Serviced(s)
    case UserStore(vaddr, value) => Serviced(WriteWord(s, vaddr, value))
    case KernelAlloc => if s.free == [] then Serviced(s) else OrPanic(AllocFrame(s))
    case KernelFree(f) => OrPanic(FreeFrame(s, f))
    case FlushTlb => Serviced(InvalidateTlb(s))
  }

  ghost predicate Sound(s: State)
  {
    Inv(s) && DataVictim(s) >= 0
  }

  /** A translation leads to the frame of the page. */
  lemma HitIsResident(s: State, page: nat)
    requires Inv(s) && Hits(s, page)
    ensures Resident(s, FrameOf(s, page), page) && Contents(s, page) == Some(s.ram[FrameOf(s, page)])
    ensures UserPage(s.asp, page)
  {
    var f := FrameOf(s, page);
    assert EntryOk(s, s.pg[f]);
    ContentsResident(s, f, page);
  }

  lemma FlushKeeps(s: State)
    requires Inv(s)
    ensures Inv(InvalidateTlb(s)) && forall p :: Contents(InvalidateTlb(s), p) == Contents(s, p)
  {
    var s' := InvalidateTlb(s);
    AllInvalidCount(NUM_TLB);
    TlbOnlyKeeps(s, s');
  }

  lemma {:induction false} AllInvalidCount(n: nat)
    ensures CountInvalid(AllInvalid(n)) == n
  {
    if n > 0 {
      AllInvalidCount(n - 1);
      assert AllInvalid(n)[..n - 1] == AllInvalid(n - 1);
    }
  }

  /** The value a store leaves in a page, and a page otherwise. */
  function Stored(c: Option<Page>, step: Step, page: nat): Option<Page>
  {
    if step.UserStore? && PageOf(step.vaddr) == page && c.Some?
    then Some(SetWord(c.value, WordOf(step.vaddr), step.value)) else c
  }

  /** What one step does to every page of the process, faults aside. */
  lemma QuietStep(s: State, step: Step)
    requires Sound(s) && Enabled(s, step) && !step.TakeFault?
    ensures var r := Next(s, step);
            && r.Serviced? && Sound(r.s) && r.s.pid == s.pid && r.s.asp == s.asp
            && forall p :: Contents(r.s, p) == Stored(Contents(s, p), step, p)
  {
    match step
    case UserLoad(_) =>
    case UserStore(vaddr, value) =>
      HitIsResident(s, PageOf(vaddr));
      var s' := WriteWord(s, vaddr, value);
      FrameWrite(s, s', FrameOf(s, PageOf(vaddr)), PageOf(vaddr));
    case KernelAlloc =>
      if s.free != [] {
        TakeFrameKeeps(s);
        DataVictimKept(s, TakeFrame(s));
      }
    case KernelFree(f) =>
      FreeKernelFrame(s, f);
      var s' := FreeFrame(s, f).value;
      var d := DataVictim(s);
      assert EntryOk(s, s.pg[d]);
      assert Eligible(s'.pg[d], s'.pid, s'.asp, true);
    case FlushTlb =>
      FlushKeeps(s);
  }

  // ---------------------------------------------------------------------------------------------
  // Whole runs

  predicate Follows(s: State, step: Step, s': State)
    requires Shaped(s) && Enabled(s, step)
  {
    var r := Next(s, step);
    (r.Serviced? || r.Failed?) && r.s == s'
  }

  predicate IsRun(states: seq<State>, steps: seq<Step>)
  {
    && |states| == |steps| + 1
    && (forall k | 0 <= k < |states| :: Shaped(states[k]))
    && (forall k | 0 <= k < |steps| :: Enabled(states[k], steps[k]) && Follows(states[k], steps[k], states[k + 1]))
  }

  lemma StepSound(s: State, step: Step)
    requires Sound(s) && Enabled(s, step)
    ensures var r := Next(s, step);
            (r.Serviced? || r.Failed?) ==> Sound(r.s) && r.s.pid == s.pid && r.s.asp == s.asp
  {
    if step.TakeFault? {
      FaultKeeps(s, step.kind, step.vaddr, step.load);
    } else {
      QuietStep(s, step);
    }
  }

  lemma {:induction false} RunSound(states: seq<State>, steps: seq<Step>, k: nat)
    requires IsRun(states, steps) && Sound(states[0]) && k < |states|
    ensures Sound(states[k]) && states[k].pid == states[0].pid && states[k].asp == states[0].asp
  {
    if k > 0 {
      RunSound(states, steps, k - 1);
      StepSound(states[k - 1], steps[k - 1]);
    }
  }

  /** In every reachable state: a frame is free or valid and not both, translations agree with
      the page table, a page has one TLB entry at most, and the free entries are counted. */
  lemma FramesAndTlb(states: seq<State>, steps: seq<Step>, k: nat)
    requires IsRun(states, steps) && Sound(states[0]) && k < |states|
    ensures var s := states[k];
            && (forall f | 0 <= f < |s.pg| :: s.pg[f].valid <==> multiset(s.free)[f] == 0)
            && (forall f | 0 <= f < |s.pg| :: multiset(s.free)[f] <= 1)
            && (forall i: nat, p: nat | Translates(s, i, p) ::
                  && s.tlb[i].frame < |s.pg|
                  && var e := s.pg[s.tlb[i].frame]; e == Pte(e.dirty, true, s.pid, p, e.stamp))
            && (forall i, j, p | Translates(s, i, p) && Translates(s, j, p) :: i == j)
            && s.freeTlb == CountInvalid(s.tlb)
  {
    RunSound(states, steps, k);
    var s := states[k];
    forall f | 0 <= f < |s.pg|
      ensures multiset(s.free)[f] <= 1 && (s.pg[f].valid <==> multiset(s.free)[f] == 0)
    {
      OccursOnce(s.free, f);
      assert s.pg[f].valid ==> f !in s.free;
    }
    forall i: nat, p: nat | Translates(s, i, p)
      ensures var f := s.tlb[i].frame; f < |s.pg| && s.pg[f] == Pte(s.pg[f].dirty, true, s.pid, p, s.pg[f].stamp)
    {
      var f := s.tlb[i].frame;
      assert Resident(s, f, p);
      assert EntryOk(s, s.pg[f]);
    }
  }

  lemma {:induction false} OccursOnce(q: seq<nat>, x: nat)
    requires forall i, j | 0 <= i < j < |q| :: q[i] != q[j]
    ensures multiset(q)[x] == if x in q then 1 else 0
  {
    if q != [] {
      var n := |q| - 1;
      OccursOnce(q[..n], x);
      assert q == q[..n] + [q[n]];
    }
  }

  /** A data page that has been touched is in exactly one place. */
  lemma OnePlace(states: seq<State>, steps: seq<Step>, k: nat, p: nat)
    requires IsRun(states, steps) && Sound(states[0]) && k < |states|
    ensures var s := states[k];
            && (Contents(s, p).Some? <==> IsResident(s, p) || exists i :: InSlot(s, i, p))
            && !(IsResident(s, p) && exists i :: InSlot(s, i, p))
            && (forall f, g | Resident(s, f, p) && Resident(s, g, p) :: f == g)
            && (forall i, j | InSlot(s, i, p) && InSlot(s, j, p) :: i == j)
  {
    RunSound(states, steps, k);
    var s := states[k];
    var f0, i0 := EntrySearch(s.pg, p, s.pid, 0), SlotSearch(s.slots, p, s.pid, 0);
    assert f0 < |s.pg| ==> Resident(s, f0, p);
    assert i0 < |s.slots| ==> InSlot(s, i0, p);
    forall f | Resident(s, f, p) ensures Contents(s, p).Some? {
      ContentsResident(s, f, p);
    }
    forall i: nat | InSlot(s, i, p) ensures Contents(s, p).Some? && !IsResident(s, p) {
      assert forall f | 0 <= f < |s.pg| :: !Resident(s, f, s.slots[i].page);
      ContentsInSlot(s, i, p);
    }
  }

  /** Whatever faults do, also failed ones, a data page once touched keeps its contents until the
      process stores into it. */
  lemma {:induction false} PagesPersist(states: seq<State>, steps: seq<Step>, k: nat, p: nat)
    requires IsRun(states, steps) && Sound(states[0]) && k < |states|
    requires IsDataPage(states[0].asp, p) && Contents(states[0], p).Some?
    requires forall j | 0 <= j < k :: !(steps[j].UserStore? && PageOf(steps[j].vaddr) == p)
    ensures Contents(states[k], p) == Contents(states[0], p)
  {
    if k > 0 {
      PagesPersist(states, steps, k - 1, p);
      RunSound(states, steps, k - 1);
      var s, step := states[k - 1], steps[k - 1];
      if step.TakeFault? {
        FaultKeeps(s, step.kind, step.vaddr, step.load);
        assert p != PageOf(step.vaddr) ==> SameOrDropped(s, states[k], p);
      } else {
        QuietStep(s, step);
      }
    }
  }

  // ---------------------------------------------------------------------------------------------
  // The flat memory the process sees

  type Image = nat -> Page

  function MemoryStep(m: Image, step: Step): Image
  {
    if step.UserStore? then
      var page := PageOf(step.vaddr);
      p => if p == page then SetWord(m(p), WordOf(step.vaddr), step.value) else m(p)
    else m
  }

  /** The memory after the stores of the run, over the image of the executable. */
  function MemoryAfter(image: Image, steps: seq<Step>): Image
  {
    if steps == [] then image
    else MemoryStep(MemoryAfter(image, steps[..|steps| - 1]), steps[|steps| - 1])
  }

  /** Loading a page gives its part of the executable, or zeros where there is none; the process
      stores into data pages only. */
  predicate Faithful(image: Image, asp: AddrSpace, step: Step)
  {
    match step
    case TakeFault(_, vaddr, load) => !load.NotRead? ==> InitialContents(load) == image(PageOf(vaddr))
    case UserStore(vaddr, _) => IsDataPage(asp, PageOf(vaddr))
    case _ => true
  }

  /** Every page of the process, where present, holds the flat memory's contents; a page that is
      not present has not been stored into. */
  predicate PageAgrees(s: State, image: Image, m: Image, p: nat)
    requires Shaped(s)
  {
    match Contents(s, p)
    case Some(c) => c == m(p)
    case None => m(p) == image(p)
  }

  ghost predicate Agrees(s: State, image: Image, m: Image)
    requires Shaped(s)
  {
    && (forall p :: PageAgrees(s, image, m, p))
    && (forall p | !IsDataPage(s.asp, p) :: m(p) == image(p))
  }

  lemma FaultAgrees(s: State, image: Image, m: Image, step: Step)
    requires Sound(s) && step.TakeFault? && Enabled(s, step) && Agrees(s, image, m) && Faithful(image, s.asp, step)
    requires Next(s, step).Serviced?
    ensures Shaped(Next(s, step).s) && Agrees(Next(s, step).s, image, m)
  {
    FaultKeeps(s, step.kind, step.vaddr, step.load);
    var s' := Next(s, step).s;
    var page := PageOf(step.vaddr);
    NotReadFails(s, step);
    forall p ensures PageAgrees(s', image, m, p) {
      assert PageAgrees(s, image, m, p);
      assert p != page ==> SameOrDropped(s, s', p);
    }
  }

  lemma NotReadFails(s: State, step: Step)
    requires Sound(s) && step.TakeFault? && Enabled(s, step) && Next(s, step).Serviced?
    ensures Contents(s, PageOf(step.vaddr)).Some? || !step.load.NotRead?
  {
    FaultKeeps(s, step.kind, step.vaddr, step.load);
    var page := PageOf(step.vaddr);
    if IsResident(s, page) {
      var f :| 0 <= f < |s.pg| && Resident(s, f, page);
      ContentsResident(s, f, page);
    }
  }

  lemma QuietAgrees(s: State, image: Image, m: Image, step: Step)
    requires Sound(s) && !step.TakeFault? && Enabled(s, step) && Agrees(s, image, m) && Faithful(image, s.asp, step)
    ensures Next(s, step).Serviced? && Shaped(Next(s, step).s) && Agrees(Next(s, step).s, image, MemoryStep(m, step))
  {
    QuietStep(s, step);
    var s' := Next(s, step).s;
    forall p ensures PageAgrees(s', image, MemoryStep(m, step), p) {
      assert PageAgrees(s, image, m, p);
      if step.UserStore? {
        HitIsResident(s, PageOf(step.vaddr));
      }
    }
  }

  lemma StepAgrees(s: State, image: Image, m: Image, step: Step)
    requires Sound(s) && Enabled(s, step) && Agrees(s, image, m) && Faithful(image, s.asp, step)
    requires Next(s, step).Serviced?
    ensures Shaped(Next(s, step).s) && Agrees(Next(s, step).s, image, MemoryStep(m, step))
  {
    if step.TakeFault? {
      FaultAgrees(s, image, m, step);
    } else {
      QuietStep(s, step);
      QuietAgrees(s, image, m, step);
    }
  }

  /** The main refinement: paging is invisible. After any run of serviced steps every page holds
      what a flat memory, started as the executable's image and changed by the stores alone, holds. */
  lemma {:induction false} FlatMemory(states: seq<State>, steps: seq<Step>, image: Image, k: nat)
    requires IsRun(states, steps) && Sound(states[0]) && Agrees(states[0], image, image) && k < |states|
    requires forall j | 0 <= j < k :: Faithful(image, states[0].asp, steps[j]) && Next(states[j], steps[j]).Serviced?
    ensures Agrees(states[k], image, MemoryAfter(image, steps[..k]))
  {
    if k > 0 {
      FlatMemory(states, steps, image, k - 1);
      RunSound(states, steps, k - 1);
      StepAgrees(states[k - 1], image, MemoryAfter(image, steps[..k - 1]), steps[k - 1]);
      MemoryUnfolds(image, steps, k);
    }
  }

  lemma MemoryUnfolds(image: Image, steps: seq<Step>, k: nat)
    requires 0 < k <= |steps|
    ensures MemoryAfter(image, steps[..k]) == MemoryStep(MemoryAfter(image, steps[..k - 1]), steps[k - 1])
  {
    assert steps[..k][..k - 1] == steps[..k - 1];
  }

  /** A load returns the last value stored at the address, or the image's. */
  lemma LoadsSeeFlatMemory(states: seq<State>, steps: seq<Step>, image: Image, k: nat)
    requires IsRun(states, steps) && Sound(states[0]) && Agrees(states[0], image, image) && k < |steps|
    requires forall j | 0 <= j < k :: Faithful(image, states[0].asp, steps[j]) && Next(states[j], steps[j]).Serviced?
    requires steps[k].UserLoad?
    ensures ReadWord(states[k], steps[k].vaddr)
            == MemoryAfter(image, steps[..k])(PageOf(steps[k].vaddr))[WordOf(steps[k].vaddr)]
  {
    RunSound(states, steps, k);
    FlatMemory(states, steps, image, k);
    var page := PageOf(steps[k].vaddr);
    HitIsResident(states[k], page);
    assert PageAgrees(states[k], image, MemoryAfter(image, steps[..k]), page);
  }
}
