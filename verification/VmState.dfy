/** The state of the demand-paged memory system of one running process, and its primitive
    operations on the page table, the frame list, the TLB and the swap file. */
module VmState {
  import opened Common

  const PAGE_SIZE: nat := 4096
  const NUM_TLB: nat := 64
  const KSEG0_PAGE: nat := 0x80000      // first page of the kernel's direct-mapped segment
  const STAMP_LIMIT: nat := 0x1_0000    // victim_counter has 16 bits
  const WORDS_PER_PAGE: nat := 1024

  type Page = p: seq<int> | |p| == WORDS_PER_PAGE witness Zeros(WORDS_PER_PAGE)

  function Zeros(n: nat): (z: seq<int>)
    ensures |z| == n && forall i | 0 <= i < n :: z[i] == 0
  {
    if n == 0 then [] else Zeros(n - 1) + [0]
  }

  const ZERO_PAGE: Page := Zeros(WORDS_PER_PAGE)

  /** An entry of the inverted page table. */
  datatype Pte = Pte(dirty: bool, valid: bool, pid: nat, page: nat, stamp: nat)

  /** An entry of the swap list; slot i is page i of the swap file. Page 0 of process 0 means free. */
  datatype Slot = Slot(page: nat, pid: nat, dirty: bool)

  datatype TlbEntry = TlbEntry(vpage: nat, frame: nat, valid: bool, dirty: bool)

  /** The two segments; their bounds are addresses and lengths in pages. */
  datatype AddrSpace = AddrSpace(codeBase: nat, codePages: nat, dataBase: nat, dataPages: nat)

  datatype Stats = Stats(faults: int, withFree: int, withReplace: int, reloads: int, zeroed: int,
                         disk: int, elf: int, swap: int, swapWrites: int)

  datatype State = State(
    pg: seq<Pte>,           // main_PG
    ram: seq<Page>,         // the frames
    free: seq<nat>,         // frame_list
    slots: seq<Slot>,       // sf_list
    swapfile: seq<Page>,
    tlb: seq<TlbEntry>,
    freeTlb: int,           // freeTLBEntries
    nextVictim: nat,        // round robin position
    counter: nat,           // pt_counter
    pid: nat,
    asp: AddrSpace,
    stats: Stats)

  const FREE_SLOT: Slot := Slot(0, 0, false)

  function InvalidEntry(i: nat): TlbEntry
  {
    TlbEntry(KSEG0_PAGE + i, 0, false, false)
  }

  function AllInvalid(n: nat): (tlb: seq<TlbEntry>)
    ensures |tlb| == n && forall i | 0 <= i < n :: tlb[i] == InvalidEntry(i)
  {
    if n == 0 then [] else AllInvalid(n - 1) + [InvalidEntry(n - 1)]
  }

  // ---------------------------------------------------------------------------------------------
  // Segments. The upper bound is included, as in the code.

  predicate IsCode(a: AddrSpace, vaddr: nat)
  {
    a.codeBase <= vaddr <= a.codeBase + a.codePages * PAGE_SIZE
  }

  predicate IsData(a: AddrSpace, vaddr: nat)
  {
    a.dataBase <= vaddr <= a.dataBase + a.dataPages * PAGE_SIZE
  }

  predicate IsCodePage(a: AddrSpace, page: nat) { IsCode(a, page * PAGE_SIZE) }

  predicate IsDataPage(a: AddrSpace, page: nat) { IsData(a, page * PAGE_SIZE) }

  // ---------------------------------------------------------------------------------------------
  // Searches. Each returns the first match at or after i, or the length.

  /** pageSearch: a valid entry for the page, whatever the process. */
  function PageSearch(pg: seq<Pte>, page: nat, i: nat): (r: nat)
    requires i <= |pg|
    ensures i <= r <= |pg|
    ensures r < |pg| ==> pg[r].valid && pg[r].page == page
    ensures forall j | i <= j < r :: !(pg[j].valid && pg[j].page == page)
    decreases |pg| - i
  {
    if i == |pg| || (pg[i].valid && pg[i].page == page) then i else PageSearch(pg, page, i + 1)
  }

  /** The search at the start of addTLB: a valid entry for the page and the process. */
  function EntrySearch(pg: seq<Pte>, page: nat, pid: nat, i: nat): (r: nat)
    requires i <= |pg|
    ensures i <= r <= |pg|
    ensures r < |pg| ==> pg[r].valid && pg[r].page == page && pg[r].pid == pid
    ensures forall j | i <= j < r :: !(pg[j].valid && pg[j].page == page && pg[j].pid == pid)
    decreases |pg| - i
  {
    if i == |pg| || (pg[i].valid && pg[i].page == page && pg[i].pid == pid) then i
    else EntrySearch(pg, page, pid, i + 1)
  }

  /** sf_pageSearch. */
  function SlotSearch(slots: seq<Slot>, page: nat, pid: nat, i: nat): (r: nat)
    requires i <= |slots|
    ensures i <= r <= |slots|
    ensures r < |slots| ==> slots[r].page == page && slots[r].pid == pid
    ensures forall j | i <= j < r :: !(slots[j].page == page && slots[j].pid == pid)
    decreases |slots| - i
  {
    if i == |slots| || (slots[i].page == page && slots[i].pid == pid) then i
    else SlotSearch(slots, page, pid, i + 1)
  }

  /** tlb_probe: a matching entry, valid or not. */
  function Probe(tlb: seq<TlbEntry>, vpage: nat, i: nat): (r: nat)
    requires i <= |tlb|
    ensures i <= r <= |tlb|
    ensures r < |tlb| ==> tlb[r].vpage == vpage
    ensures forall j | i <= j < r :: tlb[j].vpage != vpage
    decreases |tlb| - i
  {
    if i == |tlb| || tlb[i].vpage == vpage then i else Probe(tlb, vpage, i + 1)
  }

  /** The first invalid TLB slot. */
  function UnusedEntry(tlb: seq<TlbEntry>, i: nat): (r: nat)
    requires i <= |tlb|
    ensures i <= r <= |tlb|
    ensures r < |tlb| ==> !tlb[r].valid
    ensures forall j | i <= j < r :: tlb[j].valid
    decreases |tlb| - i
  {
    if i == |tlb| || !tlb[i].valid then i else UnusedEntry(tlb, i + 1)
  }

  /** A frame victim_pageSearch may choose: the process's, and in the segment asked for. */
  predicate Eligible(e: Pte, pid: nat, a: AddrSpace, data: bool)
  {
    e.pid == pid && if data then IsDataPage(a, e.page) else IsCodePage(a, e.page)
  }

  /** victim_pageSearch over the first n entries: the first of those with the least stamp. */
  function VictimSearch(pg: seq<Pte>, pid: nat, a: AddrSpace, data: bool, n: nat): (r: int)
    requires n <= |pg|
    ensures -1 <= r < n
    ensures r >= 0 ==> Eligible(pg[r], pid, a, data)
    ensures r >= 0 ==> forall j | 0 <= j < n && Eligible(pg[j], pid, a, data) :: pg[r].stamp <= pg[j].stamp
    ensures r >= 0 ==> forall j | 0 <= j < r && Eligible(pg[j], pid, a, data) :: pg[r].stamp < pg[j].stamp
    ensures r < 0 ==> forall j | 0 <= j < n :: !Eligible(pg[j], pid, a, data)
  {
    if n == 0 then -1
    else
      var r := VictimSearch(pg, pid, a, data, n - 1);
      if Eligible(pg[n - 1], pid, a, data) && (r < 0 || pg[r].stamp > pg[n - 1].stamp) then n - 1 else r
  }

  function CountInvalid(tlb: seq<TlbEntry>): nat
  {
    if tlb == [] then 0 else (if tlb[|tlb| - 1].valid then 0 else 1) + CountInvalid(tlb[..|tlb| - 1])
  }

  // ---------------------------------------------------------------------------------------------
  // Primitive operations. None stands for a panic.

  predicate Shaped(s: State)
  {
    && |s.ram| == |s.pg|
    && |s.swapfile| == |s.slots|
    && |s.tlb| == NUM_TLB
    && s.nextVictim < NUM_TLB
    && (forall i | 0 <= i < |s.free| :: s.free[i] < |s.pg|)
  }

  /** alloc_kpages(1) when the frame list is not empty: its first frame, given to the kernel. */
  function AllocFrame(s: State): (r: Option<State>)
    requires Shaped(s) && s.free != []
    ensures r.Some? ==> Shaped(r.value)
  {
    var f := s.free[0];
    if s.pg[f].valid || f == 0 then None
    else
      Some(s.(pg := s.pg[f := Pte(s.pg[f].dirty, true, 0, 0, (s.counter + 1) % STAMP_LIMIT)],
              ram := s.ram[f := ZERO_PAGE],
              free := s.free[1..],
              counter := s.counter + 1))
  }

  /** removeTLBv1. */
  function RemoveTlb(s: State, page: nat): (s': State)
    requires Shaped(s)
    ensures Shaped(s')
  {
    var i := Probe(s.tlb, page, 0);
    if i == |s.tlb| then s
    else s.(tlb := s.tlb[i := InvalidEntry(i)], freeTlb := s.freeTlb + 1)
  }

  /** free_kpages. */
  function FreeFrame(s: State, f: nat): (r: Option<State>)
    requires Shaped(s) && f < |s.pg|
    ensures r.Some? ==> Shaped(r.value)
  {
    if !s.pg[f].valid then None
    else
      var s1 := if s.pg[f].pid != 0 then RemoveTlb(s, s.pg[f].page) else s;
      Some(s1.(pg := s1.pg[f := s1.pg[f].(valid := false, pid := 0, page := 0)],
               ram := s1.ram[f := ZERO_PAGE],
               free := [f] + s1.free))
  }

  /** addPT. */
  function AddPt(s: State, f: nat, page: nat, pid: nat, dirty: bool): (r: Option<State>)
    requires Shaped(s) && f < |s.pg|
    ensures r.Some? ==> Shaped(r.value)
  {
    if s.pg[f].valid && !(s.pg[f].page == 0 && s.pg[f].pid == 0) then None
    else Some(s.(pg := s.pg[f := Pte(dirty, true, pid, page, s.pg[f].stamp)]))
  }

  /** addTLB. The test for a duplicate misses slot 0, as in the code. */
  function AddTlb(s: State, page: nat, pid: nat): (r: Option<State>)
    requires Shaped(s)
    ensures r.Some? ==> Shaped(r.value)
  {
    var f := EntrySearch(s.pg, page, pid, 0);
    if f == |s.pg| || 0 < Probe(s.tlb, page, 0) < |s.tlb| then None
    else
      var i := UnusedEntry(s.tlb, 0);
      if i < |s.tlb| then
        Some(s.(tlb := s.tlb[i := TlbEntry(page, f, true, s.pg[f].dirty)], freeTlb := s.freeTlb - 1))
      else
        Some(s.(tlb := s.tlb[s.nextVictim := TlbEntry(page, f, true, true)],
                nextVictim := (s.nextVictim + 1) % NUM_TLB))
  }

  /** invalidate_TLB. */
  function InvalidateTlb(s: State): (s': State)
    requires Shaped(s)
    ensures Shaped(s')
  {
    var tlb := AllInvalid(NUM_TLB);
    s.(tlb := tlb, freeTlb := NUM_TLB)
  }

  /** swapOut: the frame's page goes to the first free slot of the swap file. */
  function SwapOut(s: State, f: nat): (r: Option<State>)
    requires Shaped(s) && f < |s.pg|
    ensures r.Some? ==> Shaped(r.value)
  {
    var i := SlotSearch(s.slots, 0, 0, 0);
    if i == |s.slots| then None
    else
      FreeFrame(s.(slots := s.slots[i := Slot(s.pg[f].page, s.pg[f].pid, s.pg[f].dirty)],
                   swapfile := s.swapfile[i := s.ram[f]]), f)
  }

  /** swapIn: the page in slot i comes back to the first free frame. */
  function SwapIn(s: State, i: nat): (r: Option<State>)
    requires Shaped(s) && i < |s.slots|
    ensures r.Some? ==> Shaped(r.value)
  {
    if s.free == [] then None
    else
      var f := s.free[0];
      match AllocFrame(s)
      case None => None
      case Some(s1) =>
        match AddPt(s1, f, s.slots[i].page, s.slots[i].pid, s.slots[i].dirty)
        case None => None
        case Some(s2) =>
          match AddTlb(s2, s.slots[i].page, s.slots[i].pid)
          case None => None
          case Some(s3) =>
            Some(s3.(ram := s3.ram[f := s3.swapfile[i]], slots := s3.slots[i := FREE_SLOT]))
  }
}
