/** The memory system at boot, and what loading a program maps before it runs. */
module VmLoad {
  import opened Common
  import opened VmState
  import opened VmInvariant
  import opened VmFault
  import opened VmSafety
  import opened VmRun

  const MAX_PAGES_PER_PROCESS: nat := 120
  const MAX_CODE_PAGES: nat := 16
  const MAX_DATA_PAGES: nat := 100
  const MAX_STACK_PAGES: nat := 16

  // ---------------------------------------------------------------------------------------------
  // Boot

  /** Frames below first and from last on belong to the kernel. */
  function BootTable(n: nat, first: nat, last: nat): (pg: seq<Pte>)
    ensures |pg| == n
    ensures forall i | 0 <= i < n :: pg[i] == Pte(false, i < first || last <= i, 0, 0, 0)
  {
    if n == 0 then [] else BootTable(n - 1, first, last) + [Pte(false, n - 1 < first || last <= n - 1, 0, 0, 0)]
  }

  function FrameRange(first: nat, last: nat): (r: seq<nat>)
    requires first <= last
    ensures |r| == last - first && forall i | 0 <= i < |r| :: r[i] == first + i
  {
    if first == last then [] else FrameRange(first, last - 1) + [last - 1]
  }

  function FreeSlots(n: nat): (r: seq<Slot>)
    ensures |r| == n && forall i | 0 <= i < n :: r[i] == FREE_SLOT
  {
    if n == 0 then [] else FreeSlots(n - 1) + [FREE_SLOT]
  }

  /** vm_bootstrap and swapfile_init; the process and its segments are those about to be loaded. */
  function Boot(ram: seq<Page>, first: nat, last: nat, swapfile: seq<Page>, pid: nat, asp: AddrSpace): State
    requires first <= last <= |ram|
  {
    var tlb := AllInvalid(NUM_TLB);
    State(BootTable(|ram|, first, last), ram, FrameRange(first, last), FreeSlots(|swapfile|), swapfile,
          tlb, NUM_TLB, 0, 0, pid, asp, Stats(0, 0, 0, 0, 0, 0, 0, 0, 0))
  }

  lemma BootInv(ram: seq<Page>, first: nat, last: nat, swapfile: seq<Page>, pid: nat, asp: AddrSpace)
    requires 0 < first <= last <= |ram| && 0 < pid && AddrSpaceOk(asp)
    ensures var s := Boot(ram, first, last, swapfile, pid, asp);
            Inv(s) && forall p :: Contents(s, p) == None
  {
    var s := Boot(ram, first, last, swapfile, pid, asp);
    AllInvalidCount(NUM_TLB);
    forall f | 0 <= f < |s.pg| && !s.pg[f].valid ensures f in s.free {
      assert s.free[f - first] == f;
    }
    assert SlotsOk(s);
    assert PtOk(s);
  }

  // ---------------------------------------------------------------------------------------------
  // Mapping pages

  /** alloc_pages for one page, and its TLB entry where asked for and there is room. */
  function MapPage(s: State, page: nat, translate: bool): (r: Option<State>)
    requires Shaped(s)
    ensures r.Some? ==> Shaped(r.value)
  {
    if s.free == [] then None
    else
      match AllocFrame(s)
      case None => None
      case Some(s1) =>
        match AddPt(s1, s.free[0], page, s.pid, true)
        case None => None
        case Some(s2) => if translate && s2.freeTlb != 0 then AddTlb(s2, page, s2.pid) else Some(s2)
  }

  /** The loop of as_define_region over n pages. */
  function MapRange(s: State, base: nat, n: nat): (r: Option<State>)
    requires Shaped(s)
    ensures r.Some? ==> Shaped(r.value)
    decreases n, 0
  {
    if n == 0 then Some(s) else MapOn(MapPage(s, base, true), base + 1, n - 1)
  }

  /** The loop goes on, unless a page could not be mapped. */
  function MapOn(q: Option<State>, base: nat, n: nat): (r: Option<State>)
    requires q.Some? ==> Shaped(q.value)
    ensures r.Some? ==> Shaped(r.value)
    decreases n, 1
  {
    match q case None => None case Some(s) => MapRange(s, base, n)
  }

  lemma MapRangeUnfolds(s: State, base: nat, n: nat, next: nat, rest: nat)
    requires Shaped(s) && next == base + 1 && n == rest + 1
    ensures MapRange(s, base, n) == MapOn(MapPage(s, base, true), next, rest)
  {
  }

  lemma MapPageKeeps(s: State, page: nat, translate: bool) returns (s': State)
    requires Inv(s) && s.free != [] && UserPage(s.asp, page) && Contents(s, page) == None
    ensures MapPage(s, page, translate) == Some(s')
    ensures Inv(s') && s'.pid == s.pid && s'.asp == s.asp && |s'.free| == |s.free| - 1 && s'.slots == s.slots
    ensures Contents(s', page) == Some(ZERO_PAGE)
    ensures forall p | p != page :: Contents(s', p) == Contents(s, p)
  {
    var f := s.free[0];
    AllocKeeps(s);
    var s1 := AllocFrame(s).value;
    NotPresentMisses(s, page);
    AddPtKeeps(s1, f, page, true);
    var s2 := AddPt(s1, f, page, s.pid, true).value;
    ContentsResident(s2, f, page);
    AddTlbKeeps(s2, f, page);
    s' := MapPage(s, page, translate).value;
  }

  lemma NotPresentMisses(s: State, page: nat)
    requires Inv(s) && Contents(s, page) == None
    ensures Misses(s, page)
  {
    forall i | 0 <= i < |s.tlb| && s.tlb[i].valid ensures s.tlb[i].vpage != page {
      ContentsResident(s, s.tlb[i].frame, s.tlb[i].vpage);
    }
  }

  predicate InRange(p: nat, base: nat, n: nat) { base <= p < base + n }

  ghost predicate Mapped(s: State, s': State, base: nat, n: nat)
    requires Shaped(s)
  {
    && Inv(s') && s'.pid == s.pid && s'.asp == s.asp && |s'.free| == |s.free| - n && s'.slots == s.slots
    && forall p :: Contents(s', p).Some? <==> InRange(p, base, n) || Contents(s, p).Some?
  }

  ghost predicate Mappable(s: State, base: nat, n: nat)
    requires Shaped(s)
  {
    forall p {:trigger InRange(p, base, n)} | InRange(p, base, n) :: UserPage(s.asp, p) && Contents(s, p) == None
  }

  /** The first page of a range is mapped, and there are frames for the rest. */
  ghost predicate FirstMapped(s: State, s1: State, base: nat)
    requires Shaped(s)
  {
    && Inv(s1) && s1.pid == s.pid && s1.asp == s.asp && |s1.free| == |s.free| - 1 && s1.slots == s.slots
    && Contents(s1, base).Some? && forall p | p != base :: Contents(s1, p) == Contents(s, p)
  }

  lemma MapFirst(s: State, base: nat, n: nat) returns (s1: State)
    requires Inv(s) && 0 < n && s.free != [] && Mappable(s, base, n)
    ensures MapPage(s, base, true) == Some(s1) && FirstMapped(s, s1, base) && Mappable(s1, base + 1, n - 1)
  {
    assert InRange(base, base, n);
    s1 := MapPageKeeps(s, base, true);
    MappedFirst(s, s1, base, n);
  }

  lemma MappedFirst(s: State, s1: State, base: nat, n: nat)
    requires Inv(s) && FirstMapped(s, s1, base) && n > 0 && Mappable(s, base, n)
    ensures Mappable(s1, base + 1, n - 1)
  {
    forall p | InRange(p, base + 1, n - 1) ensures UserPage(s1.asp, p) && Contents(s1, p) == None {
      assert InRange(p, base, n);
    }
  }

  lemma MappedRest(s: State, s1: State, s': State, base: nat, n: nat)
    requires Inv(s) && FirstMapped(s, s1, base) && n > 0 && Mapped(s1, s', base + 1, n - 1)
    ensures Mapped(s, s', base, n)
  {
    forall p ensures Contents(s', p).Some? <==> InRange(p, base, n) || Contents(s, p).Some? {
      assert InRange(p, base, n) <==> InRange(p, base + 1, n - 1) || p == base;
    }
  }

  lemma {:induction false} MapRangeKeeps(s: State, base: nat, n: nat) returns (s': State)
    requires Inv(s) && n <= |s.free| && Mappable(s, base, n)
    ensures MapRange(s, base, n) == Some(s') && Mapped(s, s', base, n)
    decreases n
  {
    if n == 0 {
      s' := s;
    } else {
      var s1 := MapFirst(s, base, n);
      var next, rest := base + 1, n - 1;
      s' := MapRangeKeeps(s1, next, rest);
      MapRangeUnfolds(s, base, n, next, rest);
      MappedRest(s, s1, s', base, n);
    }
  }

  /** Mapping panics for want of frames, and for nothing else. */
  lemma {:induction false} MapRangePanics(s: State, base: nat, n: nat)
    requires Inv(s) && |s.free| < n && Mappable(s, base, n)
    ensures MapRange(s, base, n) == None
    decreases n
  {
    if s.free != [] {
      var s1 := MapFirst(s, base, n);
      MapRangePanics(s1, base + 1, n - 1);
    }
  }

  // ---------------------------------------------------------------------------------------------
  // Loading a program

  function CodeLoaded(a: AddrSpace): nat
  {
    if a.codePages > MAX_CODE_PAGES then MAX_CODE_PAGES else a.codePages
  }

  function DataLoaded(a: AddrSpace): nat
  {
    if a.dataPages > MAX_DATA_PAGES then MAX_PAGES_PER_PROCESS - (CodeLoaded(a) - MAX_STACK_PAGES)
    else a.dataPages
  }

  function CodePage(a: AddrSpace): nat { a.codeBase / PAGE_SIZE }

  function DataPage(a: AddrSpace): nat { a.dataBase / PAGE_SIZE }

  function StackPage(a: AddrSpace): nat { DataPage(a) + a.dataPages }

  /** as_define_region for the code and for the data segment, then as_prepare_load. */
  function LoadProgram(s: State, a: AddrSpace): (r: Option<State>)
    requires Shaped(s)
    ensures r.Some? ==> Shaped(r.value)
  {
    match MapRange(s, CodePage(a), CodeLoaded(a))
    case None => None
    case Some(s1) =>
      match MapRange(s1, DataPage(a), DataLoaded(a))
      case None => None
      case Some(s2) => MapPage(s2, StackPage(a), false)
  }

  /** The region sizes for which more data pages are mapped than the segment has. */
  predicate Overshoots(a: AddrSpace)
  {
    MAX_DATA_PAGES < a.dataPages < MAX_PAGES_PER_PROCESS + MAX_STACK_PAGES - CodeLoaded(a)
  }

  lemma PagesOfSegments(a: AddrSpace, p: nat)
    requires AddrSpaceOk(a)
    ensures InRange(p, CodePage(a), a.codePages + 1) <==> IsCodePage(a, p)
    ensures InRange(p, DataPage(a), a.dataPages + 1) <==> IsDataPage(a, p)
    ensures CodePage(a) + a.codePages < DataPage(a)
  {
    assert a.codeBase == CodePage(a) * PAGE_SIZE && a.dataBase == DataPage(a) * PAGE_SIZE;
  }

  /** No page of the process is mapped yet; both segments have pages, as their sizes are rounded up. */
  ghost predicate Loadable(s: State, a: AddrSpace)
  {
    && Inv(s) && AddrSpaceOk(a) && 0 < a.codePages && 0 < a.dataPages
    && (forall p :: Contents(s, p) == None)
    && (forall i | 0 <= i < |s.slots| :: s.slots[i].pid == 0)
  }

  function FramesNeeded(a: AddrSpace): nat { CodeLoaded(a) + DataLoaded(a) + 1 }

  ghost predicate Loaded(s: State, s': State, a: AddrSpace)
    requires Shaped(s)
  {
    && Inv(s') && DataVictim(s') >= 0 && s'.slots == s.slots && s'.asp == s.asp && s'.pid == s.pid
    && forall p :: Contents(s', p).Some? <==>
         InRange(p, CodePage(a), CodeLoaded(a)) || InRange(p, DataPage(a), DataLoaded(a)) || p == StackPage(a)
  }

  lemma CodeMappable(s: State, a: AddrSpace)
    requires Loadable(s, a) && s.asp.codeBase == a.codeBase && s.asp.codePages == a.codePages
    ensures Mappable(s, CodePage(a), CodeLoaded(a))
  {
    forall p | InRange(p, CodePage(a), CodeLoaded(a)) ensures UserPage(s.asp, p) {
      PagesOfSegments(a, p);
    }
  }

  lemma DataMappable(s: State, s1: State, a: AddrSpace, n: nat)
    requires Loadable(s, a) && Mapped(s, s1, CodePage(a), CodeLoaded(a))
    requires s.asp.dataBase == a.dataBase && n <= s.asp.dataPages + 1
    ensures Mappable(s1, DataPage(a), n)
  {
    forall p | InRange(p, DataPage(a), n) ensures UserPage(s1.asp, p) && Contents(s1, p) == None {
      PagesOfSegments(a, p);
      PagesOfSegments(s.asp, p);
      assert !InRange(p, CodePage(a), CodeLoaded(a));
    }
  }

  /** Loading panics for want of frames and for nothing else; otherwise it establishes the
      invariant, with a data page resident. */
  lemma LoadEstablishes(s: State, a: AddrSpace)
    requires Loadable(s, a) && s.asp == a && !Overshoots(a)
    ensures LoadProgram(s, a).Some? <==> FramesNeeded(a) <= |s.free|
    ensures LoadProgram(s, a).Some? ==> Loaded(s, LoadProgram(s, a).value, a)
  {
    CodeMappable(s, a);
    if |s.free| < CodeLoaded(a) {
      MapRangePanics(s, CodePage(a), CodeLoaded(a));
    } else {
      var s1 := MapRangeKeeps(s, CodePage(a), CodeLoaded(a));
      DataMappable(s, s1, a, DataLoaded(a));
      if |s1.free| < DataLoaded(a) {
        MapRangePanics(s1, DataPage(a), DataLoaded(a));
      } else {
        var s2 := MapRangeKeeps(s1, DataPage(a), DataLoaded(a));
        LoadStack(s, s1, s2, a);
      }
    }
  }

  lemma LoadStack(s: State, s1: State, s2: State, a: AddrSpace)
    requires Loadable(s, a) && s.asp == a && !Overshoots(a)
    requires Mapped(s, s1, CodePage(a), CodeLoaded(a)) && Mapped(s1, s2, DataPage(a), DataLoaded(a))
    ensures var r := MapPage(s2, StackPage(a), false);
            (r.Some? <==> s2.free != []) && (r.Some? ==> Loaded(s, r.value, a))
  {
    var p := StackPage(a);
    PagesOfSegments(a, p);
    assert !InRange(p, CodePage(a), CodeLoaded(a)) && !InRange(p, DataPage(a), DataLoaded(a));
    if s2.free != [] {
      var s' := MapPageKeeps(s2, p, false);
      HasDataPage(s', p);
    }
  }

  lemma HasDataPage(s: State, p: nat)
    requires Inv(s) && IsDataPage(s.asp, p) && Contents(s, p).Some?
    requires forall i | 0 <= i < |s.slots| :: s.slots[i].pid == 0
    ensures DataVictim(s) >= 0
  {
    var f := EntrySearch(s.pg, p, s.pid, 0);
    assert f < |s.pg| ==> Eligible(s.pg[f], s.pid, s.asp, true);
  }

  /** Two frames hold the same page of the process. */
  predicate MappedTwice(s: State, page: nat)
  {
    exists f, g :: 0 <= f < |s.pg| && 0 <= g < |s.pg| && f != g && Resident(s, f, page) && Resident(s, g, page)
  }

  /** Loading does not look at the segments that the process is recorded with. */
  function WithAsp(r: Option<State>, x: AddrSpace): (q: Option<State>)
  {
    match r case None => None case Some(s) => Some(s.(asp := x))
  }

  lemma MapPageAsp(s: State, page: nat, translate: bool, x: AddrSpace)
    requires Shaped(s)
    ensures MapPage(s.(asp := x), page, translate) == WithAsp(MapPage(s, page, translate), x)
  {
  }

  lemma {:induction false} MapRangeAsp(s: State, base: nat, n: nat, x: AddrSpace)
    requires Shaped(s)
    ensures MapRange(s.(asp := x), base, n) == WithAsp(MapRange(s, base, n), x)
    decreases n
  {
    if n > 0 {
      MapPageAsp(s, base, true, x);
      var r := MapPage(s, base, true);
      if r.Some? {
        MapRangeAsp(r.value, base + 1, n - 1, x);
      }
    }
  }

  lemma LoadAsp(s: State, a: AddrSpace, x: AddrSpace)
    requires Shaped(s)
    ensures LoadProgram(s.(asp := x), a) == WithAsp(LoadProgram(s, a), x)
  {
    MapRangeAsp(s, CodePage(a), CodeLoaded(a), x);
    var r := MapRange(s, CodePage(a), CodeLoaded(a));
    if r.Some? {
      MapRangeAsp(r.value, DataPage(a), DataLoaded(a), x);
      var r2 := MapRange(r.value, DataPage(a), DataLoaded(a));
      if r2.Some? {
        MapPageAsp(r2.value, StackPage(a), false, x);
      }
    }
  }

  /** The data segment as it is really mapped where the region overshoots. */
  function Widened(a: AddrSpace): AddrSpace { a.(dataPages := DataLoaded(a)) }

  lemma WidenedLoadable(s: State, a: AddrSpace)
    requires Loadable(s, a) && s.asp == a && Overshoots(a) && DataPage(a) + DataLoaded(a) < KSEG0_PAGE
    ensures Loadable(s.(asp := Widened(a)), a)
  {
    var x := s.(asp := Widened(a));
    assert a.dataBase == DataPage(a) * PAGE_SIZE;
    forall i | 0 <= i < |s.pg| ensures s.pg[i].pid != s.pid {
      assert EntryOk(s, s.pg[i]) && Contents(s, s.pg[i].page) == None;
    }
    assert PtOk(x);
    assert TlbOk(x) by {
      assert forall f, p :: Resident(x, f, p) <==> Resident(s, f, p);
    }
    assert SlotsOk(x);
    assert forall p :: Contents(x, p) == Contents(s, p);
  }

  /** With that segment the state keeps the invariant until the last page is mapped. */
  lemma WidenedMapsTwice(s: State, a: AddrSpace)
    requires Loadable(s, a) && s.asp == Widened(a) && Overshoots(a) && FramesNeeded(a) <= |s.free|
    ensures LoadProgram(s, a).Some? && MappedTwice(LoadProgram(s, a).value, StackPage(a))
  {
    CodeMappable(s, a);
    var s1 := MapRangeKeeps(s, CodePage(a), CodeLoaded(a));
    DataMappable(s, s1, a, DataLoaded(a));
    var s2 := MapRangeKeeps(s1, DataPage(a), DataLoaded(a));
    var p := StackPage(a);
    assert InRange(p, DataPage(a), DataLoaded(a));
    MapAgain(s2, p);
  }

  /** Where the region overshoots, the stack page is mapped twice. */
  lemma OvershootMapsTwice(s: State, a: AddrSpace)
    requires Loadable(s, a) && s.asp == a && Overshoots(a) && FramesNeeded(a) <= |s.free|
    requires DataPage(a) + DataLoaded(a) < KSEG0_PAGE
    ensures LoadProgram(s, a).Some? && MappedTwice(LoadProgram(s, a).value, StackPage(a))
    ensures !Inv(LoadProgram(s, a).value)
  {
    WidenedLoadable(s, a);
    WidenedMapsTwice(s.(asp := Widened(a)), a);
    LoadAsp(s, a, Widened(a));
    var s', x := LoadProgram(s, a).value, LoadProgram(s.(asp := Widened(a)), a).value;
    assert forall f, p :: Resident(x, f, p) <==> Resident(s', f, p);
  }

  /** With frames enough, and below the kernel, the invariant is lost exactly where the region overshoots. */
  lemma MappedTwiceExactly(s: State, a: AddrSpace)
    requires Loadable(s, a) && s.asp == a && FramesNeeded(a) <= |s.free|
    requires DataPage(a) + DataLoaded(a) < KSEG0_PAGE
    ensures var r := LoadProgram(s, a);
            && r.Some? && (MappedTwice(r.value, StackPage(a)) <==> Overshoots(a))
            && (Inv(r.value) <==> !Overshoots(a))
  {
    if Overshoots(a) {
      OvershootMapsTwice(s, a);
    } else {
      LoadEstablishes(s, a);
    }
  }

  lemma MapAgain(s: State, p: nat)
    requires Inv(s) && s.free != [] && Contents(s, p).Some?
    requires forall i | 0 <= i < |s.slots| :: s.slots[i].pid == 0
    ensures var r := MapPage(s, p, false); r.Some? && MappedTwice(r.value, p) && !Inv(r.value)
  {
    AllocKeeps(s);
    var f, g := EntrySearch(s.pg, p, s.pid, 0), s.free[0];
    assert !s.pg[g].valid;
    var s' := MapPage(s, p, false).value;
    assert Resident(s', f, p) && Resident(s', g, p);
  }

  /** A program of 10 code and 110 data pages on a machine of 256 frames. */
  lemma OvershootExample(ram: seq<Page>, swapfile: seq<Page>)
    requires |ram| == 256
    ensures var a := AddrSpace(0x400000, 10, 0x10000000, 110);
            var r := LoadProgram(Boot(ram, 20, 250, swapfile, 2, a), a);
            r.Some? && MappedTwice(r.value, StackPage(a))
  {
    var a := AddrSpace(0x400000, 10, 0x10000000, 110);
    BootInv(ram, 20, 250, swapfile, 2, a);
    OvershootMapsTwice(Boot(ram, 20, 250, swapfile, 2, a), a);
  }

  // ---------------------------------------------------------------------------------------------
  // The first pass of load_elf

  /** Each resident page is given its part of the executable. */
  function Fill(s: State, image: Image, n: nat): (ram: seq<Page>)
    requires Shaped(s) && n <= |s.pg|
    ensures |ram| == |s.ram|
    ensures forall f | 0 <= f < |s.ram| ::
              ram[f] == if f < n && s.pg[f].pid == s.pid then image(s.pg[f].page) else s.ram[f]
  {
    if n == 0 then s.ram
    else
      var ram := Fill(s, image, n - 1);
      if s.pg[n - 1].pid == s.pid then ram[n - 1 := image(s.pg[n - 1].page)] else ram
  }

  function FirstPass(s: State, image: Image): State
    requires Shaped(s)
  {
    s.(ram := Fill(s, image, |s.pg|))
  }

  lemma FirstPassAgrees(s: State, image: Image)
    requires Sound(s) && forall i | 0 <= i < |s.slots| :: s.slots[i].pid == 0
    ensures Sound(FirstPass(s, image)) && Agrees(FirstPass(s, image), image, image)
  {
    var s' := FirstPass(s, image);
    assert PtOk(s') by {
      forall i | 0 <= i < |s'.pg| ensures EntryOk(s', s'.pg[i]) {
        assert EntryOk(s, s.pg[i]);
      }
    }
    assert forall f, p :: Resident(s', f, p) <==> Resident(s, f, p);
    SameFramesVictim(s, s');
  }

  /** From boot through loading: any run then sees the executable's image as a flat memory. */
  lemma FlatFromBoot(ram: seq<Page>, first: nat, last: nat, swapfile: seq<Page>, pid: nat, a: AddrSpace,
                     image: Image, states: seq<State>, steps: seq<Step>, k: nat)
    requires 0 < first <= last <= |ram| && 0 < pid && AddrSpaceOk(a) && 0 < a.codePages && 0 < a.dataPages
    requires !Overshoots(a) && FramesNeeded(a) <= last - first
    requires IsRun(states, steps) && k < |states|
    requires var r := LoadProgram(Boot(ram, first, last, swapfile, pid, a), a);
             r.Some? ==> states[0] == FirstPass(r.value, image)
    requires forall j | 0 <= j < k :: Faithful(image, a, steps[j]) && Next(states[j], steps[j]).Serviced?
    ensures Sound(states[k]) && Agrees(states[k], image, MemoryAfter(image, steps[..k]))
  {
    BootInv(ram, first, last, swapfile, pid, a);
    var s := Boot(ram, first, last, swapfile, pid, a);
    LoadEstablishes(s, a);
    var s' := LoadProgram(s, a).value;
    FirstPassAgrees(s', image);
    RunSound(states, steps, k);
    FlatMemory(states, steps, image, k);
  }
}
