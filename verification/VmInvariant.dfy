/** What holds of the memory system between faults, and how the primitive operations keep it. */
module VmInvariant {
  import opened Common
  import opened VmState

  /** Page-aligned segments in user space, with at least one page between code and data. */
  predicate AddrSpaceOk(a: AddrSpace)
  {
    && a.codeBase % PAGE_SIZE == 0 && a.dataBase % PAGE_SIZE == 0
    && PAGE_SIZE <= a.codeBase
    && a.codeBase + a.codePages * PAGE_SIZE < a.dataBase
    && a.dataBase + a.dataPages * PAGE_SIZE < KSEG0_PAGE * PAGE_SIZE
  }

  predicate UserPage(a: AddrSpace, page: nat)
  {
    IsCodePage(a, page) || IsDataPage(a, page)
  }

  /** A frame is free, the kernel's, or holds a page of the process. */
  predicate EntryOk(s: State, e: Pte)
  {
    && (!e.valid ==> e.pid == 0 && e.page == 0)
    && (e.pid == s.pid || (e.pid == 0 && e.page == 0))
    && (e.pid == s.pid ==> e.valid && UserPage(s.asp, e.page))
  }

  predicate PtOk(s: State)
  {
    && (forall i | 0 <= i < |s.pg| :: EntryOk(s, s.pg[i]))
    && (forall i, j | 0 <= i < j < |s.pg| && s.pg[i].pid == s.pid && s.pg[j].pid == s.pid ::
          s.pg[i].page != s.pg[j].page)
  }

  /** A frame is on the free list, once, exactly when it is not valid; frame 0 is the kernel's. */
  predicate FreeOk(s: State)
    requires Shaped(s)
  {
    && (forall i, j | 0 <= i < j < |s.free| :: s.free[i] != s.free[j])
    && (forall i | 0 <= i < |s.free| :: !s.pg[s.free[i]].valid)
    && (forall f | 0 <= f < |s.pg| && !s.pg[f].valid :: f in s.free)
    && |s.pg| > 0 && s.pg[0].valid && s.pg[0].pid == 0
  }

  predicate Resident(s: State, f: nat, page: nat)
  {
    f < |s.pg| && s.pg[f].pid == s.pid && s.pg[f].page == page
  }

  predicate InSlot(s: State, i: nat, page: nat)
  {
    i < |s.slots| && s.slots[i].pid == s.pid && s.slots[i].page == page
  }

  /** A used slot holds a data page of the process that is in no frame and no other slot. */
  predicate SlotsOk(s: State)
  {
    && (forall i | 0 <= i < |s.slots| ::
          s.slots[i].pid == s.pid || (s.slots[i].pid == 0 && s.slots[i].page == 0))
    && (forall i | 0 <= i < |s.slots| && s.slots[i].pid == s.pid :: IsDataPage(s.asp, s.slots[i].page))
    && (forall i, f | 0 <= i < |s.slots| && s.slots[i].pid == s.pid && 0 <= f < |s.pg| ::
          !Resident(s, f, s.slots[i].page))
    && (forall i, j | 0 <= i < j < |s.slots| && s.slots[i].pid == s.pid && s.slots[j].pid == s.pid ::
          s.slots[i].page != s.slots[j].page)
  }

  /** Every valid TLB entry translates as the page table says, no page has two, and the
      count of free entries is right. */
  predicate TlbOk(s: State)
  {
    && (forall i | 0 <= i < |s.tlb| ::
          if s.tlb[i].valid then Resident(s, s.tlb[i].frame, s.tlb[i].vpage)
          else s.tlb[i].vpage == KSEG0_PAGE + i)
    && (forall i, j | 0 <= i < j < |s.tlb| :: s.tlb[i].vpage != s.tlb[j].vpage)
    && s.freeTlb == CountInvalid(s.tlb)
  }

  predicate Inv(s: State)
  {
    && Shaped(s) && 0 < s.pid && AddrSpaceOk(s.asp)
    && PtOk(s) && FreeOk(s) && SlotsOk(s) && TlbOk(s)
  }

  /** The contents of a page of the process, wherever it is. */
  function Contents(s: State, page: nat): Option<Page>
    requires Shaped(s)
  {
    var f := EntrySearch(s.pg, page, s.pid, 0);
    if f < |s.pg| then Some(s.ram[f])
    else
      var i := SlotSearch(s.slots, page, s.pid, 0);
      if i < |s.slots| then Some(s.swapfile[i]) else None
  }

  /** No valid TLB entry for the page: what makes the processor fault. */
  predicate Misses(s: State, page: nat)
  {
    forall i | 0 <= i < |s.tlb| :: !(s.tlb[i].valid && s.tlb[i].vpage == page)
  }

  // ---------------------------------------------------------------------------------------------
  // Facts about the invariant

  lemma PageBounds(a: AddrSpace, page: nat)
    requires AddrSpaceOk(a) && UserPage(a, page)
    ensures 0 < page < KSEG0_PAGE
    ensures !(IsCodePage(a, page) && IsDataPage(a, page))
  {
  }

  lemma ContentsResident(s: State, f: nat, page: nat)
    requires Shaped(s) && PtOk(s) && Resident(s, f, page)
    ensures EntrySearch(s.pg, page, s.pid, 0) == f && Contents(s, page) == Some(s.ram[f])
  {
    assert EntryOk(s, s.pg[f]);
  }

  lemma ContentsInSlot(s: State, i: nat, page: nat)
    requires Shaped(s) && PtOk(s) && SlotsOk(s) && InSlot(s, i, page)
    ensures EntrySearch(s.pg, page, s.pid, 0) == |s.pg|
    ensures SlotSearch(s.slots, page, s.pid, 0) == i && Contents(s, page) == Some(s.swapfile[i])
  {
    var f := EntrySearch(s.pg, page, s.pid, 0);
    assert f < |s.pg| ==> Resident(s, f, s.slots[i].page);
  }

  lemma AbsentContents(s: State, page: nat)
    requires Shaped(s) && PtOk(s) && Contents(s, page) == None
    ensures forall f | 0 <= f < |s.pg| :: !Resident(s, f, page)
    ensures forall i | 0 <= i < |s.slots| :: !InSlot(s, i, page)
  {
    forall f | 0 <= f < |s.pg| ensures !Resident(s, f, page) {
      assert EntryOk(s, s.pg[f]);
    }
  }

  /** A page whose frames and slots are untouched keeps its contents. */
  lemma ContentsKept(s: State, s': State, page: nat)
    requires Shaped(s) && Shaped(s') && s'.pid == s.pid
    requires |s'.pg| == |s.pg| && |s'.slots| == |s.slots|
    requires forall f | 0 <= f < |s.pg| ::
               && (s'.pg[f].valid && s'.pg[f].page == page && s'.pg[f].pid == s.pid <==>
                   s.pg[f].valid && s.pg[f].page == page && s.pg[f].pid == s.pid)
    requires forall f | 0 <= f < |s.pg| && s.pg[f].page == page && s.pg[f].pid == s.pid :: s'.ram[f] == s.ram[f]
    requires forall i | 0 <= i < |s.slots| ::
               && (s'.slots[i].page == page && s'.slots[i].pid == s.pid <==>
                   s.slots[i].page == page && s.slots[i].pid == s.pid)
    requires forall i | 0 <= i < |s.slots| && s.slots[i].page == page && s.slots[i].pid == s.pid ::
               s'.swapfile[i] == s.swapfile[i]
    ensures Contents(s', page) == Contents(s, page)
  {
    assert EntrySearch(s'.pg, page, s.pid, 0) == EntrySearch(s.pg, page, s.pid, 0);
    assert SlotSearch(s'.slots, page, s.pid, 0) == SlotSearch(s.slots, page, s.pid, 0);
  }

  lemma {:induction false} CountUpdate(tlb: seq<TlbEntry>, i: nat, e: TlbEntry)
    requires i < |tlb|
    ensures CountInvalid(tlb[i := e]) ==
            CountInvalid(tlb) + (if e.valid then 0 else 1) - (if tlb[i].valid then 0 else 1)
  {
    var n := |tlb| - 1;
    if i < n {
      assert tlb[i := e][..n] == tlb[..n][i := e];
      CountUpdate(tlb[..n], i, e);
    } else {
      assert tlb[i := e][..n] == tlb[..n];
    }
  }

  lemma {:induction false} CountZero(tlb: seq<TlbEntry>)
    ensures CountInvalid(tlb) == 0 <==> forall i | 0 <= i < |tlb| :: tlb[i].valid
  {
    if tlb != [] {
      CountZero(tlb[..|tlb| - 1]);
    }
  }

  // ---------------------------------------------------------------------------------------------
  // Primitive operations

  /** A free frame becomes the kernel's, zeroed; nothing of the process changes. */
  lemma AllocKeeps(s: State)
    requires Inv(s) && s.free != []
    ensures AllocFrame(s).Some?
    ensures var s' := AllocFrame(s).value; var f := s.free[0];
            && Inv(s') && s'.pg[f].valid && s'.pg[f].pid == 0 && s'.pg[f].page == 0 && 0 < f
            && s'.ram[f] == ZERO_PAGE && s'.tlb == s.tlb
            && (forall g | 0 <= g < |s.pg| && g != f :: s'.pg[g] == s.pg[g])
            && (forall p :: Contents(s', p) == Contents(s, p))
  {
    var f := s.free[0];
    assert !s.pg[f].valid;
    assert EntryOk(s, s.pg[f]);
    var s' := AllocFrame(s).value;
    AllocPieces(s, s', f);
    forall p ensures Contents(s', p) == Contents(s, p) {
      ContentsKept(s, s', p);
    }
  }

  lemma AllocPieces(s: State, s': State, f: nat)
    requires Inv(s) && s.free != [] && f == s.free[0] && AllocFrame(s) == Some(s')
    requires s.pg[f].pid == 0 && s.pg[f].page == 0
    ensures Inv(s')
  {
    assert s.free == [f] + s.free[1..];
    assert forall g | 0 <= g < |s.pg| && g != f :: s'.pg[g] == s.pg[g];
    assert PtOk(s') by {
      forall i | 0 <= i < |s'.pg| ensures EntryOk(s', s'.pg[i]) {
        assert EntryOk(s, s.pg[i]);
      }
    }
    assert FreeOk(s');
    assert forall g, p | 0 <= g < |s.pg| :: Resident(s', g, p) <==> Resident(s, g, p);
    assert SlotsOk(s');
    assert TlbOk(s');
  }

  /** Only the TLB changes. */
  predicate SameButTlb(s: State, s': State)
  {
    s' == s.(tlb := s'.tlb, freeTlb := s'.freeTlb, nextVictim := s'.nextVictim)
  }

  lemma TlbOnlyKeeps(s: State, s': State)
    requires Inv(s) && Shaped(s') && SameButTlb(s, s') && TlbOk(s')
    ensures Inv(s')
    ensures forall p :: Contents(s', p) == Contents(s, p)
  {
    assert PtOk(s') by {
      forall i | 0 <= i < |s'.pg| ensures EntryOk(s', s'.pg[i]) {
        assert EntryOk(s, s.pg[i]);
      }
    }
    assert forall f, p | 0 <= f < |s.pg| :: Resident(s', f, p) <==> Resident(s, f, p);
  }

  /** Removing a page from the TLB leaves no entry for it. */
  lemma RemoveTlbKeeps(s: State, page: nat)
    requires Inv(s) && UserPage(s.asp, page)
    ensures var s' := RemoveTlb(s, page);
            Inv(s') && SameButTlb(s, s') && Misses(s', page) && forall p :: Contents(s', p) == Contents(s, p)
  {
    PageBounds(s.asp, page);
    var i := Probe(s.tlb, page, 0);
    var s' := RemoveTlb(s, page);
    if i < |s.tlb| {
      CountUpdate(s.tlb, i, InvalidEntry(i));
      UserEntriesBelow(s);
      assert TlbOk(s') by {
        assert forall f, p :: Resident(s', f, p) <==> Resident(s, f, p);
      }
    }
    TlbOnlyKeeps(s, s');
  }

  /** Valid entries are for user pages, so they never clash with the invalid pattern. */
  lemma UserEntriesBelow(s: State)
    requires Inv(s)
    ensures forall i | 0 <= i < |s.tlb| && s.tlb[i].valid :: s.tlb[i].vpage < KSEG0_PAGE
  {
    forall i | 0 <= i < |s.tlb| && s.tlb[i].valid ensures s.tlb[i].vpage < KSEG0_PAGE {
      var f := s.tlb[i].frame;
      assert EntryOk(s, s.pg[f]);
      PageBounds(s.asp, s.tlb[i].vpage);
    }
  }

  /** Adding a resident page that missed never panics and never makes a duplicate. */
  lemma AddTlbKeeps(s: State, f: nat, page: nat)
    requires Inv(s) && Resident(s, f, page) && Misses(s, page)
    ensures AddTlb(s, page, s.pid).Some?
    ensures var s' := AddTlb(s, page, s.pid).value;
            && Inv(s') && SameButTlb(s, s')
            && (exists i :: 0 <= i < |s'.tlb| && s'.tlb[i].valid && s'.tlb[i].vpage == page && s'.tlb[i].frame == f)
            && forall p :: Contents(s', p) == Contents(s, p)
  {
    assert EntryOk(s, s.pg[f]);
    PageBounds(s.asp, page);
    ContentsResident(s, f, page);
    NoEntryFor(s, page);
    var i := UnusedEntry(s.tlb, 0);
    var k := if i < |s.tlb| then i else s.nextVictim;
    var s' := AddTlb(s, page, s.pid).value;
    CountUpdate(s.tlb, k, s'.tlb[k]);
    assert TlbOk(s') by {
      assert forall g, p :: Resident(s', g, p) <==> Resident(s, g, p);
      assert forall j | 0 <= j < |s.tlb| && j != k :: s'.tlb[j] == s.tlb[j];
    }
    TlbOnlyKeeps(s, s');
    assert s'.tlb[k].valid && s'.tlb[k].vpage == page && s'.tlb[k].frame == f;
  }

  lemma NoEntryFor(s: State, page: nat)
    requires Inv(s) && page < KSEG0_PAGE && Misses(s, page)
    ensures Probe(s.tlb, page, 0) == |s.tlb|
    ensures forall j | 0 <= j < |s.tlb| :: s.tlb[j].vpage != page
  {
  }

  /** A frame of the kernel's takes a page of the process that is nowhere yet. */
  lemma AddPtKeeps(s: State, f: nat, page: nat, dirty: bool)
    requires Inv(s) && 0 < f < |s.pg| && s.pg[f].valid && s.pg[f].pid == 0 && s.pg[f].page == 0
    requires UserPage(s.asp, page) && Contents(s, page) == None
    ensures AddPt(s, f, page, s.pid, dirty).Some?
    ensures var s' := AddPt(s, f, page, s.pid, dirty).value;
            && Inv(s') && Resident(s', f, page) && Misses(s', page)
            && Contents(s', page) == Some(s.ram[f])
            && forall p | p != page :: Contents(s', p) == Contents(s, p)
  {
    var s' := AddPt(s, f, page, s.pid, dirty).value;
    AbsentContents(s, page);
    AddPtPieces(s, s', f, page);
    ContentsResident(s', f, page);
    forall p | p != page ensures Contents(s', p) == Contents(s, p) {
      ContentsKept(s, s', p);
    }
  }

  lemma AddPtPieces(s: State, s': State, f: nat, page: nat)
    requires Inv(s) && 0 < f < |s.pg| && s.pg[f].valid && s.pg[f].pid == 0 && s.pg[f].page == 0
    requires UserPage(s.asp, page) && s' == s.(pg := s'.pg) && |s'.pg| == |s.pg|
    requires s'.pg[f].valid && s'.pg[f].pid == s.pid && s'.pg[f].page == page
    requires forall g | 0 <= g < |s.pg| && g != f :: s'.pg[g] == s.pg[g]
    requires forall g | 0 <= g < |s.pg| :: !Resident(s, g, page)
    requires forall i | 0 <= i < |s.slots| :: !InSlot(s, i, page)
    ensures Inv(s') && Misses(s', page)
  {
    assert PtOk(s') by {
      forall i | 0 <= i < |s'.pg| ensures EntryOk(s', s'.pg[i]) {
        assert EntryOk(s, s.pg[i]);
      }
      forall i, j | 0 <= i < j < |s.pg| && s'.pg[i].pid == s.pid && s'.pg[j].pid == s.pid
        ensures s'.pg[i].page != s'.pg[j].page
      {
        assert i != f ==> !Resident(s, i, page);
        assert j != f ==> !Resident(s, j, page);
      }
    }
    assert FreeOk(s');
    assert forall g, p | 0 <= g < |s.pg| && g != f :: Resident(s', g, p) <==> Resident(s, g, p);
    assert SlotsOk(s') by {
      forall i, g | 0 <= i < |s.slots| && s.slots[i].pid == s.pid && 0 <= g < |s.pg|
        ensures !Resident(s', g, s.slots[i].page)
      {
        assert !InSlot(s, i, page);
      }
    }
    assert Misses(s', page) by {
      forall i | 0 <= i < |s.tlb| && s.tlb[i].valid ensures s.tlb[i].vpage != page {
        assert Resident(s, s.tlb[i].frame, s.tlb[i].vpage);
      }
    }
    assert TlbOk(s') by {
      forall i | 0 <= i < |s.tlb| && s.tlb[i].valid ensures Resident(s', s.tlb[i].frame, s.tlb[i].vpage) {
        assert Resident(s, s.tlb[i].frame, s.tlb[i].vpage);
      }
    }
  }

  /** A frame without a TLB entry goes back to the free list. */
  lemma ReleaseKeeps(s: State, s': State, f: nat)
    requires Inv(s) && 0 < f < |s.pg| && s.pg[f].valid
    requires s.pg[f].pid == s.pid ==> Misses(s, s.pg[f].page)
    requires s' == s.(pg := s.pg[f := s.pg[f].(valid := false, pid := 0, page := 0)],
                      ram := s.ram[f := ZERO_PAGE], free := [f] + s.free)
    ensures Inv(s')
  {
    assert forall g | 0 <= g < |s.pg| && g != f :: s'.pg[g] == s.pg[g];
    assert PtOk(s') by {
      forall i | 0 <= i < |s'.pg| ensures EntryOk(s', s'.pg[i]) {
        assert EntryOk(s, s.pg[i]);
      }
    }
    assert FreeOk(s') by {
      assert f !in s.free;
      assert s'.free[0] == f;
      assert forall g <- s.free :: g in s'.free;
    }
    assert forall g, p | 0 <= g < |s.pg| && g != f :: Resident(s', g, p) <==> Resident(s, g, p);
    assert forall p :: !Resident(s', f, p);
    assert SlotsOk(s') by {
      forall i, g | 0 <= i < |s.slots| && s.slots[i].pid == s.pid && 0 <= g < |s.pg|
        ensures !Resident(s', g, s.slots[i].page)
      {
        assert !Resident(s, g, s.slots[i].page);
      }
    }
    assert TlbOk(s') by {
      forall i | 0 <= i < |s.tlb| && s.tlb[i].valid ensures Resident(s', s.tlb[i].frame, s.tlb[i].vpage) {
        assert Resident(s, s.tlb[i].frame, s.tlb[i].vpage);
      }
    }
  }

  /** What freeing a frame leaves alone. */
  ghost predicate FreedOnly(s: State, s': State, f: nat)
  {
    && s'.free == [f] + s.free && s'.pid == s.pid && s'.asp == s.asp
    && s'.slots == s.slots && s'.swapfile == s.swapfile && |s'.pg| == |s.pg|
    && (forall g | 0 <= g < |s.pg| && g != f :: s'.pg[g] == s.pg[g])
    && (forall p | Misses(s, p) :: Misses(s', p))
  }

  /** free_kpages on a kernel frame: nothing of the process is touched. */
  lemma FreeKernelFrame(s: State, f: nat)
    requires Inv(s) && 0 < f < |s.pg| && s.pg[f].valid && s.pg[f].pid == 0
    ensures FreeFrame(s, f).Some?
    ensures var s' := FreeFrame(s, f).value;
            Inv(s') && FreedOnly(s, s', f) && forall p :: Contents(s', p) == Contents(s, p)
  {
    var s' := FreeFrame(s, f).value;
    ReleaseKeeps(s, s', f);
    forall p ensures Contents(s', p) == Contents(s, p) {
      ContentsKept(s, s', p);
    }
  }

  /** free_kpages on a frame of the process: its page, and no other, is gone. */
  lemma FreeUserFrame(s: State, f: nat)
    requires Inv(s) && f < |s.pg| && s.pg[f].pid == s.pid
    ensures FreeFrame(s, f).Some?
    ensures var s' := FreeFrame(s, f).value; var page := s.pg[f].page;
            && Inv(s') && FreedOnly(s, s', f) && Contents(s', page) == None
            && forall p | p != page :: Contents(s', p) == Contents(s, p)
  {
    assert EntryOk(s, s.pg[f]);
    var page := s.pg[f].page;
    var s1 := RemoveTlb(s, page);
    RemoveTlbKeeps(s, page);
    var s' := FreeFrame(s, f).value;
    ReleaseKeeps(s1, s', f);
    assert forall g | 0 <= g < |s.pg| && g != f :: s'.pg[g] == s.pg[g] && s'.ram[g] == s.ram[g];
    forall p | p != page ensures Contents(s', p) == Contents(s, p) {
      ContentsKept(s, s', p);
    }
    GoneAfterRelease(s, s', f);
  }

  lemma GoneAfterRelease(s: State, s': State, f: nat)
    requires Inv(s) && Inv(s') && f < |s.pg| && s.pg[f].pid == s.pid
    requires s'.pid == s.pid && s'.slots == s.slots && |s'.pg| == |s.pg|
    requires !s'.pg[f].valid && forall g | 0 <= g < |s.pg| && g != f :: s'.pg[g] == s.pg[g]
    ensures Contents(s', s.pg[f].page) == None
  {
    var page := s.pg[f].page;
    assert EntrySearch(s'.pg, page, s'.pid, 0) == |s'.pg|;
    var i := SlotSearch(s'.slots, page, s'.pid, 0);
    assert i < |s.slots| ==> !Resident(s, f, s.slots[i].page);
  }

  // ---------------------------------------------------------------------------------------------
  // Swapping

  /** A data page that is in no frame may be put in a free slot. */
  lemma FillSlotKeeps(s: State, s': State, i: nat, page: nat)
    requires Inv(s) && i < |s.slots| && s.slots[i].pid == 0 && s.slots[i].page == 0
    requires IsDataPage(s.asp, page) && Contents(s, page) == None
    requires s' == s.(slots := s'.slots, swapfile := s'.swapfile)
    requires |s'.slots| == |s.slots| && |s'.swapfile| == |s.swapfile|
    requires s'.slots[i].pid == s.pid && s'.slots[i].page == page
    requires forall j | 0 <= j < |s.slots| && j != i :: s'.slots[j] == s.slots[j] && s'.swapfile[j] == s.swapfile[j]
    ensures Inv(s')
    ensures Contents(s', page) == Some(s'.swapfile[i])
    ensures forall p | p != page :: Contents(s', p) == Contents(s, p)
  {
    AbsentContents(s, page);
    assert PtOk(s') by {
      forall k | 0 <= k < |s'.pg| ensures EntryOk(s', s'.pg[k]) {
        assert EntryOk(s, s.pg[k]);
      }
    }
    assert forall g, p | 0 <= g < |s.pg| :: Resident(s', g, p) <==> Resident(s, g, p);
    assert SlotsOk(s') by {
      forall j, k | 0 <= j < k < |s.slots| && s'.slots[j].pid == s.pid && s'.slots[k].pid == s.pid
        ensures s'.slots[j].page != s'.slots[k].page
      {
        assert j != i ==> !InSlot(s, j, page);
        assert k != i ==> !InSlot(s, k, page);
      }
    }
    assert TlbOk(s');
    ContentsInSlot(s', i, page);
    forall p | p != page ensures Contents(s', p) == Contents(s, p) {
      ContentsKept(s, s', p);
    }
  }

  /** Emptying a slot forgets its page and no other. */
  lemma EmptySlotKeeps(s: State, s': State, i: nat, page: nat)
    requires Inv(s) && InSlot(s, i, page) && s' == s.(slots := s.slots[i := FREE_SLOT])
    ensures Inv(s') && Contents(s', page) == None
    ensures forall p | p != page :: Contents(s', p) == Contents(s, p)
  {
    ContentsInSlot(s, i, page);
    assert IsDataPage(s.asp, s.slots[i].page);
    PageBounds(s.asp, page);
    assert PtOk(s') by {
      forall k | 0 <= k < |s'.pg| ensures EntryOk(s', s'.pg[k]) {
        assert EntryOk(s, s.pg[k]);
      }
    }
    assert forall g, p | 0 <= g < |s.pg| :: Resident(s', g, p) <==> Resident(s, g, p);
    assert SlotsOk(s');
    assert TlbOk(s');
    assert SlotSearch(s'.slots, page, s.pid, 0) == |s'.slots|;
    forall p | p != page ensures Contents(s', p) == Contents(s, p) {
      ContentsKept(s, s', p);
    }
  }

  /** What is in a kernel frame is no business of the process. */
  lemma KernelFrameContents(s: State, s': State, f: nat)
    requires Inv(s) && f < |s.pg| && s.pg[f].pid == 0
    requires s' == s.(ram := s'.ram) && |s'.ram| == |s.ram|
    requires forall g | 0 <= g < |s.ram| && g != f :: s'.ram[g] == s.ram[g]
    ensures Inv(s') && forall p :: Contents(s', p) == Contents(s, p)
  {
    assert PtOk(s') by {
      forall k | 0 <= k < |s'.pg| ensures EntryOk(s', s'.pg[k]) {
        assert EntryOk(s, s.pg[k]);
      }
    }
    assert forall g, p | 0 <= g < |s.pg| :: Resident(s', g, p) <==> Resident(s, g, p);
    forall p ensures Contents(s', p) == Contents(s, p) {
      ContentsKept(s, s', p);
    }
  }

  /** Swapping a data page out frees its frame and loses nothing: every page of the process reads as
      before. The only panic is a full swap file. */
  lemma SwapOutKeeps(s: State, f: nat)
    requires Inv(s) && f < |s.pg| && s.pg[f].pid == s.pid && IsDataPage(s.asp, s.pg[f].page)
    ensures SwapOut(s, f) == None <==> SlotSearch(s.slots, 0, 0, 0) == |s.slots|
    ensures SwapOut(s, f).Some? ==>
              var s' := SwapOut(s, f).value;
              && Inv(s') && s'.free == [f] + s.free && |s'.slots| == |s.slots|
              && s'.pid == s.pid && s'.asp == s.asp && |s'.pg| == |s.pg|
              && (forall j, p | InSlot(s, j, p) :: InSlot(s', j, p))
              && (forall p | Misses(s, p) :: Misses(s', p))
              && (forall p :: Contents(s', p) == Contents(s, p))
  {
    assert EntryOk(s, s.pg[f]);
    var page := s.pg[f].page;
    FreeUserFrame(s, f);
    ContentsResident(s, f, page);
    var i := SlotSearch(s.slots, 0, 0, 0);
    if i < |s.slots| {
      var s2 := FreeFrame(s, f).value;
      SwapOutReordered(s, f, i, s2);
      FillSlotKeeps(s2, SwapOut(s, f).value, i, page);
    }
  }

  /** Writing the page to its slot commutes with freeing the frame. */
  lemma SwapOutReordered(s: State, f: nat, i: nat, s2: State)
    requires Shaped(s) && f < |s.pg| && FreeFrame(s, f) == Some(s2)
    requires i == SlotSearch(s.slots, 0, 0, 0) < |s.slots|
    ensures SwapOut(s, f) == Some(s2.(slots := s.slots[i := Slot(s.pg[f].page, s.pg[f].pid, s.pg[f].dirty)],
                                      swapfile := s.swapfile[i := s.ram[f]]))
  {
  }

  /** Swapping a page in puts it in a frame and in the TLB, with its contents, and empties its slot. */
  lemma SwapInKeeps(s: State, i: nat, page: nat)
    requires Inv(s) && InSlot(s, i, page) && s.free != [] && Misses(s, page)
    ensures SwapIn(s, i).Some?
    ensures var s' := SwapIn(s, i).value;
            && Inv(s') && Resident(s', s.free[0], page) && !Misses(s', page)
            && (forall p :: Contents(s', p) == Contents(s, p))
  {
    var f := s.free[0];
    AllocKeeps(s);
    var s1 := AllocFrame(s).value;
    assert s1.slots == s.slots && s1.swapfile == s.swapfile && s1.tlb == s.tlb;
    assert IsDataPage(s.asp, s.slots[i].page);
    var s2 := s1.(slots := s1.slots[i := FREE_SLOT]);
    EmptySlotKeeps(s1, s2, i, page);
    var s3 := s2.(ram := s2.ram[f := s.swapfile[i]]);
    KernelFrameContents(s2, s3, f);
    AddPtKeeps(s3, f, page, s.slots[i].dirty);
    var s4 := AddPt(s3, f, page, s.pid, s.slots[i].dirty).value;
    AddTlbKeeps(s4, f, page);
    var s5 := AddTlb(s4, page, s.pid).value;
    SwapInReordered(s, i, f, s1, s4, s5);
    ContentsInSlot(s, i, page);
  }

  /** Reading the page in and emptying the slot commute with setting up page table and TLB. */
  lemma SwapInReordered(s: State, i: nat, f: nat, s1: State, s4: State, s5: State)
    requires Shaped(s) && i < |s.slots| && s.free != [] && f == s.free[0] && AllocFrame(s) == Some(s1)
    requires s4 == s1.(pg := s1.pg[f := Pte(s.slots[i].dirty, true, s.slots[i].pid, s.slots[i].page, s1.pg[f].stamp)],
                       ram := s1.ram[f := s.swapfile[i]], slots := s1.slots[i := FREE_SLOT])
    requires Shaped(s4) && AddTlb(s4, s.slots[i].page, s.slots[i].pid) == Some(s5)
    ensures SwapIn(s, i) == Some(s5)
  {
    var s2 := AddPt(s1, f, s.slots[i].page, s.slots[i].pid, s.slots[i].dirty).value;
    assert s2.pg == s4.pg && s2.tlb == s4.tlb;
    assert AddTlb(s2, s.slots[i].page, s.slots[i].pid).Some?;
  }
}
