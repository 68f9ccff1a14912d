/** The fault handler keeps the invariant and the memory of the process. */
module VmSafety {
  import opened Common
  import opened VmState
  import opened VmInvariant
  import opened VmFault

  /** Statistics are no part of the invariant. */
  lemma StatsFree(s: State, s': State)
    requires Inv(s) && s' == s.(stats := s'.stats)
    ensures Inv(s') && forall p :: Contents(s', p) == Contents(s, p)
  {
    assert PtOk(s') by {
      forall i | 0 <= i < |s'.pg| ensures EntryOk(s', s'.pg[i]) {
        assert EntryOk(s, s.pg[i]);
      }
    }
    assert forall f, p :: Resident(s', f, p) <==> Resident(s, f, p);
  }

  predicate SwapFull(s: State)
  {
    SlotSearch(s.slots, 0, 0, 0) == |s.slots|
  }

  /** The victim is a frame of the process with a data page; it is swapped out unless swap is full. */
  lemma EvictDataKeeps(s: State)
    requires Inv(s) && DataVictim(s) >= 0
    ensures EvictData(s).Some? <==> !SwapFull(s)
    ensures EvictData(s).Some? ==>
              var s' := EvictData(s).value;
              && Inv(s') && s'.free == [DataVictim(s)] + s.free && |s'.slots| == |s.slots|
              && s'.pid == s.pid && s'.asp == s.asp && |s'.pg| == |s.pg|
              && (forall j, p | InSlot(s, j, p) :: InSlot(s', j, p))
              && (forall p | Misses(s, p) :: Misses(s', p))
              && (forall p :: Contents(s', p) == Contents(s, p))
  {
    var v := DataVictim(s);
    SwapOutKeeps(s, v);
    if SwapOut(s, v).Some? {
      StatsFree(SwapOut(s, v).value, EvictData(s).value);
    }
  }

  /** A page reads as before; only a code page may be dropped, to be loaded again. */
  predicate SameOrDropped(s: State, s': State, p: nat)
    requires Shaped(s) && Shaped(s')
  {
    Contents(s', p) == Contents(s, p) || (!IsDataPage(s.asp, p) && Contents(s', p) == None)
  }

  lemma Chain(s: State, s1: State, s2: State, page: nat)
    requires Shaped(s) && Shaped(s1) && Shaped(s2) && s1.asp == s.asp
    requires forall p :: SameOrDropped(s, s1, p)
    requires forall p | p != page :: SameOrDropped(s1, s2, p)
    ensures forall p | p != page :: SameOrDropped(s, s2, p)
  {
    forall p | p != page ensures SameOrDropped(s, s2, p) {
      assert SameOrDropped(s, s1, p);
      assert SameOrDropped(s1, s2, p);
    }
  }

  lemma EvictCodeKeeps(s: State)
    requires Inv(s) && CodeVictim(s) >= 0 && DataVictim(s) >= 0
    ensures EvictCode(s).Some?
    ensures var s' := EvictCode(s).value;
            && Inv(s') && s'.free == [CodeVictim(s)] + s.free && DataVictim(s') >= 0
            && s'.pid == s.pid && s'.asp == s.asp && |s'.pg| == |s.pg|
            && (forall p | Misses(s, p) :: Misses(s', p))
            && (forall p :: SameOrDropped(s, s', p))
  {
    var v := CodeVictim(s);
    var d := DataVictim(s);
    assert EntryOk(s, s.pg[v]);
    PageBounds(s.asp, s.pg[v].page);
    FreeUserFrame(s, v);
    var s' := EvictCode(s).value;
    assert Eligible(s'.pg[d], s'.pid, s'.asp, true);
    ContentsResident(s, v, s.pg[v].page);
  }

  /** The frame obtained is fresh: the kernel's, zeroed, and not frame 0. */
  predicate Fresh(s: State, g: Got)
  {
    && g.Got? && Inv(g.s) && 0 < g.f < |g.s.pg|
    && g.s.pg[g.f].valid && g.s.pg[g.f].pid == 0 && g.s.pg[g.f].page == 0
    && g.s.ram[g.f] == ZERO_PAGE
    && g.s.pid == s.pid && g.s.asp == s.asp
  }

  lemma TakeFrameKeeps(s: State)
    requires Inv(s) && s.free != []
    ensures var g := TakeFrame(s);
            && Fresh(s, g) && g.f == s.free[0] && g.s.tlb == s.tlb && |g.s.pg| == |s.pg|
            && (forall k | 0 <= k < |s.pg| && k != g.f :: g.s.pg[k] == s.pg[k])
            && (forall p :: Contents(g.s, p) == Contents(s, p))
  {
    AllocKeeps(s);
  }

  lemma ObtainDataFrame(s: State)
    requires Inv(s) && DataVictim(s) >= 0
    ensures ObtainFrame(s, true).Got? <==> s.free != [] || !SwapFull(s)
    ensures var g := ObtainFrame(s, true);
            g.Got? ==>
              && Fresh(s, g)
              && (forall p | Misses(s, p) :: Misses(g.s, p))
              && (forall p :: Contents(g.s, p) == Contents(s, p))
  {
    if s.free != [] {
      TakeFrameKeeps(s);
    } else {
      EvictDataKeeps(s);
      if EvictData(s).Some? {
        TakeFrameKeeps(EvictData(s).value);
      }
    }
  }

  lemma ObtainCodeFrame(s: State)
    requires Inv(s) && DataVictim(s) >= 0
    ensures ObtainFrame(s, false).Got? <==> s.free != [] || CodeVictim(s) >= 0
    ensures var g := ObtainFrame(s, false);
            g.Got? ==>
              && Fresh(s, g) && DataVictim(g.s) >= 0
              && (forall p | Misses(s, p) :: Misses(g.s, p))
              && (forall p :: SameOrDropped(s, g.s, p))
  {
    if s.free != [] {
      TakeCodeFrame(s);
    } else if CodeVictim(s) >= 0 {
      EvictCodeKeeps(s);
      var s1 := EvictCode(s).value;
      TakeCodeFrame(s1);
      var g := TakeFrame(s1);
      forall p ensures SameOrDropped(s, g.s, p) {
        assert SameOrDropped(s, s1, p);
        assert SameOrDropped(s1, g.s, p);
      }
    }
  }

  lemma TakeCodeFrame(s: State)
    requires Inv(s) && s.free != [] && DataVictim(s) >= 0
    ensures var g := TakeFrame(s);
            && Fresh(s, g) && DataVictim(g.s) >= 0 && g.s.tlb == s.tlb
            && (forall p :: SameOrDropped(s, g.s, p))
  {
    TakeFrameKeeps(s);
    DataVictimKept(s, TakeFrame(s));
  }

  lemma DataVictimKept(s: State, g: Got)
    requires Inv(s) && DataVictim(s) >= 0 && g.Got? && Shaped(g.s)
    requires s.free != [] && g.f == s.free[0] && g.s.pid == s.pid && g.s.asp == s.asp && |g.s.pg| == |s.pg|
    requires forall k | 0 <= k < |s.pg| && k != g.f :: g.s.pg[k] == s.pg[k]
    ensures DataVictim(g.s) >= 0
  {
    var d := DataVictim(s);
    assert EntryOk(s, s.pg[d]);
    assert d != g.f;
    assert Eligible(g.s.pg[d], g.s.pid, g.s.asp, true);
  }

  /** Writing into the frame of a page changes that page and no other. */
  lemma FrameWrite(s: State, s': State, f: nat, page: nat)
    requires Inv(s) && Resident(s, f, page)
    requires s' == s.(ram := s'.ram) && |s'.ram| == |s.ram|
    requires forall g | 0 <= g < |s.ram| && g != f :: s'.ram[g] == s.ram[g]
    ensures Inv(s') && Resident(s', f, page) && Contents(s', page) == Some(s'.ram[f])
    ensures forall p | p != page :: Contents(s', p) == Contents(s, p)
  {
    assert PtOk(s') by {
      forall k | 0 <= k < |s'.pg| ensures EntryOk(s', s'.pg[k]) {
        assert EntryOk(s, s.pg[k]);
      }
    }
    assert forall g, p | 0 <= g < |s.pg| :: Resident(s', g, p) <==> Resident(s, g, p);
    ContentsResident(s', f, page);
    forall p | p != page ensures Contents(s', p) == Contents(s, p) {
      ContentsKept(s, s', p);
    }
  }

  /** The dirty bit of a page table entry is no part of the invariant. */
  lemma ProtectKeeps(s: State, f: nat, page: nat)
    requires Inv(s) && Resident(s, f, page)
    ensures var s' := Protect(s, page);
            && Inv(s') && Resident(s', f, page) && s' == s.(pg := s'.pg) && |s'.pg| == |s.pg|
            && (forall g | 0 <= g < |s.pg| :: s'.pg[g] == s.pg[g].(dirty := s'.pg[g].dirty))
            && (forall p :: Contents(s', p) == Contents(s, p))
  {
    var s' := Protect(s, page);
    assert PtOk(s') by {
      forall k | 0 <= k < |s'.pg| ensures EntryOk(s', s'.pg[k]) {
        assert EntryOk(s, s.pg[k]);
      }
    }
    assert forall g, p | 0 <= g < |s.pg| :: Resident(s', g, p) <==> Resident(s, g, p);
    forall p ensures Contents(s', p) == Contents(s, p) {
      ContentsKept(s, s', p);
    }
  }

  /** Same pages in the same frames, whatever the dirty bits. */
  ghost predicate SameFrames(s: State, s': State)
  {
    && s'.pid == s.pid && s'.asp == s.asp && |s'.pg| == |s.pg|
    && forall g | 0 <= g < |s.pg| :: s'.pg[g].pid == s.pg[g].pid && s'.pg[g].page == s.pg[g].page
  }

  lemma SameFramesVictim(s: State, s': State)
    requires Shaped(s) && Shaped(s') && SameFrames(s, s') && DataVictim(s) >= 0
    ensures DataVictim(s') >= 0
  {
    var d := DataVictim(s);
    assert Eligible(s'.pg[d], s'.pid, s'.asp, true);
  }

  lemma ReloadKeeps(s: State, f: nat, page: nat)
    requires Inv(s) && Resident(s, f, page) && Misses(s, page)
    ensures Reload(s, page).Some?
    ensures var s' := Reload(s, page).value;
            && Inv(s') && SameFrames(s, s') && Resident(s', f, page) && !Misses(s', page)
            && (forall p :: Contents(s', p) == Contents(s, p))
  {
    AddTlbKeeps(s, f, page);
    StatsFree(AddTlb(s, page, s.pid).value, Reload(s, page).value);
  }

  /** Before loading, the nested fault on the page being loaded is an ordinary reload. */
  lemma NestedKeeps(s: State, f: nat, page: nat, nested: bool)
    requires Inv(s) && Resident(s, f, page) && Misses(s, page)
    ensures var r := if nested then Reload(CountFault(s), page) else Some(s);
            && r.Some? && Inv(r.value) && SameFrames(s, r.value) && Resident(r.value, f, page)
            && (forall p :: Contents(r.value, p) == Contents(s, p))
  {
    if nested {
      StatsFree(s, CountFault(s));
      ReloadKeeps(CountFault(s), f, page);
    }
  }

  lemma RetranslateKeeps(s: State, f: nat, page: nat, code: bool)
    requires Inv(s) && Resident(s, f, page)
    ensures var r := Retranslate(s, page, code);
            && r.Some? && Inv(r.value) && SameFrames(s, r.value) && Resident(r.value, f, page) && !Misses(r.value, page)
            && (forall p :: Contents(r.value, p) == Contents(s, p))
  {
    assert EntryOk(s, s.pg[f]);
    RemoveTlbKeeps(s, page);
    var s1 := RemoveTlb(s, page);
    if code {
      ProtectKeeps(s1, f, page);
      assert Misses(Protect(s1, page), page);
    }
    AddTlbKeeps(if code then Protect(s1, page) else s1, f, page);
  }

  lemma LoadPageKeeps(s: State, f: nat, page: nat, code: bool, load: Load)
    requires Inv(s) && Resident(s, f, page) && Misses(s, page)
    ensures LoadPage(s, f, page, code, load).Some?
    ensures var s' := LoadPage(s, f, page, code, load).value;
            && Inv(s') && SameFrames(s, s') && Resident(s', f, page)
            && Contents(s', page) == (if load.Copied? then Some(load.contents) else Contents(s, page))
            && (load.Copied? ==> !Misses(s', page))
            && (forall p | p != page :: Contents(s', p) == Contents(s, p))
  {
    if load.Copied? {
      NestedKeeps(s, f, page, load.nested);
      var s1 := (if load.nested then Reload(CountFault(s), page) else Some(s)).value;
      var s2 := s1.(ram := s1.ram[f := load.contents]);
      FrameWrite(s1, s2, f, page);
      RetranslateKeeps(s2, f, page, code);
    }
  }

  // ---------------------------------------------------------------------------------------------
  // The paths of the fault handler

  /** The new state is good, the data pages read as before, and at most `page` is new. */
  ghost predicate Good(s: State, s': State, page: nat)
    requires Shaped(s)
  {
    && Inv(s') && s'.pid == s.pid && s'.asp == s.asp && DataVictim(s') >= 0
    && (forall p | p != page :: SameOrDropped(s, s', p))
    && (IsDataPage(s.asp, page) && Contents(s, page).Some? ==> Contents(s', page) == Contents(s, page))
  }

  ghost predicate GoodOutcome(s: State, r: Outcome, page: nat)
    requires Shaped(s)
  {
    match r
    case Serviced(s') => Good(s, s', page) && EntrySearch(s'.pg, page, s'.pid, 0) < |s'.pg|
    case Failed(s') => Good(s, s', page)
    case Exited(s') => s' == s
    case Panic => true
  }

  function InitialContents(load: Load): Page
  {
    if load.Copied? then load.contents else ZERO_PAGE
  }

  /** A frame is found unless memory is full and there is nothing to evict, or nowhere to put it. */
  predicate FrameAvailable(s: State, data: bool)
    requires Shaped(s)
  {
    s.free != [] || if data then !SwapFull(s) else CodeVictim(s) >= 0
  }

  /** Mapping the page to a fresh frame and loading it cannot panic. */
  lemma PlaceKeeps(s: State, f: nat, page: nat, code: bool, load: Load)
    requires Inv(s) && Misses(s, page) && Contents(s, page) == None
    requires 0 < f < |s.pg| && s.pg[f].valid && s.pg[f].pid == 0 && s.pg[f].page == 0 && s.ram[f] == ZERO_PAGE
    requires if code then IsCodePage(s.asp, page) && DataVictim(s) >= 0 else IsDataPage(s.asp, page)
    ensures var r := Place(s, f, page, code, load);
            && GoodOutcome(s, r, page) && (r.Serviced? || r.Failed?)
            && (r.Failed? <==> load.NotRead? || (load.Copied? && load.short))
            && Contents(r.s, page) == Some(InitialContents(load))
            && (load.Copied? ==> !Misses(r.s, page))
  {
    AddPtKeeps(s, f, page, true);
    var s1 := AddPt(s, f, page, s.pid, true).value;
    ContentsResident(s1, f, page);
    LoadPageKeeps(s1, f, page, code, load);
    var s2 := LoadPage(s1, f, page, code, load).value;
    PlaceVictim(s, f, page, code, s1, s2);
    StatsFree(s2, CountElf(s2));
  }

  lemma PlaceVictim(s: State, f: nat, page: nat, code: bool, s1: State, s2: State)
    requires Inv(s) && f < |s.pg| && s.pg[f].pid == 0
    requires AddPt(s, f, page, s.pid, true) == Some(s1) && Shaped(s2) && SameFrames(s1, s2)
    requires if code then DataVictim(s) >= 0 else IsDataPage(s.asp, page)
    ensures DataVictim(s2) >= 0
  {
    var d := if code then DataVictim(s) else f;
    assert Eligible(s2.pg[d], s2.pid, s2.asp, true);
  }

  lemma ObtainKeeps(s: State, data: bool, page: nat)
    requires Inv(s) && DataVictim(s) >= 0 && Misses(s, page) && Contents(s, page) == None
    ensures ObtainFrame(s, data).Got? <==> FrameAvailable(s, data)
    ensures var g := ObtainFrame(s, data);
            g.Got? ==>
              && Fresh(s, g) && (!data ==> DataVictim(g.s) >= 0)
              && Misses(g.s, page) && Contents(g.s, page) == None && forall p :: SameOrDropped(s, g.s, p)
  {
    if data {
      ObtainDataFrame(s);
    } else {
      ObtainCodeFrame(s);
    }
    var g := ObtainFrame(s, data);
    assert g.Got? ==> SameOrDropped(s, g.s, page);
  }

  lemma FirstLoadKeeps(s: State, page: nat, code: bool, load: Load)
    requires Inv(s) && DataVictim(s) >= 0 && Misses(s, page) && Contents(s, page) == None
    requires if code then IsCodePage(s.asp, page) else IsDataPage(s.asp, page)
    ensures var r := FirstLoad(s, page, code, load);
            && GoodOutcome(s, r, page) && !r.Exited?
            && (r.Panic? <==> !FrameAvailable(s, !code))
            && (r.Failed? <==> !r.Panic? && (load.NotRead? || (load.Copied? && load.short)))
            && (!r.Panic? ==> Contents(r.s, page) == Some(InitialContents(load)))
            && (load.Copied? && !r.Panic? ==> !Misses(r.s, page))
  {
    var g := ObtainFrame(s, !code);
    ObtainKeeps(s, !code, page);
    if g.Got? {
      PlaceKeeps(g.s, g.f, page, code, load);
      FirstLoadCombined(s, g, Place(g.s, g.f, page, code, load), page);
    }
  }

  lemma FirstLoadCombined(s: State, g: Got, r: Outcome, page: nat)
    requires Shaped(s) && Fresh(s, g) && Contents(s, page) == None
    requires r.Serviced? || r.Failed?
    requires GoodOutcome(g.s, r, page)
    requires forall p :: SameOrDropped(s, g.s, p)
    ensures GoodOutcome(s, r, page)
  {
    Chain(s, g.s, r.s, page);
  }

  lemma FetchKeeps(s: State, i: nat, page: nat)
    requires Inv(s) && Misses(s, page) && InSlot(s, i, page) && s.free != []
    ensures var r := Fetch(s, i);
            && GoodOutcome(s, r, page) && r.Serviced? && !Misses(r.s, page)
            && Contents(r.s, page) == Contents(s, page)
  {
    SwapInKeeps(s, i, page);
    var s1 := SwapIn(s, i).value;
    StatsFree(s1, CountSwapIn(s1));
    var f := s.free[0];
    assert IsDataPage(s.asp, s.slots[i].page);
    assert Eligible(s1.pg[f], s1.pid, s1.asp, true);
    assert Resident(s1, f, page);
  }

  lemma BringInKeeps(s: State, i: nat, page: nat)
    requires Inv(s) && DataVictim(s) >= 0 && Misses(s, page) && InSlot(s, i, page)
    ensures var r := BringIn(s, i);
            && GoodOutcome(s, r, page) && (r.Serviced? || r.Panic?)
            && (r.Panic? <==> SwapFull(s))
            && (r.Serviced? ==> !Misses(r.s, page) && Contents(r.s, page) == Contents(s, page))
  {
    EvictDataKeeps(s);
    if EvictData(s).Some? {
      var s1 := EvictData(s).value;
      FetchKeeps(s1, i, page);
      BringInCombined(s, s1, Fetch(s1, i), page);
    }
  }

  lemma BringInCombined(s: State, s1: State, r: Outcome, page: nat)
    requires Shaped(s) && Shaped(s1) && s1.pid == s.pid && s1.asp == s.asp
    requires forall p :: Contents(s1, p) == Contents(s, p)
    requires r.Serviced? && GoodOutcome(s1, r, page) && Contents(r.s, page) == Contents(s1, page)
    ensures GoodOutcome(s, r, page) && Contents(r.s, page) == Contents(s, page)
  {
    Chain(s, s1, r.s, page);
  }

  lemma DataFaultKeeps(s: State, page: nat, load: Load)
    requires Inv(s) && DataVictim(s) >= 0 && Misses(s, page) && IsDataPage(s.asp, page)
    requires forall f | 0 <= f < |s.pg| :: !Resident(s, f, page)
    ensures var r := DataFault(s, page, load);
            && GoodOutcome(s, r, page) && !r.Exited?
            && (r.Panic? <==> if Contents(s, page).Some? then SwapFull(s) else !FrameAvailable(s, true))
            && (r.Failed? <==>
                  Contents(s, page) == None && !r.Panic? && (load.NotRead? || (load.Copied? && load.short)))
            && (!r.Panic? && Contents(s, page) == None ==> Contents(r.s, page) == Some(InitialContents(load)))
            && (!r.Panic? && Contents(s, page).Some? ==> Contents(r.s, page) == Contents(s, page))
            && ((load.Copied? || Contents(s, page).Some?) && !r.Panic? ==> !Misses(r.s, page))
  {
    var i := SlotSearch(s.slots, page, s.pid, 0);
    var f := EntrySearch(s.pg, page, s.pid, 0);
    assert f < |s.pg| ==> Resident(s, f, page);
    if i == |s.slots| {
      FirstLoadKeeps(s, page, false, load);
    } else {
      BringInKeeps(s, i, page);
    }
  }

  predicate IsResident(s: State, page: nat)
  {
    exists f :: 0 <= f < |s.pg| && Resident(s, f, page)
  }

  lemma ReloadFaultKeeps(s: State, page: nat)
    requires Inv(s) && DataVictim(s) >= 0 && Misses(s, page) && IsResident(s, page)
    ensures var r := ReloadFault(s, page);
            r.Serviced? && GoodOutcome(s, r, page) && !Misses(r.s, page) && Contents(r.s, page) == Contents(s, page)
  {
    var f :| 0 <= f < |s.pg| && Resident(s, f, page);
    ReloadKeeps(s, f, page);
    SameFramesVictim(s, Reload(s, page).value);
  }

  /** pageSearch looks for the page number alone; it finds the frame of the process, or, for
      page 0, a frame of the kernel. */
  lemma PageSearchMeaning(s: State, page: nat)
    requires Inv(s)
    ensures var r := PageSearch(s.pg, page, 0);
            && (page > 0 ==> (r < |s.pg| <==> IsResident(s, page)))
            && (page == 0 ==> r == 0 && !IsResident(s, page))
            && (r < |s.pg| && page > 0 ==> r > 0)
  {
    var r := PageSearch(s.pg, page, 0);
    if r < |s.pg| {
      assert EntryOk(s, s.pg[r]);
      assert page > 0 ==> Resident(s, r, page);
    }
    forall f | 0 <= f < |s.pg| && Resident(s, f, page) ensures page > 0 && r < |s.pg| {
      assert EntryOk(s, s.pg[f]);
      PageBounds(s.asp, page);
    }
    assert EntryOk(s, s.pg[0]);
  }

  /** An address of a segment lies on a page of it. */
  lemma SegmentOfPage(a: AddrSpace, vaddr: nat)
    requires AddrSpaceOk(a)
    ensures IsCode(a, vaddr) ==> IsCodePage(a, PageOf(vaddr))
    ensures IsData(a, vaddr) ==> IsDataPage(a, PageOf(vaddr))
    ensures IsCode(a, vaddr) || IsData(a, vaddr) ==> PageOf(vaddr) > 0
    ensures !(IsCode(a, vaddr) && IsData(a, vaddr))
  {
    assert vaddr == PageOf(vaddr) * PAGE_SIZE + vaddr % PAGE_SIZE;
  }

  lemma NotResidentContents(s: State, page: nat)
    requires Inv(s) && !IsResident(s, page)
    ensures Contents(s, page) == None || exists i :: InSlot(s, i, page)
    ensures !IsDataPage(s.asp, page) ==> Contents(s, page) == None
  {
    var f := EntrySearch(s.pg, page, s.pid, 0);
    assert f < |s.pg| ==> Resident(s, f, page);
    var i := SlotSearch(s.slots, page, s.pid, 0);
    assert i < |s.slots| ==> InSlot(s, i, page);
  }

  /** Exactly when the handler panics. */
  predicate FaultPanics(s: State, kind: FaultType, vaddr: nat)
    requires Shaped(s)
  {
    var page := PageOf(vaddr);
    && !kind.ReadOnly?
    && if page == 0 then kind.Write?
       else
         && !IsResident(s, page)
         && if IsCode(s.asp, vaddr) then kind.Write? || !FrameAvailable(s, false)
            else IsData(s.asp, vaddr) && if Contents(s, page).Some? then SwapFull(s) else !FrameAvailable(s, true)
  }

  predicate FaultFails(s: State, kind: FaultType, vaddr: nat, load: Load)
    requires Shaped(s)
  {
    var page := PageOf(vaddr);
    && !kind.ReadOnly? && !FaultPanics(s, kind, vaddr) && !IsResident(s, page)
    && ((!IsCode(s.asp, vaddr) && !IsData(s.asp, vaddr))
        || (Contents(s, page) == None && (load.NotRead? || (load.Copied? && load.short))))
  }

  /** The page's contents after the fault: as before, or freshly loaded, or still none. */
  function ContentsAfter(s: State, vaddr: nat, load: Load): Option<Page>
    requires Shaped(s)
  {
    var page := PageOf(vaddr);
    if Contents(s, page).Some? then Contents(s, page)
    else if IsCode(s.asp, vaddr) || IsData(s.asp, vaddr) then Some(InitialContents(load))
    else None
  }

  /** What a fault on the page does to the state. */
  ghost predicate FaultContract(s: State, kind: FaultType, vaddr: nat, load: Load, r: Outcome)
    requires Shaped(s)
  {
    var page := PageOf(vaddr);
    && GoodOutcome(s, r, page)
    && (r.Exited? <==> kind.ReadOnly?)
    && (r.Panic? <==> FaultPanics(s, kind, vaddr))
    && (r.Failed? <==> FaultFails(s, kind, vaddr, load))
    && (r.Serviced? || r.Failed? ==> Contents(r.s, page) == ContentsAfter(s, vaddr, load))
    && (r.Serviced? && Misses(r.s, page) ==> load.Bss? && Contents(s, page) == None)
  }

  /** The fault handler, on every address, kind of fault and load result. */
  lemma FaultKeeps(s: State, kind: FaultType, vaddr: nat, load: Load)
    requires Inv(s) && DataVictim(s) >= 0
    requires !kind.ReadOnly? ==> Misses(s, PageOf(vaddr))
    ensures FaultContract(s, kind, vaddr, load, Fault(s, kind, vaddr, load))
  {
    if !kind.ReadOnly? {
      var s1 := CountFault(s);
      StatsFree(s, s1);
      SegmentOfPage(s.asp, vaddr);
      ServiceKeeps(s1, kind, vaddr, load);
      SameView(s, s1, kind, vaddr, load, Fault(s, kind, vaddr, load));
    }
  }

  lemma SameFaults(s: State, s1: State, kind: FaultType, vaddr: nat, load: Load)
    requires Shaped(s) && s1 == s.(stats := s1.stats)
    ensures FaultPanics(s1, kind, vaddr) == FaultPanics(s, kind, vaddr)
    ensures FaultFails(s1, kind, vaddr, load) == FaultFails(s, kind, vaddr, load)
    ensures ContentsAfter(s1, vaddr, load) == ContentsAfter(s, vaddr, load)
  {
    assert forall f, p :: Resident(s1, f, p) <==> Resident(s, f, p);
    assert IsResident(s1, PageOf(vaddr)) <==> IsResident(s, PageOf(vaddr));
  }

  lemma SameGood(s: State, s1: State, r: Outcome, page: nat)
    requires Shaped(s) && s1 == s.(stats := s1.stats) && forall p :: Contents(s1, p) == Contents(s, p)
    requires GoodOutcome(s1, r, page) && !r.Exited?
    ensures GoodOutcome(s, r, page)
  {
    if r.Serviced? || r.Failed? {
      Chain(s, s1, r.s, page);
    }
  }

  lemma SameView(s: State, s1: State, kind: FaultType, vaddr: nat, load: Load, r: Outcome)
    requires Inv(s) && Inv(s1) && s1 == s.(stats := s1.stats)
    requires forall p :: Contents(s1, p) == Contents(s, p)
    requires FaultContract(s1, kind, vaddr, load, r) && !kind.ReadOnly?
    ensures FaultContract(s, kind, vaddr, load, r)
  {
    SameFaults(s, s1, kind, vaddr, load);
    SameGood(s, s1, r, PageOf(vaddr));
  }

  lemma ServiceKeeps(s: State, kind: FaultType, vaddr: nat, load: Load)
    requires Inv(s) && DataVictim(s) >= 0 && !kind.ReadOnly? && Misses(s, PageOf(vaddr))
    ensures FaultContract(s, kind, vaddr, load, Service(s, kind, vaddr, load))
  {
    var page := PageOf(vaddr);
    if page == 0 {
      ZeroPageFault(s, kind, vaddr, load);
    } else if IsResident(s, page) {
      ServiceResident(s, kind, vaddr, load);
    } else {
      PageSearchMeaning(s, page);
      SegmentOfPage(s.asp, vaddr);
      NotResidentContents(s, page);
      if IsCode(s.asp, vaddr) {
        ServiceCode(s, kind, vaddr, load);
      } else if IsData(s.asp, vaddr) {
        ServiceData(s, kind, vaddr, load);
      } else {
        ServiceElsewhere(s, kind, vaddr, load);
      }
    }
  }

  lemma ServiceResident(s: State, kind: FaultType, vaddr: nat, load: Load)
    requires Inv(s) && DataVictim(s) >= 0 && !kind.ReadOnly? && Misses(s, PageOf(vaddr))
    requires PageOf(vaddr) > 0 && IsResident(s, PageOf(vaddr))
    ensures FaultContract(s, kind, vaddr, load, Service(s, kind, vaddr, load))
  {
    var page := PageOf(vaddr);
    PageSearchMeaning(s, page);
    var f :| 0 <= f < |s.pg| && Resident(s, f, page);
    ContentsResident(s, f, page);
    ReloadFaultKeeps(s, page);
  }

  lemma ServiceCode(s: State, kind: FaultType, vaddr: nat, load: Load)
    requires Inv(s) && DataVictim(s) >= 0 && !kind.ReadOnly? && Misses(s, PageOf(vaddr))
    requires PageOf(vaddr) > 0 && !IsResident(s, PageOf(vaddr)) && Contents(s, PageOf(vaddr)) == None
    requires PageSearch(s.pg, PageOf(vaddr), 0) == |s.pg|
    requires IsCode(s.asp, vaddr) && IsCodePage(s.asp, PageOf(vaddr))
    ensures FaultContract(s, kind, vaddr, load, Service(s, kind, vaddr, load))
  {
    if kind.Read? {
      FirstLoadKeeps(s, PageOf(vaddr), true, load);
    }
  }

  lemma ServiceData(s: State, kind: FaultType, vaddr: nat, load: Load)
    requires Inv(s) && DataVictim(s) >= 0 && !kind.ReadOnly? && Misses(s, PageOf(vaddr))
    requires PageOf(vaddr) > 0 && !IsResident(s, PageOf(vaddr))
    requires PageSearch(s.pg, PageOf(vaddr), 0) == |s.pg|
    requires IsData(s.asp, vaddr) && IsDataPage(s.asp, PageOf(vaddr)) && !IsCode(s.asp, vaddr)
    ensures FaultContract(s, kind, vaddr, load, Service(s, kind, vaddr, load))
  {
    DataFaultKeeps(s, PageOf(vaddr), load);
  }

  /** An address outside both segments can lie on the last data page, and its page may be swapped
      out; the fault fails all the same. */
  lemma ServiceElsewhere(s: State, kind: FaultType, vaddr: nat, load: Load)
    requires Inv(s) && DataVictim(s) >= 0 && !kind.ReadOnly?
    requires PageOf(vaddr) > 0 && !IsResident(s, PageOf(vaddr))
    requires PageSearch(s.pg, PageOf(vaddr), 0) == |s.pg|
    requires !IsCode(s.asp, vaddr) && !IsData(s.asp, vaddr)
    ensures FaultContract(s, kind, vaddr, load, Service(s, kind, vaddr, load))
  {
    assert Service(s, kind, vaddr, load) == Failed(s);
  }

  /** Page 0 belongs to no segment: a read fault on it fails, a write fault on it panics. */
  lemma ZeroPageFault(s: State, kind: FaultType, vaddr: nat, load: Load)
    requires Inv(s) && DataVictim(s) >= 0 && !kind.ReadOnly? && PageOf(vaddr) == 0
    ensures Service(s, kind, vaddr, load) == if kind.Read? then Failed(s) else Panic
    ensures !IsResident(s, 0)
  {
    PageSearchMeaning(s, 0);
    SegmentOfPage(s.asp, vaddr);
    var f := EntrySearch(s.pg, 0, s.pid, 0);
    assert f < |s.pg| ==> Resident(s, f, 0);
  }
}
