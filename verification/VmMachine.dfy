/** The memory system as the kernel keeps it: tables updated in place. Each method is proved
    against the function of the same step on values; a panic shows in the result. */
module VmMachine {
  import opened Common
  import opened VmState
  import opened VmFault
  import opened VmLoad

  datatype Result = Done | Error | Exit | Panicked

  class Memory {
    const pg: array<Pte>
    const ram: array<Page>
    const slots: array<Slot>
    const swapfile: array<Page>
    const tlb: array<TlbEntry>
    var free: seq<nat>
    var freeTlb: int
    var nextVictim: nat
    var counter: nat
    var pid: nat
    var asp: AddrSpace
    var stats: Stats

    ghost function Abs(): State
      reads this, pg, ram, slots, swapfile, tlb
    {
      State(pg[..], ram[..], free, slots[..], swapfile[..], tlb[..], freeTlb, nextVictim, counter, pid, asp, stats)
    }

    ghost predicate Valid()
      reads this, pg, ram, slots, swapfile, tlb
    {
      Shaped(Abs()) && ram != swapfile
    }

    /** The outcome of a method and the state it left, as the specification has it. */
    ghost predicate Matches(ok: bool, r: Option<State>)
      reads this, pg, ram, slots, swapfile, tlb
    {
      (ok <==> r.Some?) && (ok ==> Abs() == r.value)
    }

    method FindPage(page: nat) returns (r: int)
      requires Valid()
      ensures var i := PageSearch(pg[..], page, 0); r == if i < pg.Length then i else -1
    {
      for i := 0 to pg.Length
        invariant PageSearch(pg[..], page, 0) == PageSearch(pg[..], page, i)
      {
        if pg[i].valid && pg[i].page == page {
          return i;
        }
      }
      return -1;
    }

    method FindSlot(page: nat, owner: nat) returns (r: int)
      requires Valid()
      ensures var i := SlotSearch(slots[..], page, owner, 0); r == if i < slots.Length then i else -1
    {
      for i := 0 to slots.Length
        invariant SlotSearch(slots[..], page, owner, 0) == SlotSearch(slots[..], page, owner, i)
      {
        if slots[i].page == page && slots[i].pid == owner {
          return i;
        }
      }
      return -1;
    }

    /** The victim: one pass that keeps the least stamp seen so far. */
    method FindVictim(data: bool) returns (victim: int)
      requires Valid()
      ensures victim == VictimSearch(pg[..], pid, asp, data, pg.Length)
    {
      victim := -1;
      var first := true;
      var least := 0;
      for i := 0 to pg.Length
        invariant -1 <= victim < i
        invariant victim == VictimSearch(pg[..], pid, asp, data, i)
        invariant first <==> victim < 0
        invariant !first ==> least == pg[victim].stamp
      {
        if pg[i].pid == pid {
          if if data then IsData(asp, pg[i].page * PAGE_SIZE) else IsCode(asp, pg[i].page * PAGE_SIZE) {
            if first {
              least := pg[i].stamp;
              victim := i;
              first := false;
            } else if least > pg[i].stamp {
              least := pg[i].stamp;
              victim := i;
            }
          }
        }
      }
    }

    method TlbProbe(vpage: nat) returns (r: int)
      requires Valid()
      ensures var i := Probe(tlb[..], vpage, 0); r == if i < tlb.Length then i else -1
    {
      for i := 0 to tlb.Length
        invariant Probe(tlb[..], vpage, 0) == Probe(tlb[..], vpage, i)
      {
        if tlb[i].vpage == vpage {
          return i;
        }
      }
      return -1;
    }

    method AddPageTable(f: nat, page: nat, owner: nat, dirty: bool) returns (ok: bool)
      requires Valid() && f < pg.Length
      modifies pg
      ensures Valid() && Matches(ok, AddPt(old(Abs()), f, page, owner, dirty))
    {
      if pg[f].valid && !(pg[f].page == 0 && pg[f].pid == 0) {
        return false;
      }
      pg[f] := Pte(dirty, true, owner, page, pg[f].stamp);
      ok := true;
    }

    /** The scan for the frame of the page, at the start of addTLB. */
    method FindEntry(page: nat, owner: nat) returns (r: nat)
      requires Valid()
      ensures r == EntrySearch(pg[..], page, owner, 0)
    {
      for i := 0 to pg.Length
        invariant EntrySearch(pg[..], page, owner, 0) == EntrySearch(pg[..], page, owner, i)
      {
        if pg[i].valid {
          if pg[i].page == page && pg[i].pid == owner {
            return i;
          }
        }
      }
      return pg.Length;
    }

    method AddTranslation(page: nat, owner: nat) returns (ok: bool)
      requires Valid()
      modifies this`freeTlb, this`nextVictim, tlb
      ensures Valid() && Matches(ok, AddTlb(old(Abs()), page, owner))
    {
      var f := FindEntry(page, owner);
      if f == pg.Length {
        return false;
      }
      var probe := TlbProbe(page);
      if probe > 0 {
        return false;
      }
      var entry := TlbEntry(page, f, true, pg[f].dirty);
      for i := 0 to tlb.Length
        invariant UnusedEntry(tlb[..], 0) == UnusedEntry(tlb[..], i)
        invariant Abs() == old(Abs()) && Valid()
      {
        if !tlb[i].valid {
          tlb[i] := entry;
          freeTlb := freeTlb - 1;
          return true;
        }
      }
      tlb[nextVictim] := entry.(dirty := true);
      nextVictim := (nextVictim + 1) % NUM_TLB;
      ok := true;
    }

    method RemoveTranslation(page: nat)
      requires Valid()
      modifies this`freeTlb, tlb
      ensures Valid() && Abs() == RemoveTlb(old(Abs()), page)
    {
      var i := TlbProbe(page);
      if i < 0 {
        return;
      }
      tlb[i] := InvalidEntry(i);
      freeTlb := freeTlb + 1;
    }

    method Invalidate()
      requires Valid()
      modifies this`freeTlb, tlb
      ensures Valid() && Abs() == InvalidateTlb(old(Abs()))
    {
      for i := 0 to tlb.Length
        invariant forall j | 0 <= j < i :: tlb[j] == InvalidEntry(j)
        invariant freeTlb == old(freeTlb)
      {
        tlb[i] := InvalidEntry(i);
      }
      freeTlb := NUM_TLB;
      assert tlb[..] == AllInvalid(NUM_TLB);
    }

    /** check_free_frame for one page. */
    method CheckFreeFrame() returns (n: nat)
      requires Valid()
      ensures n == if free == [] then 0 else 1
    {
      n := if free == [] then 0 else 1;
    }

    /** alloc_kpages(1): frame -1 when there is none. */
    method AllocKpage() returns (ok: bool, f: int)
      requires Valid()
      modifies this`free, this`counter, pg, ram
      ensures Valid()
      ensures old(free) == [] ==> ok && f == -1 && Abs() == old(Abs())
      ensures old(free) != [] ==> Matches(ok, AllocFrame(old(Abs()))) && (ok ==> f == old(free)[0])
    {
      var n := CheckFreeFrame();
      if n == 0 {
        return true, -1;
      }
      f := free[0];
      if pg[f].valid {
        return false, f;
      }
      if f == 0 {
        return false, f;
      }
      counter := counter + 1;
      pg[f] := Pte(pg[f].dirty, true, 0, 0, counter % STAMP_LIMIT);
      free := free[1..];
      ram[f] := ZERO_PAGE;
      ok := true;
    }

    /** free_kpages; the frame goes to the top of the list. */
    method FreeKpage(f: nat) returns (ok: bool)
      requires Valid() && f < pg.Length
      modifies this`free, this`freeTlb, pg, ram, tlb
      ensures Valid() && Matches(ok, FreeFrame(old(Abs()), f))
    {
      if !pg[f].valid {
        return false;
      }
      if pg[f].pid != 0 {
        RemoveTranslation(pg[f].page);
      }
      pg[f] := pg[f].(valid := false, pid := 0, page := 0);
      ram[f] := ZERO_PAGE;
      free := [f] + free;
      ok := true;
    }

    method SwapPageOut(f: nat) returns (ok: bool)
      requires Valid() && f < pg.Length
      modifies this`free, this`freeTlb, pg, ram, tlb, slots, swapfile
      ensures Valid() && Matches(ok, SwapOut(old(Abs()), f))
    {
      var i := FindSlot(0, 0);
      if i < 0 {
        return false;
      }
      swapfile[i] := ram[f];
      slots[i] := Slot(pg[f].page, pg[f].pid, pg[f].dirty);
      ok := FreeKpage(f);
    }

    method SwapPageIn(i: nat) returns (ok: bool)
      requires Valid() && i < slots.Length
      modifies this, pg, ram, tlb, slots
      ensures Valid() && Matches(ok, SwapIn(old(Abs()), i))
    {
      var f;
      ok, f := AllocKpage();
      if !ok || f < 0 {
        return false;
      }
      var page, owner, dirty := slots[i].page, slots[i].pid, slots[i].dirty;
      ok := AddPageTable(f, page, owner, dirty);
      if !ok {
        return;
      }
      ok := AddTranslation(page, owner);
      if !ok {
        return;
      }
      ram[f] := swapfile[i];
      slots[i] := FREE_SLOT;
    }

    /** Make room: the oldest data page to the swap file, or the oldest code page dropped. */
    method Evict(data: bool) returns (ok: bool)
      requires Valid()
      modifies this`free, this`freeTlb, this`stats, pg, ram, tlb, slots, swapfile
      ensures Valid() && Matches(ok, if data then EvictData(old(Abs())) else EvictCode(old(Abs())))
    {
      var v := FindVictim(data);
      if v < 0 {
        return false;
      }
      if data {
        ok := SwapPageOut(v);
        stats := stats.(swapWrites := stats.swapWrites + 1);
      } else {
        ok := FreeKpage(v);
      }
    }

    method Obtain(data: bool) returns (ok: bool, f: int)
      requires Valid()
      modifies this, pg, ram, tlb, slots, swapfile
      ensures Valid()
      ensures var g := ObtainFrame(old(Abs()), data);
              (ok <==> g.Got?) && (ok ==> 0 <= f < pg.Length && g == Got(Abs(), f))
    {
      ok, f := AllocKpage();
      if ok && f < 0 {
        ok := Evict(data);
        if ok {
          ok, f := AllocKpage();
          ok := ok && f >= 0;
        }
      }
    }

    method ReloadPage(page: nat) returns (ok: bool)
      requires Valid()
      modifies this`freeTlb, this`nextVictim, this`stats, tlb
      ensures Valid() && Matches(ok, Reload(old(Abs()), page))
    {
      ok := AddTranslation(page, pid);
      if ok {
        stats := stats.(reloads := stats.reloads + 1);
      }
    }

    method CountOneFault()
      requires Valid()
      modifies this`stats
      ensures Valid() && Abs() == CountFault(old(Abs()))
    {
      stats := stats.(faults := stats.faults + 1);
      if freeTlb > 0 {
        stats := stats.(withFree := stats.withFree + 1);
      } else {
        stats := stats.(withReplace := stats.withReplace + 1);
      }
    }

    method NewTranslation(page: nat, code: bool) returns (ok: bool)
      requires Valid()
      modifies this`freeTlb, this`nextVictim, tlb, pg
      ensures Valid() && Matches(ok, Retranslate(old(Abs()), page, code))
    {
      RemoveTranslation(page);
      if code {
        var i := FindPage(page);
        if i >= 0 {
          pg[i] := pg[i].(dirty := false);
        }
      }
      ok := AddTranslation(page, pid);
    }

    /** load_segment for one page: the copy may fault on the page itself. */
    method LoadSegment(f: nat, page: nat, code: bool, load: Load) returns (ok: bool)
      requires Valid() && f < pg.Length
      modifies this`freeTlb, this`nextVictim, this`stats, tlb, ram, pg
      ensures Valid() && Matches(ok, LoadPage(old(Abs()), f, page, code, load))
    {
      if !load.Copied? {
        return true;
      }
      if load.nested {
        CountOneFault();
        ok := ReloadPage(page);
        if !ok {
          return;
        }
      }
      ram[f] := load.contents;
      ok := NewTranslation(page, code);
    }

    /** The result of a fault and the state it left. */
    ghost predicate Ends(r: Result, o: Outcome)
      reads this, pg, ram, slots, swapfile, tlb
    {
      match o
      case Serviced(s) => r == Done && Abs() == s
      case Failed(s) => r == Error && Abs() == s
      case Exited(s) => r == Exit && Abs() == s
      case Panic => r == Panicked
    }

    method PlacePage(f: nat, page: nat, code: bool, load: Load) returns (r: Result)
      requires Valid() && f < pg.Length
      modifies this, pg, ram, tlb
      ensures Valid() && Ends(r, Place(old(Abs()), f, page, code, load))
    {
      var ok := AddPageTable(f, page, pid, true);
      if !ok {
        return Panicked;
      }
      ghost var s1 := Abs();
      ok := LoadSegment(f, page, code, load);
      PlaceIs(old(Abs()), f, page, code, load, s1);
      if !ok {
        return Panicked;
      }
      r := CountLoad(load);
    }

    static lemma PlaceIs(s: State, f: nat, page: nat, code: bool, load: Load, s1: State)
      requires Shaped(s) && f < |s.pg| && AddPt(s, f, page, s.pid, true) == Some(s1)
      ensures var r := LoadPage(s1, f, page, code, load);
              Place(s, f, page, code, load)
              == if r.None? then Panic
                 else if load.NotRead? || (load.Copied? && load.short) then Failed(r.value)
                 else Serviced(CountElf(r.value))
    {
    }

    /** A page that was loaded is counted; one that was not, or not wholly, is an error. */
    method CountLoad(load: Load) returns (r: Result)
      requires Valid()
      modifies this`stats
      ensures Valid() && if load.NotRead? || (load.Copied? && load.short) then r == Error && Abs() == old(Abs())
                         else r == Done && var st := old(stats);
                              Abs() == old(Abs()).(stats := st.(elf := st.elf + 1, disk := st.disk + 1))
    {
      if load.NotRead? || (load.Copied? && load.short) {
        return Error;
      }
      stats := stats.(elf := stats.elf + 1, disk := stats.disk + 1);
      r := Done;
    }

    method LoadFirst(page: nat, code: bool, load: Load) returns (r: Result)
      requires Valid()
      modifies this, pg, ram, tlb, slots, swapfile
      ensures Valid() && Ends(r, FirstLoad(old(Abs()), page, code, load))
    {
      var ok, f := Obtain(!code);
      if !ok {
        return Panicked;
      }
      r := PlacePage(f, page, code, load);
    }

    method FetchPage(i: nat) returns (r: Result)
      requires Valid() && i < slots.Length
      modifies this, pg, ram, tlb, slots
      ensures Valid() && Ends(r, Fetch(old(Abs()), i))
    {
      var ok := SwapPageIn(i);
      if !ok {
        return Panicked;
      }
      stats := stats.(swap := stats.swap + 1, disk := stats.disk + 1);
      r := Done;
    }

    method ServiceData(page: nat, load: Load) returns (r: Result)
      requires Valid()
      modifies this, pg, ram, tlb, slots, swapfile
      ensures Valid() && Ends(r, DataFault(old(Abs()), page, load))
    {
      var i := FindSlot(page, pid);
      if i < 0 {
        r := LoadFirst(page, false, load);
      } else {
        var ok := Evict(true);
        if !ok {
          return Panicked;
        }
        r := FetchPage(i);
      }
    }

    /** vm_fault. */
    method HandleFault(kind: FaultType, vaddr: nat, load: Load) returns (r: Result)
      requires Valid()
      modifies this, pg, ram, tlb, slots, swapfile
      ensures Valid() && Ends(r, Fault(old(Abs()), kind, vaddr, load))
    {
      if kind.ReadOnly? {
        return Exit;
      }
      CountOneFault();
      var page := PageOf(vaddr);
      var i := FindPage(page);
      if i > 0 || (kind.Write? && i == 0) {
        var ok := ReloadPage(page);
        r := if ok then Done else Panicked;
      } else if IsCode(asp, vaddr) {
        if kind.Write? {
          return Panicked;
        }
        r := LoadFirst(page, true, load);
      } else if IsData(asp, vaddr) {
        r := ServiceData(page, load);
      } else {
        r := Error;
      }
    }

    /** alloc_pages for one page, with its TLB entry where asked for and there is room. */
    method AllocUserPage(page: nat, translate: bool) returns (ok: bool)
      requires Valid()
      modifies this, pg, ram, tlb
      ensures Valid() && Matches(ok, MapPage(old(Abs()), page, translate))
    {
      var f;
      ok, f := AllocKpage();
      if !ok || f < 0 {
        return false;
      }
      ok := AddPageTable(f, page, pid, true);
      if ok && translate && freeTlb != 0 {
        ok := AddTranslation(page, pid);
      }
    }

    /** The loading loop of as_define_region. */
    method DefineRegion(base: nat, n: nat) returns (ok: bool)
      requires Valid()
      modifies this, pg, ram, tlb
      ensures Valid() && Matches(ok, MapRange(old(Abs()), base, n))
    {
      ghost var target := MapRange(Abs(), base, n);
      var page, left := base, n;
      while left > 0
        invariant Valid() && MapRange(Abs(), page, left) == target
      {
        var nextPage, rest := page + 1, left - 1;
        MapRangeUnfolds(Abs(), page, left, nextPage, rest);
        ok := AllocUserPage(page, true);
        if !ok {
          return;
        }
        page, left := nextPage, rest;
      }
      ok := true;
    }

    /** as_define_region for both segments, then as_prepare_load. */
    method Load(a: AddrSpace) returns (ok: bool)
      requires Valid()
      modifies this, pg, ram, tlb
      ensures Valid() && Matches(ok, LoadProgram(old(Abs()), a))
    {
      ok := DefineRegion(CodePage(a), CodeLoaded(a));
      if ok {
        ok := DefineRegion(DataPage(a), DataLoaded(a));
        if ok {
          ok := AllocUserPage(StackPage(a), false);
        }
      }
    }
  }
}
