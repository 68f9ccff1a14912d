/** A run in which the 16-bit stamps wrap around, and the page brought in last is the next victim. */
module VmWrap {
  import opened Common
  import opened VmState
  import opened VmInvariant
  import opened VmFault
  import opened VmSafety
  import opened VmRun
  import opened VmHistory
  import opened VmLoad
  import opened VmFifo

  // ---------------------------------------------------------------------------------------------
  // The kernel takes a frame and gives it back

  ghost predicate Churned(s: State, s': State, n: nat)
  {
    && Sound(s) && Sound(s') && s'.pid == s.pid && s'.asp == s.asp && s'.free == s.free
    && s'.counter == s.counter + n && forall p :: Contents(s', p) == Contents(s, p)
  }

  lemma ChurnOnce(s: State) returns (s1: State, s2: State)
    requires Sound(s) && s.free != []
    ensures Next(s, KernelAlloc) == Serviced(s1) && Shaped(s1)
    ensures Enabled(s1, KernelFree(s.free[0])) && Next(s1, KernelFree(s.free[0])) == Serviced(s2)
    ensures Churned(s, s2, 1)
  {
    var f := s.free[0];
    AllocKeeps(s);
    QuietStep(s, KernelAlloc);
    s1 := AllocFrame(s).value;
    QuietStep(s1, KernelFree(f));
    s2 := FreeFrame(s1, f).value;
    assert s2.free == [f] + s.free[1..] == s.free;
  }

  /** One more step at the end of a run. */
  lemma RunExtended(states: seq<State>, steps: seq<Step>, step: Step, s': State)
    requires IsRun(states, steps) && Shaped(s') && Enabled(states[|steps|], step)
    requires Next(states[|steps|], step) == Serviced(s')
    ensures IsRun(states + [s'], steps + [step])
  {
    var states', steps' := states + [s'], steps + [step];
    forall k | 0 <= k < |steps'|
      ensures Shaped(states'[k]) && Enabled(states'[k], steps'[k]) && Follows(states'[k], steps'[k], states'[k + 1])
    {
      if k < |steps| {
        assert Follows(states[k], steps[k], states[k + 1]);
      }
    }
  }

  ghost predicate RunTo(states: seq<State>, steps: seq<Step>, s: State, s': State)
  {
    IsRun(states, steps) && states[0] == s && states[|steps|] == s'
  }

  /** The count of allocations can be driven on as far as one likes. */
  lemma {:induction false} ChurnRun(s: State, n: nat) returns (states: seq<State>, steps: seq<Step>, s': State)
    requires Sound(s) && s.free != []
    ensures RunTo(states, steps, s, s') && Churned(s, s', n)
  {
    if n == 0 {
      states, steps, s' := [s], [], s;
    } else {
      var q;
      states, steps, q := ChurnRun(s, n - 1);
      var q1, q2 := ChurnOnce(q);
      RunExtended(states, steps, KernelAlloc, q1);
      states, steps := states + [q1], steps + [KernelAlloc];
      RunExtended(states, steps, KernelFree(q.free[0]), q2);
      states, steps, s' := states + [q2], steps + [KernelFree(q.free[0])], q2;
    }
  }

  // ---------------------------------------------------------------------------------------------
  // A page is brought in

  ghost predicate BroughtIn(s: State, s': State, page: nat)
    requires Shaped(s)
  {
    && s.free != [] && s'.counter == s.counter + 1 && s'.pid == s.pid && s'.asp == s.asp && |s'.pg| == |s.pg|
    && (forall g | 0 <= g < |s.pg| && g != s.free[0] :: s'.pg[g] == s.pg[g])
    && s'.pg[s.free[0]].pid == s.pid && s'.pg[s.free[0]].page == page
    && s'.pg[s.free[0]].stamp == s'.counter % STAMP_LIMIT
  }

  /** A page that is nowhere yet gets the first free frame. */
  lemma PlacedFirst(s: State, page: nat)
    requires Inv(s) && s.free != [] && Contents(s, page) == None
    ensures var r := FirstLoad(s, page, false, Bss); r.Serviced? && Shaped(r.s) && BroughtIn(s, r.s, page)
  {
    TakeFrameKeeps(s);
  }

  lemma IsFirstLoad(s: State, page: nat)
    requires Inv(s) && IsDataPage(s.asp, page) && Contents(s, page) == None
    ensures Service(s, Read, page * PAGE_SIZE, Bss) == FirstLoad(s, page, false, Bss)
  {
    PageBounds(s.asp, page);
    PageSearchMeaning(s, page);
    SegmentOfPage(s.asp, page * PAGE_SIZE);
  }

  /** The first touch of a data page that is not in the executable. */
  lemma FirstTouch(s: State, page: nat) returns (s': State)
    requires Inv(s) && s.free != [] && IsDataPage(s.asp, page) && Contents(s, page) == None
    ensures var step := TakeFault(Read, page * PAGE_SIZE, Bss);
            Enabled(s, step) && Next(s, step) == Serviced(s') && Shaped(s') && BroughtIn(s, s', page)
  {
    NotPresentMisses(s, page);
    var s1 := CountFault(s);
    StatsFree(s, s1);
    IsFirstLoad(s1, page);
    PlacedFirst(s1, page);
    s' := FirstLoad(s1, page, false, Bss).s;
  }

  // ---------------------------------------------------------------------------------------------
  // The wrap-around

  /** Frame v was handed out last of all, and there is another candidate. */
  ghost predicate Newest(s: State, born: seq<nat>, v: nat)
    requires |born| == |s.pg|
  {
    && v < |s.pg| && born[v] == s.counter
    && (forall g | 0 <= g < |s.pg| && g != v :: born[g] < born[v])
    && (exists g :: 0 <= g < |s.pg| && g != v && Eligible(s.pg[g], s.pid, s.asp, true))
  }

  /** With the 65536th allocation the victim is the page that it was for. */
  lemma NewestIsVictim(s: State, born: seq<nat>, f: nat, d: nat)
    requires Shaped(s) && Dated(s, born) && s.counter == STAMP_LIMIT && f < |s.pg| && d < |s.pg| && f != d
    requires Eligible(s.pg[f], s.pid, s.asp, true) && Eligible(s.pg[d], s.pid, s.asp, true) && s.pg[f].stamp == 0
    ensures DataVictim(s) >= 0 && Newest(s, born, DataVictim(s))
  {
    var v := DataVictim(s);
    assert s.pg[v].stamp == 0 && 0 < born[v] <= STAMP_LIMIT;
    OnlyMultiple(born[v]);
    assert forall g | 0 <= g < |s.pg| && g != v :: born[g] != born[v];
    assert f != v || d != v;
  }

  lemma OnlyMultiple(n: nat)
    requires 0 < n <= STAMP_LIMIT && n % STAMP_LIMIT == 0
    ensures n == STAMP_LIMIT
  {
  }

  lemma BroughtInLast(s: State, s': State, page: nat, born: seq<nat>)
    requires Sound(s) && IsDataPage(s.asp, page) && BroughtIn(s, s', page) && Dated(s', born)
    requires Shaped(s') && s'.counter == STAMP_LIMIT
    ensures DataVictim(s') >= 0 && Newest(s', born, DataVictim(s'))
  {
    var f, d := s.free[0], DataVictim(s);
    assert !s.pg[f].valid && EntryOk(s, s.pg[f]) && EntryOk(s, s.pg[d]);
    NewestIsVictim(s', born, f, d);
  }

  /** From any state with a free frame, and a data page still to be touched, there is a run to a state
      in which the victim is the page brought in last. */
  lemma NewestEvictedAfterWrap(s: State, born: seq<nat>, page: nat)
    returns (states: seq<State>, steps: seq<Step>, log: seq<seq<nat>>)
    requires Sound(s) && Dated(s, born) && s.counter < STAMP_LIMIT && s.free != []
    requires IsDataPage(s.asp, page) && Contents(s, page) == None
    ensures IsRun(states, steps) && states[0] == s && LogOk(states, log, |steps|) && log[0] == born
    ensures var e := states[|steps|]; DataVictim(e) >= 0 && Newest(e, log[|steps|], DataVictim(e))
  {
    var q;
    states, steps, q := ChurnRun(s, STAMP_LIMIT - 1 - s.counter);
    var e := FirstTouch(q, page);
    var step := TakeFault(Read, page * PAGE_SIZE, Bss);
    RunExtended(states, steps, step, e);
    states, steps := states + [e], steps + [step];
    log := RunDated(states, steps, born, |steps|);
    BroughtInLast(q, e, page, log[|steps|]);
  }

  // ---------------------------------------------------------------------------------------------
  // From boot on

  lemma MapPageCounts(s: State, page: nat, translate: bool, s': State)
    requires Shaped(s) && MapPage(s, page, translate) == Some(s')
    ensures s'.counter == s.counter + 1 && |s'.free| == |s.free| - 1
  {
  }

  lemma {:induction false} MapRangeCounts(s: State, base: nat, n: nat, s': State)
    requires Shaped(s) && MapRange(s, base, n) == Some(s')
    ensures s'.counter == s.counter + n && |s'.free| == |s.free| - n
    decreases n
  {
    if n > 0 {
      var s1 := MapPage(s, base, true).value;
      MapPageCounts(s, base, true, s1);
      var next, rest := base + 1, n - 1;
      MapRangeUnfolds(s, base, n, next, rest);
      MapRangeCounts(s1, next, rest, s');
    }
  }

  lemma LoadCounts(s: State, a: AddrSpace, s': State)
    requires Shaped(s) && LoadProgram(s, a) == Some(s')
    ensures s'.counter == s.counter + FramesNeeded(a) && |s'.free| == |s.free| - FramesNeeded(a)
  {
    var s1 := MapRange(s, CodePage(a), CodeLoaded(a)).value;
    MapRangeCounts(s, CodePage(a), CodeLoaded(a), s1);
    var s2 := MapRange(s1, DataPage(a), DataLoaded(a)).value;
    MapRangeCounts(s1, DataPage(a), DataLoaded(a), s2);
    MapPageCounts(s2, StackPage(a), false, s');
  }

  /** A data segment of more pages than are loaded has a page that is nowhere. */
  lemma PageToCome(s: State, s': State, a: AddrSpace) returns (page: nat)
    requires Inv(s) && AddrSpaceOk(a) && s.asp == a && Loaded(s, s', a) && DataLoaded(a) < a.dataPages
    ensures IsDataPage(a, page) && Contents(s', page) == None
  {
    page := DataPage(a) + DataLoaded(a);
    PagesOfSegments(a, page);
    assert !InRange(page, DataPage(a), DataLoaded(a)) && !InRange(page, CodePage(a), CodeLoaded(a));
  }

  lemma FirstPassSame(s: State, image: Image, page: nat, born: seq<nat>)
    requires Shaped(s) && Contents(s, page) == None && Dated(s, born)
    ensures Shaped(FirstPass(s, image)) && Contents(FirstPass(s, image), page) == None
    ensures Dated(FirstPass(s, image), born)
  {
  }

  /** Boot a machine with a frame to spare, load a program that is not wholly loaded, and there is such
      a run of it. */
  lemma NewestEvictedFromBoot(ram: seq<Page>, first: nat, last: nat, swapfile: seq<Page>, pid: nat, a: AddrSpace,
                              image: Image)
    returns (states: seq<State>, steps: seq<Step>, log: seq<seq<nat>>)
    requires 0 < first <= last <= |ram| && 0 < pid && AddrSpaceOk(a) && 0 < a.codePages
    requires !Overshoots(a) && DataLoaded(a) < a.dataPages && FramesNeeded(a) < last - first
    ensures var r := LoadProgram(Boot(ram, first, last, swapfile, pid, a), a);
            && r.Some? && IsRun(states, steps) && states[0] == FirstPass(r.value, image)
            && LogOk(states, log, |steps|)
            && var e := states[|steps|]; DataVictim(e) >= 0 && Newest(e, log[|steps|], DataVictim(e))
  {
    var s := Boot(ram, first, last, swapfile, pid, a);
    BootInv(ram, first, last, swapfile, pid, a);
    BootDated(ram, first, last, swapfile, pid, a);
    LoadEstablishes(s, a);
    var s' := LoadProgram(s, a).value;
    var born := LoadDated(s, a, s', NoDates(|ram|));
    LoadCounts(s, a, s');
    var page := PageToCome(s, s', a);
    FirstPassAgrees(s', image);
    FirstPassSame(s', image, page, born);
    states, steps, log := NewestEvictedAfterWrap(FirstPass(s', image), born, page);
  }
}
