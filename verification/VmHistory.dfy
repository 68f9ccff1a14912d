/** What runs leave in the counters: the statistics identities printed at shutdown, and the
    allocation stamps the victim search goes by. */
module VmHistory {
  import opened Common
  import opened VmState
  import opened VmInvariant
  import opened VmFault
  import opened VmSafety
  import opened VmRun

  // ---------------------------------------------------------------------------------------------
  // Statistics

  /** The change in statistics of servicing a fault that counted itself already: one of reloads,
      elf loads and swap-ins, plus a whole nested fault when there was one. */
  predicate Balanced(a: Stats, b: Stats, served: int)
  {
    && b.withFree + b.withReplace - b.faults == a.withFree + a.withReplace - a.faults
    && b.elf + b.swap - b.disk == a.elf + a.swap - a.disk
    && b.zeroed == a.zeroed
    && (b.reloads + b.disk) - b.faults == (a.reloads + a.disk) - a.faults + served
    && a.faults <= b.faults && a.swapWrites <= b.swapWrites && a.swap <= b.swap
  }

  lemma ObtainFrameStats(s: State, data: bool)
    requires Shaped(s) && ObtainFrame(s, data).Got?
    ensures var t := ObtainFrame(s, data).s.stats;
            t == s.stats.(swapWrites := s.stats.swapWrites + if data && s.free == [] then 1 else 0)
  {
    if s.free == [] {
      if data { EvictDataStats(s); }
    }
  }

  lemma EvictDataStats(s: State)
    requires Shaped(s) && EvictData(s).Some?
    ensures EvictData(s).value.stats == s.stats.(swapWrites := s.stats.swapWrites + 1)
  {
  }

  lemma ReloadStats(s: State, page: nat)
    requires Shaped(s) && Reload(s, page).Some?
    ensures Reload(s, page).value.stats == s.stats.(reloads := s.stats.reloads + 1)
  {
  }

  lemma RetranslateCounts(s: State, page: nat, code: bool)
    requires Shaped(s) && Retranslate(s, page, code).Some?
    ensures var s' := Retranslate(s, page, code).value;
            s'.stats == s.stats && OwnersKept(s, s', -1)
  {
    var s1 := RemoveTlb(s, page);
    var s2 := if code then Protect(s1, page) else s1;
    assert s2.stats == s.stats && OwnersKept(s, s2, -1);
  }

  lemma NestedCounts(s: State, page: nat)
    requires Shaped(s) && Reload(CountFault(s), page).Some?
    ensures var s' := Reload(CountFault(s), page).value;
            Balanced(s.stats, s'.stats, 0) && OwnersKept(s, s', -1)
  {
    ReloadStats(CountFault(s), page);
  }

  lemma LoadPageCounts(s: State, f: nat, page: nat, code: bool, load: Load)
    requires Shaped(s) && f < |s.pg| && LoadPage(s, f, page, code, load).Some?
    ensures var s' := LoadPage(s, f, page, code, load).value;
            Balanced(s.stats, s'.stats, 0) && OwnersKept(s, s', -1)
  {
    if load.Copied? {
      var s1 := s;
      if load.nested {
        NestedCounts(s, page);
        s1 := Reload(CountFault(s), page).value;
      }
      RetranslateCounts(s1.(ram := s1.ram[f := load.contents]), page, code);
    }
  }

  lemma PlaceStats(s: State, f: nat, page: nat, code: bool, load: Load)
    requires Shaped(s) && f < |s.pg|
    ensures var r := Place(s, f, page, code, load);
            !r.Panic? ==> Balanced(s.stats, r.s.stats, if r.Serviced? then 1 else 0)
  {
    var s1 := AddPt(s, f, page, s.pid, true);
    if s1.Some? && LoadPage(s1.value, f, page, code, load).Some? {
      LoadPageCounts(s1.value, f, page, code, load);
    }
  }

  lemma FirstLoadStats(s: State, page: nat, code: bool, load: Load)
    requires Shaped(s)
    ensures var r := FirstLoad(s, page, code, load);
            !r.Panic? ==> Balanced(s.stats, r.s.stats, if r.Serviced? then 1 else 0)
  {
    var g := ObtainFrame(s, !code);
    if g.Got? {
      ObtainFrameStats(s, !code);
      PlaceStats(g.s, g.f, page, code, load);
    }
  }

  lemma ServiceStats(s: State, kind: FaultType, vaddr: nat, load: Load)
    requires Shaped(s) && !kind.ReadOnly?
    ensures var r := Service(s, kind, vaddr, load);
            !r.Panic? ==> Balanced(s.stats, r.s.stats, if r.Serviced? then 1 else 0)
  {
    var page := PageOf(vaddr);
    FirstLoadStats(s, page, true, load);
    DataFaultStats(s, page, load);
  }

  lemma DataFaultStats(s: State, page: nat, load: Load)
    requires Shaped(s)
    ensures var r := DataFault(s, page, load);
            !r.Panic? ==> Balanced(s.stats, r.s.stats, if r.Serviced? then 1 else 0)
  {
    FirstLoadStats(s, page, false, load);
    var i := SlotSearch(s.slots, page, s.pid, 0);
    if i < |s.slots| {
      BringInStats(s, i);
    }
  }

  lemma BringInStats(s: State, i: nat)
    requires Shaped(s) && i < |s.slots|
    ensures var r := BringIn(s, i); !r.Panic? ==> r.Serviced? && Balanced(s.stats, r.s.stats, 1)
  {
    if EvictData(s).Some? {
      EvictDataStats(s);
    }
  }

  /** A step counts one fault at most as open: a serviced fault is balanced, a failed one is not. */
  lemma StepStats(s: State, step: Step)
    requires Shaped(s) && Enabled(s, step)
    ensures var r := Next(s, step);
            !r.Panic? ==> Balanced(s.stats, r.s.stats, if r.Failed? then -1 else 0)
  {
    if step.TakeFault? && !step.kind.ReadOnly? {
      ServiceStats(CountFault(s), step.kind, step.vaddr, step.load);
    }
  }

  function CountTrue(P: nat -> bool, k: nat): nat
  {
    if k == 0 then 0 else CountTrue(P, k - 1) + if P(k - 1) then 1 else 0
  }

  lemma {:induction false} CountTrueZero(P: nat -> bool, k: nat)
    ensures CountTrue(P, k) == 0 <==> forall j: nat | j < k :: !P(j)
  {
    if k > 0 {
      CountTrueZero(P, k - 1);
    }
  }

  /** The identities printed at shutdown, where failed(j) says that fault j of the run failed. The
      third holds exactly when none did. */
  lemma {:induction false} ShutdownIdentities(states: seq<State>, steps: seq<Step>, failed: nat -> bool, k: nat)
    requires IsRun(states, steps) && k < |states|
    requires states[0].stats == Stats(0, 0, 0, 0, 0, 0, 0, 0, 0)
    requires forall j: nat | j < k :: failed(j) == Next(states[j], steps[j]).Failed?
    ensures var t := states[k].stats;
            && t.withFree + t.withReplace == t.faults
            && t.elf + t.swap == t.disk
            && t.reloads + t.disk + t.zeroed == t.faults - CountTrue(failed, k)
            && (t.reloads + t.disk + t.zeroed == t.faults <==> forall j: nat | j < k :: !failed(j))
  {
    if k > 0 {
      ShutdownIdentities(states, steps, failed, k - 1);
      StepStats(states[k - 1], steps[k - 1]);
    }
    CountTrueZero(failed, k);
  }

  // ---------------------------------------------------------------------------------------------
  // Stamps

  /** Nothing allocated, or one frame allocated and stamped with the new count. */
  predicate Stamped(s: State, s': State, f: int)
  {
    && |s'.pg| == |s.pg| && s'.pid == s.pid && s'.asp == s.asp && f < |s.pg|
    && s'.counter == s.counter + (if f < 0 then 0 else 1)
    && (f >= 0 ==> s'.pg[f].stamp == s'.counter % STAMP_LIMIT)
    && (forall g | 0 <= g < |s.pg| && g != f ::
          s'.pg[g].stamp == s.pg[g].stamp && (s'.pg[g].pid == s.pid ==> s.pg[g].pid == s.pid))
  }

  lemma FreeStamps(s: State, f: nat)
    requires Shaped(s) && f < |s.pg| && 0 < s.pid && FreeFrame(s, f).Some?
    ensures Stamped(s, FreeFrame(s, f).value, -1)
  {
  }

  lemma EvictStamps(s: State, data: bool)
    requires Shaped(s) && 0 < s.pid
    ensures var r := if data then EvictData(s) else EvictCode(s); r.Some? ==> Stamped(s, r.value, -1)
  {
    var v := if data then DataVictim(s) else CodeVictim(s);
    if v >= 0 {
      if data && SwapOut(s, v).Some? {
        var i := SlotSearch(s.slots, 0, 0, 0);
        var s1 := s.(slots := s.slots[i := Slot(s.pg[v].page, s.pg[v].pid, s.pg[v].dirty)],
                     swapfile := s.swapfile[i := s.ram[v]]);
        FreeStamps(s1, v);
      } else if !data && FreeFrame(s, v).Some? {
        FreeStamps(s, v);
      }
    }
  }

  lemma TakeStamps(s: State)
    requires Shaped(s) && 0 < s.pid && TakeFrame(s).Got?
    ensures Stamped(s, TakeFrame(s).s, TakeFrame(s).f)
  {
  }

  lemma ObtainStamps(s: State, data: bool)
    requires Shaped(s) && 0 < s.pid && ObtainFrame(s, data).Got?
    ensures Stamped(s, ObtainFrame(s, data).s, ObtainFrame(s, data).f)
  {
    if s.free != [] {
      TakeStamps(s);
    } else {
      EvictStamps(s, data);
      var s1 := (if data then EvictData(s) else EvictCode(s)).value;
      TakeStamps(s1);
    }
  }

  /** Stamps and owners stay, but for the owner of frame f. */
  predicate OwnersKept(s: State, s': State, f: int)
  {
    && s'.counter == s.counter && |s'.pg| == |s.pg| && s'.pid == s.pid && s'.asp == s.asp
    && (forall g | 0 <= g < |s.pg| :: s'.pg[g].stamp == s.pg[g].stamp)
    && (forall g | 0 <= g < |s.pg| && g != f :: s'.pg[g].pid == s.pg[g].pid)
  }

  lemma OwnersChain(s: State, s1: State, s2: State, f: nat)
    requires OwnersKept(s, s1, f) && OwnersKept(s1, s2, -1)
    ensures OwnersKept(s, s2, f)
  {
  }

  lemma PlaceStamps(s: State, f: nat, page: nat, code: bool, load: Load)
    requires Shaped(s) && f < |s.pg| && !Place(s, f, page, code, load).Panic?
    ensures OwnersKept(s, Place(s, f, page, code, load).s, f)
  {
    var s1 := AddPt(s, f, page, s.pid, true).value;
    assert OwnersKept(s, s1, f);
    LoadPageCounts(s1, f, page, code, load);
    OwnersChain(s, s1, LoadPage(s1, f, page, code, load).value, f);
  }

  lemma FetchStamps(s: State, i: nat)
    requires Shaped(s) && 0 < s.pid && Fetch(s, i).Serviced?
    ensures s.free != [] && Stamped(s, Fetch(s, i).s, s.free[0])
  {
  }

  lemma ServiceStamps(s: State, kind: FaultType, vaddr: nat, load: Load) returns (f: int)
    requires Shaped(s) && 0 < s.pid && !kind.ReadOnly?
    ensures var r := Service(s, kind, vaddr, load); !r.Panic? ==> Stamped(s, r.s, f)
  {
    f := -1;
    var page := PageOf(vaddr);
    var q := PageSearch(s.pg, page, 0);
    var r := Service(s, kind, vaddr, load);
    var i := SlotSearch(s.slots, page, s.pid, 0);
    if !r.Panic? && !(q < |s.pg| && (q > 0 || kind.Write?)) {
      if IsCode(s.asp, vaddr) {
        f := FirstLoadStamps(s, page, true, load);
      } else if IsData(s.asp, vaddr) {
        if i == |s.slots| {
          f := FirstLoadStamps(s, page, false, load);
        } else {
          f := BringInStamps(s, i);
        }
      }
    }
  }

  lemma FirstLoadStamps(s: State, page: nat, code: bool, load: Load) returns (f: int)
    requires Shaped(s) && 0 < s.pid && !FirstLoad(s, page, code, load).Panic?
    ensures !FirstLoad(s, page, code, load).Exited?
    ensures Stamped(s, FirstLoad(s, page, code, load).s, f)
  {
    var g := ObtainFrame(s, !code);
    ObtainStamps(s, !code);
    PlaceStamps(g.s, g.f, page, code, load);
    f := g.f;
  }

  lemma BringInStamps(s: State, i: nat) returns (f: int)
    requires Shaped(s) && 0 < s.pid && i < |s.slots| && !BringIn(s, i).Panic?
    ensures Stamped(s, BringIn(s, i).s, f)
  {
    EvictStamps(s, true);
    var s1 := EvictData(s).value;
    FetchStamps(s1, i);
    f := s1.free[0];
  }

  lemma StepStamps(s: State, step: Step) returns (f: int)
    requires Shaped(s) && 0 < s.pid && Enabled(s, step)
    ensures var r := Next(s, step); !r.Panic? ==> Stamped(s, r.s, f)
  {
    f := -1;
    if step.TakeFault? && !step.kind.ReadOnly? {
      f := ServiceStamps(CountFault(s), step.kind, step.vaddr, step.load);
    } else if step.KernelAlloc? && s.free != [] {
      f := s.free[0];
    }
  }

  /** born[f] is the number of the allocation that handed out frame f last, 0 for none. */
  predicate Dated(s: State, born: seq<nat>)
  {
    && |born| == |s.pg|
    && (forall f | 0 <= f < |s.pg| :: born[f] <= s.counter)
    && (forall f | 0 <= f < |s.pg| && s.pg[f].pid == s.pid :: 0 < born[f])
    && (forall f | 0 <= f < |s.pg| && 0 < born[f] :: s.pg[f].stamp == born[f] % STAMP_LIMIT)
    && (forall f, g | 0 <= f < g < |s.pg| && 0 < born[f] && 0 < born[g] :: born[f] != born[g])
  }

  /** One allocation dates its frame with the new count; without one the log stays. */
  ghost predicate Logged(s: State, s': State, born: seq<nat>, born': seq<nat>)
  {
    && |born| == |s.pg|
    && if s'.counter == s.counter then born' == born
       else exists f :: 0 <= f < |s.pg| && Stamped(s, s', f) && born' == born[f := s'.counter]
  }

  lemma DatedStep(s: State, s': State, born: seq<nat>, born': seq<nat>, f: int)
    requires Dated(s, born) && Stamped(s, s', f) && born' == if f < 0 then born else born[f := s'.counter]
    ensures Dated(s', born') && Logged(s, s', born, born')
  {
  }

  /** The log up to state k is right. */
  ghost predicate LogOk(states: seq<State>, log: seq<seq<nat>>, k: nat)
    requires k < |states|
  {
    && |log| == k + 1
    && (forall j | 0 <= j <= k :: Dated(states[j], log[j]) && states[j].pid == states[0].pid)
    && (forall j | 0 <= j < k :: Logged(states[j], states[j + 1], log[j], log[j + 1]))
  }

  lemma LogExtended(states: seq<State>, log: seq<seq<nat>>, k: nat, b: seq<nat>)
    requires 0 < k < |states| && LogOk(states, log, k - 1) && Dated(states[k], b) && states[k].pid == states[0].pid
    requires Logged(states[k - 1], states[k], log[k - 1], b)
    ensures LogOk(states, log + [b], k)
  {
    var log' := log + [b];
    forall j | 0 <= j <= k ensures Dated(states[j], log'[j]) && states[j].pid == states[0].pid {
      assert log'[j] == if j < k then log[j] else b;
    }
    forall j | 0 <= j < k ensures Logged(states[j], states[j + 1], log'[j], log'[j + 1]) {
      assert log'[j] == log[j] && log'[j + 1] == if j + 1 < k then log[j + 1] else b;
    }
  }

  /** The log of a run. */
  lemma {:induction false} RunDated(states: seq<State>, steps: seq<Step>, born: seq<nat>, k: nat)
    returns (log: seq<seq<nat>>)
    requires IsRun(states, steps) && k < |states| && 0 < states[0].pid && Dated(states[0], born)
    ensures LogOk(states, log, k) && log[0] == born
  {
    if k == 0 {
      log := [born];
    } else {
      var l := RunDated(states, steps, born, k - 1);
      var b := l[k - 1];
      var f := StepStamps(states[k - 1], steps[k - 1]);
      var b' := if f < 0 then b else b[f := states[k].counter];
      DatedStep(states[k - 1], states[k], b, b', f);
      LogExtended(states, l, k, b');
      log := l + [b'];
    }
  }

  predicate Older(born: seq<nat>, s: State, data: bool, v: nat)
    requires v < |born| == |s.pg|
  {
    && Eligible(s.pg[v], s.pid, s.asp, data)
    && forall g | 0 <= g < |s.pg| && g != v && Eligible(s.pg[g], s.pid, s.asp, data) :: born[v] < born[g]
  }

  lemma NotWrapped(n: nat)
    requires n < STAMP_LIMIT
    ensures n % STAMP_LIMIT == n
  {
  }

  lemma OldestByStamp(s: State, born: seq<nat>, data: bool, v: nat)
    requires Dated(s, born) && s.counter < STAMP_LIMIT && v < |s.pg|
    requires v == VictimSearch(s.pg, s.pid, s.asp, data, |s.pg|)
    ensures Older(born, s, data, v)
  {
    forall g | 0 <= g < |s.pg| && g != v && Eligible(s.pg[g], s.pid, s.asp, data) ensures born[v] < born[g] {
      var a, b := born[v], born[g];
      NotWrapped(a);
      NotWrapped(b);
      assert s.pg[v].stamp == a && s.pg[g].stamp == b && a != b;
    }
  }

  /** The victim is a valid frame of the process itself, and while fewer than 2^16 frames have been
      handed out it is the one allocated longest ago. */
  lemma VictimIsOldest(s: State, born: seq<nat>, data: bool)
    requires Inv(s) && Dated(s, born)
    ensures var v := VictimSearch(s.pg, s.pid, s.asp, data, |s.pg|);
            v >= 0 ==> s.pg[v].valid && s.pg[v].pid == s.pid && (s.counter < STAMP_LIMIT ==> Older(born, s, data, v))
  {
    var v := VictimSearch(s.pg, s.pid, s.asp, data, |s.pg|);
    if v >= 0 {
      assert EntryOk(s, s.pg[v]);
      if s.counter < STAMP_LIMIT {
        OldestByStamp(s, born, data, v);
      }
    }
  }

  /** All candidates were allocated between two wrap-arounds of the 16-bit stamp. */
  predicate OneEpoch(s: State, born: seq<nat>, data: bool)
    requires |born| == |s.pg|
  {
    forall f, g | 0 <= f < |s.pg| && 0 <= g < |s.pg|
                  && Eligible(s.pg[f], s.pid, s.asp, data) && Eligible(s.pg[g], s.pid, s.asp, data) ::
      born[f] / STAMP_LIMIT == born[g] / STAMP_LIMIT
  }

  /** After the stamp has wrapped: as long as every candidate is among the last 2^16 allocations,
      the search picks the oldest exactly when no wrap-around lies between the candidates. */
  lemma OldestExactlyWithinOneEpoch(s: State, born: seq<nat>, data: bool)
    requires Inv(s) && Dated(s, born)
    requires forall f | 0 <= f < |s.pg| && Eligible(s.pg[f], s.pid, s.asp, data) :: s.counter < born[f] + STAMP_LIMIT
    ensures var v := VictimSearch(s.pg, s.pid, s.asp, data, |s.pg|);
            v >= 0 ==> (Older(born, s, data, v) <==> OneEpoch(s, born, data))
  {
    var v := VictimSearch(s.pg, s.pid, s.asp, data, |s.pg|);
    if v >= 0 {
      forall g | 0 <= g < |s.pg| && g != v && Eligible(s.pg[g], s.pid, s.asp, data)
        ensures born[v] < born[g] <==> born[v] / STAMP_LIMIT == born[g] / STAMP_LIMIT
      {
        WithinWindow(born[v], born[g], s.counter);
        assert born[v] != born[g];
      }
      if OneEpoch(s, born, data) {
        assert Older(born, s, data, v);
      }
      if Older(born, s, data, v) {
        forall f, g | 0 <= f < |s.pg| && 0 <= g < |s.pg|
                      && Eligible(s.pg[f], s.pid, s.asp, data) && Eligible(s.pg[g], s.pid, s.asp, data)
          ensures born[f] / STAMP_LIMIT == born[g] / STAMP_LIMIT
        {
          assert born[f] / STAMP_LIMIT == born[v] / STAMP_LIMIT;
          assert born[g] / STAMP_LIMIT == born[v] / STAMP_LIMIT;
        }
      }
    }
  }

  /** Of two allocations less than 2^16 apart, the earlier has the smaller stamp within an epoch
      and the larger one across. */
  lemma WithinWindow(a: nat, b: nat, now: nat)
    requires a <= now < a + STAMP_LIMIT && b <= now < b + STAMP_LIMIT && a != b
    ensures a / STAMP_LIMIT == b / STAMP_LIMIT ==> (a < b <==> a % STAMP_LIMIT < b % STAMP_LIMIT)
    ensures a / STAMP_LIMIT != b / STAMP_LIMIT ==> (a < b <==> b % STAMP_LIMIT < a % STAMP_LIMIT)
    ensures a % STAMP_LIMIT != b % STAMP_LIMIT
  {
    assert a == a / STAMP_LIMIT * STAMP_LIMIT + a % STAMP_LIMIT;
    assert b == b / STAMP_LIMIT * STAMP_LIMIT + b % STAMP_LIMIT;
  }
}
