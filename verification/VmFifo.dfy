/** From boot on: the allocation log exists in every run of a loaded process, and the victim is the
    page that came first. */
module VmFifo {
  import opened Common
  import opened VmState
  import opened VmInvariant
  import opened VmFault
  import opened VmSafety
  import opened VmRun
  import opened VmHistory
  import opened VmLoad

  /** No frame has been handed out. */
  function NoDates(n: nat): (born: seq<nat>)
    ensures |born| == n && forall f | 0 <= f < n :: born[f] == 0
  {
    if n == 0 then [] else NoDates(n - 1) + [0]
  }

  lemma BootDated(ram: seq<Page>, first: nat, last: nat, swapfile: seq<Page>, pid: nat, asp: AddrSpace)
    requires first <= last <= |ram| && 0 < pid
    ensures Dated(Boot(ram, first, last, swapfile, pid, asp), NoDates(|ram|))
  {
  }

  lemma MapPageStamps(s: State, page: nat, translate: bool, s': State)
    requires Shaped(s) && 0 < s.pid && MapPage(s, page, translate) == Some(s')
    ensures s.free != [] && Stamped(s, s', s.free[0])
  {
  }

  lemma MapPageDated(s: State, page: nat, translate: bool, s': State, born: seq<nat>) returns (born': seq<nat>)
    requires Shaped(s) && 0 < s.pid && MapPage(s, page, translate) == Some(s') && Dated(s, born)
    ensures Dated(s', born') && s'.pid == s.pid
  {
    MapPageStamps(s, page, translate, s');
    born' := born[s.free[0] := s'.counter];
    DatedStep(s, s', born, born', s.free[0]);
  }

  lemma {:induction false} MapRangeDated(s: State, base: nat, n: nat, s': State, born: seq<nat>)
    returns (born': seq<nat>)
    requires Shaped(s) && 0 < s.pid && MapRange(s, base, n) == Some(s') && Dated(s, born)
    ensures Dated(s', born') && s'.pid == s.pid
    decreases n
  {
    if n == 0 {
      born' := born;
    } else {
      var s1 := MapPage(s, base, true).value;
      var born1 := MapPageDated(s, base, true, s1, born);
      var next, rest := base + 1, n - 1;
      MapRangeUnfolds(s, base, n, next, rest);
      born' := MapRangeDated(s1, next, rest, s', born1);
    }
  }

  lemma LoadDated(s: State, a: AddrSpace, s': State, born: seq<nat>) returns (born': seq<nat>)
    requires Shaped(s) && 0 < s.pid && LoadProgram(s, a) == Some(s') && Dated(s, born)
    ensures Dated(s', born') && s'.pid == s.pid
  {
    var s1 := MapRange(s, CodePage(a), CodeLoaded(a)).value;
    var born1 := MapRangeDated(s, CodePage(a), CodeLoaded(a), s1, born);
    var s2 := MapRange(s1, DataPage(a), DataLoaded(a)).value;
    var born2 := MapRangeDated(s1, DataPage(a), DataLoaded(a), s2, born1);
    born' := MapPageDated(s2, StackPage(a), false, s', born2);
  }

  /** In every run of a process from boot on, while fewer than 2^16 frames have been handed out, the
      victim of either kind is the process's own page that was brought in longest ago. */
  lemma OldestFromBoot(ram: seq<Page>, first: nat, last: nat, swapfile: seq<Page>, pid: nat, a: AddrSpace,
                       image: Image, states: seq<State>, steps: seq<Step>, k: nat)
    returns (log: seq<seq<nat>>)
    requires 0 < first <= last <= |ram| && 0 < pid && AddrSpaceOk(a) && 0 < a.codePages && 0 < a.dataPages
    requires !Overshoots(a) && FramesNeeded(a) <= last - first
    requires IsRun(states, steps) && k < |states|
    requires var r := LoadProgram(Boot(ram, first, last, swapfile, pid, a), a);
             r.Some? ==> states[0] == FirstPass(r.value, image)
    ensures |log| == k + 1 && forall j | 0 <= j < k :: Logged(states[j], states[j + 1], log[j], log[j + 1])
    ensures Dated(states[k], log[k])
    ensures forall data :: var s := states[k]; var v := VictimSearch(s.pg, s.pid, s.asp, data, |s.pg|);
                           v >= 0 && s.counter < STAMP_LIMIT ==> Older(log[k], s, data, v)
  {
    var s := Boot(ram, first, last, swapfile, pid, a);
    BootInv(ram, first, last, swapfile, pid, a);
    BootDated(ram, first, last, swapfile, pid, a);
    LoadEstablishes(s, a);
    var s' := LoadProgram(s, a).value;
    var born := LoadDated(s, a, s', NoDates(|ram|));
    FirstPassAgrees(s', image);
    RunSound(states, steps, k);
    log := RunDated(states, steps, born, k);
    forall data ensures var t := states[k]; var v := VictimSearch(t.pg, t.pid, t.asp, data, |t.pg|);
                        v >= 0 && t.counter < STAMP_LIMIT ==> Older(log[k], t, data, v)
    {
      VictimIsOldest(states[k], log[k], data);
    }
  }
}
