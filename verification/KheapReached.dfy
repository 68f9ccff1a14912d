/** Runs of the allocator that end badly: a block of two pages over another that is live, and a free
    that is stopped. */
module KheapReached {
  import opened Common
  import opened Kheap
  import opened KheapSafety
  import opened KheapWide
  import opened KheapRuns

  lemma TwoPages()
    ensures PagesFor(PAGE) == 1 && PagesFor(2 * PAGE) == 2
  {
  }

  /** A call for whole pages, and what it leaves. */
  lemma TakeStep(p: Pool, n: nat, sz: nat) returns (p': Pool)
    requires Inv(p) && LARGEST <= sz < ADDRESSES && n == PagesFor(sz) && 1 <= n <= |p.frames| && n < MAX_PAGES
    ensures p' == TakePages(p, n) && Follows(p, Malloc(sz), p') && Inv(p')
    ensures Live(p', p.frames[0] * PAGE, n * PAGE)
  {
    p' := TakePages(p, n);
    PagesTaken(p, n);
  }

  lemma GiveStep(p: Pool, f: nat) returns (p': Pool)
    requires Inv(p) && f in p.big
    ensures p' == p.(big := p.big - {f}, frames := [f] + p.frames) && Follows(p, Free(f * PAGE), p') && Inv(p')
  {
    var addr := f * PAGE;
    assert addr / PAGE == f && addr % PAGE == 0 && 0 < addr;
    p' := p.(big := p.big - {f}, frames := [f] + p.frames);
    WholePageBack(p, addr);
    assert Live(p, addr, p.big[f] * PAGE);
  }

  /** A run goes on by a step. */
  lemma RunOn(ops: seq<Op>, pools: seq<Pool>, op: Op, p: Pool) returns (ops': seq<Op>, pools': seq<Pool>)
    requires IsRun(ops, pools) && Follows(pools[|ops|], op, p)
    ensures ops' == ops + [op] && pools' == pools + [p] && IsRun(ops', pools') && pools'[|ops'|] == p
  {
    ops', pools' := ops + [op], pools + [p];
    forall i | 0 <= i < |ops'| ensures Follows(pools'[i], ops'[i], pools'[i + 1]) {
      assert i < |ops| ==> Follows(pools[i], ops[i], pools[i + 1]);
    }
  }

  /** The run goes on by a call for one page. */
  lemma PageOut(ops: seq<Op>, pools: seq<Pool>) returns (ops': seq<Op>, pools': seq<Pool>)
    requires IsRun(ops, pools) && Inv(pools[|ops|]) && pools[|ops|].frames != []
    ensures ops' == ops + [Malloc(PAGE)] && IsRun(ops', pools') && pools'[0] == pools[0] && Inv(pools'[|ops'|])
    ensures var p, p' := pools[|ops|], pools'[|ops'|]; p' == TakePages(p, 1)
  {
    TwoPages();
    var p' := TakeStep(pools[|ops|], 1, PAGE);
    ops', pools' := RunOn(ops, pools, Malloc(PAGE), p');
  }

  lemma PageBack(ops: seq<Op>, pools: seq<Pool>, f: nat) returns (ops': seq<Op>, pools': seq<Pool>)
    requires IsRun(ops, pools) && Inv(pools[|ops|]) && f in pools[|ops|].big
    ensures ops' == ops + [Free(f * PAGE)] && IsRun(ops', pools') && pools'[0] == pools[0] && Inv(pools'[|ops'|])
    ensures var p, p' := pools[|ops|], pools'[|ops'|]; p' == p.(big := p.big - {f}, frames := [f] + p.frames)
  {
    var p' := GiveStep(pools[|ops|], f);
    ops', pools' := RunOn(ops, pools, Free(f * PAGE), p');
  }

  lemma Start(p: Pool)
    ensures IsRun([], [p])
  {
  }

  /** Two pages out of three frames are taken, and the first is given back. */
  lemma TwoOut(p: Pool, f: nat, g: nat) returns (ops: seq<Op>, pools: seq<Pool>)
    requires Inv(p) && p.frames == [f, f + 1, g]
    ensures ops == [Malloc(PAGE), Malloc(PAGE), Free(f * PAGE)] && IsRun(ops, pools) && pools[0] == p && Inv(pools[3])
    ensures pools[3].frames == [f, g] && f + 1 in pools[3].big && pools[3].big[f + 1] == 1
  {
    Start(p);
    ops, pools := PageOut([], [p]);
    assert pools[1].frames == [f + 1, g] && f in pools[1].big;
    ops, pools := PageOut(ops, pools);
    assert pools[2].frames == [g] && f in pools[2].big && pools[2].big[f + 1] == 1;
    ops, pools := PageBack(ops, pools, f);
  }

  /** The run ends with a block of two pages over a page that is out as well. */
  ghost predicate Overlapping(ops: seq<Op>, pools: seq<Pool>, f: nat)
  {
    && ops == [Malloc(PAGE), Malloc(PAGE), Free(f * PAGE), Malloc(2 * PAGE)] && IsRun(ops, pools)
    && Live(pools[4], f * PAGE, 2 * PAGE) && Live(pools[4], (f + 1) * PAGE, PAGE)
    && !Apart(f * PAGE, 2 * PAGE, (f + 1) * PAGE, PAGE)
  }

  lemma TwoMore(p: Pool, f: nat, g: nat) returns (ops: seq<Op>, pools: seq<Pool>)
    requires Inv(p) && p.frames == [f, f + 1, g]
    ensures Overlapping(ops, pools, f) && pools[0] == p
  {
    TwoPages();
    ops, pools := TwoOut(p, f, g);
    var p4 := TakeStep(pools[3], 2, 2 * PAGE);
    StillOut(pools[3], p4, f + 1);
    ops, pools := RunOn(ops, pools, Malloc(2 * PAGE), p4);
  }

  /** On any three frames of which two are neighbours: two pages are taken, the first given back, and a
      block of two pages is asked for. It lies on the page that is still out. */
  lemma WideRunOverlaps(f: nat, g: nat) returns (ops: seq<Op>, pools: seq<Pool>)
    requires 0 < f && 0 < g && g != f && g != f + 1
    ensures Overlapping(ops, pools, f) && pools[0] == Empty([f, f + 1, g])
  {
    ops, pools := TwoMore(Empty([f, f + 1, g]), f, g);
  }

  lemma StillOut(p: Pool, p': Pool, g: nat)
    requires |p.frames| >= 2 && p' == TakePages(p, 2) && g in p.big && p.big[g] == 1 && g != p.frames[0]
    ensures Live(p', g * PAGE, PAGE)
  {
    var b := g * PAGE;
    assert b / PAGE == g && b % PAGE == 0;
    assert WholePages(p', b, PAGE);
  }

  // ---------------------------------------------------------------------------------------------
  // What comes of a block that does not fit

  function Repeat(op: Op, n: nat): (s: seq<Op>)
    ensures |s| == n && forall i | 0 <= i < n :: s[i] == op
  {
    if n == 0 then [] else Repeat(op, n - 1) + [op]
  }

  /** The run goes on by calls for one page, until frame q is out; block f is out all the while. */
  ghost predicate GoneOn(ops: seq<Op>, pools: seq<Pool>, ops': seq<Op>, pools': seq<Pool>, n: nat)
  {
    ops' == ops + Repeat(Malloc(PAGE), n) && IsRun(ops', pools') && |pools| > 0 && pools'[0] == pools[0]
  }

  lemma {:induction false} TakeUntil(ops: seq<Op>, pools: seq<Pool>, f: nat, j: nat)
    returns (ops': seq<Op>, pools': seq<Pool>)
    requires IsRun(ops, pools) && Inv(pools[|ops|]) && f in pools[|ops|].big && j < |pools[|ops|].frames|
    ensures GoneOn(ops, pools, ops', pools', j + 1)
    ensures var p, p' := pools[|ops|], pools'[|ops'|]; var q := p.frames[j];
            q != f && f in p'.big && p'.big[f] == p.big[f] && q in p'.big && p'.big[q] == 1
    decreases j
  {
    var p := pools[|ops|];
    var ops1, pools1 := PageOut(ops, pools);
    if j == 0 {
      ops', pools' := ops1, pools1;
      assert Repeat(Malloc(PAGE), 1) == [Malloc(PAGE)];
    } else {
      assert pools1[|ops1|].frames[j - 1] == p.frames[j];
      ops', pools' := TakeUntil(ops1, pools1, f, j - 1);
      RepeatFirst(Malloc(PAGE), j);
    }
  }

  lemma RepeatFirst(op: Op, n: nat)
    ensures Repeat(op, n + 1) == [op] + Repeat(op, n)
  {
  }

  /** Two live allocations overlap. */
  ghost predicate Clash(p: Pool)
  {
    exists a, y, b, z :: Live(p, a, y) && Live(p, b, z) && a != b && !Apart(a, y, b, z)
  }

  lemma BigClash(p: Pool, f: nat, q: nat)
    requires f in p.big && q in p.big && f < q < f + p.big[f]
    ensures Clash(p)
  {
    var a, b := f * PAGE, q * PAGE;
    assert a / PAGE == f && a % PAGE == 0 && b / PAGE == q && b % PAGE == 0;
    assert Live(p, a, p.big[f] * PAGE) && Live(p, b, p.big[q] * PAGE);
    assert !Apart(q * PAGE, PAGE, b, p.big[q] * PAGE);
    PageInRange(f, p.big[f], q, b, p.big[q] * PAGE);
  }

  lemma OccupiedClash(p: Pool, n: nat, q: nat)
    requires Inv(p) && 1 <= n <= |p.frames| && p.frames[0] < q < p.frames[0] + n && Occupied(p, q)
    ensures Clash(TakePages(p, n))
  {
    var f, p' := p.frames[0], TakePages(p, n);
    var b, z := Occupant(p, q);
    PagesTaken(p, n);
    PageInRange(f, n, q, b, z);
    assert Live(p', f * PAGE, n * PAGE) && Live(p', b, z) && b != f * PAGE;
  }

  /** Once a block has been given out that did not fit, calls for one page each lead to an overlap. */
  lemma UnfitOverlaps(ops: seq<Op>, pools: seq<Pool>, sz: nat) returns (ops': seq<Op>, pools': seq<Pool>, m: nat)
    requires IsRun(ops, pools) && Inv(pools[|ops|]) && !Fitting(pools[|ops|], Malloc(sz))
    ensures GoneOn(ops + [Malloc(sz)], pools, ops', pools', m) && Clash(pools'[|ops'|])
  {
    var p, n := pools[|ops|], PagesFor(sz);
    RoundedUp(sz);
    var p' := TakeStep(p, n, sz);
    var ops1, pools1 := RunOn(ops, pools, Malloc(sz), p');
    var q: nat :| p.frames[0] < q < p.frames[0] + n && (Occupied(p, q) || q in p.frames[n..]);
    if Occupied(p, q) {
      OccupiedClash(p, n, q);
      ops', pools', m := ops1, pools1, 0;
    } else {
      var j :| 0 <= j < |p'.frames| && p'.frames[j] == q;
      ops', pools' := TakeUntil(ops1, pools1, p.frames[0], j);
      m := j + 1;
      BigClash(pools'[|ops'|], p.frames[0], q);
    }
  }

  // ---------------------------------------------------------------------------------------------
  // A free that is stopped

  lemma FirstIs(used: set<nat>, i: nat, k: nat)
    requires i <= k < RECORDS && k !in used && forall j | i <= j < k :: j in used
    ensures FirstUnused(used, i) == k
  {
  }

  lemma EmptyOrNot(s: seq<nat>)
    ensures s == [] || exists x :: x in s
  {
    if s != [] {
      assert s[0] in s;
    }
  }

  lemma NoneOfSize(p: Pool, t: nat)
    requires ListsOk(p) && p.recs == map[] && t < NSIZES
    ensures p.same[t] == []
  {
    EmptyOrNot(p.same[t]);
    assert forall id | id in p.same[t] :: id in p.recs;
  }

  lemma SmallestSize(sz: nat)
    requires sz == 16
    ensures sz < LARGEST && TypeFor(sz, 0) == 0
  {
  }

  /** The first k records are lost, and there is no other. */
  ghost predicate OnlyLost(p: Pool, k: nat)
  {
    p.recs == map[] && (forall id :: id in p.lost <==> 0 <= id < k)
  }

  lemma GrowLeaks(p: Pool, t: nat, k: nat)
    requires t < NSIZES && |p.same| == NSIZES && |p.roots| == ROOTS && OnlyLost(p, k) && k < PER_ROOT
    requires |p.frames| == 1 && p.roots[0] == 0
    ensures k !in Taken(p) && Grow(p, t) == Leaked(p.(lost := p.lost + {k}))
  {
    FirstIs(Taken(p), 0, k);
    assert k / PER_ROOT == 0;
  }

  /** With the last frame in hand and no page for the record, a small block is not to be had, and the
      record is lost. */
  lemma LeakStep(p: Pool, sz: nat, k: nat) returns (p': Pool)
    requires Inv(p) && sz == 16 && OnlyLost(p, k) && k < PER_ROOT && |p.frames| == 1 && p.roots[0] == 0
    ensures p' == p.(lost := p.lost + {k}) && Follows(p, Malloc(sz), p') && Inv(p') && OnlyLost(p', k + 1)
  {
    SmallestSize(sz);
    NoneOfSize(p, 0);
    GrowLeaks(p, 0, k);
    p' := p.(lost := p.lost + {k});
    LostOne(p, k);
  }

  /** The pool is as p but for its first k records. */
  ghost predicate Leaky(p: Pool, p': Pool, k: nat)
  {
    Inv(p') && OnlyLost(p', k) && p' == p.(lost := p'.lost)
  }

  lemma {:induction false} LeakRun(ops: seq<Op>, pools: seq<Pool>, sz: nat, k: nat)
    returns (ops': seq<Op>, pools': seq<Pool>)
    requires IsRun(ops, pools) && sz == 16 && k <= PER_ROOT
    requires var p := pools[|ops|]; Inv(p) && OnlyLost(p, 0) && |p.frames| == 1 && p.roots[0] == 0
    ensures ops' == ops + Repeat(Malloc(sz), k) && IsRun(ops', pools') && pools'[0] == pools[0]
    ensures Leaky(pools[|ops|], pools'[|ops'|], k)
  {
    if k == 0 {
      ops', pools' := ops, pools;
    } else {
      var o, q := LeakRun(ops, pools, sz, k - 1);
      var p' := LeakStep(q[|o|], sz, k - 1);
      ops', pools' := RunOn(o, q, Malloc(sz), p');
      assert ops' == ops + Repeat(Malloc(sz), k);
    }
  }

  /** A heap page whose record is on the second root, with one block live. */
  predicate OnSecond(p: Pool, id: nat, t: nat)
  {
    id in p.recs && id == PER_ROOT && t < NSIZES && Capacity(t) > 0 && p.recs[id].t == t
    && p.recs[id].free == Countdown(Capacity(t))[1..] && 0 in p.lost && |p.roots| == ROOTS && p.roots[0] == 0
  }

  lemma StoppedThere(p: Pool, id: nat, t: nat, k: nat)
    requires Inv(p) && OnSecond(p, id, t) && k == Capacity(t) - 1
    ensures Kfree(p, AddressOf(p.recs[id], k)) == Stuck
  {
    assert LiveBlock(p, id, k);
    assert Stranded(p, 0) by {
      assert 0 in p.lost && 0 / PER_ROOT == 0;
    }
    KfreeFinds(p, id, k);
  }

  lemma GrowsOnSecond(p: Pool, t: nat, n: nat)
    requires Inv(p) && t < NSIZES && n == PER_ROOT && OnlyLost(p, n) && |p.frames| == 2 && p.roots[0] == p.roots[1] == 0
    ensures var o := Grow(p, t);
            o.Block? && Inv(o.p) && OnSecond(o.p, n, t) && o.addr == AddressOf(o.p.recs[n], Capacity(t) - 1)
            && Live(o.p, o.addr, BlockSize(t))
  {
    FirstIs(Taken(p), 0, n);
    GrowShape(p, t, n);
    GrowGives(p, t);
    OneMoreLive(p, Grow(p, t), t);
  }

  lemma SecondRoot(p: Pool, sz: nat, t: nat, n: nat) returns (p': Pool, addr: nat)
    requires Inv(p) && sz == 16 && t == 0 && n == PER_ROOT && OnlyLost(p, n) && |p.frames| == 2
    requires p.roots[0] == p.roots[1] == 0
    ensures Follows(p, Malloc(sz), p') && Live(p', addr, sz) && Inv(p') && Kfree(p', addr) == Stuck
  {
    SmallestSize(sz);
    NoneOfSize(p, t);
    GrowsOnSecond(p, t, n);
    var o := Grow(p, t);
    p', addr := o.p, o.addr;
    assert SubpageAlloc(p, t) == o;
    StoppedThere(p', n, t, Capacity(t) - 1);
  }

  /** One page is taken, 256 small blocks are refused, the page is given back, and a small block is had;
      freeing that one is stopped. */
  ghost predicate EndsStuck(ops: seq<Op>, pools: seq<Pool>, f: nat, addr: nat)
  {
    && ops == [Malloc(PAGE)] + Repeat(Malloc(16), PER_ROOT) + [Free(f * PAGE), Malloc(16)] && IsRun(ops, pools)
    && var p := pools[|ops|]; Inv(p) && Live(p, addr, 16) && Kfree(p, addr) == Stuck
  }

  lemma LeaksFirst(p: Pool, f: nat, g: nat, sz: nat, n: nat) returns (ops: seq<Op>, pools: seq<Pool>)
    requires Inv(p) && p.frames == [f, g] && OnlyLost(p, 0) && p.roots[0] == 0 && sz == 16 && n == PER_ROOT
    ensures ops == [Malloc(PAGE)] + Repeat(Malloc(sz), n) && IsRun(ops, pools) && pools[0] == p
    ensures Leaky(TakePages(p, 1), pools[|ops|], n)
  {
    Start(p);
    ops, pools := PageOut([], [p]);
    ops, pools := LeakRun(ops, pools, sz, n);
  }

  /** And the page is given back. */
  lemma LeaksThenBack(p: Pool, f: nat, g: nat, sz: nat, n: nat) returns (ops: seq<Op>, pools: seq<Pool>)
    requires Inv(p) && p.frames == [f, g] && OnlyLost(p, 0) && p.roots[0] == 0 && sz == 16 && n == PER_ROOT
    ensures ops == [Malloc(PAGE)] + Repeat(Malloc(sz), n) + [Free(f * PAGE)] && IsRun(ops, pools) && pools[0] == p
    ensures var p' := pools[|ops|]; Inv(p') && OnlyLost(p', n) && |p'.frames| == 2 && p'.roots == p.roots
  {
    ops, pools := LeaksFirst(p, f, g, sz, n);
    ops, pools := PageBack(ops, pools, f);
  }

  lemma StuckFrom(p: Pool, f: nat, g: nat, sz: nat, n: nat) returns (ops: seq<Op>, pools: seq<Pool>, addr: nat)
    requires Inv(p) && p.frames == [f, g] && OnlyLost(p, 0) && p.roots[0] == p.roots[1] == 0
    requires sz == 16 && n == PER_ROOT
    ensures EndsStuck(ops, pools, f, addr) && pools[0] == p
  {
    ops, pools := LeaksThenBack(p, f, g, sz, n);
    var p';
    p', addr := SecondRoot(pools[|ops|], sz, 0, n);
    ops, pools := RunOn(ops, pools, Malloc(sz), p');
  }

  /** On any two frames: one is taken, 256 small blocks are refused, the page is given back, and a small
      block is had at last. Freeing it fails an assertion. */
  lemma StuckRun(f: nat, g: nat) returns (ops: seq<Op>, pools: seq<Pool>, addr: nat)
    requires 0 < f && 0 < g && f != g
    ensures EndsStuck(ops, pools, f, addr) && pools[0] == Empty([f, g])
  {
    ops, pools, addr := StuckFrom(Empty([f, g]), f, g, 16, PER_ROOT);
  }
}
