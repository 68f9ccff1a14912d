/** The allocator over whole runs: every allocation stays apart from every other, pages are
    neither lost nor used twice, and freeing undoes allocating. */
module KheapRuns {
  import opened Common
  import opened Kheap
  import opened KheapSafety
  import opened KheapWide

  /** A page goes back to the frame list exactly when its last live block is freed. */
  lemma PageReturnedExactly(p: Pool, id: nat, k: nat)
    requires Inv(p) && LiveBlock(p, id, k)
    ensures var p' := Push(p, id, k);
            && (p.recs[id].page in p'.frames <==> forall j: nat | j != k :: !LiveBlock(p, id, j))
            && (p.recs[id].page in p'.frames <==> id !in p'.recs)
  {
    var r := p.recs[id];
    assert RecOk(r);
    if |r.free| + 1 == Capacity(r.t) {
      OnlyOneLeft(r.free, Capacity(r.t), k);
    } else {
      var j := AnotherLeft(r.free, Capacity(r.t), k);
      assert LiveBlock(p, id, j);
    }
  }

  lemma AnotherLeft(free: seq<nat>, c: nat, k: nat) returns (j: nat)
    requires NoDups(free) && |free| + 1 < c && k < c && k !in free
    ensures j < c && j != k && j !in free
  {
    j := SomeLeft([k] + free, c);
  }

  // ---------------------------------------------------------------------------------------------
  // Freeing undoes allocating

  lemma PushUndoesPop(p: Pool, id: nat)
    requires id in p.recs && p.recs[id].t < NSIZES && |p.same| == NSIZES
    requires 0 < |p.recs[id].free| < Capacity(p.recs[id].t)
    ensures Push(Pop(p, id).p, id, p.recs[id].free[0]) == p
  {
    var r := p.recs[id];
    assert [r.free[0]] + r.free[1..] == r.free;
    assert Push(Pop(p, id).p, id, r.free[0]).recs == p.recs;
  }

  /** An allocation from a page that was there is undone completely. */
  lemma PopThenPush(p: Pool, id: nat)
    requires Inv(p) && id in p.recs && p.recs[id].free != []
    ensures var o := Pop(p, id); Inv(o.p) && Undoes(o.p, o.addr, id, p) && !CannotDrop(o.p, id)
  {
    assert RecOk(p.recs[id]);
    PopKeeps(p, id);
    PushUndoesPop(p, id);
    assert LiveBlock(Pop(p, id).p, id, p.recs[id].free[0]);
  }

  lemma PushUndoesNewPage(p: Pool, t: nat, id: nat)
    requires t < NSIZES && |p.same| == NSIZES && p.frames != [] && id !in p.recs
    ensures Capacity(t) > 0 && Push(NewPage(p, t, id), id, Capacity(t) - 1) == p
  {
    SeveralBlocks(t);
    var q := Push(NewPage(p, t, id), id, Capacity(t) - 1);
    assert q.recs == p.recs;
    FrontGone(id, p.all);
    FrontGone(id, p.same[t]);
    assert q.same == p.same;
    assert q.frames == p.frames;
  }

  lemma FrontGone(id: nat, ids: seq<nat>)
    ensures Without([id] + ids, id) == ids
  {
    assert ([id] + ids)[1..] == ids;
  }

  lemma NewPageThenFree(p: Pool, t: nat, id: nat)
    requires Inv(p) && t < NSIZES && p.frames != [] && id !in Taken(p) && id < RECORDS && p.roots[id / PER_ROOT] != 0
    ensures Inv(NewPage(p, t, id))
    ensures Undoes(NewPage(p, t, id), LastBlock(p.frames[0], t), id, p)
  {
    NewPageKeeps(p, t, id);
    PushUndoesNewPage(p, t, id);
    assert LiveBlock(NewPage(p, t, id), id, Capacity(t) - 1);
  }

  /** The block at addr, of record id, is live in p, and taking it back gives q. */
  ghost predicate Undoes(p: Pool, addr: nat, id: nat, q: Pool)
  {
    && |p.same| == NSIZES
    && exists k :: LiveBlock(p, id, k) && addr == AddressOf(p.recs[id], k) && Push(p, id, k) == q
  }

  lemma FreeAfterwards(p: Pool, addr: nat, id: nat, q: Pool)
    requires Inv(p) && Undoes(p, addr, id, q)
    ensures id in p.recs && Kfree(p, addr) == if CannotDrop(p, id) then Stuck else Freed(q)
  {
    var k :| LiveBlock(p, id, k) && addr == AddressOf(p.recs[id], k) && Push(p, id, k) == q;
    KfreeFinds(p, id, k);
  }

  /** The pool after an allocation that needed a page for records: that page stays. */
  function WithRoot(p: Pool): Pool
    requires Inv(p) && |p.frames| >= 2 && FirstUnused(Taken(p), 0) < RECORDS
  {
    AddRoot(Swapped(p), FirstUnused(Taken(p), 0) / PER_ROOT)
  }

  /** The pool before an allocation, but for a page that has become one for records. */
  function Before(p: Pool, p': Pool): Pool
    requires Inv(p)
  {
    if p'.roots == p.roots || |p.frames| < 2 || FirstUnused(Taken(p), 0) == RECORDS then p else WithRoot(p)
  }

  lemma GrowThenFree(p: Pool, t: nat)
    requires Inv(p) && t < NSIZES && Grow(p, t).Block?
    ensures var o, id := Grow(p, t), FirstUnused(Taken(p), 0);
            Inv(o.p) && o.p.all != p.all && Undoes(o.p, o.addr, id, Before(p, o.p))
  {
    var id := FirstUnused(Taken(p), 0);
    var root := id / PER_ROOT;
    if p.roots[root] != 0 {
      NewPageIsAddThenPop(p, t, id);
      NewPageThenFree(p, t, id);
    } else {
      RootThenFree(p, t, id, root);
    }
  }

  lemma RootThenFree(p: Pool, t: nat, id: nat, root: nat)
    requires Inv(p) && t < NSIZES && |p.frames| >= 2 && id == FirstUnused(Taken(p), 0) < RECORDS
    requires root == id / PER_ROOT && p.roots[root] == 0
    ensures AddPage(p, t, id).recs[id].free != []
    ensures var o := Pop(AddRoot(AddPage(p, t, id), root), id);
            Inv(o.p) && o.p.all != p.all && o.p.roots != p.roots && Undoes(o.p, o.addr, id, WithRoot(p))
  {
    var q := RootedFirst(p, root);
    RootFirst(p, t, id, root);
    NewPageThenFree(q, t, id);
    assert q.roots[root] != p.roots[root];
  }

  /** An allocation of less than a page can be taken back. */
  lemma SubpageUndone(p: Pool, t: nat) returns (id: nat)
    requires Inv(p) && t < NSIZES && SubpageAlloc(p, t).Block?
    ensures var o := SubpageAlloc(p, t);
            && Inv(o.p) && Undoes(o.p, o.addr, id, Before(p, o.p)) && id in o.p.recs
            && (if o.p.all == p.all then !CannotDrop(o.p, id) else id == FirstUnused(Taken(p), 0))
  {
    var ids := p.same[t];
    var i := FirstWithFree(p, ids, 0);
    if i < |ids| {
      id := ids[i];
      assert id in p.same[t];
      PopThenPush(p, id);
    } else {
      id := FirstUnused(Taken(p), 0);
      GrowThenFree(p, t);
    }
  }

  /** kfree undoes kmalloc: the pool is what it was, up to a page kept for records. The one free that
      can be stuck is that of the first block of a new page. */
  lemma FreeUndoesAlloc(p: Pool, sz: nat)
    requires Inv(p) && sz <= PAGE && Kmalloc(p, sz).Block?
    ensures var o, id := Kmalloc(p, sz), FirstUnused(Taken(p), 0);
            && Inv(o.p) && (o.p.all != p.all ==> id in o.p.recs)
            && Kfree(o.p, o.addr) == if o.p.all != p.all && CannotDrop(o.p, id) then Stuck else Freed(Before(p, o.p))
  {
    if sz >= LARGEST {
      RoundedUp(sz);
      FreeOfPage(p);
    } else {
      var o := Kmalloc(p, sz);
      var id := SubpageUndone(p, TypeFor(sz, 0));
      FreeAfterwards(o.p, o.addr, id, Before(p, o.p));
    }
  }

  /** kfree gives the first page of a block back, and no other. */
  lemma FreeOfPages(p: Pool, n: nat)
    requires Inv(p) && 1 <= n <= |p.frames|
    ensures var p' := TakePages(p, n);
            && Inv(p') && Kfree(p', p.frames[0] * PAGE)
                          == Freed(p.(frames := [p.frames[0]] + p.frames[n..], gone := p.gone + Behind(p.frames, n)))
  {
    var f, p' := p.frames[0], TakePages(p, n);
    PagesTaken(p, n);
    assert (f * PAGE) / PAGE == f && (f * PAGE) % PAGE == 0;
    WholePageBack(p', f * PAGE);
    assert p.big[f := n] - {f} == p.big;
  }

  lemma FreeOfPage(p: Pool)
    requires Inv(p) && p.frames != []
    ensures var p' := TakePages(p, 1); Inv(p') && p'.all == p.all && Kfree(p', p.frames[0] * PAGE) == Freed(p)
  {
    FreeOfPages(p, 1);
    assert Behind(p.frames, 1) == {};
    assert [p.frames[0]] + p.frames[1..] == p.frames;
  }

  /** What becomes of a block of several pages: all but the first are lost. */
  lemma WideNotUndone(p: Pool, sz: nat)
    requires Inv(p) && PAGE < sz < ADDRESSES && Kmalloc(p, sz).Block?
    ensures var o, n := Kmalloc(p, sz), PagesFor(sz);
            && 2 <= n <= |p.frames| && Inv(o.p)
            && Kfree(o.p, o.addr)
                 == Freed(p.(frames := [p.frames[0]] + p.frames[n..], gone := p.gone + Behind(p.frames, n)))
            && |Behind(p.frames, n)| == n - 1
  {
    var n := PagesFor(sz);
    RoundedUp(sz);
    FreeOfPages(p, n);
    var s := p.frames[1..n];
    DistinctSize(s);
    assert Behind(p.frames, n) == set i | 0 <= i < |s| :: s[i];
  }

  // ---------------------------------------------------------------------------------------------
  // No page is lost

  /** The pages that are free or in use. */
  ghost function Pages(p: Pool): set<nat>
  {
    (set f | f in p.frames) + p.big.Keys + (set id | id in p.recs :: p.recs[id].page) + (set f | f in p.roots) - {0}
  }

  lemma PushConserves(p: Pool, id: nat, k: nat)
    requires Inv(p) && LiveBlock(p, id, k)
    ensures Pages(Push(p, id, k)) == Pages(p)
  {
    var p' := Push(p, id, k);
    forall f ensures f in Pages(p') <==> f in Pages(p) {
      if f in Pages(p) && (exists i :: i in p.recs && p.recs[i].page == f) {
        var i :| i in p.recs && p.recs[i].page == f;
        assert i in p'.recs ==> p'.recs[i].page == f;
      }
      if exists i :: i in p'.recs && p'.recs[i].page == f {
        var i :| i in p'.recs && p'.recs[i].page == f;
        assert p.recs[i].page == f;
      }
    }
  }

  lemma PageConserves(p: Pool, f: nat)
    requires f in p.big
    ensures Pages(p.(big := p.big - {f}, frames := [f] + p.frames)) == Pages(p)
  {
  }

  lemma KfreeConserves(p: Pool, addr: nat, z: nat)
    requires Inv(p) && Live(p, addr, z) && Kfree(p, addr).Freed?
    ensures var p' := Kfree(p, addr).p; Pages(p') == Pages(p) && p'.gone == p.gone
  {
    if addr / PAGE in p.big && addr % PAGE == 0 {
      WholePageBack(p, addr);
      PageConserves(p, addr / PAGE);
    } else {
      var id, k :| LiveBlock(p, id, k) && addr == AddressOf(p.recs[id], k) && z == BlockSize(p.recs[id].t);
      KfreeFinds(p, id, k);
      PushConserves(p, id, k);
    }
  }

  lemma SubpageConserves(p: Pool, t: nat)
    requires Inv(p) && t < NSIZES && SubpageAlloc(p, t).Block?
    ensures var o := SubpageAlloc(p, t); Pages(o.p) == Pages(p) && o.p.gone == p.gone
  {
    var o := SubpageAlloc(p, t);
    var id := SubpageUndone(p, t);
    UndoneConserves(p, o.p, o.addr, id);
  }

  lemma UndoneConserves(p: Pool, p': Pool, addr: nat, id: nat)
    requires Inv(p) && Inv(p') && Undoes(p', addr, id, Before(p, p'))
    requires Before(p, p') != p ==> p.roots[FirstUnused(Taken(p), 0) / PER_ROOT] == 0
    ensures Pages(p') == Pages(p) && p'.gone == p.gone
  {
    var k :| LiveBlock(p', id, k) && addr == AddressOf(p'.recs[id], k) && Push(p', id, k) == Before(p, p');
    PushConserves(p', id, k);
    if Before(p, p') != p {
      RootConserves(p);
    }
  }

  lemma WideConserves(p: Pool, n: nat)
    requires PagesOk(p) && 1 <= n <= |p.frames|
    ensures Pages(p) == Pages(TakePages(p, n)) + Behind(p.frames, n) && Pages(TakePages(p, n)) !! Behind(p.frames, n)
  {
    RestOfFrames(p.frames, n);
    FramesAdded(p, n);
    forall f | f in Behind(p.frames, n) ensures f !in Pages(TakePages(p, n)) {
      assert f in p.frames;
    }
  }

  lemma FramesAdded(p: Pool, n: nat)
    requires 1 <= n <= |p.frames| && forall i | 0 <= i < |p.frames| :: 0 < p.frames[i]
    ensures Pages(p) == Pages(TakePages(p, n)) + Behind(p.frames, n)
  {
    ThreeParts(p.frames, n);
  }

  lemma ThreeParts(frames: seq<nat>, n: nat)
    requires 1 <= n <= |frames|
    ensures forall f :: f in frames <==> f == frames[0] || f in Behind(frames, n) || f in frames[n..]
  {
    assert frames == [frames[0]] + frames[1..n] + frames[n..];
  }

  /** Allocating moves no page out of the heap, but those behind the first of a larger block. */
  lemma KmallocConserves(p: Pool, sz: nat)
    requires Inv(p) && sz < ADDRESSES && Kmalloc(p, sz).Block?
    ensures var o, n := Kmalloc(p, sz), PagesFor(sz);
            if sz < LARGEST then Pages(o.p) == Pages(p) && o.p.gone == p.gone
            else 1 <= n <= |p.frames| && o.p.gone == p.gone + Behind(p.frames, n)
                 && Pages(p) == Pages(o.p) + Behind(p.frames, n) && Pages(o.p) !! Behind(p.frames, n)
  {
    if sz < LARGEST {
      SubpageConserves(p, TypeFor(sz, 0));
    } else {
      WideConserves(p, PagesFor(sz));
    }
  }

  lemma RootConserves(p: Pool)
    requires Inv(p) && |p.frames| >= 2 && FirstUnused(Taken(p), 0) < RECORDS
    requires p.roots[FirstUnused(Taken(p), 0) / PER_ROOT] == 0
    ensures Pages(WithRoot(p)) == Pages(p)
  {
    RootPages(p, FirstUnused(Taken(p), 0) / PER_ROOT);
  }

  lemma RootPages(p: Pool, root: nat)
    requires |p.frames| >= 2 && root < |p.roots| && p.roots[root] == 0 && p.frames[1] != 0
    ensures Pages(AddRoot(Swapped(p), root)) == Pages(p)
  {
    var p' := AddRoot(Swapped(p), root);
    assert p.frames == [p.frames[0], p.frames[1]] + p.frames[2..];
    assert p'.frames == [p.frames[0]] + p.frames[2..];
    assert p'.roots[root] == p.frames[1];
    forall f | f in p.roots && f != 0 ensures f in p'.roots {
      var i :| 0 <= i < |p.roots| && p.roots[i] == f;
      assert p'.roots[i] == f;
    }
  }

  // ---------------------------------------------------------------------------------------------
  // Runs

  datatype Op = Malloc(sz: nat) | Free(addr: nat)

  /** All records of a root without a page are lost, if there is a record on a later root. */
  predicate Filled(p: Pool)
    requires |p.roots| == ROOTS
  {
    forall id, root | id in p.recs && 0 <= root < id / PER_ROOT && root < ROOTS && p.roots[root] == 0 ::
        AllLost(p.lost, root)
  }

  predicate AllLost(lost: set<nat>, root: nat)
  {
    forall k | root * PER_ROOT <= k < root * PER_ROOT + PER_ROOT :: k in lost
  }

  /** Records and roots move on: a record in use more at most, and that the first that was not. */
  predicate Advances(p: Pool, p': Pool)
    requires |p.roots| == ROOTS && |p'.roots| == ROOTS
  {
    && (forall id | id in p'.recs :: id in p.recs || (id == FirstUnused(Taken(p), 0) && id < RECORDS))
    && (forall root | 0 <= root < ROOTS && p'.roots[root] == 0 :: p.roots[root] == 0) && p.lost <= p'.lost
  }

  lemma FilledKept(p: Pool, p': Pool)
    requires RecordsOk(p) && RecordsOk(p') && Filled(p) && Advances(p, p')
    ensures Filled(p')
  {
    forall id, root | id in p'.recs && 0 <= root < id / PER_ROOT && root < ROOTS && p'.roots[root] == 0
      ensures AllLost(p'.lost, root)
    {
      if id !in p.recs {
        forall k | root * PER_ROOT <= k < root * PER_ROOT + PER_ROOT ensures k in p'.lost {
          assert k < id && k / PER_ROOT == root;
          assert k in Taken(p) && k !in p.recs;
        }
      }
    }
  }

  /** What a run keeps: besides the invariant, that lost pages are not in use. */
  ghost predicate RunOk(p: Pool, pages: set<nat>)
  {
    Inv(p) && Filled(p) && Pages(p) + p.gone == pages && Pages(p) !! p.gone
  }

  lemma GrowAdvances(p: Pool, t: nat)
    requires t < NSIZES && |p.same| == NSIZES && |p.roots| == ROOTS
    requires !Grow(p, t).Halted? && |Grow(p, t).p.roots| == ROOTS
    ensures Advances(p, Grow(p, t).p)
  {
    SeveralBlocks(t);
  }

  lemma MallocAdvances(p: Pool, sz: nat)
    requires Inv(p) && sz < ADDRESSES && !Kmalloc(p, sz).Halted? && Inv(Kmalloc(p, sz).p)
    ensures Advances(p, Kmalloc(p, sz).p)
  {
    if sz < LARGEST {
      var t := TypeFor(sz, 0);
      if FirstWithFree(p, p.same[t], 0) == |p.same[t]| {
        GrowAdvances(p, t);
      }
    }
  }

  lemma MallocKeeps(p: Pool, sz: nat, pages: set<nat>)
    requires RunOk(p, pages) && sz < ADDRESSES && !Kmalloc(p, sz).Halted?
    ensures RunOk(Kmalloc(p, sz).p, pages)
  {
    KmallocKeeps(p, sz);
    var o := Kmalloc(p, sz);
    MallocAdvances(p, sz);
    FilledKept(p, o.p);
    if o.Block? {
      KmallocConserves(p, sz);
    }
  }

  lemma FreeAdvances(p: Pool, addr: nat)
    requires Inv(p) && Kfree(p, addr).Freed?
    ensures var p' := Kfree(p, addr).p; |p'.roots| == ROOTS && Advances(p, p')
  {
  }

  lemma FreeKeeps(p: Pool, addr: nat, z: nat, pages: set<nat>)
    requires RunOk(p, pages) && Live(p, addr, z) && Kfree(p, addr).Freed?
    ensures RunOk(Kfree(p, addr).p, pages)
  {
    KfreeKeeps(p, addr, z);
    KfreeConserves(p, addr, z);
    FreeAdvances(p, addr);
    FilledKept(p, Kfree(p, addr).p);
  }

  /** No free is stuck before all records of some root have been lost. */
  lemma StuckNeedsLeaks(p: Pool, addr: nat, z: nat)
    requires Inv(p) && Filled(p) && Live(p, addr, z) && Kfree(p, addr).Stuck?
    ensures |p.lost| >= PER_ROOT
  {
    KfreeKeeps(p, addr, z);
    var id: nat, k: nat :| LiveBlock(p, id, k) && addr == AddressOf(p.recs[id], k) && CannotDrop(p, id);
    var root :| 0 <= root < id / PER_ROOT && Stranded(p, root);
    assert AllLost(p.lost, root);
    SmallerSubset(Run(root * PER_ROOT, PER_ROOT), p.lost);
  }

  /** One call by a client that frees only what is live; None where it does not, and where the
      system halts. */
  ghost function Step(p: Pool, op: Op): Option<Pool>
    requires Inv(p)
  {
    match op
    case Malloc(sz) =>
      if sz >= ADDRESSES || Kmalloc(p, sz).Halted? then None else Some(Kmalloc(p, sz).p)
    case Free(addr) =>
      if addr == 0 then Some(p)
      else if (exists z :: Live(p, addr, z)) && Kfree(p, addr).Freed? then Some(Kfree(p, addr).p)
      else None
  }

  ghost predicate Follows(p: Pool, op: Op, p': Pool)
  {
    Inv(p) && Step(p, op) == Some(p')
  }

  lemma StepKeeps(p: Pool, op: Op, p': Pool, pages: set<nat>)
    requires RunOk(p, pages) && Follows(p, op, p')
    ensures RunOk(p', pages)
  {
    match op
    case Malloc(sz) => MallocKeeps(p, sz, pages);
    case Free(addr) =>
      if addr != 0 {
        var z :| Live(p, addr, z);
        FreeKeeps(p, addr, z, pages);
      }
  }

  ghost predicate IsRun(ops: seq<Op>, pools: seq<Pool>)
  {
    |pools| == |ops| + 1 && forall i | 0 <= i < |ops| :: Follows(pools[i], ops[i], pools[i + 1])
  }

  lemma {:induction false} RunKeeps(ops: seq<Op>, pools: seq<Pool>, pages: set<nat>, i: nat)
    requires IsRun(ops, pools) && RunOk(pools[0], pages) && i < |pools|
    ensures RunOk(pools[i], pages)
  {
    if i > 0 {
      var j := i - 1;
      RunKeeps(ops, pools, pages, j);
      assert Follows(pools[j], ops[j], pools[j + 1]);
      StepKeeps(pools[j], ops[j], pools[i], pages);
    }
  }

  /** In every state of every run every page is free or in use or lost behind a block of several pages,
      and a live allocation is aligned and can be freed unless all records of a root are lost. */
  lemma RunPages(frames: seq<nat>, ops: seq<Op>, pools: seq<Pool>, i: nat, a: nat, y: nat)
    requires NoDups(frames) && forall i | 0 <= i < |frames| :: 0 < frames[i]
    requires IsRun(ops, pools) && pools[0] == Empty(frames) && i < |pools|
    ensures var p := pools[i];
            && Pages(p) + p.gone == (set f | f in frames) && Pages(p) !! p.gone
            && (Live(p, a, y) ==> a % 16 == 0 && 0 < a && Inv(p) && (Kfree(p, a).Freed? || |p.lost| >= PER_ROOT))
  {
    EmptyOk(frames);
    RunKeeps(ops, pools, (set f | f in frames), i);
    Standing(pools[i], a, y);
  }

  lemma Standing(p: Pool, a: nat, y: nat)
    requires Inv(p) && Filled(p)
    ensures Live(p, a, y) ==> a % 16 == 0 && 0 < a && (Kfree(p, a).Freed? || |p.lost| >= PER_ROOT)
  {
    if Live(p, a, y) {
      LiveUnique(p, a, y, y);
      KfreeKeeps(p, a, y);
      if Kfree(p, a).Stuck? {
        StuckNeedsLeaks(p, a, y);
      }
    }
  }

  // ---------------------------------------------------------------------------------------------
  // Blocks of several pages over whole runs

  /** If the call gives out whole pages, they fit. A client can see it from the frame list. */
  ghost predicate Fitting(p: Pool, op: Op)
  {
    Inv(p) && op.Malloc? && LARGEST <= op.sz < ADDRESSES && Kmalloc(p, op.sz).Block? ==> FitsIn(p, PagesFor(op.sz))
  }

  /** The call is for no more than a page, or the frames it takes are next to each other. */
  ghost predicate Together(p: Pool, op: Op)
  {
    Inv(p) && op.Malloc? && LARGEST <= op.sz < ADDRESSES && Kmalloc(p, op.sz).Block? ==>
      op.sz <= PAGE || InOneRun(p.frames, PagesFor(op.sz))
  }

  lemma TogetherFits(p: Pool, op: Op)
    requires Inv(p) && InOrder(p) && Together(p, op)
    ensures Fitting(p, op)
  {
    if op.Malloc? && LARGEST <= op.sz < ADDRESSES && Kmalloc(p, op.sz).Block? {
      RoundedUp(op.sz);
      if op.sz <= PAGE {
        OnePageFits(p);
      } else {
        RunFits(p, PagesFor(op.sz));
      }
    }
  }

  lemma FewerInOrder(p: Pool, p': Pool)
    requires InOrder(p) && (forall f | f in p'.big :: f in p.big && p'.big[f] == p.big[f])
    requires forall q | InUse(p', q) :: InUse(p, q)
    ensures InOrder(p')
  {
    assert forall f, q: nat | Extends(p', f, q) :: Extends(p, f, q);
  }

  lemma PopInUse(p: Pool, id: nat)
    requires id in p.recs && p.recs[id].free != []
    ensures forall q | InUse(Pop(p, id).p, q) :: InUse(p, q)
  {
    var p' := Pop(p, id).p;
    assert forall i, q | IsPageOf(p', i, q) :: IsPageOf(p, i, q);
  }

  lemma GrowInUse(p: Pool, t: nat)
    requires Inv(p) && t < NSIZES
    ensures forall q | InUse(Grow(p, t).p, q) :: InUse(p, q)
  {
    var m, p' := FirstUnused(Taken(p), 0), Grow(p, t).p;
    if p.frames != [] && m < RECORDS && (p.roots[m / PER_ROOT] != 0 || |p.frames| >= 2) {
      GrowShape(p, t, m);
      forall q | InUse(p', q) ensures InUse(p, q) {
        if i :| IsPageOf(p', i, q) {
          assert i == m || IsPageOf(p, i, q);
        }
      }
    } else {
      assert forall i, q | IsPageOf(p', i, q) :: IsPageOf(p, i, q);
    }
  }

  lemma SubpageInOrder(p: Pool, t: nat)
    requires Inv(p) && InOrder(p) && t < NSIZES && !SubpageAlloc(p, t).Halted?
    ensures InOrder(SubpageAlloc(p, t).p)
  {
    var ids := p.same[t];
    var i := FirstWithFree(p, ids, 0);
    if i < |ids| {
      assert ids[i] in p.same[t];
      PopInUse(p, ids[i]);
    } else {
      GrowInUse(p, t);
    }
    FewerInOrder(p, SubpageAlloc(p, t).p);
  }

  lemma MallocInOrder(p: Pool, sz: nat)
    requires Inv(p) && InOrder(p) && sz < ADDRESSES && !Kmalloc(p, sz).Halted?
    requires Fitting(p, Malloc(sz))
    ensures InOrder(Kmalloc(p, sz).p)
  {
    if sz < LARGEST {
      SubpageInOrder(p, TypeFor(sz, 0));
    } else if Kmalloc(p, sz).Block? {
      FitKeepsOrder(p, PagesFor(sz));
    }
  }

  lemma PushInUse(p: Pool, id: nat, k: nat)
    requires id in p.recs && p.recs[id].t < NSIZES && |p.same| == NSIZES
    ensures forall q | InUse(Push(p, id, k), q) :: InUse(p, q)
  {
    var p' := Push(p, id, k);
    assert forall i, q | IsPageOf(p', i, q) :: IsPageOf(p, i, q);
    assert IsPageOf(p, id, p.recs[id].page);
  }

  lemma FreeInOrder(p: Pool, addr: nat, z: nat)
    requires Inv(p) && InOrder(p) && Live(p, addr, z) && Kfree(p, addr).Freed?
    ensures InOrder(Kfree(p, addr).p)
  {
    if WholePages(p, addr, z) {
      WholePageBack(p, addr);
      var p' := Kfree(p, addr).p;
      assert forall i, q | IsPageOf(p', i, q) :: IsPageOf(p, i, q);
    } else {
      var id, k :| LiveBlock(p, id, k) && addr == AddressOf(p.recs[id], k) && z == BlockSize(p.recs[id].t);
      KfreeFinds(p, id, k);
      assert RecOk(p.recs[id]);
      PushInUse(p, id, k);
    }
    FewerInOrder(p, Kfree(p, addr).p);
  }

  lemma StepInOrder(p: Pool, op: Op, p': Pool)
    requires InOrder(p) && Follows(p, op, p') && Fitting(p, op)
    ensures InOrder(p')
  {
    match op
    case Malloc(sz) => MallocInOrder(p, sz);
    case Free(addr) =>
      if addr != 0 {
        var z :| Live(p, addr, z);
        FreeInOrder(p, addr, z);
      }
  }

  lemma {:induction false} RunInOrder(ops: seq<Op>, pools: seq<Pool>, pages: set<nat>, i: nat)
    requires IsRun(ops, pools) && RunOk(pools[0], pages) && InOrder(pools[0]) && i < |pools|
    requires forall j | 0 <= j < i :: Fitting(pools[j], ops[j])
    ensures RunOk(pools[i], pages) && InOrder(pools[i])
  {
    RunKeeps(ops, pools, pages, i);
    if i > 0 {
      var j := i - 1;
      RunInOrder(ops, pools, pages, j);
      assert Follows(pools[j], ops[j], pools[j + 1]);
      StepInOrder(pools[j], ops[j], pools[i]);
    }
  }

  lemma InOrderAt(frames: seq<nat>, ops: seq<Op>, pools: seq<Pool>, i: nat)
    requires NoDups(frames) && forall i | 0 <= i < |frames| :: 0 < frames[i]
    requires IsRun(ops, pools) && pools[0] == Empty(frames) && i < |pools|
    requires forall j | 0 <= j < i :: Fitting(pools[j], ops[j])
    ensures Inv(pools[i]) && InOrder(pools[i])
  {
    EmptyOk(frames);
    RunInOrder(ops, pools, (set f | f in frames), i);
  }

  /** In every state of every run whose blocks of whole pages have fitted, any two live allocations are
      apart from the first byte to the last. */
  lemma RunApart(frames: seq<nat>, ops: seq<Op>, pools: seq<Pool>, i: nat, a: nat, y: nat, b: nat, z: nat)
    requires NoDups(frames) && forall i | 0 <= i < |frames| :: 0 < frames[i]
    requires IsRun(ops, pools) && pools[0] == Empty(frames) && i < |pools|
    requires forall j | 0 <= j < i :: Fitting(pools[j], ops[j])
    requires Live(pools[i], a, y) && Live(pools[i], b, z) && a != b
    ensures Apart(a, y, b, z)
  {
    InOrderAt(frames, ops, pools, i);
    LiveApart(pools[i], a, y, b, z);
  }

  lemma {:induction false} TogetherInOrder(ops: seq<Op>, pools: seq<Pool>, pages: set<nat>, i: nat)
    requires IsRun(ops, pools) && RunOk(pools[0], pages) && InOrder(pools[0]) && i < |pools|
    requires forall j | 0 <= j < i :: Together(pools[j], ops[j])
    ensures RunOk(pools[i], pages) && InOrder(pools[i])
  {
    RunKeeps(ops, pools, pages, i);
    if i > 0 {
      var j := i - 1;
      TogetherInOrder(ops, pools, pages, j);
      TogetherFits(pools[j], ops[j]);
      assert Follows(pools[j], ops[j], pools[j + 1]);
      StepInOrder(pools[j], ops[j], pools[i]);
    }
  }

  /** In a run in which every block of several pages is given frames that are next to each other, all of
      them fit. */
  lemma RunTogether(frames: seq<nat>, ops: seq<Op>, pools: seq<Pool>, i: nat)
    requires NoDups(frames) && forall i | 0 <= i < |frames| :: 0 < frames[i]
    requires IsRun(ops, pools) && pools[0] == Empty(frames) && i < |pools|
    requires forall j | 0 <= j < i :: Together(pools[j], ops[j])
    ensures forall j | 0 <= j < i :: Fitting(pools[j], ops[j])
  {
    EmptyOk(frames);
    forall j | 0 <= j < i ensures Fitting(pools[j], ops[j]) {
      TogetherInOrder(ops, pools, (set f | f in frames), j);
      TogetherFits(pools[j], ops[j]);
    }
  }

  function Nones(n: nat): (s: seq<seq<nat>>)
    ensures |s| == n && forall i | 0 <= i < n :: s[i] == []
  {
    if n == 0 then [] else Nones(n - 1) + [[]]
  }

  function Zeros(n: nat): (s: seq<nat>)
    ensures |s| == n && forall i | 0 <= i < n :: s[i] == 0
  {
    if n == 0 then [] else Zeros(n - 1) + [0]
  }

  /** The heap before the first allocation. */
  function Empty(frames: seq<nat>): (p: Pool)
    requires NoDups(frames) && forall i | 0 <= i < |frames| :: 0 < frames[i]
    ensures Inv(p)
  {
    Pool(map[], [], Nones(NSIZES), frames, map[], Zeros(ROOTS), {}, {})
  }

  lemma EmptyOk(frames: seq<nat>)
    requires NoDups(frames) && forall i | 0 <= i < |frames| :: 0 < frames[i]
    ensures RunOk(Empty(frames), set f | f in frames)
  {
    var p := Empty(frames);
    assert forall f :: f in p.roots ==> f == 0;
    assert 0 !in frames;
  }
}
