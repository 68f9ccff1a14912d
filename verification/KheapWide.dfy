/** Blocks of several pages. The page allocator takes the first frames of its list, next to each other
    or not; which blocks then overlap, and when none do. */
module KheapWide {
  import opened Kheap
  import opened KheapSafety

  /** Page q is one of the pages that the block at page f is given out as. */
  predicate Extends(p: Pool, f: nat, q: nat)
  {
    f in p.big && f <= q < f + p.big[f]
  }

  /** Page q is a heap page, or lies under a block of whole pages. */
  ghost predicate Occupied(p: Pool, q: nat)
  {
    (exists id :: IsPageOf(p, id, q)) || (exists f :: Extends(p, f, q))
  }

  /** Page q is free, a heap page, or the first page of a block of whole pages. */
  ghost predicate InUse(p: Pool, q: nat)
  {
    q in p.frames || (exists id :: IsPageOf(p, id, q)) || q in p.big
  }

  /** Behind their first page, blocks of whole pages lie on pages that have no other use, and no two on
      the same. */
  ghost predicate InOrder(p: Pool)
  {
    && (forall f, q: nat | Extends(p, f, q) && q != f :: !InUse(p, q))
    && (forall f, g, q: nat | Extends(p, f, q) && Extends(p, g, q) :: f == g)
  }

  // ---------------------------------------------------------------------------------------------
  // Live allocations are apart

  lemma RangesApart(f: nat, n: nat, g: nat, m: nat)
    requires f + n <= g || g + m <= f
    ensures Apart(f * PAGE, n * PAGE, g * PAGE, m * PAGE)
  {
    assert f + n <= g ==> f * PAGE + n * PAGE <= g * PAGE;
    assert g + m <= f ==> g * PAGE + m * PAGE <= f * PAGE;
  }

  lemma BlockOffRange(f: nat, n: nat, r: Rec, k: nat)
    requires r.t < NSIZES && k < Capacity(r.t) && (r.page < f || r.page >= f + n)
    ensures Apart(f * PAGE, n * PAGE, AddressOf(r, k), BlockSize(r.t))
  {
    WithinPage(r, k);
    RangesApart(f, n, r.page, 1);
  }

  /** No heap page lies under a block of whole pages. */
  lemma HeapPageOff(p: Pool, f: nat, id: nat)
    requires PagesOk(p) && InOrder(p) && f in p.big && id in p.recs
    ensures p.recs[id].page < f || p.recs[id].page >= f + p.big[f]
  {
    assert IsPageOf(p, id, p.recs[id].page);
    assert !Extends(p, f, p.recs[id].page);
  }

  lemma PagesOff(p: Pool, f: nat, g: nat)
    requires PagesOk(p) && InOrder(p) && f in p.big && g in p.big && f != g
    ensures f + p.big[f] <= g || g + p.big[g] <= f
  {
    var q := if f < g then g else f;
    assert !(Extends(p, f, q) && Extends(p, g, q));
  }

  lemma WholeApart(p: Pool, a: nat, y: nat, b: nat, z: nat)
    requires PagesOk(p) && InOrder(p) && WholePages(p, a, y) && WholePages(p, b, z) && a != b
    ensures Apart(a, y, b, z)
  {
    var f, g := a / PAGE, b / PAGE;
    assert a == f * PAGE && b == g * PAGE;
    PagesOff(p, f, g);
    RangesApart(f, p.big[f], g, p.big[g]);
  }

  lemma BlockApart(p: Pool, a: nat, y: nat, id: nat, k: nat)
    requires PagesOk(p) && InOrder(p) && WholePages(p, a, y)
    requires id in p.recs && p.recs[id].t < NSIZES && k < Capacity(p.recs[id].t)
    ensures Apart(a, y, AddressOf(p.recs[id], k), BlockSize(p.recs[id].t))
  {
    var f := a / PAGE;
    assert a == f * PAGE;
    HeapPageOff(p, f, id);
    BlockOffRange(f, p.big[f], p.recs[id], k);
  }

  /** Two live allocations have no byte in common. */
  lemma LiveApart(p: Pool, a: nat, y: nat, b: nat, z: nat)
    requires Inv(p) && InOrder(p) && Live(p, a, y) && Live(p, b, z) && a != b
    ensures Apart(a, y, b, z)
  {
    if WholePages(p, a, y) {
      if WholePages(p, b, z) {
        WholeApart(p, a, y, b, z);
      } else {
        var id, k :| LiveBlock(p, id, k) && b == AddressOf(p.recs[id], k) && z == BlockSize(p.recs[id].t);
        BlockApart(p, a, y, id, k);
      }
    } else {
      var id, k :| LiveBlock(p, id, k) && a == AddressOf(p.recs[id], k) && y == BlockSize(p.recs[id].t);
      if WholePages(p, b, z) {
        BlockApart(p, b, z, id, k);
      } else {
        var id', k' :| LiveBlock(p, id', k') && b == AddressOf(p.recs[id'], k') && z == BlockSize(p.recs[id'].t);
        BlocksApart(p, id, k, id', k');
      }
    }
  }

  /** A block on a free list is apart from every live allocation. */
  lemma FreeApart(p: Pool, a: nat, y: nat, id: nat, k: nat)
    requires Inv(p) && InOrder(p) && Live(p, a, y) && id in p.recs && k in p.recs[id].free
    ensures Apart(a, y, AddressOf(p.recs[id], k), BlockSize(p.recs[id].t))
  {
    assert RecOk(p.recs[id]);
    if WholePages(p, a, y) {
      BlockApart(p, a, y, id, k);
    } else {
      var id', k' :| LiveBlock(p, id', k') && a == AddressOf(p.recs[id'], k') && y == BlockSize(p.recs[id'].t);
      BlocksApart(p, id', k', id, k);
    }
  }

  // ---------------------------------------------------------------------------------------------
  // A block of several pages is given out

  /** Every page of a block of n pages from the first frame on has been taken for it. */
  predicate Covered(frames: seq<nat>, n: nat)
    requires 1 <= n <= |frames|
  {
    forall f: nat | frames[0] <= f < frames[0] + n :: f in frames[..n]
  }

  /** The first n frames are within n pages from the first. */
  predicate InOneRun(frames: seq<nat>, n: nat)
    requires 1 <= n <= |frames|
  {
    forall i | 0 <= i < n :: frames[0] <= frames[i] < frames[0] + n
  }

  function Run(first: nat, n: nat): (s: set<nat>)
    ensures |s| == n && forall f :: f in s <==> first <= f < first + n
  {
    if n == 0 then {} else Run(first, n - 1) + {first + n - 1}
  }

  /** A block of n pages lies on the pages taken for it exactly when they happen to be next to each
      other. */
  lemma CoveredExactly(frames: seq<nat>, n: nat)
    requires NoDups(frames) && 1 <= n <= |frames|
    ensures Covered(frames, n) <==> InOneRun(frames, n)
  {
    var run, first := Run(frames[0], n), frames[..n];
    var taken := set i | 0 <= i < |first| :: first[i];
    DistinctSize(first);
    assert forall f :: f in taken <==> f in first;
    if Covered(frames, n) {
      assert run <= taken;
      SubsetEqual(run, taken);
      forall i | 0 <= i < n ensures frames[0] <= frames[i] < frames[0] + n {
        assert first[i] in taken;
      }
    }
    if InOneRun(frames, n) {
      assert taken <= run;
      SubsetEqual(taken, run);
    }
  }

  /** No page that n pages from the first frame on would cover is occupied. */
  ghost predicate Vacant(p: Pool, n: nat)
    requires 1 <= n <= |p.frames|
  {
    forall q: nat | p.frames[0] <= q < p.frames[0] + n :: !Occupied(p, q)
  }

  /** Nothing live but the block at addr itself shares a byte with its z bytes. */
  ghost predicate AllApart(p: Pool, addr: nat, z: nat)
  {
    forall b, y | Live(p, b, y) && b != addr :: Apart(addr, z, b, y)
  }

  /** An occupied page carries some live allocation. */
  lemma Occupant(p: Pool, q: nat) returns (b: nat, z: nat)
    requires Inv(p) && Occupied(p, q)
    ensures Live(p, b, z) && 0 < z && !Apart(q * PAGE, PAGE, b, z)
  {
    if f: nat :| Extends(p, f, q) {
      b, z := f * PAGE, p.big[f] * PAGE;
      assert b / PAGE == f && b % PAGE == 0;
      assert f * PAGE <= q * PAGE < f * PAGE + p.big[f] * PAGE;
    } else {
      var id :| IsPageOf(p, id, q);
      var r := p.recs[id];
      assert RecOk(r);
      var k := SomeLeft(r.free, Capacity(r.t));
      b, z := AddressOf(r, k), BlockSize(r.t);
      assert LiveBlock(p, id, k);
      WithinPage(r, k);
    }
  }

  /** Fewer numbers than there are below c leave one out. */
  lemma SomeLeft(free: seq<nat>, c: nat) returns (k: nat)
    requires NoDups(free) && |free| < c
    ensures k < c && k !in free
  {
    var s := set i | 0 <= i < |free| :: free[i];
    DistinctSize(free);
    if forall i: nat | i < c :: i in s {
      var below := Below(c);
      assert below <= s;
      SmallerSubset(below, s);
    }
    k :| k < c && k !in s;
  }

  lemma {:induction false} SmallerSubset(a: set<nat>, b: set<nat>)
    requires a <= b
    ensures |a| <= |b|
    decreases |a|
  {
    if a != {} {
      var x :| x in a;
      SmallerSubset(a - {x}, b - {x});
    }
  }

  lemma PageInRange(f: nat, n: nat, q: nat, b: nat, z: nat)
    requires f <= q < f + n && !Apart(q * PAGE, PAGE, b, z)
    ensures !Apart(f * PAGE, n * PAGE, b, z)
  {
    assert f * PAGE <= q * PAGE && q * PAGE + PAGE <= f * PAGE + n * PAGE;
  }

  /** An allocation that overlaps a range of pages occupies one of them. */
  lemma ClashOccupies(p: Pool, f: nat, n: nat, b: nat, z: nat) returns (q: nat)
    requires Inv(p) && 1 <= n && Live(p, b, z) && !Apart(f * PAGE, n * PAGE, b, z)
    ensures f <= q < f + n && Occupied(p, q)
  {
    if WholePages(p, b, z) {
      var g := b / PAGE;
      assert b == g * PAGE;
      if f + n <= g || g + p.big[g] <= f {
        RangesApart(f, n, g, p.big[g]);
      }
      q := if f < g then g else f;
      assert Extends(p, g, q);
    } else {
      var id, k :| LiveBlock(p, id, k) && b == AddressOf(p.recs[id], k) && z == BlockSize(p.recs[id].t);
      q := p.recs[id].page;
      if q < f || q >= f + n {
        BlockOffRange(f, n, p.recs[id], k);
      }
      assert IsPageOf(p, id, q);
    }
  }

  /** A block of n pages is apart from everything else that is live, to its last byte, exactly if none
      of the pages that it covers was occupied. */
  lemma WideApartExactly(p: Pool, sz: nat)
    requires Inv(p) && LARGEST <= sz < ADDRESSES && Kmalloc(p, sz).Block?
    ensures var o, n := Kmalloc(p, sz), PagesFor(sz);
            sz <= n * PAGE && 1 <= n <= |p.frames| && (AllApart(o.p, o.addr, n * PAGE) <==> Vacant(p, n))
  {
    var o, n, f := Kmalloc(p, sz), PagesFor(sz), p.frames[0];
    RoundedUp(sz);
    PagesTaken(p, n);
    if q: nat :| f <= q < f + n && Occupied(p, q) {
      var b, y := Occupant(p, q);
      PageInRange(f, n, q, b, y);
      assert Live(o.p, b, y) && b != o.addr;
    }
    forall b, y | Vacant(p, n) && Live(o.p, b, y) && b != o.addr ensures Apart(o.addr, n * PAGE, b, y) {
      if !Apart(o.addr, n * PAGE, b, y) {
        var q := ClashOccupies(p, f, n, b, y);
      }
    }
  }

  /** Where the page after the first frame has been given out, a block of two pages lies on it. */
  lemma WideOverlaps(p: Pool)
    requires Inv(p) && |p.frames| >= 2 && p.frames[0] + 1 in p.big
    ensures var o, b := Kmalloc(p, 2 * PAGE), (p.frames[0] + 1) * PAGE;
            o.Block? && exists z :: Live(p, b, z) && Live(o.p, b, z) && !Apart(o.addr, 2 * PAGE, b, z)
  {
    var o, g := Kmalloc(p, 2 * PAGE), p.frames[0] + 1;
    var b := g * PAGE;
    PagesTaken(p, 2);
    assert PagesFor(2 * PAGE) == 2 && b / PAGE == g && b % PAGE == 0;
    assert Live(p, b, p.big[g] * PAGE);
  }

  // ---------------------------------------------------------------------------------------------
  // What keeps blocks apart for good

  /** Each page that n pages from the first frame on would cover is taken along, or has no use. */
  ghost predicate FitsIn(p: Pool, n: nat)
    requires 1 <= n <= |p.frames|
  {
    forall q: nat | p.frames[0] < q < p.frames[0] + n :: !Occupied(p, q) && q !in p.frames[n..]
  }

  lemma NotOccupied(p: Pool, q: nat)
    requires Inv(p) && InOrder(p) && q in p.frames
    ensures !Occupied(p, q)
  {
  }

  /** Frames that are next to each other fit. */
  lemma RunFits(p: Pool, n: nat)
    requires Inv(p) && InOrder(p) && 1 <= n <= |p.frames| && InOneRun(p.frames, n)
    ensures FitsIn(p, n)
  {
    CoveredExactly(p.frames, n);
    forall q: nat | p.frames[0] < q < p.frames[0] + n ensures !Occupied(p, q) && q !in p.frames[n..] {
      var first := p.frames[..n];
      assert Covered(p.frames, n) && q in first;
      var i :| 0 <= i < |first| && first[i] == q;
      assert p.frames[i] == q;
      NotOccupied(p, q);
    }
  }

  lemma OnePageFits(p: Pool)
    requires p.frames != []
    ensures FitsIn(p, 1)
  {
  }

  lemma TakenExtends(p: Pool, n: nat, g: nat, q: nat)
    requires Inv(p) && 1 <= n <= |p.frames|
    ensures var f, p' := p.frames[0], TakePages(p, n);
            Extends(p', g, q) <==> if g == f then f <= q < f + n else Extends(p, g, q)
  {
  }

  lemma TakenInUse(p: Pool, n: nat, q: nat)
    requires Inv(p) && 1 <= n <= |p.frames|
    ensures InUse(TakePages(p, n), q) ==> InUse(p, q)
    ensures InUse(TakePages(p, n), q) && q != p.frames[0] ==> q in p.frames[n..] || Occupied(p, q)
  {
    RestOfFrames(p.frames, n);
    assert forall id | IsPageOf(TakePages(p, n), id, q) :: IsPageOf(p, id, q);
    if q in p.big {
      assert Extends(p, q, q);
    }
  }

  lemma FitKeepsOrder(p: Pool, n: nat)
    requires Inv(p) && InOrder(p) && 1 <= n <= |p.frames| && FitsIn(p, n)
    ensures InOrder(TakePages(p, n))
  {
    var f, p' := p.frames[0], TakePages(p, n);
    forall g, q: nat | Extends(p', g, q) && q != g ensures !InUse(p', q) {
      TakenExtends(p, n, g, q);
      TakenInUse(p, n, q);
    }
    forall g, h, q: nat | Extends(p', g, q) && Extends(p', h, q) ensures g == h {
      TakenExtends(p, n, g, q);
      TakenExtends(p, n, h, q);
      NewApart(p, n, q);
    }
  }

  /** The pages of a block that fits are under no other block. */
  lemma NewApart(p: Pool, n: nat, q: nat)
    requires Inv(p) && InOrder(p) && 1 <= n <= |p.frames| && FitsIn(p, n)
    ensures p.frames[0] <= q < p.frames[0] + n ==> !exists f :: Extends(p, f, q)
  {
    if q == p.frames[0] {
      NotOccupied(p, q);
    } else if p.frames[0] < q < p.frames[0] + n {
      assert !Occupied(p, q);
    }
  }

  /** Giving a block out keeps the blocks in order exactly if it fits. */
  lemma OrderKeptExactly(p: Pool, n: nat)
    requires Inv(p) && InOrder(p) && 1 <= n <= |p.frames|
    ensures InOrder(TakePages(p, n)) <==> FitsIn(p, n)
  {
    var f, p' := p.frames[0], TakePages(p, n);
    if FitsIn(p, n) {
      FitKeepsOrder(p, n);
    }
    if InOrder(p') {
      forall q: nat | f < q < f + n ensures !Occupied(p, q) && q !in p.frames[n..] {
        TakenExtends(p, n, f, q);
        assert Extends(p', f, q);
        forall g | Extends(p, g, q) ensures false {
          TakenExtends(p, n, g, q);
        }
        forall id | IsPageOf(p, id, q) ensures false {
          assert IsPageOf(p', id, q);
        }
      }
    }
  }
}
