/** The subpage kernel allocator on values: heap pages cut into blocks of one size, the records
    that describe them, and the pages they are made of. */
module Kheap {

  const PAGE: nat := 4096
  const NSIZES: nat := 8
  const LARGEST: nat := 2048
  const RECORDS: nat := 4096
  const PER_ROOT: nat := 256
  const ROOTS: nat := 16
  const MAX_PAGES: nat := 10
  const ADDRESSES: nat := 0x1_0000_0000

  const SIZES: seq<nat> := [16, 32, 64, 128, 256, 512, 1024, 2048]

  function BlockSize(t: nat): (z: nat)
    ensures 16 <= z
  {
    if t == 0 then 16 else 2 * BlockSize(t - 1)
  }

  /** The number of blocks on a page. */
  function Capacity(t: nat): nat
  {
    if t == 0 then 256 else Capacity(t - 1) / 2
  }

  /** The table of block sizes; a page holds a whole number of blocks of each. */
  lemma SizeTable(t: nat)
    requires t < NSIZES
    ensures BlockSize(t) == SIZES[t] && Capacity(t) == PAGE / SIZES[t] && BlockSize(t) * Capacity(t) == PAGE
  {
    assert BlockSize(1) == 32 && BlockSize(2) == 64 && BlockSize(3) == 128 && BlockSize(4) == 256;
    assert BlockSize(5) == 512 && BlockSize(6) == 1024 && BlockSize(7) == 2048;
    assert Capacity(1) == 128 && Capacity(2) == 64 && Capacity(3) == 32 && Capacity(4) == 16;
    assert Capacity(5) == 8 && Capacity(6) == 4 && Capacity(7) == 2;
  }

  lemma SeveralBlocks(t: nat)
    requires t < NSIZES
    ensures Capacity(t) >= 2
  {
    SizeTable(t);
  }

  /** A heap page: its blocks are numbered, and free lists the numbers of the free ones in the
      order of the list threaded through them. */
  datatype Rec = Rec(page: nat, t: nat, free: seq<nat>)

  /** The number of pages of a block of whole pages. */
  type PageCount = n: nat | 1 <= n witness 1

  /** Records by number, the list of all records, the lists by size, the free page frames, the blocks
      given out as whole pages with the number of their pages, the page of each root of the record
      pool (0 for none), the records marked in use for good without being in use, and the pages taken
      behind the first page of a larger block. */
  datatype Pool = Pool(recs: map<nat, Rec>, all: seq<nat>, same: seq<seq<nat>>,
                       frames: seq<nat>, big: map<nat, PageCount>, roots: seq<nat>, lost: set<nat>, gone: set<nat>)

  /** The records that are marked in use. */
  function Taken(p: Pool): set<nat> { p.recs.Keys + p.lost }

  function AddressOf(r: Rec, k: nat): nat
  {
    r.page * PAGE + k * BlockSize(r.t)
  }

  predicate NoDups(s: seq<nat>)
  {
    forall i, j | 0 <= i < j < |s| :: s[i] != s[j]
  }

  // ---------------------------------------------------------------------------------------------
  // The invariant

  /** Free blocks are blocks of the page, each on the list once, and some block is live. */
  predicate RecOk(r: Rec)
  {
    && r.t < NSIZES && 0 < r.page
    && (forall i | 0 <= i < |r.free| :: r.free[i] < Capacity(r.t))
    && NoDups(r.free)
    && |r.free| < Capacity(r.t)
  }

  /** Every record is on the list of all and on the list of its size, once, and on no other. */
  ghost predicate ListsOk(p: Pool)
  {
    && NoDups(p.all) && (forall id :: id in p.all <==> id in p.recs)
    && |p.same| == NSIZES
    && (forall t | 0 <= t < NSIZES :: NoDups(p.same[t]))
    && (forall t, id | 0 <= t < NSIZES :: id in p.same[t] <==> id in p.recs && p.recs[id].t == t)
  }

  /** A record lives on the page of its root. */
  predicate RecordsOk(p: Pool)
  {
    && |p.roots| == ROOTS
    && (forall id | id in p.recs :: RecOk(p.recs[id]))
    && (forall id | id in p.recs :: id < RECORDS && p.roots[id / PER_ROOT] != 0)
    && (forall id | id in p.lost :: id < RECORDS && id !in p.recs)
  }

  /** No page has two uses. */
  predicate PagesOk(p: Pool)
  {
    && (forall id, id' | id in p.recs && id' in p.recs && id != id' :: p.recs[id].page != p.recs[id'].page)
    && (forall id | id in p.recs :: p.recs[id].page !in p.frames)
    && (forall id | id in p.recs :: p.recs[id].page !in p.big)
    && (forall id | id in p.recs :: p.recs[id].page !in p.roots)
    && NoDups(p.frames) && (forall i | 0 <= i < |p.frames| :: 0 < p.frames[i])
    && (forall i | 0 <= i < |p.frames| :: p.frames[i] !in p.big && p.frames[i] !in p.roots)
    && 0 !in p.big && (forall i | 0 <= i < |p.roots| :: p.roots[i] !in p.big)
    && (forall i, j | 0 <= i < j < |p.roots| && p.roots[i] != 0 :: p.roots[i] != p.roots[j])
  }

  ghost predicate Inv(p: Pool)
  {
    ListsOk(p) && RecordsOk(p) && PagesOk(p)
  }

  // ---------------------------------------------------------------------------------------------
  // Allocation

  /** blocktype: the first size that fits, from t on. */
  function TypeFor(sz: nat, t: nat): (r: nat)
    requires t < NSIZES && sz <= LARGEST
    ensures t <= r < NSIZES && sz <= BlockSize(r)
    ensures forall u | t <= u < r :: BlockSize(u) < sz
    decreases NSIZES - t
  {
    SizeTable(t);
    if sz <= BlockSize(t) then t else TypeFor(sz, t + 1)
  }

  predicate HasFree(p: Pool, id: nat)
  {
    id in p.recs && p.recs[id].free != []
  }

  /** The first record of a size list, from i on, with a free block. */
  function FirstWithFree(p: Pool, ids: seq<nat>, i: nat): (r: nat)
    requires i <= |ids|
    ensures i <= r <= |ids|
    ensures r < |ids| ==> HasFree(p, ids[r])
    ensures forall k | i <= k < r :: !HasFree(p, ids[k])
    decreases |ids| - i
  {
    if i == |ids| || HasFree(p, ids[i]) then i else FirstWithFree(p, ids, i + 1)
  }

  /** The first record number not in use, from i on. */
  function FirstUnused(used: set<nat>, i: nat): (m: nat)
    requires i <= RECORDS
    ensures i <= m <= RECORDS
    ensures m < RECORDS ==> m !in used
    ensures forall k | i <= k < m :: k in used
    decreases RECORDS - i
  {
    if i == RECORDS || i !in used then i else FirstUnused(used, i + 1)
  }

  /** The free list of a fresh page: from the last block down to the first. */
  function Countdown(n: nat): (s: seq<nat>)
    ensures |s| == n && forall i | 0 <= i < n :: s[i] == n - 1 - i
  {
    if n == 0 then [] else [n - 1] + Countdown(n - 1)
  }

  /** What an allocation gives: a block; nothing; nothing, with a record marked in use for good
      because its root's page could not be got; or the end of the system, by an assertion, a panic
      or a step past the end of the frame list. */
  datatype Outcome = Block(p: Pool, addr: nat) | NoMemory(p: Pool) | Leaked(p: Pool) | Halted

  /** Take the block at the head of a free list. */
  function Pop(p: Pool, id: nat): Outcome
    requires id in p.recs && p.recs[id].free != []
  {
    var r := p.recs[id];
    Block(p.(recs := p.recs[id := r.(free := r.free[1..])]), AddressOf(r, r.free[0]))
  }

  /** A page from the frame list becomes a heap page with all blocks free. */
  function AddPage(p: Pool, t: nat, id: nat): (q: Pool)
    requires t < NSIZES && |p.same| == NSIZES && p.frames != []
  {
    p.(recs := p.recs[id := Rec(p.frames[0], t, Countdown(Capacity(t)))],
       all := [id] + p.all,
       same := p.same[t := [id] + p.same[t]],
       frames := p.frames[1..])
  }

  /** The next page from the frame list becomes the page of a root of the record pool. */
  function AddRoot(p: Pool, root: nat): Pool
    requires root < |p.roots| && p.frames != []
  {
    p.(roots := p.roots[root := p.frames[0]], frames := p.frames[1..])
  }

  /** The part of subpage_kmalloc that runs when no page of the size has a free block. */
  function Grow(p: Pool, t: nat): Outcome
    requires t < NSIZES && |p.same| == NSIZES && |p.roots| == ROOTS
  {
    if p.frames == [] then NoMemory(p)
    else
      var id := FirstUnused(Taken(p), 0);
      if id == RECORDS then NoMemory(p)
      else
        var root := id / PER_ROOT;
        var q := AddPage(p, t, id);
        SeveralBlocks(t);
        if p.roots[root] != 0 then Pop(q, id)
        else if |p.frames| == 1 then Leaked(p.(lost := p.lost + {id}))
        else Pop(AddRoot(q, root), id)
  }

  function SubpageAlloc(p: Pool, t: nat): Outcome
    requires Inv(p) && t < NSIZES
  {
    var ids := p.same[t];
    var i := FirstWithFree(p, ids, 0);
    if i < |ids| then Pop(p, ids[i]) else Grow(p, t)
  }

  /** The number of pages for sz bytes, rounded up in 32 bits. */
  function PagesFor(sz: nat): nat
  {
    (sz + PAGE - 1) % ADDRESSES / PAGE
  }

  /** check_free_frame, which looks at the first frame and at no further one. */
  function FramesSeen(frames: seq<nat>, n: nat): nat
  {
    if frames == [] then 0 else if |frames| == 1 || n <= 1 then 1 else n
  }

  /** The pages after the first of n. */
  function Behind(frames: seq<nat>, n: nat): set<nat>
    requires 1 <= n <= |frames|
  {
    set f | f in frames[1..n]
  }

  /** alloc_kpages: n frames from the head of the list, and the address of the first. */
  function PageAlloc(p: Pool, n: nat): Outcome
  {
    var seen := FramesSeen(p.frames, n);
    if n >= MAX_PAGES then Halted
    else if seen == 0 then NoMemory(p)
    else if seen != n || |p.frames| < n then Halted
    else
      Block(p.(frames := p.frames[n..], big := p.big[p.frames[0] := n], gone := p.gone + Behind(p.frames, n)),
            p.frames[0] * PAGE)
  }

  function Kmalloc(p: Pool, sz: nat): Outcome
    requires Inv(p) && sz < ADDRESSES
  {
    if sz >= LARGEST then PageAlloc(p, PagesFor(sz)) else SubpageAlloc(p, TypeFor(sz, 0))
  }

  // ---------------------------------------------------------------------------------------------
  // Freeing

  function Without(s: seq<nat>, id: nat): seq<nat>
  {
    if s == [] then [] else if s[0] == id then s[1..] else [s[0]] + Without(s[1..], id)
  }

  predicate IsPageOf(p: Pool, id: nat, page: nat)
  {
    id in p.recs && p.recs[id].page == page
  }

  /** The first record of a list, from i on, whose page it is. */
  function RecordOfPage(p: Pool, ids: seq<nat>, page: nat, i: nat): (r: nat)
    requires i <= |ids|
    ensures i <= r <= |ids|
    ensures r < |ids| ==> IsPageOf(p, ids[r], page)
    ensures forall k | i <= k < r :: !IsPageOf(p, ids[k], page)
    decreases |ids| - i
  {
    if i == |ids| || IsPageOf(p, ids[i], page) then i else RecordOfPage(p, ids, page, i + 1)
  }

  /** The number of the block at an offset. */
  function BlockNumber(offset: nat, z: nat): nat
    requires 0 < z
  {
    offset / z
  }

  /** The free; an assertion against a bad address; or the assertion that a root without a page has
      no record in use. */
  datatype FreeOutcome = Freed(p: Pool) | BadFree | Stuck

  /** A root has no page and yet a record that is marked in use. */
  predicate Stranded(p: Pool, root: nat)
    requires |p.roots| == ROOTS
  {
    root < ROOTS && p.roots[root] == 0 && exists id | id in p.lost :: id / PER_ROOT == root
  }

  /** freepageref meets such a root on its way to record id. */
  predicate Blocked(p: Pool, id: nat)
    requires |p.roots| == ROOTS
  {
    exists root | 0 <= root < id / PER_ROOT :: Stranded(p, root)
  }

  /** Put block k on the free list of its page; a page without live blocks goes back. */
  function Push(p: Pool, id: nat, k: nat): Pool
    requires id in p.recs && p.recs[id].t < NSIZES && |p.same| == NSIZES
  {
    var r := p.recs[id];
    if |r.free| + 1 == Capacity(r.t) then
      p.(recs := p.recs - {id},
         all := Without(p.all, id),
         same := p.same[r.t := Without(p.same[r.t], id)],
         frames := [r.page] + p.frames)
    else p.(recs := p.recs[id := r.(free := [k] + r.free)])
  }

  function Kfree(p: Pool, addr: nat): FreeOutcome
    requires Inv(p)
  {
    var page, offset := addr / PAGE, addr % PAGE;
    var i := RecordOfPage(p, p.all, page, 0);
    if addr == 0 then Freed(p)
    else if i < |p.all| then
      var id := p.all[i];
      var r := p.recs[id];
      if offset % BlockSize(r.t) != 0 then BadFree
      else
        var k := BlockNumber(offset, BlockSize(r.t));
        if r.free != [] && r.free[0] == k then BadFree
        else if |r.free| + 1 == Capacity(r.t) && Blocked(p, id) then Stuck
        else Freed(Push(p, id, k))
    else if offset != 0 || page in p.frames then BadFree
    else if page in p.big then Freed(p.(big := p.big - {page}, frames := [page] + p.frames))
    else Freed(p.(gone := p.gone - {page}, frames := [page] + p.frames))
  }
}
