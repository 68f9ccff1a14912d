/** What allocation and freeing keep, and what they do to the live blocks. */
module KheapSafety {
  import opened Kheap

  // ---------------------------------------------------------------------------------------------
  // Blocks and addresses

  lemma BlockBounds(t: nat, k: nat)
    requires t < NSIZES && k < Capacity(t)
    ensures 16 <= BlockSize(t) && k * BlockSize(t) + BlockSize(t) <= PAGE
    ensures (k * BlockSize(t)) % BlockSize(t) == 0 && (k * BlockSize(t)) / BlockSize(t) == k
    ensures (k * BlockSize(t)) % 16 == 0
  {
    SizeTable(t);
    Fits(k, Capacity(t), BlockSize(t));
    Times(k, t, BlockSize(t));
  }

  lemma Fits(k: nat, c: nat, z: nat)
    requires k < c && z * c == PAGE
    ensures k * z + z <= PAGE
  {
    assert (k + 1) * z <= c * z;
  }

  lemma Times(k: nat, t: nat, z: nat)
    requires t < NSIZES && z == SIZES[t]
    ensures 16 <= z && (k * z) % z == 0 && (k * z) / z == k && (k * z) % 16 == 0
  {
    var m := z / 16;
    assert z == 16 * m;
    Exact(k, z);
    Exact(k * m, 16);
    assert k * z == k * m * 16;
  }

  lemma Exact(k: nat, z: nat)
    requires 0 < z
    ensures (k * z) % z == 0 && (k * z) / z == k
  {
    var q, r := (k * z) / z, (k * z) % z;
    assert k * z == q * z + r;
    assert q < k ==> (q + 1) * z <= k * z;
    assert q > k ==> (k + 1) * z <= q * z;
  }

  lemma AddressParts(r: Rec, k: nat)
    requires r.t < NSIZES && k < Capacity(r.t)
    ensures AddressOf(r, k) / PAGE == r.page && AddressOf(r, k) % PAGE == k * BlockSize(r.t)
    ensures AddressOf(r, k) % 16 == 0
  {
    BlockBounds(r.t, k);
    Parts(r.page, k * BlockSize(r.t));
  }

  lemma Parts(page: nat, offset: nat)
    requires offset < PAGE && offset % 16 == 0
    ensures (page * PAGE + offset) / PAGE == page && (page * PAGE + offset) % PAGE == offset
    ensures (page * PAGE + offset) % 16 == 0
  {
  }

  predicate LiveBlock(p: Pool, id: nat, k: nat)
  {
    id in p.recs && p.recs[id].t < NSIZES && k < Capacity(p.recs[id].t) && k !in p.recs[id].free
  }

  /** Address addr is a live allocation of z bytes. */
  ghost predicate Live(p: Pool, addr: nat, z: nat)
  {
    || (exists id, k :: LiveBlock(p, id, k) && addr == AddressOf(p.recs[id], k) && z == BlockSize(p.recs[id].t))
    || WholePages(p, addr, z)
  }

  /** A block of whole pages. */
  predicate WholePages(p: Pool, addr: nat, z: nat)
  {
    addr % PAGE == 0 && addr / PAGE in p.big && z == p.big[addr / PAGE] * PAGE
  }

  /** Bytes [a, a + y) and [b, b + z) have nothing in common. */
  predicate Apart(a: nat, y: nat, b: nat, z: nat)
  {
    a + y <= b || b + z <= a
  }

  lemma BlocksApart(p: Pool, id: nat, k: nat, id': nat, k': nat)
    requires Inv(p) && id in p.recs && id' in p.recs && (id != id' || k != k')
    requires k < Capacity(p.recs[id].t) && k' < Capacity(p.recs[id'].t)
    ensures var r, r' := p.recs[id], p.recs[id'];
            Apart(AddressOf(r, k), BlockSize(r.t), AddressOf(r', k'), BlockSize(r'.t))
  {
    var r, r' := p.recs[id], p.recs[id'];
    assert RecOk(r) && RecOk(r');
    if id == id' {
      ApartOnPage(r, k, k');
    } else {
      assert r.page != r'.page;
      ApartOnPages(r, k, r', k');
    }
  }

  lemma ApartOnPage(r: Rec, k: nat, k': nat)
    requires k != k'
    ensures Apart(AddressOf(r, k), BlockSize(r.t), AddressOf(r, k'), BlockSize(r.t))
  {
    var z := BlockSize(r.t);
    MultiplesApart(z, k, k');
    Shifted(r.page * PAGE, k * z, k' * z, z);
  }

  lemma ApartOnPages(r: Rec, k: nat, r': Rec, k': nat)
    requires r.t < NSIZES && r'.t < NSIZES && k < Capacity(r.t) && k' < Capacity(r'.t) && r.page != r'.page
    ensures Apart(AddressOf(r, k), BlockSize(r.t), AddressOf(r', k'), BlockSize(r'.t))
  {
    WithinPage(r, k);
    WithinPage(r', k');
    PagesApart(r.page, AddressOf(r, k), BlockSize(r.t), r'.page, AddressOf(r', k'), BlockSize(r'.t));
  }

  lemma PagesApart(page: nat, a: nat, y: nat, page': nat, b: nat, z: nat)
    requires page != page' && page * PAGE <= a && a + y <= page * PAGE + PAGE
    requires page' * PAGE <= b && b + z <= page' * PAGE + PAGE
    ensures Apart(a, y, b, z)
  {
    assert page < page' || page' < page;
  }

  lemma Shifted(base: nat, a: nat, b: nat, z: nat)
    requires Apart(a, z, b, z)
    ensures Apart(base + a, z, base + b, z)
  {
  }

  lemma MultiplesApart(z: nat, k: nat, k': nat)
    requires k != k'
    ensures Apart(k * z, z, k' * z, z)
  {
    if k < k' {
      MultiplesGrow(z, k, k');
    } else {
      MultiplesGrow(z, k', k);
    }
  }

  lemma MultiplesGrow(z: nat, k: nat, k': nat)
    requires k < k'
    ensures k * z + z <= k' * z
  {
    var d := k' - k - 1;
    assert k' * z == k * z + z + d * z;
  }

  /** A live address has one size and is aligned. */
  lemma LiveUnique(p: Pool, a: nat, y: nat, z: nat)
    requires Inv(p) && Live(p, a, y) && Live(p, a, z)
    ensures y == z && a % 16 == 0 && 0 < a
  {
    if a / PAGE in p.big {
      NotABlock(p, a);
    } else {
      var id, k :| LiveBlock(p, id, k) && a == AddressOf(p.recs[id], k) && y == BlockSize(p.recs[id].t);
      var id', k' :| LiveBlock(p, id', k') && a == AddressOf(p.recs[id'], k') && z == BlockSize(p.recs[id'].t);
      BlockOfAddress(p, id, k, id', k');
    }
  }

  lemma NotABlock(p: Pool, a: nat)
    requires Inv(p) && a / PAGE in p.big
    ensures forall id, k | LiveBlock(p, id, k) :: a != AddressOf(p.recs[id], k)
    ensures a > 0
  {
    forall id, k | LiveBlock(p, id, k) ensures a != AddressOf(p.recs[id], k) {
      AddressParts(p.recs[id], k);
    }
  }

  lemma BlockOfAddress(p: Pool, id: nat, k: nat, id': nat, k': nat)
    requires Inv(p) && LiveBlock(p, id, k) && LiveBlock(p, id', k')
    requires AddressOf(p.recs[id], k) == AddressOf(p.recs[id'], k')
    ensures id == id' && k == k' && AddressOf(p.recs[id], k) % 16 == 0 && 0 < AddressOf(p.recs[id], k)
  {
    AddressParts(p.recs[id], k);
    AddressParts(p.recs[id'], k');
    BlockBounds(p.recs[id].t, k);
    BlockBounds(p.recs[id].t, k');
    assert RecOk(p.recs[id]);
  }

  // ---------------------------------------------------------------------------------------------
  // Taking a block

  /** The live blocks after: those before, and block k of record id. */
  ghost predicate OneMore(p: Pool, p': Pool, id: nat, k: nat)
  {
    && LiveBlock(p', id, k) && !LiveBlock(p, id, k)
    && (forall i, j :: LiveBlock(p', i, j) <==> LiveBlock(p, i, j) || (i == id && j == k))
    && (forall i | i in p.recs :: i in p'.recs && p'.recs[i].page == p.recs[i].page && p'.recs[i].t == p.recs[i].t)
  }

  lemma TailOk(r: Rec)
    requires RecOk(r) && r.free != []
    ensures RecOk(r.(free := r.free[1..]))
    ensures forall k :: k in r.free <==> k == r.free[0] || k in r.free[1..]
    ensures r.free[0] !in r.free[1..]
  {
    assert r.free == [r.free[0]] + r.free[1..];
  }

  /** A record's free list changes and nothing else does. */
  lemma FreeListOnly(p: Pool, p': Pool, id: nat)
    requires Inv(p) && id in p.recs && p' == p.(recs := p'.recs)
    requires id in p'.recs && p'.recs == p.recs[id := p'.recs[id]]
    requires p'.recs[id] == p.recs[id].(free := p'.recs[id].free) && RecOk(p'.recs[id])
    ensures Inv(p')
  {
    assert forall i | i in p'.recs :: p'.recs[i].page == p.recs[i].page && p'.recs[i].t == p.recs[i].t;
    assert ListsOk(p');
    assert PagesOk(p');
  }

  lemma PopKeeps(p: Pool, id: nat)
    requires Inv(p) && id in p.recs && p.recs[id].free != []
    ensures var o := Pop(p, id); Inv(o.p) && OneMore(p, o.p, id, p.recs[id].free[0]) && o.p.big == p.big
  {
    assert RecOk(p.recs[id]);
    TailOk(p.recs[id]);
    PopAdds(p, id);
    FreeListOnly(p, Pop(p, id).p, id);
  }

  lemma PopAdds(p: Pool, id: nat)
    requires id in p.recs && p.recs[id].free != [] && RecOk(p.recs[id])
    ensures OneMore(p, Pop(p, id).p, id, p.recs[id].free[0])
  {
    TailOk(p.recs[id]);
  }

  /** The first block of a page that was just added. */
  function NewPage(p: Pool, t: nat, id: nat): Pool
    requires t < NSIZES && |p.same| == NSIZES && p.frames != []
  {
    SeveralBlocks(t);
    AddPage(p, t, id).(recs := p.recs[id := Rec(p.frames[0], t, Countdown(Capacity(t))[1..])])
  }

  function LastBlock(page: nat, t: nat): nat
    requires t < NSIZES
  {
    SeveralBlocks(t);
    AddressOf(Rec(page, t, []), Capacity(t) - 1)
  }

  lemma NewPageIsAddThenPop(p: Pool, t: nat, id: nat)
    requires t < NSIZES && |p.same| == NSIZES && p.frames != []
    ensures AddPage(p, t, id).recs[id].free != []
    ensures var o := Pop(AddPage(p, t, id), id);
            o.p == NewPage(p, t, id) && o.addr == LastBlock(p.frames[0], t)
  {
    SeveralBlocks(t);
    var o := Pop(AddPage(p, t, id), id);
    assert o.p.recs == NewPage(p, t, id).recs;
  }

  lemma NewPageLists(p: Pool, t: nat, id: nat)
    requires ListsOk(p) && t < NSIZES && p.frames != [] && id !in p.recs
    ensures ListsOk(NewPage(p, t, id))
  {
    var p' := NewPage(p, t, id);
    assert forall i :: i in p'.all <==> i == id || i in p.all;
    assert forall i :: i in p'.same[t] <==> i == id || i in p.same[t];
  }

  lemma NewPageKeeps(p: Pool, t: nat, id: nat)
    requires Inv(p) && t < NSIZES && p.frames != [] && id !in Taken(p) && id < RECORDS && p.roots[id / PER_ROOT] != 0
    ensures var p' := NewPage(p, t, id);
            Capacity(t) > 0 && Inv(p') && OneMore(p, p', id, Capacity(t) - 1) && p'.big == p.big
  {
    NewPageLists(p, t, id);
    NewPagePages(p, t, id);
    NewPageRecords(p, t, id);
  }

  lemma NewPageRecords(p: Pool, t: nat, id: nat)
    requires RecordsOk(p) && t < NSIZES && |p.same| == NSIZES && p.frames != [] && 0 < p.frames[0]
    requires id !in Taken(p) && id < RECORDS && p.roots[id / PER_ROOT] != 0
    ensures var p' := NewPage(p, t, id);
            Capacity(t) > 0 && RecordsOk(p') && OneMore(p, p', id, Capacity(t) - 1)
  {
    FreshRecord(p.frames[0], t);
    AddedRecord(p, NewPage(p, t, id), id, Rec(p.frames[0], t, Countdown(Capacity(t))[1..]), Capacity(t) - 1);
  }

  lemma AddedRecord(p: Pool, p': Pool, id: nat, r: Rec, k: nat)
    requires RecordsOk(p) && p'.recs == p.recs[id := r] && p'.roots == p.roots && p'.lost == p.lost && RecOk(r)
    requires id !in Taken(p) && id < RECORDS && p.roots[id / PER_ROOT] != 0
    requires k < Capacity(r.t) && forall j: nat | j < Capacity(r.t) :: j !in r.free <==> j == k
    ensures RecordsOk(p') && OneMore(p, p', id, k)
  {
    assert forall i | i in p'.recs && i != id :: p'.recs[i] == p.recs[i];
  }

  lemma FreshRecord(page: nat, t: nat)
    requires t < NSIZES && 0 < page
    ensures Capacity(t) > 0
    ensures var r := Rec(page, t, Countdown(Capacity(t))[1..]);
            RecOk(r) && forall k: nat | k < Capacity(t) :: k !in r.free <==> k == Capacity(t) - 1
  {
    SeveralBlocks(t);
    var c := Capacity(t);
    var s := Countdown(c);
    var f := s[1..];
    forall k: nat | k < c ensures k !in f <==> k == c - 1 {
      if k < c - 1 {
        assert f[c - 2 - k] == k;
      }
    }
  }

  lemma NewPagePages(p: Pool, t: nat, id: nat)
    requires PagesOk(p) && |p.same| == NSIZES && t < NSIZES && p.frames != [] && id !in p.recs
    ensures PagesOk(NewPage(p, t, id))
  {
    var p' := NewPage(p, t, id);
    var f := p.frames[0];
    assert f !in p'.frames;
    assert forall g :: g in p'.frames ==> g in p.frames;
    assert forall i | i in p'.recs :: i == id || p'.recs[i] == p.recs[i];
  }

  lemma RootKeeps(p: Pool, root: nat)
    requires Inv(p) && p.frames != [] && root < ROOTS && p.roots[root] == 0
    ensures var p' := AddRoot(p, root);
            Inv(p') && p'.recs == p.recs && p'.big == p.big && p'.roots[root] != 0
  {
    var p' := AddRoot(p, root);
    var f := p.frames[0];
    assert f !in p'.frames;
    assert forall g :: g in p'.frames ==> g in p.frames;
    assert forall g :: g in p'.roots ==> g == f || g in p.roots;
    assert RecordsOk(p');
    assert ListsOk(p');
  }

  /** The invariant does not mind the order of the first two frames. */
  function Swapped(p: Pool): Pool
    requires |p.frames| >= 2
  {
    p.(frames := [p.frames[1], p.frames[0]] + p.frames[2..])
  }

  lemma SwapKeeps(p: Pool)
    requires Inv(p) && |p.frames| >= 2
    ensures Inv(Swapped(p))
  {
    var p' := Swapped(p);
    assert forall f :: f in p'.frames <==> f in p.frames;
    assert ListsOk(p') && RecordsOk(p');
  }

  /** A block of type t is given: it was not live before, and it alone is added. */
  ghost predicate GivesBlock(p: Pool, o: Outcome, t: nat)
  {
    && o.Block? && Inv(o.p) && o.p.big == p.big
    && exists id, k :: OneMore(p, o.p, id, k) && o.p.recs[id].t == t && o.addr == AddressOf(o.p.recs[id], k)
  }

  lemma GrowSimply(p: Pool, t: nat, id: nat)
    requires Inv(p) && t < NSIZES && p.frames != [] && id !in Taken(p) && id < RECORDS && p.roots[id / PER_ROOT] != 0
    ensures AddPage(p, t, id).recs[id].free != [] && GivesBlock(p, Pop(AddPage(p, t, id), id), t)
  {
    NewPageKeeps(p, t, id);
    NewPageIsAddThenPop(p, t, id);
    var p' := NewPage(p, t, id);
    assert OneMore(p, p', id, Capacity(t) - 1) && p'.recs[id].t == t;
  }

  /** Taking the second frame for the root first comes to the same. */
  lemma RootFirst(p: Pool, t: nat, id: nat, root: nat)
    requires t < NSIZES && |p.same| == NSIZES && |p.frames| >= 2 && root < |p.roots|
    ensures AddPage(p, t, id).recs[id].free != []
    ensures var o := Pop(AddRoot(AddPage(p, t, id), root), id); var q := AddRoot(Swapped(p), root);
            o.p == NewPage(q, t, id) && o.addr == LastBlock(q.frames[0], t)
  {
    NewPageIsAddThenPop(p, t, id);
    var q := AddRoot(Swapped(p), root);
    assert q.frames == [p.frames[0]] + p.frames[2..];
    assert p.frames[1..][1..] == q.frames[1..];
  }

  lemma RootedFirst(p: Pool, root: nat) returns (q: Pool)
    requires Inv(p) && |p.frames| >= 2 && root < ROOTS && p.roots[root] == 0
    ensures q == AddRoot(Swapped(p), root) && Inv(q) && q.frames != [] && q.roots[root] != 0
    ensures q.recs == p.recs && q.big == p.big && q.lost == p.lost
  {
    SwapKeeps(p);
    q := AddRoot(Swapped(p), root);
    RootKeeps(Swapped(p), root);
  }

  /** A heap page from the first frame and a record page from the second. */
  lemma GrowWithRoot(p: Pool, t: nat, id: nat, root: nat)
    requires Inv(p) && t < NSIZES && |p.frames| >= 2 && id !in Taken(p) && id < RECORDS
    requires root == id / PER_ROOT && p.roots[root] == 0
    ensures AddPage(p, t, id).recs[id].free != [] && GivesBlock(p, Pop(AddRoot(AddPage(p, t, id), root), id), t)
  {
    var q := RootedFirst(p, root);
    GrowOnRoot(p, q, t, id, root);
  }

  lemma GrowOnRoot(p: Pool, q: Pool, t: nat, id: nat, root: nat)
    requires t < NSIZES && |p.frames| >= 2 && id !in Taken(p) && id < RECORDS && |p.same| == NSIZES
    requires |p.roots| == ROOTS
    requires root == id / PER_ROOT && q == AddRoot(Swapped(p), root) && Inv(q) && q.frames != [] && q.roots[root] != 0
    requires q.recs == p.recs && q.big == p.big && q.lost == p.lost
    ensures AddPage(p, t, id).recs[id].free != [] && GivesBlock(p, Pop(AddRoot(AddPage(p, t, id), root), id), t)
  {
    NewPageKeeps(q, t, id);
    RootFirst(p, t, id, root);
    SameRecords(p, q, NewPage(q, t, id), id, Capacity(t) - 1);
  }

  lemma SameRecords(p: Pool, q: Pool, p': Pool, id: nat, k: nat)
    requires q.recs == p.recs && OneMore(q, p', id, k)
    ensures OneMore(p, p', id, k)
  {
    assert forall i, j :: LiveBlock(q, i, j) <==> LiveBlock(p, i, j);
  }

  /** What growing does to the pool, field by field. */
  lemma GrowShape(p: Pool, t: nat, m: nat)
    requires t < NSIZES && |p.same| == NSIZES && |p.roots| == ROOTS && p.frames != []
    requires m == FirstUnused(Taken(p), 0) < RECORDS && (p.roots[m / PER_ROOT] != 0 || |p.frames| >= 2)
    ensures Capacity(t) > 0
    ensures var o := Grow(p, t); var needed := p.roots[m / PER_ROOT] == 0;
            && o.Block? && o.addr == LastBlock(p.frames[0], t)
            && o.p.recs == p.recs[m := Rec(p.frames[0], t, Countdown(Capacity(t))[1..])]
            && o.p.all == [m] + p.all && o.p.same == p.same[t := [m] + p.same[t]] && o.p.big == p.big
            && o.p.frames == p.frames[if needed then 2 else 1..]
            && o.p.roots == (if needed then p.roots[m / PER_ROOT := p.frames[1]] else p.roots)
            && o.p.lost == p.lost && o.p.gone == p.gone
  {
    SeveralBlocks(t);
    var root := m / PER_ROOT;
    if p.roots[root] != 0 {
      NewPageIsAddThenPop(p, t, m);
    } else {
      RootFirst(p, t, m, root);
      assert AddRoot(Swapped(p), root).frames == [p.frames[0]] + p.frames[2..];
    }
  }

  /** No block of the size is free, and nothing can be done about it. */
  ghost predicate Exhausted(p: Pool, t: nat)
    requires Inv(p) && t < NSIZES
  {
    && (forall i | i in p.recs && p.recs[i].t == t :: p.recs[i].free == [])
    && (p.frames == [] || forall i: nat | i < RECORDS :: i in Taken(p))
  }

  /** The one situation in which a record is lost: the last frame is in hand, and the page for
      the record would be needed too. */
  ghost predicate LastFrame(p: Pool, t: nat)
    requires Inv(p) && t < NSIZES
  {
    && (forall i | i in p.recs && p.recs[i].t == t :: p.recs[i].free == [])
    && |p.frames| == 1
    && var m := FirstUnused(Taken(p), 0); m < RECORDS && p.roots[m / PER_ROOT] == 0
  }

  /** One more record is marked in use for good; nothing else is different. */
  ghost predicate LosesOne(p: Pool, p': Pool)
  {
    && Inv(p') && (exists id :: id !in Taken(p) && p' == p.(lost := p.lost + {id}))
    && forall a, z :: Live(p', a, z) <==> Live(p, a, z)
  }

  lemma LostOne(p: Pool, id: nat)
    requires Inv(p) && id !in Taken(p) && id < RECORDS
    ensures LosesOne(p, p.(lost := p.lost + {id}))
  {
    var p' := p.(lost := p.lost + {id});
    assert ListsOk(p') && RecordsOk(p') && PagesOk(p');
    assert forall i, j :: LiveBlock(p', i, j) <==> LiveBlock(p, i, j);
  }

  lemma GrowGives(p: Pool, t: nat)
    requires Inv(p) && t < NSIZES && Grow(p, t).Block?
    ensures GivesBlock(p, Grow(p, t), t)
  {
    var id := FirstUnused(Taken(p), 0);
    var root := id / PER_ROOT;
    if p.roots[root] != 0 {
      GrowSimply(p, t, id);
    } else {
      GrowWithRoot(p, t, id, root);
    }
  }

  lemma GrowFails(p: Pool, t: nat)
    requires Inv(p) && t < NSIZES
    requires forall i | i in p.recs && p.recs[i].t == t :: p.recs[i].free == []
    ensures var o := Grow(p, t);
            && (o.NoMemory? <==> Exhausted(p, t)) && (o.NoMemory? ==> o.p == p)
            && (o.Leaked? <==> LastFrame(p, t)) && (o.Leaked? ==> LosesOne(p, o.p))
  {
    var id := FirstUnused(Taken(p), 0);
    assert id < RECORDS ==> !(forall i: nat | i < RECORDS :: i in Taken(p));
    if Grow(p, t).Leaked? {
      LostOne(p, id);
    }
  }

  lemma GrowKeeps(p: Pool, t: nat)
    requires Inv(p) && t < NSIZES
    requires forall i | i in p.recs && p.recs[i].t == t :: p.recs[i].free == []
    ensures var o := Grow(p, t);
            && (o.NoMemory? <==> Exhausted(p, t)) && (o.NoMemory? ==> o.p == p)
            && (o.Leaked? <==> LastFrame(p, t)) && (o.Leaked? ==> LosesOne(p, o.p))
            && (o.Block? ==> GivesBlock(p, o, t))
  {
    GrowFails(p, t);
    if Grow(p, t).Block? {
      GrowGives(p, t);
    }
  }

  lemma SubpageAllocKeeps(p: Pool, t: nat)
    requires Inv(p) && t < NSIZES
    ensures var o := SubpageAlloc(p, t);
            && (o.NoMemory? <==> Exhausted(p, t)) && (o.NoMemory? ==> o.p == p)
            && (o.Leaked? <==> LastFrame(p, t)) && (o.Leaked? ==> LosesOne(p, o.p))
            && (o.Block? ==> GivesBlock(p, o, t))
  {
    var ids := p.same[t];
    var i := FirstWithFree(p, ids, 0);
    if i < |ids| {
      var id := ids[i];
      assert id in p.same[t];
      PopKeeps(p, id);
      assert OneMore(p, Pop(p, id).p, id, p.recs[id].free[0]);
      assert GivesBlock(p, Pop(p, id), t);
    } else {
      forall j | j in p.recs && p.recs[j].t == t ensures p.recs[j].free == [] {
        assert j in ids;
        assert !HasFree(p, j);
      }
      GrowKeeps(p, t);
    }
  }

  // ---------------------------------------------------------------------------------------------
  // kmalloc

  lemma OneMoreLive(p: Pool, o: Outcome, t: nat)
    requires Inv(p) && t < NSIZES && GivesBlock(p, o, t)
    ensures Live(o.p, o.addr, BlockSize(t))
    ensures forall z :: !Live(p, o.addr, z)
    ensures forall a, z | a != o.addr :: Live(o.p, a, z) <==> Live(p, a, z)
  {
    var id, k :| OneMore(p, o.p, id, k) && o.p.recs[id].t == t && o.addr == AddressOf(o.p.recs[id], k);
    forall i, j | LiveBlock(p, i, j) ensures AddressOf(p.recs[i], j) != o.addr {
      assert LiveBlock(o.p, i, j);
      if AddressOf(p.recs[i], j) == o.addr {
        BlockOfAddress(o.p, i, j, id, k);
      }
    }
    AddressParts(o.p.recs[id], k);
    forall a: nat, z: nat | a != o.addr ensures Live(o.p, a, z) <==> Live(p, a, z) {
      OtherAddress(p, o.p, id, k, a, z);
    }
  }

  lemma OtherAddress(p: Pool, p': Pool, id: nat, k: nat, a: nat, z: nat)
    requires Inv(p) && Inv(p') && OneMore(p, p', id, k) && p'.big == p.big && a != AddressOf(p'.recs[id], k)
    ensures Live(p', a, z) <==> Live(p, a, z)
  {
    if Live(p', a, z) && !WholePages(p, a, z) {
      var i, j :| LiveBlock(p', i, j) && a == AddressOf(p'.recs[i], j) && z == BlockSize(p'.recs[i].t);
      assert LiveBlock(p, i, j);
    }
  }

  /** A block of sz bytes at addr is added to what is live. */
  ghost predicate Added(p: Pool, p': Pool, addr: nat, sz: nat)
  {
    && Inv(p') && (forall z :: !Live(p, addr, z))
    && (exists z :: Live(p', addr, z) && sz <= z)
    && (forall a, z | a != addr :: Live(p', a, z) <==> Live(p, a, z))
  }

  /** kmalloc: a block, fresh, aligned, large enough and apart from everything live; or nothing,
      exactly when memory is out; or a record less; or a halt, exactly where the page allocator is
      asked for no page, for too many, or for more than one and more than there are. */
  lemma KmallocKeeps(p: Pool, sz: nat)
    requires Inv(p) && sz < ADDRESSES
    ensures var o, n := Kmalloc(p, sz), PagesFor(sz);
            && (o.Block? ==> Added(p, o.p, o.addr, sz))
            && (o.NoMemory? ==> o.p == p)
            && (o.NoMemory? <==>
                  if sz >= LARGEST then n < MAX_PAGES && p.frames == [] else Exhausted(p, TypeFor(sz, 0)))
            && (o.Leaked? <==> sz < LARGEST && LastFrame(p, TypeFor(sz, 0))) && (o.Leaked? ==> LosesOne(p, o.p))
            && (o.Halted? <==> sz >= LARGEST && (n >= MAX_PAGES || (p.frames != [] && (n == 0 || n > |p.frames|))))
  {
    if sz >= LARGEST {
      var n := PagesFor(sz);
      if Kmalloc(p, sz).Block? {
        PagesTaken(p, n);
        RoundedUp(sz);
      }
    } else {
      var t := TypeFor(sz, 0);
      SubpageAllocKeeps(p, t);
      var o := Kmalloc(p, sz);
      if o.Block? {
        OneMoreLive(p, o, t);
      }
    }
  }

  /** The pool with n frames taken from the list, as one block. */
  function TakePages(p: Pool, n: nat): Pool
    requires 1 <= n <= |p.frames|
  {
    p.(frames := p.frames[n..], big := p.big[p.frames[0] := n], gone := p.gone + Behind(p.frames, n))
  }

  lemma PagesTaken(p: Pool, n: nat)
    requires Inv(p) && 1 <= n <= |p.frames|
    ensures var f := p.frames[0]; var p' := TakePages(p, n);
            && Inv(p') && Live(p', f * PAGE, n * PAGE) && (forall z :: !Live(p, f * PAGE, z))
            && (forall a, z | a != f * PAGE :: Live(p', a, z) <==> Live(p, a, z))
  {
    var f, p' := p.frames[0], TakePages(p, n);
    PagesTakenOk(p, n);
    assert forall i, j :: LiveBlock(p', i, j) <==> LiveBlock(p, i, j);
    assert (f * PAGE) / PAGE == f;
    forall i, j | LiveBlock(p, i, j) ensures AddressOf(p.recs[i], j) != f * PAGE {
      AddressParts(p.recs[i], j);
    }
    forall a: nat, z: nat | a != f * PAGE ensures Live(p', a, z) <==> Live(p, a, z) {
      assert a % PAGE == 0 ==> a == a / PAGE * PAGE;
    }
  }

  lemma PagesTakenOk(p: Pool, n: nat)
    requires Inv(p) && 1 <= n <= |p.frames|
    ensures Inv(TakePages(p, n))
  {
    var p' := TakePages(p, n);
    RestOfFrames(p.frames, n);
    assert PagesOk(p') && RecordsOk(p') && ListsOk(p');
  }

  lemma RestOfFrames(frames: seq<nat>, n: nat)
    requires NoDups(frames) && 1 <= n <= |frames|
    ensures NoDups(frames[n..]) && (forall f | f in frames[n..] :: f in frames && f != frames[0])
    ensures forall f | f in Behind(frames, n) :: f in frames && f != frames[0] && f !in frames[n..]
  {
  }

  lemma RoundedUp(sz: nat)
    requires 0 < sz < ADDRESSES && PagesFor(sz) > 0
    ensures sz <= PagesFor(sz) * PAGE && (PagesFor(sz) > 1 <==> sz > PAGE)
  {
    WrapsOnce(sz + PAGE - 1);
  }

  lemma WrapsOnce(m: nat)
    ensures m < ADDRESSES ==> m % ADDRESSES == m
    ensures ADDRESSES <= m < 2 * ADDRESSES ==> m % ADDRESSES == m - ADDRESSES
  {
  }

  lemma WithinPage(r: Rec, k: nat)
    requires r.t < NSIZES && k < Capacity(r.t)
    ensures r.page * PAGE <= AddressOf(r, k) && AddressOf(r, k) + BlockSize(r.t) <= r.page * PAGE + PAGE
  {
    BlockBounds(r.t, k);
  }

  // ---------------------------------------------------------------------------------------------
  // Giving a block back

  ghost predicate OneLess(p: Pool, p': Pool, id: nat, k: nat)
  {
    && LiveBlock(p, id, k)
    && (forall i, j :: LiveBlock(p', i, j) <==> LiveBlock(p, i, j) && !(i == id && j == k))
    && (forall i | i in p'.recs :: i in p.recs && p'.recs[i].page == p.recs[i].page && p'.recs[i].t == p.recs[i].t)
  }

  lemma {:induction false} WithoutMembers(s: seq<nat>, id: nat)
    requires NoDups(s)
    ensures NoDups(Without(s, id)) && forall x :: x in Without(s, id) <==> x in s && x != id
  {
    if s != [] {
      var rest := s[1..];
      WithoutMembers(rest, id);
      assert s == [s[0]] + rest;
      assert s[0] !in rest;
    }
  }

  /** A list of c - 1 different numbers below c leaves out exactly one. */
  lemma OnlyOneLeft(free: seq<nat>, c: nat, k: nat)
    requires NoDups(free) && |free| + 1 == c && k < c && k !in free
    requires forall i | 0 <= i < |free| :: free[i] < c
    ensures forall j: nat | j < c && j != k :: j in free
  {
    var s := set i | 0 <= i < |free| :: free[i];
    var all := Below(c);
    DistinctSize(free);
    assert s + {k} <= all;
    SubsetEqual(s + {k}, all);
    forall j: nat | j < c && j != k ensures j in free {
      assert j in all;
    }
  }

  lemma {:induction false} DistinctSize(free: seq<nat>)
    requires NoDups(free)
    ensures |set i | 0 <= i < |free| :: free[i]| == |free|
  {
    if free != [] {
      var n := |free| - 1;
      var front := free[..n];
      DistinctSize(front);
      var a, b := set i | 0 <= i < |front| :: front[i], set i | 0 <= i < |free| :: free[i];
      forall x ensures x in b <==> x in a || x == free[n] {
        if x in a {
          var i :| 0 <= i < |front| && front[i] == x;
          assert free[i] == x;
        }
        if x in b && x != free[n] {
          var i :| 0 <= i < |free| && free[i] == x;
          assert front[i] == x;
        }
      }
      assert b == a + {free[n]};
    }
  }

  function Below(c: nat): (s: set<nat>)
    ensures |s| == c && forall j :: j in s <==> 0 <= j < c
  {
    if c == 0 then {} else Below(c - 1) + {c - 1}
  }

  lemma {:induction false} SubsetEqual(a: set<nat>, b: set<nat>)
    requires a <= b && |a| == |b|
    ensures a == b
    decreases |a|
  {
    if a != {} {
      var x :| x in a;
      SubsetEqual(a - {x}, b - {x});
      assert a == a - {x} + {x} && b == b - {x} + {x};
    } else {
      assert b == {};
    }
  }

  /** The block goes on the free list and other blocks of the page stay live. */
  lemma PushStays(p: Pool, id: nat, k: nat)
    requires Inv(p) && LiveBlock(p, id, k) && |p.recs[id].free| + 1 < Capacity(p.recs[id].t)
    ensures var p' := Push(p, id, k); Inv(p') && OneLess(p, p', id, k) && p'.big == p.big
  {
    var r := p.recs[id];
    assert RecOk(r);
    assert RecOk(r.(free := [k] + r.free));
    PushTakesOne(p, id, k);
    FreeListOnly(p, Push(p, id, k), id);
  }

  lemma PushTakesOne(p: Pool, id: nat, k: nat)
    requires LiveBlock(p, id, k) && p.recs[id].t < NSIZES && |p.same| == NSIZES
    requires |p.recs[id].free| + 1 < Capacity(p.recs[id].t)
    ensures OneLess(p, Push(p, id, k), id, k)
  {
    var r := p.recs[id];
    assert forall j :: j in [k] + r.free <==> j == k || j in r.free;
  }

  predicate Dropped(p: Pool, p': Pool, id: nat)
    requires id in p.recs && p.recs[id].t < |p.same|
  {
    p' == p.(recs := p.recs - {id}, all := Without(p.all, id),
             same := p.same[p.recs[id].t := Without(p.same[p.recs[id].t], id)],
             frames := [p.recs[id].page] + p.frames)
  }

  lemma DroppedLists(p: Pool, p': Pool, id: nat)
    requires ListsOk(p) && id in p.recs && p.recs[id].t < NSIZES && Dropped(p, p', id)
    ensures ListsOk(p')
  {
    WithoutMembers(p.all, id);
    WithoutMembers(p.same[p.recs[id].t], id);
    assert forall i | i in p'.recs :: i in p.recs && p'.recs[i] == p.recs[i];
  }

  lemma DroppedPages(p: Pool, p': Pool, id: nat)
    requires Inv(p) && id in p.recs && Dropped(p, p', id)
    ensures RecordsOk(p') && PagesOk(p')
  {
    var page := p.recs[id].page;
    assert RecOk(p.recs[id]);
    assert forall i | i in p'.recs :: i in p.recs && p'.recs[i] == p.recs[i] && i != id;
    assert forall f :: f in p'.frames <==> f == page || f in p.frames;
  }

  lemma PageGone(p: Pool, p': Pool, id: nat)
    requires Inv(p) && id in p.recs && Dropped(p, p', id)
    ensures Inv(p')
  {
    DroppedLists(p, p', id);
    DroppedPages(p, p', id);
  }

  /** The last live block of a page takes the page with it. */
  lemma PushLast(p: Pool, id: nat, k: nat)
    requires Inv(p) && LiveBlock(p, id, k) && |p.recs[id].free| + 1 == Capacity(p.recs[id].t)
    ensures var p' := Push(p, id, k); Inv(p') && OneLess(p, p', id, k) && p'.big == p.big
  {
    var r := p.recs[id];
    assert RecOk(r);
    PageGone(p, Push(p, id, k), id);
    OnlyOneLeft(r.free, Capacity(r.t), k);
  }

  lemma PushKeeps(p: Pool, id: nat, k: nat)
    requires Inv(p) && LiveBlock(p, id, k)
    ensures var p' := Push(p, id, k); Inv(p') && OneLess(p, p', id, k) && p'.big == p.big
  {
    assert RecOk(p.recs[id]);
    if |p.recs[id].free| + 1 == Capacity(p.recs[id].t) {
      PushLast(p, id, k);
    } else {
      PushStays(p, id, k);
    }
  }

  /** The free takes away the record of the page, and freepageref cannot get to it. */
  predicate CannotDrop(p: Pool, id: nat)
    requires |p.roots| == ROOTS && id in p.recs
  {
    |p.recs[id].free| + 1 == Capacity(p.recs[id].t) && Blocked(p, id)
  }

  /** kfree finds the record of the block, and the block's number. */
  lemma KfreeFinds(p: Pool, id: nat, k: nat)
    requires Inv(p) && LiveBlock(p, id, k)
    ensures Kfree(p, AddressOf(p.recs[id], k)) == if CannotDrop(p, id) then Stuck else Freed(Push(p, id, k))
  {
    var r := p.recs[id];
    assert RecOk(r);
    AddressParts(r, k);
    BlockBounds(r.t, k);
    var i := RecordOfPage(p, p.all, r.page, 0);
    assert id in p.all && IsPageOf(p, id, r.page);
    assert i < |p.all| && p.all[i] == id;
  }

  lemma OneLessLive(p: Pool, p': Pool, id: nat, k: nat)
    requires Inv(p) && Inv(p') && OneLess(p, p', id, k) && p'.big == p.big
    ensures var addr := AddressOf(p.recs[id], k);
            && (forall z :: !Live(p', addr, z))
            && (forall a, z | a != addr :: Live(p', a, z) <==> Live(p, a, z))
  {
    var addr := AddressOf(p.recs[id], k);
    AddressParts(p.recs[id], k);
    forall i, j | LiveBlock(p', i, j) ensures AddressOf(p'.recs[i], j) != addr {
      if AddressOf(p'.recs[i], j) == addr {
        BlockOfAddress(p, i, j, id, k);
      }
    }
    forall a: nat, z: nat | a != addr ensures Live(p', a, z) <==> Live(p, a, z) {
      if Live(p, a, z) && !WholePages(p, a, z) {
        var i, j :| LiveBlock(p, i, j) && a == AddressOf(p.recs[i], j) && z == BlockSize(p.recs[i].t);
        assert LiveBlock(p', i, j);
      }
    }
  }

  /** The allocation at addr ends, and no other does. */
  ghost predicate Ended(p: Pool, p': Pool, addr: nat)
  {
    && Inv(p') && (forall y :: !Live(p', addr, y))
    && (forall a, y | a != addr :: Live(p', a, y) <==> Live(p, a, y))
  }

  /** kfree of a live allocation ends that allocation alone; the one assertion that can stop it is
      that of freepageref. */
  lemma KfreeKeeps(p: Pool, addr: nat, z: nat)
    requires Inv(p) && Live(p, addr, z)
    ensures Kfree(p, addr).Stuck? <==>
            exists id, k :: LiveBlock(p, id, k) && addr == AddressOf(p.recs[id], k) && CannotDrop(p, id)
    ensures !Kfree(p, addr).Stuck? ==> Kfree(p, addr).Freed? && Ended(p, Kfree(p, addr).p, addr)
  {
    if addr / PAGE in p.big && addr % PAGE == 0 {
      WholePageBack(p, addr);
      NotABlock(p, addr);
    } else {
      var id, k :| LiveBlock(p, id, k) && addr == AddressOf(p.recs[id], k) && z == BlockSize(p.recs[id].t);
      KfreeFinds(p, id, k);
      PushKeeps(p, id, k);
      OneLessLive(p, Push(p, id, k), id, k);
      OneBlockAt(p, addr, id, k);
    }
  }

  lemma OneBlockAt(p: Pool, addr: nat, id: nat, k: nat)
    requires Inv(p) && LiveBlock(p, id, k) && addr == AddressOf(p.recs[id], k)
    ensures forall i, j | LiveBlock(p, i, j) && addr == AddressOf(p.recs[i], j) :: i == id && j == k
  {
    forall i, j | LiveBlock(p, i, j) && addr == AddressOf(p.recs[i], j) ensures i == id && j == k {
      BlockOfAddress(p, i, j, id, k);
    }
  }

  lemma WholePageBack(p: Pool, addr: nat)
    requires Inv(p) && addr % PAGE == 0 && addr / PAGE in p.big
    ensures Kfree(p, addr) == Freed(p.(big := p.big - {addr / PAGE}, frames := [addr / PAGE] + p.frames))
    ensures Ended(p, Kfree(p, addr).p, addr)
  {
    var f := addr / PAGE;
    NotABlock(p, addr);
    var i := RecordOfPage(p, p.all, f, 0);
    assert forall x | 0 <= x < |p.all| :: p.all[x] in p.recs;
    assert i == |p.all|;
    var p' := p.(big := p.big - {f}, frames := [f] + p.frames);
    assert f !in p.roots && f != 0;
    assert ListsOk(p') && RecordsOk(p') && PagesOk(p');
    OtherPagesLive(p, p', addr);
  }

  lemma OtherPagesLive(p: Pool, p': Pool, addr: nat)
    requires addr % PAGE == 0 && p'.recs == p.recs && p'.big == p.big - {addr / PAGE}
    ensures forall a: nat, y: nat | a != addr :: Live(p', a, y) <==> Live(p, a, y)
  {
    assert forall i, j :: LiveBlock(p', i, j) <==> LiveBlock(p, i, j);
    forall a: nat, y: nat | a != addr ensures Live(p', a, y) <==> Live(p, a, y) {
      assert a % PAGE == 0 ==> a == a / PAGE * PAGE;
    }
  }
}
