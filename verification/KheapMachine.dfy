/** The allocator as it is kept in memory: record lists linked by record number, and free lists
    threaded through the first word of every free block. */
module KheapMachine {
  import opened Kheap
  import opened KheapSafety
  import opened KheapWide
  import PageRefs
  import KheapRuns

  const INVALID_OFFSET: nat := 0xffff
  const DEADBEEF: int := 0xdeadbeef
  const WORD: nat := 4

  // ---------------------------------------------------------------------------------------------
  // Linked lists of record numbers; -1 ends a list

  function Head(s: seq<nat>, i: nat): int
  {
    if i < |s| then s[i] else -1
  }

  predicate ListIs(next: seq<int>, head: int, s: seq<nat>)
  {
    && head == Head(s, 0)
    && (forall i | 0 <= i < |s| :: s[i] < |next|)
    && (forall i {:trigger next[s[i]]} | 0 <= i < |s| :: next[s[i]] == Head(s, i + 1))
  }

  lemma ListPush(next: seq<int>, head: int, s: seq<nat>, id: nat)
    requires ListIs(next, head, s) && id < |next| && id !in s
    ensures ListIs(next[id := head], id, [id] + s)
  {
    var next', s' := next[id := head], [id] + s;
    forall i | 0 <= i < |s'| ensures s'[i] < |next'| && next'[s'[i]] == Head(s', i + 1) {
      if i > 0 {
        assert s'[i] == s[i - 1];
      }
    }
  }

  lemma {:induction false} WithoutAt(s: seq<nat>, i: nat)
    requires NoDups(s) && i < |s|
    ensures Without(s, s[i]) == s[..i] + s[i + 1..]
  {
    if i > 0 {
      WithoutAt(s[1..], i - 1);
    }
  }

  lemma ListUnlink(next: seq<int>, head: int, s: seq<nat>, i: nat, prev: nat)
    requires ListIs(next, head, s) && NoDups(s) && 0 < i < |s| && prev == s[i - 1]
    ensures ListIs(next[prev := next[s[i]]], head, s[..i] + s[i + 1..])
  {
    var s', next' := s[..i] + s[i + 1..], next[prev := next[s[i]]];
    forall j | 0 <= j < |s'| ensures s'[j] < |next'| && next'[s'[j]] == Head(s', j + 1) {
      if j < i {
        assert s'[j] == s[j];
      } else {
        assert s'[j] == s[j + 1];
      }
    }
  }

  lemma ListUnlinkFirst(next: seq<int>, head: int, s: seq<nat>)
    requires ListIs(next, head, s) && s != []
    ensures ListIs(next, next[s[0]], s[1..])
  {
    var s' := s[1..];
    forall j | 0 <= j < |s'| ensures s'[j] < |next| && next[s'[j]] == Head(s', j + 1) {
      assert s'[j] == s[j + 1];
    }
  }

  lemma ListFrame(next: seq<int>, next': seq<int>, head: int, s: seq<nat>)
    requires ListIs(next, head, s) && |next'| == |next|
    requires forall i | 0 <= i < |s| :: next'[s[i]] == next[s[i]]
    ensures ListIs(next', head, s)
  {
  }

  /** One loop of remove_lists: walk to the record and unlink it. */
  method Unlink(next: array<int>, head: int, id: nat, ghost s: seq<nat>) returns (head': int)
    requires ListIs(next[..], head, s) && NoDups(s) && id in s
    modifies next
    ensures ListIs(next[..], head', Without(s, id))
    ensures forall j | 0 <= j < next.Length && j !in s :: next[j] == old(next[j])
  {
    ghost var n :| 0 <= n < |s| && s[n] == id;
    assert head == s[0];
    if head == id {
      ListUnlinkFirst(next[..], head, s);
      WithoutAt(s, 0);
      assert s[..0] + s[1..] == s[1..];
      return next[id];
    }
    head' := head;
    ghost var i := 0;
    var prev := head;
    while next[prev] != id
      invariant 0 <= i < n && prev == s[i]
      decreases n - i
    {
      ghost var after := i + 1;
      assert next[prev] == s[after];
      prev := next[prev];
      i := after;
    }
    ListUnlink(next[..], head, s, n, prev);
    WithoutAt(s, n);
    next[prev] := next[id];
  }

  // ---------------------------------------------------------------------------------------------
  // Records and free lists in memory

  /** What a record holds besides its links. */
  datatype Ref = Ref(page: nat, t: nat, freeOff: nat, nfree: nat)

  function WordOf(r: Rec, k: nat): nat { AddressOf(r, k) / WORD }

  function NextAddress(r: Rec, i: nat): nat
  {
    if i < |r.free| then AddressOf(r, r.free[i]) else 0
  }

  predicate RefFits(f: Ref, r: Rec)
  {
    && f.page == r.page && f.t == r.t && f.nfree == |r.free|
    && f.freeOff == if r.free == [] then INVALID_OFFSET else r.free[0] * BlockSize(r.t)
  }

  /** The free list is threaded through the first words of its blocks. */
  predicate Threaded(mem: seq<int>, r: Rec)
  {
    && (forall i | 0 <= i < |r.free| :: WordOf(r, r.free[i]) < |mem|)
    && (forall i {:trigger mem[WordOf(r, r.free[i])]} | 0 <= i < |r.free| ::
          mem[WordOf(r, r.free[i])] == NextAddress(r, i + 1))
  }

  predicate PageFits(page: nat, n: nat)
  {
    (page + 1) * (PAGE / WORD) <= n
  }

  predicate InMemory(p: Pool, n: nat)
  {
    && (forall id | id in p.recs :: PageFits(p.recs[id].page, n))
    && (forall i | 0 <= i < |p.frames| :: PageFits(p.frames[i], n))
    && (forall f | f in p.big :: PageFits(f, n))
  }

  ghost predicate Linked(p: Pool, nextSame: seq<int>, nextAll: seq<int>, bases: seq<int>, allbase: int)
  {
    && |nextSame| == RECORDS && |nextAll| == RECORDS && |bases| == NSIZES && |p.same| == NSIZES
    && ListIs(nextAll, allbase, p.all)
    && (forall t | 0 <= t < NSIZES :: ListIs(nextSame, bases[t], p.same[t]))
  }

  ghost predicate Stored(p: Pool, refs: seq<Ref>, mem: seq<int>)
  {
    && |refs| == RECORDS && InMemory(p, |mem|)
    && (forall id | id in p.recs :: id < RECORDS)
    && (forall id | id in p.recs :: RefFits(refs[id], p.recs[id]))
    && (forall id | id in p.recs :: Threaded(mem, p.recs[id]))
  }

  /** A record's free list changes, in the record and in memory alike. */
  lemma RecordChanged(p: Pool, p': Pool, refs: seq<Ref>, mem: seq<int>, id: nat, f: Ref)
    requires Stored(p, refs, mem) && id in p.recs && id in p'.recs
    requires p'.recs == p.recs[id := p'.recs[id]] && p'.frames == p.frames && p'.big == p.big
    requires p'.recs[id].page == p.recs[id].page && RefFits(f, p'.recs[id]) && Threaded(mem, p'.recs[id])
    ensures Stored(p', refs[id := f], mem)
  {
    assert forall i | i in p'.recs && i != id :: p'.recs[i] == p.recs[i];
  }

  /** The link in the first free block leads to the second, or nowhere. */
  lemma SecondBlock(r: Rec, next: nat)
    requires r.t < NSIZES && 0 < r.page && r.free != [] && next == NextAddress(r, 1)
    requires |r.free| > 1 ==> r.free[1] < Capacity(r.t)
    ensures next == 0 <==> |r.free| == 1
    ensures next != 0 ==> r.page * PAGE <= next && next - r.page * PAGE == r.free[1] * BlockSize(r.t)
  {
    if |r.free| > 1 {
      AddressParts(r, r.free[1]);
    }
  }

  lemma PopStored(p: Pool, refs: seq<Ref>, mem: seq<int>, id: nat, f: Ref)
    requires Stored(p, refs, mem) && id in p.recs && p.recs[id].free != []
    requires RefFits(f, Pop(p, id).p.recs[id])
    ensures Stored(Pop(p, id).p, refs[id := f], mem)
  {
    TailThreaded(mem, p.recs[id]);
    RecordChanged(p, Pop(p, id).p, refs, mem, id, f);
  }

  lemma TailThreaded(mem: seq<int>, r: Rec)
    requires Threaded(mem, r) && r.free != []
    ensures Threaded(mem, r.(free := r.free[1..]))
  {
    var r' := r.(free := r.free[1..]);
    forall i | 0 <= i < |r'.free|
      ensures WordOf(r', r'.free[i]) < |mem| && mem[WordOf(r', r'.free[i])] == NextAddress(r', i + 1)
    {
      assert r'.free[i] == r.free[i + 1];
    }
  }

  /** Only words of block k of record id differ. */
  predicate OnlyBlock(mem: seq<int>, mem': seq<int>, r: Rec, k: nat)
  {
    && |mem'| == |mem|
    && forall w | 0 <= w < |mem| && !(WordOf(r, k) <= w < WordOf(r, k) + BlockSize(r.t) / WORD) :: mem'[w] == mem[w]
  }

  lemma WordApart(a: nat, y: nat, b: nat, z: nat)
    requires Apart(a, y, b, z) && a % 16 == 0 && b % 16 == 0 && 16 <= z
    ensures !(a / WORD <= b / WORD < a / WORD + y / WORD)
  {
  }

  /** A block that is on no free list can be overwritten. */
  lemma BlockOverwritten(p: Pool, refs: seq<Ref>, mem: seq<int>, mem': seq<int>, id: nat, k: nat)
    requires Inv(p) && Stored(p, refs, mem) && LiveBlock(p, id, k) && OnlyBlock(mem, mem', p.recs[id], k)
    ensures Stored(p, refs, mem')
  {
    forall i | i in p.recs ensures Threaded(mem', p.recs[i]) {
      ThreadKept(p, mem, mem', id, k, i);
    }
  }

  /** Whatever is written into block k of record id, the free lists stay. */
  ghost predicate Overwritable(p: Pool, refs: seq<Ref>, mem: seq<int>, id: nat, k: nat)
    requires id in p.recs
  {
    forall mem' | OnlyBlock(mem, mem', p.recs[id], k) :: Stored(p, refs, mem')
  }

  lemma LiveIsOverwritable(p: Pool, refs: seq<Ref>, mem: seq<int>, id: nat, k: nat)
    requires Inv(p) && Stored(p, refs, mem) && LiveBlock(p, id, k)
    ensures Overwritable(p, refs, mem, id, k)
  {
    forall mem' | OnlyBlock(mem, mem', p.recs[id], k) ensures Stored(p, refs, mem') {
      BlockOverwritten(p, refs, mem, mem', id, k);
    }
  }

  lemma ThreadKept(p: Pool, mem: seq<int>, mem': seq<int>, id: nat, k: nat, i: nat)
    requires Inv(p) && i in p.recs && Threaded(mem, p.recs[i]) && LiveBlock(p, id, k)
    requires OnlyBlock(mem, mem', p.recs[id], k)
    ensures Threaded(mem', p.recs[i])
  {
    var r, r' := p.recs[i], p.recs[id];
    assert RecOk(r);
    AddressParts(r', k);
    forall n | 0 <= n < |r.free|
      ensures mem'[WordOf(r, r.free[n])] == mem[WordOf(r, r.free[n])]
    {
      BlocksApart(p, id, k, i, r.free[n]);
      AddressParts(r, r.free[n]);
      BlockBounds(r.t, r.free[n]);
      WordApart(AddressOf(r', k), BlockSize(r'.t), AddressOf(r, r.free[n]), BlockSize(r.t));
    }
  }

  /** The block at address a goes in front of the list. */
  lemma PushThreaded(mem: seq<int>, r: Rec, k: nat)
    requires Threaded(mem, r) && WordOf(r, k) < |mem| && mem[WordOf(r, k)] == NextAddress(r, 0)
    ensures Threaded(mem, r.(free := [k] + r.free))
  {
    var r' := r.(free := [k] + r.free);
    forall i | 0 <= i < |r'.free|
      ensures WordOf(r', r'.free[i]) < |mem| && mem[WordOf(r', r'.free[i])] == NextAddress(r', i + 1)
    {
      if i > 0 {
        assert r'.free[i] == r.free[i - 1];
      }
    }
  }

  lemma PushStored(p: Pool, refs: seq<Ref>, mem: seq<int>, id: nat, k: nat, f: Ref)
    requires Stored(p, refs, mem) && id in p.recs && p.recs[id].t < NSIZES && |p.same| == NSIZES
    requires |p.recs[id].free| + 1 < Capacity(p.recs[id].t)
    requires WordOf(p.recs[id], k) < |mem| && mem[WordOf(p.recs[id], k)] == NextAddress(p.recs[id], 0)
    requires RefFits(f, p.recs[id].(free := [k] + p.recs[id].free))
    ensures Stored(Push(p, id, k), refs[id := f], mem)
  {
    PushThreaded(mem, p.recs[id], k);
    RecordChanged(p, Push(p, id, k), refs, mem, id, f);
  }

  lemma BlockInMemory(r: Rec, k: nat, n: nat)
    requires r.t < NSIZES && k < Capacity(r.t) && PageFits(r.page, n)
    ensures WordOf(r, k) + BlockSize(r.t) / WORD <= n && BlockSize(r.t) / WORD >= 4
    ensures r.page * (PAGE / WORD) <= WordOf(r, k)
    ensures WordOf(r, k) + BlockSize(r.t) / WORD <= (r.page + 1) * (PAGE / WORD)
  {
    BlockBounds(r.t, k);
  }

  /** Only words of one page differ. */
  predicate OnlyPage(mem: seq<int>, mem': seq<int>, page: nat)
  {
    && |mem'| == |mem|
    && forall w | 0 <= w < |mem| && !(page * (PAGE / WORD) <= w < (page + 1) * (PAGE / WORD)) :: mem'[w] == mem[w]
  }

  /** A page that is no heap page can be overwritten. */
  lemma PageOverwritten(p: Pool, refs: seq<Ref>, mem: seq<int>, mem': seq<int>, page: nat)
    requires Stored(p, refs, mem) && OnlyPage(mem, mem', page)
    requires forall id | id in p.recs :: RecOk(p.recs[id]) && p.recs[id].page != page
    ensures Stored(p, refs, mem')
  {
    forall id | id in p.recs ensures Threaded(mem', p.recs[id]) {
      OtherPage(mem, mem', p.recs[id], page);
    }
  }

  lemma OtherPage(mem: seq<int>, mem': seq<int>, r: Rec, page: nat)
    requires RecOk(r) && Threaded(mem, r) && PageFits(r.page, |mem|) && OnlyPage(mem, mem', page) && r.page != page
    ensures Threaded(mem', r)
  {
    forall n | 0 <= n < |r.free| ensures mem'[WordOf(r, r.free[n])] == mem[WordOf(r, r.free[n])] {
      BlockInMemory(r, r.free[n], |mem|);
      PagesDisjoint(r.page, page);
    }
  }

  lemma PagesDisjoint(a: nat, b: nat)
    requires a != b
    ensures (a + 1) * (PAGE / WORD) <= b * (PAGE / WORD) || (b + 1) * (PAGE / WORD) <= a * (PAGE / WORD)
  {
  }

  // ---------------------------------------------------------------------------------------------
  // A new page in the lists and in memory

  lemma SamePushed(same: seq<seq<nat>>, next: seq<int>, bases: seq<int>, t: nat, id: nat, u: nat)
    requires |same| == |bases| == NSIZES && t < NSIZES && id < |next| && u < NSIZES
    requires ListIs(next, bases[t], same[t]) && ListIs(next, bases[u], same[u]) && id !in same[t] && id !in same[u]
    ensures ListIs(next[id := bases[t]], bases[t := id][u], same[t := [id] + same[t]][u])
  {
    if u == t {
      ListPush(next, bases[t], same[t], id);
    } else {
      ListFrame(next, next[id := bases[t]], bases[u], same[u]);
    }
  }

  lemma NewPageLinked(p: Pool, p': Pool, nextSame: seq<int>, nextAll: seq<int>, bases: seq<int>, allbase: int, t: nat,
                      id: nat)
    requires Linked(p, nextSame, nextAll, bases, allbase) && t < NSIZES && id < RECORDS
    requires id !in p.all && forall u | 0 <= u < NSIZES :: id !in p.same[u]
    requires p'.all == [id] + p.all && p'.same == p.same[t := [id] + p.same[t]]
    ensures Linked(p', nextSame[id := bases[t]], nextAll[id := allbase], bases[t := id], id)
  {
    ListPush(nextAll, allbase, p.all, id);
    forall u | 0 <= u < NSIZES ensures ListIs(nextSame[id := bases[t]], bases[t := id][u], p'.same[u]) {
      SamePushed(p.same, nextSame, bases, t, id, u);
    }
  }

  lemma NewPageStored(p: Pool, p': Pool, refs: seq<Ref>, mem: seq<int>, id: nat, f: Ref)
    requires Stored(p, refs, mem) && id < RECORDS && id !in p.recs && id in p'.recs
    requires p'.recs == p.recs[id := p'.recs[id]] && p'.big == p.big
    requires forall i | 0 <= i < |p'.frames| :: p'.frames[i] in p.frames
    requires RefFits(f, p'.recs[id]) && Threaded(mem, p'.recs[id]) && PageFits(p'.recs[id].page, |mem|)
    ensures Stored(p', refs[id := f], mem)
  {
    assert forall i | i in p'.recs && i != id :: p'.recs[i] == p.recs[i];
  }

  function WordAt(page: nat, z: nat, k: nat): nat { (page * PAGE + k * z) / WORD }

  lemma WordsOfPage(page: nat, t: nat, k: nat)
    requires t < NSIZES && k < Capacity(t)
    ensures page * (PAGE / WORD) <= WordAt(page, BlockSize(t), k) < (page + 1) * (PAGE / WORD)
  {
    BlockInMemory(Rec(page, t, []), k, (page + 1) * (PAGE / WORD));
  }

  lemma WordsDiffer(page: nat, t: nat, j: nat, k: nat)
    requires j < k
    ensures WordAt(page, BlockSize(t), j) != WordAt(page, BlockSize(t), k)
  {
    var z := BlockSize(t);
    var a, b := j * z, k * z;
    MultiplesGrow(z, j, k);
    Steps(page * PAGE, a, b);
  }

  lemma Steps(base: nat, a: nat, b: nat)
    requires a + 16 <= b || b + 16 <= a
    ensures (base + a) / WORD != (base + b) / WORD
  {
  }

  /** Each block of the page, save the first, points to the one before it. */
  predicate ChainedUpTo(mem: seq<int>, page: nat, z: nat, n: nat)
  {
    forall j | 0 <= j < n ::
      WordAt(page, z, j) < |mem| && mem[WordAt(page, z, j)] == if j == 0 then 0 else page * PAGE + (j - 1) * z
  }

  lemma ChainedIsThreaded(mem: seq<int>, page: nat, t: nat)
    requires t < NSIZES && ChainedUpTo(mem, page, BlockSize(t), Capacity(t))
    ensures Threaded(mem, Rec(page, t, Countdown(Capacity(t))))
  {
    var c := Capacity(t);
    var r := Rec(page, t, Countdown(c));
    forall i | 0 <= i < |r.free|
      ensures WordOf(r, r.free[i]) < |mem| && mem[WordOf(r, r.free[i])] == NextAddress(r, i + 1)
    {
      var j := c - 1 - i;
      assert r.free[i] == j && WordOf(r, j) == WordAt(page, BlockSize(t), j);
    }
  }

  lemma ChainedOneMore(mem: seq<int>, mem': seq<int>, page: nat, t: nat, n: nat, w: nat)
    requires t < NSIZES && n < Capacity(t) && w == WordAt(page, BlockSize(t), n) < |mem|
    requires ChainedUpTo(mem, page, BlockSize(t), n)
    requires mem' == mem[w := if n == 0 then 0 else page * PAGE + (n - 1) * BlockSize(t)]
    ensures ChainedUpTo(mem', page, BlockSize(t), n + 1)
  {
    forall j | 0 <= j < n + 1
      ensures WordAt(page, BlockSize(t), j) < |mem'|
      ensures mem'[WordAt(page, BlockSize(t), j)] == if j == 0 then 0 else page * PAGE + (j - 1) * BlockSize(t)
    {
      if j < n {
        WordsDiffer(page, t, j, n);
      }
    }
  }

  /** The search loop of subpage_kmalloc, over the records ids of one size. */
  method FindPage(next: array<int>, refs: array<Ref>, head: int, ghost p: Pool, ghost ids: seq<nat>) returns (id: int)
    requires next.Length == refs.Length && ListIs(next[..], head, ids)
    requires forall k | 0 <= k < |ids| :: ids[k] in p.recs && refs[ids[k]].nfree == |p.recs[ids[k]].free|
    ensures var i := FirstWithFree(p, ids, 0); id == if i < |ids| then ids[i] else -1
  {
    ghost var i := 0;
    id := head;
    while id != -1
      invariant 0 <= i <= |ids| && id == Head(ids, i)
      invariant FirstWithFree(p, ids, 0) == FirstWithFree(p, ids, i)
      decreases |ids| - i
    {
      if refs[id].nfree > 0 {
        return;
      }
      id := next[id];
      i := i + 1;
    }
  }

  /** The search loop of subpage_kfree, over all records. */
  method FindRecord(next: array<int>, refs: array<Ref>, head: int, addr: nat, ghost p: Pool, ghost ids: seq<nat>)
    returns (id: int)
    requires next.Length == refs.Length && ListIs(next[..], head, ids)
    requires forall k | 0 <= k < |ids| :: ids[k] in p.recs && refs[ids[k]].page == p.recs[ids[k]].page
    ensures var i := RecordOfPage(p, ids, addr / PAGE, 0); id == if i < |ids| then ids[i] else -1
  {
    ghost var i := 0;
    id := head;
    while id != -1
      invariant 0 <= i <= |ids| && id == Head(ids, i)
      invariant RecordOfPage(p, ids, addr / PAGE, 0) == RecordOfPage(p, ids, addr / PAGE, i)
      decreases |ids| - i
    {
      var prpage := refs[id].page * PAGE;
      assert prpage <= addr < prpage + PAGE <==> addr / PAGE == refs[id].page;
      if prpage <= addr < prpage + PAGE {
        return;
      }
      id := next[id];
      i := i + 1;
    }
  }

  lemma AllStored(p: Pool, refs: seq<Ref>, mem: seq<int>)
    requires ListsOk(p) && Stored(p, refs, mem)
    ensures forall k | 0 <= k < |p.all| ::
              var id := p.all[k]; id in p.recs && id < |refs| && refs[id].page == p.recs[id].page
  {
    forall k | 0 <= k < |p.all|
      ensures var id := p.all[k]; id in p.recs && id < |refs| && refs[id].page == p.recs[id].page
    {
      var id := p.all[k];
      assert id in p.all && id in p.recs;
      assert RefFits(refs[id], p.recs[id]);
    }
  }

  lemma LinkedSame(p: Pool, p': Pool, nextSame: seq<int>, nextAll: seq<int>, bases: seq<int>, allbase: int)
    requires Linked(p, nextSame, nextAll, bases, allbase) && p'.all == p.all && p'.same == p.same
    ensures Linked(p', nextSame, nextAll, bases, allbase)
  {
  }

  lemma OnNoList(p: Pool, id: nat)
    requires ListsOk(p) && id !in p.recs
    ensures id !in p.all && forall u | 0 <= u < NSIZES :: id !in p.same[u]
  {
    forall u | 0 <= u < NSIZES ensures id !in p.same[u] {
      assert id in p.same[u] ==> id in p.recs;
    }
  }

  lemma FirstFrames(frames: seq<nat>)
    requires frames != []
    ensures [frames[0]] + frames[1..] == frames && (frames[1..] == [] <==> |frames| == 1)
    ensures |frames| >= 2 ==> frames[1..][0] == frames[1] && frames[1..][1..] == frames[2..]
  {
  }

  lemma TakenSame(p: Pool, p': Pool, id: nat)
    requires id in p.recs && id in p'.recs && p'.recs == p.recs[id := p'.recs[id]] && p'.lost == p.lost
    ensures Taken(p') == Taken(p)
  {
    assert p'.recs.Keys == p.recs.Keys;
  }

  /** Page and record id are new to p, and q is p with a page of type t added, its last block taken. */
  ghost predicate Ready(p: Pool, q: Pool, page: nat, id: nat, t: nat)
  {
    && t < NSIZES && id < RECORDS && 0 < page && page in p.frames && |p.same| == NSIZES
    && id !in p.recs && id !in p.all && (forall u | 0 <= u < NSIZES :: id !in p.same[u])
    && (forall i | i in p.recs :: RecOk(p.recs[i]) && p.recs[i].page != page)
    && q.all == [id] + p.all && q.same == p.same[t := [id] + p.same[t]]
    && q.big == p.big && q.lost == p.lost
    && Capacity(t) > 0 && q.recs == p.recs[id := Rec(page, t, Countdown(Capacity(t))[1..])]
    && (forall i | 0 <= i < |q.frames| :: q.frames[i] in p.frames)
  }

  /** The ways growing can end, field by field. */
  ghost predicate GrowEnds(p: Pool, t: nat, o: Outcome)
  {
    && t < NSIZES && |p.same| == NSIZES && |p.roots| == ROOTS && (forall i | 0 <= i < |p.frames| :: 0 < p.frames[i])
    && var m := FirstUnused(Taken(p), 0);
       if p.frames == [] || m == RECORDS then o == NoMemory(p)
       else
         var root := m / PER_ROOT;
         var needed := p.roots[root] == 0;
         if needed && |p.frames| == 1 then o == Leaked(p.(lost := p.lost + {m}))
         else
           && o.Block? && o.addr == LastBlock(p.frames[0], t)
           && Ready(p, o.p, p.frames[0], m, t) && Taken(o.p) == Taken(p) + {m}
           && o.p.frames == p.frames[if needed then 2 else 1..]
           && o.p.roots == if needed then p.roots[root := p.frames[1]] else p.roots
  }

  lemma GrowEndsSo(p: Pool, t: nat)
    requires Inv(p) && t < NSIZES
    ensures GrowEnds(p, t, Grow(p, t))
  {
    var m := FirstUnused(Taken(p), 0);
    if Grow(p, t).Block? {
      GrowShape(p, t, m);
      OnNoList(p, m);
    }
  }

  lemma SizeListStored(p: Pool, refs: seq<Ref>, mem: seq<int>, t: nat)
    requires ListsOk(p) && Stored(p, refs, mem) && t < NSIZES
    ensures forall k | 0 <= k < |p.same[t]| ::
              var id := p.same[t][k]; id in p.recs && id < |refs| && refs[id].nfree == |p.recs[id].free|
  {
    forall k | 0 <= k < |p.same[t]|
      ensures var id := p.same[t][k]; id in p.recs && id < |refs| && refs[id].nfree == |p.recs[id].free|
    {
      var id := p.same[t][k];
      assert id in p.same[t] && id in p.recs;
      assert RefFits(refs[id], p.recs[id]);
    }
  }

  /** Record id is on its two lists and no other, and q is p without it. */
  ghost predicate Removable(p: Pool, q: Pool, id: nat)
  {
    && id in p.recs && p.recs[id].t < NSIZES && |p.same| == NSIZES
    && id in p.all && NoDups(p.all) && (forall u | 0 <= u < NSIZES :: NoDups(p.same[u]))
    && (forall u | 0 <= u < NSIZES :: id in p.same[u] <==> u == p.recs[id].t)
    && (forall u, i | 0 <= u < NSIZES && u != p.recs[id].t && i in p.same[u] :: i !in p.same[p.recs[id].t])
    && q.all == Without(p.all, id) && q.same == p.same[p.recs[id].t := Without(p.same[p.recs[id].t], id)]
    && q.recs == p.recs - {id} && q.frames == [p.recs[id].page] + p.frames && q.big == p.big
    && q.roots == p.roots && Taken(q) == Taken(p) - {id}
  }

  lemma DropIsRemovable(p: Pool, id: nat, k: nat)
    requires Inv(p) && LiveBlock(p, id, k) && |p.recs[id].free| + 1 == Capacity(p.recs[id].t)
    ensures Removable(p, Push(p, id, k), id)
  {
    var t := p.recs[id].t;
    forall u | 0 <= u < NSIZES ensures id in p.same[u] <==> u == t {
      assert id in p.same[u] <==> p.recs[id].t == u;
    }
    forall u, i | 0 <= u < NSIZES && u != t && i in p.same[u] ensures i !in p.same[t] {
      assert p.recs[i].t == u;
    }
  }

  lemma DroppedStored(p: Pool, q: Pool, refs: seq<Ref>, refs': seq<Ref>, mem: seq<int>, id: nat)
    requires Stored(p, refs, mem) && Removable(p, q, id)
    requires |refs'| == |refs| && forall i | 0 <= i < |refs| && i != id :: refs'[i] == refs[i]
    ensures Stored(q, refs', mem)
  {
    assert forall i | i in q.recs :: i in p.recs && i != id && q.recs[i] == p.recs[i];
  }

  lemma EmptyCoupled(free: seq<nat>, nextSame: seq<int>, nextAll: seq<int>, bases: seq<int>, refs: seq<Ref>,
                     mem: seq<int>, pages: seq<nat>)
    requires NoDups(free) && forall i | 0 <= i < |free| :: 0 < free[i] && PageFits(free[i], |mem|)
    requires |nextSame| == RECORDS && |nextAll| == RECORDS && |refs| == RECORDS
    requires |bases| == NSIZES && forall t | 0 <= t < NSIZES :: bases[t] == -1
    requires |pages| == ROOTS && forall r | 0 <= r < ROOTS :: pages[r] == 0
    ensures var p := KheapRuns.Empty(free);
            && Inv(p) && p.frames == free && Taken(p) == {} && p.roots == pages
            && Linked(p, nextSame, nextAll, bases, -1) && Stored(p, refs, mem)
  {
  }

  /** The bitmaps and the records agree on the first record not in use. */
  lemma {:induction false} SameFirst(v: seq<bv32>, used: set<nat>, i: nat)
    requires |v| * PageRefs.BITS == RECORDS && PageRefs.UsedSet(v) == used && i <= RECORDS
    ensures PageRefs.FirstFree(v, i) == FirstUnused(used, i)
    decreases RECORDS - i
  {
    assert i < RECORDS ==> (PageRefs.IsUsed(v, i) <==> i in PageRefs.UsedSet(v));
    if i < RECORDS && i in used {
      SameFirst(v, used, i + 1);
    }
  }

  /** A root without a page has a count exactly if it has lost records. */
  lemma CountOnRoot(p: Pool, v: seq<bv32>, root: nat)
    requires RecordsOk(p) && |v| * PageRefs.BITS == RECORDS && PageRefs.UsedSet(v) == Taken(p)
    requires root < ROOTS && p.roots[root] == 0
    ensures PageRefs.Count(v, root * PER_ROOT, PER_ROOT) == 0 <==> !Stranded(p, root)
  {
    if Stranded(p, root) {
      var id :| id in p.lost && id / PER_ROOT == root;
      assert PageRefs.IsUsed(v, id) <==> id in PageRefs.UsedSet(v);
      if PageRefs.Count(v, root * PER_ROOT, PER_ROOT) == 0 {
        PageRefs.NoneCounted(v, root * PER_ROOT, PER_ROOT, id);
      }
    } else {
      forall k | root * PER_ROOT <= k < root * PER_ROOT + PER_ROOT ensures !PageRefs.IsUsed(v, k) {
        assert k / PER_ROOT == root;
        assert k !in p.lost && k !in p.recs;
        assert PageRefs.IsUsed(v, k) ==> k in PageRefs.UsedSet(v);
      }
      PageRefs.NoneUsed(v, root * PER_ROOT, PER_ROOT);
    }
  }

  // ---------------------------------------------------------------------------------------------

  class Heap {
    const mem: array<int>
    const refs: array<Ref>
    const nextSame: array<int>
    const nextAll: array<int>
    const bases: array<int>
    const roots: PageRefs.Roots
    var allbase: int
    var frames: seq<nat>
    ghost var p: Pool

    ghost function Integers(): set<object> { {mem, nextSame, nextAll, bases} }

    ghost predicate Separate()
    {
      && mem != nextSame && mem != nextAll && mem != bases
      && nextSame != nextAll && nextSame != bases && nextAll != bases
      && (roots.numinuse as object) !in Integers() && (roots.pages as object) !in Integers()
    }

    /** The bitmaps of the record pool mark the records in use, and no other. */
    ghost predicate PoolAgrees()
      reads this, roots, roots.inuse, roots.numinuse, roots.pages
    {
      roots.Valid() && roots.Used() == Taken(p) && roots.pages[..] == p.roots
    }

    /** Memory, lists and bitmaps hold the pool p. */
    ghost predicate Coupled()
      reads this, mem, refs, nextSame, nextAll, bases, roots, roots.inuse, roots.numinuse, roots.pages
    {
      && Separate() && frames == p.frames
      && Linked(p, nextSame[..], nextAll[..], bases[..], allbase)
      && Stored(p, refs[..], mem[..])
      && PoolAgrees()
    }

    ghost predicate Valid()
      reads this, mem, refs, nextSame, nextAll, bases, roots, roots.inuse, roots.numinuse, roots.pages
    {
      Coupled() && Inv(p)
    }

    /** The heap before the first allocation, over a memory that holds the free frames. */
    constructor (words: nat, free: seq<nat>)
      requires NoDups(free) && forall i | 0 <= i < |free| :: 0 < free[i] && PageFits(free[i], words)
      ensures Valid() && p == KheapRuns.Empty(free)
      ensures fresh(mem) && fresh(refs) && fresh(nextSame) && fresh(nextAll) && fresh(bases) && fresh(roots)
    {
      mem := new int[words](_ => 0);
      refs := new Ref[RECORDS](_ => Ref(0, 0, 0, 0));
      nextSame := new int[RECORDS](_ => -1);
      nextAll := new int[RECORDS](_ => -1);
      bases := new int[NSIZES](_ => -1);
      var pool := new PageRefs.Roots();
      roots := pool;
      allbase := -1;
      frames := free;
      p := KheapRuns.Empty(free);
      new;
      EmptyCoupled(free, nextSame[..], nextAll[..], bases[..], refs[..], mem[..], roots.pages[..]);
    }

    /** The fields have come to hold pool q. */
    ghost method SetPool(q: Pool)
      requires Separate() && frames == q.frames
      requires Linked(q, nextSame[..], nextAll[..], bases[..], allbase) && Stored(q, refs[..], mem[..])
      requires roots.Valid() && roots.Used() == Taken(q) && roots.pages[..] == q.roots
      modifies this`p
      ensures Coupled() && p == q
    {
      p := q;
    }

    /** The code at doalloc: take the first block of a record whose page is r. */
    method TakeFirst(id: nat, ghost r: Rec) returns (addr: nat)
      requires id < refs.Length && RefFits(refs[id], r) && Threaded(mem[..], r)
      requires r.t < NSIZES && 0 < r.page && r.free != [] && forall i | 0 <= i < |r.free| :: r.free[i] < Capacity(r.t)
      modifies refs
      ensures addr == AddressOf(r, r.free[0])
      ensures RefFits(refs[id], r.(free := r.free[1..]))
      ensures forall i | 0 <= i < refs.Length && i != id :: refs[i] == old(refs[i])
    {
      var pr := refs[id];
      BlockBounds(r.t, r.free[0]);
      assert pr.freeOff < PAGE;
      addr := pr.page * PAGE + pr.freeOff;
      assert addr == AddressOf(r, r.free[0]) && addr / WORD == WordOf(r, r.free[0]);
      var next := mem[addr / WORD];
      SecondBlock(r, next);
      if next != 0 {
        refs[id] := pr.(nfree := pr.nfree - 1, freeOff := next - pr.page * PAGE);
      } else {
        refs[id] := pr.(nfree := pr.nfree - 1, freeOff := INVALID_OFFSET);
      }
    }

    method TakeFromPage(id: nat) returns (addr: nat)
      requires Coupled() && id in p.recs && RecOk(p.recs[id]) && p.recs[id].free != []
      modifies refs, this`p
      ensures Coupled() && Block(p, addr) == Pop(old(p), id)
    {
      ghost var p' := Pop(p, id).p;
      LinkedSame(p, p', nextSame[..], nextAll[..], bases[..], allbase);
      TakenSame(p, p', id);
      addr := TakeBlock(id);
      SetPool(p');
    }

    /** The first block of the free list of a page. */
    method TakeBlock(id: nat) returns (addr: nat)
      requires Stored(p, refs[..], mem[..]) && id in p.recs && RecOk(p.recs[id]) && p.recs[id].free != []
      modifies refs
      ensures Stored(Pop(p, id).p, refs[..], mem[..]) && addr == Pop(p, id).addr
    {
      ghost var r, was := p.recs[id], refs[..];
      assert RefFits(refs[id], r) && Threaded(mem[..], r);
      addr := TakeFirst(id, r);
      assert refs[..] == was[id := refs[id]];
      PopStored(p, was, mem[..], id, refs[id]);
    }

    /** Thread the free list through a new page, from the last block down to the first. */
    method ThreadPage(page: nat, t: nat)
      requires t < NSIZES && PageFits(page, mem.Length)
      modifies mem
      ensures OnlyPage(old(mem[..]), mem[..], page)
      ensures Threaded(mem[..], Rec(page, t, Countdown(Capacity(t))))
    {
      var z, n := BlockSize(t), Capacity(t);
      ghost var was := mem[..];
      SeveralBlocks(t);
      for i := 0 to n
        invariant OnlyPage(was, mem[..], page) && ChainedUpTo(mem[..], page, z, i)
      {
        ghost var before := mem[..];
        var w := WordAt(page, z, i);
        WordsOfPage(page, t, i);
        mem[w] := if i == 0 then 0 else page * PAGE + (i - 1) * z;
        ChainedOneMore(before, mem[..], page, t, i, w);
      }
      ChainedIsThreaded(mem[..], page, t);
    }

    /** The frames and bitmaps after a page and a record for it have been asked for. */
    ghost predicate GotRecord(q: Pool, id: int, free: seq<nat>)
      requires |q.roots| == ROOTS && q.frames != []
      reads this, roots, roots.inuse, roots.numinuse, roots.pages
    {
      var m := FirstUnused(Taken(q), 0);
      var root := m / PER_ROOT;
      if m == RECORDS then id == -1 && free == q.frames && PoolAgrees()
      else if q.roots[root] != 0 then
        && id == m && free == q.frames[1..] && roots.Valid()
        && roots.Used() == Taken(q) + {m} && roots.pages[..] == q.roots
      else if |q.frames| == 1 then
        && id == -1 && free == q.frames && roots.Valid()
        && roots.Used() == Taken(q) + {m} && roots.pages[..] == q.roots
      else
        && id == m && free == q.frames[2..] && roots.Valid()
        && roots.Used() == Taken(q) + {m} && roots.pages[..] == q.roots[root := q.frames[1]]
    }

    /** allocpageref, in terms of the pool. */
    method TakeRecord(va: nat) returns (id: int, took: bool)
      requires PoolAgrees() && |p.roots| == ROOTS
      modifies roots.inuse, roots.numinuse, roots.pages
      ensures roots.Valid()
      ensures var m := FirstUnused(Taken(p), 0);
              if m == RECORDS then id == -1 && !took && PoolAgrees()
              else
                var root := m / PER_ROOT;
                && roots.Used() == Taken(p) + {m} && (took <==> p.roots[root] == 0 && va != 0)
                && roots.pages[..] == (if took then p.roots[root := va] else p.roots)
                && id == if p.roots[root] == 0 && va == 0 then -1 else m
    {
      SameFirst(roots.inuse[..], Taken(p), 0);
      id, took := roots.AllocRef(va);
    }

    /** alloc_kpages for the page, and allocpageref for its record. */
    method GetRecord() returns (page: nat, id: int)
      requires Separate() && PoolAgrees() && frames == p.frames && frames != [] && |p.roots| == ROOTS
      requires forall i | 0 <= i < |frames| :: 0 < frames[i]
      modifies this`frames, roots.inuse, roots.numinuse, roots.pages
      ensures page == p.frames[0] && GotRecord(p, id, frames)
    {
      FirstFrames(frames);
      page := frames[0];
      frames := frames[1..];
      var va := if frames == [] then 0 else frames[0];
      var took;
      id, took := TakeRecord(va);
      if took {
        frames := frames[1..];
      }
      if id < 0 {
        frames := [page] + frames;
      }
    }

    /** Put a record in front of both lists. */
    method LinkRecord(id: nat, t: nat, ghost q: Pool)
      requires Separate() && Linked(p, nextSame[..], nextAll[..], bases[..], allbase) && t < NSIZES && id < RECORDS
      requires id !in p.all && forall u | 0 <= u < NSIZES :: id !in p.same[u]
      requires q.all == [id] + p.all && q.same == p.same[t := [id] + p.same[t]]
      modifies nextSame, nextAll, bases, this`allbase
      ensures Linked(q, nextSame[..], nextAll[..], bases[..], allbase)
    {
      NewPageLinked(p, q, nextSame[..], nextAll[..], bases[..], allbase, t, id);
      nextSame[id] := bases[t];
      bases[t] := id;
      nextAll[id] := allbase;
      allbase := id;
      ghost var s, a, b := old(nextSame[..]), old(nextAll[..]), old(bases[..]);
      assert nextSame[..] == s[id := b[t]] && nextAll[..] == a[id := old(allbase)] && bases[..] == b[t := id];
    }

    /** Describe a new page in its record, thread its free list, and take its first block. */
    method FillPage(page: nat, id: nat, t: nat, ghost q: Pool) returns (addr: nat)
      requires Stored(p, refs[..], mem[..]) && Ready(p, q, page, id, t)
      modifies mem, refs
      ensures Stored(q, refs[..], mem[..]) && addr == LastBlock(page, t)
    {
      ghost var r, was, m := Rec(page, t, Countdown(Capacity(t))), refs[..], mem[..];
      assert PageFits(page, mem.Length) && id in q.recs;
      ThreadPage(page, t);
      PageOverwritten(p, was, m, mem[..], page);
      var n := Capacity(t);
      var last := n - 1;
      refs[id] := Ref(page, t, last * BlockSize(t), n);
      assert RefFits(refs[id], r);
      addr := TakeFirst(id, r);
      assert refs[..] == was[id := refs[id]];
      TailThreaded(mem[..], r);
      NewPageStored(p, q, was, mem[..], id, refs[id]);
    }

    /** Fill the page and link its record; the bitmaps and frames are those of q already. */
    method Install(page: nat, id: nat, t: nat, ghost q: Pool) returns (addr: nat)
      requires Separate() && Linked(p, nextSame[..], nextAll[..], bases[..], allbase) && Stored(p, refs[..], mem[..])
      requires Ready(p, q, page, id, t) && frames == q.frames
      requires roots.Valid() && roots.Used() == Taken(q) && roots.pages[..] == q.roots
      modifies this`p, this`allbase, mem, refs, nextSame, nextAll, bases
      ensures Coupled() && p == q && addr == LastBlock(page, t)
    {
      addr := FillPage(page, id, t, q);
      LinkRecord(id, t, q);
      SetPool(q);
    }

    /** No page is added; a record may have been lost. */
    method NotGrown(ghost q: Pool)
      requires Separate() && Linked(p, nextSame[..], nextAll[..], bases[..], allbase) && Stored(p, refs[..], mem[..])
      requires q == p.(lost := q.lost) && frames == p.frames
      requires roots.Valid() && roots.Used() == Taken(q) && roots.pages[..] == q.roots
      modifies this`p
      ensures Coupled() && p == q
    {
      LinkedSame(p, q, nextSame[..], nextAll[..], bases[..], allbase);
      p := q;
    }

    lemma AfterGetRecord(t: nat, o: Outcome, id: int)
      requires p.frames != [] && GrowEnds(p, t, o) && GotRecord(p, id, frames)
      ensures id < 0 ==> (o == NoMemory(p) || o == Leaked(p.(lost := o.p.lost))) && frames == p.frames
                         && roots.Valid() && roots.Used() == Taken(o.p) && roots.pages[..] == o.p.roots
      ensures id >= 0 ==>
                && o.Block? && Ready(p, o.p, p.frames[0], id, t) && frames == o.p.frames
                && o.addr == LastBlock(p.frames[0], t)
                && roots.Valid() && roots.Used() == Taken(o.p) && roots.pages[..] == o.p.roots
    {
      assert o.Leaked? ==> Taken(o.p) == Taken(p) + {FirstUnused(Taken(p), 0)};
    }

    /** The second half of subpage_kmalloc: a new page of the size, if it can be had. */
    method GrowHeap(t: nat, ghost o: Outcome) returns (addr: nat)
      requires Coupled() && GrowEnds(p, t, o)
      modifies this, mem, refs, nextSame, nextAll, bases, roots.inuse, roots.numinuse, roots.pages
      ensures Coupled() && Ends(o, addr)
    {
      addr := 0;
      if frames == [] {
        return;
      }
      var page, id := GetRecord();
      AfterGetRecord(t, o, id);
      if id < 0 {
        NotGrown(o.p);
        return;
      }
      addr := Install(page, id, t, o.p);
    }

    /** blocktype. */
    method TypeOf(sz: nat) returns (t: nat)
      requires sz <= LARGEST
      ensures t == TypeFor(sz, 0)
    {
      t := 0;
      while sz > BlockSize(t)
        invariant t < NSIZES && TypeFor(sz, 0) == TypeFor(sz, t)
        decreases NSIZES - t
      {
        SizeTable(t);
        t := t + 1;
      }
    }

    /** The state a call leaves, and the address it returns, as the outcome has it. */
    ghost predicate Ends(o: Outcome, addr: nat)
      reads this
    {
      match o
      case Block(q, a) => p == q && addr == a
      case NoMemory(q) => p == q && addr == 0
      case Leaked(q) => p == q && addr == 0
      case Halted => false
    }

    /** subpage_kmalloc. */
    method SubpageKmalloc(t: nat) returns (addr: nat)
      requires Valid() && t < NSIZES
      modifies this, mem, refs, nextSame, nextAll, bases, roots.inuse, roots.numinuse, roots.pages
      ensures Valid() && Ends(SubpageAlloc(old(p), t), addr)
    {
      SubpageAllocKeeps(p, t);
      GrowEndsSo(p, t);
      SizeListStored(p, refs[..], mem[..], t);
      var id := FindPage(nextSame, refs, bases[t], p, p.same[t]);
      if id >= 0 {
        addr := TakeFromPage(id);
      } else {
        addr := GrowHeap(t, Grow(p, t));
      }
    }

    method FillDeadbeef(w: nat, n: nat)
      requires w + n <= mem.Length
      modifies mem
      ensures forall i | 0 <= i < mem.Length && !(w <= i < w + n) :: mem[i] == old(mem[i])
    {
      for i := 0 to n
        invariant forall j | 0 <= j < mem.Length && !(w <= j < w + n) :: mem[j] == old(mem[j])
      {
        mem[w + i] := DEADBEEF;
      }
    }

    /** Clear the block and put it in front of the free list of its page. */
    method PutFirst(id: nat, k: nat, ghost r: Rec)
      requires id < refs.Length && RefFits(refs[id], r) && RecOk(r) && k < Capacity(r.t) && PageFits(r.page, mem.Length)
      modifies mem, refs
      ensures OnlyBlock(old(mem[..]), mem[..], r, k)
      ensures WordOf(r, k) < mem.Length && mem[WordOf(r, k)] == NextAddress(r, 0)
      ensures RefFits(refs[id], r.(free := [k] + r.free))
      ensures forall i | 0 <= i < refs.Length && i != id :: refs[i] == old(refs[i])
    {
      var pr := refs[id];
      var z := BlockSize(pr.t);
      BlockInMemory(r, k, mem.Length);
      var addr := pr.page * PAGE + k * z;
      FillDeadbeef(addr / WORD, z / WORD);
      if r.free != [] {
        BlockBounds(r.t, r.free[0]);
      }
      if pr.freeOff == INVALID_OFFSET {
        mem[addr / WORD] := 0;
      } else {
        mem[addr / WORD] := pr.page * PAGE + pr.freeOff;
      }
      refs[id] := pr.(freeOff := k * z, nfree := pr.nfree + 1);
    }

    /** The block joins the free list of a page that keeps other live blocks. */
    method PushBlock(id: nat, k: nat)
      requires Coupled() && LiveBlock(p, id, k) && RecOk(p.recs[id]) && |p.recs[id].free| + 1 < Capacity(p.recs[id].t)
      requires Overwritable(p, refs[..], mem[..], id, k)
      modifies mem, refs, this`p
      ensures Coupled() && p == Push(old(p), id, k)
    {
      ghost var p' := Push(p, id, k);
      LinkedSame(p, p', nextSame[..], nextAll[..], bases[..], allbase);
      TakenSame(p, p', id);
      PutBlock(id, k);
      SetPool(p');
    }

    /** The block is threaded in front of the free list of its page. */
    method PutBlock(id: nat, k: nat)
      requires Stored(p, refs[..], mem[..]) && |p.same| == NSIZES && id in p.recs && RecOk(p.recs[id])
      requires k < Capacity(p.recs[id].t) && |p.recs[id].free| + 1 < Capacity(p.recs[id].t)
      requires Overwritable(p, refs[..], mem[..], id, k)
      modifies mem, refs
      ensures Stored(Push(p, id, k), refs[..], mem[..])
    {
      ghost var r, was := p.recs[id], refs[..];
      assert RefFits(refs[id], r) && Threaded(mem[..], r) && PageFits(r.page, mem.Length);
      PutFirst(id, k, r);
      assert refs[..] == was[id := refs[id]];
      PushStored(p, was, mem[..], id, k, refs[id]);
    }

    /** remove_lists. */
    method RemoveLists(id: nat, t: nat, ghost q: Pool)
      requires Separate() && Linked(p, nextSame[..], nextAll[..], bases[..], allbase)
      requires Removable(p, q, id) && t == p.recs[id].t
      modifies nextSame, nextAll, bases, this`allbase
      ensures Linked(q, nextSame[..], nextAll[..], bases[..], allbase)
    {
      ghost var s := nextSame[..];
      var first := Unlink(nextSame, bases[t], id, p.same[t]);
      bases[t] := first;
      allbase := Unlink(nextAll, allbase, id, p.all);
      forall u | 0 <= u < NSIZES ensures ListIs(nextSame[..], bases[u], q.same[u]) {
        if u != t {
          ListFrame(s, nextSame[..], bases[u], p.same[u]);
        }
      }
    }

    /** The last live block of a page is freed: the record and the page go. */
    method DropPage(id: nat, k: nat, ghost q: Pool) returns (ok: bool)
      requires Coupled() && LiveBlock(p, id, k) && RecOk(p.recs[id])
      requires Overwritable(p, refs[..], mem[..], id, k) && Removable(p, q, id)
      requires id / PER_ROOT < ROOTS && roots.pages[id / PER_ROOT] != 0
      modifies this, mem, refs, nextSame, nextAll, bases, roots.inuse, roots.numinuse
      ensures (ok <==> old(roots.ClearUpTo(id / PER_ROOT))) && (ok ==> Coupled() && p == q)
    {
      ghost var r, was := p.recs[id], refs[..];
      assert RefFits(refs[id], r) && PageFits(r.page, mem.Length);
      var page, t := refs[id].page, refs[id].t;
      PutFirst(id, k, r);
      DroppedStored(p, q, was, refs[..], mem[..], id);
      ok := DropRecord(id, page, t, q);
    }

    /** The lists and bitmaps give up a record, and its page goes back to the frames, unless the
        assertion in freepageref fails. */
    method DropRecord(id: nat, page: nat, t: nat, ghost q: Pool) returns (ok: bool)
      requires Separate() && frames == p.frames && Linked(p, nextSame[..], nextAll[..], bases[..], allbase)
      requires PoolAgrees()
      requires Removable(p, q, id) && Stored(q, refs[..], mem[..]) && t == p.recs[id].t && page == p.recs[id].page
      requires id / PER_ROOT < ROOTS && roots.pages[id / PER_ROOT] != 0
      modifies this, nextSame, nextAll, bases, roots.inuse, roots.numinuse
      ensures (ok <==> old(roots.ClearUpTo(id / PER_ROOT))) && (ok ==> Coupled() && p == q)
    {
      RemoveLists(id, t, q);
      ok := roots.FreeRef(id);
      if ok {
        frames := [page] + frames;
        p := q;
      }
    }

    /** kmalloc. */
    method Malloc(sz: nat) returns (addr: nat, halted: bool)
      requires Valid() && sz < ADDRESSES
      modifies this, mem, refs, nextSame, nextAll, bases, roots.inuse, roots.numinuse, roots.pages
      ensures halted <==> Kmalloc(old(p), sz).Halted?
      ensures !halted ==> Valid() && Ends(Kmalloc(old(p), sz), addr)
    {
      if sz >= LARGEST {
        addr, halted := AllocPages(PagesFor(sz));
      } else {
        KmallocKeeps(p, sz);
        var t := TypeOf(sz);
        addr := SubpageKmalloc(t);
        halted := false;
      }
    }

    /** check_free_frame. */
    method CheckFreeFrame(n: nat) returns (seen: nat)
      ensures seen == FramesSeen(frames, n)
    {
      if frames == [] {
        return 0;
      }
      seen := 1;
      var i := 1;
      while i < n
        invariant i == seen <= (if n <= 1 then 1 else n) && (i > 1 ==> |frames| > 1)
      {
        if |frames| == 1 {
          break;
        }
        seen := seen + 1;
        i := i + 1;
      }
    }

    /** alloc_kpages. It halts at the assertion on n, at the panic that the check does not give n, and
        where the frame list ends before n frames are taken. */
    method AllocPages(n: nat) returns (addr: nat, halted: bool)
      requires Valid()
      modifies this`frames, this`p
      ensures halted <==> PageAlloc(old(p), n).Halted?
      ensures !halted ==> Valid() && Ends(PageAlloc(old(p), n), addr)
    {
      addr, halted := 0, n >= MAX_PAGES;
      if halted {
        return;
      }
      var seen := CheckFreeFrame(n);
      if seen == 0 {
        return;
      }
      if seen != n {
        return 0, true;
      }
      addr, halted := TakeFrames(n);
      if !halted {
        PagesTaken(p, n);
        ghost var q := TakePages(p, n);
        LinkedSame(p, q, nextSame[..], nextAll[..], bases[..], allbase);
        TakenStored(p, n, refs[..], mem[..]);
        p := q;
      }
    }

    /** The loop over the frames. */
    method TakeFrames(n: nat) returns (addr: nat, halted: bool)
      requires 0 < n && frames == p.frames && forall i | 0 <= i < |frames| :: 0 < frames[i]
      modifies this`frames
      ensures halted <==> |p.frames| < n
      ensures !halted ==> frames == p.frames[n..] && addr == p.frames[0] * PAGE
    {
      addr, halted := 0, false;
      for i := 0 to n
        invariant i <= |p.frames| && frames == p.frames[i..] && addr == if i == 0 then 0 else p.frames[0] * PAGE
      {
        if frames == [] {
          return addr, true;
        }
        var index := frames[0];
        if addr == 0 {
          addr := index * PAGE;
        }
        frames := frames[1..];
      }
    }

    /** The bitmaps say what stands in the way of freepageref. */
    lemma WayClear(id: nat)
      requires PoolAgrees() && RecordsOk(p) && id in p.recs
      ensures id / PER_ROOT < ROOTS && roots.pages[id / PER_ROOT] != 0
      ensures roots.ClearUpTo(id / PER_ROOT) <==> !Blocked(p, id)
    {
      assert roots.pages[..][id / PER_ROOT] == p.roots[id / PER_ROOT];
      forall r | 0 <= r < id / PER_ROOT && roots.pages[r] == 0
        ensures roots.numinuse[r] == 0 <==> !Stranded(p, r)
      {
        assert roots.pages[..][r] == p.roots[r];
        CountOnRoot(p, roots.inuse[..], r);
      }
      forall r | 0 <= r < id / PER_ROOT && Stranded(p, r) ensures roots.pages[r] == 0 {
        assert roots.pages[..][r] == p.roots[r];
      }
    }

    /** subpage_kfree for a live block of record id. */
    method FreeBlock(id: nat, k: nat) returns (ok: bool)
      requires Valid() && LiveBlock(p, id, k)
      modifies this, mem, refs, nextSame, nextAll, bases, roots.inuse, roots.numinuse
      ensures (ok <==> !CannotDrop(old(p), id)) && (ok ==> Valid() && p == Push(old(p), id, k))
    {
      PushKeeps(p, id, k);
      LiveIsOverwritable(p, refs[..], mem[..], id, k);
      assert RecOk(p.recs[id]) && RefFits(refs[id], p.recs[id]);
      if refs[id].nfree + 1 == Capacity(refs[id].t) {
        DropIsRemovable(p, id, k);
        WayClear(id);
        ok := DropPage(id, k, Push(p, id, k));
      } else {
        PushBlock(id, k);
        ok := true;
      }
    }

    /** subpage_kfree and free_kpages, with the assertions that a bad address runs into. */
    method Free(addr: nat, ghost z: nat) returns (halted: bool)
      requires Valid() && (addr == 0 || Live(p, addr, z) || Kfree(p, addr).BadFree?)
      modifies this, mem, refs, nextSame, nextAll, bases, roots.inuse, roots.numinuse
      ensures halted <==> !Kfree(old(p), addr).Freed?
      ensures !halted ==> Valid() && Freed(p) == Kfree(old(p), addr)
    {
      if addr == 0 {
        return false;
      }
      var id := FindOwner(addr);
      if id < 0 {
        halted := FreeElsewhere(addr, z);
      } else {
        halted := FreeOnPage(id, addr, z);
      }
    }

    /** The address is on a heap page. */
    method FreeOnPage(id: nat, addr: nat, ghost z: nat) returns (halted: bool)
      requires Valid() && addr != 0 && (Live(p, addr, z) || Kfree(p, addr).BadFree?)
      requires OwnerIs(p, addr, id) && RefFits(refs[id], p.recs[id])
      modifies this, mem, refs, nextSame, nextAll, bases, roots.inuse, roots.numinuse
      ensures halted <==> !Kfree(old(p), addr).Freed?
      ensures !halted ==> Valid() && Freed(p) == Kfree(old(p), addr)
    {
      var offset, size := addr % PAGE, BlockSize(refs[id].t);
      BadOnPage(p, addr, id);
      if offset % size != 0 {
        return true;
      }
      var k := BlockNumber(offset, size);
      if refs[id].freeOff == offset {
        return true;
      }
      BlockFound(p, addr, id, z);
      var ok := FreeBlock(id, k);
      halted := !ok;
    }

    /** The address is not on a heap page. */
    method FreeElsewhere(addr: nat, ghost z: nat) returns (halted: bool)
      requires Valid() && addr != 0 && (Live(p, addr, z) || Kfree(p, addr).BadFree?)
      requires RecordOfPage(p, p.all, addr / PAGE, 0) == |p.all|
      modifies this`frames, this`p
      ensures halted <==> !Kfree(old(p), addr).Freed?
      ensures !halted ==> Valid() && Freed(p) == Kfree(old(p), addr)
    {
      if addr % PAGE != 0 || addr / PAGE in frames {
        return true;
      }
      Owner(p, addr, z);
      FreePage(addr);
      halted := false;
    }

    method FindOwner(addr: nat) returns (id: int)
      requires Coupled() && ListsOk(p)
      ensures var i := RecordOfPage(p, p.all, addr / PAGE, 0); id == if i < |p.all| then p.all[i] else -1
      ensures id >= 0 ==>
              id in p.recs && p.recs[id].page == addr / PAGE && id < refs.Length && RefFits(refs[id], p.recs[id])
    {
      AllStored(p, refs[..], mem[..]);
      id := FindRecord(nextAll, refs, allbase, addr, p, p.all);
    }

    /** A client writes a word of its own allocation: the heap does not notice. */
    method ClientStore(addr: nat, ghost z: nat, w: nat, value: int)
      requires Valid() && InOrder(p) && Live(p, addr, z)
      requires addr / WORD <= w < addr / WORD + z / WORD && w < mem.Length
      modifies mem
      ensures Valid() && mem[..] == old(mem[..])[w := value]
    {
      StoreSafe(p, refs[..], mem[..], addr, z, w, value);
      mem[w] := value;
      assert mem[..] == old(mem[..])[w := value];
    }

    /** free_kpages on a page that was given out whole. */
    method FreePage(addr: nat)
      requires Valid() && addr % PAGE == 0 && addr / PAGE in p.big
      modifies this`frames, this`p
      ensures Valid() && Freed(p) == Kfree(old(p), addr)
    {
      WholePageBack(p, addr);
      frames := [addr / PAGE] + frames;
      ghost var q := Kfree(p, addr).p;
      LinkedSame(p, q, nextSame[..], nextAll[..], bases[..], allbase);
      p := q;
    }
  }

  /** A live address is on a page of the list, or it is a whole page. */
  lemma Owner(p: Pool, addr: nat, z: nat)
    requires Inv(p) && Live(p, addr, z)
    ensures RecordOfPage(p, p.all, addr / PAGE, 0) == |p.all| ==> addr % PAGE == 0 && addr / PAGE in p.big
  {
    if !WholePages(p, addr, z) {
      var i, k :| LiveBlock(p, i, k) && addr == AddressOf(p.recs[i], k) && z == BlockSize(p.recs[i].t);
      AddressParts(p.recs[i], k);
      assert i in p.all && IsPageOf(p, i, addr / PAGE);
    }
  }

  /** kfree comes upon record id for the address. */
  ghost predicate OwnerIs(p: Pool, addr: nat, id: nat)
  {
    var i := RecordOfPage(p, p.all, addr / PAGE, 0);
    i < |p.all| && p.all[i] == id && id in p.recs && p.recs[id].page == addr / PAGE
  }

  /** The two assertions of subpage_kfree, on the record. */
  lemma BadOnPage(p: Pool, addr: nat, id: nat)
    requires Inv(p) && addr != 0 && OwnerIs(p, addr, id)
    ensures var r, offset := p.recs[id], addr % PAGE; var z := BlockSize(r.t);
            Kfree(p, addr).BadFree? <==> offset % z != 0 || (r.free != [] && offset == r.free[0] * z)
  {
    var r, offset := p.recs[id], addr % PAGE;
    assert RecOk(r);
    Multiple(offset, BlockSize(r.t));
    if r.free != [] {
      Exact(r.free[0], BlockSize(r.t));
    }
  }

  lemma Multiple(offset: nat, z: nat)
    requires 0 < z
    ensures offset % z == 0 ==> offset == offset / z * z
  {
  }

  /** A live address on a heap page is the address of a live block of that page. */
  lemma BlockFound(p: Pool, addr: nat, id: nat, z: nat)
    requires Inv(p) && Live(p, addr, z) && id in p.recs && p.recs[id].page == addr / PAGE
    ensures var k := BlockNumber(addr % PAGE, BlockSize(p.recs[id].t));
            LiveBlock(p, id, k) && Kfree(p, addr) == if CannotDrop(p, id) then Stuck else Freed(Push(p, id, k))
  {
    assert addr / PAGE !in p.big;
    var i, k :| LiveBlock(p, i, k) && addr == AddressOf(p.recs[i], k) && z == BlockSize(p.recs[i].t);
    AddressParts(p.recs[i], k);
    BlockBounds(p.recs[i].t, k);
    KfreeFinds(p, i, k);
  }

  lemma TakenStored(p: Pool, n: nat, refs: seq<Ref>, mem: seq<int>)
    requires 1 <= n <= |p.frames| && Stored(p, refs, mem)
    ensures Stored(TakePages(p, n), refs, mem)
  {
  }

  /** A word of a block of whole pages is on a page that is no heap page. */
  lemma WordOfWhole(p: Pool, f: nat, w: nat) returns (page: nat)
    requires PagesOk(p) && InOrder(p) && f in p.big
    requires f * (PAGE / WORD) <= w < f * (PAGE / WORD) + p.big[f] * (PAGE / WORD)
    ensures page * (PAGE / WORD) <= w < (page + 1) * (PAGE / WORD)
    ensures forall id | id in p.recs :: p.recs[id].page != page
  {
    page := w / (PAGE / WORD);
    assert Extends(p, f, page);
    forall id | id in p.recs ensures p.recs[id].page != page {
      assert IsPageOf(p, id, p.recs[id].page);
    }
  }

  lemma StoreSafe(p: Pool, refs: seq<Ref>, mem: seq<int>, addr: nat, z: nat, w: nat, value: int)
    requires Inv(p) && InOrder(p) && Stored(p, refs, mem) && Live(p, addr, z)
    requires addr / WORD <= w < addr / WORD + z / WORD && w < |mem|
    ensures Stored(p, refs, mem[w := value])
  {
    if WholePages(p, addr, z) {
      StoreWhole(p, refs, mem, addr, w, value);
    } else {
      var id, k :| LiveBlock(p, id, k) && addr == AddressOf(p.recs[id], k) && z == BlockSize(p.recs[id].t);
      StoreBlock(p, refs, mem, id, k, w, value);
    }
  }

  lemma StoreBlock(p: Pool, refs: seq<Ref>, mem: seq<int>, id: nat, k: nat, w: nat, value: int)
    requires Inv(p) && Stored(p, refs, mem) && LiveBlock(p, id, k)
    requires var r := p.recs[id]; AddressOf(r, k) / WORD <= w < AddressOf(r, k) / WORD + BlockSize(r.t) / WORD
    ensures w < |mem| && Stored(p, refs, mem[w := value])
  {
    BlockInMemory(p.recs[id], k, |mem|);
    BlockOverwritten(p, refs, mem, mem[w := value], id, k);
  }

  lemma StoreWhole(p: Pool, refs: seq<Ref>, mem: seq<int>, addr: nat, w: nat, value: int)
    requires PagesOk(p) && RecordsOk(p) && InOrder(p) && Stored(p, refs, mem)
    requires addr % PAGE == 0 && addr / PAGE in p.big && w < |mem|
    requires addr / WORD <= w < addr / WORD + p.big[addr / PAGE] * PAGE / WORD
    ensures Stored(p, refs, mem[w := value])
  {
    var f := addr / PAGE;
    assert addr == f * PAGE;
    var page := WordOfWhole(p, f, w);
    PageOverwritten(p, refs, mem, mem[w := value], page);
  }
}
