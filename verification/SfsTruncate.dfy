/** sfs_itrunc: which blocks of a file go, and that they go once. */
module SfsTruncate {
  import opened Common
  import opened SfsDisk
  import opened SfsState
  import opened SfsOwnership

  const HIGH_BLOCK: nat := 142    // the last block the indirect block can map

  /** The new length in blocks, in 32 bits. */
  function BlocksFor(len: nat): nat { (len + BLOCK - 1) / BLOCK % WORD_LIMIT }

  datatype Marks = Marks(used: set<nat>, ptrs: seq<nat>)

  /** The loops over block pointers: those from index start on go. Freeing a block that is not
      marked would panic. */
  function Discard(used: set<nat>, ptrs: seq<nat>, start: nat, i: nat): (r: Option<Marks>)
    requires i <= |ptrs|
    ensures r.Some? ==> |r.value.ptrs| == |ptrs|
    ensures r.Some? ==> forall k | 0 <= k < |ptrs| :: r.value.ptrs[k] == 0 || r.value.ptrs[k] == ptrs[k]
    decreases |ptrs| - i
  {
    if i == |ptrs| then Some(Marks(used, ptrs))
    else if i >= start && ptrs[i] != 0 then
      if ptrs[i] !in used then None else Discard(used - {ptrs[i]}, ptrs[i := 0], start, i + 1)
    else Discard(used, ptrs, start, i + 1)
  }

  /** Direct blocks go from block number bl on; entries of the indirect block only past it, so the
      block at number bl itself stays. */
  function FirstSlotGone(bl: nat): nat
  {
    if bl < NDIRECT then 0 else bl - NDIRECT + 1
  }

  predicate NothingMapped(ws: seq<nat>)
  {
    forall j | 0 <= j < |ws| :: ws[j] == 0
  }

  datatype Cut = Cut(fs: Fs, indirect: nat)

  /** The indirect part: entries past the new length go, and the block itself when none is left. */
  function CutIndirect(fs: Fs, id: nat, bl: nat): Option<Cut>
    requires |fs.disk| == fs.nblocks
  {
    if bl >= HIGH_BLOCK || id == 0 then Some(Cut(fs, id))
    else if id >= fs.nblocks then None
    else
      var ws := WordsOf(fs.disk[id]);
      match Discard(fs.used, ws, FirstSlotGone(bl), 0)
      case None => None
      case Some(m) =>
        if NothingMapped(m.ptrs) then
          if id !in m.used then None else Some(Cut(fs.(used := m.used - {id}), 0))
        else if m.ptrs == ws then Some(Cut(fs.(used := m.used), id))
        else Some(Cut(WriteBlock(fs.(used := m.used), id, BlockOf(m.ptrs)), id))
  }

  /** sfs_itrunc; None stands for a panic. */
  function Itrunc(fs: Fs, ino: nat, len: nat): Option<Fs>
    requires Shaped(fs) && ino in fs.files
  {
    var f, bl := fs.files[ino], BlocksFor(len);
    match Discard(fs.used, f.direct, bl, 0)
    case None => None
    case Some(d) =>
      match CutIndirect(fs.(used := d.used), f.indirect, bl)
      case None => None
      case Some(c) => Some(SetFile(c.fs, ino, f.(size := len % WORD_LIMIT, direct := d.ptrs, indirect := c.indirect)))
  }

  // ---------------------------------------------------------------------------------------------
  // The loops

  ghost function Gone(ptrs: seq<nat>, start: nat, i: nat): set<nat>
  {
    set k | 0 <= k < |ptrs| && i <= k && start <= k && ptrs[k] != 0 :: ptrs[k]
  }

  predicate Distinct(ptrs: seq<nat>)
  {
    forall k, l | 0 <= k < l < |ptrs| && ptrs[k] != 0 :: ptrs[k] != ptrs[l]
  }

  lemma GoneFirst(ptrs: seq<nat>, start: nat, i: nat, next: nat)
    requires i < |ptrs| && next == i + 1 && start <= i && ptrs[i] != 0 && Distinct(ptrs)
    ensures var rest := ptrs[i := 0];
            && Gone(ptrs, start, i) == {ptrs[i]} + Gone(rest, start, next)
            && ptrs[i] !in Gone(rest, start, next) && Distinct(rest)
  {
    var rest := ptrs[i := 0];
    forall b ensures b in Gone(ptrs, start, i) <==> b == ptrs[i] || b in Gone(rest, start, next) {
      if b in Gone(ptrs, start, i) && b != ptrs[i] {
        var k :| 0 <= k < |ptrs| && i <= k && start <= k && ptrs[k] != 0 && b == ptrs[k];
        assert rest[k] == b;
      }
      if b in Gone(rest, start, next) {
        var k :| 0 <= k < |rest| && next <= k && start <= k && rest[k] != 0 && b == rest[k];
        assert ptrs[k] == b;
      }
    }
  }

  /** Each discarded block is freed once, and its pointer cleared; the others stay. */
  lemma {:induction false} DiscardMeaning(used: set<nat>, ptrs: seq<nat>, start: nat, i: nat)
    requires i <= |ptrs| && Gone(ptrs, start, i) <= used && Distinct(ptrs)
    ensures var r := Discard(used, ptrs, start, i);
            && r.Some? && r.value.used == used - Gone(ptrs, start, i) && |r.value.ptrs| == |ptrs|
            && forall k | 0 <= k < |ptrs| :: r.value.ptrs[k] == if i <= k && start <= k then 0 else ptrs[k]
    decreases |ptrs| - i
  {
    if i < |ptrs| {
      var next := i + 1;
      if i >= start && ptrs[i] != 0 {
        GoneFirst(ptrs, start, i, next);
        DiscardMeaning(used - {ptrs[i]}, ptrs[i := 0], start, next);
      } else {
        assert Gone(ptrs, start, i) == Gone(ptrs, start, next);
        DiscardMeaning(used, ptrs, start, next);
      }
    }
  }

  // ---------------------------------------------------------------------------------------------
  // The whole truncation

  /** The pointers that lose their block. */
  predicate Loses(o: Owner, ino: nat, bl: nat)
  {
    (o.Direct? && o.ino == ino && o.i >= bl) || (o.Slot? && o.ino == ino && o.j >= FirstSlotGone(bl))
  }

  lemma DirectFacts(fs: Fs, own: map<nat, Owner>, ino: nat, bl: nat)
    requires Inv(fs, own) && ino in fs.files
    ensures var f := fs.files[ino];
            && Distinct(f.direct) && Gone(f.direct, bl, 0) <= fs.used
            && forall b | b in own :: b in Gone(f.direct, bl, 0) <==> own[b].Direct? && Loses(own[b], ino, bl)
  {
    var f := fs.files[ino];
    assert FileOwns(fs, own, ino);
    forall b | b in Gone(f.direct, bl, 0) ensures b in own && own[b].Direct? && Loses(own[b], ino, bl) {
      var k :| 0 <= k < |f.direct| && bl <= k && f.direct[k] != 0 && b == f.direct[k];
      assert Owned(own, b, Direct(ino, k));
    }
    forall b | b in own && own[b].Direct? && Loses(own[b], ino, bl) ensures b in Gone(f.direct, bl, 0) {
      assert Backed(fs, b, own[b]);
    }
    forall k, l | 0 <= k < l < |f.direct| && f.direct[k] != 0 ensures f.direct[k] != f.direct[l] {
      assert Owned(own, f.direct[k], Direct(ino, k));
    }
  }

  lemma SlotFacts(fs: Fs, own: map<nat, Owner>, ino: nat, bl: nat, ws: seq<nat>)
    requires Inv(fs, own) && ino in fs.files && |ws| == PER_INDIRECT
    requires forall k: nat | k < PER_INDIRECT :: ws[k] == SlotOf(fs, fs.files[ino], k)
    ensures var start := FirstSlotGone(bl);
            && Distinct(ws) && Gone(ws, start, 0) <= fs.used
            && forall b | b in own :: b in Gone(ws, start, 0) <==> own[b].Slot? && Loses(own[b], ino, bl)
  {
    var start := FirstSlotGone(bl);
    assert FileOwns(fs, own, ino);
    forall b | b in Gone(ws, start, 0) ensures b in own && own[b].Slot? && Loses(own[b], ino, bl) {
      var k :| 0 <= k < |ws| && start <= k && ws[k] != 0 && b == ws[k];
      assert Owned(own, SlotOf(fs, fs.files[ino], k), Slot(ino, k));
    }
    forall b | b in own && own[b].Slot? && Loses(own[b], ino, bl) ensures b in Gone(ws, start, 0) {
      assert Backed(fs, b, own[b]);
      assert ws[own[b].j] == b;
    }
    forall k: nat, l: nat | k < l < PER_INDIRECT && ws[k] != 0 ensures ws[k] != ws[l] {
      assert Owned(own, SlotOf(fs, fs.files[ino], k), Slot(ino, k));
      assert ws[l] == SlotOf(fs, fs.files[ino], l);
    }
  }

  /** Pointers of file ino are cleared and their owners forgotten; nothing else changes. */
  ghost predicate Detached(fs: Fs, own: map<nat, Owner>, fs': Fs, own': map<nat, Owner>, ino: nat)
    requires Shaped(fs) && ino in fs.files
  {
    && Shaped(fs') && ino in fs'.files && fs'.files == fs.files[ino := fs'.files[ino]] && fs'.nblocks == fs.nblocks
    && fs'.used == own'.Keys
    && (forall b | b in own' :: b in own && own'[b] == own[b])
    && (forall b | b in own && (own[b].Super? || own[b].Freemap? || own[b].InodeOf? || own[b].ino != ino) :: b in own')
    && (forall k, j: nat | k in fs.files && k != ino && j < PER_INDIRECT ::
           SlotOf(fs', fs.files[k], j) == SlotOf(fs, fs.files[k], j))
    && StillBacked(own, fs', own', ino)
    && var f, f' := fs.files[ino], fs'.files[ino];
       && (forall i | 0 <= i < NDIRECT && f'.direct[i] != 0 :: f'.direct[i] == f.direct[i] && f.direct[i] in own')
       && (f'.indirect != 0 ==> f'.indirect == f.indirect && f.indirect in own')
       && (forall j: nat | j < PER_INDIRECT && SlotOf(fs', f', j) != 0 ::
              SlotOf(fs', f', j) == SlotOf(fs, f, j) && SlotOf(fs, f, j) in own')
  }

  /** The blocks that the file keeps are where they were. */
  ghost predicate StillBacked(own: map<nat, Owner>, fs': Fs, own': map<nat, Owner>, ino: nat)
    requires Shaped(fs') && ino in fs'.files && forall b | b in own' :: b in own
  {
    var f' := fs'.files[ino];
    && (forall b | b in own' && own[b].Direct? && own[b].ino == ino && own[b].i < NDIRECT :: f'.direct[own[b].i] == b)
    && (forall b | b in own' && own[b].Indirect? && own[b].ino == ino :: f'.indirect == b)
    && (forall b | b in own' && own[b].Slot? && own[b].ino == ino && own[b].j < PER_INDIRECT ::
           SlotOf(fs', f', own[b].j) == b)
  }

  lemma DetachKeeps(fs: Fs, own: map<nat, Owner>, fs': Fs, own': map<nat, Owner>, ino: nat)
    requires Inv(fs, own) && ino in fs.files && Detached(fs, own, fs', own', ino)
    ensures Inv(fs', own')
  {
    forall k | k in fs'.files ensures FileOwns(fs', own', k) {
      assert FileOwns(fs, own, k);
      if k == ino {
        assert FileOwns(fs, own, ino);
      } else {
        OtherOwns(fs, own, fs', own', ino, k);
      }
    }
    forall c | c in own' ensures c < fs'.nblocks && Backed(fs', c, own'[c]) {
      assert Backed(fs, c, own[c]);
    }
  }

  lemma OtherOwns(fs: Fs, own: map<nat, Owner>, fs': Fs, own': map<nat, Owner>, ino: nat, k: nat)
    requires Inv(fs, own) && ino in fs.files && Detached(fs, own, fs', own', ino) && k in fs.files && k != ino
    ensures FileOwns(fs', own', k)
  {
    assert FileOwns(fs, own, k);
    assert forall j | 0 <= j < PER_INDIRECT :: SlotOf(fs', fs.files[k], j) == SlotOf(fs, fs.files[k], j);
  }

  /** What is left of the indirect block: entries before the first one gone. */
  lemma CutMeaning(fs: Fs, f: Inode, id: nat, bl: nat, ws: seq<nat>)
    requires |fs.disk| == fs.nblocks && id == f.indirect && id < fs.nblocks
    requires |ws| == PER_INDIRECT && forall k: nat | k < PER_INDIRECT :: ws[k] == SlotOf(fs, f, k)
    requires Distinct(ws) && Gone(ws, FirstSlotGone(bl), 0) <= fs.used
    requires (id != 0 ==> id in fs.used - Gone(ws, FirstSlotGone(bl), 0))
    ensures var r := CutIndirect(fs, id, bl); var start := FirstSlotGone(bl);
            && r.Some? && (r.value.indirect == 0 || r.value.indirect == id)
            && (forall k: nat | k < PER_INDIRECT ::
                  SlotOf(r.value.fs, f.(indirect := r.value.indirect), k) == if start <= k then 0 else ws[k])
            && r.value.fs.used == fs.used - Gone(ws, start, 0) - (if r.value.indirect == 0 && id != 0 then {id} else {})
            && r.value.fs.files == fs.files && r.value.fs.nblocks == fs.nblocks && |r.value.fs.disk| == fs.nblocks
            && (forall b | 0 <= b < fs.nblocks && b != id :: r.value.fs.disk[b] == fs.disk[b])
            && (r.value.indirect == 0 ==> forall k: nat | k < PER_INDIRECT && k < start :: ws[k] == 0)
            && (bl == 0 ==> r.value.indirect == 0)
  {
    var start := FirstSlotGone(bl);
    if bl >= HIGH_BLOCK {
      assert Gone(ws, start, 0) == {};
    } else if id == 0 {
      assert Gone(ws, start, 0) == {};
    } else {
      assert WordsOf(fs.disk[id]) == ws;
      DiscardMeaning(fs.used, ws, start, 0);
      var m := Discard(fs.used, ws, start, 0).value;
      WordsRoundTrip(m.ptrs);
      CutSlots(fs, f, id, bl, ws, m);
    }
  }

  lemma CutSlots(fs: Fs, f: Inode, id: nat, bl: nat, ws: seq<nat>, m: Marks)
    requires |fs.disk| == fs.nblocks && id == f.indirect && 0 < id < fs.nblocks && bl < HIGH_BLOCK
    requires ws == WordsOf(fs.disk[id]) && Discard(fs.used, ws, FirstSlotGone(bl), 0) == Some(m) && id in m.used
    requires |m.ptrs| == PER_INDIRECT && (forall k | 0 <= k < |m.ptrs| :: m.ptrs[k] < WORD_LIMIT)
    requires WordsOf(BlockOf(m.ptrs)) == m.ptrs
    ensures var r := CutIndirect(fs, id, bl);
            r.Some? && forall k: nat | k < PER_INDIRECT ::
                SlotOf(r.value.fs, f.(indirect := r.value.indirect), k) == m.ptrs[k]
  {
    var r := CutIndirect(fs, id, bl);
    forall k: nat | k < PER_INDIRECT ensures SlotOf(r.value.fs, f.(indirect := r.value.indirect), k) == m.ptrs[k] {
      assert WordsOf(BlockOf(m.ptrs))[k] == m.ptrs[k];
      assert WordsOf(fs.disk[id])[k] == ws[k];
    }
  }

  /** The file blocks that stay mapped: those below the new length, and, in the indirect range, the
      one at it. */
  predicate Stays(bl: nat, fb: nat)
  {
    fb < bl || (fb == bl && fb >= NDIRECT)
  }

  ghost function OwnersLeft(own: map<nat, Owner>, ino: nat, bl: nat, indirect: nat): map<nat, Owner>
  {
    map b | b in own && !Loses(own[b], ino, bl) && (own[b] == Indirect(ino) ==> indirect != 0) :: own[b]
  }

  ghost predicate TruncContract(fs: Fs, own: map<nat, Owner>, ino: nat, len: nat, fs': Fs)
    requires Shaped(fs) && ino in fs.files
  {
    var bl := BlocksFor(len);
    && Shaped(fs') && ino in fs'.files && fs'.files == fs.files[ino := fs'.files[ino]] && fs'.nblocks == fs.nblocks
    && var f, f' := fs.files[ino], fs'.files[ino];
       && Inv(fs', OwnersLeft(own, ino, bl, f'.indirect)) && InodesKept(fs, fs', own)
       && f'.size == len % WORD_LIMIT && f'.kind == f.kind && f'.links == f.links
       && (forall fb: nat :: MapOf(fs', f', fb) == if Stays(bl, fb) then MapOf(fs, f, fb) else 0)
       && (forall fb: nat :: ContentOf(fs', f', fb) == if Stays(bl, fb) then ContentOf(fs, f, fb) else ZERO_BLOCK)
       && (forall k, fb: nat | k in fs.files && k != ino ::
              ContentOf(fs', fs'.files[k], fb) == ContentOf(fs, fs.files[k], fb))
       && (f'.indirect == 0 || f'.indirect == f.indirect)
       && (f'.indirect == 0 ==> forall fb: nat | NDIRECT <= fb :: MapOf(fs', f', fb) == 0)
       && (bl == 0 ==> f'.indirect == 0)
  }

  /** The state after the two loops, with the new inode in place. */
  function Truncated(fs: Fs, ino: nat, len: nat, d: Marks, c: Cut): Fs
    requires ino in fs.files
  {
    SetFile(c.fs, ino, fs.files[ino].(size := len % WORD_LIMIT, direct := d.ptrs, indirect := c.indirect))
  }

  /** The facts about the two loops that the rest of the proof needs. */
  ghost predicate Stages(fs: Fs, own: map<nat, Owner>, ino: nat, bl: nat, ws: seq<nat>, d: Marks, c: Cut)
    requires Shaped(fs) && ino in fs.files
  {
    var f := fs.files[ino];
    && |ws| == PER_INDIRECT && (forall k: nat | k < PER_INDIRECT :: ws[k] == SlotOf(fs, f, k))
    && |d.ptrs| == NDIRECT && (forall k | 0 <= k < NDIRECT :: d.ptrs[k] == if bl <= k then 0 else f.direct[k])
    && (forall b :: b in c.fs.used
           <==> b in own && !Loses(own[b], ino, bl) && (own[b] == Indirect(ino) ==> c.indirect != 0))
    && (c.indirect == 0 || c.indirect == f.indirect)
    && (forall k: nat | k < PER_INDIRECT ::
          SlotOf(c.fs, f.(indirect := c.indirect), k) == if FirstSlotGone(bl) <= k then 0 else ws[k])
    && c.fs.files == fs.files && c.fs.nblocks == fs.nblocks && |c.fs.disk| == fs.nblocks
    && (forall b | 0 <= b < fs.nblocks && b != f.indirect :: c.fs.disk[b] == fs.disk[b])
    && (c.indirect == 0 ==> forall k: nat | k < PER_INDIRECT && k < FirstSlotGone(bl) :: ws[k] == 0)
  }

  lemma TruncStages(fs: Fs, own: map<nat, Owner>, ino: nat, bl: nat, ws: seq<nat>) returns (d: Marks, c: Cut)
    requires Inv(fs, own) && ino in fs.files && |ws| == PER_INDIRECT
    requires forall k: nat | k < PER_INDIRECT :: ws[k] == SlotOf(fs, fs.files[ino], k)
    ensures var f := fs.files[ino];
            Discard(fs.used, f.direct, bl, 0) == Some(d) && CutIndirect(fs.(used := d.used), f.indirect, bl) == Some(c)
    ensures Stages(fs, own, ino, bl, ws, d, c) && (bl == 0 ==> c.indirect == 0)
  {
    var f := fs.files[ino];
    assert FileOwns(fs, own, ino);
    DirectFacts(fs, own, ino, bl);
    SlotFacts(fs, own, ino, bl, ws);
    DiscardMeaning(fs.used, f.direct, bl, 0);
    d := Discard(fs.used, f.direct, bl, 0).value;
    var fs1 := fs.(used := d.used);
    assert forall k: nat | k < PER_INDIRECT :: ws[k] == SlotOf(fs1, f, k);
    assert f.indirect != 0 ==> Owned(own, f.indirect, Indirect(ino));
    CutMeaning(fs1, f, f.indirect, bl, ws);
    c := CutIndirect(fs1, f.indirect, bl).value;
    forall b
      ensures b in c.fs.used <==> b in own && !Loses(own[b], ino, bl) && (own[b] == Indirect(ino) ==> c.indirect != 0)
    {
      if b in own && own[b] == Indirect(ino) {
        assert Backed(fs, b, own[b]);
      }
    }
  }

  lemma TruncShaped(fs: Fs, own: map<nat, Owner>, ino: nat, len: nat, bl: nat, ws: seq<nat>, d: Marks, c: Cut)
    requires Inv(fs, own) && ino in fs.files && Stages(fs, own, ino, bl, ws, d, c)
    ensures var fs' := Truncated(fs, ino, len, d, c); Shaped(fs') && ino in fs'.files
    ensures forall k: nat | k < PER_INDIRECT ::
              SlotOf(Truncated(fs, ino, len, d, c), Truncated(fs, ino, len, d, c).files[ino], k)
                  == if FirstSlotGone(bl) <= k then 0 else ws[k]
  {
    var fs', f := Truncated(fs, ino, len, d, c), fs.files[ino];
    forall k: nat | k < PER_INDIRECT
      ensures SlotOf(fs', fs'.files[ino], k) == if FirstSlotGone(bl) <= k then 0 else ws[k]
    {
      assert SlotOf(fs', fs'.files[ino], k) == SlotOf(c.fs, f.(indirect := c.indirect), k);
    }
  }

  lemma TruncOtherSlots(fs: Fs, own: map<nat, Owner>, ino: nat, len: nat, bl: nat, ws: seq<nat>, d: Marks, c: Cut,
                        k: nat, j: nat)
    requires Inv(fs, own) && ino in fs.files && Stages(fs, own, ino, bl, ws, d, c) && k in fs.files && k != ino
    requires j < PER_INDIRECT
    ensures SlotOf(Truncated(fs, ino, len, d, c), fs.files[k], j) == SlotOf(fs, fs.files[k], j)
  {
    assert FileOwns(fs, own, k);
    if fs.files[ino].indirect != 0 {
      IndirectUnshared(fs, own, ino, k);
    }
  }

  lemma TruncPointers(fs: Fs, own: map<nat, Owner>, ino: nat, len: nat, bl: nat, ws: seq<nat>, d: Marks, c: Cut,
                      own': map<nat, Owner>)
    requires Inv(fs, own) && ino in fs.files && Stages(fs, own, ino, bl, ws, d, c)
    requires own' == OwnersLeft(own, ino, bl, c.indirect)
    ensures var fs' := Truncated(fs, ino, len, d, c); Shaped(fs') && ino in fs'.files
    ensures var fs', f := Truncated(fs, ino, len, d, c), fs.files[ino]; var f' := fs'.files[ino];
            && (forall i | 0 <= i < NDIRECT && f'.direct[i] != 0 :: f'.direct[i] == f.direct[i] && f.direct[i] in own')
            && (f'.indirect != 0 ==> f'.indirect == f.indirect && f.indirect in own')
            && (forall j: nat | j < PER_INDIRECT && SlotOf(fs', f', j) != 0 ::
                   SlotOf(fs', f', j) == SlotOf(fs, f, j) && SlotOf(fs, f, j) in own')
  {
    TruncShaped(fs, own, ino, len, bl, ws, d, c);
    var fs', f := Truncated(fs, ino, len, d, c), fs.files[ino];
    var f' := fs'.files[ino];
    assert FileOwns(fs, own, ino);
    forall i | 0 <= i < NDIRECT && f'.direct[i] != 0 ensures f'.direct[i] == f.direct[i] && f.direct[i] in own' {
      assert Owned(own, f.direct[i], Direct(ino, i));
    }
    forall j: nat | j < PER_INDIRECT && SlotOf(fs', f', j) != 0
      ensures SlotOf(fs', f', j) == SlotOf(fs, f, j) && SlotOf(fs, f, j) in own'
    {
      assert Owned(own, SlotOf(fs, f, j), Slot(ino, j));
    }
  }

  lemma TruncBacked(fs: Fs, own: map<nat, Owner>, ino: nat, len: nat, bl: nat, ws: seq<nat>, d: Marks, c: Cut, b: nat)
    requires Inv(fs, own) && ino in fs.files && Stages(fs, own, ino, bl, ws, d, c)
    requires b in OwnersLeft(own, ino, bl, c.indirect)
    ensures var fs' := Truncated(fs, ino, len, d, c); Shaped(fs') && ino in fs'.files
    ensures var fs' := Truncated(fs, ino, len, d, c); var f' := fs'.files[ino];
            && (own[b].Direct? && own[b].ino == ino && own[b].i < NDIRECT ==> f'.direct[own[b].i] == b)
            && (own[b].Indirect? && own[b].ino == ino ==> f'.indirect == b)
            && (own[b].Slot? && own[b].ino == ino && own[b].j < PER_INDIRECT ==> SlotOf(fs', f', own[b].j) == b)
  {
    TruncShaped(fs, own, ino, len, bl, ws, d, c);
    assert Backed(fs, b, own[b]);
  }

  lemma TruncDetaches(fs: Fs, own: map<nat, Owner>, ino: nat, len: nat, bl: nat, ws: seq<nat>, d: Marks, c: Cut,
                      fs': Fs, own': map<nat, Owner>)
    requires Inv(fs, own) && ino in fs.files && Stages(fs, own, ino, bl, ws, d, c)
    requires fs' == Truncated(fs, ino, len, d, c) && own' == OwnersLeft(own, ino, bl, c.indirect)
    ensures Detached(fs, own, fs', own', ino)
  {
    TruncPointers(fs, own, ino, len, bl, ws, d, c, own');
    forall k, j: nat | k in fs.files && k != ino && j < PER_INDIRECT
      ensures SlotOf(fs', fs.files[k], j) == SlotOf(fs, fs.files[k], j)
    {
      TruncOtherSlots(fs, own, ino, len, bl, ws, d, c, k, j);
    }
    TruncStillBacked(fs, own, ino, len, bl, ws, d, c, fs', own');
  }

  lemma TruncStillBacked(fs: Fs, own: map<nat, Owner>, ino: nat, len: nat, bl: nat, ws: seq<nat>, d: Marks, c: Cut,
                         fs': Fs, own': map<nat, Owner>)
    requires Inv(fs, own) && ino in fs.files && Stages(fs, own, ino, bl, ws, d, c)
    requires fs' == Truncated(fs, ino, len, d, c) && own' == OwnersLeft(own, ino, bl, c.indirect)
    requires Shaped(fs') && ino in fs'.files
    ensures StillBacked(own, fs', own', ino)
  {
    var f' := fs'.files[ino];
    forall b | b in own'
      ensures own[b].Direct? && own[b].ino == ino && own[b].i < NDIRECT ==> f'.direct[own[b].i] == b
      ensures own[b].Indirect? && own[b].ino == ino ==> f'.indirect == b
      ensures own[b].Slot? && own[b].ino == ino && own[b].j < PER_INDIRECT ==> SlotOf(fs', f', own[b].j) == b
    {
      TruncBacked(fs, own, ino, len, bl, ws, d, c, b);
    }
  }

  lemma TruncMaps(fs: Fs, own: map<nat, Owner>, ino: nat, len: nat, bl: nat, ws: seq<nat>, d: Marks, c: Cut, fb: nat)
    requires Inv(fs, own) && ino in fs.files && Stages(fs, own, ino, bl, ws, d, c)
    ensures var fs', f := Truncated(fs, ino, len, d, c), fs.files[ino];
            && Shaped(fs') && ino in fs'.files
            && MapOf(fs', fs'.files[ino], fb) == (if Stays(bl, fb) then MapOf(fs, f, fb) else 0)
            && ContentOf(fs', fs'.files[ino], fb) == (if Stays(bl, fb) then ContentOf(fs, f, fb) else ZERO_BLOCK)
  {
    TruncShaped(fs, own, ino, len, bl, ws, d, c);
    if MapOf(fs, fs.files[ino], fb) != 0 {
      MappedOwner(fs, own, ino, fb);
      assert FileOwns(fs, own, ino);
    }
  }

  lemma TruncOthers(fs: Fs, own: map<nat, Owner>, ino: nat, len: nat, bl: nat, ws: seq<nat>, d: Marks, c: Cut, k: nat,
                    fb: nat)
    requires Inv(fs, own) && ino in fs.files && Stages(fs, own, ino, bl, ws, d, c) && k in fs.files && k != ino
    ensures ContentOf(Truncated(fs, ino, len, d, c), fs.files[k], fb) == ContentOf(fs, fs.files[k], fb)
  {
    var f := fs.files[ino];
    assert FileOwns(fs, own, ino);
    assert FileOwns(fs, own, k);
    if f.indirect != 0 {
      IndirectUnshared(fs, own, ino, k);
    }
    if MapOf(fs, fs.files[k], fb) != 0 {
      MappedOwner(fs, own, k, fb);
    }
  }

  lemma TruncAll(fs: Fs, own: map<nat, Owner>, ino: nat, len: nat, bl: nat, ws: seq<nat>, d: Marks, c: Cut, fs': Fs)
    requires Inv(fs, own) && ino in fs.files && bl == BlocksFor(len) && Stages(fs, own, ino, bl, ws, d, c)
    requires fs' == Truncated(fs, ino, len, d, c) && (bl == 0 ==> c.indirect == 0)
    ensures TruncContract(fs, own, ino, len, fs')
  {
    TruncShaped(fs, own, ino, len, bl, ws, d, c);
    var own' := OwnersLeft(own, ino, bl, c.indirect);
    TruncDetaches(fs, own, ino, len, bl, ws, d, c, fs', own');
    assert FileOwns(fs, own, ino);
    DetachKeeps(fs, own, fs', own', ino);
    forall fb: nat
      ensures MapOf(fs', fs'.files[ino], fb) == if Stays(bl, fb) then MapOf(fs, fs.files[ino], fb) else 0
      ensures ContentOf(fs', fs'.files[ino], fb)
              == if Stays(bl, fb) then ContentOf(fs, fs.files[ino], fb) else ZERO_BLOCK
    {
      TruncMaps(fs, own, ino, len, bl, ws, d, c, fb);
    }
    forall k, fb: nat | k in fs.files && k != ino
      ensures ContentOf(fs', fs'.files[k], fb) == ContentOf(fs, fs.files[k], fb)
    {
      TruncOthers(fs, own, ino, len, bl, ws, d, c, k, fb);
    }
  }

  /** sfs_itrunc never panics; it frees each discarded block once and keeps the rest of the file,
      every other file, and the ownership of every block. */
  lemma ItruncKeeps(fs: Fs, own: map<nat, Owner>, ino: nat, len: nat) returns (fs': Fs)
    requires Inv(fs, own) && ino in fs.files
    ensures Itrunc(fs, ino, len) == Some(fs') && TruncContract(fs, own, ino, len, fs')
  {
    var bl := BlocksFor(len);
    var ws := SlotsOf(fs, fs.files[ino], PER_INDIRECT);
    var d, c := TruncStages(fs, own, ino, bl, ws);
    fs' := Truncated(fs, ino, len, d, c);
    TruncAll(fs, own, ino, len, bl, ws, d, c, fs');
  }

  function SlotsOf(fs: Fs, f: Inode, n: nat): (ws: seq<nat>)
    requires n <= PER_INDIRECT
    ensures |ws| == n && forall k: nat | k < n :: ws[k] == SlotOf(fs, f, k)
  {
    if n == 0 then [] else SlotsOf(fs, f, n - 1) + [SlotOf(fs, f, n - 1)]
  }
}
