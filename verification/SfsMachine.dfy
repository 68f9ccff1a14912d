/** The file system's code in place: the freemap is a bitmap, the disk an array of blocks, and inodes
    are changed field by field. Every method does what the function of the same name says. */
module SfsMachine {
  import opened Common
  import opened SfsDisk
  import opened SfsState
  import opened SfsOwnership
  import opened SfsTruncate
  import opened SfsIo
  import Bitmap

  /** The least clear bit is the first free block. */
  lemma LeastIsFirst(used: set<nat>, n: nat, b: nat)
    requires b < n && b !in used && forall i: nat | i < b :: i in used
    ensures FirstFree(used, n, 0) == b
  {
  }

  lemma AllUsedIsFull(used: set<nat>, n: nat)
    requires forall i: nat | i < n :: i in used
    ensures FirstFree(used, n, 0) == n
  {
  }

  class Volume {
    const nblocks: nat
    const freemap: Bitmap.Bitmap
    const disk: array<Block>
    var inodes: map<nat, Inode>

    ghost predicate Valid()
      reads this, freemap, freemap.v, disk
    {
      freemap.Valid() && freemap.nbits == nblocks == disk.Length && (disk as object) != freemap.v
    }

    ghost function State(): Fs
      reads this, freemap, freemap.v, disk
    {
      Fs(nblocks, freemap.Contents(), disk[..], inodes)
    }

    /** A mounted volume: its freemap, its disk, and the inodes as they are on it. */
    constructor (marks: Bitmap.Bitmap, blocks: array<Block>, files: map<nat, Inode>)
      requires marks.Valid() && marks.nbits == blocks.Length && (blocks as object) != marks.v
      ensures Valid() && freemap == marks && disk == blocks && inodes == files && nblocks == blocks.Length
    {
      nblocks, freemap, disk, inodes := blocks.Length, marks, blocks, files;
    }

    /** sfs_balloc. */
    method Balloc() returns (ok: bool, b: nat)
      requires Valid()
      modifies freemap.v, disk
      ensures Valid() && (ok <==> !Full(old(State())))
      ensures ok ==> b == NextBlock(old(State())) && State() == TakeBlock(old(State()))
      ensures !ok ==> State() == old(State())
    {
      ghost var fs := State();
      ok, b := freemap.Alloc();
      if ok {
        LeastIsFirst(fs.used, nblocks, b);
        disk[b] := ZERO_BLOCK;
        assert disk[..] == fs.disk[b := ZERO_BLOCK];
      } else {
        AllUsedIsFull(fs.used, nblocks);
      }
    }

    /** sfs_bfree. */
    method Bfree(b: nat)
      requires Valid() && b < nblocks && b in State().used
      modifies freemap.v
      ensures Valid() && State() == FreeBlock(old(State()), b)
    {
      freemap.Unmark(b);
    }

    /** sfs_bused. */
    method Bused(b: nat) returns (used: bool)
      requires Valid() && b < nblocks
      ensures used <==> b in State().used
    {
      used := freemap.IsSet(b);
    }

    // -----------------------------------------------------------------------------------------
    // sfs_bmap

    /** What a mapping left: the volume, and the block or the error. */
    ghost predicate Ends(r: MapResult, err: Option<Errno>, block: nat)
      reads this, freemap, freemap.v, disk
    {
      match r
      case Mapped(fs, b) => State() == fs && err == None && block == b
      case MapError(fs, e) => State() == fs && err == Some(e)
      case MapPanic => false
    }

    /** The block is one of the direct ones. */
    method BmapDirect(ino: nat, fb: nat, alloc: bool) returns (err: Option<Errno>, block: nat)
      requires Valid() && Shaped(State()) && ino in inodes && fb < NDIRECT
      requires !SfsState.BmapDirect(State(), ino, fb, alloc).MapPanic?
      modifies this`inodes, freemap.v, disk
      ensures Valid() && Ends(SfsState.BmapDirect(old(State()), ino, fb, alloc), err, block)
    {
      err := None;
      block := inodes[ino].direct[fb];
      if block == 0 && alloc {
        var ok;
        ok, block := Balloc();
        if !ok {
          err := Some(ENOSPC);
          return;
        }
        inodes := inodes[ino := inodes[ino].(direct := inodes[ino].direct[fb := block])];
      }
      if block != 0 {
        var used := Bused(block);
        assert used;
      }
    }

    /** The block is entry j of the indirect block, which is there. */
    method BmapSlot(ino: nat, j: nat, alloc: bool) returns (err: Option<Errno>, block: nat)
      requires Valid() && Shaped(State()) && ino in inodes && j < PER_INDIRECT
      requires !SfsState.BmapSlot(State(), ino, j, alloc).MapPanic?
      modifies freemap.v, disk
      ensures Valid() && Ends(SfsState.BmapSlot(old(State()), ino, j, alloc), err, block)
    {
      err := None;
      var id := inodes[ino].indirect;
      ghost var fs := State();
      var idbuf := disk[id];
      block := WordAt(idbuf, j);
      if block == 0 && alloc {
        var ok;
        ok, block := Balloc();
        if !ok {
          err := Some(ENOSPC);
          return;
        }
        idbuf := SetWord(idbuf, j, block);
        ghost var fs1 := State();
        disk[id] := idbuf;
        assert disk[..] == fs1.disk[id := idbuf];
      }
      if block != 0 {
        var used := Bused(block);
        assert used;
      }
    }

    /** A new indirect block, if there is space. */
    method AddIndirect(ino: nat) returns (ok: bool)
      requires Valid() && Shaped(State()) && ino in inodes
      modifies this`inodes, freemap.v, disk
      ensures Valid() && (ok <==> !Full(old(State()))) && (!ok ==> State() == old(State()))
      ensures ok ==> ino in old(State()).files && Shaped(State())
      ensures ok ==>
                var fs, b := old(State()), NextBlock(old(State()));
                State() == SetFile(TakeBlock(fs), ino, fs.files[ino].(indirect := b))
    {
      var b;
      ok, b := Balloc();
      if ok {
        var f := inodes[ino].(indirect := b);
        inodes := inodes[ino := f];
        assert InodeOk(f);
      }
    }

    method BmapIndirect(ino: nat, j: nat, alloc: bool) returns (err: Option<Errno>, block: nat)
      requires Valid() && Shaped(State()) && ino in inodes && j < PER_INDIRECT
      requires !SfsState.BmapIndirect(State(), ino, j, alloc).MapPanic?
      modifies this`inodes, freemap.v, disk
      ensures Valid() && Ends(SfsState.BmapIndirect(old(State()), ino, j, alloc), err, block)
    {
      if inodes[ino].indirect == 0 && !alloc {
        return None, 0;
      }
      if inodes[ino].indirect == 0 {
        var ok := AddIndirect(ino);
        if !ok {
          return Some(ENOSPC), 0;
        }
      }
      err, block := BmapSlot(ino, j, alloc);
    }

    /** sfs_bmap. */
    method Bmap(ino: nat, fb: nat, alloc: bool) returns (err: Option<Errno>, block: nat)
      requires Valid() && Shaped(State()) && ino in inodes && !SfsState.Bmap(State(), ino, fb, alloc).MapPanic?
      modifies this`inodes, freemap.v, disk
      ensures Valid() && Ends(SfsState.Bmap(old(State()), ino, fb, alloc), err, block)
    {
      if fb < NDIRECT {
        err, block := BmapDirect(ino, fb, alloc);
      } else if fb >= MAX_BLOCKS {
        err, block := Some(EFBIG), 0;
      } else {
        err, block := BmapIndirect(ino, fb - NDIRECT, alloc);
      }
    }

    // -----------------------------------------------------------------------------------------
    // sfs_itrunc

    /** The loop over the direct blocks. */
    method DiscardDirect(ino: nat, bl: nat)
      requires Valid() && Shaped(State()) && ino in inodes && Discard(State().used, inodes[ino].direct, bl, 0).Some?
      modifies this`inodes, freemap.v
      ensures Valid() && var fs := old(State()); var d := Discard(fs.used, fs.files[ino].direct, bl, 0).value;
              State() == SetFile(fs.(used := d.used), ino, fs.files[ino].(direct := d.ptrs))
    {
      ghost var fs := State();
      for i := 0 to NDIRECT
        invariant Valid() && ino in inodes && |inodes[ino].direct| == NDIRECT
        invariant State() == SetFile(fs.(used := freemap.Contents()), ino, fs.files[ino].(direct := inodes[ino].direct))
        invariant Discard(fs.used, fs.files[ino].direct, bl, 0)
                == Discard(freemap.Contents(), inodes[ino].direct, bl, i)
      {
        var block := inodes[ino].direct[i];
        if i >= bl && block != 0 {
          DiscardOne(freemap.Contents(), inodes[ino].direct, bl, i);
          Bfree(block);
          inodes := inodes[ino := inodes[ino].(direct := inodes[ino].direct[i := 0])];
        }
      }
    }

    /** The loop over the entries of the indirect block, read into idbuf. */
    method DiscardSlots(idbuf: array<nat>, bl: nat) returns (hasNonzero: bool, idDirty: bool)
      requires Valid() && idbuf.Length == PER_INDIRECT && Discard(State().used, idbuf[..], FirstSlotGone(bl), 0).Some?
      requires (idbuf as object) != freemap.v && (idbuf as object) != disk
      modifies idbuf, freemap.v
      ensures Valid() && var fs := old(State()); var m := Discard(fs.used, old(idbuf[..]), FirstSlotGone(bl), 0).value;
              && State() == fs.(used := m.used) && idbuf[..] == m.ptrs
              && (hasNonzero <==> !NothingMapped(m.ptrs)) && (idDirty <==> m.ptrs != old(idbuf[..]))
    {
      ghost var fs, ws := State(), idbuf[..];
      hasNonzero, idDirty := false, false;
      for j := 0 to PER_INDIRECT
        invariant Valid() && State() == fs.(used := freemap.Contents())
        invariant Discard(fs.used, ws, FirstSlotGone(bl), 0)
                == Discard(freemap.Contents(), idbuf[..], FirstSlotGone(bl), j)
        invariant forall k | j <= k < PER_INDIRECT :: idbuf[k] == ws[k]
        invariant hasNonzero <==> exists k | 0 <= k < j :: idbuf[k] != 0
        invariant idDirty <==> exists k | 0 <= k < j :: idbuf[k] != ws[k]
      {
        ghost var before := idbuf[..];
        if bl < NDIRECT + j && idbuf[j] != 0 {
          DiscardOne(freemap.Contents(), before, FirstSlotGone(bl), j);
          Bfree(idbuf[j]);
          idbuf[j] := 0;
          assert idbuf[..] == before[j := 0];
          idDirty := true;
        }
        if idbuf[j] != 0 {
          hasNonzero := true;
        }
        assert forall k | 0 <= k < j :: idbuf[k] == before[k];
      }
    }

    /** The indirect part: entries past the new length go, and the block itself when none is left. */
    method TruncIndirect(ino: nat, bl: nat)
      requires Valid() && Shaped(State()) && ino in inodes && CutIndirect(State(), inodes[ino].indirect, bl).Some?
      modifies this`inodes, freemap.v, disk
      ensures Valid() && var fs := old(State()); var c := CutIndirect(fs, fs.files[ino].indirect, bl).value;
              State() == SetFile(c.fs, ino, fs.files[ino].(indirect := c.indirect))
    {
      ghost var fs := State();
      var id := inodes[ino].indirect;
      if bl < HIGH_BLOCK && id != 0 {
        var words := WordsOf(disk[id]);
        var idbuf := new nat[PER_INDIRECT](i requires 0 <= i < |words| => words[i]);
        assert idbuf[..] == words;
        var hasNonzero, idDirty := DiscardSlots(idbuf, bl);
        if !hasNonzero {
          Bfree(id);
          inodes := inodes[ino := inodes[ino].(indirect := 0)];
        } else if idDirty {
          disk[id] := BlockOf(idbuf[..]);
          assert disk[..] == fs.disk[id := disk[id]];
        }
      }
      assert inodes == fs.files[ino := inodes[ino]];
    }

    /** sfs_itrunc. */
    method Itrunc(ino: nat, len: nat)
      requires Valid() && Shaped(State()) && ino in inodes && SfsTruncate.Itrunc(State(), ino, len).Some?
      modifies this`inodes, freemap.v, disk
      ensures Valid() && State() == SfsTruncate.Itrunc(old(State()), ino, len).value
    {
      ghost var fs := State();
      var bl := BlocksFor(len);
      TruncSteps(fs, ino, len, bl);
      DiscardDirect(ino, bl);
      TruncIndirect(ino, bl);
      inodes := inodes[ino := inodes[ino].(size := len % WORD_LIMIT)];
    }
  }

  /** Whatever the inodes are, the indirect part does the same. */
  lemma CutSame(fs: Fs, fs1: Fs, id: nat, bl: nat)
    requires |fs.disk| == fs.nblocks && fs1 == fs.(files := fs1.files)
    ensures var c, c1 := CutIndirect(fs, id, bl), CutIndirect(fs1, id, bl);
            && (c.Some? <==> c1.Some?)
            && (c.Some? ==> c1.value.indirect == c.value.indirect && c1.value.fs == c.value.fs.(files := fs1.files))
  {
  }

  /** sfs_itrunc is its two loops one after the other. */
  lemma TruncSteps(fs: Fs, ino: nat, len: nat, bl: nat)
    requires Shaped(fs) && ino in fs.files && bl == BlocksFor(len) && Itrunc(fs, ino, len).Some?
    ensures Discard(fs.used, fs.files[ino].direct, bl, 0).Some?
    ensures var d := Discard(fs.used, fs.files[ino].direct, bl, 0).value;
            var f1 := fs.files[ino].(direct := d.ptrs);
            var fs1 := SetFile(fs.(used := d.used), ino, f1);
            && Shaped(fs1) && CutIndirect(fs1, f1.indirect, bl).Some?
            && var c := CutIndirect(fs1, f1.indirect, bl).value;
               Itrunc(fs, ino, len) == Some(SetFile(c.fs, ino, f1.(indirect := c.indirect, size := len % WORD_LIMIT)))
  {
    var f := fs.files[ino];
    var d := Discard(fs.used, f.direct, bl, 0).value;
    var fs1 := SetFile(fs.(used := d.used), ino, f.(direct := d.ptrs));
    CutSame(fs.(used := d.used), fs1, f.indirect, bl);
    var c := CutIndirect(fs1, f.indirect, bl).value;
    var f2 := f.(direct := d.ptrs, indirect := c.indirect, size := len % WORD_LIMIT);
    assert fs1.files[ino := f2] == fs.files[ino := f2];
  }

  lemma DiscardOne(used: set<nat>, ptrs: seq<nat>, bl: nat, i: nat)
    requires i < |ptrs| && i >= bl && ptrs[i] != 0 && Discard(used, ptrs, bl, i).Some?
    ensures ptrs[i] in used && Discard(used, ptrs, bl, i) == Discard(used - {ptrs[i]}, ptrs[i := 0], bl, i + 1)
  {
  }
}
