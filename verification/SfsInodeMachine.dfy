/** The vnode table in place: loading by linear search, writing back, and reclaiming. */
module SfsInodeMachine {
  import opened Common
  import opened SfsDisk
  import opened SfsState
  import opened SfsTruncate
  import opened SfsCache
  import opened SfsMachine

  class Table {
    const vol: Volume
    var vnodes: seq<Vnode>

    ghost predicate Valid()
      reads this, vol, vol.freemap, vol.freemap.v, vol.disk
    {
      vol.Valid()
    }

    ghost function Abs(): Cached
      reads this, vol, vol.freemap, vol.freemap.v, vol.disk
    {
      Cached(vol.nblocks, vol.freemap.Contents(), vol.disk[..], vnodes)
    }

    constructor (vol: Volume)
      requires vol.Valid()
      ensures Valid() && this.vol == vol && vnodes == []
    {
      this.vol, vnodes := vol, [];
    }

    /** The search of sfs_loadvnode, which checks every vnode that it passes. */
    method Search(ino: nat) returns (k: nat)
      requires Valid() && forall i | 0 <= i < |vnodes| :: vnodes[i].ino < vol.nblocks
      requires AllMarked(Abs(), if Find(vnodes, ino, 0) < |vnodes| then Find(vnodes, ino, 0) + 1 else |vnodes|)
      ensures k == Find(vnodes, ino, 0)
    {
      k := 0;
      while k < |vnodes|
        invariant k <= |vnodes| && Find(vnodes, ino, 0) == Find(vnodes, ino, k)
      {
        var used := vol.Bused(vnodes[k].ino);
        assert used;
        if vnodes[k].ino == ino {
          return;
        }
        k := k + 1;
      }
    }

    /** sfs_loadvnode, where it does not panic. */
    method LoadVnode(ino: nat, force: nat) returns (k: nat)
      requires Valid() && !Load(Abs(), ino, force).LoadPanic?
      requires forall i | 0 <= i < |vnodes| :: vnodes[i].ino < vol.nblocks
      modifies this`vnodes
      ensures Valid() && Load(old(Abs()), ino, force) == Loaded(Abs(), k)
    {
      k := Search(ino);
      if k < |vnodes| {
        vnodes := vnodes[k := vnodes[k].(refs := vnodes[k].refs + 1)];
        return;
      }
      var inode, dirty := DecodeInode(vol.disk[ino]), false;
      if force != TYPE_INVAL {
        inode, dirty := inode.(kind := force), true;
      }
      vnodes := vnodes + [Vnode(ino, inode, dirty, 1)];
    }

    /** sfs_sync_inode. */
    method SyncInode(k: nat)
      requires Valid() && k < |vnodes| && vnodes[k].ino < vol.nblocks && InodeOk(vnodes[k].inode)
      modifies this`vnodes, vol.disk
      ensures Valid() && Abs() == Sync(old(Abs()), k)
    {
      var v := vnodes[k];
      if v.dirty {
        ghost var was := vol.disk[..];
        vol.disk[v.ino] := EncodeInode(v.inode);
        assert vol.disk[..] == was[v.ino := EncodeInode(v.inode)];
        vnodes := vnodes[k := v.(dirty := false)];
      }
    }

    /** The vnode is looked up in the table and taken out. */
    method TakeOut(k: nat)
      requires Valid() && k < |vnodes| && OneEach(vnodes)
      modifies this`vnodes
      ensures Valid() && Abs() == Drop(old(Abs()), k)
    {
      var ix, num := 0, |vnodes|;
      while ix < num && vnodes[ix].ino != vnodes[k].ino
        invariant ix <= k
      {
        ix := ix + 1;
      }
      vnodes := vnodes[..ix] + vnodes[ix + 1..];
    }

    /** The blocks of a file without links go. */
    method Discard(k: nat)
      requires Valid() && Shaped(vol.State()) && k < |vnodes| && vnodes[k].ino in vol.inodes
      requires var r := Itrunc(vol.State(), vnodes[k].ino, 0); r.Some? && vnodes[k].ino in r.value.files
      modifies this`vnodes, vol`inodes, vol.freemap.v, vol.disk
      ensures Valid() && k < |vnodes| && vnodes[k].ino == old(vnodes[k].ino)
      ensures Abs() == Put(old(Abs()), k, Itrunc(old(vol.State()), old(vnodes[k].ino), 0).value)
    {
      var v := vnodes[k];
      vol.Itrunc(v.ino, 0);
      vnodes := vnodes[k := v.(inode := vol.inodes[v.ino], dirty := true)];
    }

    /** The inode of a file without links is written, and its block and its vnode go. */
    method EraseVnode(k: nat)
      requires Valid() && k < |vnodes| && !Erase(Abs(), k).ReclaimPanic?
      requires OneEach(vnodes)
      modifies this`vnodes, vol`inodes, vol.freemap.v, vol.disk
      ensures Valid() && Reclaimed(Abs()) == Erase(old(Abs()), k)
    {
      var ino := vnodes[k].ino;
      SyncInode(k);
      vol.Bfree(ino);
      vol.inodes := vol.inodes - {ino};
      TakeOut(k);
    }

    /** sfs_reclaim, where it does not panic. */
    method ReclaimVnode(k: nat) returns (busy: bool)
      requires Valid() && Shaped(vol.State()) && k < |vnodes| && vnodes[k].ino in vol.inodes
      requires !Reclaim(Abs(), k, vol.State()).ReclaimPanic?
      requires OneEach(vnodes)
      modifies this`vnodes, vol`inodes, vol.freemap.v, vol.disk
      ensures Valid()
      ensures Reclaim(old(Abs()), k, old(vol.State())) == if busy then Busy(Abs()) else Reclaimed(Abs())
    {
      var v := vnodes[k];
      busy := v.refs != 1;
      if busy {
        vnodes := vnodes[k := v.(refs := v.refs - 1)];
      } else if v.inode.links == 0 {
        Discard(k);
        EraseVnode(k);
      } else {
        SyncInode(k);
        TakeOut(k);
      }
    }

    /** vnode_decref. */
    method DecrefVnode(k: nat) returns (busy: bool)
      requires Valid() && Shaped(vol.State()) && k < |vnodes| && vnodes[k].ino in vol.inodes
      requires !Decref(Abs(), k, vol.State()).ReclaimPanic?
      requires OneEach(vnodes)
      modifies this`vnodes, vol`inodes, vol.freemap.v, vol.disk
      ensures Valid()
      ensures Decref(old(Abs()), k, old(vol.State())) == if busy then Busy(Abs()) else Reclaimed(Abs())
    {
      busy := false;
      if vnodes[k].refs > 1 {
        vnodes := vnodes[k := vnodes[k].(refs := vnodes[k].refs - 1)];
      } else {
        busy := ReclaimVnode(k);
      }
    }
  }
}
