/** The vnode table: loading, syncing and reclaiming inodes is invisible to the files. */
module SfsCache {
  import opened Common
  import opened SfsDisk
  import opened SfsState
  import opened SfsOwnership
  import opened SfsTruncate

  datatype Vnode = Vnode(ino: nat, inode: Inode, dirty: bool, refs: nat)

  /** The volume with its vnode table. */
  datatype Cached = Cached(nblocks: nat, used: set<nat>, disk: seq<Block>, vnodes: seq<Vnode>)

  /** No two vnodes are of the same inode. */
  predicate OneEach(vs: seq<Vnode>) { forall i, j | 0 <= i < j < |vs| :: vs[i].ino != vs[j].ino }

  /** The linear search through the table, from i on. */
  function Find(vs: seq<Vnode>, ino: nat, i: nat): (r: nat)
    requires i <= |vs|
    ensures i <= r <= |vs| && (r < |vs| ==> vs[r].ino == ino) && forall k | i <= k < r :: vs[k].ino != ino
    decreases |vs| - i
  {
    if i == |vs| || vs[i].ino == ino then i else Find(vs, ino, i + 1)
  }

  /** The inode as it stands: in memory if it is loaded, else on disk. */
  function Current(c: Cached, ino: nat): Inode
    requires ino < |c.disk|
  {
    var k := Find(c.vnodes, ino, 0);
    if k < |c.vnodes| then c.vnodes[k].inode else DecodeInode(c.disk[ino])
  }

  /** One vnode per inode, for an inode in use; it is referenced, and if clean it equals its disk block. */
  predicate TableOk(vs: seq<Vnode>, disk: seq<Block>, inos: set<nat>)
  {
    && OneEach(vs)
    && (forall i | 0 <= i < |vs| :: vs[i].ino in inos && vs[i].ino < |disk| && 0 < vs[i].refs)
    && (forall i | 0 <= i < |vs| && !vs[i].dirty :: DecodeInode(disk[vs[i].ino]) == vs[i].inode)
  }

  predicate TypesOk(fs: Fs)
  {
    forall ino | ino in fs.files :: fs.files[ino].kind == TYPE_FILE || fs.files[ino].kind == TYPE_DIR
  }

  /** The cached volume c stands for the files of fs. */
  predicate Represents(c: Cached, fs: Fs)
  {
    && c.nblocks == fs.nblocks && c.used == fs.used && c.disk == fs.disk
    && TableOk(c.vnodes, c.disk, fs.files.Keys)
    && forall ino | ino in fs.files :: ino < |c.disk| && Current(c, ino) == fs.files[ino]
  }

  ghost predicate CacheInv(c: Cached, fs: Fs, own: map<nat, Owner>)
  {
    Inv(fs, own) && TypesOk(fs) && Represents(c, fs)
  }

  // ---------------------------------------------------------------------------------------------
  // Operations

  datatype LoadResult = Loaded(c: Cached, k: nat) | LoadPanic

  /** Every vnode passed in the search must be in an allocated block. */
  predicate AllMarked(c: Cached, n: nat)
    requires n <= |c.vnodes|
  {
    forall i | 0 <= i < n :: c.vnodes[i].ino in c.used
  }

  function SetVnode(c: Cached, k: nat, v: Vnode): Cached
    requires k < |c.vnodes|
  {
    c.(vnodes := c.vnodes[k := v])
  }

  /** vnode_incref. */
  function Incref(c: Cached, k: nat): Cached
    requires k < |c.vnodes|
  {
    SetVnode(c, k, c.vnodes[k].(refs := c.vnodes[k].refs + 1))
  }

  /** sfs_loadvnode. */
  function Load(c: Cached, ino: nat, force: nat): LoadResult
  {
    var k := Find(c.vnodes, ino, 0);
    if k < |c.vnodes| then
      if !AllMarked(c, k + 1) || force != TYPE_INVAL then LoadPanic else Loaded(Incref(c, k), k)
    else if !AllMarked(c, |c.vnodes|) || ino !in c.used || ino >= |c.disk| then LoadPanic
    else
      var i := DecodeInode(c.disk[ino]);
      if force != TYPE_INVAL && i.kind != TYPE_INVAL then LoadPanic
      else
        var i' := if force != TYPE_INVAL then i.(kind := force) else i;
        if i'.kind != TYPE_FILE && i'.kind != TYPE_DIR then LoadPanic
        else Loaded(Enter(c, Vnode(ino, i', force != TYPE_INVAL, 1)), |c.vnodes|)
  }

  function Enter(c: Cached, v: Vnode): Cached
  {
    c.(vnodes := c.vnodes + [v])
  }

  /** sfs_sync_inode. */
  function Sync(c: Cached, k: nat): Cached
    requires k < |c.vnodes| && c.vnodes[k].ino < |c.disk| && InodeOk(c.vnodes[k].inode)
  {
    var v := c.vnodes[k];
    if v.dirty then SetVnode(c.(disk := c.disk[v.ino := EncodeInode(v.inode)]), k, v.(dirty := false)) else c
  }

  /** Taking the vnode out of the table. */
  function Drop(c: Cached, k: nat): Cached
    requires k < |c.vnodes|
  {
    c.(vnodes := c.vnodes[..k] + c.vnodes[k + 1..])
  }

  /** The volume after an operation on the file of vnode k: its blocks and its inode. */
  function Put(c: Cached, k: nat, fs: Fs): Cached
    requires k < |c.vnodes| && c.vnodes[k].ino in fs.files
  {
    SetVnode(c.(used := fs.used, disk := fs.disk), k, c.vnodes[k].(inode := fs.files[c.vnodes[k].ino], dirty := true))
  }

  datatype ReclaimResult = Reclaimed(c: Cached) | Busy(c: Cached) | ReclaimPanic

  /** The end of sfs_reclaim for a file without links, after its blocks are gone. */
  function Erase(c: Cached, k: nat): ReclaimResult
    requires k < |c.vnodes|
  {
    var v := c.vnodes[k];
    if v.ino >= |c.disk| || !InodeOk(v.inode) || v.ino !in c.used then ReclaimPanic
    else
      var c1 := Sync(c, k);
      Reclaimed(Drop(c1.(used := c1.used - {v.ino}), k))
  }

  /** sfs_reclaim, where fs are the files before. */
  function Reclaim(c: Cached, k: nat, fs: Fs): ReclaimResult
    requires k < |c.vnodes| && Shaped(fs) && c.vnodes[k].ino in fs.files
  {
    var v := c.vnodes[k];
    if v.refs != 1 then
      if v.refs == 0 then ReclaimPanic else Busy(SetVnode(c, k, v.(refs := v.refs - 1)))
    else if v.inode.links == 0 then
      match Itrunc(fs, v.ino, 0)
      case None => ReclaimPanic
      case Some(fs1) => if v.ino !in fs1.files then ReclaimPanic else Erase(Put(c, k, fs1), k)
    else if v.ino >= |c.disk| || !InodeOk(v.inode) then ReclaimPanic
    else Reclaimed(Drop(Sync(c, k), k))
  }

  /** vnode_decref. */
  function Decref(c: Cached, k: nat, fs: Fs): ReclaimResult
    requires k < |c.vnodes| && Shaped(fs) && c.vnodes[k].ino in fs.files
  {
    var v := c.vnodes[k];
    if v.refs > 1 then Reclaimed(SetVnode(c, k, v.(refs := v.refs - 1))) else Reclaim(c, k, fs)
  }

  // ---------------------------------------------------------------------------------------------
  // The table

  lemma FindUnique(vs: seq<Vnode>, k: nat)
    requires k < |vs| && OneEach(vs)
    ensures Find(vs, vs[k].ino, 0) == k
  {
  }

  lemma {:induction false} SameFind(vs: seq<Vnode>, vs': seq<Vnode>, ino: nat, i: nat)
    requires |vs'| == |vs| && i <= |vs| && forall k | 0 <= k < |vs| :: vs'[k].ino == vs[k].ino
    ensures Find(vs', ino, i) == Find(vs, ino, i)
    decreases |vs| - i
  {
    if i < |vs| && vs[i].ino != ino {
      SameFind(vs, vs', ino, i + 1);
    }
  }

  lemma FindAppended(vs: seq<Vnode>, v: Vnode, ino: nat)
    ensures Find(vs + [v], ino, 0)
            == if Find(vs, ino, 0) < |vs| then Find(vs, ino, 0) else if v.ino == ino then |vs| else |vs| + 1
  {
    var vs' := vs + [v];
    var k, k' := Find(vs, ino, 0), Find(vs', ino, 0);
    assert forall i | 0 <= i < |vs| :: vs'[i] == vs[i];
    assert vs'[|vs|] == v;
  }

  lemma FindAfterDrop(vs: seq<Vnode>, k: nat, ino: nat, vs': seq<Vnode>)
    requires k < |vs| && vs' == vs[..k] + vs[k + 1..] && OneEach(vs)
    ensures var r, r' := Find(vs, ino, 0), Find(vs', ino, 0);
            if ino == vs[k].ino then r == k && r' == |vs'|
            else (r' < |vs'| <==> r < |vs|) && (r < |vs| ==> vs'[r'] == vs[r])
  {
    var r, r' := Find(vs, ino, 0), Find(vs', ino, 0);
    if ino == vs[k].ino {
      FindUnique(vs, k);
      DroppedGone(vs, k, vs');
    } else if r < |vs| {
      var n := if r < k then r else r - 1;
      assert vs'[n] == vs[r];
      DropOneEach(vs, k, vs');
      FindUnique(vs', n);
    } else {
      DroppedAbsent(vs, k, vs', ino);
    }
  }

  lemma DroppedAbsent(vs: seq<Vnode>, k: nat, vs': seq<Vnode>, ino: nat)
    requires k < |vs| && vs' == vs[..k] + vs[k + 1..] && forall i | 0 <= i < |vs| :: vs[i].ino != ino
    ensures forall i | 0 <= i < |vs'| :: vs'[i].ino != ino
  {
    forall i | 0 <= i < |vs'| ensures vs'[i].ino != ino {
      assert vs'[i] == vs[if i < k then i else i + 1];
    }
  }

  lemma DroppedGone(vs: seq<Vnode>, k: nat, vs': seq<Vnode>)
    requires k < |vs| && vs' == vs[..k] + vs[k + 1..] && OneEach(vs)
    ensures forall i | 0 <= i < |vs'| :: vs'[i].ino != vs[k].ino
  {
    forall i | 0 <= i < |vs'| ensures vs'[i].ino != vs[k].ino {
      if i < k {
        assert vs'[i] == vs[i];
      } else {
        assert vs'[i] == vs[i + 1];
      }
    }
  }

  lemma DropOneEach(vs: seq<Vnode>, k: nat, vs': seq<Vnode>)
    requires k < |vs| && vs' == vs[..k] + vs[k + 1..] && OneEach(vs)
    ensures OneEach(vs')
  {
    forall i, j | 0 <= i < j < |vs'| ensures vs'[i].ino != vs'[j].ino {
      assert vs'[i] == vs[if i < k then i else i + 1];
      assert vs'[j] == vs[if j < k then j else j + 1];
    }
  }

  lemma VnodeIsCurrent(c: Cached, fs: Fs, own: map<nat, Owner>, k: nat)
    requires CacheInv(c, fs, own) && k < |c.vnodes|
    ensures var v := c.vnodes[k];
            v.ino in fs.files && fs.files[v.ino] == v.inode && v.ino in c.used && v.ino < |c.disk| && InodeOk(v.inode)
  {
    FindUnique(c.vnodes, k);
    assert FileOwns(fs, own, c.vnodes[k].ino);
  }

  lemma AllVnodesMarked(c: Cached, fs: Fs, own: map<nat, Owner>)
    requires CacheInv(c, fs, own)
    ensures AllMarked(c, |c.vnodes|)
  {
    forall i | 0 <= i < |c.vnodes| ensures c.vnodes[i].ino in c.used {
      VnodeIsCurrent(c, fs, own, i);
    }
  }

  /** A vnode whose inode and clean state stay may change its reference count. */
  lemma RefsOnly(c: Cached, fs: Fs, k: nat, refs: nat)
    requires Represents(c, fs) && k < |c.vnodes| && 0 < refs
    ensures Represents(SetVnode(c, k, c.vnodes[k].(refs := refs)), fs)
  {
    var c' := SetVnode(c, k, c.vnodes[k].(refs := refs));
    forall ino | ino in fs.files ensures Current(c', ino) == fs.files[ino] {
      SameFind(c.vnodes, c'.vnodes, ino, 0);
    }
  }

  // ---------------------------------------------------------------------------------------------
  // Loading

  lemma LoadFinds(c: Cached, ino: nat, k: nat)
    requires AllMarked(c, |c.vnodes|) && k == Find(c.vnodes, ino, 0) < |c.vnodes|
    ensures Load(c, ino, TYPE_INVAL) == Loaded(Incref(c, k), k)
  {
  }

  lemma EnterClean(vs: seq<Vnode>, disk: seq<Block>, inos: set<nat>, v: Vnode)
    requires TableOk(vs, disk, inos) && Find(vs, v.ino, 0) == |vs| && v.ino in inos && v.ino < |disk| && 0 < v.refs
    requires DecodeInode(disk[v.ino]) == v.inode
    ensures TableOk(vs + [v], disk, inos)
  {
    var vs' := vs + [v];
    forall i, j | 0 <= i < j < |vs'| ensures vs'[i].ino != vs'[j].ino {
      assert vs'[i] == vs[i] && (j < |vs| ==> vs'[j] == vs[j]);
    }
  }

  lemma EnterRepresents(c: Cached, fs: Fs, v: Vnode)
    requires Represents(c, fs) && Find(c.vnodes, v.ino, 0) == |c.vnodes| && v.ino in fs.files && 0 < v.refs
    requires v.inode == fs.files[v.ino] && DecodeInode(c.disk[v.ino]) == v.inode
    ensures Represents(Enter(c, v), fs)
  {
    var c' := Enter(c, v);
    EnterClean(c.vnodes, c.disk, fs.files.Keys, v);
    forall ino | ino in fs.files ensures Current(c', ino) == fs.files[ino] {
      FindAppended(c.vnodes, v, ino);
    }
  }

  /** Loading an inode in use never panics, changes no file, and gives the one vnode of the inode
      with its current contents. */
  lemma LoadKeeps(c: Cached, fs: Fs, own: map<nat, Owner>, ino: nat) returns (c': Cached, k: nat)
    requires CacheInv(c, fs, own) && ino in fs.files
    ensures Load(c, ino, TYPE_INVAL) == Loaded(c', k) && CacheInv(c', fs, own)
    ensures k < |c'.vnodes| && c'.vnodes[k].ino == ino && c'.vnodes[k].inode == fs.files[ino]
  {
    AllVnodesMarked(c, fs, own);
    assert FileOwns(fs, own, ino);
    k := Find(c.vnodes, ino, 0);
    if k < |c.vnodes| {
      LoadFinds(c, ino, k);
      RefsOnly(c, fs, k, c.vnodes[k].refs + 1);
      c' := Incref(c, k);
    } else {
      var v := Vnode(ino, DecodeInode(c.disk[ino]), false, 1);
      EnterRepresents(c, fs, v);
      c' := Enter(c, v);
    }
  }

  // ---------------------------------------------------------------------------------------------
  // Syncing and reclaiming

  /** The files keep their inodes and their contents. */
  ghost predicate FilesKept(fs: Fs, fs': Fs)
    requires Shaped(fs) && Shaped(fs')
  {
    && fs'.files == fs.files && fs'.used == fs.used && fs'.nblocks == fs.nblocks
    && forall k, fb: nat | k in fs.files :: ContentOf(fs', fs.files[k], fb) == ContentOf(fs, fs.files[k], fb)
  }

  /** Writing a block that holds an inode touches no file. */
  lemma InodeBlockWrite(fs: Fs, own: map<nat, Owner>, ino: nat, data: Block) returns (fs': Fs)
    requires Inv(fs, own) && ino in fs.files
    ensures ino < |fs.disk| && fs' == WriteBlock(fs, ino, data) && Inv(fs', own) && FilesKept(fs, fs')
  {
    assert FileOwns(fs, own, ino);
    fs' := WriteBlock(fs, ino, data);
    forall k | k in fs.files
      ensures forall j | 0 <= j < PER_INDIRECT :: SlotOf(fs', fs.files[k], j) == SlotOf(fs, fs.files[k], j)
    {
      assert FileOwns(fs, own, k);
    }
    forall k | k in fs'.files ensures FileOwns(fs', own, k) {
      assert FileOwns(fs, own, k);
    }
    forall c | c in own ensures Backed(fs', c, own[c]) {
      assert Backed(fs, c, own[c]);
    }
    forall k, fb: nat | k in fs.files ensures ContentOf(fs', fs.files[k], fb) == ContentOf(fs, fs.files[k], fb) {
      if MapOf(fs, fs.files[k], fb) != 0 {
        MappedOwner(fs, own, k, fb);
      }
    }
  }

  lemma SyncTable(vs: seq<Vnode>, disk: seq<Block>, inos: set<nat>, k: nat, v: Vnode, vs': seq<Vnode>,
                  disk': seq<Block>)
    requires TableOk(vs, disk, inos) && k < |vs| && v == vs[k] && InodeOk(v.inode)
    requires disk' == disk[v.ino := EncodeInode(v.inode)] && vs' == vs[k := v.(dirty := false)]
    ensures TableOk(vs', disk', inos)
  {
    InodeRoundTrip(v.inode);
    forall i | 0 <= i < |vs'| && !vs'[i].dirty ensures DecodeInode(disk'[vs'[i].ino]) == vs'[i].inode {
      assert i != k ==> vs[i].ino != v.ino;
    }
  }

  lemma SyncRepresents(c: Cached, fs: Fs, k: nat, v: Vnode, fs': Fs)
    requires Represents(c, fs) && k < |c.vnodes| && v == c.vnodes[k] && v.dirty && InodeOk(v.inode) && v.ino < |fs.disk|
    requires fs' == WriteBlock(fs, v.ino, EncodeInode(v.inode))
    ensures Represents(Sync(c, k), fs')
  {
    var c' := Sync(c, k);
    SyncTable(c.vnodes, c.disk, fs.files.Keys, k, v, c'.vnodes, c'.disk);
    FindUnique(c.vnodes, k);
    forall ino | ino in fs.files ensures Current(c', ino) == fs.files[ino] {
      SameFind(c.vnodes, c'.vnodes, ino, 0);
    }
  }

  /** After a sync the vnode is clean, so that its disk block decodes to it; no file has changed. */
  lemma SyncKeeps(c: Cached, fs: Fs, own: map<nat, Owner>, k: nat) returns (c': Cached, fs': Fs)
    requires CacheInv(c, fs, own) && k < |c.vnodes|
    ensures c.vnodes[k].ino < |c.disk| && InodeOk(c.vnodes[k].inode) && c' == Sync(c, k)
    ensures CacheInv(c', fs', own) && FilesKept(fs, fs')
    ensures |c'.vnodes| == |c.vnodes| && c'.vnodes[k] == c.vnodes[k].(dirty := false)
  {
    VnodeIsCurrent(c, fs, own, k);
    var v := c.vnodes[k];
    c', fs' := Sync(c, k), fs;
    if v.dirty {
      fs' := InodeBlockWrite(fs, own, v.ino, EncodeInode(v.inode));
      SyncRepresents(c, fs, k, v, fs');
    }
  }

  lemma DropTable(vs: seq<Vnode>, disk: seq<Block>, inos: set<nat>, k: nat, vs': seq<Vnode>)
    requires TableOk(vs, disk, inos) && k < |vs| && vs' == vs[..k] + vs[k + 1..]
    ensures TableOk(vs', disk, inos - {vs[k].ino})
  {
    forall i | 0 <= i < |vs'|
      ensures vs'[i].ino in inos && vs'[i].ino != vs[k].ino && vs'[i].ino < |disk| && 0 < vs'[i].refs
      ensures !vs'[i].dirty ==> DecodeInode(disk[vs'[i].ino]) == vs'[i].inode
    {
      var m := if i < k then i else i + 1;
      assert vs'[i] == vs[m];
    }
    forall i, j | 0 <= i < j < |vs'| ensures vs'[i].ino != vs'[j].ino {
      var m, n := if i < k then i else i + 1, if j < k then j else j + 1;
      assert vs'[i] == vs[m] && vs'[j] == vs[n];
    }
  }

  /** Dropping a clean vnode from the table changes no file. */
  lemma DropRepresents(c: Cached, fs: Fs, k: nat)
    requires Represents(c, fs) && k < |c.vnodes| && !c.vnodes[k].dirty
    ensures Represents(Drop(c, k), fs) && Find(Drop(c, k).vnodes, c.vnodes[k].ino, 0) == |Drop(c, k).vnodes|
  {
    var c' := Drop(c, k);
    DropTable(c.vnodes, c.disk, fs.files.Keys, k, c'.vnodes);
    forall ino | ino in fs.files ensures Current(c', ino) == fs.files[ino] {
      FindAfterDrop(c.vnodes, k, ino, c'.vnodes);
    }
    FindAfterDrop(c.vnodes, k, c.vnodes[k].ino, c'.vnodes);
  }

  lemma ReclaimLast(c: Cached, fs: Fs, k: nat, v: Vnode)
    requires k < |c.vnodes| && Shaped(fs) && v == c.vnodes[k] && v.ino in fs.files
    requires v.refs == 1 && v.inode.links > 0 && v.ino < |c.disk| && InodeOk(v.inode)
    ensures Reclaim(c, k, fs) == Reclaimed(Drop(Sync(c, k), k))
  {
  }

  lemma ReclaimBusy(c: Cached, fs: Fs, k: nat, v: Vnode)
    requires k < |c.vnodes| && Shaped(fs) && v == c.vnodes[k] && v.ino in fs.files && v.refs > 1
    ensures Reclaim(c, k, fs) == Busy(SetVnode(c, k, v.(refs := v.refs - 1)))
  {
  }

  /** Reclaiming a file that still has links: someone else may hold it, and then only a reference
      goes; otherwise the vnode goes and the file stays, so that loading it again gives back the
      same inode. */
  lemma ReclaimLinked(c: Cached, fs: Fs, own: map<nat, Owner>, k: nat) returns (r: ReclaimResult, fs': Fs)
    requires CacheInv(c, fs, own) && k < |c.vnodes| && (c.vnodes[k].refs > 1 || c.vnodes[k].inode.links > 0)
    ensures c.vnodes[k].ino in fs.files && r == Reclaim(c, k, fs) && !r.ReclaimPanic?
    ensures r.Busy? <==> c.vnodes[k].refs > 1
    ensures CacheInv(r.c, fs', own) && FilesKept(fs, fs') && fs'.files[c.vnodes[k].ino] == c.vnodes[k].inode
    ensures r.Reclaimed? ==> Find(r.c.vnodes, c.vnodes[k].ino, 0) == |r.c.vnodes|
  {
    VnodeIsCurrent(c, fs, own, k);
    var v := c.vnodes[k];
    if v.refs > 1 {
      ReclaimBusy(c, fs, k, v);
      RefsOnly(c, fs, k, v.refs - 1);
      r, fs' := Busy(SetVnode(c, k, v.(refs := v.refs - 1))), fs;
    } else {
      ReclaimLast(c, fs, k, v);
      var c1;
      c1, fs' := SyncKeeps(c, fs, own, k);
      DropRepresents(c1, fs', k);
      r := Reclaimed(Drop(c1, k));
    }
  }

  /** Reclaim, then load: the inode is the one that was reclaimed. */
  lemma ReloadSameInode(c: Cached, fs: Fs, own: map<nat, Owner>, k: nat)
    requires CacheInv(c, fs, own) && k < |c.vnodes| && c.vnodes[k].refs == 1 && c.vnodes[k].inode.links > 0
    ensures c.vnodes[k].ino in fs.files && Reclaim(c, k, fs).Reclaimed?
    ensures var r := Load(Reclaim(c, k, fs).c, c.vnodes[k].ino, TYPE_INVAL);
            r.Loaded? && r.k < |r.c.vnodes| && r.c.vnodes[r.k] == Vnode(c.vnodes[k].ino, c.vnodes[k].inode, false, 1)
  {
    var r, fs' := ReclaimLinked(c, fs, own, k);
    var c', n := LoadKeeps(r.c, fs', own, c.vnodes[k].ino);
  }

  // ---------------------------------------------------------------------------------------------
  // Operations on a loaded file

  lemma PutTable(c: Cached, fs: Fs, own: map<nat, Owner>, k: nat, fs': Fs)
    requires CacheInv(c, fs, own) && k < |c.vnodes| && c.vnodes[k].ino in fs'.files && InodesKept(fs, fs', own)
    ensures TableOk(Put(c, k, fs').vnodes, fs'.disk, fs.files.Keys)
  {
    var c' := Put(c, k, fs');
    forall i | 0 <= i < |c'.vnodes| && !c'.vnodes[i].dirty
      ensures DecodeInode(fs'.disk[c'.vnodes[i].ino]) == c'.vnodes[i].inode
    {
      assert FileOwns(fs, own, c.vnodes[i].ino);
    }
  }

  lemma PutRepresents(c: Cached, fs: Fs, k: nat, v: Vnode, fs': Fs, c': Cached)
    requires Represents(c, fs) && k < |c.vnodes| && v == c.vnodes[k] && v.ino in fs'.files && c' == Put(c, k, fs')
    requires fs'.nblocks == fs.nblocks && fs'.files == fs.files[v.ino := fs'.files[v.ino]] && |fs'.disk| == |fs.disk|
    requires TableOk(c'.vnodes, fs'.disk, fs.files.Keys)
    requires forall ino | ino in fs.files :: ino < |fs.disk| && fs'.disk[ino] == fs.disk[ino]
    ensures Represents(c', fs')
  {
    assert fs'.files.Keys == fs.files.Keys;
    FindUnique(c.vnodes, k);
    forall ino | ino in fs'.files ensures Current(c', ino) == fs'.files[ino] {
      SameFind(c.vnodes, c'.vnodes, ino, 0);
    }
  }

  /** An operation that writes no inode block, run on a loaded file, has the same effect under the
      cache as without it. */
  lemma PutKeeps(c: Cached, fs: Fs, own: map<nat, Owner>, k: nat, fs': Fs, own': map<nat, Owner>) returns (c': Cached)
    requires CacheInv(c, fs, own) && k < |c.vnodes| && c.vnodes[k].ino in fs'.files
    requires InodesKept(fs, fs', own) && fs'.nblocks == fs.nblocks && Inv(fs', own') && TypesOk(fs')
    requires fs'.files == fs.files[c.vnodes[k].ino := fs'.files[c.vnodes[k].ino]]
    ensures c' == Put(c, k, fs') && CacheInv(c', fs', own')
    ensures |c'.vnodes| == |c.vnodes|
    ensures c'.vnodes[k] == c.vnodes[k].(inode := fs'.files[c.vnodes[k].ino], dirty := true)
  {
    c' := Put(c, k, fs');
    PutTable(c, fs, own, k, fs');
    forall ino | ino in fs.files ensures ino < |fs.disk| && fs'.disk[ino] == fs.disk[ino] {
      assert FileOwns(fs, own, ino);
    }
    PutRepresents(c, fs, k, c.vnodes[k], fs', c');
  }

  // ---------------------------------------------------------------------------------------------
  // Erasing a file without links

  function WithoutFile(fs: Fs, ino: nat): Fs
  {
    fs.(used := fs.used - {ino}, files := fs.files - {ino})
  }

  /** All other files read as before. */
  ghost predicate OthersKept(fs: Fs, fs': Fs, ino: nat)
    requires Shaped(fs) && Shaped(fs')
  {
    && fs'.nblocks == fs.nblocks
    && (forall k | k in fs.files && k != ino :: k in fs'.files && fs'.files[k] == fs.files[k])
    && forall k, fb: nat | k in fs.files && k != ino ::
         ContentOf(fs', fs.files[k], fb) == ContentOf(fs, fs.files[k], fb)
  }

  /** A file without blocks other than the one of its inode can go. */
  lemma RemoveFile(fs: Fs, own: map<nat, Owner>, ino: nat) returns (fs': Fs)
    requires Inv(fs, own) && ino in fs.files && ino != ROOT_INO
    requires fs.files[ino].indirect == 0 && forall i | 0 <= i < NDIRECT :: fs.files[ino].direct[i] == 0
    ensures fs' == WithoutFile(fs, ino) && ino in fs.used && Inv(fs', own - {ino}) && OthersKept(fs, fs', ino)
  {
    fs' := WithoutFile(fs, ino);
    var own' := own - {ino};
    assert FileOwns(fs, own, ino);
    forall k | k in fs'.files ensures FileOwns(fs', own', k) {
      assert FileOwns(fs, own, k);
      assert forall j | 0 <= j < PER_INDIRECT :: SlotOf(fs', fs'.files[k], j) == SlotOf(fs, fs.files[k], j);
    }
    forall b | b in own' ensures Backed(fs', b, own'[b]) {
      assert Backed(fs, b, own[b]);
    }
    assert own'.Keys == fs'.used;
  }

  /** All owners that belong to a file. */
  predicate BelongsTo(o: Owner, ino: nat)
  {
    (o.InodeOf? || o.Direct? || o.Indirect? || o.Slot?) && o.ino == ino
  }

  ghost function OthersOf(own: map<nat, Owner>, ino: nat): map<nat, Owner>
  {
    map b | b in own && !BelongsTo(own[b], ino) :: own[b]
  }

  lemma OwnersGone(fs: Fs, own: map<nat, Owner>, ino: nat)
    requires Inv(fs, own) && ino in fs.files
    ensures OwnersLeft(own, ino, 0, 0) - {ino} == OthersOf(own, ino)
  {
    assert FileOwns(fs, own, ino);
    forall b | b in own ensures b in OwnersLeft(own, ino, 0, 0) - {ino} <==> !BelongsTo(own[b], ino) {
      assert Backed(fs, b, own[b]);
    }
  }

  /** Truncating to nothing leaves a file only the block of its inode. */
  lemma NothingLeft(fs: Fs, own: map<nat, Owner>, ino: nat, fs': Fs)
    requires Shaped(fs) && ino in fs.files && TruncContract(fs, own, ino, 0, fs')
    ensures fs'.files[ino].indirect == 0 && forall i | 0 <= i < NDIRECT :: fs'.files[ino].direct[i] == 0
    ensures Inv(fs', OwnersLeft(own, ino, 0, 0)) && OthersKept(fs, fs', ino)
  {
    assert BlocksFor(0) == 0;
    var f' := fs'.files[ino];
    forall i | 0 <= i < NDIRECT ensures f'.direct[i] == 0 {
      assert MapOf(fs', f', i) == 0;
    }
  }

  lemma EraseRepresents(c: Cached, fs: Fs, k: nat, ino: nat)
    requires Represents(c, fs) && k < |c.vnodes| && ino == c.vnodes[k].ino
    ensures Represents(Drop(c.(used := c.used - {ino}), k), WithoutFile(fs, ino))
  {
    var c' := Drop(c.(used := c.used - {ino}), k);
    var fs' := WithoutFile(fs, ino);
    DropTable(c.vnodes, c.disk, fs.files.Keys, k, c'.vnodes);
    assert fs'.files.Keys == fs.files.Keys - {ino};
    forall j | j in fs'.files ensures Current(c', j) == fs'.files[j] {
      FindAfterDrop(c.vnodes, k, j, c'.vnodes);
    }
  }

  lemma EraseKeeps(c: Cached, fs: Fs, own: map<nat, Owner>, k: nat, ino: nat) returns (r: ReclaimResult, fs': Fs)
    requires CacheInv(c, fs, own) && k < |c.vnodes| && ino == c.vnodes[k].ino && ino != ROOT_INO && ino in fs.files
    requires fs.files[ino].indirect == 0 && forall i | 0 <= i < NDIRECT :: fs.files[ino].direct[i] == 0
    ensures r == Erase(c, k) && r.Reclaimed? && CacheInv(r.c, fs', own - {ino})
    ensures ino !in fs'.files && OthersKept(fs, fs', ino) && fs'.used == fs.used - {ino}
  {
    VnodeIsCurrent(c, fs, own, k);
    r := Erase(c, k);
    var c1, fs1 := SyncKeeps(c, fs, own, k);
    fs' := RemoveFile(fs1, own, ino);
    EraseRepresents(c1, fs1, k, ino);
  }

  lemma PutThenErase(c: Cached, fs: Fs, own: map<nat, Owner>, k: nat, ino: nat, fs1: Fs, own1: map<nat, Owner>)
    returns (r: ReclaimResult, fs': Fs)
    requires CacheInv(c, fs, own) && k < |c.vnodes| && ino == c.vnodes[k].ino && ino != ROOT_INO && ino in fs1.files
    requires InodesKept(fs, fs1, own) && fs1.nblocks == fs.nblocks && Inv(fs1, own1) && TypesOk(fs1)
    requires fs1.files == fs.files[ino := fs1.files[ino]]
    requires fs1.files[ino].indirect == 0 && forall i | 0 <= i < NDIRECT :: fs1.files[ino].direct[i] == 0
    ensures r == Erase(Put(c, k, fs1), k) && r.Reclaimed? && CacheInv(r.c, fs', own1 - {ino})
    ensures ino !in fs'.files && OthersKept(fs1, fs', ino)
  {
    var c1 := PutKeeps(c, fs, own, k, fs1, own1);
    r, fs' := EraseKeeps(c1, fs1, own1, k, ino);
  }

  /** Reclaiming the last reference to a file without links returns all its blocks, the one of its
      inode included, and leaves every other file as it was. */
  lemma ReclaimUnlinked(c: Cached, fs: Fs, own: map<nat, Owner>, k: nat) returns (r: ReclaimResult, fs': Fs)
    requires CacheInv(c, fs, own) && k < |c.vnodes| && c.vnodes[k].ino != ROOT_INO
    requires c.vnodes[k].refs == 1 && c.vnodes[k].inode.links == 0
    ensures var ino := c.vnodes[k].ino;
            && ino in fs.files && r == Reclaim(c, k, fs) && r.Reclaimed?
            && CacheInv(r.c, fs', OthersOf(own, ino)) && ino !in fs'.files && OthersKept(fs, fs', ino)
  {
    VnodeIsCurrent(c, fs, own, k);
    var ino := c.vnodes[k].ino;
    var fs1 := ItruncKeeps(fs, own, ino, 0);
    NothingLeft(fs, own, ino, fs1);
    OwnersGone(fs, own, ino);
    r, fs' := PutThenErase(c, fs, own, k, ino, fs1, OwnersLeft(own, ino, 0, 0));
    ReclaimErases(c, k, fs, fs1);
  }

  lemma ReclaimErases(c: Cached, k: nat, fs: Fs, fs1: Fs)
    requires k < |c.vnodes| && Shaped(fs) && c.vnodes[k].ino in fs.files
    requires c.vnodes[k].refs == 1 && c.vnodes[k].inode.links == 0
    requires Itrunc(fs, c.vnodes[k].ino, 0) == Some(fs1) && c.vnodes[k].ino in fs1.files
    ensures Reclaim(c, k, fs) == Erase(Put(c, k, fs1), k)
  {
  }

  // ---------------------------------------------------------------------------------------------
  // Making a file

  datatype MakeResult = Made(c: Cached, k: nat) | NoSpace(c: Cached) | MakePanic

  /** sfs_makeobj. */
  function MakeObject(c: Cached, kind: nat): MakeResult
    requires |c.disk| == c.nblocks
  {
    var b := FirstFree(c.used, c.nblocks, 0);
    if b == c.nblocks then NoSpace(c)
    else
      match Load(c.(used := c.used + {b}, disk := c.disk[b := ZERO_BLOCK]), b, kind)
      case LoadPanic => MakePanic
      case Loaded(c', k) => Made(c', k)
  }

  predicate Blank(f: Inode)
  {
    InodeOk(f) && f.size == 0 && f.links == 0 && f.indirect == 0 && forall i | 0 <= i < NDIRECT :: f.direct[i] == 0
  }

  /** A fresh block becomes the inode of an empty file. */
  lemma NewFileKeeps(fs: Fs, own: map<nat, Owner>, f: Inode) returns (fs': Fs)
    requires Inv(fs, own) && !Full(fs) && Blank(f)
    ensures var b := NextBlock(fs); b !in fs.files && fs' == SetFile(TakeBlock(fs), b, f)
    ensures Inv(fs', own[NextBlock(fs) := InodeOf(NextBlock(fs))]) && OthersKept(fs, fs', NextBlock(fs))
  {
    FreshUnowned(fs, own);
    var b := NextBlock(fs);
    fs' := SetFile(TakeBlock(fs), b, f);
    var own' := own[b := InodeOf(b)];
    forall k | k in fs'.files ensures FileOwns(fs', own', k) {
      if k != b {
        OtherFile(fs, fs', own, own', b, k);
      }
    }
    forall c | c in own' ensures c < fs'.nblocks && Backed(fs', c, own'[c]) {
      if c != b {
        BackedKept(fs, fs', own, c);
      }
    }
    assert own'.Keys == fs'.used;
    forall k, fb: nat | k in fs.files ensures ContentOf(fs', fs.files[k], fb) == ContentOf(fs, fs.files[k], fb) {
      ContentKept(fs, fs', own, k, fb);
    }
  }

  /** The block just cleared loads as an inode of invalid type. */
  lemma BlankBlock(d: Block)
    requires AllZero(d)
    ensures DecodeInode(d).kind == TYPE_INVAL && Blank(DecodeInode(d))
  {
    ZeroInode(d);
    DecodedOk(d);
  }

  /** It takes the type asked for. */
  lemma LoadBlank(c: Cached, b: nat, kind: nat, i: Inode, v: Vnode)
    requires b < |c.disk| && i == DecodeInode(c.disk[b]) && i.kind == TYPE_INVAL && b in c.used
    requires AllMarked(c, |c.vnodes|) && Find(c.vnodes, b, 0) == |c.vnodes|
    requires (kind == TYPE_FILE || kind == TYPE_DIR) && v == Vnode(b, i.(kind := kind), true, 1)
    ensures Load(c, b, kind) == Loaded(Enter(c, v), |c.vnodes|)
  {
  }

  lemma EnterTable(vs: seq<Vnode>, disk: seq<Block>, inos: set<nat>, v: Vnode, data: Block)
    requires TableOk(vs, disk, inos) && v.ino !in inos && v.ino < |disk| && v.refs == 1 && v.dirty
    ensures TableOk(vs + [v], disk[v.ino := data], inos + {v.ino})
  {
    var vs', disk' := vs + [v], disk[v.ino := data];
    forall i | 0 <= i < |vs'| && !vs'[i].dirty ensures DecodeInode(disk'[vs'[i].ino]) == vs'[i].inode {
      assert vs'[i] == vs[i];
    }
  }

  lemma MakeRepresents(c: Cached, fs: Fs, v: Vnode, data: Block, c1: Cached, fs': Fs)
    requires Represents(c, fs) && v.ino < |c.disk| && v.ino !in fs.files && v.refs == 1 && v.dirty
    requires c1 == c.(used := c.used + {v.ino}, disk := c.disk[v.ino := data])
    requires fs' == fs.(used := fs.used + {v.ino}, disk := fs.disk[v.ino := data], files := fs.files[v.ino := v.inode])
    ensures Represents(Enter(c1, v), fs')
  {
    var c' := Enter(c1, v);
    EnterTable(c.vnodes, c.disk, fs.files.Keys, v, data);
    assert fs'.files.Keys == fs.files.Keys + {v.ino};
    forall ino | ino in fs'.files ensures Current(c', ino) == fs'.files[ino] {
      FindAppended(c.vnodes, v, ino);
    }
  }

  ghost predicate MakeContract(c: Cached, fs: Fs, kind: nat, r: MakeResult, fs': Fs)
    requires Shaped(fs) && Shaped(fs')
  {
    && r.Made? && r.k < |r.c.vnodes| && var v := r.c.vnodes[r.k];
    && v.ino !in fs.files && v.ino in fs'.files && v.inode == fs'.files[v.ino] && v.refs == 1 && v.dirty
    && Blank(v.inode) && v.inode.kind == kind
    && fs'.files == fs.files[v.ino := v.inode] && OthersKept(fs, fs', v.ino)
  }

  /** Making a file gives an empty one of the type asked for, with no links yet and one reference;
      it fails exactly when the volume is full, and never panics. */
  lemma MakeKeeps(c: Cached, fs: Fs, own: map<nat, Owner>, kind: nat)
    returns (r: MakeResult, fs': Fs, own': map<nat, Owner>)
    requires CacheInv(c, fs, own) && (kind == TYPE_FILE || kind == TYPE_DIR)
    ensures r == MakeObject(c, kind) && (r.NoSpace? <==> Full(fs)) && !r.MakePanic? && CacheInv(r.c, fs', own')
    ensures r.NoSpace? ==> r.c == c && fs' == fs && own' == own
    ensures r.Made? ==> MakeContract(c, fs, kind, r, fs')
  {
    r, fs', own' := MakeObject(c, kind), fs, own;
    if !Full(fs) {
      r, fs', own' := MakeFresh(c, fs, own, kind);
    }
  }

  /** The vnode that is made. */
  lemma MadeVnode(c: Cached, b: nat, kind: nat, c1: Cached, i: Inode, v: Vnode)
    requires |c.disk| == c.nblocks && b == FirstFree(c.used, c.nblocks, 0) < c.nblocks
    requires AllMarked(c, |c.vnodes|) && Find(c.vnodes, b, 0) == |c.vnodes| && (kind == TYPE_FILE || kind == TYPE_DIR)
    requires c1 == c.(used := c.used + {b}, disk := c.disk[b := ZERO_BLOCK])
    requires i == DecodeInode(c1.disk[b]) && i.kind == TYPE_INVAL && v == Vnode(b, i.(kind := kind), true, 1)
    ensures MakeObject(c, kind) == Made(Enter(c1, v), |c.vnodes|)
  {
    LoadBlank(c1, b, kind, i, v);
  }

  lemma BlankOfKind(d: Block, kind: nat, i: Inode)
    requires d == ZERO_BLOCK && i == DecodeInode(d) && (kind == TYPE_FILE || kind == TYPE_DIR)
    ensures i.kind == TYPE_INVAL && Blank(i.(kind := kind))
  {
    BlankBlock(d);
  }

  lemma MadeBlank(c: Cached, fs: Fs, own: map<nat, Owner>, kind: nat, b: nat, c1: Cached) returns (v: Vnode)
    requires CacheInv(c, fs, own) && (kind == TYPE_FILE || kind == TYPE_DIR) && !Full(fs) && b == NextBlock(fs)
    requires c1 == c.(used := c.used + {b}, disk := c.disk[b := ZERO_BLOCK])
    ensures MakeObject(c, kind) == Made(Enter(c1, v), |c.vnodes|)
    ensures v == Vnode(b, v.inode, true, 1) && Blank(v.inode) && v.inode.kind == kind
  {
    FreshUnowned(fs, own);
    AllVnodesMarked(c, fs, own);
    var d := c1.disk[b];
    var i := DecodeInode(d);
    BlankOfKind(d, kind, i);
    v := Vnode(b, i.(kind := kind), true, 1);
    MadeVnode(c, b, kind, c1, i, v);
  }

  lemma MakeFresh(c: Cached, fs: Fs, own: map<nat, Owner>, kind: nat)
    returns (r: MakeResult, fs': Fs, own': map<nat, Owner>)
    requires CacheInv(c, fs, own) && (kind == TYPE_FILE || kind == TYPE_DIR) && !Full(fs)
    ensures r == MakeObject(c, kind) && r.Made? && CacheInv(r.c, fs', own') && MakeContract(c, fs, kind, r, fs')
  {
    var b := NextBlock(fs);
    FreshUnowned(fs, own);
    var c1 := c.(used := c.used + {b}, disk := c.disk[b := ZERO_BLOCK]);
    var v := MadeBlank(c, fs, own, kind, b, c1);
    r := Made(Enter(c1, v), |c.vnodes|);
    fs', own' := MadeKeeps(c, fs, own, kind, b, c1, v);
  }

  lemma MadeKeeps(c: Cached, fs: Fs, own: map<nat, Owner>, kind: nat, b: nat, c1: Cached, v: Vnode)
    returns (fs': Fs, own': map<nat, Owner>)
    requires CacheInv(c, fs, own) && (kind == TYPE_FILE || kind == TYPE_DIR) && !Full(fs) && b == NextBlock(fs)
    requires b < |c.disk| && c1 == c.(used := c.used + {b}, disk := c.disk[b := ZERO_BLOCK])
    requires v == Vnode(b, v.inode, true, 1) && Blank(v.inode) && v.inode.kind == kind
    ensures CacheInv(Enter(c1, v), fs', own') && MakeContract(c, fs, kind, Made(Enter(c1, v), |c.vnodes|), fs')
  {
    fs' := NewFileKeeps(fs, own, v.inode);
    own' := own[b := InodeOf(b)];
    MakeRepresents(c, fs, v, ZERO_BLOCK, c1, fs');
  }
}
