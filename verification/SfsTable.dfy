/** The vnode table as a sequence that is searched does what the reference counts say: loading,
    making and releasing vnodes are the same operations on both. */
module SfsTable {
  import opened Common
  import opened SfsDisk
  import opened SfsState
  import opened SfsOwnership
  import opened SfsTruncate
  import opened SfsDir
  import opened SfsCache
  import opened SfsNames

  /** The table holds one vnode for each inode that is referenced, with its count, its dirty mark and
      its current inode. */
  predicate TableIs(vs: seq<Vnode>, files: map<nat, Inode>, refs: map<nat, nat>, dirty: set<nat>)
  {
    && OneEach(vs)
    && (forall i | 0 <= i < |vs| :: HeldAs(vs[i], files, refs, dirty))
    && (forall k | k in refs :: Find(vs, k, 0) < |vs|)
  }

  predicate HeldAs(n: Vnode, files: map<nat, Inode>, refs: map<nat, nat>, dirty: set<nat>)
  {
    && n.ino in refs && refs[n.ino] == n.refs && (n.dirty <==> n.ino in dirty)
    && n.ino in files && n.inode == files[n.ino]
  }

  predicate Mirrors(c: Cached, v: Vol)
  {
    && c.nblocks == v.fs.nblocks && c.used == v.fs.used && c.disk == v.fs.disk
    && TableIs(c.vnodes, v.fs.files, v.refs, v.dirty)
  }

  // ---------------------------------------------------------------------------------------------
  // The table

  lemma TableSet(vs: seq<Vnode>, files: map<nat, Inode>, refs: map<nat, nat>, dirty: set<nat>, k: nat, n: Vnode,
                 vs': seq<Vnode>, files': map<nat, Inode>, refs': map<nat, nat>, dirty': set<nat>)
    requires TableIs(vs, files, refs, dirty) && k < |vs| && n.ino == vs[k].ino && vs' == vs[k := n]
    requires refs'.Keys == refs.Keys
    requires HeldAs(n, files', refs', dirty')
    requires forall i | 0 <= i < |vs| && i != k :: HeldAs(vs[i], files', refs', dirty')
    ensures TableIs(vs', files', refs', dirty')
  {
    forall i, j | 0 <= i < j < |vs'| ensures vs'[i].ino != vs'[j].ino {
      assert vs'[i].ino == vs[i].ino && vs'[j].ino == vs[j].ino;
    }
    forall i | 0 <= i < |vs'| ensures HeldAs(vs'[i], files', refs', dirty') {
      assert i != k ==> vs'[i] == vs[i];
    }
    forall m | m in refs' ensures Find(vs', m, 0) < |vs'| {
      SameFind(vs, vs', m, 0);
    }
  }

  lemma TableEnter(vs: seq<Vnode>, files: map<nat, Inode>, refs: map<nat, nat>, dirty: set<nat>, n: Vnode,
                   vs': seq<Vnode>, files': map<nat, Inode>, refs': map<nat, nat>, dirty': set<nat>)
    requires TableIs(vs, files, refs, dirty) && n.ino !in refs && vs' == vs + [n] && refs'.Keys == refs.Keys + {n.ino}
    requires HeldAs(n, files', refs', dirty')
    requires forall i | 0 <= i < |vs| :: HeldAs(vs[i], files', refs', dirty')
    ensures TableIs(vs', files', refs', dirty')
  {
    forall m | m in refs' ensures Find(vs', m, 0) < |vs'| {
      FindAppended(vs, n, m);
    }
  }

  lemma TableDrop(vs: seq<Vnode>, files: map<nat, Inode>, refs: map<nat, nat>, dirty: set<nat>, k: nat, ino: nat,
                  vs': seq<Vnode>, files': map<nat, Inode>)
    requires TableIs(vs, files, refs, dirty) && k < |vs| && ino == vs[k].ino && vs' == vs[..k] + vs[k + 1..]
    requires forall m | m in files && m != ino :: m in files' && files'[m] == files[m]
    ensures TableIs(vs', files', refs - {ino}, dirty - {ino})
  {
    forall i | 0 <= i < |vs'| ensures HeldAs(vs'[i], files', refs - {ino}, dirty - {ino}) {
      var m := if i < k then i else i + 1;
      assert vs'[i] == vs[m] && m != k;
    }
    DropOneEach(vs, k, vs');
    forall m | m in refs - {ino} ensures Find(vs', m, 0) < |vs'| {
      FindAfterDrop(vs, k, m, vs');
    }
  }

  /** A table that mirrors the counts agrees with the disk. */
  lemma MirrorsCached(c: Cached, v: Vol, own: map<nat, Owner>, es: seq<Entry>)
    requires Mirrors(c, v) && VolInv(v, own, es)
    ensures CacheInv(c, v.fs, own)
  {
    forall ino | ino in v.fs.files ensures ino < |c.disk| && Current(c, ino) == v.fs.files[ino] {
      FileNumber(v.fs, own, ino);
    }
    forall i | 0 <= i < |c.vnodes|
      ensures c.vnodes[i].ino in v.fs.files && c.vnodes[i].ino < |c.disk| && 0 < c.vnodes[i].refs
      ensures !c.vnodes[i].dirty ==> DecodeInode(c.disk[c.vnodes[i].ino]) == c.vnodes[i].inode
    {
      assert HeldAs(c.vnodes[i], v.fs.files, v.refs, v.dirty);
      FileNumber(v.fs, own, c.vnodes[i].ino);
    }
  }

  // ---------------------------------------------------------------------------------------------
  // Operations

  lemma OtherVnodes(vs: seq<Vnode>, files: map<nat, Inode>, refs: map<nat, nat>, dirty: set<nat>, ino: nat,
                    files': map<nat, Inode>, refs': map<nat, nat>, dirty': set<nat>)
    requires forall i | 0 <= i < |vs| :: HeldAs(vs[i], files, refs, dirty)
    requires forall m | m in refs && m != ino :: m in refs' && refs'[m] == refs[m] && (m in dirty <==> m in dirty')
    requires forall m | m in files && m != ino :: m in files' && files'[m] == files[m]
    ensures forall i | 0 <= i < |vs| && vs[i].ino != ino :: HeldAs(vs[i], files', refs', dirty')
  {
  }

  /** One vnode is replaced. */
  lemma MirrorsSet(c: Cached, v: Vol, k: nat, n: Vnode, v': Vol)
    requires Mirrors(c, v) && k < |c.vnodes| && n.ino == c.vnodes[k].ino && v'.refs.Keys == v.refs.Keys
    requires HeldAs(n, v'.fs.files, v'.refs, v'.dirty)
    requires forall m | m in v.refs && m != n.ino :: v'.refs[m] == v.refs[m] && (m in v.dirty <==> m in v'.dirty)
    requires forall m | m in v.fs.files && m != n.ino :: m in v'.fs.files && v'.fs.files[m] == v.fs.files[m]
    ensures TableIs(SetVnode(c, k, n).vnodes, v'.fs.files, v'.refs, v'.dirty)
  {
    OtherVnodes(c.vnodes, v.fs.files, v.refs, v.dirty, n.ino, v'.fs.files, v'.refs, v'.dirty);
    TableSet(c.vnodes, v.fs.files, v.refs, v.dirty, k, n, c.vnodes[k := n], v'.fs.files, v'.refs, v'.dirty);
  }

  lemma IncrefMirrors(c: Cached, v: Vol, k: nat, ino: nat, v': Vol)
    requires Mirrors(c, v) && k < |c.vnodes| && ino == c.vnodes[k].ino && ino in v.refs
    requires v' == v.(refs := v.refs[ino := v.refs[ino] + 1])
    ensures Mirrors(Incref(c, k), v')
  {
    var n := c.vnodes[k];
    assert HeldAs(n, v.fs.files, v.refs, v.dirty);
    MirrorsSet(c, v, k, n.(refs := n.refs + 1), v');
  }

  lemma EnterMirrors(c: Cached, v: Vol, n: Vnode)
    requires Mirrors(c, v) && HeldOk(v) && n.ino !in v.refs && n.ino in v.fs.files
    requires n == Vnode(n.ino, v.fs.files[n.ino], false, 1)
    ensures Mirrors(Enter(c, n), Hold(v, n.ino))
  {
    var v' := Hold(v, n.ino);
    OtherVnodes(c.vnodes, v.fs.files, v.refs, v.dirty, n.ino, v'.fs.files, v'.refs, v'.dirty);
    TableEnter(c.vnodes, v.fs.files, v.refs, v.dirty, n, c.vnodes + [n], v'.fs.files, v'.refs, v'.dirty);
  }

  lemma LoadEnters(c: Cached, v: Vol, own: map<nat, Owner>, ino: nat, n: Vnode)
    requires CacheInv(c, v.fs, own) && ino in v.fs.files && Find(c.vnodes, ino, 0) == |c.vnodes|
    requires AllMarked(c, |c.vnodes|)
    requires ino < |c.disk| && n == Vnode(ino, DecodeInode(c.disk[ino]), false, 1)
    ensures Load(c, ino, TYPE_INVAL) == Loaded(Enter(c, n), |c.vnodes|) && n.inode == v.fs.files[ino]
  {
    assert FileOwns(v.fs, own, ino);
  }

  lemma LoadFound(c: Cached, v: Vol, ino: nat, k: nat)
    requires Mirrors(c, v) && AllMarked(c, |c.vnodes|) && k == Find(c.vnodes, ino, 0) < |c.vnodes|
    ensures Load(c, ino, TYPE_INVAL) == Loaded(Incref(c, k), k) && Mirrors(Incref(c, k), Hold(v, ino))
  {
    LoadFinds(c, ino, k);
    assert HeldAs(c.vnodes[k], v.fs.files, v.refs, v.dirty);
    IncrefMirrors(c, v, k, ino, Hold(v, ino));
  }

  lemma LoadNew(c: Cached, v: Vol, own: map<nat, Owner>, ino: nat) returns (c': Cached)
    requires Mirrors(c, v) && CacheInv(c, v.fs, own) && HeldOk(v) && ino in v.fs.files && AllMarked(c, |c.vnodes|)
    requires Find(c.vnodes, ino, 0) == |c.vnodes| && ino < |c.disk|
    ensures Load(c, ino, TYPE_INVAL) == Loaded(c', |c.vnodes|) && Mirrors(c', Hold(v, ino))
    ensures |c'.vnodes| == |c.vnodes| + 1 && c'.vnodes[|c.vnodes|].ino == ino
  {
    var n := Vnode(ino, DecodeInode(c.disk[ino]), false, 1);
    LoadEnters(c, v, own, ino, n);
    EnterMirrors(c, v, n);
    c' := Enter(c, n);
  }

  /** sfs_loadvnode on the table is one more reference. */
  lemma LoadMirrors(c: Cached, v: Vol, own: map<nat, Owner>, es: seq<Entry>, ino: nat) returns (c': Cached, k: nat)
    requires Mirrors(c, v) && VolInv(v, own, es) && ino in v.fs.files
    ensures Load(c, ino, TYPE_INVAL) == Loaded(c', k) && Mirrors(c', Hold(v, ino)) && k < |c'.vnodes|
    ensures c'.vnodes[k].ino == ino
  {
    MirrorsCached(c, v, own, es);
    AllVnodesMarked(c, v.fs, own);
    FileNumber(v.fs, own, ino);
    k := Find(c.vnodes, ino, 0);
    if k < |c.vnodes| {
      LoadFound(c, v, ino, k);
      c' := Incref(c, k);
    } else {
      c' := LoadNew(c, v, own, ino);
    }
  }

  /** sfs_sync_inode on both. */
  lemma SyncMirrors(c: Cached, v: Vol, k: nat, ino: nat)
    requires Mirrors(c, v) && k < |c.vnodes| && ino == c.vnodes[k].ino && ino in v.fs.files && ino < |v.fs.disk|
    requires InodeOk(v.fs.files[ino])
    ensures InodeOk(c.vnodes[k].inode) && Mirrors(Sync(c, k), SyncVnode(v, ino))
  {
    var n := c.vnodes[k];
    assert HeldAs(n, v.fs.files, v.refs, v.dirty);
    if n.dirty {
      MirrorsSet(c, v, k, n.(dirty := false), SyncVnode(v, ino));
    }
  }

  lemma DropRefMirrors(c: Cached, v: Vol, k: nat, ino: nat)
    requires Mirrors(c, v) && k < |c.vnodes| && ino == c.vnodes[k].ino && c.vnodes[k].refs > 1
    ensures ino in v.refs
    ensures Mirrors(SetVnode(c, k, c.vnodes[k].(refs := c.vnodes[k].refs - 1)), v.(refs := Dropped(v.refs, ino)))
  {
    var n := c.vnodes[k];
    assert HeldAs(n, v.fs.files, v.refs, v.dirty);
    MirrorsSet(c, v, k, n.(refs := n.refs - 1), v.(refs := Dropped(v.refs, ino)));
  }

  lemma DropMirrors(c: Cached, v: Vol, k: nat, ino: nat)
    requires Mirrors(c, v) && k < |c.vnodes| && ino == c.vnodes[k].ino && ino !in v.dirty
    ensures Mirrors(Drop(c, k), v.(refs := v.refs - {ino}))
  {
    TableDrop(c.vnodes, v.fs.files, v.refs, v.dirty, k, ino, Drop(c, k).vnodes, v.fs.files);
    assert v.dirty - {ino} == v.dirty;
  }

  /** The last reference to a file with links. */
  lemma ReclaimMirrors(c: Cached, v: Vol, own: map<nat, Owner>, es: seq<Entry>, k: nat, ino: nat)
    returns (r: ReclaimResult)
    requires Mirrors(c, v) && VolInv(v, own, es) && k < |c.vnodes| && ino == c.vnodes[k].ino && ino in v.fs.files
    requires c.vnodes[k].refs == 1 && c.vnodes[k].inode.links > 0
    ensures r == Reclaim(c, k, v.fs) && r.Reclaimed? && Release(v, ino).Some? && Mirrors(r.c, Release(v, ino).value)
  {
    FileNumber(v.fs, own, ino);
    assert HeldAs(c.vnodes[k], v.fs.files, v.refs, v.dirty);
    SyncMirrors(c, v, k, ino);
    ReclaimLast(c, v.fs, k, c.vnodes[k]);
    DropMirrors(Sync(c, k), SyncVnode(v, ino), k, ino);
    r := Reclaimed(Drop(Sync(c, k), k));
  }

  lemma EraseIs(c: Cached, k: nat, ino: nat, fs: Fs, fs1: Fs, d: Block, c': Cached)
    requires Shaped(fs) && k < |c.vnodes| && ino == c.vnodes[k].ino && ino in fs.files && c.vnodes[k].refs == 1
    requires c.vnodes[k].inode.links == 0
    requires Itrunc(fs, ino, 0) == Some(fs1) && ino in fs1.files && InodeOk(fs1.files[ino]) && ino < |fs1.disk|
    requires ino in fs1.used
    requires d == EncodeInode(fs1.files[ino])
    requires c' == Cached(c.nblocks, fs1.used - {ino}, fs1.disk[ino := d], c.vnodes[..k] + c.vnodes[k + 1..])
    ensures Reclaim(c, k, fs) == Reclaimed(c')
  {
    var c1 := Put(c, k, fs1);
    var c2 := Sync(c1, k);
    assert c2.vnodes[..k] + c2.vnodes[k + 1..] == c.vnodes[..k] + c.vnodes[k + 1..];
  }

  /** The last reference to a file without links. */
  lemma EraseMirrors(c: Cached, v: Vol, own: map<nat, Owner>, es: seq<Entry>, k: nat, ino: nat)
    returns (r: ReclaimResult)
    requires Mirrors(c, v) && VolInv(v, own, es) && k < |c.vnodes| && ino == c.vnodes[k].ino && ino in v.fs.files
    requires c.vnodes[k].refs == 1 && c.vnodes[k].inode.links == 0
    ensures r == Reclaim(c, k, v.fs) && r.Reclaimed? && Release(v, ino).Some? && Mirrors(r.c, Release(v, ino).value)
  {
    assert HeldAs(c.vnodes[k], v.fs.files, v.refs, v.dirty);
    EraseLinks(v.fs.files, es, ino, v.fs.files - {ino});
    var fs1, fs' := EraseFile(v.fs, own, ino);
    var d := EncodeInode(fs1.files[ino]);
    var c' := Cached(c.nblocks, fs1.used - {ino}, fs1.disk[ino := d], c.vnodes[..k] + c.vnodes[k + 1..]);
    EraseIs(c, k, ino, v.fs, fs1, d, c');
    TableDrop(c.vnodes, v.fs.files, v.refs, v.dirty, k, ino, c'.vnodes, fs'.files);
    r := Reclaimed(c');
  }

  lemma SharedMirrors(c: Cached, v: Vol, k: nat, ino: nat) returns (r: ReclaimResult)
    requires Mirrors(c, v) && Shaped(v.fs) && k < |c.vnodes| && ino == c.vnodes[k].ino && c.vnodes[k].refs > 1
    requires HeldAs(c.vnodes[k], v.fs.files, v.refs, v.dirty) && ino < |v.fs.disk|
    ensures r == Decref(c, k, v.fs) && r.Reclaimed? && Release(v, ino).Some? && Mirrors(r.c, Release(v, ino).value)
  {
    DropRefMirrors(c, v, k, ino);
    r := Reclaimed(SetVnode(c, k, c.vnodes[k].(refs := c.vnodes[k].refs - 1)));
  }

  /** vnode_decref on the table is one reference less, with all that follows from it. */
  lemma DecrefMirrors(c: Cached, v: Vol, own: map<nat, Owner>, es: seq<Entry>, k: nat, ino: nat)
    returns (r: ReclaimResult)
    requires Mirrors(c, v) && VolInv(v, own, es) && k < |c.vnodes| && ino == c.vnodes[k].ino && ino in v.fs.files
    ensures r == Decref(c, k, v.fs) && r.Reclaimed? && Release(v, ino).Some? && Mirrors(r.c, Release(v, ino).value)
  {
    var n := c.vnodes[k];
    assert HeldAs(n, v.fs.files, v.refs, v.dirty);
    FileNumber(v.fs, own, ino);
    if n.refs > 1 {
      r := SharedMirrors(c, v, k, ino);
    } else if n.inode.links > 0 {
      r := ReclaimMirrors(c, v, own, es, k, ino);
    } else {
      r := EraseMirrors(c, v, own, es, k, ino);
    }
  }

  /** A cleared block with the type of a file set is the inode of a new file. */
  lemma BlankIs(f: Inode)
    requires Blank(f) && f.kind == TYPE_FILE
    ensures f == BLANK_FILE
  {
    assert f.direct == BLANK_FILE.direct;
  }

  lemma MadeMirrors(c: Cached, v: Vol, b: nat, n: Vnode, c': Cached, v': Vol)
    requires Mirrors(c, v) && HeldOk(v) && b !in v.fs.files && n == Vnode(b, n.inode, true, 1)
    requires c'.vnodes == c.vnodes + [n] && v'.fs.files == v.fs.files[b := n.inode] && v'.refs == v.refs[b := 1]
    requires v'.dirty == v.dirty + {b}
    ensures TableIs(c'.vnodes, v'.fs.files, v'.refs, v'.dirty)
  {
    OtherVnodes(c.vnodes, v.fs.files, v.refs, v.dirty, b, v'.fs.files, v'.refs, v'.dirty);
    assert forall i | 0 <= i < |c.vnodes| :: c.vnodes[i].ino != b;
    TableEnter(c.vnodes, v.fs.files, v.refs, v.dirty, n, c'.vnodes, v'.fs.files, v'.refs, v'.dirty);
  }

  /** sfs_makeobj on the table makes the new file. */
  lemma MakeMirrors(c: Cached, v: Vol, own: map<nat, Owner>, es: seq<Entry>) returns (c': Cached, k: nat)
    requires Mirrors(c, v) && VolInv(v, own, es) && !Full(v.fs)
    ensures |c.disk| == c.nblocks && MakeObject(c, TYPE_FILE) == Made(c', k) && Mirrors(c', MakeFile(v))
  {
    MirrorsCached(c, v, own, es);
    var b := NextBlock(v.fs);
    FreshUnowned(v.fs, own);
    var c1 := c.(used := c.used + {b}, disk := c.disk[b := ZERO_BLOCK]);
    var n := MadeBlank(c, v.fs, own, TYPE_FILE, b, c1);
    BlankIs(n.inode);
    c', k := Enter(c1, n), |c.vnodes|;
    MadeMirrors(c, v, b, n, c', MakeFile(v));
  }

  /** An operation on a loaded file: its inode in the table, and dirty if it has changed. */
  lemma TouchMirrors(c: Cached, v: Vol, k: nat, ino: nat, fs': Fs, c': Cached)
    requires Mirrors(c, v) && k < |c.vnodes| && ino == c.vnodes[k].ino && ino in v.fs.files
    requires fs'.nblocks == v.fs.nblocks
    requires fs'.files.Keys == v.fs.files.Keys
    requires forall m | m in v.fs.files && m != ino :: fs'.files[m] == v.fs.files[m]
    requires var n := c.vnodes[k]; var f := fs'.files[ino];
             c' == SetVnode(c.(used := fs'.used, disk := fs'.disk), k, n.(inode := f, dirty := n.dirty || f != n.inode))
    ensures Mirrors(c', Touch(v, ino, fs'))
  {
    var n := c.vnodes[k];
    assert HeldAs(n, v.fs.files, v.refs, v.dirty);
    MirrorsSet(c, v, k, c'.vnodes[k], Touch(v, ino, fs'));
  }
}
