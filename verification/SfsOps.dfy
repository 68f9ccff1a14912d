/** What the operations on names do, and what no run of operations can break. */
module SfsOps {
  import opened Common
  import opened SfsDisk
  import opened SfsState
  import opened SfsOwnership
  import opened SfsTruncate
  import opened SfsIo
  import opened SfsDir
  import opened SfsCache
  import opened SfsNames

  // ---------------------------------------------------------------------------------------------
  // The directory as a finite map

  function NamesTo(es: seq<Entry>, n: nat): map<seq<Byte>, nat>
    requires n <= |es|
  {
    if n == 0 then map[]
    else
      var m := NamesTo(es, n - 1);
      match es[n - 1]
      case Free => m
      case Used(ino, name) => m[name := ino]
  }

  /** The map from names to inode numbers that the slots stand for. */
  function Names(es: seq<Entry>): map<seq<Byte>, nat> { NamesTo(es, |es|) }

  predicate NamedBefore(es: seq<Entry>, n: nat, name: seq<Byte>)
    requires n <= |es|
  {
    exists i | 0 <= i < n :: es[i].Used? && es[i].name == name
  }

  lemma {:induction false} NamesToMeans(es: seq<Entry>, n: nat, name: seq<Byte>)
    requires Unique(es) && n <= |es|
    ensures name in NamesTo(es, n) <==> NamedBefore(es, n, name)
    ensures forall i | 0 <= i < n && es[i].Used? && es[i].name == name :: NamesTo(es, n)[name] == es[i].ino
  {
    if n > 0 {
      NamesToMeans(es, n - 1, name);
    }
  }

  lemma NamesMeans(es: seq<Entry>, name: seq<Byte>)
    requires Unique(es)
    ensures name in Names(es) <==> HasName(es, name)
    ensures forall i | 0 <= i < |es| && es[i].Used? && es[i].name == name :: Names(es)[name] == es[i].ino
  {
    NamesToMeans(es, |es|, name);
  }

  /** A name entered in a free slot is a name added to the map. */
  lemma NamesLinked(es: seq<Entry>, slot: nat, x: nat, name: seq<Byte>)
    requires Unique(es) && !HasName(es, name) && slot <= |es| && Before(es, slot) == Free
    ensures Names(Written(es, slot, Used(x, name))) == Names(es)[name := x]
  {
    var es' := Written(es, slot, Used(x, name));
    LinkUnique(es, slot, x, name);
    forall n ensures n in Names(es') <==> n in Names(es)[name := x] {
      NamesMeans(es, n);
      NamesMeans(es', n);
      SameNames(es, slot, Used(x, name), n);
    }
    forall n | n in Names(es') ensures Names(es')[n] == Names(es)[name := x][n] {
      NamesMeans(es, n);
      NamesMeans(es', n);
    }
  }

  lemma SameNames(es: seq<Entry>, slot: nat, e: Entry, n: seq<Byte>)
    requires slot <= |es| && Before(es, slot) == Free
    ensures HasName(Written(es, slot, e), n) <==> HasName(es, n) || (e.Used? && e.name == n)
  {
    var es' := Written(es, slot, e);
    if HasName(es, n) {
      var i :| 0 <= i < |es| && es[i].Used? && es[i].name == n;
      assert es'[i] == es[i];
    }
    assert es'[slot] == e;
  }

  /** A slot cleared is a name taken from the map. */
  lemma NamesUnlinked(es: seq<Entry>, slot: nat, name: seq<Byte>)
    requires Unique(es) && slot < |es| && es[slot].Used? && es[slot].name == name
    ensures Names(es[slot := Free]) == Names(es) - {name}
  {
    var es' := es[slot := Free];
    UnlinkUnique(es, slot);
    forall n ensures n in Names(es') <==> n in Names(es) - {name} {
      NamesMeans(es, n);
      NamesMeans(es', n);
      FewerNames(es, slot, n);
    }
    forall n | n in Names(es') ensures Names(es')[n] == Names(es)[n] {
      NamesMeans(es, n);
      NamesMeans(es', n);
    }
  }

  lemma FewerNames(es: seq<Entry>, slot: nat, n: seq<Byte>)
    requires Unique(es) && slot < |es| && es[slot].Used?
    ensures HasName(es[slot := Free], n) <==> HasName(es, n) && n != es[slot].name
  {
    var es' := es[slot := Free];
    if HasName(es, n) && n != es[slot].name {
      var i :| 0 <= i < |es| && es[i].Used? && es[i].name == n;
      assert es'[i] == es[i];
    }
  }

  // ---------------------------------------------------------------------------------------------
  // Contents

  /** File k has the same type, size and bytes. */
  ghost predicate SameFile(fs: Fs, fs': Fs, k: nat)
    requires Shaped(fs) && Shaped(fs') && k in fs.files
  {
    && k in fs'.files && fs'.files[k].kind == fs.files[k].kind && fs'.files[k].size == fs.files[k].size
    && forall o: nat :: ByteAt(fs', fs'.files[k], o) == ByteAt(fs, fs.files[k], o)
  }

  /** All files but the directory and possibly one more keep their contents. */
  ghost predicate ContentsKept(fs: Fs, fs': Fs, but: nat)
    requires Shaped(fs) && Shaped(fs')
  {
    forall k | k in fs.files && k != ROOT_INO && k != but :: SameFile(fs, fs', k)
  }

  lemma ContentsChain(fs: Fs, fs1: Fs, fs2: Fs, but: nat)
    requires Shaped(fs) && Shaped(fs1) && Shaped(fs2) && ContentsKept(fs, fs1, but) && ContentsKept(fs1, fs2, but)
    ensures ContentsKept(fs, fs2, but)
  {
    forall k | k in fs.files && k != ROOT_INO && k != but ensures SameFile(fs, fs2, k) {
      assert SameFile(fs, fs1, k);
      assert SameFile(fs1, fs2, k);
    }
  }

  lemma ContentsElsewhere(fs: Fs, own: map<nat, Owner>, fs': Fs, but: nat)
    requires Shaped(fs) && Shaped(fs') && ROOT_INO in fs.files && Elsewhere(fs, own, fs', ROOT_INO)
    ensures ContentsKept(fs, fs', but)
  {
  }

  lemma ContentsFromBlocks(fs: Fs, fs': Fs, but: nat)
    requires Shaped(fs) && Shaped(fs')
    requires forall k | k in fs.files && k != but ::
            k in fs'.files && fs'.files[k].kind == fs.files[k].kind && fs'.files[k].size == fs.files[k].size
    requires forall k, fb: nat | k in fs.files && k != but ::
            ContentOf(fs', fs'.files[k], fb) == ContentOf(fs, fs.files[k], fb)
    ensures ContentsKept(fs, fs', but)
  {
  }

  // ---------------------------------------------------------------------------------------------
  // sfs_link

  lemma NothingOwed(v: Vol, own: map<nat, Owner>, es: seq<Entry>, x: nat, y: nat)
    requires Sound(v, own, es, x, 0)
    ensures Sound(v, own, es, y, 0)
  {
  }

  lemma LinkIs(v: Vol, name: seq<Byte>, ino: nat, l: LinkResult, r: Outcome)
    requires Fit(v.fs) && ino in v.fs.files && ino < WORD_LIMIT && v.fs.files[ino].kind != TYPE_DIR
    requires l == DirLink(v.fs, ROOT_INO, name, ino) && !l.LinkPanic? && Fit(l.fs) && ino in l.fs.files
    requires r == if l.NotLinked? then Failed(Touch(v, ROOT_INO, l.fs), l.err)
                  else Done(Recount(Touch(v, ROOT_INO, l.fs), ino, 1), ino)
    ensures r == Link(v, name, ino)
  {
  }

  /** How many references and which files there are, and all link counts but that of x, stay. */
  predicate FilesStay(v: Vol, v': Vol, x: nat)
  {
    && v'.refs == v.refs && v'.fs.files.Keys == v.fs.files.Keys
    && forall k | k in v.fs.files && k != x :: v'.fs.files[k].links == v.fs.files[k].links
  }

  lemma OnlyLinksStay(v: Vol, v': Vol, x: nat, n: int)
    requires Shaped(v.fs) && Shaped(v'.fs) && OnlyLinks(v.fs.files, v'.fs.files, x, n) && v'.refs == v.refs
    requires forall k, fb: nat | k in v.fs.files ::
            ContentOf(v'.fs, v'.fs.files[k], fb) == ContentOf(v.fs, v.fs.files[k], fb)
    ensures FilesStay(v, v', x) && ContentsKept(v.fs, v'.fs, ROOT_INO)
  {
    ContentsFromBlocks(v.fs, v'.fs, ROOT_INO);
  }

  /** The link count of x catches up with its names; nothing else changes. */
  lemma CatchUp(v: Vol, own: map<nat, Owner>, es: seq<Entry>, x: nat, d: int) returns (v': Vol)
    requires Sound(v, own, es, x, d) && x in v.refs && x != ROOT_INO
    ensures v' == Recount(v, x, d) && VolInv(v', own, es) && ContentsKept(v.fs, v'.fs, ROOT_INO)
    ensures FilesStay(v, v', x) && v'.fs.files[x].links == v.fs.files[x].links + d
  {
    v' := CountStep(v, own, es, x, d);
    OnlyLinksStay(v, v', x, Count(es, x));
    NothingOwed(v', own, es, x, ROOT_INO);
  }

  /** A name for x is entered and counted, or nothing is. */
  ghost predicate EnterContract(v: Vol, es: seq<Entry>, x: nat, name: seq<Byte>, l: LinkResult, v': Vol,
                                es': seq<Entry>)
    requires Shaped(v.fs) && Shaped(v'.fs) && x in v.fs.files
  {
    && ContentsKept(v.fs, v'.fs, ROOT_INO) && FilesStay(v, v', x) && x in v'.fs.files
    && (l.Linked? ==> !HasName(es, name) && l.slot <= |es| && Before(es, l.slot) == Free
                      && es' == Written(es, l.slot, Used(x, name))
                      && v'.fs.files[x].links == v.fs.files[x].links + 1)
    && (l.NotLinked? ==> es' == es && LinkFails(es, name, v'.fs, l.err) && v'.fs.files[x].links == v.fs.files[x].links)
  }

  function Counted(v: Vol, x: nat, l: LinkResult): Vol
    requires !l.LinkPanic? && Fit(v.fs) && Fit(l.fs) && x in l.fs.files
  {
    var v1 := Touch(v, ROOT_INO, l.fs);
    if l.Linked? then Recount(v1, x, 1) else v1
  }

  lemma EnterCounted(v: Vol, own: map<nat, Owner>, es: seq<Entry>, x: nat, name: seq<Byte>, l: LinkResult, v': Vol,
                     own': map<nat, Owner>)
    requires Shaped(v.fs) && ROOT_INO in v.fs.files && x in v.fs.files && x != ROOT_INO && Shaped(v'.fs)
    requires LinkContract(v.fs, own, ROOT_INO, es, name, x, l, own') && l.Linked?
    requires var v1 := Touch(v, ROOT_INO, l.fs);
             && FilesStay(v1, v', x) && v'.fs.files[x].links == v1.fs.files[x].links + 1
             && ContentsKept(v1.fs, v'.fs, ROOT_INO)
    ensures EnterContract(v, es, x, name, l, v', Written(es, l.slot, Used(x, name)))
  {
    ContentsElsewhere(v.fs, own, l.fs, ROOT_INO);
    ContentsChain(v.fs, l.fs, v'.fs, ROOT_INO);
  }

  lemma NotEntered(v: Vol, own: map<nat, Owner>, es: seq<Entry>, x: nat, name: seq<Byte>, l: LinkResult,
                   own': map<nat, Owner>)
    requires Shaped(v.fs) && ROOT_INO in v.fs.files && x in v.fs.files && x != ROOT_INO
    requires LinkContract(v.fs, own, ROOT_INO, es, name, x, l, own') && l.NotLinked?
    ensures EnterContract(v, es, x, name, l, Touch(v, ROOT_INO, l.fs), es)
  {
    ContentsElsewhere(v.fs, own, l.fs, ROOT_INO);
  }

  lemma EnterName(v: Vol, own: map<nat, Owner>, es: seq<Entry>, x: nat, name: seq<Byte>)
    returns (l: LinkResult, v': Vol, own': map<nat, Owner>, es': seq<Entry>)
    requires VolInv(v, own, es) && ROOT_INO in v.refs && x in v.refs && x != ROOT_INO && IsString(name)
    ensures x < WORD_LIMIT && l == DirLink(v.fs, ROOT_INO, name, x) && !l.LinkPanic? && Fit(l.fs) && x in l.fs.files
    ensures v' == Counted(v, x, l) && VolInv(v', own', es') && EnterContract(v, es, x, name, l, v', es')
  {
    NothingOwed(v, own, es, ROOT_INO, x);
    l, own', es' := LinkStep(v, own, es, x, name);
    var v1 := Touch(v, ROOT_INO, l.fs);
    if l.Linked? {
      v' := CatchUp(v1, own', es', x, 1);
      EnterCounted(v, own, es, x, name, l, v', own');
    } else {
      v' := v1;
      NothingOwed(v1, own', es', x, ROOT_INO);
      NotEntered(v, own, es, x, name, l, own');
    }
  }

  /** What sfs_link does to the map and to the link count: a name and one more, or neither. */
  ghost predicate LinkOutcome(v: Vol, es: seq<Entry>, name: seq<Byte>, ino: nat, r: Outcome, es': seq<Entry>)
  {
    && Shaped(v.fs) && ino in v.fs.files && !r.Panicked? && Shaped(r.v.fs)
    && ContentsKept(v.fs, r.v.fs, ROOT_INO) && FilesStay(v, r.v, ino)
    && (r.Done? ==> r.ino == ino != ROOT_INO && name !in Names(es) && Names(es') == Names(es)[name := ino]
                    && r.v.fs.files[ino].links == v.fs.files[ino].links + 1)
    && (r.Failed? ==> es' == es && r.v.fs.files[ino].links == v.fs.files[ino].links
                      && if ino == ROOT_INO then r.err == EINVAL else LinkFails(es, name, r.v.fs, r.err))
  }

  lemma LinkOutcomeIs(v: Vol, es: seq<Entry>, name: seq<Byte>, x: nat, l: LinkResult, v': Vol, es': seq<Entry>,
                      r: Outcome)
    requires Shaped(v.fs) && Shaped(v'.fs) && x in v.fs.files && x != ROOT_INO && Unique(es) && !l.LinkPanic?
    requires EnterContract(v, es, x, name, l, v', es') && r == if l.Linked? then Done(v', x) else Failed(v', l.err)
    ensures LinkOutcome(v, es, name, x, r, es')
  {
    NamesMeans(es, name);
    if l.Linked? {
      NamesLinked(es, l.slot, x, name);
    }
  }

  /** sfs_link adds the name to the map and one to the link count, or fails and changes neither; no
      file's contents change. */
  lemma LinkKeeps(v: Vol, own: map<nat, Owner>, es: seq<Entry>, name: seq<Byte>, ino: nat)
    returns (r: Outcome, own': map<nat, Owner>, es': seq<Entry>)
    requires VolInv(v, own, es) && ROOT_INO in v.refs && ino in v.refs && IsString(name)
    ensures ino < WORD_LIMIT && r == Link(v, name, ino) && LinkOutcome(v, es, name, ino, r, es')
    ensures VolInv(r.v, own', es')
  {
    FileNumber(v.fs, own, ino);
    if ino == ROOT_INO {
      r, own', es' := Failed(v, EINVAL), own, es;
    } else {
      var l, v';
      l, v', own', es' := EnterName(v, own, es, ino, name);
      r := if l.Linked? then Done(v', ino) else Failed(v', l.err);
      LinkIs(v, name, ino, l, r);
      LinkOutcomeIs(v, es, name, ino, l, v', es', r);
    }
  }

  // ---------------------------------------------------------------------------------------------
  // sfs_lookonce and sfs_lookup

  /** What a search says in terms of the map. */
  lemma FindKeeps(v: Vol, own: map<nat, Owner>, es: seq<Entry>, name: seq<Byte>) returns (s: FindResult)
    requires VolInv(v, own, es)
    ensures s == FindName(v.fs, ROOT_INO, name) && s.Searched? && (s.slot.Some? <==> name in Names(es))
    ensures (HasName(es, name) <==> name in Names(es))
    ensures s.slot.Some? ==> Names(es)[name] == s.ino && s.slot.value < |es| && es[s.slot.value] == Used(s.ino, name)
                             && s.ino in v.fs.files && s.ino != ROOT_INO
  {
    s := FindName(v.fs, ROOT_INO, name);
    FindNameAnswers(v.fs, own, ROOT_INO, es, name);
    AnswersMean(es, name, s);
    NamesMeans(es, name);
  }

  lemma NamedFile(files: map<nat, Inode>, es: seq<Entry>, slot: nat, ino: nat)
    requires LinksOk(files, es, ROOT_INO, 0) && EntriesOk(files, es) && slot < |es| && es[slot].Used?
    requires es[slot].ino == ino
    ensures ino in files && ino != ROOT_INO && files[ino].links > 0 && files[ino].kind == TYPE_FILE
  {
    CountZero(es, |es|, ino);
    assert One(es[slot], ino) == 1;
  }

  lemma LookIs(v: Vol, name: seq<Byte>, s: FindResult)
    requires Fit(v.fs) && s == FindName(v.fs, ROOT_INO, name) && s.Searched?
    requires s.slot.Some? ==> s.ino in v.fs.files && v.fs.files[s.ino].links > 0
    ensures LookOnce(v, name) == if s.slot.Some? then Look(Hold(v, s.ino), s.ino, s.slot.value) else NoLook(ENOENT)
  {
  }

  /** What a lookup says: the file of the name, if there is one. */
  ghost predicate LookContract(v: Vol, es: seq<Entry>, name: seq<Byte>, r: LookResult)
  {
    if name in Names(es) then
      && r.Look? && r.ino == Names(es)[name] && r.v == Hold(v, r.ino) && r.slot < |es|
      && es[r.slot] == Used(r.ino, name)
      && r.ino in v.fs.files && r.ino != ROOT_INO && v.fs.files[r.ino].links > 0 && v.fs.files[r.ino].kind == TYPE_FILE
    else r == NoLook(ENOENT)
  }

  /** A lookup finds exactly the names in the map, and takes a reference to the file. */
  lemma LookKeeps(v: Vol, own: map<nat, Owner>, es: seq<Entry>, name: seq<Byte>) returns (r: LookResult)
    requires VolInv(v, own, es)
    ensures r == LookOnce(v, name) && LookContract(v, es, name, r) && (r.Look? ==> VolInv(r.v, own, es))
  {
    var s := FindKeeps(v, own, es, name);
    if s.slot.Some? {
      NamedFile(v.fs.files, es, s.slot.value, s.ino);
      HoldStep(v, own, es, s.ino);
      r := Look(Hold(v, s.ino), s.ino, s.slot.value);
    } else {
      r := NoLook(ENOENT);
    }
    LookIs(v, name, s);
  }

  // ---------------------------------------------------------------------------------------------
  // sfs_creat

  /** Letting go of x changes the contents of no other file. */
  lemma ReleasedContents(v: Vol, own: map<nat, Owner>, x: nat, v': Vol, own': map<nat, Owner>)
    requires Shaped(v.fs) && Shaped(v'.fs) && x in v.refs && x in v.fs.files && Released(v, own, x, v', own')
    ensures ContentsKept(v.fs, v'.fs, x)
  {
    ContentsFromBlocks(v.fs, v'.fs, x);
  }

  /** A new file, empty and without a name, in the hands of its maker. */
  ghost predicate MadeFrom(v: Vol, v1: Vol, b: nat)
  {
    && Shaped(v.fs) && Shaped(v1.fs) && b !in v.fs.files && b !in v.refs && b != ROOT_INO
    && b in v1.fs.files && v1.fs.files == v.fs.files[b := v1.fs.files[b]] && v1.refs == v.refs[b := 1]
    && Blank(v1.fs.files[b]) && v1.fs.files[b].kind == TYPE_FILE && ContentsKept(v.fs, v1.fs, ROOT_INO)
  }

  lemma MadeFromIs(v: Vol, v1: Vol, b: nat)
    requires Shaped(v.fs) && Shaped(v1.fs) && b !in v.fs.files && b != ROOT_INO && HeldOk(v)
    requires OthersKept(v.fs, v1.fs, b)
    requires b in v1.fs.files && v1.fs.files == v.fs.files[b := v1.fs.files[b]] && v1.refs == v.refs[b := 1]
    requires Blank(v1.fs.files[b]) && v1.fs.files[b].kind == TYPE_FILE
    ensures MadeFrom(v, v1, b)
  {
    ContentsFromBlocks(v.fs, v1.fs, ROOT_INO);
  }

  lemma MakeKeeps(v: Vol, own: map<nat, Owner>, es: seq<Entry>) returns (v1: Vol, own1: map<nat, Owner>, b: nat)
    requires VolInv(v, own, es) && !Full(v.fs)
    ensures v1 == MakeFile(v) && b == NextBlock(v.fs) && VolInv(v1, own1, es) && MadeFrom(v, v1, b)
  {
    v1, own1, b := MakeStep(v, own, es);
    MadeFromIs(v, v1, b);
  }

  lemma UndoneContents(fs: Fs, fs1: Fs, fs2: Fs, fs3: Fs, b: nat)
    requires Shaped(fs) && Shaped(fs1) && Shaped(fs2) && Shaped(fs3) && b !in fs.files
    requires ContentsKept(fs, fs1, ROOT_INO) && ContentsKept(fs1, fs2, ROOT_INO) && ContentsKept(fs2, fs3, b)
    ensures ContentsKept(fs, fs3, ROOT_INO)
  {
    forall k | k in fs.files && k != ROOT_INO ensures SameFile(fs, fs3, k) {
      assert SameFile(fs, fs1, k);
      assert SameFile(fs1, fs2, k);
      assert SameFile(fs2, fs3, k);
    }
  }

  /** The new file has its first name and no contents, and only its maker holds it. */
  ghost predicate Created(v: Vol, es: seq<Entry>, name: seq<Byte>, r: Outcome, es': seq<Entry>)
  {
    && r.Done? && r.ino !in v.fs.files && r.ino in r.v.fs.files && r.v.fs.files.Keys == v.fs.files.Keys + {r.ino}
    && Names(es') == Names(es)[name := r.ino] && r.v.refs == v.refs[r.ino := 1]
    && r.v.fs.files[r.ino].links == 1 && r.v.fs.files[r.ino].size == 0 && r.v.fs.files[r.ino].kind == TYPE_FILE
  }

  /** A failed creation leaves no file and no reference behind. */
  ghost predicate NotCreated(v: Vol, es: seq<Entry>, name: seq<Byte>, r: Outcome, es': seq<Entry>)
  {
    && r.Failed? && es' == es && r.v.fs.files.Keys == v.fs.files.Keys && r.v.refs == v.refs
    && r.err == if Full(v.fs) then ENOSPC
                else if |name| >= NAME_LEN then ENAMETOOLONG
                else if NoFree(es) && |es| == MAX_SLOTS then EFBIG
                else ENOSPC
  }

  /** What sfs_creat does. */
  ghost predicate CreateContract(v: Vol, es: seq<Entry>, name: seq<Byte>, excl: bool, r: Outcome, es': seq<Entry>)
  {
    && Shaped(v.fs) && !r.Panicked? && Shaped(r.v.fs) && ContentsKept(v.fs, r.v.fs, ROOT_INO)
    && if name in Names(es) then
         es' == es && r == if excl then Failed(v, EEXIST) else Done(Hold(v, Names(es)[name]), Names(es)[name])
       else if r.Done? then Created(v, es, name, r, es')
       else NotCreated(v, es, name, r, es')
  }

  lemma CreatedIs(v: Vol, es: seq<Entry>, name: seq<Byte>, excl: bool, v1: Vol, b: nat, r: Outcome, es': seq<Entry>)
    requires MadeFrom(v, v1, b) && LinkOutcome(v1, es, name, b, r, es') && r.Done? && name !in Names(es)
    ensures CreateContract(v, es, name, excl, r, es')
  {
    ContentsChain(v.fs, v1.fs, r.v.fs, ROOT_INO);
    assert SameFile(v1.fs, r.v.fs, b);
  }

  lemma RefsBack(refs: map<nat, nat>, b: nat)
    requires b !in refs
    ensures refs[b := 1] - {b} == refs
  {
  }

  lemma NotCreatedIs(v: Vol, es: seq<Entry>, name: seq<Byte>, excl: bool, v1: Vol, b: nat, r1: Outcome, v3: Vol)
    requires MadeFrom(v, v1, b) && LinkOutcome(v1, es, name, b, r1, es) && r1.Failed? && !HasName(es, name)
    requires name !in Names(es)
    requires !Full(v.fs) && Shaped(v3.fs) && ContentsKept(r1.v.fs, v3.fs, b)
    requires v3.fs.files == r1.v.fs.files - {b} && v3.refs == r1.v.refs - {b}
    ensures CreateContract(v, es, name, excl, Failed(v3, r1.err), es)
  {
    UndoneContents(v.fs, v1.fs, r1.v.fs, v3.fs, b);
    RefsBack(v.refs, b);
  }

  /** A new file that cannot be entered in the directory is erased again. */
  lemma CreateUndone(v2: Vol, own2: map<nat, Owner>, es: seq<Entry>, b: nat, err: Errno)
    returns (v3: Vol, own': map<nat, Owner>)
    requires VolInv(v2, own2, es) && b in v2.refs && v2.refs[b] == 1 && v2.fs.files[b].links == 0
    ensures GiveUp(v2, b, err) == Failed(v3, err) && VolInv(v3, own', es) && ContentsKept(v2.fs, v3.fs, b)
    ensures v3.fs.files == v2.fs.files - {b} && v3.refs == v2.refs - {b}
  {
    v3, own' := ReleaseStep(v2, own2, es, b);
    ReleasedContents(v2, own2, b, v3, own');
  }

  /** After the new file is made, and perhaps entered. */
  lemma CreateEnds(v: Vol, es: seq<Entry>, name: seq<Byte>, excl: bool, v1: Vol, b: nat, r1: Outcome,
                   own1: map<nat, Owner>, es1: seq<Entry>)
    returns (r: Outcome, own': map<nat, Owner>)
    requires MadeFrom(v, v1, b) && LinkOutcome(v1, es, name, b, r1, es1) && VolInv(r1.v, own1, es1)
    requires !HasName(es, name) && name !in Names(es) && !Full(v.fs)
    ensures r == if r1.Failed? then GiveUp(r1.v, b, r1.err) else r1
    ensures CreateContract(v, es, name, excl, r, es1) && VolInv(r.v, own', es1)
  {
    if r1.Done? {
      r, own' := r1, own1;
      CreatedIs(v, es, name, excl, v1, b, r1, es1);
    } else {
      var v3;
      v3, own' := CreateUndone(r1.v, own1, es, b, r1.err);
      NotCreatedIs(v, es, name, excl, v1, b, r1, v3);
      r := Failed(v3, r1.err);
    }
  }

  lemma CreateMade(v: Vol, name: seq<Byte>, excl: bool, s: FindResult, v1: Vol, b: nat, r1: Outcome, r: Outcome)
    requires Fit(v.fs) && s == FindName(v.fs, ROOT_INO, name) && s.Searched? && s.slot.None? && !Full(v.fs)
    requires v1 == MakeFile(v) && b == NextBlock(v.fs) && Fit(v1.fs) && b in v1.fs.files && b < WORD_LIMIT
    requires r1 == Link(v1, name, b)
    requires !r1.Panicked? && Shaped(r1.v.fs) && r == if r1.Failed? then GiveUp(r1.v, b, r1.err) else r1
    ensures Create(v, name, excl) == r
  {
  }

  /** Creating a name that is not there, on a volume with space for an inode. */
  lemma CreateNew(v: Vol, own: map<nat, Owner>, es: seq<Entry>, name: seq<Byte>, excl: bool, s: FindResult)
    returns (r: Outcome, own': map<nat, Owner>, es': seq<Entry>)
    requires VolInv(v, own, es) && ROOT_INO in v.refs && IsString(name) && !HasName(es, name) && name !in Names(es)
    requires !Full(v.fs)
    requires s == FindName(v.fs, ROOT_INO, name) && s.Searched? && s.slot.None?
    ensures r == Create(v, name, excl) && CreateContract(v, es, name, excl, r, es') && VolInv(r.v, own', es')
  {
    var v1, own1, b := MakeKeeps(v, own, es);
    var r1, own2;
    r1, own2, es' := LinkKeeps(v1, own1, es, name, b);
    r, own' := CreateEnds(v, es, name, excl, v1, b, r1, own2, es');
    CreateMade(v, name, excl, s, v1, b, r1, r);
  }

  lemma CreateFound(v: Vol, es: seq<Entry>, name: seq<Byte>, excl: bool, s: FindResult, r: Outcome)
    requires Fit(v.fs) && s == FindName(v.fs, ROOT_INO, name) && s.Searched? && s.slot.Some? && s.ino in v.fs.files
    requires name in Names(es) && Names(es)[name] == s.ino
    requires r == if excl then Failed(v, EEXIST) else Done(Hold(v, s.ino), s.ino)
    ensures r == Create(v, name, excl) && CreateContract(v, es, name, excl, r, es)
  {
  }

  lemma CreateFull(v: Vol, es: seq<Entry>, name: seq<Byte>, excl: bool, s: FindResult)
    requires Fit(v.fs) && s == FindName(v.fs, ROOT_INO, name) && s.Searched? && s.slot.None? && name !in Names(es)
    requires Full(v.fs)
    ensures Create(v, name, excl) == Failed(v, ENOSPC) && CreateContract(v, es, name, excl, Failed(v, ENOSPC), es)
  {
  }

  /** sfs_creat: an existing name is opened, or refused if it must be new; a new name gets a new
      empty file; and when that fails nothing of the file is left. */
  lemma CreateKeeps(v: Vol, own: map<nat, Owner>, es: seq<Entry>, name: seq<Byte>, excl: bool)
    returns (r: Outcome, own': map<nat, Owner>, es': seq<Entry>)
    requires VolInv(v, own, es) && ROOT_INO in v.refs && IsString(name)
    ensures r == Create(v, name, excl) && CreateContract(v, es, name, excl, r, es') && VolInv(r.v, own', es')
  {
    var s := FindKeeps(v, own, es, name);
    own', es' := own, es;
    if s.slot.Some? {
      r := if excl then Failed(v, EEXIST) else Done(Hold(v, s.ino), s.ino);
      CreateFound(v, es, name, excl, s, r);
      HoldStep(v, own, es, s.ino);
    } else if Full(v.fs) {
      r := Failed(v, ENOSPC);
      CreateFull(v, es, name, excl, s);
    } else {
      r, own', es' := CreateNew(v, own, es, name, excl, s);
    }
  }

  // ---------------------------------------------------------------------------------------------
  // sfs_remove

  /** A name of x is gone and discounted; nothing else changed, and no block was taken. */
  ghost predicate Cleared(v: Vol, v': Vol, x: nat)
  {
    && Shaped(v.fs) && Shaped(v'.fs) && x in v.fs.files && ContentsKept(v.fs, v'.fs, ROOT_INO) && FilesStay(v, v', x)
    && v'.fs.files[x].links == v.fs.files[x].links - 1 && v'.fs.used == v.fs.used && v'.fs.nblocks == v.fs.nblocks
  }

  lemma ClearedIs(v: Vol, own: map<nat, Owner>, fs1: Fs, v': Vol, x: nat)
    requires Shaped(v.fs) && Shaped(fs1) && Shaped(v'.fs) && x in v.fs.files && x != ROOT_INO && Fit(v.fs) && Fit(fs1)
    requires Elsewhere(v.fs, own, fs1, ROOT_INO) && fs1.used == v.fs.used && v'.fs.used == fs1.used
    requires v'.fs.nblocks == fs1.nblocks
    requires FilesStay(Touch(v, ROOT_INO, fs1), v', x) && ContentsKept(fs1, v'.fs, ROOT_INO)
    requires v'.fs.files[x].links == fs1.files[x].links - 1
    ensures Cleared(v, v', x)
  {
    ContentsElsewhere(v.fs, own, fs1, ROOT_INO);
    ContentsChain(v.fs, fs1, v'.fs, ROOT_INO);
  }

  /** A name of x is cleared and discounted. */
  lemma ClearName(v: Vol, own: map<nat, Owner>, es: seq<Entry>, x: nat, slot: nat)
    returns (w: WriteResult, v': Vol, es': seq<Entry>)
    requires VolInv(v, own, es) && ROOT_INO in v.refs && x in v.refs && slot < |es| && es[slot].Used?
    requires es[slot].ino == x
    ensures w == DirUnlink(v.fs, ROOT_INO, slot) && w.Wrote? && w.err == None && Fit(w.fs) && x in w.fs.files
    ensures x in v.fs.files && w.fs.files[x].links == v.fs.files[x].links > 0 && es' == es[slot := Free]
    ensures v' == Recount(Touch(v, ROOT_INO, w.fs), x, -1) && VolInv(v', own, es') && Cleared(v, v', x)
  {
    NamedFile(v.fs.files, es, slot, x);
    NothingOwed(v, own, es, ROOT_INO, x);
    w, es' := UnlinkStep(v, own, es, x, slot);
    var v1 := Touch(v, ROOT_INO, w.fs);
    v' := CatchUp(v1, own, es', x, -1);
    ClearedIs(v, own, w.fs, v', x);
  }

  /** What sfs_remove does: the name goes; the file goes with it, and with it all its blocks, if that
      was its last link and nobody holds it. */
  ghost predicate RemoveContract(v: Vol, own: map<nat, Owner>, es: seq<Entry>, name: seq<Byte>, r: Outcome,
                                 own': map<nat, Owner>, es': seq<Entry>)
  {
    && Shaped(v.fs)
    && if name !in Names(es) then r == Failed(v, ENOENT) && own' == own && es' == es
       else
         var ino := Names(es)[name];
         && r.Done? && r.ino == ino && Shaped(r.v.fs) && ino in v.fs.files && v.fs.files[ino].links > 0
         && Names(es') == Names(es) - {name} && r.v.refs == v.refs && ContentsKept(v.fs, r.v.fs, ino)
         && (forall k | k in v.fs.files && k != ino ::
                k in r.v.fs.files && r.v.fs.files[k].links == v.fs.files[k].links)
         && if v.fs.files[ino].links == 1 && ino !in v.refs then
              && r.v.fs.files.Keys == v.fs.files.Keys - {ino} && r.v.fs.used == v.fs.used - BlocksOf(own, ino)
              && own' == OthersOf(own, ino)
            else
              && r.v.fs.files.Keys == v.fs.files.Keys && r.v.fs.used == v.fs.used && own' == own
              && r.v.fs.files[ino].links == v.fs.files[ino].links - 1 && SameFile(v.fs, r.v.fs, ino)
  }

  lemma DroppedBack(refs: map<nat, nat>, ino: nat)
    requires forall k | k in refs :: refs[k] > 0
    ensures Dropped(refs[ino := (if ino in refs then refs[ino] else 0) + 1], ino) == refs
  {
  }

  /** What is alike whether the file goes or stays. */
  lemma RemovedOthers(v: Vol, own: map<nat, Owner>, ino: nat, v2: Vol, v3: Vol, own': map<nat, Owner>)
    requires Shaped(v.fs) && Shaped(v3.fs) && Cleared(Hold(v, ino), v2, ino) && ino in v2.refs
    requires Released(v2, own, ino, v3, own')
    ensures ContentsKept(v.fs, v3.fs, ino)
    ensures forall k | k in v.fs.files && k != ino :: k in v3.fs.files && v3.fs.files[k].links == v.fs.files[k].links
  {
    ReleasedContents(v2, own, ino, v3, own');
    RemovedContents(v.fs, v2.fs, v3.fs, ino);
  }

  lemma RemovedRefs(v: Vol, own: map<nat, Owner>, ino: nat, v2: Vol, v3: Vol, own': map<nat, Owner>)
    requires Shaped(v2.fs) && Shaped(v3.fs) && HeldOk(v) && v2.refs == Hold(v, ino).refs && ino in v2.fs.files
    requires Released(v2, own, ino, v3, own')
    ensures v3.refs == v.refs && (v2.refs[ino] == 1 <==> ino !in v.refs)
  {
    DroppedBack(v.refs, ino);
  }

  lemma RemovedStays(v: Vol, ino: nat, v2: Vol, v3: Vol)
    requires Shaped(v.fs) && Shaped(v3.fs) && Cleared(Hold(v, ino), v2, ino) && FilesKept(v2.fs, v3.fs)
    requires ino != ROOT_INO
    ensures SameFile(v.fs, v3.fs, ino)
  {
    ContentsFromBlocks(v2.fs, v3.fs, ROOT_INO);
    assert SameFile(v.fs, v2.fs, ino);
    assert SameFile(v2.fs, v3.fs, ino);
  }

  lemma RemovedIs(v: Vol, own: map<nat, Owner>, es: seq<Entry>, name: seq<Byte>, l: LookResult, v2: Vol, v3: Vol,
                  own': map<nat, Owner>, es': seq<Entry>)
    requires Shaped(v.fs) && Shaped(v3.fs) && HeldOk(v) && LookContract(v, es, name, l) && l.Look?
    requires Cleared(l.v, v2, l.ino)
    requires l.ino in v2.refs && l.ino in v2.fs.files && Released(v2, own, l.ino, v3, own')
    requires Names(es') == Names(es) - {name}
    ensures RemoveContract(v, own, es, name, Done(v3, l.ino), own', es')
  {
    var ino := l.ino;
    RemovedOthers(v, own, ino, v2, v3, own');
    RemovedRefs(v, own, ino, v2, v3, own');
    if v2.refs[ino] != 1 || v2.fs.files[ino].links != 0 {
      RemovedStays(v, ino, v2, v3);
    }
  }

  lemma RemovedContents(fs: Fs, fs2: Fs, fs3: Fs, ino: nat)
    requires Shaped(fs) && Shaped(fs2) && Shaped(fs3) && ContentsKept(fs, fs2, ROOT_INO) && ContentsKept(fs2, fs3, ino)
    ensures ContentsKept(fs, fs3, ino)
  {
    forall k | k in fs.files && k != ROOT_INO && k != ino ensures SameFile(fs, fs3, k) {
      assert SameFile(fs, fs2, k);
      assert SameFile(fs2, fs3, k);
    }
  }

  lemma RemoveIs(v: Vol, name: seq<Byte>, l: LookResult, w: WriteResult, v2: Vol, v3: Vol)
    requires Fit(v.fs) && l == LookOnce(v, name) && l.Look? && l.v.fs == v.fs && l.ino in v.fs.files
    requires w == DirUnlink(v.fs, ROOT_INO, l.slot) && w.Wrote? && w.err == None && Fit(w.fs) && l.ino in w.fs.files
    requires w.fs.files[l.ino].links > 0 && v2 == Recount(Touch(l.v, ROOT_INO, w.fs), l.ino, -1) && Shaped(v2.fs)
    requires Release(v2, l.ino) == Some(v3)
    ensures Remove(v, name) == Done(v3, l.ino)
  {
  }

  lemma RemoveNamed(v: Vol, own: map<nat, Owner>, es: seq<Entry>, name: seq<Byte>, l: LookResult)
    returns (r: Outcome, own': map<nat, Owner>, es': seq<Entry>)
    requires VolInv(v, own, es) && ROOT_INO in v.refs && l == LookOnce(v, name) && LookContract(v, es, name, l)
    requires l.Look?
    requires VolInv(l.v, own, es)
    ensures r == Remove(v, name) && !r.Panicked? && RemoveContract(v, own, es, name, r, own', es')
    ensures VolInv(r.v, own', es')
  {
    var w, v2;
    w, v2, es' := ClearName(l.v, own, es, l.ino, l.slot);
    NamesUnlinked(es, l.slot, name);
    var v3;
    v3, own' := ReleaseStep(v2, own, es', l.ino);
    RemovedIs(v, own, es, name, l, v2, v3, own', es');
    RemoveIs(v, name, l, w, v2, v3);
    r := Done(v3, l.ino);
  }

  /** sfs_remove: the name leaves the map and one leaves the link count; the last link of a file that
      nobody holds takes the file along and gives back exactly its blocks. */
  lemma RemoveKeeps(v: Vol, own: map<nat, Owner>, es: seq<Entry>, name: seq<Byte>)
    returns (r: Outcome, own': map<nat, Owner>, es': seq<Entry>)
    requires VolInv(v, own, es) && ROOT_INO in v.refs
    ensures r == Remove(v, name) && !r.Panicked? && RemoveContract(v, own, es, name, r, own', es')
    ensures VolInv(r.v, own', es')
  {
    var l := LookKeeps(v, own, es, name);
    if l.Look? {
      r, own', es' := RemoveNamed(v, own, es, name, l);
    } else {
      r, own', es' := Failed(v, ENOENT), own, es;
    }
  }

  // ---------------------------------------------------------------------------------------------
  // sfs_rename

  /** What sfs_rename does: the file changes its name, and nothing else happens to it. */
  ghost predicate RenameContract(v: Vol, es: seq<Entry>, from: seq<Byte>, to: seq<Byte>, r: Outcome, es': seq<Entry>)
  {
    && Shaped(v.fs) && !r.Panicked? && Shaped(r.v.fs) && ContentsKept(v.fs, r.v.fs, ROOT_INO)
    && r.v.refs == v.refs && r.v.fs.files.Keys == v.fs.files.Keys
    && (forall k | k in v.fs.files :: r.v.fs.files[k].links == v.fs.files[k].links)
    && if from !in Names(es) then r == Failed(v, ENOENT) && es' == es
       else if r.Failed? then es' == es && LinkFails(es, to, r.v.fs, r.err)
       else r.ino == Names(es)[from] && to !in Names(es) && Names(es') == (Names(es) - {from})[to := r.ino]
  }

  /** Links and references after letting go of x, which has links left. */
  lemma KeptOn(v: Vol, own: map<nat, Owner>, x: nat, v': Vol, own': map<nat, Owner>)
    requires Shaped(v.fs) && Shaped(v'.fs) && x in v.refs && x in v.fs.files && Released(v, own, x, v', own')
    requires v.fs.files[x].links > 0
    ensures ContentsKept(v.fs, v'.fs, ROOT_INO) && v'.refs == Dropped(v.refs, x) && v'.fs.files == v.fs.files
    ensures own' == own && Full(v'.fs) == Full(v.fs)
  {
    ContentsFromBlocks(v.fs, v'.fs, ROOT_INO);
  }

  lemma RefsAgain(v: Vol, ino: nat, refs: map<nat, nat>)
    requires HeldOk(v) && ino in Hold(v, ino).refs && refs == Dropped(Hold(v, ino).refs, ino)
    ensures refs == v.refs
  {
    DroppedBack(v.refs, ino);
  }

  lemma NotRenamed(v: Vol, es: seq<Entry>, from: seq<Byte>, to: seq<Byte>, l: LookResult, k: LinkResult, v2: Vol,
                   v3: Vol)
    requires Shaped(v.fs) && Shaped(v2.fs) && Shaped(v3.fs) && LookContract(v, es, from, l) && l.Look?
    requires k.NotLinked? && EnterContract(l.v, es, l.ino, to, k, v2, es) && ContentsKept(v.fs, v3.fs, ROOT_INO)
    requires v3.refs == v.refs && v3.fs.files == v2.fs.files && Full(v3.fs) == Full(v2.fs)
    ensures RenameContract(v, es, from, to, Failed(v3, k.err), es)
  {
  }

  lemma RenamedNames(es: seq<Entry>, from: seq<Byte>, slot: nat, ino: nat, to: seq<Byte>, slot': nat, es2: seq<Entry>,
                     es3: seq<Entry>)
    requires Unique(es) && slot < |es| && es[slot] == Used(ino, from) && !HasName(es, to) && slot' <= |es|
    requires Before(es, slot') == Free
    requires es2 == Written(es, slot', Used(ino, to)) && es3 == es2[slot := Free]
    ensures es2[slot] == Used(ino, from) && to !in Names(es) && Names(es3) == (Names(es) - {from})[to := ino]
  {
    LinkUnique(es, slot', ino, to);
    NamesLinked(es, slot', ino, to);
    NamesUnlinked(es2, slot, from);
    NamesMeans(es, to);
    assert to != from;
  }

  lemma RenamedIs(v: Vol, es: seq<Entry>, from: seq<Byte>, to: seq<Byte>, l: LookResult, k: LinkResult, v2: Vol,
                  es2: seq<Entry>, v3: Vol, es3: seq<Entry>, v4: Vol)
    requires Shaped(v.fs) && Shaped(v2.fs) && Shaped(v3.fs) && Shaped(v4.fs) && LookContract(v, es, from, l) && l.Look?
    requires k.Linked? && EnterContract(l.v, es, l.ino, to, k, v2, es2) && Cleared(v2, v3, l.ino)
    requires to !in Names(es) && Names(es3) == (Names(es) - {from})[to := l.ino]
    requires ContentsKept(v.fs, v4.fs, ROOT_INO) && v4.refs == v.refs && v4.fs.files == v3.fs.files
    ensures RenameContract(v, es, from, to, Done(v4, l.ino), es3)
  {
  }

  lemma RenameFails(v: Vol, from: seq<Byte>, to: seq<Byte>, l: LookResult, k: LinkResult, v2: Vol, v3: Vol)
    requires Fit(v.fs) && l == LookOnce(v, from) && l.Look? && l.v.fs == v.fs && l.ino in v.fs.files
    requires v.fs.files[l.ino].kind == TYPE_FILE
    requires l.ino < WORD_LIMIT && k == DirLink(v.fs, ROOT_INO, to, l.ino) && k.NotLinked? && Fit(k.fs)
    requires v2 == Touch(l.v, ROOT_INO, k.fs)
    requires Release(v2, l.ino) == Some(v3)
    ensures Rename(v, from, to) == Failed(v3, k.err)
  {
  }

  lemma RenameMoves(v: Vol, from: seq<Byte>, to: seq<Byte>, l: LookResult, k: LinkResult, v2: Vol, w: WriteResult,
                    v3: Vol, v4: Vol)
    requires Fit(v.fs) && l == LookOnce(v, from) && l.Look? && l.v.fs == v.fs && l.ino in v.fs.files
    requires v.fs.files[l.ino].kind == TYPE_FILE
    requires l.ino < WORD_LIMIT && k == DirLink(v.fs, ROOT_INO, to, l.ino) && k.Linked? && Fit(k.fs)
    requires l.ino in k.fs.files
    requires v2 == Recount(Touch(l.v, ROOT_INO, k.fs), l.ino, 1) && Fit(v2.fs)
    requires w == DirUnlink(v2.fs, ROOT_INO, l.slot) && w.Wrote? && w.err == None && Fit(w.fs) && l.ino in w.fs.files
    requires w.fs.files[l.ino].links > 0 && v3 == Recount(Touch(v2, ROOT_INO, w.fs), l.ino, -1) && Shaped(v3.fs)
    requires Release(v3, l.ino) == Some(v4)
    ensures Rename(v, from, to) == Done(v4, l.ino)
  {
  }

  /** The new name is entered: the old one goes, and cannot fail to go. */
  lemma RenameLinked(v: Vol, es: seq<Entry>, from: seq<Byte>, to: seq<Byte>, l: LookResult, k: LinkResult, v2: Vol,
                     own2: map<nat, Owner>, es2: seq<Entry>)
    returns (r: Outcome, own': map<nat, Owner>, es': seq<Entry>)
    requires Fit(v.fs) && HeldOk(v) && Unique(es) && ROOT_INO in v.refs && l == LookOnce(v, from)
    requires LookContract(v, es, from, l) && l.Look?
    requires l.ino < WORD_LIMIT && k == DirLink(v.fs, ROOT_INO, to, l.ino) && k.Linked? && Fit(k.fs)
    requires l.ino in k.fs.files
    requires v2 == Counted(l.v, l.ino, k) && VolInv(v2, own2, es2) && EnterContract(l.v, es, l.ino, to, k, v2, es2)
    ensures r == Rename(v, from, to) && RenameContract(v, es, from, to, r, es') && VolInv(r.v, own', es')
  {
    var ino := l.ino;
    RenamedNames(es, from, l.slot, ino, to, k.slot, es2, es2[l.slot := Free]);
    var w, v3;
    w, v3, es' := ClearName(v2, own2, es2, ino, l.slot);
    var v4;
    v4, own' := ReleaseStep(v3, own2, es', ino);
    KeptOn(v3, own2, ino, v4, own');
    RefsAgain(v, ino, v4.refs);
    ContentsChain(v.fs, v2.fs, v3.fs, ROOT_INO);
    ContentsChain(v.fs, v3.fs, v4.fs, ROOT_INO);
    RenamedIs(v, es, from, to, l, k, v2, es2, v3, es', v4);
    RenameMoves(v, from, to, l, k, v2, w, v3, v4);
    r := Done(v4, ino);
  }

  lemma RenameRefused(v: Vol, es: seq<Entry>, from: seq<Byte>, to: seq<Byte>, l: LookResult, k: LinkResult, v2: Vol,
                      own2: map<nat, Owner>)
    returns (r: Outcome)
    requires Fit(v.fs) && HeldOk(v) && l == LookOnce(v, from) && LookContract(v, es, from, l) && l.Look?
    requires l.ino < WORD_LIMIT && k == DirLink(v.fs, ROOT_INO, to, l.ino) && k.NotLinked? && Fit(k.fs)
    requires l.ino in k.fs.files
    requires v2 == Counted(l.v, l.ino, k) && VolInv(v2, own2, es) && EnterContract(l.v, es, l.ino, to, k, v2, es)
    ensures r == Rename(v, from, to) && RenameContract(v, es, from, to, r, es) && VolInv(r.v, own2, es)
  {
    var v3, own' := ReleaseStep(v2, own2, es, l.ino);
    KeptOn(v2, own2, l.ino, v3, own');
    RefsAgain(v, l.ino, v3.refs);
    ContentsChain(v.fs, v2.fs, v3.fs, ROOT_INO);
    NotRenamed(v, es, from, to, l, k, v2, v3);
    RenameFails(v, from, to, l, k, v2, v3);
    r := Failed(v3, k.err);
  }

  /** sfs_rename moves the file to the new name, or leaves the map and all link counts as they were;
      its recovery path, and the panic in it, are never reached. */
  lemma RenameKeeps(v: Vol, own: map<nat, Owner>, es: seq<Entry>, from: seq<Byte>, to: seq<Byte>)
    returns (r: Outcome, own': map<nat, Owner>, es': seq<Entry>)
    requires VolInv(v, own, es) && ROOT_INO in v.refs && IsString(to)
    ensures r == Rename(v, from, to) && RenameContract(v, es, from, to, r, es') && VolInv(r.v, own', es')
  {
    var l := LookKeeps(v, own, es, from);
    if l.Look? {
      var k, v2, own2, es2 := EnterName(l.v, own, es, l.ino, to);
      if k.Linked? {
        r, own', es' := RenameLinked(v, es, from, to, l, k, v2, own2, es2);
      } else {
        r := RenameRefused(v, es, from, to, l, k, v2, own2);
        own', es' := own2, es;
      }
    } else {
      r, own', es' := Failed(v, ENOENT), own, es;
    }
  }

  /** No link count exceeds the number of slots, so that no 16-bit count ever wraps. */
  lemma LinksBounded(v: Vol, own: map<nat, Owner>, es: seq<Entry>, k: nat)
    requires VolInv(v, own, es) && k in v.fs.files && k != ROOT_INO
    ensures v.fs.files[k].links == Count(es, k) <= MAX_SLOTS < HALF_LIMIT
    ensures Half(v.fs.files[k].links + 1) == v.fs.files[k].links + 1
  {
  }
}
