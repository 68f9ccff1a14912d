/** The pool of page records of the kernel heap: sixteen pages of 256 records, each page with a
    bitmap of eight words that says which records are in use. Record n is bit n % 32 of word n / 32. */
module PageRefs {

  const ROOTS: nat := 16
  const WORDS: nat := 8
  const BITS: nat := 32
  const PER_PAGE: nat := 256
  const TOTAL: nat := 4096

  // ---------------------------------------------------------------------------------------------
  // Bits of a word

  predicate Has(w: bv32, b: bv6)
    requires b < 32
  {
    w & ((1 as bv32) << b) != 0
  }

  function With(w: bv32, b: bv6): bv32
    requires b < 32
  {
    w | ((1 as bv32) << b)
  }

  function Without(w: bv32, b: bv6): bv32
    requires b < 32
  {
    w & !((1 as bv32) << b)
  }

  lemma SetHas(w: bv32, b: bv6, c: bv6)
    requires b < 32 && c < 32
    ensures Has(With(w, b), c) <==> c == b || Has(w, c)
  {
    OrOneBit(w, b, c);
  }

  lemma OrOneBit(w: bv32, b: bv6, c: bv6)
    requires b < 32 && c < 32
    ensures Has(w | ((1 as bv32) << b), c) <==> c == b || Has(w, c)
  {
  }

  lemma AndNotOneBit(w: bv32, b: bv6, c: bv6)
    requires b < 32 && c < 32
    ensures Has(w & !((1 as bv32) << b), c) <==> c != b && Has(w, c)
  {
  }

  lemma ClearHas(w: bv32, b: bv6, c: bv6)
    requires b < 32 && c < 32
    ensures Has(Without(w, b), c) <==> c != b && Has(w, c)
  {
    AndNotOneBit(w, b, c);
  }

  lemma ClearHasUndone(w: bv32, b: bv6)
    requires b < 32 && !Has(w, b)
    ensures Without(With(w, b), b) == w
  {
  }

  lemma AllHas(w: bv32)
    ensures w == 0xffff_ffff <==> forall b: bv6 | b < 32 :: Has(w, b)
  {
    if forall b: bv6 | b < 32 :: Has(w, b) {
      assert Has(w, 0) && Has(w, 1) && Has(w, 2) && Has(w, 3) && Has(w, 4) && Has(w, 5) && Has(w, 6) && Has(w, 7);
      assert Has(w, 8) && Has(w, 9) && Has(w, 10) && Has(w, 11) && Has(w, 12) && Has(w, 13) && Has(w, 14) && Has(w, 15);
      assert Has(w, 16) && Has(w, 17) && Has(w, 18) && Has(w, 19) && Has(w, 20) && Has(w, 21) && Has(w, 22);
      assert Has(w, 23);
      assert Has(w, 24) && Has(w, 25) && Has(w, 26) && Has(w, 27) && Has(w, 28) && Has(w, 29) && Has(w, 30);
      assert Has(w, 31);
    }
  }

  function Index(j: nat): (b: bv6)
    requires j < BITS
    ensures b < 32
  {
    j as bv6
  }

  lemma IndexInverse(j: nat)
    requires j < BITS
    ensures Index(j) as nat == j
  {
  }

  predicate BitAt(w: bv32, j: nat)
    requires j < BITS
  {
    Has(w, Index(j))
  }

  lemma IndexInjective(j: nat, k: nat)
    requires j < BITS && k < BITS
    ensures Index(j) == Index(k) <==> j == k
  {
    IndexInverse(j);
    IndexInverse(k);
  }

  lemma SetBit(w: bv32, j: nat, k: nat)
    requires j < BITS && k < BITS
    ensures BitAt(With(w, Index(j)), k) <==> k == j || BitAt(w, k)
  {
    IndexInjective(j, k);
    SetHas(w, Index(j), Index(k));
  }

  lemma ClearBit(w: bv32, j: nat, k: nat)
    requires j < BITS && k < BITS
    ensures BitAt(Without(w, Index(j)), k) <==> k != j && BitAt(w, k)
  {
    IndexInjective(j, k);
    ClearHas(w, Index(j), Index(k));
  }

  lemma AllBits(w: bv32)
    ensures w == 0xffff_ffff <==> forall j: nat | j < BITS :: BitAt(w, j)
  {
    AllHas(w);
    if forall j: nat | j < BITS :: BitAt(w, j) {
      forall b: bv6 | b < 32 ensures Has(w, b) {
        IndexSurjective(b);
        assert BitAt(w, b as nat);
      }
    }
  }

  lemma IndexSurjective(b: bv6)
    requires b < 32
    ensures (b as nat) < BITS && Index(b as nat) == b
  {
  }

  // ---------------------------------------------------------------------------------------------
  // Records in use

  predicate IsUsed(v: seq<bv32>, id: nat)
  {
    id < |v| * BITS && BitAt(v[id / BITS], id % BITS)
  }

  function SetId(v: seq<bv32>, ix: nat, b: bv6): seq<bv32>
    requires ix < |v| && b < 32
  {
    v[ix := With(v[ix], b)]
  }

  function ClearId(v: seq<bv32>, ix: nat, b: bv6): seq<bv32>
    requires ix < |v| && b < 32
  {
    v[ix := Without(v[ix], b)]
  }

  function IdOf(ix: nat, b: bv6): nat { ix * BITS + b as nat }

  lemma UsedAfterSet(v: seq<bv32>, ix: nat, b: bv6, k: nat)
    requires ix < |v| && b < 32
    ensures IsUsed(SetId(v, ix, b), k) <==> k == IdOf(ix, b) || IsUsed(v, k)
  {
    var kx, kj := k / BITS, k % BITS;
    assert k == kx * BITS + kj;
    IndexSurjective(b);
    if kx == ix {
      SetBit(v[ix], b as nat, kj);
    }
  }

  lemma UsedAfterClear(v: seq<bv32>, ix: nat, b: bv6, k: nat)
    requires ix < |v| && b < 32
    ensures IsUsed(ClearId(v, ix, b), k) <==> k != IdOf(ix, b) && IsUsed(v, k)
  {
    var kx, kj := k / BITS, k % BITS;
    assert k == kx * BITS + kj;
    IndexSurjective(b);
    if kx == ix {
      ClearBit(v[ix], b as nat, kj);
    }
  }

  lemma UsedWord(v: seq<bv32>, ix: nat, b: bv6)
    requires ix < |v| && b < 32
    ensures IsUsed(v, IdOf(ix, b)) <==> Has(v[ix], b)
  {
    IndexSurjective(b);
    var id := IdOf(ix, b);
    assert id / BITS == ix && id % BITS == b as nat;
  }

  /** Clearing the bit of a record that was free gives back the very same words. */
  lemma ClearUndoesSet(v: seq<bv32>, ix: nat, b: bv6)
    requires ix < |v| && b < 32 && !IsUsed(v, IdOf(ix, b))
    ensures ClearId(SetId(v, ix, b), ix, b) == v
  {
    UsedWord(v, ix, b);
    ClearHasUndone(v[ix], b);
  }

  /** The number of records in use among n from lo on. */
  function Count(v: seq<bv32>, lo: nat, n: nat): (c: nat)
    ensures c <= n
  {
    if n == 0 then 0
    else
      var last := lo + n - 1;
      Count(v, lo, n - 1) + if IsUsed(v, last) then 1 else 0
  }

  lemma {:induction false} CountFull(v: seq<bv32>, lo: nat, n: nat)
    ensures Count(v, lo, n) == n <==> forall id | lo <= id < lo + n :: IsUsed(v, id)
  {
    if n > 0 {
      CountFull(v, lo, n - 1);
      if Count(v, lo, n) == n {
        assert Count(v, lo, n - 1) == n - 1;
      }
    }
  }

  /** One more record in use adds one to the count of its range and nothing elsewhere. */
  lemma {:induction false} CountAfterSet(v: seq<bv32>, v': seq<bv32>, id: nat, lo: nat, n: nat)
    requires !IsUsed(v, id) && forall k: nat :: IsUsed(v', k) <==> k == id || IsUsed(v, k)
    ensures Count(v', lo, n) == Count(v, lo, n) + if lo <= id < lo + n then 1 else 0
  {
    if n > 0 {
      CountAfterSet(v, v', id, lo, n - 1);
    }
  }

  /** The first record not in use, from i on. */
  function FirstFree(v: seq<bv32>, i: nat): (m: nat)
    requires i <= |v| * BITS
    ensures i <= m <= |v| * BITS
    ensures forall k | i <= k < m :: IsUsed(v, k)
    ensures m < |v| * BITS ==> !IsUsed(v, m)
    decreases |v| * BITS - i
  {
    if i == |v| * BITS || !IsUsed(v, i) then i else FirstFree(v, i + 1)
  }

  lemma FirstFreeIs(v: seq<bv32>, m: nat)
    requires m < |v| * BITS && !IsUsed(v, m) && forall k | 0 <= k < m :: IsUsed(v, k)
    ensures FirstFree(v, 0) == m
  {
  }

  /** All bits below b are set. */
  ghost predicate SetBelow(w: bv32, b: bv6)
  {
    forall c: bv6 | c < b && c < 32 :: Has(w, c)
  }

  lemma BelowNext(w: bv32, b: bv6)
    requires b < 32 && SetBelow(w, b) && Has(w, b)
    ensures SetBelow(w, b + 1)
  {
    forall c: bv6 | c < b + 1 && c < 32 ensures Has(w, c) {
      assert c < b || c == b;
    }
  }

  lemma NextNumber(b: bv6)
    requires b < 32
    ensures (b + 1) as nat == (b as nat) + 1
  {
  }

  lemma ShiftMask(b: bv6)
    requires b < 32
    ensures (1 as bv32) << b != 0 && ((1 as bv32) << b) << 1 == (1 as bv32) << (b + 1)
  {
  }

  lemma PastTheEnd(w: bv32, k: bv32, b: bv6)
    requires b <= 32 && k == (1 as bv32) << b && k == 0 && SetBelow(w, b)
    ensures w == 0xffff_ffff
  {
    assert b == 32;
    AllHas(w);
  }

  /** Facts for one turn of the search loop. */
  lemma Turn(w: bv32, k: bv32, b: bv6)
    requires b <= 32 && k == (1 as bv32) << b && k != 0 && SetBelow(w, b)
    ensures b < 32 && (b + 1) as nat == (b as nat) + 1 && k << 1 == (1 as bv32) << (b + 1)
    ensures if w & k == 0 then !Has(w, b) else SetBelow(w, b + 1)
  {
    assert b < 32;
    NextNumber(b);
    ShiftMask(b);
    if w & k != 0 {
      BelowNext(w, b);
    }
  }

  /** The first clear bit of a word that is not all ones, going through the masks by k <<= 1. */
  method FirstClear(w: bv32) returns (k: bv32, b: bv6)
    requires w != 0xffff_ffff
    ensures b < 32 && k == (1 as bv32) << b && !Has(w, b) && SetBelow(w, b)
  {
    k, b := 1, 0;
    while k != 0
      invariant b <= 32 && k == (1 as bv32) << b && SetBelow(w, b)
      decreases 32 - b as nat
    {
      Turn(w, k, b);
      if w & k == 0 {
        return;
      }
      k, b := k << 1, b + 1;
    }
    PastTheEnd(w, k, b);
  }

  // ---------------------------------------------------------------------------------------------

  class Roots {
    const inuse: array<bv32>
    const numinuse: array<nat>
    const pages: array<nat>    // the record page of each root, 0 for none

    ghost predicate Valid()
      reads this, inuse, numinuse, pages
    {
      && inuse.Length == ROOTS * WORDS && numinuse.Length == ROOTS && pages.Length == ROOTS
      && numinuse != pages
      && forall r | 0 <= r < ROOTS :: numinuse[r] == Count(inuse[..], r * PER_PAGE, PER_PAGE)
    }

    ghost function Used(): set<nat>
      reads this, inuse
    {
      UsedSet(inuse[..])
    }

    /** No record counts as used on a root that has no page: true until a page cannot be got. */
    ghost predicate NoLeak()
      requires Valid()
      reads this, inuse, numinuse, pages
    {
      forall r | 0 <= r < ROOTS && pages[r] == 0 :: numinuse[r] == 0
    }

    constructor ()
      ensures Valid() && NoLeak() && Used() == {} && fresh(inuse) && fresh(numinuse) && fresh(pages)
      ensures forall r | 0 <= r < ROOTS :: pages[r] == 0
    {
      inuse := new bv32[ROOTS * WORDS](_ => 0);
      numinuse := new nat[ROOTS](_ => 0);
      pages := new nat[ROOTS](_ => 0);
      new;
      forall r | 0 <= r < ROOTS ensures Count(inuse[..], r * PER_PAGE, PER_PAGE) == 0 {
        NoneUsed(inuse[..], r * PER_PAGE, PER_PAGE);
      }
    }

    /** Set the bit of a free record and count it. */
    method Take(root: nat, ix: nat, k: bv32, ghost b: bv6)
      requires Valid() && root < ROOTS && ix < inuse.Length && ix / WORDS == root
      requires b < 32 && k == (1 as bv32) << b && !Has(inuse[ix], b)
      modifies inuse, numinuse
      ensures Valid() && inuse[..] == SetId(old(inuse[..]), ix, b)
      ensures forall r | 0 <= r < ROOTS :: numinuse[r] == old(numinuse[r]) + if r == root then 1 else 0
    {
      ghost var before, id := inuse[..], IdOf(ix, b);
      inuse[ix] := inuse[ix] | k;
      numinuse[root] := numinuse[root] + 1;
      assert inuse[..] == SetId(before, ix, b);
      CountsAfterTake(before, ix, b, root);
    }

    /** Clear the bit of a record in use and count it out. */
    method Release(root: nat, ix: nat, k: bv32, ghost b: bv6)
      requires Valid() && root < ROOTS && ix < inuse.Length && ix / WORDS == root
      requires b < 32 && k == (1 as bv32) << b && Has(inuse[ix], b)
      modifies inuse, numinuse
      ensures Valid() && inuse[..] == ClearId(old(inuse[..]), ix, b)
      ensures forall r | 0 <= r < ROOTS && r != root :: numinuse[r] == old(numinuse[r])
    {
      ghost var before := inuse[..];
      CountsAfterRelease(before, ix, b, root);
      inuse[ix] := inuse[ix] & !k;
      numinuse[root] := numinuse[root] - 1;
      assert inuse[..] == ClearId(before, ix, b);
    }

    /** The word and mask of the first free record of a root that is not full. */
    method SearchRoot(root: nat) returns (ix: nat, k: bv32, b: bv6)
      requires Valid() && root < ROOTS && numinuse[root] < PER_PAGE
      requires forall id | 0 <= id < root * PER_PAGE :: IsUsed(inuse[..], id)
      ensures ix < inuse.Length && ix / WORDS == root && b < 32 && k == (1 as bv32) << b && !Has(inuse[ix], b)
      ensures FirstFree(inuse[..], 0) == IdOf(ix, b) < inuse.Length * BITS
    {
      ghost var v := inuse[..];
      for i := 0 to WORDS
        invariant forall id | 0 <= id < (root * WORDS + i) * BITS :: IsUsed(v, id)
      {
        ix := root * WORDS + i;
        if inuse[ix] == 0xffff_ffff {
          FullWord(v, ix);
          continue;
        }
        k, b := FirstClear(inuse[ix]);
        WordSearched(v, ix, b);
        return;
      }
      CountFull(v, root * PER_PAGE, PER_PAGE);
      assert false;
    }

    /** The first free record of a root, with a page for the root if it has none. */
    method TakeOn(root: nat, va: nat) returns (id: int, took: bool)
      requires Valid() && root < ROOTS && numinuse[root] < PER_PAGE
      requires forall id | 0 <= id < root * PER_PAGE :: IsUsed(inuse[..], id)
      modifies inuse, numinuse, pages
      ensures Valid() && (took <==> old(pages[root]) == 0 && va != 0)
      ensures var m := FirstFree(old(inuse[..]), 0);
              && m < TOTAL && m / PER_PAGE == root && Used() == old(Used()) + {m}
              && pages[..] == (if took then old(pages[..])[root := va] else old(pages[..]))
              && id == if pages[root] == 0 then -1 else m
      ensures forall r | 0 <= r < ROOTS :: numinuse[r] == old(numinuse[r]) + if r == root then 1 else 0
    {
      ghost var v := inuse[..];
      var ix, k, b := SearchRoot(root);
      Take(root, ix, k, b);
      UsedSetAfter(v, ix, b);
      took := pages[root] == 0 && va != 0;
      if took {
        pages[root] := va;
      }
      id := if pages[root] == 0 then -1 else ix * BITS + b as nat;
    }

    /** allocpageref, where va is what alloc_kpages gives if a root needs its page (0 for nothing).
        A record taken on a root whose page cannot be got stays marked. */
    method AllocRef(va: nat) returns (id: int, took: bool)
      requires Valid()
      modifies inuse, numinuse, pages
      ensures Valid()
      ensures var m := FirstFree(old(inuse[..]), 0);
              if m == TOTAL then id == -1 && !took && Used() == old(Used()) && pages[..] == old(pages[..])
              else
                && Used() == old(Used()) + {m}
                && (took <==> old(pages[m / PER_PAGE]) == 0 && va != 0)
                && pages[..] == (if took then old(pages[..])[m / PER_PAGE := va] else old(pages[..]))
                && id == if pages[m / PER_PAGE] == 0 then -1 else m
      ensures var m := FirstFree(old(inuse[..]), 0);
              old(NoLeak()) ==> (NoLeak() <==> !(m < TOTAL && old(pages[m / PER_PAGE]) == 0 && va == 0))
    {
      ghost var v := inuse[..];
      took := false;
      for root := 0 to ROOTS
        invariant inuse[..] == v && Valid() && pages[..] == old(pages[..])
        invariant forall k | 0 <= k < root * PER_PAGE :: IsUsed(v, k)
      {
        if numinuse[root] >= PER_PAGE {
          CountFull(v, root * PER_PAGE, PER_PAGE);
          continue;
        }
        id, took := TakeOn(root, va);
        return;
      }
      id := -1;
    }

    /** No root before this one lacks a page and has a record in use. */
    ghost predicate ClearUpTo(root: nat)
      requires Valid() && root < ROOTS
      reads this, inuse, numinuse, pages
    {
      forall r | 0 <= r < root && pages[r] == 0 :: numinuse[r] == 0
    }

    /** freepageref. */
    method FreeRef(id: nat) returns (ok: bool)
      requires Valid() && id in Used() && id / PER_PAGE < ROOTS && pages[id / PER_PAGE] != 0
      modifies inuse, numinuse
      ensures Valid() && (ok <==> old(ClearUpTo(id / PER_PAGE))) && (old(NoLeak()) ==> ok && NoLeak())
      ensures Used() == if ok then old(Used()) - {id} else old(Used())
    {
      ghost var v := inuse[..];
      for root := 0 to ROOTS
        invariant inuse[..] == v && numinuse[..] == old(numinuse[..]) && Valid()
        invariant root <= id / PER_PAGE && forall r | 0 <= r < root && pages[r] == 0 :: numinuse[r] == 0
      {
        if pages[root] == 0 {
          if numinuse[root] != 0 {
            return false;
          }
          continue;
        }
        var j := id - root * PER_PAGE;
        if j < PER_PAGE {
          var i, b := j / BITS, (j % BITS) as bv6;
          var ix := root * WORDS + i;
          IndexInverse(j % BITS);
          assert id == IdOf(ix, b);
          UsedWord(v, ix, b);
          Release(root, ix, (1 as bv32) << b, b);
          UsedSetWithout(v, ix, b);
          return true;
        }
      }
      assert false;
    }
  }

  lemma FullWord(v: seq<bv32>, ix: nat)
    requires ix < |v| && v[ix] == 0xffff_ffff
    ensures forall k | ix * BITS <= k < ix * BITS + BITS :: IsUsed(v, k)
  {
    AllBits(v[ix]);
    forall k | ix * BITS <= k < ix * BITS + BITS ensures IsUsed(v, k) {
      var j := k - ix * BITS;
      assert k / BITS == ix && k % BITS == j;
      assert BitAt(v[ix], j);
    }
  }

  lemma IndexLess(j: nat, b: bv6)
    requires j < BITS && j < b as nat && b < 32
    ensures Index(j) < b
  {
    IndexInverse(j);
  }

  /** The bit found is the first free record, when all words before are full. */
  lemma WordSearched(v: seq<bv32>, ix: nat, b: bv6)
    requires ix < |v| && b < 32 && !Has(v[ix], b) && SetBelow(v[ix], b)
    requires forall k | 0 <= k < ix * BITS :: IsUsed(v, k)
    ensures FirstFree(v, 0) == IdOf(ix, b) < |v| * BITS
  {
    UsedWord(v, ix, b);
    IndexSurjective(b);
    var m := IdOf(ix, b);
    forall k | 0 <= k < m ensures IsUsed(v, k) {
      if k >= ix * BITS {
        var j := k - ix * BITS;
        assert k / BITS == ix && k % BITS == j;
        IndexLess(j, b);
      }
    }
    FirstFreeIs(v, m);
  }

  ghost function UsedSet(v: seq<bv32>): set<nat>
  {
    set id: nat | id < |v| * BITS && IsUsed(v, id)
  }

  lemma UsedSetAfter(v: seq<bv32>, ix: nat, b: bv6)
    requires ix < |v| && b < 32
    ensures UsedSet(SetId(v, ix, b)) == UsedSet(v) + {IdOf(ix, b)}
  {
    IndexSurjective(b);
    forall k: nat ensures IsUsed(SetId(v, ix, b), k) <==> k == IdOf(ix, b) || IsUsed(v, k) {
      UsedAfterSet(v, ix, b, k);
    }
  }

  lemma UsedSetWithout(v: seq<bv32>, ix: nat, b: bv6)
    requires ix < |v| && b < 32
    ensures UsedSet(ClearId(v, ix, b)) == UsedSet(v) - {IdOf(ix, b)}
  {
    forall k: nat ensures IsUsed(ClearId(v, ix, b), k) <==> k != IdOf(ix, b) && IsUsed(v, k) {
      UsedAfterClear(v, ix, b, k);
    }
  }

  lemma CountsAfterTake(v: seq<bv32>, ix: nat, b: bv6, root: nat)
    requires |v| == ROOTS * WORDS && ix < |v| && b < 32 && !Has(v[ix], b) && root == ix / WORDS
    ensures forall r | 0 <= r < ROOTS ::
              Count(SetId(v, ix, b), r * PER_PAGE, PER_PAGE)
              == Count(v, r * PER_PAGE, PER_PAGE) + if r == root then 1 else 0
  {
    UsedWord(v, ix, b);
    IndexSurjective(b);
    var id := IdOf(ix, b);
    forall k: nat ensures IsUsed(SetId(v, ix, b), k) <==> k == id || IsUsed(v, k) {
      UsedAfterSet(v, ix, b, k);
    }
    forall r | 0 <= r < ROOTS
      ensures Count(SetId(v, ix, b), r * PER_PAGE, PER_PAGE)
              == Count(v, r * PER_PAGE, PER_PAGE) + if r == root then 1 else 0
    {
      CountAfterSet(v, SetId(v, ix, b), id, r * PER_PAGE, PER_PAGE);
    }
  }

  lemma CountsAfterRelease(v: seq<bv32>, ix: nat, b: bv6, root: nat)
    requires |v| == ROOTS * WORDS && ix < |v| && b < 32 && Has(v[ix], b) && root == ix / WORDS
    ensures forall r | 0 <= r < ROOTS ::
              Count(ClearId(v, ix, b), r * PER_PAGE, PER_PAGE)
              == Count(v, r * PER_PAGE, PER_PAGE) - if r == root then 1 else 0
  {
    UsedWord(v, ix, b);
    IndexSurjective(b);
    var id := IdOf(ix, b);
    forall k: nat ensures IsUsed(ClearId(v, ix, b), k) <==> k != id && IsUsed(v, k) {
      UsedAfterClear(v, ix, b, k);
    }
    forall r | 0 <= r < ROOTS
      ensures Count(ClearId(v, ix, b), r * PER_PAGE, PER_PAGE)
              == Count(v, r * PER_PAGE, PER_PAGE) - if r == root then 1 else 0
    {
      CountAfterSet(ClearId(v, ix, b), v, id, r * PER_PAGE, PER_PAGE);
    }
  }

  lemma {:induction false} NoneCounted(v: seq<bv32>, lo: nat, n: nat, id: nat)
    requires Count(v, lo, n) == 0 && IsUsed(v, id)
    ensures !(lo <= id < lo + n)
  {
    if n > 0 {
      NoneCounted(v, lo, n - 1, id);
    }
  }

  lemma {:induction false} NoneUsed(v: seq<bv32>, lo: nat, n: nat)
    requires forall k | lo <= k < lo + n :: !IsUsed(v, k)
    ensures Count(v, lo, n) == 0
  {
    if n > 0 {
      NoneUsed(v, lo, n - 1);
    }
  }
}
