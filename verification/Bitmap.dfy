/** The fixed-size array of bits that keeps track of disk blocks. */
module Bitmap {

  const BITS: nat := 8

  function Mask(j: nat): bv8
    requires j < BITS
  {
    if j == 0 then 0x01 else if j == 1 then 0x02 else if j == 2 then 0x04 else if j == 3 then 0x08
    else if j == 4 then 0x10 else if j == 5 then 0x20 else if j == 6 then 0x40 else 0x80
  }

  predicate BitOf(w: bv8, j: nat)
    requires j < BITS
  {
    w & Mask(j) != 0
  }

  /** The bits of a byte string, numbered from the low end of each byte. */
  predicate IsMarked(v: seq<bv8>, i: nat)
  {
    i < |v| * BITS && BitOf(v[i / BITS], i % BITS)
  }

  lemma SetBit(w: bv8, j: nat, k: nat)
    requires j < BITS && k < BITS
    ensures BitOf(w | Mask(j), k) <==> k == j || BitOf(w, k)
  {
    MaskAlone(w, j, k);
  }

  lemma ClearBit(w: bv8, j: nat, k: nat)
    requires j < BITS && k < BITS
    ensures BitOf(w & !Mask(j), k) <==> k != j && BitOf(w, k)
  {
    MaskAlone(w, j, k);
  }

  lemma MaskAlone(w: bv8, j: nat, k: nat)
    requires j < BITS && k < BITS
    ensures (w | Mask(j)) & Mask(k) != 0 <==> k == j || w & Mask(k) != 0
    ensures (w & !Mask(j)) & Mask(k) != 0 <==> k != j && w & Mask(k) != 0
  {
  }

  lemma AllBits(w: bv8)
    ensures w == 0xff <==> forall j: nat | j < BITS :: BitOf(w, j)
  {
    if forall j: nat | j < BITS :: BitOf(w, j) {
      assert BitOf(w, 0) && BitOf(w, 1) && BitOf(w, 2) && BitOf(w, 3);
      assert BitOf(w, 4) && BitOf(w, 5) && BitOf(w, 6) && BitOf(w, 7);
    }
  }

  lemma MarkedAfterSet(v: seq<bv8>, ix: nat, j: nat, k: nat)
    requires ix < |v| && j < BITS
    ensures IsMarked(v[ix := v[ix] | Mask(j)], k) <==> k == ix * BITS + j || IsMarked(v, k)
  {
    var kx, kj := k / BITS, k % BITS;
    assert k == kx * BITS + kj;
    if kx == ix {
      SetBit(v[ix], j, kj);
    }
  }

  lemma MarkedAfterClear(v: seq<bv8>, ix: nat, j: nat, k: nat)
    requires ix < |v| && j < BITS
    ensures IsMarked(v[ix := v[ix] & !Mask(j)], k) <==> k != ix * BITS + j && IsMarked(v, k)
  {
    var kx, kj := k / BITS, k % BITS;
    assert k == kx * BITS + kj;
    if kx == ix {
      ClearBit(v[ix], j, kj);
    }
  }

  class Bitmap {
    const nbits: nat
    const v: array<bv8>

    /** The bits past the end are set, so that no search finds them. */
    ghost predicate Valid()
      reads this, v
    {
      && v.Length == (nbits + BITS - 1) / BITS
      && forall i: nat | nbits <= i < v.Length * BITS :: IsMarked(v[..], i)
    }

    ghost function Contents(): set<nat>
      reads this, v
    {
      set i: nat | i < nbits && IsMarked(v[..], i)
    }

    constructor (n: nat)
      ensures Valid() && fresh(v) && nbits == n && Contents() == {}
    {
      nbits := n;
      var words := (n + BITS - 1) / BITS;
      v := new bv8[words](_ => 0);
      new;
      if words > n / BITS {
        var ix := words - 1;
        var j := n - ix * BITS;
        while j < BITS
          invariant 0 < n - ix * BITS <= j <= BITS
          invariant forall i: nat :: IsMarked(v[..], i) <==> n <= i < ix * BITS + j
        {
          ghost var before := v[..];
          v[ix] := v[ix] | Mask(j);
          assert v[..] == before[ix := before[ix] | Mask(j)];
          forall i: nat ensures IsMarked(v[..], i) <==> n <= i < ix * BITS + j + 1 {
            MarkedAfterSet(before, ix, j, i);
          }
          j := j + 1;
        }
      }
    }

    /** The least clear bit. */
    method Alloc() returns (ok: bool, index: nat)
      requires Valid()
      modifies v
      ensures Valid()
      ensures !ok <==> forall i: nat | i < nbits :: i in old(Contents())
      ensures ok ==> index < nbits && index !in old(Contents()) && Contents() == old(Contents()) + {index}
      ensures ok ==> forall i: nat | i < index :: i in old(Contents())
      ensures !ok ==> Contents() == old(Contents())
    {
      var maxix := (nbits + BITS - 1) / BITS;
      for ix := 0 to maxix
        invariant v[..] == old(v[..])
        invariant forall i: nat | i < ix * BITS :: IsMarked(v[..], i)
      {
        AllBits(v[ix]);
        if v[ix] != 0xff {
          var offset := 0;
          while BitOf(v[ix], offset)
            invariant offset < BITS
            invariant forall j: nat | j < offset :: BitOf(v[ix], j)
            invariant exists j: nat :: j < BITS && !BitOf(v[ix], j)
            decreases BITS - offset
          {
            offset := offset + 1;
          }
          index := ix * BITS + offset;
          assert index / BITS == ix && index % BITS == offset;
          assert !IsMarked(v[..], index);
          forall i: nat | i < index ensures IsMarked(v[..], i) {
            if i >= ix * BITS {
              assert i / BITS == ix && BitOf(v[ix], i % BITS);
            }
          }
          assert index < nbits && index !in Contents();
          SetAt(index);
          assert index !in old(Contents());
          ok := true;
          return;
        }
        assert forall i: nat | i < (ix + 1) * BITS && i >= ix * BITS :: i / BITS == ix && BitOf(v[ix], i % BITS);
      }
      ok, index := false, 0;
    }

    /** v[index / 8] |= 1 << index % 8. */
    method SetAt(index: nat)
      requires Valid() && index < nbits
      modifies v
      ensures Valid() && Contents() == old(Contents()) + {index}
    {
      ghost var before := v[..];
      var ix, offset := index / BITS, index % BITS;
      v[ix] := v[ix] | Mask(offset);
      assert v[..] == before[ix := before[ix] | Mask(offset)];
      forall k: nat ensures IsMarked(v[..], k) <==> k == index || IsMarked(before, k) {
        MarkedAfterSet(before, ix, offset, k);
      }
    }

    method Mark(index: nat)
      requires Valid() && index < nbits && index !in Contents()
      modifies v
      ensures Valid() && Contents() == old(Contents()) + {index}
    {
      SetAt(index);
    }

    method Unmark(index: nat)
      requires Valid() && index < nbits && index in Contents()
      modifies v
      ensures Valid() && Contents() == old(Contents()) - {index}
    {
      ghost var before := v[..];
      var ix, offset := index / BITS, index % BITS;
      v[ix] := v[ix] & !Mask(offset);
      assert v[..] == before[ix := before[ix] & !Mask(offset)];
      forall k: nat ensures IsMarked(v[..], k) <==> k != index && IsMarked(before, k) {
        MarkedAfterClear(before, ix, offset, k);
      }
    }

    method IsSet(index: nat) returns (r: bool)
      requires Valid() && index < nbits
      ensures r <==> index in Contents()
    {
      r := v[index / BITS] & Mask(index % BITS) != 0;
    }
  }
}
