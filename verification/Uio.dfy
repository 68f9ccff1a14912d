/** Moving bytes between a kernel buffer and the buffers of a request, which are ranges of memory. */
module Uio {
  import opened SfsDisk

  datatype Iovec = Iovec(base: nat, len: nat)

  function Range(base: nat, len: nat): (s: seq<nat>)
    ensures |s| == len && forall i | 0 <= i < len :: s[i] == base + i
  {
    if len == 0 then [] else Range(base, len - 1) + [base + len - 1]
  }

  /** The addresses of a request's buffers, in order. */
  function Addresses(iov: seq<Iovec>): seq<nat>
  {
    if iov == [] then [] else Range(iov[0].base, iov[0].len) + Addresses(iov[1..])
  }

  /** The bytes at some addresses. */
  function Load(mem: seq<Byte>, at: seq<nat>): (s: seq<Byte>)
    requires forall i | 0 <= i < |at| :: at[i] < |mem|
    ensures |s| == |at| && forall i | 0 <= i < |at| :: s[i] == mem[at[i]]
  {
    seq<Byte>(|at|, i requires 0 <= i < |at| && at[i] < |mem| => mem[at[i]])
  }

  /** Memory after bytes are stored at some addresses, one after the other. */
  function Store(mem: seq<Byte>, at: seq<nat>, data: seq<Byte>): (m: seq<Byte>)
    requires |at| == |data| && forall i | 0 <= i < |at| :: at[i] < |mem|
    ensures |m| == |mem|
    decreases |at|
  {
    if at == [] then mem else Store(mem[at[0] := data[0]], at[1..], data[1..])
  }

  /** A buffer with data put at start. */
  function Put(buf: seq<Byte>, start: nat, data: seq<Byte>): (b: seq<Byte>)
    requires start + |data| <= |buf|
    ensures |b| == |buf|
  {
    buf[..start] + data + buf[start + |data|..]
  }

  predicate Distinct(at: seq<nat>)
  {
    forall i, j | 0 <= i < j < |at| :: at[i] != at[j]
  }

  /** What is stored at distinct addresses can be loaded again; nothing else changes. */
  lemma {:induction false} StoreLoads(mem: seq<Byte>, at: seq<nat>, data: seq<Byte>, a: nat)
    requires |at| == |data| && (forall i | 0 <= i < |at| :: at[i] < |mem|) && Distinct(at) && a < |mem|
    ensures forall i | 0 <= i < |at| && at[i] == a :: Store(mem, at, data)[a] == data[i]
    ensures a !in at ==> Store(mem, at, data)[a] == mem[a]
    decreases |at|
  {
    if at != [] {
      StoreLoads(mem[at[0] := data[0]], at[1..], data[1..], a);
      forall i | 0 <= i < |at| && at[i] == a ensures Store(mem, at, data)[a] == data[i] {
        if i > 0 {
          assert at[1..][i - 1] == a;
        } else {
          assert a !in at[1..];
        }
      }
    }
  }

  lemma {:induction false} StoreMore(mem: seq<Byte>, at: seq<nat>, data: seq<Byte>, a: nat, b: Byte)
    requires |at| == |data| && (forall i | 0 <= i < |at| :: at[i] < |mem|) && a < |mem|
    ensures Store(mem, at + [a], data + [b]) == Store(mem, at, data)[a := b]
    decreases |at|
  {
    if at == [] {
      assert at + [a] == [a] && data + [b] == [b];
      assert Store(mem, [a], [b]) == Store(mem[a := b], [], []);
    } else {
      assert (at + [a])[1..] == at[1..] + [a] && (data + [b])[1..] == data[1..] + [b];
      StoreMore(mem[at[0] := data[0]], at[1..], data[1..], a, b);
    }
  }

  lemma PutMore(buf: seq<Byte>, start: nat, data: seq<Byte>, k: nat, b: Byte)
    requires start + |data| < |buf| && k == start + |data|
    ensures Put(buf, start, data)[k := b] == Put(buf, start, data + [b])
  {
  }

  lemma PutChain(buf: seq<Byte>, start: nat, d: seq<Byte>, mid: nat, e: seq<Byte>)
    requires mid == start + |d| && mid + |e| <= |buf|
    ensures Put(Put(buf, start, d), mid, e) == Put(buf, start, d + e)
  {
  }

  lemma LoadChain(mem: seq<Byte>, at: seq<nat>, i: nat, j: nat)
    requires i <= j <= |at| && forall k | 0 <= k < |at| :: at[k] < |mem|
    ensures Load(mem, at[..i]) + Load(mem, at[i..j]) == Load(mem, at[..j])
  {
    var a, b, c := Load(mem, at[..i]), Load(mem, at[i..j]), Load(mem, at[..j]);
    forall k | 0 <= k < j ensures (a + b)[k] == c[k] {
      if k >= i {
        assert b[k - i] == mem[at[i..j][k - i]];
      }
    }
  }

  lemma {:induction false} StoreChain(mem: seq<Byte>, at: seq<nat>, d: seq<Byte>, at': seq<nat>, d': seq<Byte>)
    requires |at| == |d| && |at'| == |d'|
    requires (forall i | 0 <= i < |at| :: at[i] < |mem|) && (forall i | 0 <= i < |at'| :: at'[i] < |mem|)
    ensures Store(Store(mem, at, d), at', d') == Store(mem, at + at', d + d')
    decreases |at|
  {
    if at == [] {
      assert at + at' == at' && d + d' == d';
    } else {
      assert (at + at')[1..] == at[1..] + at' && (d + d')[1..] == d[1..] + d';
      StoreChain(mem[at[0] := d[0]], at[1..], d[1..], at', d');
    }
  }

  lemma TakeTake(at: seq<nat>, i: nat, j: nat)
    requires i <= j <= |at|
    ensures at[..i] + at[i..j] == at[..j]
  {
  }

  lemma ZerosChain(i: nat, n: nat, j: nat)
    requires j == i + n
    ensures Zeros(i) + Zeros(n) == Zeros(j)
  {
  }

  lemma DropDrop(at: seq<nat>, i: nat, n: nat, j: nat)
    requires j == i + n <= |at|
    ensures at[i..][n..] == at[j..] && at[i..][..n] == at[i..j]
  {
  }

  lemma AddressesFirst(iov: seq<Iovec>, n: nat)
    requires iov != [] && n <= iov[0].len
    ensures var rest := [Iovec(iov[0].base + n, iov[0].len - n)] + iov[1..];
            Addresses(rest) == Addresses(iov)[n..] && forall i | 0 <= i < n :: Addresses(iov)[i] == iov[0].base + i
  {
    var rest := [Iovec(iov[0].base + n, iov[0].len - n)] + iov[1..];
    var r, t := Range(iov[0].base, iov[0].len), Addresses(iov[1..]);
    assert Addresses(iov) == r + t;
    assert rest[1..] == iov[1..];
    assert r[n..] == Range(iov[0].base + n, iov[0].len - n);
    DropFromFirst(r, t, n);
  }

  lemma DropFromFirst(r: seq<nat>, t: seq<nat>, n: nat)
    requires n <= |r|
    ensures (r + t)[n..] == r[n..] + t && forall i | 0 <= i < n :: (r + t)[i] == r[i]
  {
  }

  class Uio {
    const writing: bool
    const mem: array<Byte>
    var iov: seq<Iovec>
    var offset: nat
    var resid: nat

    /** The buffers lie in memory and are as long as what is left to move. */
    ghost predicate Valid()
      reads this
    {
      resid <= |Addresses(iov)| && forall i | 0 <= i < |Addresses(iov)| :: Addresses(iov)[i] < mem.Length
    }

    /** The buffers hold no more than what is left to move. */
    ghost predicate Exact()
      reads this
    {
      resid == |Addresses(iov)|
    }

    constructor (writing: bool, mem: array<Byte>, iov: seq<Iovec>, offset: nat, resid: nat)
      requires resid <= |Addresses(iov)| && forall i | 0 <= i < |Addresses(iov)| :: Addresses(iov)[i] < mem.Length
      ensures Valid() && this.writing == writing && this.mem == mem && this.iov == iov && this.offset == offset
      ensures this.resid == resid
    {
      this.writing, this.mem, this.iov, this.offset, this.resid := writing, mem, iov, offset, resid;
    }

    /** memmove to the first buffer of the request. */
    method ToFirst(buf: array<Byte>, start: nat, size: nat)
      requires Valid() && iov != [] && size <= iov[0].len && start + size <= buf.Length && buf != mem
      modifies mem
      ensures size <= |Addresses(iov)|
      ensures mem[..] == Store(old(mem[..]), Addresses(iov)[..size], buf[start..start + size])
    {
      AddressesFirst(iov, size);
      ghost var was, at := mem[..], Addresses(iov);
      for i := 0 to size
        invariant mem[..] == Store(was, at[..i], buf[start..start + i])
      {
        ghost var before := mem[..];
        assert at[i] == iov[0].base + i;
        mem[iov[0].base + i] := buf[start + i];
        StoreMore(was, at[..i], buf[start..start + i], at[i], buf[start + i]);
        assert at[..i + 1] == at[..i] + [at[i]];
        assert buf[start..start + i + 1] == buf[start..start + i] + [buf[start + i]];
        assert mem[..] == before[at[i] := buf[start + i]];
      }
    }

    /** memmove from the first buffer of the request. */
    method FromFirst(buf: array<Byte>, start: nat, size: nat)
      requires Valid() && iov != [] && size <= iov[0].len && start + size <= buf.Length && buf != mem
      modifies buf
      ensures size <= |Addresses(iov)| && buf[..] == Put(old(buf[..]), start, Load(mem[..], Addresses(iov)[..size]))
    {
      AddressesFirst(iov, size);
      ghost var was, at := buf[..], Addresses(iov);
      for i := 0 to size
        invariant buf[..] == Put(was, start, Load(mem[..], at[..i]))
      {
        ghost var before, data := buf[..], Load(mem[..], at[..i]);
        assert at[i] == iov[0].base + i;
        var b := mem[iov[0].base + i];
        buf[start + i] := b;
        assert buf[..] == before[start + i := b];
        PutMore(was, start, data, start + i, b);
        LoadChain(mem[..], at, i, i + 1);
        assert Load(mem[..], at[i..i + 1]) == [b];
      }
    }

    /** One round of uiomove, on the first buffer. */
    method MoveSome(buf: array<Byte>, start: nat, size: nat)
      requires Valid() && iov != [] && size <= iov[0].len && size <= resid && start + size <= buf.Length && buf != mem
      modifies this`iov, this`offset, this`resid, buf, mem
      ensures Valid() && Addresses(iov) == old(Addresses(iov))[size..] && offset == old(offset) + size
      ensures resid == old(resid) - size
      ensures Moved(old(buf[..]), old(mem[..]), start, old(Addresses(iov))[..size], buf[..], mem[..])
    {
      var first := iov[0];
      ghost var at := Addresses(iov);
      AddressesFirst(iov, size);
      if writing {
        FromFirst(buf, start, size);
      } else {
        ToFirst(buf, start, size);
      }
      iov := [Iovec(first.base + size, first.len - size)] + iov[1..];
      resid := resid - size;
      offset := offset + size;
      assert Addresses(iov) == at[size..];
    }

    /** What moving between buf[start..] and the addresses at does to the buffer and to memory. */
    ghost predicate Moved(buf: seq<Byte>, mem: seq<Byte>, start: nat, at: seq<nat>, buf': seq<Byte>, mem': seq<Byte>)
    {
      && start + |at| <= |buf| && (forall i | 0 <= i < |at| :: at[i] < |mem|)
      && if writing then mem' == mem && buf' == Put(buf, start, Load(mem, at))
         else buf' == buf && mem' == Store(mem, at, buf[start..start + |at|])
    }

    lemma MovedChain(buf: seq<Byte>, m: seq<Byte>, start: nat, at: seq<nat>, i: nat, j: nat, buf1: seq<Byte>,
                     m1: seq<Byte>, buf2: seq<Byte>, m2: seq<Byte>)
      requires i <= j <= |at| && start + j <= |buf| && (forall k | 0 <= k < |at| :: at[k] < |m|)
      requires Moved(buf, m, start, at[..i], buf1, m1) && Moved(buf1, m1, start + i, at[i..j], buf2, m2)
      ensures Moved(buf, m, start, at[..j], buf2, m2)
    {
      if writing {
        PutChain(buf, start, Load(m, at[..i]), start + i, Load(m, at[i..j]));
        LoadChain(m, at, i, j);
      } else {
        StoreChain(m, at[..i], buf[start..start + i], at[i..j], buf[start + i..start + j]);
        assert at[..i] + at[i..j] == at[..j];
        assert buf[start..start + i] + buf[start + i..start + j] == buf[start..start + j];
      }
    }

    /** One round of the loop of uiomove: move from or to the first buffer, or leave it if it is used up. */
    method Round(buf: array<Byte>, start: nat, left: nat) returns (size: nat)
      requires Valid() && 0 < left && 0 < resid && (left <= resid || Exact())
      requires start + left <= buf.Length && buf != mem
      modifies this`iov, this`offset, this`resid, buf, mem
      ensures Valid() && size <= left && size <= old(resid) && (size == 0 ==> |iov| < |old(iov)|)
      ensures old(Exact()) ==> Exact()
      ensures Addresses(iov) == old(Addresses(iov))[size..] && offset == old(offset) + size
      ensures resid == old(resid) - size
      ensures Moved(old(buf[..]), old(mem[..]), start, old(Addresses(iov))[..size], buf[..], mem[..])
    {
      size := if iov[0].len > left then left else iov[0].len;
      if size == 0 {
        AddressesFirst(iov, 0);
        iov := iov[1..];
        assert Moved(buf[..], mem[..], start, [], buf[..], mem[..]);
      } else {
        AddressesFirst(iov, size);
        MoveSome(buf, start, size);
      }
    }

    /** uiomove: n bytes, or what is left of the request, go to or come from its buffers, in order;
        offset, residue and buffers move on by as much, and the buffers never run out. More than is
        left may be asked for if the buffers are exactly as long as that. */
    method Move(buf: array<Byte>, start: nat, n: nat)
      requires Valid() && (n <= resid || Exact()) && start + n <= buf.Length && buf != mem
      modifies this`iov, this`offset, this`resid, buf, mem
      ensures Valid() && (old(Exact()) ==> Exact())
      ensures var m := if n <= old(resid) then n else old(resid);
              && Addresses(iov) == old(Addresses(iov))[m..] && offset == old(offset) + m && resid == old(resid) - m
              && Moved(old(buf[..]), old(mem[..]), start, old(Addresses(iov))[..m], buf[..], mem[..])
    {
      ghost var at, was, buf0 := Addresses(iov), mem[..], buf[..];
      var done := 0;
      assert Moved(buf0, was, start, [], buf[..], mem[..]);
      while done < n && resid > 0
        invariant Valid() && done <= n && offset == old(offset) + done && resid == old(resid) - done
        invariant (old(Exact()) ==> Exact()) && done <= old(resid)
        invariant Addresses(iov) == at[done..] && Moved(buf0, was, start, at[..done], buf[..], mem[..])
        decreases n - done, |iov|
      {
        var pos := start + done;
        done := NextRound(buf, start, done, n, pos, at, buf0, was);
      }
      assert done == if n <= old(resid) then n else old(resid);
    }

    method NextRound(buf: array<Byte>, ghost start: nat, done: nat, n: nat, pos: nat, ghost at: seq<nat>,
                     ghost buf0: seq<Byte>, ghost was: seq<Byte>)
      returns (next: nat)
      requires Valid() && done < n && 0 < resid && (n - done <= resid || Exact())
      requires pos == start + done && start + n <= buf.Length && buf != mem && done + resid <= |at|
      requires |buf0| == buf.Length && |was| == mem.Length && (forall i | 0 <= i < |at| :: at[i] < |was|)
      requires Addresses(iov) == at[done..] && Moved(buf0, was, start, at[..done], buf[..], mem[..])
      modifies this`iov, this`offset, this`resid, buf, mem
      ensures Valid() && done <= next <= n && offset == old(offset) + next - done && resid == old(resid) - (next - done)
      ensures (next == done ==> |iov| < |old(iov)|) && next - done <= old(resid) && (old(Exact()) ==> Exact())
      ensures Addresses(iov) == at[next..] && Moved(buf0, was, start, at[..next], buf[..], mem[..])
    {
      ghost var buf1, m1 := buf[..], mem[..];
      var size := Round(buf, pos, n - done);
      next := done + size;
      DropDrop(at, done, size, next);
      MovedChain(buf0, was, start, at, done, next, buf1, m1, buf[..], mem[..]);
    }

    lemma ZerosMoved(m: seq<Byte>, at: seq<nat>, k: nat, amt: nat, next: nat)
      requires next == k + amt <= |at| && forall i | 0 <= i < |at| :: at[i] < |m|
      ensures Store(Store(m, at[..k], Zeros(k)), at[k..next], Zeros(amt)) == Store(m, at[..next], Zeros(next))
    {
      StoreChain(m, at[..k], Zeros(k), at[k..next], Zeros(amt));
      TakeTake(at, k, next);
      ZerosChain(k, amt, next);
    }

    /** uiomovezeros, sixteen bytes at a time; past the end of the request nothing more is moved. */
    method MoveZeros(n: nat)
      requires Valid() && (n <= resid || Exact()) && !writing
      modifies this`iov, this`offset, this`resid, mem
      ensures Valid()
      ensures var m := if n <= old(resid) then n else old(resid);
              && Addresses(iov) == old(Addresses(iov))[m..] && offset == old(offset) + m && resid == old(resid) - m
              && mem[..] == Store(old(mem[..]), old(Addresses(iov))[..m], Zeros(m))
    {
      var zeros := new Byte[16](_ => 0);
      ghost var at, was, got := Addresses(iov), mem[..], 0;
      var done := 0;
      while done < n
        invariant done <= n && Valid() && (n <= old(resid) || Exact()) && forall i | 0 <= i < 16 :: zeros[i] == 0
        invariant got == (if done <= old(resid) then done else old(resid))
        invariant offset == old(offset) + got && resid == old(resid) - got
        invariant Addresses(iov) == at[got..] && mem[..] == Store(was, at[..got], Zeros(got))
      {
        var amt := if n - done < 16 then n - done else 16;
        got := NextZeros(zeros, amt, got, at, was);
        done := done + amt;
      }
    }

    method NextZeros(zeros: array<Byte>, amt: nat, ghost got: nat, ghost at: seq<nat>, ghost was: seq<Byte>)
      returns (ghost next: nat)
      requires Valid() && !writing && amt <= 16 == zeros.Length && zeros != mem && (amt <= resid || Exact())
      requires got + resid <= |at| && |was| == mem.Length && forall i | 0 <= i < |at| :: at[i] < |was|
      requires forall i | 0 <= i < 16 :: zeros[i] == 0
      requires Addresses(iov) == at[got..] && mem[..] == Store(was, at[..got], Zeros(got))
      modifies this`iov, this`offset, this`resid, mem, zeros
      ensures Valid() && (old(Exact()) ==> Exact()) && next == got + if amt <= old(resid) then amt else old(resid)
      ensures offset == old(offset) + next - got && resid == old(resid) - (next - got)
      ensures Addresses(iov) == at[next..] && mem[..] == Store(was, at[..next], Zeros(next))
      ensures zeros[..] == old(zeros[..])
    {
      ghost var m := if amt <= resid then amt else resid;
      next := got + m;
      assert zeros[..][0..m] == Zeros(m);
      Move(zeros, 0, amt);
      DropDrop(at, got, m, next);
      ZerosMoved(was, at, got, m, next);
    }
  }
}
