/** The ring of src/xpr_fifo.c as a bounded queue. The counters `head` and `tail` only grow; that they do not
    run over the counter's range is assumed. Each operation is one locked step. */
module Fifo {
  import opened Common

  const NOBUF := -1

  function Min(a: int, b: int): (m: int)
    ensures m <= a && m <= b && (m == a || m == b)
  {
    if a < b then a else b
  }

  // ----- the ring

  /** n elements from position `tail` on, around the ring. */
  ghost function Ring<T>(a: seq<T>, tail: nat, n: nat): (r: seq<T>)
    requires n <= |a|
    ensures |r| == n
  {
    seq(n, i requires 0 <= i < n => a[(tail + i) % |a|])
  }

  lemma MulAtLeast(m: nat, q: nat)
    requires q >= 1
    ensures m * q >= m
  {
  }

  /** Positions less than a round apart are different slots. */
  lemma SlotsDiffer(a: nat, b: nat, m: nat)
    requires a < b < a + m
    ensures a % m != b % m
  {
    var p, q := a / m, b / m;
    if a % m == b % m {
      assert b - a == m * q - m * p;
      if q > p {
        MulAtLeast(m, q - p);
      } else {
        Monotone(m, q, p);
      }
    }
  }

  lemma Monotone(m: nat, q: nat, p: nat)
    requires q <= p
    ensures m * q <= m * p
  {
  }

  /** Writing the slot behind the last element appends it. */
  lemma RingPut<T>(a: seq<T>, tail: nat, n: nat, x: T)
    requires n < |a|
    ensures Ring(a[(tail + n) % |a| := x], tail, n + 1) == Ring(a, tail, n) + [x]
  {
    var r, b := Ring(a, tail, n), Ring(a[(tail + n) % |a| := x], tail, n + 1);
    forall i | 0 <= i < n ensures b[i] == r[i] { SlotsDiffer(tail + i, tail + n, |a|); }
  }

  /** Moving the tail on drops elements from the front. */
  lemma RingDrop<T>(a: seq<T>, tail: nat, n: nat, k: nat)
    requires k <= n <= |a|
    ensures Ring(a, tail + k, n - k) == Ring(a, tail, n)[k..]
  {
    forall i | 0 <= i < n - k ensures Ring(a, tail + k, n - k)[i] == Ring(a, tail, n)[k..][i] {
      assert tail + k + i == tail + (k + i);
    }
  }

  class Fifo<T> {
    var head: nat
    var tail: nat
    const maxElements: nat
    const data: array<T>

    ghost predicate Valid()
      reads this
    {
      data.Length == maxElements && tail <= head <= tail + maxElements
    }

    /** The queued elements, the oldest first. */
    ghost function Contents(): (s: seq<T>)
      requires Valid()
      reads this, data
    {
      Ring(data[..], tail, head - tail)
    }

    constructor (maxElements: nat, filler: T)
      ensures Valid() && Contents() == [] && this.maxElements == maxElements && fresh(data)
    {
      this.maxElements := maxElements;
      data := new T[maxElements](i => filler);
      head, tail := 0, 0;
    }

    function GetLength(): (l: nat)
      requires Valid()
      reads this, data
      ensures l == |Contents()| <= maxElements
    {
      head - tail
    }

    /** One element of XPR_FifoPut's loop. */
    method PutOne(x: T)
      requires Valid() && |Contents()| < maxElements
      modifies this`head, data
      ensures Valid() && Contents() == old(Contents()) + [x]
    {
      ghost var a := data[..];
      var n := head % maxElements;
      data[n] := x;
      assert data[..] == a[n := x];
      RingPut(a, tail, head - tail, x);
      head := head + 1;
    }

    /** One element of XPR_FifoGet's loop. */
    method GetOne() returns (x: T)
      requires Valid() && Contents() != []
      modifies this`tail
      ensures Valid() && [x] + Contents() == old(Contents())
    {
      RingDrop(data[..], tail, head - tail, 1);
      x := data[tail % maxElements];
      tail := tail + 1;
    }

    /** XPR_FifoPut: as many as fit, in order; none and an error when the ring is full. */
    method Put(src: seq<T>, size: int) returns (r: int)
      requires Valid() && size <= |src|
      modifies this`head, data
      ensures Valid()
      ensures r == if |old(Contents())| == maxElements then NOBUF else Min(size, maxElements - |old(Contents())|)
      ensures Contents() == old(Contents()) + if r > 0 then src[..r] else []
    {
      if GetLength() == maxElements {
        return NOBUF;
      }
      r := Min(size, maxElements - GetLength());
      var l := 0;
      while l < r
        invariant 0 <= l <= (if r > 0 then r else 0) && Valid()
        invariant Contents() == old(Contents()) + src[..l]
      {
        SnocTake(old(Contents()), src, l);
        PutOne(src[l]);
        l := l + 1;
      }
    }

    /** XPR_FifoGet: as many as are there, in order; none and an error when the ring is empty. */
    method Get(buffer: array<T>, size: int) returns (r: int)
      requires Valid() && size <= buffer.Length && buffer != data
      modifies this`tail, buffer
      ensures Valid()
      ensures r == if old(Contents()) == [] then NOBUF else Min(size, |old(Contents())|)
      ensures var k := if r > 0 then r else 0;
        && Contents() == old(Contents())[k..] && buffer[..k] == old(Contents())[..k]
        && buffer[k..] == old(buffer[k..])
    {
      if GetLength() == 0 {
        return NOBUF;
      }
      r := Min(size, GetLength());
      var l := 0;
      while l < r
        invariant 0 <= l <= (if r > 0 then r else 0) && Valid()
        invariant Contents() == old(Contents())[l..] && buffer[..l] == old(Contents())[..l]
        invariant buffer[l..] == old(buffer[l..])
      {
        buffer[l] := GetOne();
        l := l + 1;
      }
    }

    /** XPR_FifoPeek: like Get from an offset, but nothing is taken out. */
    method Peek(buffer: array<T>, size: int, offset: nat) returns (r: int)
      requires Valid() && size <= buffer.Length && buffer != data
      modifies buffer
      ensures r == if Contents() == [] then NOBUF else Min(size, |Contents()| - offset)
      ensures r > 0 ==> buffer[..r] == Contents()[offset..offset + r]
    {
      if GetLength() == 0 {
        return NOBUF;
      }
      r := Min(size, GetLength() - offset);
      var l := 0;
      while l < r
        invariant 0 <= l <= (if r > 0 then r else 0)
        invariant r > 0 ==> buffer[..l] == Contents()[offset..offset + l]
      {
        buffer[l] := data[(tail + offset + l) % maxElements];
        assert tail + offset + l == tail + (offset + l);
        l := l + 1;
      }
    }

    /** XPR_FifoGetAsAtomic; None stands for the null it returns on an empty ring. */
    method GetAsAtomic() returns (v: Option<T>)
      requires Valid()
      modifies this`tail
      ensures Valid()
      ensures old(Contents()) == [] ==> v.None? && Contents() == []
      ensures old(Contents()) != [] ==> v == Some(old(Contents())[0]) && Contents() == old(Contents())[1..]
    {
      if GetLength() == 0 {
        return None;
      }
      var x := GetOne();
      v := Some(x);
    }

    method PutAsAtomic(x: T) returns (ok: bool)
      requires Valid()
      modifies this`head, data
      ensures Valid() && ok == (|old(Contents())| < maxElements)
      ensures Contents() == old(Contents()) + if ok then [x] else []
    {
      if GetLength() == maxElements {
        return false;
      }
      PutOne(x);
      ok := true;
    }

    /** XPR_FifoDrain drops from the front. */
    method Drain(size: nat) returns (r: int)
      requires Valid()
      modifies this`tail
      ensures Valid()
      ensures r == if old(Contents()) == [] then -1 else Min(size, |old(Contents())|)
      ensures Contents() == old(Contents())[if r > 0 then r else 0..]
    {
      if GetLength() == 0 {
        return -1;
      }
      r := Min(size, GetLength());
      RingDrop(data[..], tail, head - tail, r);
      tail := tail + r;
    }
  }

  lemma SnocTake<T>(s: seq<T>, src: seq<T>, l: nat)
    requires l < |src|
    ensures s + src[..l] + [src[l]] == s + src[..l + 1]
  {
  }
}
