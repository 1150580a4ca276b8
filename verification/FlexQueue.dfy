/** The flexible queue of src/xpr_fq.c: a fixed pool of entries that move between a free ring, a queued ring
    and the callers that popped them. */
module FlexQueue {
  import opened Common
  import opened Fifo

  datatype Err = Ok | NoBuf | NoMem

  /** What a caller pushes and pops. */
  datatype Payload = Payload(data: seq<byte>, flags: nat)

  class Entry {
    var data: Option<seq<byte>>
    var flags: nat

    constructor ()
      ensures data == None && flags == 0
    {
      data, flags := None, 0;
    }
  }

  /** Every entry of the pool is in exactly one place. */
  ghost predicate Partition(pool: set<Entry>, free: seq<Entry>, queued: seq<Entry>, out: set<Entry>) {
    && Distinct(free) && Distinct(queued)
    && (forall e :: e in pool ==> e in free || e in queued || e in out)
    && (forall e :: e in free ==> e in pool && e !in queued && e !in out)
    && (forall e :: e in queued ==> e in pool && e !in out)
    && out <= pool
    && |free| + |queued| + |out| == |pool|
  }

  ghost predicate AllFilled(s: seq<Entry>)
    reads s
  {
    forall i :: 0 <= i < |s| ==> s[i].data.Some?
  }

  /** The payloads of queued entries. */
  ghost function Payloads(s: seq<Entry>): (r: seq<Payload>)
    requires AllFilled(s)
    reads s
    ensures |r| == |s|
  {
    seq(|s|, i requires 0 <= i < |s| && s[i].data.Some? reads s => Payload(s[i].data.value, s[i].flags))
  }

  // ----- moves between the places

  lemma NewFree(pool: set<Entry>, free: seq<Entry>, e: Entry)
    requires Partition(pool, free, [], {}) && e !in pool
    ensures Partition(pool + {e}, free + [e], [], {})
  {
  }

  lemma FreeToQueued(pool: set<Entry>, free: seq<Entry>, queued: seq<Entry>, out: set<Entry>)
    requires Partition(pool, free, queued, out) && free != []
    ensures Partition(pool, free[1..], queued + [free[0]], out) && |queued| < |pool| && free[0] !in queued
  {
    assert free[0] in free && free[0] !in queued;
    assert forall i :: 0 < i < |free| ==> free[i] == free[1..][i - 1];
  }

  lemma FreeToBack(pool: set<Entry>, free: seq<Entry>, queued: seq<Entry>, out: set<Entry>)
    requires Partition(pool, free, queued, out) && free != []
    ensures Partition(pool, free[1..] + [free[0]], queued, out) && |free[1..]| < |pool| && free[0] in pool
  {
  }

  lemma QueuedToOut(pool: set<Entry>, free: seq<Entry>, queued: seq<Entry>, out: set<Entry>)
    requires Partition(pool, free, queued, out) && queued != []
    ensures Partition(pool, free, queued[1..], out + {queued[0]}) && queued[0] !in out
  {
  }

  lemma OutToFree(pool: set<Entry>, free: seq<Entry>, queued: seq<Entry>, out: set<Entry>, e: Entry)
    requires Partition(pool, free, queued, out) && e in out
    ensures Partition(pool, free + [e], queued, out - {e}) && |free| < |pool| && e !in queued
  {
  }

  /** The first entry queued holds the first payload not popped. */
  lemma FirstPayload(q: seq<Entry>, popped: seq<Payload>, pushed: seq<Payload>)
    requires q != [] && AllFilled(q) && popped + Payloads(q) == pushed
    ensures AllFilled(q[1..]) && popped + [Payload(q[0].data.value, q[0].flags)] + Payloads(q[1..]) == pushed
    ensures |popped| < |pushed| && pushed[|popped|] == Payload(q[0].data.value, q[0].flags)
    ensures popped + [pushed[|popped|]] == pushed[..|popped| + 1]
  {
    assert Payloads(q) == [Payload(q[0].data.value, q[0].flags)] + Payloads(q[1..]);
  }

  lemma NonePayload(q: seq<Entry>, popped: seq<Payload>)
    requires AllFilled(q)
    ensures q == [] <==> popped == popped + Payloads(q)
    ensures q != [] ==> q[0].data.Some?
  {
    assert |popped + Payloads(q)| == |popped| + |q|;
  }

  class FlexQueue {
    const freeList: Fifo<Entry>
    const queuedList: Fifo<Entry>
    ghost const pool: set<Entry>
    /** The entries callers hold. */
    ghost var out: set<Entry>
    /** All payloads ever pushed and popped. */
    ghost var pushed: seq<Payload>
    ghost var popped: seq<Payload>

    ghost predicate Shape()
      reads this, freeList, queuedList, freeList.data, queuedList.data
    {
      && freeList.Valid() && queuedList.Valid()
      && freeList != queuedList && freeList.data != queuedList.data
      && freeList.maxElements == |pool| == queuedList.maxElements
    }

    /** The pool is divided up, and what was popped is what was pushed, as far as it came. */
    ghost predicate Valid()
      reads this, freeList, queuedList, freeList.data, queuedList.data, pool
    {
      && Shape()
      && Partition(pool, freeList.Contents(), queuedList.Contents(), out)
      && AllFilled(queuedList.Contents())
      && popped + Payloads(queuedList.Contents()) == pushed
    }

    /** XPR_FQ_Create puts every entry of the pool on the free ring. */
    constructor (maxQueues: nat)
      ensures Valid() && |pool| == maxQueues && fresh(pool) && fresh(freeList) && fresh(queuedList)
      ensures fresh(freeList.data) && fresh(queuedList.data)
      ensures out == {} && pushed == [] && popped == []
      ensures freeList.Contents() != [] || maxQueues == 0
    {
      var filler := new Entry();
      var free := new Fifo<Entry>(maxQueues, filler);
      var queued := new Fifo<Entry>(maxQueues, filler);
      ghost var made: set<Entry> := {};
      for i := 0 to maxQueues
        invariant free.Valid() && queued.Valid() && fresh(free) && fresh(queued) && free != queued
        invariant fresh(free.data) && fresh(queued.data) && free.data != queued.data
        invariant free.maxElements == maxQueues == queued.maxElements && queued.Contents() == []
        invariant fresh(made) && Partition(made, free.Contents(), [], {}) && |made| == i
      {
        var e := new Entry();
        NewFree(made, free.Contents(), e);
        var ok := free.PutAsAtomic(e);
        made := made + {e};
      }
      freeList, queuedList := free, queued;
      pool, out, pushed, popped := made, {}, [], [];
    }

    /** XPR_FQ_PushBack: a free entry gets a copy of the payload and goes to the back of the queue. When the
        copy cannot be allocated the entry goes back to the free ring. No put inside ever fails. */
    method PushBack(p: Payload, allocOk: bool) returns (err: Err)
      requires Valid()
      modifies this, freeList, queuedList, freeList.data, queuedList.data, pool
      ensures Valid() && out == old(out) && popped == old(popped)
      ensures err == if old(freeList.Contents()) == [] then NoBuf else if !allocOk then NoMem else Ok
      ensures pushed == old(pushed) + if err == Ok then [p] else []
    {
      hide Partition;
      ghost var f, q := freeList.Contents(), queuedList.Contents();
      var got := freeList.GetAsAtomic();
      if got.None? {
        return NoBuf;
      }
      FreeToBack(pool, f, q, out);
      if !allocOk {
        var ok := freeList.PutAsAtomic(got.value);
        return NoMem;
      }
      Enqueue(got.value, p, f, q);
      err := Ok;
    }

    /** Fill the entry taken from the front of the free ring and queue it. */
    method Enqueue(ent: Entry, p: Payload, ghost f: seq<Entry>, ghost q: seq<Entry>)
      requires Shape() && Partition(pool, f, q, out) && f != [] && ent == f[0]
      requires freeList.Contents() == f[1..] && queuedList.Contents() == q
      requires AllFilled(q) && popped + Payloads(q) == pushed
      modifies this`pushed, queuedList, queuedList.data, ent
      ensures Valid() && pushed == old(pushed) + [p]
    {
      hide Partition;
      FreeToQueued(pool, f, q, out);
      ghost var was := Payloads(q);
      ent.data, ent.flags := Some(p.data), p.flags;
      assert Payloads(q + [ent]) == was + [p];
      Assoc(popped, was, [p]);
      var ok := queuedList.PutAsAtomic(ent);
      pushed := pushed + [p];
    }

    /** XPR_FQ_PopFront: the entry with the oldest payload not popped yet. */
    method PopFront() returns (ent: Entry?)
      requires Valid()
      modifies this, queuedList
      ensures Valid() && pushed == old(pushed)
      ensures ent == null <==> old(popped) == pushed
      ensures ent == null ==> popped == old(popped) && out == old(out)
      ensures ent != null ==> ent.data.Some? && ent !in old(out) && out == old(out) + {ent}
      ensures ent != null ==> |old(popped)| < |pushed| && Payload(ent.data.value, ent.flags) == pushed[|old(popped)|]
      ensures ent != null ==> popped == pushed[..|old(popped)| + 1]
    {
      hide Partition;
      ghost var q := queuedList.Contents();
      var got := queuedList.GetAsAtomic();
      NonePayload(q, popped);
      if got.None? {
        return null;
      }
      QueuedToOut(pool, freeList.Contents(), q, out);
      FirstPayload(q, popped, pushed);
      ent := got.value;
      out := out + {ent};
      popped := popped + [Payload(ent.data.value, ent.flags)];
    }

    /** XPR_FQ_ReleaseEntry: a popped entry comes back, once. */
    method ReleaseEntry(ent: Entry)
      requires Valid() && ent in out
      modifies this`out, freeList, freeList.data, ent
      ensures Valid() && out == old(out) - {ent}
      ensures freeList.Contents() == old(freeList.Contents()) + [ent]
    {
      hide Partition;
      OutToFree(pool, freeList.Contents(), queuedList.Contents(), out, ent);
      ent.data := None;
      ent.flags := 0;
      var ok := freeList.PutAsAtomic(ent);
      out := out - {ent};
    }
  }
}
