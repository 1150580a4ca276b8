/** The open-addressing hash table of src/xpr_hashtable.c. Keys are told apart by their three hash
    values only, so the table stands for a map from hash triples to values. */
module HashTable {
  import opened Common
  import Bits

  datatype Triple = Triple(h1: nat, h2: nat, h3: nat)

  /** A slot is free when its reference count is zero. */
  datatype Slot<K, V> = Free | Item(hash: Triple, key: K, value: V)

  // ----- probing

  function Wrap(x: nat, cap: nat): (w: nat)
    requires x < 2 * cap
    ensures w < cap
  {
    if x < cap then x else x - cap
  }

  function Home(t: Triple, cap: nat): (h: nat)
    requires cap > 0
    ensures h < cap
  {
    t.h1 % cap
  }

  /** The slot reached after d steps from home. */
  function At(t: Triple, d: nat, cap: nat): (i: nat)
    requires d < cap
    ensures i < cap
  {
    Wrap(Home(t, cap) + d, cap)
  }

  /** How many steps from the triple's home slot to slot i. */
  function Dist(t: Triple, i: nat, cap: nat): (d: nat)
    requires i < cap
    ensures d < cap && At(t, d, cap) == i
  {
    if i >= Home(t, cap) then i - Home(t, cap) else i + cap - Home(t, cap)
  }

  lemma DistAt(t: Triple, d: nat, cap: nat)
    requires d < cap
    ensures Dist(t, At(t, d, cap), cap) == d
  {
  }

  /** A step of the walk goes one slot further, or back to the start when it has seen them all. */
  lemma StepsOrReturns(t: Triple, d: nat, cap: nat)
    requires d < cap
    ensures d + 1 < cap ==> At(t, d + 1, cap) == Wrap(At(t, d, cap) + 1, cap) != Home(t, cap)
    ensures d + 1 == cap ==> Wrap(At(t, d, cap) + 1, cap) == Home(t, cap)
  {
  }

  lemma NextSlot(i: nat, cap: nat)
    requires i < cap
    ensures (i + 1) % cap == Wrap(i + 1, cap)
  {
  }

  /** What a lookup returns: it walks until it meets the triple, a free slot, or its start again. */
  ghost function Probe<K, V>(s: seq<Slot<K, V>>, t: Triple, d: nat): (r: int)
    requires d <= |s|
    ensures -1 <= r < |s|
    decreases |s| - d
  {
    if d == |s| || s[At(t, d, |s|)].Free? then -1
    else if s[At(t, d, |s|)].hash == t then At(t, d, |s|)
    else Probe(s, t, d + 1)
  }

  /** The first free slot from the triple's home. */
  ghost function FreeSlot<K, V>(s: seq<Slot<K, V>>, t: Triple, d: nat): (r: int)
    requires d <= |s|
    ensures -1 <= r < |s|
    decreases |s| - d
  {
    if d == |s| then -1
    else if s[At(t, d, |s|)].Free? then At(t, d, |s|)
    else FreeSlot(s, t, d + 1)
  }

  // ----- the invariant and the map

  /** No free slot between an item's home and the item. */
  ghost predicate PathsFull<K, V>(s: seq<Slot<K, V>>) {
    forall i, d :: 0 <= i < |s| && s[i].Item? && 0 <= d < Dist(s[i].hash, i, |s|) ==> s[At(s[i].hash, d, |s|)].Item?
  }

  ghost predicate Unique<K, V>(s: seq<Slot<K, V>>) {
    forall i, j :: 0 <= i < j < |s| && s[i].Item? && s[j].Item? ==> s[i].hash != s[j].hash
  }

  ghost predicate Inv<K, V>(s: seq<Slot<K, V>>) {
    PathsFull(s) && Unique(s)
  }

  /** The stored pairs. */
  ghost function Model<K, V>(s: seq<Slot<K, V>>): map<Triple, V> {
    if s == [] then map[]
    else
      var m, x := Model(s[..|s| - 1]), s[|s| - 1];
      if x.Item? then m[x.hash := x.value] else m
  }

  ghost function Count<K, V>(s: seq<Slot<K, V>>): nat {
    if s == [] then 0 else Count(s[..|s| - 1]) + if s[|s| - 1].Item? then 1 else 0
  }

  /** The map holds exactly the stored items. */
  lemma {:induction false} ModelIs<K, V>(s: seq<Slot<K, V>>, t: Triple)
    requires Unique(s)
    ensures t in Model(s) <==> exists i :: 0 <= i < |s| && s[i].Item? && s[i].hash == t
    ensures forall i :: 0 <= i < |s| && s[i].Item? && s[i].hash == t ==> t in Model(s) && Model(s)[t] == s[i].value
  {
    if s != [] {
      var r := s[..|s| - 1];
      ModelIs(r, t);
      if t in Model(r) {
        var i :| 0 <= i < |r| && r[i].Item? && r[i].hash == t;
        assert s[i] == r[i];
      }
    }
  }

  lemma {:induction false} CountBounds<K, V>(s: seq<Slot<K, V>>)
    ensures Count(s) <= |s|
    ensures Count(s) == |s| <==> forall i :: 0 <= i < |s| ==> s[i].Item?
  {
    if s != [] {
      CountBounds(s[..|s| - 1]);
      assert forall i :: 0 <= i < |s| - 1 ==> s[i] == s[..|s| - 1][i];
    }
  }

  lemma {:induction false} CountUpdate<K, V>(s: seq<Slot<K, V>>, i: nat, x: Slot<K, V>)
    requires i < |s|
    ensures Count(s[i := x]) == Count(s) - (if s[i].Item? then 1 else 0) + (if x.Item? then 1 else 0)
  {
    var n := |s| - 1;
    if i == n {
      assert s[i := x][..n] == s[..n];
    } else {
      assert s[i := x][..n] == s[..n][i := x];
      CountUpdate(s[..n], i, x);
    }
  }

  lemma {:induction false} CountIsSize<K, V>(s: seq<Slot<K, V>>)
    requires Unique(s)
    ensures |Model(s)| == Count(s)
  {
    if s != [] {
      var r, x := s[..|s| - 1], s[|s| - 1];
      CountIsSize(r);
      if x.Item? {
        ModelIs(r, x.hash);
      }
    }
  }

  /** Every slot on an item's path is occupied by another triple, so a lookup reaches the item. */
  lemma {:induction false} ProbeReaches<K, V>(s: seq<Slot<K, V>>, i: nat, d: nat)
    requires i < |s| && s[i].Item? && d <= Dist(s[i].hash, i, |s|)
    requires forall e :: d <= e < Dist(s[i].hash, i, |s|) ==>
      s[At(s[i].hash, e, |s|)].Item? && s[At(s[i].hash, e, |s|)].hash != s[i].hash
    ensures Probe(s, s[i].hash, d) == i
    decreases Dist(s[i].hash, i, |s|) - d
  {
    if d < Dist(s[i].hash, i, |s|) { ProbeReaches(s, i, d + 1); }
  }

  lemma {:induction false} ProbeSound<K, V>(s: seq<Slot<K, V>>, t: Triple, d: nat)
    requires d <= |s|
    ensures var r := Probe(s, t, d); r >= 0 ==> s[r].Item? && s[r].hash == t
    decreases |s| - d
  {
    if d < |s| { ProbeSound(s, t, d + 1); }
  }

  /** Under the invariant a lookup finds a triple exactly when the map has it. */
  lemma ProbeFinds<K, V>(s: seq<Slot<K, V>>, t: Triple)
    requires Inv(s)
    ensures var r := Probe(s, t, 0);
      && (r >= 0 <==> t in Model(s))
      && (r >= 0 ==> s[r].Item? && s[r].hash == t && Model(s)[t] == s[r].value)
  {
    ModelIs(s, t);
    ProbeSound(s, t, 0);
    if t in Model(s) {
      var i :| 0 <= i < |s| && s[i].Item? && s[i].hash == t;
      forall e | 0 <= e < Dist(t, i, |s|) ensures s[At(t, e, |s|)].Item? && s[At(t, e, |s|)].hash != t {
        DistAt(t, e, |s|);
        assert At(t, e, |s|) != i;
      }
      ProbeReaches(s, i, 0);
    }
  }

  lemma {:induction false} FreeSlotIs<K, V>(s: seq<Slot<K, V>>, t: Triple, d: nat)
    requires d <= |s|
    ensures var r := FreeSlot(s, t, d);
      && (r >= 0 ==> s[r].Free? && d <= Dist(t, r, |s|)
                     && forall e :: d <= e < Dist(t, r, |s|) ==> s[At(t, e, |s|)].Item?)
      && (r < 0 ==> forall e :: d <= e < |s| ==> s[At(t, e, |s|)].Item?)
    decreases |s| - d
  {
    if d < |s| {
      DistAt(t, d, |s|);
      FreeSlotIs(s, t, d + 1);
    }
  }

  // ----- the operations on slots

  /** XPR_HashTableSet: update the item found, else fill the first free slot of the path, else fail. */
  ghost function SetSlots<K, V>(s: seq<Slot<K, V>>, t: Triple, k: K, v: V): seq<Slot<K, V>> {
    var i := Probe(s, t, 0);
    if i >= 0 then
      ProbeSound(s, t, 0);
      s[i := s[i].(value := v)]
    else
      var f := FreeSlot(s, t, 0);
      if f >= 0 then s[f := Item(t, k, v)] else s
  }

  lemma PutKeeps<K, V>(s: seq<Slot<K, V>>, t: Triple, k: K, v: V, f: nat)
    requires Inv(s) && t !in Model(s) && f < |s| && s[f].Free?
    requires forall e :: 0 <= e < Dist(t, f, |s|) ==> s[At(t, e, |s|)].Item?
    ensures Inv(s[f := Item(t, k, v)])
  {
    ModelIs(s, t);
  }

  /** Setting refines the map update; it fails exactly when the triple is new and the table is full. */
  lemma SetRefines<K, V>(s: seq<Slot<K, V>>, t: Triple, k: K, v: V)
    requires Inv(s)
    ensures Inv(SetSlots(s, t, k, v)) && |SetSlots(s, t, k, v)| == |s|
    ensures Model(SetSlots(s, t, k, v)) == if t in Model(s) || Count(s) < |s| then Model(s)[t := v] else Model(s)
    ensures Probe(s, t, 0) < 0 && FreeSlot(s, t, 0) < 0 <==> t !in Model(s) && Count(s) == |s|
  {
    var r := SetSlots(s, t, k, v);
    ProbeFinds(s, t);
    FreeSlotIs(s, t, 0);
    CountBounds(s);
    if Probe(s, t, 0) >= 0 {
      SameItems(s, r);
      ModelSame(s, r, Probe(s, t, 0), t, v);
    } else if FreeSlot(s, t, 0) >= 0 {
      PutKeeps(s, t, k, v, FreeSlot(s, t, 0));
      ModelSame(s, r, FreeSlot(s, t, 0), t, v);
    } else {
      forall i | 0 <= i < |s| ensures s[i].Item? {
        assert At(t, Dist(t, i, |s|), |s|) == i;
      }
    }
  }

  /** Changing values only keeps the invariant. */
  lemma SameItems<K, V>(s: seq<Slot<K, V>>, r: seq<Slot<K, V>>)
    requires Inv(s) && |r| == |s|
    requires forall i :: 0 <= i < |s| ==> (r[i].Item? <==> s[i].Item?) && (s[i].Item? ==> r[i].hash == s[i].hash)
    ensures Inv(r)
  {
  }

  lemma ModelSame<K, V>(s: seq<Slot<K, V>>, r: seq<Slot<K, V>>, i: nat, t: Triple, v: V)
    requires Inv(s) && Inv(r) && |r| == |s| && i < |s|
    requires forall j :: 0 <= j < |s| && j != i ==> r[j] == s[j]
    requires r[i].Item? && r[i].hash == t && r[i].value == v
    requires s[i].Free? || s[i].hash == t
    ensures Model(r) == Model(s)[t := v]
  {
    forall u ensures (u in Model(r) <==> u in Model(s) || u == t)
      ensures u in Model(r) ==> Model(r)[u] == if u == t then v else Model(s)[u]
    {
      ModelIs(s, u);
      ModelIs(r, u);
      if u != t && u in Model(s) {
        var j :| 0 <= j < |s| && s[j].Item? && s[j].hash == u;
        assert r[j] == s[j];
      }
      if u != t && u in Model(r) {
        var j :| 0 <= j < |r| && r[j].Item? && r[j].hash == u;
        assert r[j] == s[j];
      }
    }
  }

  /** The d-th slot from the one that the first hash names, going round. */
  ghost function Place(t: Triple, d: nat, cap: nat): (i: nat)
    requires d < cap
    ensures i < cap
  {
    (t.h1 + d) % cap
  }

  lemma AtIs(t: Triple, d: nat, cap: nat)
    requires d < cap
    ensures At(t, d, cap) == Place(t, d, cap)
  {
    var q, r := t.h1 / cap, t.h1 % cap;
    assert t.h1 == cap * q + r;
    if r + d < cap {
      Bits.DivModUnique(t.h1 + d, cap, q, r + d);
    } else {
      assert cap * (q + 1) == cap * q + cap;
      Bits.DivModUnique(t.h1 + d, cap, q + 1, r + d - cap);
    }
  }

  /** What setting changes: the value of the item with these hashes, whose key stays, or else the first free slot from
      the named one; that slot is d slots away. A full table without the item stays as it is. */
  lemma SetMeans<K, V>(s: seq<Slot<K, V>>, t: Triple, k: K, v: V) returns (d: nat)
    requires Inv(s)
    ensures (exists i :: 0 <= i < |s| && s[i].Item? && s[i].hash == t) ==>
      d < |s| && var i := Place(t, d, |s|);
      s[i].Item? && s[i].hash == t && SetSlots(s, t, k, v) == s[i := Item(t, s[i].key, v)]
    ensures !(exists i :: 0 <= i < |s| && s[i].Item? && s[i].hash == t) && (exists i :: 0 <= i < |s| && s[i].Free?) ==>
      d < |s| && var i := Place(t, d, |s|);
      && s[i].Free? && SetSlots(s, t, k, v) == s[i := Item(t, k, v)]
      && forall e :: 0 <= e < d ==> s[Place(t, e, |s|)].Item?
    ensures !(exists i :: 0 <= i < |s| && s[i].Item? && s[i].hash == t) && (forall i :: 0 <= i < |s| ==> s[i].Item?) ==>
      SetSlots(s, t, k, v) == s
  {
    hide Model, Count, Inv, Probe, FreeSlot, Place;
    ModelIfUnique(s, t);
    ProbeFinds(s, t);
    FreeSlotIs(s, t, 0);
    var f := if Probe(s, t, 0) >= 0 then Probe(s, t, 0) else FreeSlot(s, t, 0);
    d := 0;
    if f >= 0 {
      d := Dist(t, f, |s|);
      AtIs(t, d, |s|);
      forall e | 0 <= e < d ensures Place(t, e, |s|) == At(t, e, |s|) { AtIs(t, e, |s|); }
    } else {
      forall i | 0 <= i < |s| ensures s[i].Item? { assert At(t, Dist(t, i, |s|), |s|) == i; }
    }
  }

  lemma ModelIfUnique<K, V>(s: seq<Slot<K, V>>, t: Triple)
    requires Inv(s)
    ensures t in Model(s) <==> exists i :: 0 <= i < |s| && s[i].Item? && s[i].hash == t
  {
    ModelIs(s, t);
  }

  // ----- erasing

  /** Does the path of another item lead over slot i? */
  ghost predicate Crossed<K, V>(s: seq<Slot<K, V>>, i: nat)
    requires i < |s|
  {
    exists j :: 0 <= j < |s| && j != i && s[j].Item? && Dist(s[j].hash, i, |s|) < Dist(s[j].hash, j, |s|)
  }

  /** Lookups agree with the map. */
  ghost predicate LookupsAgree<K, V>(s: seq<Slot<K, V>>) {
    forall t :: Probe(s, t, 0) >= 0 <==> t in Model(s)
  }

  lemma EraseModel<K, V>(s: seq<Slot<K, V>>, i: nat)
    requires Unique(s) && i < |s| && s[i].Item?
    ensures Unique(s[i := Free]) && Model(s[i := Free]) == Model(s) - {s[i].hash}
  {
    var r := s[i := Free];
    forall t ensures t in Model(r) <==> t in Model(s) && t != s[i].hash
      ensures t in Model(r) ==> Model(r)[t] == Model(s)[t]
    {
      ModelIs(s, t);
      ModelIs(r, t);
      if t in Model(s) && t != s[i].hash {
        var j :| 0 <= j < |s| && s[j].Item? && s[j].hash == t;
        assert r[j] == s[j];
      }
      if t in Model(r) {
        var j :| 0 <= j < |r| && r[j].Item? && r[j].hash == t;
        assert r[j] == s[j];
      }
    }
  }

  /** The walk from d steps on stops without a match at a free slot in front of all matches. */
  lemma {:induction false} ProbeStops<K, V>(s: seq<Slot<K, V>>, t: Triple, d: nat, f: nat)
    requires d <= f < |s| && s[At(t, f, |s|)].Free?
    requires forall e :: d <= e < f && s[At(t, e, |s|)].Item? ==> s[At(t, e, |s|)].hash != t
    ensures Probe(s, t, d) == -1
    decreases f - d
  {
    if d < f { ProbeStops(s, t, d + 1, f); }
  }

  /** Erasing leaves a hole. The table stays right exactly when no other item's path led over it. */
  lemma EraseExact<K, V>(s: seq<Slot<K, V>>, i: nat)
    requires Inv(s) && i < |s| && s[i].Item?
    ensures Inv(s[i := Free]) <==> !Crossed(s, i)
    ensures LookupsAgree(s[i := Free]) <==> !Crossed(s, i)
  {
    var r := s[i := Free];
    EraseModel(s, i);
    if Crossed(s, i) {
      var j :| 0 <= j < |s| && j != i && s[j].Item? && Dist(s[j].hash, i, |s|) < Dist(s[j].hash, j, |s|);
      var t := s[j].hash;
      assert r[j] == s[j] && At(t, Dist(t, i, |s|), |s|) == i;
      assert !PathsFull(r);
      forall e | 0 <= e < Dist(t, i, |s|) && r[At(t, e, |s|)].Item? ensures r[At(t, e, |s|)].hash != t {
        DistAt(t, e, |s|);
        assert r[At(t, e, |s|)] == s[At(t, e, |s|)];
      }
      ProbeStops(r, t, 0, Dist(t, i, |s|));
      ModelIs(r, t);
      assert Probe(r, t, 0) < 0 && t in Model(r);
    } else {
      forall j, d | 0 <= j < |r| && r[j].Item? && 0 <= d < Dist(r[j].hash, j, |r|)
        ensures r[At(r[j].hash, d, |r|)].Item?
      {
        assert r[j] == s[j];
        DistAt(s[j].hash, d, |s|);
      }
      forall t ensures Probe(r, t, 0) >= 0 <==> t in Model(r) { ProbeFinds(r, t); }
    }
  }

  /** The caller can see it is safe when the next slot, cyclically, is free. */
  lemma EraseSafe<K, V>(s: seq<Slot<K, V>>, i: nat)
    requires Inv(s) && i < |s| && s[i].Item? && s[Wrap(i + 1, |s|)].Free?
    ensures !Crossed(s, i)
  {
    forall j | 0 <= j < |s| && j != i && s[j].Item? ensures Dist(s[j].hash, i, |s|) >= Dist(s[j].hash, j, |s|) {
      NextOnPath(s[j].hash, i, |s|);
      assert s[At(s[j].hash, (Dist(s[j].hash, i, |s|) + 1) % |s|, |s|)].Free?;
    }
  }

  lemma NextOnPath(t: Triple, i: nat, cap: nat)
    requires i < cap
    ensures At(t, (Dist(t, i, cap) + 1) % cap, cap) == Wrap(i + 1, cap)
    ensures Dist(t, i, cap) + 1 < cap ==> (Dist(t, i, cap) + 1) % cap == Dist(t, i, cap) + 1
  {
    NextSlot(Dist(t, i, cap), cap);
  }

  /** Two keys with one home slot: erasing the first loses the second. */
  lemma EraseLoses<K, V>(k: K, v: V)
    ensures var a, b := Triple(0, 1, 0), Triple(0, 2, 0);
      var s: seq<Slot<K, V>> := [Item(a, k, v), Item(b, k, v), Free];
      Inv(s) && Probe(s, b, 0) == 1 && Probe(s[0 := Free], b, 0) == -1
  {
  }

  // ----- iterating

  /** The first occupied slot from i on. */
  ghost function NextItem<K, V>(s: seq<Slot<K, V>>, i: nat): (r: Option<nat>)
    ensures r.Some? ==> i <= r.value < |s| && s[r.value].Item? && forall j :: i <= j < r.value ==> s[j].Free?
    ensures r.None? ==> forall j :: i <= j < |s| ==> s[j].Free?
    decreases |s| - i
  {
    if i >= |s| then None else if s[i].Item? then Some(i) else NextItem(s, i + 1)
  }

  /** The slots an iteration visits, from i on. */
  ghost function Visits<K, V>(s: seq<Slot<K, V>>, i: nat): seq<nat>
    decreases |s| - i
  {
    var n := NextItem(s, i);
    if n.None? then [] else [n.value] + Visits(s, n.value + 1)
  }

  /** An iteration visits every occupied slot, each once, in ascending order. */
  lemma {:induction false} VisitsAll<K, V>(s: seq<Slot<K, V>>, i: nat)
    ensures forall j :: 0 <= j < |Visits(s, i)| ==> i <= Visits(s, i)[j] < |s|
    ensures forall j, k :: 0 <= j < k < |Visits(s, i)| ==> Visits(s, i)[j] < Visits(s, i)[k]
    ensures forall j :: i <= j < |s| ==> (j in Visits(s, i) <==> s[j].Item?)
    decreases |s| - i
  {
    var n := NextItem(s, i);
    if n.Some? {
      VisitsAll(s, n.value + 1);
      assert Visits(s, i) == [n.value] + Visits(s, n.value + 1);
    }
  }

  // ----- runs

  datatype Op<K, V> = Set(t: Triple, k: K, v: V) | Erase(t: Triple) | Clear

  ghost function Blank<K, V>(cap: nat): seq<Slot<K, V>> {
    seq(cap, i => Free)
  }

  /** An erase is allowed when it leaves no hole in another item's path. */
  ghost predicate Allowed<K, V>(s: seq<Slot<K, V>>, op: Op<K, V>) {
    op.Erase? ==> var i := Probe(s, op.t, 0); i >= 0 ==> !Crossed(s, i)
  }

  ghost function ApplySlots<K, V>(s: seq<Slot<K, V>>, op: Op<K, V>): seq<Slot<K, V>> {
    match op
    case Set(t, k, v) => SetSlots(s, t, k, v)
    case Erase(t) => var i := Probe(s, t, 0); if i >= 0 then s[i := Free] else s
    case Clear => Blank(|s|)
  }

  /** The same operation on a map of bounded size. */
  ghost function ApplyMap<K, V>(m: map<Triple, V>, cap: nat, op: Op<K, V>): map<Triple, V> {
    match op
    case Set(t, k, v) => if t in m || |m| < cap then m[t := v] else m
    case Erase(t) => m - {t}
    case Clear => map[]
  }

  ghost predicate AllowedRun<K, V>(s: seq<Slot<K, V>>, ops: seq<Op<K, V>>)
    decreases |ops|
  {
    ops != [] ==> Allowed(s, ops[0]) && AllowedRun(ApplySlots(s, ops[0]), ops[1..])
  }

  ghost function RunSlots<K, V>(s: seq<Slot<K, V>>, ops: seq<Op<K, V>>): seq<Slot<K, V>>
    decreases |ops|
  {
    if ops == [] then s else RunSlots(ApplySlots(s, ops[0]), ops[1..])
  }

  ghost function RunMap<K, V>(m: map<Triple, V>, cap: nat, ops: seq<Op<K, V>>): map<Triple, V>
    decreases |ops|
  {
    if ops == [] then m else RunMap(ApplyMap(m, cap, ops[0]), cap, ops[1..])
  }

  lemma BlankIsEmpty<K, V>(s: seq<Slot<K, V>>)
    requires forall i :: 0 <= i < |s| ==> s[i].Free?
    ensures Inv(s) && Model(s) == map[] && Count(s) == 0
  {
    if s != [] { BlankIsEmpty(s[..|s| - 1]); }
  }

  /** Every operation, an allowed erase included, is the one on the map. */
  lemma ApplyRefines<K, V>(s: seq<Slot<K, V>>, op: Op<K, V>)
    requires Inv(s) && Allowed(s, op)
    ensures var r := ApplySlots(s, op); Inv(r) && |r| == |s| && Model(r) == ApplyMap(Model(s), |s|, op)
  {
    CountIsSize(s);
    match op
    case Set(t, k, v) => SetRefines(s, t, k, v);
    case Erase(t) =>
      ProbeFinds(s, t);
      ProbeSound(s, t, 0);
      var i := Probe(s, t, 0);
      if i >= 0 {
        EraseExact(s, i);
        EraseModel(s, i);
      }
    case Clear =>
      var b: seq<Slot<K, V>> := Blank(|s|);
      BlankIsEmpty(b);
  }

  /** Over every run of sets, safe erases and clears the table refines the bounded map, and every lookup returns
      what the map has. */
  lemma {:induction false} RunRefines<K, V>(s: seq<Slot<K, V>>, ops: seq<Op<K, V>>, t: Triple)
    requires Inv(s) && AllowedRun(s, ops)
    ensures var r := RunSlots(s, ops);
      && Inv(r) && |r| == |s|
      && Model(r) == RunMap(Model(s), |s|, ops)
      && Count(r) == |Model(r)|
      && (Probe(r, t, 0) >= 0 <==> t in Model(r))
      && (t in Model(r) ==> r[Probe(r, t, 0)].Item? && r[Probe(r, t, 0)].value == Model(r)[t])
    decreases |ops|
  {
    if ops == [] {
      CountIsSize(s);
      ProbeFinds(s, t);
    } else {
      ApplyRefines(s, ops[0]);
      RunRefines(ApplySlots(s, ops[0]), ops[1..], t);
    }
  }

  // ----- the table

  class HashTable<K, V> {
    const capacity: nat
    const keyHash: K -> Triple
    const keyValidate: K -> bool
    var count: nat
    const items: array<Slot<K, V>>

    ghost predicate Shape()
      reads this, items
    {
      capacity > 0 && items.Length == capacity && count == Count(items[..])
    }

    ghost predicate Valid()
      reads this, items
    {
      Shape() && Inv(items[..])
    }

    ghost function Contents(): map<Triple, V>
      reads this, items
    {
      Model(items[..])
    }

    constructor (capacity: nat, keyHash: K -> Triple, keyValidate: K -> bool)
      requires capacity > 0
      ensures Valid() && Contents() == map[] && fresh(items)
      ensures this.capacity == capacity && this.keyHash == keyHash && this.keyValidate == keyValidate
    {
      this.capacity, this.keyHash, this.keyValidate := capacity, keyHash, keyValidate;
      items := new Slot[capacity](i => Free);
      count := 0;
      new;
      BlankIsEmpty(items[..]);
    }

    /** hashTableIndex: the slot of the key, or -1. */
    method Index(key: K) returns (index: int)
      requires Shape()
      ensures index == Probe(items[..], keyHash(key), 0)
    {
      var h := keyHash(key);
      var start := h.h1 % capacity;
      index := start;
      ghost var d := 0;
      while items[index].Item?
        invariant 0 <= d < capacity && index == At(h, d, capacity)
        invariant Probe(items[..], h, 0) == Probe(items[..], h, d)
        decreases capacity - d
      {
        if items[index].hash == h {
          return;
        }
        NextSlot(index, capacity);
        index := (index + 1) % capacity;
        d := d + 1;
        if index == start {
          break;
        }
      }
      index := -1;
    }

    /** The probing loop of hashTablePut. Its way out at the start slot is never taken: below the capacity
        the walk meets a free slot first. */
    method FindFree(h: Triple) returns (index: nat)
      requires Shape() && count < capacity
      ensures index < capacity && index == FreeSlot(items[..], h, 0) && items[index].Free?
    {
      var start := h.h1 % capacity;
      index := start;
      ghost var d := 0;
      while items[index].Item?
        invariant 0 <= d < capacity && index == At(h, d, capacity)
        invariant FreeSlot(items[..], h, 0) == FreeSlot(items[..], h, d)
        invariant forall e :: 0 <= e <= d ==> e == d || items[..][At(h, e, capacity)].Item?
        decreases capacity - d
      {
        NextSlot(index, capacity);
        StepsOrReturns(h, d, capacity);
        index := (index + 1) % capacity;
        d := d + 1;
        if index == start {
          AllOccupied(items[..], h);
          assert false;
        }
      }
    }

    /** hashTablePut: fill the first free slot of the path, or -1 when the table is full. */
    method Put(key: K, value: V) returns (index: int)
      requires Shape()
      modifies this`count, items
      ensures Shape()
      ensures index == if old(count) < capacity then FreeSlot(old(items[..]), keyHash(key), 0) else -1
      ensures old(count) < capacity ==> index >= 0
      ensures items[..] ==
        if index >= 0 then old(items[..])[index := Item(keyHash(key), key, value)] else old(items[..])
    {
      if count >= capacity {
        return -1;
      }
      ghost var s := items[..];
      var h := keyHash(key);
      index := FindFree(h);
      CountUpdate(s, index, Item(h, key, value));
      items[index] := Item(h, key, value);
      assert items[..] == s[index := Item(h, key, value)];
      count := count + 1;
    }

    /** Set succeeds exactly when the triple is known or there is room. */
    method Set(key: K, value: V) returns (ok: bool)
      requires Valid()
      modifies this`count, items
      ensures Valid()
      ensures keyValidate(key) ==> items[..] == SetSlots(old(items[..]), keyHash(key), key, value)
      ensures ok <==> keyValidate(key) && (keyHash(key) in old(Contents()) || old(count) < capacity)
      ensures Contents() == if ok then old(Contents())[keyHash(key) := value] else old(Contents())
    {
      if !keyValidate(key) {
        return false;
      }
      ghost var s := items[..];
      SetRefines(s, keyHash(key), key, value);
      CountBounds(s);
      ProbeFinds(s, keyHash(key));
      var index := Index(key);
      if index >= 0 {
        CountUpdate(s, index, s[index].(value := value));
        items[index] := items[index].(value := value);
        assert items[..] == s[index := s[index].(value := value)];
      } else {
        index := Put(key, value);
      }
      ok := index >= 0;
    }

    method Get(key: K) returns (value: Option<V>)
      requires Valid()
      ensures value == if keyValidate(key) && keyHash(key) in Contents() then Some(Contents()[keyHash(key)]) else None
    {
      if !keyValidate(key) {
        return None;
      }
      ProbeFinds(items[..], keyHash(key));
      var index := Index(key);
      value := if index >= 0 then Some(items[index].value) else None;
    }

    /** Erase always takes the item out of the contents; the table stays valid exactly when no other item's
        path led over the slot. */
    method Erase(key: K) returns (ok: bool)
      requires Valid()
      modifies this`count, items
      ensures Shape() && (keyValidate(key) ==> items[..] == ApplySlots(old(items[..]), Op.Erase(keyHash(key))))
      ensures ok <==> keyValidate(key) && keyHash(key) in old(Contents())
      ensures Contents() == if ok then old(Contents()) - {keyHash(key)} else old(Contents())
      ensures var i := Probe(old(items[..]), keyHash(key), 0);
        ok ==> 0 <= i && (Valid() <==> !Crossed(old(items[..]), i))
      ensures !ok ==> Valid()
    {
      if !keyValidate(key) {
        return false;
      }
      ghost var s := items[..];
      ProbeFinds(s, keyHash(key));
      var index := Index(key);
      ok := index >= 0;
      if ok {
        EraseModel(s, index);
        EraseExact(s, index);
        CountUpdate(s, index, Free);
        items[index] := Free;
        assert items[..] == s[index := Free];
        count := count - 1;
      }
    }

    method Clear()
      requires Shape()
      modifies this`count, items
      ensures Valid() && Contents() == map[] && count == 0 && items[..] == ApplySlots(old(items[..]), Op.Clear)
    {
      for i := 0 to capacity
        invariant forall j :: 0 <= j < i ==> items[j].Free?
      {
        items[i] := Free;
      }
      count := 0;
      BlankIsEmpty(items[..]);
      assert items[..] == Blank<K, V>(capacity);
    }

    /** The first occupied slot from `from` on; IterFirst starts at 0, IterNext behind the last slot. */
    method Scan(from: nat) returns (iter: Option<nat>)
      requires Shape()
      ensures iter == NextItem(items[..], from)
    {
      var start := from;
      while start < capacity && items[start].Free?
        invariant from <= start && (from <= capacity ==> start <= capacity)
        invariant NextItem(items[..], from) == NextItem(items[..], start)
      {
        start := start + 1;
      }
      iter := if start >= capacity then None else Some(start);
    }

    method IterFirst() returns (iter: Option<nat>)
      requires Shape()
      ensures iter == NextItem(items[..], 0)
    {
      if count <= 0 {
        NoItems(items[..]);
        return None;
      }
      iter := Scan(0);
    }

    method IterNext(iter: nat) returns (next: Option<nat>)
      requires Shape()
      ensures next == NextItem(items[..], iter + 1)
    {
      if count <= 0 {
        NoItems(items[..]);
        return None;
      }
      next := Scan(iter + 1);
    }
  }

  lemma {:induction false} NoItems<K, V>(s: seq<Slot<K, V>>)
    requires Count(s) == 0
    ensures forall i :: 0 <= i < |s| ==> s[i].Free?
    ensures forall i: nat :: NextItem(s, i).None?
  {
    if s != [] {
      NoItems(s[..|s| - 1]);
      assert forall i :: 0 <= i < |s| - 1 ==> s[i] == s[..|s| - 1][i];
    }
  }

  lemma AllOccupied<K, V>(s: seq<Slot<K, V>>, t: Triple)
    requires forall e :: 0 <= e < |s| ==> s[At(t, e, |s|)].Item?
    ensures Count(s) == |s|
  {
    forall i | 0 <= i < |s| ensures s[i].Item? {
      assert At(t, Dist(t, i, |s|), |s|) == i;
    }
    CountBounds(s);
  }
}
