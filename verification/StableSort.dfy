/** What the linked list promises of its order, stated on sequences: sorted insertion, the
    insertion sort built from it, and stability.

    A list item pairs the node (its identity) with the payload the comparison looks at. */
module StableSort {
  import opened Common

  datatype Item<N, T> = Item(node: N, key: T)

  /** The order a three-way comparison stands for, read from front to back of the list. */
  ghost function Order<T>(cmp: (T, T) -> int, reverse: bool): (T, T) -> bool {
    (a, b) => if reverse then cmp(b, a) <= 0 else cmp(a, b) <= 0
  }

  /** A total preorder: any two keys are comparable, and the comparison is transitive. */
  ghost predicate TotalPreorder<T(!new)>(le: (T, T) -> bool) {
    && (forall a, b :: le(a, b) || le(b, a))
    && (forall a, b, c :: le(a, b) && le(b, c) ==> le(a, c))
  }

  /** The same for a three-way comparison. */
  ghost predicate Comparable<T(!new)>(cmp: (T, T) -> int) {
    && (forall a, b :: cmp(a, b) <= 0 || cmp(b, a) <= 0)
    && (forall a, b, c :: cmp(a, b) <= 0 && cmp(b, c) <= 0 ==> cmp(a, c) <= 0)
  }

  ghost predicate Equivalent<T>(le: (T, T) -> bool, a: T, b: T) {
    le(a, b) && le(b, a)
  }

  ghost predicate Sorted<N, T>(xs: seq<Item<N, T>>, le: (T, T) -> bool) {
    forall i, j :: 0 <= i < j < |xs| ==> le(xs[i].key, xs[j].key)
  }

  /** The subsequence of the items equivalent to k. A sort is stable when it changes none of these. */
  ghost function Class<N, T>(xs: seq<Item<N, T>>, le: (T, T) -> bool, k: T): (r: seq<Item<N, T>>)
  {
    if xs == [] then []
    else (if Equivalent(le, xs[0].key, k) then [xs[0]] else []) + Class(xs[1..], le, k)
  }

  /** The position of the first item that must come after key k. */
  ghost function Position<N, T>(xs: seq<Item<N, T>>, k: T, le: (T, T) -> bool): (p: nat)
    ensures p <= |xs|
    ensures forall i :: 0 <= i < p ==> le(xs[i].key, k)
    ensures p < |xs| ==> !le(xs[p].key, k)
  {
    if xs == [] || !le(xs[0].key, k) then 0 else 1 + Position(xs[1..], k, le)
  }

  lemma PositionIs<N, T>(xs: seq<Item<N, T>>, k: T, le: (T, T) -> bool, p: nat)
    requires p <= |xs|
    requires forall i :: 0 <= i < p ==> le(xs[i].key, k)
    requires p < |xs| ==> !le(xs[p].key, k)
    ensures Position(xs, k, le) == p
  {
  }

  /** The sequence with x put at index i. */
  ghost function Splice<X>(s: seq<X>, i: nat, x: X): seq<X>
    requires i <= |s|
  {
    seq(|s| + 1, j requires 0 <= j <= |s| => if j < i then s[j] else if j == i then x else s[j - 1])
  }

  /** The sequence without its item at index i. */
  ghost function Drop<X>(s: seq<X>, i: nat): seq<X>
    requires i < |s|
  {
    seq(|s| - 1, j requires 0 <= j < |s| - 1 => if j < i then s[j] else s[j + 1])
  }

  lemma SpliceFacts<X>(s: seq<X>, i: nat, x: X)
    requires i <= |s|
    ensures forall y :: y in Splice(s, i, x) <==> y in s || y == x
    ensures Distinct(s) && x !in s ==> Distinct(Splice(s, i, x))
  {
    var r := Splice(s, i, x);
    assert r[i] == x;
    forall y | y in s ensures y in r {
      var j :| 0 <= j < |s| && s[j] == y;
      assert r[if j < i then j else j + 1] == y;
    }
  }

  lemma DropFacts<X>(s: seq<X>, i: nat)
    requires i < |s| && Distinct(s)
    ensures forall y :: y in Drop(s, i) <==> y in s && y != s[i]
    ensures Distinct(Drop(s, i))
  {
    var r := Drop(s, i);
    forall y | y in s && y != s[i] ensures y in r {
      var j :| 0 <= j < |s| && s[j] == y;
      assert r[if j < i then j else j - 1] == y;
    }
  }

  ghost function Insert<N, T>(xs: seq<Item<N, T>>, x: Item<N, T>, le: (T, T) -> bool): seq<Item<N, T>> {
    Splice(xs, Position(xs, x.key, le), x)
  }

  lemma InsertSlices<N, T>(xs: seq<Item<N, T>>, x: Item<N, T>, le: (T, T) -> bool)
    ensures var p := Position(xs, x.key, le); Insert(xs, x, le) == xs[..p] + [x] + xs[p..]
  {
  }

  /** Insert the items of `rest`, first to last, into `acc`. */
  ghost function InsertAll<N, T>(acc: seq<Item<N, T>>, rest: seq<Item<N, T>>, le: (T, T) -> bool): seq<Item<N, T>>
    decreases |rest|
  {
    if rest == [] then acc else InsertAll(Insert(acc, rest[0], le), rest[1..], le)
  }

  ghost function Sort<N, T>(xs: seq<Item<N, T>>, le: (T, T) -> bool): seq<Item<N, T>> {
    InsertAll([], xs, le)
  }

  lemma InsertSorted<N, T(!new)>(xs: seq<Item<N, T>>, x: Item<N, T>, le: (T, T) -> bool)
    requires TotalPreorder(le) && Sorted(xs, le)
    ensures Sorted(Insert(xs, x, le), le)
  {
    var p := Position(xs, x.key, le);
    var r := Insert(xs, x, le);
    forall i, j | 0 <= i < j < |r| ensures le(r[i].key, r[j].key) {
      assert p < j && p < |xs| ==> le(x.key, xs[p].key) && (p < j - 1 ==> le(xs[p].key, xs[j - 1].key));
    }
  }

  lemma {:induction false} ClassAppend<N, T>(xs: seq<Item<N, T>>, ys: seq<Item<N, T>>, le: (T, T) -> bool, k: T)
    ensures Class(xs + ys, le, k) == Class(xs, le, k) + Class(ys, le, k)
  {
    if xs == [] {
      assert xs + ys == ys;
    } else {
      assert (xs + ys)[1..] == xs[1..] + ys;
      ClassAppend(xs[1..], ys, le, k);
    }
  }

  lemma {:induction false} ClassEmpty<N, T>(xs: seq<Item<N, T>>, le: (T, T) -> bool, k: T)
    requires forall i :: 0 <= i < |xs| ==> !Equivalent(le, xs[i].key, k)
    ensures Class(xs, le, k) == []
  {
    if xs != [] { ClassEmpty(xs[1..], le, k); }
  }

  /** Sorted insertion puts the new item behind every item equivalent to it and leaves the order
      within every equivalence class alone. */
  lemma InsertClass<N, T(!new)>(xs: seq<Item<N, T>>, x: Item<N, T>, le: (T, T) -> bool, k: T)
    requires TotalPreorder(le) && Sorted(xs, le)
    ensures Class(Insert(xs, x, le), le, k) == Class(xs + [x], le, k)
  {
    var p := Position(xs, x.key, le);
    if Equivalent(le, x.key, k) {
      ClassAfterPosition(xs, x.key, le, k);
    }
    InsertSlices(xs, x, le);
    ClassMiddle(xs[..p], x, xs[p..], le, k);
    assert xs[..p] + xs[p..] == xs;
  }

  lemma ClassMiddle<N, T>(front: seq<Item<N, T>>, x: Item<N, T>, back: seq<Item<N, T>>, le: (T, T) -> bool, k: T)
    requires Equivalent(le, x.key, k) ==> Class(back, le, k) == []
    ensures Class(front + [x] + back, le, k) == Class(front + back + [x], le, k)
  {
    var a, b, c := Class(front, le, k), Class([x], le, k), Class(back, le, k);
    assert Class(front + [x] + back, le, k) == a + b + c by {
      ClassAppend(front, [x], le, k);
      ClassAppend(front + [x], back, le, k);
    }
    assert Class(front + back + [x], le, k) == a + c + b by {
      ClassAppend(front, back, le, k);
      ClassAppend(front + back, [x], le, k);
    }
    if b != [] {
      ClassMember([x], le, k);
      assert b[0] in b;
    } else {
      assert a + b == a;
    }
  }

  /** Nothing behind the insertion point is equivalent to the inserted key. */
  lemma ClassAfterPosition<N, T(!new)>(xs: seq<Item<N, T>>, x: T, le: (T, T) -> bool, k: T)
    requires TotalPreorder(le) && Sorted(xs, le) && Equivalent(le, x, k)
    ensures Class(xs[Position(xs, x, le)..], le, k) == []
  {
    var p := Position(xs, x, le);
    forall i | 0 <= i < |xs[p..]| ensures !Equivalent(le, xs[p..][i].key, k) {
      if i > 0 { assert le(xs[p].key, xs[p + i].key); }
    }
    ClassEmpty(xs[p..], le, k);
  }

  lemma InsertMultiset<N, T>(xs: seq<Item<N, T>>, x: Item<N, T>, le: (T, T) -> bool)
    ensures multiset(Insert(xs, x, le)) == multiset(xs) + multiset{x}
  {
    InsertSlices(xs, x, le);
    var p := Position(xs, x.key, le);
    assert xs == xs[..p] + xs[p..];
  }

  lemma {:induction false} InsertAllMultiset<N, T>(acc: seq<Item<N, T>>, rest: seq<Item<N, T>>, le: (T, T) -> bool)
    ensures multiset(InsertAll(acc, rest, le)) == multiset(acc) + multiset(rest)
    decreases |rest|
  {
    if rest != [] {
      InsertMultiset(acc, rest[0], le);
      InsertAllMultiset(Insert(acc, rest[0], le), rest[1..], le);
      assert rest == [rest[0]] + rest[1..];
    }
  }

  lemma {:induction false} InsertAllStable<N, T(!new)>(acc: seq<Item<N, T>>, rest: seq<Item<N, T>>,
                                                le: (T, T) -> bool, k: T)
    requires TotalPreorder(le) && Sorted(acc, le)
    ensures Sorted(InsertAll(acc, rest, le), le)
    ensures Class(InsertAll(acc, rest, le), le, k) == Class(acc + rest, le, k)
    decreases |rest|
  {
    hide Insert, Class, Sorted, TotalPreorder;
    if rest == [] {
      assert acc + rest == acc;
    } else {
      var next := Insert(acc, rest[0], le);
      InsertSorted(acc, rest[0], le);
      InsertClass(acc, rest[0], le, k);
      InsertAllStable(next, rest[1..], le, k);
      ClassAppend(next, rest[1..], le, k);
      ClassAppend(acc + [rest[0]], rest[1..], le, k);
      assert acc + rest == acc + [rest[0]] + rest[1..];
    }
  }

  /** The sort permutes the items, orders them, and changes no equivalence class. */
  lemma SortIsStable<N, T(!new)>(xs: seq<Item<N, T>>, le: (T, T) -> bool, k: T)
    requires TotalPreorder(le)
    ensures Sorted(Sort(xs, le), le)
    ensures multiset(Sort(xs, le)) == multiset(xs)
    ensures Class(Sort(xs, le), le, k) == Class(xs, le, k)
  {
    InsertAllStable([], xs, le, k);
    InsertAllMultiset([], xs, le);
    assert [] + xs == xs;
  }

  // ----- what the comparison and the direction mean

  /** No item is above a later one, or below it when the direction is reversed. */
  ghost predicate InOrder<N, T>(xs: seq<Item<N, T>>, cmp: (T, T) -> int, reverse: bool) {
    forall i, j :: 0 <= i < j < |xs| ==>
      if reverse then cmp(xs[j].key, xs[i].key) <= 0 else cmp(xs[i].key, xs[j].key) <= 0
  }

  /** The items that the comparison holds equal to k, in the order they stand. */
  ghost function Ties<N, T>(xs: seq<Item<N, T>>, cmp: (T, T) -> int, k: T): seq<Item<N, T>> {
    if xs == [] then []
    else (if cmp(xs[0].key, k) <= 0 && cmp(k, xs[0].key) <= 0 then [xs[0]] else []) + Ties(xs[1..], cmp, k)
  }

  lemma {:induction false} TiesAreClass<N, T>(xs: seq<Item<N, T>>, cmp: (T, T) -> int, reverse: bool, k: T)
    ensures Ties(xs, cmp, k) == Class(xs, Order(cmp, reverse), k)
  {
    if xs != [] { TiesAreClass(xs[1..], cmp, reverse, k); }
  }

  lemma OrderIsTotal<T(!new)>(cmp: (T, T) -> int, reverse: bool)
    requires Comparable(cmp)
    ensures TotalPreorder(Order(cmp, reverse))
    ensures forall a, b :: Order(cmp, reverse)(a, b) <==> if reverse then cmp(b, a) <= 0 else cmp(a, b) <= 0
  {
    var le := Order(cmp, reverse);
    assert forall a, b :: le(a, b) <==> if reverse then cmp(b, a) <= 0 else cmp(a, b) <= 0;
  }

  /** The sort over a comparison: ascending, or descending when reversed; equals keep their order in both. */
  lemma SortMeans<N, T(!new)>(xs: seq<Item<N, T>>, r: seq<Item<N, T>>, cmp: (T, T) -> int, reverse: bool)
    requires r == Sort(xs, Order(cmp, reverse))
    ensures multiset(r) == multiset(xs)
    ensures Comparable(cmp) ==> InOrder(r, cmp, reverse) && forall k :: Ties(r, cmp, k) == Ties(xs, cmp, k)
  {
    var le := Order(cmp, reverse);
    InsertAllMultiset([], xs, le);
    if Comparable(cmp) {
      OrderIsTotal(cmp, reverse);
      forall i, j | 0 <= i < j < |r|
        ensures if reverse then cmp(r[j].key, r[i].key) <= 0 else cmp(r[i].key, r[j].key) <= 0
      {
        SortIsStable(xs, le, r[i].key);
      }
      forall k ensures Ties(r, cmp, k) == Ties(xs, cmp, k) {
        SortIsStable(xs, le, k);
        TiesAreClass(r, cmp, reverse, k);
        TiesAreClass(xs, cmp, reverse, k);
      }
    }
  }

  /** Sortedness and unchanged classes pin the result down: there is one stable sort. */
  lemma {:induction false} StableSortUnique<N, T(!new)>(a: seq<Item<N, T>>, b: seq<Item<N, T>>, le: (T, T) -> bool)
    requires TotalPreorder(le) && Sorted(a, le) && Sorted(b, le)
    requires forall k :: Class(a, le, k) == Class(b, le, k)
    ensures a == b
    decreases |a|
  {
    if a == [] || b == [] {
      if a != [] { ClassHead(a, le); }
      if b != [] { ClassHead(b, le); }
    } else {
      SameHead(a, b, le);
      forall k ensures Class(a[1..], le, k) == Class(b[1..], le, k) {
        assert Class(a, le, k) == Class(b, le, k);
        var h := if Equivalent(le, a[0].key, k) then [a[0]] else [];
        assert Class(a, le, k)[|h|..] == Class(a[1..], le, k);
        assert Class(b, le, k)[|h|..] == Class(b[1..], le, k);
      }
      StableSortUnique(a[1..], b[1..], le);
      assert a == [a[0]] + a[1..] && b == [b[0]] + b[1..];
    }
  }

  lemma {:induction false} ClassMember<N, T>(xs: seq<Item<N, T>>, le: (T, T) -> bool, k: T)
    ensures forall y :: y in Class(xs, le, k) ==> y in xs && Equivalent(le, y.key, k)
  {
    if xs != [] { ClassMember(xs[1..], le, k); }
  }

  lemma ClassHead<N, T(!new)>(xs: seq<Item<N, T>>, le: (T, T) -> bool)
    requires TotalPreorder(le) && xs != []
    ensures Class(xs, le, xs[0].key) != [] && Class(xs, le, xs[0].key)[0] == xs[0]
  {
  }

  lemma SameHead<N, T(!new)>(a: seq<Item<N, T>>, b: seq<Item<N, T>>, le: (T, T) -> bool)
    requires TotalPreorder(le) && Sorted(a, le) && Sorted(b, le) && a != [] && b != []
    requires forall k :: Class(a, le, k) == Class(b, le, k)
    ensures a[0] == b[0]
  {
    var ca, cb := Class(b, le, a[0].key), Class(a, le, b[0].key);
    ClassHead(a, le);
    ClassHead(b, le);
    ClassMember(b, le, a[0].key);
    ClassMember(a, le, b[0].key);
    assert ca[0] in ca && cb[0] in cb;
    assert a[0] in b && b[0] in a;
    assert le(a[0].key, b[0].key) && le(b[0].key, a[0].key);
    assert Class(a, le, b[0].key)[0] == a[0];
  }
}
