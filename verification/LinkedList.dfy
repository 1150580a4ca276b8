/** The singly linked list of src/xpr_list.c, at the level of node pointers.

    `nodes` is the ghost chain that starts at `head`, and `items` pairs each node with its payload.
    The list refreshes `tail` only when it appends or removes, so what it keeps is weak: a `tail`
    that is in the chain is the last node (TailOk). `length` counts appends and removals but not
    takes, so it is not tied to the chain. */
module LinkedList {
  import opened Common
  import opened StableSort

  datatype Err = OK | UNEXIST | ILLEGAL_PARAM

  class Node<T> {
    var next: Node?<T>
    var data: T

    constructor (data: T)
      ensures this.data == data && next == null
    {
      this.data := data;
      next := null;
    }
  }

  /** The nodes `ns`, in this order, are what following `next` from `h` visits. */
  ghost predicate Chain<T>(h: Node?<T>, ns: seq<Node<T>>)
    reads ns`next
  {
    && (ns == [] ==> h == null)
    && (ns != [] ==> h == ns[0] && ns[|ns| - 1].next == null)
    && (forall i {:trigger ns[i].next} :: 0 <= i < |ns| - 1 ==> ns[i].next == ns[i + 1])
    && Distinct(ns)
  }

  /** `items` are the nodes with the payloads they hold now. */
  ghost predicate Holds<T>(ns: seq<Node<T>>, items: seq<Item<Node<T>, T>>)
    reads ns`data
  {
    && |items| == |ns|
    && forall i :: 0 <= i < |ns| ==> items[i].node == ns[i] && items[i].key == ns[i].data
  }

  /** The links after storing `node` between ns[i - 1] and ns[i]. */
  lemma ChainSplice<T>(h: Node?<T>, ns: seq<Node<T>>, i: nat, node: Node<T>)
    requires i <= |ns| && Distinct(ns) && node !in ns
    requires h == if i > 0 then ns[0] else node
    requires i > 0 ==> ns[i - 1].next == node
    requires node.next == if i < |ns| then ns[i] else null
    requires forall j {:trigger ns[j].next} :: 0 <= j < |ns| - 1 && j != i - 1 ==> ns[j].next == ns[j + 1]
    requires i < |ns| ==> ns[|ns| - 1].next == null
    ensures Chain(h, Splice(ns, i, node))
  {
    SpliceFacts(ns, i, node);
  }

  /** The links after pointing the link to ns[i] past it. */
  lemma ChainDrop<T>(h: Node?<T>, ns: seq<Node<T>>, i: nat)
    requires i < |ns| && Distinct(ns)
    requires h == if i > 0 then ns[0] else if |ns| > 1 then ns[1] else null
    requires i > 0 ==> ns[i - 1].next == if i + 1 < |ns| then ns[i + 1] else null
    requires forall j {:trigger ns[j].next} :: 0 <= j < |ns| - 1 && j != i - 1 && j != i ==> ns[j].next == ns[j + 1]
    requires i < |ns| - 1 ==> ns[|ns| - 1].next == null
    ensures Chain(h, Drop(ns, i))
  {
    DropFacts(ns, i);
  }

  /** The payloads after storing `node` where its own belongs. */
  lemma HoldsSplice<T>(ns: seq<Node<T>>, items: seq<Item<Node<T>, T>>, i: nat, node: Node<T>, le: (T, T) -> bool)
    requires Holds(ns, items) && i == Position(items, node.data, le) && i <= |ns|
    ensures var xs := Splice(items, i, Item(node, node.data));
      Holds(Splice(ns, i, node), xs) && xs == Insert(items, Item(node, node.data), le)
    ensures var r := Splice(ns, i, node); (forall n :: n in r <==> n in ns || n == node) && i < |r| && r[i] == node
  {
    SpliceFacts(ns, i, node);
  }

  /** What is left of a chain, and what inserting all of it does. */
  lemma ChainHead<T>(h: Node?<T>, ns: seq<Node<T>>, items: seq<Item<Node<T>, T>>, xs: seq<Item<Node<T>, T>>,
                     le: (T, T) -> bool)
    requires Chain(h, ns) && Holds(ns, items)
    ensures h == null <==> ns == []
    ensures |items| == |ns|
    ensures ns == [] ==> InsertAll(xs, items, le) == xs
    ensures ns != [] ==>
      h == ns[0] && ns[0] !in ns[1..] && InsertAll(xs, items, le) == InsertAll(Insert(xs, items[0], le), items[1..], le)
  {
  }

  lemma ChainRest<T>(ns: seq<Node<T>>)
    requires ns != [] && Chain(ns[0], ns)
    ensures Chain(ns[0].next, ns[1..]) && ns[0] !in ns[1..]
  {
  }

  class List<T(!new)> {
    var head: Node?<T>
    var tail: Node?<T>
    var length: int
    const compare: Option<(T, T) -> int>
    ghost var nodes: seq<Node<T>>
    ghost var items: seq<Item<Node<T>, T>>

    ghost predicate TailOk()
      reads this`tail, this`nodes
    {
      && (nodes != [] ==> tail != null)
      && (tail != null && tail in nodes ==> tail == nodes[|nodes| - 1])
    }

    /** Everything but the tail. */
    ghost predicate Linked()
      reads this`head, this`nodes, this`items, nodes
    {
      Chain(head, nodes) && Holds(nodes, items)
    }

    ghost predicate Valid()
      reads this, nodes
    {
      Linked() && TailOk()
    }

    constructor (compare: Option<(T, T) -> int>)
      ensures Valid() && nodes == [] && length == 0 && this.compare == compare
    {
      this.compare := compare;
      head, tail, length, nodes, items := null, null, 0, [], [];
    }

    /** Walk the links up to the first node that must come after `node`. `prev` stands for the
        pointer-to-pointer: the link to `cur` is `prev.next`, or `head` when `prev` is null. */
    method FindSlot(node: Node<T>, cmp: (T, T) -> int, reverse: bool)
      returns (prev: Node?<T>, cur: Node?<T>, ghost i: nat)
      requires Linked()
      ensures i == Position(items, node.data, Order(cmp, reverse)) && i <= |nodes|
      ensures prev == if i == 0 then null else nodes[i - 1]
      ensures cur == if i == |nodes| then null else nodes[i]
      ensures forall j :: 0 <= j < i ==>
        if reverse then cmp(node.data, items[j].key) <= 0 else cmp(items[j].key, node.data) <= 0
      ensures i < |items| ==> if reverse then cmp(node.data, items[i].key) > 0 else cmp(items[i].key, node.data) > 0
    {
      prev, cur, i := null, head, 0;
      ghost var le := Order(cmp, reverse);
      while cur != null
        invariant 0 <= i <= |nodes|
        invariant prev == if i == 0 then null else nodes[i - 1]
        invariant cur == if i == |nodes| then null else nodes[i]
        invariant forall j :: 0 <= j < i ==> le(items[j].key, node.data)
        decreases |nodes| - i
      {
        var n1 := if reverse then node else cur;
        var n2 := if reverse then cur else node;
        if cmp(n1.data, n2.data) > 0 {
          break;
        }
        prev, cur, i := cur, cur.next, i + 1;
      }
      PositionIs(items, node.data, le, i);
    }

    /** Link `node` in front of the first node that must come after it, behind all its equals. */
    method SortedInsert(node: Node<T>, cmp: (T, T) -> int, reverse: bool) returns (ghost i: nat)
      requires Linked() && node !in nodes && node.next == null
      modifies this`head, this`nodes, this`items, node`next, nodes`next
      ensures Linked()
      ensures items == Insert(old(items), Item(node, node.data), Order(cmp, reverse))
      ensures forall n :: n in nodes <==> n in old(nodes) || n == node
      ensures i < |nodes| && nodes[i] == node && items == Splice(old(items), i, Item(node, node.data))
      ensures forall j :: 0 <= j < i ==>
        if reverse then cmp(node.data, old(items)[j].key) <= 0 else cmp(old(items)[j].key, node.data) <= 0
      ensures i < |old(items)| ==>
        if reverse then cmp(node.data, old(items)[i].key) > 0 else cmp(old(items)[i].key, node.data) > 0
    {
      hide *;
      var prev, cur;
      LinkedIs();
      prev, cur, i := FindSlot(node, cmp, reverse);
      Link(node, prev, cur, i);
      HoldsSplice(nodes, items, i, node, Order(cmp, reverse));
      nodes, items := Splice(nodes, i, node), Splice(items, i, Item(node, node.data));
      LinkedIs();
    }

    lemma LinkedIs()
      ensures Linked() <==> Chain(head, nodes) && Holds(nodes, items)
      ensures Linked() ==> |nodes| == |items|
    {
    }

    /** The pointer writes of a sorted insertion in front of `cur`. */
    method Link(node: Node<T>, prev: Node?<T>, cur: Node?<T>, ghost i: nat)
      requires Chain(head, nodes) && node !in nodes && node.next == null && i <= |nodes|
      requires prev == if i == 0 then null else nodes[i - 1]
      requires cur == if i == |nodes| then null else nodes[i]
      modifies this`head, node`next, nodes`next
      ensures Chain(head, Splice(nodes, i, node))
    {
      var at := cur;
      if at != null {
        node.next := at;
        if prev == null { head := node; } else { prev.next := node; }
        at := node;
      }
      if at != null && at.next == null {
        assert false;  // the source links at.next here, but an inserted node has a successor
      } else {
        if prev == null { head := node; } else { prev.next := node; }
      }
      ChainSplice(head, nodes, i, node);
    }

    /** Follow the links to the last node. */
    method FindTail(from: Node?<T>, ghost k: nat) returns (last: Node?<T>)
      requires Linked() && k < |nodes| && from == nodes[k]
      ensures last == nodes[|nodes| - 1]
    {
      last := from;
      ghost var i := k;
      while last != null && last.next != null
        invariant k <= i < |nodes| && last == nodes[i]
        decreases |nodes| - i
      {
        last, i := last.next, i + 1;
      }
    }

    /** The only node of a list that was empty. */
    method LinkFirst(node: Node<T>)
      requires node.next == null
      modifies this`head, this`tail, this`nodes, this`items
      ensures Linked() && nodes == [node] && tail == node && items == [Item(node, node.data)]
    {
      head, tail, nodes, items := node, node, [node], [Item(node, node.data)];
    }

    lemma LinkedEnds()
      ensures Linked() ==>
        (head == null <==> nodes == []) && forall i, j :: 0 <= i < j < |nodes| ==> nodes[i] != nodes[j]
    {
    }

    /** Link `node` at its place and point `tail` at the true last node. */
    method LinkSorted(node: Node<T>)
      requires Linked() && node !in nodes && compare.Some?
      modifies this`head, this`tail, this`nodes, this`items, node`next, nodes`next
      ensures Valid() && nodes != [] && tail == nodes[|nodes| - 1]
      ensures items == Insert(old(items), Item(node, node.data), Order(compare.value, false))
      ensures forall n :: n in nodes <==> n in old(nodes) || n == node
    {
      node.next := null;
      if head == null {
        LinkFirst(node);
        return;
      }
      ghost var k := SortedInsert(node, compare.value, false);
      tail := FindTail(node, k);
    }

    /** Append under the comparison function: the list stays sorted, and `tail` is the true last node, also when
        a sort had left it stale. */
    method AppendSorted(node: Node<T>)
      requires Linked() && node !in nodes && compare.Some?
      modifies this, node`next, nodes`next
      ensures Valid() && nodes != [] && tail == nodes[|nodes| - 1]
      ensures items == Insert(old(items), Item(node, node.data), Order(compare.value, false))
      ensures forall n :: n in nodes <==> n in old(nodes) || n == node
      ensures length == old(length) + 1
    {
      LinkSorted(node);
      length := length + 1;
    }

    /** Append without a comparison function goes through `tail`, the k-th node if it is in the chain: it extends
        the chain exactly when `tail` is the true last node. Behind a stale inner `tail` the nodes are lost, and
        behind a `tail` that is not in the chain the new node is. */
    method AppendPlain(node: Node<T>, ghost k: nat)
      requires Linked() && node !in nodes && compare.None? && (nodes != [] ==> tail != null)
      requires tail != null && tail in nodes ==> k < |nodes| && nodes[k] == tail
      modifies this, node`next, (if tail == null then {} else {tail})`next
      ensures Valid() && tail == node && length == old(length) + 1
      ensures nodes == if old(nodes) == [] then [node]
                       else if old(tail) in old(nodes) then old(nodes)[..k + 1] + [node] else old(nodes)
      ensures nodes == old(nodes) + [node] <==>
                (old(nodes) == [] || old(tail) == old(nodes)[|old(nodes)| - 1])
    {
      hide Linked;
      LinkedEnds();
      node.next := null;
      if head == null {
        LinkFirst(node);
      } else {
        PlainLength(nodes, k, node);
        LinkBehindTail(node, k);
        tail := node;
      }
      length := length + 1;
    }

    method LinkBehindTail(node: Node<T>, ghost k: nat)
      requires Linked() && nodes != [] && tail != null && node !in nodes && node.next == null
      requires tail in nodes ==> k < |nodes| && nodes[k] == tail
      modifies this`nodes, this`items, tail`next
      ensures Linked() && nodes == if tail in old(nodes) then old(nodes)[..k + 1] + [node] else old(nodes)
    {
      tail.next := node;
      if tail in nodes {
        nodes, items := nodes[..k + 1] + [node], items[..k + 1] + [Item(node, node.data)];
      }
    }

    static lemma PlainLength(ns: seq<Node<T>>, k: nat, node: Node<T>)
      ensures |ns| != |ns + [node]|
      ensures k < |ns| && ns[..k + 1] + [node] == ns + [node] ==> k == |ns| - 1
    {
      if k < |ns| { assert |ns[..k + 1] + [node]| == k + 2; }
    }

    /** The node after `curr`, as the list reports it: nothing after `tail`. */
    method NextNl(curr: Node<T>, ghost k: nat) returns (n: Node?<T>)
      requires Linked() && k < |nodes| && curr == nodes[k]
      ensures n == if curr == tail || k == |nodes| - 1 then null else nodes[k + 1]
      ensures TailOk() ==> n == if k == |nodes| - 1 then null else nodes[k + 1]
    {
      n := if curr == tail then null else curr.next;
    }

    /** Point the link to `node` past it. */
    method LinkPast(node: Node<T>, prev: Node?<T>, ghost k: nat)
      requires Linked() && k < |nodes| && nodes[k] == node
      requires prev == if k == 0 then null else nodes[k - 1]
      modifies this`head, this`nodes, this`items, (if prev == null then {} else {prev})`next
      ensures Linked() && (old(TailOk()) ==> TailOk()) && nodes == Drop(old(nodes), k) && items == Drop(old(items), k)
      ensures forall n :: n in nodes <==> n in old(nodes) && n != node
    {
      if prev == null { head := node.next; } else { prev.next := node.next; }
      DropFacts(nodes, k);
      ChainDrop(head, nodes, k);
      nodes, items := Drop(nodes, k), Drop(items, k);
    }

    /** Unlink `node` and give it back. `tail` and `length` are left alone. */
    method TakeNl(node: Node<T>) returns (err: Err, ghost k: nat)
      requires Linked()
      modifies this`head, this`nodes, this`items, node`next, nodes`next
      ensures Linked() && (old(TailOk()) ==> TailOk())
      ensures err == (if node in old(nodes) then OK else UNEXIST)
      ensures err == OK ==> node.next == null
      ensures err != OK ==> nodes == old(nodes) && items == old(items) && node.next == old(node.next)
      ensures err == OK ==> k < |old(nodes)| && old(nodes)[k] == node
      ensures err == OK ==> nodes == Drop(old(nodes), k) && items == Drop(old(items), k)
      ensures forall n :: n in nodes <==> n in old(nodes) && n != node
    {
      var prev: Node?<T> := null;
      var cur := head;
      k := 0;
      err := UNEXIST;
      while cur != null
        invariant 0 <= k <= |nodes|
        invariant prev == if k == 0 then null else nodes[k - 1]
        invariant cur == if k == |nodes| then null else nodes[k]
        invariant forall j :: 0 <= j < k ==> nodes[j] != node
        decreases |nodes| - k
      {
        if cur == node {
          LinkPast(node, prev, k);
          node.next := null;
          err := OK;
          return;
        }
        prev, cur, k := cur, cur.next, k + 1;
      }
    }

    /** Unlink `node` to free it, and report its predecessor. */
    method Unlink(node: Node<T>) returns (err: Err, prev: Node?<T>, ghost k: nat)
      requires Linked()
      modifies this`head, this`nodes, this`items, nodes`next
      ensures Linked() && (old(TailOk()) ==> TailOk())
      ensures err == (if node in old(nodes) then OK else UNEXIST)
      ensures err != OK ==> nodes == old(nodes) && items == old(items)
      ensures err == OK ==> k < |old(nodes)| && old(nodes)[k] == node
      ensures err == OK ==> nodes == Drop(old(nodes), k) && items == Drop(old(items), k)
      ensures err == OK ==> prev == if k == 0 then null else old(nodes)[k - 1]
      ensures forall n :: n in nodes <==> n in old(nodes) && n != node
    {
      prev := null;
      var cur := head;
      k := 0;
      err := UNEXIST;
      while cur != null
        invariant 0 <= k <= |nodes|
        invariant prev == if k == 0 then null else nodes[k - 1]
        invariant cur == if k == |nodes| then null else nodes[k]
        invariant forall j :: 0 <= j < k ==> nodes[j] != node
        decreases |nodes| - k
      {
        if cur == node {
          LinkPast(node, prev, k);
          err := OK;
          return;
        }
        prev, cur, k := cur, cur.next, k + 1;
      }
    }

    /** Remove and free `node`. `tail` is refreshed when the removed node had a predecessor. */
    method RemoveNl(node: Node<T>) returns (err: Err, ghost k: nat)
      requires Linked()
      modifies this, nodes`next
      ensures Linked() && (old(TailOk()) ==> TailOk())
      ensures err == (if node in old(nodes) then OK else UNEXIST)
      ensures err != OK ==> nodes == old(nodes) && items == old(items)
      ensures err == OK ==> k < |old(nodes)| && old(nodes)[k] == node
      ensures err == OK ==> nodes == Drop(old(nodes), k) && items == Drop(old(items), k)
      ensures forall n :: n in nodes <==> n in old(nodes) && n != node
      ensures length == old(length) - (if err == OK then 1 else 0)
      ensures err == OK && node != old(nodes)[0] ==> nodes != [] && tail == nodes[|nodes| - 1]
    {
      var prev: Node?<T>;
      err, prev, k := Unlink(node);
      if err == OK {
        if prev != null {
          tail := FindTail(prev, k - 1);
        }
        length := length - 1;
      }
    }

    /** One turn of the sort: unlink the first unsorted node and insert it among the sorted ones. */
    method SortStep(node: Node<T>, cmp: (T, T) -> int, reverse: bool, ghost rest: seq<Node<T>>,
                    ghost restItems: seq<Item<Node<T>, T>>)
        returns (temp: Node?<T>)
      requires Linked() && rest != [] && Chain(node, rest) && Holds(rest, restItems)
      requires forall j :: 0 <= j < |rest| ==> rest[j] !in nodes
      modifies this`head, this`nodes, this`items, node`next, nodes`next
      ensures Linked() && Chain(temp, rest[1..]) && Holds(rest[1..], restItems[1..])
      ensures items == Insert(old(items), restItems[0], Order(cmp, reverse))
      ensures forall n :: n in nodes <==> n in old(nodes) || n == node
    {
      temp := node.next;
      ghost var left := rest[1..];
      ChainRest(rest);
      assert rest[0] !in nodes;
      node.next := null;
      ghost var at := SortedInsert(node, cmp, reverse);
      assert forall j :: 0 <= j < |left| ==> left[j] == rest[j + 1];
      assert forall j {:trigger left[j].next} :: 0 <= j < |left| ==> left[j].next == old(left[j].next);
    }

    /** The loop of the sort: insert what is left of the old chain, first to last. */
    method SortRest(first: Node?<T>, cmp: (T, T) -> int, reverse: bool, ghost rest: seq<Node<T>>,
                    ghost restItems: seq<Item<Node<T>, T>>, ghost all: set<Node<T>>)
      requires Linked() && Chain(first, rest) && Holds(rest, restItems)
      requires forall j :: 0 <= j < |rest| ==> rest[j] !in nodes && rest[j] in all
      requires forall j :: 0 <= j < |nodes| ==> nodes[j] in all
      modifies this`head, this`nodes, this`items, all`next
      ensures Linked()
      ensures items == InsertAll(old(items), restItems, Order(cmp, reverse))
    {
      hide *;
      var next := first;
      ghost var left, leftItems := rest, restItems;
      ghost var le := Order(cmp, reverse);
      ChainHead(next, left, leftItems, items, le);
      while next != null
        invariant Linked() && Chain(next, left) && Holds(left, leftItems)
        invariant forall j :: 0 <= j < |left| ==> left[j] !in nodes && left[j] in all
        invariant forall j :: 0 <= j < |nodes| ==> nodes[j] in all
        invariant InsertAll(items, leftItems, le) == InsertAll(old(items), restItems, le)
        decreases |left|
      {
        ChainHead(next, left, leftItems, items, le);
        assert forall j :: 0 <= j < |left[1..]| ==> left[1..][j] == left[j + 1];
        next := SortStep(next, cmp, reverse, left, leftItems);
        assert forall j :: 0 <= j < |nodes| ==> nodes[j] in nodes;
        left, leftItems := left[1..], leftItems[1..];
      }
      ChainHead(next, left, leftItems, items, le);
    }

    /** The insertion sort over the links. It moves no payload and leaves `tail` alone. */
    method InsertionSort(cmp: (T, T) -> int, reverse: bool)
      requires Linked() && nodes != []
      modifies this`head, this`nodes, this`items, nodes`next
      ensures Linked()
      ensures items == Sort(old(items), Order(cmp, reverse))
    {
      ghost var all := set n | n in nodes;
      var next := head.next;
      ghost var rest, restItems := nodes[1..], items[1..];
      ChainRest(nodes);
      head.next := null;
      nodes, items := nodes[..1], items[..1];
      assert Insert([], old(items)[0], Order(cmp, reverse)) == items;
      SortRest(next, cmp, reverse, rest, restItems, all);
    }

    /** XPR_ListSortNl, and XPR_ListReverseNl, which turns the comparison round: without a comparison of its own the
        call takes the list's. The payloads end up ascending, or descending, and equals keep their order. */
    method SortNl(compare: Option<(T, T) -> int>, reverse: bool) returns (err: Err)
      requires Linked()
      modifies this`head, this`nodes, this`items, nodes`next
      ensures Linked() && multiset(items) == multiset(old(items))
      ensures err == if old(nodes) == [] then UNEXIST
                     else if compare.None? && this.compare.None? then ILLEGAL_PARAM else OK
      ensures err != OK ==> nodes == old(nodes) && items == old(items)
      ensures err == OK ==>
        var cmp := if compare.Some? then compare.value else this.compare.value;
        items == Sort(old(items), Order(cmp, reverse)) &&
        (Comparable(cmp) ==>
          InOrder(items, cmp, reverse) && forall k :: Ties(items, cmp, k) == Ties(old(items), cmp, k))
    {
      hide Sort, Order, Holds, Comparable, Ties, InOrder;
      LinkedEnds();
      if head == null {
        return UNEXIST;
      }
      var order := if compare.Some? then compare else this.compare;
      if order.None? {
        return ILLEGAL_PARAM;
      }
      InsertionSort(order.value, reverse);
      SortMeans(old(items), items, order.value, reverse);
      err := OK;
    }
  }
}
