/** The timer queue of src/xpr_timer_unix.c over its two linked lists, each locked operation proved to
    be the step of the state machine. The lock itself, the condition variable and the thread are not
    modelled; callbacks do not touch the queue. */
module TimerQueue {
  import opened Common
  import opened StableSort
  import opened LinkedList
  import opened TimerModel
  import opened TimerTheorems
  import opened TimerRuns

  type TimerNode = Node<Timer>

  /** 0xFFFFFFFF as a 32-bit signed identifier. */
  const SINGLESHOT_ID := -1

  lemma HoldsIn(ns: seq<TimerNode>, items: Entries<TimerNode>, n: TimerNode)
    requires Holds(ns, items)
    ensures n in ns <==> In(items, n)
    ensures In(items, n) ==> KeyOf(items, n) == n.data && ns[IndexOf(items, n)] == n
  {
    if n in ns {
      var i :| 0 <= i < |ns| && ns[i] == n;
      assert items[i].node == n;
    }
  }

  /** Two valid timer lists without a common node. */
  ghost predicate Pair(list: List<Timer>, other: List<Timer>)
    reads list, list.nodes, other, other.nodes
  {
    && list != other
    && list.Valid() && other.Valid()
    && list.compare == Some(NodeCompare) && other.compare == Some(NodeCompare)
    && (forall n :: n in list.nodes ==> n !in other.nodes)
    && (forall n :: n in other.nodes ==> n !in list.nodes)
  }

  lemma IndexIs(xs: Entries<TimerNode>, n: TimerNode, k: nat)
    requires k < |xs| && xs[k].node == n && (forall j :: 0 <= j < k ==> xs[j].node != n)
    ensures IndexOf(xs, n) == k
  {
  }

  lemma TakeIs(ns: seq<TimerNode>, xs: Entries<TimerNode>, n: TimerNode, k: nat)
    requires |xs| == |ns| && (forall i :: 0 <= i < |ns| ==> xs[i].node == ns[i])
    requires Distinct(ns) && k < |ns| && ns[k] == n
    ensures In(xs, n) && Take(xs, n) == Drop(xs, k)
  {
    assert forall j :: 0 <= j < k ==> xs[j].node != n;
    IndexIs(xs, n, k);
  }

  lemma RetagHolds(ns: seq<TimerNode>, xs: Entries<TimerNode>, n: TimerNode)
    requires In(xs, n) && |xs| == |ns| && Distinct(ns)
    requires forall i :: 0 <= i < |ns| ==> xs[i].node == ns[i] && (ns[i] != n ==> xs[i].key == ns[i].data)
    ensures Holds(ns, Retag(xs, n, n.data))
  {
  }

  /** Append to one list; the other list is not touched. */
  method AppendTo(list: List<Timer>, other: List<Timer>, timer: TimerNode)
    requires Pair(list, other) && timer !in list.nodes && timer !in other.nodes
    modifies list, timer`next, list.nodes`next
    ensures Pair(list, other)
    ensures forall n :: n in list.nodes <==> n in old(list.nodes) || n == timer
    ensures list.items == Insert(old(list.items), Item(timer, timer.data), ByExpire())
  {
    list.AppendSorted(timer);
    assert forall n :: n in other.nodes ==> n.next == old(n.next);
  }

  /** Write the payload of a timer of one list; the other list is not touched. */
  method Rewrite(ghost list: List<Timer>, ghost other: List<Timer>, timer: TimerNode, data: Timer)
    requires Pair(list, other) && timer in list.nodes && In(list.items, timer)
    modifies timer`data, list`items
    ensures Pair(list, other) && list.items == Retag(old(list.items), timer, data) && timer.data == data
  {
    timer.data := data;
    RetagHolds(list.nodes, list.items, timer);
    list.items := Retag(list.items, timer, data);
  }

  /** Unlink a timer from one list; the other list is not touched. */
  method TakeFrom(list: List<Timer>, other: List<Timer>, timer: TimerNode) returns (err: Err)
    requires Pair(list, other)
    modifies list, timer`next, list.nodes`next
    ensures Pair(list, other)
    ensures err == if old(In(list.items, timer)) then OK else UNEXIST
    ensures err == OK ==> list.items == Take(old(list.items), timer) && timer !in list.nodes && timer !in other.nodes
    ensures forall n :: n in list.nodes ==> n in old(list.nodes)
    ensures err != OK ==> list.items == old(list.items)
  {
    ghost var k;
    HoldsIn(list.nodes, list.items, timer);
    ghost var xs := list.items;
    err, k := list.TakeNl(timer);
    if err == OK { TakeIs(old(list.nodes), xs, timer, k); }
    assert forall n :: n in other.nodes && n != timer ==> n.next == old(n.next);
  }

  /** Remove and free a timer from one list; the other list is not touched. */
  method DeleteFrom(list: List<Timer>, other: List<Timer>, timer: TimerNode) returns (err: Err)
    requires Pair(list, other)
    modifies list, list.nodes`next
    ensures Pair(list, other)
    ensures err == if old(In(list.items, timer)) then OK else UNEXIST
    ensures err == OK ==> list.items == Take(old(list.items), timer)
    ensures err != OK ==> list.items == old(list.items) && list.nodes == old(list.nodes)
  {
    ghost var k;
    HoldsIn(list.nodes, list.items, timer);
    ghost var ns, xs := list.nodes, list.items;
    err, k := list.RemoveNl(timer);
    if err == OK { TakeIs(ns, xs, timer, k); }
    assert forall n :: n in other.nodes ==> n.next == old(n.next);
  }

  /** Where timerQueueLoop puts a timer for which timerExec returned `tr`. */
  ghost function Destination(tr: Ret): Outcome {
    match tr
    case Continue => ToActive
    case Suspend => ToSuspended
    case Terminate => ToFreed
  }

  /** The queue with x put at its destination. */
  ghost predicate Placed(s: State<TimerNode>, r: State<TimerNode>, x: Item<TimerNode, Timer>, out: Outcome) {
    && r.active == (if out == ToActive then Insert(s.active, x, ByExpire()) else s.active)
    && r.suspended == (if out == ToSuspended then Insert(s.suspended, x, ByExpire()) else s.suspended)
    && r.freed == (if out == ToFreed then s.freed + {x.node} else s.freed)
  }

  class Queue {
    const active: List<Timer>
    const suspended: List<Timer>
    ghost var freed: set<TimerNode>
    ghost var fired: seq<TimerNode>

    ghost function Abs(): State<TimerNode>
      reads this, active, suspended
    {
      State(active.items, suspended.items, freed, fired)
    }

    ghost predicate Valid()
      reads this, active, active.nodes, suspended, suspended.nodes
    {
      Pair(active, suspended) && Pair(suspended, active)
    }

    ghost function Nodes(): set<TimerNode>
      reads active`nodes, suspended`nodes
    {
      (set n | n in active.nodes) + (set n | n in suspended.nodes)
    }

    constructor ()
      ensures Valid() && Abs() == State([], [], {}, [])
      ensures fresh(active) && fresh(suspended)
    {
      active := new List(Some(NodeCompare));
      suspended := new List(Some(NodeCompare));
      freed, fired := {}, [];
    }

    lemma InLists(timer: TimerNode)
      requires Valid()
      ensures timer in active.nodes <==> In(active.items, timer)
      ensures timer in suspended.nodes <==> In(suspended.items, timer)
      ensures Queued(Abs(), timer) ==> Fields(Abs(), timer) == timer.data
    {
      HoldsIn(active.nodes, active.items, timer);
      HoldsIn(suspended.nodes, suspended.items, timer);
    }

    method Add(timer: TimerNode, now: int)
      requires Valid() && !Known(Abs(), timer)
      modifies active, suspended, timer, active.nodes`next, suspended.nodes`next
      ensures Valid()
      ensures Abs() == AddTo(old(Abs()), timer, old(timer.data), now)
      ensures timer.data == old(timer.data).(expire := now + old(timer.data.interval))
      ensures timer in (if timer.data.enabled then active.nodes else suspended.nodes)
    {
      hide Insert, ByExpire, Holds, Chain;
      InLists(timer);
      timer.data := timer.data.(expire := now + timer.data.interval);
      if timer.data.enabled { AppendTo(active, suspended, timer); } else { AppendTo(suspended, active, timer); }
    }

    method Remove(timer: TimerNode) returns (err: Err)
      requires Valid()
      modifies this`freed, active, suspended, active.nodes`next, suspended.nodes`next
      ensures Valid()
      ensures Abs() == RemoveFrom(old(Abs()), timer)
      ensures err == if old(Queued(Abs(), timer)) then OK else UNEXIST
    {
      InLists(timer);
      err := DeleteFrom(active, suspended, timer);
      if err != OK {
        err := DeleteFrom(suspended, active, timer);
      }
      if err == OK {
        freed := freed + {timer};
      }
    }

    method Suspend(timer: TimerNode) returns (err: Err)
      requires Valid()
      modifies active, suspended, timer, active.nodes`next, suspended.nodes`next
      ensures Valid()
      ensures Abs() == SuspendIn(old(Abs()), timer)
      ensures timer.data == if err == OK then old(timer.data).(enabled := false) else old(timer.data)
      ensures err == OK ==> timer in suspended.nodes
      ensures err == if old(In(active.items, timer)) then OK else UNEXIST
    {
      InLists(timer);
      err := TakeFrom(active, suspended, timer);
      if err == OK {
        timer.data := timer.data.(enabled := false);
        AppendTo(suspended, active, timer);
      }
    }

    method Resume(timer: TimerNode) returns (err: Err)
      requires Valid()
      modifies active, suspended, timer, active.nodes`next, suspended.nodes`next
      ensures Valid()
      ensures Abs() == ResumeIn(old(Abs()), timer)
      ensures timer.data == if err == OK then old(timer.data).(enabled := true) else old(timer.data)
      ensures err == OK ==> timer in active.nodes
      ensures err == if old(In(suspended.items, timer)) then OK else UNEXIST
    {
      InLists(timer);
      err := TakeFrom(suspended, active, timer);
      if err == OK {
        timer.data := timer.data.(enabled := true);
        AppendTo(active, suspended, timer);
      }
    }

    /** XPR_TimerEnable and XPR_TimerDisable on a timer that was added to this queue. */
    method Enable(timer: TimerNode)
      requires Valid() && Queued(Abs(), timer)
      modifies active, suspended, timer, active.nodes`next, suspended.nodes`next
      ensures Valid()
      ensures Abs() == EnableIn(old(Abs()), timer)
    {
      InLists(timer);
      if !timer.data.enabled {
        var err := Resume(timer);
      }
    }

    method Disable(timer: TimerNode)
      requires Valid() && Queued(Abs(), timer)
      modifies active, suspended, timer, active.nodes`next, suspended.nodes`next
      ensures Valid()
      ensures Abs() == DisableIn(old(Abs()), timer)
    {
      InLists(timer);
      if timer.data.enabled {
        var err := Suspend(timer);
      }
    }

    /** Add a fresh single-shot timer. The source frees it again when the append fails, which it cannot. */
    method SingleShot(interval: int, now: int) returns (timer: TimerNode)
      requires Valid() && Reachable(Abs())
      modifies active, suspended, active.nodes`next, suspended.nodes`next
      ensures Valid() && fresh(timer)
      ensures timer !in old(Abs()).freed
        && Abs() == AddTo(old(Abs()), timer, Timer(SINGLESHOT_ID, interval, 0, true, true, false), now)
      ensures timer.data == Timer(-1, interval, now + interval, true, true, false) && timer in active.nodes
    {
      timer := new Node(Timer(SINGLESHOT_ID, interval, 0, true, true, false));
      InLists(timer);
      Add(timer, now);
    }

    /** Write the fields of a queued timer that the lists are not sorted by. No lock is taken. */
    method SetField(timer: TimerNode, data: Timer)
      requires Valid() && Queued(Abs(), timer)
      requires data.expire == timer.data.expire
      modifies timer`data, active`items, suspended`items
      ensures Valid()
      ensures Abs() == SetFields(old(Abs()), timer, data) && timer.data == data
    {
      InLists(timer);
      ghost var isActive := In(active.items, timer);
      Rewrite(if isActive then active else suspended, if isActive then suspended else active, timer, data);
    }

    method SetTimerInterval(timer: TimerNode, interval: int)
      requires Valid() && Queued(Abs(), timer)
      modifies timer`data, active`items, suspended`items
      ensures Valid()
      ensures Abs() == Apply(old(Abs()), SetInterval(timer, interval))
      ensures timer.data == old(timer.data).(interval := interval)
    {
      InLists(timer);
      SetField(timer, timer.data.(interval := interval));
    }

    method TerminateTimer(timer: TimerNode)
      requires Valid() && Queued(Abs(), timer)
      modifies timer`data, active`items, suspended`items
      ensures Valid()
      ensures Abs() == Apply(old(Abs()), MarkTerminate(timer))
      ensures timer.data == old(timer.data).(terminate := true)
    {
      InLists(timer);
      SetField(timer, timer.data.(terminate := true));
    }

    /** Make the callback, unless the timer is marked for termination. `ret` is the callback's answer
        and `now` the clock reading after it. */
    method Exec(timer: TimerNode, now: int, ret: Ret) returns (tr: Ret)
      requires timer.data.enabled
      modifies this`fired, timer`data
      ensures timer.data == After(old(timer.data), now, ret)
      ensures fired == if Called(old(timer.data)) then old(fired) + [timer] else old(fired)
      ensures Destination(tr) == OutcomeOf(old(timer.data), ret)
    {
      if timer.data.terminate {
        return Terminate;
      }
      tr := ret;
      fired := fired + [timer];
      if tr == Continue {
        timer.data := timer.data.(expire := now + timer.data.interval);
      }
      if timer.data.singleShot {
        tr := Terminate;
      }
    }

    /** The list transfer of lines 228 to 233. */
    method Place(timer: TimerNode, tr: Ret)
      requires Valid() && timer !in active.nodes && timer !in suspended.nodes
      modifies this`freed, active, suspended, timer`next, active.nodes`next, suspended.nodes`next
      ensures Valid()
      ensures Placed(old(Abs()), Abs(), Item(timer, timer.data), Destination(tr)) && fired == old(fired)
      ensures forall n :: n in active.nodes || n in suspended.nodes ==>
        n in old(active.nodes) || n in old(suspended.nodes) || n == timer
    {
      InLists(timer);
      if tr == Continue {
        AppendTo(active, suspended, timer);
      } else if tr == Ret.Suspend {
        AppendTo(suspended, active, timer);
      } else {
        freed := freed + {timer};
      }
    }

    /** Run a timer that was taken: lines 226 to 237. */
    method RunTaken(timer: TimerNode, now: int, ret: Ret)
      requires Valid() && timer !in active.nodes && timer !in suspended.nodes
      modifies this`freed, this`fired, active, suspended, timer, active.nodes`next, suspended.nodes`next
      ensures Valid()
      ensures Placed(old(Abs()), Abs(), Item(timer, After(old(timer.data), now, ret)), OutcomeOf(old(timer.data), ret))
      ensures fired == if Called(old(timer.data)) then old(fired) + [timer] else old(fired)
      ensures forall n :: n in active.nodes || n in suspended.nodes ==>
        n in old(active.nodes) || n in old(suspended.nodes) || n == timer
    {
      if timer.data.enabled {
        var tr := Exec(timer, now, ret);
        Place(timer, tr);
      } else {
        Place(timer, Ret.Suspend);
      }
    }

    /** Take the timer, run it, and put it where its answer says. */
    method RunTimer(timer: TimerNode, now: int, ret: Ret, ghost c: nat)
      requires Valid() && c < |active.nodes| && active.nodes[c] == timer
      modifies this`freed, this`fired, active, suspended, timer, active.nodes`next, suspended.nodes`next
      ensures Valid()
      ensures Abs() == Visit(old(Abs()), c, now, ret)
      ensures forall n :: n in active.nodes || n in suspended.nodes ==>
        n in old(active.nodes) || n in old(suspended.nodes)
    {
      TakeIs(active.nodes, active.items, timer, c);
      var err := TakeFrom(active, suspended, timer);
      RunTaken(timer, now, ret);
    }

    /** One turn of the due scan. The next timer is fetched before the current one is taken. */
    method ScanTurn(timer: TimerNode, now: int, ret: Ret, ghost c: nat) returns (nextTimer: Node?<Timer>)
      requires Valid() && c < |active.nodes| && active.nodes[c] == timer
      modifies this`freed, this`fired, active, suspended, Nodes()
      ensures Valid()
      ensures Abs() == Visit(old(Abs()), c, now, ret)
      ensures nextTimer == if c + 1 < |old(active.items)| then old(active.items)[c + 1].node else null
      ensures Nodes() <= old(Nodes())
    {
      nextTimer := active.NextNl(timer, c);
      RunTimer(timer, now, ret, c);
    }

    /** A turn at the i-th loop test is a step of the scan. */
    method Turn(timer: TimerNode, env: Env, i: nat, ghost p: Pass<TimerNode>, ghost left: nat)
      returns (nextTimer: Node?<Timer>, ghost q: Pass<TimerNode>)
      requires Valid() && p.s == Abs() && |p.visited| == i && Inv(p.s)
      requires p.cursor < |p.s.active| && p.s.active[p.cursor].node == timer && !Done(p, env) && Ends(p, env, left)
      modifies this`freed, this`fired, active, suspended, Nodes()
      ensures Valid() && q.s == Abs() && |q.visited| == i + 1 && Inv(q.s)
      ensures nextTimer == if q.cursor < |q.s.active| then q.s.active[q.cursor].node else null
      ensures Nodes() <= old(Nodes())
      ensures left > 0 && Ends(q, env, left - 1) && Steps(q, env, left - 1) == Steps(p, env, left)
    {
      hide *;
      AtIndex(p.cursor);
      TurnKeeps(p, env, left);
      q := Step(p, env);
      nextTimer := ScanTurn(timer, env.rearm(i), env.ret(i), p.cursor);
    }

    /** One due scan that ends after `steps` turns, lines 220 to 239. */
    method DueScan(env: Env, ghost steps: nat)
      requires Valid() && Reachable(Abs()) && Allowed(Abs(), DuePass(env, steps))
      modifies this`freed, this`fired, active, suspended, Nodes()
      ensures Valid()
      ensures Abs() == Apply(old(Abs()), DuePass(env, steps))
    {
      hide *;
      ScanStarts(Abs(), env, steps);
      AtIndex(0);
      var timer := active.head;
      var i := 0;
      ghost var p, left := Start(Abs()), steps;
      while timer != null
        invariant Valid() && p.s == Abs() && |p.visited| == i && Inv(p.s)
        invariant timer == if p.cursor < |p.s.active| then p.s.active[p.cursor].node else null
        invariant Nodes() <= old(Nodes())
        invariant Ends(p, env, left) && Steps(p, env, left) == Steps(Start(old(Abs())), env, steps)
        decreases left
      {
        AtIndex(p.cursor);
        ScanTest(p, env, left);
        if timer.data.expire > env.check(i) {
          break;
        }
        timer, p := Turn(timer, env, i, p, left);
        i, left := i + 1, left - 1;
      }
      ScanTest(p, env, left);
    }

    /** What the list says about the timer at index c. */
    lemma AtIndex(c: nat)
      requires Valid()
      ensures Abs().active == active.items && |active.nodes| == |active.items|
      ensures c < |active.items| ==>
        active.nodes[c] == active.items[c].node && active.items[c].node.data == active.items[c].key
      ensures active.head == if active.items == [] then null else active.items[0].node
    {
    }
  }

  lemma ScanStarts(s: State<TimerNode>, env: Env, steps: nat)
    requires Reachable(s) && Allowed(s, DuePass(env, steps))
    ensures Inv(s) && Start(s).s == s && Start(s).visited == [] && Start(s).cursor == 0
    ensures Ends(Start(s), env, steps) && Steps(Start(s), env, steps).s == Apply(s, DuePass(env, steps))
  {
  }

  /** The loop test, and what the scan has computed when it fails. */
  lemma ScanTest(p: Pass<TimerNode>, env: Env, left: nat)
    ensures Done(p, env) <==> p.cursor >= |p.s.active| || p.s.active[p.cursor].key.expire > env.check(|p.visited|)
    ensures Done(p, env) ==> Steps(p, env, left) == p
  {
  }

  lemma TurnKeeps(p: Pass<TimerNode>, env: Env, left: nat)
    requires Inv(p.s) && !Done(p, env) && Ends(p, env, left)
    ensures left > 0
    ensures var q, c := Step(p, env), p.cursor;
      && Inv(q.s) && |q.visited| == |p.visited| + 1
      && q.s == Visit(p.s, c, env.rearm(|p.visited|), env.ret(|p.visited|))
      && Steps(q, env, left - 1) == Steps(p, env, left) && Ends(q, env, left - 1)
      && (if c + 1 < |p.s.active| then q.cursor < |q.s.active| && q.s.active[q.cursor] == p.s.active[c + 1]
          else q.cursor == |q.s.active|)
  {
    StepCursorNext(p, env);
    VisitKeeps(p.s, p.cursor, env.rearm(|p.visited|), env.ret(|p.visited|));
    hide Visit;
  }
}
