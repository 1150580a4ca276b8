/** The timer queue of src/xpr_timer_unix.c as a state machine over its locked steps.

    A timer is identified by its node N. The environment supplies the clock readings and what the
    callbacks return; callbacks do not touch the queue. */
module TimerModel {
  import opened StableSort

  datatype Timer = Timer(id: int, interval: int, expire: int, enabled: bool, singleShot: bool, terminate: bool)

  datatype Ret = Continue | Suspend | Terminate

  function NodeCompare(a: Timer, b: Timer): int {
    if a.expire < b.expire then -1 else if a.expire > b.expire then 1 else 0
  }

  ghost function ByExpire(): (Timer, Timer) -> bool {
    Order(NodeCompare, false)
  }

  lemma ByExpireAt(a: Timer, b: Timer)
    ensures ByExpire()(a, b) <==> a.expire <= b.expire
  {
    var le := Order(NodeCompare, false);
    assert le(a, b) <==> NodeCompare(a, b) <= 0;
  }

  lemma ByExpireIsTotal()
    ensures TotalPreorder(ByExpire())
    ensures forall a, b :: ByExpire()(a, b) <==> a.expire <= b.expire
  {
    forall a, b ensures ByExpire()(a, b) <==> a.expire <= b.expire { ByExpireAt(a, b); }
  }

  type Entries<N> = seq<Item<N, Timer>>

  /** `freed` holds the timers given back to the allocator, `fired` every callback made, in order. */
  datatype State<N> = State(active: Entries<N>, suspended: Entries<N>, freed: set<N>, fired: seq<N>)

  // ----- lists of timers

  ghost function IndexOf<N>(xs: Entries<N>, n: N): (i: nat)
    ensures i <= |xs|
    ensures forall j :: 0 <= j < i ==> xs[j].node != n
    ensures i < |xs| ==> xs[i].node == n
  {
    if xs == [] || xs[0].node == n then 0 else 1 + IndexOf(xs[1..], n)
  }

  ghost predicate In<N>(xs: Entries<N>, n: N) {
    IndexOf(xs, n) < |xs|
  }

  ghost predicate DistinctNodes<N>(xs: Entries<N>) {
    forall i, j :: 0 <= i < j < |xs| ==> xs[i].node != xs[j].node
  }

  /** Sorted by expiry, no timer twice. */
  ghost predicate Ok<N>(xs: Entries<N>) {
    Sorted(xs, ByExpire()) && DistinctNodes(xs)
  }

  lemma InIff<N>(xs: Entries<N>, n: N)
    ensures In(xs, n) <==> exists it :: it in xs && it.node == n
  {
    if In(xs, n) { assert xs[IndexOf(xs, n)] in xs; }
  }

  lemma InsertOk<N>(xs: Entries<N>, x: Item<N, Timer>)
    requires Ok(xs) && !In(xs, x.node)
    ensures Ok(Insert(xs, x, ByExpire()))
    ensures forall y :: y in Insert(xs, x, ByExpire()) <==> y in xs || y == x
    ensures forall n :: In(Insert(xs, x, ByExpire()), n) <==> In(xs, n) || n == x.node
  {
    ByExpireIsTotal();
    InsertSorted(xs, x, ByExpire());
    var p := Position(xs, x.key, ByExpire());
    var r := Insert(xs, x, ByExpire());
    SpliceFacts(xs, p, x);
    forall i, j | 0 <= i < j < |r| ensures r[i].node != r[j].node {
      assert forall k :: 0 <= k < |xs| ==> xs[k].node != x.node;
    }
    forall n ensures In(r, n) <==> In(xs, n) || n == x.node {
      InIff(xs, n);
      InIff(r, n);
      assert x in r;
    }
  }

  lemma DropOk<N>(xs: Entries<N>, i: nat)
    requires Ok(xs) && i < |xs|
    ensures Ok(Drop(xs, i))
    ensures forall y :: y in Drop(xs, i) <==> y in xs && y.node != xs[i].node
    ensures forall n :: In(Drop(xs, i), n) <==> In(xs, n) && n != xs[i].node
  {
    var r := Drop(xs, i);
    assert forall y :: y in xs && y.node == xs[i].node ==> y == xs[i];
    DropFacts(xs, i);
    assert forall j :: 0 <= j < |r| ==> r[j].node != xs[i].node;
    forall n ensures In(r, n) <==> In(xs, n) && n != xs[i].node {
      InIff(xs, n);
      InIff(r, n);
    }
  }

  // ----- one visit of the due scan

  datatype Outcome = ToActive | ToSuspended | ToFreed

  /** Is the callback made? Not for a disabled timer, nor for one marked for termination. */
  ghost predicate Called(t: Timer) {
    t.enabled && !t.terminate
  }

  /** Which list the visited timer goes to (lines 176-185 and 226-237), given the callback's answer. */
  ghost function OutcomeOf(t: Timer, ret: Ret): Outcome {
    if !t.enabled then ToSuspended
    else if t.terminate || t.singleShot || ret == Terminate then ToFreed
    else if ret == Suspend then ToSuspended
    else ToActive
  }

  /** The timer after its callback: one that continues is re-armed from the clock reading `now`. */
  ghost function After(t: Timer, now: int, ret: Ret): Timer {
    if Called(t) && ret == Continue then t.(expire := now + t.interval) else t
  }

  /** Run the timer at index c of the active list: lines 225 to 237. */
  ghost function Visit<N>(s: State<N>, c: nat, now: int, ret: Ret): State<N>
    requires c < |s.active|
  {
    var n, t := s.active[c].node, s.active[c].key;
    var x, rest, out := Item(n, After(t, now, ret)), Drop(s.active, c), OutcomeOf(t, ret);
    State(if out == ToActive then Insert(rest, x, ByExpire()) else rest,
          if out == ToSuspended then Insert(s.suspended, x, ByExpire()) else s.suspended,
          if out == ToFreed then s.freed + {n} else s.freed,
          if Called(t) then s.fired + [n] else s.fired)
  }

  // ----- the due scan

  /** What one scan sees of the outside: the reading at its i-th loop test, the reading that re-arms
      the timer of its i-th visit, and that timer's answer. */
  datatype Env = Env(check: nat -> int, rearm: nat -> int, ret: nat -> Ret)

  ghost predicate ClockForward(env: Env) {
    forall i: nat :: env.check(i) <= env.rearm(i) <= env.check(i + 1)
  }

  /** The clock never passes `bound` during the scan. */
  ghost predicate ClockBounded(env: Env, bound: int) {
    forall i: nat :: env.check(i) <= bound
  }

  /** A scan in progress. `cursor` is the index of the timer fetched as the next one (the length of
      the list stands for none); `visited` and `rearmed` are history. */
  datatype Pass<N> = Pass(s: State<N>, cursor: nat, visited: seq<N>, rearmed: set<N>)

  ghost function Start<N>(s: State<N>): Pass<N> {
    Pass(s, 0, [], {})
  }

  ghost predicate Done<N>(p: Pass<N>, env: Env) {
    p.cursor >= |p.s.active| || p.s.active[p.cursor].key.expire > env.check(|p.visited|)
  }

  ghost function Step<N>(p: Pass<N>, env: Env): Pass<N>
    requires !Done(p, env)
  {
    var i := |p.visited|;
    var n, t := p.s.active[p.cursor].node, p.s.active[p.cursor].key;
    var rearms := OutcomeOf(t, env.ret(i)) == ToActive;
    var at := Position(Drop(p.s.active, p.cursor), After(t, env.rearm(i), env.ret(i)), ByExpire());
    Pass(Visit(p.s, p.cursor, env.rearm(i), env.ret(i)),
         if rearms && at <= p.cursor then p.cursor + 1 else p.cursor,
         p.visited + [n],
         if rearms then p.rearmed + {n} else p.rearmed)
  }

  /** Can the timer come back to the active list from a visit? */
  ghost predicate Rearms(t: Timer) {
    t.enabled && !t.singleShot && !t.terminate
  }

  /** A timer that can come back does so later than now. */
  ghost predicate PositiveIntervals<N>(xs: Entries<N>) {
    forall it :: it in xs && Rearms(it.key) ==> it.key.interval > 0
  }

  /** How much time the active timers can still use up before the clock bound. */
  ghost function Weight<N>(xs: Entries<N>, bound: int): nat {
    if xs == [] then 0 else Slack(xs[0], bound) + Weight(xs[1..], bound)
  }

  ghost function Slack<N>(it: Item<N, Timer>, bound: int): nat {
    if it.key.expire <= bound then bound + 1 - it.key.expire else 0
  }

  lemma {:induction false} WeightAppend<N>(xs: Entries<N>, ys: Entries<N>, bound: int)
    ensures Weight(xs + ys, bound) == Weight(xs, bound) + Weight(ys, bound)
  {
    if xs == [] {
      assert xs + ys == ys;
    } else {
      assert (xs + ys)[1..] == xs[1..] + ys;
      WeightAppend(xs[1..], ys, bound);
    }
  }

  lemma WeightSplice<N>(xs: Entries<N>, i: nat, x: Item<N, Timer>, bound: int)
    requires i <= |xs|
    ensures Weight(Splice(xs, i, x), bound) == Weight(xs, bound) + Slack(x, bound)
  {
    assert Splice(xs, i, x) == xs[..i] + ([x] + xs[i..]);
    WeightAppend(xs[..i], [x] + xs[i..], bound);
    WeightAppend(xs[..i], xs[i..], bound);
    assert xs == xs[..i] + xs[i..];
    assert ([x] + xs[i..])[1..] == xs[i..];
  }

  lemma WeightDrop<N>(xs: Entries<N>, i: nat, bound: int)
    requires i < |xs|
    ensures Weight(Drop(xs, i), bound) == Weight(xs, bound) - Slack(xs[i], bound)
  {
    WeightSplice(Drop(xs, i), i, xs[i], bound);
    assert Splice(Drop(xs, i), i, xs[i]) == xs;
  }

  /** A visit lowers the weight: the timer leaves, or moves to a strictly later expiry. */
  lemma StepProgress<N>(p: Pass<N>, env: Env, bound: int)
    requires !Done(p, env) && ClockForward(env) && ClockBounded(env, bound)
    requires PositiveIntervals(p.s.active)
    ensures Weight(Step(p, env).s.active, bound) < Weight(p.s.active, bound)
    ensures PositiveIntervals(Step(p, env).s.active)
  {
    var i := |p.visited|;
    var it, rest := p.s.active[p.cursor], Drop(p.s.active, p.cursor);
    assert it in p.s.active && env.check(i) <= bound;
    WeightDrop(p.s.active, p.cursor, bound);
    assert forall y :: y in rest ==> y in p.s.active;
    WeightInsert(rest, Item(it.node, After(it.key, env.rearm(i), env.ret(i))), bound);
  }

  lemma WeightInsert<N>(xs: Entries<N>, x: Item<N, Timer>, bound: int)
    ensures Weight(Insert(xs, x, ByExpire()), bound) == Weight(xs, bound) + Slack(x, bound)
    ensures forall y :: y in Insert(xs, x, ByExpire()) <==> y in xs || y == x
  {
    var q := Position(xs, x.key, ByExpire());
    WeightSplice(xs, q, x, bound);
    SpliceFacts(xs, q, x);
  }

  /** The scan after m steps, or earlier if it ends. */
  ghost function Steps<N>(p: Pass<N>, env: Env, m: nat): (r: Pass<N>)
    decreases m
  {
    if m == 0 || Done(p, env) then p else Steps(Step(p, env), env, m - 1)
  }

  /** Does the scan end after m steps? The source has no bound of its own. */
  ghost predicate Ends<N>(p: Pass<N>, env: Env, m: nat) {
    Done(Steps(p, env, m), env)
  }

  lemma EndsLater<N>(p: Pass<N>, env: Env, m: nat)
    ensures Ends(p, env, 0) <==> Done(p, env)
    ensures m > 0 && !Done(p, env) ==> (Ends(p, env, m) <==> Ends(Step(p, env), env, m - 1))
  {
  }

  /** Positive intervals and a clock that stays below some bound let every scan end. */
  lemma {:induction false} BoundedScanEnds<N>(p: Pass<N>, env: Env, bound: int) returns (m: nat)
    requires ClockForward(env) && ClockBounded(env, bound) && PositiveIntervals(p.s.active)
    ensures Ends(p, env, m)
    decreases Weight(p.s.active, bound)
  {
    hide Weight, Done, Step, Ends;
    if Done(p, env) {
      m := 0;
    } else {
      StepProgress(p, env, bound);
      m := BoundedScanEnds(Step(p, env), env, bound);
      m := m + 1;
    }
    EndsLater(p, env, m);
  }
}
