/** What the timer queue keeps over every run, and what one due scan does. */
module TimerTheorems {
  import opened Common
  import opened StableSort
  import opened TimerModel

  // ----- the invariant of every reachable state

  ghost predicate Inv<N>(s: State<N>) {
    && Ok(s.active) && Ok(s.suspended)
    && (forall a, b :: a in s.active && b in s.suspended ==> a.node != b.node)
    && (forall it :: it in s.active ==> it.key.enabled)
    && Live(s.active, s) && Live(s.suspended, s)
  }

  /** A queued timer is not freed, and a queued single-shot timer has not been called. */
  ghost predicate Live<N>(xs: Entries<N>, s: State<N>) {
    forall it :: it in xs ==> it.node !in s.freed && (it.key.singleShot ==> it.node !in s.fired)
  }

  /** Is the timer known: active, suspended or freed? Under Inv it is in exactly one of the three. */
  ghost predicate Known<N>(s: State<N>, n: N) {
    In(s.active, n) || In(s.suspended, n) || n in s.freed
  }

  /** Where the visited timer goes, and that nothing else moves. */
  lemma VisitMoves<N>(s: State<N>, c: nat, now: int, ret: Ret)
    requires Inv(s) && c < |s.active|
    ensures var it, v := s.active[c], Visit(s, c, now, ret);
      var x, out := Item(it.node, After(it.key, now, ret)), OutcomeOf(it.key, ret);
      && (forall y :: y in v.active <==> (y in s.active && y.node != it.node) || (out == ToActive && y == x))
      && (forall y :: y in v.suspended <==> y in s.suspended || (out == ToSuspended && y == x))
      && Ok(v.active) && Ok(v.suspended)
  {
    var it := s.active[c];
    assert it in s.active;
    DropOk(s.active, c);
    var x, rest := Item(it.node, After(it.key, now, ret)), Drop(s.active, c);
    InIff(rest, it.node);
    InIff(s.suspended, it.node);
    InsertOk(rest, x);
    InsertOk(s.suspended, x);
  }

  lemma VisitKeeps<N>(s: State<N>, c: nat, now: int, ret: Ret)
    requires Inv(s) && c < |s.active|
    ensures Inv(Visit(s, c, now, ret))
  {
    var v, it := Visit(s, c, now, ret), s.active[c];
    VisitMoves(s, c, now, ret);
    assert it in s.active;
    assert Live(v.active, v) && Live(v.suspended, v) by {
      assert forall y :: y in s.active && y.node == it.node ==> y == it;
    }
    assert forall y :: y in s.suspended ==> y.node != it.node;
  }

  lemma VisitKnows<N>(s: State<N>, c: nat, now: int, ret: Ret, n: N)
    requires Inv(s) && c < |s.active|
    ensures Known(Visit(s, c, now, ret), n) <==> Known(s, n)
  {
    var v, it := Visit(s, c, now, ret), s.active[c];
    VisitMoves(s, c, now, ret);
    assert it in s.active;
    InIff(s.active, n); InIff(s.suspended, n); InIff(v.active, n); InIff(v.suspended, n);
    if n == it.node {
      var x := Item(it.node, After(it.key, now, ret));
      assert OutcomeOf(it.key, ret) == ToActive ==> x in v.active;
      assert OutcomeOf(it.key, ret) == ToSuspended ==> x in v.suspended;
    }
  }

  /** What every visit keeps, every scan keeps, whatever the clock and the callbacks do. */
  lemma {:induction false} StepsInv<N>(p: Pass<N>, env: Env, m: nat)
    requires Inv(p.s)
    ensures Inv(Steps(p, env, m).s)
    decreases m
  {
    hide Visit;
    if m > 0 && !Done(p, env) {
      var i := |p.visited|;
      VisitKeeps(p.s, p.cursor, env.rearm(i), env.ret(i));
      StepsInv(Step(p, env), env, m - 1);
    }
  }

  lemma {:induction false} StepsKnow<N>(p: Pass<N>, env: Env, m: nat, n: N)
    requires Inv(p.s)
    ensures Known(Steps(p, env, m).s, n) <==> Known(p.s, n)
    decreases m
  {
    hide Visit;
    if m > 0 && !Done(p, env) {
      var i := |p.visited|;
      VisitKeeps(p.s, p.cursor, env.rearm(i), env.ret(i));
      VisitKnows(p.s, p.cursor, env.rearm(i), env.ret(i), n);
      StepsKnow(Step(p, env), env, m - 1, n);
    }
  }

  // ----- the cursor of a scan

  /** Everything in front of the prefetched cursor was put back by this scan. */
  ghost predicate CursorInv<N>(p: Pass<N>) {
    p.cursor <= |p.s.active| && forall j :: 0 <= j < p.cursor ==> p.s.active[j].node in p.rearmed
  }

  /** Taking the item at the cursor and putting another one back moves the cursor by one exactly when
      the new place is not behind it. */
  lemma CursorShift<N>(xs: Entries<N>, c: nat, x: Item<N, Timer>, at: nat, rearmed: set<N>)
    requires c < |xs| && at < |xs|
    requires forall j :: 0 <= j < c ==> xs[j].node in rearmed
    ensures var ys, k := Splice(Drop(xs, c), at, x), if at <= c then c + 1 else c;
      forall j :: 0 <= j < k ==> ys[j].node in rearmed + {x.node}
  {
  }

  lemma StepCursor<N>(p: Pass<N>, env: Env)
    requires Inv(p.s) && CursorInv(p) && !Done(p, env)
    ensures CursorInv(Step(p, env))
  {
    var i, c := |p.visited|, p.cursor;
    var it, rest := p.s.active[c], Drop(p.s.active, c);
    var x := Item(it.node, After(it.key, env.rearm(i), env.ret(i)));
    CursorShift(p.s.active, c, x, Position(rest, x.key, ByExpire()), p.rearmed);
  }

  lemma CursorNextAt<N>(xs: Entries<N>, c: nat, x: Item<N, Timer>, at: nat)
    requires c < |xs| && at < |xs|
    ensures var ys, k := Splice(Drop(xs, c), at, x), if at <= c then c + 1 else c;
      if c + 1 < |xs| then k < |ys| && ys[k] == xs[c + 1] else k == |ys|
  {
  }

  /** The prefetched next timer is what the cursor stands on after the step. */
  lemma StepCursorNext<N>(p: Pass<N>, env: Env)
    requires !Done(p, env)
    ensures var q := Step(p, env);
      if p.cursor + 1 < |p.s.active| then q.cursor < |q.s.active| && q.s.active[q.cursor] == p.s.active[p.cursor + 1]
      else q.cursor == |q.s.active|
  {
    hide ByExpire, OutcomeOf, After, Called, Position;
    var i, c := |p.visited|, p.cursor;
    var x := Item(p.s.active[c].node, After(p.s.active[c].key, env.rearm(i), env.ret(i)));
    CursorNextAt(p.s.active, c, x, Position(Drop(p.s.active, c), x.key, ByExpire()));
  }

  lemma {:induction false} StepsCursor<N>(p: Pass<N>, env: Env, m: nat)
    requires Inv(p.s) && CursorInv(p)
    ensures CursorInv(Steps(p, env, m))
    decreases m
  {
    hide Visit;
    if m > 0 && !Done(p, env) {
      var i := |p.visited|;
      StepCursor(p, env);
      VisitKeeps(p.s, p.cursor, env.rearm(i), env.ret(i));
      StepsCursor(Step(p, env), env, m - 1);
    }
  }

  /** When a scan ends, every active timer it did not put back itself expires after its last clock
      reading, although each next timer was fetched before the current one was taken and re-inserted. */
  lemma NoDueTimerMissed<N>(s: State<N>, env: Env, m: nat, it: Item<N, Timer>)
    requires Inv(s) && Ends(Start(s), env, m)
    ensures var r := Steps(Start(s), env, m);
      it in r.s.active && it.node !in r.rearmed ==> it.key.expire > env.check(|r.visited|)
  {
    var r := Steps(Start(s), env, m);
    StepsCursor(Start(s), env, m);
    StepsInv(Start(s), env, m);
    ByExpireIsTotal();
    if it in r.s.active && it.node !in r.rearmed {
      var j :| 0 <= j < |r.s.active| && r.s.active[j] == it;
      assert j >= r.cursor;
      assert j > r.cursor ==> ByExpire()(r.s.active[r.cursor].key, it.key);
    }
  }

  // ----- when a scan ends

  ghost predicate AtMostOneRearms<N>(xs: Entries<N>) {
    forall a, b :: a in xs && b in xs && Rearms(a.key) && Rearms(b.key) ==> a.node == b.node
  }

  /** A step lowers this when at most one timer can be re-armed. */
  ghost function Left<N>(p: Pass<N>): nat {
    2 * |p.s.active| + if p.cursor < |p.s.active| && Rearms(p.s.active[p.cursor].key) then 1 else 0
  }

  lemma OneRearmsStep<N>(p: Pass<N>, env: Env)
    requires Inv(p.s) && AtMostOneRearms(p.s.active) && !Done(p, env)
    ensures var q := Step(p, env); Inv(q.s) && AtMostOneRearms(q.s.active) && Left(q) < Left(p)
  {
    var i := |p.visited|;
    var it, now, ret := p.s.active[p.cursor], env.rearm(i), env.ret(i);
    assert it in p.s.active;
    VisitSize(p.s, p.cursor, now, ret);
    StepCursorNext(p, env);
    VisitKeeps(p.s, p.cursor, now, ret);
    VisitMoves(p.s, p.cursor, now, ret);
    hide Visit, Ok, Live;
    var q := Step(p, env);
    OneRearmsKept(p.s.active, q.s.active, it, Item(it.node, After(it.key, now, ret)),
      OutcomeOf(it.key, ret) == ToActive);
    if p.cursor + 1 < |p.s.active| { OtherStays(p.s.active, p.cursor); }
  }

  lemma OneRearmsKept<N>(xs: Entries<N>, ys: Entries<N>, it: Item<N, Timer>, x: Item<N, Timer>, back: bool)
    requires AtMostOneRearms(xs) && it in xs && (back ==> Rearms(it.key) && x.node == it.node)
    requires forall y :: y in ys <==> (y in xs && y.node != it.node) || (back && y == x)
    ensures AtMostOneRearms(ys)
  {
  }

  /** The timer behind one that can be re-armed cannot. */
  lemma OtherStays<N>(xs: Entries<N>, c: nat)
    requires AtMostOneRearms(xs) && DistinctNodes(xs) && c + 1 < |xs|
    ensures Rearms(xs[c].key) ==> !Rearms(xs[c + 1].key)
  {
    assert xs[c] in xs && xs[c + 1] in xs;
  }

  lemma VisitSize<N>(s: State<N>, c: nat, now: int, ret: Ret)
    requires c < |s.active|
    ensures |Visit(s, c, now, ret).active| == |s.active| - if OutcomeOf(s.active[c].key, ret) == ToActive then 0 else 1
  {
  }

  /** With at most one timer that can be re-armed the scan ends, whatever the clock and the callbacks do:
      between two visits of that timer another timer leaves the active list. */
  lemma {:induction false} OneRearmsEnds<N>(p: Pass<N>, env: Env) returns (m: nat)
    requires Inv(p.s) && AtMostOneRearms(p.s.active)
    ensures Ends(p, env, m)
    decreases Left(p)
  {
    hide Left, Done, Step, Ends;
    if Done(p, env) {
      m := 0;
    } else {
      OneRearmsStep(p, env);
      m := OneRearmsEnds(Step(p, env), env);
      m := m + 1;
    }
    EndsLater(p, env, m);
  }

  ghost function Tick(k: nat, i: nat): int { 2 * k * (i + 1) }

  lemma TickNext(k: nat, i: nat)
    ensures Tick(k, i + 1) == Tick(k, i) + 2 * k
  {
  }

  /** A clock that gains 2k between two readings, and callbacks that all continue. */
  ghost function Runaway(k: nat): Env {
    Env((i: nat) => Tick(k, i), (i: nat) => Tick(k, i), (i: nat) => Continue)
  }

  /** All expiries and intervals are below k, in size. */
  ghost predicate Below<N>(xs: Entries<N>, k: nat) {
    forall i :: 0 <= i < |xs| ==> xs[i].key.expire < k && -(k as int) < xs[i].key.interval < k
  }

  lemma {:induction false} SomeBound<N>(xs: Entries<N>) returns (k: nat)
    ensures k > 0 && Below(xs, k)
  {
    k := 1;
    if xs != [] {
      k := SomeBound(xs[1..]);
      var t := xs[0].key;
      var a, b := if t.expire > 0 then t.expire else 0, if t.interval > 0 then t.interval else -t.interval;
      k := k + a + b + 1;
      assert forall i :: 0 < i < |xs| ==> xs[i] == xs[1..][i - 1];
    }
  }

  ghost predicate Early<N>(xs: Entries<N>, limit: int, k: nat) {
    forall y :: y in xs ==> y.key.expire < limit - k && -(k as int) < y.key.interval < k
  }

  /** The scan stands at the head, every timer is due and will be at the tail when re-armed, and two that
      can be re-armed, a and b, are there. */
  ghost predicate Spinning<N>(p: Pass<N>, k: nat, a: N, b: N) {
    && Inv(p.s) && p.cursor == 0 && a != b
    && Early(p.s.active, Tick(k, |p.visited|), k)
    && Comes(p.s.active, a) && Comes(p.s.active, b)
  }

  /** A timer that can be re-armed is there. */
  ghost predicate Comes<N>(xs: Entries<N>, n: N) {
    exists y :: y in xs && y.node == n && Rearms(y.key)
  }

  lemma {:induction false} SpinningGoesOn<N>(p: Pass<N>, k: nat, env: Env, a: N, b: N, m: nat)
    requires k > 0 && env == Runaway(k) && Spinning(p, k, a, b)
    ensures !Ends(p, env, m)
    decreases m
  {
    hide *;
    SpinningStep(p, k, a, b);
    EndsLater(p, env, m);
    if m > 0 { SpinningGoesOn(Step(p, env), k, env, a, b, m - 1); }
  }

  lemma SpinningStep<N>(p: Pass<N>, k: nat, a: N, b: N)
    requires k > 0 && Spinning(p, k, a, b)
    ensures !Done(p, Runaway(k)) && Spinning(Step(p, Runaway(k)), k, a, b)
  {
    var i := |p.visited|;
    var now := Tick(k, i);
    TickNext(k, i);
    TwoAreThere(p.s.active, a, b);
    var it := p.s.active[0];
    assert it in p.s.active;
    var x, back := Item(it.node, After(it.key, now, Continue)), OutcomeOf(it.key, Continue) == ToActive;
    SpinningTurn(p, k, x);
    VisitMoves(p.s, 0, now, Continue);
    VisitKeeps(p.s, 0, now, Continue);
    var q := Step(p, Runaway(k));
    EarlyKept(p.s.active, q.s.active, it, x, back, now, k);
    hide Visit, Step, Done, Inv, Comes, Early, After, OutcomeOf;
    StillThere(p.s.active, q.s.active, it, x, a, back);
    StillThere(p.s.active, q.s.active, it, x, b, back);
  }

  lemma EarlyKept<N>(xs: Entries<N>, ys: Entries<N>, it: Item<N, Timer>, x: Item<N, Timer>, back: bool, now: int,
                     k: nat)
    requires Early(xs, now, k) && it in xs
    requires forall y :: y in ys <==> (y in xs && y.node != it.node) || (back && y == x)
    requires back ==> x.key.expire < now + k && x.key.interval == it.key.interval
    ensures Early(ys, now + 2 * k, k)
  {
  }

  /** The head of a spinning scan is due; re-armed, it goes to the end, and the cursor stays at the head. */
  lemma SpinningTurn<N>(p: Pass<N>, k: nat, x: Item<N, Timer>)
    requires k > 0 && Inv(p.s) && p.cursor == 0 && |p.s.active| > 1 && Early(p.s.active, Tick(k, |p.visited|), k)
    requires x == Item(p.s.active[0].node, After(p.s.active[0].key, Tick(k, |p.visited|), Continue))
    ensures !Done(p, Runaway(k))
    ensures var q, now := Step(p, Runaway(k)), Tick(k, |p.visited|);
      q.s == Visit(p.s, 0, now, Continue) && q.cursor == 0 && |q.visited| == |p.visited| + 1
    ensures OutcomeOf(p.s.active[0].key, Continue) == ToActive ==>
      x.key.expire < Tick(k, |p.visited|) + k && x.key.interval == p.s.active[0].key.interval
    ensures forall y :: y in p.s.active && y.node == x.node ==> y == p.s.active[0]
  {
    var rest := Drop(p.s.active, 0);
    assert p.s.active[0] in p.s.active;
    assert forall j :: 0 <= j < |rest| ==> rest[j] in p.s.active;
    LastPlace(rest, x);
    hide Visit, Live, Sorted;
  }

  lemma TwoAreThere<N>(xs: Entries<N>, a: N, b: N)
    requires a != b && Comes(xs, a) && Comes(xs, b)
    ensures |xs| > 1
  {
    var y :| y in xs && y.node == a;
    var z :| z in xs && z.node == b;
    var i :| 0 <= i < |xs| && xs[i] == y;
    var j :| 0 <= j < |xs| && xs[j] == z;
    assert i != j;
  }

  /** A timer that expires behind all others goes to the end. */
  lemma LastPlace<N>(xs: Entries<N>, x: Item<N, Timer>)
    ensures (forall j :: 0 <= j < |xs| ==> xs[j].key.expire <= x.key.expire) ==> Position(xs, x.key, ByExpire()) == |xs|
  {
    ByExpireIsTotal();
    var at := Position(xs, x.key, ByExpire());
    if at < |xs| && xs[at].key.expire <= x.key.expire { ByExpireAt(xs[at].key, x.key); }
  }

  /** A timer that can be re-armed is still active after a visit, its own included. */
  lemma StillThere<N>(xs: Entries<N>, ys: Entries<N>, it: Item<N, Timer>, x: Item<N, Timer>, a: N, back: bool)
    requires forall y :: y in xs && y.node == it.node ==> y == it
    requires forall y :: y in ys <==> (y in xs && y.node != it.node) || (back && y == x)
    requires Comes(xs, a) && x.node == it.node && (Rearms(it.key) ==> back && Rearms(x.key))
    ensures Comes(ys, a)
  {
    var y :| y in xs && y.node == a && Rearms(y.key);
    if a == it.node { assert x in ys; } else { assert y in ys; }
  }

  /** When a scan ends, in terms of the queue: every scan ends, under every clock that moves forward and for
      all answers of the callbacks, if and only if at most one active timer can be re-armed. */
  lemma AllScansEndExactly<N>(s: State<N>)
    requires Inv(s)
    ensures AtMostOneRearms(s.active) <==> forall env :: ClockForward(env) ==> exists m :: Ends(Start(s), env, m)
  {
    if AtMostOneRearms(s.active) {
      forall env | ClockForward(env) ensures exists m :: Ends(Start(s), env, m) {
        var m := OneRearmsEnds(Start(s), env);
      }
    } else {
      var a, b :| a in s.active && b in s.active && Rearms(a.key) && Rearms(b.key) && a.node != b.node;
      var k := SomeBound(s.active);
      RunawayForward(k);
      assert Tick(k, 0) == 2 * k;
      assert Early(s.active, Tick(k, 0), k);
      forall m: nat ensures !Ends(Start(s), Runaway(k), m) {
        SpinningGoesOn(Start(s), k, Runaway(k), a.node, b.node, m);
      }
    }
  }

  lemma RunawayForward(k: nat)
    ensures ClockForward(Runaway(k))
  {
    forall i: nat ensures Runaway(k).check(i) <= Runaway(k).rearm(i) <= Runaway(k).check(i + 1) { TickNext(k, i); }
  }

  // ----- a scan under a clock held still

  ghost predicate ClockStill(env: Env, now: int) {
    forall i: nat :: env.check(i) == now && env.rearm(i) == now
  }

  /** How many leading timers are due. */
  ghost function Due<N>(xs: Entries<N>, now: int): (d: nat)
    ensures d <= |xs|
    ensures forall i :: 0 <= i < d ==> xs[i].key.expire <= now
    ensures d < |xs| ==> xs[d].key.expire > now
  {
    if xs == [] || xs[0].key.expire > now then 0 else 1 + Due(xs[1..], now)
  }

  lemma DueIs<N>(xs: Entries<N>, now: int, d: nat)
    requires d <= |xs|
    requires forall i :: 0 <= i < d ==> xs[i].key.expire <= now
    requires d < |xs| ==> xs[d].key.expire > now
    ensures Due(xs, now) == d
  {
  }

  /** What a due timer becomes: freed, suspended as it was, or active again one interval later. */
  ghost predicate Fate<N>(it: Item<N, Timer>, ret: Ret, now: int, s: State<N>) {
    if it.key.terminate || it.key.singleShot || ret == Terminate then it.node in s.freed
    else if ret == Suspend then it in s.suspended
    else Item(it.node, it.key.(expire := now + it.key.interval)) in s.active
  }

  /** Every timer of `due` has met its fate; the answers are those of visits i, i + 1, ... */
  ghost predicate Fates<N>(due: Entries<N>, env: Env, i: nat, now: int, s: State<N>) {
    due == [] || (Fate(due[0], env.ret(i), now, s) && Fates(due[1..], env, i + 1, now, s))
  }

  /** The callbacks of the timers in `due`: all but those marked for termination. */
  ghost function Calls<N>(due: Entries<N>): seq<N> {
    if due == [] then []
    else (if due[0].key.terminate then [] else [due[0].node]) + Calls(due[1..])
  }

  ghost function NodesOf<N>(xs: Entries<N>): (r: seq<N>)
    ensures |r| == |xs| && forall i :: 0 <= i < |xs| ==> r[i] == xs[i].node
  {
    if xs == [] then [] else [xs[0].node] + NodesOf(xs[1..])
  }

  /** Taking the head off a list that starts with d > 0 due timers leaves the other d - 1 in front. */
  lemma StillTail<N>(xs: Entries<N>, now: int)
    requires Due(xs, now) > 0
    ensures var d, ys := Due(xs, now), Drop(xs, 0); Due(ys, now) == d - 1 && ys[..d - 1] == xs[1..d]
  {
    var d, rest := Due(xs, now), Drop(xs, 0);
    assert forall j :: 0 <= j < |rest| ==> rest[j] == xs[j + 1];
    DueIs(rest, now, d - 1);
  }

  /** Putting a timer in that is not due leaves the due ones in front. */
  lemma StillInsert<N>(xs: Entries<N>, now: int, x: Item<N, Timer>)
    requires x.key.expire > now
    ensures var d, ys := Due(xs, now), Insert(xs, x, ByExpire());
      && Due(ys, now) == d && ys[..d] == xs[..d]
      && Position(xs, x.key, ByExpire()) >= d
  {
    var d, at := Due(xs, now), Position(xs, x.key, ByExpire());
    if at < |xs| { ByExpireAt(xs[at].key, x.key); }
    assert at >= d;
    DueIs(Insert(xs, x, ByExpire()), now, d);
  }

  lemma StillActive<N>(xs: Entries<N>, now: int, x: Item<N, Timer>)
    requires Due(xs, now) > 0 && x.key.expire > now
    ensures var d, ys := Due(xs, now), Insert(Drop(xs, 0), x, ByExpire());
      && Due(ys, now) == d - 1 && ys[..d - 1] == xs[1..d]
      && (d > 1 ==> Position(Drop(xs, 0), x.key, ByExpire()) > 0)
  {
    StillTail(xs, now);
    StillInsert(Drop(xs, 0), now, x);
  }

  /** One visit of a still-clock scan: the head leaves, the other due timers stay in front. */
  lemma StillStep<N>(p: Pass<N>, env: Env, now: int)
    requires Inv(p.s) && ClockStill(env, now) && PositiveIntervals(p.s.active)
    requires Due(p.s.active, now) > 0 && p.cursor == 0
    ensures !Done(p, env)
    ensures var d, q := Due(p.s.active, now), Step(p, env);
      && Due(q.s.active, now) == d - 1
      && q.s.active[..d - 1] == p.s.active[1..d]
      && (d > 1 ==> q.cursor == 0)
  {
    var i := |p.visited|;
    var it := p.s.active[0];
    assert env.check(i) == now && env.rearm(i) == now;
    assert it in p.s.active;
    var x := Item(it.node, it.key.(expire := now + it.key.interval));
    if OutcomeOf(it.key, env.ret(i)) == ToActive {
      StillActive(p.s.active, now, x);
      assert Step(p, env).s.active == Insert(Drop(p.s.active, 0), x, ByExpire());
    } else {
      StillTail(p.s.active, now);
    }
  }

  /** What that visit does to the rest of the state. */
  lemma StillFate<N>(s: State<N>, ret: Ret, now: int)
    requires Inv(s) && Due(s.active, now) > 0
    ensures var v := Visit(s, 0, now, ret);
      && (forall y :: y in s.active && y.key.expire > now ==> y in v.active)
      && (forall y :: y in s.suspended ==> y in v.suspended)
      && s.freed <= v.freed
      && Fate(s.active[0], ret, now, v)
      && v.fired == s.fired + (if s.active[0].key.terminate then [] else [s.active[0].node])
  {
    VisitMoves(s, 0, now, ret);
    assert s.active[0] in s.active;
    forall y | y in s.active && y.key.expire > now ensures y.node != s.active[0].node {
      var j :| 0 <= j < |s.active| && s.active[j] == y;
      assert j > 0;
    }
  }

  lemma StillDone<N>(p: Pass<N>, env: Env, now: int)
    requires Inv(p.s) && ClockStill(env, now) && Due(p.s.active, now) == 0
    ensures Done(p, env)
  {
    assert env.check(|p.visited|) == now;
    ByExpireIsTotal();
    assert p.cursor < |p.s.active| ==> p.cursor == 0 || ByExpire()(p.s.active[0].key, p.s.active[p.cursor].key);
  }

  /** What a still-clock scan that starts in p and ends in r has done, where d timers were due. */
  ghost predicate StillResult<N>(p: Pass<N>, r: Pass<N>, env: Env, now: int, d: nat)
    requires d <= |p.s.active|
  {
    && r.visited == p.visited + NodesOf(p.s.active[..d])
    && r.s.fired == p.s.fired + Calls(p.s.active[..d])
    && (forall y :: y in p.s.active && y.key.expire > now ==> y in r.s.active)
    && (forall y :: y in p.s.suspended ==> y in r.s.suspended)
    && p.s.freed <= r.s.freed
    && Fates(p.s.active[..d], env, |p.visited|, now, r.s)
  }

  lemma StillCompose<N>(p: Pass<N>, q: Pass<N>, r: Pass<N>, env: Env, now: int, d: nat)
    requires 0 < d <= |p.s.active| && p.s.active[0].key.enabled
      && (Rearms(p.s.active[0].key) ==> p.s.active[0].key.interval > 0)
    requires d - 1 <= |q.s.active| && q.s.active[..d - 1] == p.s.active[1..d]
    requires var it := p.s.active[0];
      && q.visited == p.visited + [it.node]
      && q.s.fired == p.s.fired + (if it.key.terminate then [] else [it.node])
      && (forall y :: y in p.s.active && y.key.expire > now ==> y in q.s.active)
      && (forall y :: y in p.s.suspended ==> y in q.s.suspended)
      && p.s.freed <= q.s.freed
      && Fate(it, env.ret(|p.visited|), now, q.s)
    requires StillResult(q, r, env, now, d - 1)
    ensures StillResult(p, r, env, now, d)
  {
    var due, it := p.s.active[..d], p.s.active[0];
    assert due[1..] == q.s.active[..d - 1] && due[0] == it;
    Assoc(p.visited, [it.node], NodesOf(due[1..]));
    Assoc(p.s.fired, if it.key.terminate then [] else [it.node], Calls(due[1..]));
    FateLasts(it, env.ret(|p.visited|), now, q.s, r.s);
  }

  /** With the clock held still and positive intervals, a scan ends after as many steps as timers are due:
      it visits exactly those, each once and in expiry order, calls the ones not marked for termination,
      and sends each to its fate. */
  lemma {:induction false} StillScan<N>(p: Pass<N>, env: Env, now: int)
    requires Inv(p.s) && ClockStill(env, now) && PositiveIntervals(p.s.active)
    requires Due(p.s.active, now) > 0 ==> p.cursor == 0
    ensures var d := Due(p.s.active, now);
      Ends(p, env, d) && StillResult(p, Steps(p, env, d), env, now, d)
    decreases Due(p.s.active, now)
  {
    var d := Due(p.s.active, now);
    if d == 0 {
      StillDone(p, env, now);
    } else {
      StillTurn(p, env, now);
      StillIntervals(p, env, now);
      StillScan(Step(p, env), env, now);
      assert p.s.active[0] in p.s.active;
      StillCompose(p, Step(p, env), Steps(p, env, d), env, now, d);
    }
  }

  lemma StillIntervals<N>(p: Pass<N>, env: Env, now: int)
    requires Inv(p.s) && PositiveIntervals(p.s.active) && !Done(p, env)
    ensures PositiveIntervals(Step(p, env).s.active)
  {
    VisitIntervals(p.s, p.cursor, env.rearm(|p.visited|), env.ret(|p.visited|));
    hide Visit;
  }

  lemma VisitIntervals<N>(s: State<N>, c: nat, now: int, ret: Ret)
    requires Inv(s) && PositiveIntervals(s.active) && c < |s.active|
    ensures PositiveIntervals(Visit(s, c, now, ret).active)
  {
    hide Ok, Live;
    VisitMoves(s, c, now, ret);
    assert s.active[c] in s.active;
    forall it | it in Visit(s, c, now, ret).active && Rearms(it.key) ensures it.key.interval > 0 {
      if it.node != s.active[c].node { assert it in s.active; }
    }
  }

  lemma StillTurn<N>(p: Pass<N>, env: Env, now: int)
    requires Inv(p.s) && ClockStill(env, now) && PositiveIntervals(p.s.active)
    requires Due(p.s.active, now) > 0 && p.cursor == 0
    ensures !Done(p, env)
    ensures var d, q, it := Due(p.s.active, now), Step(p, env), p.s.active[0];
      && Inv(q.s)
      && Due(q.s.active, now) == d - 1 && q.s.active[..d - 1] == p.s.active[1..d]
      && (d > 1 ==> q.cursor == 0)
      && q.visited == p.visited + [it.node]
      && q.s.fired == p.s.fired + (if it.key.terminate then [] else [it.node])
      && (forall y :: y in p.s.active && y.key.expire > now ==> y in q.s.active)
      && (forall y :: y in p.s.suspended ==> y in q.s.suspended)
      && p.s.freed <= q.s.freed
      && Fate(it, env.ret(|p.visited|), now, q.s)
  {
    var i := |p.visited|;
    assert env.rearm(i) == now;
    StillStep(p, env, now);
    StillFate(p.s, env.ret(i), now);
    VisitKeeps(p.s, 0, now, env.ret(i));
  }

  lemma FateLasts<N>(it: Item<N, Timer>, ret: Ret, now: int, a: State<N>, b: State<N>)
    requires Fate(it, ret, now, a) && it.key.enabled && (Rearms(it.key) ==> it.key.interval > 0)
    requires forall y :: y in a.active && y.key.expire > now ==> y in b.active
    requires forall y :: y in a.suspended ==> y in b.suspended
    requires a.freed <= b.freed
    ensures Fate(it, ret, now, b)
  {
  }
}
