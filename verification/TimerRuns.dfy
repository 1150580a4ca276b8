/** Runs of the timer queue: any sequence of its locked operations. */
module TimerRuns {
  import opened StableSort
  import opened TimerModel
  import opened TimerTheorems

  /** The public operations. A scan carries what it will see of the clock and of the callbacks. */
  datatype Op<N> =
    | Add(n: N, t: Timer, now: int)
    | Remove(n: N)
    | SuspendTimer(n: N)
    | ResumeTimer(n: N)
    | EnableTimer(n: N)
    | DisableTimer(n: N)
    | SetInterval(n: N, interval: int)
    | MarkTerminate(n: N)
    | DuePass(env: Env, steps: nat)

  ghost function KeyOf<N>(xs: Entries<N>, n: N): Timer
    requires In(xs, n)
  {
    xs[IndexOf(xs, n)].key
  }

  ghost function Take<N>(xs: Entries<N>, n: N): Entries<N>
    requires In(xs, n)
  {
    Drop(xs, IndexOf(xs, n))
  }

  /** Rewrite the fields of a timer where it stands; the expiry is not touched. */
  ghost function Retag<N>(xs: Entries<N>, n: N, t: Timer): Entries<N>
    requires In(xs, n)
  {
    xs[IndexOf(xs, n) := Item(n, t)]
  }

  ghost function AddTo<N>(s: State<N>, n: N, t: Timer, now: int): State<N> {
    var x := Item(n, t.(expire := now + t.interval));
    if t.enabled then s.(active := Insert(s.active, x, ByExpire()))
    else s.(suspended := Insert(s.suspended, x, ByExpire()))
  }

  ghost function RemoveFrom<N>(s: State<N>, n: N): State<N> {
    if In(s.active, n) then s.(active := Take(s.active, n), freed := s.freed + {n})
    else if In(s.suspended, n) then s.(suspended := Take(s.suspended, n), freed := s.freed + {n})
    else s
  }

  ghost function SuspendIn<N>(s: State<N>, n: N): State<N> {
    if In(s.active, n) then
      s.(active := Take(s.active, n),
         suspended := Insert(s.suspended, Item(n, KeyOf(s.active, n).(enabled := false)), ByExpire()))
    else s
  }

  /** The timer keeps the expiry it had when it was suspended. */
  ghost function ResumeIn<N>(s: State<N>, n: N): State<N> {
    if In(s.suspended, n) then
      s.(suspended := Take(s.suspended, n),
         active := Insert(s.active, Item(n, KeyOf(s.suspended, n).(enabled := true)), ByExpire()))
    else s
  }

  ghost predicate Queued<N>(s: State<N>, n: N) {
    In(s.active, n) || In(s.suspended, n)
  }

  ghost function Fields<N>(s: State<N>, n: N): Timer
    requires Queued(s, n)
  {
    if In(s.active, n) then KeyOf(s.active, n) else KeyOf(s.suspended, n)
  }

  /** Enabling and disabling look at the ENABLED flag first. */
  ghost function EnableIn<N>(s: State<N>, n: N): State<N> {
    if Queued(s, n) && !Fields(s, n).enabled then ResumeIn(s, n) else s
  }

  ghost function DisableIn<N>(s: State<N>, n: N): State<N> {
    if Queued(s, n) && Fields(s, n).enabled then SuspendIn(s, n) else s
  }

  ghost function SetFields<N>(s: State<N>, n: N, t: Timer): State<N> {
    if In(s.active, n) then s.(active := Retag(s.active, n, t))
    else if In(s.suspended, n) then s.(suspended := Retag(s.suspended, n, t))
    else s
  }

  /** What an operation asks of its caller: an added timer is new, and a due pass is one that ends, after
      `steps` steps; nothing is asked of the clock, of the callbacks or of the intervals. */
  ghost predicate Allowed<N>(s: State<N>, op: Op<N>) {
    match op
    case Add(n, _, _) => !Known(s, n)
    case DuePass(env, steps) => Ends(Start(s), env, steps)
    case _ => true
  }

  ghost function Apply<N>(s: State<N>, op: Op<N>): State<N>
    requires Allowed(s, op)
  {
    match op
    case Add(n, t, now) => AddTo(s, n, t, now)
    case Remove(n) => RemoveFrom(s, n)
    case SuspendTimer(n) => SuspendIn(s, n)
    case ResumeTimer(n) => ResumeIn(s, n)
    case EnableTimer(n) => EnableIn(s, n)
    case DisableTimer(n) => DisableIn(s, n)
    case SetInterval(n, v) => if Queued(s, n) then SetFields(s, n, Fields(s, n).(interval := v)) else s
    case MarkTerminate(n) => if Queued(s, n) then SetFields(s, n, Fields(s, n).(terminate := true)) else s
    case DuePass(env, steps) => Steps(Start(s), env, steps).s
  }

  ghost predicate AllowedRun<N>(s: State<N>, ops: seq<Op<N>>)
    decreases |ops|
  {
    ops == [] || (Allowed(s, ops[0]) && AllowedRun(Apply(s, ops[0]), ops[1..]))
  }

  ghost function Run<N>(s: State<N>, ops: seq<Op<N>>): State<N>
    requires AllowedRun(s, ops)
    decreases |ops|
  {
    if ops == [] then s else Run(Apply(s, ops[0]), ops[1..])
  }

  ghost predicate Adds<N>(ops: seq<Op<N>>, n: N) {
    ops != [] && ((ops[0].Add? && ops[0].n == n) || Adds(ops[1..], n))
  }

  // ----- what one operation keeps

  lemma RetagFacts<N>(xs: Entries<N>, n: N, t: Timer)
    requires Ok(xs) && In(xs, n) && t.expire == KeyOf(xs, n).expire
    ensures Ok(Retag(xs, n, t))
    ensures forall y :: y in Retag(xs, n, t) <==> (y in xs && y.node != n) || y == Item(n, t)
    ensures forall m :: In(Retag(xs, n, t), m) <==> In(xs, m)
  {
    ByExpireIsTotal();
    var i, r := IndexOf(xs, n), Retag(xs, n, t);
    assert r[i] == Item(n, t);
    assert forall j :: 0 <= j < |xs| && j != i ==> r[j] == xs[j] && xs[j].node != n;
    forall m ensures In(r, m) <==> In(xs, m) {
      InIff(xs, m);
      InIff(r, m);
      if exists y :: y in xs && y.node == m {
        var y :| y in xs && y.node == m;
        assert m != n ==> y in r;
        assert r[i] in r;
      }
    }
  }

  /** Under Inv a timer is in exactly one of active, suspended and freed. */
  lemma ExactlyOne<N>(s: State<N>, n: N)
    requires Inv(s)
    ensures !(In(s.active, n) && In(s.suspended, n))
    ensures n in s.freed ==> !In(s.active, n) && !In(s.suspended, n)
  {
    if In(s.active, n) { assert s.active[IndexOf(s.active, n)] in s.active; }
    if In(s.suspended, n) { assert s.suspended[IndexOf(s.suspended, n)] in s.suspended; }
  }

  lemma TakeFacts<N>(xs: Entries<N>, n: N)
    requires Ok(xs) && In(xs, n)
    ensures Ok(Take(xs, n)) && Item(n, KeyOf(xs, n)) in xs && !In(Take(xs, n), n)
    ensures forall y :: y in Take(xs, n) <==> y in xs && y.node != n
    ensures forall m :: In(Take(xs, n), m) <==> In(xs, m) && m != n
  {
    DropOk(xs, IndexOf(xs, n));
    assert xs[IndexOf(xs, n)] in xs;
  }

  lemma AddInv<N>(s: State<N>, n: N, t: Timer, now: int)
    requires Inv(s) && !Known(s, n) && n !in s.fired
    ensures Inv(AddTo(s, n, t, now))
  {
    var x := Item(n, t.(expire := now + t.interval));
    InIff(s.active, n);
    InIff(s.suspended, n);
    if t.enabled { InsertOk(s.active, x); } else { InsertOk(s.suspended, x); }
  }

  lemma AddKeeps<N>(s: State<N>, n: N, t: Timer, now: int, m: N)
    requires Inv(s) && !Known(s, n) && n !in s.fired
    ensures Inv(AddTo(s, n, t, now))
    ensures Known(AddTo(s, n, t, now), m) <==> Known(s, m) || m == n
  {
    AddInv(s, n, t, now);
    var x := Item(n, t.(expire := now + t.interval));
    if t.enabled { InsertOk(s.active, x); } else { InsertOk(s.suspended, x); }
  }

  lemma RemoveKeeps<N>(s: State<N>, n: N, m: N)
    requires Inv(s)
    ensures Inv(RemoveFrom(s, n))
    ensures Known(RemoveFrom(s, n), m) <==> Known(s, m)
  {
    if In(s.active, n) { TakeFacts(s.active, n); }
    if In(s.suspended, n) { TakeFacts(s.suspended, n); }
  }

  lemma SuspendKeeps<N>(s: State<N>, n: N, m: N)
    requires Inv(s)
    ensures Inv(SuspendIn(s, n))
    ensures Known(SuspendIn(s, n), m) <==> Known(s, m)
  {
    if In(s.active, n) {
      TakeFacts(s.active, n);
      InIff(s.suspended, n);
      InsertOk(s.suspended, Item(n, KeyOf(s.active, n).(enabled := false)));
    }
  }

  lemma ResumeKeeps<N>(s: State<N>, n: N, m: N)
    requires Inv(s)
    ensures Inv(ResumeIn(s, n))
    ensures Known(ResumeIn(s, n), m) <==> Known(s, m)
  {
    if In(s.suspended, n) {
      TakeFacts(s.suspended, n);
      InIff(s.active, n);
      InsertOk(s.active, Item(n, KeyOf(s.suspended, n).(enabled := true)));
    }
  }

  lemma SetFieldsKeeps<N>(s: State<N>, n: N, t: Timer, m: N)
    requires Inv(s) && Queued(s, n)
    requires t.expire == Fields(s, n).expire && t.enabled == Fields(s, n).enabled
      && t.singleShot == Fields(s, n).singleShot
    ensures Inv(SetFields(s, n, t))
    ensures Known(SetFields(s, n, t), m) <==> Known(s, m)
  {
    if In(s.active, n) {
      RetagFacts(s.active, n, t);
      TakeFacts(s.active, n);
    } else {
      RetagFacts(s.suspended, n, t);
      TakeFacts(s.suspended, n);
    }
  }

  // ----- what every run keeps

  /** Only timers the queue has seen were ever called. */
  ghost predicate CalledKnown<N>(s: State<N>) {
    forall i :: 0 <= i < |s.fired| ==> Known(s, s.fired[i])
  }

  lemma VisitCalls<N>(s: State<N>, c: nat, now: int, ret: Ret)
    requires Inv(s) && CalledKnown(s) && c < |s.active|
    ensures CalledKnown(Visit(s, c, now, ret))
  {
    var v := Visit(s, c, now, ret);
    forall j | 0 <= j < |v.fired| ensures Known(v, v.fired[j]) {
      InIff(s.active, v.fired[j]);
      assert s.active[c] in s.active;
      VisitKnows(s, c, now, ret, v.fired[j]);
    }
  }

  lemma {:induction false} StepsCalls<N>(p: Pass<N>, env: Env, m: nat)
    requires Inv(p.s) && CalledKnown(p.s)
    ensures CalledKnown(Steps(p, env, m).s)
    decreases m
  {
    hide Visit, CalledKnown, Inv;
    if m > 0 && !Done(p, env) {
      var i := |p.visited|;
      VisitKeeps(p.s, p.cursor, env.rearm(i), env.ret(i));
      VisitCalls(p.s, p.cursor, env.rearm(i), env.ret(i));
      StepsCalls(Step(p, env), env, m - 1);
    }
  }

  ghost predicate Reachable<N>(s: State<N>) {
    Inv(s) && CalledKnown(s)
  }

  lemma ApplyInv<N>(s: State<N>, op: Op<N>)
    requires Reachable(s) && Allowed(s, op)
    ensures Inv(Apply(s, op))
  {
    if op.DuePass? {
      StepsInv(Start(s), op.env, op.steps);
    } else {
      ApplyKnows(s, op, op.n);
    }
  }

  lemma ApplyKnows<N>(s: State<N>, op: Op<N>, m: N)
    requires Reachable(s) && Allowed(s, op)
    ensures Inv(Apply(s, op))
    ensures Known(Apply(s, op), m) <==> Known(s, m) || (op.Add? && op.n == m)
  {
    match op
    case Add(n, t, now) =>
      assert n !in s.fired;
      AddKeeps(s, n, t, now, m);
    case Remove(n) => RemoveKeeps(s, n, m);
    case SuspendTimer(n) => SuspendKeeps(s, n, m);
    case ResumeTimer(n) => ResumeKeeps(s, n, m);
    case EnableTimer(n) => ResumeKeeps(s, n, m);
    case DisableTimer(n) => SuspendKeeps(s, n, m);
    case SetInterval(n, v) => if Queued(s, n) { SetFieldsKeeps(s, n, Fields(s, n).(interval := v), m); }
    case MarkTerminate(n) => if Queued(s, n) { SetFieldsKeeps(s, n, Fields(s, n).(terminate := true), m); }
    case DuePass(env, steps) =>
      StepsInv(Start(s), env, steps);
      StepsKnow(Start(s), env, steps, m);
  }

  lemma ApplyKeeps<N>(s: State<N>, op: Op<N>)
    requires Reachable(s) && Allowed(s, op)
    ensures Reachable(Apply(s, op))
  {
    var r := Apply(s, op);
    ApplyInv(s, op);
    if op.DuePass? {
      StepsCalls(Start(s), op.env, op.steps);
    } else {
      assert r.fired == s.fired;
      forall j | 0 <= j < |r.fired| ensures Known(r, r.fired[j]) { ApplyKnows(s, op, r.fired[j]); }
    }
  }

  /** Every state of every run keeps the invariant, and a timer is in exactly one of active, suspended
      and freed exactly when it was there at the start or was added on the way. */
  lemma {:induction false} RunKeeps<N>(s: State<N>, ops: seq<Op<N>>, n: N)
    requires Reachable(s) && AllowedRun(s, ops)
    ensures Reachable(Run(s, ops))
    ensures Known(Run(s, ops), n) <==> Known(s, n) || Adds(ops, n)
    decreases |ops|
  {
    if ops != [] {
      ApplyKeeps(s, ops[0]);
      ApplyKnows(s, ops[0], n);
      RunKeeps(Apply(s, ops[0]), ops[1..], n);
    }
  }

  lemma EmptyReachable<N>(s: State<N>)
    requires s == State([], [], {}, [])
    ensures Reachable(s)
  {
  }

  // ----- timers that are never called again

  /** Freed, or queued and marked for termination. */
  ghost predicate Silent<N>(s: State<N>, n: N) {
    n in s.freed || (Queued(s, n) && Fields(s, n).terminate)
  }

  /** Freed, or queued as a single-shot timer. */
  ghost predicate OneShot<N>(s: State<N>, n: N) {
    n in s.freed || (Queued(s, n) && Fields(s, n).singleShot)
  }

  ghost function Count<N>(s: State<N>, n: N): nat {
    multiset(s.fired)[n]
  }

  /** The timer will not be called again; so far it was called k times. */
  ghost predicate Mute<N>(s: State<N>, n: N, k: nat) {
    Silent(s, n) && Count(s, n) == k
  }

  /** A single-shot timer is called at most k times while queued and k + 1 times in all. */
  ghost predicate Spent<N>(s: State<N>, n: N, k: nat) {
    OneShot(s, n) && Count(s, n) <= if n in s.freed then k + 1 else k
  }

  lemma FieldsIs<N>(s: State<N>, it: Item<N, Timer>)
    requires Inv(s) && (it in s.active || it in s.suspended)
    ensures Queued(s, it.node) && Fields(s, it.node) == it.key
  {
    InIff(s.active, it.node);
    InIff(s.suspended, it.node);
    ExactlyOne(s, it.node);
  }

  lemma FieldsItem<N>(s: State<N>, n: N)
    requires Queued(s, n)
    ensures Item(n, Fields(s, n)) in s.active || Item(n, Fields(s, n)) in s.suspended
  {
    if In(s.active, n) { assert s.active[IndexOf(s.active, n)] in s.active; }
    else { assert s.suspended[IndexOf(s.suspended, n)] in s.suspended; }
  }

  /** A visit of another timer leaves this one's fields alone; a visit of a silent timer frees it
      uncalled; a visit of a single-shot timer calls it at most once and frees it. */
  lemma VisitCounts<N>(s: State<N>, c: nat, now: int, ret: Ret, n: N, k: nat)
    requires Inv(s) && c < |s.active|
    ensures Mute(s, n, k) ==> Mute(Visit(s, c, now, ret), n, k)
    ensures Spent(s, n, k) ==> Spent(Visit(s, c, now, ret), n, k)
  {
    var v, it := Visit(s, c, now, ret), s.active[c];
    VisitMoves(s, c, now, ret);
    VisitKeeps(s, c, now, ret);
    assert it in s.active;
    FieldsIs(s, it);
    if n != it.node && Queued(s, n) {
      FieldsItem(s, n);
      FieldsIs(v, Item(n, Fields(s, n)));
    }
    if n in s.freed { ExactlyOne(s, n); }
  }

  lemma {:induction false} StepsCount<N>(p: Pass<N>, env: Env, m: nat, n: N, k: nat)
    requires Inv(p.s)
    ensures Mute(p.s, n, k) ==> Mute(Steps(p, env, m).s, n, k)
    ensures Spent(p.s, n, k) ==> Spent(Steps(p, env, m).s, n, k)
    decreases m
  {
    hide Visit, Mute, Spent, Inv;
    if m > 0 && !Done(p, env) {
      var i := |p.visited|;
      VisitKeeps(p.s, p.cursor, env.rearm(i), env.ret(i));
      VisitCounts(p.s, p.cursor, env.rearm(i), env.ret(i), n, k);
      StepsCount(Step(p, env), env, m - 1, n, k);
    }
  }

  /** Outside a scan a queued timer is freed, or keeps its single-shot and termination flags. */
  lemma ApplyFields<N>(s: State<N>, op: Op<N>, n: N)
    requires Reachable(s) && Allowed(s, op) && !op.DuePass? && Queued(s, n)
    ensures var r := Apply(s, op);
      n in r.freed || (Queued(r, n) && Fields(r, n).singleShot == Fields(s, n).singleShot &&
                       (Fields(s, n).terminate ==> Fields(r, n).terminate))
  {
    match op
    case Add(m, t, now) => AddFields(s, m, t, now, n);
    case Remove(m) => RemoveFields(s, m, n);
    case SuspendTimer(m) => SuspendFields(s, m, n);
    case ResumeTimer(m) => ResumeFields(s, m, n);
    case EnableTimer(m) => ResumeFields(s, m, n);
    case DisableTimer(m) => SuspendFields(s, m, n);
    case SetInterval(m, v) => if Queued(s, m) { SetFieldsFields(s, m, n, Fields(s, m).(interval := v)); }
    case MarkTerminate(m) => if Queued(s, m) { SetFieldsFields(s, m, n, Fields(s, m).(terminate := true)); }
  }

  lemma AddContains<N>(s: State<N>, m: N, t: Timer, now: int, y: Item<N, Timer>)
    requires Inv(s) && !Known(s, m)
    ensures var r := AddTo(s, m, t, now); (y in s.active ==> y in r.active) && (y in s.suspended ==> y in r.suspended)
  {
    var x := Item(m, t.(expire := now + t.interval));
    if t.enabled { InsertOk(s.active, x); } else { InsertOk(s.suspended, x); }
  }

  lemma AddFields<N>(s: State<N>, m: N, t: Timer, now: int, n: N)
    requires Reachable(s) && !Known(s, m) && Queued(s, n)
    ensures var r := AddTo(s, m, t, now); Queued(r, n) && Fields(r, n) == Fields(s, n)
  {
    assert m !in s.fired;
    AddKeeps(s, m, t, now, n);
    FieldsItem(s, n);
    AddContains(s, m, t, now, Item(n, Fields(s, n)));
    FieldsIs(AddTo(s, m, t, now), Item(n, Fields(s, n)));
  }

  lemma RemoveFields<N>(s: State<N>, m: N, n: N)
    requires Inv(s) && Queued(s, n)
    ensures var r := RemoveFrom(s, m);
      if n == m then n in r.freed else Queued(r, n) && Fields(r, n) == Fields(s, n)
  {
    RemoveKeeps(s, m, n);
    if In(s.active, m) { TakeFacts(s.active, m); } else if In(s.suspended, m) { TakeFacts(s.suspended, m); }
    FieldsItem(s, n);
    if m != n { FieldsIs(RemoveFrom(s, m), Item(n, Fields(s, n))); }
  }

  lemma SuspendFields<N>(s: State<N>, m: N, n: N)
    requires Inv(s) && Queued(s, n)
    ensures var r := SuspendIn(s, m); Queued(r, n) && Fields(r, n) == Fields(s, n).(enabled := Fields(r, n).enabled)
  {
    if In(s.active, m) {
      var x := Item(m, KeyOf(s.active, m).(enabled := false));
      SuspendKeeps(s, m, n);
      TakeFacts(s.active, m);
      InIff(s.suspended, m);
      InsertOk(s.suspended, x);
      FieldsItem(s, n);
      ExactlyOne(s, n);
      FieldsIs(SuspendIn(s, m), if n == m then x else Item(n, Fields(s, n)));
    }
  }

  lemma ResumeFields<N>(s: State<N>, m: N, n: N)
    requires Inv(s) && Queued(s, n)
    ensures var r := ResumeIn(s, m); Queued(r, n) && Fields(r, n) == Fields(s, n).(enabled := Fields(r, n).enabled)
  {
    if In(s.suspended, m) {
      var x := Item(m, KeyOf(s.suspended, m).(enabled := true));
      ResumeKeeps(s, m, n);
      TakeFacts(s.suspended, m);
      InIff(s.active, m);
      InsertOk(s.active, x);
      FieldsItem(s, n);
      ExactlyOne(s, n);
      FieldsIs(ResumeIn(s, m), if n == m then x else Item(n, Fields(s, n)));
    }
  }

  lemma SetFieldsFields<N>(s: State<N>, m: N, n: N, t: Timer)
    requires Inv(s) && Queued(s, n) && Queued(s, m)
    requires t.expire == Fields(s, m).expire && t.enabled == Fields(s, m).enabled
      && t.singleShot == Fields(s, m).singleShot
    ensures var r := SetFields(s, m, t); Queued(r, n) && Fields(r, n) == if n == m then t else Fields(s, n)
  {
    SetFieldsKeeps(s, m, t, n);
    if In(s.active, m) { RetagFacts(s.active, m, t); } else { RetagFacts(s.suspended, m, t); }
    FieldsItem(s, n);
    FieldsIs(SetFields(s, m, t), if n == m then Item(m, t) else Item(n, Fields(s, n)));
  }

  lemma ApplyCounts<N>(s: State<N>, op: Op<N>, n: N, k: nat)
    requires Reachable(s) && Allowed(s, op)
    ensures Mute(s, n, k) ==> Mute(Apply(s, op), n, k)
    ensures Spent(s, n, k) ==> Spent(Apply(s, op), n, k)
  {
    if op.DuePass? {
      StepsCount(Start(s), op.env, op.steps, n, k);
    } else if Queued(s, n) {
      ApplyFields(s, op, n);
    }
  }

  lemma {:induction false} RunCounts<N>(s: State<N>, ops: seq<Op<N>>, n: N, k: nat)
    requires Reachable(s) && AllowedRun(s, ops)
    ensures Mute(s, n, k) ==> Mute(Run(s, ops), n, k)
    ensures Spent(s, n, k) ==> Spent(Run(s, ops), n, k)
    decreases |ops|
  {
    if ops != [] {
      ApplyKeeps(s, ops[0]);
      ApplyCounts(s, ops[0], n, k);
      RunCounts(Apply(s, ops[0]), ops[1..], n, k);
    }
  }

  /** A timer marked for termination, or freed, is never called again, whatever happens next. */
  lemma TerminatedNeverCalled<N>(s: State<N>, ops: seq<Op<N>>, n: N)
    requires Reachable(s) && AllowedRun(s, ops) && Silent(s, n)
    ensures Silent(Run(s, ops), n) && Count(Run(s, ops), n) == Count(s, n)
  {
    RunCounts(s, ops, n, Count(s, n));
  }

  /** A single-shot timer is called at most once over its whole life. */
  lemma SingleShotCalledOnce<N>(s: State<N>, n: N, t: Timer, now: int, ops: seq<Op<N>>)
    requires Reachable(s) && Allowed(s, Add(n, t, now)) && t.singleShot
    requires AllowedRun(Apply(s, Add(n, t, now)), ops)
    ensures Count(Run(Apply(s, Add(n, t, now)), ops), n) <= 1
  {
    var a := Apply(s, Add(n, t, now));
    ApplyKeeps(s, Add(n, t, now));
    var x := Item(n, t.(expire := now + t.interval));
    InIff(s.active, n);
    InIff(s.suspended, n);
    if t.enabled { InsertOk(s.active, x); } else { InsertOk(s.suspended, x); }
    FieldsIs(a, x);
    assert n !in s.fired;
    RunCounts(a, ops, n, 0);
  }

  // ----- enabling a timer that suspended itself

  /** Resume always re-activates a suspended timer. Enable does so exactly when the ENABLED flag is
      clear; a timer whose callback answered "suspend" keeps the flag, and Enable skips it. */
  lemma EnableReactivates<N>(s: State<N>, n: N)
    requires Inv(s) && In(s.suspended, n)
    ensures In(Apply(s, ResumeTimer(n)).active, n)
    ensures In(Apply(s, EnableTimer(n)).active, n) <==> !Fields(s, n).enabled
  {
    TakeFacts(s.suspended, n);
    ExactlyOne(s, n);
    InIff(s.active, n);
    InsertOk(s.active, Item(n, KeyOf(s.suspended, n).(enabled := true)));
  }

  lemma SelfSuspendedKeepsFlag<N>(s: State<N>, c: nat, now: int)
    requires Inv(s) && c < |s.active| && OutcomeOf(s.active[c].key, Suspend) == ToSuspended
    ensures var v, n := Visit(s, c, now, Suspend), s.active[c].node;
      In(v.suspended, n) && Apply(v, EnableTimer(n)) == v && Apply(v, DisableTimer(n)) == v
  {
    var v, it := Visit(s, c, now, Suspend), s.active[c];
    VisitMoves(s, c, now, Suspend);
    VisitKeeps(s, c, now, Suspend);
    assert it in s.active && it in v.suspended;
    FieldsIs(v, it);
    ExactlyOne(v, it.node);
    InIff(v.suspended, it.node);
  }

  // ----- scans that do not end

  /** The clock need not even move: two timers with interval 0 that always continue keep the scan going for
      ever under a clock held still. */
  lemma ZeroIntervalsStarve<N>(a: N, b: N, t: Timer, env: Env, m: nat)
    requires a != b && t.expire == 0 && t.interval == 0 && Rearms(t)
    requires env == Env((i: nat) => 0, (i: nat) => 0, (i: nat) => Continue)
    ensures ClockForward(env)
    ensures !Ends(Start(State([Item(a, t), Item(b, t)], [], {}, [])), env, m)
  {
    ZeroSpins(Start(State([Item(a, t), Item(b, t)], [], {}, [])), t, env, m);
  }

  lemma {:induction false} ZeroSpins<N>(p: Pass<N>, t: Timer, env: Env, m: nat)
    requires t.expire == 0 && t.interval == 0 && Rearms(t)
    requires env == Env((i: nat) => 0, (i: nat) => 0, (i: nat) => Continue)
    requires p.cursor == 0 && |p.s.active| == 2 && p.s.active[0].key == p.s.active[1].key == t
    ensures !Ends(p, env, m)
    decreases m
  {
    ZeroStep(p, t, env);
    hide Done, Step, Ends;
    EndsLater(p, env, m);
    if m > 0 { ZeroSpins(Step(p, env), t, env, m - 1); }
  }

  lemma ZeroStep<N>(p: Pass<N>, t: Timer, env: Env)
    requires t.expire == 0 && t.interval == 0 && Rearms(t)
    requires env == Env((i: nat) => 0, (i: nat) => 0, (i: nat) => Continue)
    requires p.cursor == 0 && |p.s.active| == 2 && p.s.active[0].key == p.s.active[1].key == t
    ensures !Done(p, env)
    ensures var q := Step(p, env); q.cursor == 0 && q.s.active == [p.s.active[1], p.s.active[0]]
  {
    ByExpireIsTotal();
    var rest := Drop(p.s.active, 0);
    assert rest == [p.s.active[1]];
    PositionIs(rest, t, ByExpire(), 1);
  }

  /** Nor need an interval be 0: two timers with interval 1 starve the scan when the clock gains 10 with each
      callback. */
  lemma ScanCanStarve<N>(a: N, b: N, t: Timer, env: Env, m: nat)
    requires t.expire == 0 && t.interval == 1 && Rearms(t)
    requires env == Env((i: nat) => 10 * i, (i: nat) => 10 * i, (i: nat) => Continue)
    ensures ClockForward(env)
    ensures !Ends(Start(State([Item(a, t), Item(b, t)], [], {}, [])), env, m)
  {
    StarveSpins(Start(State([Item(a, t), Item(b, t)], [], {}, [])), t, env, m);
  }

  /** Both timers expire before the scan comes to them again. */
  ghost predicate Starving<N>(p: Pass<N>, t: Timer) {
    && p.cursor == 0 && |p.s.active| == 2
    && p.s.active[0].key == t.(expire := p.s.active[0].key.expire)
    && p.s.active[1].key == t.(expire := p.s.active[1].key.expire)
    && p.s.active[0].key.expire <= p.s.active[1].key.expire <= 10 * |p.visited|
  }

  lemma {:induction false} StarveSpins<N>(p: Pass<N>, t: Timer, env: Env, m: nat)
    requires t.interval == 1 && Rearms(t) && Starving(p, t)
    requires env == Env((i: nat) => 10 * i, (i: nat) => 10 * i, (i: nat) => Continue)
    ensures !Ends(p, env, m)
    decreases m
  {
    StarveStep(p, t, env);
    hide Done, Step, Ends, Starving;
    EndsLater(p, env, m);
    if m > 0 { StarveSpins(Step(p, env), t, env, m - 1); }
  }

  lemma StarveStep<N>(p: Pass<N>, t: Timer, env: Env)
    requires t.interval == 1 && Rearms(t) && Starving(p, t)
    requires env == Env((i: nat) => 10 * i, (i: nat) => 10 * i, (i: nat) => Continue)
    ensures !Done(p, env) && Starving(Step(p, env), t)
  {
    ByExpireIsTotal();
    var rest := Drop(p.s.active, 0);
    var u := t.(expire := 10 * |p.visited| + 1);
    assert rest == [p.s.active[1]];
    PositionIs(rest, u, ByExpire(), 1);
    assert Step(p, env).s.active == [p.s.active[1], Item(p.s.active[0].node, u)];
  }
}
