/** What each operation of the timer queue does, entry by entry, and that it leaves all other timers alone. */
module TimerOps {
  import opened StableSort
  import opened TimerModel
  import opened TimerTheorems
  import opened TimerRuns

  /** A timer that is added expires one interval after the clock reading. Its flag says on which list it waits. */
  lemma AddMeans<N>(s: State<N>, n: N, t: Timer, now: int)
    requires Reachable(s) && Allowed(s, Add(n, t, now))
    ensures var r, x := Apply(s, Add(n, t, now)), Item(n, t.(expire := now + t.interval));
      && (forall y :: y in r.active <==> y in s.active || (t.enabled && y == x))
      && (forall y :: y in r.suspended <==> y in s.suspended || (!t.enabled && y == x))
      && Queued(r, n) && Fields(r, n) == x.key && (In(r.active, n) <==> t.enabled)
      && r.freed == s.freed && r.fired == s.fired
  {
    var r, x := Apply(s, Add(n, t, now)), Item(n, t.(expire := now + t.interval));
    ApplyKeeps(s, Add(n, t, now));
    InIff(s.active, n);
    InIff(s.suspended, n);
    if t.enabled { InsertOk(s.active, x); } else { InsertOk(s.suspended, x); }
    assert x in r.active || x in r.suspended;
    FieldsIs(r, x);
    ExactlyOne(r, n);
  }

  /** It is visited by a scan under a clock held still if and only if its interval has passed. */
  lemma AddedIsVisited<N>(s: State<N>, n: N, t: Timer, now: int, env: Env, reading: int)
    requires Reachable(s) && Allowed(s, Add(n, t, now)) && t.enabled
    requires ClockStill(env, reading) && PositiveIntervals(Apply(s, Add(n, t, now)).active)
    ensures var p := Start(Apply(s, Add(n, t, now)));
      var d := Due(p.s.active, reading);
      Ends(p, env, d) && (n in Steps(p, env, d).visited <==> reading >= now + t.interval)
  {
    hide Steps, Ends, StillResult, Due;
    var r, x := Apply(s, Add(n, t, now)), Item(n, t.(expire := now + t.interval));
    AddMeans(s, n, t, now);
    ApplyKeeps(s, Add(n, t, now));
    StillScan(Start(r), env, reading);
    VisitedDue(Start(r), env, reading, x);
  }

  lemma VisitedDue<N>(p: Pass<N>, env: Env, now: int, x: Item<N, Timer>)
    requires Inv(p.s) && p.visited == [] && x in p.s.active
    requires var d := Due(p.s.active, now); StillResult(p, Steps(p, env, d), env, now, d)
    ensures var d := Due(p.s.active, now); x.node in Steps(p, env, d).visited <==> x.key.expire <= now
  {
    hide Steps, Fates, Calls;
    var xs, d := p.s.active, Due(p.s.active, now);
    ByExpireIsTotal();
    var j :| 0 <= j < |xs| && xs[j] == x;
    assert Steps(p, env, d).visited == NodesOf(xs[..d]);
    assert j < d <==> x.key.expire <= now by {
      if j >= d { assert ByExpire()(xs[d].key, xs[j].key); }
    }
    if j < d {
      assert NodesOf(xs[..d])[j] == x.node;
    } else {
      forall i | 0 <= i < d ensures NodesOf(xs[..d])[i] != x.node { assert xs[i].node != xs[j].node; }
    }
  }

  /** Removing frees the timer, wherever it is queued. */
  lemma RemoveMeans<N>(s: State<N>, n: N)
    requires Reachable(s)
    ensures var r := Apply(s, Remove(n));
      && (forall y :: y in r.active <==> y in s.active && y.node != n)
      && (forall y :: y in r.suspended <==> y in s.suspended && y.node != n)
      && r.freed == (if Queued(s, n) then s.freed + {n} else s.freed) && r.fired == s.fired
  {
    ExactlyOne(s, n);
    InIff(s.active, n);
    InIff(s.suspended, n);
    if In(s.active, n) { TakeFacts(s.active, n); } else if In(s.suspended, n) { TakeFacts(s.suspended, n); }
  }

  /** Suspending, and disabling an active timer, clears its flag and leaves its expiry; other timers stay put. */
  lemma SuspendMeans<N>(s: State<N>, n: N, t: Timer)
    requires Reachable(s)
    ensures Item(n, t) in s.active ==> Apply(s, DisableTimer(n)) == Apply(s, SuspendTimer(n))
    ensures Item(n, t) in s.active ==>
      var r, x := Apply(s, SuspendTimer(n)), Item(n, t.(enabled := false));
      && (forall y :: y in r.active <==> y in s.active && y.node != n)
      && (forall y :: y in r.suspended <==> y in s.suspended || y == x)
      && r.freed == s.freed && r.fired == s.fired
    ensures (forall y :: y in s.active ==> y.node != n) ==> Apply(s, SuspendTimer(n)) == s
  {
    InIff(s.active, n);
    if Item(n, t) in s.active {
      FieldsIs(s, Item(n, t));
      TakeFacts(s.active, n);
      ExactlyOne(s, n);
      InIff(s.suspended, n);
      InsertOk(s.suspended, Item(n, t.(enabled := false)));
    }
  }

  /** Resuming sets the flag again and leaves the expiry. */
  lemma ResumeMeans<N>(s: State<N>, n: N, t: Timer)
    requires Reachable(s)
    ensures Item(n, t) in s.suspended ==>
      var r, x := Apply(s, ResumeTimer(n)), Item(n, t.(enabled := true));
      && (forall y :: y in r.active <==> y in s.active || y == x)
      && (forall y :: y in r.suspended <==> y in s.suspended && y.node != n)
      && r.freed == s.freed && r.fired == s.fired
      && Apply(s, EnableTimer(n)) == if t.enabled then s else r
    ensures (forall y :: y in s.suspended ==> y.node != n) ==>
      Apply(s, ResumeTimer(n)) == s && Apply(s, EnableTimer(n)) == s
  {
    InIff(s.suspended, n);
    if Item(n, t) in s.suspended {
      FieldsIs(s, Item(n, t));
      TakeFacts(s.suspended, n);
      ExactlyOne(s, n);
      InIff(s.active, n);
      InsertOk(s.active, Item(n, t.(enabled := true)));
    }
  }

  /** A timer that was suspended from outside can be enabled again: it comes back as it was. */
  lemma SuspendThenEnable<N>(s: State<N>, n: N, t: Timer)
    requires Reachable(s) && Item(n, t) in s.active
    ensures var r := Apply(Apply(s, SuspendTimer(n)), EnableTimer(n));
      && (forall y :: y in r.active <==> y in s.active) && (forall y :: y in r.suspended <==> y in s.suspended)
      && r.freed == s.freed && r.fired == s.fired
  {
    var q, x := Apply(s, SuspendTimer(n)), Item(n, t.(enabled := false));
    SuspendMeans(s, n, t);
    ApplyKeeps(s, SuspendTimer(n));
    assert x in q.suspended;
    ResumeMeans(q, n, x.key);
    FieldsIs(s, Item(n, t));
    InIff(s.suspended, n);
    ExactlyOne(s, n);
    assert t.(enabled := false).(enabled := true) == t;
  }

  /** The interval and the termination mark change in place. */
  lemma SetMeans<N>(s: State<N>, n: N, t: Timer, interval: int)
    requires Reachable(s) && (Item(n, t) in s.active || Item(n, t) in s.suspended)
    ensures var r, x := Apply(s, SetInterval(n, interval)), Item(n, t.(interval := interval));
      && (forall y :: y in r.active <==> (y in s.active && y.node != n) || (Item(n, t) in s.active && y == x))
      && (forall y :: y in r.suspended <==>
            (y in s.suspended && y.node != n) || (Item(n, t) in s.suspended && y == x))
      && r.freed == s.freed && r.fired == s.fired
    ensures var r, x := Apply(s, MarkTerminate(n)), Item(n, t.(terminate := true));
      && (forall y :: y in r.active <==> (y in s.active && y.node != n) || (Item(n, t) in s.active && y == x))
      && (forall y :: y in r.suspended <==>
            (y in s.suspended && y.node != n) || (Item(n, t) in s.suspended && y == x))
      && r.freed == s.freed && r.fired == s.fired
  {
    RewriteMeans(s, n, t, t.(interval := interval));
    RewriteMeans(s, n, t, t.(terminate := true));
  }

  lemma RewriteMeans<N>(s: State<N>, n: N, t: Timer, u: Timer)
    requires Reachable(s) && (Item(n, t) in s.active || Item(n, t) in s.suspended)
    requires u.expire == t.expire
    ensures Queued(s, n) && Fields(s, n) == t
    ensures var r, x := SetFields(s, n, u), Item(n, u);
      && (forall y :: y in r.active <==> (y in s.active && y.node != n) || (Item(n, t) in s.active && y == x))
      && (forall y :: y in r.suspended <==>
            (y in s.suspended && y.node != n) || (Item(n, t) in s.suspended && y == x))
      && r.freed == s.freed && r.fired == s.fired
  {
    FieldsIs(s, Item(n, t));
    ExactlyOne(s, n);
    InIff(s.active, n);
    InIff(s.suspended, n);
    if In(s.active, n) { RetagFacts(s.active, n, u); } else { RetagFacts(s.suspended, n, u); }
  }

  /** One turn of a scan, whatever the clock does. A timer marked for termination is freed uncalled. Any other is
      called once, and freed if it is a single-shot timer or says so; one that suspends keeps its flag and expiry,
      and one that continues expires one interval after the reading behind its callback. */
  lemma TurnMeans<N>(p: Pass<N>, env: Env)
    requires Reachable(p.s) && !Done(p, env)
    ensures var i, it, r := |p.visited|, p.s.active[p.cursor], Step(p, env).s;
      var t, x := it.key, Item(it.node, it.key.(expire := env.rearm(i) + it.key.interval));
      var frees := t.terminate || t.singleShot || env.ret(i) == Terminate;
      && t.expire <= env.check(i)
      && r.fired == p.s.fired + (if t.terminate then [] else [it.node])
      && r.freed == p.s.freed + (if frees then {it.node} else {})
      && (forall y :: y in r.suspended <==> y in p.s.suspended || (!frees && env.ret(i) == Suspend && y == it))
      && (forall y :: y in r.active <==>
            (y in p.s.active && y.node != it.node) || (!frees && env.ret(i) == Continue && y == x))
      && Step(p, env).visited == p.visited + [it.node]
  {
    hide Ok, Live, CalledKnown, Insert, Position, Drop;
    var i, it := |p.visited|, p.s.active[p.cursor];
    assert it in p.s.active;
    VisitMoves(p.s, p.cursor, env.rearm(i), env.ret(i));
  }
}
