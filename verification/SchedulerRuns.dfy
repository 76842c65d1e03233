/** Runs of the scheduler: threads yield, are ticked, wait for the timer, are taken out of the
    ring, are made ready and end, and the idle thread removes the zombies. */
module SchedulerRuns {
  import opened WaitingTcbs
  import opened ReadyRing
  import opened Scheduling

  /** What happens to the running thread, or to thread `t`: Park is a removal from the ring
      without a timer, Reap a turn of the idle thread. */
  datatype Event<T> = Tick(now: nat) | Wait(tsc: nat, now: nat) | Park(now: nat) | Ready(t: T) | Exit | Reap

  /** The running thread waits for `tsc`, and is still in the ring. */
  ghost function Queued<T>(s: State<T>, tsc: nat): State<T>
    requires s.Valid()
  {
    s.(waiting := s.waiting[s.Running() := tsc])
  }

  ghost predicate Next<T>(s: State<T>, e: Event<T>, r: State<T>) {
    && s.Valid()
    && match e
       case Tick(now) => Call(s, false, now, r)
       case Wait(tsc, now) => s.at > 0 && Call(Queued(s, tsc), true, now, r)
       case Park(now) => s.at > 0 && Call(s, true, now, r)
       case Ready(t) => Joins(s, t, r)
       case Exit => s.at > 0 && r == s.(zombies := s.zombies + {s.Running()})
       case Reap => Reaps(s, r)
  }

  /** Thread `t` comes after the running one. */
  ghost predicate Joins<T>(s: State<T>, t: T, r: State<T>)
    requires s.Valid()
  {
    && t !in s.ring && t !in s.waiting && r.waiting == s.waiting && r.at == s.at
    && r.ring == InsertBefore(s.ring, Succ(|s.ring|, s.at), t)
    && (forall u :: u in s.ring ==> (u in r.zombies <==> u in s.zombies))
    && (forall u :: u in s.waiting ==> (u in r.zombies <==> u in s.zombies))
  }

  ghost predicate Reaps<T>(s: State<T>, r: State<T>)
    requires s.Valid()
  {
    && s.at == r.at == 0 && r.waiting == s.waiting && SameZombies(s, r)
    && r.ring == Live(s.ring, Marks(s.ring, s.zombies))
  }

  /** The states before, between and after events. */
  ghost predicate IsRun<T>(ss: seq<State<T>>, es: seq<Event<T>>) {
    |ss| == |es| + 1 && forall k :: 0 <= k < |es| ==> Next(ss[k], es[k], ss[k + 1])
  }

  ghost predicate RunsAt<T>(ss: seq<State<T>>, k: nat, t: T) {
    k < |ss| && ss[k].Valid() && ss[k].Running() == t
  }

  // ------------------------------------------------------------------ invariant

  /** The idle thread is first, no thread is on the ring twice, and none of it waits. */
  ghost predicate Ok<T>(s: State<T>) {
    s.Valid() && Apart(s.ring, s.waiting)
  }

  /** The same, but that the running thread may wait. */
  ghost predicate OkBut<T>(s: State<T>) {
    && s.Valid()
    && (forall i, j :: 0 <= i < j < |s.ring| ==> s.ring[i] != s.ring[j])
    && (forall i :: 0 <= i < |s.ring| && i != s.at ==> s.ring[i] !in s.waiting)
  }

  lemma CallKeepsOk<T>(s: State<T>, remove: bool, now: nat, r: State<T>)
    requires Call(s, remove, now, r) && OkBut(s) && (remove || Ok(s))
    ensures Ok(r)
  {
    var left, j := s.Left(remove), s.Pick(remove);
    LeftIsOk(s, remove);
    if exists t :: t in s.waiting && IsDue(s.waiting, now, t) {
      ReleaseKeepsApart(s.waiting, now, left, j, r);
      InsertIs(left, j, r.ring[r.at], r.at);
    }
    assert r.ring[0] == s.ring[0];
  }

  ghost predicate Apart<T>(ring: seq<T>, waiting: map<T, nat>) {
    && (forall i, j :: 0 <= i < j < |ring| ==> ring[i] != ring[j])
    && (forall i :: 0 <= i < |ring| ==> ring[i] !in waiting)
  }

  lemma LeftIsOk<T>(s: State<T>, remove: bool)
    requires OkBut(s) && (remove || Ok(s)) && (remove ==> s.at > 0)
    ensures Apart(s.Left(remove), s.waiting) && s.Left(remove)[0] == s.ring[0]
  {
  }

  lemma ReleaseKeepsApart<T>(waiting: map<T, nat>, now: nat, left: seq<T>, j: nat, r: State<T>)
    requires j < |left| && Apart(left, waiting) && Releases(waiting, now, left, j, r)
    ensures Apart(r.ring, r.waiting)
  {
    InsertIs(left, j, r.ring[r.at], r.at);
  }

  lemma NextKeepsOk<T>(s: State<T>, e: Event<T>, r: State<T>)
    requires Ok(s) && Next(s, e, r)
    ensures Ok(r)
  {
    match e
    case Tick(now) => CallKeepsOk(s, false, now, r);
    case Wait(tsc, now) => CallKeepsOk(Queued(s, tsc), true, now, r);
    case Park(now) => CallKeepsOk(s, true, now, r);
    case Ready(t) => InsertIs(s.ring, Succ(|s.ring|, s.at), t, s.at + 1);
    case Exit =>
    case Reap => ReapKeepsOk(s, r);
  }

  lemma ReapKeepsOk<T>(s: State<T>, r: State<T>)
    requires Ok(s) && Reaps(s, r)
    ensures Ok(r)
  {
    var z := Marks(s.ring, s.zombies);
    LiveKeepsOrder(s.ring, z, 0);
    LiveDistinct(s.ring, z);
    forall i | 0 <= i < |r.ring|
      ensures r.ring[i] !in r.waiting
    {
      LiveAreLive(s.ring, z, r.ring[i]);
    }
  }

  lemma {:induction false} LiveDistinct<T>(ring: seq<T>, zombie: seq<bool>)
    requires |ring| == |zombie| && forall i, j :: 0 <= i < j < |ring| ==> ring[i] != ring[j]
    ensures forall i, j :: 0 <= i < j < |Live(ring, zombie)| ==> Live(ring, zombie)[i] != Live(ring, zombie)[j]
  {
    if ring != [] {
      var n := |ring| - 1;
      LiveDistinct(ring[..n], zombie[..n]);
      forall i | 0 <= i < |Live(ring[..n], zombie[..n])|
        ensures Live(ring[..n], zombie[..n])[i] != ring[n]
      {
        LiveAreLive(ring[..n], zombie[..n], Live(ring[..n], zombie[..n])[i]);
      }
    }
  }

  /** Over all runs no thread is on the ring twice, or on it and in the queue. */
  lemma {:induction false} RunKeepsOk<T>(ss: seq<State<T>>, es: seq<Event<T>>, k: nat)
    requires IsRun(ss, es) && Ok(ss[0]) && k <= |es|
    ensures Ok(ss[k])
  {
    if k > 0 {
      RunKeepsOk(ss, es, k - 1);
      NextKeepsOk(ss[k - 1], es[k - 1], ss[k]);
    }
  }

  // ------------------------------------------------------------------ the timer

  /** The deadlines when the timer looks at them. */
  ghost function Deadlines<T>(s: State<T>, e: Event<T>): map<T, nat>
    requires s.Valid()
  {
    if e.Wait? then Queued(s, e.tsc).waiting else s.waiting
  }

  /** Thread `t` is released: it is due, no deadline is earlier, no other leaves, and it runs. */
  ghost predicate Released<T>(s: State<T>, e: Event<T>, r: State<T>, t: T)
    requires s.Valid()
  {
    && (e.Tick? || e.Wait? || e.Park?) && IsDue(Deadlines(s, e), e.now, t)
    && r.waiting == Deadlines(s, e) - {t} && r.Valid() && r.Running() == t
  }

  lemma LeavesWhenDue<T>(s: State<T>, e: Event<T>, r: State<T>, t: T)
    requires Ok(s) && Next(s, e, r) && t in Deadlines(s, e) && t !in r.waiting
    ensures Released(s, e, r, t)
  {
    NextKeepsOk(s, e, r);
  }

  /** A deadline does not change while the thread waits. */
  lemma {:induction false} DeadlineStays<T>(ss: seq<State<T>>, es: seq<Event<T>>, t: T, i: nat, k: nat)
    requires IsRun(ss, es) && Ok(ss[0]) && i <= k <= |es| && forall j :: i <= j <= k ==> t in ss[j].waiting
    ensures ss[k].waiting[t] == ss[i].waiting[t]
    decreases k
  {
    if i < k {
      DeadlineStays(ss, es, t, i, k - 1);
      RunKeepsOk(ss, es, k - 1);
      StaysAsItIs(ss[k - 1], es[k - 1], ss[k], t);
    }
  }

  lemma StaysAsItIs<T>(s: State<T>, e: Event<T>, r: State<T>, t: T)
    requires Ok(s) && Next(s, e, r) && t in s.waiting && t in r.waiting
    ensures r.waiting[t] == s.waiting[t]
  {
  }

  /** Over all runs: a thread that began to wait at event `i` and stops waiting at event `k`
      does so not before its deadline, and as the only one and an earliest, and it runs. */
  lemma TimerSafety<T>(ss: seq<State<T>>, es: seq<Event<T>>, t: T, i: nat, k: nat)
    requires IsRun(ss, es) && Ok(ss[0]) && i <= k < |es| && es[i].Wait? && RunsAt(ss, i, t)
    requires (forall j :: i < j <= k ==> t in ss[j].waiting) && t !in ss[k + 1].waiting
    ensures ss[k].Valid() && Released(ss[k], es[k], ss[k + 1], t) && es[k].now >= es[i].tsc
  {
    RunKeepsOk(ss, es, k);
    assert Next(ss[k], es[k], ss[k + 1]) && Next(ss[i], es[i], ss[i + 1]);
    if i < k {
      RunKeepsOk(ss, es, i);
      BeginsToWait(ss[i], es[i], ss[i + 1]);
      DeadlineStays(ss, es, t, i + 1, k);
      OnlyRunningWaits(ss[k], es[k], t);
    }
    LeavesWhenDue(ss[k], es[k], ss[k + 1], t);
  }

  lemma BeginsToWait<T>(s: State<T>, e: Event<T>, r: State<T>)
    requires Next(s, e, r) && e.Wait? && s.Running() in r.waiting
    ensures r.waiting[s.Running()] == e.tsc
  {
  }

  lemma OnlyRunningWaits<T>(s: State<T>, e: Event<T>, t: T)
    requires Ok(s) && t in s.waiting
    ensures t in Deadlines(s, e) && Deadlines(s, e)[t] == s.waiting[t]
  {
  }

  // ------------------------------------------------------------------ fairness

  /** Thread `t`, not idle and no zombie, is at position `q` of the ring. */
  ghost predicate CanRun<T>(s: State<T>, q: nat, t: T) {
    s.Valid() && 0 < q < |s.ring| && s.ring[q] == t && t !in s.zombies
  }

  /** How many calls it may take until the thread at `q` runs. */
  ghost function Ahead<T>(s: State<T>, q: nat): (n: nat)
    requires s.Valid() && q < |s.ring|
    ensures 0 < n <= |s.ring| + |s.waiting|
  {
    Distance(|s.ring|, s.at, q) + |s.waiting|
  }

  lemma FewerWait<T>(waiting: map<T, nat>, t: T)
    requires t in waiting
    ensures |waiting - {t}| == |waiting| - 1
  {
    assert (waiting - {t}).Keys == waiting.Keys - {t};
    assert |waiting.Keys| == |waiting| && |(waiting - {t}).Keys| == |waiting - {t}|;
  }

  /** Where position `q` of the ring is in what is left of it. */
  function LeftAt(at: nat, remove: bool, q: nat): nat {
    if remove && q > at then q - 1 else q
  }

  /** A removal does not skip a thread that could run either. */
  lemma PickAfterRemovalComesFirst(zombie: seq<bool>, i: nat, q: nat)
    requires 0 < i < |zombie| && !zombie[0] && 0 < q < |zombie| && q != i && !zombie[q]
    ensures var (j, p) := (Picked(zombie, i, true), LeftAt(i, true, q));
      0 < j && (j == p || Distance(|zombie| - 1, j, p) < Distance(|zombie|, i, q))
  {
    var z := RemoveAt(zombie, i);
    assert z[LeftAt(i, true, q)] == zombie[q];
    if i == |z| {
      assert NextLive(z, 0) == FirstLive(z, 1);
    }
  }

  /** A call runs the thread or brings its turn closer, released threads included. */
  lemma CallComesCloser<T>(s: State<T>, remove: bool, now: nat, r: State<T>, q: nat, t: T) returns (p: nat)
    requires Call(s, remove, now, r) && CanRun(s, q, t) && (remove ==> q != s.at)
    ensures CanRun(r, p, t) && (r.at == p || Ahead(r, p) < Ahead(s, q))
  {
    var j, left := s.Pick(remove), s.Left(remove);
    p := LeftComesCloser(s, remove, q, t);
    if exists u :: u in s.waiting && IsDue(s.waiting, now, u) {
      p := ReleaseComesCloser(s.waiting, now, left, j, r, p, Distance(|s.ring|, s.at, q));
    }
  }

  lemma LeftComesCloser<T>(s: State<T>, remove: bool, q: nat, t: T) returns (p: nat)
    requires CanRun(s, q, t) && (remove ==> q != s.at && s.at > 0)
    ensures var (j, left) := (s.Pick(remove), s.Left(remove));
      && 0 < p < |left| && left[p] == t && left[0] == s.ring[0] && 0 < j
      && (j == p || Distance(|left|, j, p) < Distance(|s.ring|, s.at, q))
  {
    var z := Marks(s.ring, s.zombies);
    p := LeftAt(s.at, remove, q);
    if remove {
      PickAfterRemovalComesFirst(z, s.at, q);
    } else {
      PickComesFirst(z, s.at, q);
    }
  }

  /** The released thread comes before the one picked, and one thread less waits. */
  lemma ReleaseComesCloser<T>(waiting: map<T, nat>, now: nat, left: seq<T>, j: nat, r: State<T>, p: nat, d: nat)
    returns (p2: nat)
    requires 0 < j < |left| && 0 < p < |left| && Releases(waiting, now, left, j, r)
    requires d > 0 && (j == p || Distance(|left|, j, p) < d)
    ensures 0 < p2 < |r.ring| && r.ring[p2] == left[p] && r.ring[0] == left[0] && r.at != p2
    ensures Distance(|r.ring|, r.at, p2) + |r.waiting| < d + |waiting|
  {
    p2 := if j <= p then p + 1 else p;
    FewerWait(waiting, r.ring[r.at]);
    InsertIs(left, j, r.ring[r.at], r.at);
  }

  /** In a run of yields and ticks every thread of the ring that is no zombie runs within
      as many calls as the ring and the queue are long together. */
  lemma EveryThreadRuns<T>(ss: seq<State<T>>, es: seq<Event<T>>, q: nat, t: T)
    requires IsRun(ss, es) && CanRun(ss[0], q, t) && |es| >= |ss[0].ring| + |ss[0].waiting|
    requires forall k :: 0 <= k < |es| ==> es[k].Tick?
    ensures exists k :: 0 < k <= |ss[0].ring| + |ss[0].waiting| && RunsAt(ss, k, t)
  {
    var k := RunsWithin(ss, es, q, t, Ahead(ss[0], q));
  }

  lemma {:induction false} RunsWithin<T>(ss: seq<State<T>>, es: seq<Event<T>>, q: nat, t: T, n: nat) returns (k: nat)
    requires IsRun(ss, es) && CanRun(ss[0], q, t) && Ahead(ss[0], q) <= n <= |es|
    requires forall k :: 0 <= k < |es| ==> es[k].Tick?
    ensures 0 < k <= n && RunsAt(ss, k, t)
    decreases n
  {
    assert Next(ss[0], es[0], ss[1]);
    var p := CallComesCloser(ss[0], false, es[0].now, ss[1], q, t);
    if ss[1].at == p {
      k := 1;
    } else {
      k := RunsWithin(ss[1..], es[1..], p, t, n - 1);
      k := k + 1;
    }
  }

  /** A waiting thread whose deadline has come at every call of the run runs within as many
      calls as threads wait. */
  lemma {:induction false} EveryWaitEnds<T>(ss: seq<State<T>>, es: seq<Event<T>>, t: T) returns (k: nat)
    requires IsRun(ss, es) && t in ss[0].waiting && |es| >= |ss[0].waiting|
    requires forall i :: 0 <= i < |es| ==> es[i].Tick? && es[i].now >= ss[0].waiting[t]
    ensures 0 < k <= |ss[0].waiting| && RunsAt(ss, k, t)
    decreases |ss[0].waiting|
  {
    assert Next(ss[0], es[0], ss[1]);
    SomeIsDue(ss[0].waiting, es[0].now, t);
    var u := ss[1].ring[ss[1].at];
    FewerWait(ss[0].waiting, u);
    if u == t {
      k := 1;
    } else {
      k := EveryWaitEnds(ss[1..], es[1..], t);
      k := k + 1;
    }
  }

  /** The calls in which no thread begins to wait, and the threads that are made ready. */
  function Calls<T>(es: seq<Event<T>>): nat {
    if es == [] then 0 else (if es[0].Tick? || es[0].Park? then 1 else 0) + Calls(es[1..])
  }

  function Readied<T>(es: seq<Event<T>>): nat {
    if es == [] then 0 else (if es[0].Ready? then 1 else 0) + Readied(es[1..])
  }

  lemma MoreWait<T>(waiting: map<T, nat>, t: T, d: nat)
    ensures |waiting[t := d]| <= |waiting| + 1
  {
    var more := waiting[t := d];
    assert more.Keys == waiting.Keys + {t};
    assert |more.Keys| == |more| && |waiting.Keys| == |waiting|;
    assert |waiting.Keys + {t}| <= |waiting.Keys| + 1;
  }

  lemma ReapComesCloser<T>(s: State<T>, r: State<T>, q: nat, t: T) returns (p: nat)
    requires s.Valid() && Reaps(s, r) && CanRun(s, q, t)
    ensures CanRun(r, p, t) && p != r.at && Ahead(r, p) <= Ahead(s, q)
  {
    var z := Marks(s.ring, s.zombies);
    p := LiveBefore(z, q);
    LiveKeepsOrder(s.ring, z, 0);
    LiveKeepsOrder(s.ring, z, q);
    LiveGrows(z, q);
    assert r.ring[0] == s.ring[0];
  }

  lemma {:induction false} LiveGrows(zombie: seq<bool>, i: nat)
    requires 0 < i <= |zombie| && !zombie[0]
    ensures 0 < LiveBefore(zombie, i) <= i
  {
    if i > 1 {
      LiveGrows(zombie[..i - 1], i - 1);
    }
  }

  lemma CountsOne<T>(e: Event<T>)
    ensures Calls([e]) == (if e.Tick? || e.Park? then 1 else 0) && Readied([e]) == (if e.Ready? then 1 else 0)
  {
    assert [e][1..] == [];
  }

  lemma JoinDelays<T>(s: State<T>, u: T, r: State<T>, q: nat, t: T) returns (p: nat)
    requires s.Valid() && Joins(s, u, r) && CanRun(s, q, t) && q != s.at
    ensures CanRun(r, p, t) && p != r.at && Ahead(r, p) <= Ahead(s, q) + 1
  {
    InsertIs(s.ring, Succ(|s.ring|, s.at), u, s.at + 1);
    p := if q > s.at then q + 1 else q;
    assert r.ring[0] == s.ring[0];
  }

  /** An event makes the thread run, or brings its turn closer if it is a call, and delays it
      by one if a thread is made ready. */
  lemma EventComesCloser<T>(s: State<T>, e: Event<T>, r: State<T>, q: nat, t: T) returns (p: nat)
    requires Ok(s) && Next(s, e, r) && CanRun(s, q, t) && q != s.at
    ensures CanRun(r, p, t) && (r.at == p || Ahead(r, p) + Calls([e]) <= Ahead(s, q) + Readied([e]))
  {
    CountsOne(e);
    match e
    case Tick(now) => p := CallComesCloser(s, false, now, r, q, t);
    case Park(now) => p := CallComesCloser(s, true, now, r, q, t);
    case Wait(tsc, now) =>
      MoreWait(s.waiting, s.Running(), tsc);
      p := CallComesCloser(Queued(s, tsc), true, now, r, q, t);
    case Ready(u) => p := JoinDelays(s, u, r, q, t);
    case Exit =>
      p := q;
    case Reap => p := ReapComesCloser(s, r, q, t);
  }

  /** In every run, whatever threads wait, end and become ready: a thread of the ring that is
      no zombie and does not run gets to run when there are as many calls as ring and queue
      are long together and threads are made ready. */
  lemma {:induction false} EveryThreadGetsToRun<T>(ss: seq<State<T>>, es: seq<Event<T>>, q: nat, t: T) returns (k: nat)
    requires IsRun(ss, es) && Ok(ss[0]) && CanRun(ss[0], q, t) && q != ss[0].at
    requires Calls(es) >= Ahead(ss[0], q) + Readied(es)
    ensures RunsAt(ss, k, t)
    decreases |es|
  {
    assert Next(ss[0], es[0], ss[1]);
    var p := EventComesCloser(ss[0], es[0], ss[1], q, t);
    NextKeepsOk(ss[0], es[0], ss[1]);
    CountsOne(es[0]);
    if ss[1].at == p {
      k := 1;
    } else {
      k := EveryThreadGetsToRun(ss[1..], es[1..], p, t);
      k := k + 1;
    }
  }

  /** A thread that is made ready runs next when the running one yields and no timer is due. */
  lemma ReadyRunsNext<T>(s: State<T>, t: T, r: State<T>, now: nat, u: State<T>)
    requires Ok(s) && Next(s, Ready(t), r) && Next(r, Tick(now), u) && t !in r.zombies
    requires forall w :: w in r.waiting ==> now < r.waiting[w]
    ensures u.Valid() && u.Running() == t && u.ring == r.ring && u.waiting == r.waiting
  {
    var i := s.at + 1;
    InsertIs(s.ring, Succ(|s.ring|, s.at), t, i);
    assert r.ring[i] == t && r.ring[0] == s.ring[0];
    var z := Marks(r.ring, r.zombies);
    assert !z[i] && Succ(|z|, r.at) == i;
    assert NextLive(z, r.at) == i == r.Pick(false);
    assert !exists w :: w in r.waiting && IsDue(r.waiting, now, w);
  }
}
