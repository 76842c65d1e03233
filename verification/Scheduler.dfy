/** The x86 thread scheduler: the ready ring, the timer queue and the running thread. */
module Scheduler {
  import opened IntMath
  import opened WaitingTcbs
  import opened ReadyRing
  import opened Scheduling
  import opened SchedulerRuns

  /** The end of a slice that starts now, in 64 bits. */
  function SliceEnd(now: nat, slice: nat): nat {
    (now + slice) % POW64
  }

  class ThreadScheduler {
    const ready: Ring
    const waiting: WaitQueue
    var pready: Tcb
    ghost var at: nat

    /** A waiting thread other than `except` is not linked and not in the ring. */
    ghost predicate Apart(except: set<Tcb>)
      reads ready, waiting, waiting.Waiting()`pnext_tcb, waiting.Waiting()`pprev_tcb
    {
      forall t :: t in waiting.Waiting() && t !in except ==>
        t !in ready.threads && t.pprev_tcb == null && t.pnext_tcb == null
    }

    /** The ring and the queue are well formed, no thread but `except` is in both, and
        thread `t` is at position `j` of the ring. */
    ghost predicate Found(t: Tcb, j: nat, except: set<Tcb>)
      reads ready, ready.ring`pnext_tcb, ready.ring`pprev_tcb
      reads waiting, waiting.waiting_tcbs, waiting.Waiting()`waiting_deadline, waiting.Waiting()`pnext_tcb,
        waiting.Waiting()`pprev_tcb
    {
      ready.Valid() && waiting.Valid() && Apart(except) && j < |ready.ring| && ready.ring[j] == t
    }

    ghost predicate Valid()
      reads this, ready, ready.ring`pnext_tcb, ready.ring`pprev_tcb, ready.pidle_tcb`thread_id
      reads waiting, waiting.waiting_tcbs, waiting.Waiting()`waiting_deadline, waiting.Waiting()`pnext_tcb,
        waiting.Waiting()`pprev_tcb
    {
      Found(pready, at, {}) && ready.pidle_tcb.thread_id != AC_THREAD_ID_ZOMBIE
    }

    /** The zombies of the ring and the queue. */
    ghost function ZombieSet(): (z: set<Tcb>)
      reads ready, ready.ring`thread_id, waiting, waiting.Waiting()`thread_id
      ensures forall t :: t in ready.ring ==> (t in z <==> t.thread_id == AC_THREAD_ID_ZOMBIE)
      ensures forall t :: t in waiting.Waiting() ==> (t in z <==> t.thread_id == AC_THREAD_ID_ZOMBIE)
    {
      (set t | t in ready.ring && t.thread_id == AC_THREAD_ID_ZOMBIE)
      + (set t | t in waiting.Waiting() && t.thread_id == AC_THREAD_ID_ZOMBIE)
    }

    /** The state as a value. */
    ghost function Snapshot(): State<Tcb>
      reads this, ready, ready.ring`thread_id
      reads waiting, waiting.Waiting()`thread_id, waiting.Waiting()`waiting_deadline
    {
      State(ready.ring, at, waiting.Deadlines(), ZombieSet())
    }

    lemma SnapshotIs(t: Tcb, j: nat, except: set<Tcb>)
      requires Found(t, j, except) && ready.pidle_tcb.thread_id != AC_THREAD_ID_ZOMBIE
      ensures |ready.ring| > 0 && ready.ring[0] !in ZombieSet()
      ensures ready.Zombies() == Marks(ready.ring, ZombieSet())
    {
    }

    lemma FoundAt(t: Tcb, j: nat, except: set<Tcb>)
      requires Found(t, j, except)
      ensures t in ready.threads && (t == ready.pidle_tcb <==> j == 0)
      ensures ready.pidle_tcb.thread_id != AC_THREAD_ID_ZOMBIE ==> !ready.Zombies()[0]
    {
    }

    /** The runs of SchedulerRuns start from such states. */
    lemma SnapshotIsOk()
      requires Valid()
      ensures Ok(Snapshot())
    {
    }

    lemma RunningIsReady()
      requires Valid()
      ensures pready in ready.ring && pready in ready.threads && pready !in waiting.Waiting()
    {
    }

    /** The first thread is the idle thread, and no thread waits. */
    constructor (idle: Tcb, max_threads: nat)
      requires idle.thread_id != AC_THREAD_ID_ZOMBIE && max_threads > 0
      modifies idle
      ensures Valid() && pready == idle && ready.ring == [idle] && ready.threads == {idle}
        && waiting.Deadlines() == map[]
      ensures fresh(ready) && fresh(waiting) && fresh(waiting.waiting_tcbs)
        && waiting.waiting_tcbs.Length == max_threads
      ensures waiting.num_waiting_tcbs == 0
    {
      ready := new Ring(idle);
      waiting := new WaitQueue(max_threads);
      pready, at := idle, 0;
    }

    /** The first waiting thread goes into the ring before `next_tcb`. */
    method Release(first: Tcb, next_tcb: Tcb, now: nat, ghost j: nat)
      requires Found(next_tcb, j, {}) && first in waiting.Waiting() && first == waiting.First()
      modifies ready, ready.threads`pnext_tcb, ready.threads`pprev_tcb
      modifies first`pnext_tcb, first`pprev_tcb, first`slice_deadline, waiting, waiting.waiting_tcbs
      ensures Found(first, Before(|old(ready.ring)|, j), {}) && waiting.waiting_tcbs == old(waiting.waiting_tcbs)
      ensures waiting.Deadlines() == old(waiting.Deadlines()) - {first}
      ensures ready.ring == InsertBefore(old(ready.ring), j, first) && ready.threads == old(ready.threads) + {first}
      ensures first.slice_deadline == SliceEnd(now, first.slice)
    {
      hide Ring.Valid, WaitQueue.Valid, Apart;
      PutInRing(first, next_tcb, now, j);
      EndWait(first, Before(|old(ready.ring)|, j));
    }

    /** For a moment the thread is in the ring and in the queue. */
    method PutInRing(first: Tcb, next_tcb: Tcb, now: nat, ghost j: nat)
      requires Found(next_tcb, j, {}) && first in waiting.Waiting() && first == waiting.First()
      modifies ready, ready.threads`pnext_tcb, ready.threads`pprev_tcb, first`pnext_tcb, first`pprev_tcb,
        first`slice_deadline
      ensures Found(first, Before(|old(ready.ring)|, j), {first}) && first.slice_deadline == SliceEnd(now, first.slice)
      ensures first in waiting.Waiting() && first == waiting.First() && waiting.Deadlines() == old(waiting.Deadlines())
      ensures ready.ring == InsertBefore(old(ready.ring), j, first) && ready.threads == old(ready.threads) + {first}
    {
      InsertIs(ready.ring, j, first, Before(|ready.ring|, j));
      var rslt := ready.AddTcbBefore(first, next_tcb, j);
      first.slice_deadline := SliceEnd(now, first.slice);
    }

    method EndWait(first: Tcb, ghost k: nat)
      requires Found(first, k, {first}) && waiting.Waiting() != {} && first == waiting.First()
      modifies waiting, waiting.waiting_tcbs
      ensures Found(first, k, {}) && waiting.waiting_tcbs == old(waiting.waiting_tcbs)
      ensures waiting.Deadlines() == old(waiting.Deadlines()) - {first}
    {
      waiting.Remove();
    }

    /** timer_scheduler_intr_disabled.  A thread leaves the queue only when its deadline has
        come and none is earlier, and then it runs, before the thread found next.  When none
        is due the slice of the next thread is cut at the earliest deadline. */
    method TimerScheduler(next_tcb: Tcb, now: nat, ghost j: nat) returns (ptcb: Tcb, ghost due: bool)
      requires Found(next_tcb, j, {})
      modifies ready, ready.threads`pnext_tcb, ready.threads`pprev_tcb, next_tcb`slice_deadline, waiting,
        waiting.waiting_tcbs
      modifies waiting.Waiting()`pnext_tcb, waiting.Waiting()`pprev_tcb, waiting.Waiting()`slice_deadline
      ensures Found(ptcb, if due then Before(|old(ready.ring)|, j) else j, {})
        && waiting.waiting_tcbs == old(waiting.waiting_tcbs)
      ensures TimerAnswer(old(waiting.Deadlines()), waiting.Deadlines(), now, due, ptcb, next_tcb)
      ensures ready.ring == if due then InsertBefore(old(ready.ring), j, ptcb) else old(ready.ring)
      ensures ready.threads == if due then old(ready.threads) + {ptcb} else old(ready.threads)
      ensures due ==> ptcb.slice_deadline == SliceEnd(now, ptcb.slice)
      ensures !due ==> IsCut(ptcb.slice_deadline, old(next_tcb.slice_deadline), waiting.Deadlines())
    {
      hide Ring.Valid, WaitQueue.Valid, Apart;
      ptcb, due := next_tcb, false;
      var pwaiting_tcb := waiting.Peek();
      if pwaiting_tcb != null {
        var waiting_deadline := pwaiting_tcb.waiting_deadline;
        if now >= waiting_deadline {
          Release(pwaiting_tcb, next_tcb, now, j);
          ptcb, due := pwaiting_tcb, true;
        } else if next_tcb.slice_deadline > waiting_deadline {
          next_tcb.slice_deadline := waiting_deadline;
        }
      }
    }

    /** The running thread leaves the ring; its raw successor is next. */
    method RemoveRunning() returns (next: Tcb, ghost j: nat)
      requires Found(pready, at, {pready}) && at > 0
      modifies ready, ready.threads`pnext_tcb, ready.threads`pprev_tcb
      ensures Found(next, j, {}) && j == (if at == |ready.ring| then 0 else at)
      ensures ready.ring == RemoveAt(old(ready.ring), at) && ready.threads == old(ready.threads) - {pready}
      ensures ready.Zombies() == RemoveAt(old(ready.Zombies()), at)
    {
      hide Ring.Valid, WaitQueue.Valid, Apart;
      next, j := Unlink();
    }

    method Unlink() returns (next: Tcb, ghost j: nat)
      requires Found(pready, at, {pready}) && at > 0
      modifies ready, ready.threads`pnext_tcb, ready.threads`pprev_tcb
      ensures Found(next, j, {}) && j == (if at == |ready.ring| then 0 else at)
      ensures ready.ring == RemoveAt(old(ready.ring), at) && ready.threads == old(ready.threads) - {pready}
    {
      assert ready.Linked(at);
      next := ready.RemoveTcb(pready, at);
      j := if at == |ready.ring| then 0 else at;
    }

    method NextReady(t: Tcb, ghost i: nat) returns (next: Tcb, ghost j: nat)
      requires Found(t, i, {}) && ready.pidle_tcb.thread_id != AC_THREAD_ID_ZOMBIE
      ensures Found(next, j, {}) && j == NextLive(ready.Zombies(), i)
    {
      next, j := ready.NextTcb(t, i);
    }

    /** The part before the timer: the thread found next, at position `j` of what is left
        of the ring. */
    method FindNext(remove_pready: bool) returns (next: Tcb, ghost j: nat)
      requires Found(pready, at, if remove_pready then {pready} else {}) && (remove_pready ==> at > 0)
      requires ready.pidle_tcb.thread_id != AC_THREAD_ID_ZOMBIE
      modifies ready, ready.threads`pnext_tcb, ready.threads`pprev_tcb
      ensures Found(next, j, {}) && j == Picked(old(ready.Zombies()), at, remove_pready) && next in ready.threads
      ensures ready.ring == if remove_pready then RemoveAt(old(ready.ring), at) else old(ready.ring)
      ensures ready.threads == if remove_pready then old(ready.threads) - {pready} else old(ready.threads)
    {
      hide Ring.Valid, WaitQueue.Valid, Apart;
      ghost var z := ready.Zombies();
      FoundAt(pready, at, if remove_pready then {pready} else {});
      if remove_pready {
        next, j := RemoveRunning();
      } else {
        next, j := NextReady(pready, at);
      }
      FoundAt(next, j, {});
      PickedIs(z, at, remove_pready, ready.Zombies(), j);
      if next == ready.pidle_tcb {
        next, j := NextReady(next, j);
        FoundAt(next, j, {});
      }
    }

    method StartSlice(next: Tcb, now: nat, ghost j: nat)
      requires Found(next, j, {})
      modifies next`slice_deadline
      ensures Found(next, j, {}) && next.slice_deadline == SliceEnd(now, next.slice)
        && waiting.Deadlines() == old(waiting.Deadlines())
    {
      next.slice_deadline := SliceEnd(now, next.slice);
    }

    /** The part after the thread `next` is found: its slice, and the timer. */
    method SliceAndTimer(next: Tcb, now: nat, ghost j: nat) returns (ptcb: Tcb, ghost due: bool)
      requires Found(next, j, {})
      modifies ready, ready.threads`pnext_tcb, ready.threads`pprev_tcb, next`slice_deadline, waiting,
        waiting.waiting_tcbs
      modifies waiting.Waiting()`pnext_tcb, waiting.Waiting()`pprev_tcb, waiting.Waiting()`slice_deadline
      ensures Found(ptcb, if due then Before(|old(ready.ring)|, j) else j, {})
        && waiting.waiting_tcbs == old(waiting.waiting_tcbs)
      ensures TimerAnswer(old(waiting.Deadlines()), waiting.Deadlines(), now, due, ptcb, next)
      ensures ready.ring == if due then InsertBefore(old(ready.ring), j, ptcb) else old(ready.ring)
      ensures SliceIs(old(waiting.Deadlines()), now, ptcb)
    {
      hide Ring.Valid, WaitQueue.Valid, Apart;
      StartSlice(next, now, j);
      ptcb, due := TimerScheduler(next, now, j);
    }

    method RunNext(next: Tcb, now: nat, ghost j: nat) returns (ptcb: Tcb, ghost due: bool)
      requires Found(next, j, {}) && ready.pidle_tcb.thread_id != AC_THREAD_ID_ZOMBIE
      modifies this, ready, ready.threads`pnext_tcb, ready.threads`pprev_tcb, next`slice_deadline, waiting,
        waiting.waiting_tcbs
      modifies waiting.Waiting()`pnext_tcb, waiting.Waiting()`pprev_tcb, waiting.Waiting()`slice_deadline
      ensures Valid() && waiting.waiting_tcbs == old(waiting.waiting_tcbs) && pready == ptcb
      ensures at == if due then Before(|old(ready.ring)|, j) else j
      ensures TimerAnswer(old(waiting.Deadlines()), waiting.Deadlines(), now, due, ptcb, next)
      ensures ready.ring == if due then InsertBefore(old(ready.ring), j, ptcb) else old(ready.ring)
      ensures SliceIs(old(waiting.Deadlines()), now, ptcb)
    {
      hide Ring.Valid, WaitQueue.Valid, Apart;
      ptcb, due := SliceAndTimer(next, now, j);
      pready := ptcb;
      at := if due then Before(|old(ready.ring)|, j) else j;
    }

    /** The thread that runs next, and the ring and the queue it is found in. */
    method Reschedule(remove_pready: bool, now: nat) returns (ptcb: Tcb, ghost j: nat, ghost due: bool)
      requires Found(pready, at, if remove_pready then {pready} else {}) && (remove_pready ==> at > 0)
      requires ready.pidle_tcb.thread_id != AC_THREAD_ID_ZOMBIE
      modifies this, ready, ready.threads`pnext_tcb, ready.threads`pprev_tcb, ready.threads`slice_deadline
      modifies waiting, waiting.waiting_tcbs
      modifies waiting.Waiting()`pnext_tcb, waiting.Waiting()`pprev_tcb, waiting.Waiting()`slice_deadline
      ensures Valid() && waiting.waiting_tcbs == old(waiting.waiting_tcbs) && pready == ptcb
      ensures var left := if remove_pready then RemoveAt(old(ready.ring), old(at)) else old(ready.ring);
        && j == Picked(old(ready.Zombies()), old(at), remove_pready) && j < |left|
        && at == (if due then Before(|left|, j) else j)
        && TimerAnswer(old(waiting.Deadlines()), waiting.Deadlines(), now, due, ptcb, left[j])
        && ready.ring == if due then InsertBefore(left, j, ptcb) else left
      ensures SliceIs(old(waiting.Deadlines()), now, ptcb)
    {
      hide Ring.Valid, WaitQueue.Valid, Apart, TimerAnswer, SliceIs;
      var next;
      next, j := FindNext(remove_pready);
      ptcb, due := RunNext(next, now, j);
    }

    /** thread_scheduler_intr_disabled: the thread that runs next, and in its slice_deadline
        what the timer is set to.  A running thread that waits already is in the queue and
        in the ring; afterwards no thread is in both. */
    method Schedule(remove_pready: bool, now: nat) returns (ptcb: Tcb)
      requires Found(pready, at, if remove_pready then {pready} else {}) && (remove_pready ==> at > 0)
      requires ready.pidle_tcb.thread_id != AC_THREAD_ID_ZOMBIE
      modifies this, ready, ready.threads`pnext_tcb, ready.threads`pprev_tcb, ready.threads`slice_deadline
      modifies waiting, waiting.waiting_tcbs
      modifies waiting.Waiting()`pnext_tcb, waiting.Waiting()`pprev_tcb, waiting.Waiting()`slice_deadline
      ensures Valid() && waiting.waiting_tcbs == old(waiting.waiting_tcbs) && pready == ptcb
      ensures Call(old(Snapshot()), remove_pready, now, Snapshot())
      ensures SliceIs(old(waiting.Deadlines()), now, ptcb)
      ensures RunsUntil(old(waiting.Deadlines()), now, ptcb.slice, ptcb.slice_deadline)
    {
      hide Ring.Valid, WaitQueue.Valid, Apart, TimerAnswer, SliceIs, Call, InsertBefore, RemoveAt, Picked, RunsUntil;
      ghost var s := Snapshot();
      SnapshotIs(pready, at, if remove_pready then {pready} else {});
      ghost var j, due;
      ptcb, j, due := Reschedule(remove_pready, now);
      ThreadsStay(s, remove_pready, now, Snapshot(), j, due, ptcb);
      CallIs(s, remove_pready, now, Snapshot(), j, due, ptcb);
      SliceRuns(s.waiting, now, ptcb);
    }

    /** pready_timer_wait_until_tsc: the running thread waits for `tsc` and leaves the ring,
        and another runs, or the same again when its deadline has passed and is earliest. */
    method WaitUntil(tsc: nat, now: nat) returns (ptcb: Tcb)
      requires Valid() && at > 0 && waiting.num_waiting_tcbs + 1 < waiting.waiting_tcbs.Length
      modifies this, ready, ready.threads`pnext_tcb, ready.threads`pprev_tcb, ready.threads`slice_deadline
      modifies waiting, waiting.waiting_tcbs, pready`waiting_deadline
      modifies waiting.Waiting()`pnext_tcb, waiting.Waiting()`pprev_tcb, waiting.Waiting()`slice_deadline
      ensures Valid() && waiting.waiting_tcbs == old(waiting.waiting_tcbs) && pready == ptcb
      ensures Next(old(Snapshot()), Wait(tsc, now), Snapshot())
      ensures SliceIs(old(waiting.Deadlines())[old(pready) := tsc], now, ptcb)
      ensures RunsUntil(old(waiting.Deadlines())[old(pready) := tsc], now, ptcb.slice, ptcb.slice_deadline)
    {
      hide Ring.Valid, WaitQueue.Valid, Call, RunsUntil, SliceIs;
      RunningIsReady();
      SnapshotIs(pready, at, {});
      waiting.Add(pready, tsc);
      assert ZombieSet() == old(ZombieSet());
      ptcb := Schedule(true, now);
    }

    /** The end of entry_trampoline: the running thread is a zombie from now on. */
    method Exit()
      requires Valid() && at > 0
      modifies pready`thread_id
      ensures Valid() && Next(old(Snapshot()), SchedulerRuns.Exit, Snapshot())
    {
      RunningIsReady();
      FoundAt(pready, at, {});
      pready.thread_id := AC_THREAD_ID_ZOMBIE;
      assert ZombieSet() == old(ZombieSet()) + {pready};
    }

    /** The idle thread's turn: the zombies leave, and the others keep their order. */
    method Idle() returns (count: nat)
      requires Valid() && at == 0
      modifies ready, ready.threads`pnext_tcb, ready.threads`pprev_tcb, ready.threads`thread_id
      ensures Valid() && ready.ring == Live(old(ready.ring), old(ready.Zombies()))
        && waiting.Deadlines() == old(waiting.Deadlines())
      ensures count == |old(ready.ring)| - |ready.ring|
      ensures Next(old(Snapshot()), Reap, Snapshot())
    {
      SnapshotIs(pready, at, {});
      ghost var s := Snapshot();
      LiveIsPart(s.ring, Marks(s.ring, s.zombies));
      hide Live, Next, Call, SameZombies, Ring.Valid, WaitQueue.Valid, Apart;
      count := Sweep();
      SameThreads(s, Snapshot());
      ReapIs(s, Snapshot());
    }

    /** The zombies leave the ring, and nothing else changes. */
    method Sweep() returns (count: nat)
      requires Valid() && at == 0 && forall t :: t in Live(ready.ring, ready.Zombies()) ==> t in ready.ring
      modifies ready, ready.threads`pnext_tcb, ready.threads`pprev_tcb, ready.threads`thread_id
      ensures Valid() && waiting.Deadlines() == old(waiting.Deadlines())
      ensures ready.ring == Live(old(ready.ring), old(ready.Zombies()))
      ensures count == |old(ready.ring)| - |ready.ring|
      ensures forall t :: t in ready.ring || t in waiting.Waiting() ==> t.thread_id == old(t.thread_id)
    {
      hide Live;
      count := ready.RemoveZombies();
    }

    /** The thread goes into the ring after the running one, unless it is linked. */
    method AddReady(ptcb: Tcb) returns (rslt: nat)
      requires Valid()
      modifies this, ready, ready.threads`pnext_tcb, ready.threads`pprev_tcb, ptcb`pnext_tcb, ptcb`pprev_tcb
      ensures Found(pready, at, {ptcb}) && pready == old(pready) && at == old(at)
      ensures waiting.Deadlines() == old(waiting.Deadlines())
      ensures Valid() <==> ptcb !in waiting.Waiting()
      ensures rslt == if old(ptcb.pnext_tcb) == null then 0 else 1
      ensures rslt == 0 ==>
        ptcb !in old(ready.ring) && ready.ring == InsertBefore(old(ready.ring), Succ(|old(ready.ring)|, old(at)), ptcb)
      ensures rslt == 1 ==> ready.ring == old(ready.ring)
    {
      if ptcb in ready.threads {
        ready.OnRing(ptcb);
      }
      InsertIs(ready.ring, Succ(|ready.ring|, at), ptcb, at + 1);
      rslt := ready.AddTcbAfter(ptcb, pready, at);
    }

    /** thread_make_ready: a new or woken thread goes into the ring after the running one,
        unless it is linked.  Ring and queue stay apart exactly when it does not wait. */
    method MakeReady(ptcb: Tcb) returns (rslt: nat)
      requires Valid()
      modifies this, ready, ready.threads`pnext_tcb, ready.threads`pprev_tcb, ptcb`pnext_tcb, ptcb`pprev_tcb
      ensures Found(pready, at, {ptcb}) && pready == old(pready) && waiting.Deadlines() == old(waiting.Deadlines())
      ensures Valid() <==> ptcb !in waiting.Waiting()
      ensures rslt == if old(ptcb.pnext_tcb) == null then 0 else 1
      ensures ready.ring == if rslt == 0 then InsertBefore(old(ready.ring), Succ(|old(ready.ring)|, old(at)), ptcb)
        else old(ready.ring)
      ensures rslt == 0 && Valid() ==> Next(old(Snapshot()), Ready(ptcb), Snapshot())
    {
      SnapshotIs(pready, at, {});
      hide Ring.Valid, WaitQueue.Valid, Apart, Succ;
      rslt := AddReady(ptcb);
    }
  }

  /** While the idle thread runs, a thread that waits for tick 5 is made ready: then it is
      in the ring and in the queue. */
  method WakeWaiting(idle: Tcb, t: Tcb) returns (s: ThreadScheduler)
    requires idle.thread_id != AC_THREAD_ID_ZOMBIE && t != idle && t.pnext_tcb == null && t.pprev_tcb == null
    modifies idle, t
    ensures s.ready.ring == [idle, t] && s.waiting.Deadlines() == map[t := 5] && !s.Valid()
  {
    s := new ThreadScheduler(idle, 4);
    s.waiting.Add(t, 5);
    var rslt := s.MakeReady(t);
  }

  lemma SameThreads<T>(s: State<T>, r: State<T>)
    requires forall t :: t in r.ring ==> (t in r.zombies <==> t in s.zombies)
    requires forall t :: t in r.waiting ==> (t in r.zombies <==> t in s.zombies)
    ensures SameZombies(s, r)
  {
  }

  /** A turn of the idle thread, from its parts. */
  lemma ReapIs<T>(s: State<T>, r: State<T>)
    requires s.Valid() && s.at == r.at == 0 && r.waiting == s.waiting && SameZombies(s, r)
    requires r.ring == Live(s.ring, Marks(s.ring, s.zombies))
    ensures Next(s, Reap, r)
  {
  }

  lemma LiveIsPart<T>(ring: seq<T>, zombie: seq<bool>)
    requires |ring| == |zombie|
    ensures forall t :: t in Live(ring, zombie) ==> t in ring
  {
    forall t | t in Live(ring, zombie)
      ensures t in ring
    {
      LiveAreLive(ring, zombie, t);
    }
  }

  /** How a call of the timer ends, for the deadlines before and after it: a thread that is
      due leaves the queue and runs, and only one that has no earlier one before it. */
  ghost predicate TimerAnswer(before: map<Tcb, nat>, after: map<Tcb, nat>, now: nat, due: bool, ptcb: Tcb, next: Tcb) {
    if due then IsEarliest(before, ptcb) && now >= before[ptcb] && after == before - {ptcb}
    else ptcb == next && after == before && forall t :: t in before ==> now < before[t]
  }

  /** `r` is the end `slice_end` of a slice or the earliest deadline, whichever is first. */
  ghost predicate IsCut(r: nat, slice_end: nat, deadlines: map<Tcb, nat>) {
    && r <= slice_end && (forall t :: t in deadlines ==> r <= deadlines[t])
    && (r == slice_end || exists t :: t in deadlines && deadlines[t] == r)
  }

  /** The deadline of the thread that runs: the end of its slice, which is cut when it has
      not been waiting itself. */
  ghost predicate SliceIs(before: map<Tcb, nat>, now: nat, ptcb: Tcb)
    reads ptcb
  {
    if exists t :: t in before && IsDue(before, now, t) then ptcb.slice_deadline == SliceEnd(now, ptcb.slice)
    else IsCut(ptcb.slice_deadline, SliceEnd(now, ptcb.slice), before)
  }

  /** The timer deadline of a thread whose slice ends before the clock wraps: the end of the
      slice when a waiting thread was due or none waits for a time before that end, and else
      the earliest time that one waits for. */
  ghost predicate RunsUntil(before: map<Tcb, nat>, now: nat, slice: nat, deadline: nat) {
    now + slice < 0x1_0000_0000_0000_0000 ==>
      if (exists t :: t in before && before[t] <= now) || (forall t :: t in before ==> now + slice <= before[t])
      then deadline == now + slice
      else exists t :: t in before && IsEarliest(before, t) && deadline == before[t]
  }

  lemma SliceRuns(before: map<Tcb, nat>, now: nat, ptcb: Tcb)
    requires SliceIs(before, now, ptcb)
    ensures RunsUntil(before, now, ptcb.slice, ptcb.slice_deadline)
  {
    if t :| t in before && before[t] <= now {
      SomeIsDue(before, now, t);
    }
    if t :| t in before && before[t] == ptcb.slice_deadline && ptcb.slice_deadline != SliceEnd(now, ptcb.slice) {
      assert (forall u :: u in before ==> ptcb.slice_deadline <= before[u]) ==> IsEarliest(before, t);
    }
  }

  /** When no waiting thread is due, the timer is set to a time later than now exactly when the
      slice is positive and does not end after the clock wraps. */
  lemma TimerIsLaterIff(before: map<Tcb, nat>, now: nat, ptcb: Tcb)
    requires SliceIs(before, now, ptcb) && now < POW64 && ptcb.slice < POW64
    requires forall t :: t in before ==> now < before[t]
    ensures ptcb.slice_deadline > now <==> ptcb.slice > 0 && now + ptcb.slice < 0x1_0000_0000_0000_0000
  {
    assert !exists t :: t in before && IsDue(before, now, t);
    if now + ptcb.slice >= POW64 {
      assert (now + ptcb.slice) % POW64 == now + ptcb.slice - POW64;
    }
  }

  /** A call adds no thread but the one that waited. */
  lemma ThreadsStay(s: State<Tcb>, remove: bool, now: nat, r: State<Tcb>, j: nat, due: bool, ptcb: Tcb)
    requires s.Valid() && (remove ==> s.at > 0) && j < |s.Left(remove)|
    requires TimerAnswer(s.waiting, r.waiting, now, due, ptcb, s.Left(remove)[j])
    requires r.ring == if due then InsertBefore(s.Left(remove), j, ptcb) else s.Left(remove)
    ensures forall t :: t in r.ring ==> t in s.ring || t in s.waiting
    ensures forall t :: t in r.waiting ==> t in s.waiting
  {
  }

  /** A call, from its parts. */
  lemma CallIs(s: State<Tcb>, remove: bool, now: nat, r: State<Tcb>, j: nat, due: bool, ptcb: Tcb)
    requires s.Valid() && (remove ==> s.at > 0) && SameZombies(s, r) && j == s.Pick(remove)
    requires TimerAnswer(s.waiting, r.waiting, now, due, ptcb, s.Left(remove)[j])
    requires r.at == if due then Before(|s.Left(remove)|, j) else j
    requires r.ring == if due then InsertBefore(s.Left(remove), j, ptcb) else s.Left(remove)
    ensures Call(s, remove, now, r)
  {
    if due {
      assert IsDue(s.waiting, now, ptcb);
    }
  }

  /** The pick from the first thread found at `j` and the zombies `left` in the ring. */
  lemma PickedIs(zombie: seq<bool>, i: nat, remove: bool, left: seq<bool>, j: nat)
    requires i < |zombie| && !zombie[0] && (remove ==> i > 0) && left == if remove then RemoveAt(zombie, i) else zombie
    requires j == if remove then (if i == |left| then 0 else i) else NextLive(zombie, i)
    ensures j < |left| && !left[0] && Picked(zombie, i, remove) == if j == 0 then NextLive(left, 0) else j
  {
  }
}
