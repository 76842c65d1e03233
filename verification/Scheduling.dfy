/** What one call of the scheduler does to the ring and the queue, as values, and what
    follows for the choice of threads and for runs of calls. */
module Scheduling {
  import opened WaitingTcbs
  import opened ReadyRing

  /** The position picked in the ring after the removal, if any, of the thread at `i`: its
      raw successor when it is removed, the next one that is no zombie otherwise; the idle
      thread at position 0 is passed over when another can be found. */
  function Picked(zombie: seq<bool>, i: nat, remove: bool): (j: nat)
    requires i < |zombie| && !zombie[0] && (remove ==> i > 0)
    ensures j < |zombie| - (if remove then 1 else 0)
  {
    var z := if remove then RemoveAt(zombie, i) else zombie;
    var j := if remove then (if i == |z| then 0 else i) else NextLive(zombie, i);
    if j == 0 then NextLive(z, 0) else j
  }

  /** Without removal the pick is no zombie, and is idle exactly when all others are. */
  lemma PickIsLive(zombie: seq<bool>, i: nat)
    requires i < |zombie| && !zombie[0]
    ensures !zombie[Picked(zombie, i, false)]
    ensures Picked(zombie, i, false) == 0 <==> forall k :: 0 < k < |zombie| ==> zombie[k]
  {
    var j := NextLive(zombie, i);
    if j == 0 {
      if |zombie| == 1 {
        assert NextLive(zombie, 0) == 0;
      } else {
        assert NextLive(zombie, 0) == FirstLive(zombie, 1);
      }
    }
  }

  /** With removal the pick is a zombie exactly when the raw successor is one. */
  lemma PickAfterRemoval(zombie: seq<bool>, i: nat)
    requires 0 < i < |zombie| && !zombie[0]
    ensures RemoveAt(zombie, i)[Picked(zombie, i, true)] <==> i + 1 < |zombie| && zombie[i + 1]
  {
    var z := RemoveAt(zombie, i);
    assert z[0] == zombie[0];
    assert i < |z| ==> z[i] == zombie[i + 1];
  }

  /** Idle, a running thread that is removed, and a zombie: the zombie is picked. */
  lemma ZombieCanBePicked(zombie: seq<bool>)
    requires zombie == [false, false, true]
    ensures RemoveAt(zombie, 1)[Picked(zombie, 1, true)]
  {
    PickAfterRemoval(zombie, 1);
  }

  // ------------------------------------------------------------------ calls

  /** Which threads of a ring are zombies. */
  function Marks<T>(ring: seq<T>, zombies: set<T>): (z: seq<bool>)
    ensures |z| == |ring|
    ensures forall k :: 0 <= k < |ring| ==> z[k] == (ring[k] in zombies)
  {
    seq(|ring|, k requires 0 <= k < |ring| => ring[k] in zombies)
  }

  /** The ring from the idle thread on, the position of the running thread, the deadlines
      of the waiting threads, and the zombies. */
  datatype State<T> = State(ring: seq<T>, at: nat, waiting: map<T, nat>, zombies: set<T>)
  {
    ghost predicate Valid() {
      at < |ring| && ring[0] !in zombies
    }

    ghost function Running(): T
      requires Valid()
    {
      ring[at]
    }

    /** The position the scheduler picks. */
    ghost function Pick(remove: bool): (j: nat)
      requires Valid() && (remove ==> at > 0)
      ensures j < |Left(remove)|
    {
      Picked(Marks(ring, zombies), at, remove)
    }

    /** What is left of the ring for it to pick from. */
    ghost function Left(remove: bool): seq<T>
      requires Valid()
    {
      if remove then RemoveAt(ring, at) else ring
    }
  }

  /** Where a thread put before position `j` of a ring of `n` is. */
  function Before(n: nat, j: nat): nat {
    if j == 0 then n else j
  }

  /** The threads that are still there are zombies if they were. */
  ghost predicate SameZombies<T>(s: State<T>, r: State<T>) {
    && (forall t :: t in r.ring ==> (t in r.zombies <==> t in s.zombies))
    && (forall t :: t in r.waiting ==> (t in r.zombies <==> t in s.zombies))
  }

  ghost predicate IsDue<T>(waiting: map<T, nat>, now: nat, t: T) {
    IsEarliest(waiting, t) && now >= waiting[t]
  }

  /** A call at time `now`: when the earliest deadline has come, a thread that waits for it
      leaves the queue and runs, in the ring before the thread picked; else that one runs. */
  ghost predicate Call<T>(s: State<T>, remove: bool, now: nat, r: State<T>) {
    && s.Valid() && (remove ==> s.at > 0) && SameZombies(s, r)
    && var j := s.Pick(remove);
       var left := s.Left(remove);
       if exists t :: t in s.waiting && IsDue(s.waiting, now, t) then Releases(s.waiting, now, left, j, r)
       else r.ring == left && r.at == j && r.waiting == s.waiting
  }

  ghost predicate Releases<T>(waiting: map<T, nat>, now: nat, left: seq<T>, j: nat, r: State<T>)
    requires j < |left|
  {
    && r.at == Before(|left|, j) && r.at < |r.ring|
    && IsDue(waiting, now, r.ring[r.at]) && r.waiting == waiting - {r.ring[r.at]}
    && r.ring == InsertBefore(left, j, r.ring[r.at])
  }

  /** A thread that waits no longer than `now` is due, or one before it is. */
  lemma {:induction false} SomeIsDue<T>(waiting: map<T, nat>, now: nat, t: T)
    requires t in waiting && waiting[t] <= now
    ensures exists u :: u in waiting && IsDue(waiting, now, u)
    decreases waiting[t]
  {
    if IsEarliest(waiting, t) {
      assert IsDue(waiting, now, t);
    } else {
      var u :| u in waiting && waiting[u] < waiting[t];
      SomeIsDue(waiting, now, u);
    }
  }

  /** The steps along the ring from the running thread to position `q`, from 1 on. */
  function Distance(n: nat, i: nat, q: nat): (d: nat)
    requires i < n && q < n
    ensures 1 <= d <= n
  {
    if q > i then q - i else q + n - i
  }

  /** A thread that could run is on the way from the running thread to the pick or after
      the pick, never skipped. */
  lemma PickComesFirst(zombie: seq<bool>, i: nat, q: nat)
    requires i < |zombie| && !zombie[0] && 0 < q < |zombie| && !zombie[q]
    ensures var j := Picked(zombie, i, false);
      0 < j && (j == q || Distance(|zombie|, j, q) < Distance(|zombie|, i, q))
  {
    PickIsLive(zombie, i);
  }
}
