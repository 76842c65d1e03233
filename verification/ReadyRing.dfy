/** The ready threads: a circular doubly linked list of thread control blocks that always
    holds the idle thread. */
module ReadyRing {
  import opened WaitingTcbs

  /** The position after `i` on a ring of `n`. */
  function Succ(n: nat, i: nat): (r: nat)
    requires i < n
    ensures r < n
  {
    if i + 1 == n then 0 else i + 1
  }

  function Pred(n: nat, i: nat): (r: nat)
    requires i < n
    ensures r < n && Succ(n, r) == i
  {
    if i == 0 then n - 1 else i - 1
  }

  /** The ring, written from the idle thread on, with `t` before position `i`. */
  function InsertBefore<T>(ring: seq<T>, i: nat, t: T): seq<T>
    requires i < |ring|
  {
    if i == 0 then ring + [t] else ring[..i] + [t] + ring[i..]
  }

  lemma InsertIs<T>(ring: seq<T>, i: nat, t: T, p: nat)
    requires i < |ring| && p == if i == 0 then |ring| else i
    ensures var r := InsertBefore(ring, i, t);
      && |r| == |ring| + 1 && r[p] == t
      && (forall k :: 0 <= k < p ==> r[k] == ring[k]) && (forall k :: p < k < |r| ==> r[k] == ring[k - 1])
  {
  }

  function RemoveAt<T>(ring: seq<T>, i: nat): seq<T>
    requires i < |ring|
  {
    ring[..i] + ring[i + 1..]
  }

  /** The first position from `k` on whose thread is no zombie; position 0 is the idle
      thread, which never is. */
  function FirstLive(zombie: seq<bool>, k: nat): (r: nat)
    requires k < |zombie| && !zombie[0]
    ensures r < |zombie| && !zombie[r]
    ensures (k <= r && forall i :: k <= i < r ==> zombie[i]) || (r == 0 && forall i :: k <= i < |zombie| ==> zombie[i])
    decreases |zombie| - k
  {
    if !zombie[k] then k else if k + 1 == |zombie| then 0 else FirstLive(zombie, k + 1)
  }

  /** next_tcb. */
  function NextLive(zombie: seq<bool>, i: nat): (r: nat)
    requires i < |zombie| && !zombie[0]
    ensures r < |zombie| && !zombie[r]
  {
    FirstLive(zombie, Succ(|zombie|, i))
  }

  /** The threads that are no zombies, in the order of the ring. */
  function Live<T>(ring: seq<T>, zombie: seq<bool>): (r: seq<T>)
    requires |ring| == |zombie|
    ensures |r| == LiveBefore(zombie, |zombie|)
  {
    if ring == [] then [] else
    var n := |ring| - 1;
    Live(ring[..n], zombie[..n]) + if zombie[n] then [] else [ring[n]]
  }

  /** The number of threads before position `i` that are no zombies. */
  function LiveBefore(zombie: seq<bool>, i: nat): (r: nat)
    requires i <= |zombie|
    ensures r <= i
  {
    if i == 0 then 0 else LiveBefore(zombie[..i - 1], i - 1) + if zombie[i - 1] then 0 else 1
  }

  /** Each thread that is no zombie has its place among those kept, in ring order. */
  lemma {:induction false} LiveKeepsOrder<T>(ring: seq<T>, zombie: seq<bool>, i: nat)
    requires |ring| == |zombie| && i < |ring| && !zombie[i]
    ensures LiveBefore(zombie, i) < |Live(ring, zombie)| && Live(ring, zombie)[LiveBefore(zombie, i)] == ring[i]
  {
    var n := |ring| - 1;
    assert zombie[..i] == zombie[..n][..i];
    LiveBeforePrefix(zombie, i);
    if i < n {
      LiveKeepsOrder(ring[..n], zombie[..n], i);
      LiveBeforePrefix(zombie[..n], i);
    } else {
      LiveBeforePrefix(zombie, n);
    }
  }

  lemma LiveStep<T>(ring: seq<T>, zombie: seq<bool>, p: nat)
    requires |ring| == |zombie| && p < |ring|
    ensures Live(ring[..p + 1], zombie[..p + 1]) == Live(ring[..p], zombie[..p]) + if zombie[p] then [] else [ring[p]]
  {
    assert ring[..p + 1][..p] == ring[..p] && zombie[..p + 1][..p] == zombie[..p];
  }

  lemma {:induction false} LiveBeforePrefix(zombie: seq<bool>, i: nat)
    requires i <= |zombie|
    ensures LiveBefore(zombie, i) == LiveBefore(zombie[..i], i)
  {
    if i > 0 {
      assert zombie[..i][..i - 1] == zombie[..i - 1];
    }
  }

  /** Only threads that are no zombies are kept. */
  lemma {:induction false} LiveAreLive<T>(ring: seq<T>, zombie: seq<bool>, t: T)
    requires |ring| == |zombie| && t in Live(ring, zombie)
    ensures exists i :: 0 <= i < |ring| && ring[i] == t && !zombie[i]
  {
    var n := |ring| - 1;
    if t in Live(ring[..n], zombie[..n]) {
      LiveAreLive(ring[..n], zombie[..n], t);
    }
  }

  /** No thread is on the ring twice, and `threads` are those that are. */
  ghost predicate OneEach<T>(ring: seq<T>, threads: set<T>) {
    && (forall i, j :: 0 <= i < j < |ring| ==> ring[i] != ring[j])
    && (forall i :: 0 <= i < |ring| ==> ring[i] in threads)
    && |threads| == |ring|
  }

  lemma {:induction false} AllOnRing<T>(ring: seq<T>, threads: set<T>, t: T)
    requires OneEach(ring, threads) && t in threads
    ensures t in ring
  {
    if ring != [] {
      var n := |ring| - 1;
      if t != ring[n] {
        AllOnRing(ring[..n], threads - {ring[n]}, t);
      }
    }
  }

  lemma OneMore<T>(ring: seq<T>, threads: set<T>, i: nat, t: T)
    requires OneEach(ring, threads) && i < |ring| && t !in threads
    ensures OneEach(InsertBefore(ring, i, t), threads + {t})
  {
  }

  lemma OneLess<T>(ring: seq<T>, threads: set<T>, i: nat)
    requires OneEach(ring, threads) && i < |ring|
    ensures OneEach(RemoveAt(ring, i), threads - {ring[i]})
  {
  }

  /** The links of thread `k` of a ring from which the one at `i` is taken out. */
  ghost predicate Bypasses(ring: seq<Tcb>, i: nat, k: nat)
    requires 0 < i < |ring| && k < |ring|
    reads ring`pnext_tcb, ring`pprev_tcb
  {
    && ring[k].pnext_tcb == ring[if k == i - 1 then Succ(|ring|, i) else Succ(|ring|, k)]
    && ring[k].pprev_tcb == ring[if k == Succ(|ring|, i) then i - 1 else Pred(|ring|, k)]
  }

  /** The links of thread `k` of a ring in which `t` is put before position `i`. */
  ghost predicate Admits(ring: seq<Tcb>, i: nat, t: Tcb, k: nat)
    requires i < |ring| && k < |ring|
    reads ring`pnext_tcb, ring`pprev_tcb
  {
    && ring[k].pnext_tcb == (if Succ(|ring|, k) == i then t else ring[Succ(|ring|, k)])
    && ring[k].pprev_tcb == (if k == i then t else ring[Pred(|ring|, k)])
  }

  class Ring {
    const pidle_tcb: Tcb
    var ready_length: nat
    ghost var ring: seq<Tcb>
    ghost var threads: set<Tcb>

    ghost predicate Linked(i: nat)
      requires i < |ring|
      reads this, ring`pnext_tcb, ring`pprev_tcb
    {
      ring[i].pnext_tcb == ring[Succ(|ring|, i)] && ring[Succ(|ring|, i)].pprev_tcb == ring[i]
    }

    /** A well-formed ring that starts with the idle thread and has no thread twice. */
    ghost predicate Valid()
      reads this, ring`pnext_tcb, ring`pprev_tcb
    {
      && |ring| > 0 && ring[0] == pidle_tcb && ready_length == |ring|
      && OneEach(ring, threads) && (forall i :: 0 <= i < |ring| ==> Linked(i))
    }

    /** A thread of the ring is linked. */
    lemma OnRing(t: Tcb)
      requires Valid() && t in threads
      ensures t in ring && t.pnext_tcb != null && t.pprev_tcb != null
    {
      AllOnRing(ring, threads, t);
      var i :| 0 <= i < |ring| && ring[i] == t;
      assert Linked(i) && Linked(Pred(|ring|, i));
    }

    ghost function Zombies(): (z: seq<bool>)
      reads this, ring`thread_id
      ensures |z| == |ring|
      ensures forall i :: 0 <= i < |ring| ==> z[i] == (ring[i].thread_id == AC_THREAD_ID_ZOMBIE)
    {
      ZombiesTo(|ring|)
    }

    ghost function ZombiesTo(n: nat): (z: seq<bool>)
      requires n <= |ring|
      reads this, ring`thread_id
      ensures |z| == n
      ensures forall i :: 0 <= i < n ==> z[i] == (ring[i].thread_id == AC_THREAD_ID_ZOMBIE)
    {
      if n == 0 then [] else ZombiesTo(n - 1) + [ring[n - 1].thread_id == AC_THREAD_ID_ZOMBIE]
    }

    /** The idle thread alone. */
    constructor (idle: Tcb)
      modifies idle
      ensures Valid() && ring == [idle] && threads == {idle} && pidle_tcb == idle
        && idle.thread_id == old(idle.thread_id)
    {
      pidle_tcb := idle;
      ready_length := 1;
      ring, threads := [idle], {idle};
      new;
      idle.pnext_tcb := idle;
      idle.pprev_tcb := idle;
    }

    /** The next thread that is no zombie; the search ends at the idle thread. */
    method NextTcb(pcur_tcb: Tcb, ghost i: nat) returns (pnext: Tcb, ghost j: nat)
      requires Valid() && i < |ring| && ring[i] == pcur_tcb && pidle_tcb.thread_id != AC_THREAD_ID_ZOMBIE
      ensures j == NextLive(Zombies(), i) && j < |ring| && pnext == ring[j]
    {
      assert Linked(i);
      pnext := pcur_tcb.pnext_tcb;
      j := Succ(|ring|, i);
      while pnext.thread_id == AC_THREAD_ID_ZOMBIE
        invariant j < |ring| && pnext == ring[j]
        invariant FirstLive(Zombies(), j) == NextLive(Zombies(), i)
        decreases if j == 0 then 0 else |ring| - j
      {
        assert Linked(j);
        pnext := pnext.pnext_tcb;
        j := Succ(|ring|, j);
      }
    }

    /** add_tcb_before; 1 when the thread is linked already. */
    method AddTcbBefore(pnew: Tcb, pcur: Tcb, ghost i: nat) returns (rslt: nat)
      requires Valid() && i < |ring| && ring[i] == pcur && (pnew.pprev_tcb == null ==> pnew !in threads)
      modifies this, threads`pnext_tcb, threads`pprev_tcb, pnew`pnext_tcb, pnew`pprev_tcb
      ensures Valid()
      ensures rslt == if old(pnew.pprev_tcb) == null then 0 else 1
      ensures rslt == 0 ==> ring == InsertBefore(old(ring), i, pnew) && threads == old(threads) + {pnew}
      ensures rslt != 0 ==> ring == old(ring) && threads == old(threads)
    {
      if pnew.pprev_tcb == null {
        LinkBefore(pnew, pcur, i);
        OneMore(ring, threads, i, pnew);
        ghost var was := ring;
        ring, threads := InsertBefore(ring, i, pnew), threads + {pnew};
        InsertedLinks(was, i, pnew);
        rslt := 0;
      } else {
        rslt := 1;
      }
    }

    /** The stores of that call. */
    method LinkBefore(pnew: Tcb, pcur: Tcb, ghost i: nat)
      requires Valid() && i < |ring| && ring[i] == pcur && pnew !in threads
      modifies this`ready_length, threads`pnext_tcb, threads`pprev_tcb, pnew`pnext_tcb, pnew`pprev_tcb
      ensures ready_length == |ring| + 1 && (forall k :: 0 <= k < |ring| ==> Admits(ring, i, pnew, k))
      ensures pnew.pnext_tcb == pcur && pnew.pprev_tcb == ring[Pred(|ring|, i)]
    {
      assert Linked(Pred(|ring|, i));
      var ptmp := pcur.pprev_tcb;
      ready_length := ready_length + 1;
      pnew.pprev_tcb := ptmp;
      pnew.pnext_tcb := pcur;
      ptmp.pnext_tcb := pnew;
      pcur.pprev_tcb := pnew;
      forall k | 0 <= k < |ring|
        ensures Admits(ring, i, pnew, k)
      {
        assert old(Linked(k)) && old(Linked(Pred(|ring|, k)));
      }
    }

    lemma InsertedLinks(was: seq<Tcb>, i: nat, t: Tcb)
      requires i < |was| && ring == InsertBefore(was, i, t)
      requires t.pnext_tcb == was[i] && t.pprev_tcb == was[Pred(|was|, i)]
      requires forall k :: 0 <= k < |was| ==> Admits(was, i, t, k)
      ensures forall k :: 0 <= k < |ring| ==> Linked(k)
    {
      var p := Pred(|was|, i) + 1;
      InsertIs(was, i, t, p);
      forall k | 0 <= k < |ring|
        ensures Linked(k)
      {
        if k < p {
          assert ring[k] == was[k] && Admits(was, i, t, k);
        } else if k > p {
          assert ring[k] == was[k - 1] && Admits(was, i, t, k - 1);
        }
        assert Succ(|ring|, k) < p ==> Admits(was, i, t, Succ(|ring|, k));
        assert Succ(|ring|, k) > p ==> Admits(was, i, t, Succ(|ring|, k) - 1);
      }
    }

    /** add_tcb_after: the thread comes before the one after `pcur`. */
    method AddTcbAfter(pnew: Tcb, pcur: Tcb, ghost i: nat) returns (rslt: nat)
      requires Valid() && i < |ring| && ring[i] == pcur && (pnew.pnext_tcb == null ==> pnew !in threads)
      modifies this, threads`pnext_tcb, threads`pprev_tcb, pnew`pnext_tcb, pnew`pprev_tcb
      ensures Valid()
      ensures rslt == if old(pnew.pnext_tcb) == null then 0 else 1
      ensures rslt == 0 ==>
        ring == InsertBefore(old(ring), Succ(|old(ring)|, i), pnew) && threads == old(threads) + {pnew}
      ensures rslt != 0 ==> ring == old(ring) && threads == old(threads)
    {
      assert Linked(i);
      var ptmp := pcur.pnext_tcb;
      if pnew.pnext_tcb == null {
        ghost var was, p := ring, i + 1;
        InsertIs(ring, Succ(|ring|, i), pnew, p);
        forall k | 0 <= k < |was|
          ensures Linked(k)
        {
        }
        ready_length := ready_length + 1;
        pnew.pnext_tcb := ptmp;
        pnew.pprev_tcb := pcur;
        ptmp.pprev_tcb := pnew;
        pcur.pnext_tcb := pnew;
        OneMore(ring, threads, Succ(|ring|, i), pnew);
        ring, threads := InsertBefore(ring, Succ(|ring|, i), pnew), threads + {pnew};
        rslt := 0;
        forall k | 0 <= k < |ring|
          ensures Linked(k)
        {
          if k < p - 1 {
            assert old(Linked(k));
          } else if k > p {
            assert old(Linked(k - 1));
          }
        }
      } else {
        rslt := 1;
      }
    }

    /** The stores of a removal. */
    method LinkAround(pcur: Tcb, ghost i: nat)
      requires Valid() && 0 < i < |ring| && ring[i] == pcur
      modifies this`ready_length, threads`pnext_tcb, threads`pprev_tcb
      ensures ready_length == |ring| - 1 && (forall k :: 0 <= k < |ring| && k != i ==> Bypasses(ring, i, k))
      ensures pcur.pnext_tcb == null && pcur.pprev_tcb == null
    {
      assert Linked(i) && Linked(i - 1);
      var pnext_tcb := pcur.pnext_tcb;
      ready_length := ready_length - 1;
      var pprev_tcb := pcur.pprev_tcb;
      pprev_tcb.pnext_tcb := pnext_tcb;
      pnext_tcb.pprev_tcb := pprev_tcb;
      pcur.pnext_tcb := null;
      pcur.pprev_tcb := null;
      forall k | 0 <= k < |ring| && k != i
        ensures Bypasses(ring, i, k)
      {
        assert old(Linked(k)) && old(Linked(Pred(|ring|, k)));
      }
    }

    lemma RemovedLinks(was: seq<Tcb>, i: nat)
      requires 0 < i < |was| && ring == RemoveAt(was, i)
      requires forall k :: 0 <= k < |was| && k != i ==> Bypasses(was, i, k)
      ensures forall k :: 0 <= k < |ring| ==> Linked(k)
    {
      var n := |was|;
      forall k | 0 <= k < |ring|
        ensures Linked(k)
      {
        var a := if k < i then k else k + 1;
        var b := if a == i - 1 then Succ(n, i) else Succ(n, a);
        assert ring[k] == was[a] && ring[Succ(|ring|, k)] == was[b];
        assert Bypasses(was, i, a) && Bypasses(was, i, b);
        assert b == Succ(n, i) || Pred(n, b) == a;
      }
    }

    /** remove_tcb_intr_disabled on a thread of the ring other than the idle thread: the
        thread after it, and the thread itself unlinked.  Nothing happens to a thread that
        is not linked. */
    method RemoveTcb(pcur: Tcb, ghost i: nat) returns (pnext_tcb: Tcb?)
      requires Valid() && (pcur.pnext_tcb != null ==> 0 < i < |ring| && ring[i] == pcur)
      modifies this, threads`pnext_tcb, threads`pprev_tcb
      ensures Valid()
      ensures old(pcur.pnext_tcb) == null ==> pnext_tcb == null && ring == old(ring)
      ensures old(pcur.pnext_tcb) != null ==>
                && ring == RemoveAt(old(ring), i) && threads == old(threads) - {pcur}
                  && pnext_tcb == old(ring)[Succ(|old(ring)|, i)]
                && pcur.pnext_tcb == null && pcur.pprev_tcb == null
    {
      assert pcur.pnext_tcb != null ==> Linked(i) && Linked(i - 1);
      pnext_tcb := pcur.pnext_tcb;
      if pnext_tcb != null {
        LinkAround(pcur, i);
        OneLess(ring, threads, i);
        ghost var was := ring;
        ring, threads := RemoveAt(ring, i), threads - {pcur};
        RemovedLinks(was, i);
      }
    }
  
    /** One turn of remove_zombies at position `k`: a zombie leaves and its block is free. */
    method RemoveIfZombie(phead: Tcb, ghost k: nat) returns (pnext_tcb: Tcb, removed: nat)
      requires Valid() && 0 < k < |ring| && ring[k] == phead
      modifies this, threads`pnext_tcb, threads`pprev_tcb, phead`thread_id
      ensures Valid() && pnext_tcb == old(ring)[Succ(|old(ring)|, k)]
      ensures old(phead.thread_id) == AC_THREAD_ID_ZOMBIE ==>
                ring == RemoveAt(old(ring), k) && threads == old(threads) - {phead}
                && phead.thread_id == AC_THREAD_ID_EMPTY && removed == 1
      ensures old(phead.thread_id) != AC_THREAD_ID_ZOMBIE ==>
                ring == old(ring) && threads == old(threads) && phead.thread_id == old(phead.thread_id) && removed == 0
    {
      assert Linked(k);
      if phead.thread_id == AC_THREAD_ID_ZOMBIE {
        pnext_tcb := RemoveTcb(phead, k);
        phead.thread_id := AC_THREAD_ID_EMPTY;
        removed := 1;
      } else {
        pnext_tcb := phead.pnext_tcb;
        removed := 0;
      }
    }

    /** The threads of `was` before position `p` have been looked at. */
    ghost predicate Halfway(was: seq<Tcb>, z: seq<bool>, p: nat)
      reads this, ring`pnext_tcb, ring`pprev_tcb
    {
      && Valid() && 0 < p <= |was| == |z| && was[0] == pidle_tcb && !z[0]
      && ring == Live(was[..p], z[..p]) + was[p..]
    }

    /** The state of the loop at thread `phead`; `ids` are the identities before it. */
    ghost predicate Looking(phead: Tcb, was: seq<Tcb>, z: seq<bool>, p: nat, ids: map<Tcb, int>)
      reads this, ring`pnext_tcb, ring`pprev_tcb, ids.Keys`thread_id
    {
      && Halfway(was, z, p) && phead == (if p == |was| then pidle_tcb else was[p]) && threads <= ids.Keys
      && (forall t {:trigger ids[t]} :: t in ids ==> t.thread_id == if t in threads then ids[t] else AC_THREAD_ID_EMPTY)
      && (forall i :: 0 <= i < |was| ==> was[i] in ids && z[i] == (ids[was[i]] == AC_THREAD_ID_ZOMBIE))
    }

    method ZombieTurn(phead: Tcb, ghost was: seq<Tcb>, ghost z: seq<bool>, ghost p: nat, ghost ids: map<Tcb, int>)
      returns (pnext_tcb: Tcb, removed: nat)
      requires Looking(phead, was, z, p, ids) && p < |was|
      modifies this, threads`pnext_tcb, threads`pprev_tcb, phead`thread_id
      ensures Looking(pnext_tcb, was, z, p + 1, ids) && threads <= old(threads)
      ensures removed == 1 - (LiveBefore(z[..p + 1], p + 1) - LiveBefore(z[..p], p))
    {
      ghost var before, live := ring, Live(was[..p], z[..p]);
      LiveHasIdle(was, z, p);
      AtCursor(ring, live, was, p);
      assert ring[|live|] in threads && ids[phead] == phead.thread_id;
      pnext_tcb, removed := RemoveIfZombie(phead, |live|);
      TurnKeeps(before, ring, live, was, z, p);
      LiveStep(was, z, p);
    }

    lemma PheadInThreads(phead: Tcb, was: seq<Tcb>, z: seq<bool>, p: nat, ids: map<Tcb, int>)
      requires Looking(phead, was, z, p, ids) && p < |was|
      ensures phead in threads
    {
      AtCursor(ring, Live(was[..p], z[..p]), was, p);
    }

    lemma LoopStarts(was: seq<Tcb>, z: seq<bool>, ids: map<Tcb, int>)
      requires Valid() && pidle_tcb.thread_id != AC_THREAD_ID_ZOMBIE && was == ring && z == Zombies()
      requires ids == map t | t in threads :: t.thread_id
      ensures |was| > 0 && Linked(0) && pidle_tcb.pnext_tcb != null && Looking(pidle_tcb.pnext_tcb, was, z, 1, ids)
      ensures LiveBefore(z[..1], 1) == 1
    {
      assert Linked(0);
      LiveStart(was, z);
    }

    /** remove_zombies: from the thread after the idle thread around to it. */
    method RemoveZombies() returns (count: nat)
      requires Valid() && pidle_tcb.thread_id != AC_THREAD_ID_ZOMBIE
      modifies this, threads`pnext_tcb, threads`pprev_tcb, threads`thread_id
      ensures Valid() && ring == Live(old(ring), old(Zombies())) && threads <= old(threads)
      ensures count == |old(ring)| - |ring|
      ensures forall t :: t in old(threads) ==> t.thread_id == if t in threads then old(t.thread_id)
        else AC_THREAD_ID_EMPTY
    {
      ghost var was, z, p, ids := ring, Zombies(), 1, map t | t in threads :: t.thread_id;
      LoopStarts(was, z, ids);
      count := 0;
      var phead: Tcb := pidle_tcb.pnext_tcb;
      while phead != pidle_tcb
        invariant 0 < p <= |was| == |z| && Looking(phead, was, z, p, ids) && threads <= old(threads)
        invariant count == p - LiveBefore(z[..p], p)
        decreases |was| - p
      {
        var removed;
        PheadInThreads(phead, was, z, p, ids);
        phead, removed := ZombieTurn(phead, was, z, p, ids);
        count, p := count + removed, p + 1;
      }
      LoopEnds(phead, was, z, p, ids);
      assert forall t :: t in old(threads) ==> t in ids && ids[t] == old(t.thread_id);
    }

    lemma LoopEnds(phead: Tcb, was: seq<Tcb>, z: seq<bool>, p: nat, ids: map<Tcb, int>)
      requires Looking(phead, was, z, p, ids) && phead == pidle_tcb
      requires forall i, j :: 0 <= i < j < |was| ==> was[i] != was[j]
      ensures p == |was| && was[..p] == was && z[..p] == z && ring == Live(was, z)
    {
    }
  }

  lemma LiveStart<T>(was: seq<T>, z: seq<bool>)
    requires 0 < |was| == |z| && !z[0]
    ensures Live(was[..1], z[..1]) == [was[0]] && was == [was[0]] + was[1..]
  {
    LiveStep(was, z, 0);
  }

  lemma LiveHasIdle<T>(was: seq<T>, z: seq<bool>, p: nat)
    requires 0 < p <= |was| == |z| && !z[0]
    ensures |Live(was[..p], z[..p])| > 0 && Live(was[..p], z[..p])[0] == was[0]
  {
    LiveKeepsOrder(was[..p], z[..p], 0);
  }

  /** The next thread to look at, and what the ring is without it. */
  lemma AtCursor<T>(ring: seq<T>, live: seq<T>, was: seq<T>, p: nat)
    requires p < |was| && ring == live + was[p..]
    ensures |live| < |ring| && ring[|live|] == was[p]
    ensures RemoveAt(ring, |live|) == live + was[p + 1..]
  {
  }

  /** A turn keeps the ring as the threads kept so far and those not looked at yet. */
  lemma TurnKeeps<T>(before: seq<T>, after: seq<T>, live: seq<T>, was: seq<T>, z: seq<bool>, p: nat)
    requires 0 < p < |was| == |z| && live == Live(was[..p], z[..p]) && before == live + was[p..] && |live| > 0
      && live[0] == was[0]
    requires after == if z[p] then RemoveAt(before, |live|) else before
    ensures var kept := Live(was[..p + 1], z[..p + 1]);
      after == kept + was[p + 1..] && |kept| == |live| + (if z[p] then 0 else 1) && kept[0] == was[0]
    ensures before[Succ(|before|, |live|)] == if p + 1 == |was| then was[0] else was[p + 1]
  {
    LiveStep(was, z, p);
    AtCursor(before, live, was, p);
    assert was[p..] == [was[p]] + was[p + 1..];
  }
}
