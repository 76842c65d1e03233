/** Calls of the message pool get to their end: a returned message is in the ring again, and a
    message that is there is handed out. */
module PoolProgress {
  import opened IntMath
  import opened RingMachine
  import opened RingTheorems
  import opened RingProgress
  import opened PoolMachine

  function Events(es: seq<PoolEvent>, e: PoolEvent): nat {
    if es == [] then 0 else (if es[0] == e then 1 else 0) + Events(es[1..], e)
  }

  ghost predicate NoRet(es: seq<PoolEvent>, t: Tid) {
    forall e :: e in es && e.Ret? ==> e.t != t
  }

  // -------------------------------------------------------------------- ret_msg

  /** Each action of a thread inside ret_msg takes its call nearer to the end, and another
      thread's holds it up by two only when that wins a position. */
  lemma PoolStepCounts(p: Pool, e: PoolEvent, t: Tid)
    requires PoolInv(p) && !ProducerAt(p.ring, t).Returned? && (e.Ret? ==> e.t != t)
    ensures var (s, r) := (p.ring, PoolStep(Unbounded, p, e).ring);
      && |s.won| <= |r.won|
      && ActionsLeft(r, t) + (if e == Act(t) then 1 else 0) <= ActionsLeft(s, t) + 2 * (|r.won| - |s.won|)
  {
    match e
    case Get => OthersCount(p.ring, Consume, t);
    case Ret(u, msg) => OthersCount(p.ring, Begin(u, msg), t);
    case Act(u) =>
      if u == t {
        OwnActionCounts(p.ring, t);
        WonOnce(p.ring, t);
      } else {
        OthersCount(p.ring, Produce(u), t);
      }
  }

  lemma PoolStepStaysReturned(p: Pool, e: PoolEvent, t: Tid)
    requires WellFormed(p.ring) && ProducerAt(p.ring, t).Returned? && (e.Ret? ==> e.t != t)
    ensures ProducerAt(PoolStep(Unbounded, p, e).ring, t).Returned?
  {
  }

  lemma {:induction false} PoolStaysReturned(p: Pool, es: seq<PoolEvent>, t: Tid)
    requires WellFormed(p.ring) && ProducerAt(p.ring, t).Returned? && NoRet(es, t)
    ensures ProducerAt(PoolRun(Unbounded, p, es).ring, t).Returned?
    decreases |es|
  {
    if es != [] {
      assert es[0] in es;
      PoolStepStaysReturned(p, es[0], t);
      PoolStaysReturned(PoolStep(Unbounded, p, es[0]), es[1..], t);
    }
  }

  lemma {:induction false} PoolWonGrows(p: Pool, es: seq<PoolEvent>)
    requires WellFormed(p.ring)
    ensures p.ring.won <= PoolRun(Unbounded, p, es).ring.won
    decreases |es|
  {
    if es != [] {
      assert p.ring.won <= PoolStep(Unbounded, p, es[0]).ring.won;
      PoolWonGrows(PoolStep(Unbounded, p, es[0]), es[1..]);
    }
  }

  lemma {:induction false} ReturnEnds(p: Pool, es: seq<PoolEvent>, t: Tid)
    requires PoolInv(p) && NoRet(es, t)
    requires Events(es, Act(t))
      >= ActionsLeft(p.ring, t) + 2 * |PoolRun(Unbounded, p, es).ring.won| - 2 * |p.ring.won|
    ensures ProducerAt(PoolRun(Unbounded, p, es).ring, t).Returned?
    decreases |es|
  {
    PoolWonGrows(p, es);
    if ProducerAt(p.ring, t).Returned? {
      PoolStaysReturned(p, es, t);
    } else {
      assert es != [];
      assert es[0] in es;
      PoolStepKeepsInv(p, es[0]);
      PoolStepCounts(p, es[0], t);
      ReturnEnds(PoolStep(Unbounded, p, es[0]), es[1..], t);
    }
  }

  /** However the threads interleave: a message whose ret_msg has begun is not outstanding, or
      has been handed out again, when its thread has done six actions and two for each position
      won meanwhile; on 32-bit words. */
  lemma ReturnedIsBack(p: Pool, es: seq<PoolEvent>, t: Tid, m: Ptr)
    requires PoolInv(p) && PoolLagOk(p, es) && NoRet(es, t) && m in p.place && p.place[m] == Returning(t)
    requires var r := PoolRun(U32, WrapPool(p), es).ring;
      Events(es, Act(t)) >= 6 + 2 * |r.won| - 2 * |p.ring.won|
    ensures var r := PoolRun(U32, WrapPool(p), es).ring;
      && ProducerAt(r, t).Returned?
      && (exists i :: |p.ring.won| <= i < |r.won| && r.won[i] == m)
  {
    PoolRunWraps(p, es);
    ReturnEnds(p, es, t);
    ReturnWins(p, es, t, m);
  }

  /** A thread that is undecided and then returned has won a position for its message. */
  lemma {:induction false} ReturnWins(p: Pool, es: seq<PoolEvent>, t: Tid, m: Ptr)
    requires PoolInv(p) && m in p.place && p.place[m] == Returning(t)
    requires ProducerAt(PoolRun(Unbounded, p, es).ring, t).Returned?
    ensures var r := PoolRun(Unbounded, p, es).ring;
      exists i :: |p.ring.won| <= i < |r.won| && r.won[i] == m
    decreases |es|
  {
    assert PlaceOk(p, m);
    assert es != [];
    var x := PoolStep(Unbounded, p, es[0]);
    PoolStepKeepsInv(p, es[0]);
    PoolWonGrows(x, es[1..]);
    WinsOrStays(p, es[0], t, m);
    if m in x.place && x.place[m] == Returning(t) {
      ReturnWins(x, es[1..], t, m);
      WonStepGrows(p, es[0]);
    } else {
      var r := PoolRun(Unbounded, p, es).ring;
      assert r.won[|p.ring.won|] == m;
    }
  }

  lemma WonStepGrows(p: Pool, e: PoolEvent)
    requires WellFormed(p.ring)
    ensures |p.ring.won| <= |PoolStep(Unbounded, p, e).ring.won|
  {
  }

  lemma WinsOrStays(p: Pool, e: PoolEvent, t: Tid, m: Ptr)
    requires PoolInv(p) && m in p.place && p.place[m] == Returning(t)
    ensures var x := PoolStep(Unbounded, p, e);
      (m in x.place && x.place[m] == Returning(t)) || x.ring.won == p.ring.won + [m]
  {
    assert PlaceOk(p, m);
    match e
    case Get =>
      if p.ring.consumer.FreeCell? {
        assert PositionOk(p, p.ring.rmvIdx);
      }
    case Ret(_, _) =>
    case Act(u) => assert HolderOk(p, u);
  }

  function Acts(t: Tid, n: nat): seq<PoolEvent> {
    if n == 0 then [] else [Act(t)] + Acts(t, n - 1)
  }

  lemma {:induction false} ActsAreProduces(p: Pool, t: Tid, n: nat)
    requires WellFormed(p.ring)
    ensures PoolRun(Unbounded, p, Acts(t, n)).ring == Run(Unbounded, p.ring, Produces(t, n))
    decreases n
  {
    if n > 0 {
      assert Acts(t, n)[1..] == Acts(t, n - 1);
      RunFirst(p.ring, Produce(t), Produces(t, n - 1));
      ActsAreProduces(PoolStep(Unbounded, p, Act(t)), t, n - 1);
    }
  }

  /** A call of ret_msg that runs alone puts the message last into the ring, published. */
  lemma ReturnAlone(p: Pool, t: Tid, m: Ptr, n: nat)
    requires PoolInv(p) && IsOut(p, m) && ProducerAt(p.ring, t).Returned? && n >= 6
    ensures var (s, r) := (p.ring, PoolRun(Unbounded, p, [Ret(t, m)] + Acts(t, n)));
      && Published(r.ring, s.addIdx) && s.addIdx < |r.ring.won| && r.ring.won[s.addIdx] == m
      && m in r.place && r.place[m] == InRing(s.addIdx) && ProducerAt(r.ring, t) == Returned(true)
  {
    var x := PoolStep(Unbounded, p, Ret(t, m));
    assert ([Ret(t, m)] + Acts(t, n))[1..] == Acts(t, n);
    PoolStepKeepsInv(p, Ret(t, m));
    RoomForOutsider(p, m);
    assert !Full(x.ring);
    ActsEnd(x, t, n);
  }

  lemma ActsEnd(x: Pool, t: Tid, n: nat)
    requires PoolInv(x) && ProducerAt(x.ring, t).LoadSeq? && !Full(x.ring) && n >= 6
    ensures var (i, m, r) := (x.ring.addIdx, ProducerAt(x.ring, t).mem, PoolRun(Unbounded, x, Acts(t, n)));
      && Published(r.ring, i) && i < |r.ring.won| && r.ring.won[i] == m
      && m in r.place && r.place[m] == InRing(i) && ProducerAt(r.ring, t) == Returned(true)
  {
    AddEndsAlone(x.ring, t, n);
    ActsAreProduces(x, t, n);
    PoolRunKeepsInv(x, Acts(t, n));
    ActsFreeNone(x, t, n);
    var r := PoolRun(Unbounded, x, Acts(t, n));
    assert PositionOk(r, x.ring.addIdx);
  }

  lemma {:induction false} ActsFreeNone(p: Pool, t: Tid, n: nat)
    requires WellFormed(p.ring)
    ensures Freed(PoolRun(Unbounded, p, Acts(t, n)).ring) == Freed(p.ring)
    decreases n
  {
    if n > 0 {
      assert Acts(t, n)[1..] == Acts(t, n - 1);
      ActsFreeNone(PoolStep(Unbounded, p, Act(t)), t, n - 1);
    }
  }

  // -------------------------------------------------------------------- get_msg

  lemma PoolOthersKeepFound(p: Pool, e: PoolEvent)
    requires PoolInv(p) && Finds(p.ring) && e != Get
    ensures var r := PoolStep(Unbounded, p, e).ring;
      Finds(r) && r.consumer == p.ring.consumer && r.taken == p.ring.taken
  {
    match e
    case Ret(t, msg) => OthersKeepFound(p.ring, Begin(t, msg));
    case Act(t) => OthersKeepFound(p.ring, Produce(t));
  }

  lemma {:induction false} PoolTakenGrows(p: Pool, es: seq<PoolEvent>)
    requires WellFormed(p.ring)
    ensures |p.ring.taken| <= |PoolRun(Unbounded, p, es).ring.taken|
    decreases |es|
  {
    if es != [] {
      PoolTakenGrows(PoolStep(Unbounded, p, es[0]), es[1..]);
    }
  }

  lemma {:induction false} GetTakes(p: Pool, es: seq<PoolEvent>)
    requires PoolInv(p) && Finds(p.ring) && Events(es, Get) >= RmvActionsLeft(p.ring.consumer)
    ensures |PoolRun(Unbounded, p, es).ring.taken| > |p.ring.taken|
    decreases |es|
  {
    var e, r := es[0], PoolStep(Unbounded, p, es[0]);
    PoolStepKeepsInv(p, e);
    if e == Get {
      RmvGoesOn(p.ring);
      if p.ring.consumer.Advance? {
        PoolTakenGrows(r, es[1..]);
      } else {
        GetTakes(r, es[1..]);
      }
    } else {
      PoolOthersKeepFound(p, e);
      GetTakes(r, es[1..]);
    }
  }

  /** However the threads interleave: when the oldest message is published, get_msg hands it
      out within four actions of its thread, on 32-bit words. */
  lemma GetEnds(p: Pool, es: seq<PoolEvent>)
    requires PoolInv(p) && Finds(p.ring) && PoolLagOk(p, es)
    requires Events(es, Get) >= RmvActionsLeft(p.ring.consumer)
    ensures var (s, r) := (p.ring, PoolRun(U32, WrapPool(p), es).ring);
      |s.taken| < |s.won| && s.taken + [s.won[|s.taken|]] <= r.taken
  {
    GetTakes(p, es);
    PoolRunWraps(p, es);
    PoolRunKeepsInv(p, es);
    PoolWonGrows(p, es);
    var r := PoolRun(Unbounded, p, es).ring;
    NextTaken(p.ring.taken, p.ring.won, r.taken, r.won, p.ring.rmvIdx);
  }
}
