/** Calls of AcMpscRingBuff get to their end: a producer is only held up by other producers
    that win positions, and a producer or the consumer alone ends in a fixed number of steps. */
module RingProgress {
  import opened IntMath
  import opened RingMachine
  import opened RingTheorems

  // -------------------------------------------------------------------- add_mem

  /** How many actions a call of add_mem has before it as long as no other producer wins a
      position. */
  function ActionsLeft(s: State, t: Tid): nat {
    var p := ProducerAt(s, t);
    match p
    case Returned(_) => 0
    case LoadSeq(_, pos) => if pos == s.addIdx then 4 else 6
    case Reload(_, _) => 5
    case Cas(_, pos) => if pos == s.addIdx then 3 else 5
    case WriteMem(_, _) => 2
    case StoreSeq(_, _) => 1
  }

  function Count(es: seq<Event>, e: Event): nat {
    if es == [] then 0 else (if es[0] == e then 1 else 0) + Count(es[1..], e)
  }

  lemma OwnActionCounts(s: State, t: Tid)
    requires Inv(s) && !ProducerAt(s, t).Returned?
    ensures ActionsLeft(ProducerStep(Unbounded, s, t), t) < ActionsLeft(s, t)
  {
    assert ProducerOk(s, t);
    if ProducerAt(s, t).LoadSeq? {
      LoadCounts(s, t);
    }
  }

  lemma LoadCounts(s: State, t: Tid)
    requires Inv(s) && ProducerAt(s, t).LoadSeq? && ProducerOk(s, t)
    ensures ActionsLeft(ProducerStep(Unbounded, s, t), t) < ActionsLeft(s, t)
  {
    var pos := ProducerAt(s, t).pos;
    if pos == s.addIdx {
      NoneAhead(s);
    }
  }

  /** No cell is ahead of the next position to reserve. */
  lemma NoneAhead(s: State)
    requires Inv(s)
    ensures s.cells[Rem(s.addIdx, s.size)].num <= s.addIdx
  {
    var q := WindowPos(s, s.addIdx);
    assert CellOk(s, q);
    if q > s.addIdx {
      RemApart(q, s.addIdx, s.size);
    }
  }

  /** Another thread's event holds the producer up by two actions if it wins a position, and
      not at all if it does not. */
  lemma OthersCount(s: State, e: Event, t: Tid)
    requires Inv(s) && e != Produce(t) && (e.Begin? ==> e.t != t)
    ensures var r := Step(Unbounded, s, e);
      && ProducerAt(r, t) == ProducerAt(s, t)
      && |s.won| <= |r.won| && ActionsLeft(r, t) <= ActionsLeft(s, t) + 2 * (|r.won| - |s.won|)
  {
    assert ProducerOk(s, t);
    match e
    case Begin(_, _) =>
    case Produce(_) =>
    case Consume =>
  }

  lemma {:induction false} StaysReturned(s: State, es: seq<Event>, t: Tid)
    requires WellFormed(s) && ProducerAt(s, t).Returned? && forall e :: e in es && e.Begin? ==> e.t != t
    ensures ProducerAt(Run(Unbounded, s, es), t).Returned?
    decreases |es|
  {
    if es != [] {
      assert es[0] in es;
      assert ProducerAt(Step(Unbounded, s, es[0]), t).Returned?;
      StaysReturned(Step(Unbounded, s, es[0]), es[1..], t);
    }
  }

  /** However the threads interleave: a call of add_mem has ended when its thread has done as
      many actions as were left and two for each position won meanwhile. */
  lemma {:induction false} AddEnds(s: State, es: seq<Event>, t: Tid)
    requires Inv(s) && s.size >= 2 && forall e :: e in es && e.Begin? ==> e.t != t
    requires Count(es, Produce(t)) >= ActionsLeft(s, t) + 2 * |Run(Unbounded, s, es).won| - 2 * |s.won|
    ensures ProducerAt(Run(Unbounded, s, es), t).Returned?
    decreases |es|
  {
    WonGrows(s, es);
    if ProducerAt(s, t).Returned? {
      StaysReturned(s, es, t);
    } else {
      assert es != [];
      var e, r := es[0], Step(Unbounded, s, es[0]);
      assert e in es;
      StepKeepsInv(s, e);
      if e == Produce(t) {
        OwnActionCounts(s, t);
        WonOnce(s, t);
      } else {
        OthersCount(s, e, t);
      }
      AddEnds(r, es[1..], t);
    }
  }

  lemma WonOnce(s: State, t: Tid)
    requires WellFormed(s)
    ensures |s.won| <= |ProducerStep(Unbounded, s, t).won|
  {
  }

  /** The same on 32-bit words, across any number of wraps. */
  lemma AddEndsOnWords(s: State, es: seq<Event>, t: Tid)
    requires Inv(s) && s.size >= 2 && LagAlwaysOk(s, es) && forall e :: e in es && e.Begin? ==> e.t != t
    requires Count(es, Produce(t)) >= 6 + 2 * |Run(U32, Wrap(s), es).won| - 2 * |s.won|
    ensures ProducerAt(Run(U32, Wrap(s), es), t).Returned?
  {
    RunWraps(s, es);
    AddEnds(s, es, t);
  }

  /** The producer holds a position, or is sure to win one when it runs alone. */
  predicate HasPlace(s: State, t: Tid) {
    var p := ProducerAt(s, t);
    p.WriteMem? || p.StoreSeq? || (p.Cas? && p.pos == s.addIdx)
  }

  /** The position its pointer goes to. */
  function PlaceOf(s: State, t: Tid): nat {
    var p := ProducerAt(s, t);
    if p.WriteMem? || p.StoreSeq? then p.pos else s.addIdx
  }

  /** What a call of add_mem that runs alone leaves: TRUE and its pointer published, unless
      the ring is full. */
  ghost predicate AddAnswers(s: State, r: State, t: Tid)
    requires WellFormed(s) && WellFormed(r) && !ProducerAt(s, t).Returned?
  {
    var (ok, i) := (HasPlace(s, t) || !Full(s), PlaceOf(s, t));
    && ProducerAt(r, t) == Returned(ok)
    && (ok ==> Published(r, i) && i < |r.won| && r.won[i] == ProducerAt(s, t).mem)
    && (!ok ==> r == s.(producers := r.producers))
  }

  /** From any place inside add_mem, a producer that runs alone ends within six actions, with
      TRUE unless the ring is full. */
  lemma AddEndsAlone(s: State, t: Tid, n: nat)
    requires Inv(s) && !ProducerAt(s, t).Returned? && n >= 6
    ensures AddAnswers(s, Run(Unbounded, s, Produces(t, n)), t)
  {
    var p := ProducerAt(s, t);
    assert ProducerOk(s, t);
    if p.LoadSeq? && p.pos == s.addIdx {
      FreshAlone(s, t, n);
    } else if p.LoadSeq? {
      StaleLoads(s, t);
      RunFirst(s, Produce(t), Produces(t, n - 1));
      StaleAlone(s, ProducerStep(Unbounded, s, t), t, n - 1);
    } else if p.Reload? || (p.Cas? && p.pos != s.addIdx) {
      StaleAlone(s, s, t, n);
    } else {
      PlacedAlone(s, t, n);
    }
  }

  lemma StaleLoads(s: State, t: Tid)
    requires Inv(s) && ProducerAt(s, t).LoadSeq? && ProducerAt(s, t).pos != s.addIdx
    ensures var (p, r) := (ProducerAt(s, t), ProducerStep(Unbounded, s, t));
      r == s.(producers := s.producers[t := Cas(p.mem, p.pos)])
      || r == s.(producers := s.producers[t := Reload(p.mem, p.pos)])
  {
    FullAnswer(s, t);
  }

  /** A producer that has found its snapshot stale takes a new one. */
  lemma StaleAlone(s: State, r: State, t: Tid, n: nat)
    requires Inv(s) && !ProducerAt(s, t).Returned? && !HasPlace(s, t) && r == s.(producers := r.producers)
    requires var (p, q) := (ProducerAt(s, t), ProducerAt(r, t));
      (q.Reload? || (q.Cas? && q.pos != s.addIdx)) && q.mem == p.mem && n >= 5
    ensures AddAnswers(s, Run(Unbounded, r, Produces(t, n)), t)
  {
    assert ProducerOk(s, t);
    RunFirst(r, Produce(t), Produces(t, n - 1));
    var x := ProducerStep(Unbounded, r, t);
    assert x == s.(producers := x.producers) && ProducerAt(x, t) == LoadSeq(ProducerAt(s, t).mem, s.addIdx);
    LoadAlone(s, x, t, n - 1);
  }

  lemma FreshAlone(s: State, t: Tid, n: nat)
    requires Inv(s) && ProducerAt(s, t).LoadSeq? && ProducerAt(s, t).pos == s.addIdx && n >= 4
    ensures AddAnswers(s, Run(Unbounded, s, Produces(t, n)), t)
  {
    assert ProducerOk(s, t);
    LoadAlone(s, s, t, n);
  }

  /** With a snapshot that is current. */
  lemma LoadAlone(s: State, x: State, t: Tid, n: nat)
    requires Inv(s) && !ProducerAt(s, t).Returned? && !HasPlace(s, t) && ProducerOk(s, t) && n >= 4
    requires x == s.(producers := x.producers) && ProducerAt(x, t) == LoadSeq(ProducerAt(s, t).mem, s.addIdx)
    ensures AddAnswers(s, Run(Unbounded, x, Produces(t, n)), t)
  {
    var m := ProducerAt(s, t).mem;
    NoneAhead(s);
    FromLoadSeq(x, t, n - 4, m);
    FullLooksSo(s);
  }

  lemma FullLooksSo(s: State)
    requires Inv(s)
    ensures s.cells[Rem(s.addIdx, s.size)].num < s.addIdx <==> Full(s)
  {
    if Unambiguous(s) {
      LoadAnswers(s, s.addIdx);
    } else {
      OneCellAnswers(s, s.addIdx);
    }
  }

  /** With a position won, or about to be. */
  lemma PlacedAlone(s: State, t: Tid, n: nat)
    requires Inv(s) && HasPlace(s, t) && n >= 3
    ensures AddAnswers(s, Run(Unbounded, s, Produces(t, n)), t)
  {
    var p := ProducerAt(s, t);
    assert ProducerOk(s, t);
    if p.StoreSeq? {
      FromStoreSeq(s, t, n - 1);
    } else if p.WriteMem? {
      FromWriteMem(s, t, n - 2);
    } else {
      FromCas(s, t, n - 3);
    }
  }

  /** The same on 32-bit words. */
  lemma AddEndsAloneOnWords(s: State, t: Tid, n: nat)
    requires Inv(s) && s.size >= 2 && !ProducerAt(s, t).Returned? && n >= 6 && LagAlwaysOk(s, Produces(t, n))
    ensures ProducerAt(Run(U32, Wrap(s), Produces(t, n)), t) == Returned(HasPlace(s, t) || !Full(s))
  {
    RunWraps(s, Produces(t, n));
    AddEndsAlone(s, t, n);
  }

  // -------------------------------------------------------------------- rmv_mem

  /** How many actions the consumer has before it until it returns a published pointer. */
  function RmvActionsLeft(c: Consumer): nat {
    match c
    case Done(_) => 4
    case ReadMem => 3
    case FreeCell(_) => 2
    case Advance(_) => 1
  }

  /** The consumer has found the pointer it is to remove, or will when it looks. */
  predicate Finds(s: State)
    requires WellFormed(s)
  {
    s.consumer.Done? ==> Published(s, s.rmvIdx)
  }

  lemma RmvGoesOn(s: State)
    requires Inv(s) && Finds(s)
    ensures var r := ConsumerStep(Unbounded, s);
      if s.consumer.Advance? then |r.taken| == |s.taken| + 1
      else !r.consumer.Done? && RmvActionsLeft(r.consumer) == RmvActionsLeft(s.consumer) - 1 && r.taken == s.taken
  {
  }

  lemma OthersKeepFound(s: State, e: Event)
    requires Inv(s) && Finds(s) && !e.Consume?
    ensures var r := Step(Unbounded, s, e); Finds(r) && r.consumer == s.consumer && r.taken == s.taken
  {
    match e
    case Begin(_, _) =>
    case Produce(t) =>
      assert ProducerOk(s, t);
      PublishedStays(s, t);
  }

  lemma PublishedStays(s: State, t: Tid)
    requires Inv(s) && ProducerOk(s, t) && Finds(s)
    ensures Finds(ProducerStep(Unbounded, s, t))
  {
    var p := ProducerAt(s, t);
    if s.consumer.Done? && (p.WriteMem? || p.StoreSeq?) {
      OtherSlots(s, p.pos);
    }
  }

  lemma {:induction false} TakesOne(s: State, es: seq<Event>)
    requires Inv(s) && s.size >= 2 && Finds(s) && Count(es, Consume) >= RmvActionsLeft(s.consumer)
    ensures |Run(Unbounded, s, es).taken| > |s.taken|
    decreases |es|
  {
    var e, r := es[0], Step(Unbounded, s, es[0]);
    StepKeepsInv(s, e);
    if e == Consume {
      RmvGoesOn(s);
      if s.consumer.Advance? {
        TakenGrows(r, es[1..]);
      } else {
        TakesOne(r, es[1..]);
      }
    } else {
      OthersKeepFound(s, e);
      TakesOne(r, es[1..]);
    }
  }

  lemma {:induction false} TakenGrows(s: State, es: seq<Event>)
    requires WellFormed(s)
    ensures |s.taken| <= |Run(Unbounded, s, es).taken|
    decreases |es|
  {
    if es != [] {
      TakenGrows(Step(Unbounded, s, es[0]), es[1..]);
    }
  }

  /** However the threads interleave, rmv_mem returns a published pointer within four actions
      of the consumer, on 32-bit words. */
  lemma RmvEnds(s: State, es: seq<Event>)
    requires Inv(s) && s.size >= 2 && Finds(s) && LagAlwaysOk(s, es)
    requires Count(es, Consume) >= RmvActionsLeft(s.consumer)
    ensures var r := Run(U32, Wrap(s), es);
      |s.taken| < |s.won| && s.taken + [s.won[|s.taken|]] <= r.taken
  {
    TakesOne(s, es);
    RunWraps(s, es);
    RunKeepsInv(s, es);
    WonGrows(s, es);
    NextTaken(s.taken, s.won, Run(Unbounded, s, es).taken, Run(Unbounded, s, es).won, s.rmvIdx);
  }

  lemma NextTaken(taken: seq<Ptr>, won: seq<Ptr>, taken': seq<Ptr>, won': seq<Ptr>, i: nat)
    requires i < |won| && taken == won[..i] && won <= won' && taken' <= won' && |taken'| > i
    ensures taken + [won[i]] <= taken'
  {
  }
}
