/** Message pools under concurrency: one thread takes messages with AcMsgPool_get_msg,
    any number of threads give them back with AcMsgPool_ret_msg, and the ring's atomic
    actions interleave freely.  A message may be returned once per get. */
module PoolMachine {
  import opened IntMath
  import opened RingMachine
  import opened RingTheorems

  /** Where a message of the pool is. */
  datatype Place =
    | InRing(pos: nat)     // won a position that is not freed yet
    | Returning(t: Tid)    // inside ret_msg, no position won yet
    | Leaving              // inside get_msg, its cell is already freed
    | Out                  // with a client

  /** `place` is history: it says where each of the pool's messages is. */
  datatype Pool = Pool(ring: State, place: map<Ptr, Place>)

  /** Get: the next atomic action of the thread that gets messages.  Ret: a client that
      has `msg` calls ret_msg.  Act: the next atomic action of that call. */
  datatype PoolEvent = Get | Ret(t: Tid, msg: Ptr) | Act(t: Tid)

  function PoolStep(m: Arith, p: Pool, e: PoolEvent): (r: Pool)
    requires WellFormed(p.ring)
    ensures WellFormed(r.ring)
  {
    var s := p.ring;
    match e
    case Get =>
      var r := ConsumerStep(m, s);
      if s.consumer.FreeCell? then Pool(r, p.place[s.consumer.mem := Leaving])
      else if s.consumer.Advance? then Pool(r, p.place[s.consumer.mem := Out])
      else Pool(r, p.place)
    case Ret(t, msg) =>
      if msg in p.place && p.place[msg].Out? && ProducerAt(s, t).Returned? then
        Pool(Step(m, s, Begin(t, msg)), p.place[msg := Returning(t)])
      else p
    case Act(t) =>
      var r := ProducerStep(m, s, t);
      if |r.won| != |s.won| then
        Pool(r, p.place[ProducerAt(s, t).mem := InRing(|s.won|)])
      else Pool(r, p.place)
  }

  function PoolRun(m: Arith, p: Pool, es: seq<PoolEvent>): (r: Pool)
    requires WellFormed(p.ring)
    ensures WellFormed(r.ring)
    decreases |es|
  {
    if es == [] then p else PoolRun(m, PoolStep(m, p, es[0]), es[1..])
  }

  predicate Undecided(p: Producer) {
    p.LoadSeq? || p.Reload? || p.Cas?
  }

  predicate PlaceOk(p: Pool, m: Ptr)
    requires |p.ring.won| == p.ring.addIdx && m in p.place
  {
    var s := p.ring;
    match p.place[m]
    case InRing(i) => Freed(s) <= i < s.addIdx && s.won[i] == m
    case Returning(t) => Undecided(ProducerAt(s, t)) && ProducerAt(s, t).mem == m
    case Leaving => s.consumer == Advance(m)
    case Out => true
  }

  predicate HolderOk(p: Pool, t: Tid) {
    var w := ProducerAt(p.ring, t);
    Undecided(w) ==> w.mem in p.place && p.place[w.mem] == Returning(t)
  }

  predicate PositionOk(p: Pool, i: nat)
    requires i < |p.ring.won|
  {
    p.ring.won[i] in p.place && p.place[p.ring.won[i]] == InRing(i)
  }

  /** Every message is in exactly one place, and every place that holds a message
      holds one of the pool's. */
  ghost predicate PoolInv(p: Pool) {
    var s := p.ring;
    && Inv(s)
    && |p.place| == s.size
    && NULL !in p.place
    && (forall m :: m in p.place ==> PlaceOk(p, m))
    && (forall t :: HolderOk(p, t))
    && (forall i :: Freed(s) <= i < s.addIdx ==> PositionOk(p, i))
    && (s.consumer.Advance? ==> s.consumer.mem in p.place && p.place[s.consumer.mem] == Leaving)
  }

  // ------------------------------------------------------------- counting

  lemma {:induction false} DistinctFits(q: seq<Ptr>, all: set<Ptr>)
    requires forall i :: 0 <= i < |q| ==> q[i] in all
    requires forall i, j :: 0 <= i < j < |q| ==> q[i] != q[j]
    ensures |q| <= |all|
  {
    if q != [] {
      DistinctFits(q[1..], all - {q[0]});
    }
  }

  /** A message that is not in the ring leaves a free cell. */
  lemma RoomForOutsider(p: Pool, m: Ptr)
    requires PoolInv(p) && m in p.place && !p.place[m].InRing?
    ensures p.ring.addIdx < Freed(p.ring) + p.ring.size
  {
    var s := p.ring;
    var q := s.won[Freed(s)..];
    forall i | 0 <= i < |q|
      ensures q[i] in p.place.Keys - {m} && p.place[q[i]] == InRing(Freed(s) + i)
    {
      assert PositionOk(p, Freed(s) + i);
    }
    DistinctFits(q, p.place.Keys - {m});
  }

  function Pooled(p: Pool): set<Ptr> {
    set m | m in p.place && p.place[m].InRing?
  }

  function Outstanding(p: Pool): set<Ptr> {
    set m | m in p.place && !p.place[m].InRing?
  }

  /** Pooled messages are as many as positions won and not freed; with the messages
      outstanding they are all of the pool's. */
  lemma PooledPlusOutstanding(p: Pool)
    requires PoolInv(p)
    ensures |Pooled(p)| == p.ring.addIdx - Freed(p.ring)
    ensures |Pooled(p)| + |Outstanding(p)| == p.ring.size
  {
    assert Pooled(p) + Outstanding(p) == p.place.Keys && Pooled(p) !! Outstanding(p);
    assert |Pooled(p)| + |Outstanding(p)| == |p.place.Keys| == |p.place|;
    forall m | m in Pooled(p)
      ensures p.place[m].pos >= Freed(p.ring)
    {
      assert PlaceOk(p, m);
    }
    CountPositions(p, Freed(p.ring), Pooled(p));
  }

  lemma {:induction false} CountPositions(p: Pool, from: nat, ms: set<Ptr>)
    requires PoolInv(p) && Freed(p.ring) <= from <= p.ring.addIdx
    requires ms == set m | m in p.place && p.place[m].InRing? && p.place[m].pos >= from
    ensures |ms| == p.ring.addIdx - from
    decreases p.ring.addIdx - from
  {
    if from == p.ring.addIdx {
      forall m | m in p.place && p.place[m].InRing?
        ensures p.place[m].pos < from
      {
        assert PlaceOk(p, m);
      }
      assert ms == {};
    } else {
      var w := p.ring.won[from];
      assert PositionOk(p, from);
      var rest := set m | m in p.place && p.place[m].InRing? && p.place[m].pos >= from + 1;
      forall m | m in ms
        ensures m == w || m in rest
      {
        assert PlaceOk(p, m);
      }
      assert ms == rest + {w};
      CountPositions(p, from + 1, rest);
    }
  }

  // ------------------------------------------------------- every step and run

  lemma PoolStepKeepsInv(p: Pool, e: PoolEvent)
    requires PoolInv(p)
    ensures PoolInv(PoolStep(Unbounded, p, e))
  {
    match e
    case Get => GetKeepsInv(p);
    case Ret(t, msg) => RetKeepsInv(p, t, msg);
    case Act(t) => ActKeepsInv(p, t);
  }

  lemma GetKeepsInv(p: Pool)
    requires PoolInv(p)
    ensures PoolInv(PoolStep(Unbounded, p, Get))
  {
    var s, r := p.ring, PoolStep(Unbounded, p, Get);
    ConsumeKeepsInv(s);
    if s.consumer.FreeCell? {
      assert PositionOk(p, s.rmvIdx);
      Rehoused(p, r, s.consumer.mem);
    } else if s.consumer.Advance? {
      Rehoused(p, r, s.consumer.mem);
    } else {
      NothingMoves(p, r);
    }
  }

  /** A step that leaves every message where it is. */
  lemma NothingMoves(p: Pool, r: Pool)
    requires PoolInv(p) && Inv(r.ring) && r.place == p.place
    requires r.ring.won == p.ring.won && r.ring.size == p.ring.size && Freed(r.ring) == Freed(p.ring)
    requires !p.ring.consumer.Advance? && !r.ring.consumer.Advance?
    requires forall t :: ProducerAt(r.ring, t) == ProducerAt(p.ring, t)
    ensures PoolInv(r)
  {
    forall m | m in r.place
      ensures PlaceOk(r, m)
    {
      assert PlaceOk(p, m);
    }
    forall t
      ensures HolderOk(r, t)
    {
      assert HolderOk(p, t);
    }
    forall i | Freed(r.ring) <= i < r.ring.addIdx
      ensures PositionOk(r, i)
    {
      assert PositionOk(p, i);
    }
  }

  /** A consumer step that takes `m`, and no other message, to its new place. */
  lemma Rehoused(p: Pool, r: Pool, m: Ptr)
    requires PoolInv(p) && Inv(r.ring) && m in p.place && m in r.place && r.place == p.place[m := r.place[m]]
    requires r.ring.won == p.ring.won && r.ring.size == p.ring.size && r.ring.producers == p.ring.producers
    requires p.place[m].Leaving? || (p.place[m].InRing? && p.place[m].pos < Freed(r.ring))
    requires Freed(p.ring) <= Freed(r.ring)
    requires forall i :: Freed(p.ring) <= i < Freed(r.ring) ==> p.ring.won[i] == m
    requires r.place[m] == Out || (r.place[m] == Leaving && r.ring.consumer == Advance(m))
    requires p.ring.consumer.Advance? ==> p.ring.consumer.mem == m
    requires r.ring.consumer.Advance? ==> r.place[m] == Leaving
    ensures PoolInv(r)
  {
    hide CellOk, ProducerOk, ConsumerOk, IsPow2, Rem;
    assert r.place.Keys == p.place.Keys;
    forall u | u in r.place
      ensures PlaceOk(r, u)
    {
      assert PlaceOk(p, u);
    }
    forall t
      ensures HolderOk(r, t)
    {
      assert HolderOk(p, t);
    }
    forall i | Freed(r.ring) <= i < r.ring.addIdx
      ensures PositionOk(r, i)
    {
      assert PositionOk(p, i);
    }
  }

  lemma RetKeepsInv(p: Pool, t: Tid, msg: Ptr)
    requires PoolInv(p)
    ensures PoolInv(PoolStep(Unbounded, p, Ret(t, msg)))
  {
    var s, r := p.ring, PoolStep(Unbounded, p, Ret(t, msg));
    if r != p {
      BeginKeepsInv(s, t, msg);
      assert r.place.Keys == p.place.Keys;
      forall m | m in r.place
        ensures PlaceOk(r, m)
      {
        assert PlaceOk(p, m);
      }
      forall u
        ensures HolderOk(r, u)
      {
        assert HolderOk(p, u);
      }
      forall i | Freed(s) <= i < s.addIdx
        ensures PositionOk(r, i)
      {
        assert PositionOk(p, i);
      }
    }
  }

  lemma ActKeepsInv(p: Pool, t: Tid)
    requires PoolInv(p)
    ensures PoolInv(PoolStep(Unbounded, p, Act(t)))
  {
    ActKeepsRingInv(p, t);
    assert HolderOk(p, t);
    if PoolStep(Unbounded, p, Act(t)).ring.addIdx != p.ring.addIdx {
      WinningKeepsInv(p, t);
    } else {
      ActInPlace(p, t);
    }
  }

  lemma WinningKeepsInv(p: Pool, t: Tid)
    requires PoolInv(p) && HolderOk(p, t) && Inv(PoolStep(Unbounded, p, Act(t)).ring)
    requires PoolStep(Unbounded, p, Act(t)).ring.addIdx != p.ring.addIdx
    ensures PoolInv(PoolStep(Unbounded, p, Act(t)))
  {
    var r := PoolStep(Unbounded, p, Act(t));
    assert r.place.Keys == p.place.Keys;
    forall m | m in r.place
      ensures PlaceOk(r, m)
    {
      assert PlaceOk(p, m);
    }
    forall u
      ensures HolderOk(r, u)
    {
      assert HolderOk(p, u);
    }
    forall i | Freed(r.ring) <= i < r.ring.addIdx
      ensures PositionOk(r, i)
    {
      if i < p.ring.addIdx {
        assert PositionOk(p, i);
      }
    }
  }

  lemma ActInPlace(p: Pool, t: Tid)
    requires PoolInv(p) && HolderOk(p, t) && Inv(PoolStep(Unbounded, p, Act(t)).ring)
    requires PoolStep(Unbounded, p, Act(t)).ring.addIdx == p.ring.addIdx
    requires var w := ProducerAt(p.ring, t); w.LoadSeq? ==> !ProducerAt(ProducerStep(Unbounded, p.ring, t), t).Returned?
    ensures PoolInv(PoolStep(Unbounded, p, Act(t)))
  {
    hide CellOk, ProducerOk, ConsumerOk, IsPow2;
    var r := PoolStep(Unbounded, p, Act(t));
    var w, v := ProducerAt(p.ring, t), ProducerAt(r.ring, t);
    assert Undecided(w) <==> Undecided(v);
    assert Undecided(w) ==> v.mem == w.mem;
    assert forall u :: u != t ==> ProducerAt(r.ring, u) == ProducerAt(p.ring, u);
    forall m | m in r.place
      ensures PlaceOk(r, m)
    {
      assert PlaceOk(p, m);
    }
    forall u
      ensures HolderOk(r, u)
    {
      assert HolderOk(p, u);
    }
    forall i | Freed(r.ring) <= i < r.ring.addIdx
      ensures PositionOk(r, i)
    {
      assert PositionOk(p, i);
    }
  }

  /** ret_msg never finds the ring full: the message it brings back is not in it. */
  lemma ActKeepsRingInv(p: Pool, t: Tid)
    requires PoolInv(p)
    ensures var r := ProducerStep(Unbounded, p.ring, t);
            Inv(r) && !(ProducerAt(p.ring, t).LoadSeq? && ProducerAt(r, t).Returned?)
  {
    var s := p.ring;
    var w := ProducerAt(s, t);
    assert HolderOk(p, t);
    assert ProducerOk(s, t);
    if w.LoadSeq? {
      RoomForOutsider(p, w.mem);
      LoadAnswers(s, w.pos);
    }
    ProduceKeepsInv(s, t);
  }

  lemma {:induction false} PoolRunKeepsInv(p: Pool, es: seq<PoolEvent>)
    requires PoolInv(p)
    ensures PoolInv(PoolRun(Unbounded, p, es)) && PoolRun(Unbounded, p, es).ring.size == p.ring.size
    decreases |es|
  {
    if es != [] {
      PoolStepKeepsInv(p, es[0]);
      PoolRunKeepsInv(PoolStep(Unbounded, p, es[0]), es[1..]);
    }
  }

  // ------------------------------------------------- hand-outs

  /** get_msg hands out a message only when no client has it and no thread is still
      bringing it back; afterwards that client has it. */
  lemma HandedOut(p: Pool)
    requires PoolInv(p) && p.ring.consumer.Advance?
    ensures var r, m := PoolStep(Unbounded, p, Get), p.ring.consumer.mem;
            && m in p.place && !p.place[m].Out? && !p.place[m].Returning?
            && r.ring.consumer == Done(m) && r.place == p.place[m := Out]
  {
  }

  ghost predicate GivenBack(es: seq<PoolEvent>, m: Ptr) {
    exists k :: 0 <= k < |es| && es[k].Ret? && es[k].msg == m
  }

  predicate IsOut(p: Pool, m: Ptr) {
    m in p.place && p.place[m].Out?
  }

  lemma StepStaysOut(p: Pool, e: PoolEvent, m: Ptr)
    requires PoolInv(p) && IsOut(p, m) && !(e.Ret? && e.msg == m)
    ensures IsOut(PoolStep(Unbounded, p, e), m)
  {
    if e.Get? && p.ring.consumer.FreeCell? {
      assert PositionOk(p, p.ring.rmvIdx);
    }
    if e.Act? {
      assert HolderOk(p, e.t);
    }
  }

  /** A client keeps its message until it calls ret_msg. */
  lemma {:induction false} StaysOut(p: Pool, es: seq<PoolEvent>, m: Ptr)
    requires PoolInv(p) && IsOut(p, m) && !GivenBack(es, m)
    ensures IsOut(PoolRun(Unbounded, p, es), m)
    decreases |es|
  {
    if es != [] {
      assert !(es[0].Ret? && es[0].msg == m);
      PoolStepKeepsInv(p, es[0]);
      StepStaysOut(p, es[0], m);
      forall k | 0 <= k < |es[1..]|
        ensures !(es[1..][k].Ret? && es[1..][k].msg == m)
      {
        assert es[1..][k] == es[k + 1];
      }
      StaysOut(PoolStep(Unbounded, p, es[0]), es[1..], m);
    }
  }

  // ------------------------------------------------- 32-bit positions

  function WrapPool(p: Pool): (r: Pool)
    ensures WellFormed(p.ring) ==> WellFormed(r.ring)
  {
    Pool(Wrap(p.ring), p.place)
  }

  /** LagOk all along a run. */
  ghost predicate PoolLagOk(p: Pool, es: seq<PoolEvent>)
    requires WellFormed(p.ring)
    decreases |es|
  {
    LagOk(p.ring) && (es == [] || PoolLagOk(PoolStep(Unbounded, p, es[0]), es[1..]))
  }

  lemma PoolStepWraps(p: Pool, e: PoolEvent)
    requires PoolInv(p) && LagOk(p.ring)
    ensures PoolStep(U32, WrapPool(p), e) == WrapPool(PoolStep(Unbounded, p, e))
  {
    match e
    case Get => StepWraps(p.ring, Consume);
    case Ret(t, msg) => StepWraps(p.ring, Begin(t, msg));
    case Act(t) => StepWraps(p.ring, Produce(t));
  }

  /** The pool on the code's ring does what the pool on unbounded positions does. */
  lemma {:induction false} PoolRunWraps(p: Pool, es: seq<PoolEvent>)
    requires PoolInv(p) && PoolLagOk(p, es)
    ensures PoolRun(U32, WrapPool(p), es) == WrapPool(PoolRun(Unbounded, p, es))
    decreases |es|
  {
    if es != [] {
      PoolStepWraps(p, es[0]);
      PoolStepKeepsInv(p, es[0]);
      PoolRunWraps(PoolStep(Unbounded, p, es[0]), es[1..]);
    }
  }

  /** Over all runs on 32-bit positions pooled and outstanding messages are all of the
      pool's, every client keeps its message until it returns it, and so a message is handed
      out again only after a ret_msg of it. */
  lemma PoolConserved(p: Pool, es: seq<PoolEvent>, m: Ptr)
    requires PoolInv(p) && PoolLagOk(p, es)
    ensures var r := PoolRun(U32, WrapPool(p), es);
      && |Pooled(r)| + |Outstanding(r)| == p.ring.size
      && (IsOut(p, m) && !GivenBack(es, m) ==> IsOut(r, m))
      && (IsOut(p, m) && r.ring.consumer == Advance(m) ==> GivenBack(es, m))
  {
    PoolRunWraps(p, es);
    PoolRunKeepsInv(p, es);
    var r := PoolRun(Unbounded, p, es);
    PooledPlusOutstanding(r);
    if IsOut(p, m) && !GivenBack(es, m) {
      StaysOut(p, es, m);
    }
  }

  /** Nor does ret_msg find the ring of words full. */
  lemma RetNeverRefused(p: Pool, t: Tid)
    requires PoolInv(p) && LagOk(p.ring) && ProducerAt(p.ring, t).LoadSeq?
    ensures !Refused(ProducerStep(U32, WrapPool(p).ring, t), t)
  {
    ActKeepsRingInv(p, t);
    ProduceWraps(p.ring, t);
  }

  // ------------------------------------------------- the first gets

  /** The positions up to `n` that are not freed are published. */
  ghost predicate PublishedTo(s: State, n: nat)
    requires WellFormed(s)
  {
    forall q :: Freed(s) <= q < n ==> Published(s, q)
  }

  lemma StepKeepsPublished(s: State, e: Event, n: nat)
    requires Inv(s) && PublishedTo(s, n) && n <= s.addIdx
    ensures PublishedTo(Step(Unbounded, s, e), n)
  {
    var r := Step(Unbounded, s, e);
    if e.Produce? && ProducerAt(s, e.t).StoreSeq? {
      assert ProducerOk(s, e.t);
      OtherSlots(s, ProducerAt(s, e.t).pos);
    }
    if e.Consume? && s.consumer.FreeCell? {
      OtherSlots(s, s.rmvIdx);
    }
    forall q | Freed(r) <= q < n
      ensures Published(r, q)
    {
      assert Published(s, q);
    }
  }

  lemma PoolStepKeepsPublished(p: Pool, e: PoolEvent, n: nat)
    requires PoolInv(p) && PublishedTo(p.ring, n) && n <= p.ring.addIdx
    ensures PublishedTo(PoolStep(Unbounded, p, e).ring, n) && n <= PoolStep(Unbounded, p, e).ring.addIdx
  {
    match e
    case Get => StepKeepsPublished(p.ring, Consume, n);
    case Ret(t, msg) => StepKeepsPublished(p.ring, Begin(t, msg), n);
    case Act(t) => StepKeepsPublished(p.ring, Produce(t), n);
  }

  lemma {:induction false} RunKeepsPublished(p: Pool, es: seq<PoolEvent>, n: nat)
    requires PoolInv(p) && PublishedTo(p.ring, n) && n <= p.ring.addIdx
    ensures PublishedTo(PoolRun(Unbounded, p, es).ring, n) && n <= PoolRun(Unbounded, p, es).ring.addIdx
    decreases |es|
  {
    hide PublishedTo;
    if es != [] {
      PoolStepKeepsPublished(p, es[0], n);
      PoolStepKeepsInv(p, es[0]);
      RunKeepsPublished(PoolStep(Unbounded, p, es[0]), es[1..], n);
    }
  }

  /** As many gets as messages were in the ring at first succeed, even if none of the
      returns that follow them ever ends. */
  lemma FirstGetsSucceed(p: Pool, es: seq<PoolEvent>)
    requires PoolInv(p) && PublishedTo(p.ring, p.ring.addIdx) && PoolLagOk(p, es)
    requires var r := PoolRun(U32, WrapPool(p), es); r.ring.consumer.Done? && |r.ring.taken| < p.ring.addIdx
    ensures ConsumerStep(U32, PoolRun(U32, WrapPool(p), es).ring).consumer == ReadMem
  {
    PoolRunWraps(p, es);
    PoolRunKeepsInv(p, es);
    RunKeepsPublished(p, es, p.ring.addIdx);
    EmptyAnswer(PoolRun(Unbounded, p, es).ring);
    RunKeepsLag(p, es);
  }

  lemma {:induction false} RunKeepsLag(p: Pool, es: seq<PoolEvent>)
    requires WellFormed(p.ring) && PoolLagOk(p, es)
    ensures LagOk(PoolRun(Unbounded, p, es).ring)
    decreases |es|
  {
    if es != [] {
      RunKeepsLag(PoolStep(Unbounded, p, es[0]), es[1..]);
    }
  }

  /** A pool that holds all its messages in the ring and has no call in progress. */
  lemma FullPoolInv(s: State)
    requires Inv(s) && s.consumer.Done? && s.addIdx == s.rmvIdx + s.size
    requires forall t :: t in s.producers ==> s.producers[t].Returned?
    requires forall i, j :: s.rmvIdx <= i < j < s.addIdx ==> s.won[i] != s.won[j]
    ensures exists place :: PoolInv(Pool(s, place))
  {
    var q := s.won[s.rmvIdx..];
    forall i, j | 0 <= i < j < |q|
      ensures q[i] != q[j]
    {
      assert q[i] == s.won[s.rmvIdx + i] && q[j] == s.won[s.rmvIdx + j];
    }
    var place := PlacesOf(q, s.rmvIdx);
    PlacesAreInv(s, q, place);
  }

  lemma PlacesAreInv(s: State, q: seq<Ptr>, place: map<Ptr, Place>)
    requires Inv(s) && s.consumer.Done? && s.addIdx == s.rmvIdx + s.size
    requires forall t :: t in s.producers ==> s.producers[t].Returned?
    requires q == s.won[s.rmvIdx..] && |place| == |q|
    requires forall i :: 0 <= i < |q| ==> q[i] in place && place[q[i]] == InRing(s.rmvIdx + i)
    requires forall m :: m in place ==>
               place[m].InRing? && s.rmvIdx <= place[m].pos < s.rmvIdx + |q| && q[place[m].pos - s.rmvIdx] == m
    ensures PoolInv(Pool(s, place))
  {
    var p := Pool(s, place);
    forall i | Freed(s) <= i < s.addIdx
      ensures PositionOk(p, i)
    {
      assert q[i - s.rmvIdx] == s.won[i];
    }
  }

  lemma {:induction false} PlacesOf(q: seq<Ptr>, from: nat) returns (place: map<Ptr, Place>)
    requires forall i, j :: 0 <= i < j < |q| ==> q[i] != q[j]
    ensures |place| == |q|
    ensures forall i :: 0 <= i < |q| ==> q[i] in place && place[q[i]] == InRing(from + i)
    ensures forall m :: m in place ==>
      place[m].InRing? && from <= place[m].pos < from + |q| && q[place[m].pos - from] == m
  {
    if q == [] {
      place := map[];
    } else {
      var n := |q| - 1;
      var init := PlacesOf(q[..n], from);
      assert q[n] !in init;
      place := init[q[n] := InRing(from + n)];
    }
  }
}
