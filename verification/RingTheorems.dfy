/** What AcMpscRingBuff promises over every interleaving. */
module RingTheorems {
  import opened IntMath
  import opened RingMachine

  /** The pointers handed out are the pointers added, in the order their positions
      were won, and every pointer won but not handed out is still held for its
      position: in its cell, by the producer that won it, or by the consumer. */
  predicate Fifo(s: State) {
    && WellFormed(s)
    && |s.won| == |s.winner|
    && s.taken <= s.won
    && forall p :: |s.taken| <= p < |s.won| ==> Held(s, p)
  }

  predicate Held(s: State, p: nat)
    requires WellFormed(s) && p < |s.won| == |s.winner|
  {
    var c, w := s.cells[Rem(p, s.size)], ProducerAt(s, s.winner[p]);
    || (c.num == Low(p + 1) && c.mem == s.won[p])
    || ((w.WriteMem? || w.StoreSeq?) && w.pos == Low(p) && w.mem == s.won[p])
    || (s.consumer.Advance? && p == |s.taken| && s.consumer.mem == s.won[p])
  }

  // ------------------------------------------------- 32-bit wrap-around

  function WrapProducer(p: Producer): Producer {
    if p.Returned? then p else p.(pos := Low(p.pos))
  }

  function WrapCell(c: Cell): Cell {
    c.(num := Low(c.num))
  }

  function WrapCells(cs: seq<Cell>): (r: seq<Cell>)
    ensures |r| == |cs|
    ensures forall i :: 0 <= i < |cs| ==> r[i] == WrapCell(cs[i])
  {
    if cs == [] then [] else [WrapCell(cs[0])] + WrapCells(cs[1..])
  }

  /** The 32-bit view of a state with unbounded positions. */
  function Wrap(s: State): (r: State)
    ensures WellFormed(s) ==> WellFormed(r)
  {
    s.(addIdx := Low(s.addIdx),
       rmvIdx := Low(s.rmvIdx),
       cells := WrapCells(s.cells),
       producers := map t | t in s.producers :: WrapProducer(s.producers[t]))
  }

  /** No producer that is still deciding holds a snapshot of add_idx so old that its
      distance, with the ring size, reaches 2^31. */
  ghost predicate LagOk(s: State) {
    && s.size < HALF
    && forall t :: t in s.producers && (s.producers[t].LoadSeq? || s.producers[t].Cas?) ==>
         s.addIdx - s.producers[t].pos + s.size < HALF
  }

  ghost predicate LagAlwaysOk(s: State, es: seq<Event>)
    requires WellFormed(s)
    decreases |es|
  {
    LagOk(s) && (es == [] || LagAlwaysOk(Step(Unbounded, s, es[0]), es[1..]))
  }

  /** `pos & mask` of a 32-bit position is the cell of the unbounded position. */
  lemma MaskedSlot(pos: nat, size: nat)
    requires IsPow2(size) && size < HALF
    ensures And(Low(pos), size - 1) == Rem(Low(pos), size) == Rem(pos, size)
  {
    var k := Exponent(size);
    assert WORD == Pow2(32) by {
      Pow2Values();
    }
    Pow2Monotone(k, 32);
    ModMod(pos, k, 32);
    RemIsMod(pos, WORD);
    RemIsMod(pos, size);
    RemIsMod(Low(pos), size);
    MaskIsMod(Low(pos), k, size);
  }

  lemma Pow2Values()
    ensures Pow2(32) == WORD
  {
    assert Pow2(8) == 0x100;
    Pow2Add(8, 8);
    Pow2Add(16, 16);
  }

  /** The signed 32-bit difference of close positions is their true difference. */
  lemma DiffOfWrapped(a: nat, b: nat)
    requires -HALF <= a - b < HALF
    ensures U32.Diff(Low(a), Low(b)) == a - b
  {
    RemIsMod(a, WORD);
    RemIsMod(b, WORD);
  }

  lemma AddOfWrapped(a: nat, b: nat)
    ensures U32.Add(Low(a), b) == Low(a + b)
  {
    RemIsMod(a, WORD);
    RemIsMod(a + b, WORD);
    RemIsMod(Low(a) + b, WORD);
  }

  /** Close positions are equal exactly when their words are. */
  lemma EqualWords(a: nat, b: nat)
    requires 0 <= a - b < WORD
    ensures Low(a) == Low(b) <==> a == b
  {
    RemIsMod(a, WORD);
    RemIsMod(b, WORD);
  }

  lemma StepWraps(s: State, e: Event)
    requires Inv(s) && LagOk(s)
    ensures Step(U32, Wrap(s), e) == Wrap(Step(Unbounded, s, e))
  {
    match e
    case Begin(t, mem) =>
      assert Step(U32, Wrap(s), e).producers == Wrap(Step(Unbounded, s, e)).producers;
    case Produce(t) => ProduceWraps(s, t);
    case Consume => ConsumeWraps(s);
  }

  lemma ProduceWraps(s: State, t: Tid)
    requires Inv(s) && LagOk(s)
    ensures ProducerStep(U32, Wrap(s), t) == Wrap(ProducerStep(Unbounded, s, t))
  {
    assert ProducerOk(s, t);
    match ProducerAt(s, t)
    case Returned(_) =>
    case LoadSeq(_, pos) => LoadWraps(s, t);
    case Reload(mem, _) => OnlyProducersWrap(s, t, LoadSeq(mem, s.addIdx));
    case Cas(_, pos) => CasWraps(s, t);
    case WriteMem(_, _) => WriteWraps(s, t);
    case StoreSeq(_, _) => StoreWraps(s, t);
  }

  lemma WriteWraps(s: State, t: Tid)
    requires WellFormed(s) && IsPow2(s.size) && s.size < HALF && ProducerAt(s, t).WriteMem?
    ensures ProducerStep(U32, Wrap(s), t) == Wrap(ProducerStep(Unbounded, s, t))
  {
    var p := ProducerAt(s, t);
    CellsWrap(s, p.pos, s.cells[Rem(p.pos, s.size)].(mem := p.mem));
    OnlyProducersWrap(s, t, StoreSeq(p.mem, p.pos));
  }

  lemma StoreWraps(s: State, t: Tid)
    requires WellFormed(s) && IsPow2(s.size) && s.size < HALF && ProducerAt(s, t).StoreSeq?
    ensures ProducerStep(U32, Wrap(s), t) == Wrap(ProducerStep(Unbounded, s, t))
  {
    var p := ProducerAt(s, t);
    var i := Rem(p.pos, s.size);
    CellsWrap(s, p.pos, s.cells[i].(num := p.pos + 1));
    AddOfWrapped(p.pos, 1);
    assert Wrap(s).cells[i].(num := U32.Add(Low(p.pos), 1)) == WrapCell(s.cells[i].(num := p.pos + 1));
    OnlyProducersWrap(s, t, Returned(true));
  }

  lemma OnlyProducersWrap(s: State, t: Tid, p: Producer)
    ensures Wrap(s).producers[t := WrapProducer(p)] == Wrap(s.(producers := s.producers[t := p])).producers
    ensures Wrap(s.(producers := s.producers[t := p])).cells == Wrap(s).cells
  {
  }

  lemma CellsWrap(s: State, pos: nat, c: Cell)
    requires WellFormed(s) && IsPow2(s.size) && s.size < HALF
    ensures And(Low(pos), s.size - 1) == Rem(Low(pos), s.size) == Rem(pos, s.size)
    ensures var i := Rem(pos, s.size);
            && WrapCells(s.cells)[i] == WrapCell(s.cells[i])
            && WrapCells(s.cells[i := c]) == WrapCells(s.cells)[i := WrapCell(c)]
  {
    MaskedSlot(pos, s.size);
    var i := Rem(pos, s.size);
    assert WrapCells(s.cells[i := c]) == WrapCells(s.cells)[i := WrapCell(c)];
  }

  lemma LoadIsClose(s: State, pos: nat)
    requires Inv(s) && pos <= s.addIdx && s.addIdx - pos + s.size < HALF
    ensures -HALF <= s.cells[Rem(pos, s.size)].num - pos < HALF
  {
    var q := WindowPos(s, pos);
    assert CellOk(s, q);
  }

  lemma LoadWraps(s: State, t: Tid)
    requires Inv(s) && LagOk(s) && ProducerAt(s, t).LoadSeq?
    ensures ProducerStep(U32, Wrap(s), t) == Wrap(ProducerStep(Unbounded, s, t))
  {
    var p := ProducerAt(s, t);
    assert ProducerOk(s, t);
    var i := Rem(p.pos, s.size);
    MaskedSlot(p.pos, s.size);
    LoadIsClose(s, p.pos);
    DiffOfWrapped(s.cells[i].num, p.pos);
    assert Wrap(s).cells[i].num == Low(s.cells[i].num);
    OnlyProducersWrap(s, t, ProducerAt(ProducerStep(Unbounded, s, t), t));
  }

  lemma CasWraps(s: State, t: Tid)
    requires WellFormed(s) && ProducerAt(s, t).Cas?
    requires 0 <= s.addIdx - ProducerAt(s, t).pos < WORD
    ensures ProducerStep(U32, Wrap(s), t) == Wrap(ProducerStep(Unbounded, s, t))
  {
    OnlyProducersWrap(s, t, ProducerAt(ProducerStep(Unbounded, s, t), t));
    EqualWords(s.addIdx, ProducerAt(s, t).pos);
    AddOfWrapped(s.addIdx, 1);
  }

  lemma ConsumeWraps(s: State)
    requires Inv(s) && LagOk(s)
    ensures ConsumerStep(U32, Wrap(s)) == Wrap(ConsumerStep(Unbounded, s))
  {
    if s.consumer.Done? {
      assert CellOk(s, s.rmvIdx);
    }
    ConsumeWrapsIfClose(s);
  }

  lemma ConsumeWrapsIfClose(s: State)
    requires WellFormed(s) && IsPow2(s.size) && s.size < HALF
    requires s.consumer.Done? ==> s.cells[Rem(s.rmvIdx, s.size)].num - s.rmvIdx in {0, 1}
    ensures ConsumerStep(U32, Wrap(s)) == Wrap(ConsumerStep(Unbounded, s))
  {
    MaskedSlot(s.rmvIdx, s.size);
    match s.consumer
    case Done(_) =>
      AddOfWrapped(s.rmvIdx, 1);
      DiffOfWrapped(s.cells[Rem(s.rmvIdx, s.size)].num, s.rmvIdx + 1);
    case ReadMem =>
    case FreeCell(_) => FreeWraps(s);
    case Advance(_) => AddOfWrapped(s.rmvIdx, 1);
  }

  lemma FreeWraps(s: State)
    requires WellFormed(s) && IsPow2(s.size) && s.size < HALF && s.consumer.FreeCell?
    ensures ConsumerStep(U32, Wrap(s)) == Wrap(ConsumerStep(Unbounded, s))
  {
    hide Low, IsPow2, And;
    var i := Rem(s.rmvIdx, s.size);
    CellsWrap(s, s.rmvIdx, s.cells[i].(num := s.rmvIdx + s.size));
    AddOfWrapped(s.rmvIdx, s.size);
    assert Wrap(s).cells[i].(num := U32.Add(Low(s.rmvIdx), s.size))
        == WrapCell(s.cells[i].(num := s.rmvIdx + s.size));
  }

  /** The code's machine takes the same branches as the machine with unbounded
      positions, across any number of wraps of the 32-bit counters. */
  lemma {:induction false} RunWraps(s: State, es: seq<Event>)
    requires Inv(s) && s.size >= 2 && LagAlwaysOk(s, es)
    ensures Run(U32, Wrap(s), es) == Wrap(Run(Unbounded, s, es))
    decreases |es|
  {
    if es != [] {
      StepWraps(s, es[0]);
      StepKeepsInv(s, es[0]);
      RunWraps(Step(Unbounded, s, es[0]), es[1..]);
    }
  }

  // ------------------------------------------------------------ main results

  lemma InvWrapsToFifo(s: State)
    requires Inv(s)
    ensures Fifo(Wrap(s))
  {
    var c := Wrap(s);
    forall p | |c.taken| <= p < |c.won|
      ensures Held(c, p)
    {
      if Freed(s) <= p {
        assert CellOk(s, p);
        assert ProducerOk(s, s.winner[p]);
      }
    }
  }

  /** FIFO over every interleaving of the 32-bit machine whose snapshots stay fresh. */
  lemma FifoOverAllRuns(size: nat, es: seq<Event>)
    requires size >= 2 && IsPow2(size) && LagAlwaysOk(Init(size), es)
    ensures Fifo(Run(U32, Init(size), es))
    ensures Run(U32, Init(size), es) == Wrap(Run(Unbounded, Init(size), es))
  {
    var s := Init(size);
    InitInv(size);
    RunKeepsInv(s, es);
    InitWraps(size);
    RunWraps(s, es);
    InvWrapsToFifo(Run(Unbounded, s, es));
  }

  lemma InitWraps(size: nat)
    requires size < HALF
    ensures Wrap(Init(size)) == Init(size)
  {
    assert Wrap(Init(size)).cells == Init(size).cells;
    assert Wrap(Init(size)).producers == Init(size).producers;
  }

  /** With unbounded positions FIFO needs no side condition, except that the ring
      has at least two cells: with one cell a published cell looks free. */
  lemma FifoIffTwoCells(size: nat)
    requires IsPow2(size)
    ensures (forall es :: Run(Unbounded, Init(size), es).taken <= Run(Unbounded, Init(size), es).won)
            <==> size >= 2
  {
    if size >= 2 {
      forall es
        ensures Run(Unbounded, Init(size), es).taken <= Run(Unbounded, Init(size), es).won
      {
        InitInv(size);
        RunKeepsInv(Init(size), es);
      }
    } else {
      assert size == 1;
      RingOfOneOverwrites();
      var es := AddAlone(0, 7, 0) + AddAlone(0, 8, 0) + RmvAlone();
      var s := Run(Unbounded, Init(size), es);
      assert s.taken[0] != s.won[0];
    }
  }

  function Produces(t: Tid, k: nat): seq<Event> {
    if k == 0 then [] else [Produce(t)] + Produces(t, k - 1)
  }

  /** An add_mem call that is not interrupted; four actions complete it. */
  function AddAlone(t: Tid, mem: Ptr, extra: nat): seq<Event> {
    [Begin(t, mem)] + Produces(t, extra + 4)
  }

  function RmvAlone(): seq<Event> {
    [Consume] + ([Consume] + ([Consume] + ([Consume] + [])))
  }

  lemma RunFirst(s: State, e: Event, es: seq<Event>)
    requires WellFormed(s)
    ensures Run(Unbounded, s, [e] + es) == Run(Unbounded, Step(Unbounded, s, e), es)
  {
    assert ([e] + es)[1..] == es;
  }

  lemma {:induction false} ReturnedStays(s: State, t: Tid, k: nat)
    requires WellFormed(s) && ProducerAt(s, t).Returned?
    ensures Run(Unbounded, s, Produces(t, k)) == s
  {
    if k > 0 {
      RunFirst(s, Produce(t), Produces(t, k - 1));
      ReturnedStays(s, t, k - 1);
    }
  }

  lemma FromStoreSeq(s: State, t: Tid, k: nat)
    requires WellFormed(s) && ProducerAt(s, t).StoreSeq?
    ensures var p := ProducerAt(s, t); var i := Rem(p.pos, s.size);
            Run(Unbounded, s, Produces(t, k + 1)) ==
            s.(cells := s.cells[i := s.cells[i].(num := p.pos + 1)], producers := s.producers[t := Returned(true)])
  {
    RunFirst(s, Produce(t), Produces(t, k));
    ReturnedStays(ProducerStep(Unbounded, s, t), t, k);
  }

  lemma FromWriteMem(s: State, t: Tid, k: nat)
    requires WellFormed(s) && ProducerAt(s, t).WriteMem?
    ensures var p := ProducerAt(s, t); var i := Rem(p.pos, s.size);
            Run(Unbounded, s, Produces(t, k + 2)) ==
            s.(cells := s.cells[i := Cell(p.mem, p.pos + 1)], producers := s.producers[t := Returned(true)])
  {
    RunFirst(s, Produce(t), Produces(t, k + 1));
    var r := ProducerStep(Unbounded, s, t);
    FromStoreSeq(r, t, k);
    assert r.producers[t := Returned(true)] == s.producers[t := Returned(true)];
  }

  lemma FromCas(s: State, t: Tid, k: nat)
    requires WellFormed(s) && ProducerAt(s, t).Cas? && ProducerAt(s, t).pos == s.addIdx
    ensures var p := ProducerAt(s, t); var i := Rem(p.pos, s.size);
            Run(Unbounded, s, Produces(t, k + 3)) ==
            s.(addIdx := s.addIdx + 1, cells := s.cells[i := Cell(p.mem, p.pos + 1)],
               producers := s.producers[t := Returned(true)], won := s.won + [p.mem], winner := s.winner + [t])
  {
    RunFirst(s, Produce(t), Produces(t, k + 2));
    var r := ProducerStep(Unbounded, s, t);
    FromWriteMem(r, t, k);
    assert r.producers[t := Returned(true)] == s.producers[t := Returned(true)];
  }

  lemma FromLoadSeq(s: State, t: Tid, k: nat, mem: Ptr)
    requires WellFormed(s) && ProducerAt(s, t) == LoadSeq(mem, s.addIdx) && mem != NULL
    requires s.cells[Rem(s.addIdx, s.size)].num <= s.addIdx
    ensures Run(Unbounded, s, Produces(t, k + 4)) == Added(s, t, mem)
  {
    RunFirst(s, Produce(t), Produces(t, k + 3));
    var r := ProducerStep(Unbounded, s, t);
    if s.cells[Rem(s.addIdx, s.size)].num < s.addIdx {
      ReturnedStays(r, t, k + 3);
    } else {
      FromCas(r, t, k);
      assert r.producers[t := Returned(true)] == s.producers[t := Returned(true)];
    }
  }

  /** An add_mem call that runs without interruption. */
  lemma AddAloneRuns(s: State, t: Tid, mem: Ptr, extra: nat)
    requires WellFormed(s) && ProducerAt(s, t).Returned?
    requires s.cells[Rem(s.addIdx, s.size)].num <= s.addIdx
    ensures Run(Unbounded, s, AddAlone(t, mem, extra)) == Added(s, t, mem)
  {
    RunFirst(s, Begin(t, mem), Produces(t, extra + 4));
    if mem == NULL {
      ReturnedStays(s.(producers := s.producers[t := Returned(true)]), t, extra + 4);
    } else {
      var s1 := s.(producers := s.producers[t := LoadSeq(mem, s.addIdx)]);
      FromLoadSeq(s1, t, extra, mem);
      AddedTwice(s, s1, t, mem);
    }
  }

  lemma AddedTwice(s: State, s1: State, t: Tid, mem: Ptr)
    requires WellFormed(s) && s.cells[Rem(s.addIdx, s.size)].num <= s.addIdx && mem != NULL
    requires s1 == s.(producers := s.producers[t := LoadSeq(mem, s.addIdx)])
    ensures Added(s1, t, mem) == Added(s, t, mem)
  {
    assert s1.producers[t := Returned(true)] == s.producers[t := Returned(true)];
    assert s1.producers[t := Returned(false)] == s.producers[t := Returned(false)];
  }

  /** The state after an uninterrupted add_mem: full (or AC_NULL) changes nothing. */
  function Added(s: State, t: Tid, mem: Ptr): (r: State)
    requires WellFormed(s)
    ensures WellFormed(r)
  {
    var i, pos := Rem(s.addIdx, s.size), s.addIdx;
    if mem == NULL then s.(producers := s.producers[t := Returned(true)])
    else if s.cells[i].num < pos then s.(producers := s.producers[t := Returned(false)])
    else
      s.(addIdx := pos + 1,
         cells := s.cells[i := Cell(mem, pos + 1)],
         producers := s.producers[t := Returned(true)],
         won := s.won + [mem],
         winner := s.winner + [t])
  }

  /** The state after an uninterrupted rmv_mem that found something. */
  function Removed(s: State): (r: State)
    requires WellFormed(s)
    ensures WellFormed(r)
  {
    var i := Rem(s.rmvIdx, s.size);
    s.(rmvIdx := s.rmvIdx + 1,
       cells := s.cells[i := s.cells[i].(num := s.rmvIdx + s.size)],
       consumer := Done(s.cells[i].mem),
       taken := s.taken + [s.cells[i].mem])
  }

  /** A rmv_mem call that runs without interruption. */
  lemma RmvAloneRuns(s: State)
    requires WellFormed(s) && s.consumer.Done?
    requires s.cells[Rem(s.rmvIdx, s.size)].num > s.rmvIdx
    ensures Run(Unbounded, s, RmvAlone()) == Removed(s)
  {
    RunFirst(s, Consume, [Consume] + ([Consume] + ([Consume] + [])));
    FromReadMem(ConsumerStep(Unbounded, s), []);
  }

  lemma FromReadMem(s: State, es: seq<Event>)
    requires WellFormed(s) && s.consumer.ReadMem?
    ensures Run(Unbounded, s, [Consume] + ([Consume] + ([Consume] + es))) == Run(Unbounded, Removed(s), es)
  {
    RunFirst(s, Consume, [Consume] + ([Consume] + es));
    FromFreeCell(ConsumerStep(Unbounded, s), es);
  }

  lemma FromFreeCell(s: State, es: seq<Event>)
    requires WellFormed(s) && s.consumer == FreeCell(s.cells[Rem(s.rmvIdx, s.size)].mem)
    ensures Run(Unbounded, s, [Consume] + ([Consume] + es)) == Run(Unbounded, Removed(s), es)
  {
    hide Low, IsPow2;
    RunFirst(s, Consume, [Consume] + es);
    RunFirst(ConsumerStep(Unbounded, s), Consume, es);
  }

  /** From its compare-exchange on, an uninterrupted producer keeps the invariant. */
  lemma {:induction false} ReservedKeepsInv(s: State, t: Tid, k: nat)
    requires Inv(s)
    requires var p := ProducerAt(s, t);
             p.Returned? || p.WriteMem? || p.StoreSeq? || (p.Cas? && p.pos == s.addIdx)
    ensures Inv(Run(Unbounded, s, Produces(t, k)))
    decreases k
  {
    if k > 0 {
      RunFirst(s, Produce(t), Produces(t, k - 1));
      ProduceKeepsInv(s, t);
      ReservedKeepsInv(ProducerStep(Unbounded, s, t), t, k - 1);
    }
  }

  lemma {:induction false} ConsumesKeepInv(s: State, es: seq<Event>)
    requires Inv(s) && forall e :: e in es ==> e.Consume?
    ensures Inv(Run(Unbounded, s, es))
    decreases |es|
  {
    if es != [] {
      assert es[0] in es;
      ConsumeKeepsInv(s);
      ConsumesKeepInv(ConsumerStep(Unbounded, s), es[1..]);
    }
  }

  lemma {:induction false} RunAppend(s: State, es: seq<Event>, fs: seq<Event>)
    requires WellFormed(s)
    ensures Run(Unbounded, s, es + fs) == Run(Unbounded, Run(Unbounded, s, es), fs)
    decreases |es|
  {
    if es == [] {
      assert es + fs == fs;
    } else {
      assert (es + fs)[1..] == es[1..] + fs;
      RunAppend(Step(Unbounded, s, es[0]), es[1..], fs);
    }
  }

  /** Two adds to a ring of one cell both succeed; the remove that follows returns
      the second pointer and the first is gone. */
  lemma RingOfOneOverwrites()
    ensures var s := Run(Unbounded, Init(1), AddAlone(0, 7, 0) + AddAlone(0, 8, 0) + RmvAlone());
            s.won == [7, 8] && s.taken == [8]
  {
    var s0 := Init(1);
    RunAppend(s0, AddAlone(0, 7, 0) + AddAlone(0, 8, 0), RmvAlone());
    RunAppend(s0, AddAlone(0, 7, 0), AddAlone(0, 8, 0));
    AddAloneRuns(s0, 0, 7, 0);
    var s1 := Added(s0, 0, 7);
    AddAloneRuns(s1, 0, 8, 0);
    RmvAloneRuns(Added(s1, 0, 8));
  }

  /** Every cell is taken; in a ring of one cell, moreover, it does not look free. */
  predicate Full(s: State)
    requires WellFormed(s)
  {
    s.addIdx == Freed(s) + s.size && (s.size == 1 ==> !Published(s, s.addIdx - 1))
  }

  predicate Refused(s: State, t: Tid) {
    ProducerAt(s, t) == Returned(false)
  }

  /** add_mem answers FALSE at its load exactly when its snapshot is current and all
      `size` positions are reserved and not yet freed; a stale snapshot never does. */
  lemma FullAnswer(s: State, t: Tid)
    requires Inv(s) && ProducerAt(s, t).LoadSeq?
    ensures Refused(ProducerStep(Unbounded, s, t), t) <==> ProducerAt(s, t).pos == s.addIdx && Full(s)
    ensures LagOk(s) ==> (Refused(ProducerStep(U32, Wrap(s), t), t) <==> ProducerAt(s, t).pos == s.addIdx && Full(s))
  {
    assert ProducerOk(s, t);
    if Unambiguous(s) {
      LoadAnswers(s, ProducerAt(s, t).pos);
    } else {
      OneCellAnswers(s, ProducerAt(s, t).pos);
    }
    if LagOk(s) {
      ProduceWraps(s, t);
    }
  }

  lemma OneCellAnswers(s: State, pos: nat)
    requires Inv(s) && s.size == 1 && s.addIdx == Freed(s) + 1 && pos <= s.addIdx
    ensures s.cells[Rem(pos, s.size)].num < pos <==> pos == s.addIdx && !Published(s, s.addIdx - 1)
  {
    assert CellOk(s, Freed(s));
  }

  /** rmv_mem answers AC_NULL at its load exactly when the position it is to remove is not
      published, in 32-bit words too. */
  lemma EmptyAnswer(s: State)
    requires Inv(s) && s.consumer.Done?
    ensures ConsumerStep(Unbounded, s).consumer == Done(NULL) <==> !Published(s, s.rmvIdx)
    ensures s.size < HALF ==> (ConsumerStep(U32, Wrap(s)).consumer == Done(NULL) <==> !Published(s, s.rmvIdx))
  {
    assert CellOk(s, s.rmvIdx);
    if s.size < HALF {
      ConsumeWrapsIfClose(s);
    }
  }

  lemma {:induction false} WonGrows(s: State, es: seq<Event>)
    requires WellFormed(s)
    ensures s.won <= Run(Unbounded, s, es).won
    decreases |es|
  {
    if es != [] {
      assert s.won <= Step(Unbounded, s, es[0]).won;
      WonGrows(Step(Unbounded, s, es[0]), es[1..]);
    }
  }

  /** Once it has found the position published, rmv_mem returns the pointer that won it,
      whatever the producers do meanwhile. */
  lemma RmvAnswer(s: State, es: seq<Event>)
    requires Inv(s) && s.size >= 2 && s.consumer.Done? && Published(s, s.rmvIdx) && LagAlwaysOk(s, [Consume] + es)
    requires var r := Run(U32, Wrap(s), [Consume] + es); r.consumer.Advance? && |r.taken| == |s.taken|
    ensures var r := Run(U32, Wrap(s), [Consume] + es);
      ConsumerStep(U32, r).consumer == Done(s.won[s.rmvIdx])
  {
    RunWraps(s, [Consume] + es);
    RunKeepsInv(s, [Consume] + es);
    WonGrows(s, [Consume] + es);
  }
}
