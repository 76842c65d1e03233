/** The concurrent behaviour of AcMpscRingBuff: any number of producers inside
    add_mem and one consumer inside rmv_mem, interleaved at every atomic load,
    store and compare-exchange.  One step function serves two machines: `Unbounded`
    counts positions in the naturals, `U32` keeps them as the code does, in 32-bit
    words compared by a signed difference. */
module RingMachine {
  import opened IntMath

  type Tid = nat
  type Ptr = nat
  const NULL: Ptr := 0

  const WORD: nat := 0x1_0000_0000
  const HALF: int := 0x8000_0000

  /** The 32-bit word of a natural number. */
  function Low(a: nat): (r: nat)
    ensures r < WORD
  {
    Rem(a, WORD)
  }

  datatype Arith = Unbounded | U32 {
    function Add(a: nat, b: nat): nat {
      if U32? then Low(a + b) else a + b
    }

    /** `ac_s32 dif = a - b`; the 32-bit machine has words for operands and reads the
        wrapped difference as two's complement. */
    function Diff(a: nat, b: nat): int {
      if U32? then
        var d := if a >= b then a - b else a + WORD - b;
        if d < HALF then d else d - WORD
      else a - b
    }
  }

  datatype Cell = Cell(mem: Ptr, num: nat)

  /** Where a producer is inside add_mem.  `Returned` is outside any call. */
  datatype Producer =
    | Returned(ok: bool)
    | LoadSeq(mem: Ptr, pos: nat)
    | Reload(mem: Ptr, pos: nat)
    | Cas(mem: Ptr, pos: nat)
    | WriteMem(mem: Ptr, pos: nat)
    | StoreSeq(mem: Ptr, pos: nat)

  /** Where the consumer is inside rmv_mem.  `Done` is outside any call. */
  datatype Consumer =
    | Done(result: Ptr)
    | ReadMem
    | FreeCell(mem: Ptr)
    | Advance(mem: Ptr)

  /** `won`, `winner` and `taken` are history: the pointer and the thread that won
      each position by compare-exchange, and the pointers rmv_mem has returned. */
  datatype State = State(
    size: nat,
    addIdx: nat,
    rmvIdx: nat,
    cells: seq<Cell>,
    producers: map<Tid, Producer>,
    consumer: Consumer,
    won: seq<Ptr>,
    winner: seq<Tid>,
    taken: seq<Ptr>)

  datatype Event = Begin(t: Tid, mem: Ptr) | Produce(t: Tid) | Consume

  predicate WellFormed(s: State) {
    s.size > 0 && |s.cells| == s.size
  }

  function Init(size: nat): State {
    State(size, 0, 0, seq(size, i requires 0 <= i => Cell(NULL, i)), map[], Done(NULL), [], [], [])
  }

  function ProducerAt(s: State, t: Tid): Producer {
    if t in s.producers then s.producers[t] else Returned(true)
  }

  /** One atomic action of producer `t`.  The cell at `pos & rb->mask` is the one at the
      remainder of `pos`, because sizes are powers of two (RingTheorems.MaskedSlot). */
  function ProducerStep(m: Arith, s: State, t: Tid): (r: State)
    requires WellFormed(s)
    ensures WellFormed(r)
  {
    match ProducerAt(s, t)
    case Returned(_) => s
    case LoadSeq(mem, pos) =>
      var dif := m.Diff(s.cells[Rem(pos, s.size)].num, pos);
      s.(producers := s.producers[t :=
        if dif == 0 then Cas(mem, pos)
        else if dif < 0 then Returned(false)
        else Reload(mem, pos)])
    case Reload(mem, pos) =>
      s.(producers := s.producers[t := LoadSeq(mem, s.addIdx)])
    case Cas(mem, pos) =>
      if s.addIdx == pos then
        s.(addIdx := m.Add(pos, 1),
           producers := s.producers[t := WriteMem(mem, pos)],
           won := s.won + [mem],
           winner := s.winner + [t])
      else
        s.(producers := s.producers[t := LoadSeq(mem, s.addIdx)])
    case WriteMem(mem, pos) =>
      var i := Rem(pos, s.size);
      s.(cells := s.cells[i := s.cells[i].(mem := mem)],
         producers := s.producers[t := StoreSeq(mem, pos)])
    case StoreSeq(mem, pos) =>
      var i := Rem(pos, s.size);
      s.(cells := s.cells[i := s.cells[i].(num := m.Add(pos, 1))],
         producers := s.producers[t := Returned(true)])
  }

  /** One atomic action of the consumer; from `Done` it starts the next call. */
  function ConsumerStep(m: Arith, s: State): (r: State)
    requires WellFormed(s)
    ensures WellFormed(r)
  {
    var i := Rem(s.rmvIdx, s.size);
    match s.consumer
    case Done(_) =>
      var dif := m.Diff(s.cells[i].num, m.Add(s.rmvIdx, 1));
      s.(consumer := if dif < 0 then Done(NULL) else ReadMem)
    case ReadMem =>
      s.(consumer := FreeCell(s.cells[i].mem))
    case FreeCell(mem) =>
      s.(cells := s.cells[i := s.cells[i].(num := m.Add(s.rmvIdx, s.size))],
         consumer := Advance(mem))
    case Advance(mem) =>
      s.(rmvIdx := m.Add(s.rmvIdx, 1), consumer := Done(mem), taken := s.taken + [mem])
  }

  /** An event that is not possible in `s` leaves it alone; add_mem(AC_NULL) returns
      AC_TRUE without touching the ring. */
  function Step(m: Arith, s: State, e: Event): (r: State)
    requires WellFormed(s)
    ensures WellFormed(r)
  {
    match e
    case Begin(t, mem) =>
      if ProducerAt(s, t).Returned? then
        s.(producers := s.producers[t := if mem == NULL then Returned(true) else LoadSeq(mem, s.addIdx)])
      else s
    case Produce(t) => ProducerStep(m, s, t)
    case Consume => ConsumerStep(m, s)
  }

  function Run(m: Arith, s: State, es: seq<Event>): (r: State)
    requires WellFormed(s)
    ensures WellFormed(r)
    decreases |es|
  {
    if es == [] then s else Run(m, Step(m, s, es[0]), es[1..])
  }

  // ---------------------------------------------------------------- invariant

  /** The first position whose cell has not been handed back to producers. */
  function Freed(s: State): nat {
    if s.consumer.Advance? then s.rmvIdx + 1 else s.rmvIdx
  }

  predicate Published(s: State, p: nat)
    requires WellFormed(s)
  {
    p < s.addIdx && s.cells[Rem(p, s.size)].num == p + 1
  }

  /** The cell that position `p` of the current window maps to. */
  predicate CellOk(s: State, p: nat)
    requires WellFormed(s) && |s.won| == |s.winner| == s.addIdx
  {
    var c := s.cells[Rem(p, s.size)];
    if p < s.addIdx then
      || (c.num == p + 1 && c.mem == s.won[p])
      || (c.num == p
          && var w := ProducerAt(s, s.winner[p]);
             (w.WriteMem? || w.StoreSeq?) && w.pos == p)
    else c.num == p
  }

  predicate ProducerOk(s: State, t: Tid)
    requires WellFormed(s) && |s.won| == |s.winner| == s.addIdx
  {
    var p := ProducerAt(s, t);
    && (!p.Returned? ==> p.mem != NULL && p.pos <= s.addIdx)
    && (p.Cas? && p.pos == s.addIdx ==> s.addIdx < Freed(s) + s.size)
    && (p.WriteMem? || p.StoreSeq? ==>
          && Freed(s) <= p.pos < s.addIdx
          && s.winner[p.pos] == t
          && s.won[p.pos] == p.mem
          && s.cells[Rem(p.pos, s.size)].num == p.pos)
    && (p.StoreSeq? ==> s.cells[Rem(p.pos, s.size)].mem == p.mem)
  }

  predicate ConsumerOk(s: State)
    requires WellFormed(s) && |s.won| == |s.winner| == s.addIdx
  {
    && s.rmvIdx <= s.addIdx
    && s.taken == s.won[..s.rmvIdx]
    && (s.consumer.ReadMem? || s.consumer.FreeCell? ==> Published(s, s.rmvIdx))
    && (s.consumer.FreeCell? || s.consumer.Advance? ==>
          s.rmvIdx < s.addIdx && s.consumer.mem == s.won[s.rmvIdx])
  }

  ghost predicate Inv(s: State) {
    && WellFormed(s)
    && IsPow2(s.size)
    && |s.won| == |s.winner| == s.addIdx <= Freed(s) + s.size
    && ConsumerOk(s)
    && (forall i :: 0 <= i < |s.won| ==> s.won[i] != NULL)
    && (forall p :: Freed(s) <= p < Freed(s) + s.size ==> CellOk(s, p))
    && (forall t :: ProducerOk(s, t))
  }

  lemma InitInv(size: nat)
    requires IsPow2(size)
    ensures Inv(Init(size))
  {
    var s := Init(size);
    forall p | 0 <= p < size
      ensures CellOk(s, p)
    {
      assert Rem(p, size) == p;
    }
  }

  /** In the window, every other position maps to another cell. */
  lemma OtherSlots(s: State, p: nat)
    requires WellFormed(s)
    requires Freed(s) <= p < Freed(s) + s.size
    ensures forall q :: Freed(s) <= q < Freed(s) + s.size && q != p ==> Rem(q, s.size) != Rem(p, s.size)
  {
    forall q | Freed(s) <= q < Freed(s) + s.size && q != p
      ensures Rem(q, s.size) != Rem(p, s.size)
    {
      if Rem(q, s.size) == Rem(p, s.size) {
        RemWindow(q, p, s.size);
      }
    }
  }

  /** Every cell belongs to exactly one position of the window. */
  lemma WindowPos(s: State, p: nat) returns (q: nat)
    requires WellFormed(s)
    ensures Freed(s) <= q < Freed(s) + s.size && Rem(q, s.size) == Rem(p, s.size)
  {
    q := RepresentativeFrom(Freed(s), p, s.size);
  }

  lemma {:induction false} RepresentativeFrom(f: nat, p: nat, n: nat) returns (q: nat)
    requires n > 0
    ensures f <= q < f + n && Rem(q, n) == Rem(p, n)
    decreases if p < f then f - p else p - f
  {
    if p < f && p + n < f + n {
      if p + n < f {
        q := RepresentativeFrom(f, p + n, n);
      } else {
        q := p + n;
      }
    } else if p >= f + n {
      q := RepresentativeFrom(f, p - n, n);
    } else {
      q := p;
    }
  }

  /** A cell of a ring of size 1 cannot show both "published" and "free for the next
      round".  Larger rings are never ambiguous; a ring of size 1 is not while no
      producer loads from it when it is full. */
  predicate Unambiguous(s: State) {
    s.size >= 2 || s.addIdx < Freed(s) + s.size
  }

  /** What a producer that loads the sequence number of `pos` can see. */
  lemma LoadAnswers(s: State, pos: nat)
    requires Inv(s) && pos <= s.addIdx && Unambiguous(s)
    ensures s.cells[Rem(pos, s.size)].num == pos && pos == s.addIdx ==> s.addIdx < Freed(s) + s.size
    ensures s.cells[Rem(pos, s.size)].num < pos <==> pos == s.addIdx == Freed(s) + s.size
  {
    var q := WindowPos(s, pos);
    assert CellOk(s, q);
    var n, f := s.size, Freed(s);
    var c := s.cells[Rem(pos, n)].num;
    assert c == q || c == q + 1;
    if pos > q {
      RemApart(pos, q, n);
      assert pos == f + n;
    }
  }

  lemma RemApart(p: nat, q: nat, n: nat)
    requires n > 0 && Rem(p, n) == Rem(q, n) && p > q
    ensures p >= q + n
  {
    if p < q + n {
      RemWindow(p, q, n);
    }
  }

  lemma BeginKeepsInv(s: State, t: Tid, mem: Ptr)
    requires Inv(s)
    ensures Inv(Step(Unbounded, s, Begin(t, mem)))
  {
    if ProducerAt(s, t).Returned? {
      SameCells(s, Step(Unbounded, s, Begin(t, mem)), t);
    }
  }

  /** A step that only moves a producer not holding a position keeps the rest. */
  lemma SameCells(s: State, r: State, t: Tid)
    requires Inv(s)
    requires r == s.(producers := r.producers)
    requires forall u :: u != t ==> ProducerAt(r, u) == ProducerAt(s, u)
    requires !ProducerAt(s, t).WriteMem? && !ProducerAt(s, t).StoreSeq?
    requires ProducerOk(r, t)
    ensures Inv(r)
  {
    forall p | Freed(r) <= p < Freed(r) + r.size
      ensures CellOk(r, p)
    {
      assert CellOk(s, p);
    }
    forall u
      ensures ProducerOk(r, u)
    {
      assert ProducerOk(s, u);
    }
  }

  lemma ProduceKeepsInv(s: State, t: Tid)
    requires Inv(s) && (ProducerAt(s, t).LoadSeq? ==> Unambiguous(s))
    ensures Inv(ProducerStep(Unbounded, s, t))
  {
    var r := ProducerStep(Unbounded, s, t);
    var p := ProducerAt(s, t);
    assert ProducerOk(s, t);
    if p.LoadSeq? {
      LoadAnswers(s, p.pos);
      SameCells(s, r, t);
    } else if p.Reload? || (p.Cas? && s.addIdx != p.pos) {
      SameCells(s, r, t);
    } else if p.Cas? {
      CasKeepsInv(s, t);
    } else if p.WriteMem? {
      WriteKeepsInv(s, t);
    } else if p.StoreSeq? {
      StoreKeepsInv(s, t);
    }
  }

  lemma CasKeepsInv(s: State, t: Tid)
    requires Inv(s) && ProducerAt(s, t).Cas? && s.addIdx == ProducerAt(s, t).pos
    ensures Inv(ProducerStep(Unbounded, s, t))
  {
    var r := ProducerStep(Unbounded, s, t);
    var a := s.addIdx;
    assert ProducerOk(s, t);
    assert CellOk(s, a);
    assert r.won[..r.rmvIdx] == s.won[..s.rmvIdx];
    forall p | Freed(r) <= p < Freed(r) + r.size
      ensures CellOk(r, p)
    {
      assert CellOk(s, p);
    }
    forall u
      ensures ProducerOk(r, u)
    {
      assert ProducerOk(s, u);
    }
  }

  lemma WriteKeepsInv(s: State, t: Tid)
    requires Inv(s) && ProducerAt(s, t).WriteMem?
    ensures Inv(ProducerStep(Unbounded, s, t))
  {
    var r := ProducerStep(Unbounded, s, t);
    var pos := ProducerAt(s, t).pos;
    assert ProducerOk(s, t);
    OtherSlots(s, pos);
    forall p | Freed(r) <= p < Freed(r) + r.size
      ensures CellOk(r, p)
    {
      assert CellOk(s, p);
    }
    forall u
      ensures ProducerOk(r, u)
    {
      assert ProducerOk(s, u);
    }
  }

  lemma StoreKeepsInv(s: State, t: Tid)
    requires Inv(s) && ProducerAt(s, t).StoreSeq?
    ensures Inv(ProducerStep(Unbounded, s, t))
  {
    var r := ProducerStep(Unbounded, s, t);
    var pos := ProducerAt(s, t).pos;
    assert ProducerOk(s, t);
    OtherSlots(s, pos);
    forall p | Freed(r) <= p < Freed(r) + r.size
      ensures CellOk(r, p)
    {
      assert CellOk(s, p);
    }
    forall u
      ensures ProducerOk(r, u)
    {
      assert ProducerOk(s, u);
    }
  }

  lemma ConsumeKeepsInv(s: State)
    requires Inv(s)
    ensures Inv(ConsumerStep(Unbounded, s))
  {
    var r := ConsumerStep(Unbounded, s);
    match s.consumer
    case Done(_) =>
      assert CellOk(s, s.rmvIdx);
      ConsumerOnly(s, r);
    case ReadMem =>
      assert CellOk(s, s.rmvIdx);
      ConsumerOnly(s, r);
    case FreeCell(mem) => FreeKeepsInv(s);
    case Advance(mem) =>
      assert r.taken == r.won[..r.rmvIdx];
      ConsumerOnly(s, r);
  }

  lemma ConsumerOnly(s: State, r: State)
    requires Inv(s) && r == s.(consumer := r.consumer, rmvIdx := r.rmvIdx, taken := r.taken)
    requires Freed(r) == Freed(s) && ConsumerOk(r)
    ensures Inv(r)
  {
    forall p | Freed(r) <= p < Freed(r) + r.size
      ensures CellOk(r, p)
    {
      assert CellOk(s, p);
    }
    forall u
      ensures ProducerOk(r, u)
    {
      assert ProducerOk(s, u);
    }
  }

  lemma FreeKeepsInv(s: State)
    requires Inv(s) && s.consumer.FreeCell?
    ensures Inv(ConsumerStep(Unbounded, s))
  {
    var r := ConsumerStep(Unbounded, s);
    var f, n := s.rmvIdx, s.size;
    OtherSlots(s, f);
    assert Rem(f + n, n) == Rem(f, n);
    forall p | Freed(r) <= p < Freed(r) + r.size
      ensures CellOk(r, p)
    {
      if p < f + n {
        assert CellOk(s, p);
      }
    }
    forall u
      ensures ProducerOk(r, u)
    {
      assert ProducerOk(s, u);
    }
  }

  lemma StepKeepsInv(s: State, e: Event)
    requires Inv(s)
    requires e.Produce? && ProducerAt(s, e.t).LoadSeq? ==> Unambiguous(s)
    ensures Inv(Step(Unbounded, s, e))
  {
    match e
    case Begin(t, mem) => BeginKeepsInv(s, t, mem);
    case Produce(t) => ProduceKeepsInv(s, t);
    case Consume => ConsumeKeepsInv(s);
  }

  lemma {:induction false} RunKeepsInv(s: State, es: seq<Event>)
    requires Inv(s) && s.size >= 2
    ensures Inv(Run(Unbounded, s, es)) && Run(Unbounded, s, es).size == s.size
    decreases |es|
  {
    if es != [] {
      StepKeepsInv(s, es[0]);
      RunKeepsInv(Step(Unbounded, s, es[0]), es[1..]);
    }
  }
}
