/** The ring buffer in the form the code has it: 32-bit index fields and an array of
    cells changed in place.  A call here is not overtaken while it runs, but every other
    thread may be stalled anywhere inside its own call; the call is a run of the machine
    of RingMachine, which says what calls do when they overtake each other. */
module RingBuff {
  import opened IntMath
  import opened RingMachine
  import opened RingTheorems

  datatype Status = OK | BAD_PARAM | OUT_OF_MEMORY | ERR

  class AcMpscRingBuff {
    var add_idx: nat
    var rmv_idx: nat
    var size: nat
    var mask: nat
    var ring_buffer: array?<Cell>
    ghost var model: State

    /** The fields and the cells are those of the machine. */
    ghost predicate Shows()
      reads this, ring_buffer
    {
      && ring_buffer != null
      && model.size < HALF
      && add_idx == Low(model.addIdx)
      && rmv_idx == Low(model.rmvIdx)
      && size == model.size && mask == size - 1
      && ring_buffer[..] == WrapCells(model.cells)
    }

    ghost predicate Valid()
      reads this, ring_buffer
    {
      Shows() && Inv(model)
    }

    /** The pointers added and not yet removed, oldest first. */
    ghost function Contents(): seq<Ptr>
      reads this, ring_buffer
      requires Valid()
    {
      model.won[model.rmvIdx..]
    }

    /** AcMpscRingBuff_init: sizes that are not a power of two are refused. */
    method Init(count: nat) returns (status: Status)
      requires count < WORD
      modifies this
      ensures status == (if IsPow2(count) then OK else BAD_PARAM)
      ensures status == OK ==>
                && ring_buffer != null && fresh(ring_buffer) && ring_buffer[..] == model.cells
                && size == count && mask == count - 1 && add_idx == rmv_idx == 0 && model == RingMachine.Init(count)
                && (count < HALF ==> Valid() && Contents() == [])
    {
      add_idx := 0;
      rmv_idx := 0;
      var ones := CountOneBits(count);
      OneBitIsPow2(count);
      if ones != 1 {
        return BAD_PARAM;
      }
      size := count;
      mask := count - 1;
      var buffer := new Cell[count];
      ring_buffer := buffer;
      for i := 0 to count
        invariant ring_buffer == buffer && size == count && mask == count - 1 && add_idx == rmv_idx == 0
        invariant forall j :: 0 <= j < i ==> buffer[j] == Cell(NULL, j)
      {
        buffer[i] := Cell(NULL, i);
      }
      model := RingMachine.Init(count);
      InitInv(count);
      if count < HALF {
        InitWraps(count);
      }
      assert buffer[..] == model.cells;
      return OK;
    }

    /** The loop of add_mem that reserves a position by compare-exchange, from a snapshot
        of add_idx that may be stale: it is that of position `at`. */
    method Reserve(snapshot: nat, ghost at: nat) returns (ok: bool, pos: nat)
      requires Valid()
      requires at <= model.addIdx && model.addIdx - at + model.size < HALF && snapshot == Low(at)
      modifies this`add_idx
      ensures ok <==> !Full(model)
      ensures ok ==> pos == old(add_idx) && add_idx == U32.Add(pos, 1)
      ensures !ok ==> add_idx == old(add_idx)
    {
      ghost var s := model;
      pos := snapshot;
      ghost var k: nat := at;
      ghost var reloads := 1;
      while true
        invariant 0 <= reloads <= 1 && (reloads == 0 ==> k == s.addIdx)
        invariant k <= s.addIdx && s.addIdx - k + s.size < HALF && pos == Low(k)
        invariant add_idx == Low(s.addIdx)
        decreases reloads
      {
        LoadDecides(s, k);
        EqualWords(s.addIdx, k);
        var dif := U32.Diff(ring_buffer[And(pos, mask)].num, pos);
        if dif == 0 {
          if add_idx == pos {
            add_idx := U32.Add(pos, 1);
            return true, pos;
          } else {
            pos := add_idx;
            k, reloads := s.addIdx, 0;
          }
        } else if dif < 0 {
          return false, pos;
        } else {
          pos := add_idx;
          k, reloads := s.addIdx, 0;
        }
      }
    }

    /** AcMpscRingBuff_add_mem by thread `t`: refused only when every cell is taken.  The ring
        stays well formed exactly when this is no ring of one cell with a message in it,
        which would be overwritten. */
    method AddMem(ghost t: Tid, mem: Ptr) returns (ok: bool)
      requires Valid() && ProducerAt(model, t).Returned?
      modifies this, ring_buffer
      ensures Shows() && ring_buffer == old(ring_buffer) && size == old(size)
      ensures Valid() <==> mem == NULL || !Overwrites(old(model))
      ensures ok <==> mem == NULL || !Full(old(model))
      ensures Valid() ==> Contents() == if ok && mem != NULL then old(Contents()) + [mem] else old(Contents())
      ensures model == Added(old(model), t, mem)
      ensures model.rmvIdx == old(model.rmvIdx) && model.consumer == old(model.consumer)
      ensures model.producers == old(model.producers)[t := Returned(ok)]
    {
      ghost var s := model;
      AddedKeepsInvIff(s, t, mem);
      if mem == NULL {
        model := Added(s, t, mem);
        return true;
      }
      AddAloneAnswers(s, t, mem);
      var pos;
      ok, pos := Reserve(add_idx, s.addIdx);
      model := Added(s, t, mem);
      if ok {
        ghost var before := ring_buffer[..];
        var i := And(pos, mask);
        ring_buffer[i] := ring_buffer[i].(mem := mem);
        ring_buffer[i] := ring_buffer[i].(num := U32.Add(pos, 1));
        assert ring_buffer[..] == before[i := Cell(mem, U32.Add(pos, 1))];
      }
    }

    /** AcMpscRingBuff_rmv_mem: AC_NULL exactly when the oldest position is not published. */
    method RmvMem() returns (mem: Ptr)
      requires Valid() && model.consumer.Done?
      modifies this, ring_buffer
      ensures Valid() && ring_buffer == old(ring_buffer) && size == old(size)
      ensures if Published(old(model), old(model.rmvIdx)) then
                && old(Contents()) != [] && mem == old(Contents())[0] != NULL
                && Contents() == old(Contents())[1..] && model == Removed(old(model))
              else mem == NULL && model == old(model)
    {
      ghost var s := model;
      RmvDecides(s);
      var pos := rmv_idx;
      var i := And(pos, mask);
      var dif := U32.Diff(ring_buffer[i].num, U32.Add(pos, 1));
      if dif < 0 {
        return NULL;
      }
      RmvAloneAnswers(s);
      mem := ring_buffer[i].mem;
      model := Removed(s);
      ghost var before := ring_buffer[..];
      ring_buffer[i] := ring_buffer[i].(num := U32.Add(pos, size));
      rmv_idx := U32.Add(rmv_idx, 1);
      assert ring_buffer[..] == before[i := before[i].(num := U32.Add(pos, size))];
    }
  }

  /** The only cell of the ring has a published message. */
  predicate Overwrites(s: State)
    requires WellFormed(s)
  {
    s.size == 1 && s.addIdx == Freed(s) + 1 && Published(s, s.addIdx - 1)
  }

  lemma AddedKeepsInvIff(s: State, t: Tid, mem: Ptr)
    requires Inv(s) && ProducerAt(s, t).Returned?
    ensures Inv(Added(s, t, mem)) <==> mem == NULL || !Overwrites(s)
  {
    if mem == NULL || Unambiguous(s) {
      AddedKeepsInv(s, t, mem, 0);
    } else {
      OneCellAnswers(s, s.addIdx);
      if !Overwrites(s) {
        BeginKeepsInv(s, t, mem);
        SameCells(s, Added(s, t, mem), t);
      }
    }
  }

  /** What a load at position `k` tells: FALSE is answered exactly for a full ring. */
  lemma LoadIsFull(s: State, k: nat)
    requires Inv(s) && k <= s.addIdx
    ensures s.cells[Rem(k, s.size)].num < k <==> k == s.addIdx && Full(s)
  {
    if Unambiguous(s) {
      LoadAnswers(s, k);
    } else {
      OneCellAnswers(s, k);
    }
  }

  lemma AddedKeepsInv(s: State, t: Tid, mem: Ptr, extra: nat)
    requires Inv(s) && (mem != NULL ==> Unambiguous(s)) && ProducerAt(s, t).Returned?
    ensures Inv(Added(s, t, mem))
  {
    AtAddIdx(s);
    AddAloneRuns(s, t, mem, extra);
    var s1 := Step(Unbounded, s, Begin(t, mem));
    StepKeepsInv(s, Begin(t, mem));
    RunFirst(s, Begin(t, mem), Produces(t, extra + 4));
    if mem == NULL {
      ReservedKeepsInv(s1, t, extra + 4);
    } else {
      LoadedKeepsInv(s1, t, extra + 3);
    }
  }

  lemma LoadedKeepsInv(s: State, t: Tid, k: nat)
    requires Inv(s) && Unambiguous(s) && ProducerAt(s, t).LoadSeq? && ProducerAt(s, t).pos == s.addIdx
    ensures Inv(Run(Unbounded, s, Produces(t, k + 1)))
  {
    RunFirst(s, Produce(t), Produces(t, k));
    ProduceKeepsInv(s, t);
    AtAddIdx(s);
    ReservedKeepsInv(ProducerStep(Unbounded, s, t), t, k);
  }

  /** What add_mem decides from the 32-bit cell that its snapshot `k` leads to. */
  lemma LoadDecides(s: State, k: nat)
    requires Inv(s) && k <= s.addIdx && s.addIdx - k + s.size < HALF
    ensures And(Low(k), s.size - 1) == Rem(k, s.size)
    ensures var dif := U32.Diff(WrapCells(s.cells)[Rem(k, s.size)].num, Low(k));
            && (dif < 0 <==> k == s.addIdx && Full(s))
            && (dif > 0 ==> k < s.addIdx)
  {
    LoadIsFull(s, k);
    CellsWrap(s, k, s.cells[0]);
    LoadIsClose(s, k);
    DiffOfWrapped(s.cells[Rem(k, s.size)].num, k);
    AtAddIdx(s);
  }

  /** What an uninterrupted add does to the 32-bit cells. */
  lemma AddAloneAnswers(s: State, t: Tid, mem: Ptr)
    requires Inv(s) && s.size < HALF && mem != NULL
    ensures var i, r := Rem(s.addIdx, s.size), Added(s, t, mem);
            if Full(s) then
              r == s.(producers := r.producers)
            else
              && r == s.(addIdx := s.addIdx + 1, cells := r.cells, producers := r.producers,
                         won := s.won + [mem], winner := r.winner)
              && WrapCells(r.cells) == WrapCells(s.cells)[i := Cell(mem, U32.Add(Low(s.addIdx), 1))]
              && Low(r.addIdx) == U32.Add(Low(s.addIdx), 1)
              && And(Low(s.addIdx), s.size - 1) == i
              && r.won[r.rmvIdx..] == s.won[s.rmvIdx..] + [mem]
  {
    LoadIsFull(s, s.addIdx);
    AtAddIdx(s);
    AddedCells(s, t, mem);
  }

  lemma AddedCells(s: State, t: Tid, mem: Ptr)
    requires WellFormed(s) && IsPow2(s.size) && s.size < HALF && mem != NULL && s.rmvIdx <= |s.won|
    ensures var i, r := Rem(s.addIdx, s.size), Added(s, t, mem);
            && And(Low(s.addIdx), s.size - 1) == i
            && (s.cells[i].num >= s.addIdx ==>
                  && WrapCells(r.cells) == WrapCells(s.cells)[i := Cell(mem, U32.Add(Low(s.addIdx), 1))]
                  && Low(r.addIdx) == U32.Add(Low(s.addIdx), 1)
                  && r.won[r.rmvIdx..] == s.won[s.rmvIdx..] + [mem])
  {
    hide Low, IsPow2;
    CellsWrap(s, s.addIdx, Cell(mem, s.addIdx + 1));
    AddOfWrapped(s.addIdx, 1);
  }

  lemma AtAddIdx(s: State)
    requires Inv(s)
    ensures s.cells[Rem(s.addIdx, s.size)].num <= s.addIdx
  {
    var q := WindowPos(s, s.addIdx);
    assert CellOk(s, q);
    if q > s.addIdx {
      RemApart(q, s.addIdx, s.size);
    }
  }

  /** What an uninterrupted remove answers when there is something to remove. */
  lemma RmvAloneAnswers(s: State)
    requires Inv(s) && s.size < HALF && s.consumer.Done? && Published(s, s.rmvIdx)
    ensures var i, r, c := Rem(s.rmvIdx, s.size), Removed(s), WrapCells(s.cells);
            && Inv(r)
            && c[i].mem == s.won[s.rmvIdx] != NULL
            && WrapCells(r.cells) == c[i := c[i].(num := U32.Add(Low(s.rmvIdx), s.size))]
            && Low(r.rmvIdx) == U32.Add(Low(s.rmvIdx), 1)
            && r.won[r.rmvIdx..] == s.won[s.rmvIdx..][1..]
  {
    assert CellOk(s, s.rmvIdx);
    RemovedKeepsInv(s);
    RemovedCells(s);
    DropNext(s.won, s.rmvIdx);
  }

  lemma DropNext(q: seq<Ptr>, k: nat)
    requires k < |q|
    ensures q[k + 1..] == q[k..][1..]
  {
  }

  lemma RemovedKeepsInv(s: State)
    requires Inv(s) && s.consumer.Done? && Published(s, s.rmvIdx)
    ensures Inv(Removed(s))
  {
    RmvAloneRuns(s);
    ConsumesKeepInv(s, RmvAlone());
  }

  lemma RemovedCells(s: State)
    requires WellFormed(s) && IsPow2(s.size) && s.size < HALF && s.rmvIdx < |s.won|
    ensures var i, r, c := Rem(s.rmvIdx, s.size), Removed(s), WrapCells(s.cells);
            && WrapCells(r.cells) == c[i := c[i].(num := U32.Add(Low(s.rmvIdx), s.size))]
            && Low(r.rmvIdx) == U32.Add(Low(s.rmvIdx), 1)
  {
    CellsWrap(s, s.rmvIdx, s.cells[Rem(s.rmvIdx, s.size)].(num := s.rmvIdx + s.size));
    AddOfWrapped(s.rmvIdx, s.size);
    AddOfWrapped(s.rmvIdx, 1);
  }

  /** What rmv_mem decides from the 32-bit cell at rmv_idx. */
  lemma RmvDecides(s: State)
    requires Inv(s) && s.size < HALF && s.consumer.Done?
    ensures And(Low(s.rmvIdx), s.size - 1) == Rem(s.rmvIdx, s.size)
    ensures U32.Diff(WrapCells(s.cells)[Rem(s.rmvIdx, s.size)].num, U32.Add(Low(s.rmvIdx), 1)) < 0
            <==> !Published(s, s.rmvIdx)
  {
    assert CellOk(s, s.rmvIdx);
    MaskedSlot(s.rmvIdx, s.size);
    DiffOfWrapped(s.cells[Rem(s.rmvIdx, s.size)].num, s.rmvIdx + 1);
    AddOfWrapped(s.rmvIdx, 1);
  }
}
