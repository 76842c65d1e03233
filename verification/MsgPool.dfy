/** AcMsgPool: aligned allocation of the messages, filling the ring with them, and
    get/return calls by one thread at a time.  PoolMachine has the concurrent story. */
module MsgPool {
  import opened IntMath
  import opened RingMachine
  import opened RingTheorems
  import opened RingBuff
  import opened PoolMachine

  /** The product, by repeated addition; TimesIs says it is a * b. */
  function Times(a: nat, b: nat): nat {
    if a == 0 then 0 else Times(a - 1, b) + b
  }

  lemma {:induction false} TimesIs(a: nat, b: nat)
    ensures Times(a, b) == a * b
  {
    if a > 0 {
      TimesIs(a - 1, b);
    }
  }

  const SIZEOF_MSG: nat := 40
  const SIZEOF_NEXT_PTR: nat := 16
  const SIZEOF_U64: nat := 8
  const CACHE_LINE: nat := 64

  /** The result of ac_calloc_align; the addresses are 0 unless the status is OK. */
  datatype Block = Block(status: Status, raw: Ptr, aligned: Ptr, elemSize: nat)

  /** `x & ~(alignment - 1)`. */
  function AlignDown(x: nat, alignment: nat): nat
    requires alignment > 0
  {
    x - And(x, alignment - 1)
  }

  /** `(size + alignment - 1) & mask`, with the sum in 32 bits. */
  function ElemSize(size: nat, alignment: nat): nat
    requires alignment > 0
  {
    AlignDown(Low(size + alignment - 1), alignment)
  }

  /** `(elem_size * count) + alignment - 1`, computed in 32 bits before it is widened. */
  function AllocationSize(count: nat, size: nat, alignment: nat): nat
    requires alignment > 0
  {
    Low(Times(count, ElemSize(size, alignment)) + (alignment - 1))
  }

  /** ac_calloc_align; `given` is what ac_calloc answered, 0 when out of memory. */
  function CallocAlign(count: nat, size: nat, alignment: nat, given: Ptr): Block {
    if count == 0 || size == 0 || OneBits(alignment) != 1 then Block(BAD_PARAM, 0, 0, 0)
    else if given == NULL then Block(OUT_OF_MEMORY, 0, 0, 0)
    else Block(OK, given, AlignDown(given + alignment - 1, alignment), ElemSize(size, alignment))
  }

  /** The elements are aligned, inside the allocation, and `size` bytes long without
      overlapping. */
  ghost predicate WellLaid(b: Block, count: nat, size: nat, alignment: nat)
    requires alignment > 0
  {
    && (forall i :: 0 <= i < count ==> ElementOk(b, i, size, alignment, AllocationSize(count, size, alignment)))
    && (count > 1 ==> size <= b.elemSize)
  }

  /** Neither 32-bit sum in ac_calloc_align wraps. */
  predicate NoWrap(count: nat, size: nat, alignment: nat)
    requires alignment > 0
  {
    && size + alignment - 1 < WORD
    && count * ElemSize(size, alignment) + (alignment - 1) < WORD
  }

  /** The same with the product as a sum. */
  predicate SumsFit(count: nat, size: nat, alignment: nat)
    requires alignment > 0
  {
    && size + alignment - 1 < WORD
    && Times(count, ElemSize(size, alignment)) + (alignment - 1) < WORD
  }

  /** ac_calloc_align lays its elements out as documented exactly when its 32-bit sums
      do not wrap; when one does, some element overlaps or lies outside the allocation. */
  lemma WellLaidIffNoWrap(count: nat, size: nat, alignment: nat, given: Ptr)
    requires 0 < count < WORD && 0 < size < WORD && IsPow2(alignment) && alignment < WORD && given != NULL
    ensures CallocAlign(count, size, alignment, given).status == OK
    ensures WellLaid(CallocAlign(count, size, alignment, given), count, size, alignment)
            <==> NoWrap(count, size, alignment)
  {
    OneBitIsPow2(alignment);
    AlignUpIs(given, alignment);
    TimesIs(count, ElemSize(size, alignment));
    var b := CallocAlign(count, size, alignment, given);
    assert b == Block(OK, given, AlignDown(given + alignment - 1, alignment), ElemSize(size, alignment));
    if NoWrap(count, size, alignment) {
      LaidOut(b, count, size, alignment);
    } else {
      NotLaidOut(b, count, size, alignment);
    }
  }

  /** Two messages of four thousand million bytes less one: the rounded size wraps to zero. */
  lemma TooLargeIsNotLaidOut(given: Ptr)
    requires given != NULL
    ensures ElemSize(0xFFFF_FFFF, SIZEOF_U64) == 0
    ensures CallocAlign(2, 0xFFFF_FFFF, SIZEOF_U64, given).status == OK
    ensures !WellLaid(CallocAlign(2, 0xFFFF_FFFF, SIZEOF_U64, given), 2, 0xFFFF_FFFF, SIZEOF_U64)
  {
    AlignmentsArePowers();
    WellLaidIffNoWrap(2, 0xFFFF_FFFF, SIZEOF_U64, given);
    RemIsMod(0xFFFF_FFFF + SIZEOF_U64 - 1, WORD);
    assert And(6, 7) == 6;
  }

  lemma LaidOut(b: Block, count: nat, size: nat, alignment: nat)
    requires IsPow2(alignment) && SumsFit(count, size, alignment)
    requires b.elemSize == ElemSize(size, alignment)
    requires b.raw <= b.aligned < b.raw + alignment && Rem(b.aligned, alignment) == 0
    ensures WellLaid(b, count, size, alignment)
  {
    AlignUpIs(size, alignment);
    LowIs(size + alignment - 1);
    LowIs(Times(count, b.elemSize) + (alignment - 1));
    var total := AllocationSize(count, size, alignment);
    forall i | 0 <= i < count
      ensures ElementOk(b, i, size, alignment, total)
    {
      ElementFits(b, i, count, size, alignment, total);
    }
  }

  lemma NotLaidOut(b: Block, count: nat, size: nat, alignment: nat)
    requires 0 < count && IsPow2(alignment) && alignment < WORD && !SumsFit(count, size, alignment)
    requires b.elemSize == ElemSize(size, alignment) && b.raw <= b.aligned
    ensures !WellLaid(b, count, size, alignment)
  {
    Pow2Bound(alignment);
    if size + alignment - 1 >= WORD {
      SizeWraps(b, count, size, alignment);
    } else {
      TotalWraps(b, count, size, alignment);
    }
  }

  lemma SizeWraps(b: Block, count: nat, size: nat, alignment: nat)
    requires 0 < count && 0 < alignment <= HALF && WORD <= size + alignment - 1
    requires b.elemSize == ElemSize(size, alignment) && b.raw <= b.aligned
    ensures b.elemSize < size
    ensures !WellLaid(b, count, size, alignment)
  {
    LowIs(size + alignment - 1);
    var total := AllocationSize(count, size, alignment);
    LowIs(Times(count, b.elemSize) + (alignment - 1));
    if count == 1 {
      assert Times(1, b.elemSize) == b.elemSize;
      assert !ElementOk(b, 0, size, alignment, total);
    }
  }

  lemma TotalWraps(b: Block, count: nat, size: nat, alignment: nat)
    requires 0 < count && IsPow2(alignment) && alignment <= HALF
    requires size + alignment - 1 < WORD <= Times(count, b.elemSize) + (alignment - 1)
    requires b.elemSize == ElemSize(size, alignment) && b.raw <= b.aligned
    ensures !WellLaid(b, count, size, alignment)
  {
    ElemSizeIs(size, alignment);
    LowIs(Times(count, b.elemSize) + (alignment - 1));
    LastOutside(b, count, size, alignment, AllocationSize(count, size, alignment));
  }

  lemma ElemSizeIs(size: nat, alignment: nat)
    requires IsPow2(alignment) && size + alignment - 1 < WORD
    ensures size <= ElemSize(size, alignment) < size + alignment
  {
    LowIs(size + alignment - 1);
    AlignUpIs(size, alignment);
  }

  lemma LastOutside(b: Block, count: nat, size: nat, alignment: nat, total: nat)
    requires 0 < count && 0 < alignment <= HALF && b.raw <= b.aligned && b.elemSize < size + alignment
    requires total <= Times(count, b.elemSize) + (alignment - 1) - WORD
    ensures !ElementOk(b, count - 1, size, alignment, total)
  {
    assert Times(count, b.elemSize) == Times(count - 1, b.elemSize) + b.elemSize;
  }

  /** What ac_calloc_align answers for a power of two as alignment. */
  lemma CallocAnswers(count: nat, size: nat, alignment: nat, given: Ptr)
    requires IsPow2(alignment)
    ensures var b := CallocAlign(count, size, alignment, given);
            && (b.status == OK <==> count > 0 && size > 0 && given != NULL)
            && (b.status == OK ==> b.aligned >= b.raw == given)
            && b.status != ERR
  {
    OneBitIsPow2(alignment);
    AlignUpIs(given, alignment);
  }

  predicate ElementOk(b: Block, i: nat, size: nat, alignment: nat, allocation: nat)
    requires alignment > 0
  {
    var e := b.aligned + Times(i, b.elemSize);
    Rem(e, alignment) == 0 && b.raw <= e && e + size <= b.raw + allocation
  }

  lemma ElementFits(b: Block, i: nat, count: nat, size: nat, alignment: nat, total: nat)
    requires alignment > 0 && i < count && total == Times(count, b.elemSize) + (alignment - 1)
    requires b.raw <= b.aligned < b.raw + alignment && Rem(b.aligned, alignment) == 0
    requires size <= b.elemSize && Rem(b.elemSize, alignment) == 0
    ensures ElementOk(b, i, size, alignment, total)
  {
    MulLess(i, count, b.elemSize);
    MultipleOf(b.aligned, i, b.elemSize, alignment);
  }

  lemma LowIs(x: nat)
    ensures if x < WORD then Low(x) == x else Low(x) <= x - WORD
  {
    RemIsMod(x, WORD);
  }

  lemma Pow2Bound(a: nat)
    requires IsPow2(a) && a < WORD
    ensures a <= HALF
  {
    var k := Exponent(a);
    Pow2Values();
    assert Pow2(32) == 2 * Pow2(31);
    Pow2Monotone(k, 32);
    Pow2Add(31 - k, k);
    MulAtLeast(Pow2(31 - k), a);
  }

  lemma MulAtLeast(c: nat, a: nat)
    requires c >= 1
    ensures c * a >= a
  {
  }

  lemma {:induction false} MulLess(i: nat, n: nat, c: nat)
    requires i < n
    ensures Times(i, c) + c <= Times(n, c)
  {
    if i < n - 1 {
      MulLess(i, n - 1, c);
    }
  }

  /** Rounding up to a power of two: a multiple, and less than one alignment away. */
  lemma AlignUpIs(x: nat, alignment: nat)
    requires IsPow2(alignment)
    ensures var r := AlignDown(x + alignment - 1, alignment);
            x <= r < x + alignment && Rem(r, alignment) == 0
  {
    var k := Exponent(alignment);
    MaskIsMod(x + alignment - 1, k, alignment);
    RoundDown(x + alignment - 1, alignment, And(x + alignment - 1, alignment - 1));
  }

  lemma RoundDown(y: nat, n: nat, r: nat)
    requires n > 0 && r == y % n
    ensures r < n && r <= y && Rem(y - r, n) == 0
  {
    ModUnique(y - r, n, y / n, 0);
    RemIsMod(y - r, n);
  }

  lemma {:induction false} MultipleOf(a: nat, i: nat, c: nat, n: nat)
    requires n > 0 && Rem(a, n) == 0 && Rem(c, n) == 0
    ensures Rem(a + Times(i, c), n) == 0
  {
    if i > 0 {
      MultipleOf(a, i - 1, c, n);
      RemAdd(a + Times(i - 1, c), c, n);
    }
  }

  lemma {:induction false} RemAdd(a: nat, c: nat, n: nat)
    requires n > 0 && Rem(c, n) == 0
    ensures Rem(a + c, n) == Rem(a, n)
    decreases c
  {
    if c > 0 {
      RemAdd(a, c - n, n);
    }
  }

  /** The addresses of the first `n` messages. */
  function Addresses(first: Ptr, elemSize: nat, n: nat): (r: seq<Ptr>)
    ensures |r| == n
  {
    if n == 0 then [] else Addresses(first, elemSize, n - 1) + [first + Times(n - 1, elemSize)]
  }

  lemma {:induction false} AddressAt(first: Ptr, elemSize: nat, n: nat, i: nat)
    requires i < n
    ensures Addresses(first, elemSize, n)[i] == first + Times(i, elemSize)
  {
    if i < n - 1 {
      AddressAt(first, elemSize, n - 1, i);
    }
  }

  /** The message fields that the pool sets; `pooled` says that mp is this pool, not AC_NULL. */
  datatype Msg = Msg(pooled: bool, nextPtr: Ptr, lenExtra: nat)

  /** The first `n` messages are the pool's, and message i has AcNextPtr i. */
  ghost predicate HasNodes(memory: map<Ptr, Msg>, msgs: seq<Ptr>, nodes: seq<Ptr>, n: nat) {
    n <= |msgs| && n <= |nodes| && forall i :: 0 <= i < n ==> HasNode(memory, msgs, nodes, i)
  }

  predicate HasNode(memory: map<Ptr, Msg>, msgs: seq<Ptr>, nodes: seq<Ptr>, i: nat)
    requires i < |msgs| && i < |nodes|
  {
    msgs[i] in memory && memory[msgs[i]].pooled && memory[msgs[i]].nextPtr == nodes[i]
  }

  ghost predicate Distinct(addresses: seq<Ptr>) {
    forall i, j :: 0 <= i < j < |addresses| ==> addresses[i] != addresses[j]
  }

  lemma AddressesDistinct(first: Ptr, elemSize: nat, n: nat)
    requires elemSize > 0
    ensures Distinct(Addresses(first, elemSize, n))
  {
    forall i, j | 0 <= i < j < n
      ensures Addresses(first, elemSize, n)[i] != Addresses(first, elemSize, n)[j]
    {
      AddressAt(first, elemSize, n, i);
      AddressAt(first, elemSize, n, j);
      MulLess(i, j, elemSize);
    }
  }

  /** The elements of both allocations are longer than nothing. */
  lemma ElementsPositive(size: nat)
    requires 0 < size && size + SIZEOF_U64 - 1 < WORD
    ensures ElemSize(size, SIZEOF_U64) > 0 && ElemSize(SIZEOF_NEXT_PTR, CACHE_LINE) > 0
  {
    AlignmentsArePowers();
    ElemSizeIs(size, SIZEOF_U64);
    ElemSizeIs(SIZEOF_NEXT_PTR, CACHE_LINE);
  }

  /** An address of a row of elements: a multiple of the alignment, with room for `size` bytes
      before the next. */
  lemma ElementsApart(given: Ptr, size: nat, alignment: nat, n: nat, i: nat, j: nat)
    requires IsPow2(alignment) && size + alignment - 1 < WORD && i <= j < n
    ensures var a := Addresses(AlignDown(given + alignment - 1, alignment), ElemSize(size, alignment), n);
      given <= a[i] && Rem(a[i], alignment) == 0 && (i < j ==> a[i] + size <= a[j])
  {
    AlignUpIs(given, alignment);
    ElemSizeIs(size, alignment);
    ElemSizeAligned(size, alignment);
    hide Addresses, AlignDown, ElemSize, Times, IsPow2, Rem;
    RowApart(AlignDown(given + alignment - 1, alignment), ElemSize(size, alignment), alignment, n, i, j);
  }

  lemma RowApart(first: nat, elem: nat, alignment: nat, n: nat, i: nat, j: nat)
    requires i <= j < n && alignment > 0 && Rem(first, alignment) == 0 && Rem(elem, alignment) == 0
    ensures var a := Addresses(first, elem, n);
      first <= a[i] && Rem(a[i], alignment) == 0 && (i < j ==> a[i] + elem <= a[j])
  {
    AddressAt(first, elem, n, i);
    AddressAt(first, elem, n, j);
    if i < j {
      MulLess(i, j, elem);
    }
    MultipleOf(first, i, elem, alignment);
  }

  lemma ElemSizeAligned(size: nat, alignment: nat)
    requires IsPow2(alignment) && size + alignment - 1 < WORD
    ensures Rem(ElemSize(size, alignment), alignment) == 0
  {
    LowIs(size + alignment - 1);
    AlignUpIs(size, alignment);
  }

  /** So two messages do not share a byte, with the 40 bytes of an AcMsg and its extra data, and
      begin at multiples of 8; and two AcNextPtrs are on different lines of 64 bytes. */
  lemma MessagesApart(block: Ptr, nextBlock: Ptr, extra: nat, n: nat, i: nat, j: nat)
    requires i < j < n && 40 + extra + 7 < WORD
    ensures var a := Addresses(AlignDown(block + SIZEOF_U64 - 1, SIZEOF_U64),
                               ElemSize(Low(SIZEOF_MSG + extra), SIZEOF_U64), n);
      block <= a[i] && a[i] + 40 + extra <= a[j] && a[i] % 8 == 0 && a[j] % 8 == 0
    ensures var b := Addresses(AlignDown(nextBlock + CACHE_LINE - 1, CACHE_LINE),
                               ElemSize(SIZEOF_NEXT_PTR, CACHE_LINE), n);
      nextBlock <= b[i] && b[i] + 16 <= b[j] && b[i] % 64 == 0 && b[j] % 64 == 0
  {
    hide Addresses, AlignDown, ElemSize;
    AlignmentsArePowers();
    LowIs(SIZEOF_MSG + extra);
    ElementsApart(block, SIZEOF_MSG + extra, SIZEOF_U64, n, i, j);
    ElementsApart(block, SIZEOF_MSG + extra, SIZEOF_U64, n, j, j);
    ElementsApart(nextBlock, SIZEOF_NEXT_PTR, CACHE_LINE, n, i, j);
    ElementsApart(nextBlock, SIZEOF_NEXT_PTR, CACHE_LINE, n, j, j);
    var a := Addresses(AlignDown(block + SIZEOF_U64 - 1, SIZEOF_U64), ElemSize(SIZEOF_MSG + extra, SIZEOF_U64), n);
    var b := Addresses(AlignDown(nextBlock + CACHE_LINE - 1, CACHE_LINE), ElemSize(SIZEOF_NEXT_PTR, CACHE_LINE), n);
    RemIsMod(a[i], 8);
    RemIsMod(a[j], 8);
    RemIsMod(b[i], 64);
    RemIsMod(b[j], 64);
  }

  class AcMsgPool {
    const rb: AcMpscRingBuff
    var len_extra: nat
    var msgs_raw: Ptr
    var next_ptrs_raw: Ptr
    var msgs: Ptr
    var next_ptrs: Ptr
    var memory: map<Ptr, Msg>   // the messages, by address

    constructor (ring: AcMpscRingBuff)
      ensures rb == ring
    {
      rb := ring;
      memory := map[];
    }

    /** AcMsgPool_init; `block` and `nextBlock` are what ac_calloc answers. */
    method Init(msg_count: nat, extra: nat, block: Ptr, nextBlock: Ptr) returns (status: Status)
      requires msg_count < HALF && extra < WORD
      modifies this, rb
      ensures status != ERR
      ensures status == OK <==>
                IsPow2(msg_count) && Low(SIZEOF_MSG + extra) != 0 && block != NULL && nextBlock != NULL
      ensures status == OK ==>
                && rb.Valid() && rb.size == msg_count && fresh(rb.ring_buffer) && len_extra == extra
                && rb.Contents() == Addresses(msgs, ElemSize(Low(SIZEOF_MSG + extra), SIZEOF_U64), msg_count)
                && AllInRing(rb.model)
      ensures status == OK ==>
                && msgs_raw == block && msgs == AlignDown(block + SIZEOF_U64 - 1, SIZEOF_U64)
                && next_ptrs_raw == nextBlock && next_ptrs == AlignDown(nextBlock + CACHE_LINE - 1, CACHE_LINE)
      ensures status == OK && Low(SIZEOF_MSG + extra) + SIZEOF_U64 - 1 < WORD ==>
                var nodes := Addresses(next_ptrs, ElemSize(SIZEOF_NEXT_PTR, CACHE_LINE), msg_count);
                Distinct(rb.Contents()) && Distinct(nodes) && HasNodes(memory, rb.Contents(), nodes, msg_count)
    {
      hide ElemSize, AlignDown, Addresses, HasNodes, Distinct, Inv, OneBits;
      msgs_raw := NULL;
      next_ptrs_raw := NULL;
      msgs := NULL;
      len_extra := extra;
      AlignmentsArePowers();
      if IsPow2(msg_count) {
        PowersArePositive(msg_count);
      }
      CallocAnswers(msg_count, Low(SIZEOF_MSG + extra), SIZEOF_U64, block);
      CallocAnswers(msg_count, SIZEOF_NEXT_PTR, CACHE_LINE, nextBlock);
      var b := CallocAlign(msg_count, Low(SIZEOF_MSG + extra), SIZEOF_U64, block);
      if b.status != OK {
        return b.status;
      }
      msgs_raw, msgs := b.raw, b.aligned;
      var n := CallocAlign(msg_count, SIZEOF_NEXT_PTR, CACHE_LINE, nextBlock);
      if n.status != OK {
        return n.status;
      }
      next_ptrs_raw, next_ptrs := n.raw, n.aligned;
      status := rb.Init(msg_count);
      if status != OK {
        return;
      }
      if Low(SIZEOF_MSG + extra) + SIZEOF_U64 - 1 < WORD {
        ElementsPositive(Low(SIZEOF_MSG + extra));
        AddressesDistinct(msgs, b.elemSize, msg_count);
        AddressesDistinct(next_ptrs, n.elemSize, msg_count);
      }
      status := Fill(msg_count, b, n);
    }

    /** The loop of AcMsgPool_init that adds the messages; the add never fails. */
    method Fill(msg_count: nat, b: Block, n: Block) returns (status: Status)
      requires rb.Valid() && rb.size == msg_count && b.aligned != NULL
      requires rb.Contents() == [] && AllInRing(rb.model)
      modifies this`memory, rb, rb.ring_buffer
      ensures status == OK && rb.Valid() && rb.size == msg_count && rb.ring_buffer == old(rb.ring_buffer)
      ensures AllInRing(rb.model)
      ensures rb.Contents() == Addresses(b.aligned, b.elemSize, msg_count)
      ensures Distinct(rb.Contents()) ==>
                HasNodes(memory, rb.Contents(), Addresses(n.aligned, n.elemSize, msg_count), msg_count)
    {
      ghost var all, nodes := Addresses(b.aligned, b.elemSize, msg_count), Addresses(n.aligned, n.elemSize, msg_count);
      var base: Ptr, base_np: Ptr := b.aligned, n.aligned;
      for i := 0 to msg_count
        invariant rb.Valid() && rb.size == msg_count && rb.ring_buffer == old(rb.ring_buffer)
        invariant AllInRing(rb.model)
        invariant base == b.aligned + Times(i, b.elemSize)
        invariant base_np == n.aligned + Times(i, n.elemSize)
        invariant rb.Contents() == Addresses(b.aligned, b.elemSize, i)
        invariant Distinct(all) ==> HasNodes(memory, all, nodes, i)
      {
        AddressAt(b.aligned, b.elemSize, msg_count, i);
        AddressAt(n.aligned, n.elemSize, msg_count, i);
        ghost var before := memory;
        assert Distinct(all) ==> forall k :: 0 <= k < i ==> HasNode(before, all, nodes, k) && all[k] != base;
        var added := AddMessage(base, base_np);
        if !added {
          return ERR;
        }
        base := base + b.elemSize;
        base_np := base_np + n.elemSize;
      }
      return OK;
    }

    /** One round of that loop. */
    method AddMessage(msg: Ptr, nextPtr: Ptr) returns (added: bool)
      requires rb.Valid() && AllInRing(rb.model) && |rb.Contents()| < rb.size && msg != NULL
      modifies this`memory, rb, rb.ring_buffer
      ensures added && rb.Valid() && rb.size == old(rb.size) && rb.ring_buffer == old(rb.ring_buffer)
      ensures AllInRing(rb.model) && rb.Contents() == old(rb.Contents()) + [msg]
      ensures memory == old(memory)[msg := Msg(true, nextPtr, 0)]
    {
      memory := memory[msg := Msg(true, nextPtr, 0)];
      added := rb.AddMem(0, msg);
      assert rb.model.producers == old(rb.model.producers)[0 := Returned(true)];
    }

    /** AcMsgPool_get_msg: the oldest published message, its len_extra set. */
    method GetMsg() returns (msg: Ptr)
      requires rb.Valid() && rb.model.consumer.Done?
      requires forall m :: m in rb.Contents() ==> m in memory
      modifies this`memory, rb, rb.ring_buffer
      ensures rb.Valid() && rb.ring_buffer == old(rb.ring_buffer)
      ensures if Published(old(rb.model), old(rb.model.rmvIdx)) then
                && old(rb.Contents()) == [msg] + rb.Contents() && msg != NULL
                && memory == old(memory)[msg := old(memory)[msg].(lenExtra := len_extra)]
              else msg == NULL && memory == old(memory) && rb.model == old(rb.model)
    {
      msg := rb.RmvMem();
      if msg != NULL {
        memory := memory[msg := memory[msg].(lenExtra := len_extra)];
      }
    }

    /** AcMsgPool_ret_msg by a client that has the message: AC_NULL and messages without a
        pool are ignored; the add, whose answer is ignored, always succeeds. */
    method RetMsg(ghost t: Tid, msg: Ptr, ghost place: map<Ptr, Place>)
      requires rb.Valid() && ProducerAt(rb.model, t).Returned? && (msg != NULL ==> msg in memory)
      requires msg != NULL && memory[msg].pooled ==> PoolInv(Pool(rb.model, place)) && IsOut(Pool(rb.model, place), msg)
      modifies rb, rb.ring_buffer
      ensures rb.Valid() && rb.ring_buffer == old(rb.ring_buffer)
      ensures if msg == NULL || !memory[msg].pooled then rb.model == old(rb.model)
              else
                && rb.Contents() == old(rb.Contents()) + [msg]
                && PoolInv(Pool(rb.model, place[msg := InRing(old(rb.model.addIdx))]))
    {
      if msg == NULL || !memory[msg].pooled {
        return;
      }
      RetKeepsPool(rb.model, place, t, msg);
      var ok := rb.AddMem(t, msg);
      assert ok;
    }
  }

  /** What an uninterrupted ret_msg does to the places of the messages; there is room. */
  lemma RetKeepsPool(s: State, place: map<Ptr, Place>, t: Tid, msg: Ptr)
    requires PoolInv(Pool(s, place)) && IsOut(Pool(s, place), msg) && ProducerAt(s, t).Returned?
    ensures Unambiguous(s) && s.addIdx < Freed(s) + s.size
    ensures PoolInv(Pool(Added(s, t, msg), place[msg := InRing(s.addIdx)]))
  {
    var p, r := Pool(s, place), Pool(Added(s, t, msg), place[msg := InRing(s.addIdx)]);
    RoomForOutsider(p, msg);
    AddedKeepsInv(s, t, msg, 0);
    LoadAnswers(s, s.addIdx);
    assert r.place.Keys == p.place.Keys;
    forall m | m in r.place
      ensures PlaceOk(r, m)
    {
      assert PlaceOk(p, m);
    }
    forall u
      ensures HolderOk(r, u)
    {
      assert HolderOk(p, u);
    }
    forall i | Freed(r.ring) <= i < r.ring.addIdx
      ensures PositionOk(r, i)
    {
      if i < s.addIdx {
        assert PositionOk(p, i);
      }
    }
  }

  /** And an uninterrupted get_msg that finds a message. */
  lemma GetKeepsPool(s: State, place: map<Ptr, Place>)
    requires PoolInv(Pool(s, place)) && s.consumer.Done? && Published(s, s.rmvIdx)
    ensures s.rmvIdx < |s.won| && PoolInv(Pool(Removed(s), place[s.won[s.rmvIdx] := Out]))
  {
    var m := s.won[s.rmvIdx];
    var p, r := Pool(s, place), Pool(Removed(s), place[m := Out]);
    RemovedKeepsInv(s);
    assert PositionOk(p, s.rmvIdx);
    assert r.place.Keys == p.place.Keys;
    forall u | u in r.place
      ensures PlaceOk(r, u)
    {
      assert PlaceOk(p, u);
    }
    forall t
      ensures HolderOk(r, t)
    {
      assert HolderOk(p, t);
    }
    forall i | Freed(r.ring) <= i < r.ring.addIdx
      ensures PositionOk(r, i)
    {
      assert PositionOk(p, i);
    }
  }

  lemma PowersArePositive(v: nat)
    requires IsPow2(v)
    ensures v > 0
  {
    var k := Exponent(v);
  }

  lemma AlignmentsArePowers()
    ensures IsPow2(SIZEOF_U64) && IsPow2(CACHE_LINE)
  {
    assert Pow2(3) == SIZEOF_U64 && Pow2(6) == CACHE_LINE;
    PowerOfTwo(SIZEOF_U64, 3);
    PowerOfTwo(CACHE_LINE, 6);
  }

  /** Nothing was removed yet and no call is in progress. */
  ghost predicate AllInRing(s: State) {
    s.rmvIdx == 0 && s.consumer.Done? && forall t :: t in s.producers ==> s.producers[t].Returned?
  }

  /** What Init leaves in the ring is a pool with every message in its place, so the
      theorems of PoolMachine apply from there, unless the element size wrapped. */
  lemma FilledPool(s: State, first: Ptr, size: nat)
    requires Inv(s) && AllInRing(s) && 0 < size && size + SIZEOF_U64 - 1 < WORD
    requires s.won[s.rmvIdx..] == Addresses(first, ElemSize(size, SIZEOF_U64), s.size)
    ensures exists place :: PoolInv(Pool(s, place))
  {
    AlignmentsArePowers();
    AlignUpIs(size, SIZEOF_U64);
    LowIs(size + SIZEOF_U64 - 1);
    var elemSize := ElemSize(size, SIZEOF_U64);
    assert s.won[s.rmvIdx..] == s.won;
    forall i, j | s.rmvIdx <= i < j < s.addIdx
      ensures s.won[i] != s.won[j]
    {
      AddressAt(first, elemSize, s.size, i);
      AddressAt(first, elemSize, s.size, j);
      MulLess(i, j, elemSize);
    }
    FullPoolInv(s);
  }
}
