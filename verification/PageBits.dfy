/** What the numbers of a call say to the processor: the caching mode becomes the mode of every
    page mapped, and an entry written is the 64-bit word that the processor's manual asks for
    (Intel SDM volume 3, tables 4-15 to 4-20). */
module PageBits {
  import opened PageTable
  import opened PageTree
  import opened PageRange
  import opened PageTheorems

  function Bit(b: bool): nat {
    if b then 1 else 0
  }

  /** The number the three caching bits of a leaf make, which selects one of the eight memory
      types that the processor knows. */
  function TypeOf(t: Translation): nat {
    4 * Bit(t.pat) + 2 * Bit(t.pcd) + Bit(t.pwt)
  }

  /** The table of get_caching_bits counts in binary. */
  lemma BitsCount(caching: nat)
    ensures CachingBits(caching).Some? <==> 1 <= caching <= 8
    ensures 1 <= caching <= 8 ==>
      var bits := CachingBits(caching).value; 4 * Bit(bits.0) + 2 * Bit(bits.1) + Bit(bits.2) == caching - 1
  {
    if 1 <= caching <= 8 {
      var idx := caching - 1;
      assert idx == 4 * (idx / 4) + 2 * (idx / 2 % 2) + idx % 2;
    }
  }

  /** The byte `addr` is found at itself through a writable leaf of the caching mode. */
  predicate FoundAs(found: Option<(nat, Translation)>, addr: nat, caching: nat) {
    && found.Some? && found.value.0 == addr && found.value.1.rw && TypeOf(found.value.1) == caching - 1
  }

  /** After a call that succeeds, every byte of the range has the caching mode asked for, and
      the answer is the root that was given. */
  lemma CachingAsAsked(s: Machine, T: Tables, base: nat, linear: nat, physical: nat, length: nat, caching: nat, l: nat,
      p: nat, size: nat)
    requires CanMap(s, T, l, size, caching) && base == s.Address(T[ROOT])
    requires linear == 4096 * l && physical == 4096 * p && length == 4096 * size
    ensures var r := Map(s, base, linear, physical, length, caching);
      r.Ok? ==>
        && r.s.Valid() && r.value.0 == base
        && forall addr: nat {:trigger Physical(r.s, T[ROOT], addr)} ::
             linear <= addr < linear + length ==> FoundAs(Physical(r.s, T[ROOT], addr), addr, caching)
  {
    var r, U := MapIsCorrect(s, T, base, linear, physical, length, caching, l, p, size);
    BitsCount(caching);
    if r.Ok? {
      MappedAsAsked(s, r.s, T[ROOT], l, size, MaxLevel(l, p), caching);
    }
  }

  lemma MappedAsAsked(s: Machine, r: Machine, root: nat, l: nat, size: nat, max: nat, caching: nat)
    requires s.Valid() && r.Valid() && root < POOL && 1 <= caching <= 8 && l + size <= LIMIT
    requires CachingBits(caching).Some? && MapsRange(s, r, root, l, size, max, CachingBits(caching).value)
    ensures forall addr: nat {:trigger Physical(r, root, addr)} ::
      4096 * l <= addr < 4096 * (l + size) ==> FoundAs(Physical(r, root, addr), addr, caching)
  {
    BitsCount(caching);
    forall addr: nat | 4096 * l <= addr < 4096 * (l + size)
      ensures FoundAs(Physical(r, root, addr), addr, caching)
    {
      assert Physical(r, root, addr)
        == Some((addr, Identity(addr / 4096, LeafLevel(max, l, l + size, addr / 4096), CachingBits(caching).value)));
    }
  }

  /** The same on a new root, whose address is the answer. */
  lemma CachingOnNewRoot(s: Machine, linear: nat, physical: nat, length: nat, caching: nat, l: nat, p: nat, size: nat)
    requires s.Valid() && s.top < POOL && l + size <= LIMIT && 1 <= caching <= 8
    requires linear == 4096 * l && physical == 4096 * p && length == 4096 * size
    ensures var r := Map(s, 0, linear, physical, length, caching);
      r.Ok? ==>
        && r.s.Valid() && r.value.0 == 4096 * (s.origin + s.top)
        && forall addr: nat {:trigger Physical(r.s, s.top, addr)} ::
             linear <= addr < linear + length ==> FoundAs(Physical(r.s, s.top, addr), addr, caching)
  {
    NewRootIsEmpty(s);
    var t := NewRoot(s).s;
    var r, U := MapOnNewRoot(s, linear, physical, length, caching, l, p, size, t, s.top);
    BitsCount(caching);
    if r.Ok? {
      MappedAsAsked(t, r.s, s.top, l, size, MaxLevel(l, p), caching);
    }
  }

  /** PAGE_CACHING_UNKNOWN and modes above 8 map nothing: a call of positive length never
      succeeds, whatever its other arguments. */
  lemma UnknownModeNeverMaps(s: Machine, base: nat, linear: nat, physical: nat, length: nat, caching: nat)
    requires s.Valid() && length > 0 && (caching == 0 || caching > 8)
    ensures !Map(s, base, linear, physical, length, caching).Ok?
  {
    BitsCount(caching);
    var start := Root(s, base);
    if length % 4096 == 0 && start.Ok? {
      assert length / 4096 > 0;
      NoLeaf(start.s, start.value, linear / 4096, physical / 4096, length / 4096, caching);
    }
  }

  lemma NoLeaf(s: Machine, root: nat, l: nat, p: nat, size: nat, caching: nat)
    requires s.Valid() && root < POOL && size > 0 && CachingBits(caching).None?
    ensures !MapLoop(s, root, l, p, size, caching, Counts(0, 0, 0)).Ok?
  {
    assert !MapOne(s, root, LevelAt(l, p, size), l, caching).Ok?;
  }

  // ------------------------------------------------------------------ the words

  /** The 64-bit word of an entry, but for the bits the mapper never sets. */
  function Word(e: Entry): nat {
    Bit(e.p) + 2 * Bit(e.rw) + 8 * Bit(e.pwt) + 16 * Bit(e.pcd) + 128 * Bit(e.b7) + 0x1000 * Bit(e.b12)
    + 0x2000 * e.hi + 0x800_0000_0000_0000 * e.key
  }

  /** An entry that leads to the table at page `n`: present, writable, its address. */
  lemma TableWord(n: nat)
    requires n < 16 * POW47
    ensures Word(Pde(ZERO, n)) == 4096 * n + 3
  {
    PdeAddr(ZERO, n);
    assert Pde(ZERO, n).PdePhyAddr() == n;
  }

  /** A leaf for page `n`: present, writable, the three caching bits where the size of the page
      puts them, bit 7 for a large page, and the address. */
  lemma LeafWord(k: nat, n: nat, bits: (bool, bool, bool))
    requires 1 <= k <= 3 && n < POW47 && (k > 1 ==> n % 2 == 0)
    ensures Word(LeafEntry(ZERO, k, n, bits)) == 4096 * n + 3 + 8 * Bit(bits.2) + 16 * Bit(bits.1)
      + (if k == 1 then 128 * Bit(bits.0) else 128 + 4096 * Bit(bits.0))
  {
    assert n == 2 * (n / 2) + n % 2;
    assert n / 2 < POW46;
  }
}
