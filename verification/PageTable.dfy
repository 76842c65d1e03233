/** The four level page tables of page_table_x86 as values: entries with their overlaid
    field views, the address translation the processor makes (Intel SDM volume 3,
    section 4.5), and what page_table_map_lin_to_phy computes for every input.
    Addresses are counted in pages of 4K; `Span(k)` pages are 4K, 2M, 1G, 512G. */
module PageTable {

  /** A table entry cut at the borders of the fields of its three views. `b7` is ps_pte or
      the small page's pat, `b12` the huge page's pat or the lowest address bit, `hi` the
      46 bits from bit 13, `key` bits 59 to 62, `rest` the bits the mapper never sets. */
  datatype Entry = Entry(p: bool, rw: bool, pwt: bool, pcd: bool, b7: bool, b12: bool, hi: nat, key: nat, rest: nat)
  {
    function PdePhyAddr(): nat { (if b12 then 1 else 0) + 2 * hi + POW47 * key }
    function HugePhyAddr(): nat { hi }
    function SmallPhyAddr(): nat { (if b12 then 1 else 0) + 2 * hi }

    function SetPdePhyAddr(x: nat): Entry {
      this.(b12 := x % 2 == 1, hi := x / 2 % POW46, key := x / POW47 % 16)
    }
    function SetHugePhyAddr(x: nat): Entry { this.(hi := x % POW46) }
    function SetSmallPhyAddr(x: nat): Entry { this.(b12 := x % 2 == 1, hi := x / 2 % POW46) }
  }

  const ZERO: Entry := Entry(false, false, false, false, false, false, 0, 0, 0)
  const POW46: nat := 0x4000_0000_0000
  const POW47: nat := 0x8000_0000_0000
  /** The number of pages a 64-bit address can name. */
  const POW52: nat := 0x10_0000_0000_0000
  /** The number of pages of the 48-bit linear address space. */
  const PAGES: nat := 0x10_0000_0000
  /** The number of pages of the pool of tables. */
  const POOL: nat := 256

  /** The number of 4K pages that one entry of a table of level k + 1 covers. */
  function Span(k: nat): (r: nat)
    requires k <= 3
    ensures r > 0
  {
    if k == 0 then 1 else if k == 1 then 512 else if k == 2 then 0x4_0000 else 0x800_0000
  }

  /** The part of page number `n` above level `k`; it names the table of level `k`. */
  function Prefix(k: nat, n: nat): nat {
    if k == 0 then n else Prefix(k - 1, n) / 512
  }

  /** The index into the table of level `k`, pml1 to pml4. */
  function Index(k: nat, n: nat): (i: nat)
    requires k > 0
    ensures i < 512
  {
    Prefix(k - 1, n) % 512
  }

  predicate Aligned(k: nat, n: nat)
    requires k <= 3
  {
    n % Span(k) == 0
  }

  datatype Option<T> = None | Some(value: T)

  /** `origin` is the page number of phylin_4k_pages, where linear and physical addresses
      agree; pages from `top` on are free. */
  datatype Machine = Machine(origin: nat, mem: seq<Entry>, top: nat)
  {
    predicate Valid() {
      |mem| == 512 * POOL && 0 < origin && origin + POOL <= PAGES
    }
    function At(page: nat, i: nat): Entry
      requires Valid() && page < POOL && i < 512
    {
      mem[512 * page + i]
    }
    function Put(page: nat, i: nat, e: Entry): (r: Machine)
      requires Valid() && page < POOL && i < 512
      ensures r.Valid() && r.origin == origin && r.top == top && r.At(page, i) == e
      ensures forall q: nat, j: nat :: q < POOL && j < 512 && (q, j) != (page, i) ==> r.At(q, j) == At(q, j)
    {
      this.(mem := mem[512 * page + i := e])
    }
    function Address(page: nat): nat {
      4096 * (origin + page)
    }
    function Page(n: nat): Option<nat> {
      if origin <= n < origin + POOL then Some(n - origin) else None
    }
  }

  /** What the processor makes of a page: where it is, how large its leaf, its bits. */
  datatype Translation = Translation(frame: nat, level: nat, rw: bool, pat: bool, pcd: bool, pwt: bool)

  /** A present entry of a table of level `k` that maps page `n`, or nothing when it maps
      no page (a huge page that is not on a multiple of its size is a reserved form). */
  function Leaf(e: Entry, k: nat, n: nat): Option<Translation>
    requires 1 <= k <= 4
  {
    if !e.p then None
    else if k == 1 then Some(Translation(e.SmallPhyAddr(), 1, e.rw, e.b7, e.pcd, e.pwt))
    else if !e.b7 || k == 4 || !Aligned(k - 1, 2 * e.HugePhyAddr()) then None
    else Some(Translation(2 * e.HugePhyAddr() + n % Span(k - 1), k, e.rw, e.b12, e.pcd, e.pwt))
  }

  /** The walk from a table of level `k`. */
  function Walk(s: Machine, page: nat, k: nat, n: nat): Option<Translation>
    requires s.Valid() && page < POOL && 1 <= k <= 4
    decreases k
  {
    var e := s.At(page, Index(k, n));
    if !e.p || k == 1 || e.b7 then Leaf(e, k, n)
    else if s.Page(e.PdePhyAddr()).None? then None
    else Walk(s, s.Page(e.PdePhyAddr()).value, k - 1, n)
  }

  // ------------------------------------------------------------- what the code does

  /** AC_NULL for a misaligned argument, the reset of the machine, or a stray access to a
      page outside the pool taken for a table. */
  datatype Outcome<T> = Ok(s: Machine, value: T) | BadAlign | Reset | Stray

  /** calloc_phylin_4k_page while there is a page; alloc_pde resets when there is none. */
  function AllocPde(s: Machine): (r: Machine)
    requires s.Valid() && s.top < POOL
    ensures r.Valid() && r.origin == s.origin && r.top == s.top + 1
    ensures forall i: nat :: i < 512 ==> r.At(s.top, i) == ZERO
    ensures forall q: nat, i: nat :: q < POOL && q != s.top && i < 512 ==> r.At(q, i) == s.At(q, i)
  {
    s.(mem := s.mem[..512 * s.top] + seq(512, i => ZERO) + s.mem[512 * s.top + 512..], top := s.top + 1)
  }

  function Pde(e: Entry, n: nat): Entry {
    e.SetPdePhyAddr(n).(p := true, rw := true)
  }

  /** get_or_alloc_pde, and the table its entry leads to. */
  function Enter(s: Machine, page: nat, i: nat): (r: Outcome<nat>)
    requires s.Valid() && page < POOL && i < 512
    ensures r.Ok? ==> r.value < POOL && r.s.Valid() && r.s.origin == s.origin
  {
    if s.At(page, i).p then
      var next := s.Page(s.At(page, i).PdePhyAddr());
      if next.Some? then Ok(s, next.value) else Stray
    else
      if s.top >= POOL then Reset else
      var (r, child) := (AllocPde(s), s.top);
      var e := Pde(r.At(page, i), r.origin + child);
      var next := r.Page(e.PdePhyAddr());
      if next.Some? then Ok(r.Put(page, i, e), next.value) else Stray
  }

  /** From a table of level `k` down to the one of level `stop` on the path of `n`. */
  function Descend(s: Machine, page: nat, k: nat, stop: nat, n: nat): (r: Outcome<nat>)
    requires s.Valid() && page < POOL && 1 <= stop <= k <= 4
    ensures r.Ok? ==> r.value < POOL && r.s.Valid() && r.s.origin == s.origin
    decreases k
  {
    if k == stop then Ok(s, page) else
    match Enter(s, page, Index(k, n))
    case Ok(r, child) => Descend(r, child, k - 1, stop, n)
    case other => other
  }

  /** The bits of get_caching_bits; there are none for an unknown or too large mode. */
  function CachingBits(caching: nat): Option<(bool, bool, bool)> {
    if caching == 0 || caching > 8 then None else
    var idx := (caching - 1) % 8;
    Some((idx / 4 % 2 == 1, idx / 2 % 2 == 1, idx % 2 == 1))
  }

  /** A leaf of level `k`; the address is the linear one in all three places. */
  function LeafEntry(e: Entry, k: nat, laddr: nat, bits: (bool, bool, bool)): Entry {
    if k == 1 then e.SetSmallPhyAddr(laddr).(p := true, rw := true, b7 := bits.0, pcd := bits.1, pwt := bits.2)
    else e.SetHugePhyAddr(laddr / 2).(p := true, rw := true, b7 := true, b12 := bits.0, pcd := bits.1, pwt := bits.2)
  }

  /** One turn of the loop with a leaf of level `k`. */
  function MapOne(s: Machine, root: nat, k: nat, laddr: nat, caching: nat): (r: Outcome<()>)
    requires s.Valid() && root < POOL && 1 <= k <= 3
    ensures r.Ok? ==> r.s.Valid() && r.s.origin == s.origin
  {
    match Descend(s, root, 4, k, laddr)
    case Ok(r, page) =>
      var i := Index(k, laddr);
      if r.At(page, i).p || CachingBits(caching).None? then Reset
      else Ok(r.Put(page, i, LeafEntry(r.At(page, i), k, laddr, CachingBits(caching).value)), ())
    case BadAlign => BadAlign
    case Reset => Reset
    case Stray => Stray
  }

  /** The largest leaf both alignments and the remaining size allow. */
  function LevelAt(laddr: nat, paddr: nat, size: nat): (k: nat)
    ensures 1 <= k <= 3 && (size > 0 ==> Span(k - 1) <= size)
  {
    if Aligned(2, paddr) && Aligned(2, laddr) && size >= Span(2) then 3
    else if Aligned(1, paddr) && Aligned(1, laddr) && size >= Span(1) then 2
    else 1
  }

  /** How many leaves of 1G, 2M and 4K were written. */
  datatype Counts = Counts(g: nat, m: nat, k: nat)
  {
    function Add(level: nat): Counts {
      if level == 3 then this.(g := g + 1) else if level == 2 then this.(m := m + 1) else this.(k := k + 1)
    }
  }

  /** The next address after a leaf of level `k`; addresses wrap at 64 bits. */
  function Advance(addr: nat, k: nat): nat
    requires 1 <= k <= 4
  {
    var next := addr + Span(k - 1);
    if next >= POW52 then next - POW52 else next
  }

  /** The loop. */
  function MapLoop(s: Machine, root: nat, laddr: nat, paddr: nat, size: nat, caching: nat, c: Counts)
    : (r: Outcome<Counts>)
    requires s.Valid() && root < POOL
    ensures r.Ok? ==> r.s.Valid() && r.s.origin == s.origin
    decreases size
  {
    if size == 0 then Ok(s, c) else
    var k := LevelAt(laddr, paddr, size);
    match MapOne(s, root, k, laddr, caching)
    case Ok(r, _) =>
      MapLoop(r, root, Advance(laddr, k), Advance(paddr, k), size - Span(k - 1), caching, c.Add(k))
    case BadAlign => BadAlign
    case Reset => Reset
    case Stray => Stray
  }

  /** A new root with its recursive entry 511. */
  function NewRoot(s: Machine): (r: Outcome<nat>)
    requires s.Valid()
    ensures r.Ok? ==> r.value < POOL && r.s.Valid() && r.s.origin == s.origin
  {
    if s.top >= POOL then Reset else
    var (r, root) := (AllocPde(s), s.top);
    Ok(r.Put(root, 511, r.At(root, 511).(p := true, rw := true).SetPdePhyAddr(r.origin + root)), root)
  }

  /** The root table for the address `base`, 0 for AC_NULL. */
  function Root(s: Machine, base: nat): (r: Outcome<nat>)
    requires s.Valid()
    ensures r.Ok? ==> r.value < POOL && r.s.Valid() && r.s.origin == s.origin
  {
    if base == 0 then NewRoot(s)
    else if base % 4096 == 0 && s.Page(base / 4096).Some? then Ok(s, s.Page(base / 4096).value) else Stray
  }

  /** The answer of the call: the address of the root table. */
  function Answer(base: nat, q: Outcome<Counts>): Outcome<(nat, Counts)> {
    match q
    case Ok(t, counts) => Ok(t, (base, counts))
    case BadAlign => BadAlign
    case Reset => Reset
    case Stray => Stray
  }

  /** The call for `size` pages. */
  function MapPages(s: Machine, base: nat, l: nat, p: nat, size: nat, caching: nat): (r: Outcome<(nat, Counts)>)
    requires s.Valid()
  {
    var start := Root(s, base);
    if start.Ok? then
      Answer(s.Address(start.value), MapLoop(start.s, start.value, l, p, size, caching, Counts(0, 0, 0)))
    else if start.Reset? then Reset else Stray
  }

  /** page_table_map_lin_to_phy. */
  function Map(s: Machine, base: nat, linear: nat, physical: nat, length: nat, caching: nat)
    : (r: Outcome<(nat, Counts)>)
    requires s.Valid()
  {
    if length % 4096 != 0 || physical % 4096 != 0 || linear % 4096 != 0 then BadAlign
    else MapPages(s, base, linear / 4096, physical / 4096, length / 4096, caching)
  }
}
