/** page_table_map_lin_to_phy and its helpers on the pool of 4K pages in memory.  Each
    method is proved to do what PageTable says, for every input. */
module PageMapper {
  import opened PageTable
  import opened IntMath

  const ONE_GIG: nat := 0x4000_0000
  const TWO_MEG: nat := 0x20_0000
  const FOUR_K: nat := 0x1000

  /** How a call ends: with the root's address, with AC_NULL, with the reset of the
      machine, or by taking a page outside the pool for a table. */
  datatype Ending = Mapped(base: nat, counts: Counts) | Null | Rebooted | Strayed

  datatype Link = To(page: nat) | NoPage | Outside

  class PagePool {
    const origin: nat
    const phylin_4k_pages: array<Entry>
    var top: nat

    ghost function State(): Machine
      reads this, phylin_4k_pages
    {
      Machine(origin, phylin_4k_pages[..], top)
    }

    ghost predicate Valid()
      reads this, phylin_4k_pages
    {
      State().Valid()
    }

    /** init_phylin_4k_pages. */
    constructor (origin: nat)
      requires 0 < origin && origin + POOL <= PAGES
      ensures Valid() && this.origin == origin && top == 0 && fresh(phylin_4k_pages)
    {
      this.origin := origin;
      phylin_4k_pages := new Entry[512 * POOL](i => ZERO);
      top := 0;
    }

    /** calloc_phylin_4k_page while the stack is not empty: ac_memset clears the page. */
    method CallocPage() returns (page: nat)
      requires Valid() && top < POOL
      modifies this, phylin_4k_pages
      ensures page == old(top) && Valid() && State() == AllocPde(old(State()))
    {
      page := top;
      top := top + 1;
      var i := 0;
      while i < 512
        invariant 0 <= i <= 512 && top == page + 1
        invariant forall k :: 512 * page <= k < 512 * page + i ==> phylin_4k_pages[k] == ZERO
        invariant forall k :: 0 <= k < phylin_4k_pages.Length && !(512 * page <= k < 512 * page + i) ==>
                    phylin_4k_pages[k] == old(phylin_4k_pages[k])
      {
        phylin_4k_pages[512 * page + i] := ZERO;
        i := i + 1;
      }
      ghost var was := old(State());
      assert phylin_4k_pages[..] == AllocPde(was).mem;
    }

    /** get_or_alloc_pde, and the table that the entry's phy_addr names. */
    method GetOrAllocPde(page: nat, i: nat) returns (r: Link)
      requires Valid() && page < POOL && i < 512
      modifies this, phylin_4k_pages
      ensures Valid()
      ensures match Enter(old(State()), page, i)
              case Ok(s, child) => r == To(child) && State() == s
              case Reset => r == NoPage
              case Stray => r == Outside
              case BadAlign => false
    {
      var k := 512 * page + i;
      if !phylin_4k_pages[k].p {
        if top >= POOL {
          return NoPage;
        }
        var child := CallocPage();
        phylin_4k_pages[k] := phylin_4k_pages[k].SetPdePhyAddr(origin + child);
        phylin_4k_pages[k] := phylin_4k_pages[k].(p := true);
        phylin_4k_pages[k] := phylin_4k_pages[k].(rw := true);
        ghost var s := AllocPde(old(State()));
        assert State() == s.Put(page, i, Pde(s.At(page, i), s.origin + child));
      }
      var n := phylin_4k_pages[k].PdePhyAddr();
      r := if origin <= n < origin + POOL then To(n - origin) else Outside;
    }
  
    /** One turn's descent to the table of level `stop` on the path of page `n`, as many
        calls of get_or_alloc_pde as there are levels above it. */
    method Descend(root: nat, stop: nat, n: nat) returns (r: Link)
      requires Valid() && root < POOL && 1 <= stop <= 3
      modifies this, phylin_4k_pages
      ensures Valid()
      ensures match PageTable.Descend(old(State()), root, 4, stop, n)
              case Ok(s, page) => r == To(page) && State() == s
              case Reset => r == NoPage
              case Stray => r == Outside
              case BadAlign => false
    {
      r := GetOrAllocPde(root, Index(4, n));
      if r.To? && stop <= 2 {
        r := GetOrAllocPde(r.page, Index(3, n));
        if r.To? && stop == 1 {
          r := GetOrAllocPde(r.page, Index(2, n));
        }
      }
    }
  
    /** The writes into a huge leaf, field by field. */
    method WriteHuge(page: nat, i: nat, level: nat, laddr: nat, bits: (bool, bool, bool))
      requires Valid() && page < POOL && i < 512 && 2 <= level <= 3
      modifies phylin_4k_pages
      ensures Valid()
      ensures State() == old(State()).Put(page, i, LeafEntry(old(State()).At(page, i), level, laddr / 4096, bits))
    {
      var k := 512 * page + i;
      phylin_4k_pages[k] := phylin_4k_pages[k].SetHugePhyAddr(laddr / 0x2000);
      phylin_4k_pages[k] := phylin_4k_pages[k].(p := true);
      phylin_4k_pages[k] := phylin_4k_pages[k].(rw := true);
      phylin_4k_pages[k] := phylin_4k_pages[k].(b7 := true);
      phylin_4k_pages[k] := phylin_4k_pages[k].(b12 := bits.0);
      phylin_4k_pages[k] := phylin_4k_pages[k].(pcd := bits.1);
      phylin_4k_pages[k] := phylin_4k_pages[k].(pwt := bits.2);
    }

    /** The writes into a small leaf, field by field. */
    method WriteSmall(page: nat, i: nat, laddr: nat, bits: (bool, bool, bool))
      requires Valid() && page < POOL && i < 512
      modifies phylin_4k_pages
      ensures Valid()
      ensures State() == old(State()).Put(page, i, LeafEntry(old(State()).At(page, i), 1, laddr / 4096, bits))
    {
      var k := 512 * page + i;
      phylin_4k_pages[k] := phylin_4k_pages[k].SetSmallPhyAddr(laddr / 0x1000);
      phylin_4k_pages[k] := phylin_4k_pages[k].(p := true);
      phylin_4k_pages[k] := phylin_4k_pages[k].(rw := true);
      phylin_4k_pages[k] := phylin_4k_pages[k].(b7 := bits.0);
      phylin_4k_pages[k] := phylin_4k_pages[k].(pcd := bits.1);
      phylin_4k_pages[k] := phylin_4k_pages[k].(pwt := bits.2);
    }

    /** One leaf of level `k`: the descent, the check that nothing is there, the bits and
        the writes. */
    method MapLeaf(root: nat, k: nat, laddr: nat, caching: nat, ghost l: nat) returns (r: Link)
      requires Valid() && root < POOL && 1 <= k <= 3 && laddr == 4096 * l
      modifies this, phylin_4k_pages
      ensures Valid()
      ensures match MapOne(old(State()), root, k, l, caching)
              case Ok(s, _) => r.To? && State() == s
              case Reset => r == NoPage
              case Stray => r == Outside
              case BadAlign => false
    {
      assert laddr / 4096 == l;
      r := Descend(root, k, laddr / 4096);
      if r.To? {
        var page, i := r.page, Index(k, laddr / 4096);
        if phylin_4k_pages[512 * page + i].p || CachingBits(caching).None? {
          return NoPage;
        }
        var bits := CachingBits(caching).value;
        if k == 1 {
          WriteSmall(page, i, laddr, bits);
        } else {
          WriteHuge(page, i, k, laddr, bits);
        }
      }
    }
  
    /** The loop over 1G, 2M and 4K leaves; `l`, `p` and `n` are its page numbers. */
    method MapLeaves(root: nat, linear: nat, physical: nat, length: nat, caching: nat, ghost l0: nat, ghost p0: nat,
        ghost n0: nat)
      returns (r: Link, counts: Counts)
      requires Valid() && root < POOL && linear < POW64 && physical < POW64
      requires linear == 4096 * l0 && physical == 4096 * p0 && length == 4096 * n0
      modifies this, phylin_4k_pages
      ensures Valid() && Answers(r, State(), counts, MapLoop(old(State()), root, l0, p0, n0, caching, Counts(0, 0, 0)))
    {
      hide MapOne, LevelAt, Advance, Counts.Add;
      var laddr: nat, paddr: nat, size: nat := linear, physical, length;
      counts := Counts(0, 0, 0);
      r := To(root);
      ghost var l, p, n := l0, p0, n0;
      ghost var whole := MapLoop(State(), root, l, p, n, caching, counts);
      while size >= FOUR_K
        invariant Valid() && r.To? && laddr < POW64 && paddr < POW64
        invariant laddr == 4096 * l && paddr == 4096 * p && size == 4096 * n
        invariant MapLoop(State(), root, l, p, n, caching, counts) == whole
      {
        var level := LevelOfTurn(laddr, paddr, size, l, p, n);
        r := Turn(root, level, laddr, caching, counts, l, p, n, whole);
        if !r.To? {
          return;
        }
        laddr, l := NextAddress(laddr, level, l);
        paddr, p := NextAddress(paddr, level, p);
        size, n := size - 4096 * Span(level - 1), n - Span(level - 1);
        counts := counts.Add(level);
      }
    }

    /** One turn; a turn that fails ends the loop. */
    method Turn(root: nat, level: nat, laddr: nat, caching: nat, counts: Counts, ghost l: nat, ghost p: nat,
        ghost n: nat, ghost whole: Outcome<Counts>)
      returns (r: Link)
      requires Valid() && root < POOL && n > 0 && level == LevelAt(l, p, n) && laddr == 4096 * l
      requires MapLoop(State(), root, l, p, n, caching, counts) == whole
      modifies this, phylin_4k_pages
      ensures Valid()
      ensures r.To? ==>
                MapLoop(State(), root, Advance(l, level), Advance(p, level), n - Span(level - 1), caching,
                  counts.Add(level)) == whole
      ensures !r.To? ==> Answers(r, State(), counts, whole)
    {
      hide MapOne, MapLoop, LevelAt;
      ghost var t := MapOne(State(), root, level, l, caching);
      ghost var l2, p2, n2, c2 := Advance(l, level), Advance(p, level), n - Span(level - 1), counts.Add(level);
      TurnOfLoop(State(), root, l, p, n, caching, counts, level, t, l2, p2, n2, c2);
      r := MapLeaf(root, level, laddr, caching, l);
    }

    /** The root: the caller's, or a new one with its recursive entry. */
    method FindRoot(base: nat) returns (r: Link)
      requires Valid()
      modifies this, phylin_4k_pages
      ensures Valid()
      ensures match Root(old(State()), base)
              case Ok(s, root) => r == To(root) && State() == s
              case Reset => r == NoPage
              case Stray => r == Outside && State() == old(State())
              case BadAlign => false
    {
      if base == 0 {
        if top >= POOL {
          return NoPage;
        }
        var root := CallocPage();
        var k := 512 * root + 511;
        phylin_4k_pages[k] := phylin_4k_pages[k].(p := true);
        phylin_4k_pages[k] := phylin_4k_pages[k].(rw := true);
        phylin_4k_pages[k] := phylin_4k_pages[k].SetPdePhyAddr(origin + root);
        ghost var s := AllocPde(old(State()));
        assert State() == s.Put(root, 511, s.At(root, 511).(p := true, rw := true).SetPdePhyAddr(s.origin + root));
        return To(root);
      }
      if base % FOUR_K == 0 && origin <= base / FOUR_K < origin + POOL {
        return To(base / FOUR_K - origin);
      }
      return Outside;
    }

    /** page_table_map_lin_to_phy. */
    method MapLinToPhy(base: nat, linear: nat, physical: nat, length: nat, caching: nat) returns (r: Ending)
      requires Valid() && linear < POW64 && physical < POW64 && length < POW64
      modifies this, phylin_4k_pages
      ensures Valid()
      ensures match Map(old(State()), base, linear, physical, length, caching)
              case Ok(s, v) => r == Mapped(v.0, v.1) && State() == s
              case BadAlign => r == Null && State() == old(State())
              case Reset => r == Rebooted
              case Stray => r == Strayed
      ensures r == Null <==> length % 0x1000 != 0 || physical % 0x1000 != 0 || linear % 0x1000 != 0
    {
      if length % FOUR_K != 0 {
        return Null;
      }
      if physical % FOUR_K != 0 {
        return Null;
      }
      if linear % FOUR_K != 0 {
        return Null;
      }
      ghost var l, p, n := linear / 4096, physical / 4096, length / 4096;
      var link := FindRoot(base);
      if link == NoPage {
        return Rebooted;
      }
      if link == Outside {
        return Strayed;
      }
      var leaves, counts := MapLeaves(link.page, linear, physical, length, caching, l, p, n);
      r := match leaves
        case To(_) => Mapped(4096 * (origin + link.page), counts)
        case NoPage => Rebooted
        case Outside => Strayed;
    }

    /** The tests of the loop body on the fields of the two addresses. */
    method LevelOfTurn(laddr: nat, paddr: nat, size: nat, ghost l: nat, ghost p: nat, ghost n: nat) returns (level: nat)
      requires size >= FOUR_K && laddr == 4096 * l && paddr == 4096 * p && size == 4096 * n
      ensures level == LevelAt(l, p, n)
    {
      ZeroFields(l);
      ZeroFields(p);
      assert laddr / 4096 == l && paddr / 4096 == p;
      var l2, l1 := Index(2, laddr / 4096), Index(1, laddr / 4096);
      var p2, p1 := Index(2, paddr / 4096), Index(1, paddr / 4096);
      if p2 == 0 && p1 == 0 && l2 == 0 && l1 == 0 && size >= ONE_GIG {
        return 3;
      }
      if p1 == 0 && l1 == 0 && size >= TWO_MEG {
        return 2;
      }
      return 1;
    }

    /** The 64-bit addition of the leaf's size. */
    method NextAddress(addr: nat, level: nat, ghost n: nat) returns (next: nat, ghost m: nat)
      requires addr < POW64 && addr == 4096 * n && 1 <= level <= 3
      ensures next < POW64 && next == 4096 * m && m == Advance(n, level)
    {
      next := (addr + 4096 * Span(level - 1)) % POW64;
      m := Advance(n, level);
    }
  }

  /** What is left of the loop after a turn that ended with `t`. */
  function Rest(t: Outcome<()>, root: nat, l: nat, p: nat, size: nat, caching: nat, c: Counts): Outcome<Counts>
    requires root < POOL && (t.Ok? ==> t.s.Valid())
  {
    match t
    case Ok(s, _) => MapLoop(s, root, l, p, size, caching, c)
    case BadAlign => BadAlign
    case Reset => Reset
    case Stray => Stray
  }

  lemma TurnOfLoop(s: Machine, root: nat, l: nat, p: nat, n: nat, caching: nat, c: Counts,
                   k: nat, t: Outcome<()>, l2: nat, p2: nat, n2: nat, c2: Counts)
    requires s.Valid() && root < POOL && n > 0 && k == LevelAt(l, p, n) && t == MapOne(s, root, k, l, caching)
    requires l2 == Advance(l, k) && p2 == Advance(p, k) && n2 == n - Span(k - 1) && c2 == c.Add(k)
    ensures MapLoop(s, root, l, p, n, caching, c) == Rest(t, root, l2, p2, n2, caching, c2)
  {
  }

  /** What a loop that returned `r` and `counts` in the state `s` tells of the outcome. */
  predicate Answers(r: Link, s: Machine, counts: Counts, outcome: Outcome<Counts>) {
    match outcome
    case Ok(t, c) => r.To? && s == t && counts == c
    case Reset => r == NoPage
    case Stray => r == Outside
    case BadAlign => false
  }

  /** The fields below a level are zero exactly for the multiples of what it covers. */
  lemma ZeroFields(n: nat)
    ensures Index(1, n) == 0 <==> Aligned(1, n)
    ensures Index(1, n) == 0 && Index(2, n) == 0 <==> Aligned(2, n)
  {
    assert Prefix(1, n) == n / 512;
    var a, q := n / 512, n / 0x4_0000;
    assert n == 512 * a + n % 512;
    if n % 512 == 0 && a % 512 == 0 {
      ModUnique(n, 0x4_0000, a / 512, 0);
    }
    if n % 0x4_0000 == 0 {
      assert n == 512 * (512 * q);
      ModUnique(n, 512, 512 * q, 0);
      ModUnique(a, 512, q, 0);
    }
  }
}
