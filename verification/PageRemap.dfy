/** Calls for pages that are mapped already: the tables are never silently changed under a
    mapping, as long as the call does not meet a leaf larger than its own. */
module PageRemap {
  import opened PageTable
  import opened PageTree
  import opened PageTurn
  import opened PageRange
  import opened PageTheorems
  import opened PageBits

  /** The tables above a table are there. */
  lemma {:induction false} TablesAbove(s: Machine, T: Tables, j: nat, k: nat, n: nat)
    requires Tree(s, T) && 1 <= j <= k <= 4 && On(j, n) in T
    ensures On(k, n) in T && PathOk(s, T, On(k, n))
    decreases k - j
  {
    assert PathOk(s, T, On(j, n));
    if j < k {
      ParentOnPath(j, n);
      TablesAbove(s, T, j + 1, k, n);
    }
  }

  /** Going down where the tables are there adds none. */
  lemma {:induction false} DescendOld(s: Machine, T: Tables, k: nat, stop: nat, n: nat)
    requires Tree(s, T) && 1 <= stop <= k <= 4 && Usable(n) && On(stop, n) in T
    ensures On(k, n) in T && T[On(k, n)] < POOL && T[On(stop, n)] < POOL
    ensures Descend(s, T[On(k, n)], k, stop, n) == Ok(s, T[On(stop, n)])
    decreases k
  {
    TablesAbove(s, T, stop, stop, n);
    TablesAbove(s, T, stop, k, n);
    if k > stop {
      TablesAbove(s, T, stop, k - 1, n);
      EnterOld(s, T, k, n);
      DescendOld(s, T, k - 1, stop, n);
    }
  }

  lemma EnterOld(s: Machine, T: Tables, k: nat, n: nat)
    requires Tree(s, T) && 2 <= k <= 4 && Usable(n) && On(k, n) in T && On(k - 1, n) in T
    requires PathOk(s, T, On(k, n)) && PathOk(s, T, On(k - 1, n))
    ensures Enter(s, T[On(k, n)], Index(k, n)) == Ok(s, T[On(k - 1, n)])
    ensures s.At(T[On(k, n)], Index(k, n)).p
  {
    ChildOnPath(k, n);
    assert EntryOk(s, T, On(k, n), Index(k, n));
    NotRecursive(k, n);
  }

  lemma NotRecursive(k: nat, n: nat)
    requires Usable(n) && 1 <= k <= 4
    ensures !Recursive(On(k, n), Index(k, n))
  {
  }

  /** A page that is translated has its leaf in the deepest table on its path. */
  lemma {:induction false} LeafFound(s: Machine, T: Tables, k: nat, m: nat)
    requires Tree(s, T) && 1 <= k <= 4 && Usable(m) && On(k, m) in T && Look(s, T, k, m).Some?
    ensures var j := Look(s, T, k, m).value.level;
      && 1 <= j <= k && On(j, m) in T && PathOk(s, T, On(j, m)) && s.At(T[On(j, m)], Index(j, m)).p
    decreases k
  {
    assert PathOk(s, T, On(k, m));
    WalkStep(s, T, k, m);
    if On(k - 1, m) in T {
      LeafFound(s, T, k - 1, m);
    }
  }

  /** What stands where a leaf of level `k` for page `n` would go is present. */
  ghost predicate Taken(s: Machine, T: Tables, k: nat, n: nat)
    requires Tree(s, T) && 1 <= k <= 3
  {
    On(k, n) in T && PathOk(s, T, On(k, n)) && s.At(T[On(k, n)], Index(k, n)).p
  }

  /** A page that is translated through a leaf no larger keeps a leaf from being written. */
  lemma TranslatedIsTaken(s: Machine, T: Tables, k: nat, n: nat, m: nat)
    requires Tree(s, T) && 1 <= k <= 3 && Usable(m) && Covers(k, n, m)
    requires LookUp(s, T, m).Some? && LookUp(s, T, m).value.level <= k
    ensures Taken(s, T, k, n)
  {
    var j := LookUp(s, T, m).value.level;
    LeafFound(s, T, 4, m);
    TablesAbove(s, T, j, k, m);
    SamePath(k, n, m);
    if j < k {
      TablesAbove(s, T, j, k - 1, m);
      EnterOldLow(s, T, k, m);
    }
  }

  lemma EnterOldLow(s: Machine, T: Tables, k: nat, n: nat)
    requires Tree(s, T) && 2 <= k <= 3 && Usable(n) && On(k, n) in T && On(k - 1, n) in T
    requires PathOk(s, T, On(k, n)) && PathOk(s, T, On(k - 1, n))
    ensures s.At(T[On(k, n)], Index(k, n)).p
  {
    EnterOld(s, T, k, n);
  }

  lemma SamePath(k: nat, n: nat, m: nat)
    requires 1 <= k <= 3 && Covers(k, n, m)
    ensures On(k, m) == On(k, n) && Index(k, m) == Index(k, n)
  {
  }

  /** There the turn aborts, and changes nothing. */
  lemma TakenResets(s: Machine, T: Tables, k: nat, n: nat, caching: nat)
    requires Tree(s, T) && 1 <= k <= 3 && Usable(n) && T[ROOT] < POOL && Taken(s, T, k, n)
    ensures MapOne(s, T[ROOT], k, n, caching) == Reset
  {
    RootOnPath(n, 4);
    DescendOld(s, T, 4, k, n);
  }

  // ------------------------------------------------------------------ the loop

  /** No page of the range is mapped by a leaf larger than the one the call would use. */
  ghost predicate NoneLarger(s: Machine, T: Tables, l: nat, p: nat, size: nat)
    requires Tree(s, T)
  {
    forall m {:trigger LookUp(s, T, m)} :: l <= m < l + size && LookUp(s, T, m).Some? ==>
      LookUp(s, T, m).value.level <= LevelOf(l, p, size, m)
  }

  ghost predicate SomeMapped(s: Machine, T: Tables, l: nat, size: nat)
    requires Tree(s, T)
  {
    exists m {:trigger LookUp(s, T, m)} :: l <= m < l + size && LookUp(s, T, m).Some?
  }

  /** A range with a page that is mapped ends in a reset. */
  lemma {:induction false} LoopOverMapped(s: Machine, T: Tables, l: nat, p: nat, size: nat, caching: nat, c: Counts)
    requires Tree(s, T) && Used(s, T) && T[ROOT] < POOL && l + size <= LIMIT && 1 <= caching <= 8
    requires NoneLarger(s, T, l, p, size) && SomeMapped(s, T, l, size)
    ensures MapLoop(s, T[ROOT], l, p, size, caching, c) == Reset
    decreases size
  {
    var k := LevelAt(l, p, size);
    var t := MapOne(s, T[ROOT], k, l, caching);
    LevelAligned(l, p, size);
    BelowLimitUsable(l);
    if SomeMapped(s, T, l, Span(k - 1)) {
      FirstTurnResets(s, T, l, p, size, k, caching);
    } else {
      BitsCount(caching);
      var U;
      t, U := AlignedTurn(s, T, l, Span(k - 1), k, caching);
      if t.Ok? {
        var l2, p2, rest := l + Span(k - 1), Advance(p, k), size - Span(k - 1);
        NoWrap(l, k);
        RestAsBefore(s, T, t.s, U, l, p, size, k, CachingBits(caching).value, l2, p2, rest);
        LoopOverMapped(t.s, U, l2, p2, rest, caching, c.Add(k));
        LoopGoesOn(s, T[ROOT], l, p, size, caching, c, k, t, l2, p2, rest, c.Add(k));
      }
    }
  }

  lemma FirstTurnResets(s: Machine, T: Tables, l: nat, p: nat, size: nat, k: nat, caching: nat)
    requires Tree(s, T) && T[ROOT] < POOL && l + size <= LIMIT && size > 0 && k == LevelAt(l, p, size) && Usable(l)
    requires NoneLarger(s, T, l, p, size) && SomeMapped(s, T, l, Span(k - 1)) && Aligned(k - 1, l)
    ensures MapOne(s, T[ROOT], k, l, caching) == Reset
  {
    var m :| l <= m < l + Span(k - 1) && LookUp(s, T, m).Some?;
    LevelGoesOn(l, p, size, k, l + Span(k - 1), Advance(p, k), size - Span(k - 1), m);
    CoversIsRange(k, l, m);
    BelowLimitUsable(m);
    TranslatedIsTaken(s, T, k, l, m);
    TakenResets(s, T, k, l, caching);
  }

  lemma RestAsBefore(s: Machine, T: Tables, r: Machine, U: Tables, l: nat, p: nat, size: nat, k: nat,
      bits: (bool, bool, bool), l2: nat, p2: nat, rest: nat)
    requires Tree(s, T) && Tree(r, U) && size > 0 && k == LevelAt(l, p, size) && Aligned(k - 1, l)
    requires l2 == l + Span(k - 1) && p2 == Advance(p, k) && rest == size - Span(k - 1) && l + size <= LIMIT
    requires Mapped(s, T, r, U, k, l, bits) && NoneLarger(s, T, l, p, size) && SomeMapped(s, T, l, size)
    requires !SomeMapped(s, T, l, Span(k - 1))
    ensures NoneLarger(r, U, l2, p2, rest) && SomeMapped(r, U, l2, rest)
  {
    forall m: nat | l2 <= m < l2 + rest
      ensures LookUp(r, U, m) == LookUp(s, T, m) && LevelOf(l2, p2, rest, m) == LevelOf(l, p, size, m)
    {
      CoversIsRange(k, l, m);
      BelowLimitUsable(m);
      LevelGoesOn(l, p, size, k, l2, p2, rest, m);
    }
    var m :| l <= m < l + size && LookUp(s, T, m).Some?;
    assert m >= l2;
    assert LookUp(r, U, m).Some?;
  }

  /** The call aborts when a page of its range is mapped already, and no leaf it meets is
      larger than the one it would write there. */
  lemma MappedAgainResets(s: Machine, T: Tables, base: nat, linear: nat, physical: nat, length: nat, caching: nat,
      l: nat,
      p: nat, size: nat)
    requires Tree(s, T) && Used(s, T) && T[ROOT] < POOL && l + size <= LIMIT && 1 <= caching <= 8
    requires base == s.Address(T[ROOT]) && linear == 4096 * l && physical == 4096 * p && length == 4096 * size
    requires NoneLarger(s, T, l, p, size) && SomeMapped(s, T, l, size)
    ensures Map(s, base, linear, physical, length, caching) == Reset
  {
    MapUnfolds(s, base, linear, physical, length, caching, l, p, size);
    RootFound(s, T[ROOT], base);
    PagesUnfold(s, base, s, T[ROOT], l, p, size, caching);
    LoopOverMapped(s, T, l, p, size, caching, Counts(0, 0, 0));
  }

  /** A larger leaf is taken for a table at its own address: when that is not one of the pages
      of the pool, the call goes astray there. */
  lemma LargerLeafStrays(s: Machine, T: Tables, k: nat, n: nat, caching: nat)
    requires Tree(s, T) && 1 <= k <= 3 && Usable(n) && T[ROOT] < POOL
    requires LookUp(s, T, n).Some? && LookUp(s, T, n).value.level > k
    ensures var j := LookUp(s, T, n).value.level;
      && j <= 4 && On(j, n) in T && T[On(j, n)] < POOL
      && (s.Page(s.At(T[On(j, n)], Index(j, n)).PdePhyAddr()).None? ==> MapOne(s, T[ROOT], k, n, caching) == Stray)
  {
    var j := LookUp(s, T, n).value.level;
    LeafFound(s, T, 4, n);
    RootOnPath(n, 4);
    if s.Page(s.At(T[On(j, n)], Index(j, n)).PdePhyAddr()).None? {
      DescendStrays(s, T, 4, j, k, n);
    }
  }

  lemma {:induction false} DescendStrays(s: Machine, T: Tables, i: nat, j: nat, k: nat, n: nat)
    requires Tree(s, T) && 1 <= k < j <= i <= 4 && Usable(n) && On(j, n) in T && PathOk(s, T, On(j, n))
    requires var e := s.At(T[On(j, n)], Index(j, n)); e.p && s.Page(e.PdePhyAddr()).None?
    ensures On(i, n) in T && T[On(i, n)] < POOL && Descend(s, T[On(i, n)], i, k, n) == Stray
    decreases i
  {
    TablesAbove(s, T, j, i, n);
    if i > j {
      TablesAbove(s, T, j, i - 1, n);
      EnterOld(s, T, i, n);
      DescendStrays(s, T, i - 1, j, k, n);
    }
  }
}
