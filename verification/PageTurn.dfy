/** One turn of the mapper's loop: the tables it adds and the pages it maps. */
module PageTurn {
  import opened PageTable
  import opened PageTree

  /** The tables between levels `stop` and `k` that the path of `n` lacks. */
  function Lacking(T: Tables, k: nat, stop: nat, n: nat): (r: set<Path>)
    ensures forall a :: a in r ==> a == On(a.level, n) && a !in T && stop <= a.level < k
  {
    if k <= stop then {} else if On(k - 1, n) in T then Lacking(T, k - 1, stop, n) else
    {On(k - 1, n)} + Lacking(T, k - 1, stop, n)
  }

  /** `U` has the tables of `T` and those of `more`, and the pages handed out in between
      are exactly the new tables. */
  ghost predicate Extends(s: Machine, T: Tables, r: Machine, U: Tables, more: set<Path>) {
    && Tree(s, T) && Tree(r, U)
    && U.Keys == T.Keys + more
    && (forall a {:trigger U[a]} {:trigger T[a]} :: a in T ==> U[a] == T[a])
    && r.top - s.top == |more - T.Keys| && r.origin == s.origin
  }

  lemma ExtendsTwice(s: Machine, T: Tables, r: Machine, U: Tables, more: set<Path>, t: Machine, V: Tables,
      most: set<Path>)
    requires Extends(s, T, r, U, more) && Extends(r, U, t, V, most)
    ensures Extends(s, T, t, V, more + most)
    ensures |(more + most) - T.Keys| == |more - T.Keys| + |most - U.Keys|
  {
    assert (more + most) - T.Keys == (more - T.Keys) + (most - U.Keys);
  }

  ghost function LookUp(s: Machine, T: Tables, n: nat): Option<Translation>
    requires Tree(s, T)
  {
    if On(4, n) in T then Look(s, T, 4, n) else None
  }

  /** All pages have the same translation. */
  ghost predicate SameMap(s: Machine, T: Tables, r: Machine, U: Tables)
    requires Tree(s, T) && Tree(r, U)
  {
    forall m {:trigger LookUp(r, U, m)} :: Usable(m) ==> LookUp(r, U, m) == LookUp(s, T, m)
  }

  // ------------------------------------------------------------ going down

  /** The outcome `r` of going down to the table `at`, which needs the tables `more`. */
  ghost predicate Grows(s: Machine, T: Tables, U: Tables, r: Outcome<nat>, more: set<Path>, at: Path) {
    && (r.Ok? <==> s.top + |more| <= POOL)
    && (!r.Ok? ==> r == Reset)
    && (r.Ok? ==> Extends(s, T, r.s, U, more) && SameMap(s, T, r.s, U) && at in U && r.value == U[at])
  }

  /** get_or_alloc_pde at each level adds the tables that the path lacks, or resets when
      the pool has too few pages for them. */
  lemma {:induction false} DescendGrows(s: Machine, T: Tables, k: nat, stop: nat, n: nat)
    returns (r: Outcome<nat>, U: Tables)
    requires Tree(s, T) && 1 <= stop <= k <= 4 && Usable(n) && On(k, n) in T && PathOk(s, T, On(k, n))
    requires LookUp(s, T, n) == None
    ensures r == Descend(s, T[On(k, n)], k, stop, n) && Grows(s, T, U, r, Lacking(T, k, stop, n), On(stop, n))
    decreases k
  {
    if k == stop {
      r, U := Ok(s, T[On(k, n)]), T;
      GrowsNothing(s, T, On(k, n));
    } else if On(k - 1, n) in T {
      r, U := DescendThroughOld(s, T, k, stop, n);
    } else {
      LookDown(s, T, k, n);
      UnmappedEntry(s, T, k, n);
      if s.top < POOL {
        r, U := DescendThroughNew(s, T, k, stop, n);
      } else {
        r, U := Reset, T;
        DescendFails(s, T, k, stop, n);
      }
    }
  }

  lemma DescendThroughOld(s: Machine, T: Tables, k: nat, stop: nat, n: nat) returns (r: Outcome<nat>, U: Tables)
    requires Tree(s, T) && 1 <= stop < k <= 4 && Usable(n) && On(k, n) in T && PathOk(s, T, On(k, n))
    requires LookUp(s, T, n) == None && On(k - 1, n) in T
    ensures r == Descend(s, T[On(k, n)], k, stop, n) && Grows(s, T, U, r, Lacking(T, k, stop, n), On(stop, n))
    decreases k, 0
  {
    assert PathOk(s, T, On(k - 1, n));
    r, U := DescendGrows(s, T, k - 1, stop, n);
    DescendFinds(s, T, k, stop, n);
  }

  lemma GrowsNothing(s: Machine, T: Tables, at: Path)
    requires Tree(s, T) && at in T
    ensures Grows(s, T, T, Ok(s, T[at]), {}, at)
  {
    assert {} - T.Keys == {};
  }

  lemma EnterFinds(s: Machine, T: Tables, k: nat, n: nat)
    requires Tree(s, T) && 2 <= k <= 4 && Usable(n) && On(k, n) in T && PathOk(s, T, On(k, n)) && On(k - 1, n) in T
    ensures Enter(s, T[On(k, n)], Index(k, n)) == Ok(s, T[On(k - 1, n)])
  {
    ChildOnPath(k, n);
    assert PathOk(s, T, On(k - 1, n)) && EntryOk(s, T, On(k, n), Index(k, n));
    if k == 4 {
      RootOnPath(n, k);
    }
  }

  lemma DescendFinds(s: Machine, T: Tables, k: nat, stop: nat, n: nat)
    requires Tree(s, T) && 1 <= stop < k <= 4 && Usable(n) && On(k, n) in T && PathOk(s, T, On(k, n))
      && On(k - 1, n) in T
    ensures T[On(k - 1, n)] < POOL
    ensures Descend(s, T[On(k, n)], k, stop, n) == Descend(s, T[On(k - 1, n)], k - 1, stop, n)
  {
    EnterFinds(s, T, k, n);
    assert PathOk(s, T, On(k - 1, n));
  }

  lemma DescendFails(s: Machine, T: Tables, k: nat, stop: nat, n: nat)
    requires s.Valid() && 1 <= stop < k <= 4 && On(k, n) in T && T[On(k, n)] < POOL && s.top >= POOL
    requires s.At(T[On(k, n)], Index(k, n)) == ZERO && On(k - 1, n) !in T
    ensures Descend(s, T[On(k, n)], k, stop, n) == Reset && |Lacking(T, k, stop, n)| > 0
  {
    assert On(k - 1, n) in Lacking(T, k, stop, n);
  }

  lemma LackingSplits(T: Tables, k: nat, stop: nat, n: nat, page: nat)
    requires k > stop && On(k - 1, n) !in T
    ensures var U := T[On(k - 1, n) := page];
      && Lacking(T, k, stop, n) == {On(k - 1, n)} + Lacking(U, k - 1, stop, n)
      && On(k - 1, n) !in Lacking(U, k - 1, stop, n)
  {
    LackingAbove(T, k - 1, stop, n, page, k - 1);
  }

  lemma {:induction false} LackingAbove(T: Tables, k: nat, stop: nat, n: nat, page: nat, j: nat)
    requires k <= j
    ensures Lacking(T[On(j, n) := page], k, stop, n) == Lacking(T, k, stop, n)
  {
    if k > stop {
      LackingAbove(T, k - 1, stop, n, page, j);
    }
  }

  lemma DescendThroughNew(s: Machine, T: Tables, k: nat, stop: nat, n: nat) returns (r: Outcome<nat>, U: Tables)
    requires CanGrow(s, T, k, n) && 1 <= stop < k && LookUp(s, T, n) == None
    ensures r == Descend(s, T[On(k, n)], k, stop, n) && Grows(s, T, U, r, Lacking(T, k, stop, n), On(stop, n))
    decreases k, 0
  {
    var e := DescendNew(s, T, k, stop, n);
    var r1, U1 := Grow(s, T, k, n, e), Grown(s, T, k, n);
    GrowExtends(s, T, k, n, e);
    assert PathOk(r1, U1, On(k - 1, n));
    assert LookUp(r1, U1, n) == LookUp(s, T, n);
    LackingSplits(T, k, stop, n, s.top);
    var a, more, at := On(k - 1, n), Lacking(U1, k - 1, stop, n), On(stop, n);
    r, U := DescendGrows(r1, U1, k - 1, stop, n);
    GrowsFurther(s, T, r1, U1, a, r, U, more, at);
  }

  lemma DescendNew(s: Machine, T: Tables, k: nat, stop: nat, n: nat) returns (e: Entry)
    requires CanGrow(s, T, k, n) && 1 <= stop < k
    ensures PointsTo(e, s.origin + s.top)
    ensures Descend(s, T[On(k, n)], k, stop, n) ==
      Descend(Grow(s, T, k, n, e), Grown(s, T, k, n)[On(k - 1, n)], k - 1, stop, n)
  {
    e := Pde(ZERO, s.origin + s.top);
    EnterAllocates(s, T, k, n);
    PdeAddr(ZERO, s.origin + s.top);
  }

  lemma GrowsFurther(s: Machine, T: Tables, r1: Machine, U1: Tables, a: Path, r: Outcome<nat>, U: Tables,
      more: set<Path>, at: Path)
    requires Extends(s, T, r1, U1, {a}) && SameMap(s, T, r1, U1) && a !in T && Grows(r1, U1, U, r, more, at)
    requires a !in more
    ensures Grows(s, T, U, r, {a} + more, at)
  {
    assert {a} - T.Keys == {a};
    if r.Ok? {
      ExtendsTwice(s, T, r1, U1, {a}, r.s, U, more);
      forall m | Usable(m)
        ensures LookUp(r.s, U, m) == LookUp(s, T, m)
      {
        assert LookUp(r1, U1, m) == LookUp(s, T, m);
      }
    }
  }

  lemma GrowExtends(s: Machine, T: Tables, k: nat, n: nat, e: Entry)
    requires CanGrow(s, T, k, n) && PointsTo(e, s.origin + s.top)
    ensures var (r, U) := (Grow(s, T, k, n, e), Grown(s, T, k, n));
      Extends(s, T, r, U, {On(k - 1, n)}) && SameMap(s, T, r, U)
  {
    var r, U := Grow(s, T, k, n, e), Grown(s, T, k, n);
    GrowKeepsTree(s, T, k, n, e);
    assert {On(k - 1, n)} - T.Keys == {On(k - 1, n)};
    forall m | Usable(m)
      ensures LookUp(r, U, m) == LookUp(s, T, m)
    {
      RootOnPath(m, 4);
      GrowKeepsLook(s, T, k, n, e, 4, m);
    }
  }

  // ------------------------------------------------------------ the whole turn

  ghost predicate UsedBy(s: Machine, T: Tables, a: Path, m: nat)
    requires Tree(s, T)
  {
    Usable(m) && Prefix(a.level, m) == a.prefix && LookUp(s, T, m).Some?
  }

  /** Every table below the root maps some page. */
  ghost predicate Used(s: Machine, T: Tables)
    requires Tree(s, T)
  {
    forall a {:trigger a in T} :: a in T && a.level < 4 ==> exists m :: UsedBy(s, T, a, m)
  }

  /** The pages a leaf of level `k` at `n` covers. */
  predicate Covers(k: nat, n: nat, m: nat)
    requires k > 0
  {
    Prefix(k - 1, m) == Prefix(k - 1, n)
  }

  /** The pages a leaf would cover can all be mapped. */
  ghost predicate FreeFor(s: Machine, T: Tables, k: nat, n: nat)
    requires Tree(s, T) && 1 <= k <= 3
  {
    && Usable(n) && Aligned(k - 1, n) && Used(s, T)
    && (forall m {:trigger LookUp(s, T, m)} :: Covers(k, n, m) ==> LookUp(s, T, m) == None)
  }

  lemma NoTableThere(s: Machine, T: Tables, k: nat, n: nat)
    requires Tree(s, T) && 1 <= k <= 3 && FreeFor(s, T, k, n)
    ensures On(k - 1, n) !in T
  {
    var a := On(k - 1, n);
    forall m
      ensures !UsedBy(s, T, a, m)
    {
      assert Covers(k, n, m) <==> Prefix(k - 1, m) == a.prefix;
    }
  }

  /** What a turn does to the map. */
  ghost predicate Mapped(s: Machine, T: Tables, r: Machine, U: Tables, k: nat, n: nat, bits: (bool, bool, bool))
    requires Tree(s, T) && Tree(r, U) && k > 0
  {
    forall m {:trigger LookUp(r, U, m)} :: Usable(m) ==>
      LookUp(r, U, m) == if Covers(k, n, m) then Some(Identity(m, k, bits)) else LookUp(s, T, m)
  }

  lemma TurnMaps(s: Machine, T: Tables, k: nat, n: nat, caching: nat) returns (U: Tables)
    requires Tree(s, T) && 1 <= k <= 3 && FreeFor(s, T, k, n) && CachingBits(caching).Some? && T[ROOT] < POOL
    ensures var r := MapOne(s, T[ROOT], k, n, caching);
      && (r.Ok? <==> s.top + |Lacking(T, 4, k, n)| <= POOL)
      && (!r.Ok? ==> r == Reset)
      && (r.Ok? ==> Extends(s, T, r.s, U, Lacking(T, 4, k, n)) && Used(r.s, U)
                    && Mapped(s, T, r.s, U, k, n, CachingBits(caching).value))
  {
    RootOnPath(n, 4);
    assert PathOk(s, T, ROOT);
    assert Covers(k, n, n);
    NoTableThere(s, T, k, n);
    var d;
    d, U := DescendGrows(s, T, 4, k, n);
    if d.Ok? {
      assert On(k - 1, n) !in U;
      assert PathOk(d.s, U, On(k, n));
      assert LookUp(d.s, U, n) == None;
      LookDown(d.s, U, k, n);
      UnmappedEntry(d.s, U, k, n);
      var e := LeafMapsToItself(k, n, CachingBits(caching).value);
      WriteMapsAll(d.s, U, k, n, e, CachingBits(caching).value);
      var w := Written(d.s, U, k, n, e);
      assert MapOne(s, T[ROOT], k, n, caching) == Ok(w, ());
      TurnKeepsUsed(s, T, w, U, k, n, CachingBits(caching).value);
    }
  }

  lemma WriteMapsAll(s: Machine, T: Tables, k: nat, n: nat, e: Entry, bits: (bool, bool, bool))
    requires CanWrite(s, T, k, n) && MapsToItself(e, k, n, bits)
    ensures var r := Written(s, T, k, n, e);
      Tree(r, T) && r.top == s.top && r.origin == s.origin && Mapped(s, T, r, T, k, n, bits)
  {
    var r := Written(s, T, k, n, e);
    WriteKeepsTree(s, T, k, n, e);
    forall m | Usable(m)
      ensures LookUp(r, T, m) == if Covers(k, n, m) then Some(Identity(m, k, bits)) else LookUp(s, T, m)
    {
      RootOnPath(m, 4);
      if Covers(k, n, m) {
        WriteMaps(s, T, k, n, e, bits, m);
      } else {
        WriteKeepsOthers(s, T, k, n, e, 4, m);
      }
    }
  }

  lemma TurnKeepsUsed(s: Machine, T: Tables, r: Machine, U: Tables, k: nat, n: nat, bits: (bool, bool, bool))
    requires Tree(s, T) && Used(s, T) && Tree(r, U) && U.Keys == T.Keys + Lacking(T, 4, k, n) && k > 0
    requires Usable(n) && Mapped(s, T, r, U, k, n, bits)
    ensures Used(r, U)
  {
    forall a | a in U && a.level < 4
      ensures exists m :: UsedBy(r, U, a, m)
    {
      if a in T {
        var m :| UsedBy(s, T, a, m);
        assert UsedBy(r, U, a, m);
      } else {
        assert UsedBy(r, U, a, n);
      }
    }
  }
}
