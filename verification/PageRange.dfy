/** The whole loop of the mapper: what it maps, with leaves of which size, in which new
    tables, and when the pool of pages is enough. */
module PageRange {
  import opened PageTable
  import opened PageTree
  import opened PageTurn

  /** The tables below the root on the path of `n`, down to level `stop`. */
  function PathsTo(k: nat, stop: nat, n: nat): set<Path> {
    if k <= stop then {} else {On(k - 1, n)} + PathsTo(k - 1, stop, n)
  }

  lemma {:induction false} LackingIsRest(T: Tables, k: nat, stop: nat, n: nat)
    ensures Lacking(T, k, stop, n) == PathsTo(k, stop, n) - T.Keys
  {
    if k > stop {
      LackingIsRest(T, k - 1, stop, n);
    }
  }

  /** The tables the loop uses for a range. */
  function Needed(l: nat, p: nat, size: nat): set<Path>
    decreases size
  {
    if size == 0 then {} else
    var k := LevelAt(l, p, size);
    PathsTo(4, k, l) + Needed(l + Span(k - 1), Advance(p, k), size - Span(k - 1))
  }

  /** The level of the leaf that covers page `m` of a range. */
  function LevelOf(l: nat, p: nat, size: nat, m: nat): (k: nat)
    ensures 1 <= k <= 3
    decreases size
  {
    if size == 0 then 1 else
    var k := LevelAt(l, p, size);
    if m < l + Span(k - 1) then k else LevelOf(l + Span(k - 1), Advance(p, k), size - Span(k - 1), m)
  }

  /** The pages below the recursive slot. */
  const LIMIT: nat := 511 * 0x800_0000

  ghost predicate Unmapped(s: Machine, T: Tables, l: nat, size: nat)
    requires Tree(s, T)
  {
    forall m {:trigger LookUp(s, T, m)} :: l <= m < l + size ==> LookUp(s, T, m) == None
  }

  /** The map after the loop: the range goes to itself, all else is as before. */
  ghost predicate RangeMapped(s: Machine, T: Tables, r: Machine, U: Tables, l: nat, p: nat, size: nat,
      bits: (bool, bool, bool))
    requires Tree(s, T) && Tree(r, U)
  {
    forall m: nat {:trigger LookUp(r, U, m)} :: Usable(m) ==>
      LookUp(r, U, m) == if l <= m < l + size then Some(Identity(m, LevelOf(l, p, size, m), bits)) else LookUp(s, T, m)
  }

  lemma LevelAligned(l: nat, p: nat, size: nat)
    ensures Aligned(LevelAt(l, p, size) - 1, l)
  {
  }

  /** A leaf at a multiple of its size covers exactly the next `Span` pages. */
  lemma CoversIsRange(k: nat, l: nat, m: nat)
    requires 1 <= k <= 3 && Aligned(k - 1, l)
    ensures Covers(k, l, m) <==> l <= m < l + Span(k - 1)
  {
    PrefixIsQuotient(k - 1, l);
    PrefixIsQuotient(k - 1, m);
    if k == 2 {
      assert l == 512 * (l / 512);
    } else if k == 3 {
      assert l == 0x4_0000 * (l / 0x4_0000);
    }
  }

  lemma BelowLimitUsable(l: nat)
    requires l < LIMIT
    ensures Usable(l)
  {
    PrefixIsQuotient(3, l);
  }

  /** The outcome `r` when the tables `need` are needed: a reset when the pool does not
      hold those that are missing, and else they are there. */
  ghost predicate Supplied<X>(s: Machine, T: Tables, r: Outcome<X>, U: Tables, need: set<Path>) {
    && (r.Ok? <==> s.top + |need - T.Keys| <= POOL)
    && (!r.Ok? ==> r == Reset)
    && (r.Ok? ==> Extends(s, T, r.s, U, need) && Used(r.s, U))
  }

  lemma SuppliedTwice(s: Machine, T: Tables, t: Machine, U1: Tables, r: Outcome<Counts>, U: Tables, need: set<Path>,
      more: set<Path>)
    requires Extends(s, T, t, U1, need) && Supplied(t, U1, r, U, more)
    ensures Supplied(s, T, r, U, need + more)
  {
    assert (need + more) - T.Keys == (need - T.Keys) + (more - U1.Keys);
    if r.Ok? {
      ExtendsTwice(s, T, t, U1, need, r.s, U, more);
    }
  }

  lemma SuppliesTooLittle<X>(s: Machine, T: Tables, t: Outcome<X>, U: Tables, need: set<Path>, more: set<Path>)
    requires Supplied(s, T, t, U, need) && !t.Ok?
    ensures Supplied<Counts>(s, T, Reset, U, need + more)
  {
    assert (need + more) - T.Keys == (need - T.Keys) + ((more - need) - T.Keys);
  }

  ghost predicate Ready(s: Machine, T: Tables, l: nat, size: nat, caching: nat) {
    Tree(s, T) && Used(s, T) && T[ROOT] < POOL && l + size <= LIMIT && Unmapped(s, T, l, size)
      && CachingBits(caching).Some?
  }

  /** The loop over a range no page of which is mapped. */
  lemma {:induction false} LoopIsCorrect(s: Machine, T: Tables, l: nat, p: nat, size: nat, caching: nat, c: Counts)
    returns (r: Outcome<Counts>, U: Tables)
    requires Ready(s, T, l, size, caching)
    ensures r == MapLoop(s, T[ROOT], l, p, size, caching, c)
    ensures Supplied(s, T, r, U, Needed(l, p, size))
    ensures r.Ok? ==> RangeMapped(s, T, r.s, U, l, p, size, CachingBits(caching).value)
    decreases size
  {
    if size == 0 {
      r, U := LoopOverNothing(s, T, l, p, caching, c);
    } else {
      var k := LevelAt(l, p, size);
      var t, U1 := FirstTurn(s, T, l, p, size, k, caching);
      if t.Ok? {
        r, U := LoopAfterTurn(s, T, l, p, size, caching, c, k, t, U1);
      } else {
        U := U1;
        r := LoopResets(s, T, l, p, size, caching, c, k, t, U1);
      }
    }
  }

  lemma LoopOverNothing(s: Machine, T: Tables, l: nat, p: nat, caching: nat, c: Counts)
    returns (r: Outcome<Counts>, U: Tables)
    requires Ready(s, T, l, 0, caching)
    ensures r == MapLoop(s, T[ROOT], l, p, 0, caching, c)
    ensures Supplied(s, T, r, U, Needed(l, p, 0))
    ensures r.Ok? ==> RangeMapped(s, T, r.s, U, l, p, 0, CachingBits(caching).value)
  {
    r, U := Ok(s, c), T;
    assert {} - T.Keys == {};
  }

  lemma LoopResets(s: Machine, T: Tables, l: nat, p: nat, size: nat, caching: nat, c: Counts, k: nat, t: Outcome<()>,
      U1: Tables)
    returns (r: Outcome<Counts>)
    requires Ready(s, T, l, size, caching) && size > 0 && k == LevelAt(l, p, size)
      && t == MapOne(s, T[ROOT], k, l, caching)
    requires !t.Ok? && Supplied(s, T, t, U1, PathsTo(4, k, l))
    ensures r == Reset == MapLoop(s, T[ROOT], l, p, size, caching, c)
    ensures Supplied(s, T, r, U1, Needed(l, p, size))
  {
    r := Reset;
    var l2, p2, rest := l + Span(k - 1), Advance(p, k), size - Span(k - 1);
    NeedGoesOn(l, p, size, k, l2, p2, rest);
    SuppliesTooLittle(s, T, t, U1, PathsTo(4, k, l), Needed(l2, p2, rest));
  }

  lemma LoopAfterTurn(s: Machine, T: Tables, l: nat, p: nat, size: nat, caching: nat, c: Counts, k: nat,
      t: Outcome<()>, U1: Tables)
    returns (r: Outcome<Counts>, U: Tables)
    requires Ready(s, T, l, size, caching) && size > 0 && k == LevelAt(l, p, size)
      && t == MapOne(s, T[ROOT], k, l, caching)
    requires t.Ok? && Supplied(s, T, t, U1, PathsTo(4, k, l)) && U1[ROOT] == T[ROOT]
    requires Mapped(s, T, t.s, U1, k, l, CachingBits(caching).value)
    requires Ready(t.s, U1, l + Span(k - 1), size - Span(k - 1), caching)
    ensures r == MapLoop(s, T[ROOT], l, p, size, caching, c)
    ensures Supplied(s, T, r, U, Needed(l, p, size))
    ensures r.Ok? ==> RangeMapped(s, T, r.s, U, l, p, size, CachingBits(caching).value)
    decreases size, 0
  {
    var l2, p2, rest := l + Span(k - 1), Advance(p, k), size - Span(k - 1);
    r, U := LoopIsCorrect(t.s, U1, l2, p2, rest, caching, c.Add(k));
    NoWrap(l, k);
    LoopGoesOn(s, T[ROOT], l, p, size, caching, c, k, t, l2, p2, rest, c.Add(k));
    NeedGoesOn(l, p, size, k, l2, p2, rest);
    SuppliedTwice(s, T, t.s, U1, r, U, PathsTo(4, k, l), Needed(l2, p2, rest));
    if r.Ok? {
      MapsJoin(s, T, t.s, U1, r.s, U, l, p, size, k, l2, p2, rest, CachingBits(caching).value);
    }
  }

  lemma NoWrap(l: nat, k: nat)
    requires l < LIMIT && 1 <= k <= 3
    ensures Advance(l, k) == l + Span(k - 1)
  {
  }

  lemma LoopGoesOn(s: Machine, root: nat, l: nat, p: nat, size: nat, caching: nat, c: Counts,
                   k: nat, t: Outcome<()>, l2: nat, p2: nat, rest: nat, c2: Counts)
    requires s.Valid() && root < POOL && 0 < size && k == LevelAt(l, p, size) && t == MapOne(s, root, k, l, caching)
      && t.Ok?
    requires l2 == Advance(l, k) && p2 == Advance(p, k) && rest == size - Span(k - 1) && c2 == c.Add(k)
    ensures MapLoop(s, root, l, p, size, caching, c) == MapLoop(t.s, root, l2, p2, rest, caching, c2)
  {
  }

  lemma NeedGoesOn(l: nat, p: nat, size: nat, k: nat, l2: nat, p2: nat, rest: nat)
    requires size > 0 && k == LevelAt(l, p, size) && l2 == l + Span(k - 1) && p2 == Advance(p, k)
      && rest == size - Span(k - 1)
    ensures Needed(l, p, size) == PathsTo(4, k, l) + Needed(l2, p2, rest)
  {
  }

  lemma LevelGoesOn(l: nat, p: nat, size: nat, k: nat, l2: nat, p2: nat, rest: nat, m: nat)
    requires size > 0 && k == LevelAt(l, p, size) && l2 == l + Span(k - 1) && p2 == Advance(p, k)
      && rest == size - Span(k - 1)
    ensures LevelOf(l, p, size, m) == if m < l2 then k else LevelOf(l2, p2, rest, m)
  {
  }

  lemma FirstTurn(s: Machine, T: Tables, l: nat, p: nat, size: nat, k: nat, caching: nat)
    returns (t: Outcome<()>, U: Tables)
    requires Ready(s, T, l, size, caching) && size > 0 && k == LevelAt(l, p, size)
    ensures t == MapOne(s, T[ROOT], k, l, caching)
    ensures Supplied(s, T, t, U, PathsTo(4, k, l))
    ensures t.Ok? ==> Mapped(s, T, t.s, U, k, l, CachingBits(caching).value) && U[ROOT] == T[ROOT]
    ensures t.Ok? ==> Ready(t.s, U, l + Span(k - 1), size - Span(k - 1), caching)
  {
    LevelAligned(l, p, size);
    t, U := AlignedTurn(s, T, l, size, k, caching);
  }

  lemma AlignedTurn(s: Machine, T: Tables, l: nat, size: nat, k: nat, caching: nat) returns (t: Outcome<()>, U: Tables)
    requires Ready(s, T, l, size, caching) && 1 <= k <= 3 && Aligned(k - 1, l) && Span(k - 1) <= size
    ensures t == MapOne(s, T[ROOT], k, l, caching)
    ensures Supplied(s, T, t, U, PathsTo(4, k, l))
    ensures t.Ok? ==> Mapped(s, T, t.s, U, k, l, CachingBits(caching).value) && U[ROOT] == T[ROOT]
    ensures t.Ok? ==> Ready(t.s, U, l + Span(k - 1), size - Span(k - 1), caching)
  {
    BelowLimitUsable(l);
    forall m | Covers(k, l, m)
      ensures LookUp(s, T, m) == None
    {
      CoversIsRange(k, l, m);
    }
    t := MapOne(s, T[ROOT], k, l, caching);
    U := TurnMaps(s, T, k, l, caching);
    LackingIsRest(T, 4, k, l);
    SuppliedAlso(s, T, t, U, Lacking(T, 4, k, l), PathsTo(4, k, l));
    if t.Ok? {
      RestUnmapped(s, T, t.s, U, k, l, size, CachingBits(caching).value);
    }
  }

  lemma SuppliedAlso<X>(s: Machine, T: Tables, t: Outcome<X>, U: Tables, need: set<Path>, more: set<Path>)
    requires Supplied(s, T, t, U, need) && need == more - T.Keys
    ensures Supplied(s, T, t, U, more)
  {
    AlreadyThere(T.Keys, need, more);
  }

  lemma AlreadyThere<A>(t: set<A>, need: set<A>, more: set<A>)
    requires need == more - t
    ensures t + need == t + more && need - t == more - t
  {
  }

  lemma RestUnmapped(s: Machine, T: Tables, r: Machine, U: Tables, k: nat, l: nat, size: nat, bits: (bool, bool, bool))
    requires Tree(s, T) && Tree(r, U) && 1 <= k <= 3 && Aligned(k - 1, l) && Mapped(s, T, r, U, k, l, bits)
    requires Unmapped(s, T, l, size) && Span(k - 1) <= size && l + size <= LIMIT
    ensures Unmapped(r, U, l + Span(k - 1), size - Span(k - 1))
  {
    forall m: nat | l + Span(k - 1) <= m < l + size
      ensures LookUp(r, U, m) == None
    {
      CoversIsRange(k, l, m);
      BelowLimitUsable(m);
    }
  }

  lemma MapsJoin(s: Machine, T: Tables, t: Machine, U1: Tables, r: Machine, U: Tables,
                 l: nat, p: nat, size: nat, k: nat, l2: nat, p2: nat, rest: nat, bits: (bool, bool, bool))
    requires size > 0 && Tree(s, T) && Tree(t, U1) && Tree(r, U)
    requires k == LevelAt(l, p, size) && l2 == l + Span(k - 1) && p2 == Advance(p, k) && rest == size - Span(k - 1)
    requires Mapped(s, T, t, U1, k, l, bits) && RangeMapped(t, U1, r, U, l2, p2, rest, bits)
    ensures RangeMapped(s, T, r, U, l, p, size, bits)
  {
    LevelAligned(l, p, size);
    forall m: nat | Usable(m)
      ensures LookUp(r, U, m) == if l <= m < l + size then Some(Identity(m, LevelOf(l, p, size, m), bits))
        else LookUp(s, T, m)
    {
      CoversIsRange(k, l, m);
      LevelGoesOn(l, p, size, k, l2, p2, rest, m);
      assert LookUp(t, U1, m) == if Covers(k, l, m) then Some(Identity(m, k, bits)) else LookUp(s, T, m);
    }
  }
}
