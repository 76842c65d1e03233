/** What page_table_map_lin_to_phy promises its callers, in closed form. */
module PageTheorems {
  import opened PageTable
  import opened PageTree
  import opened PageTurn
  import opened PageRange
  import opened IntMath

  // ------------------------------------------------------- the size of each leaf

  /** The largest leaf for which the two addresses have the same alignment. */
  function MaxLevel(l: nat, p: nat): (k: nat)
    ensures 1 <= k <= 3
  {
    if l % 0x4_0000 == p % 0x4_0000 then 3 else if l % 512 == p % 512 then 2 else 1
  }

  /** The whole leaf of level `k` around page `m` is in the range. */
  predicate Fits(k: nat, l: nat, end: nat, m: nat)
    requires 1 <= k <= 3
  {
    l <= m - m % Span(k - 1) && m - m % Span(k - 1) + Span(k - 1) <= end
  }

  /** The largest leaf around page `m` that both alignments and the range allow. */
  function LeafLevel(max: nat, l: nat, end: nat, m: nat): nat {
    if max >= 3 && Fits(3, l, end, m) then 3 else if max >= 2 && Fits(2, l, end, m) then 2 else 1
  }

  lemma LevelChoice(l: nat, p: nat, size: nat)
    ensures var (k, max) := (LevelAt(l, p, size), MaxLevel(l, p));
      k == if max >= 3 && l % Span(2) == 0 && size >= Span(2) then 3
           else if max >= 2 && l % Span(1) == 0 && size >= Span(1) then 2 else 1
  {
    if MaxLevel(l, p) == 3 {
      SmallerToo(l, p);
    }
  }

  lemma SmallerToo(l: nat, p: nat)
    requires l % 0x4_0000 == p % 0x4_0000
    ensures l % 512 == p % 512
  {
    ModOfMultiple(l, 512, 512);
    ModOfMultiple(p, 512, 512);
  }

  lemma AddBoth(a: int, b: int, d: int, n: int)
    requires n > 0 && a % n == b % n
    ensures (a + d) % n == (b + d) % n
  {
    var k := a / n - b / n;
    assert a == b + k * n;
    ModAddMultiple(b + d, n, k);
  }

  /** The two addresses keep their common alignment as they advance. */
  lemma MaxLevelKept(l: nat, p: nat, k: nat)
    requires 1 <= k <= 3
    ensures MaxLevel(l + Span(k - 1), Advance(p, k)) == MaxLevel(l, p)
  {
    var d, p2 := Span(k - 1), Advance(p, k);
    Congruent(l, p, d, p2, 0x4_0000, 0x4_0000_0000);
    Congruent(l, p, d, p2, 512, 0x800_0000_0000);
  }

  lemma Congruent(l: nat, p: nat, d: int, p2: nat, n: nat, times: nat)
    requires n > 0 && d >= 0 && times * n == POW52 && (p2 == p + d || p2 == p + d - POW52)
    ensures l % n == p % n <==> (l + d) % n == p2 % n
  {
    ModAddMultiple(p2, n, times);
    if l % n == p % n {
      AddBoth(l, p, d, n);
    }
    if (l + d) % n == (p + d) % n {
      AddBoth(l + d, p + d, -d, n);
    }
  }

  /** A block of 1G contains every block of 2M that it meets. */
  lemma Nested(l: nat, m: nat)
    requires l % 512 == 0 && l <= m < l + 512
    ensures m - m % 0x4_0000 <= l && l + 512 <= m - m % 0x4_0000 + 0x4_0000
  {
    var q, a := m / 0x4_0000, l / 512;
    assert l == 512 * a && m == 512 * (512 * q) + m % 0x4_0000;
    assert a + 1 > 512 * q;
  }

  lemma Start(l: nat, m: nat, d: nat)
    requires d > 0 && l % d == 0 && l <= m < l + d
    ensures m - m % d == l
  {
    ModUnique(m, d, l / d, m - l);
  }

  /** The first leaf of a range is the largest that fits around each of its pages. */
  lemma FirstLeaf(l: nat, p: nat, size: nat, m: nat)
    requires size > 0 && l <= m < l + Span(LevelAt(l, p, size) - 1)
    ensures LeafLevel(MaxLevel(l, p), l, l + size, m) == LevelAt(l, p, size)
  {
    var k := LevelAt(l, p, size);
    LevelChoice(l, p, size);
    LevelAligned(l, p, size);
    Start(l, m, Span(k - 1));
    if k == 2 {
      Nested(l, m);
    }
  }

  /** Pages after the first leaf fit in the rest of the range as they do in the whole. */
  lemma LaterLeaf(l: nat, p: nat, size: nat, m: nat)
    requires size > 0 && l + Span(LevelAt(l, p, size) - 1) <= m < l + size
    ensures var max := MaxLevel(l, p);
      LeafLevel(max, l, l + size, m) == LeafLevel(max, l + Span(LevelAt(l, p, size) - 1), l + size, m)
  {
    var k := LevelAt(l, p, size);
    LevelChoice(l, p, size);
    LevelAligned(l, p, size);
    FitsLater(2, l, size, m, k);
    FitsLater(3, l, size, m, k);
  }

  /** A block that fits around a later page fits in the rest of the range, or it starts
      where the range does and is larger than the first leaf. */
  lemma FitsLater(j: nat, l: nat, size: nat, m: nat, k: nat)
    requires 1 <= k <= 3 && 2 <= j <= 3 && Aligned(k - 1, l) && l + Span(k - 1) <= m < l + size
    ensures Fits(j, l, l + size, m) ==>
      Fits(j, l + Span(k - 1), l + size, m) || (j > k && l % Span(j - 1) == 0 && Span(j - 1) <= size)
    ensures Fits(j, l + Span(k - 1), l + size, m) ==> Fits(j, l, l + size, m)
  {
    if k >= j {
      MultiplesBoth(j - 1, l, k);
      FloorAtLeast(m, l + Span(k - 1), Span(j - 1));
    } else {
      BlockStart(m, l, Span(k - 1), Span(j - 1), Span(j - 1) / Span(k - 1));
    }
  }

  lemma FloorAtLeast(m: nat, x: nat, d: nat)
    requires d > 0 && x % d == 0 && x <= m
    ensures m - m % d >= x
  {
    var q, p := m / d, x / d;
    assert m == q * d + m % d && x == p * d;
    MulSign(q + 1 - p, d);
    assert (q + 1 - p) * d == q * d + d - p * d;
    MulSign(q - p, d);
    assert (q - p) * d == q * d - p * d;
  }

  /** The block of `d` pages around `m` starts at `l` if it starts within `step` pages from it. */
  lemma BlockStart(m: nat, l: nat, step: nat, d: nat, times: nat)
    requires step > 0 && d == times * step && times > 0 && d > 0 && l % step == 0
    ensures l <= m - m % d < l + step ==> m - m % d == l && l % d == 0
  {
    var b := m - m % d;
    assert m == (m / d) * d + m % d;
    ModUnique(b, d, m / d, 0);
    ModOfMultiple(b, step, times);
    ModUnique(0, step, 0, 0);
    if l <= b < l + step {
      ModWindow(b, l, step);
    }
  }

  /** In closed form, the leaf the loop writes for each page of a range. */
  lemma {:induction false} LevelOfIs(l: nat, p: nat, size: nat, m: nat)
    requires l <= m < l + size
    ensures LevelOf(l, p, size, m) == LeafLevel(MaxLevel(l, p), l, l + size, m)
    decreases size
  {
    var k := LevelAt(l, p, size);
    var l2, p2, rest := l + Span(k - 1), Advance(p, k), size - Span(k - 1);
    LevelGoesOn(l, p, size, k, l2, p2, rest, m);
    if m < l2 {
      FirstLeaf(l, p, size, m);
    } else {
      MaxLevelKept(l, p, k);
      LaterLeaf(l, p, size, m);
      LevelOfIs(l2, p2, rest, m);
    }
  }

  // ------------------------------------------------------- the tables it needs

  /** The level 3 tables of the 512G regions `a` to `b`. */
  function Regions(a: nat, b: nat): (r: set<Path>)
    ensures forall x :: x in r <==> x.level == 3 && a <= x.prefix <= b
    decreases b + 1 - a
  {
    if a > b then {} else {Path(3, a)} + Regions(a + 1, b)
  }

  function Edge(j: nat, n: nat): set<Path>
    requires 1 <= j <= 3
  {
    if n % Span(j) == 0 then {} else {On(j, n)}
  }

  function Edges(j: nat, l: nat, end: nat): set<Path>
    requires 1 <= j <= 3 && l <= end
  {
    if l == end then {} else Edge(j, l) + Edge(j, end)
  }

  /** A leaf as large as a table of level `j` covers, or larger, leaves its edges alone. */
  lemma EdgesPastLarge(j: nat, l: nat, l2: nat, end: nat, d: nat)
    requires 1 <= j <= 2 && d == Span(j) && l % d == 0 && l2 % d == 0 && l < l2 <= end
    ensures Edges(j, l, end) == Edges(j, l2, end)
  {
  }

  /** A smaller leaf needs the table of level `j` on its path. */
  lemma EdgesPastSmall(j: nat, l: nat, l2: nat, end: nat, d: nat)
    requires 1 <= j <= 2 && d == Span(j) && l < l2 <= end && (l % d != 0 || end - l < d)
    requires l2 % d != 0 ==> l2 / d == l / d
    ensures Edges(j, l, end) == {On(j, l)} + Edges(j, l2, end)
  {
    PrefixIsQuotient(j, l);
    PrefixIsQuotient(j, l2);
    PrefixIsQuotient(j, end);
    if l % d == 0 {
      ModUnique(end, d, l / d, end - l);
    }
  }

  /** Between multiples of a step that divides `d` there is room for the step. */
  lemma WholeSteps(l: nat, step: nat, d: nat, times: nat, q: nat, r: nat, a: nat)
    requires step > 0 && d == times * step && l == q * d + r == a * step && r < d
    ensures r + step <= d
  {
    var b := a - q * times;
    MulAssoc(q, times, step);
    assert b * step == a * step - (q * times) * step;
    assert (times - b) * step == times * step - b * step;
    MulSign(times - b, step);
  }

  lemma SameBlock(l: nat, step: nat, d: nat, times: nat)
    requires step > 0 && d > 0 && d == times * step && l % step == 0
    ensures (l + step) % d != 0 ==> (l + step) / d == l / d
    ensures (l + step - 1) / d == l / d
  {
    var q, r := l / d, l % d;
    Division(l, d);
    Division(l, step);
    WholeSteps(l, step, d, times, q, r, l / step);
    assert (q + 1) * d == q * d + d;
    ModUnique(l + step - 1, d, q, r + step - 1);
    if r + step < d {
      ModUnique(l + step, d, q, r + step);
    } else {
      ModUnique(l + step, d, q + 1, 0);
    }
  }

  function Touched(l: nat, end: nat): set<Path>
    requires l <= end
  {
    if l == end then {} else Regions(Prefix(3, l), Prefix(3, end - 1))
  }

  /** The tables a range with equal alignment needs: one per 512G region it touches and
      those around its two ends. */
  function Frontier(l: nat, end: nat): set<Path>
    requires l <= end
  {
    Touched(l, end) + Edges(2, l, end) + Edges(1, l, end)
  }

  lemma RegionsPast(l: nat, k: nat, end: nat)
    requires 1 <= k <= 3 && Aligned(k - 1, l) && l + Span(k - 1) <= end
    ensures Touched(l, end) == {On(3, l)} + Touched(l + Span(k - 1), end)
  {
    var l2, d, times := l + Span(k - 1), Span(3), Span(3) / Span(k - 1);
    assert d == times * Span(k - 1);
    SameBlock(l, Span(k - 1), d, times);
    PrefixIsQuotient(3, l);
    PrefixIsQuotient(3, l2);
    PrefixIsQuotient(3, end - 1);
    assert l2 / d <= l / d + 1;
    assert l / d <= (end - 1) / d;
  }

  lemma MultiplesBoth(j: nat, l: nat, k: nat)
    requires 1 <= j < k <= 3 && Aligned(k - 1, l)
    ensures l % Span(j) == 0 && (l + Span(k - 1)) % Span(j) == 0
  {
    if j == 1 && k == 3 {
      SmallerToo(l, 0);
    }
    AddBoth(l, 0, Span(k - 1), Span(j));
  }

  lemma EdgesPast(j: nat, l: nat, k: nat, end: nat)
    requires 1 <= k <= 3 && 1 <= j <= 2 && Aligned(k - 1, l) && l + Span(k - 1) <= end
    requires k > j || l % Span(j) != 0 || end - l < Span(j)
    ensures Edges(j, l, end) == (if k <= j then {On(j, l)} else {}) + Edges(j, l + Span(k - 1), end)
  {
    var l2, d := l + Span(k - 1), Span(j);
    if k > j {
      MultiplesBoth(j, l, k);
      EdgesPastLarge(j, l, l2, end, d);
    } else {
      var times := Span(j) / Span(k - 1);
      assert d == times * Span(k - 1);
      SameBlock(l, Span(k - 1), d, times);
      EdgesPastSmall(j, l, l2, end, d);
    }
  }

  lemma PathsToIs(k: nat, l: nat, top: nat)
    requires 1 <= k <= 3 && top == 4
    ensures PathsTo(top, k, l) == {On(3, l)} + (if k <= 2 then {On(2, l)} else {}) + (if k <= 1 then {On(1, l)} else {})
  {
    assert PathsTo(top, k, l) == {On(3, l)} + PathsTo(top - 1, k, l);
    assert k <= 2 ==> PathsTo(top - 1, k, l) == {On(2, l)} + PathsTo(top - 2, k, l);
    assert k <= 1 ==> PathsTo(top - 2, k, l) == {On(1, l)} + PathsTo(top - 3, k, l);
  }

  /** In closed form, the tables the loop needs for a range. */
  lemma {:induction false} NeededIs(l: nat, p: nat, size: nat, end: nat)
    requires MaxLevel(l, p) == 3 && end == l + size
    ensures Needed(l, p, size) == Frontier(l, end)
    decreases size
  {
    if size > 0 {
      var k := LevelAt(l, p, size);
      LevelAligned(l, p, size);
      LevelChoice(l, p, size);
      MaxLevelKept(l, p, k);
      NeededIsFrom(l, p, size, end, k, l + Span(k - 1), Advance(p, k), size - Span(k - 1));
    }
  }

  lemma NeededIsFrom(l: nat, p: nat, size: nat, end: nat, k: nat, l2: nat, p2: nat, rest: nat)
    requires size > 0 && end == l + size && k == LevelAt(l, p, size)
    requires l2 == l + Span(k - 1) && p2 == Advance(p, k) && rest == size - Span(k - 1)
    requires MaxLevel(l2, p2) == 3 && Aligned(k - 1, l)
    requires k > 1 || l % Span(1) != 0 || end - l < Span(1)
    requires k > 2 || l % Span(2) != 0 || end - l < Span(2)
    ensures Needed(l, p, size) == Frontier(l, end)
    decreases size, 0
  {
    NeedGoesOn(l, p, size, k, l2, p2, rest);
    NeededIs(l2, p2, rest, end);
    FrontierPast(l, k, l2, end, 4);
  }

  lemma FrontierPast(l: nat, k: nat, l2: nat, end: nat, top: nat)
    requires 1 <= k <= 3 && Aligned(k - 1, l) && l2 == l + Span(k - 1) <= end && top == 4
    requires k > 1 || l % Span(1) != 0 || end - l < Span(1)
    requires k > 2 || l % Span(2) != 0 || end - l < Span(2)
    ensures Frontier(l, end) == PathsTo(top, k, l) + Frontier(l2, end)
  {
    RegionsPast(l, k, end);
    EdgesPast(1, l, k, end);
    EdgesPast(2, l, k, end);
    PathsToIs(k, l, top);
    ThreeParts({On(3, l)}, if k <= 2 then {On(2, l)} else {}, if k <= 1 then {On(1, l)} else {},
               Touched(l2, end), Edges(2, l2, end), Edges(1, l2, end));
  }

  lemma ThreeParts<A>(a: set<A>, b: set<A>, c: set<A>, x: set<A>, y: set<A>, z: set<A>)
    ensures (a + x) + (b + y) + (c + z) == (a + b + c) + (x + y + z)
  {
  }

  lemma {:induction false} RegionsCount(a: nat, b: nat)
    ensures |Regions(a, b)| == if a > b then 0 else b - a + 1
    decreases b + 1 - a
  {
    if a <= b {
      RegionsCount(a + 1, b);
      assert Path(3, a) !in Regions(a + 1, b);
    }
  }

  /** At most one table of level 3 per 512G region and two of each lower level. */
  lemma FrontierCount(l: nat, end: nat)
    requires l < end
    ensures |Frontier(l, end)| <= Prefix(3, end - 1) - Prefix(3, l) + 1 + 4
  {
    TouchedCount(l, end);
    UnionCount(Touched(l, end) + Edges(2, l, end), Edges(1, l, end));
    UnionCount(Touched(l, end), Edges(2, l, end));
    EdgesCount(1, l, end);
    EdgesCount(2, l, end);
  }

  lemma TouchedCount(l: nat, end: nat)
    requires l < end
    ensures |Touched(l, end)| == Prefix(3, end - 1) - Prefix(3, l) + 1
  {
    PrefixIsQuotient(3, l);
    PrefixIsQuotient(3, end - 1);
    assert l / Span(3) <= (end - 1) / Span(3);
    RegionsCount(Prefix(3, l), Prefix(3, end - 1));
  }

  lemma EdgesCount(j: nat, l: nat, end: nat)
    requires 1 <= j <= 3 && l < end
    ensures |Edges(j, l, end)| <= 2
  {
    UnionCount(Edge(j, l), Edge(j, end));
  }

  lemma UnionCount<A>(a: set<A>, b: set<A>)
    ensures |a + b| <= |a| + |b|
  {
    assert a + b == a + (b - a);
    assert |b - a| <= |b| by {
      assert b == (b - a) + (b * a);
    }
  }

  // ------------------------------------------------------- the whole call

  function Total(c: Counts): nat {
    0x4_0000 * c.g + 512 * c.m + c.k
  }

  /** The leaves written make up the length, for every input. */
  lemma {:induction false} CountsAddUp(s: Machine, root: nat, l: nat, p: nat, size: nat, caching: nat, c: Counts)
    requires s.Valid() && root < POOL
    ensures var r := MapLoop(s, root, l, p, size, caching, c); r.Ok? ==> Total(r.value) == Total(c) + size
    decreases size
  {
    if size > 0 {
      var k := LevelAt(l, p, size);
      var t := MapOne(s, root, k, l, caching);
      if t.Ok? {
        var l2, p2, rest, c2 := Advance(l, k), Advance(p, k), size - Span(k - 1), c.Add(k);
        LoopGoesOn(s, root, l, p, size, caching, c, k, t, l2, p2, rest, c2);
        CountsAddUp(t.s, root, l2, p2, rest, caching, c2);
      }
    }
  }

  /** Where the processor finds byte `addr`, and the leaf that says so. */
  function Physical(s: Machine, root: nat, addr: nat): Option<(nat, Translation)>
    requires s.Valid() && root < POOL
  {
    match Walk(s, root, 4, addr / 4096)
    case None => None
    case Some(t) => Some((4096 * t.frame + addr % 4096, t))
  }

  /** Bytes below the recursive slot. */
  const TOP: nat := 4096 * LIMIT

  /** The page ranges of a call on whole pages, none of which is mapped. */
  ghost predicate CanMap(s: Machine, T: Tables, l: nat, size: nat, caching: nat) {
    && Tree(s, T) && Used(s, T) && T[ROOT] < POOL && l + size <= LIMIT && 1 <= caching <= 8
    && (forall addr {:trigger Physical(s, T[ROOT], addr)} ::
          4096 * l <= addr < 4096 * (l + size) ==> Physical(s, T[ROOT], addr) == None)
  }

  /** Every byte of the range goes to itself through the largest leaf possible, with the
      bits asked for, and every other byte below the recursive slot as before. */
  ghost predicate MapsRange(s: Machine, r: Machine, root: nat, l: nat, size: nat, max: nat, bits: (bool, bool, bool))
    requires s.Valid() && r.Valid() && root < POOL
  {
    forall addr: nat {:trigger Physical(r, root, addr)} :: addr < TOP ==>
      Physical(r, root, addr) ==
      if 4096 * l <= addr < 4096 * (l + size)
      then Some((addr, Identity(addr / 4096, LeafLevel(max, l, l + size, addr / 4096), bits)))
      else Physical(s, root, addr)
  }

  lemma WalkIsLookUp(s: Machine, T: Tables, m: nat)
    requires Tree(s, T) && m < LIMIT && T[ROOT] < POOL
    ensures Usable(m) && LookUp(s, T, m) == Walk(s, T[ROOT], 4, m)
  {
    BelowLimitUsable(m);
    RootOnPath(m, 4);
  }

  /** The answer `r` to a call for `size` pages from linear page `l` and physical page `p`
      on the tables `T`: the pool decides between a reset and the map; `U` are the tables
      afterwards, still a tree with no page shared and no table empty. */
  ghost predicate MapsAsAsked(s: Machine, T: Tables, r: Outcome<Counts>, U: Tables, l: nat, p: nat, size: nat,
      caching: nat)
    requires CanMap(s, T, l, size, caching)
  {
    && Supplied(s, T, r, U, Needed(l, p, size))
    && (r.Ok? ==> && U[ROOT] == T[ROOT] && Total(r.value) == size
                  && MapsRange(s, r.s, T[ROOT], l, size, MaxLevel(l, p), CachingBits(caching).value))
  }

  /** page_table_map_lin_to_phy on a table that exists and pages that are not mapped. */
  lemma MapIsCorrect(s: Machine, T: Tables, base: nat, linear: nat, physical: nat, length: nat, caching: nat, l: nat,
      p: nat, size: nat)
    returns (r: Outcome<Counts>, U: Tables)
    requires CanMap(s, T, l, size, caching) && base == s.Address(T[ROOT])
    requires linear == 4096 * l && physical == 4096 * p && length == 4096 * size
    ensures Map(s, base, linear, physical, length, caching) == Answer(s.Address(T[ROOT]), r)
    ensures MapsAsAsked(s, T, r, U, l, p, size, caching)
  {
    MapUnfolds(s, base, linear, physical, length, caching, l, p, size);
    RootFound(s, T[ROOT], base);
    PagesUnfold(s, base, s, T[ROOT], l, p, size, caching);
    r, U := LoopMaps(s, T, l, p, size, caching, Counts(0, 0, 0));
  }

  lemma LoopMaps(s: Machine, T: Tables, l: nat, p: nat, size: nat, caching: nat, c: Counts)
    returns (r: Outcome<Counts>, U: Tables)
    requires CanMap(s, T, l, size, caching) && Total(c) == 0
    ensures r == MapLoop(s, T[ROOT], l, p, size, caching, c)
    ensures MapsAsAsked(s, T, r, U, l, p, size, caching)
  {
    RangeIsReady(s, T, l, size, caching);
    r, U := LoopIsCorrect(s, T, l, p, size, caching, c);
    WholeCount(s, T[ROOT], l, p, size, caching, c, r);
    if r.Ok? {
      RangeIsMapped(s, T, r.s, U, l, p, size, CachingBits(caching).value);
    }
  }

  lemma RangeIsReady(s: Machine, T: Tables, l: nat, size: nat, caching: nat)
    requires CanMap(s, T, l, size, caching)
    ensures Ready(s, T, l, size, caching)
  {
    forall m | l <= m < l + size
      ensures LookUp(s, T, m) == None
    {
      WalkIsLookUp(s, T, m);
      assert Physical(s, T[ROOT], 4096 * m) == None;
    }
  }

  lemma RootFound(s: Machine, root: nat, base: nat)
    requires s.Valid() && root < POOL && base == s.Address(root)
    ensures Root(s, base) == Ok(s, root)
  {
    assert base / 4096 == s.origin + root;
  }

  lemma PagesUnfold(s: Machine, base: nat, t: Machine, root: nat, l: nat, p: nat, size: nat, caching: nat)
    requires s.Valid() && t.Valid() && root < POOL && Root(s, base) == Ok(t, root)
    ensures MapPages(s, base, l, p, size, caching) ==
      Answer(s.Address(root), MapLoop(t, root, l, p, size, caching, Counts(0, 0, 0)))
  {
  }

  lemma MapUnfolds(s: Machine, base: nat, linear: nat, physical: nat, length: nat, caching: nat, l: nat, p: nat,
      size: nat)
    requires s.Valid() && linear == 4096 * l && physical == 4096 * p && length == 4096 * size
    ensures Map(s, base, linear, physical, length, caching) == MapPages(s, base, l, p, size, caching)
  {
    assert linear / 4096 == l && physical / 4096 == p && length / 4096 == size;
  }

  lemma WholeCount(s: Machine, root: nat, l: nat, p: nat, size: nat, caching: nat, c: Counts, q: Outcome<Counts>)
    requires s.Valid() && root < POOL && q == MapLoop(s, root, l, p, size, caching, c) && Total(c) == 0
    ensures q.Ok? ==> Total(q.value) == size
  {
    CountsAddUp(s, root, l, p, size, caching, c);
  }

  lemma RangeIsMapped(s: Machine, T: Tables, r: Machine, U: Tables, l: nat, p: nat, size: nat, bits: (bool, bool, bool))
    requires Tree(s, T) && Tree(r, U) && T[ROOT] == U[ROOT] < POOL && l + size <= LIMIT
    requires RangeMapped(s, T, r, U, l, p, size, bits)
    ensures MapsRange(s, r, T[ROOT], l, size, MaxLevel(l, p), bits)
  {
    forall addr: nat | addr < TOP
      ensures Physical(r, T[ROOT], addr) ==
              if 4096 * l <= addr < 4096 * (l + size)
              then Some((addr, Identity(addr / 4096, LeafLevel(MaxLevel(l, p), l, l + size, addr / 4096), bits)))
              else Physical(s, T[ROOT], addr)
    {
      var m := addr / 4096;
      WalkIsLookUp(s, T, m);
      WalkIsLookUp(r, U, m);
      if l <= m < l + size {
        LevelOfIs(l, p, size, m);
      }
    }
  }

  /** The 512G regions that the pages from `l` up to `end` touch. */
  function RegionsTouched(l: nat, end: nat): int
    requires end > 0
  {
    Prefix(3, end - 1) - Prefix(3, l) + 1
  }

  /** For addresses of equal alignment the tables needed are those around the two ends and
      one per 512G region touched, so that many and four more pages are enough. */
  lemma NeededBound(T: Tables, l: nat, p: nat, size: nat, end: nat)
    requires size > 0 && MaxLevel(l, p) == 3 && end == l + size
    ensures Needed(l, p, size) == Frontier(l, end)
    ensures |Needed(l, p, size) - T.Keys| <= RegionsTouched(l, end) + 4
  {
    NeededIs(l, p, size, end);
    FrontierCount(l, end);
    RestIsSmaller(Frontier(l, end), T.Keys);
  }

  /** The tables that a call with equal addresses uses and that are not there. */
  function Missing(T: Tables, l: nat, size: nat): set<Path> {
    Needed(l, l, size) - T.Keys
  }

  /** A call with equal addresses succeeds exactly when the pool holds the missing tables,
      takes one page for each, and four more than the 512G regions touched are enough. */
  lemma PagesTaken(s: Machine, T: Tables, base: nat, linear: nat, length: nat, caching: nat, l: nat, size: nat)
    requires CanMap(s, T, l, size, caching) && base == s.Address(T[ROOT]) && size > 0
    requires linear == 4096 * l && length == 4096 * size
    ensures var r := Map(s, base, linear, linear, length, caching);
      && (r.Ok? <==> s.top + |Missing(T, l, size)| <= POOL)
      && (r.Ok? ==> r.s.top == s.top + |Missing(T, l, size)| <= s.top + RegionsTouched(l, l + size) + 4)
      && (s.top + RegionsTouched(l, l + size) + 4 <= POOL ==> r.Ok?)
  {
    hide Needed, PathsTo, Prefix, Frontier, Map, CanMap, Supplied, MapsRange;
    var r, U := MapIsCorrect(s, T, base, linear, linear, length, caching, l, l, size);
    var n, regions := |Needed(l, l, size) - T.Keys|, RegionsTouched(l, l + size);
    TopGrows(s, T, r, U, Needed(l, l, size));
    NeededBound(T, l, l, size, l + size);
    AnswerTop(s.top, r, base, n, regions);
  }

  lemma TopGrows(s: Machine, T: Tables, r: Outcome<Counts>, U: Tables, need: set<Path>)
    requires Supplied(s, T, r, U, need)
    ensures r.Ok? <==> s.top + |need - T.Keys| <= POOL
    ensures r.Ok? ==> r.s.top == s.top + |need - T.Keys|
  {
  }

  lemma AnswerTop(top: nat, r: Outcome<Counts>, base: nat, n: nat, regions: int)
    requires (r.Ok? <==> top + n <= POOL) && (r.Ok? ==> r.s.top == top + n) && n <= regions + 4
    ensures var q := Answer(base, r);
      && (q.Ok? <==> top + n <= POOL) && (q.Ok? ==> q.s.top == top + n <= top + regions + 4)
      && (top + regions + 4 <= POOL ==> q.Ok?)
  {
  }

  lemma RestIsSmaller<A>(a: set<A>, b: set<A>)
    ensures |a - b| <= |a|
  {
    assert a == (a - b) + (a * b);
  }

  /** All three leaf writes store the linear address, so the map is the one asked for
      exactly when the two addresses are the same, or there is nothing to map. */
  lemma MapsToPhysicalIffSame(s: Machine, T: Tables, r: Outcome<Counts>, U: Tables, l: nat, p: nat, size: nat,
      caching: nat)
    requires CanMap(s, T, l, size, caching) && MapsAsAsked(s, T, r, U, l, p, size, caching) && r.Ok?
    ensures (forall addr: nat {:trigger Physical(r.s, T[ROOT], addr)} :: 4096 * l <= addr < 4096 * (l + size) ==>
               Physical(r.s, T[ROOT], addr).Some? && Physical(r.s, T[ROOT], addr).value.0 == addr - 4096 * l + 4096 * p)
            <==> l == p || size == 0
  {
    if size > 0 {
      assert Physical(r.s, T[ROOT], 4096 * l).Some?;
    }
  }

  /** A new root: entry 511 leads to itself, nothing is translated. */
  lemma NewRootIsEmpty(s: Machine)
    requires s.Valid() && s.top < POOL
    ensures var (r, T) := (NewRoot(s), map[ROOT := s.top]);
      && r.Ok? && r.value == s.top && r.s.top == s.top + 1 && Tree(r.s, T) && Used(r.s, T)
      && PointsTo(r.s.At(s.top, 511), s.origin + s.top)
      && (forall n {:trigger LookUp(r.s, T, n)} :: Usable(n) ==> LookUp(r.s, T, n) == None)
  {
    var r, T := NewRoot(s), map[ROOT := s.top];
    PdeAddr(ZERO, s.origin + s.top);
    forall a, i: nat | a in T && i < 512
      ensures PathOk(r.s, T, a) && EntryOk(r.s, T, a, i)
    {
      assert a == ROOT;
    }
    forall n | Usable(n)
      ensures LookUp(r.s, T, n) == None
    {
      RootOnPath(n, 4);
      assert PathOk(r.s, T, ROOT);
      WalkStep(r.s, T, 4, n);
    }
  }

  lemma NewRootCanMap(s: Machine, l: nat, size: nat, caching: nat)
    requires s.Valid() && s.top < POOL && l + size <= LIMIT && 1 <= caching <= 8
    ensures CanMap(NewRoot(s).s, map[ROOT := s.top], l, size, caching)
  {
    NewRootIsEmpty(s);
    var t, T := NewRoot(s).s, map[ROOT := s.top];
    forall addr | 4096 * l <= addr < 4096 * (l + size)
      ensures Physical(t, T[ROOT], addr) == None
    {
      WalkIsLookUp(t, T, addr / 4096);
    }
  }

  /** The first call, for AC_NULL, is the call on a new root, where nothing is mapped. */
  lemma MapOnNewRoot(s: Machine, linear: nat, physical: nat, length: nat, caching: nat, l: nat, p: nat, size: nat,
      t: Machine, root: nat)
    returns (r: Outcome<Counts>, U: Tables)
    requires s.Valid() && NewRoot(s) == Ok(t, root) && l + size <= LIMIT && 1 <= caching <= 8
    requires linear == 4096 * l && physical == 4096 * p && length == 4096 * size
    ensures Map(s, 0, linear, physical, length, caching) == Answer(s.Address(root), r)
    ensures CanMap(t, map[ROOT := root], l, size, caching)
    ensures MapsAsAsked(t, map[ROOT := root], r, U, l, p, size, caching)
  {
    NewRootCanMap(s, l, size, caching);
    MapUnfolds(s, 0, linear, physical, length, caching, l, p, size);
    PagesUnfold(s, 0, t, root, l, p, size, caching);
    r, U := LoopMaps(t, map[ROOT := root], l, p, size, caching, Counts(0, 0, 0));
  }

  /** Linear page 1 is asked to go to physical page 2, on a new root: the call succeeds and
      the page goes to physical page 1. */
  lemma OtherPhysicalIsIgnored(s: Machine)
    requires s.Valid() && s.top + 4 <= POOL
    ensures var r := Map(s, 0, 0x1000, 0x2000, 0x1000, 1);
      && r.Ok? && NewRoot(s).Ok?
      && var found := Physical(r.s, NewRoot(s).value, 0x1000);
         found.Some? && found.value.0 == 0x1000
  {
    var t, root := NewRoot(s).s, NewRoot(s).value;
    var T: Tables := map[ROOT := root];
    var r, U := MapOnNewRoot(s, 0x1000, 0x2000, 0x1000, 1, 1, 2, 1, t, root);
    OnePageNeeds(1, 2);
    RestIsSmaller(Needed(1, 2, 1), T.Keys);
    assert Physical(r.s, root, 0x1000).Some?;
  }

  lemma OnePageNeeds(l: nat, p: nat)
    ensures |Needed(l, p, 1)| <= 3
  {
    assert LevelAt(l, p, 1) == 1;
    NeedGoesOn(l, p, 1, 1, l + 1, Advance(p, 1), 0);
    assert PathsTo(2, 1, l) == {On(1, l)} + PathsTo(1, 1, l) == {On(1, l)};
    assert PathsTo(4, 1, l) == {On(3, l)} + PathsTo(3, 1, l) == {On(3, l)} + ({On(2, l)} + PathsTo(2, 1, l));
    assert Needed(l, p, 1) == {On(3, l)} + {On(2, l)} + {On(1, l)};
    Three(On(3, l), On(2, l), On(1, l));
  }

  lemma Three<A>(a: A, b: A, c: A)
    ensures |{a} + {b} + {c}| <= 3
  {
    assert |{a} + {b}| <= 2;
  }
}
