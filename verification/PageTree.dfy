/** The tables as a tree: which page holds the table of which part of the address space,
    and how each step of the mapper changes the tree and the translation. */
module PageTree {
  import opened PageTable

  /** The table of level `level` for the pages whose prefix at that level is `prefix`. */
  datatype Path = Path(level: nat, prefix: nat)
  type Tables = map<Path, nat>

  const ROOT: Path := Path(4, 0)

  /** The path of page `n` at level `k`. */
  function On(k: nat, n: nat): Path {
    Path(k, Prefix(k, n))
  }

  function Child(a: Path, i: nat): Path
    requires a.level > 0
  {
    Path(a.level - 1, 512 * a.prefix + i)
  }

  function Parent(a: Path): Path {
    Path(a.level + 1, a.prefix / 512)
  }

  /** Pages translated through an entry of the root other than the recursive one. */
  predicate Usable(n: nat) {
    n < PAGES && Prefix(3, n) < 511
  }

  /** The recursive entry of the root. */
  predicate Recursive(a: Path, i: nat) {
    a.level == 4 && i == 511
  }

  /** The entry leads to the table in page number `x`. */
  predicate PointsTo(e: Entry, x: nat) {
    e.p && e.rw && !e.b7 && e.PdePhyAddr() == x
  }

  predicate IsLeaf(e: Entry, k: nat)
    requires 1 <= k <= 4
  {
    Leaf(e, k, 0).Some? && (k == 1 || e.b7)
  }

  predicate PathOk(s: Machine, T: Tables, a: Path)
    requires a in T
  {
    && 1 <= a.level <= 4
    && T[a] < s.top
    && if a.level == 4 then a == ROOT else Parent(a) in T && (a.level == 3 ==> a.prefix < 511)
  }

  predicate EntryOk(s: Machine, T: Tables, a: Path, i: nat)
    requires s.Valid() && a in T && T[a] < POOL && 1 <= a.level <= 4 && i < 512
  {
    var e := s.At(T[a], i);
    Recursive(a, i) ||
    if Child(a, i) in T then PointsTo(e, s.origin + T[Child(a, i)]) else e == ZERO || IsLeaf(e, a.level)
  }

  /** The tables form a tree and no page is shared. */
  ghost predicate Tree(s: Machine, T: Tables) {
    && s.Valid() && s.top <= POOL && ROOT in T
    && (forall a {:trigger PathOk(s, T, a)} :: a in T ==> PathOk(s, T, a))
    && (forall a, b {:trigger T[a], T[b]} :: a in T && b in T && T[a] == T[b] ==> a == b)
    && (forall a, i: nat {:trigger EntryOk(s, T, a, i)} :: a in T && i < 512 ==> PathOk(s, T, a) && EntryOk(s, T, a, i))
  }

  /** The translation of `n` from the table of level `k` on its path. */
  ghost function Look(s: Machine, T: Tables, k: nat, n: nat): Option<Translation>
    requires Tree(s, T) && 1 <= k <= 4 && On(k, n) in T
  {
    assert PathOk(s, T, On(k, n));
    Walk(s, T[On(k, n)], k, n)
  }

  lemma ChildOnPath(k: nat, n: nat)
    requires k > 0
    ensures Child(On(k, n), Index(k, n)) == On(k - 1, n)
  {
  }

  lemma ParentOnPath(k: nat, n: nat)
    ensures Parent(On(k, n)) == On(k + 1, n)
  {
  }

  lemma RootOnPath(n: nat, k: nat)
    requires n < PAGES && k == 4
    ensures On(k, n) == ROOT
  {
    assert Prefix(1, n) == n / 512 < 0x800_0000;
    assert Prefix(2, n) == Prefix(1, n) / 512 < 0x4_0000;
    assert Prefix(3, n) == Prefix(2, n) / 512 < 512;
  }

  lemma ChildDetermines(a: Path, i: nat, b: Path, j: nat)
    requires a.level > 0 && b.level > 0 && i < 512 && j < 512 && Child(a, i) == Child(b, j)
    ensures a == b && i == j
  {
  }

  /** Any page number of 51 bits written through the phy_addr field is read back through it,
      whatever the entry was; the entry leads to that table unless it is marked as a leaf. */
  lemma PdeAddr(e: Entry, x: nat)
    requires x < 16 * POW47
    ensures Pde(e, x).PdePhyAddr() == x
    ensures PointsTo(Pde(e, x), x) <==> !e.b7
  {
    assert x / 2 % POW46 * 2 + x % 2 == x % POW47;
  }

  /** One step of the walk goes to the table below when there is one. */
  lemma WalkStep(s: Machine, T: Tables, k: nat, n: nat)
    requires Tree(s, T) && 1 <= k <= 4 && On(k, n) in T && Usable(n)
    requires PathOk(s, T, On(k, n))
    ensures On(k - 1, n) in T ==> k > 1
    ensures Look(s, T, k, n) ==
            if On(k - 1, n) in T then Look(s, T, k - 1, n) else Leaf(s.At(T[On(k, n)], Index(k, n)), k, n)
  {
    var a, i := On(k, n), Index(k, n);
    ChildOnPath(k, n);
    assert EntryOk(s, T, a, i);
    if On(k - 1, n) in T {
      assert PathOk(s, T, On(k - 1, n));
    }
  }

  /** The walk from the root passes every table on the path. */
  lemma {:induction false} LookDown(s: Machine, T: Tables, k: nat, n: nat)
    requires Tree(s, T) && 1 <= k <= 4 && On(k, n) in T && Usable(n)
    ensures On(4, n) in T && Look(s, T, 4, n) == Look(s, T, k, n)
    decreases 4 - k
  {
    if k < 4 {
      assert PathOk(s, T, On(k, n));
      ParentOnPath(k, n);
      LookDown(s, T, k + 1, n);
      assert PathOk(s, T, On(k + 1, n));
      WalkStep(s, T, k + 1, n);
    }
  }

  /** What a page with no translation finds at the deepest table of its path. */
  lemma UnmappedEntry(s: Machine, T: Tables, k: nat, n: nat)
    requires Tree(s, T) && 1 <= k <= 4 && On(k, n) in T && Usable(n) && On(k - 1, n) !in T
    requires On(4, n) in T && Look(s, T, 4, n) == None
    ensures PathOk(s, T, On(k, n)) && s.At(T[On(k, n)], Index(k, n)) == ZERO
  {
    assert PathOk(s, T, On(k, n));
    LookDown(s, T, k, n);
    WalkStep(s, T, k, n);
    ChildOnPath(k, n);
    assert EntryOk(s, T, On(k, n), Index(k, n));
  }

  // ------------------------------------------------------------ a new table

  /** The tables after get_or_alloc_pde has given page `n` a table of level `k - 1`. */
  function Grown(s: Machine, T: Tables, k: nat, n: nat): Tables
    requires k > 0
  {
    T[On(k - 1, n) := s.top]
  }

  ghost predicate CanGrow(s: Machine, T: Tables, k: nat, n: nat) {
    && Tree(s, T) && 2 <= k <= 4 && Usable(n) && On(k, n) in T && On(k - 1, n) !in T && s.top < POOL
    && PathOk(s, T, On(k, n)) && s.At(T[On(k, n)], Index(k, n)) == ZERO
  }

  lemma EnterAllocates(s: Machine, T: Tables, k: nat, n: nat)
    requires CanGrow(s, T, k, n)
    ensures var (a, i) := (On(k, n), Index(k, n));
      Enter(s, T[a], i) == Ok(AllocPde(s).Put(T[a], i, Pde(ZERO, s.origin + s.top)), s.top)
  {
    PdeAddr(ZERO, s.origin + s.top);
  }

  /** The machine after that step. */
  ghost function Grow(s: Machine, T: Tables, k: nat, n: nat, e: Entry): (r: Machine)
    requires CanGrow(s, T, k, n)
    ensures r.Valid() && r.origin == s.origin && r.top == s.top + 1
    ensures r.At(T[On(k, n)], Index(k, n)) == e
    ensures forall i: nat :: i < 512 ==> r.At(s.top, i) == ZERO
    ensures forall q: nat, i: nat :: q < POOL && i < 512 && q != s.top && (q, i) != (T[On(k, n)], Index(k, n)) ==>
      r.At(q, i) == s.At(q, i)
  {
    AllocPde(s).Put(T[On(k, n)], Index(k, n), e)
  }

  lemma GrowEntries(s: Machine, T: Tables, k: nat, n: nat, e: Entry, a: Path, i: nat)
    requires CanGrow(s, T, k, n) && PointsTo(e, s.origin + s.top) && i < 512 && a in Grown(s, T, k, n)
      && PathOk(Grow(s, T, k, n, e), Grown(s, T, k, n), a)
    ensures EntryOk(Grow(s, T, k, n, e), Grown(s, T, k, n), a, i)
  {
    var b := On(k - 1, n);
    if a != b {
      assert EntryOk(s, T, a, i) && PathOk(s, T, a);
      assert T[a] == T[On(k, n)] ==> a == On(k, n);
      ChildOnPath(k, n);
      if Child(a, i) == b {
        ChildDetermines(a, i, On(k, n), Index(k, n));
      } else {
        GrowOtherEntry(s, T, k, n, e, a, i);
      }
    } else {
      assert Child(b, i) in T ==> PathOk(s, T, Child(b, i));
    }
  }

  lemma GrowOtherEntry(s: Machine, T: Tables, k: nat, n: nat, e: Entry, a: Path, i: nat)
    requires CanGrow(s, T, k, n) && PointsTo(e, s.origin + s.top) && i < 512 && a in T && PathOk(s, T, a)
      && EntryOk(s, T, a, i)
    requires Child(a, i) != On(k - 1, n) && (T[a] == T[On(k, n)] ==> a == On(k, n))
    requires Child(On(k, n), Index(k, n)) == On(k - 1, n)
    ensures EntryOk(Grow(s, T, k, n, e), Grown(s, T, k, n), a, i)
  {
    assert Grow(s, T, k, n, e).At(T[a], i) == s.At(T[a], i);
  }

  lemma GrowKeepsTree(s: Machine, T: Tables, k: nat, n: nat, e: Entry)
    requires CanGrow(s, T, k, n) && PointsTo(e, s.origin + s.top)
    ensures Tree(Grow(s, T, k, n, e), Grown(s, T, k, n))
  {
    var r, U := Grow(s, T, k, n, e), Grown(s, T, k, n);
    forall a | a in U
      ensures PathOk(r, U, a)
    {
      ParentOnPath(k - 1, n);
      if a in T {
        assert PathOk(s, T, a);
      }
    }
    forall a, i: nat | a in U && i < 512
      ensures PathOk(r, U, a) && EntryOk(r, U, a, i)
    {
      assert PathOk(r, U, a);
      GrowEntries(s, T, k, n, e, a, i);
    }
    forall a, b | a in U && b in U && U[a] == U[b]
      ensures a == b
    {
      assert a in T ==> PathOk(s, T, a);
      assert b in T ==> PathOk(s, T, b);
    }
  }

  /** An empty table translates no more pages than no table. */
  lemma {:induction false} GrowKeepsLook(s: Machine, T: Tables, k: nat, n: nat, e: Entry, j: nat, m: nat)
    requires CanGrow(s, T, k, n) && PointsTo(e, s.origin + s.top) && 1 <= j <= 4 && On(j, m) in T && Usable(m)
    ensures Tree(Grow(s, T, k, n, e), Grown(s, T, k, n))
    ensures Look(Grow(s, T, k, n, e), Grown(s, T, k, n), j, m) == Look(s, T, j, m)
    decreases j
  {
    var r, U := Grow(s, T, k, n, e), Grown(s, T, k, n);
    GrowKeepsTree(s, T, k, n, e);
    assert PathOk(s, T, On(j, m)) && PathOk(r, U, On(j, m));
    WalkStep(s, T, j, m);
    WalkStep(r, U, j, m);
    if On(j - 1, m) in T {
      GrowKeepsLook(s, T, k, n, e, j - 1, m);
    } else if On(j - 1, m) == On(k - 1, n) {
      assert PathOk(r, U, On(j - 1, m));
      ParentOnPath(j - 1, m);
      ParentOnPath(k - 1, n);
      ChildOnPath(k, n);
      ChildOnPath(j, m);
      assert Index(j, m) == Index(k, n);
    } else {
      assert T[On(j, m)] == T[On(k, n)] ==> On(j, m) == On(k, n);
      ChildOnPath(k, n);
      ChildOnPath(j, m);
    }
  }

  // ------------------------------------------------------------ a new leaf

  ghost predicate CanWrite(s: Machine, T: Tables, k: nat, n: nat) {
    && Tree(s, T) && 1 <= k <= 3 && Usable(n) && Aligned(k - 1, n) && On(k, n) in T && On(k - 1, n) !in T
    && PathOk(s, T, On(k, n)) && s.At(T[On(k, n)], Index(k, n)) == ZERO
  }

  /** The machine after the writes into the entry of page `n`. */
  ghost function Written(s: Machine, T: Tables, k: nat, n: nat, e: Entry): (r: Machine)
    requires CanWrite(s, T, k, n)
    ensures r.Valid()
  {
    s.Put(T[On(k, n)], Index(k, n), e)
  }

  /** The entry `e` of level `k` maps every page it covers around `n` to itself. */
  ghost predicate MapsToItself(e: Entry, k: nat, n: nat, bits: (bool, bool, bool))
    requires 1 <= k <= 3
  {
    IsLeaf(e, k) && forall m: nat {:trigger Leaf(e, k, m)} :: Prefix(k - 1, m) == Prefix(k - 1, n) ==>
      Leaf(e, k, m) == Some(Identity(m, k, bits))
  }

  lemma LeafMapsToItself(k: nat, n: nat, bits: (bool, bool, bool)) returns (e: Entry)
    requires 1 <= k <= 3 && n < PAGES && Aligned(k - 1, n)
    ensures e == LeafEntry(ZERO, k, n, bits) && MapsToItself(e, k, n, bits)
  {
    e := LeafEntry(ZERO, k, n, bits);
    LeafIsIdentity(k, n, n, bits);
    forall m: nat | Prefix(k - 1, m) == Prefix(k - 1, n)
      ensures Leaf(e, k, m) == Some(Identity(m, k, bits))
    {
      LeafIsIdentity(k, n, m, bits);
    }
  }

  function Identity(n: nat, k: nat, bits: (bool, bool, bool)): Translation {
    Translation(n, k, true, bits.0, bits.1, bits.2)
  }

  lemma PrefixIsQuotient(k: nat, n: nat)
    requires k <= 3
    ensures Prefix(k, n) == n / Span(k)
  {
    if k == 1 {
      assert Prefix(1, n) == n / 512;
    } else if k == 2 {
      assert Prefix(1, n) == n / 512;
      assert Prefix(2, n) == Prefix(1, n) / 512;
    } else if k == 3 {
      assert Prefix(1, n) == n / 512;
      assert Prefix(2, n) == Prefix(1, n) / 512;
      assert Prefix(3, n) == Prefix(2, n) / 512;
    }
  }

  /** The new leaf maps every page it covers to itself. */
  lemma LeafIsIdentity(k: nat, n: nat, m: nat, bits: (bool, bool, bool))
    requires 1 <= k <= 3 && n < PAGES && Aligned(k - 1, n) && Prefix(k - 1, m) == Prefix(k - 1, n)
    ensures var e := LeafEntry(ZERO, k, n, bits); IsLeaf(e, k) && Leaf(e, k, m) == Some(Identity(m, k, bits))
  {
    PrefixIsQuotient(k - 1, m);
    PrefixIsQuotient(k - 1, n);
    if k == 1 {
      assert n / 2 % POW46 == n / 2;
    } else {
      EvenStart(k, n, m);
      assert n / 2 % POW46 == n / 2;
      assert LeafEntry(ZERO, k, n, bits).HugePhyAddr() == n / 2;
    }
  }

  lemma EvenStart(k: nat, n: nat, m: nat)
    requires 2 <= k <= 3 && Aligned(k - 1, n) && m / Span(k - 1) == n / Span(k - 1)
    ensures n % 2 == 0 && n + m % Span(k - 1) == m
  {
    if k == 2 {
      var q := n / 512;
      Even(n, 256 * q);
    } else {
      var q := n / 0x4_0000;
      Even(n, 0x2_0000 * q);
    }
  }

  lemma Even(n: nat, half: nat)
    requires n == 2 * half
    ensures n % 2 == 0
  {
  }

  lemma WriteKeepsTree(s: Machine, T: Tables, k: nat, n: nat, e: Entry)
    requires CanWrite(s, T, k, n) && IsLeaf(e, k)
    ensures Tree(Written(s, T, k, n, e), T)
  {
    var r := Written(s, T, k, n, e);
    forall a | a in T
      ensures PathOk(r, T, a)
    {
      assert PathOk(s, T, a);
    }
    forall a, i: nat | a in T && i < 512
      ensures PathOk(r, T, a) && EntryOk(r, T, a, i)
    {
      assert EntryOk(s, T, a, i) && PathOk(r, T, a);
      ChildOnPath(k, n);
      assert T[a] == T[On(k, n)] ==> a == On(k, n);
    }
  }

  lemma WriteMaps(s: Machine, T: Tables, k: nat, n: nat, e: Entry, bits: (bool, bool, bool), m: nat)
    requires CanWrite(s, T, k, n) && MapsToItself(e, k, n, bits) && Usable(m) && Prefix(k - 1, m) == Prefix(k - 1, n)
    ensures Tree(Written(s, T, k, n, e), T) && On(4, m) in T
    ensures Look(Written(s, T, k, n, e), T, 4, m) == Some(Identity(m, k, bits))
  {
    var r := Written(s, T, k, n, e);
    WriteKeepsTree(s, T, k, n, e);
    LookDown(r, T, k, m);
    assert PathOk(r, T, On(k, m));
    WalkStep(r, T, k, m);
  }

  lemma {:induction false} WriteKeepsOthers(s: Machine, T: Tables, k: nat, n: nat, e: Entry, j: nat, m: nat)
    requires CanWrite(s, T, k, n) && IsLeaf(e, k) && Usable(m) && Prefix(k - 1, m) != Prefix(k - 1, n) && 1 <= j <= 4
      && On(j, m) in T
    ensures Tree(Written(s, T, k, n, e), T)
    ensures Look(Written(s, T, k, n, e), T, j, m) == Look(s, T, j, m)
    decreases j
  {
    var r := Written(s, T, k, n, e);
    WriteKeepsTree(s, T, k, n, e);
    assert PathOk(r, T, On(j, m)) && PathOk(s, T, On(j, m));
    WalkStep(s, T, j, m);
    WalkStep(r, T, j, m);
    if On(j - 1, m) in T {
      WriteKeepsOthers(s, T, k, n, e, j - 1, m);
    } else {
      assert T[On(j, m)] == T[On(k, n)] ==> On(j, m) == On(k, n);
      ChildOnPath(k, n);
      ChildOnPath(j, m);
    }
  }
}
