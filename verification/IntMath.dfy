/** Integer helpers of libs/incs/ac_intmath.h, and the arithmetic of masks that the
    ring buffer relies on. */
module IntMath {

  const POW64: nat := 0x1_0000_0000_0000_0000
  const HALF64: nat := 0x8000_0000_0000_0000

  type Word64 = x: nat | x < POW64

  function Pow2(k: nat): (r: nat)
    ensures r >= 1
  {
    if k == 0 then 1 else 2 * Pow2(k - 1)
  }

  predicate PowerIs(v: nat, k: nat) {
    v == Pow2(k)
  }

  ghost predicate IsPow2(v: nat) {
    exists k: nat :: PowerIs(v, k)
  }

  lemma Exponent(v: nat) returns (k: nat)
    requires IsPow2(v)
    ensures v == Pow2(k)
  {
    k :| PowerIs(v, k);
  }

  lemma PowerOfTwo(v: nat, k: nat)
    requires v == Pow2(k)
    ensures IsPow2(v)
  {
    assert PowerIs(v, k);
  }

  /** Bitwise AND of two naturals, bit by bit. */
  function And(a: nat, b: nat): (r: nat)
    ensures r <= b && r <= a
    decreases b
  {
    if b == 0 then 0 else (a % 2) * (b % 2) + 2 * And(a / 2, b / 2)
  }

  function OneBits(v: nat): nat {
    if v == 0 then 0 else v % 2 + OneBits(v / 2)
  }

  /** AC_COUNT_ONE_BITS: the loop that shifts `value` to zero counts its one bits. */
  method CountOneBits(value: nat) returns (oneBits: nat)
    ensures oneBits == OneBits(value)
  {
    oneBits := 0;
    var v := value;
    while v != 0
      invariant oneBits + OneBits(v) == OneBits(value)
    {
      oneBits := oneBits + v % 2;
      v := v / 2;
    }
  }

  lemma {:induction false} OneBitsZero(v: nat)
    ensures OneBits(v) == 0 <==> v == 0
  {
    if v != 0 {
      OneBitsZero(v / 2);
    }
  }

  /** The test AC_COUNT_ONE_BITS(size) == 1 is exactly "size is a power of two". */
  lemma {:induction false} OneBitIsPow2(v: nat)
    ensures OneBits(v) == 1 <==> IsPow2(v)
  {
    if v == 0 {
      if IsPow2(v) {
        var k := Exponent(v);
      }
    } else if v % 2 == 1 {
      OneBitsZero(v / 2);
      if v == 1 {
        PowerOfTwo(v, 0);
      } else if IsPow2(v) {
        var k := Exponent(v);
      }
    } else {
      OneBitIsPow2(v / 2);
      if IsPow2(v / 2) {
        var k := Exponent(v / 2);
        PowerOfTwo(v, k + 1);
      }
      if IsPow2(v) {
        var k := Exponent(v);
        PowerOfTwo(v / 2, k - 1);
      }
    }
  }

  /** Masking with 2^k - 1 is the remainder modulo 2^k. */
  lemma {:induction false} MaskIsMod(a: nat, k: nat, n: nat)
    requires n == Pow2(k)
    ensures And(a, n - 1) == a % n
  {
    if k == 0 {
      assert n - 1 == 0;
    } else {
      var h := n / 2;
      assert h == Pow2(k - 1) && n == 2 * h;
      MaskIsMod(a / 2, k - 1, h);
      AndOdd(a, h - 1, n - 1);
      ModTwice(a, h, n);
    }
  }

  lemma AndOdd(a: nat, b: nat, m: nat)
    requires m == 2 * b + 1
    ensures And(a, m) == a % 2 + 2 * And(a / 2, b)
  {
    assert m / 2 == b && m % 2 == 1;
  }

  lemma ModTwice(a: nat, h: nat, n: nat)
    requires n == 2 * h > 0
    ensures a % n == a % 2 + 2 * ((a / 2) % h)
  {
    var q, r := (a / 2) / h, (a / 2) % h;
    assert a / 2 == q * h + r;
    assert q * n == 2 * (q * h);
    ModUnique(a, n, q, a % 2 + 2 * r);
  }

  lemma Division(a: nat, n: nat)
    requires n > 0
    ensures a == (a / n) * n + a % n && 0 <= a % n < n && a / n >= 0
  {
  }

  lemma MulSign(d: int, n: int)
    requires n > 0
    ensures d >= 1 ==> d * n >= n
    ensures d <= -1 ==> d * n <= -n
  {
  }

  /** Quotient and remainder are determined by a == q * n + r and 0 <= r < n. */
  lemma ModUnique(a: int, n: int, q: int, r: int)
    requires n > 0 && a == q * n + r && 0 <= r < n
    ensures a % n == r && a / n == q
  {
    var d := a / n - q;
    assert d * n == r - a % n;
    MulSign(d, n);
  }

  /** Two positions in one window of n consecutive positions with the same
      remainder are the same position. */
  lemma ModWindow(p: int, q: int, n: int)
    requires n > 0 && p % n == q % n && -n < p - q < n
    ensures p == q
  {
    var d := p / n - q / n;
    assert p - q == d * n;
    MulSign(d, n);
  }

  lemma ModAddMultiple(p: int, n: int, k: int)
    requires n > 0
    ensures (p + k * n) % n == p % n
  {
    ModUnique(p + k * n, n, p / n + k, p % n);
  }

  lemma {:induction false} Pow2Add(a: nat, b: nat)
    ensures Pow2(a + b) == Pow2(a) * Pow2(b)
  {
    if a > 0 {
      Pow2Add(a - 1, b);
      assert Pow2(a) * Pow2(b) == 2 * (Pow2(a - 1) * Pow2(b));
    }
  }

  lemma {:induction false} Pow2Monotone(a: nat, b: nat)
    requires Pow2(a) < Pow2(b)
    ensures a < b
  {
    if a >= b {
      Pow2Add(b, a - b);
      assert Pow2(b) * Pow2(a - b) >= Pow2(b);
    }
  }

  /** Reducing modulo 2^b first does not change the remainder modulo 2^a, a <= b. */
  lemma ModMod(p: nat, a: nat, b: nat)
    requires a <= b
    ensures (p % Pow2(b)) % Pow2(a) == p % Pow2(a)
  {
    Pow2Add(b - a, a);
    ModOfMultiple(p, Pow2(a), Pow2(b - a));
  }

  lemma ModOfMultiple(p: nat, n: nat, k: nat)
    requires n > 0 && k > 0 && k * n > 0
    ensures (p % (k * n)) % n == p % n
  {
    var w := k * n;
    var q := p / w;
    assert p == p % w + q * w;
    MulAssoc(q, k, n);
    ModAddMultiple(p % w, n, q * k);
  }

  lemma MulAssoc(a: int, b: int, c: int)
    ensures a * (b * c) == (a * b) * c
  {
  }

  /** Remainder by repeated subtraction; the verifier treats it as a symbol, which
      keeps nonlinear arithmetic out of the ring buffer's invariants. */
  function Rem(p: nat, n: nat): (r: nat)
    requires n > 0
    ensures r < n
  {
    if p < n then p else Rem(p - n, n)
  }

  lemma {:induction false} RemIsMod(p: nat, n: nat)
    requires n > 0
    ensures Rem(p, n) == p % n
  {
    if p >= n {
      RemIsMod(p - n, n);
      ModAddMultiple(p - n, n, 1);
    } else {
      ModUnique(p, n, 0, p);
    }
  }

  lemma RemWindow(p: nat, q: nat, n: nat)
    requires n > 0 && Rem(p, n) == Rem(q, n) && -(n as int) < p - q < n
    ensures p == q
  {
    RemIsMod(p, n);
    RemIsMod(q, n);
    ModWindow(p, q, n);
  }

  lemma Square(n: nat, v: nat, m: nat)
    requires Pow2(n) == v && m == n + n
    ensures Pow2(m) == v * v
  {
    Pow2Add(n, n);
  }

  lemma Pow2Of64(n: nat)
    requires n == 64
    ensures Pow2(n) == 0x1_0000_0000_0000_0000
  {
    assert Pow2(8) == 0x100;
    Square(8, 0x100, 16);
    Square(16, 0x1_0000, 32);
    Square(32, 0x1_0000_0000, n);
  }
}
