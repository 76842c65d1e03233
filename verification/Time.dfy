/** The arithmetic of ac_time on 64-bit words: tick and nanosecond conversion, rounding to
    a printed precision, and the long division that prints the fraction of a second. */
module Time {
  import opened IntMath

  const AC_SEC_IN_NS: nat := 1_000_000_000
  const AC_SECS_PER_MIN: nat := 60
  const AC_SECS_PER_HR: nat := 3600
  const AC_SECS_PER_DAY: nat := 86400
  const AC_SECS_PER_YEAR: nat := 31_536_000

  function Word(x: nat): nat {
    x % POW64
  }

  /** AC_U64_DIV_ROUND_UP. */
  function DivRoundUp(x: nat, y: nat): nat
    requires y > 0
  {
    Word(x + x % y) / y
  }

  /** `q` is x / y rounded to the nearest integer, halves up. */
  predicate Rounds(x: int, y: int, q: int) {
    -y <= 2 * x - 2 * (q * y) < y
  }

  lemma RoundsOnce(x: int, y: int, q: int, p: int)
    requires y > 0 && Rounds(x, y, q) && Rounds(x, y, p)
    ensures p == q
  {
    var d := p - q;
    assert d * y == p * y - q * y;
    MulSign(d, y);
  }

  /** The macro rounds to nearest, halves up, in spite of its name. */
  lemma DivRoundsToNearest(x: nat, y: nat)
    requires y > 0 && x + x % y < POW64
    ensures Rounds(x, y, DivRoundUp(x, y))
  {
    Division(x, y);
    RoundUpIs(x, y, x / y, x % y);
    RoundsBy(x, y, x / y, x % y);
  }

  /** When the sum leaves 64 bits the answer is zero. */
  lemma WrappedIsZero(x: nat, y: nat)
    requires 0 < y < POW64 && x < POW64 <= x + x % y
    ensures DivRoundUp(x, y) == 0 && 2 * x >= POW64
  {
    var r := x % y;
    Division(x, y);
    RemainderFits(x, y);
    ModUnique(x + r, POW64, 1, x + r - POW64);
    ModUnique(x + r - POW64, y, 0, x + r - POW64);
  }

  lemma RemainderFits(x: nat, y: nat)
    requires y > 0
    ensures x % y <= x
  {
    Division(x, y);
    ProductIsNat(x / y, y);
  }

  /** So for 64-bit operands it rounds to nearest exactly when that sum stays in 64 bits. */
  lemma DivRoundsToNearestIff(x: nat, y: nat)
    requires 0 < y < POW64 && x < POW64
    ensures Rounds(x, y, DivRoundUp(x, y)) <==> x + x % y < POW64
  {
    if x + x % y < POW64 {
      DivRoundsToNearest(x, y);
    } else {
      WrappedIsZero(x, y);
    }
  }

  lemma RoundUpIs(x: nat, y: nat, q: nat, r: nat)
    requires y > 0 && x == q * y + r && r < y && r == x % y && x + r < POW64
    ensures DivRoundUp(x, y) == if 2 * r < y then q else q + 1
  {
    WordFits(x + r);
    if 2 * r < y {
      ModUnique(x + r, y, q, 2 * r);
    } else {
      assert (q + 1) * y == q * y + y;
      ModUnique(x + r, y, q + 1, 2 * r - y);
    }
  }

  lemma RoundsBy(x: nat, y: nat, q: nat, r: nat)
    requires y > 0 && x == q * y + r && r < y
    ensures Rounds(x, y, if 2 * r < y then q else q + 1)
  {
    assert (q + 1) * y == q * y + y;
  }

  /** The quotient rounded up. */
  function Ceiling(x: nat, y: nat): nat
    requires y > 0
  {
    (x + y - 1) / y
  }

  lemma CeilingIs(x: nat, y: nat, q: nat, r: nat)
    requires y > 0 && x == q * y + r && r < y
    ensures Ceiling(x, y) == if r == 0 then q else q + 1
  {
    if r == 0 {
      ModUnique(x + y - 1, y, q, y - 1);
    } else {
      assert (q + 1) * y == q * y + y;
      ModUnique(x + y - 1, y, q + 1, r - 1);
    }
  }

  lemma NearestIs(x: nat, y: nat, q: nat, r: nat, d: int)
    requires y > 0 && x == q * y + r && r < y && Rounds(x, y, d)
    ensures d == if 2 * r < y then q else q + 1
  {
    assert (q + 1) * y == q * y + y;
    RoundsOnce(x, y, d, if 2 * r < y then q else q + 1);
  }

  /** For 64-bit operands it rounds up, as its comment says, exactly when the division is
      exact, or the remainder is at least half the divisor and the sum stays in 64 bits. */
  lemma DivRoundsUpIff(x: nat, y: nat)
    requires 0 < y < POW64 && x < POW64
    ensures DivRoundUp(x, y) == Ceiling(x, y) <==> x % y == 0 || (2 * (x % y) >= y && x + x % y < POW64)
  {
    Division(x, y);
    CeilingIs(x, y, x / y, x % y);
    if x + x % y < POW64 {
      DivRoundsToNearest(x, y);
      NearestIs(x, y, x / y, x % y, DivRoundUp(x, y));
    } else {
      WrappedIsZero(x, y);
      CeilingPositive(x, y);
    }
  }

  lemma CeilingPositive(x: nat, y: nat)
    requires x > 0 && y > 0
    ensures Ceiling(x, y) > 0
  {
    Division(x + y - 1, y);
  }

  /** Eleven tenths are not rounded up, nor is a sum that leaves 64 bits. */
  lemma NotRoundedUp()
    ensures DivRoundUp(11, 10) == 1 && Ceiling(11, 10) == 2
    ensures DivRoundUp(0xFFFF_FFFF_FFFF_FFFF, 0x8000_0000_0000_0000) == 0
    ensures Ceiling(0xFFFF_FFFF_FFFF_FFFF, 0x8000_0000_0000_0000) == 2
  {
  }

  // ------------------------------------------------------- nanoseconds and ticks

  /** From units of which `g` make a second to units of which `f` do: whole seconds and
      the rest are converted apart. */
  function Convert(n: nat, g: nat, f: nat): nat
    requires g > 0
  {
    Word(Word((n / g) * f) + DivRoundUp(Word((n % g) * f), g))
  }

  function NanosToTicks(nanos: nat, freq: nat): nat {
    Convert(nanos, AC_SEC_IN_NS, freq)
  }

  function TicksToNanos(ticks: nat, freq: nat): nat
    requires freq > 0
  {
    Convert(ticks, freq, AC_SEC_IN_NS)
  }

  /** No step of the conversion of `n` from units of which `g` make a second to units of
      which `f` do leaves 64 bits. */
  predicate ConvertFits(n: nat, g: nat, f: nat)
    requires g > 0
  {
    && (n % g) * f + ((n % g) * f) % g < POW64
    && (n / g) * f + DivRoundUp((n % g) * f, g) < POW64
  }

  /** `n` from units of which `g` make a second is `t` in units of which `f` do, without overflow. */
  predicate IsConverted(n: nat, g: nat, f: nat, t: nat)
    requires g > 0
  {
    ConvertFits(n, g, f) && Convert(n, g, f) == t
  }

  lemma WordFits(x: nat)
    requires x < POW64
    ensures Word(x) == x
  {
  }

  lemma ConvertIs(n: nat, g: nat, f: nat, a: nat, b: nat)
    requires g > 0 && a == (n / g) * f && b == (n % g) * f && b + b % g < POW64 && a + DivRoundUp(b, g) < POW64
    ensures Convert(n, g, f) == a + DivRoundUp(b, g)
  {
    WordFits(a);
    WordFits(b);
    WordFits(a + DivRoundUp(b, g));
  }

  /** Whole seconds and the rest, converted apart, round as the whole does. */
  lemma ConvertRounds(n: nat, g: nat, f: nat)
    requires g > 0 && ConvertFits(n, g, f)
    ensures Rounds(n * f, g, Convert(n, g, f))
  {
    var q, r := n / g, n % g;
    ProductIsNat(q, f);
    ProductIsNat(r, f);
    PartsRound(n, g, f, q, r, q * f, r * f);
  }

  lemma PartsRound(n: nat, g: nat, f: nat, q: nat, r: nat, a: nat, b: nat)
    requires g > 0 && q == n / g && r == n % g && a == q * f && b == r * f
    requires b + b % g < POW64 && a + DivRoundUp(b, g) < POW64
    ensures Rounds(n * f, g, Convert(n, g, f))
  {
    ConvertIs(n, g, f, a, b);
    DivRoundsToNearest(b, g);
    Division(n, g);
    SplitRounds(n, g, f, q, r, DivRoundUp(b, g));
  }

  lemma ProductIsNat(a: nat, b: nat)
    ensures a * b >= 0
  {
  }

  lemma SplitRounds(n: int, g: int, f: int, q: int, r: int, d: int)
    requires n == q * g + r && Rounds(r * f, g, d)
    ensures Rounds(n * f, g, q * f + d)
  {
    assert n * f == (q * f) * g + r * f by {
      MulAssoc(q, g, f);
      MulAssoc(q, f, g);
    }
    assert (q * f + d) * g == (q * f) * g + d * g;
  }

  /** Rounding to a finer unit and back gives the same value. */
  lemma ThereAndBack(n: int, f: int, g: int, t: int)
    requires 0 < g <= f && Rounds(n * f, g, t)
    ensures Rounds(t * g, f, n)
  {
    if f == g && 2 * (t * g) - 2 * (n * f) == f {
      var k := t - n;
      assert k * f == t * f - n * f;
      assert 2 * (k * f) == f;
      MulSign(k, f);
    }
  }

  /** Nanoseconds survive ticks when there is at least one tick per nanosecond. */
  lemma NanosRoundTrip(nanos: nat, freq: nat)
    requires freq >= AC_SEC_IN_NS && ConvertFits(nanos, AC_SEC_IN_NS, freq)
    requires ConvertFits(NanosToTicks(nanos, freq), freq, AC_SEC_IN_NS)
    ensures TicksToNanos(NanosToTicks(nanos, freq), freq) == nanos
  {
    var t := NanosToTicks(nanos, freq);
    ConvertRounds(nanos, AC_SEC_IN_NS, freq);
    ConvertRounds(t, freq, AC_SEC_IN_NS);
    ThereAndBack(nanos, freq, AC_SEC_IN_NS, t);
    RoundsOnce(t * AC_SEC_IN_NS, freq, TicksToNanos(t, freq), nanos);
  }

  /** Ticks survive nanoseconds when there is at most one tick per nanosecond. */
  lemma TicksRoundTrip(ticks: nat, nanos: nat, freq: nat)
    requires 1 <= freq <= AC_SEC_IN_NS && IsConverted(ticks, freq, AC_SEC_IN_NS, nanos)
    requires ConvertFits(nanos, AC_SEC_IN_NS, freq)
    ensures nanos == TicksToNanos(ticks, freq) && NanosToTicks(nanos, freq) == ticks
  {
    ConvertRounds(ticks, freq, AC_SEC_IN_NS);
    ConvertRounds(nanos, AC_SEC_IN_NS, freq);
    ThereAndBack(ticks, AC_SEC_IN_NS, freq, nanos);
    RoundsOnce(nanos * freq, AC_SEC_IN_NS, NanosToTicks(nanos, freq), ticks);
  }

  /** Whole seconds are as many times a thousand million nanoseconds as they are times the
      frequency, both ways. */
  lemma SecondsConvert(k: nat, freq: nat)
    requires 0 < freq < POW64
    ensures k * freq < POW64 ==> NanosToTicks(k * 1_000_000_000, freq) == k * freq
    ensures k * 1_000_000_000 < POW64 ==> TicksToNanos(k * freq, freq) == k * 1_000_000_000
  {
    ProductIsNat(k, freq);
    ProductIsNat(k, AC_SEC_IN_NS);
    WholeConverts(k, AC_SEC_IN_NS, freq);
    WholeConverts(k, freq, AC_SEC_IN_NS);
  }

  lemma WholeConverts(k: nat, g: nat, f: nat)
    requires g > 0 && 0 <= k * f
    ensures k * g >= 0 && (k * f < POW64 ==> Convert(k * g, g, f) == k * f)
  {
    ProductIsNat(k, g);
    ModUnique(k * g, g, k, 0);
    ModUnique(0, g, 0, 0);
    if k * f < POW64 {
      ConvertIs(k * g, g, f, k * f, 0);
    }
  }

  // ------------------------------------------------------- rounding to a precision

  function Pow10(p: nat): (r: nat)
    ensures r > 0
  {
    if p == 0 then 1 else 10 * Pow10(p - 1)
  }

  /** Twice a power of ten, in 64 bits. */
  function Up(p: nat): nat {
    if p == 0 then 2 else Word(Up(p - 1) * 10)
  }

  lemma {:induction false} UpFits(p: nat)
    requires p <= 18
    ensures Up(p) == 2 * Pow10(p) && Pow10(p) <= 1_000_000_000_000_000_000
  {
    Pow10Bound(p, 18 - p);
    if p > 0 {
      UpFits(p - 1);
      WordFits(2 * Pow10(p));
    }
  }

  lemma {:induction false} Pow10Bound(p: nat, more: nat)
    requires p + more == 18
    ensures Pow10(p) <= 1_000_000_000_000_000_000
    decreases more
  {
    if more > 0 {
      Pow10Bound(p + 1, more - 1);
    } else {
      assert Pow10(6) == 1_000_000;
      assert Pow10(12) == 1_000_000_000_000;
    }
  }

  lemma TailStep(u: nat, h: nat)
    requires h > 0 && u % (2 * h) == h
    ensures (u * 10) % (4 * h) == 2 * h
  {
    var k := u / (2 * h);
    Division(u, 2 * h);
    assert k * (2 * h) == 2 * (k * h) && (5 * k + 2) * (4 * h) == 20 * (k * h) + 8 * h;
    ModUnique(u * 10, 4 * h, 5 * k + 2, 2 * h);
  }

  /** Even wrapped, the divisor ends in a one bit followed by p + 1 zero bits. */
  lemma {:induction false} UpTail(p: nat)
    requires p <= 62
    ensures Up(p) % Pow2(p + 2) == Pow2(p + 1)
  {
    if p > 0 {
      UpTail(p - 1);
      TailStep(Up(p - 1), Pow2(p));
      WrapTail(Up(p - 1) * 10, p + 2, 64);
    }
  }

  lemma WrapTail(x: nat, k: nat, n: nat)
    requires k <= n == 64
    ensures Word(x) % Pow2(k) == x % Pow2(k)
  {
    ModMod(x, k, n);
    Pow2Of64(n);
  }

  /** So it is not zero for the precisions that ac_time allows. */
  lemma UpPositive(p: nat)
    requires p <= 31
    ensures Up(p) > 0
  {
    UpTail(p);
    if Up(p) == 0 {
      ModUnique(0, Pow2(p + 2), 0, 0);
    }
  }

  /** The ticks that are added before printing with precision `p`. */
  function HalfUnit(freq: nat, p: nat): nat
    requires Up(p) > 0
  {
    if Up(p) <= freq then DivRoundUp(freq, Up(p)) else 0
  }

  /** round_ticks_based_on_precision. */
  method RoundTicks(ticks: nat, freq: nat, precision: nat) returns (rounded: nat)
    requires precision <= 31
    ensures Up(precision) > 0 && rounded == Word(ticks + HalfUnit(freq, precision))
  {
    UpPositive(precision);
    var up := 2;
    for i := 0 to precision
      invariant up == Up(i)
    {
      up := Word(up * 10);
    }
    var rounded_freq := if up <= freq then DivRoundUp(freq, up) else 0;
    rounded := Word(ticks + rounded_freq);
  }

  /** `t` times ten to the power `p`. */
  function Scaled(t: nat, p: nat): nat {
    if p == 0 then t else 10 * Scaled(t, p - 1)
  }

  lemma {:induction false} ScaledIsProduct(t: nat, p: nat)
    ensures Scaled(t, p) == t * Pow10(p)
  {
    if p > 0 {
      ScaledIsProduct(t, p - 1);
    }
  }

  /** What is printed, in units of 10^-p seconds. */
  function Printed(ticks: nat, freq: nat, p: nat): int
    requires freq > 0 && Up(p) > 0
  {
    Scaled(ticks + HalfUnit(freq, p), p) / freq
  }

  /** What is printed is within 3/4 of a unit in its last place. */
  lemma PrintedIsClose(ticks: nat, freq: nat, p: nat)
    requires p <= 18 && 0 < freq && 2 * Pow10(p) <= freq && freq + freq % (2 * Pow10(p)) < POW64
    ensures Up(p) == 2 * Pow10(p)
    ensures -3 * freq <= 4 * (Printed(ticks, freq, p) * freq - ticks * Pow10(p)) <= 3 * freq
  {
    UpFits(p);
    DivRoundsToNearest(freq, 2 * Pow10(p));
    ScaledIsProduct(ticks + HalfUnit(freq, p), p);
    Close(ticks, freq, Pow10(p), HalfUnit(freq, p), Printed(ticks, freq, p), Scaled(ticks + HalfUnit(freq, p), p));
  }

  /** For a coarser frequency nothing is added, and it is the time rounded down. */
  lemma PrintedIsFloor(ticks: nat, freq: nat, p: nat)
    requires p <= 18 && 0 < freq < 2 * Pow10(p)
    ensures Up(p) == 2 * Pow10(p)
    ensures 0 <= ticks * Pow10(p) - Printed(ticks, freq, p) * freq < freq
  {
    UpFits(p);
    ScaledIsProduct(ticks, p);
    assert HalfUnit(freq, p) == 0;
    Division(Scaled(ticks, p), freq);
  }

  lemma Close(ticks: int, freq: int, P: int, h: int, v: int, x: int)
    requires Rounds(freq, 2 * P, h) && 0 < 2 * P <= freq && x == (ticks + h) * P && v == x / freq
    ensures -3 * freq <= 4 * (v * freq - ticks * P) <= 3 * freq
  {
    assert x == v * freq + x % freq;
    assert x == ticks * P + h * P;
    assert h * (2 * P) == 2 * (h * P);
  }

  // ------------------------------------------------------- the fraction of a second

  /** The first `p` digits after the point of `sub` / `freq`, by long division. */
  function LongDivision(sub: nat, freq: nat, p: nat): (digits: seq<nat>)
    requires freq > 0
    ensures |digits| == p
    decreases p
  {
    if p == 0 then [] else [10 * sub / freq] + LongDivision(10 * sub % freq, freq, p - 1)
  }

  /** The number that digits denote. */
  function Number(digits: seq<nat>): nat {
    if digits == [] then 0 else Scaled(digits[0], |digits| - 1) + Number(digits[1..])
  }

  lemma DivSum(q: nat, y: nat, x: nat)
    requires y > 0
    ensures (q * y + x) / y == q + x / y
  {
    Division(x, y);
    ModUnique(q * y + x, y, q + x / y, x % y);
  }

  lemma {:induction false} ScaledSum(a: nat, b: nat, p: nat)
    ensures Scaled(a + b, p) == Scaled(a, p) + Scaled(b, p)
  {
    if p > 0 {
      ScaledSum(a, b, p - 1);
    }
  }

  lemma {:induction false} ScaledInside(t: nat, p: nat)
    requires p > 0
    ensures Scaled(t, p) == Scaled(10 * t, p - 1)
  {
    if p > 1 {
      ScaledInside(t, p - 1);
    }
  }

  lemma {:induction false} ScaledMultiple(d: nat, freq: nat, p: nat)
    ensures Scaled(d * freq, p) == Scaled(d, p) * freq
  {
    if p > 0 {
      ScaledMultiple(d, freq, p - 1);
    }
  }

  /** The digits are decimal digits and denote the fraction rounded down. */
  lemma {:induction false} LongDivisionDivides(sub: nat, freq: nat, p: nat)
    requires freq > 0 && sub < freq
    ensures forall i :: 0 <= i < p ==> 0 <= LongDivision(sub, freq, p)[i] <= 9
    ensures Number(LongDivision(sub, freq, p)) == Scaled(sub, p) / freq
    decreases p
  {
    if p == 0 {
      ModUnique(sub, freq, 0, sub);
    } else {
      var d, rest := 10 * sub / freq, 10 * sub % freq;
      Division(10 * sub, freq);
      LongDivisionDivides(rest, freq, p - 1);
      DigitBelowTen(sub, freq, d);
      ScaledInside(sub, p);
      ScaledSum(d * freq, rest, p - 1);
      ScaledMultiple(d, freq, p - 1);
      DivSum(Scaled(d, p - 1), freq, Scaled(rest, p - 1));
      assert LongDivision(sub, freq, p)[1..] == LongDivision(rest, freq, p - 1);
    }
  }

  lemma DigitBelowTen(sub: nat, freq: nat, d: nat)
    requires sub < freq && d == 10 * sub / freq
    ensures d <= 9
  {
    Division(10 * sub, freq);
    MulSign(10 - d, freq);
    assert (10 - d) * freq == 10 * freq - d * freq;
  }

  /** The remainder zero leaves zeros. */
  lemma {:induction false} ZerosFollow(freq: nat, p: nat)
    requires freq > 0
    ensures forall i :: 0 <= i < p ==> WordDivision(0, freq, p)[i] == 0
  {
    if p > 0 {
      WordFits(0);
      ModUnique(0, freq, 0, 0);
      ZerosFollow(freq, p - 1);
    }
  }

  function DigitChar(d: nat): char {
    if d <= 9 then '0' + d as char else '?'
  }

  /** Digits as text. */
  function Text(digits: seq<nat>): (text: string)
    ensures |text| == |digits|
  {
    if digits == [] then "" else Text(digits[..|digits| - 1]) + [DigitChar(digits[|digits| - 1])]
  }

  lemma TextStep(digits: seq<nat>, i: nat)
    requires i < |digits|
    ensures Text(digits[..i + 1]) == Text(digits[..i]) + [DigitChar(digits[i])]
  {
    assert digits[..i + 1][..i] == digits[..i];
  }

  /** The same in 64-bit words, where tenfold a remainder may wrap. */
  function WordDivision(sub: nat, freq: nat, p: nat): (digits: seq<nat>)
    requires freq > 0
    ensures |digits| == p
    decreases p
  {
    if p == 0 then [] else [Word(10 * sub) / freq] + WordDivision(Word(10 * sub) % freq, freq, p - 1)
  }

  /** Tenfold each of the remainders that the division meets stays in 64 bits. */
  predicate TensFit(sub: nat, freq: nat, p: nat)
    requires freq > 0
    decreases p
  {
    p == 0 || (10 * sub < POW64 && TensFit(10 * sub % freq, freq, p - 1))
  }

  /** The digits are right exactly when no remainder wraps. */
  lemma {:induction false} WordDivisionIsLongIff(sub: nat, freq: nat, p: nat)
    requires sub < freq < POW64
    ensures WordDivision(sub, freq, p) == LongDivision(sub, freq, p) <==> TensFit(sub, freq, p)
    decreases p
  {
    if p > 0 {
      if 10 * sub < POW64 {
        Division(10 * sub, freq);
        WordFits(10 * sub);
        WordDivisionIsLongIff(10 * sub % freq, freq, p - 1);
        assert WordDivision(sub, freq, p)[1..] == WordDivision(10 * sub % freq, freq, p - 1);
        assert LongDivision(sub, freq, p)[1..] == LongDivision(10 * sub % freq, freq, p - 1);
      } else {
        WrappedDigit(sub, freq);
        assert WordDivision(sub, freq, p)[0] != LongDivision(sub, freq, p)[0];
      }
    }
  }

  lemma WrappedDigit(sub: nat, freq: nat)
    requires sub < freq < POW64 <= 10 * sub
    ensures Word(10 * sub) / freq < 10 * sub / freq
  {
    var x := 10 * sub;
    Division(x, POW64);
    Division(Word(x), freq);
    Division(x, freq);
    QuotientPositive(x, POW64);
    var d := Word(x) / freq - x / freq;
    assert d * freq == (Word(x) / freq) * freq - (x / freq) * freq;
    MulSign(x / POW64, POW64);
    if d >= 0 {
      ProductIsNat(d, freq);
    }
  }

  lemma QuotientPositive(x: nat, n: nat)
    requires 0 < n <= x
    ensures x / n >= 1
  {
    Division(x, n);
  }

  /** They fit when tenfold the frequency does. */
  lemma {:induction false} TensFitIf(sub: nat, freq: nat, p: nat)
    requires sub < freq && 10 * freq <= POW64
    ensures TensFit(sub, freq, p)
    decreases p
  {
    if p > 0 {
      Division(10 * sub, freq);
      TensFitIf(10 * sub % freq, freq, p - 1);
    }
  }

  /** Half a second of a frequency of 2^63 is printed as one tenth. */
  lemma HalfIsOneTenth(freq: nat)
    requires freq == 0x8000_0000_0000_0000
    ensures WordDivision(freq / 2, freq, 1) == [1] && LongDivision(freq / 2, freq, 1) == [5]
  {
    ModUnique(10 * (freq / 2), POW64, 2, freq);
  }

  lemma WordDigitBelowTen(sub: nat, freq: nat)
    requires sub < freq
    ensures Word(10 * sub) / freq <= 9
  {
    RemainderFits(10 * sub, POW64);
    var d := Word(10 * sub) / freq;
    Division(Word(10 * sub), freq);
    MulSign(d - 9, freq);
    assert (d - 9) * freq == d * freq - 9 * freq;
  }

  /** One turn of the division: the next digit, and what is left. */
  method NextDigit(sub: nat, freq: nat, ghost p: nat) returns (digit: nat, rest: nat)
    requires sub < freq && p > 0
    ensures digit <= 9 && rest < freq
    ensures WordDivision(sub, freq, p) == [digit] + WordDivision(rest, freq, p - 1)
  {
    var ten := Word(sub * 10);
    digit := ten / freq;
    Division(ten, freq);
    WordDigitBelowTen(sub, freq);
    rest := ten - digit * freq;
  }

  /** sub_sec_to_str: the digits and a terminating zero. */
  method SubSecToStr(sub: nat, freq: nat, precision: nat, sss: array<char>)
    requires sub < freq && precision < sss.Length
    modifies sss
    ensures sss[..precision] == Text(WordDivision(sub, freq, precision))
    ensures precision > 0 ==> sss[precision] == '\0'
    ensures forall k :: precision < k < sss.Length ==> sss[k] == old(sss[k])
  {
    if precision > 0 {
      var i := DivideDigits(sub, freq, precision, sss);
      ghost var digits := WordDivision(sub, freq, precision);
      while i < precision
        invariant 0 <= i <= precision && sss[..i] == Text(digits[..i])
        invariant forall k :: i <= k < precision ==> digits[k] == 0
        invariant forall k :: precision < k < sss.Length ==> sss[k] == old(sss[k])
      {
        TextStep(digits, i);
        sss[i] := '0';
        i := i + 1;
      }
      assert digits[..precision] == digits;
      sss[precision] := '\0';
    }
  }

  /** The loop of the division ends early when nothing is left; zeros follow then. */
  method DivideDigits(sub: nat, freq: nat, precision: nat, sss: array<char>) returns (i: nat)
    requires sub < freq && precision < sss.Length
    modifies sss
    ensures i <= precision && sss[..i] == Text(WordDivision(sub, freq, precision)[..i])
    ensures forall k :: i <= k < precision ==> WordDivision(sub, freq, precision)[k] == 0
    ensures forall k :: precision < k < sss.Length ==> sss[k] == old(sss[k])
  {
    ghost var digits := WordDivision(sub, freq, precision);
    var sub_sec_ticks := sub;
    i := 0;
    while sub_sec_ticks > 0 && i < precision
      invariant 0 <= i <= precision && 0 <= sub_sec_ticks < freq && sss[..i] == Text(digits[..i])
      invariant digits[i..] == WordDivision(sub_sec_ticks, freq, precision - i)
      invariant forall k :: precision < k < sss.Length ==> sss[k] == old(sss[k])
      decreases precision - i
    {
      var digit;
      digit, sub_sec_ticks := NextDigit(sub_sec_ticks, freq, precision - i);
      Shift(digits, i, digit, WordDivision(sub_sec_ticks, freq, precision - i - 1));
      TextStep(digits, i);
      sss[i] := '0' + digit as char;
      i := i + 1;
    }
    if i < precision {
      ZerosFollow(freq, precision - i);
      assert forall k :: i <= k < precision ==> digits[k] == digits[i..][k - i];
    }
  }

  lemma Shift(digits: seq<nat>, i: nat, digit: nat, rest: seq<nat>)
    requires i < |digits| && digits[i..] == [digit] + rest
    ensures digits[i] == digit && digits[i + 1..] == rest
  {
    assert digits[i] == digits[i..][0];
    assert digits[i + 1..] == digits[i..][1..];
  }

  // ------------------------------------------------------- years to seconds

  datatype Duration = Duration(years: nat, days: nat, hrs: nat, mins: nat, secs: nat)
  {
    function Seconds(): nat {
      (((years * 365 + days) * 24 + hrs) * 60 + mins) * 60 + secs
    }
    predicate Valid() {
      days < 365 && hrs < 24 && mins < 60 && secs < 60
    }
  }

  /** The mixed radix form of a number of seconds; there is only one. */
  method Split(total: nat) returns (d: Duration)
    ensures d.Valid() && d.Seconds() == total
    ensures forall e: Duration :: e.Valid() && e.Seconds() == total ==> e == d
  {
    var secs, mins, hrs, days, years := total, 0, 0, 0, 0;
    if secs >= AC_SECS_PER_YEAR {
      years, secs := secs / AC_SECS_PER_YEAR, secs % AC_SECS_PER_YEAR;
    }
    if secs >= AC_SECS_PER_DAY {
      days, secs := secs / AC_SECS_PER_DAY, secs % AC_SECS_PER_DAY;
    }
    if secs >= AC_SECS_PER_HR {
      hrs, secs := secs / AC_SECS_PER_HR, secs % AC_SECS_PER_HR;
    }
    if secs >= AC_SECS_PER_MIN {
      mins, secs := secs / AC_SECS_PER_MIN, secs % AC_SECS_PER_MIN;
    }
    d := Duration(years, days, hrs, mins, secs);
    forall e: Duration | e.Valid() && e.Seconds() == total
      ensures e == d
    {
      DurationUnique(e, d);
    }
  }

  lemma DigitUnique(a: nat, x: nat, b: nat, y: nat, n: nat)
    requires x < n && y < n && a * n + x == b * n + y
    ensures a == b && x == y
  {
    ModUnique(a * n + x, n, a, x);
    ModUnique(b * n + y, n, b, y);
  }

  /** There is only one mixed radix form. */
  lemma DurationUnique(a: Duration, b: Duration)
    requires a.Valid() && b.Valid() && a.Seconds() == b.Seconds()
    ensures a == b
  {
    DigitUnique(((a.years * 365 + a.days) * 24 + a.hrs) * 60 + a.mins, a.secs,
      ((b.years * 365 + b.days) * 24 + b.hrs) * 60 + b.mins, b.secs, 60);
    DigitUnique((a.years * 365 + a.days) * 24 + a.hrs, a.mins, (b.years * 365 + b.days) * 24 + b.hrs, b.mins, 60);
    DigitUnique(a.years * 365 + a.days, a.hrs, b.years * 365 + b.days, b.hrs, 24);
    DigitUnique(a.years, a.days, b.years, b.days, 365);
  }

  /** Whole seconds and the digits after the point together denote what is printed. */
  lemma PrintedIsWhole(ticks: nat, freq: nat, p: nat, secs: nat, sub: nat)
    requires Up(p) > 0 && sub < freq && ticks + HalfUnit(freq, p) == secs * freq + sub
    ensures Printed(ticks, freq, p) == Scaled(secs, p) + Number(LongDivision(sub, freq, p))
  {
    hide LongDivision, Number, HalfUnit, Scaled;
    ProductIsNat(secs, freq);
    LongDivisionDivides(sub, freq, p);
    WholeAndFraction(secs, sub, freq, p, secs * freq);
  }

  lemma WholeAndFraction(secs: nat, sub: nat, freq: nat, p: nat, whole: nat)
    requires freq > 0 && whole == secs * freq
    ensures Scaled(whole + sub, p) / freq == Scaled(secs, p) + Scaled(sub, p) / freq
  {
    ScaledSum(whole, sub, p);
    ScaledMultiple(secs, freq, p);
    DivSum(Scaled(secs, p), freq, Scaled(sub, p));
  }
}
