/** The strings of ac_time read back: numbers and unit letters give the duration, and the
    numerals before and after the one point give seconds and fraction. */
module TimeReading {
  import opened IntMath
  import opened PrintfText
  import opened TimeText
  import Time

  // ------------------------------------------------------------------ reading

  predicate AllDigits(text: string) {
    forall i :: 0 <= i < |text| ==> IsDigit(text[i])
  }

  /** How many digits come first. */
  function Leading(text: string): (n: nat)
    ensures n <= |text|
  {
    if text != "" && IsDigit(text[0]) then 1 + Leading(text[1..]) else 0
  }

  /** Digits, and the character after them. */
  datatype Token = Token(digits: string, unit: char)

  function Tokens(text: string): seq<Token>
    decreases |text|
  {
    var n := Leading(text);
    if n >= |text| then [] else [Token(text[..n], text[n])] + Tokens(text[n + 1..])
  }

  lemma {:induction false} LeadingIs(digits: string, rest: string)
    requires AllDigits(digits) && (rest == "" || !IsDigit(rest[0]))
    ensures Leading(digits + rest) == |digits|
    decreases |digits|
  {
    if digits == "" {
      assert digits + rest == rest;
    } else {
      assert (digits + rest)[1..] == digits[1..] + rest;
      LeadingIs(digits[1..], rest);
    }
  }

  lemma TokenFirst(digits: string, unit: char, rest: string)
    requires AllDigits(digits) && !IsDigit(unit)
    ensures Tokens(digits + [unit] + rest) == [Token(digits, unit)] + Tokens(rest)
  {
    var text := digits + [unit] + rest;
    assert text == digits + ([unit] + rest);
    LeadingIs(digits, [unit] + rest);
    assert text[..|digits|] == digits && text[|digits| + 1..] == rest;
  }

  /** The seconds that a unit stands for. */
  function UnitSeconds(unit: char): nat {
    match unit
    case 'y' => 31_536_000
    case 'd' => 86_400
    case 'h' => 3_600
    case 'm' => 60
    case _ => 1
  }

  /** The seconds that `n` units are. */
  function Seconds(n: nat, unit: char): nat {
    n * UnitSeconds(unit)
  }

  /** The whole seconds that numbers and their units make, and the digits after a point. */
  function Reads(ts: seq<Token>): (nat, string) {
    if ts == [] then (0, "")
    else if ts[0].unit == '.' then (Value(ts[0].digits, 10), if |ts| > 1 then ts[1].digits else "")
    else
      var (secs, fraction) := Reads(ts[1..]);
      (Seconds(Value(ts[0].digits, 10), ts[0].unit) + secs, fraction)
  }

  // ------------------------------------------------------------------ durations

  function UnitChar(i: nat): char {
    if i == 0 then 'y' else if i == 1 then 'd' else if i == 2 then 'h' else 'm'
  }

  /** Years, days, hours and minutes. */
  function Part(d: Time.Duration, i: nat): nat
    requires i < 4
  {
    if i == 0 then d.years else if i == 1 then d.days else if i == 2 then d.hrs else d.mins
  }

  /** The larger units from number `k` on. */
  function UnitTokens(d: Time.Duration, k: nat): seq<Token>
    requires k <= 4
    decreases 4 - k
  {
    if k == 4 then [] else [Token(Decimal(Part(d, k)), UnitChar(k))] + UnitTokens(d, k + 1)
  }

  function SecondTokens(secs: nat, p: nat, digits: string): seq<Token> {
    if p > 0 then [Token(Decimal(secs), '.'), Token(digits, 's')] else [Token(Decimal(secs), 's')]
  }

  /** The text of the larger units from number `k` on. */
  function UnitsText(d: Time.Duration, k: nat, rest: string): string
    requires k <= 4
    decreases 4 - k
  {
    if k == 4 then rest else Decimal(Part(d, k)) + [UnitChar(k)] + UnitsText(d, k + 1, rest)
  }

  function Later(a: nat, b: nat): nat {
    if a > b then a else b
  }

  /** The first unit that is printed: years when zeros are to be printed, and else the first
      that is not zero. */
  function First(d: Time.Duration, leading_0: bool): nat {
    if leading_0 || d.years != 0 then 0 else if d.days != 0 then 1 else if d.hrs != 0 then 2
    else if d.mins != 0 then 3 else 4
  }

  lemma TextFrom(d: Time.Duration, leading_0: bool, p: nat, digits: string)
    ensures DurationText(d, leading_0, p, digits)
      == UnitsText(d, First(d, leading_0), Decimal(d.secs) + Fraction(p, digits) + "s")
  {
    var k, rest := First(d, leading_0), Decimal(d.secs) + Fraction(p, digits) + "s";
    var y, e, h, m := UnitText(d, k, 0), UnitText(d, k, 1), UnitText(d, k, 2), UnitText(d, k, 3);
    hide Digits, Fraction, UnitsText;
    Grouped(y, e, h, m, Decimal(d.secs), Fraction(p, digits));
    UnitsFrom(d, k, 3, rest);
    UnitsFrom(d, k, 2, rest);
    UnitsFrom(d, k, 1, rest);
    UnitsFrom(d, k, 0, rest);
  }

  /** The text of unit `i` when those from `k` on are printed. */
  function UnitText(d: Time.Duration, k: nat, i: nat): string
    requires i < 4
  {
    Unit(k <= i, Part(d, i), [UnitChar(i)])
  }

  lemma Grouped(y: string, e: string, h: string, m: string, s: string, f: string)
    ensures y + e + h + m + s + f + "s" == y + (e + (h + (m + (s + f + "s"))))
  {
  }

  lemma UnitsFrom(d: Time.Duration, k: nat, i: nat, rest: string)
    requires i < 4 && k <= 4
    ensures UnitsText(d, Later(k, i), rest) == UnitText(d, k, i) + UnitsText(d, Later(k, i + 1), rest)
  {
    hide Digits;
    if k > i {
      assert "" + UnitsText(d, k, rest) == UnitsText(d, k, rest);
    }
  }

  lemma {:induction false} UnitsRead(d: Time.Duration, k: nat, rest: string)
    requires k <= 4
    ensures Tokens(UnitsText(d, k, rest)) == UnitTokens(d, k) + Tokens(rest)
    decreases 4 - k
  {
    if k == 4 {
      NoUnits(d, k, rest);
    } else {
      UnitsRead(d, k + 1, rest);
      UnitRead(d, k, rest);
    }
  }

  lemma NoUnits(d: Time.Duration, k: nat, rest: string)
    requires k == 4
    ensures UnitsText(d, k, rest) == rest && UnitTokens(d, k) == [] && PartSeconds(d, k) == 0
    ensures Tokens(rest) == UnitTokens(d, k) + Tokens(rest)
  {
  }

  lemma UnitRead(d: Time.Duration, k: nat, rest: string)
    requires k < 4 && Tokens(UnitsText(d, k + 1, rest)) == UnitTokens(d, k + 1) + Tokens(rest)
    ensures Tokens(UnitsText(d, k, rest)) == UnitTokens(d, k) + Tokens(rest)
  {
    UnitsUnfold(d, k, rest);
    DecimalDigits(Part(d, k));
    hide UnitsText, UnitTokens, PartSeconds, Digits, Tokens, AllDigits, Decimal;
    TokenFirst(Decimal(Part(d, k)), UnitChar(k), UnitsText(d, k + 1, rest));
    Regroup([Token(Decimal(Part(d, k)), UnitChar(k))], UnitTokens(d, k + 1), Tokens(rest));
  }

  lemma Regroup<T>(a: seq<T>, b: seq<T>, c: seq<T>)
    ensures (a + b) + c == a + (b + c)
  {
  }

  lemma UnitsUnfold(d: Time.Duration, k: nat, rest: string)
    requires k < 4
    ensures UnitsText(d, k, rest) == Decimal(Part(d, k)) + [UnitChar(k)] + UnitsText(d, k + 1, rest)
    ensures UnitTokens(d, k) == [Token(Decimal(Part(d, k)), UnitChar(k))] + UnitTokens(d, k + 1)
    ensures PartSeconds(d, k) == Seconds(Part(d, k), UnitChar(k)) + PartSeconds(d, k + 1)
  {
  }

  lemma SecondsRead(secs: nat, p: nat, digits: string)
    requires AllDigits(digits)
    ensures Tokens(Decimal(secs) + Fraction(p, digits) + "s") == SecondTokens(secs, p, digits)
  {
    DecimalDigits(secs);
    assert Tokens("") == [];
    if p > 0 {
      assert Decimal(secs) + Fraction(p, digits) + "s" == Decimal(secs) + ['.'] + (digits + ['s'] + "");
      TokenFirst(Decimal(secs), '.', digits + ['s'] + "");
      TokenFirst(digits, 's', "");
    } else {
      assert Decimal(secs) + Fraction(p, digits) + "s" == Decimal(secs) + ['s'] + "";
      TokenFirst(Decimal(secs), 's', "");
    }
  }

  /** The text is a row of numbers with their units, from the first unit printed on: exactly
      those of the duration, and digits after the point when there are to be any. */
  lemma DurationTokens(d: Time.Duration, leading_0: bool, p: nat, digits: string)
    returns (k: nat)
    requires AllDigits(digits)
    ensures k <= 4 && (leading_0 ==> k == 0)
    ensures !leading_0 ==> (forall i :: 0 <= i < k ==> Part(d, i) == 0) && (k < 4 ==> Part(d, k) != 0)
    ensures Tokens(DurationText(d, leading_0, p, digits)) == UnitTokens(d, k) + SecondTokens(d.secs, p, digits)
  {
    k := First(d, leading_0);
    TextFrom(d, leading_0, p, digits);
    UnitsRead(d, k, Decimal(d.secs) + Fraction(p, digits) + "s");
    SecondsRead(d.secs, p, digits);
  }

  /** The seconds of the units from number `k` on. */
  function PartSeconds(d: Time.Duration, k: nat): nat
    requires k <= 4
    decreases 4 - k
  {
    if k == 4 then 0 else Seconds(Part(d, k), UnitChar(k)) + PartSeconds(d, k + 1)
  }

  lemma {:induction false} UnitsSum(d: Time.Duration, k: nat, more: seq<Token>)
    requires k <= 4
    ensures Reads(UnitTokens(d, k) + more) == (PartSeconds(d, k) + Reads(more).0, Reads(more).1)
    decreases 4 - k
  {
    hide Reads, Seconds, UnitTokens, PartSeconds, UnitsText, Tokens, Part;
    if k == 4 {
      NoUnits(d, k, "");
      assert [] + more == more;
    } else {
      UnitsSum(d, k + 1, more);
      UnitSum(d, k, more);
    }
  }

  lemma UnitSum(d: Time.Duration, k: nat, more: seq<Token>)
    requires k < 4
    requires Reads(UnitTokens(d, k + 1) + more) == (PartSeconds(d, k + 1) + Reads(more).0, Reads(more).1)
    ensures Reads(UnitTokens(d, k) + more) == (PartSeconds(d, k) + Reads(more).0, Reads(more).1)
  {
    hide Digits, Value, Reads, Seconds, UnitTokens, PartSeconds, UnitsText, Decimal, Part, Tokens;
    var n := Part(d, k);
    var t := Token(Decimal(n), UnitChar(k));
    UnitsUnfold(d, k, "");
    DecimalValue(n);
    ReadsUnit(t, n, UnitTokens(d, k + 1) + more);
    Regroup([t], UnitTokens(d, k + 1), more);
  }

  lemma DecimalValue(n: nat)
    ensures Value(Decimal(n), 10) == n
  {
    DigitsDenote(n, 10);
  }

  lemma ReadsUnit(t: Token, val: nat, more: seq<Token>)
    requires Value(t.digits, 10) == val && t.unit != '.'
    ensures Reads([t] + more) == (Seconds(val, t.unit) + Reads(more).0, Reads(more).1)
  {
    hide Value, Seconds;
    assert ([t] + more)[1..] == more;
  }

  lemma ReadsPoint(t: Token, val: nat, more: seq<Token>)
    requires Value(t.digits, 10) == val && t.unit == '.' && more != []
    ensures Reads([t] + more) == (val, more[0].digits)
  {
    hide Value;
  }

  lemma SecondsSum(secs: nat, p: nat, digits: string)
    ensures Reads(SecondTokens(secs, p, digits)) == (secs, if p > 0 then digits else "")
  {
    DecimalValue(secs);
    hide Digits, Value, Reads, Decimal;
    if p > 0 {
      ReadsPoint(Token(Decimal(secs), '.'), secs, [Token(digits, 's')]);
      assert SecondTokens(secs, p, digits) == [Token(Decimal(secs), '.')] + [Token(digits, 's')];
    } else {
      ReadsUnit(Token(Decimal(secs), 's'), secs, []);
      ReadsNothing();
      assert SecondTokens(secs, p, digits) == [Token(Decimal(secs), 's')] + [];
    }
  }

  lemma ReadsNothing()
    ensures Reads([]) == (0, "")
  {
  }

  /** Reading the text back gives the seconds of the duration, whatever units are printed, and
      the digits of the fraction. */
  lemma DurationReadsBack(d: Time.Duration, leading_0: bool, p: nat, digits: string)
    requires AllDigits(digits)
    ensures Reads(Tokens(DurationText(d, leading_0, p, digits))) == (d.Seconds(), if p > 0 then digits else "")
  {
    hide Digits, Value, Tokens, DurationText, UnitTokens, Fraction;
    var k := DurationTokens(d, leading_0, p, digits);
    UnitsSum(d, k, SecondTokens(d.secs, p, digits));
    SecondsSum(d.secs, p, digits);
    PartsMakeSeconds(d, k);
  }

  lemma PartsMakeSeconds(d: Time.Duration, k: nat)
    requires k <= 4 && forall i :: 0 <= i < k ==> Part(d, i) == 0
    ensures PartSeconds(d, k) + d.secs == d.Seconds()
  {
    assert PartSeconds(d, 3) == d.mins * 60;
    assert PartSeconds(d, 2) == d.hrs * 3_600 + PartSeconds(d, 3);
    assert PartSeconds(d, 1) == d.days * 86_400 + PartSeconds(d, 2);
    assert PartSeconds(d, 0) == d.years * 31_536_000 + PartSeconds(d, 1);
  }

  /** The example that ac_time's documentation gives. */
  lemma ThreeYears()
    ensures DurationText(Time.Duration(3, 5, 1, 7, 3), false, 3, "201") == "3y5d1h7m3.201s"
  {
  }

  // ------------------------------------------------------------------ seconds

  /** A decimal numeral: digits that denote the seconds and, when there is a fraction, the only
      point and its digits after that. */
  predicate IsNumeral(text: string, secs: nat, fraction: string) {
    var n := |text| - |fraction| - 1;
    if fraction == "" then AllDigits(text) && Value(text, 10) == secs
    else
      && 0 < n && text[n] == '.' && text[n + 1..] == fraction && AllDigits(fraction)
      && AllDigits(text[..n]) && Value(text[..n], 10) == secs
  }

  lemma SecondsAreNumeral(secs: nat, p: nat, digits: string)
    requires AllDigits(digits) && |digits| == p
    ensures IsNumeral(Decimal(secs) + Fraction(p, digits), secs, digits)
  {
    DecimalDigits(secs);
    DecimalValue(secs);
    hide Value, Digits;
    var whole := Decimal(secs);
    if p == 0 {
      assert whole + "" == whole;
    } else {
      PointBetween(whole, digits);
    }
  }

  lemma PointBetween(whole: string, digits: string)
    ensures var text := whole + ("." + digits);
      && |text| - |digits| - 1 == |whole| && text[|whole|] == '.'
      && text[..|whole|] == whole && text[|whole| + 1..] == digits
  {
  }

  // ------------------------------------------------------------------ what is printed

  /** The digits after the point are decimal, and as many as asked for up to 31. */
  lemma FractionIsDecimal(sub: nat, freq: nat, precision: nat)
    requires sub < freq
    ensures var digits := Time.Text(Time.WordDivision(sub, freq, Precision(precision)));
      AllDigits(digits) && |digits| == if precision < 31 then precision else 31
  {
    WordDigitsDecimal(sub, freq, Precision(precision));
  }

  lemma {:induction false} WordDigitsDecimal(sub: nat, freq: nat, p: nat)
    requires sub < freq
    ensures var ds := Time.WordDivision(sub, freq, p); forall i :: 0 <= i < |ds| ==> ds[i] <= 9
    ensures AllDigits(Time.Text(Time.WordDivision(sub, freq, p)))
    decreases p
  {
    if p > 0 {
      var first, rest := FirstDigit(sub, freq, p);
      WordDigitsDecimal(rest, freq, p - 1);
    }
    hide Time.WordDivision;
    TextIsDigits(Time.WordDivision(sub, freq, p));
  }

  lemma FirstDigit(sub: nat, freq: nat, p: nat) returns (first: nat, rest: nat)
    requires sub < freq && p > 0
    ensures first <= 9 && rest < freq
    ensures Time.WordDivision(sub, freq, p) == [first] + Time.WordDivision(rest, freq, p - 1)
  {
    var ten := Time.Word(10 * sub);
    Time.WordDigitBelowTen(sub, freq);
    Division(ten, freq);
    first, rest := ten / freq, ten % freq;
  }

  lemma {:induction false} TextIsDigits(ds: seq<nat>)
    requires forall i :: 0 <= i < |ds| ==> ds[i] <= 9
    ensures AllDigits(Time.Text(ds))
    decreases |ds|
  {
    if ds != [] {
      TextIsDigits(ds[..|ds| - 1]);
    }
  }
}
