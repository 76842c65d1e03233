/** The strings of ac_time: durations and seconds, appended piece by piece to a buffer. */
module TimeText {
  import opened IntMath
  import opened PrintfText
  import Time
  import Printf

  function Decimal(val: nat): string {
    Digits(val, 10)
  }

  // ------------------------------------------------------- what the formats print

  /** The conversion of a signed 64-bit word, and the character after it. */
  lemma RenderLd(val: nat, unit: string)
    requires val < 0x8000_0000_0000_0000 && forall i :: 0 <= i < |unit| ==> unit[i] != '%'
    ensures Render("%ld" + unit, [Word(val)]) == Decimal(val) + unit
    ensures AllNarrow("%ld" + unit, [Word(val)])
  {
    RenderPlain(unit, []);
    AllNarrowPlain(unit, []);
    PercentLd(val, unit);
    FirstChar(unit);
    RenderLong("%ld" + unit, "ld" + unit, val, unit);
  }

  lemma FirstChar(unit: string)
    ensures ("%ld" + unit)[0] == '%' && ("%ld" + unit)[1..] == "ld" + unit
  {
  }

  lemma RenderLong(f: string, g: string, val: nat, rest: string)
    requires f != "" && f[0] == '%' && f[1..] == g && Percent(g, [Word(val)]) == Piece(Decimal(val), rest, [], false)
    requires g != "" && g[0] == 'l'
    ensures Render(f, [Word(val)]) == Decimal(val) + Render(rest, [])
      && (AllNarrow(rest, []) ==> AllNarrow(f, [Word(val)]))
  {
    HeaderPlain(g, [Word(val)]);
    RenderThen(f, g, [Word(val)], Decimal(val), rest);
  }

  lemma RenderThen(f: string, g: string, args: seq<Arg>, text: string, rest: string)
    requires f != "" && f[0] == '%' && f[1..] == g && Percent(g, args) == Piece(text, rest, [], false)
    requires g != "" && g[0] != 'p' && Header(g, args) == (NO_FORMAT, g, args)
    ensures Render(f, args) == text + Render(rest, []) && (AllNarrow(rest, []) ==> AllNarrow(f, args))
  {
  }

  /** A conversion letter without flags, width and precision. */
  lemma HeaderPlain(g: string, args: seq<Arg>)
    requires g != "" && g[0] !in "+-#0123456789*."
    ensures Header(g, args) == (NO_FORMAT, g, args)
  {
    assert Flags(g, NO_FORMAT) == (NO_FORMAT, g);
    assert Count(g, args, '1') == (0, g, args);
  }

  lemma NumberIs(val: nat, f: string)
    requires val < 0x8000_0000_0000_0000
    ensures Number(NO_FORMAT, f, [Word(val)], true, 64, 10) == Piece(Decimal(val), f, [], false)
  {
    Plain(val);
    assert val % POW64 == val && Signed64(val) == val;
  }

  lemma ConversionLong(g: string, h: string, args: seq<Arg>)
    requires g != "" && g[0] == 'l' && g[1..] == h && h != "" && h[0] == 'd'
    ensures Conversion(NO_FORMAT, g, args) == Number(NO_FORMAT, h[1..], args, true, 64, 10)
  {
  }

  lemma PercentLd(val: nat, unit: string)
    requires val < 0x8000_0000_0000_0000
    ensures Percent("ld" + unit, [Word(val)]) == Piece(Decimal(val), unit, [], false)
  {
    var g, h, args := "ld" + unit, "d" + unit, [Word(val)];
    assert g[1..] == h && h[1..] == unit;
    HeaderPlain(g, args);
    PercentIs(g, args);
    ConversionLong(g, h, args);
    NumberIs(val, unit);
  }

  lemma PercentIs(g: string, args: seq<Arg>)
    requires g != "" && Header(g, args) == (NO_FORMAT, g, args)
    ensures Percent(g, args) == Conversion(NO_FORMAT, g, args)
  {
  }

  lemma UnsignedIs(val: nat, f: string)
    requires val < POW64
    ensures Number(NO_FORMAT, f, [Word(val)], false, 64, 10) == Piece(Decimal(val), f, [], false)
  {
    Plain(val);
    assert val % POW64 == val;
  }

  lemma ConversionLongUnsigned(g: string, h: string, args: seq<Arg>)
    requires g != "" && g[0] == 'l' && g[1..] == h && h != "" && h[0] == 'u'
    ensures Conversion(NO_FORMAT, g, args) == Number(NO_FORMAT, h[1..], args, false, 64, 10)
  {
  }

  /** The conversion of an unsigned 64-bit word. */
  lemma RenderLu(val: nat)
    requires val < POW64
    ensures Render("%lu", [Word(val)]) == Decimal(val) && AllNarrow("%lu", [Word(val)])
  {
    var args := [Word(val)];
    assert "%lu"[1..] == "lu" && "lu"[1..] == "u" && "u"[1..] == "";
    HeaderPlain("lu", args);
    PercentIs("lu", args);
    ConversionLongUnsigned("lu", "u", args);
    UnsignedIs(val, "");
    RenderThen("%lu", "lu", args, Decimal(val), "");
  }

  /** Without flags and width a number prints as its digits. */
  lemma Plain(val: nat)
    requires val < POW64
    ensures SvalText(NO_FORMAT, val, 10) == Decimal(val)
    ensures UvalText(NO_FORMAT, val, 8, 10) == Decimal(val)
  {
    DigitsAtMost64(val, 10);
    PadCountIs(0, |Decimal(val)|);
    assert Signed(NO_FORMAT, Decimal(val)) == Decimal(val);
  }

  lemma {:induction false} AllNarrowPlain(f: string, args: seq<Arg>)
    requires forall i :: 0 <= i < |f| ==> f[i] != '%'
    ensures AllNarrow(f, args)
    decreases |f|
  {
    if f != "" {
      AllNarrowPlain(f[1..], args);
    }
  }

  lemma RenderPoint(text: string)
    ensures Render("%s", [Text(text)]) == text && AllNarrow("%s", [Text(text)])
    ensures Render(".%s", [Text(text)]) == "." + text && AllNarrow(".%s", [Text(text)])
  {
    var args := [Text(text)];
    assert ".%s"[1..] == "%s" && "%s"[1..] == "s" && "s"[1..] == "";
    HeaderPlain("s", args);
    PercentIs("s", args);
    RenderThen("%s", "s", args, text, "");
  }

  // ------------------------------------------------------- appending

  /** The buffer holds what fits of `text`, and `count` is how much that is. */
  predicate Holds(buff: seq<char>, len: nat, count: nat, text: string) {
    len <= |buff| && len <= Printf.MAX_LEN && count == |Truncated(text, len)| && buff[..count] == Truncated(text, len)
  }

  /** And the text is ended. */
  predicate Ended(buff: seq<char>, len: nat, count: nat) {
    0 < len <= |buff| ==> count < len && buff[count] == NUL
  }

  /** One ac_snprintf at the end of what is there; the length left never underflows. */
  method Append(buff: array<char>, len: nat, count: nat, format: string, args: seq<Arg>, ghost text: string)
    returns (n: nat)
    requires Holds(buff[..], len, count, text) && NUL !in format && AllNarrow(format, args)
    modifies buff
    ensures Holds(buff[..], len, n, text + Render(format, args)) && Ended(buff[..], len, n) && count <= n
    ensures buff[len..] == old(buff[len..])
  {
    ghost var was := buff[..];
    hide Render, AllNarrow, PrintfText.UpToNul, Printf.IsStart;
    Ended0(format);
    var more := Printf.Snprintf(buff, count, len - count, format + [NUL], args);
    n := count + more;
    if len > 0 {
      TruncatedAppend(text, Render(format, args), len);
      assert buff[..n] == buff[..count] + buff[count..count + more];
      assert buff[..count] == was[..count];
    }
    assert buff[len..] == was[len..] by {
      assert buff[count + (len - count)..] == was[count + (len - count)..];
    }
  }

  lemma Ended0(format: string)
    requires NUL !in format
    ensures UpToNul(format + [NUL]) == format
  {
    Printf.RestIsIgnored(format, []);
    assert format + [NUL] + [] == format + [NUL];
  }

  // ------------------------------------------------------- durations

  /** A number with its unit, if it is printed. */
  function Unit(printing: bool, val: nat, unit: string): string {
    if printing then Decimal(val) + unit else ""
  }

  function Fraction(p: nat, digits: string): string {
    if p > 0 then "." + digits else ""
  }

  /** Years, days, hours and minutes from the first that is not zero on, or all of them;
      then seconds with the digits after the point. */
  function DurationText(d: Time.Duration, leading_0: bool, p: nat, digits: string): string {
    Unit(leading_0 || d.years != 0, d.years, "y") + Unit(leading_0 || d.years != 0 || d.days != 0, d.days, "d") +
    Unit(leading_0 || d.years != 0 || d.days != 0 || d.hrs != 0, d.hrs, "h") +
    Unit(leading_0 || d.years != 0 || d.days != 0 || d.hrs != 0 || d.mins != 0, d.mins, "m") +
    Decimal(d.secs) + Fraction(p, digits) + "s"
  }

  method AppendUnit(buff: array<char>, len: nat, count: nat, printing: bool, val: nat, unit: string,
      ghost text: string) returns (n: nat)
    requires Holds(buff[..], len, count, text) && val < 0x8000_0000_0000_0000 && |unit| == 1 && unit[0] != '%'
      && unit[0] != NUL
    modifies buff
    ensures Holds(buff[..], len, n, text + Unit(printing, val, unit)) && buff[len..] == old(buff[len..])
  {
    hide Render, AllNarrow;
    n := count;
    if printing {
      RenderLd(val, unit);
      n := Append(buff, len, count, "%ld" + unit, [Word(val)], text);
    } else {
      assert text + "" == text;
    }
  }

  /** 64-bit words, and a frequency that is not zero. */
  predicate TimeFits(ticks: nat, freq: nat) {
    0 < freq < POW64 && ticks < POW64
  }

  function Precision(precision: nat): nat {
    if precision >= 31 then 31 else precision
  }

  /** Whole seconds and ticks left of the rounded ticks. */
  method SplitTicks(ticks: nat, freq: nat, precision: nat) returns (secs: nat, sub: nat)
    requires TimeFits(ticks, freq) && precision <= 31
    ensures Time.Up(precision) > 0 && sub < freq && secs < POW64
    ensures secs * freq + sub == Time.Word(ticks + Time.HalfUnit(freq, precision))
  {
    var rounded := Time.RoundTicks(ticks, freq, precision);
    Division(rounded, freq);
    secs, sub := rounded / freq, rounded % freq;
    QuotientFits(rounded, freq);
  }

  lemma QuotientFits(a: nat, n: nat)
    requires n > 0
    ensures a / n <= a
  {
    Division(a, n);
    Time.ProductIsNat(a / n, n - 1);
    assert (a / n) * n == a / n + (a / n) * (n - 1);
  }

  /** The digits of the fraction, as ac_time keeps them. */
  method FractionDigits(sub: nat, freq: nat, precision: nat) returns (digits: string)
    requires sub < freq && precision <= 31
    ensures digits == Time.Text(Time.WordDivision(sub, freq, precision))
  {
    var sss := new char[32];
    Time.SubSecToStr(sub, freq, precision, sss);
    digits := sss[..precision];
  }

  /** The years, days, hours and minutes of a duration. */
  method AppendDuration(buff: array<char>, len: nat, d: Time.Duration, leading_0: bool)
    returns (count: nat, ghost text: string)
    requires len <= buff.Length && len <= Printf.MAX_LEN && d.Valid() && d.years < 0x8000_0000_0000_0000
      && Holds(buff[..], len, 0, "")
    modifies buff
    ensures Holds(buff[..], len, count, text) && buff[len..] == old(buff[len..])
    ensures text == Unit(leading_0 || d.years != 0, d.years, "y")
      + Unit(leading_0 || d.years != 0 || d.days != 0, d.days, "d") +
                    Unit(leading_0 || d.years != 0 || d.days != 0 || d.hrs != 0, d.hrs, "h") +
                    Unit(leading_0 || d.years != 0 || d.days != 0 || d.hrs != 0 || d.mins != 0, d.mins, "m")
  {
    var printing := leading_0 || d.years != 0;
    count := AppendUnit(buff, len, 0, printing, d.years, "y", "");
    text := Unit(printing, d.years, "y");
    assert "" + text == text;
    printing := printing || d.days != 0;
    count := AppendUnit(buff, len, count, printing, d.days, "d", text);
    text := text + Unit(printing, d.days, "d");
    printing := printing || d.hrs != 0;
    count := AppendUnit(buff, len, count, printing, d.hrs, "h", text);
    text := text + Unit(printing, d.hrs, "h");
    printing := printing || d.mins != 0;
    count := AppendUnit(buff, len, count, printing, d.mins, "m", text);
    text := text + Unit(printing, d.mins, "m");
  }

  /** Digits as text denote the number that the digits do. */
  lemma {:induction false} TextDenotes(digits: seq<nat>)
    requires forall i :: 0 <= i < |digits| ==> digits[i] <= 9
    ensures Value(Time.Text(digits), 10) == Time.Number(digits)
  {
    if digits != [] {
      var n := |digits| - 1;
      TextDenotes(digits[..n]);
      NumberStep(digits[..n], digits[n]);
      assert digits == digits[..n] + [digits[n]];
      ValueStep(Time.Text(digits[..n]), Time.DigitChar(digits[n]), 10);
    }
  }

  lemma {:induction false} NumberStep(digits: seq<nat>, d: nat)
    ensures Time.Number(digits + [d]) == 10 * Time.Number(digits) + d
  {
    if digits == [] {
      assert [d][1..] == [];
      assert Time.Number([d]) == Time.Scaled(d, 0) + Time.Number([]);
    } else {
      assert (digits + [d])[1..] == digits[1..] + [d];
      NumberStep(digits[1..], d);
    }
  }

  /** No sum or product leaves 64 bits. */
  predicate Exact(ticks: nat, freq: nat, p: nat) {
    && p <= 18 && 10 * freq <= POW64
    && Time.Up(p) > 0 && ticks + Time.HalfUnit(freq, p) < POW64
  }

  /** Seconds and the digits after the point, together in units of 10^-p seconds. */
  function Shows(secs: nat, p: nat, digits: string): nat {
    Time.Scaled(secs, p) + Value(digits, 10)
  }

  /** What is printed, `shown`, is floor((ticks + h) * 10^p / freq): within 3/4 of a unit in its
      last place of the time that the ticks are, when the frequency can give the precision, and
      else that time rounded down. */
  predicate IsTime(ticks: nat, freq: nat, p: nat, shown: nat)
    requires freq > 0 && Time.Up(p) > 0
  {
    && shown == Time.Printed(ticks, freq, p)
    && (if 2 * Time.Pow10(p) <= freq then -3 * freq <= 4 * (shown * freq - ticks * Time.Pow10(p)) <= 3 * freq
        else 0 <= ticks * Time.Pow10(p) - shown * freq < freq)
  }

  /** The whole seconds and the digits that the strings are made of denote the time. */
  lemma StringIsTime(ticks: nat, freq: nat, p: nat, secs: nat, sub: nat)
    requires Exact(ticks, freq, p) && sub < freq && secs * freq + sub == Time.Word(ticks + Time.HalfUnit(freq, p))
    ensures IsTime(ticks, freq, p, Shows(secs, p, Time.Text(Time.WordDivision(sub, freq, p))))
  {
    Time.WordFits(ticks + Time.HalfUnit(freq, p));
    Time.TensFitIf(sub, freq, p);
    Time.WordDivisionIsLongIff(sub, freq, p);
    Time.LongDivisionDivides(sub, freq, p);
    TextDenotes(Time.LongDivision(sub, freq, p));
    Time.PrintedIsWhole(ticks, freq, p, secs, sub);
    Time.UpFits(p);
    if 2 * Time.Pow10(p) <= freq {
      RemainderSmall(freq, 2 * Time.Pow10(p));
      Time.PrintedIsClose(ticks, freq, p);
    } else {
      Time.PrintedIsFloor(ticks, freq, p);
    }
  }

  lemma RemainderSmall(freq: nat, n: nat)
    requires 0 < n <= freq && 10 * freq <= POW64
    ensures freq + freq % n < POW64
  {
    Division(freq, n);
  }

  /** The parts of a duration one after the other. */
  method WriteDuration(buff: array<char>, len: nat, d: Time.Duration, leading_0: bool, sub: nat, freq: nat, p: nat)
    returns (count: nat)
    requires len <= buff.Length && len <= Printf.MAX_LEN && d.Valid() && d.years < 0x8000_0000_0000_0000
    requires sub < freq && p <= 31
    modifies buff
    ensures Holds(buff[..], len, count, DurationText(d, leading_0, p, Time.Text(Time.WordDivision(sub, freq, p))))
    ensures Ended(buff[..], len, count) && buff[len..] == old(buff[len..])
  {
    ghost var text;
    count, text := AppendDuration(buff, len, d, leading_0);
    var digits := FractionDigits(sub, freq, p);
    count := AppendSeconds(buff, len, count, d.secs, p, digits, text);
  }

  /** AcTime_ticks_to_duration_str: what fits of the duration of the rounded ticks, with
      `precision` digits after the point, and a terminating zero. */
  method TicksToDurationStr(ticks: nat, freq: nat, leading_0: bool, precision: nat, buff: array<char>, len: nat)
    returns (count: nat, ghost d: Time.Duration, ghost sub: nat)
    requires TimeFits(ticks, freq) && len <= buff.Length && len <= Printf.MAX_LEN
    modifies buff
    ensures Time.Up(Precision(precision)) > 0 && sub < freq && d.Valid()
    ensures d.Seconds() * freq + sub == Time.Word(ticks + Time.HalfUnit(freq, Precision(precision)))
    ensures var digits := Time.Text(Time.WordDivision(sub, freq, Precision(precision)));
      && Holds(buff[..], len, count, DurationText(d, leading_0, Precision(precision), digits))
      && (Exact(ticks, freq, Precision(precision)) ==>
            IsTime(ticks, freq, Precision(precision), Shows(d.Seconds(), Precision(precision), digits)))
    ensures Ended(buff[..], len, count) && buff[len..] == old(buff[len..])
  {
    hide Holds, Ended, IsTime, Exact, DurationText, Time.Text, Time.WordDivision, Time.Up, Time.HalfUnit;
    var p := Precision(precision);
    var secs, sub_sec_ticks := SplitTicks(ticks, freq, p);
    var whole := Time.Split(secs);
    d, sub := whole, sub_sec_ticks;
    YearsFit(whole, secs);
    count := WriteDuration(buff, len, whole, leading_0, sub_sec_ticks, freq, p);
    if Exact(ticks, freq, p) {
      StringIsTime(ticks, freq, p, secs, sub_sec_ticks);
    }
  }

  lemma YearsFit(d: Time.Duration, secs: nat)
    requires d.Seconds() == secs < POW64
    ensures d.years < 0x8000_0000_0000_0000
  {
  }

  /** Seconds, the digits after the point, and the unit. */
  method AppendSeconds(buff: array<char>, len: nat, count: nat, secs: nat, p: nat, digits: string, ghost text: string)
    returns (n: nat)
    requires Holds(buff[..], len, count, text) && secs < 60
    modifies buff
    ensures Holds(buff[..], len, n, text + Decimal(secs) + Fraction(p, digits) + "s")
    ensures Ended(buff[..], len, n) && buff[len..] == old(buff[len..])
  {
    RenderLd(secs, "");
    assert "%ld" + "" == "%ld" && Decimal(secs) + "" == Decimal(secs);
    n := Append(buff, len, count, "%ld", [Word(secs)], text);
    n := AppendFraction(buff, len, n, p, digits, text + Decimal(secs));
    RenderPlain("s", []);
    AllNarrowPlain("s", []);
    n := Append(buff, len, n, "s", [], text + Decimal(secs) + Fraction(p, digits));
  }

  method AppendFraction(buff: array<char>, len: nat, count: nat, p: nat, digits: string, ghost text: string)
    returns (n: nat)
    requires Holds(buff[..], len, count, text) && Ended(buff[..], len, count)
    modifies buff
    ensures Holds(buff[..], len, n, text + Fraction(p, digits)) && Ended(buff[..], len, n)
      && buff[len..] == old(buff[len..])
  {
    n := count;
    if p > 0 {
      RenderPoint(digits);
      n := Append(buff, len, count, ".%s", [Text(digits)], text);
    } else {
      assert text + "" == text;
    }
  }

  method AppendUnits(buff: array<char>, len: nat, count: nat, units: seq<string>, ghost text: string) returns (n: nat)
    requires Holds(buff[..], len, count, text) && Ended(buff[..], len, count)
    modifies buff
    ensures Holds(buff[..], len, n, text + if units == [] then "" else units[0])
    ensures Ended(buff[..], len, n) && buff[len..] == old(buff[len..])
  {
    n := count;
    if units != [] {
      RenderPoint(units[0]);
      n := Append(buff, len, count, "%s", [Text(units[0])], text);
    } else {
      assert text + "" == text;
    }
  }

  method StartSeconds(buff: array<char>, len: nat, secs: nat) returns (n: nat)
    requires len <= buff.Length && len <= Printf.MAX_LEN && secs < POW64
    modifies buff
    ensures Holds(buff[..], len, n, Decimal(secs)) && Ended(buff[..], len, n) && buff[len..] == old(buff[len..])
  {
    RenderLu(secs);
    assert "" + Decimal(secs) == Decimal(secs);
    n := Append(buff, len, 0, "%lu", [Word(secs)], "");
  }

  /** AcTime_ticks_to_seconds_str: what fits of the rounded seconds, `precision` digits
      after the point, and the units if there are any. */
  method TicksToSecondsStr(ticks: nat, freq: nat, precision: nat, units: seq<string>, buff: array<char>, len: nat)
    returns (count: nat, ghost secs: nat, ghost sub: nat)
    requires TimeFits(ticks, freq) && len <= buff.Length && len <= Printf.MAX_LEN && |units| <= 1
    modifies buff
    ensures Time.Up(Precision(precision)) > 0 && sub < freq
    ensures secs * freq + sub == Time.Word(ticks + Time.HalfUnit(freq, Precision(precision)))
    ensures var digits := Time.Text(Time.WordDivision(sub, freq, Precision(precision)));
      && Holds(buff[..], len, count,
               Decimal(secs) + Fraction(Precision(precision), digits) + if units == [] then "" else units[0])
      && (Exact(ticks, freq, Precision(precision)) ==>
            IsTime(ticks, freq, Precision(precision), Shows(secs, Precision(precision), digits)))
    ensures Ended(buff[..], len, count) && buff[len..] == old(buff[len..])
  {
    var p := Precision(precision);
    var whole, sub_sec_ticks := SplitTicks(ticks, freq, p);
    secs, sub := whole, sub_sec_ticks;
    count := StartSeconds(buff, len, whole);
    var digits := FractionDigits(sub_sec_ticks, freq, p);
    count := AppendFraction(buff, len, count, p, digits, Decimal(whole));
    count := AppendUnits(buff, len, count, units, Decimal(whole) + Fraction(p, digits));
    if Exact(ticks, freq, p) {
      StringIsTime(ticks, freq, p, whole, sub_sec_ticks);
    }
  }
}
