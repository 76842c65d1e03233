/** What ac_printf prints, as text: numbers in a radix, padding, and the conversions of a
    format string. */
module PrintfText {
  import opened IntMath

  const NUL: char := '\0'
  const VAL_TO_CHAR: string := "0123456789abcdef\0"

  // ------------------------------------------------------------------ numbers

  function CharOf(d: nat): char {
    if d < 17 then VAL_TO_CHAR[d] else NUL
  }

  /** The value of a digit; 16 for what is no hexadecimal digit. */
  function DigitOf(c: char): nat {
    if '0' <= c <= '9' then (c as int - '0' as int) else if 'a' <= c <= 'f' then (c as int - 'a' as int + 10) else 16
  }

  lemma DigitOfChar(d: nat)
    requires d < 16
    ensures DigitOf(CharOf(d)) == d && (CharOf(d) == '0' <==> d == 0) && CharOf(d) != NUL
  {
  }

  /** The digits of a value, most significant first. */
  function Digits(val: nat, radix: nat): (text: string)
    requires radix >= 2
    ensures |text| > 0
    decreases val
  {
    if val < radix then [CharOf(val)] else Digits(val / radix, radix) + [CharOf(val % radix)]
  }

  /** The value that digits denote. */
  function Value(text: string, radix: nat): nat {
    if text == "" then 0 else Value(text[..|text| - 1], radix) * radix + DigitOf(text[|text| - 1])
  }

  lemma ValueStep(text: string, c: char, radix: nat)
    ensures Value(text + [c], radix) == Value(text, radix) * radix + DigitOf(c)
  {
    assert (text + [c])[..|text|] == text;
  }

  lemma SmallerQuotient(val: nat, radix: nat)
    requires radix >= 2 && val >= radix
    ensures 0 < val / radix < val
  {
    Division(val, radix);
    var q := val / radix;
    MulSign(q, radix);
    assert q * radix >= 2 * q by {
      MulSign(radix - 1, q + 1);
      assert q * radix == q + q * (radix - 1);
    }
  }

  /** The digits of a value denote it, and the first is zero only for zero. */
  lemma {:induction false} DigitsDenote(val: nat, radix: nat)
    requires 2 <= radix <= 16
    ensures Value(Digits(val, radix), radix) == val
    ensures Digits(val, radix)[0] == '0' <==> val == 0
    decreases val
  {
    if val < radix {
      OneDigit(val, radix);
    } else {
      var q, r := val / radix, val % radix;
      SmallerQuotient(val, radix);
      Division(val, radix);
      DigitsDenote(q, radix);
      ValueStep(Digits(q, radix), CharOf(r), radix);
      DigitOfChar(r);
    }
  }

  lemma OneDigit(val: nat, radix: nat)
    requires val < radix <= 16
    ensures Value([CharOf(val)], radix) == val && (CharOf(val) == '0' <==> val == 0)
  {
    DigitOfChar(val);
    assert [CharOf(val)][..0] == "";
    assert Value("", radix) * radix == 0;
  }

  /** A value below a power of two has no more digits than that power. */
  lemma {:induction false} DigitsFit(val: nat, radix: nat, k: nat)
    requires radix >= 2 && val < Pow2(k) && k > 0
    ensures |Digits(val, radix)| <= k
    decreases val
  {
    if val >= radix {
      SmallerQuotient(val, radix);
      HalfOrLess(val, radix);
      TwoBits(val, k);
      DigitsFit(val / radix, radix, k - 1);
    }
  }

  lemma DigitsAtMost64(val: nat, radix: nat)
    requires val < POW64 && radix >= 2
    ensures |Digits(val, radix)| <= 64
  {
    Pow2Of64(64);
    DigitsFit(val, radix, 64);
  }

  lemma TwoBits(val: nat, k: nat)
    requires 2 <= val < Pow2(k)
    ensures k >= 2
  {
    var one := k - 1;
    assert k > 0 ==> Pow2(k) == 2 * Pow2(one);
  }

  lemma HalfOrLess(val: nat, radix: nat)
    requires radix >= 2
    ensures 2 * (val / radix) <= val
  {
    Division(val, radix);
    var q := val / radix;
    assert q * radix == 2 * q + q * (radix - 2);
    assert q * (radix - 2) >= 0;
  }

  /** Zeros in front do not change a value. */
  lemma {:induction false} ZerosDenoteNothing(n: int, text: string, radix: nat)
    ensures Value(Repeat('0', n) + text, radix) == Value(text, radix)
    decreases |text|, if n > 0 then n else 0
  {
    var all := Repeat('0', n) + text;
    if text != "" {
      var t := text[..|text| - 1];
      assert all[..|all| - 1] == Repeat('0', n) + t;
      ZerosDenoteNothing(n, t, radix);
    } else if n > 0 {
      assert all == Repeat('0', n - 1) + ['0'];
      ValueStep(Repeat('0', n - 1), '0', radix);
      ZerosDenoteNothing(n - 1, "", radix);
      assert Repeat('0', n - 1) + "" == Repeat('0', n - 1);
    }
  }

  function Repeat(c: char, n: int): (text: string)
    ensures |text| == if n > 0 then n else 0
    ensures forall i :: 0 <= i < |text| ==> text[i] == c
  {
    if n <= 0 then "" else Repeat(c, n - 1) + [c]
  }

  // ------------------------------------------------------------------ fields

  /** The flags of a conversion; `sign` is NUL when none is printed. */
  datatype Format = Format(sign: char, left: bool, alt: bool, zero: bool, width: Word64, precision: nat)

  function SignText(f: Format): string {
    if f.sign != NUL then [f.sign] else ""
  }

  /** The width less `n` in 64 bits, read as a signed word: how much to pad, if it is more
      than zero.  It is negative for short widths, and for very large ones. */
  function PadCount(width: Word64, n: nat): int {
    Signed64((width - n) % POW64)
  }

  lemma PadCountIs(width: Word64, n: nat)
    requires n <= HALF64
    ensures PadCount(width, n) == if width - n < HALF64 then width - n else width - n - POW64
  {
  }

  /** Zeros up to the width, room left for the sign. */
  function Zeros(f: Format, digits: nat): string {
    if f.zero then Repeat('0', PadCount(f.width, digits) - |SignText(f)|) else ""
  }

  function Signed(f: Format, digits: string): (text: string) {
    SignText(f) + Zeros(f, |digits|) + digits
  }

  /** Blanks up to the width. */
  function Field(f: Format, text: string): string {
    var blanks := Repeat(' ', PadCount(f.width, |text|));
    if f.left then text + blanks else blanks + text
  }

  /** What write_uval prints. */
  function UvalText(f: Format, val: nat, size: nat, radix: nat): string
  {
    if radix <= 1 || radix > 17 then "Bad Radix " + Field(f, Signed(f, Digits(size, 10)))
    else Field(f, Signed(f, Digits(val, radix)))
  }

  /** The digits that write_uval puts into its buffer. */
  function Shown(val: nat, size: nat, radix: nat): string {
    if radix <= 1 || radix > 17 then Digits(size, 10) else Digits(val, radix)
  }

  const SIZEOF_UINT: nat := 8

  /** What write_sval prints for a 64-bit value; it hands on a size of its own. */
  function SvalText(f: Format, val: int, radix: nat): string {
    if val < 0 then UvalText(f.(sign := '-'), -val, SIZEOF_UINT, radix) else UvalText(f, val, SIZEOF_UINT, radix)
  }

  predicate Blank(text: string) {
    forall i :: 0 <= i < |text| ==> text[i] == ' '
  }

  function Max(a: int, b: int): int {
    if a > b then a else b
  }

  lemma FieldIs(f: Format, text: string) returns (front: string, back: string)
    ensures Field(f, text) == front + text + back && Blank(front) && Blank(back)
    ensures |text| <= HALF64 ==> |Field(f, text)| == if f.width - |text| < HALF64 then Max(f.width, |text|) else |text|
  {
    var blanks := Repeat(' ', PadCount(f.width, |text|));
    front := if f.left then "" else blanks;
    back := if f.left then blanks else "";
    if |text| <= HALF64 {
      PadCountIs(f.width, |text|);
    }
  }

  /** Blanks, sign, digits with leading zeros, blanks: the digits denote the value, and the
      text is as long as the width asks, or as the digits and the sign need; a width of
      2^63 or more than that is not asked for. */
  lemma UvalTextDenotes(f: Format, val: nat, size: nat, radix: nat)
    returns (front: string, number: string, back: string)
    requires 2 <= radix <= 16 && val < POW64 && !PadOverflows(f, |Digits(val, radix)|)
    ensures UvalText(f, val, size, radix) == front + (SignText(f) + number) + back && Blank(front) && Blank(back)
    ensures Value(number, radix) == val
    ensures var n := |Digits(val, radix)| + |SignText(f)|;
      |UvalText(f, val, size, radix)| == if f.width - n < HALF64 then Max(f.width, n) else n
  {
    DigitsAtMost64(val, radix);
    NumberDenotes(f, val, radix);
    front, number, back := FieldParts(f, Digits(val, radix));
  }

  lemma FieldParts(f: Format, digits: string) returns (front: string, number: string, back: string)
    requires |digits| <= 64
    ensures Field(f, Signed(f, digits)) == front + (SignText(f) + number) + back && Blank(front) && Blank(back)
    ensures number == Zeros(f, |digits|) + digits
    ensures var n := |digits| + |SignText(f)|;
      |Field(f, Signed(f, digits))| == if f.width - n < HALF64 then Max(f.width, n) else n
  {
    number := Zeros(f, |digits|) + digits;
    SignedIs(f, digits);
    var text := Signed(f, digits);
    if |text| <= HALF64 {
      front, back := FieldIs(f, text);
      FieldLength(f, |text|, |digits|);
    } else {
      front, back := FieldIs(f, text);
      FullField(f, text);
    }
  }

  /** A text of the full width has no blanks around it. */
  lemma FullField(f: Format, text: string)
    requires |text| == f.width
    ensures Field(f, text) == text
  {
  }

  /** How long a field is, from the length `t` of the text between its blanks. */
  lemma FieldLength(f: Format, t: nat, d: nat)
    requires d <= 64 && d + |SignText(f)| <= t && (t == d + |SignText(f)| || t == f.width)
    requires f.width - d >= HALF64 ==> t == d + |SignText(f)|
    ensures var n := d + |SignText(f)|;
      (if f.width - t < HALF64 then Max(f.width, t) else t) == if f.width - n < HALF64 then Max(f.width, n) else n
  {
  }

  lemma SignedIs(f: Format, digits: string)
    ensures Signed(f, digits) == SignText(f) + (Zeros(f, |digits|) + digits)
    ensures |digits| <= 64 ==> |Signed(f, digits)| == |digits| + |SignText(f)| || |Signed(f, digits)| == f.width
    ensures |digits| <= 64 ==> |digits| + |SignText(f)| <= |Signed(f, digits)| <= Max(f.width, |digits| + |SignText(f)|)
    ensures |digits| <= 64 && f.width - |digits| >= HALF64 ==> |Signed(f, digits)| == |digits| + |SignText(f)|
  {
    if |digits| <= 64 {
      PadCountIs(f.width, |digits|);
    }
  }

  lemma NumberDenotes(f: Format, val: nat, radix: nat)
    requires 2 <= radix <= 16
    ensures Value(Zeros(f, |Digits(val, radix)|) + Digits(val, radix), radix) == val
  {
    var digits := Digits(val, radix);
    var n := if f.zero then PadCount(f.width, |digits|) - |SignText(f)| else 0;
    DigitsDenote(val, radix);
    ZerosDenoteNothing(n, digits, radix);
    assert Zeros(f, |digits|) == Repeat('0', n);
  }

  // ------------------------------------------------------------------ reading a number

  predicate IsDigit(c: char) {
    '0' <= c <= '9'
  }

  /** One digit more, in 64 bits. */
  function NextValue(val: nat, c: char): nat {
    (val * 10 + DigitOf(c)) % POW64
  }

  /** get_number: the value of the digits at the start of `f`, and the rest. */
  function GetNumber(val: nat, f: string): (r: (nat, string))
    ensures |r.1| <= |f|
    ensures f != "" && IsDigit(f[0]) ==> |r.1| < |f|
    ensures val < POW64 ==> r.0 < POW64
    decreases |f|
  {
    if f == "" || !IsDigit(f[0]) then (val, f) else GetNumber(NextValue(val, f[0]), f[1..])
  }

  function ReadAll(val: nat, text: string): nat
    decreases |text|
  {
    if text == "" then val else NextValue(ReadAll(val, text[..|text| - 1]), text[|text| - 1])
  }

  lemma {:induction false} ReadsDigits(val: nat, text: string, rest: string)
    requires forall i :: 0 <= i < |text| ==> IsDigit(text[i])
    ensures GetNumber(val, text + rest) == GetNumber(ReadAll(val, text), rest)
    decreases |text|
  {
    if text == "" {
      assert text + rest == rest;
    } else {
      var t, c := text[..|text| - 1], text[|text| - 1];
      assert text + rest == t + ([c] + rest);
      ReadsDigits(val, t, [c] + rest);
      assert ([c] + rest)[1..] == rest;
    }
  }

  lemma DecimalSteps(val: nat)
    requires val >= 10
    ensures Digits(val, 10) == Digits(val / 10, 10) + [CharOf(val % 10)] && val / 10 < val
      && val == (val / 10) * 10 + val % 10
  {
  }

  lemma {:induction false} DecimalDigits(val: nat)
    ensures forall i :: 0 <= i < |Digits(val, 10)| ==> IsDigit(Digits(val, 10)[i])
    decreases val
  {
    DecimalChar(val % 10);
    if val >= 10 {
      DecimalSteps(val);
      DecimalDigits(val / 10);
    }
  }

  lemma {:induction false} ReadAllIsValue(val: nat)
    requires val < POW64
    ensures ReadAll(0, Digits(val, 10)) == val
    decreases val
  {
    if val < 10 {
      ReadMore("", 0, val, val);
      assert "" + [CharOf(val)] == Digits(val, 10);
    } else {
      DecimalSteps(val);
      ReadAllIsValue(val / 10);
      ReadMore(Digits(val / 10, 10), val / 10, val % 10, val);
    }
  }

  lemma ReadMore(text: string, q: nat, r: nat, val: nat)
    requires ReadAll(0, text) == q && r < 10 && val == q * 10 + r && val < POW64
    ensures ReadAll(0, text + [CharOf(r)]) == val
  {
    DecimalChar(r);
    ReadStep(text, CharOf(r), q);
    NextIs(q, r, CharOf(r), val);
  }

  lemma NextIs(q: nat, r: nat, c: char, val: nat)
    requires val == q * 10 + r && val < POW64 && DigitOf(c) == r
    ensures NextValue(q, c) == val
  {
  }

  lemma DecimalChar(d: nat)
    requires d < 10
    ensures IsDigit(CharOf(d)) && DigitOf(CharOf(d)) == d
  {
  }

  lemma ReadStep(text: string, c: char, val: nat)
    requires ReadAll(0, text) == val
    ensures ReadAll(0, text + [c]) == NextValue(val, c)
  {
    assert (text + [c])[..|text|] == text;
  }

  /** Reading inverts printing in decimal. */
  lemma GetNumberInverts(val: nat, rest: string)
    requires val < POW64 && (rest == "" || !IsDigit(rest[0]))
    ensures GetNumber(0, Digits(val, 10) + rest) == (val, rest)
  {
    ReadAllIsValue(val);
    DecimalDigits(val);
    ReadsDigits(0, Digits(val, 10), rest);
  }

  // ------------------------------------------------------------------ formats

  datatype Arg = Word(value: nat) | Text(text: string)

  /** The next argument as a word; reading one that is not there is not defined, and 0 here. */
  function NextWord(args: seq<Arg>): (Word64, seq<Arg>) {
    if args == [] then (0, []) else (if args[0].Word? then args[0].value % POW64 else 0, args[1..])
  }

  function NextText(args: seq<Arg>): (string, seq<Arg>) {
    if args == [] then ("", []) else (if args[0].Text? then args[0].text else "", args[1..])
  }

  function Low32(x: nat): nat {
    x % 0x1_0000_0000
  }

  function Signed32(x: nat): int {
    if Low32(x) >= 0x8000_0000 then Low32(x) - 0x1_0000_0000 else Low32(x)
  }

  function Signed64(x: nat): int {
    if x % POW64 >= 0x8000_0000_0000_0000 then x % POW64 - POW64 else x % POW64
  }

  const NO_FORMAT: Format := Format(NUL, false, false, false, 0, 0)

  function Flags(f: string, x: Format): (r: (Format, string))
    ensures |r.1| <= |f|
    decreases |f|
  {
    if f == "" then (x, f)
    else if f[0] == '+' then Flags(f[1..], x.(sign := '+'))
    else if f[0] == '-' then Flags(f[1..], x.(left := true))
    else if f[0] == '#' then Flags(f[1..], x.(alt := true))
    else if f[0] == '0' then Flags(f[1..], x.(zero := true))
    else (x, f)
  }

  /** A number in the format or, for '*', the next argument. */
  function Count(f: string, args: seq<Arg>, lowest: char): (r: (Word64, string, seq<Arg>))
    ensures |r.1| <= |f|
  {
    if f != "" && lowest <= f[0] <= '9' && IsDigit(f[0]) then var (n, g) := GetNumber(0, f); (n, g, args)
    else if f != "" && f[0] == '*' then var (n, more) := NextWord(args); (n, f[1..], more)
    else (0, f, args)
  }

  /** What one conversion prints, and what is left of format and arguments. */
  datatype Piece = Piece(text: string, rest: string, args: seq<Arg>, stop: bool)

  function Number(x: Format, f: string, args: seq<Arg>, signed: bool, bits: nat, radix: nat): Piece {
    var (n, more) := NextWord(args);
    var text := if signed then SvalText(x, if bits == 32 then Signed32(n) else Signed64(n), radix)
                else UvalText(x, if bits == 32 then Low32(n) else n, bits / 8, radix);
    Piece(text, f, more, false)
  }

  /** The text of a zero terminated string. */
  function UpToNul(chars: seq<char>): (text: string)
    ensures |text| <= |chars|
  {
    if chars == [] || chars[0] == NUL then "" else [chars[0]] + UpToNul(chars[1..])
  }

  /** A conversion with "l" or "ll", after those letters. */
  function Long(x: Format, f: string, args: seq<Arg>, letters: string): (p: Piece)
    ensures |p.rest| <= |f|
  {
    if f != "" && f[0] == 'b' then Number(x, f[1..], args, false, 64, 2)
    else if f != "" && f[0] == 'd' then Number(x, f[1..], args, true, 64, 10)
    else if f != "" && f[0] == 'u' then Number(x, f[1..], args, false, 64, 10)
    else if f != "" && f[0] == 'x' then Number(x, f[1..], args, false, 64, 16)
    else Piece("%" + letters, f, args, false)
  }

  /** After the first letter "l". */
  function LongOrLongLong(x: Format, f: string, args: seq<Arg>): (p: Piece)
    ensures |p.rest| <= |f|
  {
    if f != "" && f[0] == 'l' then Long(x, f[1..], args, "ll") else Long(x, f, args, "l")
  }

  /** A type name in braces, of at most 31 characters; no procedure is registered for it. */
  function Braces(name: string, f: string, args: seq<Arg>): (p: Piece)
    requires |name| <= 31
    ensures |p.rest| <= |f| && p.args == args
    decreases |f|
  {
    if f == "" then Piece("{" + name + "<<'}' is missing>>", f, args, true)
    else if f[0] == '}' then Piece("{" + name + "}", f[1..], args, false)
    else if |name| >= 31 then Piece("{" + name + "<<to long>>", f, args, true)
    else Braces(name + [f[0]], f[1..], args)
  }

  function Printable(x: nat): char {
    if 0x20 <= x % 256 <= 0x7F then (x % 256) as char else 255 as char
  }

  function PointerFormat(x: Format): Format {
    x.(zero := true, width := if x.width == 0 then 16 else x.width)
  }

  /** A conversion from its letter on; `f` is not empty. */
  function Conversion(x: Format, f: string, args: seq<Arg>): (p: Piece)
    requires f != ""
    ensures |p.rest| <= |f|
  {
    var g := f[1..];
    match f[0]
    case '%' => Piece("%", g, args, false)
    case 'c' => var (n, more) := NextWord(args); Piece([Printable(n)], g, more, false)
    case 's' => var (t, more) := NextText(args); Piece(t, g, more, false)
    case 'i' => Number(x, g, args, true, 64, 10)
    case 'v' => Number(x, g, args, false, 64, 10)
    case 'y' => Number(x, g, args, false, 64, 16)
    case 'b' => Number(x, g, args, false, 32, 2)
    case 'd' => Number(x, g, args, true, 32, 10)
    case 'u' => Number(x, g, args, false, 32, 10)
    case 'x' => Number(x, g, args, false, 32, 16)
    case 'l' => LongOrLongLong(x, g, args)
    case 'p' => Number(PointerFormat(x), g, args, false, 64, 16)
    case '{' => Braces("", g, args)
    case _ => Piece("%" + [f[0]], g, args, false)
  }

  /** The format of the conversion after a '%', and where its letter is. */
  function Header(f: string, args: seq<Arg>): (r: (Format, string, seq<Arg>))
    ensures |r.1| <= |f|
  {
    var (x, f1) := Flags(f, NO_FORMAT);
    var (width, f2, a2) := Count(f1, args, '1');
    var (precision, f3, a3) := if f2 != "" && f2[0] == '.' then Count(f2[1..], a2, '0') else (0, f2, a2);
    if f1 == "" then (x, "", args) else (x.(width := width, precision := precision), f3, a3)
  }

  /** From the character after a '%'. */
  function Percent(f: string, args: seq<Arg>): (p: Piece)
    ensures |p.rest| <= |f|
  {
    var (x, g, more) := Header(f, args);
    if g == "" then Piece("", "", more, true) else Conversion(x, g, more)
  }

  /** What write_uval builds from so many digits fits its buffer: it is padded to no more
      than that, or not padded at all as the count is negative. */
  predicate Fits(f: Format, digits: nat) {
    !f.zero || f.width <= 65 || f.width - digits >= HALF64
  }

  /** The count is the least signed word, and the decrement for the sign is not defined. */
  predicate PadOverflows(f: Format, digits: nat) {
    f.zero && f.sign != NUL && f.width - digits == HALF64
  }

  /** Zeros are asked for no more than that buffer takes, or not at all. */
  predicate NarrowZeros(x: Format) {
    x.zero ==> x.width <= 65 || x.width > HALF64 + 64
  }

  lemma NarrowFits(x: Format, sign: char, digits: nat)
    requires NarrowZeros(x) && digits <= 64
    ensures Fits(x.(sign := sign), digits) && !PadOverflows(x.(sign := sign), digits)
  {
  }

  /** The conversion at the start of `f` builds nothing that is too long. */
  predicate Narrow(x: Format, f: string) {
    f != "" ==> NarrowZeros(if f[0] == 'p' then PointerFormat(x) else x)
  }

  /** All conversions of a format are narrow. */
  predicate AllNarrow(f: string, args: seq<Arg>)
    decreases |f|
  {
    if f == "" then true
    else if f[0] != '%' then AllNarrow(f[1..], args)
    else
      var (x, g, more) := Header(f[1..], args);
      var p := Percent(f[1..], args);
      Narrow(x, g) && (p.stop || AllNarrow(p.rest, p.args))
  }

  /** What formatter prints for a format and arguments, with no length limit. */
  function Render(f: string, args: seq<Arg>): string
    decreases |f|
  {
    if f == "" then ""
    else if f[0] != '%' then [f[0]] + Render(f[1..], args)
    else
      var p := Percent(f[1..], args);
      if p.stop then p.text else p.text + Render(p.rest, p.args)
  }

  /** A format without conversions prints itself. */
  lemma {:induction false} RenderPlain(f: string, args: seq<Arg>)
    requires forall i :: 0 <= i < |f| ==> f[i] != '%'
    ensures Render(f, args) == f
    decreases |f|
  {
    if f != "" {
      RenderPlain(f[1..], args);
    }
  }

  /** What fits into a buffer of `n` characters with the terminating zero. */
  function Truncated(text: string, n: nat): (r: string)
    ensures n > 0 ==> |r| < n
  {
    if n == 0 then "" else if |text| < n then text else text[..n - 1]
  }

  /** Appending truncated pieces one after the other truncates the whole. */
  lemma TruncatedAppend(a: string, b: string, n: nat)
    requires n > 0
    ensures Truncated(a + b, n) == Truncated(a, n) + Truncated(b, n - |Truncated(a, n)|)
  {
  }
}
