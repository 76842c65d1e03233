/** What each conversion of a format string prints, in terms of the number, the character or
    the text that it is given, with any flags, width and precision, and any format around it. */
module PrintfMeaning {
  import opened IntMath
  import opened PrintfText

  // ------------------------------------------------------------------ conversions

  /** A width or a precision: none, written out, or the argument for a '*'. */
  datatype Amount = Nothing | Given(n: nat) | Star(n: nat)
  {
    function Text(): string {
      match this
      case Nothing => ""
      case Given(n) => Digits(n, 10)
      case Star(_) => "*"
    }

    function Args(): seq<Arg> {
      if Star? then [Word(n)] else []
    }

    function Value(): nat {
      if Nothing? then 0 else n
    }
  }

  /** The part of a conversion between the '%' and its letter. */
  datatype Spec = Spec(flags: string, width: Amount, dot: bool, precision: Amount)
  {
    predicate Valid() {
      && (forall i :: 0 <= i < |flags| ==> flags[i] in "+-#0")
      && width.Value() < POW64 && precision.Value() < POW64 && width != Given(0)
      && (!dot ==> precision == Nothing)
    }

    function Tail(): string {
      width.Text() + if dot then "." + precision.Text() else ""
    }

    function Text(): string {
      "%" + flags + Tail()
    }

    function Args(): seq<Arg> {
      width.Args() + precision.Args()
    }

    /** The text is that of the integer `v`: see IsField. */
    ghost predicate Prints(text: string, v: int, radix: nat) {
      var sign := if v < 0 then "-" else if '+' in flags then "+" else "";
      IsNumber(text, sign, '-' in flags, '0' in flags, width.Value(), if v < 0 then -v else v, radix)
    }

    /** The text is that of a pointer: zeros up to 16 digits when no width is given. */
    ghost predicate PrintsPointer(text: string, v: nat) {
      IsNumber(text, if '+' in flags then "+" else "", '-' in flags, true,
               if width.Value() == 0 then 16 else width.Value(), v, 16)
    }
  }

  /** Blanks, sign and digits, blanks.  The digits are those of the radix and denote the
      value; the text is as wide as asked, or as sign and digits need; the blanks are after
      the number for '-' and before it without; for '0' there are none, but zeros between
      sign and number up to the width; other zeros do not come first. */
  predicate IsField(text: string, front: string, sign: string, number: string, back: string, left: bool, zero: bool,
      width: nat, val: nat, radix: nat)
  {
    && text == front + (sign + number) + back && Blank(front) && Blank(back)
    && number != "" && (forall i :: 0 <= i < |number| ==> DigitOf(number[i]) < radix)
    && PrintfText.Value(number, radix) == val
    && |text| == Max(width, |sign| + |number|)
    && (if left then front == "" else back == "") && (zero ==> front == back == "")
    && (number[0] == '0' ==> number == "0" || (zero && |sign| + |number| == width))
  }

  ghost predicate IsNumber(text: string, sign: string, left: bool, zero: bool, width: nat, val: nat, radix: nat) {
    exists front: string, number: string, back: string ::
      IsField(text, front, sign, number, back, left, zero, width, val, radix)
  }

  // ------------------------------------------------------------------ numbers

  lemma {:induction false} DigitsInRadix(val: nat, radix: nat)
    requires 2 <= radix <= 16
    ensures forall i :: 0 <= i < |Digits(val, radix)| ==> DigitOf(Digits(val, radix)[i]) < radix
    ensures val == 0 ==> Digits(val, radix) == "0"
    decreases val
  {
    if val < radix {
      DigitOfChar(val);
    } else {
      SmallerQuotient(val, radix);
      Division(val, radix);
      DigitsInRadix(val / radix, radix);
      DigitOfChar(val % radix);
    }
  }

  /** What write_uval prints, for every width that is not negative as a signed word. */
  lemma UvalIsNumber(f: Format, val: nat, size: nat, radix: nat)
    requires 2 <= radix <= 16 && val < POW64 && f.width < HALF64
    ensures IsNumber(UvalText(f, val, size, radix), SignText(f), f.left, f.zero, f.width, val, radix)
  {
    var digits := Digits(val, radix);
    DigitsAtMost64(val, radix);
    var front, back, number := FieldOf(f, digits);
    NumberInField(f, val, radix, number);
    var text := UvalText(f, val, size, radix);
    assert text == Field(f, Signed(f, digits));
    hide Field, Signed, Digits, DigitOf, Blank, PrintfText.Value, Zeros, UvalText, SignText;
    assert IsField(text, front, SignText(f), number, back, f.left, f.zero, f.width, val, radix);
  }

  /** Digits with zeros before them. */
  lemma NumberInField(f: Format, val: nat, radix: nat, number: string)
    requires 2 <= radix <= 16 && number == Zeros(f, |Digits(val, radix)|) + Digits(val, radix)
    ensures number != "" && PrintfText.Value(number, radix) == val
    ensures forall i :: 0 <= i < |number| ==> DigitOf(number[i]) < radix
    ensures number[0] == '0' ==> number == "0" || |number| > |Digits(val, radix)|
  {
    var digits := Digits(val, radix);
    DigitsInRadix(val, radix);
    DigitsDenote(val, radix);
    NumberDenotes(f, val, radix);
    hide Digits, PrintfText.Value, Zeros, DigitOf;
    AfterZeros(Zeros(f, |digits|), digits, number, radix);
  }

  lemma AfterZeros(zeros: string, digits: string, number: string, radix: nat)
    requires number == zeros + digits && digits != "" && radix >= 2
    requires forall i :: 0 <= i < |zeros| ==> zeros[i] == '0'
    requires forall i :: 0 <= i < |digits| ==> DigitOf(digits[i]) < radix
    ensures forall i :: 0 <= i < |number| ==> DigitOf(number[i]) < radix
    ensures |number| == |digits| ==> number == digits
  {
    assert DigitOf('0') == 0;
  }

  /** The parts of a field whose digits are given. */
  lemma FieldOf(f: Format, digits: string) returns (front: string, back: string, number: string)
    requires 0 < |digits| <= 64 && f.width < HALF64
    ensures number == Zeros(f, |digits|) + digits && Blank(front) && Blank(back)
    ensures Field(f, Signed(f, digits)) == front + (SignText(f) + number) + back
    ensures |Field(f, Signed(f, digits))| == Max(f.width, |SignText(f)| + |number|)
    ensures (if f.left then front == "" else back == "") && (f.zero ==> front == back == "")
    ensures |number| > |digits| ==> f.zero && |SignText(f)| + |number| == f.width
  {
    number := Zeros(f, |digits|) + digits;
    SignedIs(f, digits);
    var text := Signed(f, digits);
    PadCountIs(f.width, |digits|);
    PadCountIs(f.width, |text|);
    var blanks := Repeat(' ', PadCount(f.width, |text|));
    front := if f.left then "" else blanks;
    back := if f.left then blanks else "";
    assert text == SignText(f) + number;
  }

  lemma SvalIsNumber(f: Format, v: int, radix: nat)
    requires 2 <= radix <= 16 && -0x8000_0000_0000_0000 <= v < HALF64 && f.width < HALF64
    ensures var g := if v < 0 then f.(sign := '-') else f;
      IsNumber(SvalText(f, v, radix), SignText(g), f.left, f.zero, f.width, if v < 0 then -v else v, radix)
  {
    if v < 0 {
      UvalIsNumber(f.(sign := '-'), -v, SIZEOF_UINT, radix);
    } else {
      UvalIsNumber(f, v, SIZEOF_UINT, radix);
    }
  }

  // ------------------------------------------------------------------ headers

  function WithFlags(fs: string, x: Format): Format {
    x.(sign := if '+' in fs then '+' else x.sign, left := x.left || '-' in fs, alt := x.alt || '#' in fs,
       zero := x.zero || '0' in fs)
  }

  lemma {:induction false} FlagsRead(fs: string, g: string, x: Format)
    requires forall i :: 0 <= i < |fs| ==> fs[i] in "+-#0"
    requires g != "" ==> g[0] !in "+-#0"
    ensures Flags(fs + g, x) == (WithFlags(fs, x), g)
    decreases |fs|
  {
    if fs == "" {
      assert fs + g == g;
    } else {
      assert (fs + g)[1..] == fs[1..] + g;
      var y := WithFlags([fs[0]], x);
      assert WithFlags(fs[1..], y) == WithFlags(fs, x) by {
        assert fs == [fs[0]] + fs[1..];
      }
      FlagsRead(fs[1..], g, y);
    }
  }

  /** Where a number ends. */
  predicate Stops(g: string) {
    g != "" ==> !IsDigit(g[0]) && g[0] != '*'
  }

  lemma CountRead(a: Amount, g: string, args: seq<Arg>, lowest: char)
    requires a.Value() < POW64 && Stops(g) && (lowest == '0' || (lowest == '1' && a != Given(0)))
    ensures Count(a.Text() + g, a.Args() + args, lowest) == (a.Value(), g, args)
  {
    match a
    case Nothing =>
      assert "" + g == g && a.Args() + args == args;
    case Given(n) =>
      GetNumberInverts(n, g);
      DecimalDigits(n);
      DigitsDenote(n, 10);
      assert a.Args() + args == args;
      assert (Digits(n, 10) + g)[0] == Digits(n, 10)[0];
    case Star(n) =>
      assert ("*" + g)[1..] == g && ([Word(n)] + args)[1..] == args;
  }

  /** A letter of a conversion. */
  predicate Letter(g: string) {
    g != "" && g[0] !in "+-#0123456789*."
  }

  function FormatOf(sp: Spec): Format
    requires sp.Valid()
  {
    WithFlags(sp.flags, NO_FORMAT).(width := sp.width.Value(), precision := sp.precision.Value())
  }

  lemma TailStart(sp: Spec, g: string)
    requires sp.Valid() && (g == "" || Letter(g))
    ensures sp.Tail() + g != "" ==> (sp.Tail() + g)[0] !in "+-#0"
  {
    match sp.width
    case Nothing =>
      if !sp.dot {
        assert sp.Tail() + g == g;
      }
    case Given(n) =>
      DecimalDigits(n);
      DigitsDenote(n, 10);
    case Star(_) =>
  }

  /** The header is read as it was written. */
  lemma HeaderRead(sp: Spec, g: string, args: seq<Arg>)
    requires sp.Valid() && (g == "" || Letter(g))
    ensures Header(sp.flags + (sp.Tail() + g), sp.Args() + args) == (FormatOf(sp), g, args)
  {
    TailStart(sp, g);
    FlagsRead(sp.flags, sp.Tail() + g, NO_FORMAT);
    if sp.Tail() + g == "" {
      NothingFollows(sp, args);
    } else {
      CountsRead(sp, g, args);
    }
  }

  lemma NothingFollows(sp: Spec, args: seq<Arg>)
    requires sp.Valid() && sp.Tail() == ""
    ensures sp.width == Nothing && sp.precision == Nothing && sp.Args() + args == args
  {
  }

  lemma CountsRead(sp: Spec, g: string, args: seq<Arg>)
    requires sp.Valid() && (g == "" || Letter(g)) && sp.Tail() + g != ""
    requires Flags(sp.flags + (sp.Tail() + g), NO_FORMAT) == (WithFlags(sp.flags, NO_FORMAT), sp.Tail() + g)
    ensures Header(sp.flags + (sp.Tail() + g), sp.Args() + args) == (FormatOf(sp), g, args)
  {
    var dotted := Dotted(sp, g);
    Regrouped(sp, g, args);
    CountRead(sp.width, dotted, sp.precision.Args() + args, '1');
    if sp.dot {
      CountRead(sp.precision, g, args, '0');
    }
    hide Flags, Count, Amount.Text, Amount.Args, Spec.Tail, Spec.Args, WithFlags;
    HeaderParts(sp.flags + (sp.Tail() + g), sp.Args() + args, WithFlags(sp.flags, NO_FORMAT), sp.Tail() + g,
                sp.width.Value(), dotted, sp.precision.Args() + args, sp.precision.Value(), g, args);
  }

  /** What follows the width. */
  function Dotted(sp: Spec, g: string): string {
    if sp.dot then "." + (sp.precision.Text() + g) else g
  }

  lemma Regrouped(sp: Spec, g: string, args: seq<Arg>)
    requires sp.Valid() && (g == "" || Letter(g))
    ensures sp.Tail() + g == sp.width.Text() + Dotted(sp, g)
    ensures sp.Args() + args == sp.width.Args() + (sp.precision.Args() + args)
    ensures sp.dot ==> Dotted(sp, g)[0] == '.' && Dotted(sp, g)[1..] == sp.precision.Text() + g
    ensures !sp.dot ==> sp.precision.Args() + args == args && (g == "" || g[0] != '.')
    ensures Stops(Dotted(sp, g)) && Stops(g)
  {
    hide Amount.Text;
  }

  lemma HeaderParts(f: string, all: seq<Arg>, x: Format, f1: string, w: Word64, f2: string, a2: seq<Arg>,
      p: Word64, g: string, args: seq<Arg>)
    requires Flags(f, NO_FORMAT) == (x, f1) && f1 != "" && Count(f1, all, '1') == (w, f2, a2)
    requires if f2 != "" && f2[0] == '.' then Count(f2[1..], a2, '0') == (p, g, args)
             else p == 0 && g == f2 && args == a2
    ensures Header(f, all) == (x.(width := w, precision := p), g, args)
  {
  }

  // ------------------------------------------------------------------ in a format

  predicate NoPercent(f: string) {
    forall i :: 0 <= i < |f| ==> f[i] != '%'
  }

  /** Plain text before a conversion prints itself. */
  lemma {:induction false} RenderBefore(pre: string, f: string, args: seq<Arg>)
    requires NoPercent(pre)
    ensures Render(pre + f, args) == pre + Render(f, args)
    decreases |pre|
  {
    if pre == "" {
      assert pre + f == f;
    } else {
      assert (pre + f)[1..] == pre[1..] + f;
      RenderBefore(pre[1..], f, args);
    }
  }

  /** A conversion in a format, from what it is as a Piece. */
  lemma RenderConversion(pre: string, sp: Spec, g: string, args: seq<Arg>, p: Piece)
    requires NoPercent(pre) && sp.Valid() && Letter(g) && p == Conversion(FormatOf(sp), g, args) && !p.stop
    ensures Render(pre + sp.Text() + g, sp.Args() + args) == pre + p.text + Render(p.rest, p.args)
  {
    var f, h, all := sp.Text() + g, sp.flags + (sp.Tail() + g), sp.Args() + args;
    HeaderRead(sp, g, args);
    TextStarts(pre, sp, g);
    RenderBefore(pre, f, all);
    hide Header, Conversion, Percent, Render, Spec.Text, Spec.Tail, Spec.Args;
    PercentConverts(h, all, FormatOf(sp), g, args);
    RenderOne(f, h, all, p);
  }

  lemma TextStarts(pre: string, sp: Spec, g: string)
    ensures (sp.Text() + g)[0] == '%' && (sp.Text() + g)[1..] == sp.flags + (sp.Tail() + g)
    ensures pre + sp.Text() + g == pre + (sp.Text() + g)
  {
    hide Spec.Tail;
  }

  lemma PercentConverts(h: string, all: seq<Arg>, x: Format, g: string, args: seq<Arg>)
    requires Header(h, all) == (x, g, args) && g != ""
    ensures Percent(h, all) == Conversion(x, g, args)
  {
  }

  lemma RenderOne(f: string, h: string, args: seq<Arg>, p: Piece)
    requires f != "" && f[0] == '%' && f[1..] == h && Percent(h, args) == p && !p.stop
    ensures Render(f, args) == p.text + Render(p.rest, p.args)
  {
  }

  // ------------------------------------------------------------------ the letters

  /** A conversion of a number: one of the letters, or one of four after "l" or "ll". */
  predicate IsNumeric(longs: nat, c: char) {
    if longs == 0 then c in "bduxivyp" else longs <= 2 && c in "bdux"
  }

  function Letters(longs: nat, c: char): string {
    (if longs == 0 then "" else if longs == 1 then "l" else "ll") + [c]
  }

  lemma ShortLetters(x: Format, c: char, post: string, args: seq<Arg>)
    requires c in "bduxivyp"
    ensures var p := Conversion(x, [c] + post, args);
      && (c == 'b' ==> p == Number(x, post, args, false, 32, 2))
      && (c == 'u' ==> p == Number(x, post, args, false, 32, 10))
      && (c == 'x' ==> p == Number(x, post, args, false, 32, 16))
      && (c == 'd' ==> p == Number(x, post, args, true, 32, 10))
      && (c == 'i' ==> p == Number(x, post, args, true, 64, 10))
      && (c == 'v' ==> p == Number(x, post, args, false, 64, 10))
      && (c == 'y' ==> p == Number(x, post, args, false, 64, 16))
      && (c == 'p' ==> p == Number(PointerFormat(x), post, args, false, 64, 16))
  {
    hide Number;
    assert ([c] + post)[0] == c && ([c] + post)[1..] == post;
  }

  lemma LongLetters(x: Format, longs: nat, c: char, post: string, args: seq<Arg>)
    requires 1 <= longs <= 2 && c in "bdux"
    ensures var p := Conversion(x, Letters(longs, c) + post, args);
      && (c == 'b' ==> p == Number(x, post, args, false, 64, 2))
      && (c == 'u' ==> p == Number(x, post, args, false, 64, 10))
      && (c == 'x' ==> p == Number(x, post, args, false, 64, 16))
      && (c == 'd' ==> p == Number(x, post, args, true, 64, 10))
  {
    hide Number;
    var h := [c] + post;
    assert h[0] == c && h[1..] == post;
    assert Long(x, h, args, "l") == Long(x, h, args, "ll");
    if longs == 1 {
      assert Letters(1, c) + post == "l" + h;
      AfterL(x, "l" + h, h, args);
    } else {
      assert Letters(2, c) + post == "l" + ("l" + h);
      AfterL(x, "l" + ("l" + h), "l" + h, args);
      assert ("l" + h)[1..] == h;
    }
  }

  lemma AfterL(x: Format, f: string, g: string, args: seq<Arg>)
    requires f != "" && f[0] == 'l' && f[1..] == g
    ensures Conversion(x, f, args) == LongOrLongLong(x, g, args)
  {
  }

  /** A word read as a signed number of 32 or 64 bits in two's complement. */
  function AsSigned32(n: nat): int {
    if n % 0x1_0000_0000 < 0x8000_0000 then n % 0x1_0000_0000 else n % 0x1_0000_0000 - 0x1_0000_0000
  }

  function AsSigned64(n: nat): int {
    if n < 0x8000_0000_0000_0000 then n else n - 0x1_0000_0000_0000_0000
  }

  lemma SpecSigns(sp: Spec)
    requires sp.Valid()
    ensures var f := FormatOf(sp);
      && f.left == ('-' in sp.flags) && f.zero == ('0' in sp.flags) && f.width == sp.width.Value()
      && SignText(f) == (if '+' in sp.flags then "+" else "") && SignText(f.(sign := '-')) == "-"
  {
  }

  /** An unsigned number of 32 or 64 bits. */
  lemma UnsignedPrints(sp: Spec, post: string, n: nat, more: seq<Arg>, bits: nat, radix: nat)
    requires sp.Valid() && sp.width.Value() < HALF64 && n < POW64 && 2 <= radix <= 16 && (bits == 32 || bits == 64)
    ensures var p := Number(FormatOf(sp), post, [Word(n)] + more, false, bits, radix);
      && !p.stop && p.rest == post && p.args == more
      && sp.Prints(p.text, if bits == 32 then n % 0x1_0000_0000 else n, radix)
  {
    SpecSigns(sp);
    WordFirst(n, more);
    UvalIsNumber(FormatOf(sp), if bits == 32 then Low32(n) else n, bits / 8, radix);
  }

  lemma WordFirst(n: nat, more: seq<Arg>)
    requires n < POW64
    ensures NextWord([Word(n)] + more) == (n, more)
  {
    assert ([Word(n)] + more)[1..] == more;
  }

  lemma SignedPrints(sp: Spec, post: string, n: nat, more: seq<Arg>, bits: nat)
    requires sp.Valid() && sp.width.Value() < HALF64 && n < POW64 && (bits == 32 || bits == 64)
    ensures var p := Number(FormatOf(sp), post, [Word(n)] + more, true, bits, 10);
      && !p.stop && p.rest == post && p.args == more
      && sp.Prints(p.text, if bits == 32 then AsSigned32(n) else AsSigned64(n), 10)
  {
    SpecSigns(sp);
    WordFirst(n, more);
    assert n % POW64 == n;
    SvalIsNumber(FormatOf(sp), if bits == 32 then AsSigned32(n) else AsSigned64(n), 10);
  }

  lemma PointerPrints(sp: Spec, post: string, n: nat, more: seq<Arg>)
    requires sp.Valid() && sp.width.Value() < HALF64 && n < POW64
    ensures var p := Number(PointerFormat(FormatOf(sp)), post, [Word(n)] + more, false, 64, 16);
      !p.stop && p.rest == post && p.args == more && sp.PrintsPointer(p.text, n)
  {
    SpecSigns(sp);
    WordFirst(n, more);
    var f := PointerFormat(FormatOf(sp));
    assert SignText(f) == SignText(FormatOf(sp));
    UvalIsNumber(f, n, 8, 16);
  }

  /** What each conversion of a number says about its text, for every word. */
  ghost predicate Means(sp: Spec, longs: nat, c: char, t: string, n: nat) {
    if longs == 0 then
      && (c == 'b' ==> sp.Prints(t, n % 0x1_0000_0000, 2))
      && (c == 'u' ==> sp.Prints(t, n % 0x1_0000_0000, 10))
      && (c == 'x' ==> sp.Prints(t, n % 0x1_0000_0000, 16))
      && (c == 'd' ==> sp.Prints(t, AsSigned32(n), 10))
      && (c == 'i' ==> sp.Prints(t, AsSigned64(n), 10))
      && (c == 'v' ==> sp.Prints(t, n, 10))
      && (c == 'y' ==> sp.Prints(t, n, 16))
      && (c == 'p' ==> sp.PrintsPointer(t, n))
    else
      && (c == 'b' ==> sp.Prints(t, n, 2))
      && (c == 'u' ==> sp.Prints(t, n, 10))
      && (c == 'x' ==> sp.Prints(t, n, 16))
      && (c == 'd' ==> sp.Prints(t, AsSigned64(n), 10))
  }

  lemma PieceMeans(sp: Spec, longs: nat, c: char, post: string, n: nat, more: seq<Arg>)
    requires sp.Valid() && sp.width.Value() < HALF64 && n < POW64 && IsNumeric(longs, c)
    ensures var p := Conversion(FormatOf(sp), Letters(longs, c) + post, [Word(n)] + more);
      !p.stop && p.rest == post && p.args == more && Means(sp, longs, c, p.text, n)
  {
    hide Spec.Prints, Spec.PrintsPointer, Conversion, Number, FormatOf;
    var x, args, bits := FormatOf(sp), [Word(n)] + more, if longs == 0 then 32 else 64;
    if longs == 0 {
      assert Letters(longs, c) == [c];
      ShortLetters(x, c, post, args);
    } else {
      LongLetters(x, longs, c, post, args);
    }
    if c in "bux" {
      UnsignedPrints(sp, post, n, more, bits, if c == 'b' then 2 else if c == 'u' then 10 else 16);
    } else if c in "vy" {
      UnsignedPrints(sp, post, n, more, 64, if c == 'v' then 10 else 16);
    } else if c in "di" {
      SignedPrints(sp, post, n, more, if c == 'd' then bits else 64);
    } else {
      PointerPrints(sp, post, n, more);
    }
  }

  /** A conversion of a number anywhere in a format: its text stands between what is printed
      before and after it, and denotes the word that it is given, as its letters say. */
  lemma NumberIsPrinted(pre: string, sp: Spec, longs: nat, c: char, post: string, n: nat, more: seq<Arg>)
    returns (t: string)
    requires NoPercent(pre) && sp.Valid() && sp.width.Value() < HALF64 && n < POW64 && IsNumeric(longs, c)
    ensures Render(pre + sp.Text() + (Letters(longs, c) + post), sp.Args() + ([Word(n)] + more))
      == pre + t + Render(post, more)
    ensures Means(sp, longs, c, t, n)
  {
    var g, args := Letters(longs, c) + post, [Word(n)] + more;
    var p := Conversion(FormatOf(sp), g, args);
    t := p.text;
    hide Means, Conversion, FormatOf, Spec.Text, Spec.Args, Spec.Valid, Letter, Letters, IsNumeric, NoPercent, Render;
    LettersStart(longs, c, post);
    PieceMeans(sp, longs, c, post, n, more);
    RenderConversion(pre, sp, g, args, p);
  }

  lemma LettersStart(longs: nat, c: char, post: string)
    requires IsNumeric(longs, c)
    ensures Letter(Letters(longs, c) + post)
  {
    assert (Letters(longs, c) + post)[0] == if longs == 0 then c else 'l';
  }

  /** A string is printed as it is, and "%%" as a '%', whatever flags and width. */
  lemma TextIsPrinted(pre: string, sp: Spec, post: string, text: string, more: seq<Arg>)
    requires NoPercent(pre) && sp.Valid()
    ensures Render(pre + sp.Text() + ("s" + post), sp.Args() + ([Arg.Text(text)] + more))
      == pre + text + Render(post, more)
    ensures Render(pre + sp.Text() + ("%" + post), sp.Args() + more) == pre + "%" + Render(post, more)
  {
    var g, args := "s" + post, [Arg.Text(text)] + more;
    assert g[1..] == post && args[1..] == more;
    RenderConversion(pre, sp, g, args, Piece(text, post, more, false));
    var h := "%" + post;
    assert h[1..] == post;
    RenderConversion(pre, sp, h, more, Piece("%", post, more, false));
  }

  /** A character from 0x20 to 0x7F is printed, and for any other the character 0xFF. */
  lemma CharIsPrinted(pre: string, sp: Spec, post: string, n: nat, more: seq<Arg>)
    requires NoPercent(pre) && sp.Valid() && n < POW64
    ensures var c := if ' ' as int <= n % 256 <= '~' as int + 1 then (n % 256) as char else 255 as char;
      Render(pre + sp.Text() + ("c" + post), sp.Args() + ([Word(n)] + more)) == pre + [c] + Render(post, more)
  {
    var g, args := "c" + post, [Word(n)] + more;
    assert g[1..] == post;
    WordFirst(n, more);
    RenderConversion(pre, sp, g, args, Piece([Printable(n)], post, more, false));
  }

  /** A format that ends before the letter of a conversion ends the output there. */
  lemma UnfinishedEnds(pre: string, sp: Spec, args: seq<Arg>)
    requires NoPercent(pre) && sp.Valid()
    ensures Render(pre + sp.Text(), sp.Args() + args) == pre
  {
    var f, h, all := sp.Text(), sp.flags + (sp.Tail() + ""), sp.Args() + args;
    HeaderRead(sp, "", args);
    TextStarts(pre, sp, "");
    assert f + "" == f;
    RenderBefore(pre, f, all);
    hide Header, Render, Spec.Text, Spec.Tail, Spec.Args;
    RenderEnds(f, h, all);
  }

  lemma RenderEnds(f: string, h: string, all: seq<Arg>)
    requires f != "" && f[0] == '%' && f[1..] == h && Header(h, all).1 == ""
    ensures Render(f, all) == ""
  {
    hide Header;
  }

  /** Any other letter is printed after a '%'. */
  lemma OtherLettersEcho(pre: string, sp: Spec, c: char, post: string, args: seq<Arg>)
    requires NoPercent(pre) && sp.Valid() && c !in "%csivybduxlp{+-#0123456789*."
    ensures Render(pre + sp.Text() + ([c] + post), sp.Args() + args) == pre + ['%', c] + Render(post, args)
  {
    var g := [c] + post;
    assert g[1..] == post;
    RenderConversion(pre, sp, g, args, Piece("%" + [c], post, args, false));
    assert "%" + [c] == ['%', c];
  }

  /** A type name in braces that is not known is printed as it stands, if it is short enough. */
  lemma NameIsPrinted(pre: string, sp: Spec, name: string, post: string, args: seq<Arg>)
    requires NoPercent(pre) && sp.Valid() && '}' !in name && |name| <= 31
    ensures Render(pre + sp.Text() + ("{" + (name + "}" + post)), sp.Args() + args)
      == pre + ("{" + name + "}") + Render(post, args)
  {
    var g := "{" + (name + "}" + post);
    assert g[1..] == name + "}" + post;
    NameRead("", name, post, args);
    assert "" + name == name;
    RenderConversion(pre, sp, g, args, Piece("{" + name + "}", post, args, false));
  }

  lemma {:induction false} NameRead(had: string, name: string, post: string, args: seq<Arg>)
    requires '}' !in name && |had| + |name| <= 31
    ensures Braces(had, name + "}" + post, args) == Piece("{" + (had + name) + "}", post, args, false)
    decreases |name|
  {
    var f := name + "}" + post;
    if name == "" {
      assert f == "}" + post && f[1..] == post && had + name == had;
    } else {
      assert f[0] == name[0] && f[1..] == name[1..] + "}" + post;
      NameRead(had + [name[0]], name[1..], post, args);
      assert had + [name[0]] + name[1..] == had + name;
    }
  }

  // ------------------------------------------------------------------ only one text

  lemma {:induction false} SameLengthSameDigits(a: string, b: string, radix: nat)
    requires |a| == |b| && 2 <= radix <= 16 && PrintfText.Value(a, radix) == PrintfText.Value(b, radix)
    requires forall i :: 0 <= i < |a| ==> DigitOf(a[i]) < radix && DigitOf(b[i]) < radix
    ensures a == b
    decreases |a|
  {
    if a != "" {
      var n := |a| - 1;
      LastDigit(a, b, radix, PrintfText.Value(a[..n], radix), PrintfText.Value(b[..n], radix));
      SameLengthSameDigits(a[..n], b[..n], radix);
      assert a == a[..n] + [a[n]] && b == b[..n] + [b[n]];
    }
  }

  lemma LastDigit(a: string, b: string, radix: nat, x: nat, y: nat)
    requires |a| == |b| > 0 && 2 <= radix <= 16 && PrintfText.Value(a, radix) == PrintfText.Value(b, radix)
    requires x == PrintfText.Value(a[..|a| - 1], radix) && y == PrintfText.Value(b[..|b| - 1], radix)
    requires DigitOf(a[|a| - 1]) < radix && DigitOf(b[|b| - 1]) < radix
    ensures x == y && a[|a| - 1] == b[|b| - 1]
  {
    var v, d, e := PrintfText.Value(a, radix), DigitOf(a[|a| - 1]), DigitOf(b[|b| - 1]);
    assert v == x * radix + d == y * radix + e;
    ModUnique(v, radix, x, d);
    ModUnique(v, radix, y, e);
    SameDigit(a[|a| - 1], b[|b| - 1]);
  }

  lemma SameDigit(c: char, d: char)
    requires DigitOf(c) == DigitOf(d) < 16
    ensures c == d
  {
  }

  /** Of two numbers with the same value the longer one begins with a zero. */
  lemma LongerHasZero(a: string, b: string, radix: nat)
    requires |a| < |b| && 2 <= radix <= 16 && PrintfText.Value(a, radix) == PrintfText.Value(b, radix)
    requires forall i :: 0 <= i < |a| ==> DigitOf(a[i]) < radix
    requires forall i :: 0 <= i < |b| ==> DigitOf(b[i]) < radix
    ensures b[0] == '0'
  {
    var n := |b| - |a|;
    var c := Repeat('0', n) + a;
    ZerosDenoteNothing(n, a, radix);
    SameLengthSameDigits(c, b, radix);
  }

  /** The clauses of IsField leave no choice: there is one text for a number. */
  lemma NumberHasOneText(s: string, t: string, sign: string, left: bool, zero: bool, width: nat, val: nat, radix: nat)
    requires 2 <= radix <= 16
    requires IsNumber(s, sign, left, zero, width, val, radix) && IsNumber(t, sign, left, zero, width, val, radix)
    ensures s == t
  {
    var f, a, b :| IsField(s, f, sign, a, b, left, zero, width, val, radix);
    var g, c, d :| IsField(t, g, sign, c, d, left, zero, width, val, radix);
    if |a| < |c| {
      LongerHasZero(a, c, radix);
    } else if |c| < |a| {
      LongerHasZero(c, a, radix);
    }
    SameLengthSameDigits(a, c, radix);
    assert |f| == |g| && |b| == |d|;
    assert f == g && b == d;
  }

  /** An identification number as it is printed for devices. */
  lemma HexOf255()
    ensures Render("0x%x", [Word(255)]) == "0xff"
  {
    var sp := Spec("", Nothing, false, Nothing);
    var t := NumberIsPrinted("0x", sp, 0, 'x', "", 255, []);
    assert "0x" + sp.Text() + (Letters(0, 'x') + "") == "0x%x" && sp.Args() + ([Word(255)] + []) == [Word(255)];
    FfIs255();
    assert sp.Prints(t, 255, 16);
    NumberHasOneText(t, "ff", "", false, false, 0, 255, 16);
    assert "0x" + "ff" + "" == "0xff";
  }

  lemma FfIs255()
    ensures IsNumber("ff", "", false, false, 0, 255, 16)
  {
    ValueStep("f", 'f', 16);
    ValueStep("", 'f', 16);
    assert "f" + ['f'] == "ff" && "" + ['f'] == "f";
    assert IsField("ff", "", "", "ff", "", false, false, 0, 255, 16);
  }
}
