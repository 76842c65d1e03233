/** ac_printf's writers: numbers built in a buffer and printed backwards, the formatter,
    and the writer bounded by an output buffer. */
module Printf {
  import opened PrintfText
  import opened IntMath

  /** The largest buffer whose 32-bit count of characters does not wrap. */
  const MAX_LEN: nat := 0x1_0000_0000

  /** The output buffer, or the part of it that starts at `base`, and what was written. */
  class Writer {
    const data: array<char>
    const base: nat
    const max_len: nat
    ghost const before: seq<char>
    var count: nat
    var sign_to_print: char
    var left_justified: bool
    var alt_form: bool
    var leading_0: bool
    var min_width: Word64
    var precision: nat
    ghost var out: string

    /** The buffer holds what fits of the output; the rest of the array is as it was. */
    ghost predicate Valid()
      reads this`count, this`out, data
    {
      && 2 <= max_len <= MAX_LEN && base + max_len <= data.Length == |before|
      && count == |Truncated(out, max_len)| && data[base..base + count] == Truncated(out, max_len)
      && data[..base] == before[..base] && data[base + max_len..] == before[base + max_len..]
    }

    function Fmt(): Format
      reads this
    {
      Format(sign_to_print, left_justified, alt_form, leading_0, min_width, precision)
    }

    constructor (data: array<char>, base: nat, max_len: nat)
      requires 2 <= max_len <= MAX_LEN && base + max_len <= data.Length
      ensures Valid() && out == "" && this.data == data && this.base == base && this.max_len == max_len
        && before == data[..]
    {
      this.data, this.base, this.max_len := data, base, max_len;
      before := data[..];
      count, out := 0, "";
      sign_to_print, left_justified, alt_form, leading_0, min_width, precision := NUL, false, false, false, 0, 0;
    }

    /** sprintf_write_param, with its count in 32 bits. */
    method WriteParam(ch: char)
      requires Valid()
      modifies this`count, this`out, data
      ensures Valid() && out == old(out) + [ch]
    {
      ghost var was := data[..];
      var count32 := Low32(count);
      if count < max_len - 1 {
        data[base + count32] := ch;
        count32 := Low32(count32 + 1);
      }
      count := count32;
      out := out + [ch];
      assert data[..base] == was[..base] && data[base + max_len..] == was[base + max_len..];
    }

    /** write_str. */
    method WriteStr(s: string)
      requires Valid()
      modifies this`count, this`out, data
      ensures Valid() && out == old(out) + s
    {
      var i := 0;
      while i < |s|
        invariant 0 <= i <= |s| && Valid() && out == old(out) + s[..i]
      {
        WriteParam(s[i]);
        i := i + 1;
      }
    }

    /** write_spaces. */
    method WriteSpaces(count: int)
      requires Valid()
      modifies this`count, this`out, data
      ensures Valid() && out == old(out) + Repeat(' ', count)
    {
      var i := 0;
      while i < count
        invariant 0 <= i <= Max(count, 0) && Valid() && out == old(out) + Repeat(' ', i)
        decreases count - i
      {
        WriteParam(' ');
        i := i + 1;
      }
      assert Repeat(' ', count) == Repeat(' ', i);
    }

    /** write_uval. */
    method WriteUval(val: nat, size: nat, radix: nat)
      requires Valid() && val < POW64 && size < POW64
      requires Fits(Fmt(), |Shown(val, size, radix)|) && !PadOverflows(Fmt(), |Shown(val, size, radix)|)
      modifies this`count, this`out, data
      ensures Valid() && out == old(out) + UvalText(Fmt(), val, size, radix)
    {
      if radix <= 1 || radix > 17 {
        ghost var o, field := out, Field(Fmt(), Signed(Fmt(), Digits(size, 10)));
        WriteStr("Bad Radix ");
        WriteDigits(size, 10);
        Regroup(o, "Bad Radix ", field);
      } else {
        WriteDigits(val, radix);
      }
    }

    /** A valid radix: digits, zeros and sign are put into a buffer, and come out of it
        backwards between the blanks. */
    method WriteDigits(val: nat, radix: nat)
      requires Valid() && val < POW64 && 2 <= radix <= 17
      requires Fits(Fmt(), |Digits(val, radix)|) && !PadOverflows(Fmt(), |Digits(val, radix)|)
      modifies this`count, this`out, data
      ensures Valid() && out == old(out) + Field(Fmt(), Signed(Fmt(), Digits(val, radix)))
    {
      var result := new char[65];
      var idx := BuildText(val, radix, result);
      WriteField(result, idx);
    }

    /** The text of the buffer, backwards, with blanks before or after it. */
    method WriteField(result: array<char>, idx: nat)
      requires Valid() && idx <= result.Length && result != data
      modifies this`count, this`out, data
      ensures Valid() && out == old(out) + Field(Fmt(), old(Reverse(result[..idx])))
    {
      hide PadCount, Valid, Field;
      FieldOutput(out, Fmt(), Reverse(result[..idx]));
      var padspaces := PadCount(min_width, idx);
      if padspaces > 0 && !left_justified {
        WriteSpaces(padspaces);
      }
      WriteBackwards(result, idx);
      if padspaces > 0 && left_justified {
        WriteSpaces(padspaces);
      }
    }

    method BuildText(val: nat, radix: nat, result: array<char>) returns (idx: nat)
      requires val < POW64 && 2 <= radix <= 17 && result.Length == 65
      requires Fits(Fmt(), |Digits(val, radix)|) && !PadOverflows(Fmt(), |Digits(val, radix)|)
      modifies result
      ensures idx <= 65 && Reverse(result[..idx]) == Signed(Fmt(), Digits(val, radix))
    {
      idx := BuildDigits(val, radix, result);
      idx := BuildZeros(result, idx);
      if sign_to_print != NUL {
        result[idx] := sign_to_print;
        assert result[..idx + 1] == result[..idx] + [sign_to_print];
        ReverseStep(result[..idx], sign_to_print);
        idx := idx + 1;
      }
      SignedParts(Fmt(), Digits(val, radix));
    }

    /** Zeros up to the width, with room for the sign. */
    method BuildZeros(result: array<char>, digits: nat) returns (idx: nat)
      requires result.Length == 65 && 1 <= digits <= 64 && Fits(Fmt(), digits) && !PadOverflows(Fmt(), digits)
      modifies result
      ensures digits <= idx <= (if sign_to_print != NUL then 64 else 65)
      ensures Reverse(result[..idx]) == Zeros(Fmt(), digits) + old(Reverse(result[..digits]))
    {
      ghost var text := Reverse(result[..digits]);
      idx := digits;
      PadCountIs(min_width, digits);
      var pad0count: int := 0;
      if leading_0 {
        pad0count := PadCount(min_width, idx);
        if sign_to_print != NUL {
          pad0count := pad0count - 1;
        }
      }
      var n := 0;
      while n < pad0count
        invariant 0 <= n <= Max(pad0count, 0) && idx == digits + n
        invariant Reverse(result[..idx]) == Repeat('0', n) + text
      {
        result[idx] := '0';
        assert result[..idx + 1] == result[..idx] + ['0'];
        ReverseStep(result[..idx], '0');
        ZeroInFront(n, text);
        idx, n := idx + 1, n + 1;
      }
      assert Repeat('0', n) == Zeros(Fmt(), digits);
    }

    method WriteBackwards(result: array<char>, n: nat)
      requires Valid() && n <= result.Length && result != data
      modifies this`count, this`out, data
      ensures Valid() && out == old(out) + Reverse(result[..n])
    {
      var idx: int := n;
      while idx > 0
        invariant 0 <= idx <= n && Valid() && result[..] == old(result[..])
        invariant out + Reverse(result[..idx]) == old(out) + Reverse(result[..n])
      {
        idx := idx - 1;
        assert result[..idx + 1][..idx] == result[..idx];
        WriteParam(result[idx]);
      }
    }

    /** The digits of a value, least significant first, in a buffer of 65 characters. */
    method BuildDigits(value: nat, radix: nat, result: array<char>) returns (idx: nat)
      requires value < POW64 && 2 <= radix <= 17 && result.Length == 65
      modifies result
      ensures 1 <= idx <= 64 && Reverse(result[..idx]) == Digits(value, radix)
    {
      var val := value;
      DigitsAtMost64(value, radix);
      result[0] := CharOf(val % radix);
      idx := 1;
      val := val / radix;
      FirstDigit(value, radix, result[..1]);
      while idx < 65 && val != 0
        invariant 1 <= idx <= 64 && 0 <= val
        invariant (if val == 0 then "" else Digits(val, radix)) + Reverse(result[..idx]) == Digits(value, radix)
        decreases val
      {
        MoreDigits(val, radix, result[..idx]);
        SmallerOrZero(val, radix);
        result[idx] := CharOf(val % radix);
        assert result[..idx + 1] == result[..idx] + [CharOf(val % radix)];
        idx := idx + 1;
        val := val / radix;
      }
    }

    /** write_sval; the size it is given is not used. */
    method WriteSval(val: int, size: nat, radix: nat)
      requires Valid() && -0x8000_0000_0000_0000 <= val < 0x8000_0000_0000_0000
      requires var (f, n) := SvalParts(Fmt(), val, radix); Fits(f, n) && !PadOverflows(f, n)
      modifies this`count, this`out, this`sign_to_print, data
      ensures Valid() && out == old(out) + SvalText(old(Fmt()), val, radix)
    {
      hide Valid, UvalText;
      if val < 0 {
        ghost var x := Fmt();
        sign_to_print := '-';
        assert Fmt() == x.(sign := '-');
        SvalIsUval(x, val, radix);
        WriteUval(-val, SIZEOF_UINT, radix);
      } else {
        SvalIsUval(Fmt(), val, radix);
        WriteUval(val, SIZEOF_UINT, radix);
      }
    }

    /** The flags of a conversion, from the character after the '%' on. */
    method ReadFlags(format: seq<char>, start: nat, ghost n: nat) returns (next_ch: char, pos: nat)
      requires Ends(format, n) && start <= n
      modifies this`sign_to_print, this`left_justified, this`alt_form, this`leading_0, this`min_width, this`precision
      ensures IsRead(format, n, next_ch, pos) && (Fmt(), format[pos - 1..n]) == Flags(format[start..n], NO_FORMAT)
    {
      hide Ends, Valid;
      sign_to_print, left_justified, alt_form, leading_0, min_width, precision := NUL, false, false, false, 0, 0;
      Following(format, n, start);
      next_ch, pos := format[start], start + 1;
      var flags := true;
      while flags
        invariant IsRead(format, n, next_ch, pos)
        invariant Flags(format[pos - 1..n], Fmt()) == Flags(format[start..n], NO_FORMAT)
        invariant !flags ==> next_ch !in "+-#0"
        decreases n + 1 - pos, flags
      {
        Following(format, n, pos - 1);
        match next_ch
        case '+' => sign_to_print := '+'; next_ch, pos := format[pos], pos + 1;
        case '-' => left_justified := true; next_ch, pos := format[pos], pos + 1;
        case '#' => alt_form := true; next_ch, pos := format[pos], pos + 1;
        case '0' => leading_0 := true; next_ch, pos := format[pos], pos + 1;
        case _ => flags := false;
      }
      Following(format, n, pos - 1);
    }

    /** One conversion whose letter, `letter`, has been read. */
    method Convert(format: seq<char>, ghost n: nat, letter: char, start: nat, args: seq<Arg>)
      returns (pos: nat, more: seq<Arg>, stop: bool)
      requires Valid() && IsRead(format, n, letter, start) && letter != NUL && Narrow(Fmt(), format[start - 1..n])
      modifies this, data
      ensures Valid()
      ensures var p := Conversion(old(Fmt()), format[start - 1..n], args);
        out == old(out) + p.text && stop == p.stop && (!stop ==> IsLeft(format, n, pos, p.rest) && more == p.args)
    {
      Following(format, n, start - 1);
      pos, more, stop := start, args, false;
      match letter
      case '%' => WriteParam('%');
      case 'c' =>
        var n;
        n, more := TakeWord(args);
        WriteParam(Printable(n));
      case 's' =>
        var t;
        t, more := TakeText(args);
        WriteStr(t);
      case 'i' => more := WriteNumber(args, true, 64, 10);
      case 'v' => more := WriteNumber(args, false, 64, 10);
      case 'y' => more := WriteNumber(args, false, 64, 16);
      case 'b' => more := WriteNumber(args, false, 32, 2);
      case 'd' => more := WriteNumber(args, true, 32, 10);
      case 'u' => more := WriteNumber(args, false, 32, 10);
      case 'x' => more := WriteNumber(args, false, 32, 16);
      case 'l' => pos, more := ConvertLong(format, n, pos, args);
      case 'p' =>
        leading_0 := true;
        if min_width == 0 {
          min_width := 16;
        }
        more := WriteNumber(args, false, 64, 16);
      case '{' => pos, stop := ConvertBraces(format, n, pos, args);
      case _ =>
        ghost var o := out;
        WriteParam('%');
        WriteParam(letter);
        Regroup(o, "%", [letter]);
    }

    method WriteNumber(args: seq<Arg>, signed: bool, bits: nat, radix: nat) returns (more: seq<Arg>)
      requires Valid() && NarrowZeros(Fmt()) && (bits == 32 || bits == 64) && 2 <= radix <= 17
      modifies this`count, this`out, this`sign_to_print, data
      ensures Valid()
      ensures var p := Number(old(Fmt()), "", args, signed, bits, radix); out == old(out) + p.text && more == p.args
    {
      var n;
      n, more := TakeWord(args);
      NumberFits(Fmt(), if bits == 32 then Low32(n) else n, if bits == 32 then Signed32(n) else Signed64(n), radix);
      if signed {
        WriteSval(if bits == 32 then Signed32(n) else Signed64(n), bits / 8, radix);
      } else {
        WriteUval(if bits == 32 then Low32(n) else n, bits / 8, radix);
      }
    }

    method ConvertLong(format: seq<char>, ghost n: nat, start: nat, args: seq<Arg>) returns (pos: nat, more: seq<Arg>)
      requires Valid() && NarrowZeros(Fmt()) && Ends(format, n) && start <= n
      modifies this`count, this`out, this`sign_to_print, data
      ensures Valid()
      ensures var p := LongOrLongLong(old(Fmt()), format[start..n], args);
        out == old(out) + p.text && IsLeft(format, n, pos, p.rest) && more == p.args
    {
      hide Valid, SvalText, UvalText;
      pos, more := start, args;
      var longlong := false;
      Following(format, n, pos);
      if format[pos] == 'l' {
        longlong := true;
        pos := pos + 1;
        Following(format, n, pos);
      }
      if format[pos] == 'b' {
        pos := pos + 1;
        more := WriteNumber(args, false, 64, 2);
      } else if format[pos] == 'd' {
        pos := pos + 1;
        more := WriteNumber(args, true, 64, 10);
      } else if format[pos] == 'u' {
        pos := pos + 1;
        more := WriteNumber(args, false, 64, 10);
      } else if format[pos] == 'x' {
        pos := pos + 1;
        more := WriteNumber(args, false, 64, 16);
      } else if longlong {
        WriteStr("%ll");
      } else {
        WriteStr("%l");
      }
    }

    method ConvertBraces(format: seq<char>, ghost n: nat, start: nat, args: seq<Arg>) returns (pos: nat, stop: bool)
      requires Valid() && Ends(format, n) && start <= n
      modifies this`count, this`out, data
      ensures Valid()
      ensures var p := Braces("", format[start..n], args);
        out == old(out) + p.text && stop == p.stop && (!stop ==> IsLeft(format, n, pos, p.rest))
    {
      var type_name, next_ch;
      type_name, next_ch, pos := ReadName(format, n, start, args);
      Following(format, n, pos - 1);
      if next_ch == NUL {
        WriteName(type_name, "<<'}' is missing>>");
        stop := true;
      } else if next_ch == '}' {
        WriteName(type_name, "}");
        stop := false;
      } else {
        WriteName(type_name, "<<to long>>");
        stop := true;
      }
    }

    method WriteName(type_name: string, after: string)
      requires Valid()
      modifies this`count, this`out, data
      ensures Valid() && out == old(out) + ("{" + type_name + after)
    {
      ghost var o := out;
      WriteParam('{');
      WriteStr(type_name);
      WriteStr(after);
      Regroup(o, "{", type_name);
      Regroup(o, "{" + type_name, after);
    }

    /** The format of a conversion, up to its letter, which has been read then. */
    method ReadHeader(format: seq<char>, ghost n: nat, start: nat, args: seq<Arg>)
      returns (letter: char, pos: nat, more: seq<Arg>)
      requires Ends(format, n) && start <= n
      modifies this`sign_to_print, this`left_justified, this`alt_form, this`leading_0, this`min_width, this`precision
      ensures IsRead(format, n, letter, pos) && (Fmt(), format[pos - 1..n], more) == Header(format[start..n], args)
    {
      hide Ends, Flags, Count, Valid;
      letter, pos := ReadFlags(format, start, n);
      more := args;
      Following(format, n, pos - 1);
      if letter == NUL {
        return;
      }
      ghost var x := Fmt();
      FlagsKeepCounts(format[start..n], NO_FORMAT);
      min_width, letter, pos, more := ReadCount(format, n, letter, pos, more, '1');
      Following(format, n, pos - 1);
      if letter == '.' {
        letter, pos := format[pos], pos + 1;
        precision, letter, pos, more := ReadCount(format, n, letter, pos, more, '0');
      }
      assert Fmt() == x.(width := min_width, precision := precision);
    }

    /** formatter: the output grows by the rendered text.  Only characters up to the first
        zero of the format are read, and nothing after it matters. */
    method Formatter(format: seq<char>, arguments: seq<Arg>)
      requires Valid() && NUL in format && AllNarrow(UpToNul(format), arguments)
      modifies this, data
      ensures Valid() && out == old(out) + Render(UpToNul(format), arguments)
    {
      hide Valid, Percent;
      ghost var n := |UpToNul(format)|;
      UpToNulEnds(format);
      var ch, pos, args := format[0], 1, arguments;
      assert format[..n] == format[0..n];
      while ch != NUL
        invariant IsRead(format, n, ch, pos) && Valid() && AllNarrow(format[pos - 1..n], args)
        invariant out + Render(format[pos - 1..n], args) == old(out) + Render(UpToNul(format), arguments)
        decreases n + 1 - pos
      {
        Following(format, n, pos - 1);
        ghost var o, f := out, format[pos - 1..n];
        if ch != '%' {
          WriteParam(ch);
          Regroup(o, [ch], Render(f[1..], args));
        } else {
          ghost var p := Percent(f[1..], args);
          var stop;
          pos, args, stop := OneConversion(format, n, pos, args);
          if stop {
            return;
          }
          Regroup(o, p.text, Render(p.rest, p.args));
        }
        ch, pos := format[pos], pos + 1;
      }
      Following(format, n, pos - 1);
    }

    method OneConversion(format: seq<char>, ghost n: nat, start: nat, args: seq<Arg>)
      returns (pos: nat, more: seq<Arg>, stop: bool)
      requires Valid() && Ends(format, n) && start <= n
      requires Narrow(Header(format[start..n], args).0, Header(format[start..n], args).1)
      modifies this, data
      ensures Valid()
      ensures var p := Percent(format[start..n], args);
        out == old(out) + p.text && stop == p.stop
        && (!stop ==> start <= pos && IsLeft(format, n, pos, p.rest) && more == p.args)
    {
      var letter;
      letter, pos, more := ReadHeader(format, n, start, args);
      Following(format, n, pos - 1);
      if letter == NUL {
        return pos, more, true;
      }
      pos, more, stop := Convert(format, n, letter, pos, more);
    }
  }

  // ------------------------------------------------- reading a format

  /** The first zero of the format is at `n`. */
  ghost predicate Ends(format: seq<char>, n: nat) {
    n < |format| && format[n] == NUL && forall k :: 0 <= k < n ==> format[k] != NUL
  }

  /** `ch` has been read, and the pointer is after it: it is not after the first zero. */
  ghost predicate IsRead(format: seq<char>, n: nat, ch: char, pos: nat) {
    n < |format| && Ends(format, n) && 0 < pos <= n + 1 && ch == format[pos - 1]
  }

  /** The pointer is at `pos`, not after the first zero, and `rest` is left up to there. */
  ghost predicate IsLeft(format: seq<char>, n: nat, pos: nat, rest: string) {
    n < |format| && Ends(format, n) && pos <= n && rest == format[pos..n]
  }

  /** The character at `i` is the next of what is left, or the zero when nothing is. */
  lemma Following(format: seq<char>, n: nat, i: nat)
    requires Ends(format, n) && i <= n
    ensures n < |format| && (format[i] == NUL <==> i == n)
    ensures i == n ==> format[i..n] == ""
    ensures i < n ==> format[i..n] != "" && format[i..n][0] == format[i] && format[i..n][1..] == format[i + 1..n]
  {
  }

  lemma UpToNulEnds(format: seq<char>)
    requires NUL in format
    ensures Ends(format, |UpToNul(format)|) && UpToNul(format) == format[..|UpToNul(format)|]
  {
    if format[0] != NUL {
      UpToNulEnds(format[1..]);
    }
  }

  /** What stands after the zero does not change the text. */
  lemma {:induction false} RestIsIgnored(text: string, rest: seq<char>)
    requires NUL !in text
    ensures UpToNul(text + [NUL] + rest) == text
  {
    if text != "" {
      assert (text + [NUL] + rest)[1..] == text[1..] + [NUL] + rest;
      RestIsIgnored(text[1..], rest);
    }
  }

  /** ac_va_arg for a word or a string. */
  method TakeWord(args: seq<Arg>) returns (n: nat, more: seq<Arg>)
    ensures (n, more) == NextWord(args) && n < POW64
  {
    n, more := NextWord(args).0, NextWord(args).1;
  }

  method TakeText(args: seq<Arg>) returns (t: string, more: seq<Arg>)
    ensures (t, more) == NextText(args)
  {
    t, more := NextText(args).0, NextText(args).1;
  }

  /** get_number, whose first digit has been read; the pointer is left at what follows. */
  method ReadNumber(format: seq<char>, ghost n: nat, digit: char, start: nat) returns (val: nat, pos: nat)
    requires IsRead(format, n, digit, start) && IsDigit(digit)
    ensures start <= pos <= n && (val, format[pos..n]) == GetNumber(0, format[start - 1..n])
  {
    Following(format, n, start - 1);
    val := NextValue(0, digit);
    var ch, f := format[start], start + 1;
    while IsDigit(ch)
      invariant IsRead(format, n, ch, f) && start < f
        && GetNumber(val, format[f - 1..n]) == GetNumber(0, format[start - 1..n])
      decreases n + 1 - f
    {
      Following(format, n, f - 1);
      val := NextValue(val, ch);
      ch, f := format[f], f + 1;
    }
    Following(format, n, f - 1);
    pos := f - 1;
  }

  /** A name of at most 31 characters, and the character after it. */
  method ReadName(format: seq<char>, ghost n: nat, start: nat, ghost args: seq<Arg>)
    returns (type_name: string, next_ch: char, pos: nat)
    requires Ends(format, n) && start <= n
    ensures IsRead(format, n, next_ch, pos) && |type_name| <= 31
      && (next_ch == NUL || next_ch == '}' || |type_name| == 31)
    ensures Braces(type_name, format[pos - 1..n], args) == Braces("", format[start..n], args)
  {
    type_name, next_ch, pos := "", format[start], start + 1;
    while next_ch != NUL && next_ch != '}' && |type_name| < 31
      invariant IsRead(format, n, next_ch, pos) && |type_name| <= 31
      invariant Braces(type_name, format[pos - 1..n], args) == Braces("", format[start..n], args)
      decreases n + 1 - pos
    {
      Following(format, n, pos - 1);
      type_name := type_name + [next_ch];
      next_ch, pos := format[pos], pos + 1;
    }
  }

  /** A width or a precision, and the character after it. */
  method ReadCount(format: seq<char>, ghost n: nat, ch: char, start: nat, args: seq<Arg>, lowest: char)
    returns (number: nat, next_ch: char, pos: nat, more: seq<Arg>)
    requires IsRead(format, n, ch, start) && lowest >= '0'
    ensures IsRead(format, n, next_ch, pos) && start <= pos
      && (number, format[pos - 1..n], more) == Count(format[start - 1..n], args, lowest)
  {
    Following(format, n, start - 1);
    number, next_ch, pos, more := 0, ch, start, args;
    if lowest <= ch <= '9' && IsDigit(ch) {
      number, pos := ReadNumber(format, n, ch, start);
      next_ch, pos := format[pos], pos + 1;
    } else if ch == '*' {
      number, more := TakeWord(args);
      next_ch, pos := format[pos], pos + 1;
    }
  }

  lemma {:induction false} FlagsKeepCounts(f: string, x: Format)
    ensures Flags(f, x).0.width == x.width && Flags(f, x).0.precision == x.precision
    decreases |f|
  {
    if f != "" && f[0] in "+-#0" {
      var y := if f[0] == '+' then x.(sign := '+') else if f[0] == '-' then x.(left := true)
               else if f[0] == '#' then x.(alt := true) else x.(zero := true);
      FlagsKeepCounts(f[1..], y);
    }
  }

  /** The whole text when it and a zero fit into `len` characters, and else the start of it
      that does. */
  predicate IsStart(shown: string, text: string, len: nat) {
    shown <= text && |shown| == if |text| < len then |text| else if len > 0 then len - 1 else 0
  }

  /** ac_snprintf into the part of `buff` that starts at `base`: the first `len` - 1
      characters of the output and a terminating zero, and how many they are. */
  method Snprintf(buff: array<char>, base: nat, len: nat, format: seq<char>, args: seq<Arg>) returns (count: nat)
    requires base + len <= buff.Length && len <= MAX_LEN && NUL in format && AllNarrow(UpToNul(format), args)
    modifies buff
    ensures count == |Truncated(Render(UpToNul(format), args), len)|
    ensures len > 0 ==>
      buff[base..base + count] == Truncated(Render(UpToNul(format), args), len) && buff[base + count] == NUL
    ensures IsStart(buff[base..base + count], Render(UpToNul(format), args), len)
    ensures buff[..base] == old(buff[..base]) && buff[base + len..] == old(buff[base + len..])
  {
    ghost var was := buff[..];
    if len == 0 {
      return 0;
    }
    if len == 1 {
      buff[base] := NUL;
      assert buff[..base] == was[..base] && buff[base + len..] == was[base + len..];
      return 0;
    }
    count := WriteAndEnd(buff, base, len, format, args);
  }

  method WriteAndEnd(buff: array<char>, base: nat, len: nat, format: seq<char>, args: seq<Arg>) returns (count: nat)
    requires 2 <= len <= MAX_LEN && base + len <= buff.Length && NUL in format && AllNarrow(UpToNul(format), args)
    modifies buff
    ensures count == |Truncated(Render(UpToNul(format), args), len)|
    ensures buff[base..base + count] == Truncated(Render(UpToNul(format), args), len) && buff[base + count] == NUL
    ensures buff[..base] == old(buff[..base]) && buff[base + len..] == old(buff[base + len..])
  {
    var writer := new Writer(buff, base, len);
    writer.Formatter(format, args);
    count := writer.count;
    ghost var text := buff[..];
    assert writer.out == Render(UpToNul(format), args);
    assert buff[base..base + count] == Truncated(writer.out, len);
    buff[base + count] := NUL;
    assert buff[..base] == text[..base] && buff[base + len..] == text[base + len..]
      && buff[base..base + count] == text[base..base + count];
  }

  function Reverse(s: string): (r: string)
    ensures |r| == |s|
  {
    if s == "" then "" else [s[|s| - 1]] + Reverse(s[..|s| - 1])
  }

  lemma {:induction false} RepeatInFront(c: char, n: nat)
    ensures [c] + Repeat(c, n) == Repeat(c, n + 1)
  {
    if n > 0 {
      RepeatInFront(c, n - 1);
    }
  }

  /** The format and the number of digits that write_sval hands to write_uval. */
  function SvalParts(x: Format, val: int, radix: nat): (Format, nat) {
    if val < 0 then (x.(sign := '-'), |Shown(-val, SIZEOF_UINT, radix)|) else (x, |Shown(val, SIZEOF_UINT, radix)|)
  }

  lemma SvalIsUval(x: Format, val: int, radix: nat)
    ensures val < 0 ==> SvalText(x, val, radix) == UvalText(x.(sign := '-'), -val, SIZEOF_UINT, radix)
    ensures val >= 0 ==> SvalText(x, val, radix) == UvalText(x, val, SIZEOF_UINT, radix)
  {
  }

  lemma NumberFits(x: Format, n: nat, val: int, radix: nat)
    requires NarrowZeros(x) && n < POW64 && -0x8000_0000_0000_0000 <= val < HALF64 && 2 <= radix <= 17
    ensures Fits(x, |Digits(n, radix)|) && !PadOverflows(x, |Digits(n, radix)|)
    ensures var (f, k) := SvalParts(x, val, radix); Fits(f, k) && !PadOverflows(f, k)
  {
    var size := if val < 0 then -val else val;
    DigitsAtMost64(n, radix);
    DigitsAtMost64(size, radix);
    NarrowFits(x, x.sign, |Digits(n, radix)|);
    NarrowFits(x, x.sign, |Digits(size, radix)|);
    NarrowFits(x, '-', |Digits(size, radix)|);
  }

  lemma Regroup(a: string, b: string, c: string)
    ensures a + b + c == a + (b + c)
  {
  }

  lemma SignedParts(f: Format, digits: string)
    ensures f.sign != NUL ==> Signed(f, digits) == [f.sign] + (Zeros(f, |digits|) + digits)
    ensures f.sign == NUL ==> Signed(f, digits) == Zeros(f, |digits|) + digits
  {
  }

  lemma FieldOutput(o: string, f: Format, text: string)
    ensures var blanks := Repeat(' ', PadCount(f.width, |text|));
      o + Field(f, text) == if PadCount(f.width, |text|) <= 0 then o + text else if f.left then o + text + blanks
        else o + blanks + text
  {
  }

  lemma ZeroInFront(n: nat, text: string)
    ensures ['0'] + (Repeat('0', n) + text) == Repeat('0', n + 1) + text
  {
    RepeatInFront('0', n);
  }

  lemma ReverseStep(s: string, c: char)
    ensures Reverse(s + [c]) == [c] + Reverse(s)
  {
    assert (s + [c])[..|s|] == s;
  }

  /** What write_uval builds fits its buffer of 65 characters, for every value, radix and
      sign, exactly when it is not zero padded, to no more than 65, or to so much that the
      signed count of zeros is negative. */
  lemma FitsBufferIff(f: Format, val: nat, radix: nat)
    requires val < POW64 && 2 <= radix <= 17 && !PadOverflows(f, |Digits(val, radix)|)
    ensures |Signed(f, Digits(val, radix))| <= 65 <==>
      !f.zero || f.width <= 65 || f.width - |Digits(val, radix)| >= HALF64
  {
    DigitsAtMost64(val, radix);
    SignedParts(f, Digits(val, radix));
    PadCountIs(f.width, |Digits(val, radix)|);
  }

  /** The number 7 zero padded to 66 characters does not fit; to 2^64 - 1 it is not padded. */
  lemma WideZerosOverrun()
    ensures |Signed(NO_FORMAT.(zero := true, width := 66), Digits(7, 10))| == 66
    ensures UvalText(NO_FORMAT.(zero := true, width := POW64 - 1), 7, 8, 10) == "7"
  {
    SignedParts(NO_FORMAT.(zero := true, width := 66), Digits(7, 10));
  }

  /** Nor is it padded with blanks for a width of 2^64 - 5, which is -5 given for a '*'. */
  lemma NegativeWidthIsIgnored()
    ensures Percent("*d", [Word(POW64 - 5), Word(7)]).text == "7"
  {
    var args, f := [Word(POW64 - 5), Word(7)], NO_FORMAT.(width := POW64 - 5);
    assert args[1..] == [Word(7)] && "*d"[1..] == "d" && "d"[1..] == "";
    StarIsRead("*d", "d", args, [Word(7)], POW64 - 5);
    hide Header, SvalText, Flags, Count;
    SevenIsPrinted(f);
  }

  lemma StarIsRead(f: string, g: string, args: seq<Arg>, more: seq<Arg>, n: Word64)
    requires f != "" && f[0] == '*' && f[1..] == g && g != "" && g[0] == 'd'
    requires args != [] && args[0] == Word(n) && args[1..] == more
    ensures Header(f, args) == (NO_FORMAT.(width := n), g, more)
  {
    assert Flags(f, NO_FORMAT) == (NO_FORMAT, f);
    assert Count(f, args, '1') == (n, g, more);
  }

  lemma SevenIsPrinted(f: Format)
    requires f == NO_FORMAT.(width := POW64 - 5)
    ensures SvalText(f, 7, 10) == "7"
  {
    assert Digits(7, 10) == "7";
    PadCountIs(f.width, 1);
    SignedParts(f, "7");
  }

  lemma SmallerOrZero(val: nat, radix: nat)
    requires radix >= 2 && val > 0
    ensures 0 <= val / radix < val
  {
    Division(val, radix);
    if val >= radix {
      SmallerQuotient(val, radix);
    } else {
      ModUnique(val, radix, 0, val);
    }
  }

  lemma FirstDigit(val: nat, radix: nat, built: string)
    requires radix >= 2 && built == [CharOf(val % radix)]
    ensures (if val / radix == 0 then "" else Digits(val / radix, radix)) + Reverse(built) == Digits(val, radix)
    ensures val / radix >= 0
  {
    Division(val, radix);
    ReverseStep("", built[0]);
    assert "" + built == built;
    if val < radix {
      ModUnique(val, radix, 0, val);
    } else {
      SmallerQuotient(val, radix);
    }
  }

  lemma MoreDigits(val: nat, radix: nat, built: string)
    requires radix >= 2 && val > 0
    ensures (if val / radix == 0 then "" else Digits(val / radix, radix)) + Reverse(built + [CharOf(val % radix)]) ==
            Digits(val, radix) + Reverse(built)
    ensures val / radix >= 0
  {
    var c := CharOf(val % radix);
    FirstDigit(val, radix, [c]);
    ReverseStep(built, c);
    ReverseStep("", c);
    assert "" + [c] == [c];
    var front := if val / radix == 0 then "" else Digits(val / radix, radix);
    Associate(front, c, Reverse(built), Digits(val, radix), Reverse([c]));
  }

  lemma Associate(front: string, c: char, back: string, all: string, last: string)
    requires front + last == all && last == [c]
    ensures front + ([c] + back) == all + back
  {
  }
}
