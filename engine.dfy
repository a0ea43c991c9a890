/** The in-place formatting engine: tmp_print_formatted for text, booleans and integers,
    writing into the window [start, start + maxlen) of a character array. Each method states
    its effect as one Overwrite of the array's contents. */
module Engine {
  import opened PrintTypes
  import opened ByteOps
  import opened Decoration

  /** The sizes tmp_get_decorated_size computes: the digits alone, with the prefix, and
      with the padding to the width. */
  datatype PrintSizes = PrintSizes(digits: nat, decorated: nat, size: nat)

  /** Stand-in for the numeric backend (tmp_print_value) writing into the window
      [start, start + maxlen): the digits when they fit, else the size they need and
      ERANGE; a backend failure is passed on. */
  method PrintValue(dest: array<char>, start: nat, maxlen: nat, conv: Conversion) returns (r: PrintResult)
    requires start + maxlen <= dest.Length
    modifies dest
    ensures conv.Failed? ==> r == PrintResult(0, conv.code)
    ensures conv.Digits? ==> r.size == |conv.ds| && (r.ec == Ok <==> |conv.ds| <= maxlen)
    ensures conv.Digits? && r.ec != Ok ==> r.ec == ERange
    ensures r.ec == Ok ==> conv.Digits? && dest[..] == Overwrite(old(dest[..]), start, conv.ds)
    ensures r.ec == Ok ==> dest[..][start..start + |conv.ds|] == conv.ds
    ensures r.ec != Ok ==> dest[..] == old(dest[..])
    ensures SameOutside(old(dest[..]), dest[..], start, start + maxlen)
  {
    match conv
    case Failed(e) =>
      r := PrintResult(0, e);
    case Digits(ds) =>
      if |ds| <= maxlen {
        Copy(dest, start, ds);
        r := PrintResult(|ds|, Ok);
        OverwriteWithin(old(dest[..]), start, ds, start, start + maxlen);
        Overwritten(old(dest[..]), start, ds);
      } else {
        r := PrintResult(|ds|, ERange);
      }
  }

  /** The sign byte, when there is one, at `at`; `next` is the byte after it. */
  method WriteSign(dest: array<char>, at: nat, format: PrintFormat, negative: bool) returns (next: nat)
    requires at + |SignText(format, negative)| <= dest.Length
    modifies dest
    ensures next == at + |SignText(format, negative)|
    ensures dest[..] == Overwrite(old(dest[..]), at, SignText(format, negative))
  {
    next := at;
    if negative {
      dest[next] := '-';
      next := next + 1;
    } else if Sign in format.flags {
      dest[next] := '+';
      next := next + 1;
    }
    Spliced(old(dest[..]), at, SignText(format, negative));
    assert dest[..] == Overwrite(old(dest[..]), at, SignText(format, negative));
  }

  /** The radix prefix, when there is one, at `at`. */
  method WriteRadix(dest: array<char>, at: nat, format: PrintFormat)
    requires at + |RadixText(format)| <= dest.Length
    modifies dest
    ensures dest[..] == Overwrite(old(dest[..]), at, RadixText(format))
  {
    var flags := format.flags;
    var lower := Lowercase in flags;
    if PrependHex in flags {
      dest[at] := '0';
      dest[at + 1] := if lower then 'x' else 'X';
    } else if PrependBinary in flags {
      dest[at] := '0';
      dest[at + 1] := if lower then 'b' else 'B';
    } else if PrependOctal in flags {
      dest[at] := '0';
    }
    Spliced(old(dest[..]), at, RadixText(format));
    assert dest[..] == Overwrite(old(dest[..]), at, RadixText(format));
  }

  /** The sign and radix prefix, written byte by byte at `at`. */
  method WritePrefix(dest: array<char>, at: nat, format: PrintFormat, negative: bool)
    requires at + |Prefix(format, negative)| <= dest.Length
    modifies dest
    ensures dest[..] == Overwrite(old(dest[..]), at, Prefix(format, negative))
  {
    var pos := WriteSign(dest, at, format, negative);
    WriteRadix(dest, pos, format);
    OverwriteThenAfter(old(dest[..]), at, SignText(format, negative), RadixText(format));
  }

  /** Right-justified space padding: spaces, then the prefix, in front of the digits. */
  method SpacesThenPrefix(dest: array<char>, start: nat, padding: nat, format: PrintFormat, negative: bool,
                          ghost ds: string)
    requires var at := start + padding + |Prefix(format, negative)|;
      at + |ds| <= dest.Length && dest[..][at..at + |ds|] == ds
    modifies dest
    ensures dest[..] == Overwrite(old(dest[..]), start, Repeat(' ', padding) + Prefix(format, negative) + ds)
  {
    ghost var d0 := dest[..];
    ghost var p := Prefix(format, negative);
    ghost var sp := Repeat(' ', padding);
    Fill(dest, start, padding, ' ');
    WritePrefix(dest, start + padding, format, negative);
    OverwriteThenAfter(d0, start, sp, p);
    WriteBefore(d0, start, sp + p, ds);
  }

  /** Right-justified zero padding: the prefix, then zeros, in front of the digits. */
  method PrefixThenZeros(dest: array<char>, start: nat, padding: nat, format: PrintFormat, negative: bool,
                         ghost ds: string)
    requires var at := start + padding + |Prefix(format, negative)|;
      at + |ds| <= dest.Length && dest[..][at..at + |ds|] == ds
    modifies dest
    ensures dest[..] == Overwrite(old(dest[..]), start, Prefix(format, negative) + Repeat('0', padding) + ds)
  {
    ghost var d0 := dest[..];
    ghost var p := Prefix(format, negative);
    ghost var z := Repeat('0', padding);
    Fill(dest, start + |Prefix(format, negative)|, padding, '0');
    WritePrefix(dest, start, format, negative);
    OverwriteThenBefore(d0, start, p, z);
    WriteBefore(d0, start, p + z, ds);
  }

  /** Left-justified padding: the prefix in front of the digits, spaces after them. */
  method PrefixDigitsSpaces(dest: array<char>, start: nat, decorated: nat, padding: nat, format: PrintFormat,
                            negative: bool, ghost ds: string)
    requires decorated == |Prefix(format, negative)| + |ds|
    requires var at := start + |Prefix(format, negative)|;
      at + |ds| + padding <= dest.Length && dest[..][at..at + |ds|] == ds
    modifies dest
    ensures dest[..] == Overwrite(old(dest[..]), start, Prefix(format, negative) + ds + Repeat(' ', padding))
  {
    ghost var d0 := dest[..];
    Fill(dest, start + decorated, padding, ' ');
    WritePrefix(dest, start, format, negative);
    WriteAround(d0, start, Prefix(format, negative), ds, Repeat(' ', padding));
  }

  /** No padding: the prefix in front of the digits. */
  method PrefixOnly(dest: array<char>, start: nat, format: PrintFormat, negative: bool, ghost ds: string)
    requires var at := start + |Prefix(format, negative)|;
      at + |ds| <= dest.Length && dest[..][at..at + |ds|] == ds
    modifies dest
    ensures dest[..] == Overwrite(old(dest[..]), start, Prefix(format, negative) + ds)
  {
    ghost var d0 := dest[..];
    WritePrefix(dest, start, format, negative);
    WriteBefore(d0, start, Prefix(format, negative), ds);
  }

  /** tmp_print_decoration: with the digits `ds` already at their final offset, writes the
      padding and the prefix around them; the window then holds the layout. The three
      padding styles are the helpers above. */
  method PrintDecoration(dest: array<char>, start: nat, sizes: PrintSizes, format: PrintFormat, negative: bool,
                         ghost digitsPos: nat, ghost ds: string)
    requires |ds| == sizes.digits
    requires sizes.decorated == DecoratedSize(sizes.digits, format, negative)
    requires sizes.size == TotalSize(sizes.decorated, format)
    requires start + sizes.size <= dest.Length
    requires digitsPos == DigitsPos(format, sizes.decorated, sizes.size, sizes.digits)
    requires start + digitsPos + sizes.digits <= dest.Length
    requires dest[..][start + digitsPos..start + digitsPos + sizes.digits] == ds
    modifies dest
    ensures dest[..] == Overwrite(old(dest[..]), start, Layout(format, negative, ds))
  {
    LayoutCases(format, negative, ds);
    var flags := format.flags;
    if format.width > 0 && sizes.size <= format.width {
      var padding := format.width - sizes.decorated;
      if LeftJustify !in flags {
        if PadWithSpaces in flags {
          SpacesThenPrefix(dest, start, padding, format, negative, ds);
        } else {
          PrefixThenZeros(dest, start, padding, format, negative, ds);
        }
      } else {
        PrefixDigitsSpaces(dest, start, sizes.decorated, padding, format, negative, ds);
      }
    } else {
      PrefixOnly(dest, start, format, negative, ds);
    }
  }

  /** The memmove of tmp_move_printed_value_and_decorate: the digits `ds` at `from` go to
      `to`; when they are already there nothing is moved. */
  method MoveDigits(dest: array<char>, from: nat, to: nat, digits: nat, ghost ds: string)
    requires from <= to && to + digits <= dest.Length
    requires |ds| == digits && dest[..][from..from + digits] == ds
    modifies dest
    ensures dest[..] == Overwrite(old(dest[..]), to, ds)
    ensures dest[..][to..to + digits] == ds
  {
    if to != from {
      Move(dest, to, from, digits);
    } else {
      OverwriteSame(dest[..], to, ds);
    }
    Overwritten(old(dest[..]), to, ds);
  }

  /** The successful path of tmp_move_printed_value_and_decorate: the digits `ds`, one sign
      byte into the window, are moved to `digitsPos` and decorated there. */
  method MoveThenDecorate(dest: array<char>, start: nat, sign: nat, digitsPos: nat, sizes: PrintSizes,
                          format: PrintFormat, negative: bool, ghost ds: string, ghost lay: string)
    requires |ds| == sizes.digits
    requires sizes.decorated == DecoratedSize(sizes.digits, format, negative)
    requires sizes.size == TotalSize(sizes.decorated, format)
    requires digitsPos == DigitsPos(format, sizes.decorated, sizes.size, sizes.digits)
    requires sign <= digitsPos && start + sizes.size <= dest.Length && digitsPos + sizes.digits <= sizes.size
    requires lay == Layout(format, negative, ds) && |lay| == sizes.size
    requires dest[..][start + sign..start + sign + sizes.digits] == ds
    modifies dest
    ensures dest[..] == Overwrite(old(dest[..]), start, lay)
  {
    ghost var d0 := dest[..];
    OverwriteAbsorbs(d0, start + digitsPos, ds, start, lay);
    MoveDigits(dest, start + sign, start + digitsPos, sizes.digits, ds);
    ghost var d1 := dest[..];
    assert d1 == Overwrite(d0, start + digitsPos, ds);
    PrintDecoration(dest, start, sizes, format, negative, digitsPos, ds);
    assert dest[..] == Overwrite(d1, start, lay);
  }

  /** tmp_move_printed_value_and_decorate: the backend left `printResult.size` digits one
      sign byte into the window; they are moved to their final offset and decorated, so the
      window holds their layout. When the layout does not fit, or the backend already ran
      out of room, the result is ERANGE with the size the whole layout needs and the array
      is untouched; a hard backend error is passed on. Two corrections to the source: the
      capacity check comes before the move (see Decoration.MoveTargetAsWritten), and an
      ERANGE from the backend is reported with the decorated size, not the digit count
      (see Decoration.OverflowReportAsWritten). */
  method MoveAndDecorate(dest: array<char>, start: nat, maxlen: nat, format: PrintFormat, printResult: PrintResult,
                         negative: bool, ghost ds: string) returns (r: PrintResult)
    requires start + maxlen <= dest.Length
    requires printResult.ec == Ok ==>
      var sign := SignWidth(format, negative);
      && printResult.size == |ds| && sign + |ds| <= maxlen
      && dest[..][start + sign..start + sign + |ds|] == ds
    requires printResult.ec == ERange ==> printResult.size == |ds|
    modifies dest
    ensures IsHardError(printResult.ec) ==> r == printResult
    ensures !IsHardError(printResult.ec) ==>
      var lay := Layout(format, negative, ds);
      && r.size == |lay|
      && (r.ec == Ok <==> printResult.ec == Ok && |lay| <= maxlen)
      && (r.ec != Ok ==> r.ec == ERange)
      && (r.ec == Ok ==> dest[..] == Overwrite(old(dest[..]), start, lay))
    ensures r.ec != Ok ==> dest[..] == old(dest[..])
  {
    if IsHardError(printResult.ec) {
      r := printResult;
    } else {
      var digits := printResult.size;
      var sign := SignWidth(format, negative);
      var decorated := DecoratedSize(digits, format, negative);
      var size := TotalSize(decorated, format);
      assert |Layout(format, negative, ds)| == size && sign <= DigitsPos(format, decorated, size, digits) by {
        LayoutShape(format, negative, ds);
        assert decorated - digits == |SignText(format, negative)| + |RadixText(format)|;
      }
      if printResult.ec == Ok && size <= maxlen {
        var digitsPos: nat := DigitsPos(format, decorated, size, digits);
        assert digitsPos + digits <= size by {
          LayoutShape(format, negative, ds);
        }
        MoveThenDecorate(dest, start, sign, digitsPos, PrintSizes(digits, decorated, size), format, negative, ds,
                         Layout(format, negative, ds));
        r := PrintResult(size, Ok);
      } else {
        r := PrintResult(size, ERange);
      }
    }
  }

  /** The integer path of tmp_print_formatted when the backend converts the magnitude to
      the digits `ds`: reserve the sign byte, let the backend write the digits after it,
      then move and decorate. With no room at all the backend only measures, in an empty
      window (the source returns EOVERFLOW there without consulting it). */
  method PrintDigits(dest: array<char>, start: nat, maxlen: nat, format: PrintFormat, negative: bool, ds: DigitString)
    returns (r: PrintResult)
    requires start + maxlen <= dest.Length
    modifies dest
    ensures var text := Layout(format, negative, ds);
      && r.size == |text|
      && (r.ec == Ok <==> |text| <= maxlen)
      && (r.ec != Ok ==> r.ec == ERange)
      && (r.ec == Ok ==> dest[..] == Overwrite(old(dest[..]), start, text))
    ensures SameOutside(old(dest[..]), dest[..], start, start + maxlen)
  {
    ghost var d0 := dest[..];
    var sign := SignWidth(format, negative);
    ghost var text := Layout(format, negative, ds);
    LayoutCovers(format, negative, ds);
    var at, room := start, 0;
    if maxlen > 0 {
      at, room := start + sign, maxlen - sign;
    }
    var result := PrintValue(dest, at, room, Digits(ds));
    ghost var d1 := dest[..];
    r := MoveAndDecorate(dest, start, maxlen, format, result, negative, ds);
    if r.ec == Ok {
      AbsorbedWithin(d0, start + sign, ds, start, text, start + maxlen);
    } else {
      WidenWindow(d0, d1, at, at + room, start, start + maxlen);
    }
  }

  /** The integer path of tmp_print_formatted once the backend's conversion `conv` of the
      magnitude is known: a failed conversion is passed on with nothing written. */
  method PrintConverted(dest: array<char>, start: nat, maxlen: nat, format: PrintFormat, negative: bool,
                        conv: Conversion) returns (r: PrintResult)
    requires start + maxlen <= dest.Length
    modifies dest
    ensures conv.Failed? ==> r == PrintResult(0, conv.code) && dest[..] == old(dest[..])
    ensures conv.Digits? ==>
      var text := Layout(format, negative, conv.ds);
      && r.size == |text|
      && (r.ec == Ok <==> |text| <= maxlen)
      && (r.ec != Ok ==> r.ec == ERange)
      && (r.ec == Ok ==> dest[..] == Overwrite(old(dest[..]), start, text))
    ensures SameOutside(old(dest[..]), dest[..], start, start + maxlen)
  {
    match conv
    case Failed(e) =>
      var sign := if maxlen > 0 then SignWidth(format, negative) else 0;
      var result := PrintValue(dest, start + sign, maxlen - sign, conv);
      r := MoveAndDecorate(dest, start, maxlen, format, result, negative, []);
    case Digits(ds) =>
      r := PrintDigits(dest, start, maxlen, format, negative, ds);
  }

  /** The integer path of tmp_print_formatted: success writes exactly the integer's text,
      a value that does not fit is reported as ERANGE with the size of its whole text, a
      backend failure is passed on, and nothing outside the window changes. */
  method PrintFormattedInteger(dest: array<char>, start: nat, maxlen: nat, format: PrintFormat, pair: UnsignedPair,
                               backend: Backend) returns (r: PrintResult)
    requires start + maxlen <= dest.Length
    modifies dest
    ensures IntegerText(format, pair, backend).Refused? ==>
      r == PrintResult(0, IntegerText(format, pair, backend).error) && dest[..] == old(dest[..])
    ensures IntegerText(format, pair, backend).Bytes? ==>
      var text := IntegerText(format, pair, backend).text;
      && r.size == |text|
      && (r.ec == Ok <==> |text| <= maxlen)
      && (r.ec != Ok ==> r.ec == ERange)
      && (r.ec == Ok ==> dest[..] == Overwrite(old(dest[..]), start, text))
    ensures SameOutside(old(dest[..]), dest[..], start, start + maxlen)
  {
    r := PrintConverted(dest, start, maxlen, format, pair.negative, backend(pair.magnitude, format));
  }

  /** tmp_print_formatted for text: the text padded with spaces to the width, or ERANGE
      with the padded size and nothing written when that does not fit. The source reports
      neither the padding (see Decoration.TextSizeIgnoresPadding) nor, on overflow, the
      size needed (see Decoration.OverflowReportAsWritten). */
  method PrintFormattedText(dest: array<char>, start: nat, maxlen: nat, format: PrintFormat, str: string)
    returns (r: PrintResult)
    requires start + maxlen <= dest.Length
    modifies dest
    ensures var text := PaddedText(format, str);
      && (|text| <= maxlen ==> r == PrintResult(|text|, Ok) && dest[..] == Overwrite(old(dest[..]), start, text))
      && (|text| > maxlen ==> r == PrintResult(|text|, ERange) && dest[..] == old(dest[..]))
  {
    var width := format.width;
    var size := |str|;
    if width > 0 {
      var spaces := if width > |str| then width - |str| else 0;
      size := |str| + spaces;
    }
    if size > maxlen {
      return PrintResult(size, ERange);
    }
    ghost var d0 := dest[..];
    if width > 0 && width > |str| {
      var padding := width - |str|;
      if LeftJustify !in format.flags {
        Fill(dest, start, padding, ' ');
        Copy(dest, start + padding, str);
        OverwriteThenAfter(d0, start, Repeat(' ', padding), str);
      } else {
        Fill(dest, start + |str|, padding, ' ');
        Copy(dest, start, str);
        OverwriteThenBefore(d0, start, str, Repeat(' ', padding));
      }
    } else {
      Copy(dest, start, str);
    }
    r := PrintResult(size, Ok);
  }

  /** tmp_print_formatted for bool: 1/0, true/false or TRUE/FALSE, padded like text. */
  method PrintFormattedBool(dest: array<char>, start: nat, maxlen: nat, format: PrintFormat, value: bool)
    returns (r: PrintResult)
    requires start + maxlen <= dest.Length
    modifies dest
    ensures var text := PaddedText(format, BoolText(format, value));
      && (|text| <= maxlen ==> r == PrintResult(|text|, Ok) && dest[..] == Overwrite(old(dest[..]), start, text))
      && (|text| > maxlen ==> r == PrintResult(|text|, ERange) && dest[..] == old(dest[..]))
  {
    var flags := format.flags;
    if BoolAsNumber in flags {
      r := PrintFormattedText(dest, start, maxlen, format, if value then "1" else "0");
      return;
    }
    var lowercase := Lowercase in flags;
    var str: string;
    if value {
      str := if lowercase then "true" else "TRUE";
    } else {
      str := if lowercase then "false" else "FALSE";
    }
    r := PrintFormattedText(dest, start, maxlen, format, str);
  }

  /** The value dispatch of the printer: whatever the kind of value, the engine reports the
      size of its whole formatted text and writes exactly that text when it fits the window;
      otherwise it reports ERANGE. A backend error comes back unchanged, and nothing outside
      the window changes. */
  method PrintFormatted(dest: array<char>, start: nat, maxlen: nat, format: PrintFormat, value: Value, backend: Backend)
    returns (r: PrintResult)
    requires start + maxlen <= dest.Length
    modifies dest
    ensures Formatted(value, format, backend).Bytes? ==>
      var text := Formatted(value, format, backend).text;
      && r.size == |text|
      && (r.ec == Ok <==> |text| <= maxlen)
      && (r.ec != Ok ==> r.ec == ERange)
      && (r.ec == Ok ==> dest[..] == Overwrite(old(dest[..]), start, text))
    ensures Formatted(value, format, backend).Refused? ==> r == PrintResult(0, Formatted(value, format, backend).error)
    ensures SameOutside(old(dest[..]), dest[..], start, start + maxlen)
  {
    ghost var d0 := dest[..];
    match value
    case Bool(b) =>
      r := PrintFormattedBool(dest, start, maxlen, format, b);
      if r.ec == Ok {
        OverwriteWithin(d0, start, PaddedText(format, BoolText(format, b)), start, start + maxlen);
      }
    case Text(s) =>
      r := PrintFormattedText(dest, start, maxlen, format, s);
      if r.ec == Ok {
        OverwriteWithin(d0, start, PaddedText(format, s), start, start + maxlen);
      }
    case Signed(v) =>
      r := PrintFormattedInteger(dest, start, maxlen, format, MakeUnsigned(v), backend);
    case Unsigned(u) =>
      r := PrintFormattedInteger(dest, start, maxlen, format, UnsignedPair(u, false), backend);
  }
}
