/** The decoration and padding engine: how a value's text is laid out in the destination
    buffer. Integers: the backend writes the digits one sign byte in; then the digits are
    moved to their final offset and padding, sign and radix prefix are written around them.
    Booleans and strings: padding and the text are written directly. */
module Decoration {
  import opened PrintTypes
  import opened ByteOps

  // ---------------------------------------------------------------------------------------
  // Sign split (tmp_make_unsigned, integer overloads)

  datatype UnsignedPair = UnsignedPair(magnitude: nat, negative: bool)

  /** A signed integer as a magnitude and a sign; the magnitude is the mathematical |v|. */
  function MakeUnsigned(v: int): (r: UnsignedPair)
    ensures r.negative <==> v < 0
    ensures (if r.negative then -(r.magnitude as int) else r.magnitude) == v
  {
    if v < 0 then UnsignedPair(-v, true) else UnsignedPair(v, false)
  }

  /** The integer widths the sign split is instantiated for: 32 and 64 bits. */
  predicate IsWordModulus(m: int) {
    m == 0x1_0000_0000 || m == 0x1_0000_0000_0000_0000
  }

  /** The C conversion of an integer to a two's-complement signed value modulo `m`. */
  function WrapSigned(x: int, m: int): int
    requires IsWordModulus(m)
  {
    (x + m / 2) % m - m / 2
  }

  /** The C conversion of an integer to an unsigned value modulo `m`. */
  function WrapUnsigned(x: int, m: int): nat
    requires IsWordModulus(m)
  {
    x % m
  }

  /** The source negates in the signed type (`v = -v`) and then converts to unsigned. For
      the most negative value that negation overflows; under two's-complement wrap-around
      the unsigned result is still |v|, so the mathematical magnitude is what it produces. */
  lemma WrappedNegationIsMagnitude(v: int, m: int)
    requires IsWordModulus(m)
    requires -(m / 2) <= v < 0
    ensures WrapUnsigned(WrapSigned(-v, m), m) == MakeUnsigned(v).magnitude
  {
    var h := m / 2;
    if v == -h {
      assert WrapSigned(-v, m) == -h;
    } else {
      assert WrapSigned(-v, m) == -v;
    }
  }

  // ---------------------------------------------------------------------------------------
  // Sizes and layout

  /** The sign in front of a number: `-` for a negative value (whatever Sign says), `+` when
      Sign is set, nothing otherwise. */
  function SignText(format: PrintFormat, negative: bool): string {
    if negative then "-" else if Sign in format.flags then "+" else ""
  }

  /** The radix prefix: `0x`/`0X`, else `0b`/`0B`, else `0`; lower case under Lowercase. */
  function RadixText(format: PrintFormat): string {
    var f := format.flags;
    if PrependHex in f then (if Lowercase in f then "0x" else "0X")
    else if PrependBinary in f then (if Lowercase in f then "0b" else "0B")
    else if PrependOctal in f then "0"
    else ""
  }

  /** Everything tmp_print_decoration writes in front of the digits. */
  function Prefix(format: PrintFormat, negative: bool): string {
    SignText(format, negative) + RadixText(format)
  }

  /** tmp_get_decorated_size as written: the hex/binary prefix and the octal prefix are
      counted independently. */
  function DecoratedSizeAsWritten(digits: nat, format: PrintFormat, negative: bool): nat {
    var f := format.flags;
    digits
      + (if negative || Sign in f then 1 else 0)
      + (if PrependHex in f || PrependBinary in f then 2 else 0)
      + (if PrependOctal in f then 1 else 0)
  }

  /** tmp_get_decorated_size, counting the prefix the way tmp_print_decoration writes it
      (hex, else binary, else octal). */
  function DecoratedSize(digits: nat, format: PrintFormat, negative: bool): (r: nat)
    ensures r == digits + |Prefix(format, negative)|
  {
    var f := format.flags;
    digits
      + (if negative || Sign in f then 1 else 0)
      + (if PrependHex in f || PrependBinary in f then 2 else if PrependOctal in f then 1 else 0)
  }

  /** The two counts agree unless an octal prefix flag meets a hex or binary one, which the
      specifier parser never produces (SpecParser.RadixPrefixExclusive). */
  lemma DecoratedSizeAgrees(digits: nat, format: PrintFormat, negative: bool)
    requires !(PrependOctal in format.flags && (PrependHex in format.flags || PrependBinary in format.flags))
    ensures DecoratedSize(digits, format, negative) == DecoratedSizeAsWritten(digits, format, negative)
  {
  }

  /** With both a hex and an octal prefix flag (possible only through the caller's initial
      format), the size as written counts three prefix bytes where two are written: one
      byte of the reported size is never written. */
  lemma DecoratedSizeMismatch()
    ensures var f := PrintFormat({PrependHex, PrependOctal}, 0, -1, 16);
      DecoratedSizeAsWritten(1, f, false) == 4 && |Prefix(f, false) + "1"| == 3
  {
  }

  /** The padded size: the width when it is larger than the decorated size. */
  function TotalSize(decorated: nat, format: PrintFormat): nat {
    if format.width > 0 && decorated < format.width then format.width else decorated
  }

  /** Where the digits end up (the `digits_pos` of tmp_move_printed_value_and_decorate). */
  function DigitsPos(format: PrintFormat, decorated: nat, size: nat, digits: nat): int {
    if format.width <= 0 || LeftJustify in format.flags then decorated - digits else size - digits
  }

  /** The final text of a number whose backend digits are `ds`. Right-justified with spaces:
      spaces, prefix, digits; right-justified with zeros: prefix, zeros, digits;
      left-justified: prefix, digits, spaces. */
  function Layout(format: PrintFormat, negative: bool, ds: string): string {
    var prefix := Prefix(format, negative);
    var decorated := |prefix| + |ds|;
    if format.width > 0 && decorated <= format.width then
      var pad := format.width - decorated;
      if LeftJustify in format.flags then prefix + ds + Repeat(' ', pad)
      else if PadWithSpaces in format.flags then Repeat(' ', pad) + prefix + ds
      else prefix + Repeat('0', pad) + ds
    else
      prefix + ds
  }

  /** The laid-out number is as long as the padded decorated size, and the digits sit,
      unchanged, at the offset the source computes for them. */
  lemma LayoutShape(format: PrintFormat, negative: bool, ds: string)
    ensures var decorated := DecoratedSize(|ds|, format, negative);
      var size := TotalSize(decorated, format);
      var lay := Layout(format, negative, ds);
      var at := DigitsPos(format, decorated, size, |ds|);
      && |lay| == size
      && size == (if format.width > decorated then format.width else decorated)
      && 0 <= at && at + |ds| == (if LeftJustify in format.flags then decorated else size)
      && lay[at..at + |ds|] == ds
  {
    var prefix := Prefix(format, negative);
    var decorated := |prefix| + |ds|;
    var lay := Layout(format, negative, ds);
    if format.width > 0 && decorated <= format.width {
      var pad := format.width - decorated;
      var sp := Repeat(' ', pad);
      if LeftJustify in format.flags {
        assert lay == prefix + ds + sp;
        MiddleSlice(prefix, ds, sp);
      } else if PadWithSpaces in format.flags {
        assert lay == sp + prefix + ds;
        LastSlice(sp + prefix, ds);
      } else {
        var z := Repeat('0', pad);
        assert lay == prefix + z + ds;
        LastSlice(prefix + z, ds);
      }
    } else {
      assert lay == prefix + ds;
      LastSlice(prefix, ds);
    }
  }

  /** Left- and right-justification with spaces pad the same number with the same spaces,
      on opposite sides. */
  lemma JustifyMirror(format: PrintFormat, negative: bool, ds: string)
    requires format.width > DecoratedSize(|ds|, format, negative)
    ensures var prefix := Prefix(format, negative);
      var spaces := Repeat(' ', format.width - |prefix| - |ds|);
      && Layout(format.(flags := format.flags + {LeftJustify}), negative, ds) == prefix + ds + spaces
      && Layout(format.(flags := format.flags - {LeftJustify} + {PadWithSpaces}), negative, ds) == spaces + prefix + ds
  {
    var left := format.(flags := format.flags + {LeftJustify});
    var right := format.(flags := format.flags - {LeftJustify} + {PadWithSpaces});
    assert Prefix(left, negative) == Prefix(format, negative);
    assert Prefix(right, negative) == Prefix(format, negative);
  }

  /** -5 at width 4: `-005` when zero-padded, `  -5` when space-padded. */
  lemma SignBeforeZeros()
    ensures Layout(PrintFormat({}, 4, -1, 10), true, "5") == "-005"
    ensures Layout(PrintFormat({PadWithSpaces}, 4, -1, 10), true, "5") == "  -5"
  {
    assert Repeat('0', 2) == "00";
    assert Repeat(' ', 2) == "  ";
  }

  /** `-` takes precedence over `+`; the prefix letter follows Lowercase. */
  lemma PrefixLetters(format: PrintFormat, negative: bool)
    ensures Sign in format.flags ==> Prefix(format, negative)[0] == (if negative then '-' else '+')
    ensures PrependHex in format.flags ==>
      RadixText(format) == ['0', if Lowercase in format.flags then 'x' else 'X']
    ensures PrependHex !in format.flags && PrependBinary in format.flags ==>
      RadixText(format) == ['0', if Lowercase in format.flags then 'b' else 'B']
  {
  }

  // ---------------------------------------------------------------------------------------
  // Strings and booleans (tmp_print_formatted for text and bool)

  /** The text of a string or boolean padded with spaces to the width, on the right when
      left-justified, else on the left. PadWithSpaces plays no part: text pads with spaces. */
  function PaddedText(format: PrintFormat, s: string): string {
    if format.width > 0 && format.width > |s| then
      var pad := format.width - |s|;
      if LeftJustify in format.flags then s + Repeat(' ', pad) else Repeat(' ', pad) + s
    else s
  }

  /** The size tmp_print_formatted reports for text, as written: `spaces` is `width - width`,
      hence always zero. */
  function TextSizeAsWritten(format: PrintFormat, s: string): nat {
    var width := format.width;
    if format.width > 0 then
      var spaces := if format.width > |s| then format.width - width else 0;
      |s| + spaces
    else |s|
  }

  /** The size reported as written never includes the padding, so whenever padding is
      written the report falls short of the bytes laid out: "TRUE" at width 6 is reported
      as 4 bytes but occupies 6. */
  lemma TextSizeIgnoresPadding(format: PrintFormat, s: string)
    ensures TextSizeAsWritten(format, s) == |s|
    ensures format.width > |s| ==> TextSizeAsWritten(format, s) < |PaddedText(format, s)|
  {
  }

  /** The words a boolean prints as: 1/0 under BoolAsNumber, else true/false in the case
      Lowercase selects. */
  function BoolText(format: PrintFormat, b: bool): string {
    if BoolAsNumber in format.flags then (if b then "1" else "0")
    else if Lowercase in format.flags then (if b then "true" else "false")
    else (if b then "TRUE" else "FALSE")
  }

  // ---------------------------------------------------------------------------------------
  // What a value formats to

  /** The text of an integer: its layout around the backend's digits, or the backend's error. */
  function IntegerText(format: PrintFormat, pair: UnsignedPair, backend: Backend): Formatting {
    match backend(pair.magnitude, format)
    case Digits(ds) => Bytes(Layout(format, pair.negative, ds))
    case Failed(e) => Refused(e)
  }

  function PairOf(v: Value): UnsignedPair
    requires v.Signed? || v.Unsigned?
  {
    if v.Signed? then MakeUnsigned(v.v) else UnsignedPair(v.u, false)
  }

  /** The complete text a value formats to, with unlimited room. */
  function Formatted(value: Value, format: PrintFormat, backend: Backend): Formatting {
    match value
    case Bool(b) => Bytes(PaddedText(format, BoolText(format, b)))
    case Text(s) => Bytes(PaddedText(format, s))
    case Signed(_) => IntegerText(format, PairOf(value), backend)
    case Unsigned(_) => IntegerText(format, PairOf(value), backend)
  }

  /** The branches of Layout, one per padding style. */
  lemma LayoutCases(format: PrintFormat, negative: bool, ds: string)
    ensures var prefix := Prefix(format, negative);
      var decorated := |prefix| + |ds|;
      var padded := format.width > 0 && decorated <= format.width;
      var pad := if padded then format.width - decorated else 0;
      && (padded && LeftJustify in format.flags ==>
            Layout(format, negative, ds) == prefix + ds + Repeat(' ', pad))
      && (padded && LeftJustify !in format.flags && PadWithSpaces in format.flags ==>
            Layout(format, negative, ds) == Repeat(' ', pad) + prefix + ds)
      && (padded && LeftJustify !in format.flags && PadWithSpaces !in format.flags ==>
            Layout(format, negative, ds) == prefix + Repeat('0', pad) + ds)
      && (!padded ==> Layout(format, negative, ds) == prefix + ds)
  {
  }

  /** 1 when a sign byte is reserved in front of the digits, else 0. */
  function SignWidth(format: PrintFormat, negative: bool): (n: nat)
    ensures n == |SignText(format, negative)|
  {
    if negative || Sign in format.flags then 1 else 0
  }

  /** The laid-out number holds at least its sign byte and its digits. */
  lemma LayoutCovers(format: PrintFormat, negative: bool, ds: string)
    ensures SignWidth(format, negative) + |ds| <= |Layout(format, negative, ds)|
  {
    LayoutShape(format, negative, ds);
  }

  /** The bytes [lo, hi) the memmove of the source writes, measured from the start of the
      destination; it runs whenever the digits are not already in place, whatever the room. */
  datatype Window = Window(lo: nat, hi: nat)

  function MoveTargetAsWritten(format: PrintFormat, negative: bool, digits: nat): Option<Window> {
    var decorated := DecoratedSize(digits, format, negative);
    var size := TotalSize(decorated, format);
    var pos := DigitsPos(format, decorated, size, digits);
    if pos > 0 && pos != SignWidth(format, negative) then Some(Window(pos, pos + digits)) else None
  }

  /** As written, one digit right-justified to width 10 in a 3-byte window: the backend's
      digit fits, the padded size (10) does not, yet the move writes byte 9. */
  lemma MoveOverrunsAsWritten()
    ensures var f := PrintFormat({PadWithSpaces}, 10, -1, 10);
      && SignWidth(f, false) + 1 <= 3
      && TotalSize(DecoratedSize(1, f, false), f) > 3
      && MoveTargetAsWritten(f, false, 1) == Some(Window(9, 10))
  {
  }

  /** When the padded size fits, the move stays inside the window: checking first, as
      Engine.MoveAndDecorate does, loses nothing. */
  lemma MoveTargetFits(format: PrintFormat, negative: bool, digits: nat, maxlen: nat)
    requires TotalSize(DecoratedSize(digits, format, negative), format) <= maxlen
    ensures MoveTargetAsWritten(format, negative, digits).Some? ==> MoveTargetAsWritten(format, negative, digits).value.hi <= maxlen
  {
    LayoutShape(format, negative, Repeat('0', digits));
  }

  // ---------------------------------------------------------------------------------------
  // What tmp_print_formatted reports, as written

  /** Text that does not fit is reported as EOVERFLOW with the window size, not the size it
      needs. */
  function TextReportAsWritten(format: PrintFormat, s: string, maxlen: nat): PrintResult {
    var size := TextSizeAsWritten(format, s);
    if size > maxlen then PrintResult(maxlen, EOverflow) else PrintResult(size, Ok)
  }

  /** An integer: no room at all is EOVERFLOW before the backend is consulted; digits that
      do not fit behind the sign byte come back as ERANGE with the digit count alone, as the
      backend reported them; otherwise the padded size, ERANGE when it does not fit. */
  function IntegerReportAsWritten(format: PrintFormat, pair: UnsignedPair, backend: Backend, maxlen: nat): PrintResult {
    if maxlen == 0 then PrintResult(0, EOverflow)
    else
      match backend(pair.magnitude, format)
      case Failed(e) => PrintResult(0, e)
      case Digits(ds) =>
        if SignWidth(format, pair.negative) + |ds| > maxlen then PrintResult(|ds|, ERange)
        else
          var size := TotalSize(DecoratedSizeAsWritten(|ds|, format, pair.negative), format);
          PrintResult(size, if size <= maxlen then Ok else ERange)
  }

  /** The result tmp_print_formatted returns for `value` in a window of `maxlen` bytes. */
  function ReportAsWritten(value: Value, format: PrintFormat, backend: Backend, maxlen: nat): PrintResult {
    match value
    case Bool(b) => TextReportAsWritten(format, BoolText(format, b), maxlen)
    case Text(s) => TextReportAsWritten(format, s, maxlen)
    case Signed(_) => IntegerReportAsWritten(format, PairOf(value), backend, maxlen)
    case Unsigned(_) => IntegerReportAsWritten(format, PairOf(value), backend, maxlen)
  }

  /** As written, the reported size is not the size a value needs. 12345 right-justified to
      width 8 needs 8 bytes, but in 3 bytes it is reported as needing 5, and in those 5 as
      needing 8. "abc" in 2 bytes is reported as EOVERFLOW, an error that ends the print,
      instead of as a value that does not fit. */
  lemma OverflowReportAsWritten()
    ensures var backend: Backend := (m: nat, f: PrintFormat) => Digits("12345");
      var f := PrintFormat({PadWithSpaces}, 8, -1, 10);
      && Formatted(Unsigned(12345), f, backend) == Bytes("   12345")
      && ReportAsWritten(Unsigned(12345), f, backend, 3) == PrintResult(5, ERange)
      && ReportAsWritten(Unsigned(12345), f, backend, 5) == PrintResult(8, ERange)
      && ReportAsWritten(Text("abc"), DefaultFormat, backend, 2) == PrintResult(2, EOverflow)
      && IsHardError(EOverflow)
  {
  }
}
