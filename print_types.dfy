/** Shared vocabulary of the tm_print formatting core: error codes, print flags,
    the per-placeholder format, conversion results and the argument list. */
module PrintTypes {

  /** The error codes the core reports (tm_errc). */
  datatype Errc = Ok | EOverflow | ERange | EInval

  /** An error that stops formatting for good: anything but success and "would not fit". */
  predicate IsHardError(e: Errc) {
    e == EOverflow || e == EInval
  }

  /** What a numeric backend may report when it cannot convert at all. */
  type BackendError = e: Errc | IsHardError(e) witness EInval

  /** The PrintFlags bits, one constructor per bit. */
  datatype Flag =
    | LeftJustify | Sign | PadWithSpaces
    | PrependHex | PrependBinary | PrependOctal
    | Lowercase | Char
    | Scientific | Fixed | TrailingZeroes | General | Shortest | Hex
    | BoolAsNumber

  /** PrintFormat: flags, field width, precision and base. A width or precision that is
      not positive means "unset". */
  datatype PrintFormat = PrintFormat(flags: set<Flag>, width: int, precision: int, base: int)

  /** default_print_format(): pad with nothing, base 10, width and precision unset. */
  const DefaultFormat := PrintFormat({}, 0, -1, 10)

  /** PrintFormattedResult: bytes written (or needed), and an error code. */
  datatype PrintResult = PrintResult(size: int, ec: Errc)

  datatype Option<T> = None | Some(value: T)

  /** A formatted piece of output, or the hard error that prevented it. */
  datatype Formatting = Bytes(text: seq<char>) | Refused(error: BackendError)

  /** The values an argument can carry. Integers keep their mathematical value; whether the
      source held them in 32 or 64 bits only matters to the negation in make_unsigned. */
  datatype Value = Bool(b: bool) | Text(s: string) | Signed(v: int) | Unsigned(u: nat)

  /** One entry of PrintArgList: its packed type tag and its value. */
  datatype Arg = Arg(tag: int, value: Value)

  /** PrintType::Last. The PrintType enumeration is declared in a header outside this
      model; only the range check 0 < tag < PrintTypeLast matters to the scanner. */
  const PrintTypeLast: int := 16

  predicate ValidTag(tag: int) {
    0 < tag < PrintTypeLast
  }

  /** A digit run produced by a backend: never empty. */
  type DigitString = s: seq<char> | |s| >= 1 witness "0"

  /** What the numeric backend (tmp_print_value) makes of a magnitude under a format. */
  datatype Conversion = Digits(ds: DigitString) | Failed(code: BackendError)

  /** The backend selected at build time, as a total function of magnitude and format. */
  type Backend = (nat, PrintFormat) -> Conversion
}
