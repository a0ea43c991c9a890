/** The format-specifier mini-language: `{` [index] [`:` flags width [`.` precision] [type]] `}`.
    tmp_parse_print_format reads the part after `:`, tmp_parse_format_specifiers the whole
    text between the braces. */
module SpecParser {
  import opened PrintTypes
  import opened Scan

  predicate IsFlagChar(c: char) {
    c == '-' || c == '+' || c == ' ' || c == '#' || c == '0'
  }

  predicate AllFlagChars(s: string) {
    forall i :: 0 <= i < |s| ==> IsFlagChar(s[i])
  }

  /** Length of the leading run of flag characters. */
  function FlagRun(s: string): (n: nat)
    ensures n <= |s|
    ensures AllFlagChars(s[..n])
    ensures n < |s| ==> !IsFlagChar(s[n])
  {
    if |s| > 0 && IsFlagChar(s[0]) then
      var n := 1 + FlagRun(s[1..]);
      assert s[..n] == [s[0]] + s[1..][..n - 1];
      n
    else 0
  }

  /** The flags collected so far and whether `#` was seen. */
  datatype FlagState = FlagState(flags: set<Flag>, pound: bool)

  /** Flags start from PrintFlags::Default with PadWithSpaces added. */
  const InitialFlags := FlagState({PadWithSpaces}, false)

  /** The effect of one flag character. */
  function FlagStep(st: FlagState, c: char): FlagState {
    match c
    case '-' => st.(flags := st.flags + {LeftJustify})
    case '+' => st.(flags := st.flags + {Sign})
    case ' ' => st.(flags := st.flags + {PadWithSpaces})
    case '#' => st.(pound := true)
    case '0' => st.(flags := st.flags - {PadWithSpaces})
    case _ => st
  }

  /** The flag characters of a run, applied left to right. */
  function ScanFlags(run: string): FlagState {
    if run == [] then InitialFlags else FlagStep(ScanFlags(run[..|run| - 1]), run[|run| - 1])
  }

  predicate IsTypeChar(c: char) {
    || c == 'x' || c == 'X' || c == 'o' || c == 'b' || c == 'B' || c == 'c' || c == 'e'
    || c == 'E' || c == 'f' || c == 'g' || c == 'G' || c == 'a' || c == 'A' || c == 'n'
  }

  /** The flags a type character adds; `#` turns on the radix prefix of x, X, o, b, B, a, A. */
  function TypeFlags(c: char, pound: bool): set<Flag> {
    match c
    case 'x' => {Lowercase} + (if pound then {PrependHex} else {})
    case 'X' => if pound then {PrependHex} else {}
    case 'o' => if pound then {PrependOctal} else {}
    case 'b' => {Lowercase} + (if pound then {PrependBinary} else {})
    case 'B' => if pound then {PrependBinary} else {}
    case 'c' => {Char}
    case 'e' => {Lowercase, Scientific}
    case 'E' => {Scientific}
    case 'f' => {TrailingZeroes, Fixed}
    case 'g' => {Lowercase, General, Shortest}
    case 'G' => {General, Shortest}
    case 'a' => {Lowercase, Hex} + (if pound then {PrependHex} else {})
    case 'A' => {Hex} + (if pound then {PrependHex} else {})
    case 'n' => {BoolAsNumber}
    case _ => {}
  }

  /** A type character never touches justification, sign or padding, and adds a radix
      prefix only under `#`, and at most one. */
  lemma TypeFlagsFacts(c: char, pound: bool)
    ensures var t := TypeFlags(c, pound);
      && LeftJustify !in t && Sign !in t && PadWithSpaces !in t
      && (PrependHex in t || PrependBinary in t || PrependOctal in t ==> pound)
      && (PrependHex in t ==> PrependBinary !in t && PrependOctal !in t)
      && (PrependBinary in t ==> PrependOctal !in t)
      && (!IsTypeChar(c) ==> t == {} && TypeBase(c, 10) == 10)
  {
  }

  /** A flag run only ever sets LeftJustify, Sign and PadWithSpaces. */
  lemma {:induction false} ScanFlagsRange(run: string)
    ensures ScanFlags(run).flags <= {LeftJustify, Sign, PadWithSpaces}
  {
    if run != [] {
      ScanFlagsRange(run[..|run| - 1]);
    }
  }

  /** The base a type character selects. */
  function TypeBase(c: char, base: int): int {
    match c
    case 'x' => 16
    case 'X' => 16
    case 'o' => 8
    case 'b' => 2
    case 'B' => 2
    case _ => base
  }

  /** Where each stage of the specifier body stops: after the flags, after the width
      digits, after the `.` and precision digits. */
  datatype Stops = Stops(flagsEnd: nat, widthEnd: nat, precisionEnd: nat)

  function StopsOf(s: string): (st: Stops)
    ensures st.flagsEnd <= st.widthEnd <= st.precisionEnd <= |s|
    ensures st.flagsEnd == FlagRun(s)
    ensures AllDigits(s[st.flagsEnd..st.widthEnd])
    ensures st.widthEnd < |s| && s[st.widthEnd] == '.' ==> st.widthEnd < st.precisionEnd
    ensures st.widthEnd < |s| && s[st.widthEnd] == '.' ==> AllDigits(s[st.widthEnd + 1..st.precisionEnd])
    ensures !(st.widthEnd < |s| && s[st.widthEnd] == '.') ==> st.precisionEnd == st.widthEnd
  {
    var k := FlagRun(s);
    var j := k + DigitRun(s[k..]);
    assert s[k..j] == s[k..][..j - k];
    if j < |s| && s[j] == '.' then
      var m := j + 1 + DigitRun(s[j + 1..]);
      assert s[j + 1..m] == s[j + 1..][..m - j - 1];
      Stops(k, j, m)
    else
      Stops(k, j, j)
  }

  /** The flags of a specifier body: those of its flag run, plus what its type character adds. */
  function ParsedFlags(s: string): set<Flag> {
    var st := StopsOf(s);
    var fs := ScanFlags(s[..st.flagsEnd]);
    if st.precisionEnd < |s| then fs.flags + TypeFlags(s[st.precisionEnd], fs.pound) else fs.flags
  }

  /** The width: the digits after the flags, or the default. */
  function ParsedWidth(s: string): int {
    var st := StopsOf(s);
    if st.widthEnd > st.flagsEnd then DecimalValue(s[st.flagsEnd..st.widthEnd]) else DefaultFormat.width
  }

  /** The precision: the digits after a `.`, or the default. */
  function ParsedPrecision(s: string): int {
    var st := StopsOf(s);
    if st.precisionEnd > st.widthEnd + 1 then DecimalValue(s[st.widthEnd + 1..st.precisionEnd])
    else DefaultFormat.precision
  }

  /** The base: chosen by the type character, else the default. */
  function ParsedBase(s: string): int {
    var m := StopsOf(s).precisionEnd;
    if m < |s| then TypeBase(s[m], DefaultFormat.base) else DefaultFormat.base
  }

  /** The characters consumed: up to the precision, plus a recognised type character. */
  function ParsedLength(s: string): nat {
    var m := StopsOf(s).precisionEnd;
    if m < |s| && IsTypeChar(s[m]) then m + 1 else m
  }

  datatype Parsed = Parsed(format: PrintFormat, consumed: nat)

  /** The meaning of a specifier body: the format it denotes and how many characters
      it consumes. Stages that find nothing keep the default. */
  function PrintFormatOf(s: string): Parsed {
    Parsed(PrintFormat(ParsedFlags(s), ParsedWidth(s), ParsedPrecision(s), ParsedBase(s)), ParsedLength(s))
  }

  /** The flag loop of tmp_parse_print_format: consumes flag characters until another
      character appears. */
  method ParseFlags(s: string) returns (st: FlagState, p: nat)
    ensures p == FlagRun(s)
    ensures st == ScanFlags(s[..p])
  {
    var flags := {} + {PadWithSpaces};
    var pound := false;
    p := 0;
    var parseFlags := true;
    while p < |s| && parseFlags
      decreases |s| - p + (if parseFlags then 1 else 0)
      invariant p <= FlagRun(s)
      invariant !parseFlags ==> p == FlagRun(s)
      invariant FlagState(flags, pound) == ScanFlags(s[..p])
    {
      assert s[..p + 1][..p] == s[..p];
      match s[p]
      case '-' => { flags := flags + {LeftJustify}; p := p + 1; }
      case '+' => { flags := flags + {Sign}; p := p + 1; }
      case ' ' => { flags := flags + {PadWithSpaces}; p := p + 1; }
      case '#' => { pound := true; p := p + 1; }
      case '0' => { flags := flags - {PadWithSpaces}; p := p + 1; }
      case _ => { parseFlags := false; }
    }
    st := FlagState(flags, pound);
  }

  /** The width digits, read right after the flags; without digits the width stays as it was. */
  method ParseWidth(s: string, p0: nat, width0: int) returns (width: int, p: nat)
    requires p0 == FlagRun(s) && width0 == DefaultFormat.width
    ensures p == StopsOf(s).widthEnd && width == ParsedWidth(s)
  {
    width, p := width0, p0;
    var scanWidth := ScanDecimal(s[p..]);
    if scanWidth.Some? {
      width := scanWidth.value.value;
      p := p + scanWidth.value.count;
      assert s[p0..p] == s[p0..][..scanWidth.value.count];
    }
  }

  /** An optional `.` and precision digits; without digits the precision stays as it was. */
  method ParsePrecision(s: string, p0: nat, precision0: int) returns (precision: int, p: nat)
    requires p0 == StopsOf(s).widthEnd && precision0 == DefaultFormat.precision
    ensures p == StopsOf(s).precisionEnd && precision == ParsedPrecision(s)
  {
    precision, p := precision0, p0;
    if p < |s| && s[p] == '.' {
      p := p + 1;
      var scanPrecision := ScanDecimal(s[p..]);
      if scanPrecision.Some? {
        precision := scanPrecision.value.value;
        p := p + scanPrecision.value.count;
        assert s[p0 + 1..p] == s[p0 + 1..][..scanPrecision.value.count];
      }
    }
  }

  /** tmp_parse_print_format. */
  method ParsePrintFormat(s: string) returns (out: PrintFormat, consumed: nat)
    ensures Parsed(out, consumed) == PrintFormatOf(s)
    ensures consumed <= |s|
  {
    out := DefaultFormat;
    var fs, p := ParseFlags(s);

    var width;
    width, p := ParseWidth(s, p, out.width);
    out := out.(width := width);

    var precision;
    precision, p := ParsePrecision(s, p, out.precision);
    out := out.(precision := precision);

    // Type character.
    var flags := fs.flags;
    if p < |s| {
      flags := flags + TypeFlags(s[p], fs.pound);
      out := out.(base := TypeBase(s[p], out.base));
      if IsTypeChar(s[p]) {
        p := p + 1;
      }
    }

    out := out.(flags := flags);
    consumed := p;
  }

  /** No `0` of the run comes after its last space. */
  predicate SpacePadWins(run: string) {
    forall i :: 0 <= i < |run| && run[i] == '0' ==> exists j :: i < j < |run| && run[j] == ' '
  }

  /** What a run of flag characters sets: `-`, `+` and `#` switch their flag on for good,
      while of `0` and space the last one wins (PadWithSpaces is on when no `0` follows
      the last space, and with no `0` at all). */
  lemma ScanFlagsEffect(run: string)
    ensures var st := ScanFlags(run);
      && (LeftJustify in st.flags <==> '-' in run)
      && (Sign in st.flags <==> '+' in run)
      && (st.pound <==> '#' in run)
      && (PadWithSpaces in st.flags <==> SpacePadWins(run))
      && st.flags <= {LeftJustify, Sign, PadWithSpaces}
  {
    ScanFlagsSwitches(run);
    ScanFlagsPadding(run);
    ScanFlagsRange(run);
  }

  lemma {:induction false} ScanFlagsSwitches(run: string)
    ensures var st := ScanFlags(run);
      && (LeftJustify in st.flags <==> '-' in run)
      && (Sign in st.flags <==> '+' in run)
      && (st.pound <==> '#' in run)
  {
    if run != [] {
      var init, c := run[..|run| - 1], run[|run| - 1];
      ScanFlagsSwitches(init);
      assert run == init + [c];
      assert forall x :: x in run <==> x in init || x == c;
    }
  }

  lemma {:induction false} ScanFlagsPadding(run: string)
    ensures PadWithSpaces in ScanFlags(run).flags <==> SpacePadWins(run)
  {
    if run != [] {
      var init, c := run[..|run| - 1], run[|run| - 1];
      ScanFlagsPadding(init);
      assert forall i :: 0 <= i < |init| ==> run[i] == init[i];
      if c == ' ' {
        assert SpacePadWins(run) by {
          forall i | 0 <= i < |run| && run[i] == '0'
            ensures exists j :: i < j < |run| && run[j] == ' '
          {
            assert run[|run| - 1] == ' ';
          }
        }
      } else if c == '0' {
        assert run[|run| - 1] == '0';
      } else {
        if SpacePadWins(init) {
          forall i | 0 <= i < |run| && run[i] == '0'
            ensures exists j :: i < j < |run| && run[j] == ' '
          {
            assert i < |init|;
            var j :| i < j < |init| && init[j] == ' ';
            assert run[j] == ' ';
          }
        } else {
          var i :| 0 <= i < |init| && init[i] == '0' && !(exists j :: i < j < |init| && init[j] == ' ');
          assert run[i] == '0';
          assert !(exists j :: i < j < |run| && run[j] == ' ') by {
            forall j | i < j < |run| ensures run[j] != ' ' {
              if j < |init| { assert run[j] == init[j]; }
            }
          }
        }
      }
    }
  }

  /** The flags of a parsed specifier body, read off its leading flag run: `-`, `+`
      and `0`/space as in ScanFlagsEffect, and a radix prefix only when `#` is in the run. */
  lemma SpecifierFlags(s: string)
    ensures var run := s[..FlagRun(s)]; var f := PrintFormatOf(s).format.flags;
      && (LeftJustify in f <==> '-' in run)
      && (Sign in f <==> '+' in run)
      && (PadWithSpaces in f <==> SpacePadWins(run))
      && (PrependHex in f || PrependBinary in f || PrependOctal in f ==> '#' in run)
  {
    ScanFlagsEffect(s[..FlagRun(s)]);
    var m := StopsOf(s).precisionEnd;
    if m < |s| {
      TypeFlagsFacts(s[m], ScanFlags(s[..FlagRun(s)]).pound);
    }
  }

  /** The type character: one of `xXobBceEfgGaAn` right after the precision is consumed and
      sets the base and flags of the table; any other character is left unconsumed, and then
      the base stays 10 and no flag is added. */
  lemma TypeCharEffect(s: string)
    ensures var m := StopsOf(s).precisionEnd; var r := PrintFormatOf(s);
      var fs := ScanFlags(s[..StopsOf(s).flagsEnd]);
      && (m < |s| && IsTypeChar(s[m]) ==>
            r.consumed == m + 1 && r.format.base == TypeBase(s[m], 10)
            && r.format.flags == fs.flags + TypeFlags(s[m], fs.pound))
      && (m == |s| || !IsTypeChar(s[m]) ==>
            r.consumed == m && r.format.base == 10 && r.format.flags == fs.flags)
  {
  }

  /** At most one radix prefix flag comes out of any specifier body. */
  lemma RadixPrefixExclusive(s: string)
    ensures var f := PrintFormatOf(s).format.flags;
      && !(PrependHex in f && PrependBinary in f)
      && !(PrependHex in f && PrependOctal in f)
      && !(PrependBinary in f && PrependOctal in f)
  {
    var st := StopsOf(s);
    ScanFlagsRange(s[..st.flagsEnd]);
    if st.precisionEnd < |s| {
      TypeFlagsFacts(s[st.precisionEnd], ScanFlags(s[..st.flagsEnd]).pound);
    }
  }

  /** The flag run is the first position that does not hold a flag character. */
  lemma {:induction false} FlagRunUnique(s: string, n: nat)
    requires n <= |s|
    requires forall i :: 0 <= i < n ==> IsFlagChar(s[i])
    requires n < |s| ==> !IsFlagChar(s[n])
    ensures FlagRun(s) == n
  {
    if n > 0 {
      assert IsFlagChar(s[0]);
      assert forall i :: 0 <= i < n - 1 ==> s[1..][i] == s[i + 1];
      FlagRunUnique(s[1..], n - 1);
    }
  }

  /** The digit run is the first position that does not hold a digit. */
  lemma {:induction false} DigitRunUnique(s: string, n: nat)
    requires n <= |s|
    requires forall i :: 0 <= i < n ==> IsDigit(s[i])
    requires n < |s| ==> !IsDigit(s[n])
    ensures DigitRun(s) == n
  {
    if n > 0 {
      assert IsDigit(s[0]);
      assert forall i :: 0 <= i < n - 1 ==> s[1..][i] == s[i + 1];
      DigitRunUnique(s[1..], n - 1);
    }
  }

  /** The specifier `-+#08.3x`: left-justified, signed, `0x` prefix, zero-padded (the `0` is
      a flag, so no PadWithSpaces), width 8, precision 3, lower-case hex; all 8 characters read. */
  lemma ParseExample()
    ensures PrintFormatOf("-+#08.3x")
         == Parsed(PrintFormat({LeftJustify, Sign, Lowercase, PrependHex}, 8, 3, 16), 8)
  {
    var s := "-+#08.3x";
    ExampleStops();
    ExampleFlags();
    assert s[..4] == "-+#0";
    assert s[4..5] == "8" && s[6..7] == "3";
    assert DecimalValue("8") == 8 by { assert "8"[..0] == ""; }
    assert DecimalValue("3") == 3 by { assert "3"[..0] == ""; }
  }

  lemma ExampleStops()
    ensures StopsOf("-+#08.3x") == Stops(4, 5, 7)
  {
    var s := "-+#08.3x";
    FlagRunUnique(s, 4);
    assert s[4..] == "8.3x";
    DigitRunUnique("8.3x", 1);
    assert s[6..] == "3x";
    DigitRunUnique("3x", 1);
  }

  lemma ExampleFlags()
    ensures ScanFlags("-+#0") == FlagState({LeftJustify, Sign}, true)
  {
    assert "-+#0"[..3] == "-+#";
    assert "-+#"[..2] == "-+";
    assert "-+"[..1] == "-";
    assert "-"[..0] == "";
  }

  /** The text between a placeholder's braces: its index, if it starts with digits, and
      its format: the initial one unless a `:` follows the index, which brings in a fresh
      default-based specifier body. */
  datatype Specifiers = Specifiers(format: PrintFormat, index: Option<nat>)

  function FormatSpecifiers(spec: string, initial: PrintFormat): (r: Specifiers)
    ensures r.index.Some? <==> |spec| > 0 && IsDigit(spec[0])
    ensures r.format != initial ==> ':' in spec
  {
    if |spec| == 0 then Specifiers(initial, None)
    else
      var scan := ScanDecimal(spec);
      var at := if scan.Some? then scan.value.count else 0;
      var format := if at < |spec| && spec[at] == ':' then PrintFormatOf(spec[at + 1..]).format else initial;
      Specifiers(format, if scan.Some? then Some(scan.value.value) else None)
  }

  /** tmp_parse_format_specifiers: `index` is the caller's current index, replaced when the
      text starts with digits. */
  method ParseFormatSpecifiers(spec: string, initial: PrintFormat, current: nat)
    returns (format: PrintFormat, indexSpecified: bool, index: nat)
    ensures var r := FormatSpecifiers(spec, initial);
      && format == r.format
      && indexSpecified == r.index.Some?
      && index == (if indexSpecified then r.index.value else current)
  {
    format, indexSpecified, index := initial, false, current;
    if |spec| == 0 {
      return;
    }
    var p := 0;
    var scanIndex := ScanDecimal(spec);
    if scanIndex.Some? {
      index := scanIndex.value.value;
      p := p + scanIndex.value.count;
      indexSpecified := true;
    }
    if p < |spec| && spec[p] == ':' {
      p := p + 1;
      var consumed;
      format, consumed := ParsePrintFormat(spec[p..]);
    }
  }

  /** A placeholder body that is the decimal text of `n`, possibly followed by a `:` body,
      selects argument `n`. */
  lemma ExplicitIndex(n: nat, rest: string, initial: PrintFormat)
    requires rest == [] || !IsDigit(rest[0])
    ensures FormatSpecifiers(DecimalText(n) + rest, initial).index == Some(n)
  {
    ScanDecimalText(n, rest);
  }

  /** The explicit form `{n:spec}`: argument `n` under the format parsed from `spec`,
      which starts from the default format, not the initial one. */
  lemma IndexThenColon(n: nat, body: string, initial: PrintFormat)
    ensures FormatSpecifiers(DecimalText(n) + ":" + body, initial) == Specifiers(PrintFormatOf(body).format, Some(n))
  {
    var d := DecimalText(n);
    assert d + ":" + body == d + (":" + body);
    ScanDecimalText(n, ":" + body);
    assert (d + ":" + body)[|d|] == ':';
    assert (d + ":" + body)[|d| + 1..] == body;
  }

  /** An index followed by anything but a digit or `:` selects argument `n` and keeps the
      initial format: the rest of the body is ignored. */
  lemma IndexAlone(n: nat, rest: string, initial: PrintFormat)
    requires rest == [] || (!IsDigit(rest[0]) && rest[0] != ':')
    ensures FormatSpecifiers(DecimalText(n) + rest, initial) == Specifiers(initial, Some(n))
  {
    ScanDecimalText(n, rest);
    if rest != [] {
      assert (DecimalText(n) + rest)[|DecimalText(n)|] == rest[0];
    }
  }

  /** A body `:spec` has no index and takes its format from the specifier alone. */
  lemma ColonBody(body: string, initial: PrintFormat)
    ensures FormatSpecifiers(":" + body, initial) == Specifiers(PrintFormatOf(body).format, None)
  {
    assert (":" + body)[1..] == body;
  }
}
