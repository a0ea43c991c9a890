# tm_print formatting core, modelled in Dafny

This project models the formatting core of `tm_print`, all of which is in
`src/tm_print/implementation.cpp`. `tm_print` is a `printf`-like library that uses
brace placeholders (`{}`, `{1}`, `{:-+#08.3x}`). The model has these parts:

- `scan.dfy` (`Scan`): `scan_u32_n`, the decimal number reader. It is a pure function
  that reads the longest run of decimal digits.
- `spec_parser.dfy` (`SpecParser`): `tmp_parse_print_format`, the specifier
  mini-language (flags, width, precision, type character), and
  `tmp_parse_format_specifiers`, an optional argument index followed by `:`. The loops
  are methods proved equal to the reference function `PrintFormatOf`.
- `decoration.dfy` (`Decoration`): the sign split `tmp_make_unsigned`, the sizes
  `tmp_get_decorated_size`, and the final text of a value (`Layout`, `PaddedText`,
  `BoolText`, `Formatted`), with the layout and sizing properties proved about them.
- `byte_ops.dfy` (`ByteOps`): `memset`, `memcpy` and `memmove` on a `char` array. Each
  one is specified as one `Overwrite` of a window of the array.
- `engine.dfy` (`Engine`): the in-place engine. The backend writes the digits one sign
  byte into the window. `tmp_move_printed_value_and_decorate` moves them to their final
  offset, and `tmp_print_decoration` writes padding, sign and radix prefix around them.
  There are also the text and boolean paths of `tmp_print_formatted`. Every method proves
  that the window ends up holding the function-level text.
- `memory_printer.dfy` (`Sink`): a fixed-capacity `tmp_memory_printer`, as a class with
  `size`, `necessary` and a sticky `ec`, plus a pure model of its appends (`Put`, `PutAll`).
- `scanner.dfy` (`Scanner`): `tmp_find`, `tmp_print_string_escaped` and `tmp_print_impl`.
  The meaning of a template is `Render`, the list of appends plus a malformed flag. `Exec`
  feeds that list to the printer. The scanning methods are proved to leave the printer
  exactly as `Exec(Render(...))` says.
- `snprint.dfy` (`SnPrint`): `tmp_snprint`, which fixes the return value and where the
  NUL terminator goes. It follows `snprintf` (section 7.21.6.5 of ISO C11) only on
  success. When the text does not fit (ERANGE), `tmp_snprint` writes no NUL at all, where
  `snprintf` would terminate the truncated output. `SnPrint.SnPrint` promises no NUL in
  that case either.

Bytes are modelled as `char` and templates as `string`. The integer backend
(`tmp_print_value`) is code outside this model. It is a parameter `Backend`: a total
function from magnitude and format to a non-empty digit string, or to a hard error.

For `{1} {0} {}`, explicit indices never move the implicit cursor, so the last `{}` takes
argument 0 (`Scanner.IndexExample`).

Where verifying the code showed a defect (see "## Findings"), the as-written behaviour is
kept as a separate definition with a lemma that exhibits the defect. The engine, the
printer and the scanner methods implement the corrected behaviour, and so do the lemmas
about whole prints built on them.

## Model

| member | source | states |
|---|---|---|
| `Scan.ScanDecimal` | src/tm_print/implementation.cpp:17-43 | Succeeds exactly when the text starts with a digit. It consumes the maximal digit run (at least one digit), and its value is that run's decimal value. |
| `Scan.ScanDecimalText` | src/tm_print/implementation.cpp:17-43 | Round trip: reading the decimal text of `n` followed by a non-digit yields `n` and consumes exactly its digits. |
| `SpecParser.ParseFlags` | src/tm_print/implementation.cpp:416-450 | The flag loop stops at the first non-flag character, and the flags it collects are those of `ScanFlags` on the consumed run. |
| `SpecParser.ScanFlagsEffect` | src/tm_print/implementation.cpp:407-450 | In a flag run, `-`, `+` and `#` turn their flag on for good. Between `0` and space the last one wins: PadWithSpaces is set iff no `0` follows the last space. Only LeftJustify, Sign and PadWithSpaces are ever set. |
| `SpecParser.ParseWidth` | src/tm_print/implementation.cpp:452-456 | Width digits right after the flags set the width and are consumed; without digits the default width stays. |
| `SpecParser.ParsePrecision` | src/tm_print/implementation.cpp:458-465 | A `.` is consumed, then any precision digits after it. The precision changes only when digits follow. |
| `SpecParser.ParsePrintFormat` | src/tm_print/implementation.cpp:401-562 | The whole parser yields the format and the count of characters consumed given by the reference `PrintFormatOf`, and never consumes more than the text. |
| `SpecParser.SpecifierFlags` | src/tm_print/implementation.cpp:407-450 | The parsed flags follow the leading flag run: `-` gives LeftJustify, `+` gives Sign, the space/`0` rule decides padding, and a radix prefix needs a `#` in the run. |
| `SpecParser.TypeFlagsFacts` | src/tm_print/implementation.cpp:467-557 | A type character never sets justification, sign or padding. It adds a radix prefix only under `#`, and at most one. Unknown characters add nothing. |
| `SpecParser.RadixPrefixExclusive` | src/tm_print/implementation.cpp:467-557 | No specifier body yields two radix-prefix flags. |
| `SpecParser.ParseExample` | src/tm_print/implementation.cpp:401-562 | `-+#08.3x` parses to LeftJustify, Sign, Lowercase and PrependHex (no PadWithSpaces), with width 8, precision 3 and base 16, consuming 8 characters. |
| `SpecParser.FormatSpecifiers` | src/tm_print/implementation.cpp:50-66 | An index is reported exactly when the text starts with a digit. The format differs from the initial one only if the text holds a `:`. |
| `SpecParser.ParseFormatSpecifiers` | src/tm_print/implementation.cpp:50-66 | Imperative reading of the placeholder body. It returns the format and index of `FormatSpecifiers` and keeps the caller's index when none is given. |
| `SpecParser.ExplicitIndex` | src/tm_print/implementation.cpp:50-58 | A body starting with the decimal text of `n` (then a non-digit) selects argument `n`. |
| `SpecParser.IndexThenColon` | src/tm_print/implementation.cpp:54-63 | The explicit form `n:spec` selects argument `n` under the format parsed from `spec`, which starts from the default format. |
| `SpecParser.IndexAlone` | src/tm_print/implementation.cpp:54-63 | An index followed by nothing, or by a character that is neither a digit nor `:`, selects argument `n` and keeps the initial format. The rest of the body is ignored. |
| `SpecParser.ColonBody` | src/tm_print/implementation.cpp:60-63 | A body `:spec` has no index, and its format is the specifier's parse, which starts from the default format. |
| `Decoration.MakeUnsigned` | src/tm_print/implementation.cpp:86-98 | The sign split: `negative` iff `v < 0`, and the signed magnitude gives `v` back. |
| `Decoration.WrappedNegationIsMagnitude` | src/tm_print/implementation.cpp:86-95 | For 32- and 64-bit words, negating in the signed type with two's-complement wrap and then converting to unsigned gives `abs(v)`, even for the most negative value. |
| `Decoration.DecoratedSize` | src/tm_print/implementation.cpp:158-170 | The decorated size is the digits plus exactly the bytes of sign and radix prefix that the decoration writes. |
| `Decoration.DecoratedSizeAgrees` | src/tm_print/implementation.cpp:158-170 | The source's additive count agrees with the written prefix whenever octal does not meet hex or binary. |
| `Decoration.DecoratedSizeMismatch` | src/tm_print/implementation.cpp:163-168 | As written, hex plus octal flags report 4 bytes for 1 digit where 3 are written. |
| `Decoration.LayoutShape` | src/tm_print/implementation.cpp:237-255 | The laid-out number is `max(decorated, width)` long, and the backend's digits sit unchanged at `digits_pos`. The digits end at the decorated size when left-justified, else at the total size. |
| `Decoration.JustifyMirror` | src/tm_print/implementation.cpp:183-200 | Left- and right-justification with spaces give the same prefix, digits and number of spaces, on opposite sides. |
| `Decoration.SignBeforeZeros` | src/tm_print/implementation.cpp:184-214 | -5 at width 4 gives `-005` zero-padded and `  -5` space-padded. |
| `Decoration.TextSizeIgnoresPadding` | src/tm_print/implementation.cpp:107-112 | As written, the reported text size is always the string length. When padding is written, it falls short of the bytes laid out. |
| `Decoration.MoveOverrunsAsWritten` | src/tm_print/implementation.cpp:256-267 | As written, one digit right-justified to width 10 in a 3-byte window passes the backend, fails the size check, yet the move writes byte 9. |
| `Decoration.OverflowReportAsWritten` | src/tm_print/implementation.cpp:230-236 | As written, a value that does not fit is reported with a size other than the one it needs. 12345 at width 8 needs 8 bytes, but in a 3-byte window it is reported as needing 5 (the digit count the backend passed on), and in 5 bytes as needing 8. `abc` in 2 bytes is reported as the hard error EOVERFLOW (line 114). |
| `Decoration.MoveTargetFits` | src/tm_print/implementation.cpp:250-267 | When the total size fits `maxlen`, the move's target window stays within `maxlen`. |
| `Engine.PrintValue` | src/tm_print/implementation.cpp:305-307 | Backend contract: it writes the digits into its window when they fit. Otherwise it reports ERANGE with the size they need and changes nothing. A backend failure is passed on. |
| `Engine.WriteSign` | src/tm_print/implementation.cpp:206-214 | Writes `-` for a negative value, else `+` under Sign, else nothing, and returns the next position. |
| `Engine.WriteRadix` | src/tm_print/implementation.cpp:216-227 | Writes the radix prefix of the format at the given position and nothing else. |
| `Engine.WritePrefix` | src/tm_print/implementation.cpp:206-227 | Sign, then radix prefix, written byte by byte, equals writing `Prefix` in one piece. |
| `Engine.SpacesThenPrefix` | src/tm_print/implementation.cpp:184-195 | Right-justified, space-padded: the window becomes spaces, prefix, then the digits already in place. |
| `Engine.PrefixThenZeros` | src/tm_print/implementation.cpp:184-195 | Right-justified, zero-padded: the window becomes prefix, zeros, then the digits already in place. |
| `Engine.PrefixDigitsSpaces` | src/tm_print/implementation.cpp:196-200 | Left-justified: the window becomes prefix, the digits in place, then spaces. |
| `Engine.PrefixOnly` | src/tm_print/implementation.cpp:201-204 | No padding: the window becomes the prefix followed by the digits in place. |
| `Engine.PrintDecoration` | src/tm_print/implementation.cpp:172-228 | With the digits at `digits_pos`, decoration turns the window into exactly `Layout` of the digits. |
| `Engine.MoveDigits` | src/tm_print/implementation.cpp:256-261 | The digit run is moved from the sign offset to `digits_pos`; when they coincide nothing moves. |
| `Engine.MoveThenDecorate` | src/tm_print/implementation.cpp:256-268 | Moving, then decorating, leaves exactly the layout in the window. |
| `Engine.MoveAndDecorate` | src/tm_print/implementation.cpp:230-271 | A hard backend error is returned unchanged. Otherwise the size is always the length of the whole layout. The result is OK iff the backend fitted and the layout fits `maxlen`, and then the window holds exactly the layout. Else ERANGE with the array untouched. |
| `Engine.PrintDigits` | src/tm_print/implementation.cpp:297-308 | Digits are placed one sign byte in, then moved and decorated. The size is always the layout's length, and the result is OK iff the layout fits, writing it exactly. Otherwise ERANGE. Nothing outside the window changes. |
| `Engine.PrintConverted` | src/tm_print/implementation.cpp:305-308 | A failed conversion is passed on with nothing written; digits go through `PrintDigits`. |
| `Engine.PrintFormattedInteger` | src/tm_print/implementation.cpp:297-309 | A backend error surfaces with size 0 and nothing written. Otherwise the size is the length of the integer's text, the result is OK iff it fits, and the window then holds exactly that text. Otherwise ERANGE. |
| `Engine.PrintFormattedText` | src/tm_print/implementation.cpp:101-135 | The text is padded with spaces to the width, on the right when left-justified. It is written exactly and reported with its padded size. If it does not fit, the result is ERANGE with the padded size, and nothing is written. |
| `Engine.PrintFormattedBool` | src/tm_print/implementation.cpp:137-156 | A boolean prints as `1`/`0` under BoolAsNumber, else as `true`/`false` or `TRUE`/`FALSE` by Lowercase. It is padded and reported like text. |
| `Engine.PrintFormatted` | src/tm_print/implementation.cpp:297-309 | For any value, the reported size is the length of its whole formatted text. The result is OK iff that text fits the window, and the window then holds it. Otherwise ERANGE. A refused value reports its backend error with size 0. Nothing outside the window changes. |
| `Sink.Put` | src/tm_print/implementation.cpp:323-335 | One append: after a hard error nothing changes. Bytes always add to `necessary` and are written only while OK and if they all fit, else ERANGE. The printer's consistency invariant is preserved. |
| `Sink.PutAllBytes` | src/tm_print/implementation.cpp:576-594 | A run of byte appends: `necessary` grows by the total length, and the output is all of it exactly when it fits, else ERANGE with the output unchanged. |
| `Sink.PutAllOk` | src/tm_print/implementation.cpp:392 | A run of appends goes through exactly when every piece is bytes; otherwise the printer ends with a hard error. |
| `Sink.PutAllConsistent` | src/tm_print/implementation.cpp:576-594 | Any run of appends keeps `size <= capacity`, `size <= necessary`, and `necessary == size` while OK. |
| `Sink.MemoryPrinter.constructor` | src/tm_print/implementation.cpp:580 | A printer over the caller's buffer starts empty with no error. |
| `Sink.MemoryPrinter.SetError` | src/tm_print/implementation.cpp:327 | Records an error code and changes nothing else. |
| `Sink.MemoryPrinter.Append` | src/tm_print/implementation.cpp:323 | Appending raw bytes changes the printer exactly as `Put` says, copying them into the buffer when they fit. |
| `Sink.MemoryPrinter.AppendValue` | src/tm_print/implementation.cpp:392 | The engine formats the value into the free part of the buffer, or into no room once the printer is in ERANGE. Its reported size goes into `necessary`, its ERANGE into `ec`, and its hard error stops the append. The printer changes exactly as `Put` of the value's formatted text says. |
| `Scanner.Find` | src/tm_print/implementation.cpp:314-316 | `tmp_find` returns a position in range that holds the character. |
| `Scanner.FindFirst` | src/tm_print/implementation.cpp:314-316 | It is the first such position, and "not found" means no position in range holds it. |
| `Scanner.EscapedMeaning` | src/tm_print/implementation.cpp:318-338 | Literal text is malformed iff it has a lone `}`. Otherwise it appends the text with each `}}` read as `}` and every other byte unchanged (reference `Unescape`). |
| `Scanner.EscapedLiterals` | src/tm_print/implementation.cpp:318-338 | Literal text only ever appends literal bytes. |
| `Scanner.PrintStringEscaped` | src/tm_print/implementation.cpp:318-338 | The loop leaves the printer as `Exec` of `Escaped` says, and reports whether it ran to the end. |
| `Scanner.PrintChunk` | src/tm_print/implementation.cpp:320-333 | One round: the chunk through the `}` is appended, then EINVAL if the `}` is lone, else the scan goes on after the pair. |
| `Scanner.PrintPlaceholder` | src/tm_print/implementation.cpp:360-392 | A placeholder with no `}` after it, with an index past the arguments, or with an invalid tag sets EINVAL and appends nothing of it. Otherwise it appends the argument under its format and moves the cursor only for an implicit index. |
| `Scanner.PrintNext` | src/tm_print/implementation.cpp:350-392 | One round of the main loop: the literal run, then `{{` as `{` or a placeholder. |
| `Scanner.PrintImpl` | src/tm_print/implementation.cpp:340-397 | The whole scan leaves the printer exactly as `Exec(Render(template))` says. |
| `Scanner.RenderFields` | src/tm_print/implementation.cpp:370-392 | Every formatted argument is an argument of the list whose type tag is valid. |
| `Scanner.PlaceholderResolution` | src/tm_print/implementation.cpp:360-392 | Over a whole template, the appends are its skeleton's pieces in order, and the skeleton does not depend on the arguments. Each placeholder formats argument `j`: its explicit index, else the number of implicit placeholders before it. The scan stops, malformed, at the first placeholder whose `j` is past the arguments or whose tag is invalid. Without such a placeholder every piece is appended. |
| `Scanner.RenderFromSkeleton` | src/tm_print/implementation.cpp:340-392 | The scan equals its argument-free skeleton with the arguments chosen from the cursor on. |
| `Scanner.ResolveShape` | src/tm_print/implementation.cpp:369-392 | Choosing arguments yields the images of the pieces up to the first bad placeholder. It is malformed exactly when it stops before the last piece. |
| `Scanner.CloserAgrees` | src/tm_print/implementation.cpp:361 | The source's search from `format_first` finds the placeholder's own `}` iff the literal run before `{` has no `}`. Otherwise it finds a `}` before the `{`. |
| `Scanner.CloserAsWrittenExample` | src/tm_print/implementation.cpp:361 | In `a}}{}` the search as written returns position 1, before the `{` at 3. |
| `Scanner.CloserCorrectedExample` | src/tm_print/implementation.cpp:350-392 | With the search from after the `{`, `a}}{}` renders as `a}` followed by the first argument. |
| `Scanner.IndexExample` | src/tm_print/implementation.cpp:369-383 | `{1} {0} {}` formats arguments 1, 0 and then 0: explicit indices do not move the implicit cursor. |
| `Scanner.IndexOutOfRangeExample` | src/tm_print/implementation.cpp:373-376 | `{5}` with two arguments is malformed, with nothing appended. |
| `Scanner.EscapesExample` | src/tm_print/implementation.cpp:350-357 | `{{}}` renders as the literal text `{}`. |
| `Scanner.LoneCloserExample` | src/tm_print/implementation.cpp:320-329 | In `a}b` the text `a}` is appended, then the scan stops as malformed. |
| `Scanner.UnterminatedExample` | src/tm_print/implementation.cpp:361-365 | `x{0` appends `x`, then stops as malformed. |
| `SnPrint.FreshScan` | src/tm_print/implementation.cpp:576-594 | A scan completes iff the template is well formed and every value formats, whatever the capacity. Then `necessary` is the whole text's length, and the output is the whole text when it fits, else ERANGE. |
| `SnPrint.ReturnedLength` | src/tm_print/implementation.cpp:582-593 | The result is -1 exactly when the scan does not complete, and otherwise the length of the whole text, whether or not it fit. |
| `SnPrint.RetrySucceeds` | src/tm_print/implementation.cpp:592 | Retrying with a buffer at least as large as an ERANGE result succeeds and writes that many bytes. This holds for the corrected engine, which reports the size a value needs. |
| `SnPrint.SnPrint` | src/tm_print/implementation.cpp:576-594 | Returns the size on OK, `necessary` on ERANGE, -1 otherwise. On OK the text is followed by NUL, or, when it fills the buffer, its last byte is replaced by NUL. |

## Left out

- `tmp_print` (FILE* output through `fwrite`): I/O.
- `tmp_string_format`, the allocator context and the growable side of the memory printer: allocator plumbing whose code is not part of this model. Only a fixed-capacity printer is modelled.
- `memory_printer.cpp` is not part of this model. `Sink` follows what its callers rely on: `necessary` keeps counting after ERANGE, and appends fail only on a hard error.
- Sink.MemoryPrinter.AppendValue: `memory_printer.cpp` is not part of this model, so its value append is assumed to work as follows. While OK, it formats at the end of the output with the remaining room. Once in ERANGE, it formats into no room. It adds the size the engine reports to `necessary`, records ERANGE, and stops on a hard error. Its contract holds for the corrected engine. With the engine as written, the sizes would be those of `Decoration.ReportAsWritten` (see "## Findings").
- Engine.PrintDigits: the corrected engine. As written, the source passes on the backend's digit count on ERANGE (the Findings row for line 235).
- Engine.PrintConverted: the corrected engine. As written, a window of size 0 gives EOVERFLOW before the backend runs, and an ERANGE carries the digit count (the Findings row for line 235).
- Engine.PrintFormattedInteger: the corrected engine. As written, `maxlen == 0` gives EOVERFLOW (line 302), and an ERANGE carries the digit count (the Findings row for line 235).
- Engine.PrintFormattedBool: the corrected text path. As written, the padding is not counted (the Findings row for lines 107-113), and an overflow gives EOVERFLOW with `maxlen` (the Findings row for line 235).
- Scanner.PrintPlaceholder: uses the corrected closer search and the corrected engine of "## Findings", not the source's behaviour on the inputs listed there.
- Scanner.PrintNext: the same corrected closer search and engine as `Scanner.PrintPlaceholder`.
- Scanner.PrintImpl: stated against `Render` and `Exec`, which use the corrected closer search and engine.
- SnPrint.SnPrint: stated for the corrected scanner and engine. As written, the length returned on ERANGE can fall short of the text's length (`Decoration.OverflowReportAsWritten`).
- SnPrint.FreshScan: stated for the corrected scanner and engine, like `SnPrint.SnPrint`.
- SnPrint.ReturnedLength: stated for the corrected engine. As written, the length on ERANGE is not always the text's length.
- SnPrint.RetrySucceeds: holds for the corrected engine. As written, a retry with the returned length can fail again (`Decoration.OverflowReportAsWritten`).
- The float overloads of `tmp_make_unsigned` and the float backends: floating point.
- The integer backends and the library calls in `scan_u32_n` (`std::from_chars`, `strtoul`): foreign code. The backend is the parameter `Backend`, and `scan_u32_n` is `Scan.ScanDecimal`.
- Preprocessor backend selection: build configuration.
- `src/tm_cli/test.cpp`: a demo driver with only I/O.
- `Scan.ScanDecimal`: reads an unbounded natural number. It does not model `scan_u32_n`'s behaviour on values above 32 bits (`from_chars` fails, `strtoul` saturates), nor the `(int)` cast of width and precision.
- `SpecParser.ParsePrintFormat`: width and precision are unbounded integers, for the same reason.
- `Decoration.MakeUnsigned`: the magnitude is the mathematical absolute value. The signed overflow of `-v` on the most negative value is not modelled as such; `Decoration.WrappedNegationIsMagnitude` shows that two's-complement wrap gives the same magnitude.
- `default_print_format()` and `PrintType::Last` are declared in headers outside this model. The default is assumed to be width 0, precision -1, base 10 and no flags, and `PrintTypeLast` is fixed at 16.
- The packed type-tag word is a sequence of per-argument tags. The flag sanitising at line 343 is the identity on a set of known flags.
- `Scanner.PrintImpl`: the read of `*p` at line 353 when `{` is the template's last byte is modelled as a byte that is not `{`. The scan then reports the missing `}`.
- `TM_ASSERT` checks are debug assertions. Where the engine relies on them, they are `requires` (the window fits the array, digits already in place).

## Findings

| source | as written | input that shows it | evidently intended | confidence | as-written member | corrected member |
|---|---|---|---|---|---|---|
| src/tm_print/implementation.cpp:107-113 | `spaces` is `format.width - width` with `width == format.width`, so it is always 0. The reported size and the overflow check ignore the padding that lines 119-129 write. | `true` with width 6: reported size 4, but 6 bytes are laid out, and the check lets a 4-byte buffer through. | Size and check count the padding. | high, not executed | `Decoration.TextSizeIgnoresPadding` | `Engine.PrintFormattedText` |
| src/tm_print/implementation.cpp:256-267 | The `memmove` of the digits runs before the `sizes.size > maxlen` check, so it can write past `maxlen`. | One digit, width 10, right-justified, 3-byte window: the move writes byte 9. | Check the size before moving, leaving the buffer untouched on ERANGE. | high, not executed | `Decoration.MoveOverrunsAsWritten` | `Engine.MoveAndDecorate` |
| src/tm_print/implementation.cpp:361 | The closing `}` is searched for from `format_first`, so a `}}` escape earlier in the same literal run is taken as the closer. | `a}}{}`: the closer is found at 1, before the `{` at 3, giving a negative specifier length. | Search from just after the `{`. | high, not executed | `Scanner.CloserAsWrittenExample` | `Scanner.CloserCorrectedExample` |
| src/tm_print/implementation.cpp:235 | When the backend runs out of room, its ERANGE is passed on with the digit count alone, not the decorated, padded size. Text that does not fit returns `{maxlen, TM_EOVERFLOW}` (line 114), and no room at all returns EOVERFLOW before the backend is consulted (line 302). | 12345 at width 8 in a 3-byte window: reported as needing 5 bytes. A retry with 5 bytes is reported as needing 8. `abc` in 2 bytes: EOVERFLOW, a hard error that ends the print. | Report the size the whole value needs, with ERANGE, so that `tm_snprint` returns the full length and a retry with it succeeds. | medium (`memory_printer.cpp`, which consumes these results, is not part of this model), not executed | `Decoration.OverflowReportAsWritten` | `Engine.PrintFormatted` |
| src/tm_print/implementation.cpp:163-168 | The decorated size adds 2 for hex/binary and 1 for octal independently, while the decoration writes only one prefix (hex, else binary, else octal). | An initial format with PrependHex and PrependOctal, one digit: size 4, 3 bytes written. | Count the prefix that is written. | low (the specifier parser never sets both; only a caller's initial format can), not executed | `Decoration.DecoratedSizeMismatch` | `Decoration.DecoratedSize` |
