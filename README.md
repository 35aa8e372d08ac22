# tiny_printf in Dafny

A model of tiny_printf, a small `printf` for embedded targets, with the properties of its
output proved. The model covers four parts:

- the text padder `TinyPrintString`;
- the integer renderer `TINY_PRINT_INTEGER`, in both its `int` instance (`TinyPrintInteger`)
  and its `long long` instance, as one method with a bit-width parameter;
- the format dispatcher `TinyPrintf`;
- the bounded-buffer sink `TinySNPrintChar` / `TinySNprintf`.

The C code works by stepping pointers and counters, so each C function becomes a `method` with
the same loops. Those loops are proved against a specification function: `Padded`,
`RenderInteger`, `Format`, `Filled`. Lemmas then state what the specification functions
promise.

The modelling choices:

- **Sink.** The `printchar` sink is the sequence of characters delivered. Every printing method
  returns that sequence together with the C return value `pc`, and proves that `pc` is the
  sequence's length.
- **Strings.** A `char *` is the memory from the pointer on, as a `seq<char>`. Reading past the
  end of the sequence yields the terminator (`CString.Head`, `CString.At`).
- **Arguments.** The `va_list` is a sequence of `Printf.Arg` values, consumed from the left.
- **Build switches.** `TINY_PRINTF_LONG_LONG` and `sizeof(void *)` are the fields of
  `Printf.Config`. The floating-point build is not modelled, so `%f` is an unknown conversion.
- **The buffer sink.** It is the class `SNPrintf.SNPrintCharContext` over the caller's
  `array<char>`. The C write pointer becomes the fields `buf` and `cursor`, and the C `length`
  field stays a counter.

Files and modules:

| file | module | contents |
|---|---|---|
| cstring.dfy | CString | NUL-terminated memory: `Head`, `Next`, `Len`, `Visible` |
| print_string.dfy | PrintString | the formatting flags, `Padded`, `TinyPrintString` |
| print_integer.dfy | PrintInteger | widths and conversions, `Digits`, `IntText`, `RenderInteger`, `TinyPrintInteger`, the integer tail of the float renderer |
| printf.dfy | Printf | arguments, the directive parser, the conversion routing, `Scan`/`Format`, `TinyPrintf` |
| printf_properties.dfy | PrintfProperties | what whole formats print |
| printf_terminator.dfy | PrintfTerminator | how far the dispatcher reads its format, as written and corrected |
| snprintf.dfy | SNPrintf | the context class, `TinySNprintf`, the sink as written |

## Model

| member | source | states |
|---|---|---|
| CString.Len | tiny_printf.c:64-68 | the string length is the offset of the first NUL: no NUL before it, a NUL at it or the memory ends there |
| PrintString.StringLength | tiny_printf.c:63-68 | the measuring loop returns the length of the string up to its terminator |
| PrintString.PadLoop | tiny_printf.c:80-95 | a padding loop emits max(width, 0) pad characters, counts each, and leaves width at 0 or at its non-positive value |
| PrintString.CopyLoop | tiny_printf.c:87-90 | the copying loop emits exactly the characters before the terminator, counting each |
| PrintString.TinyPrintString | tiny_printf.c:49-98 | the output is the padded field `Padded(str, width, options)`, and the return value is its length |
| PrintString.PaddedLayout | tiny_printf.c:61-97 | the field has length len + max(0, width − len) and exactly `width` characters when the width exceeds the text; the text is unchanged at the end (or at the start when padding right); every other character is the pad character ('0' exactly for zero padding, else space) |
| PrintInteger.ToUnsigned | tiny_printf.c:133 | `unsigned u = i` yields the value below 2^bits that is congruent to i modulo 2^bits |
| PrintInteger.ToSigned | tiny_printf.c:317 | `va_arg(args, int)` yields a value of the signed type that is congruent to the argument modulo 2^bits |
| PrintInteger.SignedIdentity | tiny_printf.c:317 | a value already in the signed type is read unchanged |
| PrintInteger.Digits | tiny_printf.c:149-156 | the digit string is empty exactly when the value is 0 |
| PrintInteger.DigitCharValue | tiny_printf.c:150-154 | the character for digit value t (a letter from `letbase` for 10 and more) reads back as t, and it is '0' only for t = 0 |
| PrintInteger.DigitsRoundTrip | tiny_printf.c:149-156 | the digits spell u in base b, most significant first: reading them back gives u |
| PrintInteger.DigitsNoLeadingZero | tiny_printf.c:149-156 | the digits of a non-zero value do not start with '0' |
| PrintInteger.DigitsPlain | tiny_printf.c:149-156 | digits contain neither a terminator nor a '-' |
| PrintInteger.DigitsLength | tiny_printf.c:149-156 | a value below b^n has at most n digits |
| PrintInteger.MagnitudeExact | tiny_printf.c:141-144 | the magnitude is exactly −i for a negative signed decimal (INT_MIN included), and otherwise i read as unsigned (i + 2^bits for negative i) |
| PrintInteger.TextFitsBuffer | tiny_printf.c:146-165 | sign and digits take at most 11 (`int`) or 20 (`long long`) bytes, so they fit the buffer with room for the terminator |
| PrintInteger.WriteDigits | tiny_printf.c:146-156 | the loop leaves the digits of u followed by the terminator in the last bytes of the buffer, and returns the index of the first digit, leaving every byte before that index as it was |
| PrintInteger.PutSign | tiny_printf.c:165-166 | the `*--s = '-'` store puts the sign right in front of the digits and terminator, moves the start back by one, and leaves every byte before it as it was |
| PrintInteger.ZeroBuffer | tiny_printf.c:135-138 | the buffer "0" followed by the terminator is printed as the zero conversion |
| PrintInteger.BufferField | tiny_printf.c:158-169 | the sign-first output followed by the padded buffer is the whole conversion |
| PrintInteger.TinyPrintInteger | tiny_printf.c:111-178 | the output of both instances is `RenderInteger` of the value, and the return value is its length |
| PrintInteger.IntTextCanonical | tiny_printf.c:135-156 | the text is "0" for zero; otherwise it starts with '-' exactly for a negative signed decimal, followed by at least one digit and no leading zero |
| PrintInteger.RenderIntegerField | tiny_printf.c:135-169 | zero renders as the padded "0" in every base and signedness; a width not above the text gives the text alone; a larger width gives exactly `width` characters |
| PrintInteger.SignPlacement | tiny_printf.c:158-169 | for a negative value with zero padding and a width, the '-' comes first and the zeros follow it; with `-0` the zeros follow the digits (the `%-0Nd` quirk); with space padding the spaces come before the '-' or after the digits |
| PrintInteger.SignedRoundTrip | tiny_printf.c:135-169 | reading a signed decimal's text back as a signed decimal gives the value, for every value of the type |
| PrintInteger.UnsignedRoundTrip | tiny_printf.c:133 | an unsigned conversion prints the value read as unsigned (`i mod 2^bits`) |
| PrintInteger.IntMinText | tiny_printf.c:141-144 | the most negative `int` prints as "-2147483648" |
| PrintInteger.UnsignedArgument | tiny_printf.c:224 | an `unsigned int` passed where the template takes an `int` prints as the unsigned value |
| PrintInteger.ZeroPaddedField | tiny_printf.c:233 | the fractional part is printed as exactly `precision − digit count` '0's (none when the digits are longer) followed by its digits; it reads back as its value and has max(precision, digit count) characters |
| PrintInteger.PrintFixedPoint | tiny_printf.c:222-236 | the integer tail of the float renderer: the integer part's digits, then, for a non-zero precision, '.' and the fraction field: exactly `precision − digit count` '0's (none when the digits are longer) followed by the fraction's digits, reading back as the fraction |
| Printf.CharOf | tiny_printf.c:358 | `(char)` yields the byte below 256 that is congruent to the argument modulo 256, its low eight bits |
| Printf.SkipZeros | tiny_printf.c:283-286 | the zero-flag loop stops at a character that is not '0', and what is left is no longer than the format |
| Printf.Accumulate | tiny_printf.c:287-290 | the width loop stops at a non-digit, and what is left is no longer than the format |
| Printf.ParsePrecision | tiny_printf.c:291-298 | what is left after the precision part is no longer than the format |
| Printf.ParseLength | tiny_printf.c:299-305 | what is left after the length part is no longer than the format |
| Printf.ParseDirective | tiny_printf.c:279-305 | what is left after the directive is no longer than the format |
| Printf.Convert | tiny_printf.c:306-361 | each of s, d, x, X, p, u and c consumes one argument; any other character emits nothing and consumes none |
| Printf.ParseSpecification | tiny_printf.c:279-305 | the flag, zero, width, precision and length loops compute the directive `ParseDirective` finds, stopping at the conversion character |
| Printf.ConvertArgument | tiny_printf.c:306-361 | the routing picks the renderer and the argument type (`long long` only for "ll" in a build with TINY_PRINTF_LONG_LONG) as `Convert` does, and counts the characters |
| Printf.FormatAsWritten | tiny_printf.c:267-368 | the output of the scan as written, which steps over a terminator that cuts a directive short; it starts with the corrected output, so the over-read only adds characters after it |
| Printf.CorrectedPrefix | tiny_printf.c:267-368 | the corrected scan's output is a prefix of the scan as written, for every format and argument list |
| Printf.TinyPrintf | tiny_printf.c:254-371 | the output is `Format` of the format and the arguments, and the return value is the number of characters delivered |
| Printf.AccumulateRun | tiny_printf.c:287-290 | the accumulation loop reads a run of digits as their decimal value |
| Printf.AccumulateDecimal | tiny_printf.c:287-297 | the width or precision loop reads the decimal text of n back as n and stops behind it |
| Printf.ParseLengthText | tiny_printf.c:299-305 | "ll" sets the long-long flag and nothing sets it otherwise; after "ll" the parser stops whatever follows, an 'l' included |
| Printf.ParsePrecisionText | tiny_printf.c:291-298 | ".p" gives precision p, and no '.' gives the default 4, whatever non-digit follows |
| Printf.ParseDirectivePrefix | tiny_printf.c:279-305 | after the flags, width and precision a directive spells, the parser hands what is left to the length step, even when that begins with '-' (a flag only at the very start) |
| Printf.ParseDirectiveText | tiny_printf.c:279-305 | the parser recovers every flag combination, width, precision and length from the directive text that spells them, whatever character that ends the directive follows it (EndsDirective: a digit, 'l' or '.' continues it only where the code reads one, and '-' only at its start) |
| PrintfProperties.LiteralCopy | tiny_printf.c:364-366 | a format without '%' and terminator is printed unchanged |
| PrintfProperties.PercentPercent | tiny_printf.c:276-278 | "%%" emits one '%' and consumes no argument |
| PrintfProperties.TrailingPercent | tiny_printf.c:273-275 | a '%' right before the terminator ends the scan with no output |
| PrintfProperties.FormatDirective | tiny_printf.c:267-361 | a directive with any flags, width, precision and length, ended by any character that ends it as spelled (a digit, 'l', '.' or '-' too where the code no longer reads one; '%' only after something is spelled, since "%%" is the literal percent), prints that character's conversion (of the next argument for s, d, x, X, p, u and c), and the scan goes on after it with the arguments the conversion leaves |
| PrintfProperties.NullString | tiny_printf.c:306-309 | %s of the null pointer prints "(null)" padded with the directive's width and flags |
| PrintfProperties.PointerIgnoresDirective | tiny_printf.c:338-341 | %p prints the same text whatever its flags, width and precision: upper-case hex zero-padded to 2·sizeof(void *) digits at least |
| PrintfProperties.CharIgnoresWidth | tiny_printf.c:357-361 | %c prints exactly one character, the low byte of the argument, whatever the width |
| PrintfProperties.SignedDecimal | tiny_printf.c:311-319 | %d prints the signed decimal text of an `int`, which reads back as the argument |
| PrintfProperties.SingleLength | tiny_printf.c:299-305 | a single 'l' after any flags, width and precision has no effect: "%5ld" prints as "%5d" |
| PrintfProperties.LongLongWithoutSupport | tiny_printf.c:311-319 | without TINY_PRINTF_LONG_LONG, "%ll" followed by a conversion prints as "%" followed by it |
| PrintfProperties.UnknownConversion | tiny_printf.c:306-362 | an unknown conversion character, after any flags, width, precision and length, emits nothing, consumes no argument, and is stepped over; this covers "%5q", and also stray endings such as the '%' of "%5%" and the digit of "%ll5" |
| PrintfProperties.StrayEndings | tiny_printf.c:279-362 | "%5%" followed by f prints as f, and so does "%ll5" followed by f: the character ending the directive is swallowed |
| PrintfProperties.ZeroRun | tiny_printf.c:283-286 | any number of '0's, after the optional '-', set the zero flag exactly as one '0' does: "%0005d" prints as "%05d" |
| PrintfProperties.DashAfterZero | tiny_printf.c:279-286 | a '-' after '0' is no flag: "%0-" ends a directive as an unknown conversion, so "%0-5d" prints "5d" |
| PrintfTerminator.ScanSame | tiny_printf.c:267-368 | the corrected scan prints the same for two memories that hold the same string |
| PrintfTerminator.FormatOfVisible | tiny_printf.c:267-368 | the output depends only on the format up to its terminator |
| PrintfTerminator.FormatStopsAtTerminator | tiny_printf.c:267-368 | whatever memory follows the terminator, the corrected TinyPrintf prints what the text before it prints |
| PrintfTerminator.ParseDirectiveWithoutNul | tiny_printf.c:279-305 | in a format without a terminator inside, a directive never stops at a terminator |
| PrintfTerminator.AsWrittenAgrees | tiny_printf.c:267-368 | when the format's only terminator is its end, the scan as written prints what the corrected scan prints |
| PrintfTerminator.OverRead | tiny_printf.c:267-305 | as written, "%5" followed in memory by "X" prints "X": the scan steps over the terminator; the corrected scan prints nothing |
| SNPrintf.SNPrintCharContext.constructor | tiny_printf.c:440-443 | the write position starts at the buffer, and one byte of `length` is held back for the terminator |
| SNPrintf.SNPrintCharContext.PutChar | tiny_printf.c:386-404 | while bytes are left, the character is stored at the write position, the position advances and one byte is counted off; otherwise nothing changes |
| SNPrintf.TinySNprintf | tiny_printf.c:422-456 | returns the full count of the output, and leaves in the buffer the output cut to length − 1 characters with a terminator after it, changing nothing else; a buffer of no bytes stays unchanged |
| SNPrintf.FilledWithinBounds | tiny_printf.c:396-403 | nothing at or past offset `length` is written, and a buffer of no bytes is not written at all |
| SNPrintf.FilledString | tiny_printf.c:410-420 | for output without NUL, the buffer holds the C string of the first min(N, length − 1) output characters, N being the returned count |
| SNPrintf.FilledComplete | tiny_printf.c:410-420 | the whole output reaches the buffer exactly when it is shorter than the buffer |
| SNPrintf.TruncatedHello | tiny_printf.c:410-420 | "hello world" into five bytes returns 11, and the buffer starts with "hell" and the terminator |
| SNPrintf.PutCharAsWritten | tiny_printf.c:386-404 | TinySNPrintChar with its `!= 0` test: a character is stored exactly when the count left is not zero, and each store moves one byte from the count left to the count stored |
| SNPrintf.EmitAsWritten | tiny_printf.c:386-404 | the dispatcher's sink calls for n characters: at most n bytes are stored, and the sum of the two counts is kept |
| SNPrintf.StoresAsWritten | tiny_printf.c:441-453 | the bytes TinySNprintf as written stores for n output characters, with the reserved byte freed by `length++` and the final NUL store: at most n + 1 |
| SNPrintf.StoresAsWrittenFit | tiny_printf.c:441-453 | as written, a buffer of at least one byte receives the kept characters and the terminator, as many bytes as the corrected sink stores, and at most `length` of them |
| SNPrintf.ZeroLengthOverrun | tiny_printf.c:396-451 | as written, a buffer of no bytes receives n + 1 bytes for any output of n ≥ 1 characters |
| SNPrintf.NegativeLengthOverrun | tiny_printf.c:396-451 | as written, a negative `length` makes the buffer receive n + 1 bytes for every output of n characters, the empty one included |

Proof steps carry no row: `Printf.Rest` (the arguments after the one `va_arg` takes),
`PrintInteger.BufferPlan` (the text of a non-zero value fits the buffer), `PrintInteger.StoreDigit` and `PrintInteger.DigitsAhead`
(one store into the digit buffer), `Printf.PrefixAfter` (a prefix stays a prefix behind the same text),
`PrintInteger.DigitStep` (one step of the digit loop),
`Printf.ScanDirective`, `PrintfProperties.ScanOfDirective`, `Printf.DirectiveStep` and `Printf.CharStep` (one step of the scan),
`Printf.DirectiveHead` (the first character of a spelled directive is neither NUL nor '%'),
`Printf.Appended` (sequence associativity), `Printf.ConvertIgnoresRest` (a conversion does not
read the format after its character), `Printf.LowByte` (the arithmetic behind `CharOf`),
`PrintfProperties.SkipZerosRun` (the zero-flag loop over a run of '0's), and `SNPrintf.StoreNext`
and `SNPrintf.StoreTerminator` (one store into the buffer).

## Left out

- Floating point: `TINY_PRINT_FLOAT` and `TinyPrintFloat` are not part of this model (their
  rounding and float-to-unsigned casts). Only the integer tail is modelled
  (`PrintInteger.PrintFixedPoint`), with the integer and fractional parts taken as given
  `unsigned int` values, and `%f` is treated as the build without TINY_PRINTF_FLOAT treats it.
- `va_list`/`va_arg`: a missing argument reads as the integer 0, an argument of the other kind
  reads as 0 or as the null string, and a `char` argument arrives as an `int`. Type mismatches
  are undefined behaviour in C, and these defaults stand in for them.
- The `%s` argument read with `va_arg(args, int)` and cast to a pointer (tiny_printf.c:307)
  works only where pointers and `int` have the same size. The model passes the string itself.
- The sink function pointer `printchar_t` and its context: the dispatcher's output is the
  sequence of characters delivered. `SNPrintf.TinySNprintf` computes that sequence first and
  then feeds it to `PutChar` character by character. The sink returns nothing to the dispatcher,
  so the final buffer is the same as with interleaved calls as long as the dispatcher never reads
  a byte the sink has stored, which the model assumes (next line).
- SNPrintf.TinySNprintf: the model assumes that the caller's buffer overlaps neither the format
  nor any `%s` string. The C function takes its pointers without `restrict`, so an overlapping
  call is defined C. There the dispatcher reads bytes that `TinySNPrintChar` has just stored
  (tiny_printf.c:87-88 and 398): `TinySNprintf(buf, 8, "x%s", buf)` with `buf` holding "ab" copies
  its own output and reads on past the buffer. The model's `%s` text is fixed before any store,
  so it does not capture this aliasing.
- `tiny_printf.h` is not part of this model. It holds declarations only.
- Integer overflow of the `width` and `precision` accumulation (tiny_printf.c:287-297) and of the
  `pc` counters: width, precision and counts are unbounded integers.
- PrintInteger.TinyPrintInteger: the `-i` of the template (tiny_printf.c:143) is modelled as the
  negation in the unsigned type, which is what the code computes for INT_MIN on a
  two's-complement target. The C signed negation of INT_MIN is itself undefined.
- `CString` strings are sequences of `char` with no character set. `(char)` of a %c argument is
  modelled as its low eight bits, with no sign.
- Some C functions are split into helper methods that keep the C loops in the same order:
  `TinyPrintString` into `StringLength`, `PadLoop` and `CopyLoop`; the template's digit loop into
  `WriteDigits`; `TinyPrintf`'s directive into `ParseSpecification` and `ConvertArgument`.

## Findings

Both rows are about memory outside the caller's string or buffer. An `snprintf` with size zero
writes nothing (section 7.19.6.5 of ISO/IEC 9899:1999), but this code writes past the buffer.
The as-written members model the code as it stands. The rest of the model uses the corrected
behaviour.

| source | as written | input that shows it | evidently intended | confidence | as-written member | corrected member |
|---|---|---|---|---|---|---|
| tiny_printf.c:267-305 | a directive that runs into the terminator (as in "%5") matches no conversion, and the loop's `++format` steps over the terminator, so the scan reads the memory after the string | the format "%5" followed in memory by "X" prints "X" | stop at the terminator, as a '%' at the end already does (tiny_printf.c:273-275) | not executed | PrintfTerminator.OverRead | PrintfTerminator.FormatStopsAtTerminator |
| tiny_printf.c:396 | with `length <= 0` the reserved count starts at −1 or below, and the `!= 0` test lets every character through, past the buffer | `TinySNprintf(buf, 0, "a")` stores 2 bytes into a buffer of 0; with `length == -1` even the empty format stores its NUL | nothing written when the size is zero, as in section 7.19.6.5 of ISO/IEC 9899:1999 (test `> 0`), and likewise for a negative size | not executed | SNPrintf.ZeroLengthOverrun | SNPrintf.FilledWithinBounds |
