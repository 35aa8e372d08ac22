/** The format dispatcher: a scan over the format string that copies ordinary characters
    and turns each directive `%[-][0...][width][.precision][l|ll]conversion` into the text
    of one argument, through the text padder and the integer renderer. */
module Printf {
  import opened CString
  import opened PrintString
  import opened PrintInteger

  datatype Option<T> = None | Some(value: T)

  /** One argument of the variable argument list: an integer (a `char` argument arrives
      as an `int`), or a string pointer, `None` being the null pointer. */
  datatype Arg = Int(value: int) | Str(text: Option<seq<char>>)

  /** The build: whether TINY_PRINTF_LONG_LONG is defined, and sizeof(void *). */
  datatype Config = Config(longLong: bool, pointerBytes: nat)

  // ---------------------------------------------------------------------------------------
  // Arguments

  /** `va_arg`: the next argument; a missing one reads as the integer zero. */
  function First(args: seq<Arg>): Arg {
    if |args| == 0 then Int(0) else args[0]
  }

  /** The arguments after the one `va_arg` consumes. */
  function Rest(args: seq<Arg>): (r: seq<Arg>)
    ensures |args| > 0 ==> r == args[1..]
  {
    if |args| == 0 then [] else args[1..]
  }

  /** An argument read as an integer; a string argument reads as zero. */
  function IntOf(a: Arg): int {
    match a
    case Int(v) => v
    case Str(_) => 0
  }

  /** An argument read as a string: the null pointer, or an integer, is printed as "(null)". */
  function StringOf(a: Arg): seq<char> {
    match a
    case Str(Some(t)) => t
    case _ => "(null)"
  }

  /** `(char)` of an `int`: its low eight bits, the byte congruent to `v` modulo 256. */
  function CharOf(v: int): (c: char)
    ensures c as int < 256
    ensures (c as int - v) % 256 == 0
  {
    var u := ToUnsigned(v, W32);
    LowByte(u, v);
    (u % 256) as char
  }

  /** Reduction modulo 2^32 keeps the low byte. */
  lemma LowByte(u: int, v: int)
    requires (u - v) % 0x1_0000_0000 == 0
    ensures (u % 256 - v) % 256 == 0
  {
    var k, q, r := (u - v) / 0x1_0000_0000, u / 256, u % 256;
    assert u - v == k * 0x1_0000_0000;
    assert u == q * 256 + r;
    var m := k * 0x100_0000 - q;
    assert r - v == m * 256;
    assert (m * 256) % 256 == 0;
  }

  // ---------------------------------------------------------------------------------------
  // Directive parsing

  predicate IsDigit(c: char) {
    '0' <= c <= '9'
  }

  /** What a parsing loop produced: a value, and the format where the loop stopped. */
  datatype Parsed = Parsed(value: nat, rest: seq<char>)

  /** The zero-flag loop: steps over the '0' characters. */
  function SkipZeros(f: seq<char>): (r: seq<char>)
    ensures |r| <= |f| && Head(r) != '0'
    decreases |f|
  {
    if Head(f) == '0' then SkipZeros(Next(f)) else f
  }

  /** A decimal accumulation loop (width or precision): `acc * 10 + digit` for each digit. */
  function Accumulate(f: seq<char>, acc: nat): (r: Parsed)
    ensures |r.rest| <= |f| && !IsDigit(Head(r.rest))
    decreases |f|
  {
    if IsDigit(Head(f)) then Accumulate(Next(f), acc * 10 + (Head(f) as int - '0' as int))
    else Parsed(acc, f)
  }

  /** The precision part: a '.' and the precision digits; without the '.' the precision is 4. */
  function ParsePrecision(f: seq<char>): (r: Parsed)
    ensures |r.rest| <= |f|
  {
    if Head(f) == '.' then Accumulate(Next(f), 0) else Parsed(4, f)
  }

  /** What the length part produced: whether "ll" was given, and the format after it. */
  datatype Length = Length(longLong: bool, rest: seq<char>)

  /** The length part: an "l" is stepped over, and a second "l" selects `long long`. */
  function ParseLength(f: seq<char>): (r: Length)
    ensures |r.rest| <= |f|
  {
    if Head(f) != 'l' then Length(false, f)
    else if Head(Next(f)) == 'l' then Length(true, Next(Next(f)))
    else Length(false, Next(f))
  }

  /** A parsed directive: the formatting options, width and precision, and the format from
      the conversion character on. */
  datatype Directive = Directive(options: Flags, width: nat, precision: nat, rest: seq<char>)

  /** The directive parser, from the character after '%': an optional '-', any number of
      '0's, the width digits, the precision part and the length part. */
  function ParseDirective(f: seq<char>): (d: Directive)
    ensures |d.rest| <= |f|
  {
    var padRight := Head(f) == '-';
    var f1 := if padRight then Next(f) else f;
    var w := Accumulate(SkipZeros(f1), 0);
    var p := ParsePrecision(w.rest);
    var l := ParseLength(p.rest);
    Directive(Flags(padRight, Head(f1) == '0', l.longLong), w.value, p.value, l.rest)
  }

  // ---------------------------------------------------------------------------------------
  // Conversions

  /** The integer type an integer conversion reads: `long long` for "ll" in a build with
      TINY_PRINTF_LONG_LONG, `int` otherwise. */
  function ArgWidth(cfg: Config, options: Flags): IntWidth {
    if cfg.longLong && options.longLong then W64 else W32
  }

  /** The text of an integer conversion with the parsed width and options. */
  function IntegerField(cfg: Config, d: Directive, a: Arg, b: int, sg: bool, letbase: char): seq<char>
    requires IsBase(b) && IsLetBase(letbase)
  {
    var w := ArgWidth(cfg, d.options);
    RenderInteger(ToSigned(IntOf(a), w), b, sg, d.width, d.options, letbase, w)
  }

  /** The text of %p: the argument read as an `int`, in upper-case hexadecimal, zero-padded
      to two digits per byte of a pointer. */
  function PointerField(cfg: Config, a: Arg): seq<char> {
    RenderInteger(ToSigned(IntOf(a), W32), 16, false, 2 * cfg.pointerBytes, Flags(false, true, false), 'A', W32)
  }

  /** The text a conversion emits and the arguments left after it. */
  datatype Converted = Converted(text: seq<char>, args: seq<Arg>)

  /** The conversion characters of the build without floating point. */
  predicate IsConversion(c: char) {
    c == 's' || c == 'd' || c == 'x' || c == 'X' || c == 'p' || c == 'u' || c == 'c'
  }

  /** The conversion routing: s, d, x, X, p, u and c each consume one argument; any other
      character emits nothing and consumes nothing. */
  function Convert(cfg: Config, d: Directive, c: char, args: seq<Arg>): (r: Converted)
    ensures IsConversion(c) ==> r.args == Rest(args)
    ensures !IsConversion(c) ==> r == Converted([], args)
  {
    var a := First(args);
    if c == 's' then Converted(Padded(StringOf(a), d.width, d.options), Rest(args))
    else if c == 'd' then Converted(IntegerField(cfg, d, a, 10, true, 'a'), Rest(args))
    else if c == 'x' then Converted(IntegerField(cfg, d, a, 16, false, 'a'), Rest(args))
    else if c == 'X' then Converted(IntegerField(cfg, d, a, 16, false, 'A'), Rest(args))
    else if c == 'p' then Converted(PointerField(cfg, a), Rest(args))
    else if c == 'u' then Converted(IntegerField(cfg, d, a, 10, false, 'a'), Rest(args))
    else if c == 'c' then Converted([CharOf(IntOf(a))], Rest(args))
    else Converted([], args)
  }

  // ---------------------------------------------------------------------------------------
  // The scan

  /** Which reading of a directive cut short by the terminator (as in "%5"): the code
      as written steps over the terminator and reads on; the corrected code stops. */
  datatype Build = AsWritten | Corrected

  /** The characters the scan delivers for the format `f` and the arguments `args`. */
  function Scan(cfg: Config, build: Build, f: seq<char>, args: seq<Arg>): seq<char>
    decreases |f|
  {
    if Head(f) == NUL then []
    else if f[0] != '%' then [f[0]] + Scan(cfg, build, f[1..], args)
    else
      var g := f[1..];
      if Head(g) == NUL then []
      else if g[0] == '%' then ['%'] + Scan(cfg, build, g[1..], args)
      else
        var d := ParseDirective(g);
        if Head(d.rest) == NUL then
          if build == Corrected then [] else Scan(cfg, build, Next(d.rest), args)
        else
          var r := Convert(cfg, d, d.rest[0], args);
          r.text + Scan(cfg, build, d.rest[1..], r.args)
  }

  /** The output of TinyPrintf. */
  function Format(cfg: Config, f: seq<char>, args: seq<Arg>): seq<char> {
    Scan(cfg, Corrected, f, args)
  }

  /** The output of TinyPrintf as written, reading on after a directive cut short by the
      terminator: it starts with the output of the corrected code, and the over-read can only
      add characters behind it. */
  function FormatAsWritten(cfg: Config, f: seq<char>, args: seq<Arg>): (r: seq<char>)
    ensures Format(cfg, f, args) <= r
  {
    CorrectedPrefix(cfg, f, args);
    Scan(cfg, AsWritten, f, args)
  }

  /** The corrected scan's output is a prefix of the scan as written. */
  lemma {:induction false} CorrectedPrefix(cfg: Config, f: seq<char>, args: seq<Arg>)
    ensures Scan(cfg, Corrected, f, args) <= Scan(cfg, AsWritten, f, args)
    decreases |f|
  {
    if Head(f) != NUL {
      if f[0] != '%' {
        CorrectedPrefix(cfg, f[1..], args);
        PrefixAfter([f[0]], Scan(cfg, Corrected, f[1..], args), Scan(cfg, AsWritten, f[1..], args));
      } else {
        var g := f[1..];
        if Head(g) != NUL {
          if g[0] == '%' {
            CorrectedPrefix(cfg, g[1..], args);
            PrefixAfter(['%'], Scan(cfg, Corrected, g[1..], args), Scan(cfg, AsWritten, g[1..], args));
          } else {
            var d := ParseDirective(g);
            if Head(d.rest) != NUL {
              var r := Convert(cfg, d, d.rest[0], args);
              CorrectedPrefix(cfg, d.rest[1..], r.args);
              PrefixAfter(r.text, Scan(cfg, Corrected, d.rest[1..], r.args), Scan(cfg, AsWritten, d.rest[1..], r.args));
            }
          }
        }
      }
    }
  }

  /** Putting the same text in front keeps a prefix a prefix. */
  lemma PrefixAfter(t: seq<char>, a: seq<char>, b: seq<char>)
    requires a <= b
    ensures t + a <= t + b
  {
    assert t + b == (t + a) + b[|a|..];
  }

  // ---------------------------------------------------------------------------------------
  // The dispatcher

  /** One directive of the scan: after "%" and a character that is neither the terminator
      nor '%', the directive is parsed and converted, or ends the scan when it runs into
      the terminator. */
  lemma ScanDirective(cfg: Config, f: seq<char>, args: seq<Arg>)
    requires Head(f) == '%' && Head(Next(f)) != NUL && Head(Next(f)) != '%'
    ensures var d := ParseDirective(Next(f));
      Scan(cfg, Corrected, f, args)
        == if Head(d.rest) == NUL then []
           else var r := Convert(cfg, d, d.rest[0], args);
             r.text + Scan(cfg, Corrected, d.rest[1..], r.args)
  {
  }

  /** One directive of the dispatcher's loop: the conversion of the directive parsed after
      the '%' at `start`, followed by the scan after its conversion character. */
  lemma DirectiveStep(cfg: Config, start: seq<char>, args: seq<Arg>, format: seq<char>,
                      text: seq<char>, rest: seq<Arg>)
    requires Head(start) == '%' && Head(Next(start)) != NUL && Head(Next(start)) != '%'
    requires ParseDirective(Next(start)).rest == format && Head(format) != NUL
    requires var d := ParseDirective(Next(start));
      Converted(text, rest) == Convert(cfg, Directive(d.options, d.width, d.precision, [format[0]]), format[0], args)
    ensures Scan(cfg, Corrected, start, args) == text + Scan(cfg, Corrected, format[1..], rest)
  {
    var d := ParseDirective(Next(start));
    ScanDirective(cfg, start, args);
    ConvertIgnoresRest(cfg, d, format[0], args, [format[0]]);
  }

  /** One ordinary character of the dispatcher's loop, or the '%' of "%%": it is delivered,
      and the scan goes on after it. */
  lemma CharStep(cfg: Config, f: seq<char>, args: seq<Arg>)
    requires Head(f) != NUL
    requires Head(f) == '%' ==> Head(Next(f)) == '%'
    ensures Head(f) != '%' ==> Scan(cfg, Corrected, f, args) == [Head(f)] + Scan(cfg, Corrected, Next(f), args)
    ensures Head(f) == '%' ==> Scan(cfg, Corrected, f, args) == ['%'] + Scan(cfg, Corrected, Next(Next(f)), args)
  {
  }

  lemma Appended(a: seq<char>, b: seq<char>, c: seq<char>)
    ensures a + b + c == a + (b + c)
  {
  }

  /** The parsing part of a directive, from the character after '%': the flag, width,
      precision and length loops, leaving `format` at the conversion character. */
  method ParseSpecification(format0: seq<char>)
    returns (options: Flags, width: nat, precision: nat, format: seq<char>)
    ensures Directive(options, width, precision, format) == ParseDirective(format0)
  {
    format := format0;
    width, options, precision := 0, NoFlags, 4;
    if Head(format) == '-' {
      format := Next(format);
      options := Flags(true, false, false);
    }
    ghost var f1 := format;
    while Head(format) == '0'
      invariant |format| <= |f1| && SkipZeros(format) == SkipZeros(f1)
      invariant options == Flags(Head(format0) == '-', options.padZero, false)
      invariant options.padZero ==> Head(f1) == '0'
      invariant !options.padZero ==> format == f1
      decreases |format|
    {
      format := Next(format);
      options := options.(padZero := true);
    }
    while IsDigit(Head(format))
      invariant Accumulate(format, width) == Accumulate(SkipZeros(f1), 0)
      decreases |format|
    {
      width := width * 10 + (Head(format) as int - '0' as int);
      format := Next(format);
    }
    if Head(format) == '.' {
      format := Next(format);
      ghost var f2 := format;
      precision := 0;
      while IsDigit(Head(format))
        invariant Accumulate(format, precision) == Accumulate(f2, 0)
        decreases |format|
      {
        precision := precision * 10 + (Head(format) as int - '0' as int);
        format := Next(format);
      }
    }
    if Head(format) == 'l' {
      format := Next(format);
      if Head(format) == 'l' {
        format := Next(format);
        options := options.(longLong := true);
      }
    }
  }

  /** The routing part of a directive: the conversion character `c` selects the renderer
      and the type the argument is read as; another character emits nothing and consumes
      no argument. */
  method ConvertArgument(cfg: Config, options: Flags, width: nat, precision: nat, c: char, args: seq<Arg>)
    returns (text: seq<char>, pc: int, rest: seq<Arg>)
    ensures Converted(text, rest) == Convert(cfg, Directive(options, width, precision, [c]), c, args)
    ensures pc == |text|
  {
    ghost var d := Directive(options, width, precision, [c]);
    var a := First(args);
    rest := Rest(args);
    if c == 's' {
      text, pc := TinyPrintString(StringOf(a), width, options);
    } else if c == 'd' {
      if cfg.longLong && options.longLong {
        text, pc := TinyPrintInteger(ToSigned(IntOf(a), W64), 10, true, width, options, 'a', W64);
      } else {
        text, pc := TinyPrintInteger(ToSigned(IntOf(a), W32), 10, true, width, options, 'a', W32);
      }
    } else if c == 'x' {
      if cfg.longLong && options.longLong {
        text, pc := TinyPrintInteger(ToSigned(IntOf(a), W64), 16, false, width, options, 'a', W64);
      } else {
        text, pc := TinyPrintInteger(ToSigned(IntOf(a), W32), 16, false, width, options, 'a', W32);
      }
    } else if c == 'X' {
      if cfg.longLong && options.longLong {
        text, pc := TinyPrintInteger(ToSigned(IntOf(a), W64), 16, false, width, options, 'A', W64);
      } else {
        text, pc := TinyPrintInteger(ToSigned(IntOf(a), W32), 16, false, width, options, 'A', W32);
      }
    } else if c == 'p' {
      text, pc := TinyPrintInteger(ToSigned(IntOf(a), W32), 16, false, 2 * cfg.pointerBytes,
                                   Flags(false, true, false), 'A', W32);
    } else if c == 'u' {
      if cfg.longLong && options.longLong {
        text, pc := TinyPrintInteger(ToSigned(IntOf(a), W64), 10, false, width, options, 'a', W64);
      } else {
        text, pc := TinyPrintInteger(ToSigned(IntOf(a), W32), 10, false, width, options, 'a', W32);
      }
    } else if c == 'c' {
      text, pc := [CharOf(IntOf(a))], 1;
    } else {
      text, pc, rest := [], 0, args;
    }
  }

  /** The conversion of a directive does not depend on where the format continues. */
  lemma ConvertIgnoresRest(cfg: Config, d: Directive, c: char, args: seq<Arg>, rest: seq<char>)
    ensures Convert(cfg, d, c, args) == Convert(cfg, d.(rest := rest), c, args)
  {
  }

  /** TinyPrintf: copies the format to the sink, turning each directive into the text of
      its argument, and counts the characters delivered. */
  method TinyPrintf(cfg: Config, format0: seq<char>, args0: seq<Arg>) returns (out: seq<char>, pc: int)
    ensures out == Format(cfg, format0, args0)
    ensures pc == |out|
  {
    var format, args := format0, args0;
    out, pc := [], 0;
    while Head(format) != NUL
      invariant out + Scan(cfg, Corrected, format, args) == Format(cfg, format0, args0)
      invariant pc == |out|
      decreases |format|
    {
      if Head(format) == '%' {
        ghost var start := format;
        format := Next(format);
        if Head(format) == NUL {
          break;
        }
        if Head(format) == '%' {
          // the `out` label: the second '%' is delivered as an ordinary character
          CharStep(cfg, start, args);
          Appended(out, ['%'], Scan(cfg, Corrected, Next(format), args));
          out := out + [Head(format)];
          pc := pc + 1;
          format := Next(format);
          continue;
        }
        var options, width, precision;
        options, width, precision, format := ParseSpecification(format);
        if Head(format) == NUL {
          // a directive cut short by the terminator ends the scan
          break;
        }
        var text, n, rest := ConvertArgument(cfg, options, width, precision, format[0], args);
        DirectiveStep(cfg, start, args, format, text, rest);
        Appended(out, text, Scan(cfg, Corrected, format[1..], rest));
        out, pc, args := out + text, pc + n, rest;
        format := Next(format);
      } else {
        CharStep(cfg, format, args);
        Appended(out, [Head(format)], Scan(cfg, Corrected, Next(format), args));
        out := out + [Head(format)];
        pc := pc + 1;
        format := Next(format);
      }
    }
  }

  // ---------------------------------------------------------------------------------------
  // What a directive's text means

  /** The text of a directive, without the '%' and the conversion character, that asks for
      the given options, width and precision (`None` leaves the precision out), followed
      by `rest`. */
  function DirectiveThen(options: Flags, width: nat, precision: Option<nat>, rest: seq<char>): seq<char> {
    (if options.padRight then "-" else "")
    + ((if options.padZero then "0" else "")
       + (Digits(width, 10, 'a')
          + ((match precision case None => "" case Some(p) => "." + Digits(p, 10, 'a'))
             + ((if options.longLong then "ll" else "") + rest))))
  }

  /** Decimal digits are digit characters. */
  lemma {:induction false} DecimalDigits(n: nat)
    ensures forall k :: 0 <= k < |Digits(n, 10, 'a')| ==> IsDigit(Digits(n, 10, 'a')[k])
    decreases n
  {
    if n > 0 {
      DigitStep(n, 10, 'a');
      DecimalDigits(Quot(n, 10));
    }
  }

  /** One step of the accumulation loop over a digit. */
  lemma AccumulateDigit(c: char, r: seq<char>, acc: nat)
    requires IsDigit(c)
    ensures Accumulate([c] + r, acc) == Accumulate(r, acc * 10 + DigitValue(c))
  {
    assert Head([c] + r) == c && Next([c] + r) == r;
  }

  /** A memory seen as its last character of `s` put in front of `r`. */
  lemma SplitLast(s: seq<char>, r: seq<char>)
    requires |s| > 0
    ensures s + r == s[..|s| - 1] + ([s[|s| - 1]] + r)
  {
    assert s == s[..|s| - 1] + [s[|s| - 1]];
  }

  /** The accumulation loop reads a run of digits as a decimal number. */
  lemma {:induction false} AccumulateRun(s: seq<char>, r: seq<char>)
    requires forall k :: 0 <= k < |s| ==> IsDigit(s[k])
    ensures Accumulate(s + r, 0) == Accumulate(r, ParseDigits(s, 10))
    decreases |s|
  {
    if |s| > 0 {
      var init, c := s[..|s| - 1], s[|s| - 1];
      AccumulateRun(init, [c] + r);
      SplitLast(s, r);
      AccumulateDigit(c, r, ParseDigits(init, 10));
    } else {
      assert s + r == r;
    }
  }

  /** The width or precision loop reads the decimal digits of `n` back as `n`. */
  lemma AccumulateDecimal(n: nat, r: seq<char>)
    requires !IsDigit(Head(r))
    ensures Accumulate(Digits(n, 10, 'a') + r, 0) == Parsed(n, r)
  {
    DecimalDigits(n);
    AccumulateRun(Digits(n, 10, 'a'), r);
    DigitsRoundTrip(n, 10, 'a');
  }

  /** The first character of the digits of `n` followed by `r`: not a '0', and a digit
      unless `n` is zero. */
  lemma HeadOfDecimal(n: nat, r: seq<char>)
    ensures Head(Digits(n, 10, 'a') + r) != '0' || (n == 0 && Head(r) == '0')
    ensures n > 0 ==> IsDigit(Head(Digits(n, 10, 'a') + r))
    ensures n == 0 ==> Digits(n, 10, 'a') + r == r
  {
    if n > 0 {
      DigitsNoLeadingZero(n, 10, 'a');
      DecimalDigits(n);
    }
  }

  /** The precision a directive asks for: 4 when it gives none. */
  function PrecisionOf(precision: Option<nat>): nat {
    match precision
    case None => 4
    case Some(p) => p
  }

  /** Whether a directive's text spells anything between the '%' and its last character. */
  predicate Spelled(options: Flags, width: nat, precision: Option<nat>) {
    options.padRight || options.padZero || width > 0 || precision.Some? || options.longLong
  }

  /** Whether `c` ends the directive spelled by the options, width and precision, rather than
      continuing it: after "ll" every character does; otherwise a digit, an 'l', a '.' with no
      precision before it, and a '-' right after the '%' continue the directive. */
  predicate EndsDirective(options: Flags, width: nat, precision: Option<nat>, c: char) {
    options.longLong
    || (!IsDigit(c) && c != 'l' && (precision.None? ==> c != '.')
        && (c == '-' ==> Spelled(options, width, precision)))
  }

  /** The length part reads "ll", or nothing, back. */
  lemma ParseLengthText(longLong: bool, rest: seq<char>)
    requires !longLong ==> Head(rest) != 'l'
    ensures ParseLength((if longLong then "ll" else "") + rest) == Length(longLong, rest)
  {
    if longLong {
      assert "ll" + rest == ['l'] + (['l'] + rest);
    } else {
      assert "" + rest == rest;
    }
  }

  /** The precision part reads ".digits", or nothing, back. */
  lemma ParsePrecisionText(precision: Option<nat>, rest: seq<char>)
    requires !IsDigit(Head(rest)) && (precision.None? ==> Head(rest) != '.')
    ensures var t := (match precision case None => "" case Some(p) => "." + Digits(p, 10, 'a')) + rest;
      ParsePrecision(t) == Parsed(PrecisionOf(precision), rest)
  {
    match precision {
      case None =>
        assert "" + rest == rest;
      case Some(p) =>
        var t := "." + Digits(p, 10, 'a') + rest;
        assert t == ['.'] + (Digits(p, 10, 'a') + rest);
        AccumulateDecimal(p, rest);
    }
  }

  /** The flag, zero, width and precision loops read their text back, and the length loop then
      runs on whatever follows: `lt` is the length part together with the rest of the format. */
  lemma ParseDirectivePrefix(options: Flags, width: nat, precision: Option<nat>, lt: seq<char>)
    requires !options.longLong
    requires !IsDigit(Head(lt)) && (precision.None? ==> Head(lt) != '.')
    requires Head(lt) == '-' ==> Spelled(options, width, precision)
    ensures var l := ParseLength(lt);
      ParseDirective(DirectiveThen(options, width, precision, lt))
        == Directive(options.(longLong := l.longLong), width, PrecisionOf(precision), l.rest)
  {
    var pt := (match precision case None => "" case Some(p) => "." + Digits(p, 10, 'a')) + lt;
    var wt := Digits(width, 10, 'a') + pt;
    var zt := (if options.padZero then "0" else "") + wt;
    var all := (if options.padRight then "-" else "") + zt;
    assert DirectiveThen(options, width, precision, lt) == all by {
      assert "" + lt == lt;
    }
    ParsePrecisionText(precision, lt);
    assert !IsDigit(Head(pt));
    assert Head(pt) == '-' ==> options.padRight || options.padZero || width > 0;
    HeadOfDecimal(width, pt);
    AccumulateDecimal(width, pt);
    assert Head(wt) != '0';
    assert Head(wt) == '-' ==> options.padRight || options.padZero;
    if options.padZero {
      assert zt == ['0'] + wt;
    } else {
      assert zt == wt;
    }
    assert SkipZeros(zt) == wt;
    if options.padRight {
      assert all == ['-'] + zt;
    } else {
      assert all == zt;
    }
    assert (Head(all) == '-') == options.padRight;
    assert (if Head(all) == '-' then Next(all) else all) == zt;
    assert (Head(zt) == '0') == options.padZero;
    assert Accumulate(SkipZeros(zt), 0) == Parsed(width, pt);
  }

  /** The directive parser reads the text of a directive back as the options, width,
      precision and length it asks for, and stops at the character that ends it. */
  lemma ParseDirectiveText(options: Flags, width: nat, precision: Option<nat>, rest: seq<char>)
    requires EndsDirective(options, width, precision, Head(rest))
    ensures ParseDirective(DirectiveThen(options, width, precision, rest))
         == Directive(options, width, PrecisionOf(precision), rest)
  {
    var o := options.(longLong := false);
    var lt := (if options.longLong then "ll" else "") + rest;
    assert DirectiveThen(options, width, precision, rest) == DirectiveThen(o, width, precision, lt) by {
      assert "" + lt == lt;
    }
    ParseLengthText(options.longLong, rest);
    ParseDirectivePrefix(o, width, precision, lt);
  }

  /** A directive that spells something starts with neither the terminator nor a '%'; one that
      spells nothing is just what follows it. */
  lemma DirectiveHead(options: Flags, width: nat, precision: Option<nat>, rest: seq<char>)
    ensures Spelled(options, width, precision) ==>
      var h := Head(DirectiveThen(options, width, precision, rest)); h != NUL && h != '%'
    ensures !Spelled(options, width, precision) ==> DirectiveThen(options, width, precision, rest) == rest
  {
    var lt := (if options.longLong then "ll" else "") + rest;
    var pt := (match precision case None => "" case Some(p) => "." + Digits(p, 10, 'a')) + lt;
    HeadOfDecimal(width, pt);
    if !Spelled(options, width, precision) {
      assert DirectiveThen(options, width, precision, rest) == "" + ("" + ("" + ("" + ("" + rest))));
    }
  }
}
