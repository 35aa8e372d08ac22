/** What the dispatcher promises about whole format strings: ordinary characters are
    copied, "%%" is a '%', each directive turns into the text of its conversion, and the
    inherited quirks of the directive syntax. */
module PrintfProperties {
  import opened CString
  import opened PrintString
  import opened PrintInteger
  import opened Printf

  /** A format without directives and terminators is copied unchanged. */
  lemma {:induction false} LiteralCopy(cfg: Config, f: seq<char>, args: seq<Arg>)
    requires NUL !in f && '%' !in f
    ensures Format(cfg, f, args) == f
    decreases |f|
  {
    if |f| > 0 {
      assert f[0] in f;
      assert NUL !in f[1..] && '%' !in f[1..] by {
        forall k | 0 <= k < |f[1..]|
          ensures f[1..][k] != NUL && f[1..][k] != '%'
        {
          assert f[1..][k] == f[k + 1];
        }
      }
      LiteralCopy(cfg, f[1..], args);
      assert f == [f[0]] + f[1..];
    }
  }

  /** "%%" delivers one '%' and consumes no argument. */
  lemma PercentPercent(cfg: Config, f: seq<char>, args: seq<Arg>)
    ensures Format(cfg, "%%" + f, args) == "%" + Format(cfg, f, args)
  {
    assert ("%%" + f)[1..] == "%" + f;
    assert ("%" + f)[1..] == f;
  }

  /** A '%' right before the terminator ends the scan with no output. */
  lemma TrailingPercent(cfg: Config, f: seq<char>, args: seq<Arg>)
    requires Head(f) == '%' && Head(Next(f)) == NUL
    ensures Format(cfg, f, args) == []
    ensures FormatAsWritten(cfg, f, args) == []
  {
  }

  /** A directive: the text "%", the directive's flags, width, precision and length, and a
      character that ends it, is delivered as that character's conversion, and the scan
      goes on with the arguments the conversion leaves. A '%' ends a directive that spells
      something; right after the '%' it is the "%%" of PercentPercent. */
  lemma FormatDirective(cfg: Config, options: Flags, width: nat, precision: Option<nat>, c: char,
                        f: seq<char>, args: seq<Arg>)
    requires c != NUL && EndsDirective(options, width, precision, c)
    requires c == '%' ==> Spelled(options, width, precision)
    ensures var r := Convert(cfg, Directive(options, width, PrecisionOf(precision), [c]), c, args);
      Format(cfg, "%" + DirectiveThen(options, width, precision, [c] + f), args) == r.text + Format(cfg, f, r.args)
  {
    var t := DirectiveThen(options, width, precision, [c] + f);
    assert Head([c] + f) == c;
    DirectiveHead(options, width, precision, [c] + f);
    ParseDirectiveText(options, width, precision, [c] + f);
    ScanOfDirective(cfg, t, c, f, args);
  }

  /** The scan of "%" followed by a directive's text that the parser ends at `c`. */
  lemma ScanOfDirective(cfg: Config, t: seq<char>, c: char, f: seq<char>, args: seq<Arg>)
    requires Head(t) != NUL && Head(t) != '%' && c != NUL
    requires ParseDirective(t).rest == [c] + f
    ensures var d := ParseDirective(t);
      var r := Convert(cfg, Directive(d.options, d.width, d.precision, [c]), c, args);
      Format(cfg, "%" + t, args) == r.text + Format(cfg, f, r.args)
  {
    var g := "%" + t;
    assert Next(g) == t;
    ScanDirective(cfg, g, args);
    var d := ParseDirective(t);
    assert Head(d.rest) == c && d.rest[1..] == f;
    ConvertIgnoresRest(cfg, d, c, args, [c]);
  }

  /** %s of the null pointer prints "(null)" with the directive's width and flags. */
  lemma NullString(cfg: Config, options: Flags, width: nat, precision: Option<nat>, f: seq<char>, args: seq<Arg>)
    ensures Format(cfg, "%" + DirectiveThen(options, width, precision, "s" + f), [Str(None)] + args)
         == Padded("(null)", width, options) + Format(cfg, f, args)
  {
    FormatDirective(cfg, options, width, precision, 's', f, [Str(None)] + args);
    assert Rest([Str(None)] + args) == args;
  }

  /** %p takes neither the directive's width nor its flags: every %p directive delivers the
      argument as eight (for four-byte pointers) or more upper-case hexadecimal digits. */
  lemma PointerIgnoresDirective(cfg: Config, options: Flags, width: nat, precision: Option<nat>,
                                f: seq<char>, args: seq<Arg>)
    ensures Format(cfg, "%" + DirectiveThen(options, width, precision, "p" + f), args)
         == PointerField(cfg, First(args)) + Format(cfg, f, Rest(args))
    ensures |PointerField(cfg, First(args))| >= 2 * cfg.pointerBytes
  {
    FormatDirective(cfg, options, width, precision, 'p', f, args);
    RenderIntegerField(ToSigned(IntOf(First(args)), W32), 16, false, 2 * cfg.pointerBytes,
                       Flags(false, true, false), 'A', W32);
  }

  /** %c delivers exactly one character, the low byte of the argument, whatever the width. */
  lemma CharIgnoresWidth(cfg: Config, options: Flags, width: nat, precision: Option<nat>,
                         f: seq<char>, args: seq<Arg>)
    ensures Format(cfg, "%" + DirectiveThen(options, width, precision, "c" + f), args)
         == [CharOf(IntOf(First(args)))] + Format(cfg, f, Rest(args))
  {
    FormatDirective(cfg, options, width, precision, 'c', f, args);
  }

  /** %d prints an `int` argument as its signed decimal text: read back, it is the argument. */
  lemma SignedDecimal(cfg: Config, v: int, f: seq<char>, args: seq<Arg>)
    requires InRange(v, W32)
    ensures var t := IntText(v, 10, true, 'a', W32);
      && Format(cfg, "%d" + f, [Int(v)] + args) == t + Format(cfg, f, args)
      && ParseSigned(t) == v
  {
    var d := Directive(NoFlags, 0, 4, "d");
    assert DirectiveThen(NoFlags, 0, None, "d" + f) == "d" + f;
    FormatDirective(cfg, NoFlags, 0, None, 'd', f, [Int(v)] + args);
    assert Rest([Int(v)] + args) == args;
    assert Convert(cfg, d, 'd', [Int(v)] + args).text == RenderInteger(v, 10, true, 0, NoFlags, 'a', W32) by {
      SignedIdentity(v, W32);
    }
    RenderIntegerField(v, 10, true, 0, NoFlags, 'a', W32);
    SignedRoundTrip(v, W32);
  }

  /** A single 'l' is stepped over with no effect, after any flags, width and precision:
      "%5ld" prints as "%5d", and so for every character that ends the directive. */
  lemma SingleLength(cfg: Config, options: Flags, width: nat, precision: Option<nat>, c: char,
                     f: seq<char>, args: seq<Arg>)
    requires !options.longLong && c != NUL && EndsDirective(options, width, precision, c)
    requires c == '%' ==> Spelled(options, width, precision)
    ensures Format(cfg, "%" + DirectiveThen(options, width, precision, ['l', c] + f), args)
         == Format(cfg, "%" + DirectiveThen(options, width, precision, [c] + f), args)
  {
    var lt := ['l', c] + f;
    var t1, t2 := DirectiveThen(options, width, precision, lt), DirectiveThen(options, width, precision, [c] + f);
    assert Head(lt) == 'l' && Next(lt) == [c] + f && Head([c] + f) == c;
    ParseDirectivePrefix(options, width, precision, lt);
    ParseDirectiveText(options, width, precision, [c] + f);
    assert ParseDirective(t1) == ParseDirective(t2);
    DirectiveHead(options, width, precision, lt);
    DirectiveHead(options, width, precision, [c] + f);
    assert Next("%" + t1) == t1 && Next("%" + t2) == t2;
    ScanDirective(cfg, "%" + t1, args);
    ScanDirective(cfg, "%" + t2, args);
  }

  /** In a build without TINY_PRINTF_LONG_LONG, "ll" is parsed but the argument is still
      read as an `int`: "%lld" is "%d". */
  lemma LongLongWithoutSupport(cfg: Config, c: char, f: seq<char>, args: seq<Arg>)
    requires !cfg.longLong && IsConversion(c)
    ensures Format(cfg, "%ll" + [c] + f, args) == Format(cfg, "%" + [c] + f, args)
  {
    var ll := Flags(false, false, true);
    assert "%ll" + [c] + f == "%" + DirectiveThen(ll, 0, None, [c] + f);
    assert "%" + [c] + f == "%" + DirectiveThen(NoFlags, 0, None, [c] + f);
    FormatDirective(cfg, ll, 0, None, c, f, args);
    FormatDirective(cfg, NoFlags, 0, None, c, f, args);
  }

  /** A character that ends a directive and is no conversion character emits nothing and
      consumes no argument, whatever the directive's flags, width, precision and length: "%5q",
      "%5%x" and "%ll5d" print "", "x" and "d". */
  lemma UnknownConversion(cfg: Config, options: Flags, width: nat, precision: Option<nat>, c: char,
                          f: seq<char>, args: seq<Arg>)
    requires c != NUL && !IsConversion(c) && EndsDirective(options, width, precision, c)
    requires c == '%' ==> Spelled(options, width, precision)
    ensures Format(cfg, "%" + DirectiveThen(options, width, precision, [c] + f), args) == Format(cfg, f, args)
  {
    FormatDirective(cfg, options, width, precision, c, f, args);
  }

  /** Characters that continue some directives end others: "%5%" and "%ll5" are unknown
      conversions, so "%5%x" prints "x" and "%ll5d" prints "d". */
  lemma StrayEndings(cfg: Config, f: seq<char>, args: seq<Arg>)
    ensures Format(cfg, "%5%" + f, args) == Format(cfg, f, args)
    ensures Format(cfg, "%ll5" + f, args) == Format(cfg, f, args)
  {
    assert Digits(5, 10, 'a') == "5" by {
      DigitStep(5, 10, 'a');
    }
    assert "%5%" + f == "%" + DirectiveThen(Flags(false, false, false), 5, None, ['%'] + f);
    UnknownConversion(cfg, Flags(false, false, false), 5, None, '%', f, args);
    assert "%ll5" + f == "%" + DirectiveThen(Flags(false, false, true), 0, None, ['5'] + f);
    UnknownConversion(cfg, Flags(false, false, true), 0, None, '5', f, args);
  }

  /** Any number of '0's set the zero flag as one '0' does: "%0005d" prints as "%05d". */
  lemma ZeroRun(cfg: Config, padRight: bool, z: nat, g: seq<char>, args: seq<Arg>)
    requires z >= 1
    ensures var dash := if padRight then "-" else "";
      Format(cfg, "%" + (dash + (Fill('0', z) + g)), args) == Format(cfg, "%" + (dash + ("0" + g)), args)
  {
    var dash := if padRight then "-" else "";
    var zs, one := Fill('0', z) + g, "0" + g;
    var x, y := dash + zs, dash + one;
    assert Head(zs) == '0' && Head(one) == '0';
    assert (if Head(x) == '-' then Next(x) else x) == zs by {
      if padRight { assert x == ['-'] + zs; } else { assert x == zs; }
    }
    assert (if Head(y) == '-' then Next(y) else y) == one by {
      if padRight { assert y == ['-'] + one; } else { assert y == one; }
    }
    SkipZerosRun(z, g);
    assert Next(one) == g;
    assert ParseDirective(x) == ParseDirective(y);
    assert Next("%" + x) == x && Next("%" + y) == y;
    ScanDirective(cfg, "%" + x, args);
    ScanDirective(cfg, "%" + y, args);
  }

  /** The zero-flag loop steps over a whole run of '0's. */
  lemma {:induction false} SkipZerosRun(z: nat, g: seq<char>)
    ensures SkipZeros(Fill('0', z) + g) == SkipZeros(g)
    decreases z
  {
    if z > 0 {
      var s := Fill('0', z) + g;
      assert Head(s) == '0';
      assert Next(s) == Fill('0', z - 1) + g;
      SkipZerosRun(z - 1, g);
    } else {
      assert Fill('0', z) + g == g;
    }
  }

  /** A '-' is a flag only right after the '%': after a '0' it ends the directive as an
      unknown conversion that consumes no argument, and the scan goes on behind it, so
      "%0-5d" prints "5d". */
  lemma DashAfterZero(cfg: Config, f: seq<char>, args: seq<Arg>)
    ensures Format(cfg, "%0-" + f, args) == Format(cfg, f, args)
  {
    var g := "0-" + f;
    var h := "-" + f;
    assert Next("%0-" + f) == g;
    assert Head(g) == '0' && Next(g) == h && Head(h) == '-';
    assert SkipZeros(g) == h;
    assert ParseDirective(g).rest == h;
    ScanDirective(cfg, "%0-" + f, args);
    assert h[1..] == f;
  }
}
