/** The integer renderer: the TINY_PRINT_INTEGER template, instantiated for `int`
    (TinyPrintInteger) and `long long int` (TinyPrintIntegerLongLong). The template
    parameters are the integer width and the size of the digit buffer. */
module PrintInteger {
  import opened CString
  import opened PrintString

  /** The integer type a template instance works on. */
  datatype IntWidth = W32 | W64

  /** 2^bits: the number of values of the type. */
  function Modulus(w: IntWidth): nat {
    match w
    case W32 => 0x1_0000_0000
    case W64 => 0x1_0000_0000_0000_0000
  }

  /** The values of the signed type. */
  predicate InRange(i: int, w: IntWidth) {
    -(Modulus(w) / 2) <= i < Modulus(w) / 2
  }

  /** PRINT_BUF_SIZE: sizeof("-2147483648") and sizeof("-9223372036854775808"). */
  function BufSize(w: IntWidth): nat {
    match w
    case W32 => 12
    case W64 => 21
  }

  /** Conversion to the unsigned type: the value of the type congruent to `x` modulo 2^bits. */
  function ToUnsigned(x: int, w: IntWidth): (u: nat)
    ensures u < Modulus(w)
    ensures (u - x) % Modulus(w) == 0
  {
    match w
    case W32 => x % 0x1_0000_0000
    case W64 => x % 0x1_0000_0000_0000_0000
  }

  /** Conversion to the signed type on a two's-complement target. */
  function ToSigned(x: int, w: IntWidth): (i: int)
    ensures InRange(i, w)
    ensures (i - x) % Modulus(w) == 0
  {
    var u := ToUnsigned(x, w);
    if u >= Modulus(w) / 2 then u - Modulus(w) else u
  }

  /** A value of the signed type converts to itself. */
  lemma SignedIdentity(i: int, w: IntWidth)
    requires InRange(i, w)
    ensures ToSigned(i, w) == i
  {
    if i < 0 {
      assert ToUnsigned(i, w) == i + Modulus(w);
    } else {
      assert ToUnsigned(i, w) == i;
    }
  }

  predicate IsBase(b: int) {
    b == 10 || b == 16
  }

  /** The letter base for hexadecimal digits: 'a' for %x, 'A' for %X and %p. */
  predicate IsLetBase(letbase: char) {
    letbase == 'a' || letbase == 'A'
  }

  /** The character for digit value `t`, computed as the template does: values of 10 and
      more are moved to the letters by adding `letbase - '0' - 10` before adding '0'. */
  function DigitChar(t: nat, letbase: char): (c: char)
    requires t < 16 && IsLetBase(letbase)
    ensures t < 10 ==> '0' <= c <= '9' && c as int - '0' as int == t
    ensures t >= 10 ==> letbase <= c <= letbase + 5 as char && c as int - letbase as int == t - 10
  {
    ((if t >= 10 then t + (letbase as int - '0' as int - 10) else t) + '0' as int) as char
  }

  /** `u / b` for the two bases of the conversions. */
  function Quot(u: nat, b: int): nat
    requires IsBase(b)
  {
    if b == 10 then u / 10 else u / 16
  }

  /** `u % b` for the two bases of the conversions. */
  function Rem(u: nat, b: int): nat
    requires IsBase(b)
  {
    if b == 10 then u % 10 else u % 16
  }

  /** The digits of `u` in base `b`, most significant first; none for zero. */
  function Digits(u: nat, b: int, letbase: char): (r: seq<char>)
    requires IsBase(b) && IsLetBase(letbase)
    ensures (|r| == 0) == (u == 0)
    decreases u
  {
    if u == 0 then [] else Digits(Quot(u, b), b, letbase) + [DigitChar(Rem(u, b), letbase)]
  }

  /** Digits are neither terminators nor signs. */
  lemma {:induction false} DigitsPlain(u: nat, b: int, letbase: char)
    requires IsBase(b) && IsLetBase(letbase)
    ensures NUL !in Digits(u, b, letbase) && '-' !in Digits(u, b, letbase)
    decreases u
  {
    if u > 0 {
      DigitStep(u, b, letbase);
      DigitsPlain(Quot(u, b), b, letbase);
      var d, c := Digits(Quot(u, b), b, letbase), DigitChar(Rem(u, b), letbase);
      assert c != NUL && c != '-';
      assert NUL !in d + [c] && '-' !in d + [c];
    }
  }

  /** A negative value of a signed decimal conversion; only these get a sign. */
  predicate Negative(i: int, b: int, sg: bool) {
    sg && b == 10 && i < 0
  }

  /** The value whose digits are printed: `-i` for a negative signed decimal, computed in
      the unsigned type, and otherwise `i` converted to the unsigned type. */
  function Magnitude(i: int, b: int, sg: bool, w: IntWidth): nat {
    if Negative(i, b, sg) then ToUnsigned(-i, w) else ToUnsigned(i, w)
  }

  /** The unpadded text of a conversion: "0" for zero, else an optional '-' and the digits. */
  function IntText(i: int, b: int, sg: bool, letbase: char, w: IntWidth): seq<char>
    requires IsBase(b) && IsLetBase(letbase)
  {
    if i == 0 then "0"
    else (if Negative(i, b, sg) then "-" else "") + Digits(Magnitude(i, b, sg, w), b, letbase)
  }

  /** Whether the sign is emitted ahead of the field, so that zeros come between it and the digits. */
  predicate SignFirst(i: int, b: int, sg: bool, width: int, options: Flags) {
    i != 0 && Negative(i, b, sg) && width != 0 && options.padZero
  }

  /** The characters the integer renderer emits. */
  function RenderInteger(i: int, b: int, sg: bool, width: int, options: Flags, letbase: char, w: IntWidth): seq<char>
    requires IsBase(b) && IsLetBase(letbase)
  {
    var text := IntText(i, b, sg, letbase, w);
    if SignFirst(i, b, sg, width, options) then ['-'] + Padded(text[1..], width - 1, options)
    else Padded(text, width, options)
  }

  // ---------------------------------------------------------------------------------------
  // A reference reading of digit strings, used to state what the digits mean.

  /** The value of a digit character of any case. */
  function DigitValue(c: char): nat {
    if '0' <= c <= '9' then c as int - '0' as int
    else if 'a' <= c <= 'z' then c as int - 'a' as int + 10
    else if 'A' <= c <= 'Z' then c as int - 'A' as int + 10
    else 0
  }

  /** The value of a digit string in base `b`, most significant digit first. */
  function ParseDigits(s: seq<char>, b: nat): nat {
    if |s| == 0 then 0 else ParseDigits(s[..|s| - 1], b) * b + DigitValue(s[|s| - 1])
  }

  /** The value of an optionally signed decimal text. */
  function ParseSigned(s: seq<char>): int {
    if |s| > 0 && s[0] == '-' then -(ParseDigits(s[1..], 10) as int) else ParseDigits(s, 10)
  }

  function Pow(b: nat, n: nat): nat {
    if n == 0 then 1 else b * Pow(b, n - 1)
  }

  lemma DigitCharValue(t: nat, b: int, letbase: char)
    requires t < b && IsBase(b) && IsLetBase(letbase)
    ensures DigitValue(DigitChar(t, letbase)) == t
    ensures DigitChar(t, letbase) != '0' <==> t != 0
  {
  }

  /** The digits spell `u`: reading them back in base `b` gives `u`. */
  lemma {:induction false} DigitsRoundTrip(u: nat, b: int, letbase: char)
    requires IsBase(b) && IsLetBase(letbase)
    ensures ParseDigits(Digits(u, b, letbase), b) == u
  {
    if u > 0 {
      DigitStep(u, b, letbase);
      var d := Digits(Quot(u, b), b, letbase);
      var c := DigitChar(Rem(u, b), letbase);
      DigitsRoundTrip(Quot(u, b), b, letbase);
      DigitCharValue(Rem(u, b), b, letbase);
      assert (d + [c])[..|d|] == d;
    }
  }

  /** The digits of a non-zero value have no leading zero. */
  lemma {:induction false} DigitsNoLeadingZero(u: nat, b: int, letbase: char)
    requires IsBase(b) && IsLetBase(letbase)
    requires u > 0
    ensures Digits(u, b, letbase)[0] != '0'
  {
    DigitStep(u, b, letbase);
    var d, c := Digits(Quot(u, b), b, letbase), DigitChar(Rem(u, b), letbase);
    if Quot(u, b) == 0 {
      assert Rem(u, b) == u;
      DigitCharValue(Rem(u, b), b, letbase);
      assert d + [c] == [c];
    } else {
      DigitsNoLeadingZero(Quot(u, b), b, letbase);
      assert (d + [c])[0] == d[0];
    }
  }

  /** One step of the digit loop: the last digit of `u` is that of `u % b`, the rest are those of `u / b`. */
  lemma DigitStep(u: nat, b: int, letbase: char)
    requires IsBase(b) && IsLetBase(letbase) && u > 0
    ensures Quot(u, b) == u / b && Rem(u, b) == u % b
    ensures Rem(u, b) < b && Quot(u, b) < u && u == Quot(u, b) * b + Rem(u, b)
    ensures Digits(u, b, letbase) == Digits(Quot(u, b), b, letbase) + [DigitChar(Rem(u, b), letbase)]
  {
    if b == 10 {
      assert u == u / 10 * 10 + u % 10;
    } else {
      assert u == u / 16 * 16 + u % 16;
    }
  }

  /** A value below b^n has at most n digits. */
  lemma {:induction false} DigitsLength(u: nat, b: int, letbase: char, n: nat)
    requires IsBase(b) && IsLetBase(letbase)
    requires u < Pow(b, n)
    ensures |Digits(u, b, letbase)| <= n
  {
    if u > 0 {
      assert n > 0;
      DigitStep(u, b, letbase);
      assert Quot(u, b) < Pow(b, n - 1);
      DigitsLength(Quot(u, b), b, letbase, n - 1);
    }
  }

  /** The magnitude of a value of the signed type: exactly `-i` for a negative signed
      decimal (so the most negative value does not overflow), and the two's-complement
      reading of `i` otherwise. */
  lemma MagnitudeExact(i: int, b: int, sg: bool, w: IntWidth)
    requires InRange(i, w)
    ensures Negative(i, b, sg) ==> Magnitude(i, b, sg, w) == -i
    ensures !Negative(i, b, sg) ==> Magnitude(i, b, sg, w) == if i >= 0 then i else i + Modulus(w)
  {
  }

  /** The powers of ten and sixteen that bound the values of the two integer types. */
  lemma PowBounds()
    ensures Pow(10, 10) == 10000000000 && Pow(10, 19) == 10000000000000000000
    ensures Pow(10, 20) == 100000000000000000000
    ensures Pow(16, 8) == 0x1_0000_0000 && Pow(16, 16) == 0x1_0000_0000_0000_0000
  {
    assert Pow(10, 1) == 10;
    assert Pow(10, 2) == 100;
    assert Pow(10, 3) == 1000;
    assert Pow(10, 4) == 10000;
    assert Pow(10, 5) == 100000;
    assert Pow(10, 6) == 1000000;
    assert Pow(10, 7) == 10000000;
    assert Pow(10, 8) == 100000000;
    assert Pow(10, 9) == 1000000000;
    assert Pow(10, 10) == 10000000000;
    assert Pow(10, 11) == 100000000000;
    assert Pow(10, 12) == 1000000000000;
    assert Pow(10, 13) == 10000000000000;
    assert Pow(10, 14) == 100000000000000;
    assert Pow(10, 15) == 1000000000000000;
    assert Pow(10, 16) == 10000000000000000;
    assert Pow(10, 17) == 100000000000000000;
    assert Pow(10, 18) == 1000000000000000000;
    assert Pow(10, 19) == 10000000000000000000;
    assert Pow(10, 20) == 100000000000000000000;
    assert Pow(16, 1) == 0x10;
    assert Pow(16, 2) == 0x100;
    assert Pow(16, 3) == 0x1000;
    assert Pow(16, 4) == 0x10000;
    assert Pow(16, 5) == 0x100000;
    assert Pow(16, 6) == 0x1000000;
    assert Pow(16, 7) == 0x10000000;
    assert Pow(16, 8) == 0x100000000;
    assert Pow(16, 9) == 0x1000000000;
    assert Pow(16, 10) == 0x10000000000;
    assert Pow(16, 11) == 0x100000000000;
    assert Pow(16, 12) == 0x1000000000000;
    assert Pow(16, 13) == 0x10000000000000;
    assert Pow(16, 14) == 0x100000000000000;
    assert Pow(16, 15) == 0x1000000000000000;
    assert Pow(16, 16) == 0x10000000000000000;
  }

  /** The text, sign included, fits the digit buffer with one byte left for the terminator. */
  lemma TextFitsBuffer(i: int, b: int, sg: bool, letbase: char, w: IntWidth)
    requires InRange(i, w) && IsBase(b) && IsLetBase(letbase)
    ensures |IntText(i, b, sg, letbase, w)| <= BufSize(w) - 1
  {
    if i != 0 {
      var m := Magnitude(i, b, sg, w);
      MagnitudeExact(i, b, sg, w);
      PowBounds();
      if Negative(i, b, sg) {
        if w == W32 {
          DigitsLength(m, b, letbase, 10);
        } else {
          DigitsLength(m, b, letbase, 19);
        }
      } else {
        match (w, b)
        case (W32, 10) =>
          DigitsLength(m, b, letbase, 10);
        case (W32, 16) =>
          DigitsLength(m, b, letbase, 8);
        case (W64, 10) =>
          DigitsLength(m, b, letbase, 20);
        case (W64, 16) =>
          DigitsLength(m, b, letbase, 16);
      }
    }
  }

  /** A signed decimal conversion prints exactly the value: reading the text back as a
      signed decimal gives `i`, for every value of the type including the most negative. */
  lemma SignedRoundTrip(i: int, w: IntWidth)
    requires InRange(i, w)
    ensures ParseSigned(IntText(i, 10, true, 'a', w)) == i
  {
    if i != 0 {
      var m := Magnitude(i, 10, true, w);
      MagnitudeExact(i, 10, true, w);
      DigitsRoundTrip(m, 10, 'a');
      DigitsPlain(m, 10, 'a');
      var d := Digits(m, 10, 'a');
      var t := IntText(i, 10, true, 'a', w);
      assert |d| > 0;
      if i < 0 {
        assert t == "-" + d;
        assert t[1..] == d;
        assert ParseSigned(t) == -(ParseDigits(d, 10) as int);
      } else {
        assert t == d;
        assert d[0] != '-' by { assert d[0] in d; }
        assert ParseSigned(t) == ParseDigits(d, 10);
      }
    } else {
      assert "0"[..0] == "";
    }
  }

  /** An unsigned conversion (%u, %x, %X, %p) prints `i` read as the unsigned type. */
  lemma UnsignedRoundTrip(i: int, b: int, letbase: char, w: IntWidth)
    requires InRange(i, w) && IsBase(b) && IsLetBase(letbase)
    ensures ParseDigits(IntText(i, b, false, letbase, w), b) == ToUnsigned(i, w)
  {
    if i != 0 {
      DigitsRoundTrip(Magnitude(i, b, false, w), b, letbase);
      assert "" + Digits(Magnitude(i, b, false, w), b, letbase) == Digits(Magnitude(i, b, false, w), b, letbase);
    }
  }

  /** The text is canonical: zero is "0"; otherwise a '-' exactly for a negative signed
      decimal, followed by at least one digit and no leading zero. */
  lemma IntTextCanonical(i: int, b: int, sg: bool, letbase: char, w: IntWidth)
    requires InRange(i, w) && IsBase(b) && IsLetBase(letbase)
    ensures var t := IntText(i, b, sg, letbase, w);
      && |t| >= 1 && NUL !in t
      && (i == 0 ==> t == "0")
      && (t[0] == '-' <==> Negative(i, b, sg))
      && (i != 0 && Negative(i, b, sg) ==> |t| >= 2 && t[1] != '0')
      && (i != 0 && !Negative(i, b, sg) ==> t[0] != '0')
  {
    if i != 0 {
      var m := Magnitude(i, b, sg, w);
      MagnitudeExact(i, b, sg, w);
      DigitsNoLeadingZero(m, b, letbase);
      DigitsPlain(m, b, letbase);
      var d := Digits(m, b, letbase);
      assert d[0] in d;
      if Negative(i, b, sg) {
        assert ("-" + d)[1] == d[0];
      } else {
        assert "" + d == d;
      }
    }
  }

  /** The field: when the width does not exceed the text the text is emitted alone;
      otherwise exactly `width` characters are; zero renders as the padded text "0". */
  lemma RenderIntegerField(i: int, b: int, sg: bool, width: int, options: Flags, letbase: char, w: IntWidth)
    requires InRange(i, w) && IsBase(b) && IsLetBase(letbase)
    ensures var t, r := IntText(i, b, sg, letbase, w), RenderInteger(i, b, sg, width, options, letbase, w);
      && (i == 0 ==> r == Padded("0", width, options))
      && (width <= |t| ==> r == t)
      && (width > |t| ==> |r| == width)
  {
    var t := IntText(i, b, sg, letbase, w);
    TextFitsBuffer(i, b, sg, letbase, w);
    IntTextCanonical(i, b, sg, letbase, w);
    if i == 0 {
      LenWithoutNul("0");
    } else {
      if Negative(i, b, sg) {
        LenWithoutNul(t[1..]);
        assert t == ['-'] + t[1..];
      }
      LenWithoutNul(t);
    }
  }

  /** Where the sign of a negative value goes when the field is wider than the text: with
      zero padding it comes first and the zeros follow it (before the digits, or after
      them when padding right as well); with space padding the spaces precede the sign,
      or follow the digits when padding right. */
  lemma SignPlacement(i: int, width: int, options: Flags, w: IntWidth)
    requires InRange(i, w) && i < 0
    requires width > |IntText(i, 10, true, 'a', w)|
    ensures var t, r := IntText(i, 10, true, 'a', w), RenderInteger(i, 10, true, width, options, 'a', w);
      var k := width - |t|;
      && (options.padZero && !options.padRight ==> r == ['-'] + Fill('0', k) + t[1..])
      && (options.padZero && options.padRight ==> r == ['-'] + t[1..] + Fill('0', k))
      && (!options.padZero && !options.padRight ==> r == Fill(' ', k) + t)
      && (!options.padZero && options.padRight ==> r == t + Fill(' ', k))
  {
    var t := IntText(i, 10, true, 'a', w);
    var k := width - |t|;
    IntTextCanonical(i, 10, true, 'a', w);
    LenWithoutNul(t[1..]);
    LenWithoutNul(t);
    assert t == ['-'] + t[1..];
    if options.padZero {
      assert SignFirst(i, 10, true, width, options);
      assert PadCount(Len(t[1..]), width - 1) == k;
    } else {
      assert !SignFirst(i, 10, true, width, options);
      assert PadCount(Len(t), width) == k;
    }
  }

  /** The leading six digits of the most negative `int`. */
  lemma IntMinLeadingDigits()
    ensures Digits(214748, 10, 'a') == "214748"
  {
    assert Digits(0, 10, 'a') == "";
    assert Digits(2, 10, 'a') == "2";
    assert Digits(21, 10, 'a') == "21";
    assert Digits(214, 10, 'a') == "214";
    assert Digits(2147, 10, 'a') == "2147";
    assert Digits(21474, 10, 'a') == "21474";
  }

  /** The most negative `int` prints as "-2147483648". */
  lemma IntMinText()
    ensures IntText(-0x8000_0000, 10, true, 'a', W32) == "-2147483648"
  {
    assert Magnitude(-0x8000_0000, 10, true, W32) == 2147483648;
    IntMinLeadingDigits();
    assert Digits(2147483, 10, 'a') == "2147483";
    assert Digits(21474836, 10, 'a') == "21474836";
    assert Digits(214748364, 10, 'a') == "214748364";
    assert Digits(2147483648, 10, 'a') == "2147483648";
  }

  /** The text of a non-zero value is its sign and the digits of its magnitude, and both fit
      the digit buffer with the terminator. */
  lemma BufferPlan(i: int, b: int, sg: bool, letbase: char, w: IntWidth)
    requires InRange(i, w) && IsBase(b) && IsLetBase(letbase) && i != 0
    ensures var d := Digits(Magnitude(i, b, sg, w), b, letbase);
      && IntText(i, b, sg, letbase, w) == (if Negative(i, b, sg) then "-" else "") + d
      && |d| + (if Negative(i, b, sg) then 1 else 0) <= BufSize(w) - 1
  {
    TextFitsBuffer(i, b, sg, letbase, w);
  }

  // ---------------------------------------------------------------------------------------

  /** The digit loop of the template: a terminator in the last byte of the buffer, then the
      digits of `u` written backwards in front of it, least significant first. Returns the
      index of the first digit. */
  method WriteDigits(print_buf: array<char>, u0: nat, b: int, letbase: char) returns (s: int)
    requires IsBase(b) && IsLetBase(letbase)
    requires |Digits(u0, b, letbase)| < print_buf.Length
    modifies print_buf
    ensures s == print_buf.Length - 1 - |Digits(u0, b, letbase)|
    ensures print_buf[s..] == Digits(u0, b, letbase) + [NUL]
    ensures print_buf[..s] == old(print_buf[..s])
  {
    var u: nat := u0;
    s := print_buf.Length - 1;
    print_buf[s] := NUL;
    ghost var tail := [NUL];
    assert print_buf[s..] == tail;
    while u != 0
      invariant |Digits(u, b, letbase)| <= s <= print_buf.Length - 1
      invariant print_buf[s..] == tail && print_buf[..s] == old(print_buf[..s])
      invariant Digits(u0, b, letbase) + [NUL] == Digits(u, b, letbase) + tail
      decreases u
    {
      DigitStep(u, b, letbase);
      var c := DigitChar(u % b, letbase);
      DigitsAhead(Digits(u0, b, letbase) + [NUL], Digits(Quot(u, b), b, letbase), c, tail);
      ghost var before := print_buf[..];
      s := s - 1;
      print_buf[s] := c;
      assert print_buf[..] == before[s := c];
      StoreDigit(before, s, c);
      tail := [c] + tail;
      u := u / b;
    }
  }

  /** The digits still to be written, then the one being written, then those written so far. */
  lemma DigitsAhead(all: seq<char>, front: seq<char>, c: char, tail: seq<char>)
    requires all == front + [c] + tail
    ensures all == front + ([c] + tail)
  {
  }

  /** The `*--s = '-'` of a sign that goes into the buffer, in front of the digits. */
  method PutSign(print_buf: array<char>, s0: int) returns (s: int)
    requires 0 < s0 <= print_buf.Length
    modifies print_buf
    ensures s == s0 - 1
    ensures print_buf[s..] == ['-'] + old(print_buf[s0..])
    ensures print_buf[..s] == old(print_buf[..s])
  {
    ghost var before := print_buf[..];
    s := s0 - 1;
    print_buf[s] := '-';
    assert print_buf[..] == before[s := '-'];
    StoreDigit(before, s, '-');
  }

  /** A digit stored in front of the digits written so far leaves the bytes before it as they were. */
  lemma StoreDigit(buf: seq<char>, s: nat, c: char)
    requires s < |buf|
    ensures buf[s := c][..s] == buf[..s]
    ensures buf[s := c][s..] == [c] + buf[s + 1..]
  {
  }

  /** The buffer "0" with its terminator reads as the text "0". */
  lemma ZeroBuffer(buf: seq<char>, b: int, sg: bool, width: int, options: Flags, letbase: char, w: IntWidth)
    requires IsBase(b) && IsLetBase(letbase)
    requires |buf| >= 2 && buf[0] == '0' && buf[1] == NUL
    ensures Padded(buf, width, options) == RenderInteger(0, b, sg, width, options, letbase, w)
  {
    assert Len(buf) == 1;
    LenWithoutNul("0");
  }

  /** What the buffer holds when it is handed to the padder (the digits and the terminator,
      with the sign in front unless the sign went out first), padded behind whatever went
      out first, is the conversion. */
  lemma BufferField(i: int, b: int, sg: bool, width0: int, options: Flags, letbase: char, w: IntWidth,
                    lead: seq<char>, width: int, tail: seq<char>)
    requires InRange(i, w) && IsBase(b) && IsLetBase(letbase) && i != 0
    requires lead == (if SignFirst(i, b, sg, width0, options) then ['-'] else [])
    requires width == (if SignFirst(i, b, sg, width0, options) then width0 - 1 else width0)
    requires tail == (if Negative(i, b, sg) && !SignFirst(i, b, sg, width0, options) then "-" else "")
                     + Digits(Magnitude(i, b, sg, w), b, letbase) + [NUL]
    ensures RenderInteger(i, b, sg, width0, options, letbase, w) == lead + Padded(tail, width, options)
  {
    var d := Digits(Magnitude(i, b, sg, w), b, letbase);
    var shown := (if Negative(i, b, sg) && !SignFirst(i, b, sg, width0, options) then "-" else "") + d;
    DigitsPlain(Magnitude(i, b, sg, w), b, letbase);
    BufferPlan(i, b, sg, letbase, w);
    assert NUL !in shown;
    assert tail == shown + [NUL] + [];
    VisibleOfTerminated(shown, []);
    var text := IntText(i, b, sg, letbase, w);
    if SignFirst(i, b, sg, width0, options) {
      assert text[1..] == d == shown;
    } else {
      assert text == shown;
      assert lead + Padded(tail, width, options) == Padded(tail, width, options);
    }
    LenWithoutNul(shown);
  }

  /** TinyPrintInteger / TinyPrintIntegerLongLong: zero is printed as "0"; otherwise the
      digits are written backwards into a fixed buffer of BufSize(w) bytes, ending with a
      terminator; a negative sign is emitted first (zero padding with a width) or put in
      the buffer, and the buffer is handed to the padder. */
  method TinyPrintInteger(i: int, b: int, sg: bool, width0: int, options: Flags, letbase: char, w: IntWidth)
    returns (out: seq<char>, pc: int)
    requires InRange(i, w) && IsBase(b) && IsLetBase(letbase)
    ensures out == RenderInteger(i, b, sg, width0, options, letbase, w)
    ensures pc == |out|
  {
    var size := BufSize(w);
    var print_buf := new char[size];
    var width := width0;
    var neg := false;
    pc := 0;
    out := [];
    var u: nat := ToUnsigned(i, w);

    if i == 0 {
      print_buf[0] := '0';
      print_buf[1] := NUL;
      ZeroBuffer(print_buf[..], b, sg, width, options, letbase, w);
      out, pc := TinyPrintString(print_buf[..], width, options);
      return;
    }

    if sg && b == 10 && i < 0 {
      neg := true;
      u := ToUnsigned(-i, w);
    }

    ghost var digits := Digits(u, b, letbase);
    ghost var signFirst := SignFirst(i, b, sg, width0, options);
    assert u == Magnitude(i, b, sg, w) && neg == Negative(i, b, sg);
    assert signFirst == (neg && width0 != 0 && options.padZero);
    BufferPlan(i, b, sg, letbase, w);

    var s := WriteDigits(print_buf, u, b, letbase);
    ghost var tail := digits + [NUL];

    if neg {
      if width != 0 && options.padZero {
        out := ['-'];
        pc := pc + 1;
        width := width - 1;
      } else {
        s := PutSign(print_buf, s);
        tail := "-" + digits + [NUL];
      }
    }
    assert print_buf[s..] == tail;
    assert tail == (if Negative(i, b, sg) && !signFirst then "-" else "") + Digits(Magnitude(i, b, sg, w), b, letbase) + [NUL];
    BufferField(i, b, sg, width0, options, letbase, w, out, width, print_buf[s..]);
    var field, n := TinyPrintString(print_buf[s..], width, options);
    out := out + field;
    pc := pc + n;
  }

  /** An `unsigned int` passed where the template takes an `int` prints as the unsigned value. */
  lemma UnsignedArgument(x: nat, b: int, letbase: char, w: IntWidth)
    requires x < Modulus(w) && IsBase(b) && IsLetBase(letbase)
    ensures IntText(ToSigned(x, w), b, false, letbase, w) == IntText(x, b, false, letbase, w)
    ensures ParseDigits(IntText(x, b, false, letbase, w), b) == x
  {
    var i, m := ToSigned(x, w), Modulus(w);
    if x >= m / 2 {
      assert i == x - m;
      assert (x - m) % m == x;
    } else {
      assert i == x;
    }
    assert Magnitude(i, b, false, w) == x == Magnitude(x, b, false, w);
    UnsignedRoundTrip(i, b, letbase, w);
  }

  /** A value printed zero-padded to `precision` digits reads back as the value and takes
      the larger of `precision` and its own digit count. */
  lemma ZeroPaddedField(x: nat, precision: nat)
    requires x < Modulus(W32) && precision < Modulus(W32) / 2
    ensures var f, r := IntText(x, 10, false, 'a', W32),
                        RenderInteger(ToSigned(x, W32), 10, false, precision, Flags(false, true, false), 'a', W32);
      && r == Fill('0', PadCount(|f|, precision)) + f
      && ParseDigits(r, 10) == x
      && |r| == if precision > |f| then precision else |f|
  {
    var f := IntText(x, 10, false, 'a', W32);
    UnsignedArgument(x, 10, 'a', W32);
    IntTextCanonical(ToSigned(x, W32), 10, false, 'a', W32);
    LenWithoutNul(f);
    LeadingZeros(f, PadCount(|f|, precision));
  }

  /** The integer tail of the floating-point renderer: the integer part as an unsigned
      decimal, then, when the precision is not zero, a '.' and the fractional part
      zero-padded to `precision` digits. The two parts arrive as `unsigned int` values. */
  method PrintFixedPoint(intPart: nat, fracPart: nat, precision: nat) returns (out: seq<char>, pc: int)
    requires intPart < Modulus(W32) && fracPart < Modulus(W32) && precision < Modulus(W32) / 2
    ensures var t := IntText(intPart, 10, false, 'a', W32);
      && ParseDigits(t, 10) == intPart
      && (precision == 0 ==> out == t)
      && (precision != 0 ==>
            var f := IntText(fracPart, 10, false, 'a', W32);
            && |out| == |t| + 1 + (if precision > |f| then precision else |f|)
            && out[..|t|] == t && out[|t|] == '.'
            && out[|t| + 1..] == Fill('0', PadCount(|f|, precision)) + f
            && ParseDigits(out[|t| + 1..], 10) == fracPart)
    ensures pc == |out|
  {
    ghost var t := IntText(intPart, 10, false, 'a', W32);
    UnsignedArgument(intPart, 10, 'a', W32);
    RenderIntegerField(ToSigned(intPart, W32), 10, false, 0, NoFlags, 'a', W32);
    out, pc := TinyPrintInteger(ToSigned(intPart, W32), 10, false, 0, NoFlags, 'a', W32);
    if precision != 0 {
      out := out + ['.'];
      pc := pc + 1;
      var zeroPad := Flags(false, true, false);
      ZeroPaddedField(fracPart, precision);
      var frac, n := TinyPrintInteger(ToSigned(fracPart, W32), 10, false, precision, zeroPad, 'a', W32);
      assert (out + frac)[|t| + 1..] == frac;
      assert (out + frac)[..|t|] == t;
      out := out + frac;
      pc := pc + n;
    }
  }

  /** Leading zeros do not change the value of a digit string. */
  lemma {:induction false} LeadingZeros(s: seq<char>, k: nat)
    ensures ParseDigits(Fill('0', k) + s, 10) == ParseDigits(s, 10)
  {
    if |s| == 0 {
      assert Fill('0', k) + s == Fill('0', k);
      ZerosValue(k);
    } else {
      var init := s[..|s| - 1];
      LeadingZeros(init, k);
      assert (Fill('0', k) + s)[..|Fill('0', k) + s| - 1] == Fill('0', k) + init;
    }
  }

  /** A string of zeros is worth zero. */
  lemma {:induction false} ZerosValue(k: nat)
    ensures ParseDigits(Fill('0', k), 10) == 0
  {
    if k > 0 {
      ZerosValue(k - 1);
      assert Fill('0', k)[..k - 1] == Fill('0', k - 1);
    }
  }
}
