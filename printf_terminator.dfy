/** How far the dispatcher reads its format: the corrected scan reads nothing after the
    format's terminator, and the scan as written, which steps over the terminator when a
    directive runs into it, agrees with it on every format that does not do so. */
module PrintfTerminator {
  import opened CString
  import opened Printf

  // ---------------------------------------------------------------------------------------
  // The parsing loops depend on the string only

  lemma {:induction false} SkipZerosSame(a: seq<char>, b: seq<char>)
    requires SameString(a, b)
    ensures SameString(SkipZeros(a), SkipZeros(b))
    decreases |a|
  {
    SameStringStep(a, b);
    if Head(a) == '0' {
      SkipZerosSame(Next(a), Next(b));
    }
  }

  lemma {:induction false} AccumulateSame(a: seq<char>, b: seq<char>, acc: nat)
    requires SameString(a, b)
    ensures Accumulate(a, acc).value == Accumulate(b, acc).value
    ensures SameString(Accumulate(a, acc).rest, Accumulate(b, acc).rest)
    decreases |a|
  {
    SameStringStep(a, b);
    if IsDigit(Head(a)) {
      AccumulateSame(Next(a), Next(b), acc * 10 + (Head(a) as int - '0' as int));
    }
  }

  lemma ParsePrecisionSame(a: seq<char>, b: seq<char>)
    requires SameString(a, b)
    ensures ParsePrecision(a).value == ParsePrecision(b).value
    ensures SameString(ParsePrecision(a).rest, ParsePrecision(b).rest)
  {
    SameStringStep(a, b);
    if Head(a) == '.' {
      AccumulateSame(Next(a), Next(b), 0);
    }
  }

  lemma ParseLengthSame(a: seq<char>, b: seq<char>)
    requires SameString(a, b)
    ensures ParseLength(a).longLong == ParseLength(b).longLong
    ensures SameString(ParseLength(a).rest, ParseLength(b).rest)
  {
    SameStringStep(a, b);
    if Head(a) == 'l' {
      SameStringStep(Next(a), Next(b));
    }
  }

  /** The directive parser finds the same directive in two memories holding the same string. */
  lemma ParseDirectiveSame(a: seq<char>, b: seq<char>)
    requires SameString(a, b)
    ensures var da, db := ParseDirective(a), ParseDirective(b);
      da.(rest := []) == db.(rest := []) && SameString(da.rest, db.rest)
  {
    SameStringStep(a, b);
    var a1 := if Head(a) == '-' then Next(a) else a;
    var b1 := if Head(b) == '-' then Next(b) else b;
    SameStringStep(a1, b1);
    SkipZerosSame(a1, b1);
    var wa, wb := Accumulate(SkipZeros(a1), 0), Accumulate(SkipZeros(b1), 0);
    AccumulateSame(SkipZeros(a1), SkipZeros(b1), 0);
    var pa, pb := ParsePrecision(wa.rest), ParsePrecision(wb.rest);
    ParsePrecisionSame(wa.rest, wb.rest);
    ParseLengthSame(pa.rest, pb.rest);
  }

  /** The corrected scan delivers the same output for two memories holding the same string. */
  lemma {:induction false} ScanSame(cfg: Config, a: seq<char>, b: seq<char>, args: seq<Arg>)
    requires SameString(a, b)
    ensures Scan(cfg, Corrected, a, args) == Scan(cfg, Corrected, b, args)
    decreases |a|
  {
    SameStringStep(a, b);
    if Head(a) != NUL {
      if a[0] != '%' {
        ScanSame(cfg, a[1..], b[1..], args);
      } else {
        var g, h := a[1..], b[1..];
        SameStringStep(g, h);
        if Head(g) != NUL {
          if g[0] == '%' {
            ScanSame(cfg, g[1..], h[1..], args);
          } else {
            ParseDirectiveSame(g, h);
            var dg, dh := ParseDirective(g), ParseDirective(h);
            SameStringStep(dg.rest, dh.rest);
            if Head(dg.rest) != NUL {
              var c := dg.rest[0];
              ConvertIgnoresRest(cfg, dg, c, args, []);
              ConvertIgnoresRest(cfg, dh, c, args, []);
              ScanSame(cfg, dg.rest[1..], dh.rest[1..], Convert(cfg, dg, c, args).args);
            }
          }
        }
      }
    }
  }

  /** TinyPrintf reads its format only up to the terminator: whatever memory follows the
      terminator, the output is that of the text before it. */
  lemma FormatStopsAtTerminator(cfg: Config, t: seq<char>, g: seq<char>, args: seq<Arg>)
    requires NUL !in t
    ensures Format(cfg, t + [NUL] + g, args) == Format(cfg, t, args)
  {
    VisibleOfTerminated(t, g);
    LenWithoutNul(t);
    ScanSame(cfg, t + [NUL] + g, t, args);
  }

  /** The output depends on the string at the format pointer only, not on the memory
      after its terminator. */
  lemma FormatOfVisible(cfg: Config, f: seq<char>, args: seq<Arg>)
    ensures Format(cfg, f, args) == Format(cfg, Visible(f), args)
  {
    SameAsVisible(f);
    ScanSame(cfg, f, Visible(f), args);
  }

  // ---------------------------------------------------------------------------------------
  // The scan as written

  lemma NextWithoutNul(f: seq<char>)
    requires NUL !in f
    ensures NUL !in Next(f)
  {
    if |f| > 0 {
      assert forall k :: 0 <= k < |f| - 1 ==> Next(f)[k] == f[k + 1];
    }
  }

  lemma {:induction false} SkipZerosWithoutNul(f: seq<char>)
    requires NUL !in f
    ensures NUL !in SkipZeros(f)
    decreases |f|
  {
    if Head(f) == '0' {
      NextWithoutNul(f);
      SkipZerosWithoutNul(Next(f));
    }
  }

  lemma {:induction false} AccumulateWithoutNul(f: seq<char>, acc: nat)
    requires NUL !in f
    ensures NUL !in Accumulate(f, acc).rest
    decreases |f|
  {
    if IsDigit(Head(f)) {
      NextWithoutNul(f);
      AccumulateWithoutNul(Next(f), acc * 10 + (Head(f) as int - '0' as int));
    }
  }

  /** In a format without a terminator, a directive never stops at a terminator. */
  lemma ParseDirectiveWithoutNul(f: seq<char>)
    requires NUL !in f
    ensures NUL !in ParseDirective(f).rest
  {
    NextWithoutNul(f);
    var f1 := if Head(f) == '-' then Next(f) else f;
    SkipZerosWithoutNul(f1);
    AccumulateWithoutNul(SkipZeros(f1), 0);
    var w := Accumulate(SkipZeros(f1), 0).rest;
    NextWithoutNul(w);
    if Head(w) == '.' {
      AccumulateWithoutNul(Next(w), 0);
    }
    var p := ParsePrecision(w).rest;
    NextWithoutNul(p);
    NextWithoutNul(Next(p));
  }

  lemma TailWithoutNul(f: seq<char>)
    requires NUL !in f && |f| > 0
    ensures NUL !in f[1..]
  {
    assert f[1..] == Next(f);
    NextWithoutNul(f);
  }

  lemma HeadWithoutNul(f: seq<char>)
    requires NUL !in f
    ensures Head(f) == NUL <==> |f| == 0
  {
    if |f| > 0 {
      assert f[0] in f;
    }
  }

  /** On a format whose terminator is the end of the memory, the scan as written and the
      corrected scan agree: the two differ only where a directive runs into a terminator
      followed by more memory. */
  lemma {:induction false} AsWrittenAgrees(cfg: Config, f: seq<char>, args: seq<Arg>)
    requires NUL !in f
    ensures FormatAsWritten(cfg, f, args) == Format(cfg, f, args)
    decreases |f|
  {
    if Head(f) != NUL {
      TailWithoutNul(f);
      if f[0] != '%' {
        AsWrittenAgrees(cfg, f[1..], args);
      } else {
        var g := f[1..];
        if Head(g) != NUL {
          TailWithoutNul(g);
          if g[0] == '%' {
            AsWrittenAgrees(cfg, g[1..], args);
          } else {
            ParseDirectiveWithoutNul(g);
            var d := ParseDirective(g);
            HeadWithoutNul(d.rest);
            if Head(d.rest) != NUL {
              TailWithoutNul(d.rest);
              var r := Convert(cfg, d, d.rest[0], args);
              AsWrittenAgrees(cfg, d.rest[1..], r.args);
              assert Scan(cfg, AsWritten, f, args) == r.text + Scan(cfg, AsWritten, d.rest[1..], r.args);
              assert Scan(cfg, Corrected, f, args) == r.text + Scan(cfg, Corrected, d.rest[1..], r.args);
            } else {
              assert Next(d.rest) == [];
              assert Scan(cfg, AsWritten, [], args) == [];
            }
          }
        }
      }
    }
  }

  /** The over-read: "%5" followed in memory by "X" prints "X" as written, where the
      corrected scan, like the scan of "%5" alone, prints nothing. */
  lemma OverRead(cfg: Config)
    ensures FormatAsWritten(cfg, "%5\0X", []) == "X"
    ensures Format(cfg, "%5\0X", []) == []
    ensures FormatAsWritten(cfg, "%5", []) == []
  {
    var g := "5\0X";
    assert "%5\0X"[1..] == g;
    assert Next(g) == "\0X" && Next("\0X") == "X";
    assert Accumulate("\0X", 5).rest == "\0X";
    assert Accumulate(g, 0).rest == "\0X";
    assert ParseDirective(g).rest == "\0X";
    assert "X"[1..] == [];
    assert "%5"[1..] == "5";
    assert Next("5") == [];
    assert ParseDirective("5").rest == [];
  }
}
