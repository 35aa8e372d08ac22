/** The text padder: a string put into a field of a given width, padded with spaces
    or zeros before it, or after it when padding to the right is requested. */
module PrintString {
  import opened CString

  /** The formatting options: FORMAT_PAD_RIGHT, FORMAT_PAD_ZERO and FORMAT_LONG_LONG. */
  datatype Flags = Flags(padRight: bool, padZero: bool, longLong: bool)

  const NoFlags := Flags(false, false, false)

  /** The pad character: '0' when zero padding is requested, a space otherwise. */
  function PadChar(options: Flags): char {
    if options.padZero then '0' else ' '
  }

  /** How many pad characters a text of length `len` needs to fill `width`. */
  function PadCount(len: nat, width: int): nat {
    if width > len then width - len else 0
  }

  /** The characters the padder emits for the string at `s`. */
  function Padded(s: seq<char>, width: int, options: Flags): seq<char> {
    var pad := Fill(PadChar(options), PadCount(Len(s), width));
    if options.padRight then Visible(s) + pad else pad + Visible(s)
  }

  /** The layout of a padded field: its length is the larger of the width and the text,
      the text stands at the end (or at the start when padding right) unchanged, and
      every other position holds the pad character. */
  lemma PaddedLayout(s: seq<char>, width: int, options: Flags)
    ensures var r, n, k := Padded(s, width, options), Len(s), PadCount(Len(s), width);
      && |r| == n + k
      && (width <= n ==> r == Visible(s))
      && (width > n ==> |r| == width)
      && (options.padRight ==>
            r[..n] == Visible(s) && forall j :: n <= j < |r| ==> r[j] == PadChar(options))
      && (!options.padRight ==>
            r[k..] == Visible(s) && forall j :: 0 <= j < k ==> r[j] == PadChar(options))
  {
  }

  /** The measuring loop: counts the characters before the terminator. */
  method StringLength(str: seq<char>) returns (len: int)
    ensures len == Len(str)
  {
    len := 0;
    while At(str, len) != NUL
      invariant 0 <= len <= Len(str)
      decreases |str| - len
    {
      len := len + 1;
    }
  }

  /** A padding loop: emits `padchar` and counts down `width` while it is positive, so it
      emits `width` characters, none when `width` is not positive, and leaves `width` at
      zero or at its non-positive value. */
  method PadLoop(padchar: char, width0: int) returns (out: seq<char>, pc: int, width: int)
    ensures out == Fill(padchar, if width0 > 0 then width0 else 0)
    ensures pc == |out|
    ensures width == if width0 > 0 then 0 else width0
  {
    width := width0;
    out := [];
    pc := 0;
    while width > 0
      invariant (if width0 > 0 then width0 else 0) == |out| + (if width > 0 then width else 0)
      invariant width0 <= 0 ==> width == width0
      invariant width >= 0 || width0 <= 0
      invariant out == Fill(padchar, |out|)
      invariant pc == |out|
    {
      FillSnoc(padchar, |out|);
      out := out + [padchar];
      pc := pc + 1;
      width := width - 1;
    }
  }

  /** The copying loop: emits the characters of the string up to its terminator. */
  method CopyLoop(str: seq<char>) returns (out: seq<char>, pc: int)
    ensures out == Visible(str)
    ensures pc == |out|
  {
    out := [];
    pc := 0;
    var i := 0;
    while At(str, i) != NUL
      invariant 0 <= i <= Len(str)
      invariant out == str[..i]
      invariant pc == |out|
      decreases |str| - i
    {
      out := out + [str[i]];
      pc := pc + 1;
      i := i + 1;
    }
  }

  /** One more pad character extends a run of pad characters. */
  lemma FillSnoc(c: char, n: nat)
    ensures Fill(c, n) + [c] == Fill(c, n + 1)
  {
  }

  /** TinyPrintString: measures the string (only when a width is given), reduces the
      width to the number of pad characters, and emits pad characters, the text and
      pad characters in that order, counting each one. */
  method TinyPrintString(str: seq<char>, width0: int, options: Flags) returns (out: seq<char>, pc: int)
    ensures out == Padded(str, width0, options)
    ensures pc == |out|
  {
    var width := width0;
    var padchar := ' ';
    if width > 0 {
      var len := StringLength(str);
      if len >= width {
        width := 0;
      } else {
        width := width - len;
      }
      if options.padZero {
        padchar := '0';
      }
    }
    ghost var k: nat := if width > 0 then width else 0;
    assert k == PadCount(Len(str), width0);
    assert k > 0 ==> padchar == PadChar(options);
    assert Fill(padchar, k) == Fill(PadChar(options), k);

    var before, n0 := [], 0;
    if !options.padRight {
      before, n0, width := PadLoop(padchar, width);
    }
    var text, n1 := CopyLoop(str);
    var after, n2;
    after, n2, width := PadLoop(padchar, width);
    assert options.padRight ==> after == Fill(padchar, k) && before == [];
    assert !options.padRight ==> before == Fill(padchar, k) && after == [];
    out := before + text + after;
    pc := n0 + n1 + n2;
  }
}
