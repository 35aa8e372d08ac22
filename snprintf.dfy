/** The bounded-buffer sink: TinySNprintf runs the dispatcher with a sink that stores each
    character into the caller's buffer while room is left, keeping one byte back for the
    terminator, and returns the count of every character the dispatcher delivered. */
module SNPrintf {
  import opened CString
  import opened Printf
  import PrintfProperties

  /** TinySNPrintCharContext: the write position in the caller's buffer and the number of
      bytes left. The C context holds the write pointer; here it is the buffer and the
      offset `cursor` into it. */
  class SNPrintCharContext {
    const buf: array<char>
    var cursor: int
    var length: int

    ghost predicate Valid()
      reads this
    {
      0 <= cursor <= buf.Length && cursor + length <= buf.Length
    }

    /** The set-up in TinySNprintf: the write position at the start of the buffer, and one
        byte of the buffer's `length` reserved for the terminator. */
    constructor(buffer: array<char>, length: int)
      requires length <= buffer.Length
      ensures Valid()
      ensures buf == buffer && cursor == 0 && this.length == length - 1
    {
      buf := buffer;
      cursor := 0;
      this.length := length - 1;
    }

    /** TinySNPrintChar: while bytes are left, stores `c` at the write position, advances
        it and counts the byte off; otherwise the character is dropped. (The guard is the
        corrected `length > 0`; see SNPrintf.PutCharAsWritten.) */
    method PutChar(c: char)
      requires Valid()
      modifies this, buf
      ensures Valid()
      ensures old(length) > 0 ==>
        cursor == old(cursor) + 1 && length == old(length) - 1 && buf[..] == old(buf[..])[old(cursor) := c]
      ensures old(length) <= 0 ==>
        cursor == old(cursor) && length == old(length) && buf[..] == old(buf[..])
    {
      if length > 0 {
        buf[cursor] := c;
        cursor := cursor + 1;
        length := length - 1;
      }
    }
  }

  /** How many of `n` output characters a buffer of `length` bytes keeps: at most
      `length - 1`, and none when the buffer has no byte at all. */
  function Kept(n: nat, length: int): nat {
    if length <= 0 then 0 else if n < length - 1 then n else length - 1
  }

  /** The buffer after TinySNprintf delivered `out`: the kept characters, a terminator after
      them, and the rest of the buffer as it was; a buffer without bytes stays as it was. */
  function Filled(buf: seq<char>, out: seq<char>, length: int): seq<char>
    requires length <= |buf|
  {
    if length <= 0 then buf
    else
      var k := Kept(|out|, length);
      out[..k] + [NUL] + buf[k + 1..]
  }

  /** TinySNprintf: returns the number of characters the format produces, whatever the size
      of the buffer, and leaves in the buffer that output cut to `length - 1` characters
      and terminated. */
  method TinySNprintf(buffer: array<char>, length: int, cfg: Config, fmt: seq<char>, args: seq<Arg>)
    returns (ret: int)
    requires length <= buffer.Length
    modifies buffer
    ensures ret == |Format(cfg, fmt, args)|
    ensures buffer[..] == Filled(old(buffer[..]), Format(cfg, fmt, args), length)
  {
    var context := new SNPrintCharContext(buffer, length);
    var out, pc := TinyPrintf(cfg, fmt, args);
    ghost var buf0 := buffer[..];
    var i := 0;
    while i < |out|
      invariant 0 <= i <= |out|
      invariant context.buf == buffer && context.Valid()
      invariant context.cursor == Kept(i, length)
      invariant context.length == if length <= 0 then length - 1 else length - 1 - context.cursor
      invariant buffer[..] == out[..context.cursor] + buf0[context.cursor..]
    {
      if context.length > 0 {
        StoreNext(out, buf0, context.cursor);
      }
      context.PutChar(out[i]);
      i := i + 1;
    }
    context.length := context.length + 1;
    if length > 0 {
      StoreTerminator(out, buf0, length);
    }
    context.PutChar(NUL);
    ret := pc;
  }

  /** A character stored at the write position extends the stored prefix by one. */
  lemma StoreNext(out: seq<char>, buf: seq<char>, k: nat)
    requires k < |out| && k < |buf|
    ensures (out[..k] + buf[k..])[k := out[k]] == out[..k + 1] + buf[k + 1..]
  {
  }

  /** The terminator stored after the kept characters completes the filled buffer. */
  lemma StoreTerminator(out: seq<char>, buf: seq<char>, length: int)
    requires 1 <= length <= |buf|
    ensures var k := Kept(|out|, length);
      (out[..k] + buf[k..])[k := NUL] == Filled(buf, out, length)
  {
  }

  // ---------------------------------------------------------------------------------------
  // What the caller finds in the buffer

  /** Nothing at or past offset `length` of the buffer is written, and a buffer without
      bytes is not written at all. */
  lemma FilledWithinBounds(buf: seq<char>, out: seq<char>, length: int)
    requires length <= |buf|
    ensures var r := Filled(buf, out, length);
      && |r| == |buf|
      && (length > 0 ==> r[length..] == buf[length..])
      && (length <= 0 ==> r == buf)
  {
    if length > 0 {
      var k := Kept(|out|, length);
      var r := Filled(buf, out, length);
      assert forall j :: length <= j < |buf| ==> r[j] == buf[j];
    }
  }

  /** For output without NUL characters, the buffer holds the C string of the first
      `min(N, length - 1)` output characters, N the returned count. */
  lemma FilledString(buf: seq<char>, out: seq<char>, length: int)
    requires 1 <= length <= |buf| && NUL !in out
    ensures var r, k := Filled(buf, out, length), Kept(|out|, length);
      && k == (if |out| < length then |out| else length - 1)
      && Len(r) == k
      && Visible(r) == out[..k]
  {
    var k := Kept(|out|, length);
    var r := Filled(buf, out, length);
    assert NUL !in out[..k] by {
      forall j | 0 <= j < k
        ensures out[..k][j] != NUL
      {
        assert out[j] in out;
      }
    }
    assert r == out[..k] + [NUL] + buf[k + 1..];
    VisibleOfTerminated(out[..k], buf[k + 1..]);
  }

  /** The whole output reaches the buffer exactly when it is shorter than the buffer. */
  lemma FilledComplete(buf: seq<char>, out: seq<char>, length: int)
    requires 1 <= length <= |buf| && NUL !in out
    ensures Visible(Filled(buf, out, length)) == out <==> |out| < length
  {
    FilledString(buf, out, length);
  }

  /** "hello world" into a buffer of five bytes: the count is eleven, and the buffer starts
      with "hell" and the terminator. */
  lemma TruncatedHello(cfg: Config, buf: seq<char>)
    requires |buf| >= 5
    ensures var out := Format(cfg, "hello world", []);
      |out| == 11 && Filled(buf, out, 5)[..5] == "hell" + [NUL]
  {
    PrintfProperties.LiteralCopy(cfg, "hello world", []);
  }

  // ---------------------------------------------------------------------------------------
  // The sink as written

  /** The sink's counters as written: the number of bytes stored so far, and the count of
      bytes left. */
  datatype Counters = Counters(stored: nat, left: int)

  /** TinySNPrintChar as written: it stores while the count of bytes left is not zero. Each
      store moves one byte from the count left to the count stored. */
  function PutCharAsWritten(s: Counters): (r: Counters)
    ensures r.stored + r.left == s.stored + s.left
    ensures r.stored == s.stored + 1 <==> s.left != 0
    ensures r.stored == s.stored || r.stored == s.stored + 1
  {
    if s.left != 0 then Counters(s.stored + 1, s.left - 1) else s
  }

  /** `n` characters through the sink as written: at most `n` of them are stored, and the
      sum of the two counters is kept. */
  function EmitAsWritten(s: Counters, n: nat): (r: Counters)
    ensures r.stored + r.left == s.stored + s.left
    ensures s.stored <= r.stored <= s.stored + n
    decreases n
  {
    if n == 0 then s else EmitAsWritten(PutCharAsWritten(s), n - 1)
  }

  /** The number of bytes TinySNprintf as written stores for `n` output characters into a
      buffer of `length` bytes, the terminator included: never more than `n + 1`. */
  function StoresAsWritten(length: int, n: nat): (r: nat)
    ensures r <= n + 1
  {
    var s := EmitAsWritten(Counters(0, length - 1), n);
    PutCharAsWritten(Counters(s.stored, s.left + 1)).stored
  }

  /** From a count that is not negative, the sink as written stops when the count runs out. */
  lemma {:induction false} EmitFromCount(stored: nat, left: nat, n: nat)
    ensures var k := if n < left then n else left;
      EmitAsWritten(Counters(stored, left), n) == Counters(stored + k, left - k)
    decreases n
  {
    if n > 0 && left > 0 {
      EmitFromCount(stored + 1, left - 1, n - 1);
    } else if n > 0 {
      EmitFromCount(stored, left, n - 1);
    }
  }

  /** From a negative count, the sink as written stores every character. */
  lemma {:induction false} EmitFromNegative(stored: nat, left: int, n: nat)
    requires left < 0
    ensures EmitAsWritten(Counters(stored, left), n) == Counters(stored + n, left - n)
    decreases n
  {
    if n > 0 {
      EmitFromNegative(stored + 1, left - 1, n - 1);
    }
  }

  /** With a buffer of at least one byte the sink as written stores the kept characters and
      the terminator, exactly as the corrected sink does, and stays within the buffer. */
  lemma StoresAsWrittenFit(length: int, n: nat)
    requires length >= 1
    ensures StoresAsWritten(length, n) == Kept(n, length) + 1 <= length
  {
    EmitFromCount(0, length - 1, n);
  }

  /** With a buffer of no bytes, the count of bytes left starts at -1 and does not reach
      zero while characters arrive: for any output at all, the sink as written stores every
      character and the terminator, `n + 1` bytes into a buffer of none. */
  lemma ZeroLengthOverrun(n: nat)
    ensures StoresAsWritten(0, n) == if n == 0 then 0 else n + 1
  {
    EmitFromNegative(0, -1, n);
  }

  /** With a negative `length` the count of bytes left starts below -1 and never reaches
      zero: the sink as written stores every character and the terminator, `n + 1` bytes,
      even for empty output. */
  lemma NegativeLengthOverrun(length: int, n: nat)
    requires length < 0
    ensures StoresAsWritten(length, n) == n + 1
  {
    EmitFromNegative(0, length - 1, n);
  }
}
