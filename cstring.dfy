/** NUL-terminated character strings, seen as the memory that starts at a `char *`.
    A sequence stands for the bytes from the pointer on; reading past its end yields
    the terminator, so a sequence without a NUL is a string that ends where it ends. */
module CString {

  const NUL: char := '\0'

  /** `*p`: the character at the start of the memory `s`. */
  function Head(s: seq<char>): char {
    if |s| == 0 then NUL else s[0]
  }

  /** `p[k]`: the character at offset `k` of the memory `s`. */
  function At(s: seq<char>, k: nat): char {
    if k < |s| then s[k] else NUL
  }

  /** `p + 1`: the memory after the first character; past the end it stays empty. */
  function Next(s: seq<char>): (r: seq<char>)
    ensures |s| > 0 ==> |r| == |s| - 1
    ensures |s| == 0 ==> r == []
  {
    if |s| == 0 then [] else s[1..]
  }

  /** The length of the string at `s`: the offset of its first NUL. */
  function Len(s: seq<char>): (n: nat)
    ensures n <= |s|
    ensures n < |s| ==> s[n] == NUL
    ensures forall k :: 0 <= k < n ==> s[k] != NUL
  {
    if |s| == 0 || s[0] == NUL then 0 else 1 + Len(s[1..])
  }

  /** The characters of the string at `s`, without its terminator. */
  function Visible(s: seq<char>): seq<char> {
    s[..Len(s)]
  }

  /** `k` copies of the character `c`. */
  function Fill(c: char, k: nat): seq<char> {
    seq(k, _ => c)
  }

  /** A text without NUL, followed by a terminator and any further memory, is read back as that text. */
  lemma VisibleOfTerminated(t: seq<char>, rest: seq<char>)
    requires NUL !in t
    ensures Len(t + [NUL] + rest) == |t|
    ensures Visible(t + [NUL] + rest) == t
  {
    assert (t + [NUL] + rest)[|t|] == NUL;
  }

  /** A sequence with no NUL is a string of its own length. */
  lemma LenWithoutNul(s: seq<char>)
    requires NUL !in s
    ensures Len(s) == |s| && Visible(s) == s
  {
  }

  /** The memories `a` and `b` hold the same string: they agree up to their terminators. */
  predicate SameString(a: seq<char>, b: seq<char>) {
    Visible(a) == Visible(b)
  }

  /** Two memories holding the same string start with the same character and, unless
      that is the terminator, hold the same string after it. */
  lemma SameStringStep(a: seq<char>, b: seq<char>)
    requires SameString(a, b)
    ensures Head(a) == Head(b)
    ensures Head(a) != NUL ==> |a| > 0 && |b| > 0 && a[0] == b[0] && SameString(Next(a), Next(b))
  {
    if Len(a) > 0 {
      assert a[0] == Visible(a)[0] == Visible(b)[0] == b[0];
      assert Visible(Next(a)) == Visible(a)[1..] == Visible(b)[1..] == Visible(Next(b));
    }
  }

  /** A string is the string of its own visible text. */
  lemma SameAsVisible(s: seq<char>)
    ensures SameString(s, Visible(s))
  {
    LenWithoutNul(Visible(s));
  }
}
