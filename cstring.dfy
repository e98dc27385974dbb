/**
 * C string conventions shared by every routine of the assistant.
 *
 * A text value (what a `const char *` points at, up to its terminator) is a
 * `string` without NUL characters. A fixed-size `char` buffer is an
 * `array<char>`; the string it holds is everything before its first NUL.
 */
module CStrings {
  const NUL: char := '\0'

  /** The contents of a C string: no NUL before the terminator. */
  predicate IsText(s: string) {
    forall i :: 0 <= i < |s| ==> s[i] != NUL
  }

  /** strlen: the index of the first NUL, or the whole length when there is none. */
  function CLen(b: seq<char>): (n: nat)
    ensures n <= |b|
    ensures forall k :: 0 <= k < n ==> b[k] != NUL
    ensures n < |b| ==> b[n] == NUL
  {
    if b == [] || b[0] == NUL then 0 else 1 + CLen(b[1..])
  }

  /** The C string a buffer holds. */
  function CStr(b: seq<char>): (s: string)
    ensures IsText(s) && |s| <= |b| && s == b[..|s|]
    ensures |s| < |b| ==> b[|s|] == NUL
  {
    b[..CLen(b)]
  }

  /** A buffer holding text `t` followed by a terminator reads back as `t`, whatever follows. */
  lemma CStrOfTerminated(t: string, b: seq<char>)
    requires IsText(t) && |t| < |b| && b[..|t|] == t && b[|t|] == NUL
    ensures CStr(b) == t
  {
  }

  /** What `snprintf(buf, n + 1, "%s", s)` and `strncpy(buf, s, n)` keep of `s`. */
  function Truncate(s: string, n: nat): (r: string)
    ensures |r| <= n && |r| <= |s| && r == s[..|r|]
    ensures |s| <= n ==> r == s
    ensures |s| > n ==> |r| == n
  {
    if |s| <= n then s else s[..n]
  }

  /** `strncmp(s, p, strlen(p)) == 0` for a text `s`: `s` begins with `p`. */
  predicate StartsWith(s: string, p: string) {
    |p| <= |s| && s[..|p|] == p
  }

  /** `s[strcspn(s, "\n")] = '\0'`: the part of `s` before its first newline. */
  function BeforeNewline(s: string): (r: string)
    ensures |r| <= |s| && r == s[..|r|]
    ensures '\n' !in r
    ensures |r| < |s| ==> s[|r|] == '\n'
  {
    if s == [] || s[0] == '\n' then [] else [s[0]] + BeforeNewline(s[1..])
  }

  /** The text of a line is everything before its newline. */
  lemma {:induction false} BeforeNewlineOfLine(a: string, more: string)
    requires '\n' !in a
    ensures BeforeNewline(a + "\n" + more) == a
    decreases |a|
  {
    if a != [] {
      BeforeNewlineOfLine(a[1..], more);
      assert (a + "\n" + more)[1..] == a[1..] + "\n" + more;
    }
  }

  /** A prefix without newlines starts a line exactly when it starts the line's text. */
  lemma PrefixOfLine(a: string, more: string, p: string)
    requires '\n' !in a && '\n' !in p
    ensures StartsWith(a + "\n" + more, p) <==> StartsWith(a, p)
  {
    var s := a + "\n" + more;
    if |p| <= |a| {
      assert s[..|p|] == a[..|p|];
    } else {
      assert s[|a|] == '\n' && p[|a|] != '\n';
      if |p| <= |s| {
        assert s[..|p|][|a|] == '\n';
      }
    }
  }

  /** What one fgets call takes off a stream, and what it leaves there. */
  datatype Chunk = Chunk(line: string, rest: string)

  /**
   * fgets(buf, size, stream) on a stream holding `input`: it reads up to
   * size - 1 characters, stopping after the first newline, and the rest
   * stays on the stream for the next call. At the end of input nothing is
   * read.
   */
  function Fgets(input: string, size: nat): (c: Chunk)
    ensures c.line + c.rest == input
    ensures |c.line| <= size - 1 || (size == 0 && c.line == [])
    ensures forall k :: 0 <= k < |c.line| - 1 ==> c.line[k] != '\n'
    ensures c.rest == [] || |c.line| >= size - 1 || (c.line != [] && c.line[|c.line| - 1] == '\n')
  {
    if input == [] || size <= 1 then Chunk([], input)
    else if input[0] == '\n' then Chunk([input[0]], input[1..])
    else
      var c := Fgets(input[1..], size - 1);
      Chunk([input[0]] + c.line, c.rest)
  }

  /**
   * A test against a prefix `p` that fits in the buffer and holds no newline
   * before its last character reads the same on the chunk fgets returns as
   * on the whole input.
   */
  lemma {:induction false} FgetsKeepsPrefixTests(input: string, size: nat, p: string)
    requires |p| <= size - 1
    requires forall k :: 0 <= k < |p| - 1 ==> p[k] != '\n'
    ensures StartsWith(Fgets(input, size).line, p) <==> StartsWith(input, p)
    decreases |p|
  {
    if p != [] && input != [] && input[0] == p[0] && input[0] != '\n' {
      FgetsKeepsPrefixTests(input[1..], size - 1, p[1..]);
      var c := Fgets(input, size);
      assert c.line == [input[0]] + Fgets(input[1..], size - 1).line;
      assert StartsWith(c.line, p) <==> StartsWith(Fgets(input[1..], size - 1).line, p[1..]);
      assert StartsWith(input, p) <==> StartsWith(input[1..], p[1..]);
    }
  }

  /** A line that fits the buffer is read whole, newline included. */
  lemma {:induction false} FgetsReadsShortLine(a: string, more: string, size: nat)
    requires '\n' !in a && |a| + 1 <= size - 1
    ensures Fgets(a + "\n" + more, size) == Chunk(a + "\n", more)
    decreases |a|
  {
    var input := a + "\n" + more;
    if a == [] {
      assert input == "\n" + more;
      assert input[1..] == more;
    } else {
      assert input[0] == a[0] && input[1..] == a[1..] + "\n" + more;
      FgetsReadsShortLine(a[1..], more, size - 1);
      assert [a[0]] + (a[1..] + "\n") == a + "\n";
    }
  }

  /** A longer line is cut after size - 1 characters; its tail stays on the stream. */
  lemma {:induction false} FgetsSplitsLongLine(a: string, more: string, size: nat)
    requires size >= 1 && '\n' !in a && |a| >= size - 1
    ensures Fgets(a + more, size) == Chunk(a[..size - 1], a[size - 1..] + more)
    decreases size
  {
    if size > 1 {
      FgetsSplitsLongLine(a[1..], more, size - 1);
      assert (a + more)[1..] == a[1..] + more;
      assert a[..size - 1] == [a[0]] + a[1..][..size - 2];
    } else {
      assert a[..0] == [] && a[0..] == a;
    }
  }

  /**
   * The buffer after `snprintf(buf, |b|, "%s", s)`: the first `|b| - 1`
   * characters of `s`, a terminator, and the old contents after it.
   */
  function Formatted(b: seq<char>, s: string): (r: seq<char>)
    requires |b| >= 1
    ensures |r| == |b|
  {
    var t := Truncate(s, |b| - 1);
    t + [NUL] + b[|t| + 1..]
  }

  lemma FormattedReadsBack(b: seq<char>, s: string)
    requires |b| >= 1 && IsText(s)
    ensures CStr(Formatted(b, s)) == Truncate(s, |b| - 1)
  {
    var t := Truncate(s, |b| - 1);
    var r := Formatted(b, s);
    assert r[..|t|] == t;
    CStrOfTerminated(t, r);
  }

  /** snprintf(buf, buf.Length, "%s", s), written out character by character. */
  method FormatInto(buf: array<char>, s: string)
    requires buf.Length >= 1
    modifies buf
    ensures buf[..] == Formatted(old(buf[..]), s)
  {
    var t := Truncate(s, buf.Length - 1);
    var i := 0;
    while i < |t|
      invariant 0 <= i <= |t|
      invariant buf[..i] == t[..i]
      invariant buf[i..] == old(buf[..])[i..]
    {
      buf[i] := t[i];
      i := i + 1;
      assert buf[..i] == t[..i];
    }
    buf[|t|] := NUL;
    assert buf[..] == t + [NUL] + old(buf[..])[|t| + 1..];
  }

  /** strcpy(dst, src): the string and its terminator are copied; the rest of dst is left alone. */
  method StrCopy(dst: array<char>, src: array<char>)
    requires dst != src
    requires CLen(src[..]) < src.Length && CLen(src[..]) < dst.Length
    modifies dst
    ensures CStr(dst[..]) == CStr(src[..])
    ensures forall k :: CLen(src[..]) < k < dst.Length ==> dst[k] == old(dst[k])
  {
    var t := CStr(src[..]);
    var k := 0;
    while src[k] != NUL
      invariant 0 <= k <= |t|
      invariant dst[..k] == t[..k]
      invariant forall m :: k <= m < dst.Length ==> dst[m] == old(dst[m])
      decreases |t| - k
    {
      dst[k] := src[k];
      k := k + 1;
      assert dst[..k] == t[..k];
    }
    dst[k] := NUL;
    assert dst[..k] == t;
    CStrOfTerminated(t, dst[..]);
  }
}
