/**
 * The two in-place clean-ups of model output that the program defines but
 * does not call: strip_triple_backticks and remove_extra_backslashes. Both
 * rewrite a NUL-terminated buffer.
 */
module Cleanup {
  import opened CStrings
  import opened ShellEscape

  const Tick: char := '`'

  /** A run of three backticks starts at index i. */
  predicate TripleAt(t: string, i: nat)
    requires i + 3 <= |t|
  {
    t[i] == Tick && t[i + 1] == Tick && t[i + 2] == Tick
  }

  predicate NoTriple(t: string) {
    forall i :: 0 <= i && i + 3 <= |t| ==> !TripleAt(t, i)
  }

  /** The left-to-right scan of strip_triple_backticks: skip "```", copy anything else. */
  function StripTicks(s: string): (r: string)
    ensures |r| <= |s|
    ensures IsText(s) ==> IsText(r)
    decreases |s|
  {
    if |s| >= 3 && TripleAt(s, 0) then StripTicks(s[3..])
    else if s == [] then []
    else [s[0]] + StripTicks(s[1..])
  }

  /** The characters other than backticks, in order. */
  function WithoutTicks(s: string): string
    decreases |s|
  {
    if s == [] then [] else (if s[0] == Tick then [] else [s[0]]) + WithoutTicks(s[1..])
  }

  lemma StripKeepsLead(t: string)
    requires t != [] && t[0] != Tick
    ensures StripTicks(t) != [] && StripTicks(t)[0] == t[0]
  {
  }

  /** No "```" survives: a run of n backticks keeps n mod 3 of them. */
  lemma {:induction false} StripLeavesNoTriple(s: string)
    ensures NoTriple(StripTicks(s))
    decreases |s|
  {
    if |s| >= 3 && TripleAt(s, 0) {
      StripLeavesNoTriple(s[3..]);
    } else if s != [] {
      var rest := StripTicks(s[1..]);
      var r := StripTicks(s);
      StripLeavesNoTriple(s[1..]);
      assert r == [s[0]] + rest;
      forall i | 0 <= i && i + 3 <= |r| ensures !TripleAt(r, i) {
        if i > 0 {
          assert TripleAt(r, i) == TripleAt(rest, i - 1);
        } else if s[0] == Tick {
          if s[1] != Tick {
            StripKeepsLead(s[1..]);
          } else {
            // s begins "``" followed by something other than a backtick.
            assert |s| >= 3 && s[2] != Tick;
            assert s[1..][1] == s[2];
            assert !(|s[1..]| >= 3 && TripleAt(s[1..], 0));
            assert rest == [Tick] + StripTicks(s[2..]);
            assert s[2..] == s[1..][1..];
            StripKeepsLead(s[2..]);
          }
        }
      }
    }
  }

  /** Text without "```" is left alone. */
  lemma {:induction false} StripWithoutTriple(s: string)
    requires NoTriple(s)
    ensures StripTicks(s) == s
    decreases |s|
  {
    if s != [] {
      assert !(|s| >= 3 && TripleAt(s, 0));
      assert NoTriple(s[1..]) by {
        forall i | 0 <= i && i + 3 <= |s[1..]| ensures !TripleAt(s[1..], i) {
          assert TripleAt(s[1..], i) == TripleAt(s, i + 1);
        }
      }
      StripWithoutTriple(s[1..]);
    }
  }

  /** Stripping twice is stripping once. */
  lemma StripIdempotent(s: string)
    ensures StripTicks(StripTicks(s)) == StripTicks(s)
  {
    StripLeavesNoTriple(s);
    StripWithoutTriple(StripTicks(s));
  }

  lemma WithoutTicksAppend(s: string, t: string)
    ensures WithoutTicks(s + t) == WithoutTicks(s) + WithoutTicks(t)
    decreases |s|
  {
    if s != [] {
      assert (s + t)[0] == s[0];
      assert (s + t)[1..] == s[1..] + t;
      WithoutTicksAppend(s[1..], t);
    } else {
      assert s + t == t;
    }
  }

  /** Only backticks are removed: every other character is kept, in order. */
  lemma {:induction false} StripKeepsOtherCharacters(s: string)
    ensures WithoutTicks(StripTicks(s)) == WithoutTicks(s)
    decreases |s|
  {
    if |s| >= 3 && TripleAt(s, 0) {
      StripKeepsOtherCharacters(s[3..]);
      assert s == s[..3] + s[3..];
      WithoutTicksAppend(s[..3], s[3..]);
      assert WithoutTicks(s[..3]) == [] by {
        var ticks := [Tick, Tick, Tick];
        assert s[..3] == ticks;
        assert [Tick][1..] == [] && WithoutTicks([Tick]) == [];
        assert [Tick, Tick][1..] == [Tick] && WithoutTicks([Tick, Tick]) == [];
        assert ticks[1..] == [Tick, Tick];
      }
    } else if s != [] {
      StripKeepsOtherCharacters(s[1..]);
      WithoutTicksAppend([s[0]], StripTicks(s[1..]));
      assert ([s[0]] + StripTicks(s[1..]))[1..] == StripTicks(s[1..]);
    }
  }

  /** strncmp(buf + src, "```", 3) == 0 on the characters b0, b1, b2 read
      at src, src + 1 and (when b1 is a backtick) src + 2 of the
      NUL-terminated string s. */
  lemma TripleTest(s: string, src: nat, b0: char, b1: char, b2: char)
    requires IsText(s) && src < |s|
    requires b0 == s[src]
    requires b1 == if src + 1 < |s| then s[src + 1] else NUL
    requires b1 == Tick ==> b2 == if src + 2 < |s| then s[src + 2] else NUL
    ensures (b0 == Tick && b1 == Tick && b2 == Tick) <==> (src + 3 <= |s| && TripleAt(s, src))
  {
  }

  /** One round of the scan, with the copied prefix `done` carried along. */
  lemma StripAdvance(s: string, src: nat, done: string)
    requires src < |s| && StripTicks(s) == done + StripTicks(s[src..])
    ensures src + 3 <= |s| && TripleAt(s, src) ==> StripTicks(s) == done + StripTicks(s[src + 3..])
    ensures !(src + 3 <= |s| && TripleAt(s, src)) ==>
              StripTicks(s) == (done + [s[src]]) + StripTicks(s[src + 1..])
  {
    StripStep(s, src);
  }

  lemma AssociateSnoc(done: string, c: char, rest: string)
    ensures done + ([c] + rest) == (done + [c]) + rest
  {
  }

  lemma StripStep(s: string, src: nat)
    requires src < |s|
    ensures StripTicks(s[src..]) ==
      if src + 3 <= |s| && TripleAt(s, src) then StripTicks(s[src + 3..])
      else [s[src]] + StripTicks(s[src + 1..])
  {
    var t := s[src..];
    assert t[1..] == s[src + 1..];
    if src + 3 <= |s| {
      assert t[3..] == s[src + 3..];
      assert TripleAt(t, 0) == TripleAt(s, src);
    }
  }

  /**
   * strip_triple_backticks(buf): the buffer's string loses every "```" met by
   * the scan; the buffer is rewritten in place through a source and a
   * destination index.
   */
  method StripTripleBackticks(buf: array<char>)
    requires CLen(buf[..]) < buf.Length
    modifies buf
    ensures CStr(buf[..]) == StripTicks(old(CStr(buf[..])))
  {
    ghost var s := CStr(buf[..]);
    ghost var done: string := [];
    var src: nat, dst: nat := 0, 0;
    while buf[src] != NUL
      invariant StripState(buf, s, src, dst, done)
      decreases |s| - src
    {
      src, dst, done := StripRound(buf, s, src, dst, done);
    }
    assert s[src..] == [];
    assert done == StripTicks(s);
    buf[dst] := NUL;
    assert buf[..dst] == done;
    CStrOfTerminated(done, buf[..]);
  }

  /** The loop state of strip_triple_backticks: str[src..] is still the
      original text's tail, str[..dst] holds what the scan kept of s[..src]. */
  ghost predicate StripState(buf: array<char>, s: string, src: nat, dst: nat, done: string)
    reads buf
  {
    && IsText(s) && dst <= src <= |s| < buf.Length
    && (forall k :: src <= k < |s| ==> buf[k] == s[k])
    && buf[|s|] == NUL
    && |done| == dst && (forall k :: 0 <= k < dst ==> buf[k] == done[k])
    && StripTicks(s) == done + StripTicks(s[src..])
  }

  /** One round of the loop: skip "```" or copy one character down. */
  method StripRound(buf: array<char>, ghost s: string, src: nat, dst: nat, ghost done: string)
    returns (src': nat, dst': nat, ghost done': string)
    requires StripState(buf, s, src, dst, done) && buf[src] != NUL
    modifies buf
    ensures StripState(buf, s, src', dst', done') && src < src'
  {
    var triple := buf[src] == Tick && buf[src + 1] == Tick && buf[src + 2] == Tick;
    TripleTest(s, src, buf[src], buf[src + 1], if buf[src + 1] == Tick then buf[src + 2] else NUL);
    if triple {
      StripAdvance(s, src, done);
      src', dst', done' := src + 3, dst, done;
    } else {
      done' := KeepOne(buf, s, src, dst, done);
      src', dst' := src + 1, dst + 1;
    }
  }

  /** str[dst++] = str[src++] when no "```" starts at src. */
  method KeepOne(buf: array<char>, ghost s: string, src: nat, dst: nat, ghost done: string)
    returns (ghost done': string)
    requires StripState(buf, s, src, dst, done) && src < |s|
    requires !(src + 3 <= |s| && TripleAt(s, src))
    modifies buf
    ensures StripState(buf, s, src + 1, dst + 1, done')
  {
    StripAdvance(s, src, done);
    buf[dst] := buf[src];
    done' := done + [s[src]];
  }

  /**
   * The loop of remove_extra_backslashes: "\\" becomes one backslash, a
   * backslash before a double or single quote is dropped, anything else is copied.
   */
  function Collapse(s: string): (r: string)
    ensures |r| <= |s|
    ensures IsText(s) ==> IsText(r)
    decreases |s|
  {
    if s == [] then []
    else if |s| >= 2 && s[0] == '\\' && s[1] == '\\' then ['\\'] + Collapse(s[2..])
    else if |s| >= 2 && s[0] == '\\' && (s[1] == '"' || s[1] == '\'') then [s[1]] + Collapse(s[2..])
    else [s[0]] + Collapse(s[1..])
  }

  /**
   * Collapsing undoes escape_double_quotes for text without dollar signs and
   * backticks; those two keep their escaping backslash.
   */
  lemma {:induction false} CollapseUndoesEscape(s: string)
    requires forall i :: 0 <= i < |s| ==> s[i] != '$' && s[i] != Tick
    ensures Collapse(Escape(s)) == s
    decreases |s|
  {
    if s != [] {
      var rest := Escape(s[1..]);
      var e := Escape(s);
      CollapseUndoesEscape(s[1..]);
      if IsSpecial(s[0]) {
        assert e == ['\\', s[0]] + rest && e[2..] == rest;
      } else {
        assert e == [s[0]] + rest && e[1..] == rest;
      }
      assert [s[0]] + s[1..] == s;
    }
  }

  /** The escapes of a dollar sign and a backtick survive collapsing. */
  lemma CollapseKeepsDollarEscape()
    ensures Collapse(Escape("$`")) == "\\$\\`"
  {
    assert Escape("$`") == "\\$\\`" by {
      assert "$`"[1..] == "`";
    }
    assert "\\$\\`"[1..] == "$\\`";
    assert "$\\`"[1..] == "\\`";
    assert "\\`"[1..] == "`";
  }

  /** One step of the collapsing loop at index i: `w` characters read, `out` written. */
  lemma CollapseStep(s: string, i: nat, w: nat, out: string)
    requires i < |s| && 1 <= w <= 2 && i + w <= |s|
    requires w == 2 ==> s[i] == '\\' && (s[i + 1] == '\\' || s[i + 1] == '"' || s[i + 1] == '\'')
    requires w == 2 ==> out == [s[i + 1]]
    requires w == 1 ==> out == [s[i]]
    requires w == 1 && i + 1 < |s| && s[i] == '\\' ==> s[i + 1] != '\\' && s[i + 1] != '"' && s[i + 1] != '\''
    ensures Collapse(s[i..]) == out + Collapse(s[i + w..])
  {
    var t := s[i..];
    assert t[1..] == s[i + 1..];
    if i + 1 < |s| {
      assert t[2..] == s[i + 2..];
    }
  }

  /** CollapseStep with the output written so far carried along. */
  lemma CollapseAdvance(s: string, i: nat, w: nat, out: char, done: string)
    requires i < |s| && 1 <= w <= 2 && i + w <= |s|
    requires w == 2 ==> s[i] == '\\' && (s[i + 1] == '\\' || s[i + 1] == '"' || s[i + 1] == '\'')
    requires w == 2 ==> out == s[i + 1]
    requires w == 1 ==> out == s[i]
    requires w == 1 && i + 1 < |s| && s[i] == '\\' ==> s[i + 1] != '\\' && s[i + 1] != '"' && s[i + 1] != '\''
    requires Collapse(s) == done + Collapse(s[i..])
    ensures Collapse(s) == (done + [out]) + Collapse(s[i + w..])
  {
    CollapseStep(s, i, w, [out]);
    AssociateSnoc(done, out, Collapse(s[i + w..]));
  }

  /**
   * The loop of remove_extra_backslashes: the collapsed string is built in a
   * fresh temporary array of strlen + 1 characters.
   */
  method CollapseIntoTemp(buf: array<char>) returns (result: array<char>)
    requires CLen(buf[..]) < buf.Length
    ensures fresh(result) && result.Length == CLen(buf[..]) + 1
    ensures CLen(result[..]) < result.Length && CStr(result[..]) == Collapse(CStr(buf[..]))
  {
    ghost var s := CStr(buf[..]);
    var len := CLen(buf[..]);
    result := new char[len + 1];
    ghost var done: string := [];
    var i: nat, j: nat := 0, 0;
    while i < len
      invariant CollapseState(buf, result, s, i, j, done)
      decreases len - i
    {
      i, j, done := CollapseRound(buf, result, s, i, j, done);
    }
    assert s[i..] == [];
    assert done == Collapse(s);
    result[j] := NUL;
    assert result[..j] == done;
    CStrOfTerminated(done, result[..]);
  }

  /** The loop state of remove_extra_backslashes: str still holds s, and
      result[..j] holds the collapse of what was read of s[..i]. */
  ghost predicate CollapseState(buf: array<char>, result: array<char>, s: string,
                                i: nat, j: nat, done: string)
    reads buf, result
  {
    && buf != result && IsText(s) && |s| < buf.Length && result.Length == |s| + 1
    && (forall k :: 0 <= k < |s| ==> buf[k] == s[k])
    && buf[|s|] == NUL
    && j <= i <= |s|
    && |done| == j && (forall k :: 0 <= k < j ==> result[k] == done[k])
    && Collapse(s) == done + Collapse(s[i..])
  }

  /** One round of the loop: read one or two characters, write one. */
  method CollapseRound(buf: array<char>, result: array<char>, ghost s: string,
                       i: nat, j: nat, ghost done: string)
    returns (i': nat, j': nat, ghost done': string)
    requires CollapseState(buf, result, s, i, j, done) && i < |s|
    modifies result
    ensures CollapseState(buf, result, s, i', j', done') && i < i'
  {
    // str[i + 1] is the terminator when i is the last index.
    var c, next := buf[i], buf[i + 1];
    // Each step writes one character and reads one or two.
    var out, w := c, 1;
    if c == '\\' && next == '\\' {
      out, w := '\\', 2;
    } else if c == '\\' && (next == '"' || next == '\'') {
      out, w := next, 2;
    }
    CollapseAdvance(s, i, w, out, done);
    result[j] := out;
    i', j', done' := i + w, j + 1, done + [out];
  }

  /** remove_extra_backslashes(buf): collapse into a temporary array, then strcpy it back. */
  method RemoveExtraBackslashes(buf: array<char>)
    requires CLen(buf[..]) < buf.Length
    modifies buf
    ensures CStr(buf[..]) == Collapse(old(CStr(buf[..])))
  {
    var result := CollapseIntoTemp(buf);
    StrCopy(buf, result);
  }
}
