/**
 * escape_double_quotes: before a command is wrapped in `bash -c "..."`, each
 * double quote, backslash, dollar sign and backtick gets a backslash in front
 * of it, in an output buffer of fixed size that the escaper never overruns
 * and in which it never leaves half an escape pair.
 */
module ShellEscape {
  import opened Wrappers
  import opened CStrings

  /** The characters that are special inside a double-quoted shell word. */
  predicate IsSpecial(c: char) {
    c == '"' || c == '\\' || c == '$' || c == '`'
  }

  function EscapeChar(c: char): string {
    if IsSpecial(c) then ['\\', c] else [c]
  }

  /** The escape of a whole string, with no bound on its length. */
  function Escape(s: string): string
    decreases |s|
  {
    if s == [] then [] else EscapeChar(s[0]) + Escape(s[1..])
  }

  /** Reads an escaped string back; `None` for a lone or misplaced backslash or special character. */
  function Unescape(t: string): Option<string>
    decreases |t|
  {
    if t == [] then Some([])
    else if t[0] == '\\' then
      if |t| >= 2 && IsSpecial(t[1]) then
        match Unescape(t[2..])
        case Some(rest) => Some([t[1]] + rest)
        case None => None
      else None
    else if IsSpecial(t[0]) then None
    else
      match Unescape(t[1..])
      case Some(rest) => Some([t[0]] + rest)
      case None => None
  }

  lemma {:induction false} EscapeAppend(s: string, t: string)
    ensures Escape(s + t) == Escape(s) + Escape(t)
    decreases |s|
  {
    if s != [] {
      assert (s + t)[0] == s[0];
      assert (s + t)[1..] == s[1..] + t;
      EscapeAppend(s[1..], t);
    } else {
      assert s + t == t;
    }
  }

  lemma {:induction false} EscapeLength(s: string)
    ensures |s| <= |Escape(s)| <= 2 * |s|
    decreases |s|
  {
    if s != [] {
      EscapeLength(s[1..]);
    }
  }

  /** Escaping only adds characters: the escape of a text is a text. */
  lemma {:induction false} EscapeIsText(s: string)
    requires IsText(s)
    ensures IsText(Escape(s))
    decreases |s|
  {
    if s != [] {
      EscapeIsText(s[1..]);
      var e := Escape(s);
      forall i | 0 <= i < |e| ensures e[i] != NUL {
        if i >= |EscapeChar(s[0])| {
          assert e[i] == Escape(s[1..])[i - |EscapeChar(s[0])|];
        }
      }
    }
  }

  /** Every escape is read back exactly: no backslash is left unpaired. */
  lemma {:induction false} UnescapeEscape(s: string)
    ensures Unescape(Escape(s)) == Some(s)
    decreases |s|
  {
    if s != [] {
      UnescapeEscape(s[1..]);
      var e := Escape(s);
      var rest := Escape(s[1..]);
      if IsSpecial(s[0]) {
        assert e == ['\\', s[0]] + rest;
        assert e[0] == '\\' && e[1] == s[0] && e[2..] == rest;
        assert [s[0]] + s[1..] == s;
      } else {
        assert e == [s[0]] + rest;
        assert e[0] == s[0] && e[0] != '\\';
        assert e[1..] == rest;
        assert [s[0]] + s[1..] == s;
      }
    }
  }

  /** A command with no special characters is passed through unchanged. */
  lemma {:induction false} EscapePlain(s: string)
    requires forall i :: 0 <= i < |s| ==> !IsSpecial(s[i])
    ensures Escape(s) == s
    decreases |s|
  {
    if s != [] {
      EscapePlain(s[1..]);
    }
  }

  /**
   * How many input characters fit, escaped, in `room` output characters,
   * taking them from the front and stopping at the first that does not fit.
   */
  function FitLength(s: string, room: nat): (k: nat)
    ensures k <= |s|
    decreases |s|
  {
    if s == [] then 0
    else
      var w := |EscapeChar(s[0])|;
      if w <= room then 1 + FitLength(s[1..], room - w) else 0
  }

  /**
   * FitLength picks the longest prefix whose escape fits: that escape takes
   * at most `room` characters and one more input character would not fit.
   */
  lemma {:induction false} FitLengthIsLongest(s: string, room: nat)
    ensures |Escape(s[..FitLength(s, room)])| <= room
    ensures FitLength(s, room) < |s| ==> |Escape(s[..FitLength(s, room) + 1])| > room
    decreases |s|
  {
    var k := FitLength(s, room);
    if s != [] {
      var w := |EscapeChar(s[0])|;
      if w <= room {
        FitLengthIsLongest(s[1..], room - w);
        assert s[..k] == [s[0]] + s[1..][..k - 1];
        EscapeAppend([s[0]], s[1..][..k - 1]);
        if k < |s| {
          assert s[..k + 1] == [s[0]] + s[1..][..k];
          EscapeAppend([s[0]], s[1..][..k]);
        }
      } else {
        assert s[..1] == [s[0]];
        EscapeAppend([s[0]], []);
      }
    }
  }

  /** When the whole escape fits, the whole input is escaped. */
  lemma FitLengthWhole(s: string, room: nat)
    requires |Escape(s)| <= room
    ensures FitLength(s, room) == |s|
  {
    FitLengthIsLongest(s, room);
  }

  /** One input step of the escaper's loop, as FitLength sees it. */
  lemma FitLengthStep(s: string, i: nat, room: nat)
    requires i < |s|
    ensures FitLength(s[i..], room) ==
      if |EscapeChar(s[i])| <= room then 1 + FitLength(s[i + 1..], room - |EscapeChar(s[i])|) else 0
  {
    assert s[i..][0] == s[i];
    assert s[i..][1..] == s[i + 1..];
  }

  lemma EscapeSnoc(s: string, i: nat)
    requires i < |s|
    ensures Escape(s[..i + 1]) == Escape(s[..i]) + EscapeChar(s[i])
  {
    assert s[..i + 1] == s[..i] + [s[i]];
    EscapeAppend(s[..i], [s[i]]);
  }

  /** output[j++] = ... for the one or two characters of `e`. */
  method Put(output: array<char>, j: nat, e: string)
    requires 1 <= |e| <= 2 && j + |e| <= output.Length
    modifies output
    ensures output[..j + |e|] == old(output[..j]) + e
    ensures forall k :: j + |e| <= k < output.Length ==> output[k] == old(output[k])
  {
    output[j] := e[0];
    if |e| == 2 {
      output[j + 1] := e[1];
    }
  }

  /** With no room left or no input left, nothing more fits. */
  lemma FitLengthDone(s: string, i: nat, room: nat)
    requires i <= |s| && (i == |s| || room == 0)
    ensures FitLength(s[i..], room) == 0
  {
    if i < |s| {
      FitLengthStep(s, i, room);
    }
  }

  /**
   * escape_double_quotes(input, output, output.Length): the output buffer
   * holds the escape of the longest prefix of the input whose escape fits in
   * `output.Length - 1` characters, then a terminator; nothing after it is touched.
   */
  method EscapeDoubleQuotes(input: string, output: array<char>)
    requires IsText(input) && output.Length >= 1
    modifies output
    ensures var r := Escape(input[..FitLength(input, output.Length - 1)]);
      && |r| < output.Length && output[..|r|] == r && output[|r|] == NUL
      && forall k :: |r| < k < output.Length ==> output[k] == old(output[k])
  {
    ghost var orig := output[..];
    var room := output.Length - 1;
    var i: nat, j: nat := 0, 0;
    while i < |input| && j < room
      invariant EscapeState(output, orig, input, i, j)
      decreases |input| - i
    {
      var stop;
      i, j, stop := EscapeRound(output, orig, input, i, j);
      if stop {
        break;
      }
    }
    if i == |input| || j == room {
      FitLengthDone(input, i, room - j);
    }
    assert FitLength(input, room) == i;
    output[j] := NUL;
    assert output[..j] == Escape(input[..i]);
  }

  /**
   * The loop state of escape_double_quotes: output[..j] is the escape of
   * input[..i], the characters still to fit are those FitLength counts from
   * i, and the rest of the buffer is untouched.
   */
  ghost predicate EscapeState(output: array<char>, orig: seq<char>, input: string, i: nat, j: nat)
    reads output
  {
    && output.Length >= 1 && |orig| == output.Length
    && i <= |input| && j <= output.Length - 1
    && output[..j] == Escape(input[..i])
    && FitLength(input, output.Length - 1) == i + FitLength(input[i..], output.Length - 1 - j)
    && (forall k :: j <= k < output.Length ==> output[k] == orig[k])
  }

  /**
   * One round of the loop: copy the next character, or its escape pair, or
   * stop when the pair no longer fits. A special character needs room for
   * its pair (j + 1 < room); any other character fits, since j < room.
   */
  method EscapeRound(output: array<char>, ghost orig: seq<char>, input: string, i: nat, j: nat)
    returns (i': nat, j': nat, stop: bool)
    requires EscapeState(output, orig, input, i, j) && i < |input| && j < output.Length - 1
    modifies output
    ensures EscapeState(output, orig, input, i', j')
    ensures stop ==> i' == i && FitLength(input, output.Length - 1) == i
    ensures !stop ==> i' == i + 1
  {
    var room := output.Length - 1;
    FitLengthStep(input, i, room - j);
    EscapeSnoc(input, i);
    var e := EscapeChar(input[i]);
    if j + |e| > room {
      return i, j, true;
    }
    Put(output, j, e);
    i', j', stop := i + 1, j + |e|, false;
  }
}
