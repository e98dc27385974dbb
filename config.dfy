/**
 * Configuration and command-line text: the line logic of
 * get_multiline_config_value and get_api_key, and the joining of the
 * command-line arguments into the first prompt in main.
 *
 * The configuration file is given as the sequence of chunks `fgets` hands
 * back (each a text ending in at most one newline); the file itself is not
 * modelled.
 */
module Config {
  import opened Wrappers
  import opened CStrings

  const PromptPrefix := "PROMPT="
  const AddedPromptPrefix := "ADDEDPROMPT="
  const KeyPrefix := "OPENAIKEY="
  /** char prompt[RESPONSE_BUFFER_SIZE] in main */
  const PromptCapacity := 64000

  // ---------------------------------------------------------------------
  // Joining with single spaces, and splitting back

  /** vs[0] + " " + vs[1] + " " + ... + vs[|vs| - 1] */
  function JoinSpaces(vs: seq<string>): string
  {
    if |vs| == 0 then ""
    else if |vs| == 1 then vs[0]
    else JoinSpaces(vs[..|vs| - 1]) + " " + vs[|vs| - 1]
  }

  lemma {:induction false} JoinSpacesFront(vs: seq<string>)
    requires |vs| >= 2
    ensures JoinSpaces(vs) == vs[0] + " " + JoinSpaces(vs[1..])
    decreases |vs|
  {
    var n := |vs|;
    if n > 2 {
      var init := vs[..n - 1];
      JoinSpacesFront(init);
      assert init[1..] == vs[1..][..n - 2];
      assert vs[1..][n - 2] == vs[n - 1];
    } else {
      assert vs[..1] == [vs[0]];
      assert vs[1..] == [vs[1]];
    }
  }

  function IndexOfSpace(s: string): (k: nat)
    requires ' ' in s
    ensures k < |s| && s[k] == ' '
    ensures forall j :: 0 <= j < k ==> s[j] != ' '
  {
    if s[0] == ' ' then 0 else 1 + IndexOfSpace(s[1..])
  }

  /** The words of `s` between single spaces; the inverse of JoinSpaces. */
  function SplitSpaces(s: string): (r: seq<string>)
    ensures |r| >= 1
    decreases |s|
  {
    if ' ' !in s then [s]
    else
      var k := IndexOfSpace(s);
      [s[..k]] + SplitSpaces(s[k + 1..])
  }

  predicate NoSpaces(vs: seq<string>)
  {
    forall i :: 0 <= i < |vs| ==> ' ' !in vs[i]
  }

  /** The first word of w + " " + t is w, when w holds no space. */
  lemma SplitFirstWord(w: string, t: string)
    requires ' ' !in w
    ensures SplitSpaces(w + " " + t) == [w] + SplitSpaces(t)
  {
    var s := w + " " + t;
    assert s[|w|] == ' ';
    forall j | 0 <= j < |w|
      ensures s[j] != ' '
    {
      assert s[j] == w[j];
    }
    assert IndexOfSpace(s) == |w|;
    assert s[..|w|] == w;
    assert s[|w| + 1..] == t;
  }

  /** Joining words that hold no space loses nothing: they split back. */
  lemma {:induction false} SplitJoin(vs: seq<string>)
    requires |vs| >= 1 && NoSpaces(vs)
    ensures SplitSpaces(JoinSpaces(vs)) == vs
    decreases |vs|
  {
    if |vs| >= 2 {
      JoinSpacesFront(vs);
      SplitFirstWord(vs[0], JoinSpaces(vs[1..]));
      SplitJoin(vs[1..]);
      assert vs == [vs[0]] + vs[1..];
    }
  }

  // ---------------------------------------------------------------------
  // get_multiline_config_value

  /**
   * The value a line that starts with `prefix` contributes, as the code
   * evidently means to read it: everything after the prefix (which ends in
   * '='), without the trailing newline.
   */
  function LineValue(prefix: string, line: string): (v: string)
    requires StartsWith(line, prefix)
    ensures |line| > |prefix| && line[|line| - 1] == '\n' ==> line == prefix + v + "\n"
    ensures !(|line| > |prefix| && line[|line| - 1] == '\n') ==> line == prefix + v
  {
    var rest := line[|prefix|..];
    if |rest| > 0 && rest[|rest| - 1] == '\n' then rest[..|rest| - 1] else rest
  }

  /**
   * The same value as ai.c:77-84 read it. The value starts strlen(prefix)
   * + 1 characters in, one past the prefix; and when nothing is left
   * there, the newline test reads line_value[-1] through an unsigned
   * underflow (or the value already starts past the terminator). None stands
   * for that undefined read.
   */
  function LineValueAsWritten(prefix: string, line: string): Option<string>
    requires StartsWith(line, prefix)
  {
    if |line| <= |prefix| + 1 then None
    else
      var rest := line[|prefix| + 1..];
      Some(if rest[|rest| - 1] == '\n' then rest[..|rest| - 1] else rest)
  }

  /** Wherever the code as written is defined, it loses exactly the first
      character of the intended value. */
  lemma AsWrittenDropsFirstChar(prefix: string, line: string)
    requires StartsWith(line, prefix) && |line| > |prefix| + 1
    ensures |LineValue(prefix, line)| >= 1
    ensures LineValueAsWritten(prefix, line) == Some(LineValue(prefix, line)[1..])
  {
    var rest := line[|prefix|..];
    var n := |rest|;
    assert line[|prefix| + 1..] == rest[1..];
    assert rest[1..][n - 2] == rest[n - 1];
    assert rest[1..][..n - 2] == rest[..n - 1][1..];
  }

  /** An empty value (a bare "PROMPT=" line, with or without its newline)
      always reaches the undefined read. */
  lemma EmptyValueIsUndefined(prefix: string, line: string)
    requires StartsWith(line, prefix) && LineValue(prefix, line) == ""
    ensures LineValueAsWritten(prefix, line) == None
  {
  }

  lemma PromptLineLosesFirstChar()
    ensures LineValue(PromptPrefix, "PROMPT=hello\n") == "hello"
    ensures LineValueAsWritten(PromptPrefix, "PROMPT=hello\n") == Some("ello")
  {
    AsWrittenDropsFirstChar(PromptPrefix, "PROMPT=hello\n");
    assert "PROMPT=hello\n"[|PromptPrefix|..] == "hello\n";
  }

  lemma EmptyPromptValueIsUndefined()
    ensures LineValue(PromptPrefix, "PROMPT=\n") == ""
    ensures LineValueAsWritten(PromptPrefix, "PROMPT=\n") == None
  {
    assert "PROMPT=\n"[|PromptPrefix|..] == "\n";
  }

  /** The values of the lines that start with `prefix`, in file order. */
  function Selected(prefix: string, lines: seq<string>): seq<string>
  {
    if |lines| == 0 then []
    else
      var init := Selected(prefix, lines[..|lines| - 1]);
      var line := lines[|lines| - 1];
      if StartsWith(line, prefix) then init + [LineValue(prefix, line)] else init
  }

  /** The configuration value for `prefix`: the selected values joined with
      single spaces, or None when no line carries the prefix. */
  function ConfigValue(prefix: string, lines: seq<string>): Option<string>
  {
    var vs := Selected(prefix, lines);
    if vs == [] then None else Some(JoinSpaces(vs))
  }

  /** value[0 .. value_len): every selected value followed by one space. */
  function Pieces(vs: seq<string>): string
  {
    if |vs| == 0 then "" else Pieces(vs[..|vs| - 1]) + vs[|vs| - 1] + " "
  }

  lemma {:induction false} PiecesAreJoinAndSpace(vs: seq<string>)
    requires |vs| >= 1
    ensures Pieces(vs) == JoinSpaces(vs) + " "
    decreases |vs|
  {
    if |vs| >= 2 {
      PiecesAreJoinAndSpace(vs[..|vs| - 1]);
    }
  }

  /**
   * get_multiline_config_value(prefix) over the file's lines, with the
   * value read from just after the prefix. The buffer `buf` holds
   * value[0 .. value_len), `hasValue` stands for value != NULL, and the
   * final write of '\0' over the last space drops that space.
   */
  method MultilineConfigValue(prefix: string, lines: seq<string>) returns (value: Option<string>)
    ensures value == ConfigValue(prefix, lines)
  {
    var buf := "";
    var hasValue := false;
    var i := 0;
    while i < |lines|
      invariant i <= |lines|
      invariant buf == Pieces(Selected(prefix, lines[..i]))
      invariant hasValue <==> Selected(prefix, lines[..i]) != []
    {
      assert lines[..i + 1][..i] == lines[..i];
      if StartsWith(lines[i], prefix) {
        var v := LineValue(prefix, lines[i]);
        buf := buf + v + " ";
        hasValue := true;
      }
      i := i + 1;
    }
    assert lines[..i] == lines;
    if hasValue {
      PiecesAreJoinAndSpace(Selected(prefix, lines));
      value := Some(buf[..|buf| - 1]);
    } else {
      value := None;
    }
  }

  /** The value is missing exactly when no line starts with the prefix. */
  lemma {:induction false} ConfigValueMissing(prefix: string, lines: seq<string>)
    ensures ConfigValue(prefix, lines).None? <==>
              forall i :: 0 <= i < |lines| ==> !StartsWith(lines[i], prefix)
    decreases |lines|
  {
    if |lines| > 0 {
      var init := lines[..|lines| - 1];
      ConfigValueMissing(prefix, init);
      assert forall i :: 0 <= i < |init| ==> init[i] == lines[i];
    }
  }

  /** A line `fgets` returns holds a newline at most as its last character. */
  predicate IsLine(line: string)
  {
    forall k :: 0 <= k < |line| - 1 ==> line[k] != '\n'
  }

  predicate NoNewlines(vs: seq<string>)
  {
    forall i :: 0 <= i < |vs| ==> '\n' !in vs[i]
  }

  lemma {:induction false} SelectedHaveNoNewlines(prefix: string, lines: seq<string>)
    requires forall i :: 0 <= i < |lines| ==> IsLine(lines[i])
    ensures NoNewlines(Selected(prefix, lines))
    decreases |lines|
  {
    if |lines| > 0 {
      var line := lines[|lines| - 1];
      SelectedHaveNoNewlines(prefix, lines[..|lines| - 1]);
      if StartsWith(line, prefix) {
        var v := LineValue(prefix, line);
        forall k | 0 <= k < |v|
          ensures v[k] != '\n'
        {
          assert v[k] == line[|prefix| + k];
        }
      }
    }
  }

  lemma {:induction false} JoinHasNoNewline(vs: seq<string>)
    requires NoNewlines(vs)
    ensures '\n' !in JoinSpaces(vs)
    decreases |vs|
  {
    if |vs| >= 2 {
      JoinHasNoNewline(vs[..|vs| - 1]);
      assert '\n' !in vs[|vs| - 1];
    }
  }

  /** Newlines are removed: a value read from well-formed lines is a single
      line of text. */
  lemma ConfigValueIsOneLine(prefix: string, lines: seq<string>)
    requires forall i :: 0 <= i < |lines| ==> IsLine(lines[i])
    ensures ConfigValue(prefix, lines).Some? ==> '\n' !in ConfigValue(prefix, lines).value
  {
    SelectedHaveNoNewlines(prefix, lines);
    JoinHasNoNewline(Selected(prefix, lines));
  }

  /** A line without the prefix leaves the value alone; a line with it adds
      its value after one more space. */
  lemma ConfigValueSnoc(prefix: string, lines: seq<string>, line: string)
    ensures !StartsWith(line, prefix) ==>
              ConfigValue(prefix, lines + [line]) == ConfigValue(prefix, lines)
    ensures StartsWith(line, prefix) ==>
              ConfigValue(prefix, lines + [line]) ==
                Some(match ConfigValue(prefix, lines)
                     case None => LineValue(prefix, line)
                     case Some(v) => v + " " + LineValue(prefix, line))
  {
    assert (lines + [line])[..|lines|] == lines;
  }

  // ---------------------------------------------------------------------
  // get_multiline_config_value as written

  /** What the code as written reads: Undefined once a selected line reaches
      the read before its value, otherwise a value or NULL. */
  datatype Reading = Undefined | Read(value: Option<string>)

  /** The selected values as ai.c:77-84 reads them; None once one of them
      reaches the undefined read, after which nothing is defined. */
  function SelectedAsWritten(prefix: string, lines: seq<string>): Option<seq<string>>
  {
    if |lines| == 0 then Some([])
    else
      var init := SelectedAsWritten(prefix, lines[..|lines| - 1]);
      var line := lines[|lines| - 1];
      if !StartsWith(line, prefix) then init
      else if init.None? || LineValueAsWritten(prefix, line).None? then None
      else Some(init.value + [LineValueAsWritten(prefix, line).value])
  }

  /** get_multiline_config_value(prefix) exactly as written. */
  function ConfigValueAsWritten(prefix: string, lines: seq<string>): Reading
  {
    match SelectedAsWritten(prefix, lines)
    case None => Undefined
    case Some(vs) => Read(if vs == [] then None else Some(JoinSpaces(vs)))
  }

  /** Some line with the prefix has at most one character after it, so the
      value as written starts at or past its terminator. */
  predicate ReachesUndefinedRead(prefix: string, lines: seq<string>)
  {
    exists i :: 0 <= i < |lines| && StartsWith(lines[i], prefix) && |lines[i]| <= |prefix| + 1
  }

  function Tail(v: string): string
  {
    if v == [] then [] else v[1..]
  }

  /** Every value without its first character. */
  function DropFirsts(vs: seq<string>): (r: seq<string>)
    ensures |r| == |vs|
    ensures forall i :: 0 <= i < |vs| ==> r[i] == Tail(vs[i])
  {
    if vs == [] then [] else DropFirsts(vs[..|vs| - 1]) + [Tail(vs[|vs| - 1])]
  }

  /** As written, the selection is undefined exactly when some selected line
      reaches the read before its value; otherwise it is the intended
      selection with every value's first character lost. */
  lemma {:induction false} SelectedAsWrittenDropsFirstChars(prefix: string, lines: seq<string>)
    ensures SelectedAsWritten(prefix, lines).None? <==> ReachesUndefinedRead(prefix, lines)
    ensures SelectedAsWritten(prefix, lines).Some? ==>
              SelectedAsWritten(prefix, lines).value == DropFirsts(Selected(prefix, lines))
    decreases |lines|
  {
    if |lines| > 0 {
      var init := lines[..|lines| - 1];
      var line := lines[|lines| - 1];
      SelectedAsWrittenDropsFirstChars(prefix, init);
      assert forall i :: 0 <= i < |init| ==> init[i] == lines[i];
      assert ReachesUndefinedRead(prefix, lines) <==>
               ReachesUndefinedRead(prefix, init) || (StartsWith(line, prefix) && |line| <= |prefix| + 1);
      if StartsWith(line, prefix) && |line| > |prefix| + 1 {
        AsWrittenDropsFirstChar(prefix, line);
        var vs := Selected(prefix, init);
        assert DropFirsts(vs + [LineValue(prefix, line)]) == DropFirsts(vs) + [LineValue(prefix, line)[1..]];
      }
    }
  }

  /** The value as written is the intended one with the first character of
      every line's value lost, and undefined when a selected line holds at
      most one character after the prefix. */
  lemma ConfigValueAsWrittenDropsFirstChars(prefix: string, lines: seq<string>)
    ensures ConfigValueAsWritten(prefix, lines) == Undefined <==> ReachesUndefinedRead(prefix, lines)
    ensures !ReachesUndefinedRead(prefix, lines) ==>
              ConfigValueAsWritten(prefix, lines) ==
                Read(if Selected(prefix, lines) == [] then None
                     else Some(JoinSpaces(DropFirsts(Selected(prefix, lines)))))
  {
    SelectedAsWrittenDropsFirstChars(prefix, lines);
  }

  /** Two prompt lines: the intended value is "ab cd", the code as written reads "b d". */
  lemma TwoPromptLinesAsWritten()
    ensures ConfigValue(PromptPrefix, ["PROMPT=ab\n", "PROMPT=cd\n"]) == Some("ab cd")
    ensures ConfigValueAsWritten(PromptPrefix, ["PROMPT=ab\n", "PROMPT=cd\n"]) == Read(Some("b d"))
  {
    TwoPromptLinesSelected();
    assert ["ab", "cd"][..1] == ["ab"] && ["b", "d"][..1] == ["b"];
    assert JoinSpaces(["ab", "cd"]) == "ab cd";
    assert JoinSpaces(["b", "d"]) == "b d";
  }

  lemma TwoPromptLinesSelected()
    ensures Selected(PromptPrefix, ["PROMPT=ab\n", "PROMPT=cd\n"]) == ["ab", "cd"]
    ensures SelectedAsWritten(PromptPrefix, ["PROMPT=ab\n", "PROMPT=cd\n"]) == Some(["b", "d"])
  {
    OnePromptLine("PROMPT=ab\n", "ab");
    OnePromptLine("PROMPT=cd\n", "cd");
    var lines := ["PROMPT=ab\n", "PROMPT=cd\n"];
    var none: seq<string> := [];
    assert lines[..1] == ["PROMPT=ab\n"] && lines[..1][..0] == [];
    assert "ab"[1..] == "b" && "cd"[1..] == "d";
    assert none + ["b"] == ["b"] && ["b"] + ["d"] == ["b", "d"];
    assert SelectedAsWritten(PromptPrefix, lines[..1][..0]) == Some(none);
    assert SelectedAsWritten(PromptPrefix, lines[..1]) == Some(["b"]);
    assert Selected(PromptPrefix, lines[..1]) == ["ab"];
  }

  lemma OnePromptLine(line: string, v: string)
    requires |v| == 2 && '\n' !in v && line == PromptPrefix + v + "\n"
    ensures StartsWith(line, PromptPrefix)
    ensures LineValue(PromptPrefix, line) == v
    ensures LineValueAsWritten(PromptPrefix, line) == Some(v[1..])
  {
    assert line[..|PromptPrefix|] == PromptPrefix;
    assert line[|PromptPrefix|..] == v + "\n";
    AsWrittenDropsFirstChar(PromptPrefix, line);
  }

  // ---------------------------------------------------------------------
  // get_api_key

  /** The key on the first line that starts with OPENAIKEY=, up to its
      first newline. */
  function ApiKey(lines: seq<string>): Option<string>
  {
    if |lines| == 0 then None
    else if StartsWith(lines[0], KeyPrefix) then Some(BeforeNewline(lines[0][|KeyPrefix|..]))
    else ApiKey(lines[1..])
  }

  /** get_api_key over the file's lines (ai.c:268-282). */
  method GetApiKey(lines: seq<string>) returns (key: Option<string>)
    ensures key == ApiKey(lines)
  {
    key := None;
    var i := 0;
    while i < |lines|
      invariant i <= |lines|
      invariant ApiKey(lines[i..]) == ApiKey(lines)
    {
      assert lines[i..][0] == lines[i];
      if StartsWith(lines[i], KeyPrefix) {
        key := Some(BeforeNewline(lines[i][|KeyPrefix|..]));
        break;
      }
      assert lines[i..][1..] == lines[i + 1..];
      i := i + 1;
    }
  }

  /** The first OPENAIKEY= line wins, cut at its first newline. */
  lemma {:induction false} ApiKeyIsFirstMatch(lines: seq<string>, i: nat)
    requires i < |lines| && StartsWith(lines[i], KeyPrefix)
    requires forall k :: 0 <= k < i ==> !StartsWith(lines[k], KeyPrefix)
    ensures ApiKey(lines) == Some(BeforeNewline(lines[i][|KeyPrefix|..]))
    decreases i
  {
    if i > 0 {
      ApiKeyIsFirstMatch(lines[1..], i - 1);
    }
  }

  /** The key is missing exactly when no line starts with OPENAIKEY=. */
  lemma {:induction false} ApiKeyMissing(lines: seq<string>)
    ensures ApiKey(lines).None? <==>
              forall k :: 0 <= k < |lines| ==> !StartsWith(lines[k], KeyPrefix)
    decreases |lines|
  {
    if |lines| > 0 {
      ApiKeyMissing(lines[1..]);
      assert forall k :: 1 <= k < |lines| ==> lines[1..][k - 1] == lines[k];
    }
  }

  // ---------------------------------------------------------------------
  // The argv join in main

  function Sep(i: nat, n: nat): string
  {
    if 0 < i < n then " " else ""
  }

  lemma JoinStep(args: seq<string>, i: nat)
    requires i < |args|
    ensures JoinSpaces(args[..i]) + Sep(i, |args|) + args[i] == JoinSpaces(args[..i + 1])
  {
    assert args[..i + 1][..i] == args[..i];
    if i == 0 {
      assert args[..1] == [args[0]];
    }
  }

  /**
   * The strcat loop of main (ai.c:569-574) as written, on an unbounded
   * string: `prompt` is what strcat builds, and `overflowed` says that some
   * strcat wrote past char prompt[64000].
   */
  method JoinArgsAsWritten(args: seq<string>) returns (prompt: string, overflowed: bool)
    ensures prompt == JoinSpaces(args)
    ensures overflowed <==> |JoinSpaces(args)| >= PromptCapacity
  {
    prompt := "";
    overflowed := false;
    for i := 0 to |args|
      invariant prompt == JoinSpaces(args[..i]) + Sep(i, |args|)
      invariant overflowed <==> |prompt| >= PromptCapacity
    {
      JoinStep(args, i);
      prompt := prompt + args[i];
      overflowed := overflowed || |prompt| >= PromptCapacity;
      if i < |args| - 1 {
        prompt := prompt + " ";
        overflowed := overflowed || |prompt| >= PromptCapacity;
      }
    }
    assert args[..|args|] == args;
  }

  /** Two arguments of 32000 characters each make a 64001-character prompt,
      which needs 64002 bytes of the 64000-byte buffer. */
  lemma LongArgumentsOverflow()
    ensures |JoinSpaces([seq(32000, _ => 'a'), seq(32000, _ => 'b')])| == PromptCapacity + 1
  {
    var args := [seq(32000, _ => 'a'), seq(32000, _ => 'b')];
    assert args[..1] == [args[0]];
  }

  lemma TruncateAppend(x: string, y: string, n: nat)
    ensures Truncate(Truncate(x, n) + y, n) == Truncate(x + y, n)
  {
    if |x| > n {
      assert (Truncate(x, n) + y)[..n] == (x + y)[..n];
    }
  }

  /**
   * The argv join as it is evidently meant: each strcat bounded by the
   * room left in prompt[64000], so the prompt holds the longest prefix of
   * the joined arguments that fits.
   */
  method JoinArgs(args: seq<string>) returns (prompt: string)
    ensures |prompt| < PromptCapacity
    ensures prompt == Truncate(JoinSpaces(args), PromptCapacity - 1)
  {
    prompt := "";
    for i := 0 to |args|
      invariant prompt == Truncate(JoinSpaces(args[..i]) + Sep(i, |args|), PromptCapacity - 1)
    {
      JoinStep(args, i);
      TruncateAppend(JoinSpaces(args[..i]) + Sep(i, |args|), args[i], PromptCapacity - 1);
      prompt := Truncate(prompt + args[i], PromptCapacity - 1);
      if i < |args| - 1 {
        TruncateAppend(JoinSpaces(args[..i + 1]), " ", PromptCapacity - 1);
        prompt := Truncate(prompt + " ", PromptCapacity - 1);
      }
    }
    assert args[..|args|] == args;
  }

  /** Whenever the code as written stays inside the buffer, the bounded join
      builds the same prompt. */
  lemma JoinArgsAgreesWhenItFits(args: seq<string>)
    requires |JoinSpaces(args)| < PromptCapacity
    ensures Truncate(JoinSpaces(args), PromptCapacity - 1) == JoinSpaces(args)
  {
  }
}
