/**
 * process_response_for_commands: the scan of an assistant reply for
 * `<CMD>` ... `</CMD>` directives. Matching is literal and does not nest:
 * after a start tag the scan looks for the first end tag, hands the text in
 * between to the executor, and resumes after that end tag.
 */
module Directives {
  import opened Wrappers
  import opened CStrings

  const StartTag: string := "<CMD>"
  const EndTag: string := "</CMD>"
  /** char command[512] in process_response_for_commands. */
  const CommandBufferSize: nat := 512

  /** `pat` occurs in `s` starting at position i. */
  predicate OccursAt(s: string, pat: string, i: nat) {
    i + |pat| <= |s| && forall j :: 0 <= j < |pat| ==> s[i + j] == pat[j]
  }

  /** `pat` does not start anywhere in [lo, hi). */
  predicate NoneIn(s: string, pat: string, lo: nat, hi: nat) {
    forall k: nat :: lo <= k < hi ==> !OccursAt(s, pat, k)
  }

  /** strstr(s + from, pat): the first occurrence of `pat` at or after `from`. */
  function FindFrom(s: string, pat: string, from: nat): (r: Option<nat>)
    requires from <= |s|
    ensures r.Some? ==> from <= r.value && r.value + |pat| <= |s|
    decreases |s| - from
  {
    if OccursAt(s, pat, from) then Some(from)
    else if from == |s| then None
    else FindFrom(s, pat, from + 1)
  }

  /** FindFrom answers with the first occurrence, and with None only when there is none. */
  lemma {:induction false} FindFromFinds(s: string, pat: string, from: nat)
    requires from <= |s|
    ensures FindFrom(s, pat, from).Some? ==>
      OccursAt(s, pat, FindFrom(s, pat, from).value) && NoneIn(s, pat, from, FindFrom(s, pat, from).value)
    ensures FindFrom(s, pat, from).None? ==> NoneIn(s, pat, from, |s| + 1)
    decreases |s| - from
  {
    if !OccursAt(s, pat, from) && from < |s| {
      FindFromFinds(s, pat, from + 1);
    }
  }

  /** FindFrom answers with an occurrence that has none before it. */
  lemma {:induction false} FindFromFirst(s: string, pat: string, from: nat, k: nat)
    requires from <= k <= |s| && OccursAt(s, pat, k) && NoneIn(s, pat, from, k)
    ensures FindFrom(s, pat, from) == Some(k)
    decreases k - from
  {
    if from < k {
      assert !OccursAt(s, pat, from);
      FindFromFirst(s, pat, from + 1, k);
    }
  }

  /** A directive: where its start tag and its end tag begin. */
  datatype Span = Span(open: nat, close: nat) {
    /** Where the scan resumes: just past the end tag. */
    function After(): nat {
      close + |EndTag|
    }
  }

  /** The command text of a directive: what lies between its tags. */
  function Text(s: string, d: Span): string
    requires d.open + |StartTag| <= d.close <= |s|
  {
    s[d.open + |StartTag|..d.close]
  }

  /** `d` is a start tag together with the first end tag after it. */
  predicate IsDirective(s: string, d: Span) {
    && OccursAt(s, StartTag, d.open)
    && d.open + |StartTag| <= d.close
    && OccursAt(s, EndTag, d.close)
    && NoneIn(s, EndTag, d.open + |StartTag|, d.close)
  }

  /** Where the scan looks for the next start tag after the directives `ds`. */
  function Resume(from: nat, ds: seq<Span>): nat {
    if ds == [] then from else ds[|ds| - 1].After()
  }

  /** What the scan meets next: no start tag, a start tag (at `open`) without an end tag, or a directive. */
  datatype Next = NoTag | Unmatched(open: nat) | Directive(d: Span)

  /** One round of the scan: strstr for the start tag, then strstr for the end tag after it. */
  function NextDirective(s: string, from: nat): (n: Next)
    requires from <= |s|
    ensures n.Unmatched? ==> from <= n.open && n.open + |StartTag| <= |s|
    ensures n.Directive? ==> from <= n.d.open && n.d.open + |StartTag| <= n.d.close && n.d.After() <= |s|
  {
    match FindFrom(s, StartTag, from)
    case None => NoTag
    case Some(b) =>
      match FindFrom(s, EndTag, b + |StartTag|)
      case None => Unmatched(b)
      case Some(e) => Directive(Span(b, e))
  }

  /**
   * What a round finds: no start tag at or after `from`; or the first start
   * tag, with no end tag after it; or the first start tag together with the
   * first end tag after it.
   */
  lemma NextDirectiveFinds(s: string, from: nat)
    requires from <= |s|
    ensures NextDirective(s, from).NoTag? ==> NoneIn(s, StartTag, from, |s| + 1)
    ensures NextDirective(s, from).Unmatched? ==>
      && OccursAt(s, StartTag, NextDirective(s, from).open)
      && NoneIn(s, StartTag, from, NextDirective(s, from).open)
      && NoneIn(s, EndTag, NextDirective(s, from).open + |StartTag|, |s| + 1)
    ensures NextDirective(s, from).Directive? ==>
      IsDirective(s, NextDirective(s, from).d) && NoneIn(s, StartTag, from, NextDirective(s, from).d.open)
  {
    FindFromFinds(s, StartTag, from);
    if FindFrom(s, StartTag, from).Some? {
      FindFromFinds(s, EndTag, FindFrom(s, StartTag, from).value + |StartTag|);
    }
  }

  /**
   * The directives found from `from` on, and whether the scan met a start
   * tag without an end tag (`unmatched`), at which point it stops.
   */
  datatype Scan = Scan(spans: seq<Span>, unmatched: bool)

  /**
   * The scan of process_response_for_commands from position `from`: find a
   * start tag, then the first end tag after it; record the directive and go on
   * after that end tag. A start tag without an end tag stops the scan.
   */
  function ScanFrom(s: string, from: nat): Scan
    requires from <= |s|
    decreases |s| - from
  {
    match NextDirective(s, from)
    case NoTag => Scan([], false)
    case Unmatched(_) => Scan([], true)
    case Directive(d) =>
      var rest := ScanFrom(s, d.After());
      Scan([d] + rest.spans, rest.unmatched)
  }

  /** A round that finds a directive records it and the scan goes on after its end tag. */
  lemma ScanStep(s: string, from: nat)
    requires from <= |s| && NextDirective(s, from).Directive?
    ensures ScanFrom(s, from).spans ==
      [NextDirective(s, from).d] + ScanFrom(s, NextDirective(s, from).d.After()).spans
    ensures ScanFrom(s, from).unmatched == ScanFrom(s, NextDirective(s, from).d.After()).unmatched
  {
  }

  /** Resuming after the first i directives of [d] + ds is resuming after i - 1 of ds, from d's end. */
  lemma ResumeAfterFirst(from: nat, d: Span, ds: seq<Span>, i: nat)
    requires 0 < i <= |ds| + 1
    ensures Resume(from, ([d] + ds)[..i]) == Resume(d.After(), ds[..i - 1])
  {
    assert ([d] + ds)[..i] == [d] + ds[..i - 1];
  }

  /** Resuming after all of [d] + ds is resuming after all of ds, from d's end. */
  lemma ResumeAfterAll(from: nat, d: Span, ds: seq<Span>)
    ensures Resume(from, [d] + ds) == Resume(d.After(), ds)
  {
    if ds != [] {
      assert ([d] + ds)[|ds|] == ds[|ds| - 1];
    }
  }

  /**
   * The scan ends at a round that finds no start tag, or, when `unmatched`,
   * a start tag without an end tag.
   */
  lemma {:induction false} ScanEndsRound(s: string, from: nat)
    requires from <= |s|
    ensures Resume(from, ScanFrom(s, from).spans) <= |s|
    ensures NextDirective(s, Resume(from, ScanFrom(s, from).spans)).NoTag? == !ScanFrom(s, from).unmatched
    ensures NextDirective(s, Resume(from, ScanFrom(s, from).spans)).Unmatched? == ScanFrom(s, from).unmatched
    decreases |s| - from
  {
    if NextDirective(s, from).Directive? {
      var next := NextDirective(s, from).d.After();
      ScanStep(s, from);
      ScanEndsRound(s, next);
      ResumeAfterAll(from, NextDirective(s, from).d, ScanFrom(s, next).spans);
    }
  }

  /**
   * The scan is the chain of rounds: directive i is what the round started
   * after directive i - 1 (or at `from`) finds. With NextDirectiveFinds, the
   * directives come in left-to-right order and no start tag between them is
   * skipped.
   */
  lemma {:induction false} ScanIsChainOfRounds(s: string, from: nat, i: nat)
    requires from <= |s| && i < |ScanFrom(s, from).spans|
    ensures Resume(from, ScanFrom(s, from).spans[..i]) <= |s|
    ensures NextDirective(s, Resume(from, ScanFrom(s, from).spans[..i])) == Directive(ScanFrom(s, from).spans[i])
    decreases i
  {
    var d := NextDirective(s, from).d;
    var next := d.After();
    ScanStep(s, from);
    if i > 0 {
      ScanIsChainOfRounds(s, next, i - 1);
      ResumeAfterFirst(from, d, ScanFrom(s, next).spans, i);
    }
  }

  /** The value process_response_for_commands returns: 1 when it ran every directive it found. */
  function Found(r: Scan): int {
    if r.spans != [] && !r.unmatched then 1 else 0
  }

  /** A reply without any start tag holds no directive and returns 0. */
  lemma NoStartTagReturnsZero(s: string)
    requires NoneIn(s, StartTag, 0, |s| + 1)
    ensures ScanFrom(s, 0).spans == [] && Found(ScanFrom(s, 0)) == 0
  {
    FindFromFinds(s, StartTag, 0);
  }

  /**
   * The value returned is 1 exactly when at least one directive was found
   * and every start tag the scan met had its end tag.
   */
  lemma FoundMeansAllMatched(s: string)
    ensures Found(ScanFrom(s, 0)) == 1 <==>
      (exists b: nat :: OccursAt(s, StartTag, b)) && !ScanFrom(s, 0).unmatched
  {
    var r := ScanFrom(s, 0);
    NextDirectiveFinds(s, 0);
    if r.spans != [] {
      assert OccursAt(s, StartTag, NextDirective(s, 0).d.open);
    } else if !r.unmatched {
      assert forall b: nat :: !OccursAt(s, StartTag, b) by {
        forall b: nat ensures !OccursAt(s, StartTag, b) {
          if b > |s| {
            assert !(b + |StartTag| <= |s|);
          }
        }
      }
    }
  }

  /**
   * command[512] as written: strncpy copies all of the command text and the
   * terminator goes after it, so text of 512 characters or more is written
   * past the end of the buffer (`None`).
   */
  function CopyCommandAsWritten(text: string): (r: Option<string>)
    ensures r.Some? <==> |text| < CommandBufferSize
    ensures r.Some? ==> r.value == text
  {
    if |text| < CommandBufferSize then Some(text) else None
  }

  /** command[512] corrected: the command text cut to the 511 characters the buffer can hold. */
  function CopyCommand(text: string): (r: string)
    ensures |r| < CommandBufferSize && |r| <= |text| && r == text[..|r|]
    ensures |text| < CommandBufferSize ==> r == text
  {
    Truncate(text, CommandBufferSize - 1)
  }

  /** A reply whose one directive is 512 characters long. */
  function LongDirectiveReply(): string {
    StartTag + seq(CommandBufferSize, _ => 'a') + EndTag
  }

  /**
   * The directive of LongDirectiveReply is read whole, and copying it as
   * written overruns command[512]; the corrected copy keeps its first 511 characters.
   */
  lemma LongDirectiveOverflows()
    ensures var s := LongDirectiveReply();
      && ScanFrom(s, 0).spans == [Span(0, |StartTag| + CommandBufferSize)]
      && CopyCommandAsWritten(Text(s, Span(0, |StartTag| + CommandBufferSize))).None?
      && |CopyCommand(Text(s, Span(0, |StartTag| + CommandBufferSize)))| == CommandBufferSize - 1
  {
    var s := LongDirectiveReply();
    var e := |StartTag| + CommandBufferSize;
    assert OccursAt(s, StartTag, 0);
    assert OccursAt(s, EndTag, e);
    assert NoneIn(s, EndTag, |StartTag|, e) by {
      forall k: nat | |StartTag| <= k < e ensures !OccursAt(s, EndTag, k) {
        assert s[k + 0] == 'a' != EndTag[0];
      }
    }
    assert FindFrom(s, StartTag, 0) == Some(0);
    FindFromFirst(s, EndTag, |StartTag|, e);
    assert |s| == e + |EndTag|;
    assert ScanFrom(s, Span(0, e).After()) == Scan([], false);
    assert Text(s, Span(0, e)) == seq(CommandBufferSize, _ => 'a');
  }

  lemma OccursBetween(a: string, pat: string, b: string)
    ensures OccursAt(a + pat + b, pat, |a|)
  {
    var s := a + pat + b;
    forall j | 0 <= j < |pat| ensures s[|a| + j] == pat[j] {
    }
  }

  /** A pattern that begins with '<' cannot start where no '<' is. */
  lemma NoneWithoutOpenAngle(s: string, pat: string, lo: nat, hi: nat)
    requires |pat| > 0 && pat[0] == '<'
    requires forall k :: lo <= k < hi && k < |s| ==> s[k] != '<'
    ensures NoneIn(s, pat, lo, hi)
  {
    forall k: nat | lo <= k < hi ensures !OccursAt(s, pat, k) {
      if k < |s| {
        assert s[k] != pat[0];
      }
    }
  }

  /** A reply that opens with a directive whose text has no '<': the first round finds it. */
  lemma LeadingDirective(c: string, tail: string)
    requires '<' !in c
    ensures NextDirective(StartTag + c + EndTag + tail, 0) == Directive(Span(0, |StartTag| + |c|))
  {
    var head := StartTag + c;
    var s := head + EndTag + tail;
    var e := |head|;
    OccursBetween([], StartTag, c + EndTag + tail);
    assert [] + StartTag + (c + EndTag + tail) == s;
    FindFromFirst(s, StartTag, 0, 0);
    OccursBetween(head, EndTag, tail);
    assert s[..e] == head;
    forall k | |StartTag| <= k < e ensures s[k] != '<' {
      assert s[k] == head[k];
      assert head[k] == c[k - |StartTag|];
      assert c[k - |StartTag|] in c;
    }
    NoneWithoutOpenAngle(s, EndTag, |StartTag|, e);
    FindFromFirst(s, EndTag, |StartTag|, e);
    RoundFinds(s, 0, 0, Some(e));
  }

  /** A start tag at |a| followed by text without '<': a round from there meets it unmatched. */
  lemma TrailingUnmatched(a: string, r: string)
    requires '<' !in r
    ensures |a| <= |a + StartTag + r|
    ensures NextDirective(a + StartTag + r, |a|) == Unmatched(|a|)
  {
    var s := a + StartTag + r;
    var b := |a| + |StartTag|;
    OccursBetween(a, StartTag, r);
    FindFromFirst(s, StartTag, |a|, |a|);
    assert s[b..] == r;
    forall k | b <= k < |s| ensures s[k] != '<' {
      assert s[k] == r[k - b];
      assert r[k - b] in r;
    }
    NoneWithoutOpenAngle(s, EndTag, b, |s| + 1);
    FindFromFinds(s, EndTag, b);
    RoundFinds(s, |a|, |a|, None);
  }

  /**
   * A directive followed by a start tag without an end tag: the directive is
   * still found (and run), yet 0 is returned. `c` and `r` are any texts
   * without a '<'.
   */
  lemma EarlierDirectiveRunsBeforeUnmatched(c: string, r: string)
    requires '<' !in c && '<' !in r
    ensures var s := StartTag + c + EndTag + StartTag + r;
      var d := Span(0, |StartTag| + |c|);
      && ScanFrom(s, 0) == Scan([d], true)
      && Text(s, d) == c
      && Found(ScanFrom(s, 0)) == 0
  {
    var a := StartTag + c + EndTag;
    var s := a + StartTag + r;
    var d := Span(0, |StartTag| + |c|);
    assert s == StartTag + c + EndTag + (StartTag + r);
    LeadingDirective(c, StartTag + r);
    TrailingUnmatched(a, r);
    assert d.After() == |a|;
    assert ScanFrom(s, |a|) == Scan([], true);
    assert s[..|a|] == a;
    assert s[|StartTag|..d.close] == a[|StartTag|..d.close] == c;
  }

  /** A round is read off its two strstr answers: the start tag's b, then the end tag's after b. */
  lemma RoundFinds(s: string, from: nat, b: nat, end: Option<nat>)
    requires from <= |s|
    requires FindFrom(s, StartTag, from) == Some(b) && FindFrom(s, EndTag, b + |StartTag|) == end
    ensures NextDirective(s, from) == if end.None? then Unmatched(b) else Directive(Span(b, end.value))
  {
  }

  /** After the directives `spans`, a round that finds d adds d to them. */
  lemma ScanAdvance(s: string, from: nat, spans: seq<Span>, d: Span)
    requires from <= |s| && NextDirective(s, from) == Directive(d)
    requires ScanFrom(s, 0).spans == spans + ScanFrom(s, from).spans
    requires ScanFrom(s, 0).unmatched == ScanFrom(s, from).unmatched
    ensures ScanFrom(s, 0).spans == (spans + [d]) + ScanFrom(s, d.After()).spans
    ensures ScanFrom(s, 0).unmatched == ScanFrom(s, d.After()).unmatched
  {
    ScanStep(s, from);
    assert spans + ([d] + ScanFrom(s, d.After()).spans) == (spans + [d]) + ScanFrom(s, d.After()).spans;
  }

  /** Every directive of `ds` lies inside `s`, its start tag before its end tag. */
  predicate InBounds(s: string, ds: seq<Span>) {
    forall i :: 0 <= i < |ds| ==> ds[i].open + |StartTag| <= ds[i].close <= |s|
  }

  /** The command strings of the directives `ds`, each cut to command[512]. */
  function Commands(s: string, ds: seq<Span>): (cs: seq<string>)
    requires InBounds(s, ds)
    ensures |cs| == |ds|
    ensures forall i :: 0 <= i < |ds| ==> cs[i] == CopyCommand(Text(s, ds[i]))
  {
    if ds == [] then [] else Commands(s, ds[..|ds| - 1]) + [CopyCommand(Text(s, ds[|ds| - 1]))]
  }

  /** Adding a directive adds its command string. */
  lemma CommandsSnoc(s: string, ds: seq<Span>, d: Span)
    requires InBounds(s, ds) && d.open + |StartTag| <= d.close <= |s|
    ensures InBounds(s, ds + [d]) && Commands(s, ds + [d]) == Commands(s, ds) + [CopyCommand(Text(s, d))]
  {
    assert (ds + [d])[..|ds|] == ds;
  }

  /**
   * process_response_for_commands(response): the command strings handed to
   * execute_command, in order, and the value returned. The scan is pure, so
   * running each command as it is found (as the program does) and running the
   * list afterwards are the same.
   */
  method ProcessResponseForCommands(response: string) returns (found: int, commands: seq<string>)
    ensures InBounds(response, ScanFrom(response, 0).spans) && commands == Commands(response, ScanFrom(response, 0).spans)
    ensures found == Found(ScanFrom(response, 0))
  {
    var start := FindFrom(response, StartTag, 0);
    found, commands := 0, [];
    ghost var spans: seq<Span> := [];
    var from: nat := 0;
    while start.Some?
      invariant from <= |response| && start == FindFrom(response, StartTag, from)
      invariant ScanFrom(response, 0).spans == spans + ScanFrom(response, from).spans
      invariant ScanFrom(response, 0).unmatched == ScanFrom(response, from).unmatched
      invariant InBounds(response, spans) && commands == Commands(response, spans)
      invariant found == if spans == [] then 0 else 1
      decreases |response| - from
    {
      found := 1;
      var b := start.value;
      var end := FindFrom(response, EndTag, b + |StartTag|);
      RoundFinds(response, from, b, end);
      if end.None? {
        assert spans + ScanFrom(response, from).spans == spans;
        return 0, commands;
      }
      var d := Span(b, end.value);
      ScanAdvance(response, from, spans, d);
      CommandsSnoc(response, spans, d);
      commands := commands + [CopyCommand(response[d.open + |StartTag|..d.close])];
      spans := spans + [d];
      from := d.After();
      start := FindFrom(response, StartTag, from);
    }
    assert NextDirective(response, from) == NoTag;
    assert spans + ScanFrom(response, from).spans == spans;
  }
}
