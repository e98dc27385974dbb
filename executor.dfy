/**
 * execute_command: the approval gate, the child's bounded line accumulator,
 * the parent's 60-second poll loop and the report strings appended to the
 * conversation.
 *
 * pipe, fork, popen and waitpid are not run: a `Host` value stands for what
 * they answer (whether each call succeeds, the lines popen's stream yields,
 * what each waitpid poll reports). The operator's answers are read off one
 * stdin stream with `Fgets`, and exit(0) is the terminal `Exit(0)` flow.
 */
module Executor {
  import opened Wrappers
  import opened CStrings
  import opened ShellEscape
  import opened Conversation

  /** RESPONSE_BUFFER_SIZE: the size of command_output and of the line read for the next message. */
  const ResponseBufferSize: nat := 64000
  /** A line joins the child's result only while the total stays below RESPONSE_BUFFER_SIZE - 512. */
  const AccumulatorLimit: nat := ResponseBufferSize - 512
  /** The poll loop's starting `timeout`: one waitpid poll and one sleep per second. */
  const TimeoutSeconds: nat := 60
  /** re_sanitized_command[512]. */
  const EscapedBufferSize: nat := 512
  /** sanitized_command[548]. */
  const SanitizedBufferSize: nat := 548
  /** The notice the child writes to the pipe after its result and that result's terminator. */
  const TruncationNotice: string := "\n\nOutput buffer exceeded so we truncate.\n"

  // ---------------------------------------------------------------------
  // The child's line accumulator
  // ---------------------------------------------------------------------

  /** The lines joined end to end. */
  function Concat(lines: seq<string>): string
  {
    if lines == [] then "" else Concat(lines[..|lines| - 1]) + lines[|lines| - 1]
  }

  /**
   * How many lines the accumulator keeps, reading from line i on with `len`
   * characters already kept: a line is kept while the total stays below the
   * limit; the first line that would not fit ends the reading.
   */
  function KeptFrom(lines: seq<string>, i: nat, len: nat): (k: nat)
    requires i <= |lines|
    ensures i <= k <= |lines|
    decreases |lines| - i
  {
    if i == |lines| then i
    else if len + |lines[i]| < AccumulatorLimit then KeptFrom(lines, i + 1, len + |lines[i]|)
    else i
  }

  /** The number of lines the child keeps. */
  function KeptCount(lines: seq<string>): nat
    ensures KeptCount(lines) <= |lines|
  {
    KeptFrom(lines, 0, 0)
  }

  /** The child's result: the kept lines, joined. */
  function Accumulated(lines: seq<string>): string
  {
    Concat(lines[..KeptCount(lines)])
  }

  lemma ConcatSnoc(lines: seq<string>, i: nat)
    requires i < |lines|
    ensures Concat(lines[..i + 1]) == Concat(lines[..i]) + lines[i]
  {
    assert lines[..i + 1][..i] == lines[..i];
  }

  /** Line j still fits after the lines before it: the total stays below the limit. */
  predicate Fits(lines: seq<string>, j: nat)
    requires j < |lines|
  {
    |Concat(lines[..j])| + |lines[j]| < AccumulatorLimit
  }

  lemma {:induction false} KeptFromIsFirstMisfit(lines: seq<string>, i: nat)
    requires i <= |lines| && |Concat(lines[..i])| < AccumulatorLimit
    ensures var k := KeptFrom(lines, i, |Concat(lines[..i])|);
      && (forall j :: i <= j < k ==> Fits(lines, j))
      && (k < |lines| ==> !Fits(lines, k))
    decreases |lines| - i
  {
    var len := |Concat(lines[..i])|;
    if i < |lines| && Fits(lines, i) {
      ConcatSnoc(lines, i);
      assert |Concat(lines[..i + 1])| == len + |lines[i]|;
      KeptFromIsFirstMisfit(lines, i + 1);
    }
  }

  /**
   * The kept lines are exactly those before the first line that would take
   * the total to the limit or past it.
   */
  lemma KeptCountIsFirstMisfit(lines: seq<string>)
    ensures forall j :: 0 <= j < KeptCount(lines) ==> Fits(lines, j)
    ensures KeptCount(lines) < |lines| ==> !Fits(lines, KeptCount(lines))
  {
    assert lines[..0] == [];
    KeptFromIsFirstMisfit(lines, 0);
  }

  /** The child's result stays below RESPONSE_BUFFER_SIZE - 512 characters. */
  lemma AccumulatedBelowLimit(lines: seq<string>)
    ensures |Accumulated(lines)| < AccumulatorLimit
  {
    KeptCountIsFirstMisfit(lines);
    var k := KeptCount(lines);
    if k > 0 {
      assert Fits(lines, k - 1);
      ConcatSnoc(lines, k - 1);
    } else {
      assert lines[..0] == [];
    }
  }

  /**
   * The child's read loop: strcat each line fgets returns while the total
   * stays below the limit, and stop at the first line that would not fit.
   * `kept` is the number of lines kept.
   */
  method AccumulateLines(lines: seq<string>) returns (result: string, kept: nat)
    ensures kept == KeptCount(lines) && result == Concat(lines[..kept])
    ensures |result| < AccumulatorLimit
  {
    result, kept := "", 0;
    assert lines[..0] == [];
    while kept < |lines|
      invariant kept <= |lines| && result == Concat(lines[..kept])
      invariant |result| < AccumulatorLimit
      invariant KeptFrom(lines, kept, |result|) == KeptCount(lines)
      decreases |lines| - kept
    {
      var line := lines[kept];
      if |result| + |line| < AccumulatorLimit {
        ConcatSnoc(lines, kept);
        result := result + line;
        kept := kept + 1;
      } else {
        break;
      }
    }
  }

  // ---------------------------------------------------------------------
  // The pipe
  // ---------------------------------------------------------------------

  /**
   * What the child writes to the pipe: its result with the terminator, then
   * the truncation notice with its terminator, whatever the result was.
   */
  function ChildPipe(result: string): seq<char>
  {
    result + [NUL] + TruncationNotice + [NUL]
  }

  /**
   * The buffer after `read(fd, buf, size - 1)` took `data` and
   * `buf[size - 1] = '\0'`: the bytes read, then what the buffer held, then
   * the terminator.
   */
  function ReadBack(b: seq<char>, data: seq<char>): (r: seq<char>)
    requires |b| >= 1
    ensures |r| == |b|
  {
    var n := Min(|data|, |b| - 1);
    data[..n] + b[n..|b| - 1] + [NUL]
  }

  /** read(pipe_fd[0], command_output, output_size - 1); command_output[output_size - 1] = '\0'. */
  method ReadPipe(buf: array<char>, data: seq<char>)
    requires buf.Length >= 1
    modifies buf
    ensures buf[..] == ReadBack(old(buf[..]), data)
  {
    var n := Min(|data|, buf.Length - 1);
    var i := 0;
    while i < n
      invariant 0 <= i <= n
      invariant forall k :: 0 <= k < i ==> buf[k] == data[k]
      invariant forall k :: i <= k < buf.Length ==> buf[k] == old(buf[k])
    {
      buf[i] := data[i];
      i := i + 1;
    }
    buf[buf.Length - 1] := NUL;
    assert forall k :: 0 <= k < buf.Length ==> buf[k] == ReadBack(old(buf[..]), data)[k];
  }

  /**
   * The parent's strlen never reaches the notice: whenever the child's result
   * fits the buffer, the buffer reads back as the result and nothing more.
   */
  lemma NoticeNeverVisible(b: seq<char>, result: string)
    requires IsText(result) && |result| + 1 < |b|
    ensures CStr(ReadBack(b, ChildPipe(result))) == result
  {
    var r := ReadBack(b, ChildPipe(result));
    assert r[..|result|] == result;
    assert r[|result|] == NUL;
    CStrOfTerminated(result, r);
  }

  /** When popen fails the child writes nothing, and the buffer keeps what it held. */
  lemma NothingReadKeepsBuffer(b: seq<char>)
    requires |b| >= 1
    ensures CStr(ReadBack(b, [])) == CStr(b[..|b| - 1] + [NUL])
  {
    assert ReadBack(b, []) == b[..|b| - 1] + [NUL];
  }

  // ---------------------------------------------------------------------
  // The poll loop
  // ---------------------------------------------------------------------

  /**
   * One waitpid(pid, &status, WNOHANG) answer: 0 (still running), the
   * child's pid with its status (whether it exited normally, WIFEXITED), or
   * an error.
   */
  datatype Poll = Running | Reaped(exitedNormally: bool) | WaitFailed

  /** The index of the poll that ends the loop: the first one not `Running`, or 60 when there is none. */
  function FirstStop(polls: seq<Poll>, i: nat): (s: nat)
    requires |polls| >= TimeoutSeconds && i <= TimeoutSeconds
    ensures i <= s <= TimeoutSeconds
    decreases TimeoutSeconds - i
  {
    if i == TimeoutSeconds || polls[i] != Running then i else FirstStop(polls, i + 1)
  }

  /** The loop stops at the first poll that is not `Running`, and runs all 60 rounds only when there is none. */
  lemma {:induction false} FirstStopIsFirst(polls: seq<Poll>, i: nat)
    requires |polls| >= TimeoutSeconds && i <= TimeoutSeconds
    ensures forall j :: i <= j < FirstStop(polls, i) ==> polls[j] == Running
    ensures FirstStop(polls, i) < TimeoutSeconds ==> polls[FirstStop(polls, i)] != Running
    decreases TimeoutSeconds - i
  {
    if i < TimeoutSeconds && polls[i] == Running {
      FirstStopIsFirst(polls, i + 1);
    }
  }

  /**
   * WIFEXITED(status) as the parent reads it: the reaped child's when the
   * loop stopped on it, and otherwise the value of the never-assigned
   * `status` (`unsetExited`).
   */
  function ExitedAsRead(polls: seq<Poll>, unsetExited: bool): bool
    requires |polls| >= TimeoutSeconds
  {
    var s := FirstStop(polls, 0);
    if s < TimeoutSeconds && polls[s].Reaped? then polls[s].exitedNormally else unsetExited
  }

  /**
   * The parent's loop: poll, and on `Running` sleep a second and count down;
   * stop on the child's pid or on an error. Returns the `timeout` left and
   * WIFEXITED(status).
   */
  method WaitWithTimeout(polls: seq<Poll>, unsetExited: bool) returns (timeout: int, exited: bool)
    requires |polls| >= TimeoutSeconds
    ensures 0 <= timeout <= TimeoutSeconds
    ensures timeout == 0 <==> forall j :: 0 <= j < TimeoutSeconds ==> polls[j] == Running
    ensures timeout > 0 ==> polls[TimeoutSeconds - timeout] != Running
    ensures forall j :: 0 <= j < TimeoutSeconds - timeout ==> polls[j] == Running
    ensures exited == ExitedAsRead(polls, unsetExited)
  {
    exited := unsetExited;
    timeout := TimeoutSeconds;
    while timeout > 0
      invariant 0 <= timeout <= TimeoutSeconds
      invariant FirstStop(polls, 0) == FirstStop(polls, TimeoutSeconds - timeout)
      invariant exited == unsetExited
      decreases timeout
    {
      match polls[TimeoutSeconds - timeout]
      case Running =>
        timeout := timeout - 1;
      case Reaped(normally) =>
        exited := normally;
        break;
      case WaitFailed =>
        break;
    }
    assert FirstStop(polls, 0) == TimeoutSeconds - timeout;
    FirstStopIsFirst(polls, 0);
  }

  // ---------------------------------------------------------------------
  // Report strings
  // ---------------------------------------------------------------------

  /** `command executed: <cmd> status: <status>`. */
  function StatusReport(cmd: string, status: string): string {
    "command executed: <" + cmd + "> status: <" + status + ">"
  }

  const DeclinedStatus: string := "sysadmin declined to execute command."

  function TimeoutReport(cmd: string): string {
    StatusReport(cmd, "timeout")
  }

  /** The stand-in output of the empty-output report. */
  const EmptyOutputText: string := "Empty or Execution error"

  /** The empty-output report reads exactly like the report of a command that printed EmptyOutputText. */
  function EmptyReport(cmd: string): string {
    OutputReport(cmd, EmptyOutputText)
  }

  function OutputReport(cmd: string, out: string): string {
    "command executed: <" + cmd + "> status: <executed> output: <" + out + ">"
  }

  function DeclinedReport(cmd: string): string {
    StatusReport(cmd, DeclinedStatus)
  }

  /** Every report of a command that fits command[512] fits command_output whole. */
  lemma ReportsFit(cmd: string)
    requires |cmd| < EscapedBufferSize
    ensures Truncate(TimeoutReport(cmd), ResponseBufferSize - 1) == TimeoutReport(cmd)
    ensures Truncate(EmptyReport(cmd), ResponseBufferSize - 1) == EmptyReport(cmd)
    ensures Truncate(DeclinedReport(cmd), ResponseBufferSize - 1) == DeclinedReport(cmd)
  {
  }

  lemma TextConcat(a: string, b: string)
    requires IsText(a) && IsText(b)
    ensures IsText(a + b)
  {
    forall i | 0 <= i < |a + b| ensures (a + b)[i] != NUL {
      if i >= |a| { assert (a + b)[i] == b[i - |a|]; }
    }
  }

  lemma LiteralIsText(s: string)
    requires NUL !in s
    ensures IsText(s)
  {
    forall i | 0 <= i < |s| ensures s[i] != NUL { assert s[i] in s; }
  }

  lemma StatusReportIsText(cmd: string, status: string)
    requires IsText(cmd) && IsText(status)
    ensures IsText(StatusReport(cmd, status))
  {
    var head := "command executed: <" + cmd;
    TextConcat("command executed: <", cmd);
    TextConcat(head, "> status: <");
    TextConcat(head + "> status: <", status);
    TextConcat(head + "> status: <" + status, ">");
  }

  lemma OutputReportIsText(cmd: string, out: string)
    requires IsText(cmd) && IsText(out)
    ensures IsText(OutputReport(cmd, out))
  {
    var head := "command executed: <" + cmd;
    TextConcat("command executed: <", cmd);
    TextConcat(head, "> status: <executed> output: <");
    TextConcat(head + "> status: <executed> output: <", out);
    TextConcat(head + "> status: <executed> output: <" + out, ">");
  }

  lemma ReportsAreText(cmd: string, out: string)
    requires IsText(cmd) && IsText(out)
    ensures IsText(TimeoutReport(cmd)) && IsText(EmptyReport(cmd)) && IsText(DeclinedReport(cmd))
    ensures IsText(OutputReport(cmd, out))
  {
    LiteralIsText(EmptyOutputText);
    LiteralIsText(DeclinedStatus);
    StatusReportIsText(cmd, "timeout");
    StatusReportIsText(cmd, DeclinedStatus);
    OutputReportIsText(cmd, out);
    OutputReportIsText(cmd, EmptyOutputText);
  }

  /** The shell command shown to the operator and given to popen: `bash -c "<escaped>"`. */
  function BashCommand(escaped: string): string {
    "bash -c \"" + escaped + "\""
  }

  /** The escaped command as re_sanitized_command[512] holds it. */
  function EscapedCommand(cmd: string): string {
    Escape(cmd[..FitLength(cmd, EscapedBufferSize - 1)])
  }

  /** sanitized_command: `bash -c "..."` around the escaped command, cut to 547 characters. */
  function SanitizedCommand(cmd: string): string {
    Truncate(BashCommand(EscapedCommand(cmd)), SanitizedBufferSize - 1)
  }

  /**
   * sanitized_command[548] always holds the whole `bash -c "..."` line, and the
   * text between its quotes unescapes to the part of the command that fit
   * re_sanitized_command[512] - the whole command when its escape fits.
   */
  lemma SanitizedCommandIsWhole(cmd: string)
    ensures SanitizedCommand(cmd) == BashCommand(EscapedCommand(cmd))
    ensures Unescape(EscapedCommand(cmd)) == Some(cmd[..FitLength(cmd, EscapedBufferSize - 1)])
    ensures |Escape(cmd)| < EscapedBufferSize ==> Unescape(EscapedCommand(cmd)) == Some(cmd)
  {
    FitLengthIsLongest(cmd, EscapedBufferSize - 1);
    UnescapeEscape(cmd[..FitLength(cmd, EscapedBufferSize - 1)]);
    if |Escape(cmd)| < EscapedBufferSize {
      FitLengthWhole(cmd, EscapedBufferSize - 1);
      assert cmd[..|cmd|] == cmd;
    }
  }

  // ---------------------------------------------------------------------
  // The approved branch
  // ---------------------------------------------------------------------

  /**
   * What pipe, fork, popen and waitpid answer for one command: whether each
   * call succeeds, the lines fgets reads from popen's stream, the waitpid
   * polls, and WIFEXITED of the never-assigned `status`.
   */
  datatype Host = Host(pipeOk: bool, forkOk: bool, popenOk: bool, lines: seq<string>, polls: seq<Poll>, unsetExited: bool)

  /** fgets hands over NUL-free lines, and the poll loop has an answer for each of its 60 rounds. */
  predicate ValidHost(h: Host) {
    && (forall i :: 0 <= i < |h.lines| ==> IsText(h.lines[i]))
    && |h.polls| >= TimeoutSeconds
  }

  /** What the child writes to the pipe: nothing when popen fails. */
  function PipeData(h: Host): seq<char> {
    if h.popenOk then ChildPipe(Accumulated(h.lines)) else []
  }

  /**
   * The text command_output holds after an approved command ran, starting
   * from the buffer `stale`: the timeout report, the empty-output report or
   * the output report when the child exited normally, and the buffer's old
   * text when it did not (nothing is written on that branch).
   */
  function RunReport(cmd: string, h: Host, stale: seq<char>): string
    requires ValidHost(h) && |stale| == ResponseBufferSize
  {
    if FirstStop(h.polls, 0) == TimeoutSeconds then Truncate(TimeoutReport(cmd), ResponseBufferSize - 1)
    else if ExitedAsRead(h.polls, h.unsetExited) then ExitReport(cmd, ReadBack(stale, PipeData(h)))
    else CStr(stale)
  }

  /** The report for a child that exited normally, from what command_output reads back after the read. */
  function ExitReport(cmd: string, read: seq<char>): string {
    var out := CStr(read);
    if out == "" then Truncate(EmptyReport(cmd), ResponseBufferSize - 1)
    else Truncate(OutputReport(cmd, out), ResponseBufferSize - 1)
  }

  /** The WIFEXITED branch: read the pipe into command_output, then write the report over it. */
  method ReportExit(cmd: string, data: seq<char>, output: array<char>)
    requires IsText(cmd) && output.Length == ResponseBufferSize
    modifies output
    ensures CStr(output[..]) == ExitReport(cmd, ReadBack(old(output[..]), data))
  {
    ReadPipe(output, data);
    var out := CStr(output[..]);
    ReportsAreText(cmd, out);
    ghost var read := output[..];
    if |out| == 0 {
      FormatInto(output, EmptyReport(cmd));
      FormattedReadsBack(read, EmptyReport(cmd));
    } else {
      // full_output: snprintf into RESPONSE_BUFFER_SIZE, then strncpy back.
      var full := Truncate(OutputReport(cmd, out), ResponseBufferSize - 1);
      FormatInto(output, full);
      FormattedReadsBack(read, full);
    }
  }

  /** The parent's side once the child is forked: wait, then fill command_output. */
  method RunApproved(cmd: string, h: Host, output: array<char>)
    requires IsText(cmd) && ValidHost(h) && output.Length == ResponseBufferSize
    modifies output
    ensures CStr(output[..]) == RunReport(cmd, h, old(output[..]))
  {
    // The child: popen, the read loop, and its two writes to the pipe.
    var data: seq<char> := [];
    if h.popenOk {
      var result, _ := AccumulateLines(h.lines);
      data := ChildPipe(result);
    }
    // The parent.
    var timeout, exited := WaitWithTimeout(h.polls, h.unsetExited);
    FirstStopIsFirst(h.polls, 0);
    if timeout == 0 {
      ReportsAreText(cmd, "");
      FormatInto(output, TimeoutReport(cmd));
      FormattedReadsBack(old(output[..]), TimeoutReport(cmd));
    } else if exited {
      ReportExit(cmd, data, output);
    }
  }

  /** A timed-out command is reported as such, exactly when all 60 polls found it running. */
  lemma TimeoutOutcome(cmd: string, h: Host, stale: seq<char>)
    requires ValidHost(h) && |stale| == ResponseBufferSize && |cmd| < EscapedBufferSize
    requires forall j :: 0 <= j < TimeoutSeconds ==> h.polls[j] == Running
    ensures RunReport(cmd, h, stale) == TimeoutReport(cmd)
  {
    FirstStopIsFirst(h.polls, 0);
    ReportsFit(cmd);
  }

  /**
   * A child that exited normally within the minute, after popen succeeded
   * with some output, is reported with the lines it kept - never with the
   * truncation notice.
   */
  lemma OutputOutcome(cmd: string, h: Host, stale: seq<char>)
    requires ValidHost(h) && |stale| == ResponseBufferSize && h.popenOk
    requires FirstStop(h.polls, 0) < TimeoutSeconds && h.polls[FirstStop(h.polls, 0)] == Reaped(true)
    requires Accumulated(h.lines) != ""
    ensures RunReport(cmd, h, stale) == Truncate(OutputReport(cmd, Accumulated(h.lines)), ResponseBufferSize - 1)
  {
    AccumulatedBelowLimit(h.lines);
    AccumulatedIsText(h.lines);
    NoticeNeverVisible(stale, Accumulated(h.lines));
  }

  lemma AccumulatedIsText(lines: seq<string>)
    requires forall i :: 0 <= i < |lines| ==> IsText(lines[i])
    ensures IsText(Accumulated(lines))
  {
    ConcatIsText(lines[..KeptCount(lines)]);
  }

  lemma {:induction false} ConcatIsText(lines: seq<string>)
    requires forall i :: 0 <= i < |lines| ==> IsText(lines[i])
    ensures IsText(Concat(lines))
    decreases |lines|
  {
    if lines != [] {
      var init := lines[..|lines| - 1];
      ConcatIsText(init);
      var c := Concat(lines);
      var last := lines[|lines| - 1];
      forall i | 0 <= i < |c| ensures c[i] != NUL {
        if i >= |Concat(init)| { assert c[i] == last[i - |Concat(init)|]; }
      }
    }
  }

  /**
   * The error branch of waitpid leaves `status` unassigned: when its garbage
   * does not read as a normal exit, command_output is appended as it was.
   */
  lemma WaitErrorKeepsStaleOutput(cmd: string, h: Host, stale: seq<char>)
    requires ValidHost(h) && |stale| == ResponseBufferSize
    requires FirstStop(h.polls, 0) < TimeoutSeconds && h.polls[FirstStop(h.polls, 0)] == WaitFailed
    requires !h.unsetExited
    ensures RunReport(cmd, h, stale) == CStr(stale)
  {
  }

  // ---------------------------------------------------------------------
  // The gate
  // ---------------------------------------------------------------------

  /** How the program goes on: back to the caller, or exit with a status. */
  datatype Flow = Continue | Exit(code: int)

  /** user_input[10]: each answer is one fgets of at most 9 characters. */
  const AnswerSize: nat := 10

  /**
   * What one call to execute_command appends, how the program goes on, what
   * stays unread on stdin, and what command_output then holds.
   */
  datatype Turn = Turn(appended: seq<string>, flow: Flow, rest: string, output: string)

  /**
   * execute_command as a value, reading the operator's answers off one
   * stdin stream: with pipe failing nothing happens; an answer starting
   * "yes" runs the command (nothing is appended if fork fails); "exit" exits
   * 0; anything else appends the decline and reads the next answer, where
   * "yes" appends the next message and anything else exits 0. Every answer
   * is what fgets(user_input, 10) takes, so the rest of a longer line
   * answers the next question.
   */
  function ExecuteSpec(cmd: string, h: Host, stdin: string, stale: seq<char>): Turn
    requires ValidHost(h) && |stale| == ResponseBufferSize
  {
    if !h.pipeOk then Turn([], Continue, stdin, CStr(stale))
    else
      var approval := Fgets(stdin, AnswerSize);
      if StartsWith(approval.line, "yes") then
        if !h.forkOk then Turn([], Continue, approval.rest, CStr(stale))
        else
          var report := RunReport(cmd, h, stale);
          Turn([report], Continue, approval.rest, report)
      else if StartsWith(approval.line, "exit") then Turn([], Exit(0), approval.rest, CStr(stale))
      else
        var declined := Truncate(DeclinedReport(cmd), ResponseBufferSize - 1);
        var carryOn := Fgets(approval.rest, AnswerSize);
        if StartsWith(carryOn.line, "yes") then
          var message := Fgets(carryOn.rest, ResponseBufferSize);
          Turn([declined, BeforeNewline(message.line)], Continue, message.rest, declined)
        else Turn([declined], Exit(0), carryOn.rest, declined)
  }

  /**
   * The entries append_conversation_entry("user", ...) makes of some
   * contents; each append calls curl_easy_init again, so each has its own
   * `Curl` answer.
   */
  function AsUser(contents: seq<string>, curls: seq<Curl>): (es: seq<Entry>)
    requires |contents| <= |curls|
    ensures |es| == |contents|
    ensures forall i :: 0 <= i < |contents| ==> es[i] == Stored("user", contents[i], curls[i])
  {
    if contents == [] then [] else [Stored("user", contents[0], curls[0])] + AsUser(contents[1..], curls[1..])
  }

  /**
   * execute_command(command, command_output, sizeof(command_output)) on the
   * input `stdin`: returns the sanitized command it shows (empty when pipe
   * fails before that), how the program goes on and what stays on stdin;
   * appends to the conversation what ExecuteSpec says, the i-th append with
   * curls[i], and leaves command_output holding ExecuteSpec's output.
   */
  method ExecuteCommand(store: ConversationStore, cmd: string, output: array<char>, h: Host, stdin: string, curls: seq<Curl>)
    returns (sanitized: string, flow: Flow, rest: string)
    requires store.Valid() && IsText(cmd) && ValidHost(h) && output.Length == ResponseBufferSize && |curls| >= 2
    modifies store, store.entries, output
    ensures store.Valid() && store.entries == old(store.entries)
    ensures sanitized == if h.pipeOk then SanitizedCommand(cmd) else ""
    ensures flow == ExecuteSpec(cmd, h, stdin, old(output[..])).flow
    ensures rest == ExecuteSpec(cmd, h, stdin, old(output[..])).rest
    ensures CStr(output[..]) == ExecuteSpec(cmd, h, stdin, old(output[..])).output
    ensures store.History() == AppendedAll(old(store.History()), AsUser(ExecuteSpec(cmd, h, stdin, old(output[..])).appended, curls))
  {
    ghost var stale := output[..];
    ghost var history := store.History();
    ghost var turn := ExecuteSpec(cmd, h, stdin, stale);
    if !h.pipeOk {
      return "", Continue, stdin;
    }
    var escaped := new char[EscapedBufferSize];
    EscapeDoubleQuotes(cmd, escaped);
    EscapedHolds(cmd, escaped[..]);
    sanitized := Truncate(BashCommand(CStr(escaped[..])), SanitizedBufferSize - 1);
    var approval := Fgets(stdin, AnswerSize);
    rest := approval.rest;
    if StartsWith(approval.line, "yes") {
      if !h.forkOk {
        return sanitized, Continue, rest;
      }
      RunApproved(cmd, h, output);
      assert turn.appended == [CStr(output[..])];
      store.Append("user", CStr(output[..]), curls[0]);
      AppendsOne(history, CStr(output[..]), curls);
      flow := Continue;
    } else if StartsWith(approval.line, "exit") {
      flow := Exit(0);
    } else {
      ReportsAreText(cmd, "");
      FormatInto(output, DeclinedReport(cmd));
      FormattedReadsBack(stale, DeclinedReport(cmd));
      var declined := CStr(output[..]);
      store.Append("user", declined, curls[0]);
      var carryOn := Fgets(rest, AnswerSize);
      rest := carryOn.rest;
      if StartsWith(carryOn.line, "yes") {
        var message := Fgets(rest, ResponseBufferSize);
        rest := message.rest;
        store.Append("user", BeforeNewline(message.line), curls[1]);
        AppendsTwo(history, declined, BeforeNewline(message.line), curls);
        flow := Continue;
      } else {
        AppendsOne(history, declined, curls);
        flow := Exit(0);
      }
    }
  }

  lemma AppendsOne(h: seq<Entry>, c: string, curls: seq<Curl>)
    requires |curls| >= 1
    ensures AppendedAll(h, AsUser([c], curls)) == Appended(h, Stored("user", c, curls[0]))
  {
    assert AsUser([c], curls) == [Stored("user", c, curls[0])];
  }

  lemma AppendsTwo(h: seq<Entry>, c: string, d: string, curls: seq<Curl>)
    requires |curls| >= 2
    ensures AppendedAll(h, AsUser([c, d], curls)) ==
              Appended(Appended(h, Stored("user", c, curls[0])), Stored("user", d, curls[1]))
  {
    var es := AsUser([c, d], curls);
    assert es == [Stored("user", c, curls[0]), Stored("user", d, curls[1])];
    assert es[1..] == AsUser([d], curls[1..]);
    AppendsOne(Appended(h, Stored("user", c, curls[0])), d, curls[1..]);
  }

  /** What EscapeDoubleQuotes leaves in re_sanitized_command reads back as the escaped command. */
  lemma EscapedHolds(cmd: string, b: seq<char>)
    requires IsText(cmd) && |b| == EscapedBufferSize
    requires var r := EscapedCommand(cmd); |r| < |b| && b[..|r|] == r && b[|r|] == NUL
    ensures CStr(b) == EscapedCommand(cmd)
  {
    var k := FitLength(cmd, EscapedBufferSize - 1);
    assert IsText(cmd[..k]) by {
      forall i | 0 <= i < k ensures cmd[..k][i] != NUL { assert cmd[..k][i] == cmd[i]; }
    }
    EscapeIsText(cmd[..k]);
    CStrOfTerminated(EscapedCommand(cmd), b);
  }

  // ---------------------------------------------------------------------
  // Properties of the gate
  // ---------------------------------------------------------------------

  /** The answer tests of ai.c:405, 483 and 492 see the same on the chunk fgets keeps as on the input. */
  lemma AnswerTests(input: string)
    ensures StartsWith(Fgets(input, AnswerSize).line, "yes") <==> StartsWith(input, "yes")
    ensures StartsWith(Fgets(input, AnswerSize).line, "exit") <==> StartsWith(input, "exit")
  {
    FgetsKeepsPrefixTests(input, AnswerSize, "yes");
    FgetsKeepsPrefixTests(input, AnswerSize, "exit");
  }

  /** Approved with pipe and fork working: exactly one report is appended and the conversation goes on. */
  lemma ApprovedAppendsOneReport(cmd: string, h: Host, stdin: string, stale: seq<char>)
    requires ValidHost(h) && |stale| == ResponseBufferSize && h.pipeOk && h.forkOk
    requires StartsWith(stdin, "yes")
    ensures ExecuteSpec(cmd, h, stdin, stale) ==
              Turn([RunReport(cmd, h, stale)], Continue, Fgets(stdin, AnswerSize).rest, RunReport(cmd, h, stale))
  {
    AnswerTests(stdin);
  }

  /** "exit" (and not "yes") ends the program with status 0, appends nothing and leaves command_output alone. */
  lemma ExitAnswerExits(cmd: string, h: Host, stdin: string, stale: seq<char>)
    requires ValidHost(h) && |stale| == ResponseBufferSize && h.pipeOk
    requires !StartsWith(stdin, "yes") && StartsWith(stdin, "exit")
    ensures ExecuteSpec(cmd, h, stdin, stale) == Turn([], Exit(0), Fgets(stdin, AnswerSize).rest, CStr(stale))
  {
    AnswerTests(stdin);
  }

  /**
   * Any other answer appends exactly the decline report, and the second
   * question reads what the first fgets left on stdin: "yes" there appends
   * the next message and goes on, anything else exits 0.
   */
  lemma OtherAnswerDeclines(cmd: string, h: Host, stdin: string, stale: seq<char>)
    requires ValidHost(h) && |stale| == ResponseBufferSize && h.pipeOk && |cmd| < EscapedBufferSize
    requires !StartsWith(stdin, "yes") && !StartsWith(stdin, "exit")
    ensures var left := Fgets(stdin, AnswerSize).rest;
            StartsWith(left, "yes") ==>
              var message := Fgets(Fgets(left, AnswerSize).rest, ResponseBufferSize);
              ExecuteSpec(cmd, h, stdin, stale) ==
                Turn([DeclinedReport(cmd), BeforeNewline(message.line)], Continue, message.rest, DeclinedReport(cmd))
    ensures var left := Fgets(stdin, AnswerSize).rest;
            !StartsWith(left, "yes") ==>
              ExecuteSpec(cmd, h, stdin, stale) ==
                Turn([DeclinedReport(cmd)], Exit(0), Fgets(left, AnswerSize).rest, DeclinedReport(cmd))
  {
    AnswerTests(stdin);
    AnswerTests(Fgets(stdin, AnswerSize).rest);
    ReportsFit(cmd);
  }

  /**
   * Answers that fit user_input whole are read one line per question: a
   * declined command followed by "yes" appends the decline and the next
   * message line, and leaves the input after that line.
   */
  lemma ShortAnswersAreLines(cmd: string, h: Host, no: string, yes: string, message: string, more: string, stale: seq<char>)
    requires ValidHost(h) && |stale| == ResponseBufferSize && h.pipeOk && |cmd| < EscapedBufferSize
    requires '\n' !in no && '\n' !in yes && '\n' !in message
    requires |no| < AnswerSize - 1 && |yes| < AnswerSize - 1 && |message| < ResponseBufferSize - 1
    requires !StartsWith(no, "yes") && !StartsWith(no, "exit") && StartsWith(yes, "yes")
    ensures ExecuteSpec(cmd, h, no + "\n" + yes + "\n" + message + "\n" + more, stale) ==
              Turn([DeclinedReport(cmd), message], Continue, more, DeclinedReport(cmd))
  {
    var tail := yes + "\n" + (message + "\n" + more);
    var input := no + "\n" + tail;
    assert no + "\n" + yes + "\n" + message + "\n" + more == input;
    ThreeLines(no, yes, message, more);
    OtherAnswerDeclines(cmd, h, input, stale);
  }

  /** How the three fgets calls split three short lines off the input. */
  lemma ThreeLines(no: string, yes: string, message: string, more: string)
    requires '\n' !in no && '\n' !in yes && '\n' !in message
    requires |no| < AnswerSize - 1 && |yes| < AnswerSize - 1 && |message| < ResponseBufferSize - 1
    ensures var tail := yes + "\n" + (message + "\n" + more);
            Fgets(no + "\n" + tail, AnswerSize) == Chunk(no + "\n", tail) &&
            Fgets(tail, AnswerSize) == Chunk(yes + "\n", message + "\n" + more) &&
            Fgets(message + "\n" + more, ResponseBufferSize) == Chunk(message + "\n", more) &&
            BeforeNewline(message + "\n") == message &&
            (StartsWith(no + "\n" + tail, "yes") <==> StartsWith(no, "yes")) &&
            (StartsWith(no + "\n" + tail, "exit") <==> StartsWith(no, "exit")) &&
            (StartsWith(tail, "yes") <==> StartsWith(yes, "yes"))
  {
    var tail := yes + "\n" + (message + "\n" + more);
    FgetsReadsShortLine(no, tail, AnswerSize);
    FgetsReadsShortLine(yes, message + "\n" + more, AnswerSize);
    FgetsReadsShortLine(message, more, ResponseBufferSize);
    PrefixOfLine(no, tail, "yes");
    PrefixOfLine(no, tail, "exit");
    PrefixOfLine(yes, message + "\n" + more, "yes");
    BeforeNewlineOfLine(message, "");
    assert message + "\n" + "" == message + "\n";
  }

  /**
   * An answer of 9 characters or more fills user_input, so the second
   * question reads the rest of that line: here just its newline, which is
   * not "yes", and the program exits with the next line still unread.
   */
  lemma AnswerFillingBufferSpills(cmd: string, h: Host, a: string, more: string, stale: seq<char>)
    requires ValidHost(h) && |stale| == ResponseBufferSize && h.pipeOk && |cmd| < EscapedBufferSize
    requires '\n' !in a && |a| == AnswerSize - 1 && !StartsWith(a, "yes") && !StartsWith(a, "exit")
    ensures ExecuteSpec(cmd, h, a + "\n" + more, stale) == Turn([DeclinedReport(cmd)], Exit(0), more, DeclinedReport(cmd))
  {
    var input := a + "\n" + more;
    assert input == a + ("\n" + more);
    FgetsSplitsLongLine(a, "\n" + more, AnswerSize);
    assert a[..AnswerSize - 1] == a && a[AnswerSize - 1..] == [];
    PrefixOfLine(a, more, "yes");
    PrefixOfLine(a, more, "exit");
    FgetsReadsShortLine("", more, AnswerSize);
    assert "" + "\n" + more == "\n" + more;
    OtherAnswerDeclines(cmd, h, input, stale);
  }

  /** "no thanks" then "yes": the decline is appended, and the program exits with "yes" unread. */
  lemma LongAnswerSpills(cmd: string, h: Host, stale: seq<char>)
    requires ValidHost(h) && |stale| == ResponseBufferSize && h.pipeOk && |cmd| < EscapedBufferSize
    ensures ExecuteSpec(cmd, h, "no thanks\nyes\n", stale) == Turn([DeclinedReport(cmd)], Exit(0), "yes\n", DeclinedReport(cmd))
  {
    var a := "no thanks";
    assert a[..3] == "no " && a[..4] == "no t";
    assert a + "\n" + "yes\n" == "no thanks\nyes\n";
    AnswerFillingBufferSpills(cmd, h, a, "yes\n", stale);
  }

  /** A failing pipe, or a failing fork after "yes", ends the call with nothing appended and command_output alone. */
  lemma SystemFailureAppendsNothing(cmd: string, h: Host, stdin: string, stale: seq<char>)
    requires ValidHost(h) && |stale| == ResponseBufferSize
    requires !h.pipeOk || (StartsWith(stdin, "yes") && !h.forkOk)
    ensures ExecuteSpec(cmd, h, stdin, stale).appended == []
    ensures ExecuteSpec(cmd, h, stdin, stale).flow == Continue
    ensures ExecuteSpec(cmd, h, stdin, stale).output == CStr(stale)
  {
    AnswerTests(stdin);
  }
}
