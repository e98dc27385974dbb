# AI Linux Assistant core, modelled in Dafny

`ai.c` is a command-line assistant. It keeps a conversation with a chat model
and looks in the model's reply for shell commands between `<CMD>` and
`</CMD>`. Each command is shown to the operator and runs only after the
operator approves it. Its output is then added to the conversation.

This project models the parts of `ai.c` that decide what is stored, what is
run and what is reported:

- **The conversation store** (`conversation.dfy`, module `Conversation`): the
  global array of 25,000 entries and its count, as a class. An append cuts
  the role to its buffer and stores the percent-encoded content, falling back
  to the raw content when encoding fails. When the store is full the entry
  is dropped.
- **C strings** (`cstring.dfy`, module `CStrings`): strings are NUL-free
  texts. A buffer is an `array<char>`, read up to its first NUL. `snprintf`
  and `strncpy` become truncation to the buffer size.
- **The shell escaper** (`shell_escape.dfy`, module `ShellEscape`):
  `escape_double_quotes` as an array-writing loop. It is proved against an
  `Escape` function and a `FitLength` function, and `Unescape` is its inverse.
- **The two in-place clean-ups** (`cleanup.dfy`, module `Cleanup`):
  `strip_triple_backticks` and `remove_extra_backslashes`, as loops over the
  buffer.
- **Directive extraction** (`directives.dfy`, module `Directives`):
  `process_response_for_commands` as a loop. It is proved against a pure
  scan, `ScanFrom`, built on `strstr`.
- **`execute_command`** (`executor.dfy`, module `Executor`): the
  approval gate, the child's bounded line accumulator, the pipe, the
  60-second poll loop and the report strings.
- **Configuration and arguments** (`config.dfy`, module `Config`): the line
  logic of `get_multiline_config_value` and `get_api_key`, and the argv join
  in `main`.

The operating system and libcurl are inputs, not code:

- A `Host` value gives what `pipe`, `fork`, `popen` and each `waitpid` poll
  answer, and the lines `popen`'s stream yields.
- Stdin is one stream of characters. Each `fgets` takes a chunk off it
  (`Fgets`), so the rest of an answer longer than `user_input[10]` holds is
  what the next question reads.
- A `Curl` value gives whether `curl_easy_init` succeeds and what
  `curl_easy_escape` returns.
- Configuration files are given as the chunks `fgets` reads.

An unmatched `<CMD>` is not fail-closed: it does not make the whole reply
count as holding no directive. The code runs every directive it found
before the unmatched tag, and only then stops and returns 0 (ai.c:521-525).
The model follows the code: `ProcessResponseForCommands` returns those
commands, and `EarlierDirectiveRunsBeforeUnmatched` shows such a reply.

## Model

| member | source | states |
|---|---|---|
| Conversation.Stored | ai.c:146-171 | The stored entry's role and content fit their buffers (511 and 64,511 characters); without curl the content stays blank |
| Conversation.ConversationStore.constructor | ai.c:127-129 | The store starts empty, every slot blank |
| Conversation.ConversationStore.Append | ai.c:146-171 | The history gains exactly the stored entry when below 25,000 entries, and is unchanged at capacity; the store stays valid |
| Conversation.AppendedAllKeepsOrder | ai.c:146-171 | A run of appends keeps the old history, adds the new entries in order, and drops exactly those arriving after the store is full |
| CStrings.CLen | ai.c:361 | strlen: no NUL before the result, a NUL at it when inside the buffer |
| CStrings.CStr | ai.c:470 | The string a buffer holds is NUL-free, is the buffer's prefix, and is followed by a NUL when shorter than the buffer |
| CStrings.Truncate | ai.c:157 | strncpy/snprintf truncation: a prefix of the input, at most n long, the whole input when it fits |
| CStrings.BeforeNewline | ai.c:280-281 | Cutting at the first newline leaves a prefix without newlines that stops at a newline or the end |
| CStrings.Fgets | ai.c:401-402 | fgets takes a prefix of the input, leaving the rest on the stream; the chunk holds at most size - 1 characters, has no newline before its last character, and stops only at the end of input, at size - 1 characters, or after a newline |
| CStrings.FgetsKeepsPrefixTests | ai.c:401-405 | A prefix test for a prefix that fits the buffer and has no inner newline reads the same on the chunk as on the whole input |
| CStrings.FgetsReadsShortLine | ai.c:490-491 | A line that fits the buffer is read whole, newline included, and the input after it stays unread |
| CStrings.FgetsSplitsLongLine | ai.c:401-402 | A longer line is cut after size - 1 characters, and its tail stays on the stream |
| CStrings.FormattedReadsBack | ai.c:464 | After snprintf into a buffer, the buffer reads back as the text cut to size minus one |
| CStrings.FormatInto | ai.c:464 | snprintf writes the formatted text and terminator into the buffer as Formatted says |
| CStrings.StrCopy | ai.c:378 | strcpy: the destination reads back as the source and nothing past the copied terminator changes |
| ShellEscape.EscapeAppend | ai.c:177-214 | Escaping distributes over concatenation: characters are escaped one at a time, in order |
| ShellEscape.EscapeLength | ai.c:177-214 | The escape is at least as long as the input and at most twice as long |
| ShellEscape.EscapeIsText | ai.c:177-214 | The escape of a NUL-free text is NUL-free |
| ShellEscape.UnescapeEscape | ai.c:177-214 | Unescaping the escape gives back the input: quotes, backslashes, dollars and backticks become backslash pairs, other characters stay |
| ShellEscape.EscapePlain | ai.c:210-213 | A text with none of the four special characters is copied unchanged |
| ShellEscape.FitLengthIsLongest | ai.c:177-214 | The escaped prefix fits the room, and one more input character would not |
| ShellEscape.FitLengthWhole | ai.c:177 | When the whole escape fits, the whole input is escaped |
| ShellEscape.EscapeDoubleQuotes | ai.c:174-218 | The buffer holds the escape of the longest input prefix whose escape fits in size minus one, then a NUL; an escape pair is written whole or not at all; nothing after the NUL is touched |
| Cleanup.StripTicks | ai.c:223-230 | The stripped text is no longer than the input and NUL-free when the input is |
| Cleanup.StripLeavesNoTriple | ai.c:221-232 | No run of three backticks survives stripping |
| Cleanup.StripWithoutTriple | ai.c:221-232 | A text without three backticks in a row is left alone |
| Cleanup.StripIdempotent | ai.c:221-232 | Stripping twice is the same as stripping once |
| Cleanup.StripKeepsOtherCharacters | ai.c:221-232 | Only backticks are removed: every other character is kept, in order |
| Cleanup.StripTripleBackticks | ai.c:221-232 | The buffer's string becomes StripTicks of its old string, rewritten in place |
| Cleanup.Collapse | ai.c:364-376 | The collapsed text is no longer than the input and NUL-free when the input is |
| Cleanup.CollapseUndoesEscape | ai.c:359-379 | Collapsing undoes escape_double_quotes for text without dollar signs and backticks |
| Cleanup.CollapseKeepsDollarEscape | ai.c:359-379 | The escapes of a dollar sign and a backtick keep their backslash after collapsing |
| Cleanup.CollapseIntoTemp | ai.c:360-377 | A fresh array of strlen + 1 characters holds the collapse of the buffer's string |
| Cleanup.RemoveExtraBackslashes | ai.c:359-379 | The buffer's string becomes the collapse of its old string |
| Directives.FindFromFinds | ai.c:510 | strstr answers with an occurrence that has none before it, and with nothing only when there is none |
| Directives.FindFromFirst | ai.c:521 | The first occurrence at or after the start is what strstr returns |
| Directives.NextDirective | ai.c:510-525 | A round's answer lies after where it started, with the start tag before the end tag and inside the text |
| Directives.NextDirectiveFinds | ai.c:510-525 | A round finds no start tag, or the first start tag with no end tag after it, or the first start tag with the first end tag after it |
| Directives.ScanStep | ai.c:514-542 | A round that finds a directive records it, and the scan goes on after its end tag |
| Directives.ScanEndsRound | ai.c:514-524 | The scan stops at a round that finds no start tag, or at one that finds an unmatched start tag, and says which |
| Directives.ScanIsChainOfRounds | ai.c:514-542 | Directive i is what the round started just after directive i - 1 finds: left to right, none skipped |
| Directives.NoStartTagReturnsZero | ai.c:510-514 | A reply without `<CMD>` holds no directive and returns 0 |
| Directives.FoundMeansAllMatched | ai.c:506-545 | 1 is returned exactly when the reply holds a start tag and every start tag the scan met had an end tag |
| Directives.EarlierDirectiveRunsBeforeUnmatched | ai.c:514-525 | A directive followed by an unmatched start tag is still found and run, yet 0 is returned |
| Directives.CopyCommandAsWritten | ai.c:528-531 | The copy into command[512] is in bounds exactly when the command text is shorter than 512 |
| Directives.CopyCommand | ai.c:528-531 | The corrected copy is a prefix of the command text of at most 511 characters, the whole text when it fits |
| Directives.LongDirectiveOverflows | ai.c:528-531 | A reply with one 512-character directive is scanned whole, and its copy as written overruns command[512] |
| Directives.Commands | ai.c:527-538 | One command string per directive, each the directive's text as copied into command[512] |
| Directives.ProcessResponseForCommands | ai.c:506-545 | The commands passed on are those of the scan's directives, in order, each once; the value returned is 1 exactly when the scan found directives and no unmatched tag |
| Executor.KeptFromIsFirstMisfit | ai.c:423-430 | Reading goes on while each line fits under the limit and stops at the first line that does not |
| Executor.KeptCountIsFirstMisfit | ai.c:423-430 | The kept lines are exactly those before the first line that would take the total to RESPONSE_BUFFER_SIZE - 512 or past it |
| Executor.AccumulatedBelowLimit | ai.c:424 | The child's result stays below RESPONSE_BUFFER_SIZE - 512 characters |
| Executor.AccumulateLines | ai.c:415-430 | The loop keeps exactly the first-misfit prefix of the lines, joined, and stays below the limit |
| Executor.ReadBack | ai.c:467-468 | After the read and the final NUL, the buffer keeps its size |
| Executor.ReadPipe | ai.c:467-468 | The buffer holds the bytes read, then what it held, then a NUL in its last slot |
| Executor.NoticeNeverVisible | ai.c:436-437 | The truncation notice written after the result's NUL is never seen: the buffer reads back as the result alone |
| Executor.NothingReadKeepsBuffer | ai.c:418-420 | When popen fails the child writes nothing, and the buffer keeps its old text |
| Executor.FirstStopIsFirst | ai.c:447-458 | The loop stops at the first poll that is not "running", and runs all 60 rounds only when there is none |
| Executor.WaitWithTimeout | ai.c:445-458 | timeout is 0 exactly when all 60 polls found the child running; otherwise the poll at 60 - timeout stopped the loop and all before it were running; WIFEXITED is read from the reaped child or from the unset status |
| Executor.ReportsFit | ai.c:464-487 | For a command shorter than 512, the timeout, empty-output and decline reports fit command_output whole |
| Executor.ReportsAreText | ai.c:464-487 | Every report is NUL-free |
| Executor.SanitizedCommandIsWhole | ai.c:394-396 | sanitized_command[548] holds the whole `bash -c "..."` line, and its quoted part unescapes to the command prefix that fit re_sanitized_command[512], the whole command when its escape fits |
| Executor.ReportExit | ai.c:465-477 | After the read, command_output reads back as the empty-output report when nothing was read, and otherwise as the output report cut to the buffer |
| Executor.RunApproved | ai.c:406-478 | command_output reads back as the timeout report, the exit report, or its old text when the unset status does not read as a normal exit |
| Executor.TimeoutOutcome | ai.c:460-464 | When all 60 polls find the child running, the timeout report is what is appended |
| Executor.OutputOutcome | ai.c:465-477 | A child that exited normally with output is reported with the lines it kept, never with the truncation notice |
| Executor.WaitErrorKeepsStaleOutput | ai.c:454-465 | On a waitpid error, the unset status decides; when it does not read as a normal exit, the buffer's old text is appended |
| Executor.AnswerTests | ai.c:401-405 | Testing "yes" or "exit" on the chunk fgets keeps in user_input[10] is testing it on the input |
| Executor.ExecuteCommand | ai.c:382-503 | The sanitized command is shown when pipe succeeds; the answers are read off one stdin stream and what they leave is handed back; the conversation gains exactly the entries the gate calls for, in order, each append with its own curl answer; command_output ends holding the run report, the decline report, or its old text; the flow is Continue or Exit(0) as the answers decide |
| Executor.ApprovedAppendsOneReport | ai.c:405-482 | An approved command with pipe and fork working appends exactly one report, which command_output then holds, and the conversation goes on |
| Executor.ExitAnswerExits | ai.c:483-485 | "exit" ends the program with status 0, appends nothing and leaves command_output alone |
| Executor.OtherAnswerDeclines | ai.c:486-502 | Any other answer appends the decline report; the second question reads what the first fgets left on stdin, where "yes" appends the next message line and goes on, and anything else exits 0 |
| Executor.ShortAnswersAreLines | ai.c:486-496 | Answers that fit user_input are read one line per question: a declined command then "yes" appends the decline and the next message line, and leaves the input after it |
| Executor.AnswerFillingBufferSpills | ai.c:486-501 | A declining answer of 9 characters fills user_input; the second question reads the newline it left and the program exits, with the next line unread |
| Executor.LongAnswerSpills | ai.c:486-501 | "no thanks" then "yes" appends only the decline and exits 0, leaving "yes" unread |
| Executor.SystemFailureAppendsNothing | ai.c:384-409 | A failing pipe, or a failing fork after "yes", ends the call with nothing appended and command_output alone |
| Config.SplitJoin | ai.c:96-106 | Values joined with single spaces split back into the same values when none holds a space |
| Config.LineValue | ai.c:74-84 | The intended value is the line with the prefix removed: without its trailing newline when the line ends in one, the whole rest otherwise |
| Config.AsWrittenDropsFirstChar | ai.c:77 | Wherever the code as written is defined, it loses exactly the first character of the intended value |
| Config.EmptyValueIsUndefined | ai.c:81-83 | An empty value always reaches the read before the start of the value |
| Config.PromptLineLosesFirstChar | ai.c:77 | "PROMPT=hello" is read as "ello" |
| Config.EmptyPromptValueIsUndefined | ai.c:81-83 | "PROMPT=" followed by a newline reaches the undefined read |
| Config.MultilineConfigValue | ai.c:62-113 | With the value read from just after the prefix as corrected, the value is the values of the lines with the prefix, in file order, joined with single spaces; None when no line has the prefix |
| Config.SelectedAsWrittenDropsFirstChars | ai.c:73-84 | As written, the selection is undefined exactly when a selected line holds at most one character after the prefix, and is otherwise the intended values each without its first character |
| Config.ConfigValueAsWrittenDropsFirstChars | ai.c:62-113 | get_multiline_config_value as written is undefined exactly when a selected line reaches the read before its value, and otherwise joins the intended values each without its first character |
| Config.TwoPromptLinesAsWritten | ai.c:62-113 | "PROMPT=ab" and "PROMPT=cd" give "ab cd" as intended and "b d" as written |
| Config.ConfigValueMissing | ai.c:108-110 | The value is missing exactly when no line starts with the prefix |
| Config.ConfigValueIsOneLine | ai.c:81-84 | Newlines are removed: a value read from fgets lines holds no newline |
| Config.ConfigValueSnoc | ai.c:73-102 | A line without the prefix changes nothing; a line with it adds its value after one space |
| Config.GetApiKey | ai.c:258-292 | The key is what ApiKey says: the first OPENAIKEY= line's rest, cut at the newline |
| Config.ApiKeyIsFirstMatch | ai.c:268-282 | The first OPENAIKEY= line wins, and its rest is cut at its first newline |
| Config.ApiKeyMissing | ai.c:286-288 | The key is missing exactly when no line starts with OPENAIKEY= |
| Config.JoinArgsAsWritten | ai.c:569-574 | The prompt is the arguments joined with single spaces; strcat overruns prompt[64000] exactly when that join is 64,000 characters or longer |
| Config.LongArgumentsOverflow | ai.c:569-574 | Two 32,000-character arguments make a 64,001-character prompt |
| Config.JoinArgs | ai.c:557-574 | The corrected join holds the longest prefix of the space-joined arguments that fits prompt[64000] |
| Config.JoinArgsAgreesWhenItFits | ai.c:569-574 | When the join fits, the corrected join is the join itself |

## Left out

- HTTP and JSON: `send_request_to_openai`, `generate_json_payload`, `parse_ai_response` and the libcurl transfer are not modelled. Only the command side of the reply is.
- `curl_easy_escape` and `curl_easy_init` are a `Curl` parameter. The percent-encoding itself (section 2.1 of RFC 3986) is not modelled.
- `url_decode`, `get_prompt` and `get_added_prompt` are direct calls to code above or to libcurl. They are not modelled separately.
- `pipe`, `fork`, `popen`, `waitpid`, `kill`, `sleep` and `read` are answers in a `Host` value. Concurrency between parent and child is not modelled, and a `read` is taken to return everything the child wrote, up to the buffer size.
- The child's `fgets` chunking of `popen` lines into 511-character pieces is not modelled. The `Host` gives the chunks.
- Bytes of a command's output containing NUL are not modelled: the lines are NUL-free texts.
- Reading configuration files is not modelled: a file is given as the chunks `fgets` returns. The interactive prompt read in `main` when no argument is given is also left out.
- Executor.ExecuteCommand: at the end of stdin `fgets` reads nothing and leaves `user_input` uninitialised (or, at the second question, holding the first answer, which is not "yes"); the model reads an empty answer there. At the second question this agrees with the code, since the old answer is not "yes"; at the first it stands for whatever the uninitialised buffer holds. `user_message` at the end of stdin is read as empty.
- Executor.ExecuteCommand: a NUL byte typed on stdin is not modelled: stdin is NUL-free text.
- Config.MultilineConfigValue: it computes the corrected value, with each line's value read from just after the prefix (Findings ai.c:77 and ai.c:81-83). The value as written is `Config.ConfigValueAsWritten`, and `Config.ConfigValueAsWrittenDropsFirstChars` relates the two.
- Allocation failures (`realloc`, `strdup` returning NULL) are not modelled.
- The `printf`/`perror` messages to the terminal are not modelled.
- `main`'s conversation loop, the API key check and its network branches are not modelled (ai.c:595-634).
- Directives.ProcessResponseForCommands: it collects the commands and returns them, rather than calling `execute_command` inside the loop. The scan is a pure function of the reply, so the commands are passed on in the same order. An `exit(0)` from inside `execute_command` is not modelled here; `Executor.ExecuteCommand` models it as `Exit(0)`.
- Executor.RunApproved: the undefined read of an unset `status` is a parameter (`unsetExited`), not a value the model derives.
- Directives.CopyCommandAsWritten: a write past command[512] is shown as `None`; what the overrun corrupts is not modelled.
- Config.JoinArgsAsWritten: a write past prompt[64000] is shown as a flag; what the overrun corrupts is not modelled.

## Findings

| source | as written | input that shows it | evidently intended | confidence | as-written member | corrected member |
|---|---|---|---|---|---|---|
| ai.c:528-531 | `strncpy(command, command_start, command_length)` then `command[command_length] = '\0'` into `char command[512]`, with no bound on `command_length` | a reply holding one directive of 512 characters | cut the command to the 511 characters the buffer holds | not executed | Directives.LongDirectiveOverflows | Directives.CopyCommand |
| ai.c:77 | `line + strlen(key_prefix) + 1`, though the prefixes passed (`"PROMPT="`, `"ADDEDPROMPT="`) already end in `=` | the line `PROMPT=hello` is read as `ello` | skip only the prefix | not executed | Config.PromptLineLosesFirstChar | Config.LineValue |
| ai.c:81-83 | `line_value[line_value_len - 1]` with `line_value_len == 0`, an unsigned underflow | the line `PROMPT=` followed by a newline | test for the newline only when the value is not empty | not executed | Config.EmptyPromptValueIsUndefined | Config.LineValue |
| ai.c:569-574 | `strcat` of every argument into `char prompt[64000]` with no bound | two arguments of 32,000 characters each | stop at the buffer's size | not executed | Config.LongArgumentsOverflow | Config.JoinArgs |
