# webmux chat-log core in Dafny

webmux is a web front end for tmux. Its Rust backend follows the session log of an AI coding tool running in a tmux window: Claude Code or the Codex CLI. It normalises each log record into a chat message and streams the messages to the browser over the connection's websocket.

This project models that core:

- **The two record normalisers** (`ClaudeParser`, `CodexParser`):
  - each maps one decoded JSONL record to no message or one `ChatMessage`;
  - they share the summaries of tool output (`Summary`);
  - they produce the shared chat datatypes and their wire form (`ChatLog`).
- **The log watcher** (`Watcher`):
  - the history read, the incremental reads from a byte offset, and the events they emit.
- **Log detection** (`Detect`, `ProcessTree`, `ProcStat`/`StatLayout`):
  - the pane's pid from tmux;
  - the walk over its descendants in a procfs snapshot, with the parent pid read out of `/proc/<pid>/stat`;
  - first-match tool detection;
  - Claude Code's project-directory naming;
  - newest-file selection.
- **`Utf8StreamDecoder`** (`StreamDecoder`): decodes terminal output that arrives in arbitrary byte chunks.
- **The chat-log part of a websocket connection** (`Session`):
  - the watch-handle slot;
  - the spawned task's translation of log events into server messages;
  - the reply rules for renames and window selection.

Support modules:

- `Wrappers`: `Option` and `Result`.
- `Json`: `serde_json::Value`.
- `Text`: the `str` methods the core calls, with their Rust semantics.
- `Utf8`: UTF-8 as defined by the UTF8-octets grammar in section 4 of RFC 3629. It provides `Encode`/`Decode` (proved inverse), `valid_up_to` and `from_utf8_lossy`.

Modelling choices:

- **Text and bytes.** Text is a Dafny `string`, a sequence of Unicode scalar values, as a Rust `str` is. Raw data is `Utf8.Bytes`: log files, paths, tmux output and terminal chunks. Byte lengths, such as Rust's `str::len`, are computed through the UTF-8 encoding.
- **JSON decoding is a parameter.** Each parser takes a `Decoder`: serde's decoding of the trimmed line into the raw record type, with `None` for a decode failure. A structured tool-result value arrives already rendered as text.
- **The machine is a `Host` value.** Everything the detector asks of the machine comes from it: the `/proc` listing, the `comm` and `cwd` entries, the home directory, and the directory test and listings with modification times. tmux is a function from target to output.
- **A log file is a sequence of snapshots.** It is the byte content each read observes. A run of the watcher task is the sequence of snapshots its reads see.
- **Tasks are numbered, not run.** The watch slot names tasks by spawn order and records aborts rather than performing them.

In three places the code panics or loses data on some input (see Findings). In each place the model keeps two members: one for the code as written and one corrected. Lemmas show an input where the two differ and prove where they agree:

- the cut and the parsers agree on every input where the code does not panic;
- the watchers agree when the file and every later snapshot end with a newline;
- the decoders agree on the pieces of a valid UTF-8 stream, but not on invalid bytes (see Left out).

- **The 120-byte cut.** `truncate`, `summarize_output` and the Claude result summary slice a text at byte 120. The slice panics when that byte falls inside a character.
  - The members ending in `AsWritten` in `Summary`, `ClaudeParser` and `CodexParser` are the code as written, with `None` standing for the panic.
  - The members without that suffix cut at the last character boundary instead. The watcher parses lines with them.
- **The partial line.** The read loop reads a trailing fragment without a newline as a line of its own and moves past it. The documentation of `read_new_lines` promises complete lines only.
  - `ReadLines`, `ReadNewLines`, `Step`, `Run` and `WatchLogFile` are the code as written, the history read included.
  - `ReadCompleteLines`, `ReadNewLinesFixed`, `StepFixed`, `RunFixed` and `WatchLogFileFixed` leave the fragment for a later read.
  - The two watchers are equal when every snapshot ends with a newline (`Watcher.WatchesAgree`).
- **The split character.** `Utf8StreamDecoder` can drop the start of a character that arrives over several chunks. `DecodeChunk` is the code as written and `DecodeChunkFixed` is corrected.

The code neither removes duplicate user echoes nor merges consecutive messages of one role, and the model does neither.

## Model

| member | source | states |
|---|---|---|
| ChatLog.BlockToJson | backend-rust/src/chat_log/mod.rs:7-26 | The "type" tag of a serialised block is "text", "tool_call" or "tool_result" exactly for the matching variant. A tool result's name is under "toolName". The "input" and "content" keys appear exactly when the value is present. |
| ChatLog.OptionalField | backend-rust/src/chat_log/mod.rs:16-24 | An optional field, as the derived `Deserialize` reads it, is absent exactly when its key is missing or its value is `null`. Otherwise it is the value found. |
| ChatLog.BlockFromJson | backend-rust/src/chat_log/mod.rs:7-26 | A tool call read back takes its input from the optional "input" field, so a `null` input reads as none. |
| ChatLog.BlockRoundTrip | backend-rust/src/chat_log/mod.rs:7-26 | A serialised block reads back as itself exactly when it is not a tool call whose input is JSON `null`. Such a call is written with `"input": null` and reads back with no input. |
| ChatLog.MessageToJson | backend-rust/src/chat_log/mod.rs:28-35 | A message serialises to an object with exactly the keys "role", "timestamp" and "blocks". The blocks array is as long as the block list. |
| ChatLog.MessageRoundTrip | backend-rust/src/chat_log/mod.rs:28-35 | A serialised message reads back as itself exactly when none of its tool calls has a `null` input. That covers the role, the timestamp and the block order. |
| ChatLog.BlocksToJson | backend-rust/src/chat_log/mod.rs:34 | The blocks array holds each block's serialised form, in order. |
| ChatLog.BlocksFromJson | backend-rust/src/chat_log/mod.rs:34 | An array reads back exactly when every element reads back as a block, and then element i is the block read from item i. |
| ChatLog.BlocksReadBack | backend-rust/src/chat_log/mod.rs:34 | A serialised block list always reads back, with the same length. Each block comes back unchanged exactly when it has no `null` tool-call input. |
| ChatLog.BlocksRoundTrip | backend-rust/src/chat_log/mod.rs:28-35 | A serialised block list reads back as itself exactly when no tool call in it has a `null` input. |
| ChatLog.ToolRoundTrip | backend-rust/src/chat_log/mod.rs:37-43 | The two tools serialise to distinct names, and each name reads back as its tool. |
| Json.StrField | backend-rust/src/chat_log/claude_parser.rs:171-173 | Looking up a field and taking it as a string gives a value exactly when the input is an object whose field is a JSON string, and the value is that string. |
| Text.TrimEmptyIffBlank | backend-rust/src/chat_log/claude_parser.rs:65-68 | A trimmed line is empty exactly when every character is whitespace. |
| Text.TrimIgnoresTrailingBlank | backend-rust/src/chat_log/codex_parser.rs:54-57 | Whitespace after a line, including the newline that `read_line` keeps, does not change the trimmed text. |
| Text.ParseU32OfNatToString | backend-rust/src/chat_log/watcher.rs:228-231 | A number below 2^32 printed in decimal parses back as itself with `parse::<u32>`. |
| Text.NatToStringIsDecimal | backend-rust/src/chat_log/codex_parser.rs:141 | `format!("{}", n)` prints the decimal digits of n with no leading zero. |
| Text.DecimalIsNatToString | backend-rust/src/chat_log/codex_parser.rs:141 | A number has only one such decimal form, so any string stated to be that form is exactly what `format!` prints. |
| Text.SplitWhitespaceKeepsText | backend-rust/src/chat_log/watcher.rs:278-279 | Joined, the fields of `split_whitespace` are exactly the non-whitespace characters of the text, in order. |
| Text.LastIndexOf | backend-rust/src/chat_log/watcher.rs:273-277 | `rfind` gives nothing exactly when the character does not occur. Otherwise it gives an index holding the character, with no occurrence after it. |
| Utf8.ValidUpTo | backend-rust/src/terminal_buffer.rs:39-40 | The prefix of length `valid_up_to` is valid UTF-8. |
| Utf8.ValidUpToIsLongest | backend-rust/src/terminal_buffer.rs:39-40 | No prefix longer than `valid_up_to` is valid UTF-8. |
| Utf8.ValidUpToWhole | backend-rust/src/terminal_buffer.rs:57-61 | `valid_up_to` reaches the end exactly when the whole sequence is valid, that is, when `from_utf8` succeeds. |
| Utf8.ToStr | backend-rust/src/chat_log/watcher.rs:342-344 | `to_str` gives text exactly for valid UTF-8, and that text encodes back to the same bytes. |
| Utf8.LossyOfValid | backend-rust/src/chat_log/watcher.rs:223-227 | Lossy decoding of valid UTF-8 is exact decoding. |
| Summary.ValidPrefixIsBoundary | backend-rust/src/chat_log/codex_parser.rs:167-173 | The first b bytes of a text's encoding are valid UTF-8 exactly when b falls between two characters. This is the condition under which `&s[..b]` does not panic. |
| Summary.TruncateAsWritten | backend-rust/src/chat_log/codex_parser.rs:167-173 | `truncate` as written panics (None) exactly when the text is longer than max bytes and byte max is inside a character. Otherwise a long text becomes its first max bytes followed by "...". |
| Summary.TruncatePanicsInsideChar | backend-rust/src/chat_log/codex_parser.rs:167-173 | max-1 one-byte characters followed by a two-byte character make the slice panic. |
| Summary.TruncatePanicExample | backend-rust/src/chat_log/codex_parser.rs:167-173 | 119 letters followed by "é" make `truncate(s, 120)` panic. |
| Summary.Truncate | backend-rust/src/chat_log/codex_parser.rs:167-173 | Text of at most max bytes is kept whole. Longer text becomes a prefix of itself followed by "...". That prefix fits in max bytes, and one more character would not fit. The result is at most max+3 bytes. |
| Summary.TruncateAgrees | backend-rust/src/chat_log/codex_parser.rs:167-173 | Wherever the written slice does not panic, it gives the same text as the intended cut. |
| Summary.SummarizeOutput | backend-rust/src/chat_log/codex_parser.rs:175-182 | The corrected summary. Text of more than one line becomes its line count, printed in decimal without leading zeros, followed by " lines". Any other text gives the 120-byte cut `Truncate(text, 120)`: at most 123 bytes, and unchanged within 120 bytes. |
| Summary.SummarizeOutputAsWritten | backend-rust/src/chat_log/codex_parser.rs:175-182 | `summarize_output` as written panics (None) exactly when the text has at most one line and byte 120 is inside a character. Where it does not panic it gives the corrected summary. |
| Summary.SummaryPanicExample | backend-rust/src/chat_log/codex_parser.rs:175-182 | One line of 119 letters followed by "é" makes `summarize_output` panic. |
| Summary.MultiLineIffNewlines | backend-rust/src/chat_log/codex_parser.rs:175-179 | Text is summarised by its line count exactly when it has two newlines, or one newline with more text after it. |
| ClaudeParser.ToolSummary | backend-rust/src/chat_log/claude_parser.rs:160-179 | The summary starts with the tool name. It continues exactly when the tool is well known and its descriptive field holds a string, and then it continues with ": " and that string. |
| ClaudeParser.BashToolSummary | backend-rust/src/chat_log/claude_parser.rs:281-288 | A Bash call is summarised as "Bash: cargo test". |
| ClaudeParser.UnknownToolSummary | backend-rust/src/chat_log/claude_parser.rs:290-297 | An unknown tool is summarised by its name, whatever its input. |
| ClaudeParser.ResultSummary | backend-rust/src/chat_log/claude_parser.rs:183-198 | The corrected result summary. Absent content gives "(empty)". Present content gives the output summary. For multi-line content that is the decimal line count, without leading zeros, followed by " lines". Any other content gives its 120-byte cut. |
| ClaudeParser.ResultSummaryAsWritten | backend-rust/src/chat_log/claude_parser.rs:183-198 | `generate_result_summary` as written panics (None) exactly when the content is present, has at most one line and is cut inside a character at byte 120. Otherwise it gives the corrected summary. |
| ClaudeParser.ConvertBlock | backend-rust/src/chat_log/claude_parser.rs:117-150 | A block is dropped exactly when it is an empty or missing text, or of an unknown type. `tool_use` always gives a ToolCall with the name (empty when missing), its summary and the input. `tool_result` always gives a ToolResult with the `tool_use_id`, the content as text and its corrected summary. |
| ClaudeParser.ConvertBlockAsWritten | backend-rust/src/chat_log/claude_parser.rs:117-150 | `convert_block` as written panics (None) exactly when the block is a tool result whose summary slice panics. Otherwise it gives what ConvertBlock gives. |
| ClaudeParser.ConvertBlocks | backend-rust/src/chat_log/claude_parser.rs:110-113 | The converted list is no longer than the raw one and holds no empty text. When no block is dropped it has the same length. |
| ClaudeParser.ConvertBlocksAppend | backend-rust/src/chat_log/claude_parser.rs:110-113 | Converting a concatenation converts each part in order. |
| ClaudeParser.ConvertBlocksSingle | backend-rust/src/chat_log/claude_parser.rs:110-113 | A single raw block contributes its conversion, or nothing when it is dropped. |
| ClaudeParser.ConvertBlocksAsWritten | backend-rust/src/chat_log/claude_parser.rs:110-113 | Converting an array as written succeeds exactly when no block panics, and then gives what ConvertBlocks gives. |
| ClaudeParser.ConvertContent | backend-rust/src/chat_log/claude_parser.rs:101-115 | String content gives one Text block unless it is empty, and then nothing. Array content is converted block by block. No empty text is produced. |
| ClaudeParser.ConvertContentAsWritten | backend-rust/src/chat_log/claude_parser.rs:101-115 | `convert_content` as written panics (None) exactly when the content is an array holding a block that panics. Otherwise it gives what ConvertContent gives. |
| ClaudeParser.ParseLine | backend-rust/src/chat_log/claude_parser.rs:64-95 | A message is produced exactly when all of these hold: the trimmed line is non-empty; it decodes; its kind is "user" or "assistant"; it has a message; the converted content is non-empty. The message's role comes from the payload, its timestamp from the record and its blocks from the content, with corrected summaries, and the message is well formed. |
| ClaudeParser.ParseLineAsWritten | backend-rust/src/chat_log/claude_parser.rs:64-95 | `parse_line` as written panics (outer None) exactly when the line decodes to a user or assistant record whose content panics. Otherwise it gives what ParseLine gives. |
| ClaudeParser.ResultSummaryPanics | backend-rust/src/chat_log/claude_parser.rs:183-198 | A user record holding one tool result whose text makes the summary panic panics as written, while the corrected parse yields the message with that one block. |
| ClaudeParser.ParseIgnoresTrailingBlank | backend-rust/src/chat_log/claude_parser.rs:64-68 | A line with its newline or other trailing whitespace parses as the line without it. |
| ClaudeParser.BlankLineYieldsNothing | backend-rust/src/chat_log/claude_parser.rs:268-273 | A blank line yields nothing, whatever the decoder would make of it. |
| ClaudeParser.SummaryRecordYieldsNothing | backend-rust/src/chat_log/claude_parser.rs:262-266 | A "summary" record yields nothing even when it carries a message. |
| ClaudeParser.EmptyTextBlockDropped | backend-rust/src/chat_log/claude_parser.rs:323-332 | An empty text block is dropped and the next one kept. |
| CodexParser.CommandInput | backend-rust/src/chat_log/codex_parser.rs:112-117 | The recorded input of a shell call holds the command under "command". |
| CodexParser.ConvertAgentMessage | backend-rust/src/chat_log/codex_parser.rs:95-104 | An agent message gives exactly one Text block with the item's text. Missing or empty text gives nothing. |
| CodexParser.ConvertCommandExecution | backend-rust/src/chat_log/codex_parser.rs:106-130 | A missing or empty command gives nothing. Otherwise the first block is a Bash call with the command cut at a character boundary and the command as input. A second, Bash result block follows exactly when there is non-empty output, carrying the output and its corrected summary. |
| CodexParser.ConvertCommandExecutionAsWritten | backend-rust/src/chat_log/codex_parser.rs:106-130 | `convert_command_execution` as written panics (None) exactly when the command is non-empty and either its 120-byte cut panics or there is non-empty output whose summary panics. Otherwise it gives what ConvertCommandExecution gives. |
| CodexParser.FilesSummary | backend-rust/src/chat_log/codex_parser.rs:138-142 | One change is summarised by its path. More are summarised by the count, printed in decimal without leading zeros, followed by " files". |
| CodexParser.ConvertFileChange | backend-rust/src/chat_log/codex_parser.rs:132-149 | An empty or missing change list gives nothing. Otherwise it gives one Edit call with the files summary and no input. |
| CodexParser.ConvertMcpToolCall | backend-rust/src/chat_log/codex_parser.rs:151-161 | It always gives one MCP call without input, summarised as "server/tool" cut at a character boundary, where a missing part reads "unknown". |
| CodexParser.ConvertMcpToolCallAsWritten | backend-rust/src/chat_log/codex_parser.rs:151-161 | `convert_mcp_tool_call` as written panics (None) exactly when the 120-byte cut of "server/tool" panics. Otherwise it gives what ConvertMcpToolCall gives. |
| CodexParser.ConvertItem | backend-rust/src/chat_log/codex_parser.rs:85-93 | "agent_message", "command_execution", "file_change" and "mcp_tool_call" items are converted by their own conversion, and an MCP call always gives blocks. Any other kind gives nothing. The blocks given are non-empty with no empty text. |
| CodexParser.ConvertItemAsWritten | backend-rust/src/chat_log/codex_parser.rs:85-93 | `convert_item` as written panics (None) exactly when the item is a command or an MCP call whose conversion panics. Otherwise it gives what ConvertItem gives. |
| CodexParser.ParseLine | backend-rust/src/chat_log/codex_parser.rs:53-79 | A message is produced exactly when all of these hold: the trimmed line is non-empty; it decodes; the event is "item.completed"; it carries an item; the item converts. The message is an assistant message without a timestamp, holding the item's blocks with corrected summaries, and it is well formed. |
| CodexParser.ParseLineAsWritten | backend-rust/src/chat_log/codex_parser.rs:53-79 | `parse_line` as written panics (outer None) exactly when the line decodes to a completed item whose conversion panics. Otherwise it gives what ParseLine gives. |
| CodexParser.CommandPanicParse | backend-rust/src/chat_log/codex_parser.rs:106-117 | A completed command whose 120-byte cut panics makes the parse panic as written, while the corrected parse yields the Bash call. |
| CodexParser.ParseIgnoresTrailingBlank | backend-rust/src/chat_log/codex_parser.rs:53-57 | A line with trailing whitespace parses as the line without it. |
| CodexParser.OtherEventsYieldNothing | backend-rust/src/chat_log/codex_parser.rs:292-313 | Any event other than "item.completed" yields nothing. |
| CodexParser.CommandRecoverable | backend-rust/src/chat_log/codex_parser.rs:112-117 | The command of a shell call can be read back from the call's input. |
| CodexParser.TwoFilesSummary | backend-rust/src/chat_log/codex_parser.rs:264-275 | Two changed files are summarised as "2 files". |
| CodexParser.McpSummaryExample | backend-rust/src/chat_log/codex_parser.rs:277-290 | A short endpoint is kept whole: "context7/search". |
| Watcher.ParserFor | backend-rust/src/chat_log/watcher.rs:200-206 | Whichever tool was detected, every message its parser produces is well formed. |
| Watcher.ParserIgnoresTrailingBlank | backend-rust/src/chat_log/watcher.rs:200-206 | For either tool, the line terminator does not change what a line parses to. |
| Watcher.ReadLineBytes | backend-rust/src/chat_log/watcher.rs:149-155 | Reading a line succeeds exactly when its bytes are valid UTF-8. |
| Watcher.LineEnd | backend-rust/src/chat_log/watcher.rs:147-161 | `read_line` moves forward unless it is already at the end. It stops at the end or just past a newline. |
| Watcher.ReadLines | backend-rust/src/chat_log/watcher.rs:143-164 | As written, the position never moves back or past the end of the file. Reading from the end on gives nothing and leaves the position. |
| Watcher.SplitLinesJoin | backend-rust/src/chat_log/watcher.rs:147-151 | The lines `read_line` returns, put back together, are exactly the bytes from the position on. |
| Watcher.SplitLinesEnds | backend-rust/src/chat_log/watcher.rs:147-151 | Every line but the last ends with a newline, and no line holds a newline before its end. |
| Watcher.ReadLinesByLines | backend-rust/src/chat_log/watcher.rs:143-164 | As written, the messages are the parse results of the lines before the first non-UTF-8 line, in file order, with lines that parse to nothing dropped. The position ends just past that line, or at the end of the file when every line is UTF-8. |
| Watcher.ReadLinesMessages | backend-rust/src/chat_log/watcher.rs:147-161 | The messages half of ReadLinesByLines. |
| Watcher.ReadLinesStops | backend-rust/src/chat_log/watcher.rs:147-161 | The position half of ReadLinesByLines. |
| Watcher.ReadLinesConsumesAll | backend-rust/src/chat_log/watcher.rs:180-196 | As written, a read of UTF-8 content ends at the end of the file, trailing fragment included. |
| Watcher.ReadCompleteLines | backend-rust/src/chat_log/watcher.rs:166-197 | The corrected loop moves the position only to just past a newline, never back and never past the end. |
| Watcher.ReadCompleteLinesLeavesFragment | backend-rust/src/chat_log/watcher.rs:166-197 | What the corrected loop leaves unread holds no newline: every complete line was read. |
| Watcher.ReadersAgreeOnCompleteLines | backend-rust/src/chat_log/watcher.rs:180-196 | On content ending with a newline, the written and the corrected loop give the same messages and position, from any start. |
| Watcher.CompleteLinesExtend | backend-rust/src/chat_log/watcher.rs:168-197 | Two reads give what one read of the grown file gives, ending at the same position. The first read covers a prefix of the file; the second covers the grown file from where the first stopped. |
| Watcher.ReadNewLines | backend-rust/src/chat_log/watcher.rs:168-197 | As written: a failed open reports its error. Otherwise the position never moves back, and a file that has not grown gives nothing and leaves the position. |
| Watcher.ReadNewLinesFixed | backend-rust/src/chat_log/watcher.rs:166-167 | The documented read follows the same three rules, and its position only ever stops just past a newline. |
| Watcher.AsWrittenReadsToEnd | backend-rust/src/chat_log/watcher.rs:180-197 | As written, a read of UTF-8 content leaves the position at the end of the file, fragment or not. |
| Watcher.DeliveredNewMessages | backend-rust/src/chat_log/watcher.rs:116-122 | The NewMessage events built from a batch carry exactly the batch, in order. |
| Watcher.Report | backend-rust/src/chat_log/watcher.rs:115-129 | A failed read emits one Error event with its message and keeps the position. A successful one emits NewMessage events for exactly its messages, in order, and never a History. |
| Watcher.Step | backend-rust/src/chat_log/watcher.rs:115-130 | As written, a failed read emits one Error event and keeps the position. A successful read emits NewMessage events for exactly the messages of every line read, fragment included, and moves to where the read stopped. A step never emits History. |
| Watcher.StepFixed | backend-rust/src/chat_log/watcher.rs:166-167 | The corrected step emits the messages of the complete lines only and stops before a trailing fragment. |
| Watcher.Run | backend-rust/src/chat_log/watcher.rs:108-132 | The watcher task never emits a History event, and with no reads it emits nothing. |
| Watcher.RunFixed | backend-rust/src/chat_log/watcher.rs:108-132 | The corrected task never emits a History event either, and with no reads it emits nothing. |
| Watcher.RunsAgree | backend-rust/src/chat_log/watcher.rs:108-132 | When every successful read sees content ending with a newline, the task as written and the corrected task emit the same events. |
| Watcher.FailedReadDeliversNothing | backend-rust/src/chat_log/watcher.rs:124-129 | In the corrected task, a failed read delivers no message, and the task carries on from the same position. |
| Watcher.RunFixedDeliversEveryMessage | backend-rust/src/chat_log/watcher.rs:70-132 | For the corrected task: if the file only grows and its lines are valid UTF-8, then whatever the timing of writes and reads, the history followed by every delivered message is exactly the messages of the complete lines of the final file. |
| Watcher.WatchLogFile | backend-rust/src/chat_log/watcher.rs:65-135 | A failed open sends nothing and fails with "failed to open log file: <path>". Otherwise exactly one History is sent first, holding the messages of every line of the file, fragment included. A failed watch setup sends nothing after it; otherwise the task's events follow from where the history read stopped. No later event is a History. |
| Watcher.WatchLogFileFixed | backend-rust/src/chat_log/watcher.rs:166-167 | The corrected watcher: the same rules, with the history and every later read taking complete lines only. |
| Watcher.WatchesAgree | backend-rust/src/chat_log/watcher.rs:65-197 | When the file as opened and every later snapshot end with a newline, the watcher as written and the corrected watcher do exactly the same. |
| Watcher.WatchFixedDeliversEveryMessage | backend-rust/src/chat_log/watcher.rs:65-135 | In the corrected watcher, the history and the new messages together are every message of the complete lines the log ends up with. |
| Watcher.WatchDeliversEveryMessage | backend-rust/src/chat_log/watcher.rs:65-135 | If the file only grows, stays UTF-8, and every snapshot ends with a newline, the watcher as written delivers every message of the final file, whatever the timing of reads. |
| Watcher.PartialRecordLost | backend-rust/src/chat_log/watcher.rs:180-196 | As written, a record appended in two writes with a read in between is never delivered. |
| Watcher.PartialRecordKept | backend-rust/src/chat_log/watcher.rs:166-167 | The corrected loop waits for the newline and delivers that record. |
| Watcher.WatchLosesPartialRecord | backend-rust/src/chat_log/watcher.rs:141-197 | The watcher as written never delivers a record written as "ab" then "cd\n" when the file is opened between the two writes. |
| Watcher.WatchFixedKeepsPartialRecord | backend-rust/src/chat_log/watcher.rs:166-167 | The corrected watcher delivers that record once its newline arrives. |
| ProcStat.FieldsAfterComm | backend-rust/src/chat_log/watcher.rs:273-278 | The fields after the command name are absent exactly when the stat text has no ')'. |
| ProcStat.ParentOf | backend-rust/src/chat_log/watcher.rs:273-284 | A stat text without ')' gives no parent, and a parent read is below 2^32. |
| ProcStat.ParentAfterParen | backend-rust/src/chat_log/watcher.rs:278-280 | The parent is the second whitespace-separated field after the last ')', read as a u32. |
| StatLayout.ParentOfStatText | backend-rust/src/chat_log/watcher.rs:267-284 | From any stat text laid out as the kernel writes it, the parent read is the parent written, whatever spaces and parentheses the command name holds. |
| ProcessTree.EntryLink | backend-rust/src/chat_log/watcher.rs:261-284 | An entry names a pid and parent exactly when three things hold: its name parses as a u32; its stat was read; a parent can be read from the stat. The link holds those two values. |
| ProcessTree.DirectChildren | backend-rust/src/chat_log/watcher.rs:255-288 | A scan finds at most one child per `/proc` entry. |
| ProcessTree.DirectChildrenSound | backend-rust/src/chat_log/watcher.rs:255-288 | Every child found is named by an entry whose stat names the parent. |
| ProcessTree.DirectChildrenComplete | backend-rust/src/chat_log/watcher.rs:255-288 | Every entry whose stat names the parent contributes its pid. |
| ProcessTree.PopStep | backend-rust/src/chat_log/watcher.rs:244-248 | Popping a pid and pushing its children moves exactly those children out of the descendants still to list, so the walk ends. |
| ProcessTree.Walk | backend-rust/src/chat_log/watcher.rs:244-249 | The loop only appends to the result. |
| ProcessTree.WalkCollects | backend-rust/src/chat_log/watcher.rs:244-249 | The loop adds exactly the descendants of the pids on the worklist. |
| ProcessTree.WalkParentsFirst | backend-rust/src/chat_log/watcher.rs:244-249 | The loop lists each pid after its parent. |
| ProcessTree.DescendantPids | backend-rust/src/chat_log/watcher.rs:240-252 | The list starts with the root. |
| ProcessTree.DescendantPidsCorrect | backend-rust/src/chat_log/watcher.rs:240-252 | The root comes first, every other pid comes after its parent, and the list holds exactly the pids of the root's subtree. |
| Detect.Target | backend-rust/src/chat_log/watcher.rs:24 | The tmux target is the session name, a ':', then the window index in decimal. |
| Detect.PanePid | backend-rust/src/chat_log/watcher.rs:213-234 | There is a pid exactly when tmux ran, succeeded, and printed a u32 after trimming. A failure to run, a tmux failure with its stderr, and unreadable output with its stdout each give their own message. |
| Detect.PanePidOfPrinted | backend-rust/src/chat_log/watcher.rs:227-233 | The pid tmux prints, newline included, is read back as that pid. |
| Detect.ProcessName | backend-rust/src/chat_log/watcher.rs:291-296 | A name exists exactly when `comm` was read, and it is that text trimmed. |
| Detect.ToolNamed | backend-rust/src/chat_log/watcher.rs:34-45 | The name "claude" means Claude and only that name does; likewise "codex" for Codex. |
| Detect.ProcessCwd | backend-rust/src/chat_log/watcher.rs:299-303 | The working directory is the `cwd` link when it could be read. Otherwise the error is "failed to read /proc/<pid>/cwd". |
| Detect.Join | backend-rust/src/chat_log/watcher.rs:322 | An absolute name replaces the path. A relative name is appended directly when the path is empty or ends with '/', and after one '/' otherwise. |
| Detect.JoinRelative | backend-rust/src/chat_log/watcher.rs:322 | A relative name is joined to a path not ending in '/' with exactly one '/'. |
| Detect.EncodeCwd | backend-rust/src/chat_log/watcher.rs:318-321 | The directory name is the path with every '/' replaced by '-', character for character. |
| Detect.EncodeCwdIdempotent | backend-rust/src/chat_log/watcher.rs:318-321 | Encoding an encoded name changes nothing. |
| Detect.EncodeCwdCollides | backend-rust/src/chat_log/watcher.rs:309-321 | "/a-b" and "/a/b" share the project directory "-a-b". |
| Detect.ProjectsDirLayout | backend-rust/src/chat_log/watcher.rs:317-322 | The projects directory is the home directory, ".claude", "projects" and the encoded path, separated by single '/'s. The two middle components are the encodings of those literals. |
| Detect.Extension | backend-rust/src/chat_log/watcher.rs:369 | There is an extension exactly when the name has a last '.' that is not its first byte and the name is not "..". The extension is then what follows that last '.'. |
| Detect.HasJsonlExtensionIff | backend-rust/src/chat_log/watcher.rs:369-371 | A name passes the filter exactly when it ends with ".jsonl" and something comes before that. |
| Detect.Newest | backend-rust/src/chat_log/watcher.rs:364-384 | Nothing is selected exactly when no entry passes the filter with a known mtime. Otherwise the selected entry is eligible and its mtime is the latest. Every eligible entry listed before it is strictly older. |
| Detect.NewestIsFirstLatest | backend-rust/src/chat_log/watcher.rs:378-380 | The selection is the first eligible entry with the latest mtime, and no other. |
| Detect.NewestTieKeepsFirst | backend-rust/src/chat_log/watcher.rs:378-380 | Of two eligible files with the same mtime, the one listed first is kept. |
| Detect.NewestJsonlIn | backend-rust/src/chat_log/watcher.rs:364-384 | A directory that cannot be listed gives nothing. Otherwise the result is the newest ".jsonl" entry joined to the directory, or nothing. |
| Detect.FindCodexLog | backend-rust/src/chat_log/watcher.rs:336-361 | A listing error of /tmp is passed on. Otherwise the result is the newest "webmux-codex-*.jsonl" under /tmp, or the error that none was found. |
| Detect.FindClaudeLog | backend-rust/src/chat_log/watcher.rs:316-333 | In order, each of these failures gives its own message: no home directory; a cwd that is not UTF-8; a missing projects directory; a projects directory without ".jsonl" files. Otherwise the result is the newest log in the projects directory. |
| Detect.Lookup | backend-rust/src/chat_log/watcher.rs:34-45 | A log is found for the tool asked for. Codex takes the path FindCodexLog gives. Claude takes the path FindClaudeLog gives for the process's cwd. The error of either search, or of reading the cwd, is passed on unchanged. |
| Detect.Scan | backend-rust/src/chat_log/watcher.rs:28-50 | The scan finds nothing exactly when no pid is a tool. |
| Detect.ScanFindsTool | backend-rust/src/chat_log/watcher.rs:28-46 | A log found belongs to a pid that runs the tool it names. |
| Detect.ScanFirstMatch | backend-rust/src/chat_log/watcher.rs:28-46 | The first pid that is a tool decides, and a failed lookup is not retried with later pids. |
| Detect.DetectLogFile | backend-rust/src/chat_log/watcher.rs:20-51 | A failure to get the pane pid is returned as it is. A pane that is itself a tool is looked up directly. |
| Detect.DetectFindsToolInSubtree | backend-rust/src/chat_log/watcher.rs:20-51 | A detected log belongs to a process of the pane's subtree running that tool. |
| Detect.DetectWithoutTool | backend-rust/src/chat_log/watcher.rs:28-50 | With no tool in the pane's subtree, detection fails with the message naming the pane's pid. |
| StreamDecoder.New | backend-rust/src/terminal_buffer.rs:9-13 | A new decoder has nothing pending. |
| StreamDecoder.ValidPrefixText | backend-rust/src/terminal_buffer.rs:69-75 | The text emitted for a buffer encodes exactly its longest valid prefix. |
| StreamDecoder.ResumePending | backend-rust/src/terminal_buffer.rs:19-53 | With nothing pending, nothing happens. Otherwise the pending bytes are joined with at most four new bytes. An empty valid prefix keeps the pending bytes and consumes nothing. A non-empty prefix is emitted and clears them. The number of chunk bytes consumed is that prefix's length minus the pending bytes, and zero when the prefix is no longer than them (`saturating_sub`). |
| StreamDecoder.DecodeChunk | backend-rust/src/terminal_buffer.rs:15-90 | The count returned is the chunk's length. With nothing pending, the text is the chunk's longest valid prefix and the rest becomes pending. When the window completes the pending character, the text is the window's valid prefix, followed by the valid prefix of the chunk from the first unused byte; whatever follows stays pending. When the window has no valid prefix, the whole chunk is decoded from its start. The pending bytes are then kept if the chunk is valid, and replaced by the chunk's undecodable tail if it is not. |
| StreamDecoder.DecodeChunkFixed | backend-rust/src/terminal_buffer.rs:15-90 | The intended decoder emits the longest valid prefix of the pending bytes and the whole chunk. It keeps pending only the start of a character. On a valid stream, text and pending bytes together are exactly the bytes received. |
| StreamDecoder.AgreeWhenNothingPending | backend-rust/src/terminal_buffer.rs:55-89 | With nothing pending, the written and the intended decoder agree on any piece of a valid stream. |
| StreamDecoder.AgreeWhenWindowCompletes | backend-rust/src/terminal_buffer.rs:19-89 | They also agree when the first four bytes of the chunk complete the pending character. |
| StreamDecoder.SplitCharacterLost | backend-rust/src/terminal_buffer.rs:77-82 | The euro sign arriving one byte per chunk produces no text as written, and only its last byte stays pending. |
| StreamDecoder.SplitCharacterKept | backend-rust/src/terminal_buffer.rs:15-90 | The intended decoder produces the euro sign from the same chunks. |
| StreamDecoder.DecodeStream | backend-rust/src/terminal_buffer.rs:15-90 | Feeding a valid stream through the intended decoder emits exactly the decoding of all the bytes, leaving nothing pending. |
| Session.TakeAndAbort | backend-rust/src/websocket/mod.rs:678-683 | The slot is left empty, and only the handle it held is aborted. |
| Session.Watch | backend-rust/src/websocket/mod.rs:673-740 | The new task's handle is stored. From a sound state, the new task is the only live one. |
| Session.Unwatch | backend-rust/src/websocket/mod.rs:741-747 | The slot is emptied. From a sound state, no task is live afterwards. |
| Session.Cleanup | backend-rust/src/websocket/mod.rs:957-963 | Closing the connection empties the slot. From a sound state, no task is live afterwards. |
| Session.UnwatchIdempotent | backend-rust/src/websocket/mod.rs:741-747 | Unwatching twice is unwatching once. |
| Session.AtMostOneLive | backend-rust/src/websocket/mod.rs:673-747 | In a sound state at most one task is live, and it is the one in the slot. The slot is empty exactly when no task is live. |
| Session.InitialSound | backend-rust/src/websocket/mod.rs:131 | A new connection's slot is sound, with no task live. |
| Session.ReplayKeepsOneLive | backend-rust/src/websocket/mod.rs:673-747 | However a connection's commands interleave, the state stays sound and at most one chat-log task is live. |
| Session.LastCommandDecides | backend-rust/src/websocket/mod.rs:673-747 | After a watch, exactly the newest task is live. After an unwatch or a close, none is. |
| Session.Translate | backend-rust/src/websocket/mod.rs:709-722 | History becomes ChatHistory, NewMessage becomes ChatEvent and Error becomes ChatLogError, and no other pairing occurs. |
| Session.TranslateRoundTrip | backend-rust/src/websocket/mod.rs:709-722 | The event can be read back from the message: no payload changes. |
| Session.TranslateInjective | backend-rust/src/websocket/mod.rs:709-722 | Distinct events reach the client as distinct messages. |
| Session.HistoryNamesTool | backend-rust/src/websocket/mod.rs:710-715 | A history message always names its tool. |
| Session.ChatTask | backend-rust/src/websocket/mod.rs:686-734 | The task never sends more than the connection accepts. A detection failure or a failed watcher start sends one ChatLogError and nothing else. Otherwise the watcher's events are forwarded in order, as many as the connection accepts. |
| Session.FailureSendsOneError | backend-rust/src/websocket/mod.rs:686-734 | A failed start reaches an open connection as exactly one ChatLogError. |
| Session.ForwardsEverything | backend-rust/src/websocket/mod.rs:707-726 | While the connection stays open, every watcher event is forwarded, in order. |
| Session.RenameSession | backend-rust/src/websocket/mod.rs:364-389 | tmux is not called exactly when the new name is blank, and then the reply is a failure with "Session name cannot be empty". Otherwise the reply succeeds exactly when tmux did, and a tmux error is reported after "Failed to rename session: ". Success and the absence of an error always coincide. |
| Session.RenameWindow | backend-rust/src/websocket/mod.rs:430-455 | The same rule for a window, with "Window name cannot be empty" and "Failed to rename window: ". |
| Session.WhitespaceNameRefused | backend-rust/src/websocket/mod.rs:364-370 | Names of spaces, tabs or newlines are refused whatever tmux would have done. |
| Session.SelectWindowReply | backend-rust/src/websocket/mod.rs:266-288 | Success, a window index and the absence of an error each hold exactly when tmux succeeded. The index is the window selected, and a failure carries tmux's error. |

## Left out

- Summary.Truncate: it cuts at the last character boundary where the code panics. `Summary.TruncateAsWritten` states the panic.
- Summary.SummarizeOutput: it cuts at the last character boundary where the code panics. `Summary.SummarizeOutputAsWritten` states the panic.
- ClaudeParser.ResultSummary: it cuts at the last character boundary where the code panics. `ClaudeParser.ResultSummaryAsWritten` states the panic.
- ClaudeParser.ConvertBlock: it cuts at the last character boundary where the code panics. `ClaudeParser.ConvertBlockAsWritten` states the panic.
- ClaudeParser.ConvertBlocks: it cuts at the last character boundary where the code panics. `ClaudeParser.ConvertBlocksAsWritten` states the panic.
- ClaudeParser.ConvertContent: it cuts at the last character boundary where the code panics. `ClaudeParser.ConvertContentAsWritten` states the panic.
- ClaudeParser.ParseLine: it cuts at the last character boundary where the code panics. `ClaudeParser.ParseLineAsWritten` states the panic.
- CodexParser.ConvertCommandExecution: it cuts at the last character boundary where the code panics. `CodexParser.ConvertCommandExecutionAsWritten` states the panic.
- CodexParser.ConvertMcpToolCall: it cuts at the last character boundary where the code panics. `CodexParser.ConvertMcpToolCallAsWritten` states the panic.
- CodexParser.ConvertItem: it cuts at the last character boundary where the code panics. `CodexParser.ConvertItemAsWritten` states the panic.
- CodexParser.ParseLine: it cuts at the last character boundary where the code panics. `CodexParser.ParseLineAsWritten` states the panic.
- Watcher.ParserFor: the watcher parses with the corrected parsers. A line that makes the code panic would end the watcher's task; the model delivers its message instead. `ClaudeParser.ParseLineAsWritten` and `CodexParser.ParseLineAsWritten` say exactly which lines do that.
- Watcher.WatchDeliversEveryMessage: it requires every snapshot to end with a newline. Without that the watcher as written can lose a record (see Findings).
- StreamDecoder.DecodeChunkFixed: it is the intended decoder for valid UTF-8 only. It drops every byte from the first invalid one on, while the code keeps the undecodable tail pending. The two are proved equal only on pieces of a valid stream (`AgreeWhenNothingPending`, `AgreeWhenWindowCompletes`).
- Real I/O is not modelled. That covers `File`/`BufReader`, `/proc` reads, `read_dir` and metadata, the tmux subprocess and `dirs::home_dir`. Each becomes an input: file snapshots, a `Host` value and a tmux function.
- JSON decoding, untagged-enum fallback, `Value::to_string` and `chrono` parsing are not modelled. They are decoder parameters, pre-rendered text and an opaque `Instant`.
- Serialisation is modelled as a JSON value, not as text. The model covers key names, tags and omitted fields, but not the serialised string itself.
- The `notify` watcher, tokio tasks, channels, the draining of notification bursts and the timing of `abort` are left out, because they are concurrency:
  - a run is the sequence of snapshots the reads see;
  - the watch slot records aborts;
  - nothing is claimed about events a task had already queued when it was aborted.
- The watcher task stops when its event channel closes. The model leaves this out, because a run ends where its snapshots end.
- Watcher.WatchLogFile: `stream_position` and the watch setup can fail after the history is sent. Both are folded into one optional failure given as a parameter, because their causes are I/O.
- A failed `send_message` serialisation is not modelled, because serialising these datatypes cannot fail.
- Session.ChatTask: the connection's channel is modelled as the number of sends it accepts before closing.
- The `info!`, `warn!`, `error!` and `debug!` logging is left out, because it has no effect on behaviour.
- Detect.Newest: modification times are natural numbers. `SystemTime` is compared only with `>`, which natural numbers model faithfully.
- Detect.Host: the `/proc` listing is one snapshot, listed once, while the code re-reads `/proc` for every parent pid. Processes that appear or exit during the walk are therefore not modelled.
- Unlistable entries are not modelled:
  - a `/proc` listing that fails is an empty snapshot;
  - directory entries that cannot be read are absent from a listing;
  - an entry whose metadata or mtime cannot be read has no `modified`.
- A non-UTF-8 or unreadable `comm` is a missing key in `comm`.
- ProcStat.ParentOf: it requires that the byte after the last ')' exists and is a single byte. Otherwise the slice `stat[after_comm + 2..]` panics. The kernel always writes a space there.
- ProcessTree.DescendantPids: it requires a rank that decreases from each parent to its children, so the snapshot is a forest. The code has no cycle guard and loops forever on a cyclic parent relation.
- Detect.DetectLogFile: its contract covers a failed pane lookup and a pane that is itself a tool. The general case is stated by Detect.DetectFindsToolInSubtree and Detect.DetectWithoutTool.
- Watcher.ReadLines: positions are natural numbers, not `u64`, because a log file of 2^64 bytes is not a case worth modelling.
- Error messages keep only their outermost anyhow context, which is what `to_string` prints. An I/O error passed on with `?` is the host's error text.
- Only the chat-log part of websocket/mod.rs is modelled. Left out are:
  - the PTY relay and its timed flushes;
  - `GetStats`, which uses floating point;
  - the session, window, audio, cron and dotfiles handlers;
  - the `ClientManager` broadcast.
- `Utf8StreamDecoder` calls simdutf8 first and std's `from_utf8` second. Both validate the same UTF-8, so one validity predicate models both.

## Findings

| source | as written | input that shows it | evidently intended | confidence | as-written member | corrected member |
|---|---|---|---|---|---|---|
| backend-rust/src/chat_log/codex_parser.rs:167-173 | `&s[..max]` slices at byte 120 and panics when that byte falls inside a multi-byte character. The Claude result summary has the same slice at claude_parser.rs:194, although its documentation (claude_parser.rs:181-182) speaks of the first 120 characters. | A command of 119 letters followed by "é" is 121 bytes. Byte 120 is inside "é" (`Summary.TruncatePanicExample`). | Cut at the last character boundary within 120 bytes, then add "...". | not executed | Summary.TruncateAsWritten | Summary.Truncate |
| backend-rust/src/terminal_buffer.rs:77-82 | When pending bytes and the next chunk's first bytes still form no character, the pending bytes are replaced by the new chunk's undecodable tail. The first part of the character is lost. | The bytes E2, 82, AC (the euro sign) in three one-byte chunks produce no text, and only AC stays pending (`StreamDecoder.SplitCharacterLost`). | Keep every byte of an incomplete character until it completes, so a valid stream decodes to its text (`StreamDecoder.DecodeStream`). | not executed | StreamDecoder.DecodeChunk | StreamDecoder.DecodeChunkFixed |
| backend-rust/src/chat_log/watcher.rs:141-197 | The read loops of `read_all_messages` (lines 147-161) and `read_new_lines` (lines 180-194) parse a trailing fragment without a newline as a line and move the position past it. The documentation of `read_new_lines` promises complete lines only. | The file holds "ab" when the watcher opens it and later grows to "abcd\n". The history read consumes "ab" and the next read sees "cd\n"; neither parses, so the record is never delivered (`Watcher.WatchLosesPartialRecord`, and `Watcher.PartialRecordLost` for the task alone). | Stop before an unterminated fragment and read it once its newline arrives, so every record of the final file is delivered (`Watcher.WatchFixedKeepsPartialRecord`, `Watcher.WatchFixedDeliversEveryMessage`). | not executed | Watcher.WatchLogFile | Watcher.WatchLogFileFixed |
