/**
 * Normalisation of one line of a Codex CLI `--json` event stream into at
 * most one chat message. Only `item.completed` events carry messages, and
 * only four item kinds are understood.
 *
 * As for the Claude parser, JSON decoding is the `Decoder` parameter.
 */
module CodexParser {
  import opened Wrappers
  import opened Json
  import opened Text
  import opened Summary
  import opened ChatLog

  datatype RawFileChange = RawFileChange(path: string, kind: Option<string>)

  /** A completed item; which optional fields matter depends on its kind. */
  datatype RawItem = RawItem(
    itemType: string,
    text: Option<string>,
    command: Option<string>,
    aggregatedOutput: Option<string>,
    changes: Option<seq<RawFileChange>>,
    server: Option<string>,
    tool: Option<string>)

  datatype RawEvent = RawEvent(eventType: string, item: Option<RawItem>)

  /** Decoding of a trimmed line; `None` when the text is not a well-typed event. */
  type Decoder = string -> Option<RawEvent>

  const ITEM_COMPLETED: string := "item.completed"
  const ASSISTANT: string := "assistant"
  const UNKNOWN: string := "unknown"

  /** The input recorded for a shell command: `{"command": command}`. */
  function CommandInput(command: string): (r: Json)
    ensures StrField(Some(r), "command") == Some(command)
  {
    JObject(map["command" := JString(command)])
  }

  /** `convert_agent_message`: the item's text as one text block, nothing when it is empty or missing. */
  function ConvertAgentMessage(item: RawItem): (r: Option<seq<ContentBlock>>)
    ensures r.Some? <==> item.text.GetOr([]) != []
    ensures r.Some? ==> r.value == [Text(item.text.value)]
  {
    var text := item.text.GetOr([]);
    if text == [] then None else Some([Text(text)])
  }

  /**
   * `convert_command_execution`: a `Bash` call carrying the command, followed
   * by a `Bash` result exactly when there is non-empty output.
   */
  function ConvertCommandExecution(item: RawItem): (r: Option<seq<ContentBlock>>)
    ensures r.Some? <==> item.command.GetOr([]) != []
    ensures r.Some? ==>
      var command := item.command.value;
      && 1 <= |r.value| <= 2
      && r.value[0] == ToolCall("Bash", Truncate(command, SUMMARY_BYTES), Some(CommandInput(command)))
      && (|r.value| == 2 <==> item.aggregatedOutput.GetOr([]) != [])
      && (|r.value| == 2 ==>
            var output := item.aggregatedOutput.value;
            r.value[1] == ToolResult("Bash", SummarizeOutput(output), Some(output)))
  {
    var command := item.command.GetOr([]);
    if command == [] then
      None
    else
      var call := ToolCall("Bash", Truncate(command, SUMMARY_BYTES), Some(CommandInput(command)));
      match item.aggregatedOutput
      case Some(output) =>
        if output != [] then Some([call, ToolResult("Bash", SummarizeOutput(output), Some(output))])
        else Some([call])
      case None => Some([call])
  }

  /** The summary of a file change: the path of a single file, otherwise "<count> files". */
  function FilesSummary(changes: seq<RawFileChange>): (r: string)
    requires |changes| > 0
    ensures |changes| == 1 ==> r == changes[0].path
    ensures |changes| > 1 ==>
      && |r| > |" files"| && r[|r| - |" files"|..] == " files"
      && AllDigits(r[..|r| - |" files"|])
      && DigitsValue(r[..|r| - |" files"|]) == |changes|
    ensures |changes| > 1 ==> Decimal(r[..|r| - |" files"|], |changes|)
  {
    if |changes| == 1 then
      changes[0].path
    else
      var digits := NatToString(|changes|);
      NatToStringIsDecimal(|changes|);
      var r := digits + " files";
      assert r[..|r| - |" files"|] == digits;
      r
  }

  /** `convert_file_change`: one `Edit` call for the whole change set, nothing when it is empty. */
  function ConvertFileChange(item: RawItem): (r: Option<seq<ContentBlock>>)
    ensures r.Some? <==> item.changes.GetOr([]) != []
    ensures r.Some? ==> r.value == [ToolCall("Edit", FilesSummary(item.changes.value), None)]
  {
    var changes := item.changes.GetOr([]);
    if changes == [] then None else Some([ToolCall("Edit", FilesSummary(changes), None)])
  }

  /** The "server/tool" name of an MCP call, "unknown" standing for a missing part. */
  function McpEndpoint(item: RawItem): string {
    item.server.GetOr(UNKNOWN) + "/" + item.tool.GetOr(UNKNOWN)
  }

  /** `convert_mcp_tool_call`: always one `MCP` call summarised as "server/tool". */
  function ConvertMcpToolCall(item: RawItem): (r: seq<ContentBlock>)
    ensures |r| == 1 && r[0].ToolCall? && r[0].name == "MCP" && r[0].input.None?
    ensures r[0].summary == Truncate(item.server.GetOr(UNKNOWN) + "/" + item.tool.GetOr(UNKNOWN), SUMMARY_BYTES)
  {
    [ToolCall("MCP", Truncate(McpEndpoint(item), SUMMARY_BYTES), None)]
  }

  /** A command item whose conversion panics: its command, or its output summary, is cut inside a character. */
  predicate CommandPanics(item: RawItem) {
    && item.command.GetOr([]) != []
    && (|| TruncatePanics(item.command.value, SUMMARY_BYTES)
        || (item.aggregatedOutput.GetOr([]) != [] && SummaryPanics(item.aggregatedOutput.value)))
  }

  /**
   * `convert_command_execution` as written, whose `truncate` and
   * `summarize_output` slice at byte 120; `None` stands for the panic, and
   * wherever it does not panic it is `ConvertCommandExecution`.
   */
  function ConvertCommandExecutionAsWritten(item: RawItem): (r: Option<Option<seq<ContentBlock>>>)
    ensures r.None? <==> CommandPanics(item)
    ensures r.Some? ==> r.value == ConvertCommandExecution(item)
  {
    var command := item.command.GetOr([]);
    if command == [] then Some(None)
    else
      match TruncateAsWritten(command, SUMMARY_BYTES)
      case None => None
      case Some(summary) =>
        TruncateAgrees(command, SUMMARY_BYTES);
        var call := ToolCall("Bash", summary, Some(CommandInput(command)));
        match item.aggregatedOutput
        case Some(output) =>
          if output == [] then Some(Some([call]))
          else
            (match SummarizeOutputAsWritten(output)
             case None => None
             case Some(outputSummary) => Some(Some([call, ToolResult("Bash", outputSummary, Some(output))])))
        case None => Some(Some([call]))
  }

  /** `convert_mcp_tool_call` as written: it panics when the endpoint is cut inside a character. */
  function ConvertMcpToolCallAsWritten(item: RawItem): (r: Option<seq<ContentBlock>>)
    ensures r.None? <==> TruncatePanics(McpEndpoint(item), SUMMARY_BYTES)
    ensures r.Some? ==> r.value == ConvertMcpToolCall(item)
  {
    match TruncateAsWritten(McpEndpoint(item), SUMMARY_BYTES)
    case None => None
    case Some(summary) =>
      TruncateAgrees(McpEndpoint(item), SUMMARY_BYTES);
      Some([ToolCall("MCP", summary, None)])
  }

  /** The four item kinds that carry content. */
  predicate KnownKind(kind: string) {
    kind == "agent_message" || kind == "command_execution" || kind == "file_change" || kind == "mcp_tool_call"
  }

  /** `convert_item`: dispatch on the item kind; unknown kinds yield nothing. */
  function ConvertItem(item: RawItem): (r: Option<seq<ContentBlock>>)
    ensures r.Some? ==> KnownKind(item.itemType)
    ensures item.itemType == "agent_message" ==> r == ConvertAgentMessage(item)
    ensures item.itemType == "command_execution" ==> r == ConvertCommandExecution(item)
    ensures item.itemType == "file_change" ==> r == ConvertFileChange(item)
    ensures item.itemType == "mcp_tool_call" ==> r == Some(ConvertMcpToolCall(item))
    ensures r.Some? ==> |r.value| > 0 && forall i | 0 <= i < |r.value| :: r.value[i].Text? ==> |r.value[i].text| > 0
  {
    if item.itemType == "agent_message" then ConvertAgentMessage(item)
    else if item.itemType == "command_execution" then ConvertCommandExecution(item)
    else if item.itemType == "file_change" then ConvertFileChange(item)
    else if item.itemType == "mcp_tool_call" then Some(ConvertMcpToolCall(item))
    else None
  }

  /** An item whose conversion panics: a command or an MCP call whose summary slice falls inside a character. */
  predicate ItemPanics(item: RawItem) {
    || (item.itemType == "command_execution" && CommandPanics(item))
    || (item.itemType == "mcp_tool_call" && TruncatePanics(McpEndpoint(item), SUMMARY_BYTES))
  }

  /** `convert_item` as written, `None` standing for a panic; wherever it does not panic it is `ConvertItem`. */
  function ConvertItemAsWritten(item: RawItem): (r: Option<Option<seq<ContentBlock>>>)
    ensures r.None? <==> ItemPanics(item)
    ensures r.Some? ==> r.value == ConvertItem(item)
  {
    if item.itemType == "command_execution" then ConvertCommandExecutionAsWritten(item)
    else if item.itemType == "mcp_tool_call" then
      match ConvertMcpToolCallAsWritten(item)
      case None => None
      case Some(blocks) => Some(Some(blocks))
    else Some(ConvertItem(item))
  }

  /** `parse_line`: a completed, understood item becomes one assistant message without a timestamp. */
  function ParseLine(line: string, decode: Decoder): (r: Option<ChatMessage>)
    ensures r.Some? <==>
      && Trim(line) != []
      && decode(Trim(line)).Some?
      && decode(Trim(line)).value.eventType == ITEM_COMPLETED
      && decode(Trim(line)).value.item.Some?
      && ConvertItem(decode(Trim(line)).value.item.value).Some?
    ensures r.Some? ==>
      && r.value.role == ASSISTANT
      && r.value.timestamp.None?
      && r.value.blocks == ConvertItem(decode(Trim(line)).value.item.value).value
      && WellFormed(r.value)
  {
    var trimmed := Trim(line);
    if trimmed == [] then None
    else
      match decode(trimmed)
      case None => None
      case Some(event) =>
        if event.eventType != ITEM_COMPLETED || event.item.None? then None
        else
          match ConvertItem(event.item.value)
          case None => None
          case Some(blocks) => Some(ChatMessage(ASSISTANT, None, blocks))
  }

  /** A line whose parse panics: a completed item whose conversion panics. */
  predicate LinePanics(line: string, decode: Decoder) {
    && Trim(line) != []
    && decode(Trim(line)).Some?
    && decode(Trim(line)).value.eventType == ITEM_COMPLETED
    && decode(Trim(line)).value.item.Some?
    && ItemPanics(decode(Trim(line)).value.item.value)
  }

  /**
   * `parse_line` as written, the outer `None` standing for a panic of a
   * summary slice; wherever it does not panic it is `ParseLine`.
   */
  function ParseLineAsWritten(line: string, decode: Decoder): (r: Option<Option<ChatMessage>>)
    ensures r.None? <==> LinePanics(line, decode)
    ensures r.Some? ==> r.value == ParseLine(line, decode)
  {
    var trimmed := Trim(line);
    if trimmed == [] then Some(None)
    else
      match decode(trimmed)
      case None => Some(None)
      case Some(event) =>
        if event.eventType != ITEM_COMPLETED || event.item.None? then Some(None)
        else
          match ConvertItemAsWritten(event.item.value)
          case None => None
          case Some(None) => Some(None)
          case Some(Some(blocks)) => Some(Some(ChatMessage(ASSISTANT, None, blocks)))
  }

  /**
   * A completed shell command whose text makes the 120-byte cut panic (119
   * letters and an "é" is such a command) panics as written, while the
   * corrected parse yields the call.
   */
  lemma CommandPanicParse(line: string, decode: Decoder, command: string)
    requires TruncatePanics(command, SUMMARY_BYTES)
    requires Trim(line) != []
    requires decode(Trim(line)) == Some(RawEvent(ITEM_COMPLETED, Some(RawItem("command_execution", None, Some(command), None, None, None, None))))
    ensures ParseLineAsWritten(line, decode).None?
    ensures ParseLine(line, decode).Some? && ParseLine(line, decode).value.blocks[0].name == "Bash"
  {
  }

  /** Whitespace after a line, its newline included, does not change what it parses to. */
  lemma ParseIgnoresTrailingBlank(line: string, w: string, decode: Decoder)
    requires IsBlank(w)
    ensures ParseLine(line + w, decode) == ParseLine(line, decode)
  {
    TrimIgnoresTrailingBlank(line, w);
  }

  /** Events other than `item.completed` (started, updated, turn and thread events) yield nothing. */
  lemma OtherEventsYieldNothing(line: string, decode: Decoder)
    requires Trim(line) != [] && decode(Trim(line)).Some?
    requires decode(Trim(line)).value.eventType != ITEM_COMPLETED
    ensures ParseLine(line, decode).None?
  {
  }

  /** The command of a Codex shell call can be read back from its input, as the Claude summary reads it. */
  lemma CommandRecoverable(item: RawItem)
    requires item.command.Some? && item.command.value != []
    ensures var call := ConvertCommandExecution(item).value[0];
      StrField(call.input, "command") == Some(item.command.value)
  {
  }

  /** Two changed files are summarised as "2 files". */
  lemma TwoFilesSummary()
    ensures FilesSummary([RawFileChange("a.rs", None), RawFileChange("b.rs", None)]) == "2 files"
  {
    assert NatToString(2) == "2";
  }

  /** A short MCP endpoint is kept whole. */
  lemma McpSummaryExample()
    ensures var item := RawItem("mcp_tool_call", None, None, None, None, Some("context7"), Some("search"));
      ConvertMcpToolCall(item)[0].summary == "context7/search"
  {
    var endpoint: string := "context7/search";
    assert "context7" + "/" + "search" == endpoint;
    assert IsAscii(endpoint);
    AsciiByteLen(endpoint);
  }
}
