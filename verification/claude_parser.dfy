/**
 * Normalisation of one line of a Claude Code JSONL session log into at most
 * one chat message.
 *
 * JSON decoding is a parameter: `Decoder` stands for serde's decoding of a
 * trimmed line into a `RawLine`, `None` being a decode failure. A structured
 * tool-result value arrives already rendered as text (`ResultOther`), since
 * `Value::to_string` is not part of this model.
 */
module ClaudeParser {
  import opened Wrappers
  import opened Json
  import opened Text
  import opened Summary
  import opened ChatLog

  /** Tool-result content: a plain string, or any other JSON value in its rendered form. */
  datatype RawToolResultContent = ResultText(text: string) | ResultOther(rendered: string)

  /** One element of an array-valued `content`; every field but the type is optional. */
  datatype RawBlock = RawBlock(
    blockType: string,
    text: Option<string>,
    name: Option<string>,
    input: Option<Json>,
    toolUseId: Option<string>,
    content: Option<RawToolResultContent>)

  /** `content` is either a plain string or an array of typed blocks. */
  datatype RawContent = ContentText(text: string) | ContentBlocks(blocks: seq<RawBlock>)

  datatype RawMessage = RawMessage(role: string, content: RawContent)

  /** A decoded log record: its kind, its timestamp and its message payload. */
  datatype RawLine = RawLine(lineType: string, timestamp: Option<Instant>, message: Option<RawMessage>)

  /** Decoding of a trimmed line; `None` when the text is not a well-typed record. */
  type Decoder = string -> Option<RawLine>

  const PLACEHOLDER_EMPTY: string := "(empty)"

  /** The input field that best describes a call of a well-known tool. */
  function SummaryField(name: string): Option<string> {
    if name == "Read" || name == "Edit" || name == "Write" then Some("file_path")
    else if name == "Bash" then Some("command")
    else if name == "Glob" || name == "Grep" then Some("pattern")
    else if name == "Task" || name == "TaskCreate" then Some("description")
    else if name == "WebSearch" then Some("query")
    else if name == "WebFetch" then Some("url")
    else None
  }

  /**
   * `generate_tool_summary`: the tool name, followed by ": " and the value
   * of the tool's descriptive field when the tool is well known and that
   * field holds a string.
   */
  function ToolSummary(name: string, input: Option<Json>): (r: string)
    ensures name <= r
    ensures r != name <==> SummaryField(name).Some? && StrField(input, SummaryField(name).value).Some?
    ensures r != name ==> r[|name|..] == ": " + StrField(input, SummaryField(name).value).value
  {
    match SummaryField(name)
    case None => name
    case Some(field) =>
      match StrField(input, field)
      case Some(s) =>
        assert (name + ": " + s)[..|name|] == name;
        name + ": " + s
      case None => name
  }

  /** `generate_result_summary`: a placeholder for absent content, otherwise the shared output summary. */
  function ResultSummary(content: Option<string>): (r: string)
    ensures content.None? ==> r == PLACEHOLDER_EMPTY
    ensures content.Some? ==> r == SummarizeOutput(content.value)
    ensures content.Some? && LineCount(content.value) > 1 ==>
      && |r| > |" lines"| && r[|r| - |" lines"|..] == " lines"
      && Decimal(r[..|r| - |" lines"|], LineCount(content.value))
    ensures content.Some? && LineCount(content.value) <= 1 ==> r == Truncate(content.value, SUMMARY_BYTES)
    ensures content.Some? && LineCount(content.value) <= 1 ==> ByteLen(r) <= SUMMARY_BYTES + |ELLIPSIS|
    ensures content.Some? && LineCount(content.value) <= 1 && ByteLen(content.value) <= SUMMARY_BYTES ==> r == content.value
  {
    match content
    case None => PLACEHOLDER_EMPTY
    case Some(text) => SummarizeOutput(text)
  }

  /**
   * `generate_result_summary` as written, whose `&text[..120]` panics on a
   * single-line text cut inside a character; `None` stands for the panic.
   */
  function ResultSummaryAsWritten(content: Option<string>): (r: Option<string>)
    ensures r.None? <==> content.Some? && SummaryPanics(content.value)
    ensures r.Some? ==> r.value == ResultSummary(content)
  {
    match content
    case None => Some(PLACEHOLDER_EMPTY)
    case Some(text) => SummarizeOutputAsWritten(text)
  }

  /** The text a tool result carries. */
  function ResultContent(c: Option<RawToolResultContent>): Option<string> {
    match c
    case None => None
    case Some(ResultText(s)) => Some(s)
    case Some(ResultOther(rendered)) => Some(rendered)
  }

  /** A block that `convert_block` drops: an empty or missing text, or an unknown type. */
  predicate Dropped(b: RawBlock) {
    || (b.blockType == "text" && b.text.GetOr([]) == [])
    || (b.blockType != "text" && b.blockType != "tool_use" && b.blockType != "tool_result")
  }

  /** `convert_block`: one raw block to at most one normalised block. */
  function ConvertBlock(b: RawBlock): (r: Option<ContentBlock>)
    ensures r.None? <==> Dropped(b)
    ensures r.Some? && b.blockType == "text" ==> r.value == Text(b.text.value) && |b.text.value| > 0
    ensures b.blockType == "tool_use" ==>
      && r.Some? && r.value.ToolCall?
      && r.value.name == b.name.GetOr([])
      && r.value.input == b.input
      && r.value.summary == ToolSummary(r.value.name, b.input)
    ensures b.blockType == "tool_result" ==>
      && r.Some? && r.value.ToolResult?
      && r.value.toolName == b.toolUseId.GetOr([])
      && r.value.content == ResultContent(b.content)
      && r.value.summary == ResultSummary(r.value.content)
  {
    if b.blockType == "text" then
      var text := b.text.GetOr([]);
      if text == [] then None else Some(Text(text))
    else if b.blockType == "tool_use" then
      var name := b.name.GetOr([]);
      Some(ToolCall(name, ToolSummary(name, b.input), b.input))
    else if b.blockType == "tool_result" then
      var content := ResultContent(b.content);
      Some(ToolResult(b.toolUseId.GetOr([]), ResultSummary(content), content))
    else
      None
  }

  /** A block whose conversion panics: a tool result whose summary slice falls inside a character. */
  predicate BlockPanics(b: RawBlock) {
    b.blockType == "tool_result" && ResultContent(b.content).Some? && SummaryPanics(ResultContent(b.content).value)
  }

  /**
   * `convert_block` as written, `None` standing for the panic of its result
   * summary; wherever it does not panic it is `ConvertBlock`.
   */
  function ConvertBlockAsWritten(b: RawBlock): (r: Option<Option<ContentBlock>>)
    ensures r.None? <==> BlockPanics(b)
    ensures r.Some? ==> r.value == ConvertBlock(b)
  {
    if b.blockType == "tool_result" then
      var content := ResultContent(b.content);
      match ResultSummaryAsWritten(content)
      case None => None
      case Some(summary) => Some(Some(ToolResult(b.toolUseId.GetOr([]), summary, content)))
    else
      Some(ConvertBlock(b))
  }

  /** No block of the sequence is an empty text block. */
  predicate NoEmptyText(blocks: seq<ContentBlock>) {
    forall i | 0 <= i < |blocks| :: blocks[i].Text? ==> |blocks[i].text| > 0
  }

  /** The `filter_map(convert_block)` over an array of raw blocks. */
  function ConvertBlocks(bs: seq<RawBlock>): (r: seq<ContentBlock>)
    ensures |r| <= |bs|
    ensures NoEmptyText(r)
    ensures (forall j | 0 <= j < |bs| :: !Dropped(bs[j])) ==> |r| == |bs|
  {
    if |bs| == 0 then [] else Emit(bs[0]) + ConvertBlocks(bs[1..])
  }

  /** What one raw block contributes to the converted sequence. */
  function Emit(b: RawBlock): (r: seq<ContentBlock>)
    ensures |r| <= 1 && NoEmptyText(r)
    ensures |r| == 1 <==> !Dropped(b)
  {
    match ConvertBlock(b)
    case Some(block) => [block]
    case None => []
  }

  /** Converting a concatenation converts each part in order. */
  lemma {:induction false} ConvertBlocksAppend(a: seq<RawBlock>, b: seq<RawBlock>)
    ensures ConvertBlocks(a + b) == ConvertBlocks(a) + ConvertBlocks(b)
  {
    if |a| > 0 {
      assert (a + b)[0] == a[0];
      assert (a + b)[1..] == a[1..] + b;
      ConvertBlocksAppend(a[1..], b);
      assert ConvertBlocks(a + b) == Emit(a[0]) + ConvertBlocks(a[1..] + b);
    } else {
      assert a + b == b;
    }
  }

  /** A single raw block contributes its conversion, or nothing when it is dropped. */
  lemma ConvertBlocksSingle(b: RawBlock)
    ensures ConvertBlocks([b]) == if Dropped(b) then [] else [ConvertBlock(b).value]
  {
  }

  /** The `filter_map(convert_block)` as written: it panics when any block does, and is `ConvertBlocks` otherwise. */
  function ConvertBlocksAsWritten(bs: seq<RawBlock>): (r: Option<seq<ContentBlock>>)
    ensures r.Some? <==> forall j | 0 <= j < |bs| :: !BlockPanics(bs[j])
    ensures r.Some? ==> r.value == ConvertBlocks(bs)
  {
    if |bs| == 0 then Some([])
    else
      match ConvertBlockAsWritten(bs[0])
      case None => None
      case Some(first) =>
        match ConvertBlocksAsWritten(bs[1..])
        case None =>
          assert forall j | 1 <= j < |bs| :: bs[j] == bs[1..][j - 1];
          None
        case Some(rest) =>
          assert forall j | 1 <= j < |bs| :: bs[j] == bs[1..][j - 1];
          Some((if first.Some? then [first.value] else []) + rest)
  }

  /** Content whose conversion panics: an array holding a block that panics. */
  predicate ContentPanics(c: RawContent) {
    c.ContentBlocks? && exists j | 0 <= j < |c.blocks| :: BlockPanics(c.blocks[j])
  }

  /** `convert_content` as written, `None` standing for a panic; wherever it does not panic it is `ConvertContent`. */
  function ConvertContentAsWritten(c: RawContent): (r: Option<seq<ContentBlock>>)
    ensures r.None? <==> ContentPanics(c)
    ensures r.Some? ==> r.value == ConvertContent(c)
  {
    match c
    case ContentText(s) => Some(ConvertContent(c))
    case ContentBlocks(bs) => ConvertBlocksAsWritten(bs)
  }

  /** `convert_content`: a non-empty string becomes one text block; an array is converted block by block. */
  function ConvertContent(c: RawContent): (r: seq<ContentBlock>)
    ensures NoEmptyText(r)
    ensures c.ContentText? ==> (|r| == 0 <==> c.text == []) && (c.text != [] ==> r == [Text(c.text)])
    ensures c.ContentBlocks? ==> r == ConvertBlocks(c.blocks)
  {
    match c
    case ContentText(s) => if s == [] then [] else [Text(s)]
    case ContentBlocks(bs) => ConvertBlocks(bs)
  }

  /** A decoded record that yields a message: a user or assistant turn whose content is not empty. */
  predicate Accepted(raw: RawLine) {
    && (raw.lineType == "user" || raw.lineType == "assistant")
    && raw.message.Some?
    && |ConvertContent(raw.message.value.content)| > 0
  }

  /** `parse_line`: one log line to at most one message. */
  function ParseLine(line: string, decode: Decoder): (r: Option<ChatMessage>)
    ensures r.Some? <==> Trim(line) != [] && decode(Trim(line)).Some? && Accepted(decode(Trim(line)).value)
    ensures r.Some? ==>
      var raw := decode(Trim(line)).value;
      && r.value.role == raw.message.value.role
      && r.value.timestamp == raw.timestamp
      && r.value.blocks == ConvertContent(raw.message.value.content)
      && WellFormed(r.value)
  {
    var trimmed := Trim(line);
    if trimmed == [] then None
    else
      match decode(trimmed)
      case None => None
      case Some(raw) =>
        if raw.lineType != "user" && raw.lineType != "assistant" then None
        else if raw.message.None? then None
        else
          var blocks := ConvertContent(raw.message.value.content);
          if |blocks| == 0 then None
          else Some(ChatMessage(raw.message.value.role, raw.timestamp, blocks))
  }

  /** A line whose parse panics: a user or assistant record whose content panics. */
  predicate LinePanics(line: string, decode: Decoder) {
    && Trim(line) != []
    && decode(Trim(line)).Some?
    && var raw := decode(Trim(line)).value;
    && (raw.lineType == "user" || raw.lineType == "assistant")
    && raw.message.Some?
    && ContentPanics(raw.message.value.content)
  }

  /**
   * `parse_line` as written, the outer `None` standing for a panic of a
   * result summary; wherever it does not panic it is `ParseLine`.
   */
  function ParseLineAsWritten(line: string, decode: Decoder): (r: Option<Option<ChatMessage>>)
    ensures r.None? <==> LinePanics(line, decode)
    ensures r.Some? ==> r.value == ParseLine(line, decode)
  {
    var trimmed := Trim(line);
    if trimmed == [] then Some(None)
    else
      match decode(trimmed)
      case None => Some(None)
      case Some(raw) =>
        if raw.lineType != "user" && raw.lineType != "assistant" then Some(None)
        else if raw.message.None? then Some(None)
        else
          match ConvertContentAsWritten(raw.message.value.content)
          case None => None
          case Some(blocks) =>
            if |blocks| == 0 then Some(None)
            else Some(Some(ChatMessage(raw.message.value.role, raw.timestamp, blocks)))
  }

  /**
   * A user turn carrying one tool result whose text makes the summary panic
   * (one line of 119 letters and an "é" is such a text) panics as written,
   * while the corrected parse yields the message with that one block.
   */
  lemma {:induction false} ResultSummaryPanics(line: string, decode: Decoder, ts: Option<Instant>, text: string)
    requires SummaryPanics(text)
    requires Trim(line) != []
    requires decode(Trim(line)) ==
      Some(RawLine("user", ts, Some(RawMessage("user", ContentBlocks([RawBlock("tool_result", None, None, None, Some("t1"), Some(ResultText(text)))])))))
    ensures ParseLineAsWritten(line, decode).None?
    ensures ParseLine(line, decode).Some? && |ParseLine(line, decode).value.blocks| == 1
  {
    var b := RawBlock("tool_result", None, None, None, Some("t1"), Some(ResultText(text)));
    assert BlockPanics([b][0]);
    assert ContentPanics(ContentBlocks([b]));
    assert ConvertBlocks([b]) == Emit(b) + ConvertBlocks([]);
  }

  /** Whitespace around a line, its newline included, does not change what it parses to. */
  lemma ParseIgnoresTrailingBlank(line: string, w: string, decode: Decoder)
    requires IsBlank(w)
    ensures ParseLine(line + w, decode) == ParseLine(line, decode)
  {
    TrimIgnoresTrailingBlank(line, w);
  }

  /** Blank lines yield nothing, whatever the decoder would make of them. */
  lemma BlankLineYieldsNothing(line: string, decode: Decoder)
    requires IsBlank(line)
    ensures ParseLine(line, decode).None?
  {
    TrimEmptyIffBlank(line);
  }

  /** A summary record yields nothing even when it carries a message. */
  lemma SummaryRecordYieldsNothing(line: string, decode: Decoder)
    requires Trim(line) != [] && decode(Trim(line)).Some?
    requires decode(Trim(line)).value.lineType == "summary"
    ensures ParseLine(line, decode).None?
  {
  }

  /** A call of `Bash` is summarised by its command. */
  lemma BashToolSummary()
    ensures ToolSummary("Bash", Some(JObject(map["command" := JString("cargo test")]))) == "Bash: cargo test"
  {
  }

  /** An unknown tool is summarised by its name alone, whatever its input. */
  lemma UnknownToolSummary()
    ensures ToolSummary("CustomTool", Some(JObject(map["some_field" := JString("value")]))) == "CustomTool"
  {
  }

  /** Empty text blocks are dropped while the others are kept in order. */
  lemma EmptyTextBlockDropped()
    ensures ConvertContent(ContentBlocks([
      RawBlock("text", Some(""), None, None, None, None),
      RawBlock("text", Some("real content"), None, None, None, None)])) == [Text("real content")]
  {
  }
}
