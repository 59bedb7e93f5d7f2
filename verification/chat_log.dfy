/**
 * The normalised chat format shared by the Claude Code and Codex log
 * parsers, and its JSON wire form: content blocks tagged by "type"
 * ("text", "tool_call", "tool_result"), the tool-result name under
 * "toolName", optional fields left out when absent.
 */
module ChatLog {
  import opened Wrappers
  import opened Json

  /** A UTC timestamp, known here only by its RFC 3339 rendering. */
  datatype Instant = Instant(rfc3339: string)

  datatype ContentBlock =
    | Text(text: string)
    | ToolCall(name: string, summary: string, input: Option<Json>)
    | ToolResult(toolName: string, summary: string, content: Option<string>)

  datatype ChatMessage = ChatMessage(role: string, timestamp: Option<Instant>, blocks: seq<ContentBlock>)

  /** Which AI tool's log is being followed. */
  datatype AiTool = Claude | Codex

  /** What the log watcher emits. */
  datatype ChatLogEvent =
    | History(messages: seq<ChatMessage>, tool: AiTool)
    | NewMessage(message: ChatMessage)
    | Error(error: string)

  /** A message as both parsers produce it: at least one block, and no empty text block. */
  predicate WellFormed(m: ChatMessage) {
    && |m.blocks| > 0
    && forall i | 0 <= i < |m.blocks| :: m.blocks[i].Text? ==> |m.blocks[i].text| > 0
  }

  const TEXT_TAG: string := "text"
  const TOOL_CALL_TAG: string := "tool_call"
  const TOOL_RESULT_TAG: string := "tool_result"

  /** The serialised form of a block. */
  function BlockToJson(b: ContentBlock): (r: Json)
    ensures r.JObject? && "type" in r.fields
    ensures r.fields["type"] == JString(TEXT_TAG) <==> b.Text?
    ensures r.fields["type"] == JString(TOOL_CALL_TAG) <==> b.ToolCall?
    ensures r.fields["type"] == JString(TOOL_RESULT_TAG) <==> b.ToolResult?
    ensures b.ToolResult? ==> "toolName" in r.fields && r.fields["toolName"] == JString(b.toolName)
    ensures "input" in r.fields <==> b.ToolCall? && b.input.Some?
    ensures "content" in r.fields <==> b.ToolResult? && b.content.Some?
  {
    match b
    case Text(t) =>
      JObject(map["type" := JString(TEXT_TAG), "text" := JString(t)])
    case ToolCall(name, summary, input) =>
      var base := map["type" := JString(TOOL_CALL_TAG), "name" := JString(name), "summary" := JString(summary)];
      JObject(if input.Some? then base["input" := input.value] else base)
    case ToolResult(toolName, summary, content) =>
      var base := map["type" := JString(TOOL_RESULT_TAG), "toolName" := JString(toolName), "summary" := JString(summary)];
      JObject(if content.Some? then base["content" := JString(content.value)] else base)
  }

  /** A string member of an object. */
  function StrOf(v: Json, key: string): Option<string> {
    match Get(v, key)
    case Some(JString(s)) => Some(s)
    case _ => None
  }

  /**
   * An optional member as serde's derived `Deserialize` reads an `Option`
   * field: a missing key and an explicit `null` both read as `None`.
   */
  function OptionalField(v: Json, key: string): (r: Option<Json>)
    ensures r.None? <==> Get(v, key).None? || Get(v, key).value.JNull?
    ensures r.Some? ==> r == Get(v, key)
  {
    match Get(v, key)
    case Some(JNull) => None
    case other => other
  }

  /** Reads a block back from its serialised form; `None` when the shape is wrong. */
  function BlockFromJson(v: Json): (r: Option<ContentBlock>)
    ensures r.Some? ==> Get(v, "type").Some?
    ensures r.Some? && r.value.ToolCall? ==> r.value.input == OptionalField(v, "input")
  {
    var tag := StrOf(v, "type");
    if tag == Some(TEXT_TAG) then
      if StrOf(v, "text").Some? then Some(Text(StrOf(v, "text").value)) else None
    else if tag == Some(TOOL_CALL_TAG) then
      var name, summary := StrOf(v, "name"), StrOf(v, "summary");
      if name.Some? && summary.Some? then Some(ToolCall(name.value, summary.value, OptionalField(v, "input"))) else None
    else if tag == Some(TOOL_RESULT_TAG) then
      var toolName, summary, content := StrOf(v, "toolName"), StrOf(v, "summary"), OptionalField(v, "content");
      if toolName.Some? && summary.Some? then
        if content.None? then Some(ToolResult(toolName.value, summary.value, None))
        else if content.value.JString? then Some(ToolResult(toolName.value, summary.value, Some(content.value.s)))
        else None
      else None
    else
      None
  }

  /**
   * A block serde reads back as itself: anything but a tool call whose input
   * is the JSON value `null`, which is written as `"input": null`.
   */
  predicate NullFree(b: ContentBlock) {
    b.ToolCall? ==> b.input != Some(JNull)
  }

  /**
   * Serialising a block loses nothing, except that a tool call's `null`
   * input reads back as no input.
   */
  lemma BlockRoundTrip(b: ContentBlock)
    ensures BlockFromJson(BlockToJson(b)) == Some(b) <==> NullFree(b)
    ensures !NullFree(b) ==> BlockFromJson(BlockToJson(b)) == Some(ToolCall(b.name, b.summary, None))
  {
  }

  function TimestampToJson(t: Option<Instant>): Json {
    match t
    case None => JNull
    case Some(i) => JString(i.rfc3339)
  }

  /** The serialised form of a message: keys "role", "timestamp" (null when absent) and "blocks". */
  function MessageToJson(m: ChatMessage): (r: Json)
    ensures r.JObject? && r.fields.Keys == {"role", "timestamp", "blocks"}
    ensures r.fields["blocks"].JArray? && |r.fields["blocks"].items| == |m.blocks|
  {
    JObject(map[
      "role" := JString(m.role),
      "timestamp" := TimestampToJson(m.timestamp),
      "blocks" := JArray(BlocksToJson(m.blocks))])
  }

  function BlocksToJson(blocks: seq<ContentBlock>): (r: seq<Json>)
    ensures |r| == |blocks|
    ensures forall i | 0 <= i < |blocks| :: r[i] == BlockToJson(blocks[i])
  {
    if |blocks| == 0 then [] else [BlockToJson(blocks[0])] + BlocksToJson(blocks[1..])
  }

  function BlocksFromJson(items: seq<Json>): (r: Option<seq<ContentBlock>>)
    ensures r.Some? ==> |r.value| == |items|
    ensures r.Some? <==> forall i | 0 <= i < |items| :: BlockFromJson(items[i]).Some?
    ensures r.Some? ==> forall i | 0 <= i < |items| :: BlockFromJson(items[i]) == Some(r.value[i])
  {
    if |items| == 0 then Some([])
    else
      match (BlockFromJson(items[0]), BlocksFromJson(items[1..]))
      case (Some(b), Some(rest)) => Some([b] + rest)
      case _ => None
  }

  /** Reads a message back from its serialised form. */
  function MessageFromJson(v: Json): (r: Option<ChatMessage>)
    ensures r.Some? ==> Get(v, "blocks").Some?
  {
    var role, stamp, blocks := StrOf(v, "role"), Get(v, "timestamp"), Get(v, "blocks");
    var timestamp :=
      if stamp.None? || stamp.value.JNull? then Some(None)
      else if stamp.value.JString? then Some(Some(Instant(stamp.value.s)))
      else None;
    if role.Some? && timestamp.Some? && blocks.Some? && blocks.value.JArray? then
      var parsed := BlocksFromJson(blocks.value.items);
      if parsed.Some? then Some(ChatMessage(role.value, timestamp.value, parsed.value)) else None
    else
      None
  }

  /** A serialised block list always reads back, block by block. */
  lemma BlocksReadBack(blocks: seq<ContentBlock>)
    ensures var r := BlocksFromJson(BlocksToJson(blocks));
      && r.Some? && |r.value| == |blocks|
      && forall i | 0 <= i < |blocks| :: r.value[i] == blocks[i] <==> NullFree(blocks[i])
  {
    var items := BlocksToJson(blocks);
    forall i | 0 <= i < |items|
      ensures BlockFromJson(items[i]).Some?
      ensures BlockFromJson(items[i]) == Some(blocks[i]) <==> NullFree(blocks[i])
    {
      BlockRoundTrip(blocks[i]);
    }
  }

  /** A block list reads back as itself exactly when every block does. */
  lemma BlocksRoundTrip(blocks: seq<ContentBlock>)
    ensures BlocksFromJson(BlocksToJson(blocks)) == Some(blocks) <==> forall i | 0 <= i < |blocks| :: NullFree(blocks[i])
  {
    BlocksReadBack(blocks);
    SameWhereNullFree(BlocksFromJson(BlocksToJson(blocks)).value, blocks);
  }

  /** A list that matches `blocks` exactly at the null-free blocks is `blocks` exactly when all are null-free. */
  lemma SameWhereNullFree(r: seq<ContentBlock>, blocks: seq<ContentBlock>)
    requires |r| == |blocks|
    requires forall i | 0 <= i < |blocks| :: r[i] == blocks[i] <==> NullFree(blocks[i])
    ensures r == blocks <==> forall i | 0 <= i < |blocks| :: NullFree(blocks[i])
  {
    if forall i | 0 <= i < |blocks| :: NullFree(blocks[i]) {
      assert r == blocks;
    } else {
      var j :| 0 <= j < |blocks| && !NullFree(blocks[j]);
      assert r[j] != blocks[j];
    }
  }

  /** Serialising a message loses nothing unless one of its tool calls has a `null` input. */
  lemma MessageRoundTrip(m: ChatMessage)
    ensures MessageFromJson(MessageToJson(m)) == Some(m) <==> forall i | 0 <= i < |m.blocks| :: NullFree(m.blocks[i])
  {
    var v := MessageToJson(m);
    assert Get(v, "role") == Some(JString(m.role));
    assert Get(v, "timestamp") == Some(TimestampToJson(m.timestamp));
    assert Get(v, "blocks") == Some(JArray(BlocksToJson(m.blocks)));
    BlocksRoundTrip(m.blocks);
  }

  /** The serialised name of a tool. */
  function ToolToJson(t: AiTool): (r: Json)
    ensures r.JString?
  {
    match t
    case Claude => JString("claude")
    case Codex => JString("codex")
  }

  function ToolFromJson(v: Json): (r: Option<AiTool>) {
    if v == JString("claude") then Some(Claude)
    else if v == JString("codex") then Some(Codex)
    else None
  }

  /** The two tools have distinct names, and each name reads back as its tool. */
  lemma ToolRoundTrip(t: AiTool)
    ensures ToolFromJson(ToolToJson(t)) == Some(t)
    ensures ToolToJson(Claude) != ToolToJson(Codex)
  {
  }
}
