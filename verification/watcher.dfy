/**
 * Following a chat log file (`chat_log/watcher.rs`): the initial history
 * read, the incremental reads that file-system notifications trigger, and
 * the events they emit.
 *
 * The log file is its byte content at the moment of each read. The watcher
 * task reads once per burst of notifications, so a run is the sequence of
 * snapshots those reads observe; a read whose `File::open` fails is an `Err`
 * snapshot carrying the error's text.
 *
 * Two line loops are modelled. `ReadLines` is the loop as written: it
 * parses and consumes whatever follows the last newline as a line of its
 * own. `ReadCompleteLines` leaves an unterminated fragment for the next
 * read, as the documentation of `read_new_lines` promises. `ReadNewLines`,
 * `Step`, `Run` and `WatchLogFile` are the watcher as written, over
 * `ReadLines`; the members named `...Fixed` are the same watcher over
 * `ReadCompleteLines`. The two watchers agree whenever every snapshot ends
 * with a newline.
 */
module Watcher {
  import opened Wrappers
  import opened Utf8
  import opened Text
  import opened ChatLog
  import ClaudeParser
  import CodexParser

  const NEWLINE: byte := 0x0A

  /** What `parse_line` makes of one line, its newline included. */
  type LineParser = string -> Option<ChatMessage>

  /** `parse_line`: the parser of the tool whose log is followed. */
  function ParserFor(tool: AiTool, claude: ClaudeParser.Decoder, codex: CodexParser.Decoder): (p: LineParser)
    ensures forall line :: p(line).Some? ==> WellFormed(p(line).value)
  {
    match tool
    case Claude => (line => ClaudeParser.ParseLine(line, claude))
    case Codex => (line => CodexParser.ParseLine(line, codex))
  }

  /** The line terminator, and any whitespace before it, does not change what a line parses to. */
  lemma ParserIgnoresTrailingBlank(tool: AiTool, claude: ClaudeParser.Decoder, codex: CodexParser.Decoder, line: string, w: string)
    requires IsBlank(w)
    ensures ParserFor(tool, claude, codex)(line + w) == ParserFor(tool, claude, codex)(line)
  {
    match tool
    case Claude => ClaudeParser.ParseIgnoresTrailingBlank(line, w, claude);
    case Codex => CodexParser.ParseIgnoresTrailingBlank(line, w, codex);
  }

  /**
   * What `read_line` followed by `parse_line` makes of the bytes of one
   * line: `None` when they are not UTF-8 (the read fails), otherwise what
   * the line parses to.
   */
  type LineReader = Bytes -> Option<Option<ChatMessage>>

  function ReadLine(parse: LineParser): LineReader {
    b => ReadLineBytes(parse, b)
  }

  function ReadLineBytes(parse: LineParser, b: Bytes): (r: Option<Option<ChatMessage>>)
    ensures r.Some? <==> ValidUtf8(b)
  {
    match ToStr(b)
    case None => None
    case Some(line) => Some(parse(line))
  }

  /** A line of UTF-8 bytes can be read. */
  lemma ReadableLine(parse: LineParser, b: Bytes)
    requires ValidUtf8(b)
    ensures ReadLine(parse)(b).Some?
  {
  }

  /** Bytes that encode the text `s` read as `s`. */
  lemma ReadLineOf(parse: LineParser, s: string, b: Bytes)
    requires Encode(s) == b
    ensures ReadLine(parse)(b) == Some(parse(s))
  {
    DecodeEncode(s);
  }

  /**
   * Where `read_line` started at `pos` stops: just past the first newline,
   * or at the end of the content when there is none.
   */
  function LineEnd(c: Bytes, pos: nat): (e: nat)
    requires pos <= |c|
    ensures pos <= e <= |c|
    ensures e == pos <==> pos == |c|
    ensures e < |c| ==> c[e - 1] == NEWLINE
    decreases |c| - pos
  {
    if pos == |c| then pos
    else if c[pos] == NEWLINE then pos + 1
    else LineEnd(c, pos + 1)
  }

  /** No newline comes before the end of the line. */
  lemma {:induction false} NoNewlineInLine(c: Bytes, pos: nat)
    requires pos <= |c|
    ensures forall i | pos <= i < LineEnd(c, pos) - 1 :: c[i] != NEWLINE
    decreases |c| - pos
  {
    if pos < |c| && c[pos] != NEWLINE {
      NoNewlineInLine(c, pos + 1);
    }
  }

  /** The line at `pos` ends with its newline. */
  predicate Terminated(c: Bytes, pos: nat)
    requires pos < |c|
  {
    c[LineEnd(c, pos) - 1] == NEWLINE
  }

  datatype ReadOutcome = ReadOutcome(messages: seq<ChatMessage>, pos: nat)

  function AsSeq(m: Option<ChatMessage>): seq<ChatMessage> {
    match m
    case None => []
    case Some(x) => [x]
  }

  /**
   * The loop of `read_all_messages` and `read_new_lines` as written, from
   * byte offset `pos`: each line is parsed, the last one even without its
   * newline. A line that is not UTF-8 is consumed and ends the loop
   * (`read_line` fails after taking its bytes). The returned position is
   * `stream_position` afterwards; a start beyond the end reads nothing.
   */
  function ReadLines(c: Bytes, pos: nat, read: LineReader): (r: ReadOutcome)
    ensures pos <= r.pos
    ensures pos <= |c| ==> r.pos <= |c|
    ensures pos >= |c| ==> r == ReadOutcome([], pos)
    decreases |c| - pos
  {
    if pos >= |c| then
      ReadOutcome([], pos)
    else
      var e := LineEnd(c, pos);
      match read(c[pos..e])
      case None => ReadOutcome([], e)
      case Some(m) =>
        var rest := ReadLines(c, e, read);
        ReadOutcome(AsSeq(m) + rest.messages, rest.pos)
  }

  /**
   * The loop reading complete lines only: an unterminated fragment at the
   * end is left in place, and the position stays at its start.
   */
  function ReadCompleteLines(c: Bytes, pos: nat, read: LineReader): (r: ReadOutcome)
    ensures pos <= r.pos
    ensures pos <= |c| ==> r.pos <= |c|
    ensures r.pos == pos || (0 < r.pos <= |c| && c[r.pos - 1] == NEWLINE)
    decreases |c| - pos
  {
    if pos >= |c| then
      ReadOutcome([], pos)
    else
      var e := LineEnd(c, pos);
      if c[e - 1] != NEWLINE then
        ReadOutcome([], pos)
      else
        match read(c[pos..e])
        case None => ReadOutcome([], e)
        case Some(m) =>
          var rest := ReadCompleteLines(c, e, read);
          ReadOutcome(AsSeq(m) + rest.messages, rest.pos)
  }

  /** Every complete line from `pos` on can be read (an unterminated fragment may be anything). */
  predicate LinesValid(c: Bytes, pos: nat, read: LineReader)
    decreases |c| - pos
  {
    pos >= |c| || !Terminated(c, pos) || (read(c[pos..LineEnd(c, pos)]).Some? && LinesValid(c, LineEnd(c, pos), read))
  }

  /** UTF-8 content has UTF-8 lines: a newline is never inside a character. */
  lemma {:induction false} ValidContentLinesValid(c: Bytes, pos: nat, parse: LineParser)
    requires pos <= |c| && ValidUtf8(c[pos..])
    ensures LinesValid(c, pos, ReadLine(parse))
    decreases |c| - pos
  {
    if pos < |c| && Terminated(c, pos) {
      var e := LineEnd(c, pos);
      var line := c[pos..e];
      assert ValidUtf8(line) && ValidUtf8(c[e..]) by {
        assert c[pos..] == line + c[e..];
        SplitAfterAscii(line, c[e..]);
      }
      ReadableLine(parse, line);
      ValidContentLinesValid(c, e, parse);
    }
  }

  /** The as-written loop reads UTF-8 content to its very end, a trailing fragment included. */
  lemma {:induction false} ReadLinesConsumesAll(c: Bytes, pos: nat, parse: LineParser)
    requires pos <= |c| && ValidUtf8(c[pos..])
    ensures ReadLines(c, pos, ReadLine(parse)).pos == |c|
    decreases |c| - pos
  {
    if pos < |c| {
      var e := LineEnd(c, pos);
      var line := c[pos..e];
      assert c[pos..] == line + c[e..];
      if e < |c| {
        SplitAfterAscii(line, c[e..]);
        ReadLinesConsumesAll(c, e, parse);
      } else {
        assert line == c[pos..];
      }
      ReadableLine(parse, line);
      LineStep(c, pos, ReadLine(parse));
    }
  }

  /** The complete-line loop stops at the last newline: what it leaves holds no newline. */
  lemma {:induction false} ReadCompleteLinesLeavesFragment(c: Bytes, pos: nat, read: LineReader)
    requires pos <= |c| && LinesValid(c, pos, read)
    ensures var r := ReadCompleteLines(c, pos, read);
      forall i | r.pos <= i < |c| :: c[i] != NEWLINE
    decreases |c| - pos
  {
    if pos < |c| && Terminated(c, pos) {
      ReadCompleteLinesLeavesFragment(c, LineEnd(c, pos), read);
    } else {
      NoNewlineInLine(c, pos);
    }
  }

  /** Content that is empty or ends with a newline: it holds no unterminated fragment. */
  predicate EndsWithNewline(c: Bytes) {
    |c| == 0 || c[|c| - 1] == NEWLINE
  }

  /** On content that ends with a newline the two loops agree, from any position. */
  lemma {:induction false} ReadersAgreeOnCompleteLines(c: Bytes, pos: nat, read: LineReader)
    requires EndsWithNewline(c)
    ensures ReadLines(c, pos, read) == ReadCompleteLines(c, pos, read)
    decreases |c| - pos
  {
    if pos < |c| {
      ReadersAgreeOnCompleteLines(c, LineEnd(c, pos), read);
    }
  }

  /** The lines `read_line` returns from `pos` on, each with its newline, the last one possibly without. */
  function SplitLines(c: Bytes, pos: nat): (ls: seq<Bytes>)
    requires pos <= |c|
    ensures forall i | 0 <= i < |ls| :: |ls[i]| > 0
    decreases |c| - pos
  {
    if pos == |c| then [] else [c[pos..LineEnd(c, pos)]] + SplitLines(c, LineEnd(c, pos))
  }

  /** The lines put back together. */
  function Joined(ls: seq<Bytes>): Bytes {
    if |ls| == 0 then [] else ls[0] + Joined(ls[1..])
  }

  /** Splitting into lines loses nothing: the lines put back together are the content from `pos` on. */
  lemma {:induction false} SplitLinesJoin(c: Bytes, pos: nat)
    requires pos <= |c|
    ensures Joined(SplitLines(c, pos)) == c[pos..]
    decreases |c| - pos
  {
    if pos < |c| {
      var e := LineEnd(c, pos);
      SplitLinesJoin(c, e);
      assert c[pos..] == c[pos..e] + c[e..];
    }
  }

  /** A newline only ever ends a line: every line but the last ends with one, and no line holds another. */
  lemma {:induction false} SplitLinesEnds(c: Bytes, pos: nat)
    requires pos <= |c|
    ensures var ls := SplitLines(c, pos);
      forall i | 0 <= i < |ls| - 1 :: ls[i][|ls[i]| - 1] == NEWLINE
    ensures var ls := SplitLines(c, pos);
      forall i, j | 0 <= i < |ls| && 0 <= j < |ls[i]| - 1 :: ls[i][j] != NEWLINE
    decreases |c| - pos
  {
    if pos < |c| {
      var e := LineEnd(c, pos);
      var ls := SplitLines(c, pos);
      assert ls[0] == c[pos..e];
      assert forall i | 1 <= i < |ls| :: ls[i] == SplitLines(c, e)[i - 1];
      SplitLinesEnds(c, e);
      NoNewlineInLine(c, pos);
    }
  }

  /** Index of the first line that cannot be read, or the number of lines when all can. */
  function FirstUnreadable(ls: seq<Bytes>, read: LineReader): (k: nat)
    ensures k <= |ls|
    ensures forall i | 0 <= i < k :: read(ls[i]).Some?
    ensures k < |ls| ==> read(ls[k]).None?
  {
    if |ls| == 0 || read(ls[0]).None? then 0
    else
      var k := 1 + FirstUnreadable(ls[1..], read);
      assert forall i | 1 <= i < k :: ls[i] == ls[1..][i - 1];
      k
  }

  /** The messages of the lines in file order; a line that parses to nothing, or cannot be read, contributes none. */
  function ParsedMessages(ls: seq<Bytes>, read: LineReader): seq<ChatMessage> {
    if |ls| == 0 then []
    else
      (match read(ls[0]) case Some(m) => AsSeq(m) case None => []) + ParsedMessages(ls[1..], read)
  }

  /** The lines from `pos` on are the line at `pos` followed by the lines after it. */
  lemma SplitLinesCons(c: Bytes, pos: nat)
    requires pos < |c|
    ensures SplitLines(c, pos) == [c[pos..LineEnd(c, pos)]] + SplitLines(c, LineEnd(c, pos))
  {
  }

  /** Prefixes of lines that start with a readable line `l`. */
  lemma {:induction false} PrefixCons(l: Bytes, ls: seq<Bytes>, n: nat, read: LineReader)
    requires read(l).Some? && n <= |ls|
    ensures FirstUnreadable([l] + ls, read) == 1 + FirstUnreadable(ls, read)
    ensures ParsedMessages(([l] + ls)[..n + 1], read) == AsSeq(read(l).value) + ParsedMessages(ls[..n], read)
    ensures Joined(([l] + ls)[..n + 1]) == l + Joined(ls[..n])
  {
    var p := ([l] + ls)[..n + 1];
    assert p[0] == l && p[1..] == ls[..n];
    assert ([l] + ls)[1..] == ls;
  }

  /** Prefixes of lines that start with an unreadable line `l`. */
  lemma UnreadableFirst(l: Bytes, ls: seq<Bytes>, read: LineReader)
    requires read(l).None?
    ensures FirstUnreadable([l] + ls, read) == 0
    ensures ([l] + ls)[..0] == [] && ParsedMessages([], read) == []
    ensures ([l] + ls)[..1] == [l] && Joined([l]) == l
  {
    assert Joined([l]) == l + Joined([]);
  }

  /**
   * The messages of the loop as written: those of the lines before the
   * first one that is not UTF-8, in file order, a line that parses to
   * nothing contributing none.
   */
  lemma {:induction false} ReadLinesMessages(c: Bytes, pos: nat, read: LineReader)
    requires pos <= |c|
    ensures ReadLines(c, pos, read).messages == ParsedMessages(SplitLines(c, pos)[..FirstUnreadable(SplitLines(c, pos), read)], read)
    decreases |c| - pos
  {
    if pos < |c| {
      var e := LineEnd(c, pos);
      var l, rest := c[pos..e], SplitLines(c, e);
      SplitLinesCons(c, pos);
      var ls := [l] + rest;
      if read(l).Some? {
        ReadLinesMessages(c, e, read);
        LineStep(c, pos, read);
        var k := FirstUnreadable(rest, read);
        PrefixCons(l, rest, k, read);
        assert FirstUnreadable(ls, read) == k + 1;
        assert ReadLines(c, pos, read).messages == AsSeq(read(l).value) + ParsedMessages(rest[..k], read);
      } else {
        UnreadableFirst(l, rest, read);
        assert ReadLines(c, pos, read).messages == [];
      }
    }
  }

  /** The bytes of the lines up to and including the first one that cannot be read (all of them when every one can). */
  function StopOffset(ls: seq<Bytes>, read: LineReader): nat {
    var k := FirstUnreadable(ls, read);
    |Joined(ls[..if k < |ls| then k + 1 else k])|
  }

  /** A readable first line adds its length to the offset. */
  lemma StopOffsetReadable(l: Bytes, rest: seq<Bytes>, read: LineReader)
    requires read(l).Some?
    ensures StopOffset([l] + rest, read) == |l| + StopOffset(rest, read)
  {
    var k := FirstUnreadable(rest, read);
    var n := if k < |rest| then k + 1 else k;
    PrefixCons(l, rest, n, read);
    assert (if k + 1 < |[l] + rest| then k + 2 else k + 1) == n + 1;
  }

  /** An unreadable first line is where the offset ends. */
  lemma StopOffsetUnreadable(l: Bytes, rest: seq<Bytes>, read: LineReader)
    requires read(l).None?
    ensures StopOffset([l] + rest, read) == |l|
  {
    UnreadableFirst(l, rest, read);
  }

  /** Where the loop as written stops: just past the first line that is not UTF-8, or at the end of the file. */
  lemma {:induction false} ReadLinesStops(c: Bytes, pos: nat, read: LineReader)
    requires pos <= |c|
    ensures ReadLines(c, pos, read).pos == pos + StopOffset(SplitLines(c, pos), read)
    decreases |c| - pos
  {
    if pos < |c| {
      var e := LineEnd(c, pos);
      var l, rest := c[pos..e], SplitLines(c, e);
      SplitLinesCons(c, pos);
      if read(l).Some? {
        StopOffsetReadable(l, rest, read);
        ReadLinesStops(c, e, read);
        LineStep(c, pos, read);
      } else {
        StopOffsetUnreadable(l, rest, read);
      }
    }
  }

  /**
   * The loop as written, line by line: the parsed messages of the lines
   * before the first one that is not UTF-8, in order, dropping the lines
   * that parse to nothing; it stops just past that line, or at the end of
   * the file when every line is UTF-8.
   */
  lemma ReadLinesByLines(c: Bytes, pos: nat, read: LineReader)
    requires pos <= |c|
    ensures var ls := SplitLines(c, pos);
      var k := FirstUnreadable(ls, read);
      var r := ReadLines(c, pos, read);
      && r.messages == ParsedMessages(ls[..k], read)
      && r.pos == pos + |Joined(ls[..if k < |ls| then k + 1 else k])|
  {
    ReadLinesMessages(c, pos, read);
    ReadLinesStops(c, pos, read);
  }

  /** A line that ends with a newline in `c` is the same line in any extension of `c`. */
  lemma {:induction false} LineEndInExtension(c: Bytes, c2: Bytes, pos: nat)
    requires c <= c2 && pos < |c| && Terminated(c, pos)
    ensures LineEnd(c2, pos) == LineEnd(c, pos)
    ensures c2[pos..LineEnd(c, pos)] == c[pos..LineEnd(c, pos)]
    decreases |c| - pos
  {
    assert c2[pos] == c[pos];
    if c[pos] != NEWLINE {
      LineEndInExtension(c, c2, pos + 1);
    }
  }

  /** The complete lines of a prefix are complete lines of the whole. */
  lemma {:induction false} LinesValidPrefix(c: Bytes, c2: Bytes, pos: nat, read: LineReader)
    requires c <= c2 && pos <= |c| && LinesValid(c2, pos, read)
    ensures LinesValid(c, pos, read)
    decreases |c| - pos
  {
    if pos < |c| && Terminated(c, pos) {
      LineEndInExtension(c, c2, pos);
      LinesValidPrefix(c, c2, LineEnd(c, pos), read);
    }
  }

  /** One read of `c2` from `pos` is a read of its prefix `c` followed by a read of `c2` from where that stopped. */
  predicate ExtendsAt(c: Bytes, c2: Bytes, pos: nat, read: LineReader) {
    var r1 := ReadCompleteLines(c, pos, read);
    var r2 := ReadCompleteLines(c2, r1.pos, read);
    ReadCompleteLines(c2, pos, read) == ReadOutcome(r1.messages + r2.messages, r2.pos)
  }

  /**
   * Reading a prefix of the file and then, from where that read stopped,
   * the grown file yields what one read of the grown file yields, and ends
   * at the same position.
   */
  lemma {:induction false} CompleteLinesExtend(c: Bytes, c2: Bytes, pos: nat, read: LineReader)
    requires c <= c2 && pos <= |c| && LinesValid(c2, pos, read)
    ensures ExtendsAt(c, c2, pos, read)
    decreases |c| - pos
  {
    if pos == |c| || !Terminated(c, pos) {
      NothingComplete(c, pos, read);
      var r2 := ReadCompleteLines(c2, pos, read);
      assert [] + r2.messages == r2.messages;
    } else {
      LineEndInExtension(c, c2, pos);
      CompleteLinesExtend(c, c2, LineEnd(c, pos), read);
      ExtendByOneLine(c, c2, pos, read);
    }
  }

  /** Without a complete line at `pos` nothing is read and the position stays. */
  lemma NothingComplete(c: Bytes, pos: nat, read: LineReader)
    requires pos <= |c| && (pos == |c| || !Terminated(c, pos))
    ensures ReadCompleteLines(c, pos, read) == ReadOutcome([], pos)
  {
  }

  /** The extension property carries over a line that is complete in `c`. */
  lemma ExtendByOneLine(c: Bytes, c2: Bytes, pos: nat, read: LineReader)
    requires pos < |c| <= |c2| && Terminated(c, pos) && LineEnd(c2, pos) == LineEnd(c, pos)
    requires c2[pos..LineEnd(c, pos)] == c[pos..LineEnd(c, pos)]
    requires read(c[pos..LineEnd(c, pos)]).Some?
    requires ExtendsAt(c, c2, LineEnd(c, pos), read)
    ensures ExtendsAt(c, c2, pos, read)
  {
    var e := LineEnd(c, pos);
    var first := AsSeq(read(c[pos..e]).value);
    var a, b := ReadCompleteLines(c, pos, read), ReadCompleteLines(c, e, read);
    var a2, b2 := ReadCompleteLines(c2, pos, read), ReadCompleteLines(c2, e, read);
    assert a == ReadOutcome(first + b.messages, b.pos) by { CompleteLineStep(c, pos, read); }
    assert a2 == ReadOutcome(first + b2.messages, b2.pos) by { CompleteLineStep(c2, pos, read); }
    Glue(first, a, b, a2, b2, ReadCompleteLines(c2, b.pos, read));
  }

  lemma Glue(first: seq<ChatMessage>, a: ReadOutcome, b: ReadOutcome, a2: ReadOutcome, b2: ReadOutcome, r2: ReadOutcome)
    requires a == ReadOutcome(first + b.messages, b.pos)
    requires a2 == ReadOutcome(first + b2.messages, b2.pos)
    requires b2 == ReadOutcome(b.messages + r2.messages, r2.pos)
    ensures a2 == ReadOutcome(a.messages + r2.messages, r2.pos)
  {
    assert first + (b.messages + r2.messages) == (first + b.messages) + r2.messages;
  }

  /**
   * `read_new_lines` as written: a failed open reports its error and the
   * position does not move; otherwise every line from the position on is
   * read, a trailing fragment without its newline included.
   */
  function ReadNewLines(file: Result<Bytes>, pos: nat, read: LineReader): (r: Result<ReadOutcome>)
    ensures file.Err? ==> r == Err(file.error)
    ensures file.Ok? ==> r.Ok? && pos <= r.value.pos
    ensures file.Ok? && pos >= |file.value| ==> r == Ok(ReadOutcome([], pos))
  {
    match file
    case Err(e) => Err(e)
    case Ok(c) => Ok(ReadLines(c, pos, read))
  }

  /** `read_new_lines` as documented: the same, but an unterminated fragment is left for a later read. */
  function ReadNewLinesFixed(file: Result<Bytes>, pos: nat, read: LineReader): (r: Result<ReadOutcome>)
    ensures file.Err? ==> r == Err(file.error)
    ensures file.Ok? ==> r.Ok? && pos <= r.value.pos
    ensures file.Ok? && pos >= |file.value| ==> r == Ok(ReadOutcome([], pos))
    ensures file.Ok? ==> r.value.pos == pos || (0 < r.value.pos <= |file.value| && file.value[r.value.pos - 1] == NEWLINE)
  {
    match file
    case Err(e) => Err(e)
    case Ok(c) => Ok(ReadCompleteLines(c, pos, read))
  }

  /** As written, a read of UTF-8 content leaves the position at the end of the file, fragment or not. */
  lemma AsWrittenReadsToEnd(c: Bytes, pos: nat, parse: LineParser)
    requires pos <= |c| && ValidUtf8(c[pos..])
    ensures ReadNewLines(Ok(c), pos, ReadLine(parse)) == Ok(ReadLines(c, pos, ReadLine(parse)))
    ensures ReadNewLines(Ok(c), pos, ReadLine(parse)).value.pos == |c|
  {
    ReadLinesConsumesAll(c, pos, parse);
  }

  function NewMessages(ms: seq<ChatMessage>): (r: seq<ChatLogEvent>)
    ensures |r| == |ms|
    ensures forall i | 0 <= i < |r| :: r[i] == NewMessage(ms[i])
  {
    if |ms| == 0 then [] else [NewMessage(ms[0])] + NewMessages(ms[1..])
  }

  /** The messages the `NewMessage` events of a sequence carry, in order. */
  function Delivered(events: seq<ChatLogEvent>): seq<ChatMessage> {
    if |events| == 0 then []
    else (if events[0].NewMessage? then [events[0].message] else []) + Delivered(events[1..])
  }

  lemma {:induction false} DeliveredAppend(a: seq<ChatLogEvent>, b: seq<ChatLogEvent>)
    ensures Delivered(a + b) == Delivered(a) + Delivered(b)
  {
    if |a| > 0 {
      assert (a + b)[0] == a[0];
      assert (a + b)[1..] == a[1..] + b;
      DeliveredAppend(a[1..], b);
    } else {
      assert a + b == b;
    }
  }

  /** The messages of `NewMessage` events built from a batch are the batch. */
  lemma {:induction false} DeliveredNewMessages(ms: seq<ChatMessage>)
    ensures Delivered(NewMessages(ms)) == ms
  {
    if |ms| > 0 {
      assert NewMessages(ms)[1..] == NewMessages(ms[1..]);
      DeliveredNewMessages(ms[1..]);
    }
  }

  datatype RunOutcome = RunOutcome(events: seq<ChatLogEvent>, pos: nat)

  /** The events of one read: an Error for a failed open, a NewMessage per message otherwise. */
  function Report(o: Result<ReadOutcome>, pos: nat): (r: RunOutcome)
    ensures o.Err? ==> r == RunOutcome([Error(o.error)], pos)
    ensures o.Ok? ==> Delivered(r.events) == o.value.messages && r.pos == o.value.pos
    ensures forall i | 0 <= i < |r.events| :: !r.events[i].History?
  {
    match o
    case Err(e) => RunOutcome([Error(e)], pos)
    case Ok(o) =>
      DeliveredNewMessages(o.messages);
      RunOutcome(NewMessages(o.messages), o.pos)
  }

  /** What one read of the watcher task emits and where it leaves the position. */
  function Step(file: Result<Bytes>, pos: nat, read: LineReader): (r: RunOutcome)
    ensures file.Err? ==> r == RunOutcome([Error(file.error)], pos)
    ensures file.Ok? ==>
      var o := ReadLines(file.value, pos, read);
      Delivered(r.events) == o.messages && r.pos == o.pos
    ensures forall i | 0 <= i < |r.events| :: !r.events[i].History?
  {
    Report(ReadNewLines(file, pos, read), pos)
  }

  /** The same step over the corrected read. */
  function StepFixed(file: Result<Bytes>, pos: nat, read: LineReader): (r: RunOutcome)
    ensures file.Err? ==> r == RunOutcome([Error(file.error)], pos)
    ensures file.Ok? ==>
      var o := ReadCompleteLines(file.value, pos, read);
      Delivered(r.events) == o.messages && r.pos == o.pos
    ensures forall i | 0 <= i < |r.events| :: !r.events[i].History?
  {
    Report(ReadNewLinesFixed(file, pos, read), pos)
  }

  /** The watcher task over the reads it performs, from position `pos`. */
  function Run(pos: nat, seen: seq<Result<Bytes>>, read: LineReader): (r: RunOutcome)
    ensures forall i | 0 <= i < |r.events| :: !r.events[i].History?
    ensures |seen| == 0 ==> r == RunOutcome([], pos)
    decreases |seen|
  {
    if |seen| == 0 then
      RunOutcome([], pos)
    else
      var step := Step(seen[0], pos, read);
      var rest := Run(step.pos, seen[1..], read);
      RunOutcome(step.events + rest.events, rest.pos)
  }

  /** The watcher task over the corrected read. */
  function RunFixed(pos: nat, seen: seq<Result<Bytes>>, read: LineReader): (r: RunOutcome)
    ensures forall i | 0 <= i < |r.events| :: !r.events[i].History?
    ensures |seen| == 0 ==> r == RunOutcome([], pos)
    decreases |seen|
  {
    if |seen| == 0 then
      RunOutcome([], pos)
    else
      var step := StepFixed(seen[0], pos, read);
      var rest := RunFixed(step.pos, seen[1..], read);
      RunOutcome(step.events + rest.events, rest.pos)
  }

  /** Every read that succeeds sees content ending with a newline. */
  predicate SnapshotsEndWithNewline(seen: seq<Result<Bytes>>) {
    forall i | 0 <= i < |seen| :: seen[i].Ok? ==> EndsWithNewline(seen[i].value)
  }

  /** When every successful read sees whole lines, the task as written and the corrected one emit the same. */
  lemma {:induction false} RunsAgree(pos: nat, seen: seq<Result<Bytes>>, read: LineReader)
    requires SnapshotsEndWithNewline(seen)
    ensures Run(pos, seen, read) == RunFixed(pos, seen, read)
    decreases |seen|
  {
    if |seen| > 0 {
      if seen[0].Ok? {
        ReadersAgreeOnCompleteLines(seen[0].value, pos, read);
      }
      var step := Step(seen[0], pos, read);
      assert step == StepFixed(seen[0], pos, read);
      assert forall i | 0 <= i < |seen[1..]| :: seen[1..][i] == seen[i + 1];
      RunsAgree(step.pos, seen[1..], read);
    }
  }

  /** Each successful read sees the content of the one before it, possibly with more appended. */
  predicate Grows(prev: Bytes, seen: seq<Result<Bytes>>)
    decreases |seen|
  {
    |seen| == 0 ||
    match seen[0]
    case Err(_) => Grows(prev, seen[1..])
    case Ok(c) => prev <= c && Grows(c, seen[1..])
  }

  /** The content the last successful read saw. */
  function Latest(prev: Bytes, seen: seq<Result<Bytes>>): Bytes
    decreases |seen|
  {
    if |seen| == 0 then prev
    else
      match seen[0]
      case Err(_) => Latest(prev, seen[1..])
      case Ok(c) => Latest(c, seen[1..])
  }

  lemma {:induction false} GrowsToLatest(prev: Bytes, seen: seq<Result<Bytes>>)
    requires Grows(prev, seen)
    ensures prev <= Latest(prev, seen)
    decreases |seen|
  {
    if |seen| > 0 {
      match seen[0]
      case Err(_) => GrowsToLatest(prev, seen[1..]);
      case Ok(c) => GrowsToLatest(c, seen[1..]);
    }
  }

  /**
   * Whatever the timing of the writes and of the reads, the messages of the
   * corrected history read followed by those of every `NewMessage` event of
   * the corrected task are exactly
   * the messages of the complete lines the file ends up with.
   */
  lemma {:induction false} RunFixedDeliversEveryMessage(prev: Bytes, seen: seq<Result<Bytes>>, read: LineReader)
    requires Grows(prev, seen) && LinesValid(Latest(prev, seen), 0, read)
    ensures var start := ReadCompleteLines(prev, 0, read);
      start.messages + Delivered(RunFixed(start.pos, seen, read).events)
        == ReadCompleteLines(Latest(prev, seen), 0, read).messages
    decreases |seen|
  {
    var start := ReadCompleteLines(prev, 0, read);
    if |seen| == 0 {
      assert start.messages + [] == start.messages;
    } else {
      var all := ReadCompleteLines(Latest(prev, seen), 0, read).messages;
      assert seen == [seen[0]] + seen[1..];
      match seen[0]
      case Err(e) =>
        RunFixedDeliversEveryMessage(prev, seen[1..], read);
        FailedReadDeliversNothing(start.pos, e, seen[1..], read);
      case Ok(c) =>
        GrowsToLatest(c, seen[1..]);
        LinesValidPrefix(c, Latest(c, seen[1..]), 0, read);
        RunFixedDeliversEveryMessage(c, seen[1..], read);
        ReadExtendsHistory(prev, c, seen[1..], read, all);
    }
  }

  /** A failed read emits an error and leaves the position where it was. */
  lemma FailedReadDeliversNothing(pos: nat, e: string, rest: seq<Result<Bytes>>, read: LineReader)
    ensures Delivered(RunFixed(pos, [Err(e)] + rest, read).events) == Delivered(RunFixed(pos, rest, read).events)
  {
    var seen := [Err(e)] + rest;
    assert seen[1..] == rest;
    DeliveredAppend([Error(e)], RunFixed(pos, rest, read).events);
  }

  /** A successful read of grown content continues the history as one read of it would. */
  lemma ReadExtendsHistory(prev: Bytes, c: Bytes, rest: seq<Result<Bytes>>, read: LineReader, all: seq<ChatMessage>)
    requires prev <= c && LinesValid(c, 0, read)
    requires var next := ReadCompleteLines(c, 0, read);
      next.messages + Delivered(RunFixed(next.pos, rest, read).events) == all
    ensures var start := ReadCompleteLines(prev, 0, read);
      start.messages + Delivered(RunFixed(start.pos, [Ok(c)] + rest, read).events) == all
  {
    var start := ReadCompleteLines(prev, 0, read);
    var seen := [Ok(c)] + rest;
    assert seen[1..] == rest;
    var step := StepFixed(Ok(c), start.pos, read);
    var tail := RunFixed(step.pos, rest, read);
    DeliveredAppend(step.events, tail.events);
    CompleteLinesExtend(prev, c, 0, read);
    Reassociate(start.messages, Delivered(step.events), Delivered(tail.events),
      ReadCompleteLines(c, 0, read).messages, all);
  }

  lemma Reassociate<T>(a: seq<T>, b: seq<T>, c: seq<T>, ab: seq<T>, all: seq<T>)
    requires ab == a + b && ab + c == all
    ensures a + (b + c) == all
  {
  }

  /**
   * As written, a record appended in two writes with a read in between is
   * lost: the first read consumes the fragment "ab", the second the rest
   * "cd\n", and neither parses.
   */
  lemma PartialRecordLost(parse: LineParser, m: ChatMessage)
    requires parse("ab") == None && parse("cd\n") == None && parse("abcd\n") == Some(m)
    ensures var first: Bytes := [0x61, 0x62];
      var whole: Bytes := [0x61, 0x62, 0x63, 0x64, 0x0A];
      var r1 := ReadLines(first, 0, ReadLine(parse));
      r1.messages + ReadLines(whole, r1.pos, ReadLine(parse)).messages == []
  {
    var read := ReadLine(parse);
    var first: Bytes := [0x61, 0x62];
    var whole: Bytes := [0x61, 0x62, 0x63, 0x64, 0x0A];
    assert LineEnd(first, 0) == 2;
    assert first[0..2] == first;
    ReadLineOf(parse, "ab", first);
    assert ReadLines(first, 0, read) == ReadOutcome([], 2);
    assert LineEnd(whole, 2) == 5;
    ReadLineOf(parse, "cd\n", whole[2..5]);
    assert ReadLines(whole, 2, read) == ReadOutcome([], 5);
  }

  /** The complete-line loop waits for the newline and delivers the same record. */
  lemma PartialRecordKept(parse: LineParser, m: ChatMessage)
    requires parse("ab") == None && parse("cd\n") == None && parse("abcd\n") == Some(m)
    ensures var first: Bytes := [0x61, 0x62];
      var whole: Bytes := [0x61, 0x62, 0x63, 0x64, 0x0A];
      var r1 := ReadCompleteLines(first, 0, ReadLine(parse));
      r1.messages + ReadCompleteLines(whole, r1.pos, ReadLine(parse)).messages == [m]
  {
    var read := ReadLine(parse);
    var first: Bytes := [0x61, 0x62];
    var whole: Bytes := [0x61, 0x62, 0x63, 0x64, 0x0A];
    assert LineEnd(first, 0) == 2;
    NothingComplete(first, 0, read);
    assert LineEnd(whole, 0) == 5;
    assert whole[0..5] == whole;
    ReadLineOf(parse, "abcd\n", whole);
    CompleteLineStep(whole, 0, read);
    NothingComplete(whole, 5, read);
  }

  /** A line that can be read contributes its message ahead of the rest. */
  lemma LineStep(c: Bytes, pos: nat, read: LineReader)
    requires pos < |c| && read(c[pos..LineEnd(c, pos)]).Some?
    ensures var rest := ReadLines(c, LineEnd(c, pos), read);
      ReadLines(c, pos, read) == ReadOutcome(AsSeq(read(c[pos..LineEnd(c, pos)]).value) + rest.messages, rest.pos)
  {
  }

  /** One complete line that can be read contributes its message ahead of the rest. */
  lemma CompleteLineStep(c: Bytes, pos: nat, read: LineReader)
    requires pos < |c| && Terminated(c, pos) && read(c[pos..LineEnd(c, pos)]).Some?
    ensures var rest := ReadCompleteLines(c, LineEnd(c, pos), read);
      ReadCompleteLines(c, pos, read) == ReadOutcome(AsSeq(read(c[pos..LineEnd(c, pos)]).value) + rest.messages, rest.pos)
  {
  }

  /** What `watch_log_file` has done once its reads are over. */
  datatype Watch = Watch(sent: seq<ChatLogEvent>, failure: Option<string>)

  const OPEN_FAILED: string := "failed to open log file: "

  /**
   * `watch_log_file` for the log at `path`: the history read of the file as
   * opened (`file`), then, unless setting up the notification watch fails
   * with `watchFailure`, the watcher task over `seen`. The history is sent
   * before the watch is set up, so it is sent even when that fails. As in
   * `read_all_messages`, the history read takes every line, a trailing
   * fragment included.
   */
  function WatchLogFile(
    path: Bytes, tool: AiTool, claude: ClaudeParser.Decoder, codex: CodexParser.Decoder,
    file: Result<Bytes>, watchFailure: Option<string>, seen: seq<Result<Bytes>>): (w: Watch)
    ensures file.Err? ==> w == Watch([], Some(OPEN_FAILED + Lossy(path)))
    ensures file.Ok? ==>
      var read := ReadLine(ParserFor(tool, claude, codex));
      var history := ReadLines(file.value, 0, read);
      && |w.sent| > 0
      && w.sent[0] == History(history.messages, tool)
      && w.failure == watchFailure
      && (watchFailure.Some? ==> |w.sent| == 1)
      && (watchFailure.None? ==> w.sent[1..] == Run(history.pos, seen, read).events)
    ensures forall i | 1 <= i < |w.sent| :: !w.sent[i].History?
  {
    match file
    case Err(_) => Watch([], Some(OPEN_FAILED + Lossy(path)))
    case Ok(c) =>
      var read := ReadLine(ParserFor(tool, claude, codex));
      var history := ReadLines(c, 0, read);
      var sent := [History(history.messages, tool)];
      if watchFailure.Some? then
        Watch(sent, watchFailure)
      else
        var run := Run(history.pos, seen, read);
        assert (sent + run.events)[1..] == run.events;
        Watch(sent + run.events, None)
  }

  /** `watch_log_file` over the corrected loop, for the history read and for every later read. */
  function WatchLogFileFixed(
    path: Bytes, tool: AiTool, claude: ClaudeParser.Decoder, codex: CodexParser.Decoder,
    file: Result<Bytes>, watchFailure: Option<string>, seen: seq<Result<Bytes>>): (w: Watch)
    ensures file.Err? ==> w == Watch([], Some(OPEN_FAILED + Lossy(path)))
    ensures file.Ok? ==>
      var read := ReadLine(ParserFor(tool, claude, codex));
      var history := ReadCompleteLines(file.value, 0, read);
      && |w.sent| > 0
      && w.sent[0] == History(history.messages, tool)
      && w.failure == watchFailure
      && (watchFailure.Some? ==> |w.sent| == 1)
      && (watchFailure.None? ==> w.sent[1..] == RunFixed(history.pos, seen, read).events)
    ensures forall i | 1 <= i < |w.sent| :: !w.sent[i].History?
  {
    match file
    case Err(_) => Watch([], Some(OPEN_FAILED + Lossy(path)))
    case Ok(c) =>
      var read := ReadLine(ParserFor(tool, claude, codex));
      var history := ReadCompleteLines(c, 0, read);
      var sent := [History(history.messages, tool)];
      if watchFailure.Some? then
        Watch(sent, watchFailure)
      else
        var run := RunFixed(history.pos, seen, read);
        assert (sent + run.events)[1..] == run.events;
        Watch(sent + run.events, None)
  }

  /** When the file as opened and every later snapshot end with a newline, the watcher as written is the corrected one. */
  lemma WatchesAgree(
    path: Bytes, tool: AiTool, claude: ClaudeParser.Decoder, codex: CodexParser.Decoder,
    file: Result<Bytes>, watchFailure: Option<string>, seen: seq<Result<Bytes>>)
    requires file.Ok? ==> EndsWithNewline(file.value)
    requires SnapshotsEndWithNewline(seen)
    ensures WatchLogFile(path, tool, claude, codex, file, watchFailure, seen)
      == WatchLogFileFixed(path, tool, claude, codex, file, watchFailure, seen)
  {
    if file.Ok? {
      var read := ReadLine(ParserFor(tool, claude, codex));
      ReadersAgreeOnCompleteLines(file.value, 0, read);
      RunsAgree(ReadLines(file.value, 0, read).pos, seen, read);
    }
  }

  /** The corrected watcher sends, in its history and its new messages, every message of the complete lines of the log. */
  lemma WatchFixedDeliversEveryMessage(
    path: Bytes, tool: AiTool, claude: ClaudeParser.Decoder, codex: CodexParser.Decoder,
    c: Bytes, seen: seq<Result<Bytes>>)
    requires Grows(c, seen) && ValidUtf8(Latest(c, seen))
    ensures var w := WatchLogFileFixed(path, tool, claude, codex, Ok(c), None, seen);
      var read := ReadLine(ParserFor(tool, claude, codex));
      w.sent[0].messages + Delivered(w.sent[1..]) == ReadCompleteLines(Latest(c, seen), 0, read).messages
  {
    var parse := ParserFor(tool, claude, codex);
    var latest := Latest(c, seen);
    assert latest[0..] == latest;
    ValidContentLinesValid(latest, 0, parse);
    RunFixedDeliversEveryMessage(c, seen, ReadLine(parse));
  }

  /** Snapshots that end with a newline leave a latest content that does too. */
  lemma {:induction false} LatestEndsWithNewline(prev: Bytes, seen: seq<Result<Bytes>>)
    requires EndsWithNewline(prev) && SnapshotsEndWithNewline(seen)
    ensures EndsWithNewline(Latest(prev, seen))
    decreases |seen|
  {
    if |seen| > 0 {
      assert forall i | 0 <= i < |seen[1..]| :: seen[1..][i] == seen[i + 1];
      match seen[0]
      case Err(_) => LatestEndsWithNewline(prev, seen[1..]);
      case Ok(c) => LatestEndsWithNewline(c, seen[1..]);
    }
  }

  /**
   * The watcher as written delivers every message of the log when writers
   * only ever leave whole lines in it, whenever the reads happen.
   */
  lemma WatchDeliversEveryMessage(
    path: Bytes, tool: AiTool, claude: ClaudeParser.Decoder, codex: CodexParser.Decoder,
    c: Bytes, seen: seq<Result<Bytes>>)
    requires Grows(c, seen) && ValidUtf8(Latest(c, seen))
    requires EndsWithNewline(c) && SnapshotsEndWithNewline(seen)
    ensures var w := WatchLogFile(path, tool, claude, codex, Ok(c), None, seen);
      var read := ReadLine(ParserFor(tool, claude, codex));
      w.sent[0].messages + Delivered(w.sent[1..]) == ReadLines(Latest(c, seen), 0, read).messages
  {
    WatchesAgree(path, tool, claude, codex, Ok(c), None, seen);
    WatchFixedDeliversEveryMessage(path, tool, claude, codex, c, seen);
    LatestEndsWithNewline(c, seen);
    ReadersAgreeOnCompleteLines(Latest(c, seen), 0, ReadLine(ParserFor(tool, claude, codex)));
  }

  /**
   * The whole watcher as written loses a record appended in two writes:
   * the history read sees "ab", the one read after sees "abcd\n", and
   * nothing is ever delivered.
   */
  lemma WatchLosesPartialRecord(
    path: Bytes, tool: AiTool, claude: ClaudeParser.Decoder, codex: CodexParser.Decoder, m: ChatMessage)
    requires var parse := ParserFor(tool, claude, codex);
      parse("ab") == None && parse("cd\n") == None && parse("abcd\n") == Some(m)
    ensures var w := WatchLogFile(path, tool, claude, codex, Ok([0x61, 0x62]), None, [Ok([0x61, 0x62, 0x63, 0x64, 0x0A])]);
      w.sent[0].messages + Delivered(w.sent[1..]) == []
  {
    var parse := ParserFor(tool, claude, codex);
    var read := ReadLine(parse);
    var whole: Bytes := [0x61, 0x62, 0x63, 0x64, 0x0A];
    PartialRecordLost(parse, m);
    var h := ReadLines([0x61, 0x62], 0, read);
    assert [Ok(whole)][1..] == [];
    assert Run(h.pos, [Ok(whole)], read).events == Step(Ok(whole), h.pos, read).events + [];
  }

  /** The corrected watcher delivers that record once its newline has arrived. */
  lemma WatchFixedKeepsPartialRecord(
    path: Bytes, tool: AiTool, claude: ClaudeParser.Decoder, codex: CodexParser.Decoder, m: ChatMessage)
    requires var parse := ParserFor(tool, claude, codex);
      parse("ab") == None && parse("cd\n") == None && parse("abcd\n") == Some(m)
    ensures var w := WatchLogFileFixed(path, tool, claude, codex, Ok([0x61, 0x62]), None, [Ok([0x61, 0x62, 0x63, 0x64, 0x0A])]);
      w.sent[0].messages + Delivered(w.sent[1..]) == [m]
  {
    var parse := ParserFor(tool, claude, codex);
    var read := ReadLine(parse);
    var whole: Bytes := [0x61, 0x62, 0x63, 0x64, 0x0A];
    PartialRecordKept(parse, m);
    var h := ReadCompleteLines([0x61, 0x62], 0, read);
    assert [Ok(whole)][1..] == [];
    assert RunFixed(h.pos, [Ok(whole)], read).events == StepFixed(Ok(whole), h.pos, read).events + [];
  }
}
