/**
 * The chat-log part of one websocket connection: the slot holding the
 * task that follows a window's chat log, the task's translation of log
 * events into server messages, and two small reply rules of the same
 * message handler.
 *
 * Tasks are named by the order in which they are spawned. Aborting a task
 * is recorded, not performed; nothing is claimed about messages a task had
 * already queued when it was aborted.
 */
module Session {
  import opened Wrappers
  import opened Text
  import opened ChatLog
  import Watcher
  import Detect

  /**
   * The chat-log messages of the server protocol, and the replies to renames
   * and window selection. The text of a `ChatLogError` goes out under the
   * key "error", as do the replies' optional error texts.
   */
  datatype ServerMessage =
    | ChatHistory(messages: seq<ChatMessage>, tool: Option<AiTool>)
    | ChatEvent(message: ChatMessage)
    | ChatLogError(reason: string)
    | SessionRenamed(success: bool, error: Option<string>)
    | WindowRenamed(success: bool, error: Option<string>)
    | WindowSelected(success: bool, windowIndex: Option<nat>, error: Option<string>)

  /**
   * The per-connection watch state: the handle in the slot, how many tasks
   * have been spawned (task `k` is the `k`-th), and the tasks aborted.
   */
  datatype WatchSlot = WatchSlot(slot: Option<nat>, spawned: nat, aborted: set<nat>)

  /** A new connection: an empty slot and no task yet. */
  const Initial: WatchSlot := WatchSlot(None, 0, {})

  /** The tasks spawned and not aborted. */
  function Live(s: WatchSlot): set<nat> {
    set k | 0 <= k < s.spawned && k !in s.aborted
  }

  /** Only the task in the slot can be live, and it is; only spawned tasks are aborted. */
  predicate Sound(s: WatchSlot) {
    && (forall k | k in s.aborted :: k < s.spawned)
    && (s.slot.Some? ==> s.slot.value < s.spawned && s.slot.value !in s.aborted)
    && (forall k | 0 <= k < s.spawned && k !in s.aborted :: s.slot == Some(k))
  }

  /** Taking the handle out of the slot and aborting it, if there is one. */
  function TakeAndAbort(s: WatchSlot): (r: WatchSlot)
    ensures r.slot.None? && r.spawned == s.spawned
    ensures s.slot.None? ==> r == s
    ensures s.slot.Some? ==> r.aborted == s.aborted + {s.slot.value}
  {
    match s.slot
    case None => s
    case Some(h) => WatchSlot(None, s.spawned, s.aborted + {h})
  }

  /** `WatchChatLog`: abort the task in the slot, spawn a new one, and store its handle. */
  function Watch(s: WatchSlot): (r: WatchSlot)
    ensures r.slot == Some(s.spawned) && r.spawned == s.spawned + 1
    ensures Sound(s) ==> Sound(r) && Live(r) == {s.spawned}
  {
    var taken := TakeAndAbort(s);
    var r := WatchSlot(Some(taken.spawned), taken.spawned + 1, taken.aborted);
    assert Sound(s) ==> Sound(r) && Live(r) == {s.spawned} by {
      if Sound(s) {
        assert s.spawned !in taken.aborted;
        forall k | 0 <= k < s.spawned && k !in s.aborted
          ensures s.slot == Some(k)
        {
        }
      }
    }
    r
  }

  /** `UnwatchChatLog`: empty the slot, aborting the task it held. */
  function Unwatch(s: WatchSlot): (r: WatchSlot)
    ensures r.slot.None?
    ensures Sound(s) ==> Sound(r) && Live(r) == {}
  {
    var r := TakeAndAbort(s);
    assert Sound(s) ==> Live(r) == {} by {
      if Sound(s) {
        forall k | 0 <= k < s.spawned && k !in s.aborted
          ensures s.slot == Some(k)
        {
        }
      }
    }
    r
  }

  /** The chat-log part of `cleanup_session` when the connection closes. */
  function Cleanup(s: WatchSlot): (r: WatchSlot)
    ensures r.slot.None?
    ensures Sound(s) ==> Sound(r) && Live(r) == {}
  {
    Unwatch(s)
  }

  /** Unwatching an empty slot changes nothing, so unwatching twice is unwatching once. */
  lemma UnwatchIdempotent(s: WatchSlot)
    ensures Unwatch(Unwatch(s)) == Unwatch(s)
  {
  }

  /** A sound state has at most one live task: the one in the slot. */
  lemma AtMostOneLive(s: WatchSlot)
    requires Sound(s)
    ensures |Live(s)| <= 1
    ensures s.slot.Some? ==> Live(s) == {s.slot.value}
    ensures s.slot.None? <==> Live(s) == {}
  {
    if s.slot.Some? {
      assert s.slot.value in Live(s);
      assert Live(s) == {s.slot.value};
    } else {
      assert Live(s) == {};
    }
  }

  /** What the connection is asked to do with its chat-log slot. */
  datatype Command = WatchChatLog | UnwatchChatLog | CloseConnection

  function Apply(s: WatchSlot, c: Command): WatchSlot {
    match c
    case WatchChatLog => Watch(s)
    case UnwatchChatLog => Unwatch(s)
    case CloseConnection => Cleanup(s)
  }

  /** The slot after a connection's commands, in order. */
  function Replay(s: WatchSlot, cs: seq<Command>): WatchSlot
    decreases |cs|
  {
    if |cs| == 0 then s else Replay(Apply(s, cs[0]), cs[1..])
  }

  /**
   * However the commands of a connection interleave, at most one chat-log
   * task is live, and it is the one spawned by the last `WatchChatLog`
   * when no unwatch or close came after it.
   */
  lemma {:induction false} ReplayKeepsOneLive(s: WatchSlot, cs: seq<Command>)
    requires Sound(s)
    ensures Sound(Replay(s, cs))
    ensures |Live(Replay(s, cs))| <= 1
    decreases |cs|
  {
    if |cs| == 0 {
      AtMostOneLive(s);
    } else {
      var next := Apply(s, cs[0]);
      assert Sound(next);
      ReplayKeepsOneLive(next, cs[1..]);
    }
  }

  /** A new connection's slot is sound. */
  lemma InitialSound()
    ensures Sound(Initial) && Live(Initial) == {}
  {
  }

  /** The last command decides whether a task is live. */
  lemma LastCommandDecides(s: WatchSlot, cs: seq<Command>, c: Command)
    requires Sound(s)
    ensures var r := Replay(s, cs + [c]);
      && (c == WatchChatLog ==> Live(r) == {r.spawned - 1})
      && (c != WatchChatLog ==> Live(r) == {})
  {
    ReplayAppend(s, cs, c);
    ReplayKeepsOneLive(s, cs);
  }

  lemma {:induction false} ReplayAppend(s: WatchSlot, cs: seq<Command>, c: Command)
    ensures Replay(s, cs + [c]) == Apply(Replay(s, cs), c)
    decreases |cs|
  {
    if |cs| == 0 {
      assert cs + [c] == [c];
    } else {
      assert (cs + [c])[0] == cs[0];
      assert (cs + [c])[1..] == cs[1..] + [c];
      ReplayAppend(Apply(s, cs[0]), cs[1..], c);
    }
  }

  /** The message the task sends for a log event: the same payload under the protocol's name. */
  function Translate(e: ChatLogEvent): (m: ServerMessage)
    ensures m.ChatHistory? <==> e.History?
    ensures m.ChatEvent? <==> e.NewMessage?
    ensures m.ChatLogError? <==> e.Error?
  {
    match e
    case History(messages, tool) => ChatHistory(messages, Some(tool))
    case NewMessage(message) => ChatEvent(message)
    case Error(error) => ChatLogError(error)
  }

  /** The log event a chat-log message carries, if it is one the task can send. */
  function EventOf(m: ServerMessage): Option<ChatLogEvent> {
    match m
    case ChatHistory(messages, tool) => if tool.Some? then Some(History(messages, tool.value)) else None
    case ChatEvent(message) => Some(NewMessage(message))
    case ChatLogError(error) => Some(Error(error))
    case _ => None
  }

  /** Translation changes no payload: the event can be read back from the message. */
  lemma TranslateRoundTrip(e: ChatLogEvent)
    ensures EventOf(Translate(e)) == Some(e)
  {
  }

  /** Translation is one-to-one, so distinct events reach the client as distinct messages. */
  lemma TranslateInjective(a: ChatLogEvent, b: ChatLogEvent)
    requires Translate(a) == Translate(b)
    ensures a == b
  {
    TranslateRoundTrip(a);
    TranslateRoundTrip(b);
  }

  /** A message of the history always names its tool. */
  lemma HistoryNamesTool(e: ChatLogEvent)
    requires e.History?
    ensures Translate(e).tool == Some(e.tool)
  {
  }

  function TranslateAll(es: seq<ChatLogEvent>): (r: seq<ServerMessage>)
    ensures |r| == |es|
    ensures forall i | 0 <= i < |es| :: r[i] == Translate(es[i])
  {
    if |es| == 0 then [] else [Translate(es[0])] + TranslateAll(es[1..])
  }

  function Min(a: nat, b: nat): nat {
    if a < b then a else b
  }

  /**
   * The spawned task of `WatchChatLog`: `detected` is what detection
   * returned, `watch` what `watch_log_file` then did for the log found, and
   * `open` how many sends the connection's channel accepts before it is
   * closed. A failure sends one error and ends the task, so the history an
   * unstarted watcher had queued is never forwarded; otherwise the events
   * are forwarded in order until a send fails.
   */
  function ChatTask(detected: Result<Detect.Detection>, watch: Watcher.Watch, open: nat): (r: seq<ServerMessage>)
    ensures |r| <= open
    ensures detected.Err? ==> r == (if open > 0 then [ChatLogError(detected.error)] else [])
    ensures detected.Ok? && watch.failure.Some? ==> r == (if open > 0 then [ChatLogError(watch.failure.value)] else [])
    ensures detected.Ok? && watch.failure.None? ==> |r| == Min(open, |watch.sent|)
    ensures detected.Ok? && watch.failure.None? ==> forall i | 0 <= i < |r| :: EventOf(r[i]) == Some(watch.sent[i])
  {
    var failure := if detected.Err? then Some(detected.error) else watch.failure;
    match failure
    case Some(e) => if open > 0 then [ChatLogError(e)] else []
    case None =>
      var forwarded := watch.sent[..Min(open, |watch.sent|)];
      forall i | 0 <= i < |forwarded|
        ensures EventOf(TranslateAll(forwarded)[i]) == Some(watch.sent[i])
      {
        TranslateRoundTrip(forwarded[i]);
      }
      TranslateAll(forwarded)
  }

  /** A failed start reaches the client as exactly one `ChatLogError` when the connection is open. */
  lemma FailureSendsOneError(detected: Result<Detect.Detection>, watch: Watcher.Watch, open: nat)
    requires detected.Err? || watch.failure.Some?
    requires open > 0
    ensures |ChatTask(detected, watch, open)| == 1 && ChatTask(detected, watch, open)[0].ChatLogError?
  {
  }

  /** When the connection stays open the task forwards every event the watcher emitted, in order. */
  lemma ForwardsEverything(d: Detect.Detection, watch: Watcher.Watch, open: nat)
    requires watch.failure.None? && open >= |watch.sent|
    ensures ChatTask(Ok(d), watch, open) == TranslateAll(watch.sent)
  {
    assert watch.sent[..|watch.sent|] == watch.sent;
  }

  const EMPTY_SESSION_NAME: string := "Session name cannot be empty"
  const EMPTY_WINDOW_NAME: string := "Window name cannot be empty"

  /** A reply, and whether tmux was asked to act for it. */
  datatype Reply = Reply(tmuxCalled: bool, message: ServerMessage)

  /** `RenameSession`: a blank name is refused without calling tmux; otherwise tmux's outcome is reported. */
  function RenameSession(newName: string, tmux: Result<()>): (r: Reply)
    ensures r.message.SessionRenamed?
    ensures IsBlank(newName) <==> !r.tmuxCalled
    ensures IsBlank(newName) ==> r.message == SessionRenamed(false, Some(EMPTY_SESSION_NAME))
    ensures !IsBlank(newName) ==> (r.message.success <==> tmux.Ok?)
    ensures !IsBlank(newName) && tmux.Err? ==> r.message.error == Some("Failed to rename session: " + tmux.error)
    ensures r.message.success <==> r.message.error.None?
  {
    TrimEmptyIffBlank(newName);
    if Trim(newName) == [] then
      Reply(false, SessionRenamed(false, Some(EMPTY_SESSION_NAME)))
    else
      match tmux
      case Ok(_) => Reply(true, SessionRenamed(true, None))
      case Err(e) => Reply(true, SessionRenamed(false, Some("Failed to rename session: " + e)))
  }

  /** `RenameWindow`: the same rule for a window's name. */
  function RenameWindow(newName: string, tmux: Result<()>): (r: Reply)
    ensures r.message.WindowRenamed?
    ensures IsBlank(newName) <==> !r.tmuxCalled
    ensures IsBlank(newName) ==> r.message == WindowRenamed(false, Some(EMPTY_WINDOW_NAME))
    ensures !IsBlank(newName) ==> (r.message.success <==> tmux.Ok?)
    ensures !IsBlank(newName) && tmux.Err? ==> r.message.error == Some("Failed to rename window: " + tmux.error)
    ensures r.message.success <==> r.message.error.None?
  {
    TrimEmptyIffBlank(newName);
    if Trim(newName) == [] then
      Reply(false, WindowRenamed(false, Some(EMPTY_WINDOW_NAME)))
    else
      match tmux
      case Ok(_) => Reply(true, WindowRenamed(true, None))
      case Err(e) => Reply(true, WindowRenamed(false, Some("Failed to rename window: " + e)))
  }

  /** A name of spaces and a newline is refused whatever tmux would have done. */
  lemma WhitespaceNameRefused(tmux: Result<()>)
    ensures RenameSession("  \n", tmux) == Reply(false, SessionRenamed(false, Some(EMPTY_SESSION_NAME)))
    ensures RenameWindow("\t", tmux) == Reply(false, WindowRenamed(false, Some(EMPTY_WINDOW_NAME)))
  {
    assert IsBlank("  \n");
    assert IsBlank("\t");
  }

  /** `SelectWindow`'s reply to tmux's outcome of selecting window `window`. */
  function SelectWindowReply(window: nat, tmux: Result<()>): (m: ServerMessage)
    ensures m.WindowSelected?
    ensures m.success <==> tmux.Ok?
    ensures m.success <==> m.windowIndex.Some?
    ensures m.success <==> m.error.None?
    ensures m.windowIndex.Some? ==> m.windowIndex.value == window
    ensures tmux.Err? ==> m.error == Some(tmux.error)
  {
    match tmux
    case Ok(_) => WindowSelected(true, Some(window), None)
    case Err(e) => WindowSelected(false, None, Some(e))
  }
}
