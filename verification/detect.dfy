/**
 * Finding the chat log of the AI tool running in a tmux pane: tmux names the
 * pane's shell, the process tree below it is walked, and the first process
 * called `claude` or `codex` decides which tool it is and where its log
 * lives. Everything the detector asks of the machine — tmux, procfs, the
 * home directory and directory listings — comes in through a `Host`.
 */
module Detect {
  import opened Wrappers
  import opened Text
  import opened Utf8
  import opened ProcessTree
  import opened ChatLog

  /** What `tmux display-message` produced: its exit status, stdout and stderr. */
  datatype TmuxOutput = TmuxOutput(success: bool, stdout: Bytes, stderr: Bytes)

  const TMUX_NOT_RUN: string := "failed to run tmux display-message"
  const TMUX_FAILED: string := "tmux display-message failed: "
  const BAD_PANE_PID: string := "invalid pane PID: "

  /** The tmux target of a window: `session:index`. */
  function Target(session: string, window: nat): (r: string)
    ensures |r| > |session| + 1 && session <= r && r[|session|] == ':'
    ensures r[|session| + 1..] == NatToString(window)
  {
    assert (session + ":" + NatToString(window))[|session| + 1..] == NatToString(window);
    session + ":" + NatToString(window)
  }

  /**
   * `get_pane_pid`: the pid tmux prints for the pane, trimmed and read as a
   * u32, or the reason there is none.
   */
  function PanePid(output: Result<TmuxOutput>): (r: Result<nat>)
    ensures r.Ok? <==> output.Ok? && output.value.success && ParseU32(Trim(Lossy(output.value.stdout))).Some?
    ensures r.Ok? ==> r.value < U32_LIMIT
    ensures output.Err? ==> r == Err(TMUX_NOT_RUN)
    ensures output.Ok? && !output.value.success ==> r == Err(TMUX_FAILED + Lossy(output.value.stderr))
    ensures output.Ok? && output.value.success && r.Err? ==> r == Err(BAD_PANE_PID + Lossy(output.value.stdout))
  {
    match output
    case Err(_) => Err(TMUX_NOT_RUN)
    case Ok(out) =>
      if !out.success then
        Err(TMUX_FAILED + Lossy(out.stderr))
      else
        var stdout := Lossy(out.stdout);
        match ParseU32(Trim(stdout))
        case None => Err(BAD_PANE_PID + stdout)
        case Some(pid) => Ok(pid)
  }

  /** The pid tmux prints, with its newline, is the pid read back. */
  lemma PanePidOfPrinted(pid: nat, stderr: Bytes)
    requires pid < U32_LIMIT
    ensures PanePid(Ok(TmuxOutput(true, Encode(NatToString(pid) + "\n"), stderr))) == Ok(pid)
  {
    var digits := NatToString(pid);
    assert Lossy(Encode(digits + "\n")) == digits + "\n" by {
      LossyOfEncode(digits + "\n");
    }
    assert Trim(digits + "\n") == digits by {
      TrimLine(digits);
    }
    ParseU32OfNatToString(pid);
  }

  /** Lossy decoding of encoded text gives the text back. */
  lemma LossyOfEncode(s: string)
    ensures Lossy(Encode(s)) == s
  {
    DecodeEncode(s);
    LossyOfValid(Encode(s));
  }

  /** A line of digits trims to the digits. */
  lemma TrimLine(digits: string)
    requires |digits| > 0 && AllDigits(digits)
    ensures Trim(digits + "\n") == digits
  {
    assert IsBlank("\n");
    TrimIgnoresTrailingBlank(digits, "\n");
    TrimUnchanged(digits);
  }

  /** One entry of a directory listing: its file name and, when known, its modification time. */
  datatype DirEntry = DirEntry(name: Bytes, modified: Option<nat>)

  /**
   * The machine as the detector sees it: a snapshot of `/proc`, the readable
   * `comm` files and `cwd` links by pid, the home directory, and the file
   * system's directory test and listings.
   */
  datatype Host = Host(
    procs: seq<ProcEntry>,
    comm: map<nat, string>,
    cwd: map<nat, Bytes>,
    home: Option<Bytes>,
    isDir: Bytes -> bool,
    listDir: Bytes -> Result<seq<DirEntry>>)

  /** `process_name`: the trimmed `comm` of the process, if it could be read. */
  function ProcessName(host: Host, pid: nat): (r: Option<string>)
    ensures r.Some? <==> pid in host.comm
    ensures r.Some? ==> r.value == Trim(host.comm[pid])
  {
    if pid in host.comm then Some(Trim(host.comm[pid])) else None
  }

  /** The tool a process name announces. */
  function ToolNamed(name: string): (r: Option<AiTool>)
    ensures r == Some(Claude) <==> name == "claude"
    ensures r == Some(Codex) <==> name == "codex"
  {
    if name == "claude" then Some(Claude)
    else if name == "codex" then Some(Codex)
    else None
  }

  /** The tool a process is, by its name; nothing for an unreadable name or any other program. */
  function ToolOf(host: Host, pid: nat): Option<AiTool> {
    match ProcessName(host, pid)
    case None => None
    case Some(name) => ToolNamed(name)
  }

  const SLASH: byte := 0x2F
  const DOT: byte := 0x2E

  /**
   * `PathBuf::push` (`Path::join`) on Unix: an absolute `name` replaces the
   * path; otherwise `name` is appended, after a '/' unless the path is empty
   * or already ends with one.
   */
  function Join(dir: Bytes, name: Bytes): (r: Bytes)
    ensures |name| > 0 && name[0] == SLASH ==> r == name
    ensures !(|name| > 0 && name[0] == SLASH) ==> dir <= r && |name| <= |r| && r[|r| - |name|..] == name
    ensures !(|name| > 0 && name[0] == SLASH) && (|dir| == 0 || dir[|dir| - 1] == SLASH) ==> r == dir + name
    ensures !(|name| > 0 && name[0] == SLASH) && |dir| > 0 && dir[|dir| - 1] != SLASH ==> r == dir + [SLASH] + name
  {
    if |name| > 0 && name[0] == SLASH then name
    else if |dir| > 0 && dir[|dir| - 1] != SLASH then dir + [SLASH] + name
    else dir + name
  }

  /** Joining a relative name to a directory path puts exactly one '/' between them. */
  lemma JoinRelative(dir: Bytes, name: Bytes)
    requires |dir| > 0 && dir[|dir| - 1] != SLASH
    requires |name| > 0 && name[0] != SLASH
    ensures Join(dir, name) == dir + [SLASH] + name
    ensures Join(dir, name)[..|dir|] == dir && Join(dir, name)[|dir| + 1..] == name
  {
    var r := Join(dir, name);
    assert r == dir + [SLASH] + name;
    assert r[..|dir|] == dir;
    assert r[|dir| + 1..] == name;
  }

  /**
   * The directory name Claude Code gives a working directory: the path with
   * every '/' replaced by '-', the leading one included.
   */
  function EncodeCwd(cwd: string): (r: string)
    ensures |r| == |cwd|
    ensures forall i | 0 <= i < |r| :: r[i] != '/'
    ensures forall i | 0 <= i < |r| :: r[i] == (if cwd[i] == '/' then '-' else cwd[i])
  {
    if |cwd| == 0 then []
    else [if cwd[0] == '/' then '-' else cwd[0]] + EncodeCwd(cwd[1..])
  }

  /** An encoded name is left alone by a second encoding. */
  lemma EncodeCwdIdempotent(cwd: string)
    ensures EncodeCwd(EncodeCwd(cwd)) == EncodeCwd(cwd)
  {
  }

  /** Two working directories differing only in '/' against '-' share one project directory. */
  lemma EncodeCwdCollides()
    ensures "/a-b" != "/a/b" && EncodeCwd("/a-b") == EncodeCwd("/a/b") == "-a-b"
  {
  }

  /** The path components `.claude` and `projects`. */
  const CLAUDE_DIR: Bytes := [0x2E, 0x63, 0x6C, 0x61, 0x75, 0x64, 0x65]
  const PROJECTS_DIR: Bytes := [0x70, 0x72, 0x6F, 0x6A, 0x65, 0x63, 0x74, 0x73]

  lemma ClaudeDirEncoding()
    ensures Encode(".claude") == CLAUDE_DIR
  {
    AsciiEncoding(".claude");
  }

  lemma ProjectsDirEncoding()
    ensures Encode("projects") == PROJECTS_DIR
  {
    AsciiEncoding("projects");
  }

  /** Text below U+0080 encodes to one byte per character, its code. */
  lemma {:induction false} AsciiEncoding(s: string)
    requires forall i | 0 <= i < |s| :: s[i] < '\U{80}'
    ensures |Encode(s)| == |s|
    ensures forall i | 0 <= i < |s| :: Encode(s)[i] == s[i] as int
  {
    if |s| > 0 {
      AsciiEncoding(s[1..]);
      assert Encode(s) == [s[0] as int] + Encode(s[1..]);
      assert forall i | 1 <= i < |s| :: s[1..][i - 1] == s[i];
    }
  }

  /** Claude Code's projects directory for a working directory: `<home>/.claude/projects/<encoded cwd>`. */
  function ProjectsDir(home: Bytes, cwd: string): Bytes {
    Join(Join(Join(home, CLAUDE_DIR), PROJECTS_DIR), Encode(EncodeCwd(cwd)))
  }

  /** Only a '/' encodes to the byte '/'. */
  lemma FirstByteNotSlash(s: string)
    requires |s| > 0 && s[0] != '/'
    ensures |Encode(s)| > 0 && Encode(s)[0] != SLASH
  {
    assert Encode(s) == EncodeChar(s[0]) + Encode(s[1..]);
  }

  /** Three relative components joined onto a path not ending in '/' are separated by single '/'s. */
  lemma JoinThree(dir: Bytes, a: Bytes, b: Bytes, c: Bytes)
    requires |dir| > 0 && dir[|dir| - 1] != SLASH
    requires |a| > 0 && a[0] != SLASH && a[|a| - 1] != SLASH
    requires |b| > 0 && b[0] != SLASH && b[|b| - 1] != SLASH
    requires |c| > 0 && c[0] != SLASH
    ensures Join(Join(Join(dir, a), b), c) == dir + [SLASH] + a + [SLASH] + b + [SLASH] + c
  {
    JoinRelative(dir, a);
    var d1 := dir + [SLASH] + a;
    JoinRelative(d1, b);
    var d2 := d1 + [SLASH] + b;
    JoinRelative(d2, c);
  }

  /** For a home directory not ending in '/', the projects directory is the home and three components. */
  lemma ProjectsDirLayout(home: Bytes, cwd: string)
    requires |home| > 0 && home[|home| - 1] != SLASH
    requires |cwd| > 0
    ensures ProjectsDir(home, cwd)
      == home + [SLASH] + CLAUDE_DIR + [SLASH] + PROJECTS_DIR + [SLASH] + Encode(EncodeCwd(cwd))
    ensures ProjectsDir(home, cwd)
      == home + [SLASH] + Encode(".claude") + [SLASH] + Encode("projects") + [SLASH] + Encode(EncodeCwd(cwd))
  {
    ClaudeDirEncoding();
    ProjectsDirEncoding();
    FirstByteNotSlash(EncodeCwd(cwd));
    JoinThree(home, CLAUDE_DIR, PROJECTS_DIR, Encode(EncodeCwd(cwd)));
  }

  /** The index of the last '.' in a file name. */
  function LastDot(name: Bytes): (r: Option<nat>)
    ensures r.None? <==> forall i | 0 <= i < |name| :: name[i] != DOT
    ensures r.Some? ==> r.value < |name| && name[r.value] == DOT
    ensures r.Some? ==> forall i | r.value < i < |name| :: name[i] != DOT
  {
    if |name| == 0 then None
    else if name[|name| - 1] == DOT then Some(|name| - 1)
    else
      var r := LastDot(name[..|name| - 1]);
      assert forall i | 0 <= i < |name| - 1 :: name[..|name| - 1][i] == name[i];
      r
  }

  /**
   * `Path::extension` of a file name: what follows its last '.', provided
   * something precedes that '.'; nothing for `..`.
   */
  function Extension(name: Bytes): (r: Option<Bytes>)
    ensures r.Some? ==> exists k | 0 < k < |name| :: name[k] == DOT && r.value == name[k + 1..]
    ensures r.Some? <==> name != [DOT, DOT] && LastDot(name).Some? && LastDot(name).value > 0
    ensures r.Some? ==> r.value == name[LastDot(name).value + 1..]
  {
    if name == [DOT, DOT] then None
    else
      match LastDot(name)
      case None => None
      case Some(k) => if k == 0 then None else Some(name[k + 1..])
  }

  const JSONL: Bytes := [0x6A, 0x73, 0x6F, 0x6E, 0x6C]

  /** `JSONL` is the encoding of the extension `jsonl`. */
  lemma JsonlEncoding()
    ensures Encode("jsonl") == JSONL
    ensures ToStr(JSONL) == Some("jsonl")
  {
    assert Encode("jsonl") == JSONL;
    DecodeEncode("jsonl");
  }

  /** The filter of `newest_jsonl_in`: the file's extension is `jsonl`. */
  predicate HasJsonlExtension(name: Bytes) {
    match Extension(name)
    case None => false
    case Some(e) => ToStr(e) == Some("jsonl")
  }

  /**
   * A name has the `jsonl` extension exactly when it ends with `.jsonl` and
   * something comes before that; `.jsonl` alone is a hidden file without one.
   */
  lemma HasJsonlExtensionIff(name: Bytes)
    ensures HasJsonlExtension(name) <==> |name| > 6 && name[|name| - 6] == DOT && name[|name| - 5..] == JSONL
  {
    JsonlEncoding();
    if HasJsonlExtension(name) {
      var k := LastDot(name).value;
      var e := Extension(name).value;
      assert e == name[k + 1..];
      assert Encode(ToStr(e).value) == e;
      assert |name| - 6 == k;
    }
    if |name| > 6 && name[|name| - 6] == DOT && name[|name| - 5..] == JSONL {
      var k := |name| - 6;
      forall i | k < i < |name|
        ensures name[i] != DOT
      {
        assert name[i] == name[|name| - 5..][i - k - 1];
      }
      assert LastDot(name) == Some(k) by {
        LastDotIs(name, k);
      }
    }
  }

  /** The last '.' is the one after which no '.' follows. */
  lemma {:induction false} LastDotIs(name: Bytes, k: nat)
    requires k < |name| && name[k] == DOT
    requires forall i | k < i < |name| :: name[i] != DOT
    ensures LastDot(name) == Some(k)
  {
    if k < |name| - 1 {
      LastDotIs(name[..|name| - 1], k);
    }
  }

  const CODEX_PREFIX: string := "webmux-codex-"
  const CODEX_SUFFIX: string := ".jsonl"

  /** The filter of `find_codex_log`: a UTF-8 name starting `webmux-codex-` and ending `.jsonl`. */
  predicate IsCodexLogName(name: Bytes) {
    match ToStr(name)
    case None => false
    case Some(s) => CODEX_PREFIX <= s && EndsWith(s, CODEX_SUFFIX)
  }

  /** An entry the selection may pick: it passes the filter and its modification time is known. */
  predicate Eligible(e: DirEntry, keep: Bytes -> bool) {
    keep(e.name) && e.modified.Some?
  }

  /**
   * The selection loop of `newest_jsonl_in` and `find_codex_log`: scanning
   * in listing order, an eligible entry replaces the best so far only when
   * its modification time is strictly later. The result is the index of the
   * entry kept.
   */
  function Newest(entries: seq<DirEntry>, keep: Bytes -> bool): (r: Option<nat>)
    ensures r.None? <==> forall i | 0 <= i < |entries| :: !Eligible(entries[i], keep)
    ensures r.Some? ==> r.value < |entries| && Eligible(entries[r.value], keep)
    ensures r.Some? ==> forall i | 0 <= i < |entries| && Eligible(entries[i], keep) ::
      entries[i].modified.value <= entries[r.value].modified.value
    ensures r.Some? ==> forall i | 0 <= i < r.value && Eligible(entries[i], keep) ::
      entries[i].modified.value < entries[r.value].modified.value
  {
    if |entries| == 0 then None
    else
      var n := |entries| - 1;
      var best := Newest(entries[..n], keep);
      assert forall i | 0 <= i < n :: entries[..n][i] == entries[i];
      var e := entries[n];
      if !Eligible(e, keep) then best
      else if best.None? || e.modified.value > entries[best.value].modified.value then Some(n)
      else best
  }

  /** The entry selected is the only one that is newest and strictly newer than every eligible entry before it. */
  lemma NewestIsFirstLatest(entries: seq<DirEntry>, keep: Bytes -> bool, k: nat)
    requires k < |entries| && Eligible(entries[k], keep)
    requires forall i | 0 <= i < |entries| && Eligible(entries[i], keep) ::
      entries[i].modified.value <= entries[k].modified.value
    requires forall i | 0 <= i < k && Eligible(entries[i], keep) ::
      entries[i].modified.value < entries[k].modified.value
    ensures Newest(entries, keep) == Some(k)
  {
    var r := Newest(entries, keep).value;
    if r < k {
    } else if r > k {
    }
  }

  /** Of two eligible files with the same modification time, the one listed first is kept. */
  lemma NewestTieKeepsFirst(a: Bytes, b: Bytes, t: nat, keep: Bytes -> bool)
    requires keep(a) && keep(b)
    ensures Newest([DirEntry(a, Some(t)), DirEntry(b, Some(t))], keep) == Some(0)
  {
    var entries := [DirEntry(a, Some(t)), DirEntry(b, Some(t))];
    assert entries[..1] == [DirEntry(a, Some(t))];
    assert Newest(entries[..1], keep) == Some(0);
  }

  /** `newest_jsonl_in`: the newest `.jsonl` file of the directory; nothing when it cannot be listed or holds none. */
  function NewestJsonlIn(host: Host, dir: Bytes): (r: Option<Bytes>)
    ensures host.listDir(dir).Err? ==> r.None?
    ensures host.listDir(dir).Ok? ==>
      match Newest(host.listDir(dir).value, HasJsonlExtension)
      case None => r.None?
      case Some(i) => r == Some(Join(dir, host.listDir(dir).value[i].name))
  {
    match host.listDir(dir)
    case Err(_) => None
    case Ok(entries) =>
      match Newest(entries, HasJsonlExtension)
      case None => None
      case Some(i) => Some(Join(dir, entries[i].name))
  }

  /** The path `/tmp`, in bytes. */
  const TMP: Bytes := [0x2F, 0x74, 0x6D, 0x70]
  const NO_CODEX_LOG: string := "no webmux-codex-*.jsonl files found in /tmp"

  /**
   * `find_codex_log`: the newest `/tmp/webmux-codex-*.jsonl`. A listing
   * failure is passed on as it is; no candidate is an error of its own.
   */
  function FindCodexLog(host: Host): (r: Result<Bytes>)
    ensures host.listDir(TMP).Err? ==> r == Err(host.listDir(TMP).error)
    ensures host.listDir(TMP).Ok? ==>
      match Newest(host.listDir(TMP).value, IsCodexLogName)
      case None => r == Err(NO_CODEX_LOG)
      case Some(i) => r == Ok(Join(TMP, host.listDir(TMP).value[i].name))
  {
    match host.listDir(TMP)
    case Err(e) => Err(e)
    case Ok(entries) =>
      match Newest(entries, IsCodexLogName)
      case None => Err(NO_CODEX_LOG)
      case Some(i) => Ok(Join(TMP, entries[i].name))
  }

  const NO_HOME: string := "cannot determine home directory"
  const CWD_NOT_UTF8: string := "CWD is not valid UTF-8"
  const NO_PROJECTS_DIR: string := "Claude projects directory does not exist: "
  const NO_JSONL: string := "no .jsonl files in "

  /**
   * `find_claude_log`: the newest `.jsonl` file in Claude Code's projects
   * directory for the working directory `cwd`, or the first of the four
   * reasons there is none.
   */
  function FindClaudeLog(host: Host, cwd: Bytes): (r: Result<Bytes>)
    ensures host.home.None? ==> r == Err(NO_HOME)
    ensures host.home.Some? && ToStr(cwd).None? ==> r == Err(CWD_NOT_UTF8)
    ensures host.home.Some? && ToStr(cwd).Some? ==>
      var dir := ProjectsDir(host.home.value, ToStr(cwd).value);
      && (!host.isDir(dir) ==> r == Err(NO_PROJECTS_DIR + Lossy(dir)))
      && (host.isDir(dir) ==> r.Ok? == NewestJsonlIn(host, dir).Some?)
      && (host.isDir(dir) && r.Err? ==> r == Err(NO_JSONL + Lossy(dir)))
      && (r.Ok? ==> r == Ok(NewestJsonlIn(host, dir).value))
  {
    match host.home
    case None => Err(NO_HOME)
    case Some(home) =>
      match ToStr(cwd)
      case None => Err(CWD_NOT_UTF8)
      case Some(path) =>
        var dir := ProjectsDir(home, path);
        if !host.isDir(dir) then Err(NO_PROJECTS_DIR + Lossy(dir))
        else
          match NewestJsonlIn(host, dir)
          case None => Err(NO_JSONL + Lossy(dir))
          case Some(log) => Ok(log)
  }

  /** The log found and the tool that writes it. */
  datatype Detection = Detection(path: Bytes, tool: AiTool)

  /** `get_process_cwd`: where the process's `cwd` link points. */
  function ProcessCwd(host: Host, pid: nat): (r: Result<Bytes>)
    ensures r.Ok? <==> pid in host.cwd
    ensures r.Ok? ==> r.value == host.cwd[pid]
    ensures r.Err? ==> r.error == "failed to read /proc/" + NatToString(pid) + "/cwd"
  {
    if pid in host.cwd then Ok(host.cwd[pid]) else Err("failed to read /proc/" + NatToString(pid) + "/cwd")
  }

  /** Locating the log of `tool`, found running as `pid`. */
  function Lookup(host: Host, pid: nat, tool: AiTool): (r: Result<Detection>)
    ensures r.Ok? ==> r.value.tool == tool
    ensures tool == Codex ==> r.Ok? == FindCodexLog(host).Ok?
    ensures tool == Codex && r.Ok? ==> r.value.path == FindCodexLog(host).value
    ensures tool == Codex && r.Err? ==> r.error == FindCodexLog(host).error
    ensures tool == Claude && ProcessCwd(host, pid).Ok? ==> r.Ok? == FindClaudeLog(host, host.cwd[pid]).Ok?
    ensures tool == Claude && ProcessCwd(host, pid).Ok? && r.Ok? ==> r.value.path == FindClaudeLog(host, host.cwd[pid]).value
    ensures tool == Claude && ProcessCwd(host, pid).Ok? && r.Err? ==> r.error == FindClaudeLog(host, host.cwd[pid]).error
    ensures tool == Claude && ProcessCwd(host, pid).Err? ==> r == Err(ProcessCwd(host, pid).error)
  {
    match tool
    case Claude => (
      match ProcessCwd(host, pid)
      case Err(e) => Err(e)
      case Ok(cwd) =>
        match FindClaudeLog(host, cwd)
        case Err(e) => Err(e)
        case Ok(log) => Ok(Detection(log, Claude)))
    case Codex =>
      match FindCodexLog(host)
      case Err(e) => Err(e)
      case Ok(log) => Ok(Detection(log, Codex))
  }

  /**
   * The loop of `detect_log_file` over the descendants: the outcome of
   * looking up the first tool found, or nothing when no pid is a tool.
   */
  function Scan(host: Host, pids: seq<nat>): (r: Option<Result<Detection>>)
    ensures r.None? <==> forall i | 0 <= i < |pids| :: ToolOf(host, pids[i]).None?
  {
    if |pids| == 0 then None
    else
      match ToolOf(host, pids[0])
      case Some(tool) => Some(Lookup(host, pids[0], tool))
      case None =>
        var r := Scan(host, pids[1..]);
        assert forall i | 1 <= i < |pids| :: pids[1..][i - 1] == pids[i];
        r
  }

  /** A log found by the scan was found for a pid running the tool it names. */
  lemma {:induction false} ScanFindsTool(host: Host, pids: seq<nat>)
    requires Scan(host, pids).Some? && Scan(host, pids).value.Ok?
    ensures exists i | 0 <= i < |pids| :: ToolOf(host, pids[i]) == Some(Scan(host, pids).value.value.tool)
  {
    if ToolOf(host, pids[0]).None? {
      ScanFindsTool(host, pids[1..]);
      var i :| 0 <= i < |pids[1..]| && ToolOf(host, pids[1..][i]) == Some(Scan(host, pids).value.value.tool);
      assert pids[1..][i] == pids[i + 1];
    } else {
      assert ToolOf(host, pids[0]) == Some(Scan(host, pids).value.value.tool);
    }
  }

  /**
   * The first pid that is a tool decides: its lookup is the outcome, and a
   * failed lookup is not retried with later pids.
   */
  lemma {:induction false} ScanFirstMatch(host: Host, pids: seq<nat>, k: nat)
    requires k < |pids| && ToolOf(host, pids[k]).Some?
    requires forall i | 0 <= i < k :: ToolOf(host, pids[i]).None?
    ensures Scan(host, pids) == Some(Lookup(host, pids[k], ToolOf(host, pids[k]).value))
  {
    if k > 0 {
      var tail := pids[1..];
      assert ToolOf(host, pids[0]).None?;
      assert Scan(host, pids) == Scan(host, tail);
      assert tail[k - 1] == pids[k];
      forall i | 0 <= i < k - 1
        ensures ToolOf(host, tail[i]).None?
      {
        assert tail[i] == pids[i + 1];
      }
      ScanFirstMatch(host, tail, k - 1);
    }
  }

  const NO_TOOL: string := "no AI tool (claude/codex) found among descendants of pane PID "

  /**
   * `detect_log_file` for window `window` of session `session`: the pane's
   * pid from tmux, its descendants in walk order, and the first of them
   * that is a tool.
   */
  function DetectLogFile(host: Host, tmux: string -> Result<TmuxOutput>, ghost rank: nat -> nat, session: string, window: nat): (r: Result<Detection>)
    requires TableSound(host.procs) && Ranked(host.procs, rank)
    ensures PanePid(tmux(Target(session, window))).Err? ==> r == Err(PanePid(tmux(Target(session, window))).error)
    ensures PanePid(tmux(Target(session, window))).Ok? ==>
      var pane := PanePid(tmux(Target(session, window))).value;
      && (ToolOf(host, pane).Some? ==> r == Lookup(host, pane, ToolOf(host, pane).value))
  {
    match PanePid(tmux(Target(session, window)))
    case Err(e) => Err(e)
    case Ok(pane) =>
      var pids := DescendantPids(host.procs, rank, pane);
      match Scan(host, pids)
      case None => Err(NO_TOOL + NatToString(pane))
      case Some(outcome) =>
        assert ToolOf(host, pane).Some? ==> outcome == Lookup(host, pane, ToolOf(host, pane).value) by {
          if ToolOf(host, pane).Some? {
            ScanFirstMatch(host, pids, 0);
          }
        }
        outcome
  }

  /** Every pid the walk lists is in the pane's subtree. */
  lemma WalkInSubtree(procs: seq<ProcEntry>, rank: nat -> nat, pane: nat, i: nat)
    requires TableSound(procs) && Ranked(procs, rank)
    requires i < |DescendantPids(procs, rank, pane)|
    ensures DescendantPids(procs, rank, pane)[i] in Subtree(procs, rank, pane)
  {
    var pids := DescendantPids(procs, rank, pane);
    DescendantPidsCorrect(procs, rank, pane);
    assert pids[i] in multiset(pids);
  }

  /** A detected log belongs to a process of the pane's subtree running that tool. */
  lemma DetectFindsToolInSubtree(host: Host, tmux: string -> Result<TmuxOutput>, rank: nat -> nat, session: string, window: nat)
    requires TableSound(host.procs) && Ranked(host.procs, rank)
    requires DetectLogFile(host, tmux, rank, session, window).Ok?
    ensures PanePid(tmux(Target(session, window))).Ok?
    ensures var pane := PanePid(tmux(Target(session, window))).value;
      exists p | p in Subtree(host.procs, rank, pane) ::
        ToolOf(host, p) == Some(DetectLogFile(host, tmux, rank, session, window).value.tool)
  {
    var pane := PanePid(tmux(Target(session, window))).value;
    var pids := DescendantPids(host.procs, rank, pane);
    var d := DetectLogFile(host, tmux, rank, session, window).value;
    assert Scan(host, pids) == Some(Ok(d));
    ScanFindsTool(host, pids);
    var i :| 0 <= i < |pids| && ToolOf(host, pids[i]) == Some(d.tool);
    WalkInSubtree(host.procs, rank, pane, i);
  }

  /** With no tool anywhere in the pane's subtree, detection fails naming the pane's pid. */
  lemma DetectWithoutTool(host: Host, tmux: string -> Result<TmuxOutput>, rank: nat -> nat, session: string, window: nat, pane: nat)
    requires TableSound(host.procs) && Ranked(host.procs, rank)
    requires PanePid(tmux(Target(session, window))) == Ok(pane)
    requires forall p | p in Subtree(host.procs, rank, pane) :: ToolOf(host, p).None?
    ensures DetectLogFile(host, tmux, rank, session, window) == Err(NO_TOOL + NatToString(pane))
  {
    var pids := DescendantPids(host.procs, rank, pane);
    forall i | 0 <= i < |pids|
      ensures ToolOf(host, pids[i]).None?
    {
      WalkInSubtree(host.procs, rank, pane, i);
    }
  }
}
