/**
 * Reading a process's parent out of the text of `/proc/<pid>/stat`. The
 * command name sits between the first '(' and the last ')' and may itself
 * hold spaces and parentheses, so the fields are counted from the last ')'.
 */
module ProcStat {
  import opened Wrappers
  import opened Text

  /**
   * The `stat` text can be sliced two bytes past its last ')': some
   * character follows the ')' and that character is a single byte. The
   * slice `stat[after_comm + 2..]` panics otherwise; the kernel always
   * writes a space there.
   */
  predicate Sliceable(stat: string) {
    match LastIndexOf(stat, ')')
    case None => true
    case Some(j) => j + 1 < |stat| && stat[j + 1] < '\U{80}'
  }

  /**
   * The parent pid in a `stat` text: the second whitespace-separated field
   * after the last ')' (the first one is the process state), read as a u32.
   */
  function ParentOf(stat: string): (r: Option<nat>)
    requires Sliceable(stat)
    ensures NoParen(stat) ==> r.None?
    ensures r.Some? ==> r.value < U32_LIMIT
  {
    match FieldsAfterComm(stat)
    case None => None
    case Some(fields) => if |fields| < 2 then None else ParseU32(fields[1])
  }

  /** The whitespace-separated fields after the last ')' and the byte that follows it. */
  function FieldsAfterComm(stat: string): (r: Option<seq<string>>)
    requires Sliceable(stat)
    ensures r.None? <==> NoParen(stat)
  {
    match LastIndexOf(stat, ')')
    case None => None
    case Some(j) => Some(SplitWhitespace(stat[j + 2..]))
  }

  /** The text holds no ')'. */
  predicate NoParen(s: string) {
    forall i | 0 <= i < |s| :: s[i] != ')'
  }

  /** A ')' followed by no other is the last one. */
  lemma LastParen(s: string, k: nat)
    requires k < |s| && s[k] == ')' && NoParen(s[k + 1..])
    ensures LastIndexOf(s, ')') == Some(k)
  {
    forall i | k < i < |s|
      ensures s[i] != ')'
    {
      assert s[i] == s[k + 1..][i - k - 1];
    }
    LastIndexOfIs(s, ')', k);
  }

  /** A space after the last ')' makes the text sliceable. */
  lemma SpaceAfterParen(s: string, j: nat)
    requires LastIndexOf(s, ')') == Some(j) && j + 1 < |s| && s[j + 1] == ' '
    ensures Sliceable(s)
  {
  }

  /** `ParentOf` reads the second field after the last ')'. */
  lemma ParentAfterParen(s: string, j: nat, fields: string)
    requires LastIndexOf(s, ')') == Some(j) && j + 1 < |s| && Sliceable(s) && s[j + 2..] == fields
    requires |SplitWhitespace(fields)| >= 2
    ensures ParentOf(s) == ParseU32(SplitWhitespace(fields)[1])
  {
    FieldsAt(s, j, fields);
    ParentFromFields(s, SplitWhitespace(fields));
  }

  lemma FieldsAt(s: string, j: nat, fields: string)
    requires LastIndexOf(s, ')') == Some(j) && j + 1 < |s| && Sliceable(s) && s[j + 2..] == fields
    ensures FieldsAfterComm(s) == Some(SplitWhitespace(fields))
  {
  }

  lemma ParentFromFields(s: string, f: seq<string>)
    requires Sliceable(s) && FieldsAfterComm(s) == Some(f) && |f| >= 2
    ensures ParentOf(s) == ParseU32(f[1])
  {
  }
}

/**
 * The layout the kernel gives a `stat` text, and the proof that the parent
 * read from it is the one written, whatever the command name holds.
 */
module StatLayout {
  import opened Wrappers
  import opened Text
  import opened ProcStat

  /** A `stat` text as the kernel lays it out: pid, (comm), state, ppid, then further fields. */
  function StatText(pid: nat, comm: string, state: string, ppid: nat, rest: string): string {
    var head := NatToString(pid) + " (" + comm;
    var fields := state + " " + (NatToString(ppid) + " " + rest);
    head + ")" + (" " + fields)
  }

  lemma DigitsHaveNoParen(s: string)
    requires |s| > 0 && AllDigits(s)
    ensures NoParen(s) && IsWord(s)
  {
    assert forall i | 0 <= i < |s| :: s[i] != ')' && !IsWhitespace(s[i]);
  }

  lemma NoParenAppend(a: string, b: string)
    requires NoParen(a) && NoParen(b)
    ensures NoParen(a + b)
  {
    forall i | 0 <= i < |a + b|
      ensures (a + b)[i] != ')'
    {
      if i >= |a| {
        assert (a + b)[i] == b[i - |a|];
      }
    }
  }

  /** `split_whitespace` skips leading whitespace. */
  lemma SplitAfterSpace(t: string)
    ensures SplitWhitespace(" " + t) == SplitWhitespace(t)
  {
    assert (" " + t)[1..] == t;
    assert TrimStart(" " + t) == TrimStart(t);
  }

  /** A word followed by a space starts the text and is its first run of non-whitespace. */
  lemma WordThenSpace(w: string, t: string)
    requires IsWord(w)
    ensures TrimStart(w + " " + t) == w + " " + t
    ensures WordLen(w + " " + t) == |w|
  {
    var s := w + " " + t;
    assert forall i | 0 <= i < |w| :: s[i] == w[i];
    assert s[|w|] == ' ' && IsWhitespace(' ');
  }

  /** A word followed by a space is the first field. */
  lemma SplitLeadingWord(w: string, t: string)
    requires IsWord(w)
    ensures SplitWhitespace(w + " " + t) == [w] + SplitWhitespace(t)
  {
    var s := w + " " + t;
    WordThenSpace(w, t);
    assert s[..|w|] == w && s[|w|..] == " " + t;
    SplitAfterSpace(t);
  }

  /** Where the fields start once the comm's closing ") " is found. */
  lemma FieldsAfterParen(s: string, head: string, fields: string)
    requires NoParen(fields) && s == head + ")" + (" " + fields)
    ensures LastIndexOf(s, ')') == Some(|head|)
    ensures s[|head| + 1] == ' ' && s[|head| + 2..] == fields
  {
    assert NoParen(" ");
    NoParenAppend(" ", fields);
    assert s[|head| + 1..] == " " + fields;
    LastParen(s, |head|);
  }

  /** The second field of `state ppid rest` is the ppid. */
  lemma SecondField(state: string, digits: string, rest: string)
    requires IsWord(state) && IsWord(digits)
    ensures |SplitWhitespace(state + " " + (digits + " " + rest))| >= 2
    ensures SplitWhitespace(state + " " + (digits + " " + rest))[1] == digits
  {
    var inner := digits + " " + rest;
    var x := SplitWhitespace(inner);
    assert |x| > 0 && x[0] == digits by {
      SplitLeadingWord(digits, rest);
    }
    assert SplitWhitespace(state + " " + inner) == [state] + x by {
      SplitLeadingWord(state, inner);
    }
  }

  /** The fields after the comm's ")" and a space are the state, the digits of the ppid, then the rest. */
  lemma ParentOfLayout(s: string, head: string, state: string, digits: string, rest: string)
    requires IsWord(state) && NoParen(state) && NoParen(rest)
    requires |digits| > 0 && AllDigits(digits)
    requires s == head + ")" + (" " + (state + " " + (digits + " " + rest)))
    ensures Sliceable(s) && ParentOf(s) == ParseU32(digits)
  {
    DigitsHaveNoParen(digits);
    var fields := state + " " + (digits + " " + rest);
    assert NoParen(fields) by {
      assert NoParen(" ");
      NoParenAppend(digits, " ");
      NoParenAppend(digits + " ", rest);
      NoParenAppend(state, " ");
      NoParenAppend(state + " ", digits + " " + rest);
    }
    assert LastIndexOf(s, ')') == Some(|head|) && s[|head| + 1] == ' ' && s[|head| + 2..] == fields by {
      FieldsAfterParen(s, head, fields);
    }
    assert Sliceable(s) by {
      SpaceAfterParen(s, |head|);
    }
    var words := SplitWhitespace(fields);
    assert |words| >= 2 && words[1] == digits by {
      SecondField(state, digits, rest);
    }
    ParentAfterParen(s, |head|, fields);
  }

  /**
   * The parent pid is recovered from any kernel-formatted `stat` text,
   * whatever spaces and parentheses the command name holds.
   */
  lemma ParentOfStatText(pid: nat, comm: string, state: string, ppid: nat, rest: string)
    requires IsWord(state) && NoParen(state) && NoParen(rest)
    requires ppid < U32_LIMIT
    ensures Sliceable(StatText(pid, comm, state, ppid, rest))
    ensures ParentOf(StatText(pid, comm, state, ppid, rest)) == Some(ppid)
  {
    var digits := NatToString(ppid);
    var head := NatToString(pid) + " (" + comm;
    var s := StatText(pid, comm, state, ppid, rest);
    assert s == head + ")" + (" " + (state + " " + (digits + " " + rest)));
    ParentOfLayout(s, head, state, digits, rest);
    ParseU32OfNatToString(ppid);
  }
}
