/**
 * The process tree as the log detector sees it through procfs: a snapshot
 * of `/proc` as a sequence of directory entries, each with the text of its
 * `stat` file when that file could be read. A process's parent is read from
 * the `stat` text; the descendants of the tmux pane's shell are collected
 * with a last-in-first-out worklist.
 */
module ProcessTree {
  import opened Wrappers
  import opened Text
  import opened ProcStat

  /** One entry of the `/proc` listing: its file name and, if readable, its `stat` text. */
  datatype ProcEntry = ProcEntry(name: string, stat: Option<string>)

  /** A process and the parent its `stat` names. */
  datatype Link = Link(pid: nat, parent: nat)

  /** Reading this entry cannot panic: a numeric entry's `stat`, if read, is sliceable. */
  predicate EntrySound(e: ProcEntry) {
    ParseU32(e.name).Some? && e.stat.Some? ==> Sliceable(e.stat.value)
  }

  /** A procfs snapshot none of whose entries makes the scan panic. */
  predicate TableSound(table: seq<ProcEntry>) {
    forall i | 0 <= i < |table| :: EntrySound(table[i])
  }

  /**
   * What one entry tells the scan: its pid and its parent's pid, or nothing
   * when the name is not a u32, the `stat` is unreadable, lacks a ')' or
   * has no parseable parent field.
   */
  function EntryLink(e: ProcEntry): (r: Option<Link>)
    requires EntrySound(e)
    ensures r.Some? <==> ParseU32(e.name).Some? && e.stat.Some? && ParentOf(e.stat.value).Some?
    ensures r.Some? ==> r.value.pid == ParseU32(e.name).value && r.value.parent == ParentOf(e.stat.value).value
  {
    match ParseU32(e.name)
    case None => None
    case Some(pid) =>
      match e.stat
      case None => None
      case Some(stat) =>
        match ParentOf(stat)
        case None => None
        case Some(parent) => Some(Link(pid, parent))
  }

  /** `direct_children`: the pids whose `stat` names `ppid` as parent, in listing order. */
  function DirectChildren(table: seq<ProcEntry>, ppid: nat): (r: seq<nat>)
    requires TableSound(table)
    ensures |r| <= |table|
  {
    if |table| == 0 then []
    else
      var rest := DirectChildren(table[1..], ppid);
      match EntryLink(table[0])
      case Some(link) => if link.parent == ppid then [link.pid] + rest else rest
      case None => rest
  }

  /** The entry at `i` names `c` as a process whose parent is `ppid`. */
  predicate LinksAt(table: seq<ProcEntry>, i: nat, c: nat, ppid: nat)
    requires TableSound(table) && i < |table|
  {
    EntryLink(table[i]) == Some(Link(c, ppid))
  }

  /** Every child found is named by some entry whose `stat` names `ppid` as parent. */
  lemma {:induction false} DirectChildrenSound(table: seq<ProcEntry>, ppid: nat)
    requires TableSound(table)
    ensures forall c | c in DirectChildren(table, ppid) :: exists i | 0 <= i < |table| :: LinksAt(table, i, c, ppid)
  {
    if |table| > 0 {
      var rest := DirectChildren(table[1..], ppid);
      DirectChildrenSound(table[1..], ppid);
      forall c | c in DirectChildren(table, ppid)
        ensures exists i | 0 <= i < |table| :: LinksAt(table, i, c, ppid)
      {
        if LinksAt(table, 0, c, ppid) {
        } else {
          assert c in rest;
          var i :| 0 <= i < |table[1..]| && LinksAt(table[1..], i, c, ppid);
          assert table[1..][i] == table[i + 1];
          assert LinksAt(table, i + 1, c, ppid);
        }
      }
    }
  }

  /** Every entry whose `stat` names `ppid` as parent contributes its pid to the children found. */
  lemma {:induction false} DirectChildrenComplete(table: seq<ProcEntry>, ppid: nat)
    requires TableSound(table)
    ensures forall i, c | 0 <= i < |table| && LinksAt(table, i, c, ppid) :: c in DirectChildren(table, ppid)
  {
    if |table| > 0 {
      var rest := DirectChildren(table[1..], ppid);
      DirectChildrenComplete(table[1..], ppid);
      forall i, c | 0 <= i < |table| && LinksAt(table, i, c, ppid)
        ensures c in DirectChildren(table, ppid)
      {
        if i == 0 {
          assert DirectChildren(table, ppid) == [c] + rest;
        } else {
          assert table[1..][i - 1] == table[i];
          assert LinksAt(table[1..], i - 1, c, ppid);
          assert c in rest;
        }
      }
    }
  }

  /**
   * The snapshot is a forest: some rank strictly decreases from every
   * parent to each of its children. The walk has no guard against cycles,
   * so it terminates only on such a table.
   */
  ghost predicate Ranked(table: seq<ProcEntry>, rank: nat -> nat)
    requires TableSound(table)
  {
    forall i | 0 <= i < |table| :: EntryLink(table[i]).Some? ==>
      rank(EntryLink(table[i]).value.pid) < rank(EntryLink(table[i]).value.parent)
  }

  lemma ChildrenRankLower(table: seq<ProcEntry>, rank: nat -> nat, p: nat)
    requires TableSound(table) && Ranked(table, rank)
    ensures forall c | c in DirectChildren(table, p) :: rank(c) < rank(p)
  {
    DirectChildrenSound(table, p);
    forall c | c in DirectChildren(table, p)
      ensures rank(c) < rank(p)
    {
      var i :| 0 <= i < |table| && LinksAt(table, i, c, p);
    }
  }

  /** `p` followed by all its descendants, each subtree in turn. */
  ghost function Subtree(table: seq<ProcEntry>, rank: nat -> nat, p: nat): seq<nat>
    requires TableSound(table) && Ranked(table, rank)
    decreases rank(p), 1, 0
  {
    ChildrenRankLower(table, rank, p);
    [p] + Forest(table, rank, DirectChildren(table, p), rank(p))
  }

  /** The subtrees of `cs`, one after another. */
  ghost function Forest(table: seq<ProcEntry>, rank: nat -> nat, cs: seq<nat>, bound: nat): seq<nat>
    requires TableSound(table) && Ranked(table, rank)
    requires forall c | c in cs :: rank(c) < bound
    decreases bound, 0, |cs|
  {
    if |cs| == 0 then [] else Subtree(table, rank, cs[0]) + Forest(table, rank, cs[1..], bound)
  }

  /** The proper descendants of `p`. */
  ghost function Below(table: seq<ProcEntry>, rank: nat -> nat, p: nat): seq<nat>
    requires TableSound(table) && Ranked(table, rank)
  {
    ChildrenRankLower(table, rank, p);
    Forest(table, rank, DirectChildren(table, p), rank(p))
  }

  /** The descendants still to be listed for a worklist: everything below each of its pids. */
  ghost function Pending(table: seq<ProcEntry>, rank: nat -> nat, stack: seq<nat>): seq<nat>
    requires TableSound(table) && Ranked(table, rank)
  {
    if |stack| == 0 then [] else Below(table, rank, stack[0]) + Pending(table, rank, stack[1..])
  }

  lemma {:induction false} PendingAppend(table: seq<ProcEntry>, rank: nat -> nat, a: seq<nat>, b: seq<nat>)
    requires TableSound(table) && Ranked(table, rank)
    ensures Pending(table, rank, a + b) == Pending(table, rank, a) + Pending(table, rank, b)
  {
    if |a| == 0 {
      assert a + b == b;
    } else {
      assert (a + b)[0] == a[0];
      assert (a + b)[1..] == a[1..] + b;
      PendingAppend(table, rank, a[1..], b);
    }
  }

  /** A forest is its roots together with everything below them. */
  lemma {:induction false} ForestSplit(table: seq<ProcEntry>, rank: nat -> nat, cs: seq<nat>, bound: nat)
    requires TableSound(table) && Ranked(table, rank)
    requires forall c | c in cs :: rank(c) < bound
    ensures multiset(Forest(table, rank, cs, bound)) == multiset(cs) + multiset(Pending(table, rank, cs))
    ensures |Forest(table, rank, cs, bound)| == |cs| + |Pending(table, rank, cs)|
  {
    if |cs| > 0 {
      ForestSplit(table, rank, cs[1..], bound);
      assert cs == [cs[0]] + cs[1..];
    }
  }

  /** The pending descendants of a worklist are those of all but its top, then those below its top. */
  lemma PendingPop(table: seq<ProcEntry>, rank: nat -> nat, stack: seq<nat>)
    requires TableSound(table) && Ranked(table, rank)
    requires |stack| > 0
    ensures Pending(table, rank, stack)
      == Pending(table, rank, stack[..|stack| - 1]) + Below(table, rank, stack[|stack| - 1])
  {
    var p := stack[|stack| - 1];
    var prefix := stack[..|stack| - 1];
    assert stack == prefix + [p];
    PendingAppend(table, rank, prefix, [p]);
    assert [p][1..] == [];
  }

  /** Below `p` are its children and everything pending below them. */
  lemma BelowSplit(table: seq<ProcEntry>, rank: nat -> nat, p: nat)
    requires TableSound(table) && Ranked(table, rank)
    ensures var cs := DirectChildren(table, p);
      && multiset(Below(table, rank, p)) == multiset(cs) + multiset(Pending(table, rank, cs))
      && |Below(table, rank, p)| == |cs| + |Pending(table, rank, cs)|
  {
    ChildrenRankLower(table, rank, p);
    ForestSplit(table, rank, DirectChildren(table, p), rank(p));
  }

  /** Popping `p` and pushing its children moves exactly those children out of the pending set. */
  lemma PopStep(table: seq<ProcEntry>, rank: nat -> nat, stack: seq<nat>)
    requires TableSound(table) && Ranked(table, rank)
    requires |stack| > 0
    ensures var p := stack[|stack| - 1];
      var cs := DirectChildren(table, p);
      var next := stack[..|stack| - 1] + cs;
      && multiset(Pending(table, rank, stack)) == multiset(cs) + multiset(Pending(table, rank, next))
      && |Pending(table, rank, next)| + |next| < |Pending(table, rank, stack)| + |stack|
  {
    var p := stack[|stack| - 1];
    var prefix := stack[..|stack| - 1];
    var cs := DirectChildren(table, p);
    var next := prefix + cs;
    PendingPop(table, rank, stack);
    PendingAppend(table, rank, prefix, cs);
    BelowSplit(table, rank, p);
    PopCount(Pending(table, rank, stack), Pending(table, rank, prefix), Below(table, rank, p),
      Pending(table, rank, next), Pending(table, rank, cs), cs, |stack|, |next|);
  }

  /** The counting behind `PopStep`, apart from what the sequences stand for. */
  lemma PopCount(ps: seq<nat>, pprefix: seq<nat>, below: seq<nat>, pn: seq<nat>, pcs: seq<nat>, cs: seq<nat>, nstack: nat, nnext: nat)
    requires ps == pprefix + below && pn == pprefix + pcs
    requires multiset(below) == multiset(cs) + multiset(pcs) && |below| == |cs| + |pcs|
    requires nnext + 1 == nstack + |cs|
    ensures multiset(ps) == multiset(cs) + multiset(pn)
    ensures |pn| + nnext < |ps| + nstack
  {
  }

  /**
   * The loop of `get_descendant_pids`: pop the most recently pushed pid,
   * then append each of its children to the result and push it.
   */
  function Walk(table: seq<ProcEntry>, ghost rank: nat -> nat, result: seq<nat>, stack: seq<nat>): (r: seq<nat>)
    requires TableSound(table) && Ranked(table, rank)
    ensures result <= r
    decreases |Pending(table, rank, stack)| + |stack|
  {
    if |stack| == 0 then result
    else
      PopStep(table, rank, stack);
      var p := stack[|stack| - 1];
      var cs := DirectChildren(table, p);
      Walk(table, rank, result + cs, stack[..|stack| - 1] + cs)
  }

  /** `get_descendant_pids`: the pane's pid followed by every pid below it. */
  function DescendantPids(table: seq<ProcEntry>, ghost rank: nat -> nat, root: nat): (r: seq<nat>)
    requires TableSound(table) && Ranked(table, rank)
    ensures |r| > 0 && r[0] == root
  {
    Walk(table, rank, [root], [root])
  }

  /** Every pid after the first has its parent somewhere before it. */
  ghost predicate ParentsFirst(table: seq<ProcEntry>, r: seq<nat>)
    requires TableSound(table)
  {
    forall k | 0 < k < |r| :: ParentBefore(table, r, k)
  }

  /** The pid at position `k` is a child of some pid listed before it. */
  ghost predicate ParentBefore(table: seq<ProcEntry>, r: seq<nat>, k: nat)
    requires TableSound(table) && k < |r|
  {
    exists j | 0 <= j < k :: r[k] in DirectChildren(table, r[j])
  }

  lemma {:induction false} WalkCollects(table: seq<ProcEntry>, rank: nat -> nat, result: seq<nat>, stack: seq<nat>)
    requires TableSound(table) && Ranked(table, rank)
    ensures multiset(Walk(table, rank, result, stack)) == multiset(result) + multiset(Pending(table, rank, stack))
    decreases |Pending(table, rank, stack)| + |stack|
  {
    if |stack| > 0 {
      PopStep(table, rank, stack);
      var p := stack[|stack| - 1];
      var cs := DirectChildren(table, p);
      WalkCollects(table, rank, result + cs, stack[..|stack| - 1] + cs);
    }
  }

  lemma AppendChildren(table: seq<ProcEntry>, result: seq<nat>, p: nat)
    requires TableSound(table)
    requires ParentsFirst(table, result) && p in result
    ensures ParentsFirst(table, result + DirectChildren(table, p))
  {
    var cs := DirectChildren(table, p);
    var r := result + cs;
    var j :| 0 <= j < |result| && result[j] == p;
    forall k | 0 < k < |r|
      ensures ParentBefore(table, r, k)
    {
      if k < |result| {
        assert ParentBefore(table, result, k);
        var i :| 0 <= i < k && result[k] in DirectChildren(table, result[i]);
        assert r[i] == result[i] && r[k] == result[k];
        assert r[k] in DirectChildren(table, r[i]);
      } else {
        assert r[k] == cs[k - |result|];
        assert r[j] == p;
        assert r[k] in DirectChildren(table, r[j]);
      }
    }
  }

  lemma {:induction false} WalkParentsFirst(table: seq<ProcEntry>, rank: nat -> nat, result: seq<nat>, stack: seq<nat>)
    requires TableSound(table) && Ranked(table, rank)
    requires ParentsFirst(table, result)
    requires forall s | s in stack :: s in result
    ensures ParentsFirst(table, Walk(table, rank, result, stack))
    decreases |Pending(table, rank, stack)| + |stack|
  {
    if |stack| > 0 {
      PopStep(table, rank, stack);
      var p := stack[|stack| - 1];
      var cs := DirectChildren(table, p);
      AppendChildren(table, result, p);
      var next := stack[..|stack| - 1] + cs;
      assert forall s | s in next :: s in result + cs;
      WalkParentsFirst(table, rank, result + cs, next);
    }
  }

  /**
   * The walk lists the pane's pid first, every other pid after its parent,
   * and exactly the pids of the pane's subtree, each as often as the
   * snapshot lists it.
   */
  lemma DescendantPidsCorrect(table: seq<ProcEntry>, rank: nat -> nat, root: nat)
    requires TableSound(table) && Ranked(table, rank)
    ensures DescendantPids(table, rank, root)[0] == root
    ensures ParentsFirst(table, DescendantPids(table, rank, root))
    ensures multiset(DescendantPids(table, rank, root)) == multiset(Subtree(table, rank, root))
  {
    WalkCollects(table, rank, [root], [root]);
    assert Pending(table, rank, [root]) == Below(table, rank, root) by {
      assert [root][1..] == [];
    }
    WalkParentsFirst(table, rank, [root], [root]);
  }
}
