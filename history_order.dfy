/**
 * What reading the history without an index adds up to. In a well-formed
 * history tree (no empty bucket, no bucket mixing sub-buckets and entries,
 * unique names), the newest entry followed by repeated steps to the previous
 * entry lists every entry exactly once, in reverse store order, and then
 * none; paging is therefore a slice of that list.
 */
module HistoryOrder {
  import opened Wrappers
  import opened ResourceStore
  import opened HistoryLayout
  import opened Paging
  import opened HistoryTraversal

  /** The children that count for traversal: those with a non-reserved name. */
  predicate Logical(c: Node) {
    !IsReserved(c.name)
  }

  /** The node has at least one child with a non-reserved name. */
  predicate HasLogicalChild(n: Node) {
    LastLogicalBefore(n.children, |n.children|).Some?
  }

  /** Every logical child is an ordered folder (`folders`), or none is (`!folders`). */
  predicate AllLogical(cs: seq<Node>, folders: bool) {
    forall i :: 0 <= i < |cs| && Logical(cs[i]) ==> IsOrderedFolder(cs[i]) == folders
  }

  /**
   * A bucket the traversal handles: unique child names; its logical children
   * are either all ordered folders (sub-buckets) or all entries; and each
   * sub-bucket is non-empty and well formed itself.
   */
  predicate WellFormedBucket(n: Node)
    decreases n
  {
    var cs := n.children;
    UniqueNames(cs)
    && (AllLogical(cs, true) || AllLogical(cs, false))
    && (forall i :: 0 <= i < |cs| && Logical(cs[i]) && IsOrderedFolder(cs[i]) ==>
          HasLogicalChild(cs[i]) && WellFormedBucket(cs[i]))
  }

  /**
   * The entries below the first `k` children of bucket `n` at path `p`, in
   * reverse store order: the later child's entries first, a sub-bucket's
   * entries in its own reverse order, reserved names skipped.
   */
  function LeavesBefore(n: Node, p: Path, k: nat): (r: seq<Path>)
    requires k <= |n.children|
    decreases n, k
  {
    if k == 0 then []
    else
      var c := n.children[k - 1];
      var rest := LeavesBefore(n, p, k - 1);
      if !Logical(c) then rest
      else if IsOrderedFolder(c) then LeavesBefore(c, p + [c.name], |c.children|) + rest
      else [p + [c.name]] + rest
  }

  /** All entries below bucket `n` at path `p`, newest (last in store order) first. */
  function Leaves(n: Node, p: Path): seq<Path> {
    LeavesBefore(n, p, |n.children|)
  }

  /** Every entry listed lies strictly below the bucket. */
  lemma {:induction false} LeavesBelow(n: Node, p: Path, k: nat)
    requires k <= |n.children|
    ensures forall i :: 0 <= i < |LeavesBefore(n, p, k)| ==> p < LeavesBefore(n, p, k)[i]
    decreases n, k
  {
    if k > 0 {
      var c := n.children[k - 1];
      LeavesBelow(n, p, k - 1);
      if Logical(c) && IsOrderedFolder(c) {
        var q := p + [c.name];
        LeavesBelow(c, q, |c.children|);
        var b := LeavesBefore(c, q, |c.children|);
        forall i | 0 <= i < |b|
          ensures p < b[i]
        {
          assert q[..|p|] == p;
          assert b[i][..|p|] == q[..|q|][..|p|];
        }
      }
    }
  }

  /** The entries listed for a logical child lie below that child, ahead of those of the earlier children. */
  lemma ChildLeaves(n: Node, p: Path, k: nat)
    requires 0 < k <= |n.children| && Logical(n.children[k - 1])
    ensures var c := n.children[k - 1];
            var b := if IsOrderedFolder(c) then LeavesBefore(c, p + [c.name], |c.children|) else [p + [c.name]];
            LeavesBefore(n, p, k) == b + LeavesBefore(n, p, k - 1)
            && forall i :: 0 <= i < |b| ==> p < b[i] && b[i][|p|] == c.name
  {
    var c := n.children[k - 1];
    var q := p + [c.name];
    var b := if IsOrderedFolder(c) then LeavesBefore(c, q, |c.children|) else [q];
    if IsOrderedFolder(c) {
      LeavesBelow(c, q, |c.children|);
    }
    forall i | 0 <= i < |b|
      ensures p < b[i] && b[i][|p|] == c.name
    {
      assert q <= b[i];
      assert b[i][..|p|] == q[..|p|] == p;
    }
  }

  /** Each entry listed below the first `k` children lies below one of those children. */
  lemma {:induction false} LeavesUnder(n: Node, p: Path, k: nat)
    requires k <= |n.children|
    ensures forall i :: 0 <= i < |LeavesBefore(n, p, k)| ==>
              p < LeavesBefore(n, p, k)[i] && FirstIndexOf(n.children, LeavesBefore(n, p, k)[i][|p|]) < k
    decreases k
  {
    if k > 0 {
      LeavesUnder(n, p, k - 1);
      if Logical(n.children[k - 1]) {
        ChildLeaves(n, p, k);
      }
    }
  }

  /** No path occurs twice in `s`. */
  predicate NoRepeats(s: seq<Path>) {
    forall i, j :: 0 <= i < j < |s| ==> s[i] != s[j]
  }

  /** Two lists without repetitions and without common paths make one without repetitions. */
  lemma DistinctJoin(a: seq<Path>, b: seq<Path>)
    requires NoRepeats(a) && NoRepeats(b)
    requires forall i, j :: 0 <= i < |a| && 0 <= j < |b| ==> a[i] != b[j]
    ensures NoRepeats(a + b)
  {
    forall i, j | 0 <= i < j < |a + b|
      ensures (a + b)[i] != (a + b)[j]
    {
      if j < |a| {
      } else if i < |a| {
        assert (a + b)[j] == b[j - |a|];
      } else {
        assert (a + b)[i] == b[i - |a|] && (a + b)[j] == b[j - |a|];
      }
    }
  }

  /** Paths below the child at position `k` differ from paths below children with a first position before `k`. */
  lemma Apart(cs: seq<Node>, p: Path, k: nat, b: seq<Path>, rest: seq<Path>)
    requires k < |cs| && FirstIndexOf(cs, cs[k].name) == k
    requires forall i :: 0 <= i < |b| ==> p < b[i] && b[i][|p|] == cs[k].name
    requires forall j :: 0 <= j < |rest| ==> p < rest[j] && FirstIndexOf(cs, rest[j][|p|]) < k
    ensures forall i, j :: 0 <= i < |b| && 0 <= j < |rest| ==> b[i] != rest[j]
  {
    forall i, j | 0 <= i < |b| && 0 <= j < |rest|
      ensures b[i] != rest[j]
    {
      assert FirstIndexOf(cs, b[i][|p|]) == k;
      assert b[i][|p|] != rest[j][|p|];
    }
  }

  /** A well-formed bucket lists each of its entries once. */
  lemma {:induction false} LeavesDistinct(n: Node, p: Path, k: nat)
    requires WellFormedBucket(n) && k <= |n.children|
    ensures NoRepeats(LeavesBefore(n, p, k))
    decreases n, k
  {
    if k > 0 {
      var c := n.children[k - 1];
      var q := p + [c.name];
      var rest := LeavesBefore(n, p, k - 1);
      LeavesDistinct(n, p, k - 1);
      if Logical(c) {
        if IsOrderedFolder(c) {
          LeavesDistinct(c, q, |c.children|);
        }
        DistinctChild(n, p, k);
      } else {
        assert LeavesBefore(n, p, k) == rest;
      }
    }
  }

  /** A logical child's entries, without repetitions, extend those of the earlier children without repetitions. */
  lemma DistinctChild(n: Node, p: Path, k: nat)
    requires UniqueNames(n.children) && 0 < k <= |n.children| && Logical(n.children[k - 1])
    requires var c := n.children[k - 1];
             IsOrderedFolder(c) ==> NoRepeats(LeavesBefore(c, p + [c.name], |c.children|))
    requires NoRepeats(LeavesBefore(n, p, k - 1))
    ensures NoRepeats(LeavesBefore(n, p, k))
  {
    var c := n.children[k - 1];
    var q := p + [c.name];
    var b := if IsOrderedFolder(c) then LeavesBefore(c, q, |c.children|) else [q];
    var rest := LeavesBefore(n, p, k - 1);
    ChildLeaves(n, p, k);
    LeavesUnder(n, p, k - 1);
    FirstIndexOfUniqueNames(n.children, k - 1);
    Apart(n.children, p, k - 1, b, rest);
    DistinctJoin(b, rest);
  }

  /**
   * The newest entry below the first `k` children is found the way
   * ascendToLastRun finds it: the last logical child, or the newest entry
   * below it when it is a sub-bucket. There is none exactly when those
   * children are all reserved.
   */
  lemma {:induction false} LeavesFirst(n: Node, p: Path, k: nat)
    requires WellFormedBucket(n) && k <= |n.children|
    ensures (LeavesBefore(n, p, k) == []) == LastLogicalBefore(n.children, k).None?
    ensures First(LeavesBefore(n, p, k)) ==
              match LastLogicalBefore(n.children, k)
              case None => None
              case Some(j) =>
                var c := n.children[j];
                if IsOrderedFolder(c) then LastRunUnder(c, p + [c.name]) else Some(p + [c.name])
    decreases n, k
  {
    if k > 0 {
      var c := n.children[k - 1];
      LeavesFirst(n, p, k - 1);
      if Logical(c) && IsOrderedFolder(c) {
        LeavesFirst(c, p + [c.name], |c.children|);
      }
    }
  }

  /** The walk of ascendToLastRun below a well-formed bucket ends at its newest entry. */
  lemma LastRunIsNewest(n: Node, p: Path)
    requires WellFormedBucket(n)
    ensures LastRunUnder(n, p) == First(Leaves(n, p))
  {
    LeavesFirst(n, p, |n.children|);
  }

  /**
   * In a well-formed bucket, the walk of ascendToLastRun ends at an existing
   * entry (a node that is not an ordered folder) with a non-reserved name,
   * and finds none only when the bucket has no logical child at all.
   */
  lemma {:induction false} LastRunIsEntry(t: Node, n: Node, p: Path)
    requires Lookup(t, p) == Some(n) && WellFormedBucket(n)
    ensures LastRunUnder(n, p).None? <==> !HasLogicalChild(n)
    ensures var r := LastRunUnder(n, p);
            r.Some? ==> Lookup(t, r.value).Some? && !IsOrderedFolder(Lookup(t, r.value).value)
                        && !IsReserved(r.value[|r.value| - 1])
    decreases n
  {
    match LastLogicalBefore(n.children, |n.children|)
    case None =>
    case Some(j) =>
      var c := n.children[j];
      LastLogicalBeforeSpec(n.children, |n.children|);
      LookupUniqueChild(t, p, n, j);
      if IsOrderedFolder(c) {
        assert Logical(c);
        LastRunIsEntry(t, c, p + [c.name]);
      }
  }

  /** Sibling names are unique at every level below `n`. */
  predicate UniqueBelow(n: Node)
    decreases n
  {
    UniqueNames(n.children)
    && forall i :: 0 <= i < |n.children| ==> UniqueBelow(n.children[i])
  }

  /**
   * `q` is met by the walk of ascendToLastRun started at `p`: every step goes
   * to the last child getLastChild finds, and goes on only from an ordered
   * folder.
   */
  predicate OnWalk(t: Node, p: Path, q: Path)
    decreases |q|
  {
    q == p
    || (&& |p| < |q|
        && OnWalk(t, p, q[..|q| - 1])
        && LastChild(t, Some(q[..|q| - 1])) == Some(q)
        && Lookup(t, q).Some? && IsOrderedFolder(Lookup(t, q).value))
  }

  /** The resource at `q` exists and has no child with a non-reserved name. */
  predicate DeadEnd(t: Node, q: Path) {
    Lookup(t, q).Some? && !HasLogicalChild(Lookup(t, q).value)
  }

  /** A walk that has moved on from `p` took the last child of `p`, an ordered folder, as its first step. */
  lemma {:induction false} OnWalkFirst(t: Node, p: Path, q: Path)
    ensures OnWalk(t, p, q) && q != p ==>
              && |p| < |q|
              && LastChild(t, Some(p)) == Some(q[..|p| + 1])
              && Lookup(t, q[..|p| + 1]).Some? && IsOrderedFolder(Lookup(t, q[..|p| + 1]).value)
              && OnWalk(t, q[..|p| + 1], q)
    decreases |q|
  {
    if OnWalk(t, p, q) && q != p {
      var u := q[..|q| - 1];
      if u == p {
        assert q[..|p| + 1] == q;
      } else {
        OnWalkFirst(t, p, u);
        assert u[..|p| + 1] == q[..|p| + 1];
        assert q[..|q| - 1] == u;
      }
    }
  }

  /** A walk from the last child of `p`, when that child is an ordered folder, is a walk from `p`. */
  lemma {:induction false} OnWalkCons(t: Node, p: Path, q1: Path, q: Path)
    requires LastChild(t, Some(p)) == Some(q1) && Lookup(t, q1).Some? && IsOrderedFolder(Lookup(t, q1).value)
    requires OnWalk(t, q1, q)
    ensures OnWalk(t, p, q)
    decreases |q|
  {
    if q == q1 {
      assert q[..|q| - 1] == p;
    } else {
      OnWalkCons(t, p, q1, q[..|q| - 1]);
    }
  }

  /**
   * With unique names at every level, the walk of ascendToLastRun ends at an
   * existing node that is not an ordered folder and has a non-reserved name,
   * and finds none exactly when it meets a node without a logical child: the
   * start, or an ordered folder it went down into.
   */
  lemma {:induction false} LastRunWalk(t: Node, n: Node, p: Path)
    requires Lookup(t, p) == Some(n) && UniqueBelow(n)
    ensures var r := LastRunUnder(n, p);
            r.Some? ==> Lookup(t, r.value).Some? && !IsOrderedFolder(Lookup(t, r.value).value)
                        && !IsReserved(r.value[|r.value| - 1])
    ensures LastRunUnder(n, p).None? <==> exists q :: OnWalk(t, p, q) && DeadEnd(t, q)
    decreases n
  {
    match LastLogicalBefore(n.children, |n.children|)
    case None =>
      assert OnWalk(t, p, p) && DeadEnd(t, p);
    case Some(j) =>
      var c := n.children[j];
      var q1 := p + [c.name];
      LastLogicalBeforeSpec(n.children, |n.children|);
      LookupUniqueChild(t, p, n, j);
      assert LastChild(t, Some(p)) == Some(q1);
      assert !DeadEnd(t, p);
      if IsOrderedFolder(c) {
        assert UniqueBelow(c);
        LastRunWalk(t, c, q1);
        if exists q :: OnWalk(t, p, q) && DeadEnd(t, q) {
          var q :| OnWalk(t, p, q) && DeadEnd(t, q);
          OnWalkFirst(t, p, q);
          assert OnWalk(t, q1, q);
        }
        if exists q :: OnWalk(t, q1, q) && DeadEnd(t, q) {
          var q :| OnWalk(t, q1, q) && DeadEnd(t, q);
          OnWalkCons(t, p, q1, q);
        }
      } else {
        forall q
          ensures OnWalk(t, p, q) ==> q == p
        {
          OnWalkFirst(t, p, q);
        }
      }
  }

  /** The previous sibling of a child of a bucket with unique names is its nearest earlier logical sibling. */
  lemma PreviousSiblingOfChild(t: Node, p: Path, n: Node, k: nat)
    requires Lookup(t, p) == Some(n) && UniqueNames(n.children) && k < |n.children|
    ensures PreviousSibling(t, p + [n.children[k].name]) ==
              match LastLogicalBefore(n.children, k)
              case None => None
              case Some(j) => Some(p + [n.children[j].name])
  {
    var q := p + [n.children[k].name];
    assert q[..|q| - 1] == p;
    FirstIndexOfUniqueNames(n.children, k);
  }

  /** The climb from a child without an earlier logical sibling goes on from the bucket. */
  lemma ClimbPastFirstChild(t: Node, p: Path, n: Node, k: nat)
    requires Lookup(t, p) == Some(n) && UniqueNames(n.children) && k < |n.children|
    requires BASE <= p && LastLogicalBefore(n.children, k).None?
    ensures DescendToPreviousSiblingInHistory(t, Some(p + [n.children[k].name]))
            == DescendToPreviousSiblingInHistory(t, Some(p))
  {
    var q := p + [n.children[k].name];
    PreviousSiblingOfChild(t, p, n, k);
    assert q[..|q| - 1] == p;
  }

  /** The climb from a child with an earlier logical sibling stops at that sibling. */
  lemma ClimbToEarlierChild(t: Node, p: Path, n: Node, k: nat, j: nat)
    requires Lookup(t, p) == Some(n) && UniqueNames(n.children) && k < |n.children|
    requires BASE <= p && LastLogicalBefore(n.children, k) == Some(j)
    ensures DescendToPreviousSiblingInHistory(t, Some(p + [n.children[k].name]))
            == Some(p + [n.children[j].name])
  {
    var q := p + [n.children[k].name];
    PreviousSiblingOfChild(t, p, n, k);
    assert |q| > |BASE|;
  }

  // ---------------------------------------------------------------------------
  // The concrete steps, one child at a time

  /** Where the chain goes after the last entry below the bucket at `p`: the climb from it, then the walk down. */
  function After(t: Node, p: Path): Option<Path>
    requires BASE <= p
  {
    AscendToLastRun(t, DescendToPreviousSiblingInHistory(t, Some(p)))
  }

  /** `n` is the bucket at `p` inside the history, and its children have unique names. */
  predicate InBucket(t: Node, n: Node, p: Path) {
    Lookup(t, p) == Some(n) && BASE <= p && UniqueNames(n.children)
  }

  /**
   * The previous history entry of a child of a bucket is its nearest earlier
   * logical sibling, or else where the climb from the bucket and the walk
   * down lead.
   */
  lemma PreviousOfChild(t: Node, n: Node, p: Path, k: nat)
    requires InBucket(t, n, p) && k < |n.children|
    ensures var x := p + [n.children[k].name];
            BASE < x &&
            PreviousHistoryEntry(t, x) == match LastLogicalBefore(n.children, k)
              case None => After(t, p)
              case Some(j) => Some(p + [n.children[j].name])
  {
    var x := p + [n.children[k].name];
    assert x[..|p|] == p && x[..|x| - 1] == p;
    PreviousSiblingOfChild(t, p, n, k);
  }

  /**
   * The climb from a child of a bucket stops at its nearest earlier logical
   * sibling, and the walk down goes on below that sibling; without one the
   * climb goes on from the bucket.
   */
  lemma AfterChild(t: Node, n: Node, p: Path, k: nat)
    requires InBucket(t, n, p) && k < |n.children|
    ensures var q := p + [n.children[k].name];
            BASE <= q &&
            After(t, q) == match LastLogicalBefore(n.children, k)
              case None => After(t, p)
              case Some(j) => LastRunUnder(n.children[j], p + [n.children[j].name])
  {
    var q := p + [n.children[k].name];
    assert q[..|p|] == p;
    match LastLogicalBefore(n.children, k)
    case None =>
      ClimbPastFirstChild(t, p, n, k);
    case Some(j) =>
      ClimbToEarlierChild(t, p, n, k, j);
      LookupUniqueChild(t, p, n, j);
  }

  // ---------------------------------------------------------------------------
  // The chain, for any steps that behave like the concrete ones

  /** From the `k`-th child of bucket `n` at `p`, `next` goes to the previous logical sibling, or else to `after(p)`. */
  ghost predicate EntryStep(next: Path -> Option<Path>, after: Path -> Option<Path>, n: Node, p: Path, k: nat)
    requires k < |n.children|
  {
    next(p + [n.children[k].name]) == match LastLogicalBefore(n.children, k)
      case None => after(p)
      case Some(j) => Some(p + [n.children[j].name])
  }

  /** From the `k`-th child of bucket `n` at `p`, `after` goes to the newest entry below the previous logical sibling, or else to `after(p)`. */
  ghost predicate ClimbStep(after: Path -> Option<Path>, n: Node, p: Path, k: nat)
    requires k < |n.children|
  {
    after(p + [n.children[k].name]) == match LastLogicalBefore(n.children, k)
      case None => after(p)
      case Some(j) => LastRunUnder(n.children[j], p + [n.children[j].name])
  }

  /** `next` and `after` take every child of every bucket of the store `t` where the history takes it. */
  ghost predicate Steps(next: Path -> Option<Path>, after: Path -> Option<Path>, t: Node) {
    (forall n: Node, p: Path, k: nat | InBucket(t, n, p) && k < |n.children| :: EntryStep(next, after, n, p, k))
    && (forall n: Node, p: Path, k: nat | InBucket(t, n, p) && k < |n.children| :: ClimbStep(after, n, p, k))
  }

  /** Where the chain goes after the entries below the first `k` children of bucket `n` at `p`. */
  function Continuation(after: Path -> Option<Path>, n: Node, p: Path, k: nat): Option<Path>
    requires k <= |n.children|
  {
    var rest := LeavesBefore(n, p, k);
    if rest == [] then after(p) else Some(rest[0])
  }

  /** In a well-formed bucket, two logical children are both sub-buckets or both entries. */
  lemma SameKind(n: Node, i: nat, j: nat)
    requires WellFormedBucket(n) && i < |n.children| && j < |n.children|
    requires Logical(n.children[i]) && Logical(n.children[j])
    ensures IsOrderedFolder(n.children[i]) == IsOrderedFolder(n.children[j])
  {
  }

  /**
   * Below the `k`-th child of a well-formed bucket the chain goes on to the
   * newest entry of the previous logical sibling (the sibling itself for an
   * entry), or else leaves the bucket.
   */
  lemma ContinuationAt(after: Path -> Option<Path>, n: Node, p: Path, k: nat)
    requires WellFormedBucket(n) && k < |n.children| && Logical(n.children[k])
    ensures Continuation(after, n, p, k) == match LastLogicalBefore(n.children, k)
              case None => after(p)
              case Some(j) =>
                if IsOrderedFolder(n.children[k]) then LastRunUnder(n.children[j], p + [n.children[j].name])
                else Some(p + [n.children[j].name])
  {
    LeavesFirst(n, p, k);
    LastLogicalBeforeSpec(n.children, k);
    match LastLogicalBefore(n.children, k)
    case None =>
    case Some(j) =>
      SameKind(n, j, k);
  }

  /**
   * Below a well-formed bucket at `p`, each listed entry's step is the next
   * one listed, and the last one's step is `after(p)`.
   */
  lemma {:induction false} LeavesChainWith(next: Path -> Option<Path>, after: Path -> Option<Path>, t: Node, n: Node, p: Path, k: nat)
    requires Steps(next, after, t)
    requires InBucket(t, n, p) && WellFormedBucket(n) && k <= |n.children|
    ensures Linked(next, LeavesBefore(n, p, k), after(p))
    decreases n, k, 1
  {
    if k > 0 {
      var c := n.children[k - 1];
      LeavesChainWith(next, after, t, n, p, k - 1);
      if !Logical(c) {
        assert LeavesBefore(n, p, k) == LeavesBefore(n, p, k - 1);
      } else if IsOrderedFolder(c) {
        SubBucketLink(next, after, t, n, p, k);
      } else {
        EntryLink(next, after, t, n, p, k);
      }
    }
  }

  /** The chain through a sub-bucket's entries leads into the chain through the earlier children. */
  lemma {:induction false} SubBucketLink(next: Path -> Option<Path>, after: Path -> Option<Path>, t: Node, n: Node, p: Path, k: nat)
    requires Steps(next, after, t)
    requires InBucket(t, n, p) && WellFormedBucket(n) && 0 < k <= |n.children|
    requires Logical(n.children[k - 1]) && IsOrderedFolder(n.children[k - 1])
    requires Linked(next, LeavesBefore(n, p, k - 1), after(p))
    ensures Linked(next, LeavesBefore(n, p, k), after(p))
    decreases n, k, 0
  {
    var c := n.children[k - 1];
    var q := p + [c.name];
    var rest := LeavesBefore(n, p, k - 1);
    var b := LeavesBefore(c, q, |c.children|);
    assert ClimbStep(after, n, p, k - 1);
    ContinuationAt(after, n, p, k - 1);
    assert InBucket(t, c, q) by {
      assert q[..|p|] == p;
      LookupUniqueChild(t, p, n, k - 1);
    }
    LeavesChainWith(next, after, t, c, q, |c.children|);
    LinkedJoin(next, b, rest, after(q), after(p));
    assert LeavesBefore(n, p, k) == b + rest;
  }

  /** An entry's step leads into the chain through the earlier children. */
  lemma EntryLink(next: Path -> Option<Path>, after: Path -> Option<Path>, t: Node, n: Node, p: Path, k: nat)
    requires Steps(next, after, t)
    requires InBucket(t, n, p) && WellFormedBucket(n) && 0 < k <= |n.children|
    requires Logical(n.children[k - 1]) && !IsOrderedFolder(n.children[k - 1])
    requires Linked(next, LeavesBefore(n, p, k - 1), after(p))
    ensures Linked(next, LeavesBefore(n, p, k), after(p))
  {
    var q := p + [n.children[k - 1].name];
    var rest := LeavesBefore(n, p, k - 1);
    assert EntryStep(next, after, n, p, k - 1);
    ContinuationAt(after, n, p, k - 1);
    LinkedSingle(next, q);
    LinkedJoin(next, [q], rest, next(q), after(p));
    assert LeavesBefore(n, p, k) == [q] + rest;
  }

  // ---------------------------------------------------------------------------
  // The chain of the history

  /** `After` as a step: where the chain goes after a bucket inside the history. */
  function AfterStep(t: Node): Path -> Option<Path> {
    (p: Path) => if BASE <= p then After(t, p) else None
  }

  /** getPreviousHistoryEntry and the climb take every child of every bucket where the chain needs them. */
  lemma HistorySteps(t: Node)
    ensures Steps(Previous(t), AfterStep(t), t)
  {
    forall n: Node, p: Path, k: nat | InBucket(t, n, p) && k < |n.children|
      ensures EntryStep(Previous(t), AfterStep(t), n, p, k)
    {
      PreviousOfChild(t, n, p, k);
    }
    forall n: Node, p: Path, k: nat | InBucket(t, n, p) && k < |n.children|
      ensures ClimbStep(AfterStep(t), n, p, k)
    {
      AfterChild(t, n, p, k);
    }
  }

  /**
   * Below a well-formed bucket at `p`, each listed entry's previous history
   * entry is the next one listed, and the last one's is where the climb from
   * the bucket and the walk down lead.
   */
  lemma LeavesChain(t: Node, n: Node, p: Path)
    requires InBucket(t, n, p) && WellFormedBucket(n)
    ensures Linked(Previous(t), Leaves(n, p), After(t, p))
  {
    HistorySteps(t);
    LeavesChainWith(Previous(t), AfterStep(t), t, n, p, |n.children|);
  }

  // ---------------------------------------------------------------------------
  // The history as a list

  /** Lookup of the history root on a store that has it. */
  lemma HistoryRootAt(t: Node, root: Node)
    requires Lookup(t, BASE) == Some(root)
    ensures HistoryRoot(t) == Some(BASE)
    ensures LatestHistoryEntry(t, HistoryRoot(t)) == LastRunUnder(root, BASE)
    ensures After(t, BASE) == None
  {
  }

  /**
   * In a well-formed history, the newest entry is the first of all entries
   * in reverse store order, and stepping to the previous entry runs through
   * all of them in that order, each once, and then finds none.
   */
  lemma HistoryIsChain(t: Node, root: Node)
    requires Lookup(t, BASE) == Some(root) && WellFormedBucket(root)
    ensures LatestHistoryEntry(t, HistoryRoot(t)) == First(Leaves(root, BASE))
    ensures Linked(Previous(t), Leaves(root, BASE), None)
    ensures NoRepeats(Leaves(root, BASE))
  {
    LeavesDistinct(root, BASE, |root.children|);
    HistoryRootAt(t, root);
    LastRunIsNewest(root, BASE);
    LeavesChain(t, root, BASE);
  }

  /**
   * In a well-formed history, getHistory(s, c) reads the entries from
   * position `s` on, at most `c` of them, whenever `s` is at most the number
   * of entries; a larger `s` makes the skip loop step past the last entry.
   */
  lemma HistoryIsSlice(t: Node, root: Node, s: int, c: int)
    requires Lookup(t, BASE) == Some(root) && WellFormedBucket(root)
    ensures var l := Leaves(root, BASE);
            SkipStaysInHistory(t, s, c) <==> (c == 0 || l == [] || s <= |l|)
    ensures var l := Leaves(root, BASE);
            c != 0 && 0 <= s <= |l| ==>
              History(t, s, c) == l[s..if s + Iterations(c) <= |l| then s + Iterations(c) else |l|]
  {
    HistoryIsChain(t, root);
    ChainPages(Previous(t), Leaves(root, BASE), s, c);
  }

  /**
   * Paging is consistent: in a well-formed history, the page of `c` entries
   * from position `s` is the page of `s + c` entries from the newest one
   * with its first `s` entries dropped, whenever `s` is at most the number
   * of entries.
   */
  lemma HistoryPaging(t: Node, root: Node, s: int, c: int)
    requires Lookup(t, BASE) == Some(root) && WellFormedBucket(root)
    requires 0 <= s <= |Leaves(root, BASE)| && 0 < c
    ensures s <= |History(t, 0, s + c)| && History(t, s, c) == History(t, 0, s + c)[s..]
  {
    HistoryIsChain(t, root);
    ChainPaging(Previous(t), Leaves(root, BASE), s, c);
  }
}
