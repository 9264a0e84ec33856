/**
 * Reverse-chronological reading of the history without an index: the newest
 * entry is found by following last children down from the history root, and
 * the entry before a given one by a previous sibling, or by climbing until an
 * earlier bucket is found and following last children down again.
 */
module HistoryTraversal {
  import opened Wrappers
  import opened ResourceStore
  import opened HistoryLayout
  import opened Paging

  // ---------------------------------------------------------------------------
  // Scanning children

  /** The position of the last child before position `k` whose name is not reserved. */
  function LastLogicalBefore(cs: seq<Node>, k: nat): (r: Option<nat>)
    requires k <= |cs|
    ensures r.Some? ==> r.value < k
    decreases k
  {
    if k == 0 then None
    else if !IsReserved(cs[k - 1].name) then Some(k - 1)
    else LastLogicalBefore(cs, k - 1)
  }

  /** The position found holds a non-reserved name and only reserved names follow it up to `k`. */
  lemma {:induction false} LastLogicalBeforeSpec(cs: seq<Node>, k: nat)
    requires k <= |cs|
    ensures var r := LastLogicalBefore(cs, k);
            (r.Some? ==> !IsReserved(cs[r.value].name)) &&
            forall j :: (if r.Some? then r.value + 1 else 0) <= j < k ==> IsReserved(cs[j].name)
    decreases k
  {
    if k > 0 && IsReserved(cs[k - 1].name) {
      LastLogicalBeforeSpec(cs, k - 1);
    }
  }

  /**
   * getLastChild: the last child of the resource, in store order, whose name
   * is neither `rep:policy` nor `oak:index`; none when there is no such child.
   */
  function LastChild(t: Node, resource: Option<Path>): (r: Option<Path>)
    ensures r.Some? ==> resource.Some? && resource.value < r.value
    ensures r.Some? ==> Lookup(t, resource.value).Some? && |r.value| == |resource.value| + 1
                        && Child(Lookup(t, resource.value).value, r.value[|resource.value|]).Some?
  {
    match resource
    case None => None
    case Some(p) =>
      match Lookup(t, p)
      case None => None
      case Some(n) =>
        match LastLogicalBefore(n.children, |n.children|)
        case None => None
        case Some(j) => Some(p + [n.children[j].name])
  }

  /**
   * The last child is an existing child with a non-reserved name after which
   * only reserved names follow; there is none exactly when the resource is
   * missing or all its children are reserved.
   */
  lemma LastChildSpec(t: Node, p: Path)
    ensures LastChild(t, Some(p)).Some? ==>
              Lookup(t, p).Some? &&
              var cs := Lookup(t, p).value.children;
              exists j :: 0 <= j < |cs| && LastChild(t, Some(p)).value == p + [cs[j].name]
                          && !IsReserved(cs[j].name)
                          && forall k :: j < k < |cs| ==> IsReserved(cs[k].name)
    ensures LastChild(t, Some(p)).None? <==>
              Lookup(t, p).None? ||
              forall k :: 0 <= k < |Lookup(t, p).value.children| ==> IsReserved(Lookup(t, p).value.children[k].name)
  {
    if Lookup(t, p).Some? {
      LastLogicalBeforeSpec(Lookup(t, p).value.children, |Lookup(t, p).value.children|);
    }
  }

  /** getLastChild's single pass over the children, keeping the last non-reserved one. */
  method GetLastChild(t: Node, resource: Option<Path>) returns (last: Option<Path>)
    ensures last == LastChild(t, resource)
  {
    if resource.None? {
      return None;
    }
    var node := Lookup(t, resource.value);
    if node.None? {
      return None;
    }
    var children := node.value.children;
    last := None;
    var i := 0;
    while i < |children|
      invariant 0 <= i <= |children|
      invariant last == match LastLogicalBefore(children, i)
                        case None => None
                        case Some(j) => Some(resource.value + [children[j].name])
    {
      var candidate := children[i];
      if !IsReserved(candidate.name) {
        last := Some(resource.value + [candidate.name]);
      }
      i := i + 1;
    }
  }

  /**
   * getPreviousSibling: among the siblings that come before the first sibling
   * carrying the resource's own name, the last one whose name is not reserved.
   */
  function PreviousSibling(t: Node, resource: Path): (r: Option<Path>)
    requires |resource| > 0
    ensures r.Some? ==> |r.value| == |resource| && r.value[..|resource| - 1] == resource[..|resource| - 1]
  {
    var parent := resource[..|resource| - 1];
    match Lookup(t, parent)
    case None => None
    case Some(pn) =>
      match LastLogicalBefore(pn.children, FirstIndexOf(pn.children, resource[|resource| - 1]))
      case None => None
      case Some(j) =>
        var r := parent + [pn.children[j].name];
        assert r[..|resource| - 1] == parent;
        Some(r)
  }

  /**
   * The previous sibling is a sibling with a non-reserved name that comes
   * before the first one carrying the resource's name, and only reserved
   * names lie between the two; there is none when the parent is missing or
   * every earlier sibling is reserved.
   */
  lemma PreviousSiblingSpec(t: Node, resource: Path)
    requires |resource| > 0
    ensures var parent, name := resource[..|resource| - 1], resource[|resource| - 1];
            PreviousSibling(t, resource).Some? ==>
              Lookup(t, parent).Some? &&
              var cs := Lookup(t, parent).value.children;
              exists j :: 0 <= j < FirstIndexOf(cs, name)
                          && PreviousSibling(t, resource).value == parent + [cs[j].name]
                          && !IsReserved(cs[j].name)
                          && forall k :: j < k < FirstIndexOf(cs, name) ==> IsReserved(cs[k].name)
    ensures var parent, name := resource[..|resource| - 1], resource[|resource| - 1];
            PreviousSibling(t, resource).None? <==>
              Lookup(t, parent).None? ||
              var cs := Lookup(t, parent).value.children;
              forall k :: 0 <= k < FirstIndexOf(cs, name) ==> IsReserved(cs[k].name)
  {
    var parent, name := resource[..|resource| - 1], resource[|resource| - 1];
    if Lookup(t, parent).Some? {
      var cs := Lookup(t, parent).value.children;
      LastLogicalBeforeSpec(cs, FirstIndexOf(cs, name));
    }
  }

  /** getPreviousSibling's scan of the siblings, up to the first one carrying the resource's name. */
  method GetPreviousSibling(t: Node, resource: Path) returns (previous: Option<Path>)
    requires |resource| > 0
    ensures previous == PreviousSibling(t, resource)
  {
    var parentPath := resource[..|resource| - 1];
    var name := resource[|resource| - 1];
    var parent := Lookup(t, parentPath);
    if parent.None? {
      return None;
    }
    var siblings := parent.value.children;
    previous := None;
    var i := 0;
    while i < |siblings|
      invariant 0 <= i <= FirstIndexOf(siblings, name)
      invariant previous == match LastLogicalBefore(siblings, i)
                            case None => None
                            case Some(j) => Some(parentPath + [siblings[j].name])
    {
      var sibling := siblings[i];
      if sibling.name == name {
        break;
      }
      if !IsReserved(sibling.name) {
        previous := Some(parentPath + [sibling.name]);
      }
      i := i + 1;
    }
  }

  // ---------------------------------------------------------------------------
  // Moving through the tree

  /**
   * The walk of ascendToLastRun below node `n` at path `p`: take the last
   * non-reserved child; stop there unless it is an ordered folder, else go on
   * below it. An ordered folder without such a child ends the walk with none.
   */
  function LastRunUnder(n: Node, p: Path): (r: Option<Path>)
    ensures r.Some? ==> p < r.value
    decreases n
  {
    match LastLogicalBefore(n.children, |n.children|)
    case None => None
    case Some(j) =>
      var last := n.children[j];
      if IsOrderedFolder(last) then LastRunUnder(last, p + [last.name])
      else Some(p + [last.name])
  }

  /** ascendToLastRun: the walk down last children from the resource; none for a missing resource. */
  function AscendToLastRun(t: Node, resource: Option<Path>): (r: Option<Path>)
    ensures r.Some? ==> resource.Some? && resource.value < r.value
  {
    match resource
    case None => None
    case Some(p) =>
      match Lookup(t, p)
      case None => None
      case Some(n) => LastRunUnder(n, p)
  }

  /**
   * descendToPreviousSiblingInHistory: the climb from `current` towards the
   * history root, returning the first earlier sibling met. It returns none
   * for a missing resource and at the history root, so it never leaves the
   * history tree.
   */
  function DescendToPreviousSiblingInHistory(t: Node, current: Option<Path>): (r: Option<Path>)
    requires current.Some? ==> BASE <= current.value
    ensures r.Some? ==> BASE < r.value
    ensures current.None? || current == Some(BASE) ==> r.None?
    decreases if current.Some? then |current.value| else 0
  {
    match current
    case None => None
    case Some(q) =>
      if q == BASE then None
      else
        match PreviousSibling(t, q)
        case Some(previous) =>
          assert BASE <= q[..|q| - 1] == previous[..|q| - 1];
          Some(previous)
        case None => DescendToPreviousSiblingInHistory(t, Some(q[..|q| - 1]))
  }

  /** getPreviousHistoryEntry: the previous sibling, or else climb to an earlier bucket and walk down it. */
  function PreviousHistoryEntry(t: Node, current: Path): (r: Option<Path>)
    requires BASE < current
    ensures r.Some? ==> BASE < r.value
  {
    match PreviousSibling(t, current)
    case Some(previous) =>
      assert BASE <= current[..|current| - 1] == previous[..|current| - 1];
      Some(previous)
    case None => AscendToLastRun(t, DescendToPreviousSiblingInHistory(t, Some(current[..|current| - 1])))
  }

  /** getLatestHistoryEntry: the walk down last children from the history root; none without a root. */
  function LatestHistoryEntry(t: Node, base: Option<Path>): (r: Option<Path>)
    ensures r.Some? ==> base.Some? && base.value < r.value
  {
    match base
    case None => None
    case Some(b) => AscendToLastRun(t, Some(b))
  }

  // ---------------------------------------------------------------------------
  // Reading entries

  /** A history entry as returned to callers, by value. */
  datatype HistoryEntry = HistoryEntry(
    time: int,
    output: string,
    clean: bool,
    path: string,
    repositoryPath: string,
    userId: string)

  /** The resource at `p` has a `time` attribute, which reading it dereferences. */
  predicate HasTime(t: Node, p: Path) {
    Lookup(t, p).Some? && ATTR_TIME in Lookup(t, p).value.attrs
    && Lookup(t, p).value.attrs[ATTR_TIME].TimeValue?
  }

  /** readHistoryEntry on the store `t`, for any resource with a `time` attribute. */
  function Reader(t: Node): Path --> HistoryEntry {
    (p: Path) requires HasTime(t, p) => ReadHistoryEntry(t, p)
  }

  /** `ValueMap.get(key, default)` for a string attribute. */
  function StringAttr(attrs: map<string, Value>, key: string, default: string): string {
    if key in attrs && attrs[key].StringValue? then attrs[key].text else default
  }

  /** `ValueMap.get(key, default)` for a boolean attribute. */
  function BoolAttr(attrs: map<string, Value>, key: string, default: bool): bool {
    if key in attrs && attrs[key].BoolValue? then attrs[key].flag else default
  }

  /**
   * readHistoryEntry: the entry's attributes, with `false` and the empty
   * string for a missing `clean`, `output`, `path` or `userId`.
   */
  function ReadHistoryEntry(t: Node, p: Path): (e: HistoryEntry)
    requires HasTime(t, p)
    ensures e.time == Lookup(t, p).value.attrs[ATTR_TIME].millis
    ensures e.repositoryPath == PathString(p)
    ensures ATTR_CLEAN !in Lookup(t, p).value.attrs ==> !e.clean
    ensures ATTR_OUTPUT !in Lookup(t, p).value.attrs ==> e.output == ""
    ensures ATTR_PATH !in Lookup(t, p).value.attrs ==> e.path == ""
    ensures ATTR_USER_ID !in Lookup(t, p).value.attrs ==> e.userId == ""
  {
    var values := Lookup(t, p).value.attrs;
    HistoryEntry(
      values[ATTR_TIME].millis,
      StringAttr(values, ATTR_OUTPUT, ""),
      BoolAttr(values, ATTR_CLEAN, false),
      StringAttr(values, ATTR_PATH, ""),
      PathString(p),
      StringAttr(values, ATTR_USER_ID, ""))
  }

  // ---------------------------------------------------------------------------
  // Paging

  /**
   * The step of paging: the previous history entry. Paging starts at the
   * newest entry and only ever steps from resources below the history root,
   * so the guard never fails along the way.
   */
  function Previous(t: Node): Path -> Option<Path> {
    (p: Path) => if BASE < p then PreviousHistoryEntry(t, p) else None
  }

  /** The previous entry of a resource below the history root is below it too. */
  lemma PreviousInHistory(t: Node)
    ensures forall c :: BASE < c && Previous(t)(c).Some? ==> BASE < Previous(t)(c).value
  {
  }

  /** Every resource reached by paging from below the history root lies below it. */
  lemma WalkInHistory(t: Node, current: Option<Path>, k: nat)
    requires current.Some? ==> BASE < current.value
    ensures var r := Walk(Previous(t), current, k); r.Some? ==> BASE < r.value
  {
    PreviousInHistory(t);
    WalkKeeps((p: Path) => BASE < p, Previous(t), current, k);
  }

  /** `resolver.getResource(HISTORY_BASE)` on the store `t`. */
  function HistoryRoot(t: Node): Option<Path> {
    if Lookup(t, BASE).Some? then Some(BASE) else None
  }

  /** The resources getHistory(startIndex, count) reads, newest first. */
  function History(t: Node, startIndex: int, count: int): seq<Path> {
    Page(Previous(t), LatestHistoryEntry(t, HistoryRoot(t)), startIndex, count)
  }

  /**
   * The skip loop of getHistory never asks for the entry before a missing
   * one, which the source would dereference: `startIndex` is at most the
   * number of entries.
   */
  predicate SkipStaysInHistory(t: Node, startIndex: int, count: int) {
    SkipWithin(Previous(t), LatestHistoryEntry(t, HistoryRoot(t)), startIndex, count)
  }

  /**
   * getHistory: at most `count` entries, newest first, starting `startIndex`
   * entries after the newest; the empty list when `count` is 0, when the
   * history root is missing or when there is no entry.
   */
  method GetHistory(startIndex: int, count: int, resolver: ResourceResolver) returns (entries: seq<HistoryEntry>)
    requires SkipStaysInHistory(resolver.root, startIndex, count)
    requires forall i :: 0 <= i < |History(resolver.root, startIndex, count)| ==>
               HasTime(resolver.root, History(resolver.root, startIndex, count)[i])
    ensures entries == MapAll(Reader(resolver.root), History(resolver.root, startIndex, count))
    ensures |entries| <= Iterations(count)
    ensures count == 0 || LatestHistoryEntry(resolver.root, HistoryRoot(resolver.root)).None? ==> entries == []
  {
    entries := [];
    if count == 0 {
      return;
    }
    var t := resolver.root;
    ParseHistoryBase();
    var base := resolver.GetResource(HISTORY_BASE);
    assert base == HistoryRoot(t);
    var latest := LatestHistoryEntry(t, base);
    if latest.None? {
      return;
    }
    var current := Skip(Previous(t), latest.value, startIndex);
    ghost var page := Collect(Previous(t), current, Iterations(count));
    assert page == History(t, startIndex, count);
    forall i | 0 <= i < |page|
      ensures Reader(t).requires(page[i])
    {
      assert HasTime(t, page[i]);
    }
    entries := Gather(Previous(t), Reader(t), current, count);
  }
}
