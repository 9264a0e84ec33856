/**
 * Writing the history: creating the folders of a path on demand, storing a
 * scan result as a new entry in the bucket of the current day, and the
 * self check that the history root exists.
 */
module HistoryWriter {
  import opened Wrappers
  import opened ResourceStore
  import opened Numerals
  import opened HistoryLayout
  import opened HistoryTraversal
  import opened ScanResults

  // ---------------------------------------------------------------------------
  // createPath

  /**
   * What createPath(path, primaryType) makes of the store `t`, and whether
   * it succeeds. An existing path is left alone. Otherwise the path is split
   * at its last `/` (a path without one throws), a missing parent is created
   * first in the same way, and then the last segment is created below the
   * parent; a failure anywhere (a PersistenceException) ends the call.
   */
  function EnsurePath(t: Node, path: string, ty: string): (Node, bool)
    decreases |path|
  {
    if Resolve(t, path).Some? then (t, true)
    else
      var k := LastSlash(path);
      if k < 0 then (t, false)
      else
        var parent, name := path[..k], path[k + 1..];
        var (t1, ok1) := if Resolve(t, parent).Some? then (t, true) else EnsurePath(t, parent, ty);
        if !ok1 then (t1, false)
        else match Resolve(t1, parent)
          case None => (t1, false)
          case Some(q) =>
            if ValidName(name) && Lookup(t1, q + [name]).None? then (AddChild(t1, q, Node(name, ty, map[], [])), true)
            else (t1, false)
  }

  /**
   * createPath: looks the path up, creates a missing parent by a recursive
   * call on the parent's string, then creates the last segment; every change
   * goes through the resolver.
   */
  method CreatePath(resolver: ResourceResolver, path: string, primaryType: string) returns (ok: bool)
    modifies resolver
    ensures (resolver.root, ok) == EnsurePath(old(resolver.root), path, primaryType)
    ensures old(resolver.GetResource(path)).Some? ==> ok && resolver.root == old(resolver.root)
    decreases |path|
  {
    var folder := resolver.GetResource(path);
    if folder.Some? {
      return true;
    }
    var k := LastSlash(path);
    if k < 0 {
      // substring(0, -1) throws
      return false;
    }
    var parent := path[..k];
    var name := path[k + 1..];
    if resolver.GetResource(parent).None? {
      ok := CreatePath(resolver, parent, primaryType);
      if !ok {
        return false;
      }
    }
    var parentResource := resolver.GetResource(parent);
    if parentResource.None? {
      return false;
    }
    ok := resolver.Create(parentResource.value, name, primaryType);
  }

  /** The parent and the name createPath splits a path into give the path back. */
  lemma SplitPath(path: string)
    requires LastSlash(path) >= 0
    ensures path[..LastSlash(path)] + "/" + path[LastSlash(path) + 1..] == path
    ensures '/' !in path[LastSlash(path) + 1..]
  {
    LastSegmentHasNoSlash(path);
  }

  /**
   * After a successful createPath the path names a resource; when it was
   * missing before, that resource is a new empty node of the given type,
   * named by the last segment.
   */
  lemma {:induction false} EnsurePathExists(t: Node, path: string, ty: string)
    requires EnsurePath(t, path, ty).1
    ensures Resolve(EnsurePath(t, path, ty).0, path).Some?
    ensures Resolve(t, path).None? ==>
      Lookup(EnsurePath(t, path, ty).0, Resolve(EnsurePath(t, path, ty).0, path).value)
        == Some(Node(path[LastSlash(path) + 1..], ty, map[], []))
    decreases |path|
  {
    if Resolve(t, path).None? {
      var k := LastSlash(path);
      var parent, name := path[..k], path[k + 1..];
      var (t1, ok1) := if Resolve(t, parent).Some? then (t, true) else EnsurePath(t, parent, ty);
      if Resolve(t, parent).None? {
        EnsurePathExists(t, parent, ty);
      }
      var q := Resolve(t1, parent).value;
      var c := Node(name, ty, map[], []);
      LookupAddChild(t1, q, c);
      assert LastSlash(parent) >= 0;
      assert ParsePath(path) == Some(q + [name]);
    }
  }

  /** createPath only appends new empty nodes of the given type: nothing existing is changed or moved. */
  lemma {:induction false} EnsurePathGrows(t: Node, path: string, ty: string)
    ensures GrowsWith(t, EnsurePath(t, path, ty).0, ty)
    decreases |path|
  {
    var r := EnsurePath(t, path, ty).0;
    if Resolve(t, path).Some? || LastSlash(path) < 0 {
      assert r == t;
      GrowsWithRefl(t, ty);
    } else {
      var k := LastSlash(path);
      var parent, name := path[..k], path[k + 1..];
      var (t1, ok1) := if Resolve(t, parent).Some? then (t, true) else EnsurePath(t, parent, ty);
      if Resolve(t, parent).None? {
        EnsurePathGrows(t, parent, ty);
      } else {
        GrowsWithRefl(t, ty);
      }
      assert GrowsWith(t, t1, ty);
      if ok1 && Resolve(t1, parent).Some?
         && ValidName(name) && Lookup(t1, Resolve(t1, parent).value + [name]).None? {
        var q := Resolve(t1, parent).value;
        var c := Node(name, ty, map[], []);
        assert r == AddChild(t1, q, c);
        AddChildGrows(t1, q, c, ty);
        GrowsWithTrans(t, t1, r, ty);
      } else {
        assert r == t1;
      }
    }
  }

  /** Every segment of `p` is a valid node name. */
  predicate ValidNames(p: Path) {
    forall i :: 0 <= i < |p| ==> ValidName(p[i])
  }

  /**
   * createPath of the path string of a resource path succeeds as soon as
   * the top-level node of that path exists: every missing ancestor below it
   * is created in turn.
   */
  lemma {:induction false} EnsurePathSucceeds(t: Node, p: Path, ty: string)
    requires |p| > 0 && ValidNames(p) && Lookup(t, p[..1]).Some?
    ensures EnsurePath(t, PathString(p), ty).1
    decreases |p|
  {
    var s := PathString(p);
    ParsePathString(p);
    if Lookup(t, p).None? && |p| > 1 {
      {
        var init, x := p[..|p| - 1], p[|p| - 1];
        assert s == PathString(init) + "/" + x;
        SplitAt(PathString(init), x);
        assert init[..1] == p[..1];
        assert p == init + [x];
        ParsePathString(init);
        if Resolve(t, PathString(init)).Some? {
          LookupAppend(t, init, x);
        } else {
          EnsurePathSucceeds(t, init, ty);
          EnsurePathExists(t, PathString(init), ty);
          var t1 := EnsurePath(t, PathString(init), ty).0;
          LookupAppend(t1, init, x);
        }
      }
    }
  }

  /** Splitting `s + "/" + x` at its last `/` gives back `s` and `x`, for a valid name `x`. */
  lemma SplitAt(s: string, x: string)
    requires ValidName(x)
    ensures LastSlash(s + "/" + x) == |s|
    ensures (s + "/" + x)[..|s|] == s && (s + "/" + x)[|s| + 1..] == x
  {
    var u := s + "/" + x;
    forall j | |s| < j < |u| ensures u[j] != '/' {
      assert u[j] == x[j - |s| - 1];
    }
    LastSlashUnique(u, |s|);
    assert u[..|s|] == s && u[|s| + 1..] == x;
  }

  // ---------------------------------------------------------------------------
  // createHistoryEntry

  /** generateHistoryNodeName: the clock's milliseconds followed by a random number, both in decimal. */
  function EntryName(millis: nat, rand: nat): (r: string)
    ensures ValidName(r) && IsNumeric(r)
  {
    Decimal(millis) + Decimal(rand)
  }

  /** A string attribute as written: a `null` removes the attribute. */
  function StringValueOf(s: Option<string>): Option<Value> {
    match s
    case None => None
    case Some(x) => Some(StringValue(x))
  }

  /** A string attribute as read back: missing reads as the empty string. */
  function OrEmpty(s: Option<string>): string {
    match s
    case None => ""
    case Some(x) => x
  }

  /** The path of the entry written at date `now` under the node name of `millis` and `rand`. */
  function EntryPath(now: Date, millis: nat, rand: nat): Path {
    Bucket(now) + [EntryName(millis, rand)]
  }

  /** The attributes of an entry node after createHistoryEntry puts the five values, in the source's order. */
  function EntryAttrs(a: map<string, Value>, time: int, clean: bool, output: Option<string>, path: Option<string>,
                      userId: Option<string>): map<string, Value>
  {
    var a := Upd(a, ATTR_TIME, Some(TimeValue(time)));
    var a := Upd(a, ATTR_OUTPUT, StringValueOf(output));
    var a := Upd(a, ATTR_CLEAN, Some(BoolValue(clean)));
    var a := Upd(a, ATTR_PATH, StringValueOf(path));
    Upd(a, ATTR_USER_ID, StringValueOf(userId))
  }

  /** Reading the five attributes back gives the values put, and a `null` string reads as the empty string. */
  lemma EntryAttrsRead(a: map<string, Value>, time: int, clean: bool, output: Option<string>, path: Option<string>,
                       userId: Option<string>)
    ensures var r := EntryAttrs(a, time, clean, output, path, userId);
      && ATTR_TIME in r && r[ATTR_TIME] == TimeValue(time)
      && StringAttr(r, ATTR_OUTPUT, "") == OrEmpty(output)
      && BoolAttr(r, ATTR_CLEAN, false) == clean
      && StringAttr(r, ATTR_PATH, "") == OrEmpty(path)
      && StringAttr(r, ATTR_USER_ID, "") == OrEmpty(userId)
  {
    assert ATTR_TIME[0] == 't' && ATTR_OUTPUT[0] == 'o' && ATTR_CLEAN[0] == 'c' && ATTR_PATH[0] == 'p' && ATTR_USER_ID[0] == 'u';
  }

  /**
   * What createHistoryEntry makes of the store `t`: the day bucket is
   * created as ordered folders, then the entry node as an unstructured
   * node, which then receives the five attributes.
   */
  function WriteEntry(t: Node, now: Date, time: int, millis: nat, rand: nat,
                      clean: bool, output: Option<string>, path: Option<string>, userId: Option<string>): (Node, bool)
  {
    var (t1, ok1) := EnsurePath(t, BucketString(now), ORDERED_FOLDER);
    if !ok1 then (t1, false)
    else
      var (t2, ok2) := EnsurePath(t1, BucketString(now) + "/" + EntryName(millis, rand), UNSTRUCTURED);
      if !ok2 then (t2, false)
      else match Resolve(t2, BucketString(now) + "/" + EntryName(millis, rand))
        case None => (t2, false)
        case Some(p) =>
          var n := Lookup(t2, p).value;
          (ReplaceAt(t2, p, n.(attrs := EntryAttrs(n.attrs, time, clean, output, path, userId))), true)
  }

  /**
   * createHistoryEntry. The clock and the random generator are inputs: `now`
   * is the calendar date of the entry and `time` its instant, `millis` and
   * `rand` make its node name (`random.nextInt(100000)` is below 100000).
   */
  method CreateHistoryEntry(resolver: ResourceResolver, result: ScanResult, now: Date, time: int,
                            millis: nat, rand: nat) returns (ok: bool)
    requires rand < 100000
    modifies resolver
    ensures (resolver.root, ok) == WriteEntry(old(resolver.root), now, time, millis, rand,
                                              result.IsClean(), result.GetOutput(), result.GetPath(), result.GetUserId())
  {
    var basePath := HISTORY_BASE + "/" + Decimal(now.year) + "/" + Decimal(now.month0 + 1) + "/" + Decimal(now.day);
    var nodeName := Decimal(millis) + Decimal(rand);
    var nodePath := basePath + "/" + nodeName;
    assert basePath == BucketString(now) && nodeName == EntryName(millis, rand);
    ok := CreatePath(resolver, basePath, ORDERED_FOLDER);
    if !ok {
      return;
    }
    ok := CreatePath(resolver, nodePath, UNSTRUCTURED);
    if !ok {
      return;
    }
    var resource := resolver.GetResource(nodePath);
    if resource.None? {
      return false;
    }
    PutValues(resolver, resource.value, time, result);
  }

  /** The five `values.put` calls of createHistoryEntry on the entry node at `p`. */
  method PutValues(resolver: ResourceResolver, p: Path, time: int, result: ScanResult)
    requires Lookup(resolver.root, p).Some?
    modifies resolver
    ensures resolver.root
         == ReplaceAt(old(resolver.root), p, old(Lookup(resolver.root, p).value).(attrs := EntryAttrs(
              old(Lookup(resolver.root, p).value).attrs, time, result.IsClean(), result.GetOutput(), result.GetPath(),
              result.GetUserId())))
  {
    ghost var t := resolver.root;
    ghost var n := Lookup(t, p).value;
    ReplaceAtSame(t, p);
    ghost var a := n.attrs;
    PutAttrAgain(t, p, n.(attrs := a), ATTR_TIME, Some(TimeValue(time)));
    resolver.Put(p, ATTR_TIME, Some(TimeValue(time)));
    a := Upd(a, ATTR_TIME, Some(TimeValue(time)));
    PutAttrAgain(t, p, n.(attrs := a), ATTR_OUTPUT, StringValueOf(result.GetOutput()));
    resolver.Put(p, ATTR_OUTPUT, StringValueOf(result.GetOutput()));
    a := Upd(a, ATTR_OUTPUT, StringValueOf(result.GetOutput()));
    PutAttrAgain(t, p, n.(attrs := a), ATTR_CLEAN, Some(BoolValue(result.IsClean())));
    resolver.Put(p, ATTR_CLEAN, Some(BoolValue(result.IsClean())));
    a := Upd(a, ATTR_CLEAN, Some(BoolValue(result.IsClean())));
    PutAttrAgain(t, p, n.(attrs := a), ATTR_PATH, StringValueOf(result.GetPath()));
    resolver.Put(p, ATTR_PATH, StringValueOf(result.GetPath()));
    a := Upd(a, ATTR_PATH, StringValueOf(result.GetPath()));
    PutAttrAgain(t, p, n.(attrs := a), ATTR_USER_ID, StringValueOf(result.GetUserId()));
    resolver.Put(p, ATTR_USER_ID, StringValueOf(result.GetUserId()));
  }

  /** The entry is written at the bucket of its date, under its generated name. */
  lemma EntryPathString(now: Date, millis: nat, rand: nat)
    ensures ParsePath(BucketString(now) + "/" + EntryName(millis, rand)) == Some(EntryPath(now, millis, rand))
    ensures PathString(EntryPath(now, millis, rand)) == BucketString(now) + "/" + EntryName(millis, rand)
  {
    ParseBucket(now);
    ParsePathAppend(BucketString(now), EntryName(millis, rand));
    assert LastSlash(BucketString(now)) >= 0;
    var e := EntryPath(now, millis, rand);
    assert e[..|e| - 1] == Bucket(now);
  }

  /** The bucket of a date lies below `/var`, and so does every entry in it. */
  lemma BucketUnderVar(now: Date, millis: nat, rand: nat)
    ensures ValidNames(Bucket(now)) && Bucket(now)[..1] == ["var"]
    ensures ValidNames(EntryPath(now, millis, rand)) && EntryPath(now, millis, rand)[..1] == ["var"]
  {
    var e := EntryPath(now, millis, rand);
    assert e[..1] == Bucket(now)[..1];
  }

  /** The three steps of writing an entry succeed, so the write does. */
  lemma WriteEntryOk(t: Node, now: Date, time: int, millis: nat, rand: nat,
                     clean: bool, output: Option<string>, path: Option<string>, userId: Option<string>)
    requires EnsurePath(t, BucketString(now), ORDERED_FOLDER).1
    requires var t1 := EnsurePath(t, BucketString(now), ORDERED_FOLDER).0;
      && EnsurePath(t1, BucketString(now) + "/" + EntryName(millis, rand), UNSTRUCTURED).1
      && Resolve(EnsurePath(t1, BucketString(now) + "/" + EntryName(millis, rand), UNSTRUCTURED).0,
                 BucketString(now) + "/" + EntryName(millis, rand)).Some?
    ensures WriteEntry(t, now, time, millis, rand, clean, output, path, userId).1
  {
  }

  /** With the top-level node `/var` in place, writing an entry succeeds. */
  lemma WriteEntrySucceeds(t: Node, now: Date, time: int, millis: nat, rand: nat,
                           clean: bool, output: Option<string>, path: Option<string>, userId: Option<string>)
    requires Lookup(t, ["var"]).Some?
    ensures WriteEntry(t, now, time, millis, rand, clean, output, path, userId).1
  {
    BucketUnderVar(now, millis, rand);
    ParseBucket(now);
    EnsurePathSucceeds(t, Bucket(now), ORDERED_FOLDER);
    var t1 := EnsurePath(t, BucketString(now), ORDERED_FOLDER).0;
    EnsurePathGrows(t, BucketString(now), ORDERED_FOLDER);
    GrowsWithLookup(t, t1, ORDERED_FOLDER, ["var"]);
    var e := EntryPath(now, millis, rand);
    EntryPathString(now, millis, rand);
    EnsurePathSucceeds(t1, e, UNSTRUCTURED);
    EnsurePathExists(t1, PathString(e), UNSTRUCTURED);
    WriteEntryOk(t, now, time, millis, rand, clean, output, path, userId);
  }

  /**
   * A written entry reads back as the scan result it was made from: the
   * time, the output, the clean flag, the scanned path and the user, with
   * the empty string for a `null`, and the entry's own path.
   */
  lemma WriteEntryReadsBack(t: Node, now: Date, time: int, millis: nat, rand: nat,
                            clean: bool, output: Option<string>, path: Option<string>, userId: Option<string>)
    requires WriteEntry(t, now, time, millis, rand, clean, output, path, userId).1
    ensures var t' := WriteEntry(t, now, time, millis, rand, clean, output, path, userId).0;
      && HasTime(t', EntryPath(now, millis, rand))
      && ReadHistoryEntry(t', EntryPath(now, millis, rand))
         == HistoryEntry(time, OrEmpty(output), clean, OrEmpty(path),
                         PathString(EntryPath(now, millis, rand)), OrEmpty(userId))
  {
    var t1 := EnsurePath(t, BucketString(now), ORDERED_FOLDER).0;
    var s := BucketString(now) + "/" + EntryName(millis, rand);
    var t2 := EnsurePath(t1, s, UNSTRUCTURED).0;
    var e := EntryPath(now, millis, rand);
    EntryPathString(now, millis, rand);
    assert Resolve(t2, s) == Some(e);
    var n := Lookup(t2, e).value;
    var a := EntryAttrs(n.attrs, time, clean, output, path, userId);
    LookupReplaceAt(t2, e, n.(attrs := a));
    EntryAttrsRead(n.attrs, time, clean, output, path, userId);
  }

  // ---------------------------------------------------------------------------
  // selfCheck

  /** selfCheck: passes exactly when the history root exists; otherwise the source throws. */
  method SelfCheck(resolver: ResourceResolver) returns (ok: bool)
    ensures ok <==> Lookup(resolver.root, BASE).Some?
  {
    ParseHistoryBase();
    var base := resolver.GetResource(HISTORY_BASE);
    ok := base.Some?;
  }
}
