/**
 * The hierarchical resource store the history service works on, as an
 * in-memory ordered tree. A resource is named by the sequence of node names
 * from the store root (`/var/avs/history` is `["var", "avs", "history"]`);
 * the children of a node keep the store's insertion order.
 */
module ResourceStore {
  import opened Wrappers

  /** The attribute values a history node can hold. */
  datatype Value = TimeValue(millis: int) | StringValue(text: string) | BoolValue(flag: bool)

  /** A store node: its name, its `jcr:primaryType`, its other attributes and its ordered children. */
  datatype Node = Node(name: string, primaryType: string, attrs: map<string, Value>, children: seq<Node>)

  /** A resource path, as the names of the nodes below the store root. */
  type Path = seq<string>

  /** `sling:OrderedFolder`: a node whose children keep their insertion order. */
  const ORDERED_FOLDER := "sling:OrderedFolder"
  /** `nt:unstructured`: the type of a history entry. */
  const UNSTRUCTURED := "nt:unstructured"

  predicate IsOrderedFolder(n: Node) {
    n.primaryType == ORDERED_FOLDER
  }

  // ---------------------------------------------------------------------------
  // Navigation by name

  /** The position of the first child called `name`, or `|cs|` when no child has that name. */
  function FirstIndexOf(cs: seq<Node>, name: string): (r: nat)
    ensures r <= |cs|
    ensures forall j :: 0 <= j < r ==> cs[j].name != name
    ensures r < |cs| ==> cs[r].name == name
  {
    if cs == [] then 0
    else if cs[0].name == name then 0
    else 1 + FirstIndexOf(cs[1..], name)
  }

  /** The three properties of `FirstIndexOf` single out one position. */
  lemma FirstIndexOfUnique(cs: seq<Node>, name: string, r: nat)
    requires r <= |cs|
    requires forall j :: 0 <= j < r ==> cs[j].name != name
    requires r < |cs| ==> cs[r].name == name
    ensures FirstIndexOf(cs, name) == r
  {
  }

  /** Names are unique among the children `cs`. */
  predicate UniqueNames(cs: seq<Node>) {
    forall i, j :: 0 <= i < j < |cs| ==> cs[i].name != cs[j].name
  }

  lemma FirstIndexOfUniqueNames(cs: seq<Node>, j: nat)
    requires UniqueNames(cs) && j < |cs|
    ensures FirstIndexOf(cs, cs[j].name) == j
  {
    FirstIndexOfUnique(cs, cs[j].name, j);
  }

  /** The child resource `name` of `n`: the first child with that name. */
  function Child(n: Node, name: string): Option<Node> {
    var i := FirstIndexOf(n.children, name);
    if i < |n.children| then Some(n.children[i]) else None
  }

  /** `resolver.getResource`: the node at path `p` below `t`, if there is one. */
  function Lookup(t: Node, p: Path): Option<Node>
    decreases |p|
  {
    if p == [] then Some(t)
    else match Child(t, p[0])
      case None => None
      case Some(c) => Lookup(c, p[1..])
  }

  /** Looking up a child path is a look-up of its parent followed by a child step. */
  lemma {:induction false} LookupAppend(t: Node, p: Path, x: string)
    ensures Lookup(t, p + [x]) == match Lookup(t, p) case None => None case Some(n) => Child(n, x)
    decreases |p|
  {
    if p != [] {
      assert (p + [x])[0] == p[0] && (p + [x])[1..] == p[1..] + [x];
      match Child(t, p[0])
      case None =>
      case Some(c) => LookupAppend(c, p[1..], x);
    }
  }

  /** The parent of an existing resource exists. */
  lemma {:induction false} LookupParent(t: Node, p: Path)
    requires |p| > 0 && Lookup(t, p).Some?
    ensures Lookup(t, p[..|p| - 1]).Some?
  {
    var q := p[..|p| - 1];
    assert p == q + [p[|p| - 1]];
    LookupAppend(t, q, p[|p| - 1]);
  }

  /** With unique names, the resource `p + [c.name]` is the child `c` itself. */
  lemma LookupUniqueChild(t: Node, p: Path, n: Node, j: nat)
    requires Lookup(t, p) == Some(n) && UniqueNames(n.children) && j < |n.children|
    ensures Lookup(t, p + [n.children[j].name]) == Some(n.children[j])
  {
    LookupAppend(t, p, n.children[j].name);
    FirstIndexOfUniqueNames(n.children, j);
  }

  // ---------------------------------------------------------------------------
  // Replacing the node at a path

  /** `t` with the node at `p` replaced by `m`; `t` itself when `p` names nothing. */
  function ReplaceAt(t: Node, p: Path, m: Node): Node
    decreases |p|
  {
    if p == [] then m
    else
      var i := FirstIndexOf(t.children, p[0]);
      if i == |t.children| then t
      else t.(children := t.children[i := ReplaceAt(t.children[i], p[1..], m)])
  }

  /** Replacing keeps the root's name. */
  lemma {:induction false} ReplaceAtName(t: Node, p: Path, m: Node)
    requires p != [] || m.name == t.name
    ensures ReplaceAt(t, p, m).name == t.name
  {
  }

  /** After a replacement that keeps the name, the path finds the new node. */
  lemma {:induction false} LookupReplaceAt(t: Node, p: Path, m: Node)
    requires Lookup(t, p).Some? && (p == [] || m.name == Lookup(t, p).value.name)
    ensures Lookup(ReplaceAt(t, p, m), p) == Some(m)
    decreases |p|
  {
    if p != [] {
      var cs := t.children;
      var i := FirstIndexOf(cs, p[0]);
      var c' := ReplaceAt(cs[i], p[1..], m);
      if p[1..] != [] {
        assert Lookup(cs[i], p[1..]) == Lookup(t, p);
      }
      ReplaceAtName(cs[i], p[1..], m);
      FirstIndexOfUnique(cs[i := c'], p[0], i);
      LookupReplaceAt(cs[i], p[1..], m);
    }
  }

  /** Replacing a node by itself changes nothing. */
  lemma {:induction false} ReplaceAtSame(t: Node, p: Path)
    requires Lookup(t, p).Some?
    ensures ReplaceAt(t, p, Lookup(t, p).value) == t
    decreases |p|
  {
    if p != [] {
      var i := FirstIndexOf(t.children, p[0]);
      ReplaceAtSame(t.children[i], p[1..]);
      assert t.children[i := t.children[i]] == t.children;
    }
  }

  /** A second replacement at the same path overrides the first. */
  lemma {:induction false} ReplaceAtTwice(t: Node, p: Path, a: Node, b: Node)
    requires Lookup(t, p).Some? && (p == [] || a.name == Lookup(t, p).value.name)
    ensures ReplaceAt(ReplaceAt(t, p, a), p, b) == ReplaceAt(t, p, b)
    decreases |p|
  {
    if p != [] {
      var cs := t.children;
      var i := FirstIndexOf(cs, p[0]);
      var c' := ReplaceAt(cs[i], p[1..], a);
      if p[1..] != [] {
        assert Lookup(cs[i], p[1..]) == Lookup(t, p);
      }
      ReplaceAtName(cs[i], p[1..], a);
      FirstIndexOfUnique(cs[i := c'], p[0], i);
      ReplaceAtTwice(cs[i], p[1..], a, b);
    }
  }

  /** Replacing a child of `p` is replacing `p` by a copy with that child replaced. */
  lemma {:induction false} ReplaceAtChild(t: Node, p: Path, n: Node, x: string, m: Node)
    requires Lookup(t, p) == Some(n)
    requires FirstIndexOf(n.children, x) < |n.children|
    ensures ReplaceAt(t, p + [x], m)
         == ReplaceAt(t, p, n.(children := n.children[FirstIndexOf(n.children, x) := m]))
    decreases |p|
  {
    if p != [] {
      var cs := t.children;
      var i := FirstIndexOf(cs, p[0]);
      assert (p + [x])[0] == p[0] && (p + [x])[1..] == p[1..] + [x];
      ReplaceAtChild(cs[i], p[1..], n, x, m);
    }
  }

  /** Appends `c` to the children of the existing node at `p`. */
  function AddChild(t: Node, p: Path, c: Node): Node
    requires Lookup(t, p).Some?
  {
    var n := Lookup(t, p).value;
    ReplaceAt(t, p, n.(children := n.children + [c]))
  }

  /** A fresh child appended under `p` is found by its name, after the old children. */
  lemma LookupAddChild(t: Node, p: Path, c: Node)
    requires Lookup(t, p).Some? && Lookup(t, p + [c.name]).None?
    ensures Lookup(AddChild(t, p, c), p) == Some(Lookup(t, p).value.(children := Lookup(t, p).value.children + [c]))
    ensures Lookup(AddChild(t, p, c), p + [c.name]) == Some(c)
  {
    var n := Lookup(t, p).value;
    var m := n.(children := n.children + [c]);
    LookupReplaceAt(t, p, m);
    LookupAppend(t, p, c.name);
    FirstIndexOfUnique(m.children, c.name, |n.children|);
    LookupAppend(AddChild(t, p, c), p, c.name);
  }

  /** Removes the first child of the node at `p` called `x`. */
  function RemoveChild(t: Node, p: Path, x: string): Node
    requires Lookup(t, p).Some?
  {
    var n := Lookup(t, p).value;
    var i := FirstIndexOf(n.children, x);
    if i == |n.children| then t
    else ReplaceAt(t, p, n.(children := n.children[..i] + n.children[i + 1..]))
  }

  /** Sets attribute `key` of the node at `p`; `None` (a Java `null`) removes it. */
  function PutAttr(t: Node, p: Path, key: string, v: Option<Value>): Node
    requires Lookup(t, p).Some?
  {
    var n := Lookup(t, p).value;
    ReplaceAt(t, p, n.(attrs := Upd(n.attrs, key, v)))
  }

  /** `map.put(key, v)` on attributes, where a `null` value removes the key. */
  function Upd(attrs: map<string, Value>, key: string, v: Option<Value>): (r: map<string, Value>)
    ensures forall k :: k != key ==> (k in r <==> k in attrs) && (k in r ==> r[k] == attrs[k])
    ensures v.Some? ==> key in r && r[key] == v.value
    ensures v.None? ==> key !in r
  {
    match v
    case Some(x) => attrs[key := x]
    case None => attrs - {key}
  }

  /** Setting an attribute on a node just put in place at `p` puts in place the updated node. */
  lemma PutAttrAgain(t: Node, p: Path, m: Node, key: string, v: Option<Value>)
    requires Lookup(t, p).Some? && m.name == Lookup(t, p).value.name
    ensures Lookup(ReplaceAt(t, p, m), p) == Some(m)
    ensures PutAttr(ReplaceAt(t, p, m), p, key, v) == ReplaceAt(t, p, m.(attrs := Upd(m.attrs, key, v)))
  {
    LookupReplaceAt(t, p, m);
    ReplaceAtTwice(t, p, m, m.(attrs := Upd(m.attrs, key, v)));
  }

  // ---------------------------------------------------------------------------
  // Growth: what a sequence of node creations can do to a tree

  /** Every node of `n` has type `ty` and no attributes: `n` was created in one go. */
  predicate AllCreatedAs(n: Node, ty: string)
    decreases n
  {
    && n.primaryType == ty
    && n.attrs == map[]
    && forall i :: 0 <= i < |n.children| ==> AllCreatedAs(n.children[i], ty)
  }

  /**
   * `b` arises from `a` by appending new nodes of type `ty` with no attributes:
   * every node of `a` keeps its name, type, attributes and position, and every
   * node of `b` that is not in `a` sits after the old children of its parent.
   */
  predicate GrowsWith(a: Node, b: Node, ty: string)
    decreases a
  {
    && a.name == b.name
    && a.primaryType == b.primaryType
    && a.attrs == b.attrs
    && |a.children| <= |b.children|
    && (forall i :: 0 <= i < |a.children| ==> GrowsWith(a.children[i], b.children[i], ty))
    && (forall i :: |a.children| <= i < |b.children| ==> AllCreatedAs(b.children[i], ty))
  }

  lemma {:induction false} GrowsWithRefl(a: Node, ty: string)
    ensures GrowsWith(a, a, ty)
    decreases a
  {
    forall i | 0 <= i < |a.children| ensures GrowsWith(a.children[i], a.children[i], ty) {
      GrowsWithRefl(a.children[i], ty);
    }
  }

  lemma {:induction false} AllCreatedAsGrows(b: Node, c: Node, ty: string)
    requires AllCreatedAs(b, ty) && GrowsWith(b, c, ty)
    ensures AllCreatedAs(c, ty)
    decreases b
  {
    forall i | 0 <= i < |b.children| ensures AllCreatedAs(c.children[i], ty) {
      AllCreatedAsGrows(b.children[i], c.children[i], ty);
    }
  }

  lemma {:induction false} GrowsWithTrans(a: Node, b: Node, c: Node, ty: string)
    requires GrowsWith(a, b, ty) && GrowsWith(b, c, ty)
    ensures GrowsWith(a, c, ty)
    decreases a
  {
    forall i | 0 <= i < |a.children| ensures GrowsWith(a.children[i], c.children[i], ty) {
      GrowsWithTrans(a.children[i], b.children[i], c.children[i], ty);
    }
    forall i | |a.children| <= i < |c.children| ensures AllCreatedAs(c.children[i], ty) {
      if i < |b.children| {
        AllCreatedAsGrows(b.children[i], c.children[i], ty);
      }
    }
  }

  /** A growth of the node at `p` is a growth of the whole tree. */
  lemma {:induction false} ReplaceAtGrows(t: Node, p: Path, m: Node, ty: string)
    requires Lookup(t, p).Some? && GrowsWith(Lookup(t, p).value, m, ty)
    ensures GrowsWith(t, ReplaceAt(t, p, m), ty)
    decreases |p|
  {
    if p != [] {
      var cs := t.children;
      var i := FirstIndexOf(cs, p[0]);
      var cs' := cs[i := ReplaceAt(cs[i], p[1..], m)];
      ReplaceAtGrows(cs[i], p[1..], m, ty);
      forall k | 0 <= k < |cs| ensures GrowsWith(cs[k], cs'[k], ty) {
        if k != i {
          GrowsWithRefl(cs[k], ty);
        }
      }
    }
  }

  /** Growth keeps every resource: each path of `a` still names a node of `b`. */
  lemma {:induction false} GrowsWithLookup(a: Node, b: Node, ty: string, q: Path)
    requires GrowsWith(a, b, ty) && Lookup(a, q).Some?
    ensures Lookup(b, q).Some? && GrowsWith(Lookup(a, q).value, Lookup(b, q).value, ty)
    decreases |q|
  {
    if q != [] {
      var i := FirstIndexOf(a.children, q[0]);
      FirstIndexOfUnique(b.children, q[0], i);
      GrowsWithLookup(a.children[i], b.children[i], ty, q[1..]);
    }
  }

  /** Appending a fresh leaf of type `ty` is a growth. */
  lemma AddChildGrows(t: Node, p: Path, c: Node, ty: string)
    requires Lookup(t, p).Some? && c.primaryType == ty && c.attrs == map[] && c.children == []
    ensures GrowsWith(t, AddChild(t, p, c), ty)
  {
    var n := Lookup(t, p).value;
    var m := n.(children := n.children + [c]);
    forall i | 0 <= i < |n.children| ensures GrowsWith(n.children[i], m.children[i], ty) {
      GrowsWithRefl(n.children[i], ty);
    }
    ReplaceAtGrows(t, p, m, ty);
  }

  // ---------------------------------------------------------------------------
  // String paths

  /** The position of the last `/` in `s`, or -1: Java's `lastIndexOf('/')`. */
  function LastSlash(s: string): (r: int)
    ensures -1 <= r < |s|
    ensures r >= 0 ==> s[r] == '/'
    ensures forall j :: r < j < |s| ==> s[j] != '/'
  {
    if s == [] then -1
    else if s[|s| - 1] == '/' then |s| - 1
    else LastSlash(s[..|s| - 1])
  }

  lemma LastSlashUnique(s: string, r: int)
    requires -1 <= r < |s|
    requires r >= 0 ==> s[r] == '/'
    requires forall j :: r < j < |s| ==> s[j] != '/'
    ensures LastSlash(s) == r
  {
  }

  /** A valid node name: not empty and without `/`. */
  predicate ValidName(x: string) {
    x != "" && '/' !in x
  }

  /**
   * The resource path an absolute path string names. The empty string and
   * relative paths name nothing, and so does a path with an empty segment.
   */
  function ParsePath(s: string): Option<Path>
    decreases |s|, 1
  {
    var k := LastSlash(s);
    if k < 0 then None else ParseParts(s[..k], s[k + 1..])
  }

  /** The resource path of `parent + "/" + name`. */
  function ParseParts(parent: string, name: string): Option<Path>
    decreases |parent| + 1, 0
  {
    if parent == "" then (if name == "" then Some([]) else Some([name]))
    else if name == "" then None
    else match ParsePath(parent)
      case None => None
      case Some(q) => Some(q + [name])
  }

  /** Appending `/` and a valid name to a path string appends that name to the path. */
  lemma ParsePathAppend(s: string, x: string)
    requires ValidName(x)
    ensures ParsePath(s + "/" + x) == ParseParts(s, x)
  {
    var u := s + "/" + x;
    forall j | |s| < j < |u| ensures u[j] != '/' {
      assert u[j] == x[j - |s| - 1];
    }
    LastSlashUnique(u, |s|);
    assert u[..|s|] == s && u[|s| + 1..] == x;
  }

  /** The string after the last `/` holds no `/`. */
  lemma LastSegmentHasNoSlash(s: string)
    requires LastSlash(s) >= 0
    ensures '/' !in s[LastSlash(s) + 1..]
    ensures s == s[..LastSlash(s)] + "/" + s[LastSlash(s) + 1..]
  {
    var k := LastSlash(s);
    var name := s[k + 1..];
    forall j | 0 <= j < |name| ensures name[j] != '/' {
      assert name[j] == s[k + 1 + j];
    }
  }

  /** `resource.getPath()`: the absolute path string of a resource path. */
  function PathString(p: Path): string
  {
    if p == [] then "/"
    else if |p| == 1 then "/" + p[0]
    else PathString(p[..|p| - 1]) + "/" + p[|p| - 1]
  }

  /** The path string of a child is its parent's path string, a slash and the child's name. */
  lemma PathStringAppend(p: Path, x: string)
    requires p != []
    ensures PathString(p + [x]) == PathString(p) + "/" + x
  {
    assert (p + [x])[..|p|] == p;
  }

  /** Resolving the path string of a resource finds that resource again. */
  lemma {:induction false} ParsePathString(p: Path)
    requires forall i :: 0 <= i < |p| ==> ValidName(p[i])
    ensures ParsePath(PathString(p)) == Some(p)
    decreases |p|
  {
    if p == [] {
      assert LastSlash("/") == 0;
      assert "/"[..0] == "" && "/"[1..] == "";
    } else if |p| == 1 {
      assert "/" + p[0] == "" + "/" + p[0];
      ParsePathAppend("", p[0]);
      assert [p[0]] == p;
    } else {
      var q := p[..|p| - 1];
      ParsePathString(q);
      ParsePathAppend(PathString(q), p[|p| - 1]);
      assert PathString(q) != "";
      assert q + [p[|p| - 1]] == p;
    }
  }

  /** The resource a path string names in `t`, if it exists. */
  function Resolve(t: Node, path: string): (r: Option<Path>)
    ensures r.Some? ==> ParsePath(path) == r && Lookup(t, r.value).Some?
    ensures r.None? ==> ParsePath(path).None? || Lookup(t, ParsePath(path).value).None?
  {
    match ParsePath(path)
    case None => None
    case Some(q) => if Lookup(t, q).Some? then Some(q) else None
  }

  // ---------------------------------------------------------------------------
  // The store session

  /**
   * A resource resolver: the session through which the history service reads
   * and changes the store. Changes are applied to `root` directly.
   */
  class ResourceResolver {
    var root: Node

    constructor (root: Node)
      ensures this.root == root
    {
      this.root := root;
    }

    /** `getResource(path)`: the resource a path string names, if it exists. */
    function GetResource(path: string): (r: Option<Path>)
      reads this
      ensures r.Some? ==> ParsePath(path) == r && Lookup(root, r.value).Some?
      ensures r.None? ==> ParsePath(path).None? || Lookup(root, ParsePath(path).value).None?
    {
      Resolve(root, path)
    }

    /**
     * `create(parent, name, {jcr:primaryType})`: appends a new node with no
     * other attributes; an invalid or already taken name fails (a
     * PersistenceException) and changes nothing.
     */
    method Create(parent: Path, name: string, primaryType: string) returns (ok: bool)
      requires Lookup(root, parent).Some?
      modifies this
      ensures ok <==> ValidName(name) && Lookup(old(root), parent + [name]).None?
      ensures root == if ok then AddChild(old(root), parent, Node(name, primaryType, map[], [])) else old(root)
    {
      ok := ValidName(name) && Lookup(root, parent + [name]).None?;
      if ok {
        root := AddChild(root, parent, Node(name, primaryType, map[], []));
      }
    }

    /** `delete(resource)`: removes the resource with its whole subtree. */
    method Delete(path: Path)
      requires |path| > 0 && Lookup(root, path).Some?
      modifies this
      ensures Lookup(old(root), path[..|path| - 1]).Some?
      ensures root == RemoveChild(old(root), path[..|path| - 1], path[|path| - 1])
    {
      LookupParent(root, path);
      root := RemoveChild(root, path[..|path| - 1], path[|path| - 1]);
    }

    /** `ModifiableValueMap.put(key, value)` on the resource at `path`; a `null` value removes the key. */
    method Put(path: Path, key: string, value: Option<Value>)
      requires Lookup(root, path).Some?
      modifies this
      ensures root == PutAttr(old(root), path, key, value)
    {
      root := PutAttr(root, path, key, value);
    }
  }
}
