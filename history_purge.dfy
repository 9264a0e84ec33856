/**
 * Purging the history: the date buckets below the history root are compared
 * with a cutoff date level by level (year, then month, then day). A bucket
 * older than the cutoff is deleted with everything below it, a younger one is
 * kept, and the bucket equal to the cutoff is examined one level deeper; at
 * the day level the equal bucket ends the scan of its siblings.
 */
module HistoryPurge {
  import opened Wrappers
  import opened ResourceStore
  import opened Numerals
  import opened HistoryLayout

  // ---------------------------------------------------------------------------
  // What happens to one child

  /** What the purge does with one child of the list it scans. */
  datatype Verdict =
    | Other      // a name that is not a number: left alone
    | Young      // a bucket after the cutoff: kept whole
    | Descend    // the cutoff's bucket above the day level: its children are scanned
    | Stop       // the cutoff's day bucket: kept, and the scan of this list ends
    | Expired    // a bucket before the cutoff: deleted with its subtree

  /** The verdict on a child called `name` when the list is scanned by `fields[0]`. */
  function Classify(name: string, cutoff: Date, fields: seq<Field>): Verdict
    requires fields != []
  {
    if !IsNumeric(name) then Other
    else
      var value := DecimalValue(name);
      var limit := BucketValue(cutoff, fields[0]);
      if value > limit then Young
      else if value == limit then (if |fields| == 1 then Stop else Descend)
      else Expired
  }

  /**
   * deleteRecursive on the children `cs`: what is left of them once the scan
   * by `fields` has run.
   */
  function Purge(cs: seq<Node>, cutoff: Date, fields: seq<Field>): (r: seq<Node>)
    requires fields != []
    ensures |r| <= |cs|
    decreases |fields|, |cs|
  {
    if cs == [] then []
    else
      var c := cs[0];
      match Classify(c.name, cutoff, fields)
      case Other => [c] + Purge(cs[1..], cutoff, fields)
      case Young => [c] + Purge(cs[1..], cutoff, fields)
      case Descend => [c.(children := Purge(c.children, cutoff, fields[1..]))] + Purge(cs[1..], cutoff, fields)
      case Stop => cs
      case Expired => Purge(cs[1..], cutoff, fields)
  }

  /** The node `n` once its children are purged by `fields`. */
  function PurgeNode(n: Node, cutoff: Date, fields: seq<Field>): Node
    requires fields != []
  {
    n.(children := Purge(n.children, cutoff, fields))
  }

  // ---------------------------------------------------------------------------
  // The verdicts

  /** The month a bucket stores counts from 1 and the cutoff's from 0; shifting the cutoff compares like with like. */
  lemma MonthVerdict(written: Date, cutoff: Date)
    ensures Classify(Decimal(written.month0 + 1), cutoff, [Month, DayOfMonth])
         == if written.month0 > cutoff.month0 then Young
            else if written.month0 == cutoff.month0 then Descend
            else Expired
  {
    DecimalRoundTrip(written.month0 + 1);
  }

  /**
   * The bucket a date is written to is compared with the cutoff field by
   * field: kept whole when younger, deleted when older, and examined further
   * when equal (or, at the day level, kept and the scan stopped).
   */
  lemma BucketVerdict(written: Date, cutoff: Date, level: nat)
    requires level < |FIELDS|
    ensures Classify(Decimal(BucketValue(written, FIELDS[level])), cutoff, FIELDS[level..])
         == var w := BucketValue(written, FIELDS[level]);
            var c := BucketValue(cutoff, FIELDS[level]);
            if w > c then Young else if w < c then Expired else if level == 2 then Stop else Descend
  {
    DecimalRoundTrip(BucketValue(written, FIELDS[level]));
  }

  /** A child whose name is not a number, or that is younger than the cutoff, is kept unchanged. */
  lemma {:induction false} PurgeKeeps(cs: seq<Node>, cutoff: Date, fields: seq<Field>, i: nat)
    requires fields != [] && i < |cs|
    requires Classify(cs[i].name, cutoff, fields) in {Other, Young}
    ensures cs[i] in Purge(cs, cutoff, fields)
    decreases i
  {
    if i > 0 && !Classify(cs[0].name, cutoff, fields).Stop? {
      PurgeKeeps(cs[1..], cutoff, fields, i - 1);
    }
  }

  /** The child equal to the cutoff above the day level is kept, with its own children purged by the next field. */
  lemma {:induction false} PurgeDescends(cs: seq<Node>, cutoff: Date, fields: seq<Field>, i: nat)
    requires fields != [] && i < |cs|
    requires Classify(cs[i].name, cutoff, fields) == Descend
    ensures |fields| > 1 && PurgeNode(cs[i], cutoff, fields[1..]) in Purge(cs, cutoff, fields)
    decreases i
  {
    if i > 0 {
      PurgeDescends(cs[1..], cutoff, fields, i - 1);
    }
  }

  /** The names of the children that survive. */
  function Names(cs: seq<Node>): set<string> {
    set c | c in cs :: c.name
  }

  /** The purge introduces no name. */
  lemma {:induction false} PurgeNames(cs: seq<Node>, cutoff: Date, fields: seq<Field>)
    requires fields != []
    ensures Names(Purge(cs, cutoff, fields)) <= Names(cs)
    decreases |cs|
  {
    if cs != [] {
      PurgeNames(cs[1..], cutoff, fields);
      assert Names(cs) == {cs[0].name} + Names(cs[1..]);
    }
  }

  /** No child before position `i` is the cutoff's day bucket. */
  predicate ScannedUpTo(cs: seq<Node>, cutoff: Date, fields: seq<Field>, i: nat)
    requires fields != [] && i <= |cs|
  {
    forall j {:trigger Classify(cs[j].name, cutoff, fields)} :: 0 <= j < i ==> Classify(cs[j].name, cutoff, fields) != Stop
  }

  /** A child older than the cutoff that the scan reaches is deleted: no survivor carries its name. */
  lemma {:induction false} PurgeDeletes(cs: seq<Node>, cutoff: Date, fields: seq<Field>, i: nat)
    requires fields != [] && i < |cs| && UniqueNames(cs)
    requires Classify(cs[i].name, cutoff, fields) == Expired && ScannedUpTo(cs, cutoff, fields, i)
    ensures cs[i].name !in Names(Purge(cs, cutoff, fields))
    decreases i
  {
    var rest := cs[1..];
    if i == 0 {
      PurgeNames(rest, cutoff, fields);
      assert cs[0].name !in Names(rest) by {
        forall j | 0 <= j < |rest| ensures rest[j].name != cs[0].name {
          assert rest[j] == cs[j + 1];
        }
      }
    } else {
      assert UniqueNames(rest) by {
        forall j, k | 0 <= j < k < |rest| ensures rest[j].name != rest[k].name {
          assert rest[j] == cs[j + 1] && rest[k] == cs[k + 1];
        }
      }
      assert cs[0].name != cs[i].name;
      assert ScannedUpTo(rest, cutoff, fields, i - 1) by {
        forall j | 0 <= j < i - 1 ensures Classify(rest[j].name, cutoff, fields) != Stop {
          assert rest[j] == cs[j + 1];
        }
      }
      assert Classify(cs[0].name, cutoff, fields) != Stop;
      PurgeDeletes(rest, cutoff, fields, i - 1);
    }
  }

  /** Before the cutoff's day bucket, the scan of a list is the scan of its parts. */
  lemma {:induction false} PurgeSplit(a: seq<Node>, b: seq<Node>, cutoff: Date, fields: seq<Field>)
    requires fields != [] && ScannedUpTo(a, cutoff, fields, |a|)
    ensures Purge(a + b, cutoff, fields) == Purge(a, cutoff, fields) + Purge(b, cutoff, fields)
    decreases |a|
  {
    if a == [] {
      assert a + b == b;
    } else {
      assert (a + b)[0] == a[0] && (a + b)[1..] == a[1..] + b;
      assert ScannedUpTo(a[1..], cutoff, fields, |a| - 1) by {
        forall j | 0 <= j < |a| - 1 ensures Classify(a[1..][j].name, cutoff, fields) != Stop {
          assert a[1..][j] == a[j + 1];
        }
      }
      assert Classify(a[0].name, cutoff, fields) != Stop;
      PurgeSplit(a[1..], b, cutoff, fields);
    }
  }

  /**
   * The quirk of the day level: once the scan meets the cutoff's day bucket it
   * ends, so that bucket and every sibling after it are left as they are,
   * older ones included.
   */
  lemma PurgeStops(cs: seq<Node>, cutoff: Date, fields: seq<Field>, i: nat)
    requires fields != [] && i < |cs|
    requires Classify(cs[i].name, cutoff, fields) == Stop && ScannedUpTo(cs, cutoff, fields, i)
    ensures Purge(cs, cutoff, fields) == Purge(cs[..i], cutoff, fields) + cs[i..]
  {
    assert cs[..i] + cs[i..] == cs;
    assert ScannedUpTo(cs[..i], cutoff, fields, i);
    PurgeSplit(cs[..i], cs[i..], cutoff, fields);
    assert cs[i..][0] == cs[i];
  }

  /** Scanning one more child extends the result by what the purge makes of that child alone. */
  lemma PurgeExtend(cs: seq<Node>, cutoff: Date, fields: seq<Field>, i: nat)
    requires fields != [] && i < |cs| && ScannedUpTo(cs, cutoff, fields, i)
    ensures Purge(cs[..i + 1], cutoff, fields) == Purge(cs[..i], cutoff, fields) + Purge([cs[i]], cutoff, fields)
  {
    assert cs[..i + 1] == cs[..i] + [cs[i]];
    assert ScannedUpTo(cs[..i], cutoff, fields, i);
    PurgeSplit(cs[..i], [cs[i]], cutoff, fields);
  }

  /** A second purge with the same cutoff changes nothing. */
  lemma {:induction false} PurgeIdempotent(cs: seq<Node>, cutoff: Date, fields: seq<Field>)
    requires fields != []
    ensures Purge(Purge(cs, cutoff, fields), cutoff, fields) == Purge(cs, cutoff, fields)
    decreases |fields|, |cs|
  {
    if cs != [] {
      var c := cs[0];
      var rest := Purge(cs[1..], cutoff, fields);
      match Classify(c.name, cutoff, fields)
      case Other =>
        PurgeIdempotent(cs[1..], cutoff, fields);
        assert ([c] + rest)[1..] == rest;
      case Young =>
        PurgeIdempotent(cs[1..], cutoff, fields);
        assert ([c] + rest)[1..] == rest;
      case Descend =>
        var c' := c.(children := Purge(c.children, cutoff, fields[1..]));
        PurgeIdempotent(cs[1..], cutoff, fields);
        PurgeIdempotent(c.children, cutoff, fields[1..]);
        assert ([c'] + rest)[0] == c' && ([c'] + rest)[1..] == rest;
      case Stop =>
      case Expired =>
        PurgeIdempotent(cs[1..], cutoff, fields);
    }
  }

  // ---------------------------------------------------------------------------
  // The purge only deletes

  /**
   * `y` is `x` with some subtrees deleted: the same name, type and attributes,
   * and as children pruned copies of some of the children of `x`, in their order.
   */
  predicate Prunes(x: Node, y: Node)
    decreases x, 1
  {
    && x.name == y.name
    && x.primaryType == y.primaryType
    && x.attrs == y.attrs
    && PrunesFrom(x, 0, y.children)
  }

  /** `ys` are pruned copies of some of the children of `x` from position `i` on, in their order. */
  predicate PrunesFrom(x: Node, i: nat, ys: seq<Node>)
    requires i <= |x.children|
    decreases x, 0, |x.children| - i
  {
    if ys == [] then true
    else if i == |x.children| then false
    else (Prunes(x.children[i], ys[0]) && PrunesFrom(x, i + 1, ys[1..])) || PrunesFrom(x, i + 1, ys)
  }

  /** Deleting nothing is pruning. */
  lemma {:induction false} PrunesRefl(x: Node)
    ensures Prunes(x, x)
    decreases x, 1
  {
    PrunesFromRefl(x, 0);
  }

  lemma {:induction false} PrunesFromRefl(x: Node, i: nat)
    requires i <= |x.children|
    ensures PrunesFrom(x, i, x.children[i..])
    decreases x, 0, |x.children| - i
  {
    if i < |x.children| {
      PrunesRefl(x.children[i]);
      PrunesFromRefl(x, i + 1);
      assert x.children[i..][1..] == x.children[i + 1..];
    }
  }

  /** Purging the children of `x` from position `i` on prunes them. */
  lemma {:induction false} PurgePrunesFrom(x: Node, i: nat, cutoff: Date, fields: seq<Field>)
    requires fields != [] && i <= |x.children|
    ensures PrunesFrom(x, i, Purge(x.children[i..], cutoff, fields))
    decreases x, |x.children| - i
  {
    if i < |x.children| {
      var c := x.children[i];
      var cs := x.children[i..];
      assert cs[0] == c && cs[1..] == x.children[i + 1..];
      var rest := Purge(cs[1..], cutoff, fields);
      match Classify(c.name, cutoff, fields)
      case Other =>
        PrunesRefl(c);
        PurgePrunesFrom(x, i + 1, cutoff, fields);
        assert ([c] + rest)[0] == c && ([c] + rest)[1..] == rest;
      case Young =>
        PrunesRefl(c);
        PurgePrunesFrom(x, i + 1, cutoff, fields);
        assert ([c] + rest)[0] == c && ([c] + rest)[1..] == rest;
      case Descend =>
        var c' := c.(children := Purge(c.children, cutoff, fields[1..]));
        PurgePrunesFrom(c, 0, cutoff, fields[1..]);
        assert c.children[0..] == c.children;
        assert Prunes(c, c');
        PurgePrunesFrom(x, i + 1, cutoff, fields);
        assert ([c'] + rest)[0] == c' && ([c'] + rest)[1..] == rest;
      case Stop =>
        PrunesFromRefl(x, i);
      case Expired =>
        PurgePrunesFrom(x, i + 1, cutoff, fields);
    }
  }

  /** Purging the children of a node only deletes subtrees: nothing is added, moved or edited. */
  lemma PurgeOnlyDeletes(n: Node, cutoff: Date, fields: seq<Field>)
    requires fields != []
    ensures Prunes(n, PurgeNode(n, cutoff, fields))
  {
    PurgePrunesFrom(n, 0, cutoff, fields);
    assert n.children[0..] == n.children;
  }

  // ---------------------------------------------------------------------------
  // The purge on the store

  /**
   * Down `depth` levels of children, sibling names are unique (an ordered
   * folder has no same-name siblings) and every numeric name fits a Java
   * `int`, so that `Integer.parseInt` accepts it.
   */
  predicate Purgeable(cs: seq<Node>, depth: nat)
    decreases depth
  {
    && Distinct(cs)
    && (forall i {:trigger FitsInt(cs[i].name)} :: 0 <= i < |cs| ==> FitsInt(cs[i].name))
    && (depth > 1 ==> forall i {:trigger Purgeable(cs[i].children, depth - 1)} :: 0 <= i < |cs| ==> Purgeable(cs[i].children, depth - 1))
  }

  /** `Integer.parseInt` accepts a numeric name. */
  predicate FitsInt(name: string) {
    IsNumeric(name) ==> DecimalValue(name) <= MAX_INT
  }

  /** The store while the children of `parent` are scanned: `kept` is what is left of those already seen. */
  function Scanning(t: Node, parent: Path, n: Node, kept: seq<Node>, rest: seq<Node>): Node {
    ReplaceAt(t, parent, n.(children := kept + rest))
  }

  /** A kept child extends the scanned part by itself. */
  lemma KeepStep(cs: seq<Node>, cutoff: Date, fields: seq<Field>, i: nat)
    requires fields != [] && i < |cs| && ScannedUpTo(cs, cutoff, fields, i)
    requires Classify(cs[i].name, cutoff, fields) in {Other, Young}
    ensures Purge(cs[..i + 1], cutoff, fields) == Purge(cs[..i], cutoff, fields) + [cs[i]]
    ensures ScannedUpTo(cs, cutoff, fields, i + 1)
  {
    PurgeExtend(cs, cutoff, fields, i);
    assert [cs[i]][1..] == [];
  }

  /** The cutoff's bucket above the day level extends the scanned part by its purged copy. */
  lemma DescendStep(cs: seq<Node>, cutoff: Date, fields: seq<Field>, i: nat)
    requires fields != [] && i < |cs| && ScannedUpTo(cs, cutoff, fields, i)
    requires Classify(cs[i].name, cutoff, fields) == Descend
    ensures Purge(cs[..i + 1], cutoff, fields) == Purge(cs[..i], cutoff, fields) + [PurgeNode(cs[i], cutoff, fields[1..])]
    ensures ScannedUpTo(cs, cutoff, fields, i + 1)
  {
    PurgeExtend(cs, cutoff, fields, i);
    assert [cs[i]][1..] == [];
  }

  /** An expired child leaves the scanned part as it was. */
  lemma ExpiredStep(cs: seq<Node>, cutoff: Date, fields: seq<Field>, i: nat)
    requires fields != [] && i < |cs| && ScannedUpTo(cs, cutoff, fields, i)
    requires Classify(cs[i].name, cutoff, fields) == Expired
    ensures Purge(cs[..i + 1], cutoff, fields) == Purge(cs[..i], cutoff, fields)
    ensures ScannedUpTo(cs, cutoff, fields, i + 1)
  {
    PurgeExtend(cs, cutoff, fields, i);
    assert [cs[i]][1..] == [];
  }

  /** No node of `s` is called `x`. */
  predicate NoneNamed(s: seq<Node>, x: string)
    decreases |s|
  {
    s == [] || (s[|s| - 1].name != x && NoneNamed(s[..|s| - 1], x))
  }

  lemma {:induction false} NoneNamedSpec(s: seq<Node>, x: string)
    ensures NoneNamed(s, x) <==> forall j :: 0 <= j < |s| ==> s[j].name != x
    decreases |s|
  {
    if s != [] {
      NoneNamedSpec(s[..|s| - 1], x);
    }
  }

  /**
   * `UniqueNames`, stated node by node from the back: each node's name is
   * not used before it. The purge's invariants use this form, which unfolds
   * one node at a time instead of quantifying over all pairs.
   */
  predicate Distinct(s: seq<Node>)
    decreases |s|
  {
    s == [] || (NoneNamed(s[..|s| - 1], s[|s| - 1].name) && Distinct(s[..|s| - 1]))
  }

  /** The two forms of unique sibling names agree. */
  lemma {:induction false} DistinctNames(s: seq<Node>)
    ensures Distinct(s) <==> UniqueNames(s)
    decreases |s|
  {
    if s != [] {
      var init := s[..|s| - 1];
      DistinctNames(init);
      NoneNamedSpec(init, s[|s| - 1].name);
      if UniqueNames(s) {
        assert UniqueNames(init) by {
          forall i, j | 0 <= i < j < |init| ensures init[i].name != init[j].name {
            assert init[i] == s[i] && init[j] == s[j];
          }
        }
      }
    }
  }

  /**
   * Scanning in order, no name of a child still to be scanned is among the
   * names of what was kept, as long as sibling names are unique.
   */
  predicate FreshAhead(cs: seq<Node>, i: nat, kept: seq<Node>)
    requires i <= |cs|
  {
    forall k {:trigger NoneNamed(kept, cs[k].name)} :: i <= k < |cs| ==> NoneNamed(kept, cs[k].name)
  }

  /** Keeping a copy of the next child, under its own name, keeps the names ahead fresh. */
  lemma FreshAfterKeep(cs: seq<Node>, i: nat, kept: seq<Node>, c: Node)
    requires Distinct(cs) && i < |cs| && FreshAhead(cs, i, kept) && c.name == cs[i].name
    ensures FreshAhead(cs, i + 1, kept + [c])
  {
    DistinctNames(cs);
    forall k | i + 1 <= k < |cs| ensures NoneNamed(kept + [c], cs[k].name) {
      assert (kept + [c])[..|kept|] == kept;
    }
  }

  /** The next child to be scanned is the first child of `parent` with its name. */
  lemma ScanFind(t: Node, parent: Path, n: Node, kept: seq<Node>, c: Node, rest: seq<Node>)
    requires Lookup(t, parent) == Some(n) && NoneNamed(kept, c.name)
    ensures Scanning(t, parent, n, kept, [c] + rest) == ReplaceAt(t, parent, n.(children := kept + [c] + rest))
    ensures Lookup(Scanning(t, parent, n, kept, [c] + rest), parent) == Some(n.(children := kept + [c] + rest))
    ensures FirstIndexOf(kept + [c] + rest, c.name) == |kept|
  {
    var cs := kept + [c] + rest;
    assert kept + ([c] + rest) == cs;
    LookupReplaceAt(t, parent, n.(children := cs));
    assert cs[|kept|] == c;
    NoneNamedSpec(kept, c.name);
    forall j | 0 <= j < |kept| ensures cs[j].name != c.name {
      assert cs[j] == kept[j];
    }
    FirstIndexOfUnique(cs, c.name, |kept|);
  }

  /** The next child to be scanned is found by its name, and deleting it drops it from the list. */
  lemma ScanDelete(t: Node, parent: Path, n: Node, kept: seq<Node>, c: Node, rest: seq<Node>)
    requires Lookup(t, parent) == Some(n) && NoneNamed(kept, c.name)
    ensures Lookup(Scanning(t, parent, n, kept, [c] + rest), parent).Some?
    ensures Lookup(Scanning(t, parent, n, kept, [c] + rest), parent + [c.name]) == Some(c)
    ensures RemoveChild(Scanning(t, parent, n, kept, [c] + rest), parent, c.name) == Scanning(t, parent, n, kept, rest)
  {
    var cs := kept + [c] + rest;
    ScanFind(t, parent, n, kept, c, rest);
    LookupAppend(Scanning(t, parent, n, kept, [c] + rest), parent, c.name);
    assert cs[..|kept|] + cs[|kept| + 1..] == kept + rest;
    ReplaceAtTwice(t, parent, n.(children := cs), n.(children := kept + rest));
  }

  /** Replacing the next child by a node of the same name moves it to the scanned part. */
  lemma ScanReplace(t: Node, parent: Path, n: Node, kept: seq<Node>, c: Node, rest: seq<Node>, c': Node)
    requires Lookup(t, parent) == Some(n) && NoneNamed(kept, c.name) && c'.name == c.name
    ensures ReplaceAt(Scanning(t, parent, n, kept, [c] + rest), parent + [c.name], c')
         == Scanning(t, parent, n, kept + [c'], rest)
  {
    var cs := kept + [c] + rest;
    var m := n.(children := cs);
    ScanFind(t, parent, n, kept, c, rest);
    ReplaceAtChild(Scanning(t, parent, n, kept, [c] + rest), parent, m, c.name, c');
    assert cs[|kept| := c'] == (kept + [c']) + rest;
    ReplaceAtTwice(t, parent, m, n.(children := (kept + [c']) + rest));
  }

  /**
   * The scan of the children of the node `n` at `parent` in the store `t`,
   * after `i` of them: `root` holds `kept`, what is left of the first `i`,
   * followed by the others as they were.
   */
  predicate Scanned(root: Node, t: Node, parent: Path, n: Node, i: nat, kept: seq<Node>, cutoff: Date, fields: seq<Field>)
  {
    && fields != [] && i <= |n.children|
    && Lookup(t, parent) == Some(n)
    && root == Scanning(t, parent, n, kept, n.children[i..])
    && kept == Purge(n.children[..i], cutoff, fields) && ScannedUpTo(n.children, cutoff, fields, i)
    && FreshAhead(n.children, i, kept)
  }

  /** A child that is not a bucket, or a bucket younger than the cutoff, is kept as it is. */
  lemma KeepChild(root: Node, t: Node, parent: Path, n: Node, i: nat, kept: seq<Node>, cutoff: Date, fields: seq<Field>)
    requires Scanned(root, t, parent, n, i, kept, cutoff, fields) && i < |n.children| && Distinct(n.children)
    requires Classify(n.children[i].name, cutoff, fields) in {Other, Young}
    ensures Scanned(root, t, parent, n, i + 1, kept + [n.children[i]], cutoff, fields)
  {
    KeepStep(n.children, cutoff, fields, i);
    FreshAfterKeep(n.children, i, kept, n.children[i]);
    ScanAdvance(t, parent, n, kept, i);
  }

  /** Moving the next child as it is from the rest to the scanned part leaves the store as it is. */
  lemma ScanAdvance(t: Node, parent: Path, n: Node, kept: seq<Node>, i: nat)
    requires i < |n.children|
    ensures Scanning(t, parent, n, kept, n.children[i..]) == Scanning(t, parent, n, kept + [n.children[i]], n.children[i + 1..])
  {
    var cs := n.children;
    assert cs[i..] == [cs[i]] + cs[i + 1..];
    assert kept + ([cs[i]] + cs[i + 1..]) == (kept + [cs[i]]) + cs[i + 1..];
  }

  /** Deletes the next child to be scanned, a bucket older than the cutoff, with everything below it. */
  method DeleteChild(resolver: ResourceResolver, ghost t: Node, parent: Path, n: Node, i: nat, ghost kept: seq<Node>,
                     cutoff: Date, fields: seq<Field>)
    requires Scanned(resolver.root, t, parent, n, i, kept, cutoff, fields) && i < |n.children|
    requires Classify(n.children[i].name, cutoff, fields) == Expired
    modifies resolver
    ensures Scanned(resolver.root, t, parent, n, i + 1, kept, cutoff, fields)
  {
    ghost var cs := n.children;
    var resource := n.children[i];
    assert cs[i..] == [resource] + cs[i + 1..];
    assert NoneNamed(kept, cs[i].name);
    ScanDelete(t, parent, n, kept, resource, cs[i + 1..]);
    resolver.Delete(parent + [resource.name]);
    assert (parent + [resource.name])[..|parent|] == parent;
    ExpiredStep(cs, cutoff, fields, i);
  }

  /** Purges below the next child to be scanned, the cutoff's bucket, by the remaining fields. */
  method DescendChild(resolver: ResourceResolver, ghost t: Node, parent: Path, n: Node, i: nat, ghost kept: seq<Node>,
                      cutoff: Date, fields: seq<Field>)
    requires Scanned(resolver.root, t, parent, n, i, kept, cutoff, fields) && i < |n.children| && Distinct(n.children)
    requires Classify(n.children[i].name, cutoff, fields) == Descend
    requires Purgeable(n.children[i].children, |fields| - 1)
    modifies resolver
    ensures Scanned(resolver.root, t, parent, n, i + 1, kept + [PurgeNode(n.children[i], cutoff, fields[1..])], cutoff, fields)
    decreases |fields|, 0
  {
    ghost var cs := n.children;
    var resource := n.children[i];
    assert cs[i..] == [resource] + cs[i + 1..];
    assert NoneNamed(kept, cs[i].name);
    ScanDelete(t, parent, n, kept, resource, cs[i + 1..]);
    DeleteRecursive(resolver, parent + [resource.name], cutoff, fields[1..]);
    ghost var purged := PurgeNode(resource, cutoff, fields[1..]);
    ScanReplace(t, parent, n, kept, resource, cs[i + 1..], purged);
    DescendStep(cs, cutoff, fields, i);
    FreshAfterKeep(cs, i, kept, purged);
  }

  /**
   * One turn of the loop of deleteRecursive, on the child at `i`: compares
   * its name, read as a number, with the cutoff's value of `fields[0]`.
   * `stop` is set at the cutoff's day bucket, where the scan ends with the
   * purge complete.
   */
  method ScanChild(resolver: ResourceResolver, ghost t: Node, parent: Path, n: Node, i: nat, ghost kept: seq<Node>,
                   cutoff: Date, fields: seq<Field>)
    returns (stop: bool, ghost kept': seq<Node>)
    requires Scanned(resolver.root, t, parent, n, i, kept, cutoff, fields) && i < |n.children|
    requires Purgeable(n.children, |fields|)
    modifies resolver
    ensures stop ==> resolver.root == ReplaceAt(t, parent, PurgeNode(n, cutoff, fields))
    ensures !stop ==> Scanned(resolver.root, t, parent, n, i + 1, kept', cutoff, fields)
    decreases |fields|, 1
  {
    var name := n.children[i].name;
    stop, kept' := false, kept;
    if !IsNumeric(name) {
      // not a bucket, such as an access-control node: skipped
      assert Classify(name, cutoff, fields) == Other;
      KeepChild(resolver.root, t, parent, n, i, kept, cutoff, fields);
      kept' := kept + [n.children[i]];
    } else {
      var nodeValue := DecimalValue(name);
      var limit := BucketValue(cutoff, fields[0]);
      if nodeValue > limit {
        assert Classify(name, cutoff, fields) == Young;
        KeepChild(resolver.root, t, parent, n, i, kept, cutoff, fields);
        kept' := kept + [n.children[i]];
      } else if nodeValue == limit {
        if |fields| == 1 {
          assert Classify(name, cutoff, fields) == Stop;
          PurgeStops(n.children, cutoff, fields, i);
          return true, kept;
        }
        assert Classify(name, cutoff, fields) == Descend;
        DescendChild(resolver, t, parent, n, i, kept, cutoff, fields);
        kept' := kept + [PurgeNode(n.children[i], cutoff, fields[1..])];
      } else {
        assert Classify(name, cutoff, fields) == Expired;
        DeleteChild(resolver, t, parent, n, i, kept, cutoff, fields);
      }
    }
  }

  /**
   * deleteRecursive: scans the children of the resource at `parent` by
   * `fields[0]`, deleting the older buckets, descending into the equal one
   * with the remaining fields and returning at the equal day bucket.
   */
  method DeleteRecursive(resolver: ResourceResolver, parent: Path, cutoff: Date, fields: seq<Field>)
    requires fields != [] && Lookup(resolver.root, parent).Some?
    requires Purgeable(Lookup(resolver.root, parent).value.children, |fields|)
    modifies resolver
    ensures resolver.root
         == ReplaceAt(old(resolver.root), parent, PurgeNode(old(Lookup(resolver.root, parent).value), cutoff, fields))
    decreases |fields|, 2
  {
    ghost var t := resolver.root;
    var n := Lookup(resolver.root, parent).value;
    ghost var kept: seq<Node> := [];
    var i := 0;
    assert n.children[0..] == n.children && [] + n.children == n.children && n.children[..0] == [];
    ReplaceAtSame(t, parent);
    while i < |n.children|
      invariant Scanned(resolver.root, t, parent, n, i, kept, cutoff, fields)
      decreases |n.children| - i
    {
      var stop;
      stop, kept := ScanChild(resolver, t, parent, n, i, kept, cutoff, fields);
      if stop {
        return;
      }
      i := i + 1;
    }
    assert n.children[..i] == n.children && kept + n.children[i..] == kept;
  }

  /**
   * purgeHistory: purges the year buckets below the history root against the
   * cutoff date; without a history root there is nothing to list (a
   * NullPointerException), reported as `false`.
   */
  method PurgeHistory(resolver: ResourceResolver, cutoff: Date) returns (ok: bool)
    requires Lookup(resolver.root, BASE).Some? ==> Purgeable(Lookup(resolver.root, BASE).value.children, |FIELDS|)
    modifies resolver
    ensures ok <==> old(Lookup(resolver.root, BASE)).Some?
    ensures ok ==> (resolver.root
                 == ReplaceAt(old(resolver.root), BASE, PurgeNode(old(Lookup(resolver.root, BASE).value), cutoff, FIELDS)))
    ensures !ok ==> resolver.root == old(resolver.root)
  {
    ParseHistoryBase();
    var base := resolver.GetResource(HISTORY_BASE);
    if base.None? {
      return false;
    }
    DeleteRecursive(resolver, base.value, cutoff, FIELDS);
    ok := true;
  }
}
