/**
 * Paging through a chain in which every element names the one before it:
 * `Walk` skips elements, `Collect` gathers a page. The history pages through
 * its entries this way, with "the previous history entry" as the step.
 */
module Paging {
  import opened Wrappers

  /** The number of times `for (int i = 0; i < x; i++)` runs its body. */
  function Iterations(x: int): nat {
    if x > 0 then x else 0
  }

  /** The element reached from `current` by `k` steps; none once the chain has run out. */
  function Walk<T>(next: T -> Option<T>, current: Option<T>, k: nat): (r: Option<T>)
    ensures current.None? ==> r.None?
    decreases k
  {
    if k == 0 then current
    else match current
      case None => None
      case Some(c) => Walk(next, next(c), k - 1)
  }

  /** Up to `count` elements from `current` on, each the step from the one before. */
  function Collect<T>(next: T -> Option<T>, current: Option<T>, count: nat): (r: seq<T>)
    ensures |r| <= count
    ensures count > 0 && current.Some? ==> r != [] && r[0] == current.value
    decreases count
  {
    if count == 0 then []
    else match current
      case None => []
      case Some(c) => [c] + Collect(next, next(c), count - 1)
  }

  /** Once the walk has run out it stays out. */
  lemma {:induction false} WalkStaysOut<T>(next: T -> Option<T>, current: Option<T>, i: nat, k: nat)
    requires i <= k && Walk(next, current, k).Some?
    ensures Walk(next, current, i).Some?
    decreases i
  {
    if i > 0 {
      WalkStaysOut(next, next(current.value), i - 1, k - 1);
    }
  }

  /** One more step of the walk is one step from where the walk stands. */
  lemma {:induction false} WalkStep<T>(next: T -> Option<T>, current: Option<T>, k: nat)
    requires Walk(next, current, k).Some?
    ensures Walk(next, current, k + 1) == next(Walk(next, current, k).value)
    decreases k
  {
    if k > 0 {
      WalkStep(next, next(current.value), k - 1);
    }
  }

  /** A property that every step keeps holds of everything the walk reaches. */
  lemma {:induction false} WalkKeeps<T>(inside: T -> bool, next: T -> Option<T>, current: Option<T>, k: nat)
    requires current.Some? ==> inside(current.value)
    requires forall c :: inside(c) && next(c).Some? ==> inside(next(c).value)
    ensures var r := Walk(next, current, k); r.Some? ==> inside(r.value)
    decreases k
  {
    if k > 0 && current.Some? {
      WalkKeeps(inside, next, next(current.value), k - 1);
    }
  }

  /**
   * The skipping loop of a pager: `steps` steps from `first`. The caller
   * guarantees that the chain does not run out before the last step, where
   * the code being modelled would dereference a missing element.
   */
  method Skip<T>(next: T -> Option<T>, first: T, steps: int) returns (current: Option<T>)
    requires steps <= 0 || Walk(next, Some(first), steps - 1).Some?
    ensures current == Walk(next, Some(first), Iterations(steps))
  {
    current := Some(first);
    var i := 0;
    while i < steps
      invariant 0 <= i <= Iterations(steps)
      invariant current == Walk(next, Some(first), i)
    {
      WalkStaysOut(next, Some(first), i, steps - 1);
      WalkStep(next, Some(first), i);
      current := next(current.value);
      i := i + 1;
    }
  }

  /** `read` applied to each of `ps`, in order. */
  function MapAll<T, E>(read: T --> E, ps: seq<T>): (r: seq<E>)
    requires forall i :: 0 <= i < |ps| ==> read.requires(ps[i])
    ensures |r| == |ps|
    ensures forall i :: 0 <= i < |ps| ==> r[i] == read(ps[i])
  {
    if ps == [] then [] else MapAll(read, ps[..|ps| - 1]) + [read(ps[|ps| - 1])]
  }

  /**
   * The gathering loop of a pager: read up to `count` elements from
   * `current` on, stopping early where the chain ends.
   */
  method Gather<T, E>(next: T -> Option<T>, read: T --> E, current: Option<T>, count: int) returns (page: seq<E>)
    requires forall i :: 0 <= i < |Collect(next, current, Iterations(count))| ==>
               read.requires(Collect(next, current, Iterations(count))[i])
    ensures page == MapAll(read, Collect(next, current, Iterations(count)))
  {
    ghost var all := Collect(next, current, Iterations(count));
    var cursor := current;
    page := [];
    var i := 0;
    while i < count
      invariant 0 <= i <= |all| && i <= Iterations(count)
      invariant all[i..] == Collect(next, cursor, Iterations(count) - i)
      invariant page == MapAll(read, all[..i])
    {
      if cursor.None? {
        break;
      }
      var c := cursor.value;
      assert all[i..] == [c] + Collect(next, next(c), Iterations(count) - i - 1);
      assert all[i] == c && all[i + 1..] == all[i..][1..];
      assert all[..i + 1][..i] == all[..i];
      page := page + [read(c)];
      cursor := next(c);
      i := i + 1;
    }
    assert all[..i] == all;
  }

  /** The first element, if any. */
  function First<T>(s: seq<T>): (r: Option<T>)
    ensures r.None? <==> s == []
  {
    if s == [] then None else Some(s[0])
  }

  /**
   * The chain runs through `l` in order: one step from each element leads to
   * the next one, and one step from the last leads to `after`.
   */
  ghost predicate Linked<T>(next: T -> Option<T>, l: seq<T>, after: Option<T>)
    decreases |l|
  {
    l == [] || (next(l[0]) == (if |l| == 1 then after else Some(l[1])) && Linked(next, l[1..], after))
  }

  /** A single element is a stretch leading where its step leads. */
  lemma LinkedSingle<T>(next: T -> Option<T>, x: T)
    ensures Linked(next, [x], next(x))
  {
    assert [x][1..] == [];
  }

  /** Two stretches of a chain, the first leading into the second (or where it leads, when empty), make one stretch. */
  lemma {:induction false} LinkedJoin<T>(next: T -> Option<T>, a: seq<T>, b: seq<T>, mid: Option<T>, after: Option<T>)
    requires Linked(next, a, mid) && Linked(next, b, after)
    requires mid == if b == [] then after else Some(b[0])
    ensures Linked(next, a + b, after)
    decreases |a|
  {
    if a == [] {
      assert a + b == b;
    } else {
      LinkedJoin(next, a[1..], b, mid, after);
      assert (a + b)[1..] == a[1..] + b;
    }
  }

  /** Along a stretch of the chain that ends in none, the walk from its start visits it element by element and then stops. */
  lemma {:induction false} LinkedWalk<T>(next: T -> Option<T>, l: seq<T>, i: nat)
    requires l != [] && Linked(next, l, None) && i <= |l|
    ensures Walk(next, Some(l[0]), i) == if i < |l| then Some(l[i]) else None
    decreases i
  {
    if i > 0 {
      if |l| == 1 {
        assert Walk(next, Some(l[0]), i) == Walk(next, None, i - 1);
      } else {
        LinkedWalk(next, l[1..], i - 1);
      }
    }
  }

  /** Along a stretch of the chain that ends in none, a page from its start is its prefix. */
  lemma {:induction false} LinkedCollectFrom<T>(next: T -> Option<T>, l: seq<T>, count: nat)
    requires l != [] && Linked(next, l, None)
    ensures Collect(next, Some(l[0]), count) == l[..if count <= |l| then count else |l|]
    decreases count
  {
    if count > 0 {
      if |l| == 1 {
        assert Collect(next, Some(l[0]), count) == [l[0]];
      } else {
        LinkedCollectFrom(next, l[1..], count - 1);
        assert l[..if count <= |l| then count else |l|]
            == [l[0]] + l[1..][..if count - 1 <= |l| - 1 then count - 1 else |l| - 1];
      }
    }
  }

  /** A stretch of the chain that ends in none goes on ending in none from each of its elements. */
  lemma {:induction false} LinkedSuffix<T>(next: T -> Option<T>, l: seq<T>, m: nat, after: Option<T>)
    requires Linked(next, l, after) && m <= |l|
    ensures Linked(next, l[m..], after)
    decreases m
  {
    if m > 0 {
      LinkedSuffix(next, l[1..], m - 1, after);
      assert l[1..][m - 1..] == l[m..];
    }
  }

  /**
   * Along a stretch of the chain that ends in none, a page of `count`
   * elements after skipping `start` is the slice from `start`, cut off at
   * the end of the stretch.
   */
  lemma LinkedCollect<T>(next: T -> Option<T>, l: seq<T>, start: nat, count: nat)
    requires l != [] && Linked(next, l, None) && start <= |l|
    ensures Collect(next, Walk(next, Some(l[0]), start), count)
            == l[start..if start + count <= |l| then start + count else |l|]
  {
    LinkedWalk(next, l, start);
    if start < |l| {
      LinkedSuffix(next, l, start, None);
      LinkedCollectFrom(next, l[start..], count);
      assert l[start..][..if count <= |l| - start then count else |l| - start]
          == l[start..if start + count <= |l| then start + count else |l|];
    }
  }

  // ---------------------------------------------------------------------------
  // Pages of a chain

  /**
   * The page a pager reads from the chain starting at `first`: skip `start`
   * elements, then take up to `count`; nothing when `count` is 0 or there is
   * no first element.
   */
  function Page<T>(next: T -> Option<T>, first: Option<T>, start: int, count: int): (r: seq<T>)
    ensures |r| <= Iterations(count)
  {
    if count == 0 then []
    else match first
      case None => []
      case Some(x) => Collect(next, Walk(next, Some(x), Iterations(start)), Iterations(count))
  }

  /** The skipping loop never steps from a missing element: it stops at the last one at the latest. */
  predicate SkipWithin<T>(next: T -> Option<T>, first: Option<T>, start: int, count: int) {
    count == 0 || start <= 0 ||
    match first
    case None => true
    case Some(x) => Walk(next, Some(x), start - 1).Some?
  }

  /**
   * Along a chain `l` that ends in none, skipping stays within the chain
   * exactly when `start` is at most its length, and a page is the slice of
   * `l` from `start`, cut off after `count` elements or at the end.
   */
  lemma ChainPages<T>(next: T -> Option<T>, l: seq<T>, start: int, count: int)
    requires Linked(next, l, None)
    ensures SkipWithin(next, First(l), start, count) <==> (count == 0 || l == [] || start <= |l|)
    ensures count != 0 && 0 <= start <= |l| ==>
              Page(next, First(l), start, count)
              == l[start..if start + Iterations(count) <= |l| then start + Iterations(count) else |l|]
  {
    if count != 0 && l != [] {
      if 0 < start <= |l| {
        LinkedWalk(next, l, start - 1);
      } else if start > |l| {
        LinkedWalk(next, l, |l|);
        if Walk(next, Some(l[0]), start - 1).Some? {
          WalkStaysOut(next, Some(l[0]), |l|, start - 1);
        }
      }
      if 0 <= start <= |l| {
        LinkedCollect(next, l, start, Iterations(count));
      }
    }
  }

  /**
   * Paging along a chain that ends in none is consistent: the page of
   * `count` elements from `start` is the page of `start + count` elements
   * from the beginning with its first `start` elements dropped.
   */
  lemma ChainPaging<T>(next: T -> Option<T>, l: seq<T>, start: int, count: int)
    requires Linked(next, l, None) && 0 <= start <= |l| && 0 < count
    ensures start <= |Page(next, First(l), 0, start + count)|
    ensures Page(next, First(l), start, count) == Page(next, First(l), 0, start + count)[start..]
  {
    ChainPages(next, l, start, count);
    ChainPages(next, l, 0, start + count);
  }
}
