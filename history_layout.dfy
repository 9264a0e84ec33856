/** The fixed names of the history tree: its root path, attribute names and the reserved child names. */
module HistoryLayout {
  import opened Wrappers
  import opened ResourceStore
  import opened Numerals

  /** The root bucket of the history tree, as a path string. */
  const HISTORY_BASE := "/var/avs/history"
  /** The root bucket of the history tree, as a resource path. */
  const BASE: Path := ["var", "avs", "history"]

  const ATTR_TIME := "time"
  const ATTR_CLEAN := "clean"
  const ATTR_OUTPUT := "output"
  const ATTR_PATH := "path"
  const ATTR_USER_ID := "userId"

  /** The access-control child a bucket may carry. */
  const REP_POLICY := "rep:policy"
  /** The index child a bucket may carry. */
  const NAME_INDEX := "oak:index"

  /** Children with these names belong to the store, not to the history. */
  predicate IsReserved(name: string) {
    name == REP_POLICY || name == NAME_INDEX
  }

  /** The history root's path string names the history root. */
  lemma ParseHistoryBase()
    ensures ParsePath(HISTORY_BASE) == Some(BASE)
  {
    assert PathString(BASE) == HISTORY_BASE;
    ParsePathString(BASE);
  }

  // ---------------------------------------------------------------------------
  // Date buckets

  /** A calendar date as `java.util.Calendar` reports it: the month counts from 0, the day from 1. */
  datatype Date = Date(year: nat, month0: nat, day: nat)

  /** The calendar fields that name the three bucket levels, from the top. */
  datatype Field = Year | Month | DayOfMonth

  const FIELDS: seq<Field> := [Year, Month, DayOfMonth]

  /** The number a bucket level stores for date `d`: months are stored counting from 1. */
  function BucketValue(d: Date, f: Field): (r: nat)
    ensures f == Month ==> r == d.month0 + 1
  {
    match f
    case Year => d.year
    case Month => d.month0 + 1
    case DayOfMonth => d.day
  }

  /** The bucket `year/month/day` below the history root where entries of date `d` are stored. */
  function Bucket(d: Date): Path {
    BASE + [Decimal(BucketValue(d, Year)), Decimal(BucketValue(d, Month)), Decimal(BucketValue(d, DayOfMonth))]
  }

  /** The path string of the bucket of date `d`, built by appending the three numbers to the history root. */
  function BucketString(d: Date): string {
    HISTORY_BASE + "/" + Decimal(d.year) + "/" + Decimal(d.month0 + 1) + "/" + Decimal(d.day)
  }

  /** The bucket path string names the bucket of the date. */
  lemma ParseBucket(d: Date)
    ensures ParsePath(BucketString(d)) == Some(Bucket(d))
    ensures PathString(Bucket(d)) == BucketString(d)
  {
    var year, month, day := Decimal(d.year), Decimal(d.month0 + 1), Decimal(d.day);
    var p1 := BASE + [year];
    var p2 := p1 + [month];
    var p := p2 + [day];
    assert p == Bucket(d);
    assert PathString(BASE) == HISTORY_BASE;
    PathStringAppend(BASE, year);
    PathStringAppend(p1, month);
    PathStringAppend(p2, day);
    forall i | 0 <= i < |p| ensures ValidName(p[i]) {
    }
    ParsePathString(p);
  }
}
