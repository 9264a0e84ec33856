# Scan history of the AEM virus scan

This project models the scan history kept by the virus-scan service and proves properties of it. The service records every file scan as an entry node in a hierarchical resource store. Entries sit in date buckets below `/var/avs/history`, laid out as `/var/avs/history/<year>/<month 1-12>/<day>/<entry>`.

- **Date buckets.** Each level is an ordered folder (`sling:OrderedFolder`).
- **Entry nodes.** An entry is an unstructured node (`nt:unstructured`). Its name is the clock's milliseconds followed by a random number.
- **Entry attributes.** An entry carries `time`, `output`, `clean`, `path` and `userId`.

The service does four things with this tree:

- **Write.** `createHistoryEntry` creates the day bucket and the entry node with `createPath` and puts the five attributes of a `ScanResult` on it.
- **Read.** `getHistory` finds the newest entry without an index.
  - It follows the last child down from the history root (`ascendToLastRun`).
  - It steps back one entry at a time (`getPreviousHistoryEntry`): to the previous sibling, or up to an earlier bucket (`descendToPreviousSiblingInHistory`) and down again.
  - The children `rep:policy` and `oak:index` are skipped everywhere.
  - It pages with a skip loop and a gather loop.
- **Purge.** `purgeHistory` compares bucket names with a cutoff date, year, then month, then day:
  - an older bucket is deleted with its subtree;
  - a younger one is kept;
  - the equal one is examined one level deeper;
  - at the day level, the equal bucket ends the scan of its list.
- **Self check.** `selfCheck` tests that the history root exists.

The store is an in-memory ordered tree, `ResourceStore.Node`:

- a node has a name, a primary type, an attribute map and an ordered sequence of children;
- a resource is the sequence of names from the store root;
- a name refers to the first child carrying it.

`ResourceStore.ResourceResolver` is the session object. Its `root` is the store, and its methods `Create`, `Delete` and `Put` change it in place.

The modules are:

- **`ResourceStore`:** the tree, look-up and replacement, path strings, and the resolver.
- **`Numerals`:** `Integer.toString` and `Integer.parseInt` on bucket names.
- **`HistoryLayout`:** constants and date buckets.
- **`HistoryTraversal`:** the read side, `getLastChild` through `getHistory`.
- **`Paging`:** the skip and gather loops over a generic chain.
- **`HistoryOrder`:** what traversal adds up to in a well-formed tree.
- **`HistoryPurge`:** `deleteRecursive` and `purgeHistory`.
- **`HistoryWriter`:** `createPath`, `createHistoryEntry` and `selfCheck`.
- **`ScanResults`:** the `ScanResult` class.

Loops and store updates in the source become methods with loop invariants. Each method is proved equal to a specification function:

| method | specification function |
|---|---|
| `GetLastChild` | `LastChild` |
| `GetPreviousSibling` | `PreviousSibling` |
| `Skip` | `Walk` |
| `Gather` | `Collect` |
| `DeleteRecursive` | `Purge` |
| `CreatePath` | `EnsurePath` |
| `CreateHistoryEntry` | `WriteEntry` |

The properties of the source are proved about those functions.

## Model

| member | source | states |
|---|---|---|
| ResourceStore.ResourceResolver.GetResource | core/src/main/java/de/valtech/avs/core/history/HistoryService.java:272-276 | a path string names a resource exactly when it parses to a path and the store has a node there |
| ResourceStore.ResourceResolver.Create | core/src/main/java/de/valtech/avs/core/history/HistoryService.java:279-285 | creation succeeds exactly for a valid name not yet taken below the parent; on success a new empty child of the given primary type is appended, otherwise nothing changes |
| ResourceStore.ResourceResolver.Delete | core/src/main/java/de/valtech/avs/core/history/HistoryService.java:350-351 | deleting a resource removes it with its whole subtree from its parent, which exists |
| ResourceStore.ResourceResolver.Put | core/src/main/java/de/valtech/avs/core/history/HistoryService.java:89-94 | a put sets one attribute of one node (a null removes it) and changes nothing else |
| Numerals.Decimal | core/src/main/java/de/valtech/avs/core/history/HistoryService.java:82-83 | a number written into a bucket path is a non-empty string of digits without a slash |
| Numerals.DecimalRoundTrip | core/src/main/java/de/valtech/avs/core/history/HistoryService.java:331 | parsing a written bucket number gives back that number |
| Numerals.DecimalInjective | core/src/main/java/de/valtech/avs/core/history/HistoryService.java:82-83 | different numbers give different bucket names |
| HistoryLayout.ParseHistoryBase | core/src/main/java/de/valtech/avs/core/history/HistoryService.java:62 | `/var/avs/history` names the resource `var`/`avs`/`history` |
| HistoryLayout.ParseBucket | core/src/main/java/de/valtech/avs/core/history/HistoryService.java:82-83 | the bucket path string of a date names the resource history root/year/(month0+1)/day, and that resource's path string is that string |
| HistoryTraversal.LastLogicalBeforeSpec | core/src/main/java/de/valtech/avs/core/history/HistoryService.java:238-243 | the position found holds a non-reserved name and only `rep:policy`/`oak:index` follow it |
| HistoryTraversal.LastChild | core/src/main/java/de/valtech/avs/core/history/HistoryService.java:232-245 | the last child found is one segment below the given resource, which exists, and names one of its children; there is none for a missing resource |
| HistoryTraversal.LastChildSpec | core/src/main/java/de/valtech/avs/core/history/HistoryService.java:232-245 | the last child is a child with a non-reserved name after which only reserved names follow; there is none exactly when the resource is missing or all its children are reserved |
| HistoryTraversal.GetLastChild | core/src/main/java/de/valtech/avs/core/history/HistoryService.java:232-245 | the iterator loop returns `LastChild` |
| HistoryTraversal.PreviousSibling | core/src/main/java/de/valtech/avs/core/history/HistoryService.java:198-211 | a previous sibling has the same parent as the resource |
| HistoryTraversal.PreviousSiblingSpec | core/src/main/java/de/valtech/avs/core/history/HistoryService.java:198-211 | the previous sibling is the nearest non-reserved sibling before the first sibling carrying the resource's name; there is none exactly when the parent is missing or all earlier siblings are reserved |
| HistoryTraversal.GetPreviousSibling | core/src/main/java/de/valtech/avs/core/history/HistoryService.java:198-211 | the iterator loop, with its break at the resource's own name, returns `PreviousSibling` |
| HistoryTraversal.LastRunUnder | core/src/main/java/de/valtech/avs/core/history/HistoryService.java:158-172 | the downward walk only goes below the node it starts from |
| HistoryTraversal.AscendToLastRun | core/src/main/java/de/valtech/avs/core/history/HistoryService.java:158-172 | ascendToLastRun finds a resource strictly below its argument, and none for a missing one |
| HistoryTraversal.DescendToPreviousSiblingInHistory | core/src/main/java/de/valtech/avs/core/history/HistoryService.java:180-190 | the climb returns none for a missing resource and for the history root, and otherwise only resources strictly below the history root |
| HistoryTraversal.PreviousHistoryEntry | core/src/main/java/de/valtech/avs/core/history/HistoryService.java:140-150 | the entry before one below the history root is below the history root too |
| HistoryTraversal.LatestHistoryEntry | core/src/main/java/de/valtech/avs/core/history/HistoryService.java:219-224 | the latest entry lies strictly below the base, and there is none without a base |
| HistoryTraversal.ReadHistoryEntry | core/src/main/java/de/valtech/avs/core/history/HistoryService.java:253-261 | the entry carries the node's time and its own path; a missing `clean` reads as false and a missing `output`, `path` or `userId` as the empty string |
| HistoryTraversal.WalkInHistory | core/src/main/java/de/valtech/avs/core/history/HistoryService.java:121-129 | every resource paging reaches from below the history root lies below it |
| HistoryTraversal.GetHistory | core/src/main/java/de/valtech/avs/core/history/HistoryService.java:110-132 | the entries are those read from the page of resources `History` lists; at most `count` of them, and none when `count` is 0 or there is no latest entry |
| Paging.Skip | core/src/main/java/de/valtech/avs/core/history/HistoryService.java:121-123 | the skip loop stands at the element `startIndex` steps from the newest |
| Paging.Gather | core/src/main/java/de/valtech/avs/core/history/HistoryService.java:124-130 | the gather loop reads, in order, the up to `count` elements from where the skip stopped, ending where the chain does |
| Paging.ChainPages | core/src/main/java/de/valtech/avs/core/history/HistoryService.java:121-130 | along a chain ending in none, the skip stays in the chain exactly when the start is at most its length, and a page is the slice from the start, cut after `count` |
| Paging.ChainPaging | core/src/main/java/de/valtech/avs/core/history/HistoryService.java:121-130 | along such a chain, the page (s, c) is the page (0, s + c) without its first s elements |
| HistoryOrder.LastRunIsEntry | core/src/main/java/de/valtech/avs/core/history/HistoryService.java:158-172 | in a well-formed bucket the downward walk ends at an existing non-folder node with a non-reserved name, and finds none only when the bucket has no logical child |
| HistoryOrder.LastRunWalk | core/src/main/java/de/valtech/avs/core/history/HistoryService.java:158-172 | with unique sibling names at every level, the downward walk ends at an existing non-folder node with a non-reserved name, and finds none exactly when it meets a node without a logical child: the start, or an ordered folder it went down into |
| HistoryOrder.OnWalkFirst | core/src/main/java/de/valtech/avs/core/history/HistoryService.java:162-170 | a walk that moved on took getLastChild's result, an ordered folder, as its first step |
| HistoryOrder.OnWalkCons | core/src/main/java/de/valtech/avs/core/history/HistoryService.java:162-170 | a walk from the last child, when it is an ordered folder, is a walk from its parent |
| HistoryOrder.LastRunIsNewest | core/src/main/java/de/valtech/avs/core/history/HistoryService.java:219-224 | in a well-formed bucket the downward walk ends at the first entry in reverse store order |
| HistoryOrder.PreviousSiblingOfChild | core/src/main/java/de/valtech/avs/core/history/HistoryService.java:198-211 | with unique names, the previous sibling of a child is its nearest earlier non-reserved sibling |
| HistoryOrder.ClimbPastFirstChild | core/src/main/java/de/valtech/avs/core/history/HistoryService.java:180-190 | the climb from a child with no earlier logical sibling continues from its parent |
| HistoryOrder.ClimbToEarlierChild | core/src/main/java/de/valtech/avs/core/history/HistoryService.java:180-190 | the climb from a child with an earlier logical sibling stops at that sibling |
| HistoryOrder.LeavesChain | core/src/main/java/de/valtech/avs/core/history/HistoryService.java:140-150 | below a well-formed bucket, the previous entry of each listed entry is the next one listed, and after the last comes what the climb from the bucket leads to |
| HistoryOrder.HistoryIsChain | core/src/main/java/de/valtech/avs/core/history/HistoryService.java:140-224 | in a well-formed history the latest entry is the first of all entries in reverse store order, stepping back lists every entry once in that order and then finds none |
| HistoryOrder.HistoryIsSlice | core/src/main/java/de/valtech/avs/core/history/HistoryService.java:110-132 | in a well-formed history, getHistory(s, c) stays in the history exactly when c is 0, there is no entry or s is at most their number, and then reads the entries from position s, at most c of them |
| HistoryOrder.HistoryPaging | core/src/main/java/de/valtech/avs/core/history/HistoryService.java:121-130 | in a well-formed history, getHistory(s, c) is getHistory(0, s + c) with the first s entries dropped, for s up to the number of entries |
| HistoryPurge.Purge | core/src/main/java/de/valtech/avs/core/history/HistoryService.java:321-354 | a purge never lengthens the list of children |
| HistoryPurge.MonthVerdict | core/src/main/java/de/valtech/avs/core/history/HistoryService.java:333-336 | the stored month (counting from 1) compares with the cutoff month (counting from 0) plus one as the months themselves compare |
| HistoryPurge.BucketVerdict | core/src/main/java/de/valtech/avs/core/history/HistoryService.java:331-352 | the bucket a date is written to is kept when younger than the cutoff at that level, deleted when older, and examined further when equal (at the day level: kept and the scan stopped) |
| HistoryPurge.PurgeKeeps | core/src/main/java/de/valtech/avs/core/history/HistoryService.java:327-338 | a child with a non-numeric name, or younger than the cutoff, survives unchanged |
| HistoryPurge.PurgeDescends | core/src/main/java/de/valtech/avs/core/history/HistoryService.java:339-347 | the child equal to the cutoff above the day level survives, with its children purged by the next field |
| HistoryPurge.PurgeDeletes | core/src/main/java/de/valtech/avs/core/history/HistoryService.java:348-351 | an older child that the scan reaches is gone: no survivor carries its name |
| HistoryPurge.PurgeStops | core/src/main/java/de/valtech/avs/core/history/HistoryService.java:342-344 | at the day level the equal bucket and every later sibling, older ones included, are left as they are |
| HistoryPurge.PurgeNames | core/src/main/java/de/valtech/avs/core/history/HistoryService.java:321-354 | the purge introduces no new name |
| HistoryPurge.PurgeIdempotent | core/src/main/java/de/valtech/avs/core/history/HistoryService.java:321-354 | a second purge with the same cutoff changes nothing |
| HistoryPurge.PurgeOnlyDeletes | core/src/main/java/de/valtech/avs/core/history/HistoryService.java:321-354 | the purge only deletes subtrees: every surviving node keeps its name, type and attributes, and children keep their order |
| HistoryPurge.KeepChild | core/src/main/java/de/valtech/avs/core/history/HistoryService.java:327-338 | skipping a kept child preserves the scan invariant |
| HistoryPurge.DeleteChild | core/src/main/java/de/valtech/avs/core/history/HistoryService.java:348-351 | deleting an older child through the resolver preserves the scan invariant |
| HistoryPurge.DescendChild | core/src/main/java/de/valtech/avs/core/history/HistoryService.java:345-347 | the recursive call on the equal child leaves it purged by the remaining fields and preserves the scan invariant |
| HistoryPurge.ScanChild | core/src/main/java/de/valtech/avs/core/history/HistoryService.java:324-352 | one iteration of the while loop either ends the scan with the store purged, or preserves the scan invariant |
| HistoryPurge.DeleteRecursive | core/src/main/java/de/valtech/avs/core/history/HistoryService.java:321-354 | the store afterwards is the old one with the scanned node's children replaced by `Purge` of them |
| HistoryPurge.PurgeHistory | core/src/main/java/de/valtech/avs/core/history/HistoryService.java:305-311 | with a history root, the children of the root are purged by year, month and day; without one the call fails and nothing changes |
| HistoryWriter.CreatePath | core/src/main/java/de/valtech/avs/core/history/HistoryService.java:271-287 | createPath changes the store as `EnsurePath` does, and an existing path succeeds with no change |
| HistoryWriter.SplitPath | core/src/main/java/de/valtech/avs/core/history/HistoryService.java:274-275 | parent + "/" + name is the path, and the name holds no slash |
| HistoryWriter.EnsurePathExists | core/src/main/java/de/valtech/avs/core/history/HistoryService.java:271-287 | after a successful createPath the path exists; a newly created one is an empty node of the given primary type named by the last segment |
| HistoryWriter.EnsurePathGrows | core/src/main/java/de/valtech/avs/core/history/HistoryService.java:276-282 | createPath only appends new empty nodes, every one (ancestors included) of the same given primary type; nothing existing changes |
| HistoryWriter.EnsurePathSucceeds | core/src/main/java/de/valtech/avs/core/history/HistoryService.java:271-287 | createPath of a path of valid names succeeds whenever its top-level node exists |
| HistoryWriter.EntryName | core/src/main/java/de/valtech/avs/core/history/HistoryService.java:294-296 | the entry node name is a valid, numeric name |
| HistoryWriter.EntryPathString | core/src/main/java/de/valtech/avs/core/history/HistoryService.java:82-85 | the entry's path string names the entry below the day bucket of its date |
| HistoryWriter.EntryAttrsRead | core/src/main/java/de/valtech/avs/core/history/HistoryService.java:90-94 | the five attributes put read back as the values given, a null string reading as empty |
| HistoryWriter.PutValues | core/src/main/java/de/valtech/avs/core/history/HistoryService.java:89-94 | the five puts leave the entry node with the attributes `EntryAttrs` and nothing else changed |
| HistoryWriter.CreateHistoryEntry | core/src/main/java/de/valtech/avs/core/history/HistoryService.java:80-100 | createHistoryEntry changes the store as `WriteEntry` does: the day bucket as ordered folders, the entry as an unstructured node, then its five attributes |
| HistoryWriter.WriteEntrySucceeds | core/src/main/java/de/valtech/avs/core/history/HistoryService.java:80-94 | writing an entry succeeds whenever `/var` exists |
| HistoryWriter.WriteEntryReadsBack | core/src/main/java/de/valtech/avs/core/history/HistoryService.java:90-94 | a written entry reads back (readHistoryEntry) as the scan result it was made from, at the entry's own path |
| HistoryWriter.SelfCheck | core/src/main/java/de/valtech/avs/core/history/HistoryService.java:362-367 | the self check passes exactly when the history root exists |
| ScanResults.ScanResult.constructor | api/src/main/java/de/valtech/avs/api/service/scanner/ScanResult.java:42-45 | the constructor sets `clean` and `output`; `path` and `userId` start null |
| ScanResults.ScanResult.SetPath | api/src/main/java/de/valtech/avs/api/service/scanner/ScanResult.java:84-86 | `getPath` returns the value set, and no other field changes |
| ScanResults.ScanResult.SetUserId | api/src/main/java/de/valtech/avs/api/service/scanner/ScanResult.java:93-95 | `getUserId` returns the value set, and no other field changes |
| ScanResults.Build | api/src/main/java/de/valtech/avs/api/service/scanner/ScanResult.java:42-104 | after construction and both setters, the four getters return the constructor's and setters' values, and `toString` is `Describe` of the flag and the output |
| ScanResults.DescribeDetermines | api/src/main/java/de/valtech/avs/api/service/scanner/ScanResult.java:65-68 | two `toString` texts are equal exactly when the flags are equal and the outputs print alike |

## Left out

- Commit, the session and exception wrapping are not modelled. Each `PersistenceException` or `AvsException` becomes a `false` result. Changes made before a failure are not rolled back (the source leaves them uncommitted).
- Two runtime exceptions also become a `false` result instead of being thrown:
  - HistoryWriter.CreatePath returns `false` for a missing path without a `/`, where `substring(0, -1)` throws a `StringIndexOutOfBoundsException`. It also returns `false` when the parent is still missing after the recursive call, where `resolver.create(null, …)` fails.
  - HistoryWriter.CreateHistoryEntry returns `false` when `getResource(nodePath)` finds nothing, where the source throws a NullPointerException on `adaptTo`.
- The clock, the random generator and the calendar are inputs:
  - the entry's date `now` and instant `time`;
  - the node name's milliseconds and random number;
  - the purge cutoff date.
  The subtraction of `daysToKeep` days from today is Gregorian calendar arithmetic and is not modelled.
- `Calendar` to `Date` conversion is not modelled: a time is an integer of milliseconds.
- The batch size of the resource remover is not modelled. A deletion removes a subtree at once.
- Logging, OSGi wiring and the health check around `selfCheck` are not modelled.
- Concurrent writers, purges and readers are not modelled.
- The child iterator over the siblings is taken as a snapshot before deletions in the purge. The store returns children in insertion order.
- HistoryTraversal.GetHistory requires two things where the source throws a NullPointerException:
  - that the skip loop does not step past the last entry;
  - that every entry read has a `time` attribute.
- HistoryPurge.DeleteRecursive requires that every numeric bucket name fits a Java `int` (otherwise `Integer.parseInt` throws). It also requires that sibling names are unique, as in the store's ordered folders.
- HistoryPurge.PurgeHistory requires the same of the history tree. A `null` history root, where the source throws, is reported as `false`.
- Same-name siblings are not modelled: a path names the first child carrying each name. HistoryOrder.LastRunWalk therefore requires unique sibling names at every level.
- HistoryOrder.LastRunIsEntry, LastRunIsNewest, HistoryIsChain and the lemmas after it assume a well-formed history:
  - unique names;
  - no empty bucket;
  - no bucket mixing sub-buckets and entries.
  Under that assumption the downward walk never meets an empty folder. `LastRunWalk` covers the walk into an empty folder, which ends with none. `LastChildSpec`, `PreviousSiblingSpec`, `AscendToLastRun` and `DescendToPreviousSiblingInHistory` hold for any tree.
- HistoryTraversal.ReadHistoryEntry reads an attribute only when it is stored with the requested kind. `ValueMap.get(name, default)` also converts between kinds (a stored string `"true"` read as a Boolean, for instance); that conversion is not modelled, and a value of another kind reads as the default.
- `StringUtils.isNumeric` also accepts non-ASCII Unicode digits. The model accepts only `0`-`9`.
- HistoryWriter.EnsurePath (and so CreatePath) cannot create a node directly below the store root, because the empty parent path names no resource in the model.
- `getResource` accepts only absolute paths without empty segments in the model.
- ScanResults.ScanResult.IsClean, GetOutput, GetPath and GetUserId have no contracts of their own. They read one field each. What they return is stated by the constructor, `SetPath`, `SetUserId` and `Build`.
- ScanResults.ScanResult.ToString has no contract of its own. It is `Describe` of the flag and the output, whose meaning `DescribeDetermines` states.
