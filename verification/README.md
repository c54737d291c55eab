# Memtable skip list: default comparator, ordered key set and iterator

This project models the in-memory ordered index of a LevelDB-style storage
engine, as the code in `db/skiplist.cc` and `db/skiplist.h` implements it,
and proves properties of the model in Dafny.

Three modules, one per component:

- `Comparator` (`comparator.dfy`) — the default bytewise comparator
  `DefaultCmpI`: `Compare` is lexicographic order over unsigned bytes with a
  proper prefix first, checked against an independent reference order
  `LexLess` (a proper prefix, or a smaller byte after an equal prefix).
  `FindShortestSeparator` and `FindShortSuccessor` mutate a `std::string` in
  place in the source; here they are functions returning the new contents.
- `SkipList` (`skiplist.dfy`) — the live code is not a skip list: it keeps
  its entries in a `std::set<Slice, SetCmp>`. A stored key is a
  length-prefixed buffer (varint32 length, then the key bytes); it is
  modelled as `Framed(header, payload)`, the buffer split at the end of the
  length header, and `SetCmp` orders entries by payload only. The set is a
  sequence of entries in strictly increasing `SetCmp` order. `Insert` and
  `Contains` behave as `std::set::insert` and `std::set::count` do.
- `SkipListIterator` (`iterator.dfy`) — the iterator is a `Cursor(pos,
  valid)`: the position of the underlying `std::set` iterator (0 is
  `begin()`, the list length is `end()`) and the `valid` flag. The
  well-formedness invariant `pos <= |list|` and `valid ==> pos < |list|`
  is what gives `key()`, `Next()` and `Prev()` their `Valid()`
  precondition; it survives `Insert` because entries are never removed.

The code is modelled as written, including the ways `Seek` departs from its
doc comment (see "## Findings"). Two further points about what the code does:

- Despite its name, `FindShortestSeparator` does not always produce the
  shortest string in `[start, limit)`: for `start = [1, 5]`,
  `limit = [2, 0]` it keeps `start`, though `[2]` lies in between
  (`Comparator.SeparatorIsNotAlwaysShortest`). It only ever shortens by
  cutting after the first differing byte.
- `Insert` is documented to require that no equal key is present
  (db/skiplist.h:85-87). The code hands the key to `std::set::insert`, which
  ignores a key equivalent to one already stored, so the model's `Insert` is
  total and proves that this case leaves the set unchanged.

## Model

| member | source | states |
|---|---|---|
| `Comparator.ScanCommon` | db/skiplist.cc:35-38 | resumed at a point before which both strings agree, the scan stops at a position before which they still agree and where they differ unless one of them has ended |
| `Comparator.CommonPrefix` | db/skiplist.cc:33-38 | the diff index is the first position where the strings differ, or the shorter length when one is a prefix of the other |
| `Comparator.LexLessAtCommonPrefix` | db/skiplist.cc:28-30 | bytewise order is decided at the first difference: by the unsigned bytes there, or by length when one string is a prefix of the other |
| `Comparator.Compare` | db/skiplist.cc:28-30 | the result is negative, zero or positive exactly when `a` sorts before, equals, or sorts after `b` in unsigned lexicographic order with a proper prefix first |
| `Comparator.LexLessIsStrictTotalOrder` | db/skiplist.cc:28-30 | the comparator's order is irreflexive, asymmetric and total |
| `Comparator.LexLessTransitive` | db/skiplist.cc:28-30 | the comparator's order is transitive |
| `Comparator.PrefixMeansNoDifference` | db/skiplist.cc:40-41 | when one string is a prefix of the other, the diff index reaches the end of one of them, which is the no-shortening case |
| `Comparator.FindShortestSeparator` | db/skiplist.cc:31-51 | the result is never longer than `start`; it differs from `start` exactly when, at the first differing position `d`, both strings have a byte and `start[d] + 1 < limit[d]` (so it is `start` when one string is a prefix of the other, when `start[d]` is 0xFF, or when the bumped byte would not stay below `limit[d]`); when it changes, it is `start` cut after the first differing byte with that byte incremented, and lies strictly between `start` and `limit`; whenever `start < limit`, `start <= result < limit` |
| `Comparator.SeparatorIsNotAlwaysShortest` | db/skiplist.cc:40-49 | for start `[1, 5]` and limit `[2, 0]` the separator keeps `start` although the shorter `[2]` lies in between |
| `Comparator.SuccessorFrom` | db/skiplist.cc:55-62 | resumed after a run of 0xFF bytes, the loop returns an all-0xFF key unchanged and otherwise cuts after the first non-0xFF byte and increments it, giving a strictly greater key no longer than the input |
| `Comparator.FindShortSuccessor` | db/skiplist.cc:52-64 | an all-0xFF key (the empty key included) is unchanged; otherwise the result is the key cut after its first non-0xFF byte with that byte incremented, strictly greater than the key and no longer |
| `Comparator.SuccessorBoundsExtensions` | db/skiplist.cc:52-64 | for a key that is not all 0xFF, the successor sorts after every string that extends the key |
| `SkipList.SetCmp` | db/skiplist.h:53-68 | `SetCmp(a, b)` holds exactly when the payload after `a`'s length prefix sorts before that of `b` |
| `SkipList.SetCmpIsStrictWeakOrder` | db/skiplist.h:53-68 | `SetCmp` is irreflexive, asymmetric and transitive, and two buffers are equivalent exactly when their payloads are equal, whatever their headers |
| `SkipList.LowerBoundFrom` | db/skiplist.cc:192 | the container's lookup behind `count` and `insert`: resumed at a point before which every entry sorts below the key, it returns the first index not below the key, or the list length if there is none |
| `SkipList.Contains` | db/skiplist.cc:192 | true exactly when some entry of the set has the key's payload, that is, compares equal to the key |
| `SkipList.Insert` | db/skiplist.cc:179 | the set stays strictly ordered and holds the key afterwards; if an equivalent entry was present the set is unchanged, otherwise it grows by exactly the new entry; no entry is ever removed |
| `SkipList.InsertKeepsOtherKeys` | db/skiplist.cc:179 | inserting a key does not change whether any other payload is present |
| `SkipList.Build` | db/skiplist.cc:179 | inserting keys one by one into an empty set always yields a strictly ordered set |
| `SkipList.BuildHoldsExactlyInserted` | db/skiplist.h:85-90 | after any sequence of inserts, a payload is present exactly when some inserted key has it |
| `SkipList.BuildDistinctKeepsAll` | db/skiplist.h:85-87 | inserting keys with pairwise distinct payloads yields exactly one entry per key |
| `SkipListIterator.NewIterator` | db/skiplist.cc:73-77 | a new iterator is not valid, is well formed, and is parked at position 0 (`begin()`), which on a non-empty list is an entry |
| `SkipListIterator.Valid` | db/skiplist.cc:79-81 | a valid iterator is positioned on an entry of the list |
| `SkipListIterator.Key` | db/skiplist.cc:84-87 | the key returned by a valid iterator is an entry of the list |
| `SkipListIterator.KeyHasRankPos` | db/skiplist.cc:84-87 | in an ordered list, exactly the entries before the iterator's position sort below the key it returns |
| `SkipListIterator.Next` | db/skiplist.cc:90-96 | from a valid position `i` the iterator moves to `i+1`, stays well formed, and is valid afterwards exactly when `i` was not the last entry |
| `SkipListIterator.Prev` | db/skiplist.cc:99-108 | from a valid position `i > 0` the iterator moves to `i-1` and stays valid; at position 0 it keeps the position and becomes invalid |
| `SkipListIterator.Seek` | db/skiplist.cc:110-122 | from an iterator on an entry, Seek never moves backward, never changes validity, skips only entries below the target, and stops on the first entry not below the target or else on the last entry |
| `SkipListIterator.SeekToFirst` | db/skiplist.cc:124-130 | on an empty list the iterator is unchanged; otherwise it is valid on the least entry; from a well-formed state it is valid exactly when the list is non-empty |
| `SkipListIterator.SeekToLast` | db/skiplist.cc:132-139 | on an empty list the iterator is unchanged; otherwise it is valid on the greatest entry; from a well-formed state it is valid exactly when the list is non-empty |
| `SkipListIterator.WellFormedSurvivesInsert` | db/skiplist.h:18-20 | an iterator that is well formed on a list stays well formed after an insert, since entries are never removed |
| `SkipListIterator.ForwardFrom` | db/skiplist.cc:90-96 | reading `key()` and calling `Next()` from a valid position `i` until invalid yields exactly the entries from `i` on |
| `SkipListIterator.BackwardFrom` | db/skiplist.cc:99-108 | reading `key()` and calling `Prev()` from a valid position `i` until invalid yields the entries up to `i` in reverse |
| `SkipListIterator.ForwardScanVisitsAll` | db/skiplist.h:117-119 | SeekToFirst and then Next until invalid visits every entry exactly once, in strictly increasing order |
| `SkipListIterator.BackwardScanReversesForward` | db/skiplist.h:121-123 | SeekToLast and then Prev until invalid visits the entries in exactly the reverse of the forward scan |
| `SkipListIterator.SeekFromFirstFindsLowerBound` | db/skiplist.h:114-115 | when Seek starts from the first entry and some entry is not below the target, it lands, valid, on the first such entry |
| `SkipListIterator.SeekFromFirstFindsPresentKey` | db/skiplist.h:114-115 | seeking a key present in the list, starting from the first entry, lands valid on that key |
| `SkipListIterator.SeekCorrected` | db/skiplist.h:114-115 | the intended Seek: valid exactly when some entry is not below the target, and then on the first such entry, with every entry before it below the target and, in an ordered list, none after it |
| `SkipListIterator.SeekAgreesWithCorrectedFromFirst` | db/skiplist.cc:110-122 | whenever the intended Seek finds an entry, the code's Seek started from the first entry gives the same cursor |
| `SkipListIterator.SeekOnFreshIteratorStaysInvalid` | db/skiplist.cc:110-122 | on a new iterator over the list `[A]`, Seek to `A` leaves the iterator invalid, while the intended Seek is valid on `A` |
| `SkipListIterator.SeekDoesNotRewind` | db/skiplist.cc:110-122 | on the list `[A, B]` with the iterator on `B`, Seek to `A` stays on `B`, while the first entry not below `A` is `A` |
| `SkipListIterator.SeekAtEndHasNoEntryToRead` | db/skiplist.cc:110-115 | a new iterator over an empty list, and an iterator that `Next` moved off the last entry, both sit at `end()`, where Seek would read an entry that does not exist; the intended Seek is defined there |
| `SkipListIterator.SeekPastAllKeysStaysValid` | db/skiplist.cc:110-122 | on the list `[A]`, Seek to a target above `A` stays valid on `A`, while the intended Seek is invalid |

## Left out

- The commented-out lock-free skip-list insertion and search (db/skiplist.cc:147-177, 184-191): they are not live code.
- Node layout, random heights, the max-height counter, release/acquire publication and concurrent readers: the live code has none of them, and the model is sequential.
- Iterator positions across `Insert`s made during an iteration session: the model fixes the list while an iterator walks it, and only proves that well-formedness survives an insert.
- `Arena` and the `arena_` member: the arena is never used by the live code, and util/arena.h is not part of this model.
- Varint32 decoding (`GetVarint32Ptr`): util/coding.h is not part of this model; a key buffer is given already split into its length header and payload, and malformed headers are not modelled.
- `Slice` internals: `Slice::compare` is taken to be unsigned lexicographic byte order, and only the sign of `Compare` is modelled (the model returns -1, 0 or 1).
- `Name()` and the `NoDestructor` singleton `DefaultCmp()`: they carry no logic.
- The balancing of `std::set`: the set is a strictly ordered sequence and its search a linear scan for the first entry not below the key.
- `SkipListIterator.Seek`: requires the cursor to sit on an entry, because the source reads `*itr_` first and has no defined behaviour at `end()`; that case is recorded under "## Findings".
- `Valid`: states only that a valid iterator sits on an entry; the converse in the doc comment does not hold of the code, since after `Prev` on the first entry the iterator still sits on entry 0 but is invalid.

## Findings

| source | as written | input that shows it | evidently intended | confidence | as-written member | corrected member |
|---|---|---|---|---|---|---|
| db/skiplist.cc:110-122 | `Seek` never sets `valid` | a new iterator over `[A]`, then `Seek(A)`: the iterator stays invalid although `A` is present | the iterator is valid exactly when an entry not below the target exists (db/skiplist.h:114-115) | high; not executed | `SkipListIterator.SeekOnFreshIteratorStaysInvalid` | `SkipListIterator.SeekCorrected` |
| db/skiplist.cc:110-122 | `Seek` searches forward from the current entry only | list `[A, B]`, iterator on `B`, `Seek(A)`: the iterator stays on `B` | the first entry of the whole list not below the target | high; not executed | `SkipListIterator.SeekDoesNotRewind` | `SkipListIterator.SeekCorrected` |
| db/skiplist.cc:110-122 | when every remaining entry is below the target, `Seek` steps back to the last entry | list `[A]`, valid iterator on `A`, `Seek(B)` with `B` above `A`: the iterator stays valid on `A` | the iterator becomes invalid when no entry is at or above the target | high; not executed | `SkipListIterator.SeekPastAllKeysStaysValid` | `SkipListIterator.SeekCorrected` |
| db/skiplist.cc:110-115 | `Seek` dereferences the current position before any check, and its header states no precondition (db/skiplist.h:114-115) | an empty list with a new iterator, or a one-entry list after `Next` from the entry: the iterator sits at `end()` and `*itr_` is read | Seek is defined from any state: an invalid iterator when no entry is at or above the target | high; not executed | `SkipListIterator.SeekAtEndHasNoEntryToRead` | `SkipListIterator.SeekCorrected` |
