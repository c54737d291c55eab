/**
 SkipList::Iterator: a cursor over the ordered key set. The live code keeps
 a `std::set` iterator plus a `valid` flag; the model keeps the position of
 that iterator (0 is `begin()`, `|list|` is `end()`) and the flag. The list
 is fixed for the length of an iteration session.
 */
module SkipListIterator {
  import opened Comparator
  import opened SkipList

  datatype Cursor = Cursor(pos: nat, valid: bool)

  /**
   The cursor's position lies inside the list or at its end, and a valid
   cursor sits on a real entry. This is what `key()`, `Next()` and `Prev()`
   rely on when they require `Valid()`.
   */
  ghost predicate WellFormed(list: seq<Framed>, it: Cursor) {
    it.pos <= |list| && (it.valid ==> it.pos < |list|)
  }

  /** Iterator::Iterator (db/skiplist.cc:73-77): not valid, parked at `begin()`. */
  function NewIterator(list: seq<Framed>): (it: Cursor)
    ensures WellFormed(list, it)
    ensures !it.valid
    ensures it.pos == 0
    ensures |list| > 0 ==> it.pos < |list|
  {
    Cursor(0, false)
  }

  /** Iterator::Valid (db/skiplist.cc:79-81): a valid cursor is positioned on an entry. */
  function Valid(list: seq<Framed>, it: Cursor): (r: bool)
    requires WellFormed(list, it)
    ensures r ==> it.pos < |list|
  {
    it.valid
  }

  /** Iterator::key (db/skiplist.cc:84-87): the entry under the cursor. */
  function Key(list: seq<Framed>, it: Cursor): (k: Framed)
    requires WellFormed(list, it) && it.valid
    ensures k in list
  {
    list[it.pos]
  }

  /** In an ordered list, exactly the entries before the cursor sort below its key. */
  lemma KeyHasRankPos(list: seq<Framed>, it: Cursor, j: nat)
    requires Ordered(list) && WellFormed(list, it) && it.valid && j < |list|
    ensures SetCmp(list[j], Key(list, it)) <==> j < it.pos
  {
    SetCmpIsStrictWeakOrder(list[it.pos], list[j], list[it.pos]);
  }

  /**
   Iterator::Next (db/skiplist.cc:90-96): step to the following entry; the
   cursor stops being valid exactly when it steps off the last one.
   */
  function Next(list: seq<Framed>, it: Cursor): (r: Cursor)
    requires WellFormed(list, it) && it.valid
    ensures WellFormed(list, r)
    ensures r.pos == it.pos + 1
    ensures r.valid <==> it.pos + 1 < |list|
  {
    var p := it.pos + 1;
    if p == |list| then Cursor(p, false) else Cursor(p, it.valid)
  }

  /**
   Iterator::Prev (db/skiplist.cc:99-108): step to the preceding entry; on
   the first entry the cursor stops being valid and stays where it is.
   */
  function Prev(list: seq<Framed>, it: Cursor): (r: Cursor)
    requires WellFormed(list, it) && it.valid
    ensures WellFormed(list, r)
    ensures it.pos > 0 ==> r.pos == it.pos - 1 && r.valid
    ensures it.pos == 0 ==> r.pos == 0 && !r.valid
  {
    if it.pos != 0 then Cursor(it.pos - 1, it.valid) else Cursor(it.pos, false)
  }

  /**
   Iterator::Seek (db/skiplist.cc:110-122) as written: starting from the
   current entry, move forward past entries that sort below `target`; if
   even the last entry sorts below it, stay on the last entry. Validity is
   never touched. The source dereferences the current entry first, so the
   cursor must sit on one.
   */
  function Seek(list: seq<Framed>, it: Cursor, target: Framed): (r: Cursor)
    requires WellFormed(list, it) && it.pos < |list|
    ensures WellFormed(list, r)
    ensures r.valid == it.valid
    ensures it.pos <= r.pos < |list|
    ensures forall j :: it.pos <= j < r.pos ==> SetCmp(list[j], target)
    ensures !SetCmp(list[r.pos], target) || r.pos == |list| - 1
    decreases |list| - it.pos
  {
    if SetCmp(list[it.pos], target) then
      if it.pos + 1 == |list| then it
      else Seek(list, Cursor(it.pos + 1, it.valid), target)
    else
      it
  }

  /**
   Iterator::SeekToFirst (db/skiplist.cc:124-130): on a non-empty list, a
   valid cursor on the least entry; on an empty list, the cursor unchanged.
   */
  function SeekToFirst(list: seq<Framed>, it: Cursor): (r: Cursor)
    ensures |list| == 0 ==> r == it
    ensures |list| > 0 ==> r.valid && r.pos < |list|
    ensures |list| > 0 && Ordered(list) ==>
      forall j :: 0 <= j < |list| && j != r.pos ==> SetCmp(list[r.pos], list[j])
    ensures WellFormed(list, it) ==> WellFormed(list, r) && (r.valid <==> |list| > 0)
  {
    if |list| == 0 then it else Cursor(0, true)
  }

  /**
   Iterator::SeekToLast (db/skiplist.cc:132-139): on a non-empty list, a
   valid cursor on the greatest entry; on an empty list, the cursor unchanged.
   */
  function SeekToLast(list: seq<Framed>, it: Cursor): (r: Cursor)
    ensures |list| == 0 ==> r == it
    ensures |list| > 0 ==> r.valid && r.pos < |list|
    ensures |list| > 0 && Ordered(list) ==>
      forall j :: 0 <= j < |list| && j != r.pos ==> SetCmp(list[j], list[r.pos])
    ensures WellFormed(list, it) ==> WellFormed(list, r) && (r.valid <==> |list| > 0)
  {
    if |list| == 0 then it else Cursor(|list| - 1, true)
  }

  /** A cursor stays well formed while the list grows: Insert never removes entries. */
  lemma WellFormedSurvivesInsert(list: seq<Framed>, it: Cursor, key: Framed)
    requires Ordered(list) && WellFormed(list, it)
    ensures WellFormed(Insert(list, key), it)
  {
  }

  /** The keys read by calling `key()` and `Next()` until the cursor is no longer valid. */
  function Forward(list: seq<Framed>, it: Cursor): seq<Framed>
    requires WellFormed(list, it)
    decreases |list| - it.pos
  {
    if !it.valid then [] else [Key(list, it)] + Forward(list, Next(list, it))
  }

  /** The keys read by calling `key()` and `Prev()` until the cursor is no longer valid. */
  function Backward(list: seq<Framed>, it: Cursor): seq<Framed>
    requires WellFormed(list, it)
    decreases if it.valid then it.pos + 1 else 0
  {
    if !it.valid then [] else [Key(list, it)] + Backward(list, Prev(list, it))
  }

  function Reverse<T>(s: seq<T>): seq<T> {
    if |s| == 0 then [] else [s[|s| - 1]] + Reverse(s[..|s| - 1])
  }

  lemma {:induction false} ForwardFrom(list: seq<Framed>, i: nat)
    requires i < |list|
    ensures Forward(list, Cursor(i, true)) == list[i..]
    decreases |list| - i
  {
    if i + 1 < |list| {
      ForwardFrom(list, i + 1);
      assert list[i..] == [list[i]] + list[i + 1..];
    }
  }

  lemma {:induction false} BackwardFrom(list: seq<Framed>, i: nat)
    requires i < |list|
    ensures Backward(list, Cursor(i, true)) == Reverse(list[..i + 1])
  {
    assert list[..i + 1][..i] == list[..i];
    if i > 0 {
      BackwardFrom(list, i - 1);
    }
  }

  /**
   SeekToFirst followed by Next until the cursor is invalid reads every
   entry exactly once, in strictly increasing order.
   */
  lemma ForwardScanVisitsAll(list: seq<Framed>, it: Cursor)
    requires WellFormed(list, it)
    ensures Forward(list, SeekToFirst(list, it)) == list
    ensures Ordered(list) ==>
      var keys := Forward(list, SeekToFirst(list, it));
      forall i, j :: 0 <= i < j < |keys| ==> SetCmp(keys[i], keys[j])
  {
    if |list| > 0 {
      ForwardFrom(list, 0);
    }
  }

  /**
   SeekToLast followed by Prev until the cursor is invalid reads the
   forward scan in reverse.
   */
  lemma BackwardScanReversesForward(list: seq<Framed>, it: Cursor)
    requires WellFormed(list, it)
    ensures Backward(list, SeekToLast(list, it)) == Reverse(Forward(list, SeekToFirst(list, it)))
  {
    ForwardScanVisitsAll(list, it);
    if |list| > 0 {
      assert SeekToLast(list, it) == Cursor(|list| - 1, true);
      BackwardFrom(list, |list| - 1);
      assert list[..|list|] == list;
    } else {
      assert SeekToLast(list, it) == it && !it.valid;
    }
  }

  /**
   The documented Seek contract, "first entry with a key >= target", holds
   when Seek starts from the first entry and some entry is not below
   `target`: Seek then lands on the lower bound and the cursor is valid.
   */
  lemma SeekFromFirstFindsLowerBound(list: seq<Framed>, it: Cursor, target: Framed)
    requires WellFormed(list, it) && |list| > 0
    requires LowerBound(list, target) < |list|
    ensures var r := Seek(list, SeekToFirst(list, it), target);
      r.valid && r.pos == LowerBound(list, target)
  {
  }

  /**
   For a key that is in the list, seeking it from the first entry lands on
   it.
   */
  lemma SeekFromFirstFindsPresentKey(list: seq<Framed>, it: Cursor, j: nat)
    requires Ordered(list) && WellFormed(list, it) && j < |list|
    ensures Seek(list, SeekToFirst(list, it), list[j]) == Cursor(j, true)
  {
    SetCmpIsStrictWeakOrder(list[j], list[j], list[j]);
    assert LowerBound(list, list[j]) == j;
    SeekFromFirstFindsLowerBound(list, it, list[j]);
  }

  /**
   The intended Seek: search from the first entry for the first one not
   below `target`; the cursor is valid exactly when there is one.
   */
  function SeekCorrected(list: seq<Framed>, target: Framed): (r: Cursor)
    ensures WellFormed(list, r)
    ensures r.valid <==> exists j :: 0 <= j < |list| && !SetCmp(list[j], target)
    ensures r.valid ==> !SetCmp(list[r.pos], target)
    ensures forall j :: 0 <= j < r.pos ==> SetCmp(list[j], target)
    ensures Ordered(list) ==> forall j :: r.pos <= j < |list| ==> !SetCmp(list[j], target)
  {
    LowerBoundSplits(list, target);
    var i := LowerBound(list, target);
    if i < |list| then Cursor(i, true) else Cursor(|list|, false)
  }

  /** Where the written Seek is valid after starting from the first entry, it agrees with the intended one. */
  lemma SeekAgreesWithCorrectedFromFirst(list: seq<Framed>, it: Cursor, target: Framed)
    requires WellFormed(list, it) && |list| > 0
    requires SeekCorrected(list, target).valid
    ensures Seek(list, SeekToFirst(list, it), target) == SeekCorrected(list, target)
  {
    SeekFromFirstFindsLowerBound(list, it, target);
  }

  // Entries used by the concrete cases below: A sorts before B.
  const A: Framed := Framed([1], [1])
  const B: Framed := Framed([1], [2])

  lemma ABOrdered()
    ensures SetCmp(A, B) && Ordered([A, B])
  {
    assert SmallerAt(A.payload, B.payload, 0);
  }

  /**
   Seek never updates validity: on a freshly constructed iterator it leaves
   the cursor invalid even when the target is in the list.
   */
  lemma SeekOnFreshIteratorStaysInvalid()
    ensures var list := [A];
      && Contains(list, A)
      && Seek(list, NewIterator(list), A) == Cursor(0, false)
      && SeekCorrected(list, A) == Cursor(0, true)
  {
    SetCmpIsStrictWeakOrder(A, A, A);
  }

  /**
   Seek resumes from the current entry and never moves back: from B it
   does not return to A, although A is the first entry not below A.
   */
  lemma SeekDoesNotRewind()
    ensures var list := [A, B];
      && Ordered(list)
      && Seek(list, Cursor(1, true), A) == Cursor(1, true)
      && SeekCorrected(list, A) == Cursor(0, true)
  {
    ABOrdered();
    SetCmpIsStrictWeakOrder(A, B, A);
  }

  /**
   When every remaining entry sorts below the target, Seek stays on the
   last entry and the cursor remains valid, instead of becoming invalid.
   */
  lemma SeekPastAllKeysStaysValid()
    ensures var list := [A];
      && SetCmp(A, B)
      && Seek(list, Cursor(0, true), B) == Cursor(0, true)
      && !SeekCorrected(list, B).valid
  {
    ABOrdered();
  }

  /**
   Seek reads the current entry before anything else, so it has no entry to
   read on an empty list or after Next has stepped off the last entry: both
   leave the cursor at `end()`, outside Seek's domain. The intended Seek is
   defined there and reports an invalid cursor or the entry found.
   */
  lemma SeekAtEndHasNoEntryToRead()
    ensures var empty: seq<Framed> := [];
      && NewIterator(empty).pos == |empty|
      && SeekCorrected(empty, A) == Cursor(0, false)
    ensures var list := [A]; var it := Next(list, Cursor(0, true));
      && WellFormed(list, it) && it.pos == |list| && !it.valid
      && SeekCorrected(list, A) == Cursor(0, true)
  {
    SetCmpIsStrictWeakOrder(A, A, A);
  }
}
