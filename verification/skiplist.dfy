/**
 The ordered key set behind SkipList. The live code keeps its entries in a
 `std::set<Slice, SetCmp>`: a set of length-prefixed key buffers ordered by
 the bytes that follow the length prefix. The set is modelled as a sequence
 of entries in strictly increasing SetCmp order; the balanced-tree search of
 the container is modelled by a scan for the first entry not below a key.
 */
module SkipList {
  import opened Comparator

  /**
   A length-prefixed key buffer, split at the end of its varint32 length
   header: `header` holds the encoded length, `payload` the key bytes that
   follow it. Only the payload takes part in ordering; decoding the header
   is not modelled.
   */
  datatype Framed = Framed(header: Bytes, payload: Bytes)

  /** SetCmp (db/skiplist.h:53-68): the strict order of the container. */
  function SetCmp(a: Framed, b: Framed): (r: bool)
    ensures r <==> LexLess(a.payload, b.payload)
  {
    Compare(a.payload, b.payload) < 0
  }

  /** Neither entry sorts before the other: the container treats them as one key. */
  predicate Equivalent(a: Framed, b: Framed) {
    !SetCmp(a, b) && !SetCmp(b, a)
  }

  /**
   SetCmp is a strict weak order whose equivalence is equality of payloads,
   whatever the length headers look like.
   */
  lemma SetCmpIsStrictWeakOrder(a: Framed, b: Framed, c: Framed)
    ensures !SetCmp(a, a)
    ensures SetCmp(a, b) ==> !SetCmp(b, a)
    ensures SetCmp(a, b) && SetCmp(b, c) ==> SetCmp(a, c)
    ensures Equivalent(a, b) <==> a.payload == b.payload
  {
    LexLessIsStrictTotalOrder(a.payload, b.payload);
    if SetCmp(a, b) && SetCmp(b, c) {
      LexLessTransitive(a.payload, b.payload, c.payload);
    }
  }

  /** The container's invariant: entries strictly increase under SetCmp. */
  ghost predicate Ordered(s: seq<Framed>) {
    forall i, j :: 0 <= i < j < |s| ==> SetCmp(s[i], s[j])
  }

  /** Some entry of `s` has payload `p`. */
  ghost predicate Present(s: seq<Framed>, p: Bytes) {
    exists i :: 0 <= i < |s| && s[i].payload == p
  }

  /** The first index at or after `i` whose entry does not sort below `key`. */
  function LowerBoundFrom(s: seq<Framed>, key: Framed, i: nat): (r: nat)
    requires i <= |s|
    requires forall j :: 0 <= j < i ==> SetCmp(s[j], key)
    ensures i <= r <= |s|
    ensures forall j :: 0 <= j < r ==> SetCmp(s[j], key)
    ensures r < |s| ==> !SetCmp(s[r], key)
    decreases |s| - i
  {
    if i < |s| && SetCmp(s[i], key) then LowerBoundFrom(s, key, i + 1) else i
  }

  /** Position of the first entry not below `key`, or `|s|` when there is none. */
  function LowerBound(s: seq<Framed>, key: Framed): (r: nat)
    ensures r <= |s|
    ensures forall j :: 0 <= j < r ==> SetCmp(s[j], key)
    ensures r < |s| ==> !SetCmp(s[r], key)
  {
    LowerBoundFrom(s, key, 0)
  }

  /** In an ordered set, every entry from the lower bound on is not below `key`. */
  lemma LowerBoundSplits(s: seq<Framed>, key: Framed)
    ensures Ordered(s) ==> forall j :: LowerBound(s, key) <= j < |s| ==> !SetCmp(s[j], key)
  {
    var i := LowerBound(s, key);
    forall j | i < j < |s| && Ordered(s)
      ensures !SetCmp(s[j], key)
    {
      SetCmpIsStrictWeakOrder(key, s[i], s[j]);
      SetCmpIsStrictWeakOrder(s[i], key, s[j]);
      SetCmpIsStrictWeakOrder(s[j], key, s[i]);
      if s[i].payload == key.payload {
        assert SetCmp(key, s[j]) by { assert SetCmp(s[i], s[j]); }
      }
    }
  }

  /** The only place in an ordered set where an entry equivalent to `key` can sit. */
  lemma PresentAtLowerBound(s: seq<Framed>, key: Framed)
    requires Ordered(s)
    ensures var i := LowerBound(s, key);
      Present(s, key.payload) <==> i < |s| && !SetCmp(key, s[i])
  {
    var i := LowerBound(s, key);
    if Present(s, key.payload) {
      var j :| 0 <= j < |s| && s[j].payload == key.payload;
      SetCmpIsStrictWeakOrder(s[j], key, s[j]);
      assert j == i;
    }
    if i < |s| && !SetCmp(key, s[i]) {
      SetCmpIsStrictWeakOrder(s[i], key, s[i]);
    }
  }

  /**
   SkipList::Contains (db/skiplist.cc:192): whether the set holds an entry
   equivalent to `key`, found the way `std::set::count` finds it.
   */
  function Contains(s: seq<Framed>, key: Framed): (r: bool)
    requires Ordered(s)
    ensures r <==> Present(s, key.payload)
  {
    PresentAtLowerBound(s, key);
    var i := LowerBound(s, key);
    i < |s| && !SetCmp(key, s[i])
  }

  /** Placing `key` between the entries below it and the entries above it keeps a set ordered. */
  lemma OrderedInsertAt(s: seq<Framed>, key: Framed, i: nat)
    requires Ordered(s) && i <= |s|
    requires forall j :: 0 <= j < i ==> SetCmp(s[j], key)
    requires forall j :: i <= j < |s| ==> SetCmp(key, s[j])
    ensures Ordered(s[..i] + [key] + s[i..])
  {
    var r := s[..i] + [key] + s[i..];
    assert forall a :: 0 <= a < i ==> r[a] == s[a];
    assert r[i] == key;
    assert forall a :: i < a < |r| ==> r[a] == s[a - 1];
  }

  /** When no entry equivalent to `key` sits at the lower bound, `key` sorts below every entry from there on. */
  lemma AboveLowerBound(s: seq<Framed>, key: Framed)
    requires Ordered(s)
    requires var i := LowerBound(s, key); !(i < |s| && !SetCmp(key, s[i]))
    ensures forall j :: LowerBound(s, key) <= j < |s| ==> SetCmp(key, s[j])
  {
    var i := LowerBound(s, key);
    forall j | i < j < |s|
      ensures SetCmp(key, s[j])
    {
      SetCmpIsStrictWeakOrder(key, s[i], s[j]);
    }
  }

  /** The contents of `s` with `key` placed at index `i`. */
  lemma PlacedAt(s: seq<Framed>, key: Framed, i: nat)
    requires i <= |s|
    ensures var r := s[..i] + [key] + s[i..];
      && |r| == |s| + 1 && r[i] == key
      && (forall e :: e in s ==> e in r)
      && (forall e :: e in r ==> e in s || e == key)
  {
    var r := s[..i] + [key] + s[i..];
    assert s == s[..i] + s[i..];
    assert multiset(r) == multiset(s) + multiset{key};
  }

  /**
   SkipList::Insert (db/skiplist.cc:179), which hands the key to
   `std::set::insert`: an entry equivalent to `key` already present leaves
   the set as it is, otherwise `key` joins the set at its place in the order.
   */
  function Insert(s: seq<Framed>, key: Framed): (r: seq<Framed>)
    requires Ordered(s)
    ensures Ordered(r)
    ensures Present(r, key.payload)
    ensures Present(s, key.payload) ==> r == s
    ensures !Present(s, key.payload) ==> |r| == |s| + 1 && key in r
    ensures forall e :: e in s ==> e in r
    ensures forall e :: e in r ==> e in s || e == key
  {
    PresentAtLowerBound(s, key);
    var i := LowerBound(s, key);
    if i < |s| && !SetCmp(key, s[i]) then
      s
    else
      AboveLowerBound(s, key);
      OrderedInsertAt(s, key, i);
      PlacedAt(s, key, i);
      s[..i] + [key] + s[i..]
  }

  /** Inserting one key does not change whether any other key is present. */
  lemma InsertKeepsOtherKeys(s: seq<Framed>, key: Framed, p: Bytes)
    requires Ordered(s) && p != key.payload
    ensures Present(Insert(s, key), p) <==> Present(s, p)
  {
    SameEntriesBesideKey(s, Insert(s, key), key, p);
  }

  /** Two sequences whose entries agree apart from `key` agree on every other payload. */
  lemma SameEntriesBesideKey(s: seq<Framed>, r: seq<Framed>, key: Framed, p: Bytes)
    requires forall e :: e in s ==> e in r
    requires forall e :: e in r ==> e in s || e == key
    requires p != key.payload
    ensures Present(r, p) <==> Present(s, p)
  {
    if Present(s, p) {
      var j :| 0 <= j < |s| && s[j].payload == p;
      assert s[j] in r;
      var k :| 0 <= k < |r| && r[k] == s[j];
    }
    if Present(r, p) {
      var j :| 0 <= j < |r| && r[j].payload == p;
      assert r[j] in s;
      var k :| 0 <= k < |s| && s[k] == r[j];
    }
  }

  /** The set built by inserting `keys` one after another into an empty list. */
  function Build(keys: seq<Framed>): (r: seq<Framed>)
    ensures Ordered(r)
  {
    if |keys| == 0 then [] else Insert(Build(keys[..|keys| - 1]), keys[|keys| - 1])
  }

  /** Some key of `keys` has payload `p`. */
  ghost predicate Inserted(keys: seq<Framed>, p: Bytes) {
    exists i :: 0 <= i < |keys| && keys[i].payload == p
  }

  lemma InsertedSplitsLast(keys: seq<Framed>, p: Bytes)
    requires |keys| > 0
    ensures Inserted(keys, p) <==> Inserted(keys[..|keys| - 1], p) || keys[|keys| - 1].payload == p
  {
    var front := keys[..|keys| - 1];
    if Inserted(keys, p) && keys[|keys| - 1].payload != p {
      var i :| 0 <= i < |keys| && keys[i].payload == p;
      assert front[i] == keys[i];
    }
    if Inserted(front, p) {
      var i :| 0 <= i < |front| && front[i].payload == p;
      assert keys[i] == front[i];
    }
  }

  /** After any sequence of inserts, exactly the inserted payloads are present. */
  lemma {:induction false} BuildHoldsExactlyInserted(keys: seq<Framed>, p: Bytes)
    ensures Present(Build(keys), p) <==> Inserted(keys, p)
  {
    if |keys| > 0 {
      var front, last := keys[..|keys| - 1], keys[|keys| - 1];
      var b := Build(front);
      assert Build(keys) == Insert(b, last);
      BuildHoldsExactlyInserted(front, p);
      InsertedSplitsLast(keys, p);
      if p != last.payload {
        InsertKeepsOtherKeys(b, last, p);
      }
    }
  }

  /** Inserting keys with pairwise distinct payloads yields one entry per key. */
  lemma {:induction false} BuildDistinctKeepsAll(keys: seq<Framed>)
    requires forall i, j :: 0 <= i < j < |keys| ==> keys[i].payload != keys[j].payload
    ensures |Build(keys)| == |keys|
  {
    if |keys| > 0 {
      var front, last := keys[..|keys| - 1], keys[|keys| - 1];
      BuildDistinctKeepsAll(front);
      BuildHoldsExactlyInserted(front, last.payload);
    }
  }
}
