/**
 The default bytewise comparator (DefaultCmpI): lexicographic order over
 unsigned bytes, and the two key-shortening operations used to build compact
 index boundaries, FindShortestSeparator and FindShortSuccessor.

 Keys are immutable byte strings here; the source mutates a `std::string` in
 place, which is modelled as a function returning the new contents.
 */
module Comparator {

  /** An unsigned byte: every `char` of a key is read as `uint8_t`. */
  newtype byte = b: int | 0 <= b < 0x100

  type Bytes = seq<byte>

  const MaxByte: byte := 0xFF

  /** `p` is a (not necessarily proper) prefix of `s`. */
  predicate IsPrefix(p: Bytes, s: Bytes) {
    |p| <= |s| && p == s[..|p|]
  }

  /** `a` and `b` agree on their first `i` bytes and `a` has the smaller byte at `i`. */
  predicate SmallerAt(a: Bytes, b: Bytes, i: nat) {
    i < |a| && i < |b| && a[..i] == b[..i] && a[i] < b[i]
  }

  /**
   Reference definition of the order: `a` sorts strictly before `b` when it
   is a proper prefix of `b`, or when it has the smaller byte at some
   position before which the two agree.
   */
  ghost predicate LexLess(a: Bytes, b: Bytes) {
    (|a| < |b| && IsPrefix(a, b)) || exists i: nat :: SmallerAt(a, b, i)
  }

  ghost predicate LexLeq(a: Bytes, b: Bytes) {
    a == b || LexLess(a, b)
  }

  /** Every byte of `key` is 0xFF (vacuously so for the empty key). */
  predicate AllMax(key: Bytes) {
    forall i :: 0 <= i < |key| ==> key[i] == MaxByte
  }

  /**
   The scan of db/skiplist.cc:35-38: starting from a position `i` before
   which the strings agree, advance while both have a byte at the position
   and the bytes are equal.
   */
  function ScanCommon(a: Bytes, b: Bytes, i: nat): (n: nat)
    requires i <= |a| && i <= |b| && a[..i] == b[..i]
    ensures i <= n <= |a| && n <= |b|
    ensures a[..n] == b[..n]
    ensures n < |a| && n < |b| ==> a[n] != b[n]
    decreases |a| - i
  {
    if i < |a| && i < |b| && a[i] == b[i] then
      assert a[..i + 1] == a[..i] + [a[i]] && b[..i + 1] == b[..i] + [b[i]];
      ScanCommon(a, b, i + 1)
    else
      i
  }

  /** Length of the longest common prefix: the first index where `a` and `b` differ. */
  function CommonPrefix(a: Bytes, b: Bytes): (n: nat)
    ensures n <= |a| && n <= |b|
    ensures a[..n] == b[..n]
    ensures n < |a| && n < |b| ==> a[n] != b[n]
  {
    ScanCommon(a, b, 0)
  }

  /** The three properties of CommonPrefix determine it. */
  lemma CommonPrefixUnique(a: Bytes, b: Bytes, m: nat)
    requires m <= |a| && m <= |b| && a[..m] == b[..m]
    requires m < |a| && m < |b| ==> a[m] != b[m]
    ensures m == CommonPrefix(a, b)
  {
    var n := CommonPrefix(a, b);
  }

  lemma CommonPrefixSymmetric(a: Bytes, b: Bytes)
    ensures CommonPrefix(a, b) == CommonPrefix(b, a)
  {
    CommonPrefixUnique(a, b, CommonPrefix(b, a));
  }

  /** A prefix agrees with the longer string everywhere it is defined. */
  lemma PrefixHasNoDifference(p: Bytes, s: Bytes)
    requires IsPrefix(p, s)
    ensures CommonPrefix(p, s) == |p|
  {
    CommonPrefixUnique(p, s, |p|);
  }

  /** When one string is a prefix of the other, they differ nowhere both are defined. */
  lemma PrefixMeansNoDifference(a: Bytes, b: Bytes)
    ensures IsPrefix(a, b) || IsPrefix(b, a) ==>
      var n := CommonPrefix(a, b); n == |a| || n == |b|
  {
    if IsPrefix(a, b) {
      PrefixHasNoDifference(a, b);
    } else if IsPrefix(b, a) {
      PrefixHasNoDifference(b, a);
      CommonPrefixSymmetric(a, b);
    }
  }

  /**
   The reference order is decided at the first difference: by the bytes
   there if both strings have one, by length otherwise.
   */
  lemma LexLessAtCommonPrefix(a: Bytes, b: Bytes)
    ensures var n := CommonPrefix(a, b);
      LexLess(a, b) <==> (if n < |a| && n < |b| then a[n] < b[n] else |a| < |b|)
  {
    var n := CommonPrefix(a, b);
    if n < |a| && n < |b| {
      if a[n] < b[n] {
        assert SmallerAt(a, b, n);
      } else {
        forall i: nat
          ensures !SmallerAt(a, b, i)
        {
          if i < |a| && i < |b| && a[..i] == b[..i] && i < n {
            assert a[..n][i] == b[..n][i];
          }
        }
      }
    } else if |a| < |b| {
      assert n == |a|;
      assert IsPrefix(a, b);
    } else {
      assert n == |b|;
      forall i: nat
        ensures !SmallerAt(a, b, i)
      {
        if i < |b| {
          assert a[..n][i] == b[..n][i];
        }
      }
    }
  }

  /** Two strings are equal exactly when they share their whole length. */
  lemma EqualAtCommonPrefix(a: Bytes, b: Bytes)
    ensures var n := CommonPrefix(a, b);
      a == b <==> (n == |a| && n == |b|)
  {
    var n := CommonPrefix(a, b);
    if n == |a| && n == |b| {
      assert a == a[..n] && b == b[..n];
    }
  }

  /**
   DefaultCmpI::Compare (db/skiplist.cc:28-30), which delegates to the
   bytewise Slice comparison. Only the sign of the source's result is
   meaningful; the model returns -1, 0 or 1.
   */
  function Compare(a: Bytes, b: Bytes): (r: int)
    ensures -1 <= r <= 1
    ensures r < 0 <==> LexLess(a, b)
    ensures r == 0 <==> a == b
    ensures r > 0 <==> LexLess(b, a)
  {
    LexLessAtCommonPrefix(a, b);
    LexLessAtCommonPrefix(b, a);
    CommonPrefixSymmetric(a, b);
    EqualAtCommonPrefix(a, b);
    var n := CommonPrefix(a, b);
    if n < |a| && n < |b| then
      (if a[n] < b[n] then -1 else 1)
    else if |a| < |b| then -1
    else if |b| < |a| then 1
    else 0
  }

  /** The reference order is a strict total order. */
  lemma LexLessIsStrictTotalOrder(a: Bytes, b: Bytes)
    ensures !LexLess(a, a)
    ensures !(LexLess(a, b) && LexLess(b, a))
    ensures a == b || LexLess(a, b) || LexLess(b, a)
  {
    var _ := Compare(a, a);
    var _ := Compare(a, b);
  }

  lemma {:induction false} LexLessTransitive(a: Bytes, b: Bytes, c: Bytes)
    requires LexLess(a, b) && LexLess(b, c)
    ensures LexLess(a, c)
  {
    LexLessAtCommonPrefix(a, b);
    LexLessAtCommonPrefix(b, c);
    var n1 := CommonPrefix(a, b);
    var n2 := CommonPrefix(b, c);
    var m := if n1 < n2 then n1 else n2;
    assert a[..m] == c[..m] by {
      assert a[..m] == a[..n1][..m] == b[..n1][..m] == b[..m];
      assert b[..m] == b[..n2][..m] == c[..n2][..m] == c[..m];
    }
    if n1 < n2 {
      assert b[n1] == c[n1] by { assert b[..n2][n1] == c[..n2][n1]; }
      if n1 < |a| {
        assert SmallerAt(a, c, n1);
      } else {
        assert IsPrefix(a, c);
      }
    } else if n2 < n1 {
      assert a[n2] == b[n2] by { assert a[..n1][n2] == b[..n1][n2]; }
      assert SmallerAt(a, c, n2);
    } else if m < |a| {
      assert SmallerAt(a, c, m);
    } else {
      assert IsPrefix(a, c);
    }
  }

  /**
   DefaultCmpI::FindShortestSeparator (db/skiplist.cc:31-51): find the first
   byte where `start` and `limit` differ; when neither is a prefix of the
   other and that byte of `start` can be bumped by one while staying below
   `limit`'s byte, cut `start` just after it and bump it; otherwise keep
   `start`.
   */
  function FindShortestSeparator(start: Bytes, limit: Bytes): (r: Bytes)
    ensures |r| <= |start|
    ensures IsPrefix(start, limit) || IsPrefix(limit, start) ==> r == start
    ensures r != start ==> LexLess(start, r) && LexLess(r, limit)
    ensures LexLess(start, limit) ==> LexLeq(start, r) && LexLess(r, limit)
    ensures r != start ==>
      var d := CommonPrefix(start, limit);
      |r| == d + 1 && r[..d] == start[..d] && r[d] as int == start[d] as int + 1
    ensures var d := CommonPrefix(start, limit);
      r != start <==> d < |start| && d < |limit| && start[d] as int + 1 < limit[d] as int
  {
    PrefixMeansNoDifference(start, limit);
    var d := CommonPrefix(start, limit);
    if d >= |start| || d >= |limit| then
      start
    else if start[d] < MaxByte && start[d] as int + 1 < limit[d] as int then
      var r := start[..d] + [start[d] + 1];
      assert r[..d] == start[..d] == limit[..d];
      assert SmallerAt(start, r, d) && SmallerAt(r, limit, d);
      r
    else
      start
  }

  /**
   The separator is kept short but is not always the shortest string in
   `[start, limit)`: for start = [1, 5] and limit = [2, 0] the source keeps
   `start`, although the one-byte string [2] lies in between.
   */
  lemma SeparatorIsNotAlwaysShortest()
    ensures var start: Bytes, limit: Bytes, shorter: Bytes := [1, 5], [2, 0], [2];
      && LexLess(start, limit)
      && FindShortestSeparator(start, limit) == start
      && LexLess(start, shorter) && LexLess(shorter, limit) && |shorter| < |start|
  {
    var start: Bytes, limit: Bytes, shorter: Bytes := [1, 5], [2, 0], [2];
    assert SmallerAt(start, limit, 0);
    assert SmallerAt(start, shorter, 0);
    assert IsPrefix(shorter, limit);
    CommonPrefixUnique(start, limit, 0);
  }

  /**
   The loop of db/skiplist.cc:55-62 resumed at `i`, every byte before which
   is 0xFF: the first byte that is not 0xFF is incremented and the key cut
   just after it; a key of 0xFF bytes only is returned unchanged.
   */
  function SuccessorFrom(key: Bytes, i: nat): (r: Bytes)
    requires i <= |key|
    requires AllMax(key[..i])
    ensures |r| <= |key|
    ensures AllMax(key) ==> r == key
    ensures !AllMax(key) ==>
      && 0 < |r|
      && AllMax(key[..|r| - 1]) && key[|r| - 1] != MaxByte
      && r == key[..|r| - 1] + [key[|r| - 1] + 1]
      && LexLess(key, r)
    decreases |key| - i
  {
    if i == |key| then
      assert key[..i] == key;
      key
    else if key[i] != MaxByte then
      var r := key[..i] + [key[i] + 1];
      assert r[..i] == key[..i];
      assert SmallerAt(key, r, i);
      r
    else
      assert key[..i + 1] == key[..i] + [key[i]];
      SuccessorFrom(key, i + 1)
  }

  /** DefaultCmpI::FindShortSuccessor (db/skiplist.cc:52-64). */
  function FindShortSuccessor(key: Bytes): (r: Bytes)
    ensures |r| <= |key|
    ensures AllMax(key) ==> r == key
    ensures !AllMax(key) ==>
      && 0 < |r|
      && AllMax(key[..|r| - 1]) && key[|r| - 1] != MaxByte
      && r == key[..|r| - 1] + [key[|r| - 1] + 1]
      && LexLess(key, r)
  {
    SuccessorFrom(key, 0)
  }

  /**
   The successor is an upper bound for every key that extends `key`, which
   is what makes it usable as an open-ended bound for a key range.
   */
  lemma SuccessorBoundsExtensions(key: Bytes, s: Bytes)
    requires !AllMax(key) && IsPrefix(key, s)
    ensures LexLess(s, FindShortSuccessor(key))
  {
    var r := FindShortSuccessor(key);
    var i := |r| - 1;
    assert s[..i] == key[..i] by { assert s[..|key|][..i] == s[..i]; }
    assert s[i] == key[i] by { assert s[..|key|][i] == s[i]; }
    assert r[..i] == key[..i];
    assert SmallerAt(s, r, i);
  }
}
