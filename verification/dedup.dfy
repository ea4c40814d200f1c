/** Order-preserving removal of duplicates from a sequence: the
    `remove_duplicates_ordered` routine of the sets guide, lifted out of the
    demonstration that defines it and made generic over any element type
    with equality (the source needs hashable items). */
module OrderedDedup {

  /** No element occurs twice. */
  predicate NoDup<T(==)>(s: seq<T>) {
    forall i, j :: 0 <= i < j < |s| ==> s[i] != s[j]
  }

  /** The set of elements of a sequence. */
  function Elems<T>(s: seq<T>): set<T> {
    set x | x in s
  }

  /** Specification of the routine: the input de-duplicated so far, extended
      one item at a time, where an item is kept only if it has not been kept
      before. */
  function Dedup<T(==)>(s: seq<T>): seq<T> {
    if s == [] then []
    else
      var d := Dedup(s[..|s| - 1]);
      if s[|s| - 1] in d then d else d + [s[|s| - 1]]
  }

  /** Position of the first occurrence of `x` in `s`. */
  function FirstIndex<T(==)>(s: seq<T>, x: T): (k: nat)
    requires x in s
    ensures k < |s| && s[k] == x
    ensures forall j :: 0 <= j < k ==> s[j] != x
  {
    if s[0] == x then 0 else 1 + FirstIndex(s[1..], x)
  }

  /** `idx` lists, in strictly increasing order, positions of `s` that hold
      the elements of `r` one by one. */
  predicate IsEmbedding<T(==)>(idx: seq<nat>, r: seq<T>, s: seq<T>) {
    && |idx| == |r|
    && (forall i :: 0 <= i < |idx| ==> idx[i] < |s| && s[idx[i]] == r[i])
    && (forall i, j :: 0 <= i < j < |idx| ==> idx[i] < idx[j])
  }

  /** `r` is obtained from `s` by deleting some items. */
  ghost predicate IsSubsequence<T>(r: seq<T>, s: seq<T>) {
    exists idx: seq<nat> :: IsEmbedding(idx, r, s)
  }

  /** The loop of the source: a `seen` set and a `result` list, where an
      item is appended (and added to `seen`) only on its first occurrence. */
  method RemoveDuplicatesOrdered<T(==)>(s: seq<T>) returns (result: seq<T>)
    ensures result == Dedup(s)
    ensures NoDup(result)
    ensures Elems(result) == Elems(s)
    ensures |result| <= |s|
  {
    var seen: set<T> := {};
    result := [];
    var i := 0;
    while i < |s|
      invariant 0 <= i <= |s|
      invariant result == Dedup(s[..i])
      invariant seen == Elems(result) == Elems(s[..i])
      invariant NoDup(result)
      invariant |result| <= i
    {
      var item := s[i];
      assert s[..i + 1][..i] == s[..i];
      assert Elems(s[..i + 1]) == Elems(s[..i]) + {item};
      if item !in seen {
        seen := seen + {item};
        result := result + [item];
      }
      i := i + 1;
    }
    assert s[..|s|] == s;
  }

  /** The result has no repeated element, holds exactly the elements of the
      input, and is no longer than the input. */
  lemma {:induction false} DedupBasics<T>(s: seq<T>)
    ensures NoDup(Dedup(s))
    ensures Elems(Dedup(s)) == Elems(s)
    ensures |Dedup(s)| <= |s|
  {
    if s != [] {
      var p := s[..|s| - 1];
      DedupBasics(p);
      assert s == p + [s[|s| - 1]];
      assert Elems(s) == Elems(p) + {s[|s| - 1]};
    }
  }

  /** The first occurrence of an element of a prefix is found in the prefix. */
  lemma FirstIndexOfPrefix<T>(s: seq<T>, n: nat, x: T)
    requires n <= |s| && x in s[..n]
    ensures x in s && FirstIndex(s, x) == FirstIndex(s[..n], x)
  {
    var k := FirstIndex(s[..n], x);
    assert s[k] == x;
    var f := FirstIndex(s, x);
    assert f <= k;
    assert s[..n][f] == x;
  }

  /** First-occurrence order: the elements of the result appear in the order
      of their first occurrences in the input. */
  lemma {:induction false} DedupMonotone<T>(s: seq<T>)
    ensures forall i :: 0 <= i < |Dedup(s)| ==> Dedup(s)[i] in s
    ensures forall i, j :: 0 <= i < j < |Dedup(s)| ==>
      Dedup(s)[i] in s && Dedup(s)[j] in s &&
      FirstIndex(s, Dedup(s)[i]) < FirstIndex(s, Dedup(s)[j])
  {
    DedupBasics(s);
    var r := Dedup(s);
    forall i | 0 <= i < |r| ensures r[i] in s {
      assert r[i] in Elems(r);
    }
    if s != [] {
      var n := |s| - 1;
      var p := s[..n];
      var d := Dedup(p);
      DedupMonotone(p);
      DedupBasics(p);
      forall i | 0 <= i < |d| ensures d[i] in s && FirstIndex(s, d[i]) == FirstIndex(p, d[i]) < n {
        FirstIndexOfPrefix(s, n, d[i]);
      }
      if s[n] !in d {
        assert s[n] !in Elems(p);
        assert s[n] !in p;
        assert FirstIndex(s, s[n]) == n;
      }
    }
  }

  /** `x` precedes `y` in the result exactly when the first occurrence of `x`
      precedes that of `y` in the input. */
  lemma DedupFirstOccurrenceOrder<T>(s: seq<T>)
    ensures forall i, j :: 0 <= i < |Dedup(s)| && 0 <= j < |Dedup(s)| ==>
      Dedup(s)[i] in s && Dedup(s)[j] in s &&
      (i < j <==> FirstIndex(s, Dedup(s)[i]) < FirstIndex(s, Dedup(s)[j]))
  {
    DedupMonotone(s);
  }

  /** The result is a subsequence of the input: each of its elements is taken
      from the position of its first occurrence. */
  lemma DedupIsSubsequence<T>(s: seq<T>)
    ensures IsSubsequence(Dedup(s), s)
  {
    DedupMonotone(s);
    var r := Dedup(s);
    var idx := seq(|r|, i => if 0 <= i < |r| && r[i] in s then FirstIndex(s, r[i]) else 0);
    assert IsEmbedding(idx, r, s);
  }

  /** An input without duplicates is returned as it is. */
  lemma {:induction false} DedupOfNoDup<T>(s: seq<T>)
    requires NoDup(s)
    ensures Dedup(s) == s
  {
    if s != [] {
      var p := s[..|s| - 1];
      DedupOfNoDup(p);
      assert s[|s| - 1] !in p;
      assert s == p + [s[|s| - 1]];
    }
  }

  /** The result equals the input exactly when the input has no duplicates. */
  lemma DedupFixpoint<T>(s: seq<T>)
    ensures Dedup(s) == s <==> NoDup(s)
  {
    DedupBasics(s);
    if NoDup(s) {
      DedupOfNoDup(s);
    }
  }

  /** Idempotence: de-duplicating twice is the same as once. */
  lemma DedupIdempotent<T>(s: seq<T>)
    ensures Dedup(Dedup(s)) == Dedup(s)
  {
    DedupBasics(s);
    DedupOfNoDup(Dedup(s));
  }
}
