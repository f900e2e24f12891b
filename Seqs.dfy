/** Sequence helpers standing for the Kotlin collection operations the
    generator relies on: `toSet` and the key order of `groupBy`, both backed
    by insertion-ordered hash tables, and ranges of indices. */
module Seqs {

  /** Position of the first occurrence of `x` in `s`, or `|s|` when absent. */
  function FirstIndex<T(==,!new)>(s: seq<T>, x: T): (r: nat)
    ensures r <= |s|
    ensures r < |s| ==> s[r] == x
    ensures x !in s[..r]
    ensures r == |s| <==> x !in s
  {
    if s == [] then 0
    else if s[0] == x then 0
    else
      var r := 1 + FirstIndex(s[1..], x);
      assert s[..r] == [s[0]] + s[1..][..r - 1];
      assert r == |s| ==> s == [s[0]] + s[1..];
      r
  }

  predicate NoDuplicates<T(==,!new)>(s: seq<T>) {
    forall i, j | 0 <= i < j < |s| :: s[i] != s[j]
  }

  /** `s` with every element kept at its first occurrence only, in order:
      what Kotlin's `toSet()` iterates, and the key order of `groupBy`. */
  function Dedup<T(==,!new)>(s: seq<T>): (r: seq<T>)
    ensures |r| <= |s|
    ensures NoDuplicates(r)
    ensures forall i | 0 <= i < |r| :: r[i] in s
    decreases |s|
  {
    if s == [] then []
    else
      var r := Dedup(s[..|s| - 1]);
      if s[|s| - 1] in r then r else r + [s[|s| - 1]]
  }

  /** Without duplicates, the last element is not among the others, and
      the others have no duplicates either. */
  lemma NoDuplicatesInit<T(!new)>(s: seq<T>)
    requires NoDuplicates(s) && s != []
    ensures s[|s| - 1] !in s[..|s| - 1]
    ensures NoDuplicates(s[..|s| - 1])
  {
    var init := s[..|s| - 1];
    forall i | 0 <= i < |init|
      ensures init[i] != s[|s| - 1]
    {
      assert init[i] == s[i];
    }
  }

  /** `Dedup` keeps exactly the elements of `s`, each once. */
  lemma {:induction false} DedupMembers<T(!new)>(s: seq<T>)
    ensures forall x :: x in Dedup(s) <==> x in s
    ensures NoDuplicates(Dedup(s))
    decreases |s|
  {
    if s != [] {
      var init, last := s[..|s| - 1], s[|s| - 1];
      assert s == init + [last];
      DedupMembers(init);
      var r := Dedup(init);
      if last !in r {
        assert forall i | 0 <= i < |r| :: (r + [last])[i] == r[i];
      }
    }
  }

  lemma DedupAppend<T(!new)>(s: seq<T>, x: T)
    ensures Dedup(s + [x]) == if x in s then Dedup(s) else Dedup(s) + [x]
  {
    assert (s + [x])[..|s|] == s;
    DedupMembers(s);
  }

  /** Every element of `s` occurs exactly once in `Dedup(s)`; nothing else does. */
  lemma {:induction false} DedupOccurrences<T(!new)>(s: seq<T>)
    ensures forall x :: multiset(Dedup(s))[x] == if x in s then 1 else 0
    decreases |s|
  {
    if s != [] {
      var init, last := s[..|s| - 1], s[|s| - 1];
      assert s == init + [last];
      DedupOccurrences(init);
      DedupAppend(init, last);
    }
  }

  lemma FirstIndexAppend<T(!new)>(s: seq<T>, y: T, x: T)
    requires x in s
    ensures FirstIndex(s + [y], x) == FirstIndex(s, x)
  {
    var b := FirstIndex(s, x);
    assert (s + [y])[b] == x;
  }

  /** `Dedup` keeps first occurrences in the order they first occur. */
  lemma {:induction false} DedupKeepsFirstSeenOrder<T(!new)>(s: seq<T>)
    ensures forall i, j | 0 <= i < j < |Dedup(s)| ::
              FirstIndex(s, Dedup(s)[i]) < FirstIndex(s, Dedup(s)[j])
    decreases |s|
  {
    if s != [] {
      var init, last := s[..|s| - 1], s[|s| - 1];
      assert s == init + [last];
      DedupKeepsFirstSeenOrder(init);
      DedupAppend(init, last);
      DedupMembers(init);
      var r0, r := Dedup(init), Dedup(s);
      forall i, j | 0 <= i < j < |r|
        ensures FirstIndex(s, r[i]) < FirstIndex(s, r[j])
      {
        assert r[i] in r0;
        FirstIndexAppend(init, last, r[i]);
        if j < |r0| {
          FirstIndexAppend(init, last, r[j]);
        } else {
          assert r[j] == last && last !in init;
          assert s[|init|] == last;
          assert last !in s[..|init|];
        }
      }
    }
  }

  lemma Associative<T>(x: seq<T>, y: seq<T>, z: seq<T>)
    ensures (x + y) + z == x + (y + z)
  {
  }

  /** All but the last element of a concatenation, and its last element. */
  lemma InitOfAppend<T>(a: seq<T>, b: seq<T>)
    requires b != []
    ensures (a + b)[..|a + b| - 1] == a + b[..|b| - 1]
    ensures (a + b)[|a + b| - 1] == b[|b| - 1]
  {
  }

  /** The indices lo, lo + 1, ..., lo + count - 1. */
  function Indices(lo: nat, count: nat): (r: seq<nat>)
    ensures |r| == count
    decreases count
  {
    if count == 0 then [] else Indices(lo, count - 1) + [lo + count - 1]
  }

  /** Position `i` holds `lo + i`: the indices are consecutive and ascending. */
  lemma {:induction false} IndicesAscend(lo: nat, count: nat)
    ensures forall i | 0 <= i < count :: Indices(lo, count)[i] == lo + i
    decreases count
  {
    if count > 0 {
      IndicesAscend(lo, count - 1);
    }
  }

  /** The indices, read from the front: the first one, then the rest. */
  lemma {:induction false} IndicesFront(lo: nat, count: nat)
    requires count > 0
    ensures Indices(lo, count) == [lo] + Indices(lo + 1, count - 1)
    decreases count
  {
    if count > 1 {
      IndicesFront(lo, count - 1);
      IndicesLast(lo + 1, count - 1, lo + count - 1);
    }
  }

  /** The definition of `Indices`, with the last index named. */
  lemma IndicesLast(lo: nat, count: nat, last: nat)
    requires count > 0 && last == lo + count - 1
    ensures Indices(lo, count) == Indices(lo, count - 1) + [last]
  {
  }

  /** Fewer indices from the same start are a prefix of more. */
  lemma {:induction false} IndicesPrefix(lo: nat, a: nat, b: nat)
    requires a <= b
    ensures Indices(lo, a) <= Indices(lo, b)
    decreases b
  {
    if a < b {
      IndicesPrefix(lo, a, b - 1);
    }
  }

  function CeilDiv(n: nat, d: nat): nat
    requires d > 0
  {
    (n + d - 1) / d
  }

  /** A non-empty run of one value collapses to that value. */
  lemma {:induction false} DedupAllSame<T(!new)>(s: seq<T>, x: T)
    requires s != []
    requires forall y | y in s :: y == x
    ensures Dedup(s) == [x]
    decreases |s|
  {
    var init := s[..|s| - 1];
    assert s[|s| - 1] in s;
    if init != [] {
      assert forall y | y in init :: y in s;
      DedupAllSame(init, x);
    }
  }
}
