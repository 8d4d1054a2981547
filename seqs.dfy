/**
 * Order-preserving de-duplication: what collecting into an `IndexSet` (Rust) or
 * inserting keys into a `Map` (JavaScript) does to a sequence of keys.
 */
module Seqs {

  predicate NoDuplicates<T(==)>(s: seq<T>)
  {
    forall i, j :: 0 <= i < j < |s| ==> s[i] != s[j]
  }

  /** Index of the first occurrence of `x` in `s`. */
  function FirstIndex<T(==)>(s: seq<T>, x: T): (k: nat)
    requires x in s
    ensures k < |s| && s[k] == x && x !in s[..k]
  {
    if s[0] == x then 0
    else
      var k := 1 + FirstIndex(s[1..], x);
      assert s[..k] == [s[0]] + s[1..][..k - 1];
      k
  }

  lemma {:induction false} FirstIndexOfPrefix<T>(s: seq<T>, t: seq<T>, x: T)
    requires x in s
    ensures FirstIndex(s + t, x) == FirstIndex(s, x)
  {
    var k := FirstIndex(s, x);
    var k' := FirstIndex(s + t, x);
    assert (s + t)[k] == x;
  }

  /**
   * The distinct elements of `s` in the order of their first occurrence. Built left to
   * right, as an insertion loop does: an element already seen is skipped.
   */
  function Dedup<T(==)>(s: seq<T>): (r: seq<T>)
    ensures NoDuplicates(r)
    ensures forall i :: 0 <= i < |r| ==> r[i] in s
    ensures forall i :: 0 <= i < |s| ==> s[i] in r
    ensures |r| <= |s|
  {
    if |s| == 0 then []
    else
      var d := Dedup(s[..|s| - 1]);
      var x := s[|s| - 1];
      assert s == s[..|s| - 1] + [x];
      if x in d then d else d + [x]
  }

  /** Appending one element extends the de-duplicated sequence by it exactly when it is new. */
  lemma DedupSnoc<T>(s: seq<T>, x: T)
    ensures Dedup(s + [x]) == if x in s then Dedup(s) else Dedup(s) + [x]
  {
    assert (s + [x])[..|s + [x]| - 1] == s;
  }

  /** The de-duplicated sequence lists the elements in the order of their first occurrence. */
  lemma {:induction false} DedupKeepsFirstOccurrenceOrder<T>(s: seq<T>, i: nat, j: nat)
    requires i < j < |Dedup(s)|
    ensures FirstIndex(s, Dedup(s)[i]) < FirstIndex(s, Dedup(s)[j])
  {
    var n := |s|;
    var p := s[..n - 1];
    var x := s[n - 1];
    assert s == p + [x];
    var d := Dedup(p);
    var di, dj := Dedup(s)[i], Dedup(s)[j];
    if j < |d| {
      DedupKeepsFirstOccurrenceOrder(p, i, j);
      FirstIndexOfPrefix(p, [x], di);
      FirstIndexOfPrefix(p, [x], dj);
    } else {
      // dj is the new last element x, seen first at position n - 1
      assert dj == x && x !in p;
      assert FirstIndex(s, x) == n - 1;
      FirstIndexOfPrefix(p, [x], di);
    }
  }
}
