/** Sequence operations shared by the stages: boolean-mask row selection (what
    pandas does when it indexes a frame with a mask) and predicate filtering
    (what a Python list comprehension with an `if` does). */
module Sequences {

  /** Strictly increasing positions: a selection that keeps the original order. */
  predicate Ascending(idx: seq<nat>) {
    forall k, l :: 0 <= k < l < |idx| ==> idx[k] < idx[l]
  }

  /** The positions i with keep[i], in increasing order. */
  function Kept(keep: seq<bool>): (idx: seq<nat>)
    ensures |idx| <= |keep|
    ensures Ascending(idx)
    ensures forall k :: 0 <= k < |idx| ==> idx[k] < |keep| && keep[idx[k]]
    ensures forall i :: 0 <= i < |keep| && keep[i] ==> i in idx
  {
    if keep == [] then []
    else
      var n := |keep| - 1;
      Kept(keep[..n]) + (if keep[n] then [n] else [])
  }

  /** r holds, in order, the elements of s at the strictly increasing
      positions idx: a selection that keeps order and takes each element at
      most once. */
  predicate SelectsAt<T(==)>(r: seq<T>, s: seq<T>, idx: seq<nat>) {
    Ascending(idx) && |r| == |idx| && forall k :: 0 <= k < |idx| ==> idx[k] < |s| && r[k] == s[idx[k]]
  }

  /** The elements of s at the positions idx, in the order of idx. */
  function Pick<T>(s: seq<T>, idx: seq<nat>): seq<T>
    requires forall k :: 0 <= k < |idx| ==> idx[k] < |s|
  {
    seq(|idx|, k requires 0 <= k < |idx| => s[idx[k]])
  }

  /** `s[mask]`: the elements whose mask entry is true, in their original order. */
  function Where<T>(s: seq<T>, keep: seq<bool>): seq<T>
    requires |keep| == |s|
  {
    Pick(s, Kept(keep))
  }

  /** A mask that keeps everything selects every position, in order. */
  lemma {:induction false} KeptAll(keep: seq<bool>)
    requires forall i :: 0 <= i < |keep| ==> keep[i]
    ensures Kept(keep) == seq(|keep|, i => i)
  {
    if keep != [] {
      KeptAll(keep[..|keep| - 1]);
    }
  }

  /** Selecting with an all-true mask is the identity. */
  lemma WhereAll<T>(s: seq<T>, keep: seq<bool>)
    requires |keep| == |s|
    requires forall i :: 0 <= i < |keep| ==> keep[i]
    ensures Where(s, keep) == s
  {
    KeptAll(keep);
  }

  /** `[x for x in s if p(x)]`. */
  function Filter<T>(s: seq<T>, p: T -> bool): (r: seq<T>)
    ensures |r| <= |s|
    ensures forall i :: 0 <= i < |r| ==> r[i] in s && p(r[i])
    ensures forall i :: 0 <= i < |s| && p(s[i]) ==> s[i] in r
  {
    if s == [] then []
    else (if p(s[0]) then [s[0]] else []) + Filter(s[1..], p)
  }

  /** Filtering distributes over concatenation: each element is judged on its
      own and keeps its place relative to the others. */
  lemma {:induction false} FilterConcat<T>(a: seq<T>, b: seq<T>, p: T -> bool)
    ensures Filter(a + b, p) == Filter(a, p) + Filter(b, p)
  {
    if a == [] {
      assert a + b == b;
    } else {
      assert (a + b)[0] == a[0];
      assert (a + b)[1..] == a[1..] + b;
      FilterConcat(a[1..], b, p);
    }
  }

  /** Filtering keeps the input exactly when every element passes. */
  lemma {:induction false} FilterIdentity<T>(s: seq<T>, p: T -> bool)
    ensures Filter(s, p) == s <==> forall i :: 0 <= i < |s| ==> p(s[i])
  {
    if s != [] {
      FilterIdentity(s[1..], p);
      if !p(s[0]) {
        assert |Filter(s, p)| < |s| by {
          assert Filter(s, p) == Filter(s[1..], p);
        }
      }
    }
  }

  /** Filtering a sequence without repeats gives one without repeats. */
  lemma {:induction false} FilterDistinct<T>(s: seq<T>, p: T -> bool)
    requires forall i, j :: 0 <= i < j < |s| ==> s[i] != s[j]
    ensures forall i, j :: 0 <= i < j < |Filter(s, p)| ==> Filter(s, p)[i] != Filter(s, p)[j]
  {
    if s != [] {
      FilterDistinct(s[1..], p);
      assert s[0] !in s[1..];
      assert s[0] !in Filter(s[1..], p);
    }
  }
}
