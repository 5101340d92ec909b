/** Generic sequence helpers: the `Array.prototype.filter` used throughout the model. */
module Seqs {

  /** `s.filter(keep)`: the elements of `s` satisfying `keep`, in their original order. */
  function Filter<T>(s: seq<T>, keep: T -> bool): (r: seq<T>)
    ensures |r| <= |s|
    ensures forall i :: 0 <= i < |r| ==> keep(r[i])
    ensures forall i :: 0 <= i < |s| && keep(s[i]) ==> s[i] in r
    ensures (forall i :: 0 <= i < |s| ==> keep(s[i])) ==> r == s
  {
    if |s| == 0 then []
    else
      var rest := Filter(s[1..], keep);
      assert s == [s[0]] + s[1..];
      if keep(s[0]) then [s[0]] + rest else rest
  }

  /** Filtering only drops elements: each kept element is one of the input's, as often. */
  lemma {:induction false} FilterMultiset<T>(s: seq<T>, keep: T -> bool)
    ensures multiset(Filter(s, keep)) <= multiset(s)
    decreases |s|
  {
    if |s| > 0 {
      FilterMultiset(s[1..], keep);
      assert s == [s[0]] + s[1..];
    }
  }

  /** Filtering keeps every occurrence of a kept value and none of a dropped one. */
  lemma {:induction false} FilterCount<T>(s: seq<T>, keep: T -> bool, x: T)
    ensures multiset(Filter(s, keep))[x] == if keep(x) then multiset(s)[x] else 0
    decreases |s|
  {
    if |s| > 0 {
      FilterCount(s[1..], keep, x);
      assert s == [s[0]] + s[1..];
    }
  }

  /** Filtering a concatenation filters each part: the kept elements stay in their order. */
  lemma {:induction false} FilterAppend<T>(a: seq<T>, b: seq<T>, keep: T -> bool)
    ensures Filter(a + b, keep) == Filter(a, keep) + Filter(b, keep)
  {
    if |a| == 0 {
      assert a + b == b;
    } else {
      assert (a + b)[1..] == a[1..] + b;
      FilterAppend(a[1..], b, keep);
    }
  }

  /** The two halves of a concatenation are found again by slicing at the seam. */
  lemma SplitConcat<T>(a: seq<T>, b: seq<T>)
    ensures (a + b)[..|a|] == a && (a + b)[|a|..] == b
  {
  }

  /** A sequence is a prefix of itself extended, and a suffix of anything extended by it. */
  lemma ConcatEnds<T>(a: seq<T>, b: seq<T>)
    ensures a <= a + b
    ensures |a + b| - |b| == |a| && (a + b)[|a|..] == b
  {
    SplitConcat(a, b);
  }

  /** Concatenation is associative. */
  lemma ConcatAssoc<T>(a: seq<T>, b: seq<T>, c: seq<T>)
    ensures a + (b + c) == (a + b) + c
  {
  }

  /** Dropping one element and then `i` more drops `i + 1`. */
  lemma DropDrop<T>(s: seq<T>, i: nat)
    requires i < |s|
    ensures s[1..][i..] == s[i + 1..]
  {
  }

  /** A non-empty prefix is its first element followed by the prefix of the tail. */
  lemma TakeCons<T>(s: seq<T>, n: nat)
    requires 0 < n <= |s|
    ensures s[..n] == [s[0]] + s[1..][..n - 1]
  {
  }

  /** Inserting `m` between `a` and `b` puts it at index `|a|` of `a + b`. */
  lemma InsertAt<T>(a: seq<T>, m: seq<T>, b: seq<T>)
    ensures |a| <= |a + b|
    ensures a + m + b == (a + b)[..|a|] + m + (a + b)[|a|..]
  {
    SplitConcat(a, b);
  }

  /** Moving the outer pieces of a five-part join onto its middle's neighbours. */
  lemma Regroup<T>(a: seq<T>, b: seq<T>, c: seq<T>, d: seq<T>, e: seq<T>)
    ensures a + (b + c + d) + e == (a + b) + c + (d + e)
  {
  }

  /** A sequence is its three slices at two indices, joined. */
  lemma ThreeSlices<T>(s: seq<T>, i: nat, j: nat)
    requires i <= j <= |s|
    ensures s == s[..i] + s[i..j] + s[j..]
  {
    assert s == s[..i] + s[i..];
    assert s[i..] == s[i..j] + s[j..];
  }

  /** A suffix splits at any later index. */
  lemma SliceSplit<T>(s: seq<T>, i: nat, j: nat)
    requires i <= j <= |s|
    ensures s[i..] == s[i..j] + s[j..]
  {
  }

  /** Being a prefix is transitive. */
  lemma PrefixTrans<T>(a: seq<T>, b: seq<T>, c: seq<T>)
    requires a <= b && b <= c
    ensures a <= c
  {
    assert forall i :: 0 <= i < |a| ==> a[i] == b[i] == c[i];
  }
}
