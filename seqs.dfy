/** Sequence helpers shared by the model: first-seen de-duplication (what
    `Array.from(new Set(xs))` yields), flattening of a partition, sums. */
module Seqs {

  ghost predicate NoDup<T>(s: seq<T>) {
    forall i, j :: 0 <= i < j < |s| ==> s[i] != s[j]
  }

  /** Every element of s once, in the order in which it first occurs: a Set
      built by adding the elements of s in turn, read back as an array. */
  function Distinct<T(==,!new)>(s: seq<T>): (r: seq<T>)
    ensures NoDup(r)
    ensures forall x :: x in r <==> x in s
    ensures |r| <= |s|
  {
    if s == [] then []
    else
      var d := Distinct(s[..|s| - 1]);
      assert s == s[..|s| - 1] + [s[|s| - 1]];
      if s[|s| - 1] in d then d else d + [s[|s| - 1]]
  }

  lemma {:induction false} NoDupCount<T>(s: seq<T>, x: T)
    requires NoDup(s)
    ensures multiset(s)[x] <= 1
  {
    if s != [] {
      assert s == [s[0]] + s[1..];
      NoDupCount(s[1..], x);
      if s[0] == x {
        assert x !in s[1..];
      }
    }
  }

  lemma RepeatCount<T>(s: seq<T>, i: nat, j: nat)
    requires i < j < |s| && s[i] == s[j]
    ensures multiset(s)[s[i]] >= 2
  {
    assert s == s[..i] + [s[i]] + s[i + 1..j] + [s[j]] + s[j + 1..];
  }

  /** Reordering a duplicate-free sequence keeps it duplicate-free. */
  lemma NoDupPermutation<T>(a: seq<T>, b: seq<T>)
    requires NoDup(a) && multiset(a) == multiset(b)
    ensures NoDup(b)
  {
    forall i, j | 0 <= i < j < |b| ensures b[i] != b[j] {
      NoDupCount(a, b[i]);
      if b[i] == b[j] {
        RepeatCount(b, i, j);
      }
    }
  }

  /** a keeps the order of the elements of b it contains. */
  ghost predicate Subsequence<T>(a: seq<T>, b: seq<T>)
    decreases |b|
  {
    a == [] || (b != [] && if a[0] == b[0] then Subsequence(a[1..], b[1..]) else Subsequence(a, b[1..]))
  }

  /** The position at which x first occurs in s. */
  function FirstIndex<T(==)>(s: seq<T>, x: T): (i: nat)
    requires x in s
    ensures i < |s| && s[i] == x
    ensures forall j :: 0 <= j < i ==> s[j] != x
  {
    if s[0] == x then 0 else 1 + FirstIndex(s[1..], x)
  }

  lemma FirstIndexExtend<T>(s: seq<T>, y: T, x: T)
    requires x in s
    ensures FirstIndex(s + [y], x) == FirstIndex(s, x)
  {
    var i, k := FirstIndex(s, x), FirstIndex(s + [y], x);
    assert (s + [y])[i] == x;
  }

  /** Distinct keeps first-seen order: an element listed earlier first occurs earlier. */
  lemma {:induction false} DistinctFirstSeen<T(!new)>(s: seq<T>)
    ensures forall i, j :: 0 <= i < j < |Distinct(s)| ==>
      FirstIndex(s, Distinct(s)[i]) < FirstIndex(s, Distinct(s)[j])
  {
    if s != [] {
      var p, y := s[..|s| - 1], s[|s| - 1];
      assert s == p + [y];
      DistinctFirstSeen(p);
      var d := Distinct(p);
      forall x | x in p ensures FirstIndex(s, x) == FirstIndex(p, x) {
        FirstIndexExtend(p, y, x);
      }
      if y !in d {
        assert y !in p;
        assert FirstIndex(s, y) == |p|;
      }
    }
  }

  /** The concatenation of the parts, in order. */
  function Flatten<T>(parts: seq<seq<T>>): (r: seq<T>)
  {
    if parts == [] then [] else Flatten(parts[..|parts| - 1]) + parts[|parts| - 1]
  }

  lemma FlattenAppend<T>(parts: seq<seq<T>>, p: seq<T>)
    ensures Flatten(parts + [p]) == Flatten(parts) + p
  {
    assert (parts + [p])[..|parts|] == parts;
  }

  /** Appending x to one part adds exactly one x to the flattened whole. */
  lemma {:induction false} FlattenPush<T>(parts: seq<seq<T>>, j: nat, x: T)
    requires j < |parts|
    ensures multiset(Flatten(parts[j := parts[j] + [x]])) == multiset(Flatten(parts)) + multiset{x}
  {
    var n := |parts| - 1;
    var q := parts[j := parts[j] + [x]];
    if j == n {
      assert q[..n] == parts[..n];
    } else {
      assert q[..n] == parts[..n][j := parts[j] + [x]];
      FlattenPush(parts[..n], j, x);
    }
  }

  function SumNats(xs: seq<nat>): nat
  {
    if xs == [] then 0 else SumNats(xs[..|xs| - 1]) + xs[|xs| - 1]
  }

  function Sizes<T>(parts: seq<seq<T>>): (r: seq<nat>)
    ensures |r| == |parts|
    ensures forall i :: 0 <= i < |parts| ==> r[i] == |parts[i]|
  {
    seq(|parts|, i requires 0 <= i < |parts| => |parts[i]|)
  }

  /** The sizes of the parts add up to the size of the whole. */
  lemma {:induction false} SumSizes<T>(parts: seq<seq<T>>)
    ensures SumNats(Sizes(parts)) == |Flatten(parts)|
  {
    if parts != [] {
      var n := |parts| - 1;
      assert Sizes(parts)[..n] == Sizes(parts[..n]);
      SumSizes(parts[..n]);
    }
  }
}
