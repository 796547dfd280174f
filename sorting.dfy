/** Sorting of chunk byte strings: the `SortableBytesList` view over a slice
    of byte strings and `sort.Sort` applied to it. */
module Sorting {
  import opened Bytes

  /** No later element is less than an earlier one. */
  predicate Sorted(s: seq<seq<byte>>)
  {
    forall i, j :: 0 <= i < j < |s| ==> !Less(s[j], s[i])
  }

  /** Inserts `x` into a sorted sequence, in front of the first element that
      is not less than it. */
  function Insert(x: seq<byte>, s: seq<seq<byte>>): (r: seq<seq<byte>>)
    requires Sorted(s)
    ensures Sorted(r)
    ensures multiset(r) == multiset(s) + multiset{x}
    decreases |s|
  {
    if s == [] || !Less(s[0], x) then
      assert forall j :: 0 <= j < |s| ==> !Less(s[j], x) by {
        forall j | 0 <= j < |s| ensures !Less(s[j], x) {
          if j > 0 {
            LeqTransitive(x, s[0], s[j]);
          }
        }
      }
      [x] + s
    else
      var t := Insert(x, s[1..]);
      assert s == [s[0]] + s[1..];
      forall j | 0 <= j < |t| ensures !Less(t[j], s[0]) {
        assert t[j] in multiset(t);
        if t[j] == x {
          LessAsymmetric(s[0], x);
        } else {
          assert t[j] in s[1..];
          var k :| 0 <= k < |s[1..]| && s[1..][k] == t[j];
          assert s[k + 1] == t[j];
        }
      }
      [s[0]] + t
  }

  /** The reference sort: insertion sort on values. */
  function SortedChunks(s: seq<seq<byte>>): (r: seq<seq<byte>>)
    ensures Sorted(r)
    ensures multiset(r) == multiset(s)
  {
    if s == [] then [] else
      assert s == s[..|s| - 1] + [s[|s| - 1]];
      Insert(s[|s| - 1], SortedChunks(s[..|s| - 1]))
  }

  /** Every element of a sorted sequence is at least its first element. */
  lemma {:induction false} FirstIsLeast(s: seq<seq<byte>>, x: seq<byte>)
    requires Sorted(s) && x in s
    ensures !Less(x, s[0])
  {
    var j :| 0 <= j < |s| && s[j] == x;
    if j > 0 {
      assert !Less(s[j], s[0]);
    } else {
      LessIrreflexive(x);
    }
  }

  /** `Less` is a strict total order, so two sorted permutations of the same
      byte strings are equal: however `sort.Sort` permutes, its result is
      determined by the multiset of its input. */
  lemma {:induction false} SortedPermutationUnique(a: seq<seq<byte>>, b: seq<seq<byte>>)
    requires Sorted(a) && Sorted(b) && multiset(a) == multiset(b)
    ensures a == b
  {
    if a != [] {
      assert |b| == |multiset(b)| == |multiset(a)| == |a|;
      assert a[0] in multiset(b) && b[0] in multiset(a);
      FirstIsLeast(b, a[0]);
      FirstIsLeast(a, b[0]);
      LessTotal(a[0], b[0]);
      assert a[0] == b[0];
      assert a == [a[0]] + a[1..] && b == [b[0]] + b[1..];
      assert multiset(a[1..]) == multiset(a) - multiset{a[0]};
      assert multiset(b[1..]) == multiset(b) - multiset{b[0]};
      SortedPermutationUnique(a[1..], b[1..]);
    }
  }

  /** Go's `SortableBytesList`: a view over the chunk slice `items`; `Swap`
      and `Sort` change the shared backing array in place. */
  class SortableBytesList {
    const items: array<seq<byte>>

    constructor (a: array<seq<byte>>)
      ensures items == a
    {
      items := a;
    }

    /** The number of chunks in the list. */
    function Len(): (n: int)
      reads this
    {
      items.Length
    }

    /** Exchanges two elements and leaves the others alone. */
    method Swap(i: int, j: int)
      requires 0 <= i < items.Length && 0 <= j < items.Length
      modifies items
      ensures items[..] == old(items[..])[i := old(items[j])][j := old(items[i])]
      ensures multiset(items[..]) == old(multiset(items[..]))
    {
      items[i], items[j] := items[j], items[i];
    }

    /** The byte loop of Go's `Less(i, j)`: decides `items[i] < items[j]`
        lexicographically. */
    method Less(i: int, j: int) returns (r: bool)
      requires 0 <= i < items.Length && 0 <= j < items.Length
      ensures r == Bytes.Less(items[i], items[j])
    {
      var a, b := items[i], items[j];
      for k := 0 to Min(|a|, |b|)
        invariant a[..k] == b[..k]
      {
        if a[k] != b[k] {
          LessDecidedAt(a, b, k);
          return a[k] < b[k];
        }
        assert a[..k + 1] == a[..k] + [a[k]];
        assert b[..k + 1] == b[..k] + [b[k]];
      }
      assert forall k :: 0 <= k < Min(|a|, |b|) ==> a[..Min(|a|, |b|)][k] == a[k] && b[..Min(|a|, |b|)][k] == b[k];
      LessOfCommonPrefix(a, b);
      return |a| < |b|;
    }

    /** `sort.Sort` on this list, as an insertion sort through `Less` and
        `Swap`: it leaves `items` a sorted permutation of what it held, which
        is the reference sort of the old contents. */
    method Sort()
      modifies items
      ensures Sorted(items[..])
      ensures multiset(items[..]) == old(multiset(items[..]))
      ensures items[..] == SortedChunks(old(items[..]))
    {
      var n := Len();
      for i := 0 to n
        invariant multiset(items[..]) == old(multiset(items[..]))
        invariant forall k, l :: 0 <= k < l < i ==> !Bytes.Less(items[l], items[k])
      {
        var j := i;
        while j > 0
          invariant 0 <= j <= i
          invariant multiset(items[..]) == old(multiset(items[..]))
          invariant forall k, l :: 0 <= k < l <= i && k != j && l != j ==> !Bytes.Less(items[l], items[k])
          invariant forall l :: j < l <= i ==> Bytes.Less(items[j], items[l])
        {
          var lt := Less(j, j - 1);
          if !lt {
            break;
          }
          Swap(j, j - 1);
          j := j - 1;
        }
        forall k, l | 0 <= k < l <= i
          ensures !Bytes.Less(items[l], items[k])
        {
          if l == j && k < j - 1 {
            LeqTransitive(items[k], items[j - 1], items[j]);
          } else if k == j {
            LessAsymmetric(items[j], items[l]);
          }
        }
      }
      assert Sorted(items[..]);
      SortedPermutationUnique(items[..], SortedChunks(old(items[..])));
    }
  }
}
