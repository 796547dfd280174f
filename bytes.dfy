/** Byte strings, Go's `min`, the lexicographic order used to sort chunks
    (`SortableBytesList.Less`) and `isDataEqual`. */
module Bytes {

  /** Go's `byte`: an unsigned 8-bit value, compared as an unsigned number. */
  newtype byte = b: int | 0 <= b < 256

  /** Go's `min(a, b int) int`. */
  function Min(a: int, b: int): (m: int)
    ensures m <= a && m <= b
    ensures m == a || m == b
  {
    if a < b then a else b
  }

  /** Strict lexicographic order on byte strings: the first differing byte
      decides, and when one string is a prefix of the other the shorter one
      is less. */
  function Less(a: seq<byte>, b: seq<byte>): (lt: bool)
    decreases |a|
  {
    if |a| == 0 || |b| == 0 then |a| < |b|
    else if a[0] != b[0] then a[0] < b[0]
    else Less(a[1..], b[1..])
  }

  /** The first byte that differs, at a position below both lengths, decides. */
  lemma {:induction false} LessDecidedAt(a: seq<byte>, b: seq<byte>, k: nat)
    requires k < |a| && k < |b|
    requires a[..k] == b[..k] && a[k] != b[k]
    ensures Less(a, b) <==> a[k] < b[k]
  {
    if k > 0 {
      assert a[0] == a[..k][0] == b[..k][0] == b[0];
      assert a[1..][..k - 1] == a[1..k] == a[..k][1..];
      assert b[1..][..k - 1] == b[1..k] == b[..k][1..];
      LessDecidedAt(a[1..], b[1..], k - 1);
    }
  }

  /** When no byte differs below both lengths, the shorter string is less. */
  lemma {:induction false} LessOfCommonPrefix(a: seq<byte>, b: seq<byte>)
    requires forall k :: 0 <= k < Min(|a|, |b|) ==> a[k] == b[k]
    ensures Less(a, b) <==> |a| < |b|
  {
    if |a| > 0 && |b| > 0 {
      assert a[0] == b[0];
      LessOfCommonPrefix(a[1..], b[1..]);
    }
  }

  lemma {:induction false} LessIrreflexive(a: seq<byte>)
    ensures !Less(a, a)
  {
    if |a| > 0 {
      LessIrreflexive(a[1..]);
    }
  }

  lemma {:induction false} LessAsymmetric(a: seq<byte>, b: seq<byte>)
    ensures Less(a, b) ==> !Less(b, a)
  {
    if |a| > 0 && |b| > 0 && a[0] == b[0] {
      LessAsymmetric(a[1..], b[1..]);
    }
  }

  lemma {:induction false} LessTransitive(a: seq<byte>, b: seq<byte>, c: seq<byte>)
    ensures Less(a, b) && Less(b, c) ==> Less(a, c)
  {
    if |a| > 0 && |b| > 0 && |c| > 0 && a[0] == b[0] == c[0] {
      LessTransitive(a[1..], b[1..], c[1..]);
    }
  }

  /** Any two different byte strings are ordered one way or the other. */
  lemma {:induction false} LessTotal(a: seq<byte>, b: seq<byte>)
    ensures a != b ==> Less(a, b) || Less(b, a)
  {
    if |a| > 0 && |b| > 0 && a[0] == b[0] {
      LessTotal(a[1..], b[1..]);
      if a[1..] == b[1..] {
        assert a == [a[0]] + a[1..] && b == [b[0]] + b[1..];
      }
    }
  }

  /** "Not greater" is transitive. */
  lemma {:induction false} LeqTransitive(a: seq<byte>, b: seq<byte>, c: seq<byte>)
    requires !Less(b, a) && !Less(c, b)
    ensures !Less(c, a)
  {
    if a != b && b != c {
      LessTotal(a, b);
      LessTotal(b, c);
      LessTransitive(a, b, c);
      LessAsymmetric(a, c);
    }
  }

  /** Strings of one length keep their order whatever follows them. */
  lemma {:induction false} LessExtend(x: seq<byte>, y: seq<byte>, u: seq<byte>, v: seq<byte>)
    requires |x| == |y| && Less(x, y)
    ensures Less(x + u, y + v)
  {
    assert (x + u)[0] == x[0] && (y + v)[0] == y[0];
    if x[0] == y[0] {
      assert (x + u)[1..] == x[1..] + u;
      assert (y + v)[1..] == y[1..] + v;
      LessExtend(x[1..], y[1..], u, v);
    }
  }

  /** Behind a common prefix, the order is decided by what follows it. */
  lemma {:induction false} LessBehindCommonPrefix(w: seq<byte>, u: seq<byte>, v: seq<byte>)
    ensures Less(w + u, w + v) <==> Less(u, v)
  {
    if |w| > 0 {
      assert (w + u)[0] == w[0] == (w + v)[0];
      assert (w + u)[1..] == w[1..] + u;
      assert (w + v)[1..] == w[1..] + v;
      LessBehindCommonPrefix(w[1..], u, v);
    } else {
      assert w + u == u && w + v == v;
    }
  }

  /** If `a` is not greater than `b` and their first `n` bytes differ, then
      those first `n` bytes are already in strict order. */
  lemma {:induction false} PrefixOrder(a: seq<byte>, b: seq<byte>, n: nat)
    requires n <= |a| && n <= |b|
    requires !Less(b, a) && a[..n] != b[..n]
    ensures Less(a[..n], b[..n])
  {
    assert a[..n][0] == a[0] && b[..n][0] == b[0];
    if a[0] == b[0] {
      assert a[1..][..n - 1] == a[1..n] == a[..n][1..];
      assert b[1..][..n - 1] == b[1..n] == b[..n][1..];
      PrefixOrder(a[1..], b[1..], n - 1);
    }
  }

  /** Go's `isDataEqual`: the same length and the same byte at every position. */
  method IsDataEqual(a: seq<byte>, b: seq<byte>) returns (equal: bool)
    ensures equal <==> a == b
  {
    if |a| != |b| {
      return false;
    }
    for i := 0 to |a|
      invariant a[..i] == b[..i]
    {
      if a[i] != b[i] {
        return false;
      }
    }
    assert a == a[..|a|] && b == b[..|b|];
    return true;
  }
}
