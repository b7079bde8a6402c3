/**
  User ids are 16-byte UUIDs.  The Go side orders them byte by byte, Postgres orders
  them with memcmp; both agree with the order of the big-endian number the bytes spell,
  which is why the other modules may treat an id as that number.
 */
module Uuid {

  type Byte = x: int | 0 <= x < 256

  /** The big-endian value of a byte string. */
  function Rank(s: seq<Byte>): nat {
    if s == [] then 0 else Rank(s[..|s| - 1]) * 256 + s[|s| - 1]
  }

  lemma {:induction false} FirstDifferenceDecides(a: seq<Byte>, b: seq<Byte>, k: nat)
    requires k < |a| == |b| && a[..k] == b[..k] && a[k] < b[k]
    ensures Rank(a) < Rank(b)
    decreases |a|
  {
    var n := |a| - 1;
    if k == n {
      assert a[..n] == b[..n];
    } else {
      var a', b' := a[..n], b[..n];
      assert a'[..k] == a[..k] && b'[..k] == b[..k];
      FirstDifferenceDecides(a', b', k);
    }
  }

  /** orderPair: the first differing byte decides. */
  method OrderPair(a: seq<Byte>, b: seq<Byte>) returns (first: seq<Byte>, second: seq<Byte>)
    requires |a| == |b|
    ensures (first == a && second == b) || (first == b && second == a)
    ensures first == second || Rank(first) < Rank(second)
  {
    for i := 0 to |a|
      invariant a[..i] == b[..i]
    {
      if a[i] != b[i] {
        if a[i] < b[i] {
          FirstDifferenceDecides(a, b, i);
          return a, b;
        }
        FirstDifferenceDecides(b, a, i);
        return b, a;
      }
    }
    return a, b;
  }

  /** The number determines the id: ordering by Rank is the byte order, with nothing identified. */
  lemma {:induction false} RankIsInjective(a: seq<Byte>, b: seq<Byte>)
    requires |a| == |b|
    ensures Rank(a) == Rank(b) <==> a == b
    decreases |a|
  {
    if a != [] {
      var n := |a| - 1;
      RankIsInjective(a[..n], b[..n]);
      assert a == a[..n] + [a[n]] && b == b[..n] + [b[n]];
    }
  }
}
