/**
 * Byte strings and their lexicographic order.
 *
 * Go's `string` and `[]byte` are both byte sequences; Badger keeps its keys
 * sorted by `bytes.Compare`, the unsigned lexicographic order modelled by
 * `LexLe` below.
 */
module Octets {

  newtype byte = b: int | 0 <= b < 256

  type Bytes = seq<byte>

  /** The bytes of an ASCII string literal, such as "msg_". */
  function FromString(s: string): (r: Bytes)
    requires forall i :: 0 <= i < |s| ==> s[i] as int < 256
    ensures |r| == |s|
    ensures forall i :: 0 <= i < |s| ==> r[i] as int == s[i] as int
  {
    seq(|s|, i requires 0 <= i < |s| => s[i] as int as byte)
  }

  /** `strings.HasPrefix` / `bytes.HasPrefix`. */
  predicate StartsWith(s: Bytes, prefix: Bytes) {
    |prefix| <= |s| && s[..|prefix|] == prefix
  }

  /** `bytes.Compare(a, b) <= 0`: a is a prefix of b, or is smaller at the first difference. */
  predicate LexLe(a: Bytes, b: Bytes)
    decreases |a|
  {
    a == [] || (b != [] && (a[0] < b[0] || (a[0] == b[0] && LexLe(a[1..], b[1..]))))
  }

  /** `bytes.Compare(a, b) < 0`. */
  predicate LexLt(a: Bytes, b: Bytes) {
    LexLe(a, b) && a != b
  }

  lemma {:induction false} LexLeReflexive(a: Bytes)
    ensures LexLe(a, a)
    decreases |a|
  {
    if a != [] {
      LexLeReflexive(a[1..]);
    }
  }

  lemma {:induction false} LexLeTotal(a: Bytes, b: Bytes)
    ensures LexLe(a, b) || LexLe(b, a)
    decreases |a|
  {
    if a != [] && b != [] && a[0] == b[0] {
      LexLeTotal(a[1..], b[1..]);
    }
  }

  lemma {:induction false} LexLeAntisymmetric(a: Bytes, b: Bytes)
    requires LexLe(a, b) && LexLe(b, a)
    ensures a == b
    decreases |a|
  {
    if a != [] && b != [] {
      LexLeAntisymmetric(a[1..], b[1..]);
      assert a == [a[0]] + a[1..];
      assert b == [b[0]] + b[1..];
    }
  }

  lemma {:induction false} LexLeTransitive(a: Bytes, b: Bytes, c: Bytes)
    requires LexLe(a, b) && LexLe(b, c)
    ensures LexLe(a, c)
    decreases |a|
  {
    if a != [] && a[0] == b[0] && b[0] == c[0] {
      LexLeTransitive(a[1..], b[1..], c[1..]);
    }
  }

  /** A common prefix does not change the comparison. */
  lemma {:induction false} LexLtCommonPrefix(p: Bytes, x: Bytes, y: Bytes)
    ensures LexLe(p + x, p + y) <==> LexLe(x, y)
    ensures LexLt(p + x, p + y) <==> LexLt(x, y)
    decreases |p|
  {
    if p == [] {
      assert p + x == x && p + y == y;
    } else {
      assert (p + x)[1..] == p[1..] + x;
      assert (p + y)[1..] == p[1..] + y;
      LexLtCommonPrefix(p[1..], x, y);
    }
    assert p + x == p + y ==> x == (p + x)[|p|..] == (p + y)[|p|..] == y;
  }

  /** Between sequences of equal length, a strict difference decides the order of any extensions. */
  lemma {:induction false} LexLtExtend(x: Bytes, y: Bytes, u: Bytes, v: Bytes)
    requires |x| == |y| && LexLt(x, y)
    ensures LexLt(x + u, y + v)
    decreases |x|
  {
    assert x != [] && y != [];
    assert (x + u)[0] == x[0] && (y + v)[0] == y[0];
    if x[0] != y[0] {
      assert (x + u)[0] != (y + v)[0];
    } else {
      assert x[1..] != y[1..] by {
        assert x == [x[0]] + x[1..] && y == [y[0]] + y[1..];
      }
      LexLtExtend(x[1..], y[1..], u, v);
      assert (x + u)[1..] == x[1..] + u;
      assert (y + v)[1..] == y[1..] + v;
    }
  }

  /** Regrouping a concatenation, stated once so that loop proofs need not rediscover it. */
  lemma AppendAssociative<T>(a: seq<T>, b: seq<T>, c: seq<T>)
    ensures (a + b) + c == a + (b + c)
  {
  }
}
