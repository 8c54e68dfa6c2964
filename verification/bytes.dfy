/**
 Byte-level helpers shared by the signature cache: Go's fixed-width integer
 types, big-endian packing as done by `encoding/binary.BigEndian`, and the
 byte-lexicographic comparison of `bytes.Compare`.
 */
module Bytes {

  type byte = x: int | 0 <= x < 256

  const TwoTo64: nat := 0x1_0000_0000_0000_0000

  type uint64 = x: int | 0 <= x < TwoTo64

  function Pow256(n: nat): (p: nat)
    ensures p >= 1
  {
    if n == 0 then 1 else 256 * Pow256(n - 1)
  }

  lemma Pow256Eight()
    ensures Pow256(8) == TwoTo64
  {}

  /* ---------------------------------------------------------------------- */
  /* Division facts used by the big-endian proofs                            */
  /* ---------------------------------------------------------------------- */

  /** Euclidean division is determined by quotient and remainder. */
  lemma DivModUnique(x: int, d: int, q: int, r: int)
    requires d > 0 && 0 <= r < d && x == q * d + r
    ensures x / d == q && x % d == r
  {
    var q' := x / d;
    var r' := x % d;
    assert x == q' * d + r';
    if q' < q {
      MulLeftMono(q' + 1, q, d);
      assert false;
    } else if q' > q {
      MulLeftMono(q + 1, q', d);
      assert false;
    }
  }

  lemma MulLeftMono(a: int, b: int, c: int)
    requires 0 <= a <= b && c >= 0
    ensures a * c <= b * c
  {}

  /** Dividing twice is dividing by the product. */
  lemma DivDiv(x: nat, a: nat, b: nat)
    requires a > 0 && b > 0
    ensures x / a / b == x / (a * b)
  {
    var q, r := x / a, x % a;
    var q2, r2 := q / b, q % b;
    assert x == q * a + r;
    assert q == q2 * b + r2;
    assert x == q2 * (a * b) + (r2 * a + r) by {
      assert q * a == (q2 * b + r2) * a;
      assert (q2 * b + r2) * a == q2 * (a * b) + r2 * a;
    }
    MulLeftMono(r2, b - 1, a);
    assert r2 * a + r < a * b by {
      assert (b - 1) * a == a * b - a;
    }
    DivModUnique(x, a * b, q2, r2 * a + r);
  }

  /* ---------------------------------------------------------------------- */
  /* Big-endian packing                                                      */
  /* ---------------------------------------------------------------------- */

  /** The low 8*n bits of x as n bytes, most significant byte first. */
  function ToBigEndian(x: nat, n: nat): (b: seq<byte>)
    ensures |b| == n
  {
    if n == 0 then [] else ToBigEndian(x / 256, n - 1) + [x % 256]
  }

  /** The number whose big-endian encoding is b. */
  function FromBigEndian(b: seq<byte>): (x: nat)
    ensures x < Pow256(|b|)
  {
    if |b| == 0 then 0
    else
      var high := FromBigEndian(b[..|b| - 1]);
      MulLeftMono(high, Pow256(|b| - 1) - 1, 256);
      high * 256 + b[|b| - 1]
  }

  /** Decoding an encoding returns the value, when the value fits. */
  lemma {:induction false} FromToBigEndian(x: nat, n: nat)
    requires x < Pow256(n)
    ensures FromBigEndian(ToBigEndian(x, n)) == x
  {
    if n > 0 {
      var b := ToBigEndian(x, n);
      assert b[..n - 1] == ToBigEndian(x / 256, n - 1);
      DivModUnique(x, 256, x / 256, x % 256);
      FromToBigEndian(x / 256, n - 1);
    }
  }

  /** Encoding a decoding returns the bytes. */
  lemma {:induction false} ToFromBigEndian(b: seq<byte>)
    ensures ToBigEndian(FromBigEndian(b), |b|) == b
  {
    if |b| > 0 {
      var n := |b|;
      var high := FromBigEndian(b[..n - 1]);
      DivModUnique(FromBigEndian(b), 256, high, b[n - 1]);
      ToFromBigEndian(b[..n - 1]);
      assert b == b[..n - 1] + [b[n - 1]];
    }
  }

  /** Byte j of the n-byte encoding holds bits 8*(n-1-j) .. 8*(n-1-j)+7 of x. */
  lemma {:induction false} ToBigEndianByte(x: nat, n: nat, j: nat)
    requires j < n
    ensures ToBigEndian(x, n)[j] == (x / Pow256(n - 1 - j)) % 256
  {
    if j < n - 1 {
      ToBigEndianByte(x / 256, n - 1, j);
      DivDiv(x, 256, Pow256(n - 2 - j));
    }
  }

  /** binary.BigEndian.PutUint64 */
  function PutUint64(v: uint64): (b: seq<byte>)
    ensures |b| == 8
  {
    ToBigEndian(v, 8)
  }

  /** binary.BigEndian.Uint64 */
  function Uint64(b: seq<byte>): (v: uint64)
    requires |b| == 8
    ensures PutUint64(v) == b
  {
    Pow256Eight();
    ToFromBigEndian(b);
    FromBigEndian(b)
  }

  /** PutUint64 is injective: Uint64 undoes it. */
  lemma Uint64PutUint64(v: uint64)
    ensures Uint64(PutUint64(v)) == v
  {
    Pow256Eight();
    FromToBigEndian(v, 8);
  }

  /** PutUint64 writes `byte(v >> (56 - 8*j))` at position j. */
  lemma PutUint64Byte(v: uint64, j: nat)
    requires j < 8
    ensures PutUint64(v)[j] == (v / Pow256(7 - j)) % 256
  {
    ToBigEndianByte(v, 8, j);
  }

  /* ---------------------------------------------------------------------- */
  /* bytes.Compare                                                           */
  /* ---------------------------------------------------------------------- */

  /** Byte-lexicographic three-way comparison; a proper prefix is smaller. */
  function Compare(a: seq<byte>, b: seq<byte>): (c: int)
    ensures c == -1 || c == 0 || c == 1
    ensures c == 0 <==> a == b
  {
    if |a| == 0 && |b| == 0 then 0
    else if |a| == 0 then -1
    else if |b| == 0 then 1
    else if a[0] < b[0] then -1
    else if a[0] > b[0] then 1
    else
      var c := Compare(a[1..], b[1..]);
      assert a == [a[0]] + a[1..] && b == [b[0]] + b[1..];
      c
  }

  predicate Greater(a: seq<byte>, b: seq<byte>)
  {
    Compare(a, b) > 0
  }

  /** a and b share their first i bytes and a wins at position i. */
  ghost predicate GreaterAt(a: seq<byte>, b: seq<byte>, i: nat)
  {
    && i <= |a| && i <= |b|
    && a[..i] == b[..i]
    && ((i == |b| && i < |a|) || (i < |a| && i < |b| && a[i] > b[i]))
  }

  /** Compare(a, b) > 0 exactly when a wins at the first differing position. */
  lemma {:induction false} GreaterMeaning(a: seq<byte>, b: seq<byte>)
    ensures Greater(a, b) <==> exists i: nat :: GreaterAt(a, b, i)
  {
    if |a| == 0 {
      if i: nat :| GreaterAt(a, b, i) {
        assert false;
      }
    } else if |b| == 0 {
      assert GreaterAt(a, b, 0);
    } else if a[0] < b[0] {
      if i: nat :| GreaterAt(a, b, i) {
        assert false;
      }
    } else if a[0] > b[0] {
      assert GreaterAt(a, b, 0);
    } else {
      GreaterMeaning(a[1..], b[1..]);
      if Greater(a, b) {
        var i: nat :| GreaterAt(a[1..], b[1..], i);
        assert a[..i + 1] == [a[0]] + a[1..][..i];
        assert b[..i + 1] == [b[0]] + b[1..][..i];
        assert GreaterAt(a, b, i + 1);
      } else {
        if i: nat :| GreaterAt(a, b, i) {
          assert i > 0;
          assert a[1..][..i - 1] == a[..i][1..];
          assert b[1..][..i - 1] == b[..i][1..];
          assert GreaterAt(a[1..], b[1..], i - 1);
          assert false;
        }
      }
    }
  }

  /** Swapping the arguments negates the result. */
  lemma {:induction false} CompareAntisymmetric(a: seq<byte>, b: seq<byte>)
    ensures Compare(a, b) == -Compare(b, a)
  {
    if |a| > 0 && |b| > 0 && a[0] == b[0] {
      CompareAntisymmetric(a[1..], b[1..]);
    }
  }

  ghost predicate AllZero(z: seq<byte>)
  {
    forall i :: 0 <= i < |z| ==> z[i] == 0
  }

  /** n zero bytes. */
  function Zeros(n: nat): (z: seq<byte>)
    ensures |z| == n && AllZero(z)
  {
    if n == 0 then [] else [0] + Zeros(n - 1)
  }

  /** An all-zero string is never strictly greater than one at least as long. */
  lemma {:induction false} ZerosNotGreater(z: seq<byte>, b: seq<byte>)
    requires AllZero(z) && |z| <= |b|
    ensures !Greater(z, b)
  {
    if |z| > 0 && z[0] == b[0] {
      assert AllZero(z[1..]) by {
        forall i | 0 <= i < |z| - 1
          ensures z[1..][i] == 0
        {
          assert z[1..][i] == z[i + 1];
        }
      }
      ZerosNotGreater(z[1..], b[1..]);
    }
  }
}
