/** Fixed-width unsigned integers, big-endian byte codecs and the small
    arithmetic facts about powers of two that the wire and dump codecs use.
    Every multi-byte field on the BGP wire and in the dump files is written
    most significant byte first. */
module Bytes {

  type uint8 = x: int | 0 <= x < 0x100
  type uint16 = x: int | 0 <= x < 0x1_0000
  type uint32 = x: int | 0 <= x < 0x1_0000_0000
  type uint64 = x: int | 0 <= x < 0x1_0000_0000_0000_0000
  type bytes = seq<uint8>

  datatype Option<+T> = None | Some(value: T)

  function Pow2(n: nat): (r: nat)
    ensures r >= 1
  {
    if n == 0 then 1 else 2 * Pow2(n - 1)
  }

  function Pow256(n: nat): (r: nat)
    ensures r >= 1
  {
    if n == 0 then 1 else 256 * Pow256(n - 1)
  }

  /** n zero bytes */
  function Zeros(n: nat): (r: bytes)
    ensures |r| == n
    ensures forall i :: 0 <= i < n ==> r[i] == 0
  {
    seq(n, _ => 0)
  }

  /** Unsigned 32-bit increment with wrap-around, as `x++` on a uint32_t. */
  function Inc32(x: uint32): (r: uint32)
    ensures x < 0xffff_ffff ==> r == x + 1
    ensures x == 0xffff_ffff ==> r == 0
  {
    (x + 1) % 0x1_0000_0000
  }

  /** Value of a big-endian byte string. */
  function FromBe(b: bytes): (v: nat)
    ensures v < Pow256(|b|)
  {
    if |b| == 0 then 0
    else
      var hi := FromBe(b[..|b| - 1]);
      assert hi <= Pow256(|b| - 1) - 1;
      assert hi * 256 <= Pow256(|b| - 1) * 256 - 256;
      hi * 256 + b[|b| - 1]
  }

  /** The n-byte big-endian representation of x. */
  function ToBe(x: nat, n: nat): (r: bytes)
    requires x < Pow256(n)
    ensures |r| == n
  {
    if n == 0 then []
    else
      DivBound(x, 256, Pow256(n - 1));
      ToBe(x / 256, n - 1) + [x % 256]
  }

  lemma DivBound(x: nat, d: nat, m: nat)
    requires d > 0 && x < d * m
    ensures x / d < m
  {
    var q := x / d;
    assert x == q * d + x % d;
    if m <= q {
      MulLe(m, q, d);
    }
  }

  /** Decoding after encoding gives the value back. */
  lemma {:induction false} FromToBe(x: nat, n: nat)
    requires x < Pow256(n)
    ensures FromBe(ToBe(x, n)) == x
  {
    if n > 0 {
      DivBound(x, 256, Pow256(n - 1));
      var r := ToBe(x, n);
      assert r[..n - 1] == ToBe(x / 256, n - 1);
      FromToBe(x / 256, n - 1);
    }
  }

  /** Encoding after decoding gives the bytes back. */
  lemma {:induction false} ToFromBe(b: bytes)
    ensures ToBe(FromBe(b), |b|) == b
  {
    if |b| > 0 {
      var n := |b|;
      var hi := FromBe(b[..n - 1]);
      var v := FromBe(b);
      assert v == hi * 256 + b[n - 1];
      assert v / 256 == hi && v % 256 == b[n - 1];
      ToFromBe(b[..n - 1]);
      assert b == b[..n - 1] + [b[n - 1]];
    }
  }

  /** Two byte strings of one length with one value are equal. */
  lemma FromBeInjective(a: bytes, b: bytes)
    requires |a| == |b| && FromBe(a) == FromBe(b)
    ensures a == b
  {
    ToFromBe(a);
    ToFromBe(b);
  }

  lemma ShiftDistrib(fa: int, p: int, fb: int, last: int)
    ensures (fa * p + fb) * 256 + last == fa * (p * 256) + (fb * 256 + last)
  {
  }

  /** The value of a concatenation. */
  lemma {:induction false} FromBeAppend(a: bytes, b: bytes)
    ensures FromBe(a + b) == FromBe(a) * Pow256(|b|) + FromBe(b)
    decreases |b|
  {
    if |b| == 0 {
      assert a + b == a;
    } else {
      var ab := a + b;
      var b' := b[..|b| - 1];
      assert ab[..|ab| - 1] == a + b';
      FromBeAppend(a, b');
      ShiftDistrib(FromBe(a), Pow256(|b'|), FromBe(b'), b[|b| - 1]);
    }
  }

  lemma FromBeZeros(n: nat)
    ensures FromBe(Zeros(n)) == 0
  {
    if n > 0 {
      assert Zeros(n)[..n - 1] == Zeros(n - 1);
      FromBeZeros(n - 1);
    }
  }

  /** A slice of a slice is a slice. */
  lemma SliceOfSlice(b: bytes, i: nat, j: nat, k: nat, l: nat)
    requires i <= j <= |b| && k <= l <= j - i
    ensures b[i..j][k..l] == b[i + k..i + l]
  {
    assert forall m :: 0 <= m < l - k ==> b[i..j][k..l][m] == b[i + k + m];
  }

  /** Pieces of a suffix of `b` are pieces of `b`, shifted by where the
      suffix starts. */
  lemma InSuffix(b: bytes, at: nat, e: bytes, i: nat, j: nat)
    requires at <= |b| && b[at..] == e && i <= j <= |e|
    ensures b[at + i..at + j] == e[i..j] && b[at + j..] == e[j..]
  {
    var w := b[at + i..at + j];
    var v := b[at + j..];
    forall m | 0 <= m < |w| ensures w[m] == e[i..j][m] { assert w[m] == b[at..][i + m]; }
    forall m | 0 <= m < |v| ensures v[m] == e[j..][m] { assert v[m] == b[at..][j + m]; }
  }

  /** A piece of a piece of `b` is a piece of `b`. */
  lemma Within(b: bytes, j: nat, e: bytes, k: nat, x: bytes)
    requires j + |e| <= |b| && b[j..j + |e|] == e && k + |x| <= |e| && e[k..k + |x|] == x
    ensures b[j + k..j + k + |x|] == x
  {
    var s := b[j + k..j + k + |x|];
    forall m | 0 <= m < |x|
      ensures s[m] == x[m]
    {
      assert x[m] == e[k..k + |x|][m] == e[k + m] == b[j..j + |e|][k + m];
    }
  }

  /** Where each of five concatenated pieces sits in the whole. */
  lemma Pieces(s0: bytes, s1: bytes, s2: bytes, s3: bytes, s4: bytes)
    ensures var e := s0 + s1 + s2 + s3 + s4;
      var k1 := |s0|; var k2 := k1 + |s1|; var k3 := k2 + |s2|; var k4 := k3 + |s3|;
      && e[..k1] == s0 && e[k1..k2] == s1 && e[k2..k3] == s2 && e[k3..k4] == s3 && e[k4..] == s4
  {
    var e := s0 + s1 + s2 + s3 + s4;
    var k1 := |s0|; var k2 := k1 + |s1|; var k3 := k2 + |s2|; var k4 := k3 + |s3|;
    assert e[..k1] == s0 by { assert forall m :: 0 <= m < k1 ==> e[m] == s0[m]; }
    assert e[k1..k2] == s1 by { assert forall m :: 0 <= m < |s1| ==> e[k1 + m] == s1[m]; }
    assert e[k2..k3] == s2 by { assert forall m :: 0 <= m < |s2| ==> e[k2 + m] == s2[m]; }
    assert e[k3..k4] == s3 by { assert forall m :: 0 <= m < |s3| ==> e[k3 + m] == s3[m]; }
    assert e[k4..] == s4 by { assert forall m :: 0 <= m < |s4| ==> e[k4 + m] == s4[m]; }
  }

  /** The four parts of a concatenation, of lengths `n0` to `n3`, found
      where it sits. */
  lemma Split4(b: bytes, j: nat, s0: bytes, s1: bytes, s2: bytes, s3: bytes, n0: nat, n1: nat, n2: nat, n3: nat)
    requires |s0| == n0 && |s1| == n1 && |s2| == n2 && |s3| == n3
    requires j + |s0 + s1 + s2 + s3| <= |b| && b[j..j + |s0 + s1 + s2 + s3|] == s0 + s1 + s2 + s3
    ensures var k1 := j + n0; var k2 := k1 + n1; var k3 := k2 + n2;
      && k3 + n3 <= |b| && b[j..k1] == s0 && b[k1..k2] == s1 && b[k2..k3] == s2 && b[k3..k3 + n3] == s3
  {
    var e := s0 + s1 + s2 + s3;
    var k1 := j + |s0|; var k2 := k1 + |s1|; var k3 := k2 + |s2|;
    var w := b[j..j + |e|];
    forall m | 0 <= m < |s0| ensures b[j..k1][m] == s0[m] { assert b[j..k1][m] == w[m] == e[m]; }
    forall m | 0 <= m < |s1| ensures b[k1..k2][m] == s1[m] { assert b[k1..k2][m] == w[|s0| + m] == e[|s0| + m]; }
    forall m | 0 <= m < |s2| ensures b[k2..k3][m] == s2[m] { assert b[k2..k3][m] == w[|s0| + |s1| + m] == e[|s0| + |s1| + m]; }
    forall m | 0 <= m < |s3| ensures b[k3..k3 + |s3|][m] == s3[m] {
      assert b[k3..k3 + |s3|][m] == w[|s0| + |s1| + |s2| + m] == e[|s0| + |s1| + |s2| + m];
    }
  }

  lemma Pow256Values()
    ensures Pow256(1) == 0x100 && Pow256(2) == 0x1_0000
    ensures Pow256(4) == 0x1_0000_0000
    ensures Pow256(8) == 0x1_0000_0000_0000_0000
  {
    assert Pow256(3) == 0x100_0000;
    assert Pow256(5) == 0x100_0000_0000;
    assert Pow256(6) == 0x1_0000_0000_0000;
    assert Pow256(7) == 0x100_0000_0000_0000;
  }

  /** Big-endian fields at an offset. */
  function U16(b: bytes, i: nat): (v: uint16)
    requires i + 2 <= |b|
  {
    (b[i] as int) * 0x100 + b[i + 1]
  }

  function U32(b: bytes, i: nat): (v: uint32)
    requires i + 4 <= |b|
  {
    U16(b, i) * 0x1_0000 + U16(b, i + 2)
  }

  function U64(b: bytes, i: nat): (v: uint64)
    requires i + 8 <= |b|
  {
    U32(b, i) * 0x1_0000_0000 + U32(b, i + 4)
  }

  function Be16(x: uint16): (r: bytes)
    ensures |r| == 2 && U16(r, 0) == x
  {
    [x / 0x100, x % 0x100]
  }

  function Be32(x: uint32): (r: bytes)
    ensures |r| == 4 && U32(r, 0) == x
  {
    var r := Be16(x / 0x1_0000) + Be16(x % 0x1_0000);
    assert r[2..] == Be16(x % 0x1_0000);
    r
  }

  function Be64(x: uint64): (r: bytes)
    ensures |r| == 8 && U64(r, 0) == x
  {
    var r := Be32(x / 0x1_0000_0000) + Be32(x % 0x1_0000_0000);
    assert r[4..] == Be32(x % 0x1_0000_0000);
    assert U32(r, 4) == U32(r[4..], 0);
    r
  }

  /** Equal 16-, 32- and 64-bit fields come from equal octets. */
  lemma U16Injective(a: bytes, i: nat, b: bytes, j: nat)
    requires i + 2 <= |a| && j + 2 <= |b| && U16(a, i) == U16(b, j)
    ensures a[i..i + 2] == b[j..j + 2]
  {
    DivModUnique(U16(a, i), 0x100, a[i], a[i + 1]);
    DivModUnique(U16(a, i), 0x100, b[j], b[j + 1]);
  }

  lemma U32Injective(a: bytes, i: nat, b: bytes, j: nat)
    requires i + 4 <= |a| && j + 4 <= |b| && U32(a, i) == U32(b, j)
    ensures a[i..i + 4] == b[j..j + 4]
  {
    DivModUnique(U32(a, i), 0x1_0000, U16(a, i), U16(a, i + 2));
    DivModUnique(U32(a, i), 0x1_0000, U16(b, j), U16(b, j + 2));
    U16Injective(a, i, b, j);
    U16Injective(a, i + 2, b, j + 2);
    assert a[i..i + 4] == a[i..i + 2] + a[i + 2..i + 4];
    assert b[j..j + 4] == b[j..j + 2] + b[j + 2..j + 4];
  }

  lemma U64Injective(a: bytes, i: nat, b: bytes, j: nat)
    requires i + 8 <= |a| && j + 8 <= |b| && U64(a, i) == U64(b, j)
    ensures a[i..i + 8] == b[j..j + 8]
  {
    DivModUnique(U64(a, i), 0x1_0000_0000, U32(a, i), U32(a, i + 4));
    DivModUnique(U64(a, i), 0x1_0000_0000, U32(b, j), U32(b, j + 4));
    U32Injective(a, i, b, j);
    U32Injective(a, i + 4, b, j + 4);
    assert a[i..i + 8] == a[i..i + 4] + a[i + 4..i + 8];
    assert b[j..j + 8] == b[j..j + 4] + b[j + 4..j + 8];
  }

  /** A field depends only on its own octets. */
  lemma U16Slice(a: bytes, i: nat, b: bytes, j: nat)
    requires i + 2 <= |a| && j + 2 <= |b| && a[i..i + 2] == b[j..j + 2]
    ensures U16(a, i) == U16(b, j)
  {
    assert a[i] == a[i..i + 2][0] && a[i + 1] == a[i..i + 2][1];
  }

  lemma U32Slice(a: bytes, i: nat, b: bytes, j: nat)
    requires i + 4 <= |a| && j + 4 <= |b| && a[i..i + 4] == b[j..j + 4]
    ensures U32(a, i) == U32(b, j)
  {
    assert a[i] == a[i..i + 4][0] && a[i + 1] == a[i..i + 4][1];
    assert a[i + 2] == a[i..i + 4][2] && a[i + 3] == a[i..i + 4][3];
  }

  lemma U64Slice(a: bytes, i: nat, b: bytes, j: nat)
    requires i + 8 <= |a| && j + 8 <= |b| && a[i..i + 8] == b[j..j + 8]
    ensures U64(a, i) == U64(b, j)
  {
    SliceOfSlice(a, i, i + 8, 0, 4);
    SliceOfSlice(b, j, j + 8, 0, 4);
    SliceOfSlice(a, i, i + 8, 4, 8);
    SliceOfSlice(b, j, j + 8, 4, 8);
    U32Slice(a, i, b, j);
    U32Slice(a, i + 4, b, j + 4);
  }

  /** The 32-bit field is the big-endian value of its four octets. */
  lemma U32IsFromBe(b: bytes)
    requires |b| == 4
    ensures FromBe(b) == U32(b, 0)
  {
    assert b[..3][..2] == b[..2] && b[..2][..1] == b[..1] && b[..1][..0] == [];
    assert FromBe(b[..1]) == b[0];
    assert FromBe(b[..2]) == (b[0] as int) * 0x100 + b[1];
    assert FromBe(b[..3]) == ((b[0] as int) * 0x100 + b[1]) * 0x100 + b[2];
  }

  /** Bit `bit` (counting from the least significant, 0-based) of x is set:
      the C test `x & (1 << bit)`. */
  predicate BitSet(x: nat, bit: nat)
  {
    (x / Pow2(bit)) % 2 == 1
  }

  lemma Pow2Add(a: nat, b: nat)
    ensures Pow2(a + b) == Pow2(a) * Pow2(b)
  {
    if a > 0 {
      Pow2Add(a - 1, b);
      assert Pow2(a + b) == 2 * Pow2(a - 1 + b);
    }
  }

  lemma Pow256IsPow2(n: nat)
    ensures Pow256(n) == Pow2(8 * n)
  {
    if n > 0 {
      Pow256IsPow2(n - 1);
      Pow2Add(8, 8 * (n - 1));
      assert Pow2(8) == 256;
    }
  }

  lemma MulLe(a: int, b: int, m: int)
    requires a <= b && m > 0
    ensures a * m <= b * m
  {
    if a < b {
      MulAtLeast(b - a, m);
      assert b * m - a * m == (b - a) * m;
    }
  }

  /** The end of the `k`-th of `n` slots of width `w` lies within them. */
  lemma SlotEnd(w: nat, k: nat, n: nat)
    requires k < n
    ensures w * k + w <= w * n
  {
    MulLe(k + 1, n, w + 1);
    assert w * (k + 1) == w * k + w;
    assert (n - k - 1) * w >= 0;
    assert w * n - (w * k + w) == (n - k - 1) * w;
  }

  lemma MulAtLeast(k: int, m: int)
    requires k >= 1 && m > 0
    ensures k * m >= m
  {
    assert k * m == m + (k - 1) * m;
  }

  /** A value below the modulus is its own remainder. */
  lemma SmallMod(x: nat, m: nat)
    requires x < m
    ensures x % m == x
  {
  }

  /** Division with remainder is unique. */
  lemma DivModUnique(x: int, m: int, q: int, r: int)
    requires m > 0 && 0 <= r < m && x == q * m + r
    ensures x / m == q && x % m == r
  {
    var q' := x / m;
    var r' := x % m;
    assert (q - q') * m == r' - r;
    if q - q' >= 1 {
      MulAtLeast(q - q', m);
    } else if q' - q >= 1 {
      MulAtLeast(q' - q, m);
    }
  }

  /** x with its low k bits cleared: the C expression `x & ~((1 << k) - 1)`. */
  function ClearLow(x: nat, k: nat): nat
  {
    var p := Pow2(k);
    ModAtMost(x, p);
    x - x % p
  }

  /** A remainder never exceeds the number divided. */
  lemma ModAtMost(x: nat, m: nat)
    requires m > 0
    ensures x % m <= x
  {
    if x >= m {
      assert x == (x / m) * m + x % m;
      assert x / m >= 1;
      MulAtLeast(x / m, m);
    }
  }

  /** Clearing the low k bits leaves the low k bits zero and every higher
      bit as it was. */
  lemma ClearLowSpec(x: nat, k: nat)
    ensures ClearLow(x, k) % Pow2(k) == 0
    ensures ClearLow(x, k) / Pow2(k) == x / Pow2(k)
    ensures ClearLow(x, k) <= x
  {
    var p := Pow2(k);
    assert x == (x / p) * p + x % p;
    DivModUnique(ClearLow(x, k), p, x / p, 0);
  }

  /** Reducing modulo a * c and then modulo a is reducing modulo a. */
  lemma ModOfMod(x: nat, a: nat, c: nat)
    requires a > 0 && c > 0
    ensures (x % (a * c)) % a == x % a
    ensures x % a <= x % (a * c)
  {
    var b := a * c;
    var q := x / b;
    var r := x % b;
    var s := r / a;
    var t := r % a;
    assert x == q * b + r;
    assert r == s * a + t;
    assert q * b == (q * c) * a;
    assert x == (q * c + s) * a + t;
    DivModUnique(x, a, q * c + s, t);
    MulLe(0, s, a);
  }

  lemma ClearMulTwice(x: nat, a: nat, c: nat)
    requires a > 0 && c > 0
    ensures (x - x % a) - (x - x % a) % (a * c) == x - x % (a * c)
  {
    var b := a * c;
    ModOfMod(x, a, c);
    var q := x / b;
    var r := x % b;
    assert x == q * b + r;
    var sa := r - x % a;
    assert 0 <= sa <= r < b;
    var y := x - x % a;
    assert y == q * b + sa;
    DivModUnique(y, b, q, sa);
  }

  /** Clearing j low bits and then k >= j low bits is clearing k bits. */
  lemma ClearLowTwice(x: nat, j: nat, k: nat)
    requires j <= k
    ensures ClearLow(ClearLow(x, j), k) == ClearLow(x, k)
  {
    Pow2Add(j, k - j);
    ClearMulTwice(x, Pow2(j), Pow2(k - j));
  }
}
