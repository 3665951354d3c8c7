/**
  Bit strings, most significant bit first: their values, the bits of a byte
  string, and the packing of bits back into bytes.
 */
module Bits {
  import opened Words

  type bits = seq<bool>

  /** The number a bit string spells, big-endian. */
  function Value(s: bits): nat {
    if s == [] then 0 else 2 * Value(s[..|s| - 1]) + (if s[|s| - 1] then 1 else 0)
  }

  /** The `n` low bits of `v`. */
  function ToBits(v: nat, n: nat): (r: bits)
    ensures |r| == n && (v < Pow2(n) ==> Value(r) == v)
  {
    if n == 0 then [] else
      var s := ToBits(v / 2, n - 1);
      assert (s + [v % 2 == 1])[..n - 1] == s;
      s + [v % 2 == 1]
  }

  predicate AllOnes(s: bits) {
    forall i :: 0 <= i < |s| ==> s[i]
  }

  function Ones(n: nat): (r: bits)
    ensures |r| == n && AllOnes(r)
  {
    seq(n, _ => true)
  }

  lemma {:induction false} ValueBound(s: bits)
    ensures Value(s) < Pow2(|s|)
  {
    if s != [] {
      ValueBound(s[..|s| - 1]);
    }
  }

  lemma {:induction false} ValueConcat(a: bits, b: bits)
    ensures Value(a + b) == Value(a) * Pow2(|b|) + Value(b)
  {
    if b == [] {
      assert a + b == a;
    } else {
      var c := b[..|b| - 1];
      assert (a + b)[..|a + b| - 1] == a + c;
      ValueConcat(a, c);
      Double(Value(a), Pow2(|c|));
    }
  }

  lemma Double(v: nat, q: nat)
    ensures v * (2 * q) == 2 * (v * q)
  {
  }

  lemma {:induction false} ValueInjective(a: bits, b: bits)
    requires |a| == |b| && Value(a) == Value(b)
    ensures a == b
  {
    if a != [] {
      var n := |a| - 1;
      ValueInjective(a[..n], b[..n]);
      assert a == a[..n] + [a[n]] && b == b[..n] + [b[n]];
    }
  }

  lemma {:induction false} AllOnesValue(s: bits)
    ensures AllOnes(s) <==> Value(s) == Pow2(|s|) - 1
  {
    if s != [] {
      var n := |s| - 1;
      AllOnesValue(s[..n]);
      ValueBound(s[..n]);
      assert AllOnes(s) <==> AllOnes(s[..n]) && s[n] by {
        assert forall i :: 0 <= i < n ==> s[..n][i] == s[i];
      }
    }
  }

  lemma ToBitsOfValue(s: bits)
    ensures Value(s) < Pow2(|s|) && ToBits(Value(s), |s|) == s
  {
    ValueBound(s);
    ValueInjective(ToBits(Value(s), |s|), s);
  }

  lemma SliceOfSlice<T>(s: seq<T>, w: seq<T>, a: nat, i: nat, j: nat)
    requires a + |w| <= |s| && s[a..a + |w|] == w && i <= j <= |w|
    ensures w[i..j] == s[a + i..a + j]
  {
    forall k | 0 <= k < j - i ensures w[i..j][k] == s[a + i..a + j][k] {
      assert w[i + k] == s[a..a + |w|][i + k];
    }
  }

  lemma Regroup<T>(a: seq<T>, x: T, b: seq<T>)
    ensures a + ([x] + b) == a + [x] + b
  {
  }

  // ---- Bytes as bits ----

  function ByteBits(b: byte): (r: bits)
    ensures |r| == 8 && Value(r) == b
  {
    Pow2Small();
    ToBits(b, 8)
  }

  /** The bits of a byte string, in the order they travel. */
  function BitsOf(p: seq<byte>): (r: bits)
    ensures |r| == 8 * |p|
  {
    if p == [] then [] else ByteBits(p[0]) + BitsOf(p[1..])
  }

  lemma {:induction false} BitsOfAt(p: seq<byte>, i: nat)
    requires i < |p|
    ensures BitsOf(p)[8 * i..8 * i + 8] == ByteBits(p[i])
  {
    if i == 0 {
      assert BitsOf(p)[..8] == ByteBits(p[0]);
    } else {
      BitsOfAt(p[1..], i - 1);
      assert BitsOf(p)[8 * i..8 * i + 8] == BitsOf(p[1..])[8 * (i - 1)..8 * (i - 1) + 8];
    }
  }

  lemma {:induction false} BitsOfInjective(p: seq<byte>, q: seq<byte>)
    requires BitsOf(p) == BitsOf(q)
    ensures p == q
  {
    assert |p| == |q|;
    forall i | 0 <= i < |p| ensures p[i] == q[i] {
      BitsOfAt(p, i);
      BitsOfAt(q, i);
      assert Value(ByteBits(p[i])) == Value(ByteBits(q[i]));
    }
  }

  /** Whole bytes spelled by a bit string of whole length: the inverse of `BitsOf`. */
  function Pack(s: bits): (p: seq<byte>)
    requires |s| % 8 == 0
    ensures BitsOf(p) == s
  {
    if s == [] then [] else
      ValueBound(s[..8]);
      Pow2Small();
      var b: byte := Value(s[..8]);
      ValueInjective(ByteBits(b), s[..8]);
      var p := [b] + Pack(s[8..]);
      assert p[1..] == Pack(s[8..]);
      assert s == s[..8] + s[8..];
      p
  }

  lemma ShiftedFieldFactors(w: nat, x: bits, y: bits, z: bits)
    requires w == |x| + |y| + |z|
    ensures Value(x + y + z) == Value(x + y) * Pow2(|z|) + Value(z)
    ensures Value(x + y) == Value(x) * Pow2(|y|) + Value(y)
    ensures Pow2(w) == Pow2(|x|) * Pow2(|y| + |z|)
    ensures Pow2(|y| + |z|) == Pow2(|y|) * Pow2(|z|)
    ensures Pow2(w - |y|) == Pow2(|x|) * Pow2(|z|)
  {
    ValueConcat(x + y, z);
    ValueConcat(x, y);
    Pow2Add(|y|, |z|);
    Pow2Add(|x|, |y| + |z|);
    Pow2Add(|x|, |z|);
    assert |x| + (|y| + |z|) == w && |x| + |z| == w - |y|;
  }

  lemma ShiftedFieldOf(w: nat, x: bits, y: bits, z: bits)
    requires w == |x| + |y| + |z| && |y| > 0 && |x| < w
    requires Value(x + y + z) == Value(x + y) * Pow2(|z|) + Value(z)
    requires Value(x + y) == Value(x) * Pow2(|y|) + Value(y)
    requires Pow2(w) == Pow2(|x|) * Pow2(|y| + |z|)
    requires Pow2(|y| + |z|) == Pow2(|y|) * Pow2(|z|)
    requires Pow2(w - |y|) == Pow2(|x|) * Pow2(|z|)
    ensures Shr(w, Shl(w, Value(x + y + z), |x|), w - |y|) == Value(y)
  {
    ValueBound(y);
    ValueBound(z);
    FieldArithmetic(Pow2(|x|), Pow2(|y|), Pow2(|z|), Pow2(|y| + |z|), Pow2(w), Pow2(w - |y|),
                    Value(x), Value(y), Value(z), Value(x + y), Value(x + y + z));
  }

  /** In a word `v` of `w` bits spelled `x + y + z`, shifting out `x` on the left
      and then `x` and `z` on the right leaves `y`. */
  lemma ShiftedField(w: nat, x: bits, y: bits, z: bits, v: nat, left: nat, right: nat)
    requires w == |x| + |y| + |z| && |y| > 0 && |x| < w
    requires v == Value(x + y + z) && left == |x| && right == w - |y|
    ensures Shr(w, Shl(w, v, left), right) == Value(y)
  {
    ShiftedFieldFactors(w, x, y, z);
    ShiftedFieldOf(w, x, y, z);
  }

  lemma FieldArithmetic(px: nat, py: nat, pz: nat, pyz: nat, m: nat, d: nat,
                        vx: nat, vy: nat, vz: nat, vxy: nat, v: nat)
    requires px > 0 && pz > 0 && m > 0 && d > 0 && vy < py && vz < pz
    requires pyz == py * pz && m == px * pyz && d == px * pz
    requires vxy == vx * py + vy && v == vxy * pz + vz
    ensures (v * px) % m / d == vy
  {
    var low := vz * px;
    var mid := vy * d + low;
    assert m == py * d by { Reassociate(px, py, pz); }
    assert low < d by { MulLess(vz, pz, px); }
    assert mid < m by { MulLessPlus(vy, py, d, low); }
    assert v * px == vx * m + mid by {
      Distribute(vx * py, vy, vz, pz, px);
      assert vx * py * pz * px == vx * m by { Reassociate4(vx, py, pz, px); }
      assert vy * pz * px == vy * d by { Associate(vy, pz, px); }
    }
    DivModUnique(v * px, vx, m, mid);
    DivModUnique(mid, vy, d, low);
  }

  lemma MulLess(a: nat, b: nat, c: nat)
    requires a < b && c > 0
    ensures a * c < c * b
  {
  }

  lemma MulLessPlus(a: nat, b: nat, d: nat, low: nat)
    requires a < b && low < d
    ensures a * d + low < b * d
  {
    MulNonNegative(b - 1 - a, d);
    assert b * d == (b - 1 - a) * d + a * d + d;
  }

  lemma Associate(a: nat, b: nat, c: nat)
    ensures a * b * c == a * (c * b)
  {
  }

  lemma Reassociate(a: nat, b: nat, c: nat)
    ensures a * (b * c) == b * (a * c)
  {
  }

  lemma Reassociate4(a: nat, b: nat, c: nat, d: nat)
    ensures a * b * c * d == a * (d * (b * c))
  {
    var bc := b * c;
    assert a * b * c == a * bc;
    Associate(a, bc, d);
  }

  lemma Distribute(u: nat, v: nat, w: nat, c: nat, d: nat)
    ensures ((u + v) * c + w) * d == u * c * d + v * c * d + w * d
  {
    assert (u + v) * c == u * c + v * c;
    var p, q := u * c, v * c;
    assert (p + q + w) * d == p * d + q * d + w * d;
  }
}
