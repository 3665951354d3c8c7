/**
  Fixed-width words, powers of two, and the two outcome types shared by every
  component.  Widths are subset types, so that every assignment to a word is a
  proof that the source's arithmetic does not overflow there.
 */
module Words {
  type byte = x: int | 0 <= x < 0x100
  type u32 = x: int | 0 <= x < 0x1_0000_0000
  type u64 = x: int | 0 <= x < 0x1_0000_0000_0000_0000

  const U64_LIMIT: nat := 0x1_0000_0000_0000_0000

  datatype Option<+T> = None | Some(value: T)

  datatype Result<+T, +E> = Ok(value: T) | Err(error: E) {
    predicate IsFailure() { Err? }

    function PropagateFailure<U>(): Result<U, E>
      requires Err?
    {
      Err(error)
    }

    function Extract(): T
      requires Ok?
    {
      value
    }
  }

  /** What a parser over the front of a byte string yields: a value and the
      bytes it did not touch, or an error. */
  datatype Parsed<+T, +E> = Parsed(value: T, rest: seq<byte>) | Failed(error: E) {
    predicate IsFailure() { Failed? }

    function PropagateFailure<U>(): Parsed<U, E>
      requires Failed?
    {
      Failed(error)
    }

    function Extract(): (T, seq<byte>)
      requires Parsed?
    {
      (value, rest)
    }
  }

  function Pow2(n: nat): (r: nat)
    ensures r > 0
  {
    if n == 0 then 1 else 2 * Pow2(n - 1)
  }

  lemma {:induction false} Pow2Add(a: nat, b: nat)
    ensures Pow2(a + b) == Pow2(a) * Pow2(b)
  {
    if b != 0 {
      Pow2Add(a, b - 1);
    }
  }

  lemma Pow2Small()
    ensures Pow2(0) == 1 && Pow2(1) == 2 && Pow2(2) == 4 && Pow2(3) == 8 && Pow2(4) == 16
    ensures Pow2(5) == 32 && Pow2(6) == 64 && Pow2(7) == 128 && Pow2(8) == 256
    ensures Pow2(16) == 0x1_0000
  {
    assert Pow2(4) == 16;
    assert Pow2(8) == 256 by { Pow2Add(4, 4); }
    Pow2Add(8, 8);
  }

  /** Rust's `<<` and `>>` on an unsigned word of `width` bits.  The shift amount
      must be below the width, as the language demands. */
  function Shl(width: nat, x: nat, k: nat): (r: nat)
    requires k < width
    ensures r < Pow2(width)
  {
    (x * Pow2(k)) % Pow2(width)
  }

  function Shr(width: nat, x: nat, k: nat): (r: nat)
    requires k < width
    ensures r <= x
  {
    DivAtMost(x, Pow2(k));
    x / Pow2(k)
  }

  lemma MulNonNegative(a: nat, b: nat)
    ensures a * b >= 0
  {
  }

  lemma DivAtMost(x: nat, d: nat)
    requires d > 0
    ensures 0 <= x / d <= x
  {
    var q := x / d;
    assert x == d * q + x % d;
    assert q >= 0;
    MulNonNegative(d - 1, q);
    assert d * q == (d - 1) * q + q;
  }

  lemma DivModUnique(x: nat, q: nat, d: nat, r: nat)
    requires x == q * d + r && r < d
    ensures x / d == q && x % d == r
  {
    var q1, r1 := x / d, x % d;
    assert (q - q1) * d == r1 - r by {
      assert x == d * q1 + r1;
    }
    if q > q1 {
      assert (q - q1) * d == (q - q1 - 1) * d + d;
      MulNonNegative(q - q1 - 1, d);
    } else if q < q1 {
      assert (q1 - q) * d == (q1 - q - 1) * d + d;
      MulNonNegative(q1 - q - 1, d);
    }
  }

  lemma ModAdd(a: nat, b: nat, m: nat)
    requires m > 0
    ensures (a % m + b % m) % m == (a + b) % m
  {
    var k := a / m + b / m;
    assert a + b == k * m + (a % m + b % m);
    ModMultiple(a % m + b % m, k, m);
  }

  lemma {:induction false} ModMultiple(x: nat, k: nat, m: nat)
    requires m > 0
    ensures (k * m + x) % m == x % m
  {
    var q := x / m;
    assert k * m + x == (k + q) * m + x % m;
    DivModUnique(k * m + x, k + q, m, x % m);
  }
}
