/**
  Integers with a prefix of one to eight bits in a flagged first byte (section 5.1
  of RFC 7541), on 64-bit words.
 */
module PrefixInt {
  import opened Words
  import opened Buffers
  import Huffman

  /** The errors of the header decoder. */
  datatype DecodeError =
    | UnexpectedEnd
    | BoundsExceeded
    | DynamicEntry
    | UnknownEntry
    | HuffmanError(cause: Huffman.Error)
    | Utf8Error

  // Ten groups of seven bits cover a 64-bit word.
  const MAX_GROUPS: nat := 10
  const MAX_POWER: nat := 70

  /** The value of continuation bytes: seven bits each, least significant first. */
  function Base128(s: seq<byte>): nat {
    if s == [] then 0 else s[0] % 128 + 128 * Base128(s[1..])
  }

  /** The number of bytes at the front that announce a further one. */
  function Continued(s: seq<byte>): (n: nat)
    ensures n <= |s|
    ensures forall i :: 0 <= i < n ==> s[i] >= 128
    ensures n < |s| ==> s[n] < 128
  {
    if s != [] && s[0] >= 128 then 1 + Continued(s[1..]) else 0
  }

  /** The bits of a first byte above the prefix: `first >> size`. */
  function FlagsOf(first: byte, size: nat): byte {
    DivAtMost(first, Pow2(size));
    first / Pow2(size)
  }

  /** The prefix of a first byte: `first & mask`. */
  function LowOf(first: byte, size: nat): (r: nat)
    ensures r <= Mask(size)
  {
    first % Pow2(size)
  }

  function Mask(size: nat): nat {
    Pow2(size) - 1
  }

  /** Flags shifted above the prefix and cut to a byte: `(flags << size) as u8`. */
  function HighOf(flags: byte, size: nat): (r: byte)
    requires 1 <= size <= 8
    ensures r + Mask(size) < 256
  {
    HighFits(flags, size, Pow2(size));
    (flags * Pow2(size)) % 256
  }

  lemma HighFits(flags: byte, size: nat, p: nat)
    requires 1 <= size <= 8 && p == Pow2(size)
    ensures (flags * p) % 256 + p <= 256
  {
    Pow2Add(size, 8 - size);
    Pow2Small();
    assert size + (8 - size) == 8;
    ShiftedByte(flags, p, Pow2(8 - size));
  }

  /** Shifting left by a factor `p` of 256 keeps the low bits of `x`. */
  lemma ShiftedByte(x: nat, p: nat, q: nat)
    requires p > 0 && q > 0 && p * q == 256
    ensures (x * p) % 256 == (x % q) * p && (x % q) * p + p <= 256
  {
    var a, r := x / q, x % q;
    assert x == a * q + r;
    Distribute(a, q, r, p);
    MulNonNegative(q - 1 - r, p);
    assert (q - 1 - r) * p == 256 - p - r * p by {
      assert q * p == 256;
      ThreeTerms(q, r, p);
    }
    DivModUnique(x * p, a, 256, r * p);
  }

  lemma Distribute(a: nat, q: nat, r: nat, p: nat)
    ensures (a * q + r) * p == a * (p * q) + r * p
  {
    var m := a * q;
    assert (m + r) * p == m * p + r * p;
    assert a * q * p == a * (p * q);
  }

  lemma ThreeTerms(q: nat, r: nat, p: nat)
    ensures (q - 1 - r) * p == q * p - p - r * p
  {
  }

  /** `decode_prefix` as one step: a first byte below the mask is the value; else
      the mask is added to the run of continuation bytes, of which the tenth must
      be the last.  The sum is kept to 64 bits. */
  function ParsePrefix(s: seq<byte>, size: nat): (r: Parsed<(byte, u64), DecodeError>)
    requires 1 <= size <= 8
    ensures r.Parsed? ==> |r.rest| < |s|
  {
    if s == [] then Failed(UnexpectedEnd)
    else
      var flags := FlagsOf(s[0], size);
      var low := LowOf(s[0], size);
      var mask := Mask(size);
      var tail := s[1..];
      var n := Continued(tail);
      if low < mask then Parsed((flags, low), tail)
      else if n >= MAX_GROUPS then Failed(BoundsExceeded)
      else if n == |tail| then Failed(UnexpectedEnd)
      else Parsed((flags, (mask + Base128(tail[..n + 1])) % U64_LIMIT), tail[n + 1..])
  }

  function Groups(v: nat): (s: seq<byte>)
    ensures s != []
  {
    if v < 128 then [v] else [v % 128 + 128] + Groups(v / 128)
  }

  function PrintPrefix(size: nat, flags: byte, value: u64): (s: seq<byte>)
    requires 1 <= size <= 8
    ensures s != []
  {
    var mask := Mask(size);
    var high := HighOf(flags, size);
    if value < mask then [high + value] else [high + mask] + Groups(value - mask)
  }

  // ---- Round trip ----

  lemma {:induction false} GroupsInverse(v: nat, rest: seq<byte>)
    ensures Base128(Groups(v)) == v
    ensures Continued(Groups(v) + rest) == |Groups(v)| - 1
  {
    var g := Groups(v);
    assert (g + rest)[1..] == g[1..] + rest;
    if v >= 128 {
      assert g[1..] == Groups(v / 128);
      GroupsInverse(v / 128, rest);
    } else {
      assert g[1..] == [];
    }
  }

  function Pow128(n: nat): (r: nat)
    ensures r > 0
  {
    if n == 0 then 1 else 128 * Pow128(n - 1)
  }

  lemma {:induction false} GroupsLength(v: nat, n: nat)
    requires v < Pow128(n)
    ensures |Groups(v)| <= n || n == 0
  {
    if v >= 128 {
      GroupsLength(v / 128, n - 1);
    }
  }

  lemma Pow128Ten()
    ensures Pow128(10) >= U64_LIMIT
  {
    assert Pow128(5) == 0x8_0000_0000;
    assert Pow128(10) == 128 * (128 * (128 * (128 * (128 * Pow128(5)))));
  }

  /** Reading what was printed gives back the flags and the value and leaves what
      follows: for every prefix size, every 64-bit value, and every flags that fit
      the bits above the prefix. */
  lemma ParsePrintPrefix(size: nat, flags: byte, value: u64, rest: seq<byte>)
    requires 1 <= size <= 8 && flags * Pow2(size) < 256
    ensures ParsePrefix(PrintPrefix(size, flags, value) + rest, size) == Parsed((flags, value), rest)
  {
    hide *;
    if value < Mask(size) {
      ParsePrintSmall(size, flags, value, rest);
    } else {
      ParsePrintLarge(size, flags, value, rest);
    }
  }

  lemma ParsePrintSmall(size: nat, flags: byte, value: u64, rest: seq<byte>)
    requires 1 <= size <= 8 && flags * Pow2(size) < 256 && value < Mask(size)
    ensures ParsePrefix(PrintPrefix(size, flags, value) + rest, size) == Parsed((flags, value), rest)
  {
    hide Groups, Base128, Continued, Pow2, FlagsOf, LowOf, HighOf, Mask;
    var s := PrintPrefix(size, flags, value) + rest;
    SplitFirst(size, flags, value);
    assert s[1..] == rest;
  }

  lemma ParsePrintLarge(size: nat, flags: byte, value: u64, rest: seq<byte>)
    requires 1 <= size <= 8 && flags * Pow2(size) < 256 && value >= Mask(size)
    ensures ParsePrefix(PrintPrefix(size, flags, value) + rest, size) == Parsed((flags, value), rest)
  {
    hide Groups, PrintPrefix, ParsePrefix, Base128, Continued, Pow2, Pow128, FlagsOf, LowOf, HighOf, Mask;
    var g := Groups(value - Mask(size));
    PrintLarge(size, flags, value, rest);
    SplitFirst(size, flags, Mask(size));
    GroupsInverse(value - Mask(size), rest);
    Pow128Ten();
    GroupsLength(value - Mask(size), 10);
    ParseGroups(PrintPrefix(size, flags, value) + rest, size, g, rest);
    LowBits(value);
  }

  lemma PrintLarge(size: nat, flags: byte, value: u64, rest: seq<byte>)
    requires 1 <= size <= 8 && value >= Mask(size)
    ensures var s := PrintPrefix(size, flags, value) + rest;
            s[0] == HighOf(flags, size) + Mask(size) && s[1..] == Groups(value - Mask(size)) + rest
  {
    hide Groups, HighOf, Mask;
  }

  lemma ParseGroups(s: seq<byte>, size: nat, g: seq<byte>, rest: seq<byte>)
    requires 1 <= size <= 8 && s != [] && s[1..] == g + rest && LowOf(s[0], size) == Mask(size)
    requires g != [] && Continued(g + rest) == |g| - 1 < MAX_GROUPS
    ensures ParsePrefix(s, size) == Parsed((FlagsOf(s[0], size), (Mask(size) + Base128(g)) % U64_LIMIT), rest)
  {
    hide Base128, Continued, FlagsOf, LowOf, Mask;
    assert (g + rest)[..|g|] == g && (g + rest)[|g|..] == rest;
  }

  lemma MaskPositive(size: nat)
    requires 1 <= size <= 8
    ensures 1 <= Mask(size) < 256
  {
    Pow2Small();
  }

  lemma HighExact(size: nat, flags: byte)
    requires 1 <= size <= 8 && flags * Pow2(size) < 256
    ensures HighOf(flags, size) == flags * Pow2(size)
  {
    hide Pow2;
    var x := flags * Pow2(size);
    assert x % 256 == x;
  }

  /** The first byte printed: the flags above a prefix. */
  lemma PrintFirst(size: nat, flags: byte, value: u64)
    requires 1 <= size <= 8 && flags * Pow2(size) < 256
    ensures var b := PrintPrefix(size, flags, value)[0]; flags * Pow2(size) <= b < flags * Pow2(size) + Pow2(size)
  {
    hide HighOf, Pow2, Groups;
    HighExact(size, flags);
  }

  lemma SplitFirst(size: nat, flags: byte, low: nat)
    requires 1 <= size <= 8 && flags * Pow2(size) < 256 && low <= Mask(size)
    ensures FlagsOf(HighOf(flags, size) + low, size) == flags
    ensures LowOf(HighOf(flags, size) + low, size) == low
  {
    hide Pow2;
    var p := Pow2(size);
    var x := flags * p + low;
    HighExact(size, flags);
    DivModUnique(x, flags, p, low);
  }

  /** The printer never emits more than ten groups, so its output is never out of bounds. */
  lemma PrintWithinBounds(size: nat, flags: byte, value: u64)
    requires 1 <= size <= 8
    ensures |PrintPrefix(size, flags, value)| <= 1 + MAX_GROUPS
  {
    Pow128Ten();
    if value >= Mask(size) {
      GroupsLength(value - Mask(size), 10);
    }
  }

  // ---- Exactness ----

  /** The number an encoding stands for, whatever its size. */
  function MathValue(s: seq<byte>, size: nat): nat
    requires 1 <= size <= 8 && s != []
  {
    var low := LowOf(s[0], size);
    if low < Mask(size) then low else low + Base128(s[1..])
  }

  /** `s` is a whole encoding: a small first byte alone, or a full one followed by
      at most ten groups of which exactly the last says that it is the last. */
  predicate WholeEncoding(s: seq<byte>, size: nat)
    requires 1 <= size <= 8
  {
    && s != []
    && if LowOf(s[0], size) < Mask(size) then |s| == 1
       else 1 < |s| <= 1 + MAX_GROUPS && Continued(s[1..]) == |s| - 2
  }

  /** For every whole encoding the decoder returns the number it stands for exactly
      when that number fits 64 bits; otherwise its low 64 bits. */
  lemma ParseIsMathValue(s: seq<byte>, size: nat, rest: seq<byte>)
    requires 1 <= size <= 8 && WholeEncoding(s, size)
    ensures var r := ParsePrefix(s + rest, size);
            && r.Parsed? && r.rest == rest && r.value.0 == FlagsOf(s[0], size)
            && r.value.1 == MathValue(s, size) % U64_LIMIT
            && (r.value.1 == MathValue(s, size) <==> MathValue(s, size) < U64_LIMIT)
  {
    hide Base128, Pow2, LowOf, FlagsOf, Mask, Continued;
    assert (s + rest)[1..] == s[1..] + rest;
    MaskPositive(size);
    LowBits(MathValue(s, size));
    if LowOf(s[0], size) == Mask(size) {
      ContinuedPrefix(s[1..], rest);
      assert (s[1..] + rest)[..|s| - 1] == s[1..] && (s[1..] + rest)[|s| - 1..] == rest;
    } else {
      assert s[1..] + rest == rest;
    }
  }

  lemma LowBits(x: nat)
    ensures x % U64_LIMIT == x <==> x < U64_LIMIT
  {
  }

  lemma {:induction false} ContinuedPrefix(s: seq<byte>, rest: seq<byte>)
    requires Continued(s) < |s|
    ensures Continued(s + rest) == Continued(s)
  {
    assert (s + rest)[1..] == s[1..] + rest;
    if s[0] >= 128 {
      ContinuedPrefix(s[1..], rest);
    }
  }

  /** The form the printer gives: no group at the end that adds nothing. */
  predicate Shortest(s: seq<byte>, size: nat)
    requires 1 <= size <= 8
  {
    WholeEncoding(s, size) && (|s| > 2 ==> s[|s| - 1] != 0)
  }

  lemma GroupsAbove(v: nat, r: nat, t: nat)
    requires r < 128 && t > 0 && v == r + 128 * t
    ensures v >= 128 && Groups(v) == [r + 128] + Groups(t)
  {
    DivModUnique(v, t, 128, r);
  }

  lemma LastGroup(b: byte)
    requires b < 128
    ensures Base128([b]) == b && Groups(b) == [b]
  {
    assert [b][1..] == [];
  }

  lemma {:induction false} GroupsOfBase128(g: seq<byte>)
    requires g != [] && Continued(g) == |g| - 1 && (|g| == 1 || g[|g| - 1] != 0)
    ensures Groups(Base128(g)) == g && (g != [0] ==> Base128(g) > 0)
  {
    hide Groups;
    if |g| == 1 {
      assert g == [g[0]];
      LastGroup(g[0]);
    } else {
      var tail := g[1..];
      assert tail[|tail| - 1] == g[|g| - 1];
      GroupsOfBase128(tail);
      GroupsAbove(Base128(g), g[0] % 128, Base128(tail));
      assert g == [g[0]] + tail;
    }
  }

  /** Of the encodings of a number the printer writes the shortest: each that has no idle
      group at its end is what is printed for its flags and its number. */
  lemma PrintOfMathValue(s: seq<byte>, size: nat)
    requires 1 <= size <= 8 && Shortest(s, size) && MathValue(s, size) < U64_LIMIT
    ensures PrintPrefix(size, FlagsOf(s[0], size), MathValue(s, size)) == s
  {
    hide Groups, Base128, Continued, FlagsOf, LowOf, HighOf, Mask;
    JoinFirst(s[0], size);
    if LowOf(s[0], size) == Mask(size) {
      var g := s[1..];
      assert |g| > 1 ==> g[|g| - 1] == s[|s| - 1];
      GroupsOfBase128(g);
      assert s == [s[0]] + g;
    }
  }

  lemma JoinFirst(first: byte, size: nat)
    requires 1 <= size <= 8
    ensures HighOf(FlagsOf(first, size), size) + LowOf(first, size) == first
  {
    hide Pow2;
    var p := Pow2(size);
    assert first == p * (first / p) + first % p;
    MulNonNegative(p, first / p);
    assert (first / p) * p % 256 == (first / p) * p;
  }

  /** Nothing but whole encodings is read.  What is out of bounds is a full first byte
      with ten bytes behind it that all announce one more; anything else is cut short. */
  lemma PrefixOutcome(s: seq<byte>, size: nat)
    requires 1 <= size <= 8
    ensures ParsePrefix(s, size).Parsed? <==> exists n: nat :: n <= |s| && WholeEncoding(s[..n], size)
    ensures ParsePrefix(s, size) == Failed(BoundsExceeded) <==>
              |s| >= 11 && LowOf(s[0], size) == Mask(size) && forall i :: 1 <= i <= 10 ==> s[i] >= 128
    ensures ParsePrefix(s, size).Failed? ==> ParsePrefix(s, size).error in {UnexpectedEnd, BoundsExceeded}
  {
    hide ParsePrefix, WholeEncoding, LowOf, Mask;
    OutOfBounds(s, size);
    var r := ParsePrefix(s, size);
    if r.Parsed? {
      WholeTaken(s, size);
    }
    forall n: nat | n <= |s| && WholeEncoding(s[..n], size) ensures r.Parsed? {
      ParseIsMathValue(s[..n], size, s[n..]);
      assert s[..n] + s[n..] == s;
    }
  }

  lemma OutOfBounds(s: seq<byte>, size: nat)
    requires 1 <= size <= 8
    ensures ParsePrefix(s, size) == Failed(BoundsExceeded) <==>
              |s| >= 11 && LowOf(s[0], size) == Mask(size) && forall i :: 1 <= i <= 10 ==> s[i] >= 128
    ensures ParsePrefix(s, size).Failed? ==> ParsePrefix(s, size).error in {UnexpectedEnd, BoundsExceeded}
  {
    hide Base128, LowOf, FlagsOf, Mask, Continued;
    if s != [] {
      var tail := s[1..];
      assert forall i :: 1 <= i < |s| ==> s[i] == tail[i - 1];
    }
  }

  /** The bytes taken are a whole encoding. */
  lemma WholeTaken(s: seq<byte>, size: nat)
    requires 1 <= size <= 8 && ParsePrefix(s, size).Parsed?
    ensures var n := |s| - |ParsePrefix(s, size).rest|; WholeEncoding(s[..n], size) && ParsePrefix(s, size).rest == s[n..]
  {
    hide Base128, LowOf, FlagsOf, Mask, Continued;
    var tail := s[1..];
    if LowOf(s[0], size) == Mask(size) {
      var n := Continued(tail) + 2;
      assert ParsePrefix(s, size).rest == tail[n - 1..] == s[n..];
      assert s[..n][1..] == tail[..n - 1];
      ContinuedWithin(tail, n - 1);
    }
  }

  lemma {:induction false} ContinuedWithin(s: seq<byte>, n: nat)
    requires Continued(s) < n <= |s|
    ensures Continued(s[..n]) == Continued(s)
  {
    assert s[..n][1..] == s[1..][..n - 1];
    if s[0] >= 128 {
      ContinuedWithin(s[1..], n - 1);
    }
  }

  // ---- The loops ----

  lemma {:induction false} Base128Append(s: seq<byte>, b: byte)
    ensures Base128(s + [b]) == Base128(s) + (b % 128) * Pow128(|s|)
  {
    if s == [] {
      assert ([] + [b])[1..] == [];
    } else {
      assert (s + [b])[1..] == s[1..] + [b];
      Base128Append(s[1..], b);
      Scale(b % 128, Pow128(|s| - 1));
    }
  }

  lemma Scale(a: nat, p: nat)
    ensures 128 * (a * p) == a * (128 * p)
  {
  }

  lemma {:induction false} Pow128IsPow2(n: nat)
    ensures Pow128(n) == Pow2(7 * n)
  {
    if n > 0 {
      Pow128IsPow2(n - 1);
      Pow2Add(7, 7 * (n - 1));
      Pow2Small();
    }
  }

  lemma ContinuedStep(s: seq<byte>, n: nat)
    requires n < |s|
    ensures Continued(s[n..]) == if s[n] < 128 then 0 else 1 + Continued(s[n + 1..])
  {
    assert s[n..][1..] == s[n + 1..];
  }

  /** `x << power` on 64 bits. */
  function Shifted(x: nat, power: nat): u64
    requires power < 64
  {
    (x * Pow2(power)) % U64_LIMIT
  }

  /** Adding one more group, shifted and cut to 64 bits, to the sum so far. */
  lemma AddGroup(mask: nat, s: seq<byte>, b: byte, power: nat, value: u64)
    requires power == 7 * |s| && power < 64
    requires value == (mask + Base128(s)) % U64_LIMIT
    ensures (value + Shifted(b % 128, power)) % U64_LIMIT == (mask + Base128(s + [b])) % U64_LIMIT
  {
    hide Base128, Pow2, Pow128;
    Base128Append(s, b);
    Pow128IsPow2(|s|);
    ModAdd(mask + Base128(s), (b % 128) * Pow2(power), U64_LIMIT);
  }

  /** The outcomes of a full first byte, by its run of `n` continued bytes. */
  lemma FullPrefix(s: seq<byte>, size: nat, n: nat)
    requires 1 <= size <= 8 && s != [] && LowOf(s[0], size) == Mask(size)
    requires n <= |s[1..]| && Continued(s[1..]) == n + Continued(s[1..][n..])
    ensures n >= MAX_GROUPS ==> ParsePrefix(s, size) == Failed(BoundsExceeded)
    ensures n < MAX_GROUPS && n == |s[1..]| ==> ParsePrefix(s, size) == Failed(UnexpectedEnd)
    ensures n < MAX_GROUPS && n < |s[1..]| && s[1..][n] < 128 ==>
              ParsePrefix(s, size) == Parsed((FlagsOf(s[0], size), (Mask(size) + Base128(s[1..][..n + 1])) % U64_LIMIT),
                                             s[1..][n + 1..])
  {
    hide LowOf, FlagsOf, Mask, Base128;
    if n < |s[1..]| {
      ContinuedStep(s[1..], n);
    }
  }

  /** The release build's arithmetic: shifted-out bits are lost and sums wrap. */
  method DecodePrefix(buf: Buf, size: nat) returns (r: Result<(byte, u64), DecodeError>)
    requires 1 <= size <= 8
    modifies buf
    ensures match ParsePrefix(old(buf.data), size)
            case Parsed(v, rest) => r == Ok(v) && buf.data == rest
            case Failed(e) => r == Err(e)
  {
    hide Base128, Pow2, Continued, FlagsOf, LowOf, Mask, Shifted;
    ghost var s := buf.data;
    if !buf.HasRemaining() {
      return Err(UnexpectedEnd);
    }
    MaskPositive(size);
    var first := buf.GetU8();
    ghost var tail := buf.data;
    var flags := FlagsOf(first, size);
    var mask := Mask(size);
    first := LowOf(first, size);
    if first < mask {
      return Ok((flags, first));
    }
    hide ParsePrefix;

    var value: u64 := mask;
    var power := 0;
    ghost var n := 0;
    assert tail[0..] == tail && Base128(tail[..0]) == 0 by { Base128Empty(); }
    while true
      invariant n < MAX_GROUPS && n <= |tail| && power == 7 * n
      invariant buf.data == tail[n..] && Continued(tail) == n + Continued(tail[n..])
      invariant value == (mask + Base128(tail[..n])) % U64_LIMIT
      decreases |buf.data|
    {
      FullPrefix(s, size, n);
      if !buf.HasRemaining() {
        return Err(UnexpectedEnd);
      }
      ContinuedStep(tail, n);
      var b := buf.GetU8();
      TakeOne(tail, n);
      AddGroup(mask, tail[..n], b, power, value);
      value := (value + Shifted(b % 128, power)) % U64_LIMIT;
      power := power + 7;
      if b < 128 {
        return Ok((flags, value));
      }
      n := n + 1;
      if power >= MAX_POWER {
        FullPrefix(s, size, n);
        return Err(BoundsExceeded);
      }
    }
  }

  lemma TakeOne(s: seq<byte>, n: nat)
    requires n < |s|
    ensures s[n..][0] == s[n] && s[n..][1..] == s[n + 1..] && s[..n + 1] == s[..n] + [s[n]]
  {
  }

  lemma Base128Empty()
    ensures Base128([]) == 0
  {
  }

  method EncodePrefix(buf: BufMut, size: nat, flags: byte, value: u64)
    requires 1 <= size <= 8
    modifies buf
    ensures buf.data == old(buf.data) + PrintPrefix(size, flags, value)
  {
    hide Pow2, Mask, HighOf, Groups;
    MaskPositive(size);
    var mask := Mask(size);
    var high := HighOf(flags, size);
    if value < mask {
      buf.PutU8(high + value);
      return;
    }
    buf.PutU8(high + mask);
    var remaining := value - mask;
    ghost var head := buf.data;
    while remaining >= 128
      invariant remaining >= 0
      invariant buf.data + Groups(remaining) == head + Groups(value - mask)
    {
      GroupsStep(remaining, buf.data);
      var rest := remaining % 128;
      buf.PutU8(rest + 128);
      remaining := remaining / 128;
    }
    GroupsStep(remaining, buf.data);
    buf.PutU8(remaining);
  }

  lemma GroupsStep(v: nat, before: seq<byte>)
    ensures before + Groups(v) == if v < 128 then before + [v] else before + [v % 128 + 128] + Groups(v / 128)
  {
  }
}
