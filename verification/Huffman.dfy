/**
  The multi-way Huffman decoder: a window over the payload, the hop from one
  lookup node to the next, and the bit-by-bit walk of the code tree that it
  refines.
 */
module Huffman {
  import opened Words
  import opened Bits

  // Payloads stay below this length, so that their bit count fits 32 bits.
  const PAYLOAD_LIMIT: nat := 0x2000_0000

  /** The value of a bit window: `count` bits from bit `bit` of byte `byte`. */
  datatype Window = Window(byte: nat, bit: nat, count: nat) {
    /** The window from the same bit to the end of the byte. */
    function Opposite(): (w: Window)
      ensures w.bit + w.count == 8 + w.bit / 8 * 8
    {
      Window(byte, bit, 8 - bit % 8)
    }
  }

  datatype Error =
    | MissingBits(window: Window)
    | Unhandled(at: Window, index: nat)

  class BitWindow {
    var byte: u32
    var bit: u32
    var count: u32

    constructor ()
      ensures byte == 0 && bit == 0 && count == 0
    {
      byte, bit, count := 0, 0, 0;
    }

    /** The first bit after the window. */
    function Next(): nat
      reads this
    {
      8 * byte + bit + count
    }

    function Snapshot(): Window
      reads this
    {
      Window(byte, bit, count)
    }

    method Forwards(step: u32)
      requires Next() < 0x1_0000_0000
      modifies this
      ensures 8 * byte + bit == old(Next()) && bit < 8 && count == step
    {
      bit := bit + count;
      byte := byte + bit / 8;
      bit := bit % 8;
      count := step;
    }
  }

  datatype Entry = Sym(sym: byte) | Partial(node: Decoder)

  datatype Decoder = Decoder(lookup: u32, table: seq<Entry>) {
    /** Every node reads between one and eight bits. */
    ghost predicate Shaped() {
      && 1 <= lookup <= 8
      && forall i :: 0 <= i < |table| && table[i].Partial? ==> table[i].node.Shaped()
    }

    /** Steps the window over one node and follows the table until a symbol, the
        end of the payload or an error: exactly what walking the remaining bits
        one at a time yields. */
    method DecodeNext(window: BitWindow, input: seq<byte>) returns (r: Result<Option<byte>, Error>)
      requires Shaped() && |input| < PAYLOAD_LIMIT && window.Next() <= 8 * |input|
      requires Countable(this, BitsOf(input)[window.Next()..], 8 * |input|)
      modifies window
      ensures match Walk(this, [], BitsOf(input)[old(window.Next())..])
              case Symbol(x, rest) => r == Ok(Some(x)) && window.Next() == 8 * |input| - |rest| && window.bit < 8
              case End => r == Ok(None)
              case o => r == Err(ErrorOf(o, 8 * |input|))
      decreases this
    {
      hide BitsOf, Value, Walk, FetchValue, AllOnes;
      ghost var start := window.Next();
      ghost var s := BitsOf(input)[start..];
      HopCountable(this, s, 8 * |input|);
      window.Forwards(lookup);
      assert window.Snapshot() == WindowAt(start, lookup);
      WalkHop(this, s);

      var value;
      match FetchValue(window.Snapshot(), input) {
        case Ok(Some(v)) => value := v;
        case Ok(None) => return Ok(None);
        case Err(e) => return Err(e);
      }
      assert s[..lookup] == BitsOf(input)[start..start + lookup];
      assert s[lookup..] == BitsOf(input)[window.Next()..];

      if value >= |table| {
        return Err(Unhandled(window.Snapshot(), value));
      }
      match table[value] {
        case Sym(x) => r := Ok(Some(x));
        case Partial(d) => r := d.DecodeNext(window, input);
      }
    }
  }

  // ---- The window over the payload ----

  function WindowAt(position: nat, count: nat): Window {
    Window(position / 8, position % 8, count)
  }

  /** Reads `len` bits at a bit position.  It succeeds exactly when the payload
      holds them all, and then yields their big-endian value. */
  function ReadBits(src: seq<byte>, byteOffset: u32, bitOffset: u32, len: u32): (r: Result<byte, ()>)
    requires |src| < PAYLOAD_LIMIT && 8 * byteOffset + bitOffset + len < 0x1_0000_0000
    ensures r.Ok? <==> 1 <= len <= 8 && 8 * byteOffset + bitOffset + len <= 8 * |src|
    ensures r.Ok? ==>
              var p := 8 * byteOffset + bitOffset;
              r.value == Value(BitsOf(src)[p..p + len])
  {
    if len == 0 || len > 8 || |src| * 8 < byteOffset * 8 + bitOffset + len then
      Err(())
    else
      var at: u32 := byteOffset + bitOffset / 8;
      var bit: u32 := bitOffset - bitOffset / 8 * 8;
      if bit + len <= 8 then
        OneByteField(src, at, bit, len);
        Ok(Shr(8, Shl(8, src[at], bit), 8 - len))
      else
        TwoByteField(src, at, bit, len);
        Ok(Shr(16, Shl(16, Shl(16, src[at], 8) + src[at + 1], bit), 16 - len))
  }

  lemma OneByteField(src: seq<byte>, at: nat, bit: nat, len: nat)
    requires at < |src| && bit < 8 && 1 <= len && bit + len <= 8
    ensures var p := 8 * at + bit; Shr(8, Shl(8, src[at], bit), 8 - len) == Value(BitsOf(src)[p..p + len]) < 0x100
  {
    hide *;
    BitsOfAt(src, at);
    FieldOfWord(8, BitsOf(src), 8 * at, ByteBits(src[at]), src[at], bit, len);
  }

  lemma WordValue(high: byte, low: byte)
    ensures Value(ByteBits(high) + ByteBits(low)) == Shl(16, high, 8) + low
  {
    Pow2Small();
    ValueConcat(ByteBits(high), ByteBits(low));
  }

  lemma TwoByteField(src: seq<byte>, at: nat, bit: nat, len: nat)
    requires at + 1 < |src| && bit < 8 && 1 <= len <= 8 && bit + len > 8
    ensures var p := 8 * at + bit;
            Shr(16, Shl(16, Shl(16, src[at], 8) + src[at + 1], bit), 16 - len) == Value(BitsOf(src)[p..p + len]) < 0x100
  {
    hide *;
    BitsOfAt(src, at);
    BitsOfAt(src, at + 1);
    var w := ByteBits(src[at]) + ByteBits(src[at + 1]);
    Halves(BitsOf(src), 8 * at, ByteBits(src[at]), ByteBits(src[at + 1]));
    WordValue(src[at], src[at + 1]);
    FieldOfWord(16, BitsOf(src), 8 * at, w, Shl(16, src[at], 8) + src[at + 1], bit, len);
  }

  lemma Halves(s: bits, i: nat, a: bits, b: bits)
    requires |a| == |b| == 8 && i + 16 <= |s| && s[i..i + 8] == a && s[i + 8..i + 16] == b
    ensures s[i..i + 16] == a + b
  {
  }

  lemma FieldOfWord(width: nat, s: bits, i: nat, w: bits, v: nat, bit: nat, len: nat)
    requires |w| == width && Value(w) == v && i + width <= |s| && s[i..i + width] == w
    requires bit < width && 1 <= len <= 8 && bit + len <= width
    ensures Shr(width, Shl(width, v, bit), width - len) == Value(s[i + bit..i + bit + len]) < 0x100
  {
    hide *;
    var x, y, z := w[..bit], w[bit..bit + len], w[bit + len..];
    SliceOfSlice(s, w, i, bit, bit + len);
    assert w == x + y + z;
    ShiftedField(width, x, y, z, v, bit, width - len);
    FieldFitsByte(y);
  }

  lemma FieldFitsByte(y: bits)
    requires |y| <= 8
    ensures Value(y) < 0x100
  {
    Pow2Small();
    ValueBound(y);
    Pow2Add(|y|, 8 - |y|);
    MulNonNegative(Pow2(|y|), Pow2(8 - |y|) - 1);
    var p, q := Pow2(|y|), Pow2(8 - |y|);
    assert p * q == p * (q - 1) + p;
  }

  /** A failed read ends the payload cleanly exactly when what is left of it is
      nothing, or a run of ones inside the last byte. */
  function CheckEof(window: Window, input: seq<byte>): (r: Result<Option<u32>, Error>)
    requires |input| < PAYLOAD_LIMIT && window.byte <= |input| && window.bit < 8
  {
    if window.byte + 1 > |input| then
      Ok(None)
    else if window.byte + 1 == |input| then
      var side := window.Opposite();
      match ReadBits(input, side.byte, side.bit, side.count)
      case Err(_) => Err(MissingBits(side))
      case Ok(rest) =>
        var filler := (Shl(16, 2, side.count - 1) - 1) % 0x100;
        if LowBitsOf(rest, filler) == filler then Ok(None) else Err(MissingBits(window))
    else
      Err(MissingBits(window))
  }

  /** `x & mask`, for a mask of the form 2^k - 1. */
  function LowBitsOf(x: nat, mask: nat): nat {
    x % (mask + 1)
  }

  function FetchValue(window: Window, input: seq<byte>): (r: Result<Option<u32>, Error>)
    requires |input| < PAYLOAD_LIMIT && window.bit < 8 && 1 <= window.count <= 8
    requires 8 * window.byte + window.bit <= 8 * |input|
    requires 8 * window.byte + window.bit + window.count < 0x1_0000_0000
    ensures var p := 8 * window.byte + window.bit;
            var s := BitsOf(input)[p..];
            r == if window.count <= |s| then Ok(Some(Value(s[..window.count])))
                 else if AllOnes(s) then Ok(None)
                 else Err(MissingBits(window))
  {
    var p := 8 * window.byte + window.bit;
    assert BitsOf(input)[p..][..if window.count <= 8 * |input| - p then window.count else 0]
        == BitsOf(input)[p..p + if window.count <= 8 * |input| - p then window.count else 0];
    match ReadBits(input, window.byte, window.bit, window.count)
    case Ok(value) => Ok(Some(value))
    case Err(_) =>
      EofExact(window, input);
      CheckEof(window, input)
  }

  lemma EofExact(window: Window, input: seq<byte>)
    requires |input| < PAYLOAD_LIMIT && window.bit < 8 && 1 <= window.count <= 8
    requires 8 * window.byte + window.bit <= 8 * |input| < 8 * window.byte + window.bit + window.count
    ensures window.byte + 1 >= |input|
    ensures var s := BitsOf(input)[8 * window.byte + window.bit..];
            CheckEof(window, input) == if AllOnes(s) then Ok(None) else Err(MissingBits(window))
  {
    hide BitsOf, AllOnes, CheckEof, Window.Opposite;
    if window.byte + 1 == |input| {
      LastByteEof(window, input);
    } else {
      BeyondEof(window, input);
    }
  }

  lemma BeyondEof(window: Window, input: seq<byte>)
    requires |input| < PAYLOAD_LIMIT && window.byte == |input| && window.bit == 0
    ensures CheckEof(window, input) == Ok(None) && AllOnes(BitsOf(input)[8 * window.byte + window.bit..])
  {
    hide BitsOf, ReadBits, Shl, LowBitsOf;
  }

  lemma LastByteEof(window: Window, input: seq<byte>)
    requires |input| < PAYLOAD_LIMIT && window.bit < 8 && window.byte + 1 == |input|
    ensures var s := BitsOf(input)[8 * window.byte + window.bit..];
            CheckEof(window, input) == if AllOnes(s) then Ok(None) else Err(MissingBits(window))
  {
    hide BitsOf, Value, ReadBits, Shl, Pow2, LowBitsOf, AllOnes;
    var p := 8 * window.byte + window.bit;
    var n := 8 - window.bit;
    var s := BitsOf(input)[p..];
    assert BitsOf(input)[p..p + n] == s;
    assert window.Opposite() == Window(window.byte, window.bit, n);
    FillerIsOnes(n);
    FillerExact(s);
  }

  lemma FillerExact(s: bits)
    ensures LowBitsOf(Value(s), Pow2(|s|) - 1) == Pow2(|s|) - 1 <==> AllOnes(s)
  {
    AllOnesValue(s);
    ValueBound(s);
    SmallRemainder(Value(s), Pow2(|s|));
  }

  lemma SmallRemainder(x: nat, m: nat)
    requires x < m
    ensures x % m == x
  {
  }

  lemma FillerIsOnes(n: nat)
    requires 1 <= n <= 8
    ensures (Shl(16, 2, n - 1) - 1) % 0x100 == Pow2(n) - 1
  {
    Pow2Small();
  }

  /** The error reported for a walk that fails at the end of `total` bits: the
      window of the node at which it failed. */
  function ErrorOf(o: Outcome, total: nat): Error
    requires (o.Missing? || o.Overrun?) && o.Fits(total)
  {
    match o
    case Missing(tail, k) => MissingBits(WindowAt(total - |tail|, k))
    case Overrun(k, v, after) => Unhandled(WindowAt(total - |after| - k, k), v)
  }

  // ---- The code tree, one bit at a time ----

  /** What walking the tree over a bit string meets first: a symbol and the bits
      after it, the end of the bits at a node they fill with ones or do not enter,
      the end with other bits left over, or a value beyond a node's table. */
  datatype Outcome =
    | Symbol(sym: byte, rest: bits)
    | End
    | Missing(tail: bits, count: u32)
    | Overrun(lookup: u32, value: nat, after: bits)
  {
    /** The bits left over are among the `n` walked. */
    predicate Fits(n: nat) {
      match this
      case Symbol(_, rest) => |rest| <= n
      case End => true
      case Missing(tail, _) => |tail| <= n
      case Overrun(k, _, after) => k + |after| <= n
    }
  }

  /** Walks from node `d`, of whose bits `acc` have been read, taking one bit of
      `s` at a time. */
  function Walk(d: Decoder, acc: bits, s: bits): Outcome
    requires |acc| <= d.lookup
    ensures Walk(d, acc, s).Fits(|acc| + |s|)
    ensures var o := Walk(d, acc, s); o.Symbol? ==> |o.rest| + d.lookup <= |acc| + |s|
    decreases d, |s|, 1
  {
    if |acc| == d.lookup then Enter(d, Value(acc), s)
    else if s == [] then (if AllOnes(acc) then End else Missing(acc, d.lookup))
    else Walk(d, acc + [s[0]], s[1..])
  }

  function Enter(d: Decoder, v: nat, s: bits): Outcome
    ensures Enter(d, v, s).Fits(d.lookup + |s|)
    decreases d, |s|, 0
  {
    if v >= |d.table| then Overrun(d.lookup, v, s)
    else
      match d.table[v]
      case Sym(x) => Symbol(x, s)
      case Partial(n) => Walk(n, [], s)
  }

  /** A whole hop at once. */
  lemma {:induction false} WalkFrom(d: Decoder, acc: bits, s: bits)
    requires |acc| <= d.lookup
    ensures var k := d.lookup - |acc|;
            Walk(d, acc, s) ==
            if k <= |s| then Enter(d, Value(acc + s[..k]), s[k..])
            else if AllOnes(acc + s) then End
            else Missing(acc + s, d.lookup)
    decreases |s|
  {
    var k := d.lookup - |acc|;
    if k == 0 {
      assert acc + s[..0] == acc && s[0..] == s;
    } else if s == [] {
      assert acc + s == acc;
    } else {
      WalkFrom(d, acc + [s[0]], s[1..]);
      assert acc + [s[0]] + s[1..] == acc + s;
      if k <= |s| {
        assert acc + [s[0]] + s[1..][..k - 1] == acc + s[..k];
        assert s[1..][k - 1..] == s[k..];
      }
    }
  }

  lemma WalkHop(d: Decoder, s: bits)
    ensures Walk(d, [], s) ==
            if d.lookup <= |s| then Enter(d, Value(s[..d.lookup]), s[d.lookup..])
            else if AllOnes(s) then End
            else Missing(s, d.lookup)
  {
    WalkFrom(d, [], s);
    assert [] + s == s;
    if d.lookup <= |s| {
      assert [] + s[..d.lookup] == s[..d.lookup];
    }
  }

  // ---- Where a walk can stop ----

  /** The bits `p` lead from node `d` exactly to node `n`. */
  predicate LeadsTo(d: Decoder, p: bits, n: Decoder)
    decreases d
  {
    var k := d.lookup;
    || (p == [] && n == d)
    || (k <= |p| && Value(p[..k]) < |d.table| && d.table[Value(p[..k])].Partial?
        && LeadsTo(d.table[Value(p[..k])].node, p[k..], n))
  }

  /** The bits `s` run out inside node `n`, which they reach and then do not fill:
      the last of them, from `j` on, are all it gets. */
  predicate StopsInside(d: Decoder, s: bits, j: nat, n: Decoder) {
    j <= |s| && LeadsTo(d, s[..j], n) && |s| - j < n.lookup
  }

  /** A walk ends cleanly exactly when its bits run out inside some node, of whose
      bits it has none or only ones. */
  lemma {:induction false} EndExact(d: Decoder, s: bits)
    ensures Walk(d, [], s) == End <==> exists j: nat, n :: StopsInside(d, s, j, n) && AllOnes(s[j..])
    decreases d
  {
    hide Walk, Value, AllOnes;
    WalkHop(d, s);
    StopsHop(d, s);
    var k := d.lookup;
    if |s| < k {
      assert s[..0] == [] && s[0..] == s && StopsInside(d, s, 0, d);
    } else {
      var v := Value(s[..k]);
      if v < |d.table| && d.table[v].Partial? {
        EndExact(d.table[v].node, s[k..]);
      }
    }
  }

  /** It misses bits exactly when there are others among them, and these are what it
      reports, with the number of bits of that node. */
  lemma {:induction false} MissingExact(d: Decoder, s: bits, tail: bits, count: u32)
    ensures Walk(d, [], s) == Missing(tail, count) <==>
            !AllOnes(tail) && exists j: nat, n :: StopsInside(d, s, j, n) && s[j..] == tail && n.lookup == count
    decreases d
  {
    hide Walk, Value, AllOnes;
    WalkHop(d, s);
    StopsHop(d, s);
    var k := d.lookup;
    if |s| < k {
      assert s[..0] == [] && s[0..] == s && StopsInside(d, s, 0, d);
    } else {
      var v := Value(s[..k]);
      if v < |d.table| && d.table[v].Partial? {
        MissingExact(d.table[v].node, s[k..], tail, count);
      }
    }
  }

  /** Bits that fill a node can stop only below the entry they name. */
  lemma StopsHop(d: Decoder, s: bits)
    ensures |s| < d.lookup ==> forall j: nat, n :: StopsInside(d, s, j, n) ==> j == 0 && n == d
    ensures d.lookup <= |s| ==>
              var k, v := d.lookup, Value(s[..d.lookup]);
              && (forall j: nat, n :: StopsInside(d, s, j, n) ==>
                   && k <= j && v < |d.table| && d.table[v].Partial?
                   && StopsInside(d.table[v].node, s[k..], j - k, n) && s[j..] == s[k..][j - k..])
              && (v < |d.table| && d.table[v].Partial? ==>
                    forall j: nat, n :: StopsInside(d.table[v].node, s[k..], j, n) ==>
                      StopsInside(d, s, j + k, n) && s[j + k..] == s[k..][j..])
  {
    hide Value, LeadsTo;
    forall j: nat, n | StopsInside(d, s, j, n)
      ensures if |s| < d.lookup then j == 0 && n == d else StopsBelow(d, s, j, n)
    {
      StopGoesDown(d, s, j, n);
    }
    if d.lookup <= |s| {
      var v := Value(s[..d.lookup]);
      if v < |d.table| && d.table[v].Partial? {
        forall j: nat, n | StopsInside(d.table[v].node, s[d.lookup..], j, n)
          ensures StopsInside(d, s, j + d.lookup, n) && s[j + d.lookup..] == s[d.lookup..][j..]
        {
          StopComesUp(d, s, j, n);
        }
      }
    }
  }

  predicate StopsBelow(d: Decoder, s: bits, j: nat, n: Decoder)
    requires d.lookup <= |s|
  {
    var k, v := d.lookup, Value(s[..d.lookup]);
    && k <= j <= |s| && v < |d.table| && d.table[v].Partial?
    && StopsInside(d.table[v].node, s[k..], j - k, n) && s[j..] == s[k..][j - k..]
  }

  lemma StopGoesDown(d: Decoder, s: bits, j: nat, n: Decoder)
    requires StopsInside(d, s, j, n)
    ensures if |s| < d.lookup then j == 0 && n == d else StopsBelow(d, s, j, n)
  {
    hide Value, LeadsTo;
    var k := d.lookup;
    LeadsHop(d, s[..j], n);
    if k <= j {
      SliceTwice(s, j, k);
    }
  }

  lemma LeadsHop(d: Decoder, p: bits, n: Decoder)
    requires LeadsTo(d, p, n)
    ensures var k := d.lookup;
            || (p == [] && n == d)
            || (k <= |p| && Value(p[..k]) < |d.table| && d.table[Value(p[..k])].Partial?
                && LeadsTo(d.table[Value(p[..k])].node, p[k..], n))
  {
  }

  lemma SliceTwice(s: bits, j: nat, k: nat)
    requires k <= j <= |s|
    ensures s[..j][..k] == s[..k] && s[..j][k..] == s[k..][..j - k] && s[j..] == s[k..][j - k..]
  {
  }

  lemma StopComesUp(d: Decoder, s: bits, j: nat, n: Decoder)
    requires d.lookup <= |s| && Value(s[..d.lookup]) < |d.table| && d.table[Value(s[..d.lookup])].Partial?
    requires StopsInside(d.table[Value(s[..d.lookup])].node, s[d.lookup..], j, n)
    ensures StopsInside(d, s, j + d.lookup, n) && s[j + d.lookup..] == s[d.lookup..][j..]
  {
    hide Value;
    var k := d.lookup;
    assert s[..j + k][..k] == s[..k] && s[..j + k][k..] == s[k..][..j];
  }

  // ---- Bit counts of 32 bits ----

  /** Walking the last bits `s` of `total` adds up no bit count beyond 32 bits: where
      they lead exactly to a node, its read is one past the end of the payload. */
  ghost predicate Countable(d: Decoder, s: bits, total: nat) {
    forall n :: LeadsTo(d, s, n) ==> total + n.lookup < 0x1_0000_0000
  }

  lemma HopCountable(d: Decoder, s: bits, total: nat)
    requires d.Shaped() && |s| <= total <= 0xffff_fff8 && Countable(d, s, total)
    ensures total - |s| + d.lookup < 0x1_0000_0000
    ensures d.lookup <= |s| && Value(s[..d.lookup]) < |d.table| && d.table[Value(s[..d.lookup])].Partial? ==>
              Countable(d.table[Value(s[..d.lookup])].node, s[d.lookup..], total)
  {
    hide Value;
    if s == [] {
      assert LeadsTo(d, s, d);
    }
    var k := d.lookup;
    if k <= |s| {
      var v := Value(s[..k]);
      if v < |d.table| && d.table[v].Partial? {
        forall n | LeadsTo(d.table[v].node, s[k..], n) ensures total + n.lookup < 0x1_0000_0000 {
          assert LeadsTo(d, s, n);
        }
      }
    }
  }
}
