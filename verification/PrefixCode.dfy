/**
  What draining a Huffman payload means, for any code tree whose leaves are the
  byte values, each on exactly one path.  The repository has no encoder: a string
  is encoded by concatenating the paths of its bytes and padding the last byte
  with ones, as in section 5.2 of RFC 7541.
 */
module PrefixCode {
  import opened Words
  import opened Bits
  import opened Huffman

  /** The path `p` leads from the root exactly to a leaf holding `b`. */
  predicate IsPath(d: Decoder, p: bits, b: byte) {
    Walk(d, [], p) == Symbol(b, [])
  }

  /** Every byte value has exactly one leaf, and `code` gives its path. */
  ghost predicate LeafMap(d: Decoder, code: byte -> bits) {
    forall b: byte, p: bits :: IsPath(d, p, b) <==> p == code(b)
  }

  /** Fewer than eight ones lead to no symbol, so padding cannot be mistaken for one. */
  ghost predicate PaddingSafe(d: Decoder) {
    forall k: nat :: k < 8 ==> Walk(d, [], Ones(k)) == End
  }

  // ---- Draining a payload ----

  /** The symbols decoded before the first step that yields none, and that step. */
  datatype Run = Run(out: seq<byte>, last: Outcome)

  function Drain(d: Decoder, s: bits): (r: Run)
    requires d.lookup > 0
    ensures !r.last.Symbol?
    decreases |s|
  {
    match Walk(d, [], s)
    case Symbol(x, rest) => var r := Drain(d, rest); Run([x] + r.out, r.last)
    case o => Run([], o)
  }

  /** The bits left when the last symbol has been taken. */
  function Residue(d: Decoder, s: bits): (r: bits)
    requires d.lookup > 0
    decreases |s|
  {
    match Walk(d, [], s)
    case Symbol(x, rest) => Residue(d, rest)
    case _ => s
  }

  /** Only what stands behind the last symbol can overflow a bit count. */
  lemma {:induction false} ResidueCountable(d: Decoder, s: bits, total: nat)
    requires d.lookup > 0 && total < 0x1_0000_0000 && Countable(d, Residue(d, s), total)
    ensures Countable(d, s, total)
  {
    hide Walk;
    forall n | LeadsTo(d, s, n) ensures total + n.lookup < 0x1_0000_0000 {
      if n.lookup > 0 {
        assert s[..|s|] == s && s[|s|..] == [];
        assert StopsInside(d, s, |s|, n);
        EndExact(d, s);
      }
    }
  }

  function Codes(code: byte -> bits, out: seq<byte>): bits {
    if out == [] then [] else code(out[0]) + Codes(code, out[1..])
  }

  function Encode(code: byte -> bits, s: seq<byte>): (p: seq<byte>)
    ensures BitsOf(p) == Codes(code, s) + Ones((8 - |Codes(code, s)| % 8) % 8)
  {
    var c := Codes(code, s);
    Pack(c + Ones((8 - |c| % 8) % 8))
  }

  // ---- Walking a concatenation ----

  lemma {:induction false} WalkExtends(d: Decoder, acc: bits, s: bits, more: bits)
    requires |acc| <= d.lookup && Walk(d, acc, s).Symbol?
    ensures var o := Walk(d, acc, s); Walk(d, acc, s + more) == Symbol(o.sym, o.rest + more)
    decreases d, |s|
  {
    if |acc| == d.lookup {
      if d.table[Value(acc)].Partial? {
        WalkExtends(d.table[Value(acc)].node, [], s, more);
      }
    } else {
      assert (s + more)[0] == s[0] && (s + more)[1..] == s[1..] + more;
      WalkExtends(d, acc + [s[0]], s[1..], more);
    }
  }

  lemma {:induction false} WalkConsumes(d: Decoder, acc: bits, s: bits)
    requires |acc| <= d.lookup && Walk(d, acc, s).Symbol?
    ensures var o := Walk(d, acc, s);
            var n := |s| - |o.rest|;
            && 0 <= n
            && o.rest == s[n..]
            && Walk(d, acc, s[..n]) == Symbol(o.sym, [])
    decreases d, |s|
  {
    var o := Walk(d, acc, s);
    if |acc| == d.lookup {
      if d.table[Value(acc)].Partial? {
        WalkConsumes(d.table[Value(acc)].node, [], s);
      }
    } else {
      WalkConsumes(d, acc + [s[0]], s[1..]);
      var n := |s| - |o.rest|;
      assert s[..n][0] == s[0] && s[..n][1..] == s[1..][..n - 1];
    }
  }

  /** A symbol is read off the front of a bit string exactly when its code stands there. */
  lemma SymbolIsCode(d: Decoder, code: byte -> bits, s: bits, b: byte, rest: bits)
    requires LeafMap(d, code)
    ensures Walk(d, [], s) == Symbol(b, rest) <==> s == code(b) + rest
  {
    if Walk(d, [], s) == Symbol(b, rest) {
      WalkConsumes(d, [], s);
      var n := |s| - |rest|;
      assert IsPath(d, s[..n], b);
      assert s == s[..n] + s[n..];
    }
    if s == code(b) + rest {
      assert IsPath(d, code(b), b);
      WalkExtends(d, [], code(b), rest);
      assert [] + rest == rest;
    }
  }

  // ---- Draining is the inverse of encoding ----

  /** Every payload is the codes of the symbols drained from it followed by the residue. */
  lemma {:induction false} DrainSound(d: Decoder, code: byte -> bits, s: bits)
    requires d.lookup > 0 && LeafMap(d, code)
    ensures s == Codes(code, Drain(d, s).out) + Residue(d, s)
    ensures Walk(d, [], Residue(d, s)) == Drain(d, s).last
    decreases |s|
  {
    match Walk(d, [], s)
    case Symbol(x, rest) =>
      SymbolIsCode(d, code, s, x, rest);
      DrainSound(d, code, rest);
      var out := Drain(d, rest).out;
      assert ([x] + out)[1..] == out;
      assert s == code(x) + (Codes(code, out) + Residue(d, rest));
    case _ =>
  }

  /** Codes in front of any bits are drained first. */
  lemma {:induction false} DrainCodes(d: Decoder, code: byte -> bits, out: seq<byte>, tail: bits)
    requires d.lookup > 0 && LeafMap(d, code)
    ensures var r := Drain(d, tail);
            Drain(d, Codes(code, out) + tail) == Run(out + r.out, r.last)
    ensures Residue(d, Codes(code, out) + tail) == Residue(d, tail)
  {
    if out == [] {
      assert Codes(code, out) + tail == tail;
      assert out + Drain(d, tail).out == Drain(d, tail).out;
    } else {
      var rest := Codes(code, out[1..]) + tail;
      assert Codes(code, out) + tail == code(out[0]) + rest;
      SymbolIsCode(d, code, Codes(code, out) + tail, out[0], rest);
      DrainCodes(d, code, out[1..], tail);
      assert [out[0]] + (out[1..] + Drain(d, tail).out) == out + Drain(d, tail).out;
    }
  }

  /** A payload drains to `out` and then `last` exactly when it is the codes of
      `out` followed by bits on which a single walk yields `last`. */
  lemma DrainExact(d: Decoder, code: byte -> bits, s: bits, out: seq<byte>, last: Outcome)
    requires d.lookup > 0 && LeafMap(d, code) && !last.Symbol?
    ensures Drain(d, s) == Run(out, last) <==>
            exists tail: bits :: s == Codes(code, out) + tail && Walk(d, [], tail) == last
  {
    DrainSound(d, code, s);
    if tail: bits :| s == Codes(code, out) + tail && Walk(d, [], tail) == last {
      DrainCodes(d, code, out, tail);
      assert out + [] == out;
    }
  }

  /** Round trip: the encoding of a string drains to that string and ends cleanly. */
  lemma RoundTrip(d: Decoder, code: byte -> bits, s: seq<byte>)
    requires d.lookup > 0 && LeafMap(d, code) && PaddingSafe(d)
    ensures Drain(d, BitsOf(Encode(code, s))) == Run(s, End)
  {
    var k := (8 - |Codes(code, s)| % 8) % 8;
    assert Walk(d, [], Ones(k)) == End;
    DrainCodes(d, code, s, Ones(k));
    assert s + [] == s;
  }

  /** Only padding stands behind the last symbol of an encoding. */
  lemma EncodingResidue(d: Decoder, code: byte -> bits, s: seq<byte>)
    requires d.lookup > 0 && LeafMap(d, code) && PaddingSafe(d)
    ensures var t := Residue(d, BitsOf(Encode(code, s))); |t| < 8 && AllOnes(t)
  {
    var k := (8 - |Codes(code, s)| % 8) % 8;
    assert Walk(d, [], Ones(k)) == End;
    DrainCodes(d, code, s, Ones(k));
  }

  /** And only encodings have nothing but padding there. */
  lemma ResidueEncodes(d: Decoder, code: byte -> bits, p: seq<byte>)
    requires d.lookup > 0 && LeafMap(d, code)
    requires var t := Residue(d, BitsOf(p)); |t| < 8 && AllOnes(t)
    ensures p == Encode(code, Drain(d, BitsOf(p)).out)
  {
    hide Drain, Residue, Encode, Codes, BitsOf;
    var t, s := Residue(d, BitsOf(p)), Drain(d, BitsOf(p)).out;
    DrainSound(d, code, BitsOf(p));
    var k := (8 - |Codes(code, s)| % 8) % 8;
    assert |t| == k;
    assert t == Ones(k);
    BitsOfInjective(p, Encode(code, s));
  }

  /** Each symbol costs at least the bits of the root's hop. */
  lemma {:induction false} Expansion(d: Decoder, s: bits)
    requires d.lookup > 0
    ensures d.lookup * |Drain(d, s).out| + |Residue(d, s)| <= |s|
    decreases |s|
  {
    match Walk(d, [], s)
    case Symbol(x, rest) =>
      Expansion(d, rest);
      var n := |Drain(d, rest).out|;
      assert d.lookup * (n + 1) == d.lookup * n + d.lookup;
    case _ =>
  }
}
