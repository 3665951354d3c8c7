/**
  Well-formed UTF-8 (Table 3-7 of the Unicode Standard), the check made on every
  header string that is not taken from the static table.
 */
module Utf8 {
  import opened Words

  predicate Trail(b: byte) {
    0x80 <= b <= 0xBF
  }

  predicate Valid(s: seq<byte>)
    decreases |s|
  {
    || s == []
    || (s[0] < 0x80 && Valid(s[1..]))
    || (|s| >= 2 && 0xC2 <= s[0] <= 0xDF && Trail(s[1]) && Valid(s[2..]))
    || (|s| >= 3 && Valid3(s[0], s[1]) && Trail(s[2]) && Valid(s[3..]))
    || (|s| >= 4 && Valid4(s[0], s[1]) && Trail(s[2]) && Trail(s[3]) && Valid(s[4..]))
  }

  predicate Valid3(first: byte, second: byte) {
    || (first == 0xE0 && 0xA0 <= second <= 0xBF)
    || (first == 0xED && 0x80 <= second <= 0x9F)
    || (0xE1 <= first <= 0xEF && first != 0xED && Trail(second))
  }

  predicate Valid4(first: byte, second: byte) {
    || (first == 0xF0 && 0x90 <= second <= 0xBF)
    || (first == 0xF4 && 0x80 <= second <= 0x8F)
    || (0xF1 <= first <= 0xF3 && Trail(second))
  }

  /** `std::str::from_utf8`. */
  function FromUtf8(s: seq<byte>): Option<seq<byte>> {
    if Valid(s) then Some(s) else None
  }

  // ---- What is valid ----

  /** A Unicode scalar value: a code point that is no surrogate. */
  predicate Scalar(c: nat) {
    c < 0xD800 || 0xE000 <= c < 0x11_0000
  }

  /** Its encoding (section 3 of RFC 3629): one to four bytes, the least that hold it,
      six bits in each but the first. */
  function EncodeScalar(c: nat): (s: seq<byte>)
    requires Scalar(c)
    ensures 1 <= |s| <= 4
  {
    var q := c / 0x40;
    if c < 0x80 then [c]
    else if c < 0x800 then [0xC0 + q, 0x80 + c % 0x40]
    else
      var h := q / 0x40;
      if c < 0x1_0000 then [0xE0 + h, 0x80 + q % 0x40, 0x80 + c % 0x40]
      else [0xF0 + h / 0x40, 0x80 + h % 0x40, 0x80 + q % 0x40, 0x80 + c % 0x40]
  }

  predicate AllScalars(cs: seq<nat>) {
    forall i :: 0 <= i < |cs| ==> Scalar(cs[i])
  }

  function EncodeText(cs: seq<nat>): seq<byte>
    requires AllScalars(cs)
  {
    if cs == [] then [] else EncodeScalar(cs[0]) + EncodeText(cs[1..])
  }

  lemma ValidStep(c: nat, rest: seq<byte>)
    requires Scalar(c)
    ensures Valid(EncodeScalar(c) + rest) <==> Valid(rest)
  {
    hide EncodeScalar;
    var e := EncodeScalar(c);
    EncodeForm(c);
    assert (e + rest)[|e|..] == rest;
    assert forall i :: 0 <= i < |e| ==> (e + rest)[i] == e[i];
  }

  /** One of the four forms that are valid. */
  predicate Form(e: seq<byte>) {
    match |e|
    case 1 => e[0] < 0x80
    case 2 => 0xC2 <= e[0] <= 0xDF && Trail(e[1])
    case 3 => Valid3(e[0], e[1]) && Trail(e[2])
    case 4 => Valid4(e[0], e[1]) && Trail(e[2]) && Trail(e[3])
    case _ => false
  }

  lemma EncodeForm(c: nat)
    requires Scalar(c)
    ensures Form(EncodeScalar(c))
  {
    var q, r := c / 0x40, c % 0x40;
    assert c == 0x40 * q + r;
    var h := q / 0x40;
    assert q == 0x40 * h + q % 0x40;
    assert h == 0x40 * (h / 0x40) + h % 0x40;
  }

  lemma Digit(q: nat, r: nat)
    requires r < 0x40
    ensures (0x40 * q + r) / 0x40 == q && (0x40 * q + r) % 0x40 == r
  {
  }

  /** The scalar value of a form. */
  lemma DecodeForm(e: seq<byte>) returns (c: nat)
    requires Form(e)
    ensures Scalar(c) && EncodeScalar(c) == e
  {
    match |e| {
      case 1 => c := e[0];
      case 2 => c := DecodeTwo(e);
      case 3 => c := DecodeThree(e);
      case _ => c := DecodeFour(e);
    }
  }

  lemma DecodeTwo(e: seq<byte>) returns (c: nat)
    requires Form(e) && |e| == 2
    ensures Scalar(c) && EncodeScalar(c) == e
  {
    var q: nat, r: nat := e[0] - 0xC0, e[1] - 0x80;
    Digit(q, r);
    c := 0x40 * q + r;
  }

  lemma DecodeThree(e: seq<byte>) returns (c: nat)
    requires Form(e) && |e| == 3
    ensures Scalar(c) && EncodeScalar(c) == e
  {
    var h: nat, m: nat, r: nat := e[0] - 0xE0, e[1] - 0x80, e[2] - 0x80;
    var q := 0x40 * h + m;
    Digit(h, m);
    Digit(q, r);
    c := 0x40 * q + r;
  }

  lemma DecodeFour(e: seq<byte>) returns (c: nat)
    requires Form(e) && |e| == 4
    ensures Scalar(c) && EncodeScalar(c) == e
  {
    var t: nat, n: nat, m: nat, r: nat := e[0] - 0xF0, e[1] - 0x80, e[2] - 0x80, e[3] - 0x80;
    var h := 0x40 * t + n;
    var q := 0x40 * h + m;
    Digit(t, n);
    Digit(h, m);
    Digit(q, r);
    c := 0x40 * q + r;
  }

  /** The first scalar value of a valid string. */
  lemma FirstScalar(s: seq<byte>) returns (c: nat)
    requires s != [] && Valid(s)
    ensures Scalar(c) && |EncodeScalar(c)| <= |s| && s[..|EncodeScalar(c)|] == EncodeScalar(c)
  {
    hide EncodeScalar, Scalar;
    var n := if s[0] < 0x80 then 1 else if s[0] < 0xE0 then 2 else if s[0] < 0xF0 then 3 else 4;
    c := DecodeForm(s[..n]);
  }

  lemma {:induction false} EncodedIsValid(cs: seq<nat>)
    requires AllScalars(cs)
    ensures Valid(EncodeText(cs))
  {
    hide EncodeScalar, Scalar;
    if cs != [] {
      EncodedIsValid(cs[1..]);
      ValidStep(cs[0], EncodeText(cs[1..]));
    }
  }

  lemma {:induction false} ValidIsEncoded(s: seq<byte>) returns (cs: seq<nat>)
    requires Valid(s)
    ensures AllScalars(cs) && s == EncodeText(cs)
    decreases |s|
  {
    hide EncodeScalar, Scalar, Valid;
    if s == [] {
      cs := [];
    } else {
      var c := FirstScalar(s);
      var n := |EncodeScalar(c)|;
      assert s == EncodeScalar(c) + s[n..];
      ValidStep(c, s[n..]);
      var rest := ValidIsEncoded(s[n..]);
      cs := [c] + rest;
      assert cs[1..] == rest;
    }
  }

  /** Valid are exactly the encodings of sequences of scalar values. */
  lemma ValidExact(s: seq<byte>)
    ensures Valid(s) <==> exists cs: seq<nat> :: AllScalars(cs) && s == EncodeText(cs)
  {
    hide Valid, EncodeText, Scalar;
    if Valid(s) {
      var cs := ValidIsEncoded(s);
    }
    if cs: seq<nat> :| AllScalars(cs) && s == EncodeText(cs) {
      EncodedIsValid(cs);
    }
  }

  lemma {:induction false} AsciiValid(s: seq<byte>)
    requires forall i :: 0 <= i < |s| ==> s[i] < 0x80
    ensures Valid(s)
    decreases |s|
  {
    if s != [] {
      AsciiValid(s[1..]);
    }
  }
}
