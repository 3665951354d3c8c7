/**
  The HPACK string decoder: the iterator over a payload, and what the decoder
  yields for the tree of the repository.
 */
module Hpack {
  import opened Words
  import opened Bits
  import opened Huffman
  import opened PrefixCode
  import opened HuffmanTable

  class DecodeIter {
    var bitPos: BitWindow
    const content: seq<byte>

    ghost predicate Valid()
      reads this, bitPos
    {
      && Decodable(content)
      && bitPos.Next() <= 8 * |content|
      && Residue(HPACK_STRING, BitsOf(content)[bitPos.Next()..]) == Tail(content)
    }

    /** The bits not yet decoded. */
    ghost function Rest(): bits
      requires Valid()
      reads this, bitPos
    {
      BitsOf(content)[bitPos.Next()..]
    }

    constructor (content: seq<byte>)
      requires Decodable(content)
      ensures this.content == content && fresh(bitPos)
      ensures Valid() && Rest() == BitsOf(content)
    {
      this.content := content;
      bitPos := new BitWindow();
    }

    /** One walk of the code tree over the rest of the payload. */
    method Next() returns (item: Option<Result<byte, Error>>)
      requires Valid()
      modifies bitPos
      ensures IsSymbol(item) ==> Valid()
      ensures WalkGives(old(Rest()), item, if IsSymbol(item) then Rest() else [], 8 * |content|)
    {
      hide Walk, BitsOf, Countable;
      ghost var s := Rest();
      TableShaped();
      ResidueCountable(HPACK_STRING, s, 8 * |content|);
      if Walk(HPACK_STRING, [], s).Symbol? {
        WalkConsumes(HPACK_STRING, [], s);
      }
      var r := HPACK_STRING.DecodeNext(bitPos, content);
      match r {
        case Ok(Some(x)) => item := Some(Ok(x));
        case Err(e) => item := Some(Err(e));
        case Ok(None) => item := None;
      }
    }
  }

  predicate IsSymbol(item: Option<Result<byte, Error>>) {
    item.Some? && item.value.Ok?
  }

  /** The item taken with the bits `s` to come, of `total` in all, is what walking
      the tree bit by bit over them meets first; a symbol leaves the bits `after`. */
  ghost predicate WalkGives(s: bits, item: Option<Result<byte, Error>>, after: bits, total: nat) {
    match Walk(HPACK_STRING, [], s)
    case Symbol(x, rest) => item == Some(Ok(x)) && after == rest
    case End => item == None
    case o => o.Fits(total) && item == Some(Err(ErrorOf(o, total)))
  }

  lemma TableShaped()
    ensures HPACK_STRING.Shaped()
  {
    ConformsRoot();
    ConformsShaped(HPACK_STRING, 0, 0);
  }

  lemma {:induction false} ConformsShaped(d: Decoder, value: nat, length: nat)
    requires Conforms(d, value, length)
    ensures d.Shaped()
    decreases d
  {
    hide AppendixB, Pow2;
    forall i | 0 <= i < |d.table| && d.table[i].Partial? ensures d.table[i].node.Shaped() {
      ConformsShaped(d.table[i].node, value * Pow2(d.lookup) + i, length + d.lookup);
    }
  }

  // ---- The meaning of a payload ----

  function DecodeBits(s: bits): (r: Run)
    ensures !r.last.Symbol?
  {
    Drain(HPACK_STRING, s)
  }

  /** The string a payload spells, and how it ends. */
  function Decode(payload: seq<byte>): (r: Run)
    ensures !r.last.Symbol?
  {
    DecodeBits(BitsOf(payload))
  }

  lemma DecodeFromStart(payload: seq<byte>)
    ensures Decode(payload).out == [] + DecodeBits(BitsOf(payload)).out
    ensures Decode(payload).last == DecodeBits(BitsOf(payload)).last
  {
  }

  /** What an item taken from the iterator says about all that is to come. */
  ghost predicate Steps(item: Option<Result<byte, Error>>, before: bits, after: bits, total: nat) {
    var run := DecodeBits(before);
    match item
    case None => run == Run([], End)
    case Some(Ok(x)) =>
      |after| < |before| && run == Run([x] + DecodeBits(after).out, DecodeBits(after).last)
    case Some(Err(e)) =>
      run.out == [] && (run.last.Missing? || run.last.Overrun?) && run.last.Fits(total) && e == ErrorOf(run.last, total)
  }

  lemma StepsOfWalk(s: bits, item: Option<Result<byte, Error>>, after: bits, total: nat)
    requires WalkGives(s, item, after, total)
    ensures Steps(item, s, after, total)
    ensures IsSymbol(item) ==>
              && item.Some? && item.value.Ok? && |after| < |s|
              && DecodeBits(s).out == [item.value.value] + DecodeBits(after).out
              && DecodeBits(s).last == DecodeBits(after).last
    ensures !IsSymbol(item) ==> item == None || (item.Some? && item.value.Err?)
  {
    hide ErrorOf, AllOnes, Walk;
  }

  /** The padded encoding of section 5.2 of RFC 7541. */
  function EncodeString(s: seq<byte>): seq<byte> {
    Encode(CodeBits, s)
  }

  /** The bits behind the last decoded symbol. */
  function Tail(payload: seq<byte>): bits {
    Residue(HPACK_STRING, BitsOf(payload))
  }

  /** The decoder counts the bits of the payload, and of a read past its end, in 32
      bits: it aborts on any other. */
  ghost predicate Decodable(payload: seq<byte>) {
    |payload| < PAYLOAD_LIMIT && Countable(HPACK_STRING, Tail(payload), 8 * |payload|)
  }

  /** Every payload below the limit is decodable, but for those of the greatest length
      that end with the thirty ones of EOS. */
  lemma DecodableIff(payload: seq<byte>)
    ensures Decodable(payload) <==>
            |payload| < PAYLOAD_LIMIT && !(|payload| == PAYLOAD_LIMIT - 1 && Tail(payload) == Ones(30))
  {
    hide LeadsTo, Tail;
    WideNodeExact(Tail(payload));
  }

  lemma {:induction false} LastFits(payload: seq<byte>)
    ensures |Tail(payload)| <= 8 * |payload|
    ensures var o := Decode(payload).last;
            o == End || ((o.Missing? || o.Overrun?) && o.Fits(8 * |payload|))
  {
    hide BitsOf, Drain;
    EveryByteOneLeaf();
    DrainSound(HPACK_STRING, CodeBits, BitsOf(payload));
    assert |Tail(payload)| <= 8 * |payload|;
  }

  /** Every string survives encoding and decoding. */
  lemma DecodeOfEncode(s: seq<byte>)
    ensures Decode(EncodeString(s)) == Run(s, End)
  {
    EveryByteOneLeaf();
    PaddingEnds();
    RoundTrip(HPACK_STRING, CodeBits, s);
  }

  /** A payload decodes to `out` and ends with `last` exactly when it is the code
      words of `out` followed by bits on which the tree yields `last` at once. */
  lemma DecodeExact(payload: seq<byte>, out: seq<byte>, last: Outcome)
    requires !last.Symbol?
    ensures Decode(payload) == Run(out, last) <==>
            exists tail: bits ::
              BitsOf(payload) == Codes(CodeBits, out) + tail && Walk(HPACK_STRING, [], tail) == last
  {
    hide Walk, Drain, BitsOf, Codes, LeafMap;
    EveryByteOneLeaf();
    DrainExact(HPACK_STRING, CodeBits, BitsOf(payload), out, last);
  }

  /** A payload is a proper encoding exactly when fewer than eight bits, all ones,
      stand behind its last symbol; it then decodes to the string it encodes. */
  lemma ProperPaddingIff(payload: seq<byte>)
    ensures (exists s: seq<byte> :: payload == EncodeString(s)) <==>
            |Tail(payload)| < 8 && AllOnes(Tail(payload))
    ensures (exists s: seq<byte> :: payload == EncodeString(s)) ==>
              Decode(payload).last == End && payload == EncodeString(Decode(payload).out)
  {
    hide AllOnes, LeafMap, PaddingSafe, BitsOf, Encode, Residue, Drain;
    EveryByteOneLeaf();
    PaddingEnds();
    if s: seq<byte> :| payload == EncodeString(s) {
      EncodingResidue(HPACK_STRING, CodeBits, s);
      DecodeOfEncode(s);
    }
    if |Tail(payload)| < 8 && AllOnes(Tail(payload)) {
      ResidueEncodes(HPACK_STRING, CodeBits, payload);
      assert payload == EncodeString(Decode(payload).out);
    }
  }

  /** The payloads that can be decoded include every encoding below the limit. */
  lemma EncodingDecodable(s: seq<byte>)
    requires |EncodeString(s)| < PAYLOAD_LIMIT
    ensures Decodable(EncodeString(s))
  {
    hide Tail, Decodable, EncodeString, AllOnes;
    ProperPaddingIff(EncodeString(s));
    DecodableIff(EncodeString(s));
  }

  /** Decoding ends cleanly exactly when the bits behind the last symbol run out inside
      a node of the tree, of whose bits there are none or only ones. */
  lemma CleanEndIff(payload: seq<byte>)
    ensures Decode(payload).last == End <==> StopsClean(Tail(payload))
  {
    hide Walk, Drain, Residue, BitsOf, AllOnes, LeafMap, StopsInside;
    EveryByteOneLeaf();
    DrainSound(HPACK_STRING, CodeBits, BitsOf(payload));
    EndExact(HPACK_STRING, Tail(payload));
  }

  ghost predicate StopsClean(tail: bits) {
    exists j: nat, n :: StopsInside(HPACK_STRING, tail, j, n) && AllOnes(tail[j..])
  }

  /** It misses bits exactly when others are among them, and reports these. */
  lemma MissingIff(payload: seq<byte>, missing: bits, count: u32)
    ensures Decode(payload).last == Missing(missing, count) <==>
            !AllOnes(missing) && exists j: nat, n ::
              StopsInside(HPACK_STRING, Tail(payload), j, n) && Tail(payload)[j..] == missing && n.lookup == count
  {
    hide Walk, Drain, Residue, BitsOf, AllOnes, LeafMap, StopsInside;
    EveryByteOneLeaf();
    DrainSound(HPACK_STRING, CodeBits, BitsOf(payload));
    MissingExact(HPACK_STRING, Tail(payload), missing, count);
  }

  /** What is decoded cleanly, said of the bits of the payload alone: they are the code
      words of the string, a way down the tree, and fewer ones than the next hop takes. */
  lemma CleanDecodeIff(payload: seq<byte>, out: seq<byte>)
    ensures Decode(payload) == Run(out, End) <==>
            exists tail: bits :: BitsOf(payload) == Codes(CodeBits, out) + tail && StopsClean(tail)
  {
    hide Walk, Drain, BitsOf, AllOnes, LeafMap, StopsInside, Codes;
    DecodeExact(payload, out, End);
    forall tail: bits ensures Walk(HPACK_STRING, [], tail) == End <==> StopsClean(tail) {
      EndExact(HPACK_STRING, tail);
    }
  }

  /** Section 5.2 of RFC 7541 wants every payload refused that encodes no string.  The
      decoder accepts one exactly when its tail stops cleanly inside the tree and yet
      is not padding, being eight bits long or more or having a zero. */
  lemma ImproperAcceptedIff(payload: seq<byte>)
    ensures Decode(payload).last == End && (forall s: seq<byte> :: payload != EncodeString(s)) <==>
            StopsClean(Tail(payload)) && (|Tail(payload)| >= 8 || !AllOnes(Tail(payload)))
  {
    hide StopsClean, EncodeString, Tail, Decode;
    CleanEndIff(payload);
    ProperPaddingIff(payload);
  }

  /** One of them is the single byte 0xFE, seven ones and a zero: it decodes to the
      empty string although it encodes none. */
  lemma AcceptsImproperPadding()
    ensures Decode([0xFE]) == Run([], End)
    ensures forall s: seq<byte> :: EncodeString(s) != [0xFE]
  {
    hide EncodeString, Encode;
    var t := [true, true, true, true, true, true, true, false];
    ByteFE(t);
    WalkFE(t);
    ProperPaddingIff([0xFE]);
    assert !t[7];
  }

  lemma ByteFE(t: bits)
    requires t == [true, true, true, true, true, true, true, false]
    ensures BitsOf([0xFE]) == t
  {
    hide Value, Pow2, ToBits;
    Pow2Small();
    assert t == Ones(7) + [false];
    AllOnesValue(Ones(7));
    ValueConcat(Ones(7), [false]);
    ValueOfZero();
    ValueInjective(ByteBits(0xFE), t);
    assert [0xFE as byte][1..] == [] && BitsOf([]) == [];
    assert ByteBits(0xFE) + [] == t;
  }

  lemma ValueOfZero()
    ensures Value([false]) == 0
  {
    assert [false][..0] == [];
  }

  lemma WalkFE(t: bits)
    requires t == [true, true, true, true, true, true, true, false]
    ensures Walk(HPACK_STRING, [], t) == End
  {
    hide Walk;
    Pow2Small();
    assert t == Ones(7) + [false];
    OnesThen(HPACK_STRING, 7, [false]);
    OnesThen(END0_11111, 2, [false]);
    assert Ones(0) + [false] == [false];
    WalkHop(END5_11, [false]);
    assert [false][..1] == [false] && [false][1..] == [];
    WalkHop(END7_0, []);
  }

  /** The decoder reports an unhandled value exactly when, behind the last symbol,
      stand the thirty ones of EOS and at least eight bits more; these are the value. */
  lemma UnhandledIff(payload: seq<byte>)
    ensures Decode(payload).last.Overrun? <==> |Tail(payload)| >= 38 && AllOnes(Tail(payload)[..30])
    ensures |Tail(payload)| >= 38 && AllOnes(Tail(payload)[..30]) ==>
              Decode(payload).last == Overrun(8, Value(Tail(payload)[30..38]), Tail(payload)[38..])
  {
    hide Walk, Drain, Residue, BitsOf, AllOnes, LeafMap;
    EveryByteOneLeaf();
    DrainSound(HPACK_STRING, CodeBits, BitsOf(payload));
    OverrunExact(Tail(payload));
  }

  /** A payload of n bytes spells at most 8n/5 symbols. */
  lemma DecodeExpansion(payload: seq<byte>)
    ensures 5 * |Decode(payload).out| <= 8 * |payload|
  {
    Expansion(HPACK_STRING, BitsOf(payload));
  }

  /** Every code word has at least five bits, and none is a run of fewer than eight ones. */
  lemma CodeWordsApart(b: byte)
    ensures |CodeBits(b)| >= 5
    ensures |CodeBits(b)| < 8 ==> !AllOnes(CodeBits(b))
  {
    hide AppendixB, CodeBits;
    EveryByteOneLeaf();
    PaddingEnds();
    var p := CodeBits(b);
    assert IsPath(HPACK_STRING, p, b);
    if |p| < 8 && AllOnes(p) {
      AllOnesIsOnes(p);
    }
  }
}
