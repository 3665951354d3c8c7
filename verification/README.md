# WebTransport over HTTP/3: a verified model

wt-rs runs WebTransport sessions over a QUIC connection. This project models the parts of it that
read and write bytes, and the part that hands incoming streams to the tasks waiting for them, and
proves what they promise.

Three layers stack on each other.

* **Header compression.** A Huffman decoder walks a tree of lookup nodes, reading one to eight bits a
  hop through a window that moves over a byte array. It is proved to do, on every payload, what walking
  the tree one bit at a time does; the tree of the source is proved to be the code of Appendix B of
  RFC 7541; and encoding followed by decoding is proved to be the identity. Above it stand prefix
  integers on 64-bit words, strings, the three field-line forms, the static table with its two searches,
  and the header map, iterated in any order.
* **Framing.** Variable-length integers with two readers, frames with grease between them, the settings
  map, and the CONNECT request and its reply. Every parser is a function from bytes to a value and the
  bytes it leaves, so that lists follow by induction.
* **Accepting streams.** Arrivals, bytes and polls by any number of tasks form a transition system. Each
  poll method of the acceptor is proved to be a sequence of its steps. Conservation and single delivery are
  proved for all runs of steps, and progress for all runs of polls on a live connection, whatever the
  network does between them: arrivals, bytes and stream ends.

Layout: `Words`, `Bits`, `Buffers` and `Utf8` hold what all components share. `Huffman` is the decoder,
`PrefixCode` the meaning of a payload for any code tree, `HuffmanTable` the concrete tree and Appendix B,
`Hpack` the iterator and the theorems about it. `PrefixInt`, `StaticTable`, `Lines` and `Qpack` are the
header layer; `Coding`, `Frames`, `Settings` and `Connect` the framing; `Streams`, `Lanes`, `Polls` and
`Accept` the acceptor. `dafny verify dfyconfig.toml` checks everything.

## How the source is represented

* Words are subset types of the integers, so every assignment to a `u32` field proves that the arithmetic
  does not overflow. Shifts are multiplication and division by powers of two, cut to the word; masking with
  2^k - 1 is the remainder by 2^k; the union of disjoint bits is their sum. `Lines.MaskForms` proves
  that the quotients used for the dispatch on a first byte amount to the masks of the source.
* A receive stream is the bytes still to come before the peer finished it, and `read_exact` either takes
  what it was asked for or reports that the stream finished early. A buffer is the bytes still to be read.
  Chaining a peeked byte in front of the buffer puts it back; every line parser takes at least that byte.
* A string is its UTF-8 bytes. `Utf8.Valid` is the check that `from_utf8` makes. The characters of the
  static table are ASCII, one byte each.
* The iteration order of a hash map is a parameter: any list that names every key, each with its value.
* A set of suspended decoders (`FuturesUnordered`) gives some finished member whenever it has one; which
  one is open. The network does not act in the middle of a poll; in the transition system it may act
  between any two steps.
* The identity of the task that polls is a parameter, so that clones of a connection are just tasks.

## Where the code and the standards part

* Section 5.2 of RFC 7541 wants padding of at most seven bits, all ones. The decoder accepts every tail
  that leads some way down the tree and runs out inside the node it reaches, with no bits for that node or
  only ones (`Hpack.CleanEndIff`; `Hpack.CleanDecodeIff` says it of the bits of the payload alone).
  `Hpack.ProperPaddingIff` says which payloads are proper encodings, `Hpack.ImproperAcceptedIff` exactly
  which others are accepted, and `Hpack.AcceptsImproperPadding` shows the byte 0xFE.
* A prefix integer of 2^64 or more comes back as its low 64 bits, the arithmetic of a release build; a
  build with overflow checks panics instead. `PrefixInt.ParseIsMathValue` says the value is exact if and
  only if it fits.
* Decoding settings that end with an identifier and no value reads from an empty buffer and aborts.
  `SettingsMap.LoneIdentifierAborts` gives the shortest such payload, and `SettingsMap.PairsOutcome`
  says exactly when decoding succeeds, reports an error, or aborts.

## Model

| member | source | states |
|---|---|---|
| Huffman.BitWindow.Forwards | wt-proto/src/h3/huffman.rs:19-26 | moves the window to the first bit behind it; the bit offset ends below 8, and nothing overflows 32 bits |
| Huffman.ReadBits | wt-proto/src/h3/huffman.rs:120-138 | succeeds exactly on 1 to 8 bits that the payload holds, never indexes past it, and yields the big-endian value of that slice of its bits, across byte boundaries too |
| Huffman.EofExact | wt-proto/src/h3/huffman.rs:61-87 | after a failed read the window is at or after the last byte, and decoding ends cleanly exactly if the bits left are none or all ones, and otherwise reports the window as missing bits |
| Huffman.FetchValue | wt-proto/src/h3/huffman.rs:89-94 | the next field as a number if the payload holds it, else the end rule on what is left |
| Huffman.EndExact | wt-proto/src/h3/huffman.rs:61-115 | for any tree, a walk ends cleanly if and only if its bits lead to some node and run out inside it, with none or only ones for that node |
| Huffman.MissingExact | wt-proto/src/h3/huffman.rs:61-115 | it misses bits if and only if they run out with other bits for that node, and these are what it reports |
| Huffman.Decoder.DecodeNext | wt-proto/src/h3/huffman.rs:96-115 | for every payload of less than 2^29 bytes and every position, the windowed multi-bit descent gives the symbol, end or error, and the position, of a walk over the remaining bits one at a time |
| Huffman.WalkFrom | wt-proto/src/h3/huffman.rs:96-115 | reading a node's bits one at a time is entering its table at their value, or the end rule if they run out |
| Hpack.DecodeIter.Next | wt-proto/src/h3/huffman.rs:341-351 | each item is what the bit-by-bit walk from the current position meets, and a symbol leaves exactly the bits behind its code |
| HuffmanTable.ConformsRoot | wt-proto/src/h3/huffman.rs:215-334 | the tree of the source agrees with Appendix B of RFC 7541 leaf by leaf; each node reads at most five bits and has exactly 2^lookup entries, except the one at the code of EOS, which reads eight and has none |
| HuffmanTable.WideNodeExact | wt-proto/src/h3/huffman.rs:333 | bits lead to a node that reads more than five bits if and only if they are the thirty ones of EOS |
| HuffmanTable.CountRoot | wt-proto/src/h3/huffman.rs:215-334 | the tree has 256 leaves |
| HuffmanTable.LeavesDistinct | wt-proto/src/h3/huffman.rs:215-334 | no byte stands at two leaves of a tree that conforms to Appendix B |
| HuffmanTable.EveryByteOneLeaf | wt-proto/src/h3/huffman.rs:215-334 | for every byte and every bit string, the string leads to that byte if and only if it is the byte's code word |
| HuffmanTable.PaddingEnds | wt-proto/src/h3/huffman.rs:216-253 | up to seven ones from the root meet no symbol and end cleanly |
| HuffmanTable.OverrunExact | wt-proto/src/h3/huffman.rs:331-333 | a value beyond a table is met exactly after the thirty ones of EOS with eight more bits |
| PrefixCode.SymbolIsCode | wt-proto/src/h3/huffman.rs:96-115 | for any tree with one leaf a byte, a symbol is read off the front exactly when its code stands there |
| PrefixCode.DrainSound | wt-proto/src/h3/huffman.rs:341-351 | every payload is the codes of the symbols drained from it followed by the bits on which draining stopped |
| PrefixCode.DrainCodes | wt-proto/src/h3/huffman.rs:341-351 | codes in front of any bits are drained first, in order |
| Hpack.DecodeOfEncode | wt-proto/src/h3/huffman.rs:341-364 | round trip: for every byte string, its code words padded with ones to a whole byte decode to exactly that string and end without error |
| Hpack.DecodeExact | wt-proto/src/h3/huffman.rs:341-364 | a payload decodes to a string and an ending if and only if it is the string's code words followed by bits on which one walk gives that ending |
| Hpack.ProperPaddingIff | wt-proto/src/h3/huffman.rs:61-87 | a payload encodes some string if and only if fewer than eight bits, all ones, are left behind its last symbol; it then decodes cleanly to the string it encodes |
| Hpack.CleanEndIff | wt-proto/src/h3/huffman.rs:61-87 | decoding ends cleanly if and only if the bits behind the last symbol lead to some node and run out inside it, with none or only ones for that node |
| Hpack.CleanDecodeIff | wt-proto/src/h3/huffman.rs:61-115 | a payload decodes cleanly to a string if and only if its bits are the string's code words followed by such a tail |
| Hpack.ImproperAcceptedIff | wt-proto/src/h3/huffman.rs:61-87 | a payload that encodes no string is yet accepted if and only if its tail ends cleanly and has eight bits or more, or a zero |
| Hpack.MissingIff | wt-proto/src/h3/huffman.rs:61-87 | decoding reports missing bits if and only if the tail runs out inside a node with bits for it that are not all ones |
| Hpack.DecodableIff | wt-proto/src/h3/huffman.rs:120-123 | the bit counts fit 32 bits on every payload of less than 2^29 bytes, but for those of 2^29 - 1 bytes that end with EOS, on which the source panics |
| Hpack.EncodingDecodable | wt-proto/src/h3/huffman.rs:120-123 | no encoding of less than 2^29 bytes is among those |
| Hpack.AcceptsImproperPadding | wt-proto/src/h3/huffman.rs:68-83 | the byte 0xFE encodes no string and yet decodes cleanly to the empty one |
| Hpack.UnhandledIff | wt-proto/src/h3/huffman.rs:105-108 | decoding reports an unhandled value if and only if EOS and at least eight more bits stand behind the last symbol |
| Hpack.DecodeExpansion | wt-proto/src/h3/huffman.rs:96-115 | n bytes decode to at most 8n/5 symbols |
| Hpack.CodeWordsApart | wt-proto/src/h3/huffman.rs:215-334 | every code word has at least five bits and none is a run of fewer than eight ones |
| PrefixInt.DecodePrefix | wt-proto/src/h3/qpack.rs:244-285 | the loop with its shifting accumulator computes the one-step reading of the flags, the value and the rest, with the same errors |
| PrefixInt.EncodePrefix | wt-proto/src/h3/qpack.rs:287-311 | the loop appends exactly the printed form |
| PrefixInt.ParsePrintPrefix | wt-proto/src/h3/qpack.rs:244-311 | for prefix sizes 1 to 8, flags that fit above the prefix, every 64-bit value and every suffix, reading the printed form gives flags and value and leaves the suffix |
| PrefixInt.PrintWithinBounds | wt-proto/src/h3/qpack.rs:33-37 | at most ten continuation bytes are ever printed, so the reader's bound is never met |
| PrefixInt.ParseIsMathValue | wt-proto/src/h3/qpack.rs:264-284 | for every encoding of at most ten continuation bytes, minimal or not, the reader returns its number modulo 2^64, which is the number itself if and only if it is below 2^64 |
| PrefixInt.PrefixOutcome | wt-proto/src/h3/qpack.rs:244-285 | an integer is read if and only if a whole encoding stands in front; it is out of bounds if and only if a full first byte is followed by ten bytes that all announce another, and cut short in every other case |
| PrefixInt.PrintOfMathValue | wt-proto/src/h3/qpack.rs:287-311 | of all encodings of a number the printer writes the shortest: whatever has no idle last group is what is printed for its flags and number |
| StaticTable.FindExact | wt-proto/src/h3/qpack.rs:349-452 | a pair is found at index i if and only if entry i of the table is that pair |
| StaticTable.FindNameExact | wt-proto/src/h3/qpack.rs:454-510 | a name is found at index i if and only if i is the least entry with that name |
| StaticTable.GetOfFind | wt-proto/src/h3/qpack.rs:176-184 | what either search puts in place of a field, looking up the index puts back |
| Lines.FormRanges | wt-proto/src/h3/qpack.rs:70-98 | which first bytes announce which line; all others are refused as dynamic, and none is unknown |
| Lines.MaskForms | wt-proto/src/h3/qpack.rs:70-98 | the dispatch on a first byte, computed by quotients, is the one by the masks of the source |
| Lines.StringExpansion | wt-proto/src/h3/qpack.rs:313-334 | a string has at most 8/5 times as many bytes as were read for it |
| Lines.ParsePrintString | wt-proto/src/h3/qpack.rs:313-334 | a string sent raw or Huffman-coded, under any flags, is read back and exactly what follows is left |
| Lines.ParsePrintLine | wt-proto/src/h3/qpack.rs:109-164 | each of the three line forms, with either N bit and either string form, is read to its field, and the parser stops where the next line starts |
| Lines.SectionFold | wt-proto/src/h3/qpack.rs:54-107 | for every sequence of such lines behind any section prefix, decoding is the in-order insertion of their fields, the last of a name winning |
| Lines.LastLineWins | wt-proto/src/h3/qpack.rs:54-107 | a line added at the end replaces whatever any line before it said of its name |
| Lines.BadLineRefuses | wt-proto/src/h3/qpack.rs:54-107 | a line that cannot be read, behind any valid lines, refuses the section with its error |
| Lines.BadPrefixRefused | wt-proto/src/h3/qpack.rs:54-58 | so does either integer of the section prefix |
| Lines.UnknownIndexRefused | wt-proto/src/h3/qpack.rs:341-347 | an index of 99 or more, in an indexed line or a name reference with either N bit, is an unknown entry |
| Lines.UnknownRefused | wt-proto/src/h3/qpack.rs:54-141 | a section with such a line behind any valid lines is refused as an unknown entry, whatever follows |
| Lines.StringOutcome | wt-proto/src/h3/qpack.rs:313-334 | for every announced length under either Huffman flag: too few bytes are an unexpected end, and enough are the text they spell, its Huffman error, or no UTF-8 |
| Lines.HuffmanStringExact | wt-proto/src/h3/qpack.rs:326-331 | a Huffman payload is accepted as a string if and only if its bits are the code words of that string and a tail that stops cleanly |
| Lines.UnhandledReported | wt-proto/src/h3/huffman.rs:96-115 | the error is an unhandled value if and only if EOS and eight bits more stand behind the last symbol, and it gives their place and value |
| Lines.MissingReported | wt-proto/src/h3/huffman.rs:61-115 | the error is missing bits at a place if and only if the bits from there run out inside a node with a zero among them |
| Lines.ParsePrintLines | wt-proto/src/h3/qpack.rs:54-107 | lines in front of anything are inserted in order, and what follows them is decoded as if it stood behind those fields |
| Lines.DynamicRefused | wt-proto/src/h3/qpack.rs:60-98 | a line that refers to the dynamic table, behind any valid lines, refuses the section as a dynamic entry |
| Lines.LineStable | wt-proto/src/h3/qpack.rs:109-164 | a line parser looks no further than it reads: more bytes behind the line change nothing |
| Lines.LineErrorStable | wt-proto/src/h3/qpack.rs:109-164 | an error other than the unexpected end stays the same whatever bytes follow |
| Lines.CutLineRefused | wt-proto/src/h3/qpack.rs:109-164 | a line cut short at any byte is an unexpected end, and no other error or field |
| StaticTable.GetIsText | wt-proto/src/h3/qpack.rs:513-613 | every name and value of the table is valid UTF-8 |
| Utf8.ValidExact | wt-proto/src/h3/qpack.rs:122-164 | a byte string is valid if and only if it is the encoding of some sequence of Unicode scalar values, section 3 of RFC 3629 |
| Lines.SectionIsText | wt-proto/src/h3/qpack.rs:54-164 | every name and value of an accepted section is valid UTF-8, whether sent or taken from the table |
| Qpack.DecodePayload | wt-proto/src/h3/qpack.rs:326-331 | draining the iterator gives the string of the payload, or the first error with the window it names |
| Qpack.DecodeString | wt-proto/src/h3/qpack.rs:313-334 | refines the reading of a string, cursor included |
| Qpack.DecodeIndex | wt-proto/src/h3/qpack.rs:109-120 | refines the reading of an indexed line |
| Qpack.DecodeLiteralValue | wt-proto/src/h3/qpack.rs:122-141 | refines the reading of a line with a name reference |
| Qpack.DecodeLiteral | wt-proto/src/h3/qpack.rs:143-164 | refines the reading of a literal line |
| Qpack.Headers.DecodeLine | wt-proto/src/h3/qpack.rs:60-98 | peeking and dispatching refines the reading of one line |
| Qpack.Headers.Decode | wt-proto/src/h3/qpack.rs:54-107 | the loop fills a map with exactly the fields of the section and consumes it, or reports the first error |
| Qpack.Headers.Set | wt-proto/src/h3/qpack.rs:50-52 | the map with that one field replaced |
| Qpack.LineForMeans | wt-proto/src/h3/qpack.rs:176-184 | the line the encoder chooses for a field means that field |
| Qpack.LineForExact | wt-proto/src/h3/qpack.rs:176-184 | a field is written as entry i if and only if it is entry i, by name reference i if and only if it is no entry and i is the least with its name, and in full if and only if no entry has its name |
| Qpack.WrittenFirst | wt-proto/src/h3/qpack.rs:166-236 | a section starts with two zero bytes, and each line written with the pattern of its form, with no N bit and no Huffman flag |
| Qpack.PseudoFirstSorts | wt-proto/src/h3/qpack.rs:171-174 | the order of emission is a permutation of the iteration with all names that start with a colon in front |
| Qpack.Headers.Encode | wt-proto/src/h3/qpack.rs:166-185 | writes the section of the map for the given iteration order |
| Qpack.Headers.EncodeField | wt-proto/src/h3/qpack.rs:176-184 | appends exactly the chosen line |
| Qpack.Headers.EncodeIndex | wt-proto/src/h3/qpack.rs:187-196 | appends the indexed line |
| Qpack.Headers.EncodeLiteralValue | wt-proto/src/h3/qpack.rs:198-214 | appends the line with a name reference and a raw value |
| Qpack.Headers.EncodeLiteral | wt-proto/src/h3/qpack.rs:216-235 | appends the literal line with raw strings |
| Qpack.HeadersRoundTrip | wt-proto/src/h3/qpack.rs:54-236 | for every map of valid strings and every iteration order, decoding the encoding gives back the map |
| Qpack.RecodedSection | wt-proto/src/h3/qpack.rs:54-236 | for every accepted section, encoding its map in any order and decoding again gives the same map |
| Qpack.ShortSection | wt-proto/src/h3/qpack.rs:54-107 | the bit counts of a section of less than 2^29 bytes fit 32 bits, whatever it holds |
| Qpack.EncodedSection | wt-proto/src/h3/qpack.rs:166-236 | so do those of every section the encoder writes, of any length |
| Coding.ParseOfForm | wt-proto/src/coding.rs:64-170 | an integer written in any of the four widths it fits is read back and leaves exactly what follows |
| Coding.FormOfParse | wt-proto/src/coding.rs:107-153 | nothing else is ever read: the bytes taken are that value in the width their first byte announces |
| Coding.CutVarintRefused | wt-proto/src/coding.rs:107-153 | an integer of any width cut short at any byte is none |
| Coding.LeastWidth | wt-proto/src/coding.rs:157-169 | the width written fits and is the least that does |
| Coding.ParsePrintVarint | wt-proto/src/coding.rs:64-170 | reading what was written returns the value and leaves the suffix |
| Coding.ReadVarint | wt-proto/src/coding.rs:106-154 | the buffer reader, through its 8-byte word, reads exactly that; it never reports a malformed or oversized integer |
| Coding.ReadVarintAsync | wt-proto/src/coding.rs:64-104 | the stream reader agrees with the buffer reader on every input, apart from the name of the error |
| Coding.WriteVarint | wt-proto/src/coding.rs:156-170 | appends the least form |
| Frames.GreaseExact | wt-proto/src/h3/frame.rs:47-54 | the ignored types are exactly 31n + 33, section 7.2.8 of RFC 9114 |
| Frames.ParseOfFrameIn | wt-proto/src/h3/frame.rs:62-76 | a frame whose type and length have any widths that fit is read, leaving what follows |
| Frames.FormOfFrame | wt-proto/src/h3/frame.rs:62-76 | nothing else is read: the bytes taken are a type, a length and a payload of exactly that length |
| Frames.CutFrameRefused | wt-proto/src/h3/frame.rs:62-69 | a stream that ends within a frame yields none: a read error if type and length are whole, an early end if not |
| Frames.CutStreamRefused | wt-proto/src/h3/frame.rs:62-76 | the same behind any run of grease |
| Frames.Encode | wt-proto/src/h3/frame.rs:56-60 | appends type, length and payload |
| Frames.Accept | wt-proto/src/h3/frame.rs:62-76 | the skipping loop terminates and returns the next frame that is no grease, leaving the stream right behind it |
| Frames.AcceptSequence | wt-proto/src/h3/frame.rs:47-76 | repeated accepting of frames written back to back yields those that are no grease, in order, and then whatever follows as if it stood alone |
| Frames.AcceptNext | wt-proto/src/h3/frame.rs:62-76 | one call passes over the grease in front, returns the first other frame and leaves all frames behind it unread |
| Frames.AcceptStream | wt-proto/src/h3/frame.rs:62-76 | a stream of whole frames yields exactly those and then ends early |
| SettingsMap.Settings.constructor | wt-proto/src/h3/settings.rs:88-95 | one grease setting |
| SettingsMap.Settings.Insert | wt-proto/src/h3/settings.rs:121-123 | keeps all values within 32 bits |
| SettingsMap.Settings.EnableWebtransport | wt-proto/src/h3/settings.rs:125-132 | sets the six settings; support is then announced whatever the session limit |
| SettingsMap.EnabledExact | wt-proto/src/h3/settings.rs:125-132 | by their numbers: which six settings get which values, and that all others keep theirs |
| SettingsMap.SupportsExact | wt-proto/src/h3/settings.rs:134-149 | the first present of 0x2b603742, 0xc671706a and 0x2b603743, in this order, decides alone; without any there is no support |
| SettingsMap.Settings.Decode | wt-proto/src/h3/settings.rs:97-109 | the loop yields the map of the pairs in the first len bytes, all values within 32 bits, or the fault met |
| SettingsMap.Settings.Encode | wt-proto/src/h3/settings.rs:111-119 | writes the pairs in the given iteration order |
| SettingsMap.PairsOutcome | wt-proto/src/h3/settings.rs:97-109 | decoding succeeds if and only if the payload is an even number of whole integers, reports an error if and only if the last one is cut short, and aborts if and only if their number is odd |
| SettingsMap.LoneIdentifierAborts | wt-proto/src/h3/settings.rs:101-103 | a payload of one identifier aborts |
| SettingsMap.PairsFold | wt-proto/src/h3/settings.rs:97-109 | every sequence of pairs, with repeated identifiers and wide values, is read as their insertion in order |
| SettingsMap.LastPairWins | wt-proto/src/h3/settings.rs:101-106 | a pair added at the end replaces whatever was said of its identifier by the low 32 bits of its value |
| SettingsMap.SettingsRoundTrip | wt-proto/src/h3/settings.rs:97-119 | for every map of 32-bit values and every iteration order, decoding the encoding gives back the map |
| SettingsMap.ControlRoundTrip | wt-proto/src/h3/settings.rs:151-185 | what the opening side writes on the control stream, the accepting side reads as the same map, and so as the same support for WebTransport |
| SettingsMap.OpenControl | wt-proto/src/h3/settings.rs:151-163 | writes the type of the control stream and one frame of the settings |
| SettingsMap.ReadControl | wt-proto/src/h3/settings.rs:165-184 | refines the reading of a control stream, with each error and the abort |
| SettingsMap.NoSupportCrosses | wt-proto/src/h3/settings.rs:134-184 | of a peer that set none of the three settings the other side learns that there is no support |
| SettingsMap.OtherStreamRefused | wt-proto/src/h3/settings.rs:168-171 | a stream whose type is not 0x00, in any width, is refused |
| SettingsMap.OtherFrameRefused | wt-proto/src/h3/settings.rs:173-178 | a control stream whose first frame behind any grease is not of type 0x04 is refused |
| SettingsMap.UnreadableRefused | wt-proto/src/h3/settings.rs:173-180 | one whose frame cannot be read, or whose settings cannot, is refused with that error, or aborts on a lone identifier |
| Connect.HeadersCross | wt-proto/src/h3/connect.rs:15-67 | headers written behind any run of grease frames are read back, whatever follows |
| Connect.WrittenCountable | wt-proto/src/h3/connect.rs:15-67 | reading headers that this library wrote meets no bit count beyond 32 bits |
| Connect.RequestCrosses | wt-proto/src/h3/connect.rs:15-44 | the request written for a map is accepted with that map if and only if its method is CONNECT |
| Connect.RepliesCross | wt-proto/src/h3/connect.rs:44-59 | for every map of headers behind any grease: the opening side accepts the reply if and only if it says :status 200 and sec-webtransport-http3-draft draft02, and any other is a connect error |
| Connect.OtherMessageRefused | wt-proto/src/h3/connect.rs:17-24 | a first frame that is not of type 0x01 is a protocol error, and one that holds no field section the error of decoding it |
| Connect.CutMessageRefused | wt-proto/src/h3/connect.rs:17-24 | headers whose stream ends anywhere within their frame are an error of reading |
| Connect.SessionsCross | wt-rs/src/connect.rs:12-22 | a request is accepted as a session if and only if it says :method CONNECT and :protocol webtransport; each refusal has its error |
| Connect.ReplyCrosses | wt-proto/src/h3/connect.rs:44-85 | the reply passes every check of the side that opened |
| Connect.SessionCrosses | wt-rs/src/connect.rs:12-34 | the request this library opens a session with is accepted as one |
| Connect.Request.ReadHeaders | wt-proto/src/h3/connect.rs:17-24 | the next frame that is no grease, which must be headers, decoded |
| Connect.Request.Accept | wt-proto/src/h3/connect.rs:15-33 | refines the reading of a request, with each error |
| Connect.Request.Open | wt-proto/src/h3/connect.rs:35-67 | writes the request and accepts exactly the replies that pass the checks |
| Connect.Request.ReplyOk | wt-proto/src/h3/connect.rs:69-85 | writes the reply's two headers in one frame |
| Connect.Request.AcceptConnect | wt-rs/src/connect.rs:12-22 | accepts a session and writes the reply; a request that is refused gets none |
| Streams.PollTwice | wt-proto/src/coding.rs:64-104 | polling a suspended header decoder now and again after more bytes is polling it once with all of them |
| Streams.DecoderReadsHeader | wt-rs/src/conn.rs:198-207 | on all the bytes of a stream the suspended decoder finishes exactly as one read of type and session id, and leaves what that read leaves |
| Streams.ChunkingIndependence | wt-rs/src/conn.rs:198-207 | for every split of the bytes into arrivals with a poll after each, and one after the end of the stream if it ends, the type, the session check and the unread payload are those of one read of the whole |
| Streams.OpenedStreamDecodes | wt-rs/src/streams.rs:12-18 | the header written on opening a stream, however it arrives, is decoded to its type with the payload unread |
| Streams.DecodeHeader | wt-rs/src/conn.rs:198-207 | on a stream that is all there, refines the reading of a header: the session is checked before the type, and a stream that ends early is used up |
| Streams.WriteHeader | wt-proto/src/h3/streams.rs:33-46 | appends the type and then the session id, each in its least form |
| Streams.HeaderStable | wt-rs/src/conn.rs:262-274 | more bytes change no header that is there |
| Streams.HeaderExact | wt-rs/src/conn.rs:198-207 | a header is read if and only if the bytes spell a type and this session's id in widths that fit; another id is a mismatch, and anything else too few bytes |
| Lanes.JudgeIsDecoder | wt-rs/src/conn.rs:198-207 | the verdict on a stream is the end of its suspended decoder |
| Lanes.DeliverableCarries | wt-rs/src/conn.rs:198-207 | a stream is deliverable if and only if its bytes start with the WebTransport type of its kind and this session's id, each in some width that fits |
| Lanes.FinishedExact | wt-rs/src/conn.rs:198-207 | a decoder is finished if and only if its stream spells a whole header or has ended |
| Lanes.SelectedUni | wt-rs/src/conn.rs:239-260 | by the bytes of a unidirectional stream: of this session it is delivered, kept as QPACK encoder, decoder or push stream if and only if its type is 0x54, 0x02, 0x03 or 0x01, and let go otherwise; of another session it is a protocol error |
| Lanes.SelectedBi | wt-rs/src/conn.rs:306-323 | by the bytes of a bidirectional stream: it is delivered if and only if it is of this session and type 0x41, and let go otherwise |
| Lanes.SelectedShort | wt-rs/src/conn.rs:198-207 | a stream that ended within its header is reported as finished early |
| Lanes.ApplyInv | wt-rs/src/conn.rs:209-260 | every step keeps each arrived stream in exactly one of queue, set, placeholder, delivered and discarded, and keeps delivered and parked streams of the right session and type |
| Lanes.DeliveredOnce | wt-rs/src/conn.rs:238-260 | a run delivers no stream twice, and what it delivered stays with that task |
| Lanes.WholeRun | wt-rs/src/conn.rs:198-324 | under every interleaving of arrivals, bytes, ends and steps of polls by any tasks: conservation, single delivery to one task, and every delivered stream starts with the bytes of the WebTransport type and this session's id |
| Polls.PollProgress | wt-rs/src/conn.rs:226-260 | a poll that returns anything has resolved a finished stream; one that is pending has left none finished and none queued |
| Polls.PollEnds | wt-rs/src/conn.rs:226-260 | a poll ends with the first stream that is fit to be delivered or whose decoder failed and returns exactly that; else it is pending, with nothing queued and nothing finished |
| Polls.FinishedDelivered | wt-rs/src/conn.rs:238-260 | along every run of polls by any tasks, with arrivals, bytes and ends in between, a finished WebTransport stream is delivered once there were as many polls as streams finished before and on the way |
| Polls.FinishingAtMostHeld | wt-rs/src/conn.rs:210-236 | no more streams finish along a run than are queued or in the set at first or arrive |
| Polls.LivePollsDeliver | wt-rs/src/conn.rs:238-260 | at any moment of any run from the start, a finished WebTransport stream is delivered by the time there were as many polls as streams are then queued or in the set, or arrive later |
| Polls.RunsAreLegal | wt-rs/src/conn.rs:209-260 | such a run is a run of the transition system, so all that is proved of those holds of it |
| Polls.PollsDeliver | wt-rs/src/conn.rs:238-260 | while nothing comes at all, as many polls as there are finished streams leave none finished, and deliver every WebTransport stream among them, however many streams are stalled |
| Polls.DrainsDeliverNothing | wt-rs/src/conn.rs:210-224 | what a poll does on a closed connection delivers and drops nothing |
| Accept.WTAccept.constructor | wt-rs/src/conn.rs:180-196 | both lanes start empty, on an open connection |
| Accept.WTAccept.NetworkClose | wt-rs/src/conn.rs:180-184 | closing the connection changes no stream; only the polls after it see it |
| Accept.WTAccept.DrainUni | wt-rs/src/conn.rs:210-224 | moves all arrivals into the set, and fails exactly on a closed connection |
| Accept.WTAccept.SelectUni | wt-rs/src/conn.rs:227-236 | takes some finished decoder with its outcome, or none is finished |
| Accept.WTAccept.Store | wt-rs/src/conn.rs:251-253 | keeps a stream in its placeholder and lets go of the one held before |
| Accept.WTAccept.PollAcceptUni | wt-rs/src/conn.rs:239-260 | terminates, is a sequence of steps of the lane by this task that ends with the first delivery or failure, is pending only on an empty queue with nothing finished, and keeps the invariants of both lanes; it reports a lost connection if and only if that is closed, and then has only drained; no arrival is left queued |
| Accept.WTAccept.DrainBi | wt-rs/src/conn.rs:277-291 | as for unidirectional streams |
| Accept.WTAccept.SelectBi | wt-rs/src/conn.rs:294-303 | as for unidirectional streams |
| Accept.WTAccept.PollAcceptBi | wt-rs/src/conn.rs:306-323 | as for unidirectional streams, with one deliverable type and no placeholders |

## Left out

- quinn, tokio, TLS, endpoints, datagrams, logging and the examples: foreign calls and plumbing.
- Wakers and scheduling: the set of suspended decoders is assumed to offer a finished one whenever it has one.
- Failures of a stream other than finishing early: a reset or a lost connection would be one more error on the same path.
- The arm for an arrival stream that ends: the stream of arrivals is built to go on for ever.
- Allocation: a frame's declared length is taken as a buffer size, and running out of memory is not modelled.
- Huffman.Decoder.DecodeNext: excludes payloads of 2^29 bytes or more, whose bit count overflows the 32-bit arithmetic of the source, and those of 2^29 - 1 bytes that end with EOS, on which the read past the end does (`Hpack.DecodableIff`). The members of `Qpack` and `Connect` that decode exclude sections with such a payload and no others.
- PrefixInt.DecodePrefix: fixes 64-bit words and the wrapping arithmetic of a release build.
- Frames.Encode: types and lengths of 2^62 or more are excluded, because writing them panics.
- Coding.ReadVarint: an empty buffer is excluded, because reading from it panics; the one caller that can meet it, settings, models the abort.
- SettingsMap.SettingsRoundTrip: values above 32 bits are excluded, because the decoder narrows them; no reachable map holds one.
- The QPACK dynamic table, which the source refuses.
