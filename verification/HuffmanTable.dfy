/**
  The concrete lookup tree of the decoder, node for node, and the code table of
  Appendix B of RFC 7541 that it is checked against.
 */
module HuffmanTable {
  import opened Words
  import opened Bits
  import opened Huffman
  import opened PrefixCode

  // ---- The tree ----

  const HPACK_STRING := Decoder(5, [
    Sym(48), Sym(49), Sym(50), Sym(97), Sym(99), Sym(101), Sym(105), Sym(111), Sym(115), Sym(116),
    Partial(END0_01010), Partial(END0_01011), Partial(END0_01100), Partial(END0_01101),
    Partial(END0_01110), Partial(END0_01111), Partial(END0_10000), Partial(END0_10001),
    Partial(END0_10010), Partial(END0_10011), Partial(END0_10100), Partial(END0_10101),
    Partial(END0_10110), Partial(END0_10111), Partial(END0_11000), Partial(END0_11001),
    Partial(END0_11010), Partial(END0_11011), Partial(END0_11100), Partial(END0_11101),
    Partial(END0_11110), Partial(END0_11111)])
  const END0_01010 := Decoder(1, [Sym(32), Sym(37)])
  const END0_01011 := Decoder(1, [Sym(45), Sym(46)])
  const END0_01100 := Decoder(1, [Sym(47), Sym(51)])
  const END0_01101 := Decoder(1, [Sym(52), Sym(53)])
  const END0_01110 := Decoder(1, [Sym(54), Sym(55)])
  const END0_01111 := Decoder(1, [Sym(56), Sym(57)])
  const END0_10000 := Decoder(1, [Sym(61), Sym(65)])
  const END0_10001 := Decoder(1, [Sym(95), Sym(98)])
  const END0_10010 := Decoder(1, [Sym(100), Sym(102)])
  const END0_10011 := Decoder(1, [Sym(103), Sym(104)])
  const END0_10100 := Decoder(1, [Sym(108), Sym(109)])
  const END0_10101 := Decoder(1, [Sym(110), Sym(112)])
  const END0_10110 := Decoder(1, [Sym(114), Sym(117)])
  const END0_10111 := Decoder(2, [Sym(58), Sym(66), Sym(67), Sym(68)])
  const END0_11000 := Decoder(2, [Sym(69), Sym(70), Sym(71), Sym(72)])
  const END0_11001 := Decoder(2, [Sym(73), Sym(74), Sym(75), Sym(76)])
  const END0_11010 := Decoder(2, [Sym(77), Sym(78), Sym(79), Sym(80)])
  const END0_11011 := Decoder(2, [Sym(81), Sym(82), Sym(83), Sym(84)])
  const END0_11100 := Decoder(2, [Sym(85), Sym(86), Sym(87), Sym(89)])
  const END0_11101 := Decoder(2, [Sym(106), Sym(107), Sym(113), Sym(118)])
  const END0_11110 := Decoder(2, [Sym(119), Sym(120), Sym(121), Sym(122)])
  const END0_11111 := Decoder(2, [Partial(END5_00), Partial(END5_01), Partial(END5_10), Partial(END5_11)])
  const END5_00 := Decoder(1, [Sym(38), Sym(42)])
  const END5_01 := Decoder(1, [Sym(44), Sym(59)])
  const END5_10 := Decoder(1, [Sym(88), Sym(90)])
  const END5_11 := Decoder(1, [Partial(END7_0), Partial(END7_1)])
  const END7_0 := Decoder(2, [Sym(33), Sym(34), Sym(40), Sym(41)])
  const END7_1 := Decoder(1, [Partial(END8_0), Partial(END8_1)])
  const END8_0 := Decoder(1, [Sym(63), Partial(END9A_1)])
  const END9A_1 := Decoder(1, [Sym(39), Sym(43)])
  const END8_1 := Decoder(2, [Sym(124), Partial(END9B_01), Partial(END9B_10), Partial(END9B_11)])
  const END9B_01 := Decoder(1, [Sym(35), Sym(62)])
  const END9B_10 := Decoder(2, [Sym(0), Sym(36), Sym(64), Sym(91)])
  const END9B_11 := Decoder(2, [Sym(93), Sym(126), Partial(END13_10), Partial(END13_11)])
  const END13_10 := Decoder(1, [Sym(94), Sym(125)])
  const END13_11 := Decoder(1, [Partial(END14_0), Partial(END14_1)])
  const END14_0 := Decoder(1, [Sym(60), Sym(96)])
  const END14_1 := Decoder(1, [Sym(123), Partial(END15_1)])
  const END15_1 := Decoder(4, [
    Sym(92), Sym(195), Sym(208), Partial(END19_0011), Partial(END19_0100), Partial(END19_0101),
    Partial(END19_0110), Partial(END19_0111), Partial(END19_1000), Partial(END19_1001),
    Partial(END19_1010), Partial(END19_1011), Partial(END19_1100), Partial(END19_1101),
    Partial(END19_1110), Partial(END19_1111)])
  const END19_0011 := Decoder(1, [Sym(128), Sym(130)])
  const END19_0100 := Decoder(1, [Sym(131), Sym(162)])
  const END19_0101 := Decoder(1, [Sym(184), Sym(194)])
  const END19_0110 := Decoder(1, [Sym(224), Sym(226)])
  const END19_0111 := Decoder(2, [Sym(153), Sym(161), Sym(167), Sym(172)])
  const END19_1000 := Decoder(2, [Sym(176), Sym(177), Sym(179), Sym(209)])
  const END19_1001 := Decoder(2, [Sym(216), Sym(217), Sym(227), Sym(229)])
  const END19_1010 := Decoder(2, [Sym(230), Partial(END19_1010_01), Partial(END19_1010_10), Partial(END19_1010_11)])
  const END19_1010_01 := Decoder(1, [Sym(129), Sym(132)])
  const END19_1010_10 := Decoder(1, [Sym(133), Sym(134)])
  const END19_1010_11 := Decoder(1, [Sym(136), Sym(146)])
  const END19_1011 := Decoder(3, [Sym(154), Sym(156), Sym(160), Sym(163), Sym(164), Sym(169), Sym(170), Sym(173)])
  const END19_1100 := Decoder(3, [Sym(178), Sym(181), Sym(185), Sym(186), Sym(187), Sym(189), Sym(190), Sym(196)])
  const END19_1101 := Decoder(3, [
    Sym(198), Sym(228), Sym(232), Sym(233), Partial(END23A_100), Partial(END23A_101),
    Partial(END23A_110), Partial(END23A_111)])
  const END23A_100 := Decoder(1, [Sym(1), Sym(135)])
  const END23A_101 := Decoder(1, [Sym(137), Sym(138)])
  const END23A_110 := Decoder(1, [Sym(139), Sym(140)])
  const END23A_111 := Decoder(1, [Sym(141), Sym(143)])
  const END19_1110 := Decoder(4, [
    Sym(147), Sym(149), Sym(150), Sym(151), Sym(152), Sym(155), Sym(157), Sym(158), Sym(165), Sym(166),
    Sym(168), Sym(174), Sym(175), Sym(180), Sym(182), Sym(183)])
  const END19_1111 := Decoder(4, [
    Sym(188), Sym(191), Sym(197), Sym(231), Sym(239), Partial(END23B_0101), Partial(END23B_0110),
    Partial(END23B_0111), Partial(END23B_1000), Partial(END23B_1001), Partial(END23B_1010),
    Partial(END23B_1011), Partial(END23B_1100), Partial(END23B_1101), Partial(END23B_1110),
    Partial(END23B_1111)])
  const END23B_0101 := Decoder(1, [Sym(9), Sym(142)])
  const END23B_0110 := Decoder(1, [Sym(144), Sym(145)])
  const END23B_0111 := Decoder(1, [Sym(148), Sym(159)])
  const END23B_1000 := Decoder(1, [Sym(171), Sym(206)])
  const END23B_1001 := Decoder(1, [Sym(215), Sym(225)])
  const END23B_1010 := Decoder(1, [Sym(236), Sym(237)])
  const END23B_1011 := Decoder(2, [Sym(199), Sym(207), Sym(234), Sym(235)])
  const END23B_1100 := Decoder(3, [Sym(192), Sym(193), Sym(200), Sym(201), Sym(202), Sym(205), Sym(210), Sym(213)])
  const END23B_1101 := Decoder(3, [
    Sym(218), Sym(219), Sym(238), Sym(240), Sym(242), Sym(243), Sym(255), Partial(END27A_111)])
  const END27A_111 := Decoder(1, [Sym(203), Sym(204)])
  const END23B_1110 := Decoder(4, [
    Sym(211), Sym(212), Sym(214), Sym(221), Sym(222), Sym(223), Sym(241), Sym(244), Sym(245), Sym(246),
    Sym(247), Sym(248), Sym(250), Sym(251), Sym(252), Sym(253)])
  const END23B_1111 := Decoder(4, [
    Sym(254), Partial(END27B_0001), Partial(END27B_0010), Partial(END27B_0011), Partial(END27B_0100),
    Partial(END27B_0101), Partial(END27B_0110), Partial(END27B_0111), Partial(END27B_1000),
    Partial(END27B_1001), Partial(END27B_1010), Partial(END27B_1011), Partial(END27B_1100),
    Partial(END27B_1101), Partial(END27B_1110), Partial(END27B_1111)])
  const END27B_0001 := Decoder(1, [Sym(2), Sym(3)])
  const END27B_0010 := Decoder(1, [Sym(4), Sym(5)])
  const END27B_0011 := Decoder(1, [Sym(6), Sym(7)])
  const END27B_0100 := Decoder(1, [Sym(8), Sym(11)])
  const END27B_0101 := Decoder(1, [Sym(12), Sym(14)])
  const END27B_0110 := Decoder(1, [Sym(15), Sym(16)])
  const END27B_0111 := Decoder(1, [Sym(17), Sym(18)])
  const END27B_1000 := Decoder(1, [Sym(19), Sym(20)])
  const END27B_1001 := Decoder(1, [Sym(21), Sym(23)])
  const END27B_1010 := Decoder(1, [Sym(24), Sym(25)])
  const END27B_1011 := Decoder(1, [Sym(26), Sym(27)])
  const END27B_1100 := Decoder(1, [Sym(28), Sym(29)])
  const END27B_1101 := Decoder(1, [Sym(30), Sym(31)])
  const END27B_1110 := Decoder(1, [Sym(127), Sym(220)])
  const END27B_1111 := Decoder(1, [Sym(249), Partial(END31_1)])
  const END31_1 := Decoder(2, [Sym(10), Sym(13), Sym(22), Partial(EOF)])
  const EOF := Decoder(8, [])

  // ---- Appendix B of RFC 7541 ----

  /** A code word: the `length` low bits of `value`. */
  datatype CodeWord = CodeWord(value: nat, length: nat)

  const ROW0: seq<CodeWord> := [
    CodeWord(0x1ff8, 13), CodeWord(0x7fffd8, 23), CodeWord(0xfffffe2, 28), CodeWord(0xfffffe3, 28),
    CodeWord(0xfffffe4, 28), CodeWord(0xfffffe5, 28), CodeWord(0xfffffe6, 28), CodeWord(0xfffffe7, 28)]
  const ROW1: seq<CodeWord> := [
    CodeWord(0xfffffe8, 28), CodeWord(0xffffea, 24), CodeWord(0x3ffffffc, 30), CodeWord(0xfffffe9, 28),
    CodeWord(0xfffffea, 28), CodeWord(0x3ffffffd, 30), CodeWord(0xfffffeb, 28), CodeWord(0xfffffec, 28)]
  const ROW2: seq<CodeWord> := [
    CodeWord(0xfffffed, 28), CodeWord(0xfffffee, 28), CodeWord(0xfffffef, 28), CodeWord(0xffffff0, 28),
    CodeWord(0xffffff1, 28), CodeWord(0xffffff2, 28), CodeWord(0x3ffffffe, 30), CodeWord(0xffffff3, 28)]
  const ROW3: seq<CodeWord> := [
    CodeWord(0xffffff4, 28), CodeWord(0xffffff5, 28), CodeWord(0xffffff6, 28), CodeWord(0xffffff7, 28),
    CodeWord(0xffffff8, 28), CodeWord(0xffffff9, 28), CodeWord(0xffffffa, 28), CodeWord(0xffffffb, 28)]
  const ROW4: seq<CodeWord> := [
    CodeWord(0x14, 6), CodeWord(0x3f8, 10), CodeWord(0x3f9, 10), CodeWord(0xffa, 12),
    CodeWord(0x1ff9, 13), CodeWord(0x15, 6), CodeWord(0xf8, 8), CodeWord(0x7fa, 11)]
  const ROW5: seq<CodeWord> := [
    CodeWord(0x3fa, 10), CodeWord(0x3fb, 10), CodeWord(0xf9, 8), CodeWord(0x7fb, 11),
    CodeWord(0xfa, 8), CodeWord(0x16, 6), CodeWord(0x17, 6), CodeWord(0x18, 6)]
  const ROW6: seq<CodeWord> := [
    CodeWord(0x0, 5), CodeWord(0x1, 5), CodeWord(0x2, 5), CodeWord(0x19, 6),
    CodeWord(0x1a, 6), CodeWord(0x1b, 6), CodeWord(0x1c, 6), CodeWord(0x1d, 6)]
  const ROW7: seq<CodeWord> := [
    CodeWord(0x1e, 6), CodeWord(0x1f, 6), CodeWord(0x5c, 7), CodeWord(0xfb, 8),
    CodeWord(0x7ffc, 15), CodeWord(0x20, 6), CodeWord(0xffb, 12), CodeWord(0x3fc, 10)]
  const ROW8: seq<CodeWord> := [
    CodeWord(0x1ffa, 13), CodeWord(0x21, 6), CodeWord(0x5d, 7), CodeWord(0x5e, 7),
    CodeWord(0x5f, 7), CodeWord(0x60, 7), CodeWord(0x61, 7), CodeWord(0x62, 7)]
  const ROW9: seq<CodeWord> := [
    CodeWord(0x63, 7), CodeWord(0x64, 7), CodeWord(0x65, 7), CodeWord(0x66, 7),
    CodeWord(0x67, 7), CodeWord(0x68, 7), CodeWord(0x69, 7), CodeWord(0x6a, 7)]
  const ROW10: seq<CodeWord> := [
    CodeWord(0x6b, 7), CodeWord(0x6c, 7), CodeWord(0x6d, 7), CodeWord(0x6e, 7),
    CodeWord(0x6f, 7), CodeWord(0x70, 7), CodeWord(0x71, 7), CodeWord(0x72, 7)]
  const ROW11: seq<CodeWord> := [
    CodeWord(0xfc, 8), CodeWord(0x73, 7), CodeWord(0xfd, 8), CodeWord(0x1ffb, 13),
    CodeWord(0x7fff0, 19), CodeWord(0x1ffc, 13), CodeWord(0x3ffc, 14), CodeWord(0x22, 6)]
  const ROW12: seq<CodeWord> := [
    CodeWord(0x7ffd, 15), CodeWord(0x3, 5), CodeWord(0x23, 6), CodeWord(0x4, 5),
    CodeWord(0x24, 6), CodeWord(0x5, 5), CodeWord(0x25, 6), CodeWord(0x26, 6)]
  const ROW13: seq<CodeWord> := [
    CodeWord(0x27, 6), CodeWord(0x6, 5), CodeWord(0x74, 7), CodeWord(0x75, 7),
    CodeWord(0x28, 6), CodeWord(0x29, 6), CodeWord(0x2a, 6), CodeWord(0x7, 5)]
  const ROW14: seq<CodeWord> := [
    CodeWord(0x2b, 6), CodeWord(0x76, 7), CodeWord(0x2c, 6), CodeWord(0x8, 5),
    CodeWord(0x9, 5), CodeWord(0x2d, 6), CodeWord(0x77, 7), CodeWord(0x78, 7)]
  const ROW15: seq<CodeWord> := [
    CodeWord(0x79, 7), CodeWord(0x7a, 7), CodeWord(0x7b, 7), CodeWord(0x7ffe, 15),
    CodeWord(0x7fc, 11), CodeWord(0x3ffd, 14), CodeWord(0x1ffd, 13), CodeWord(0xffffffc, 28)]
  const ROW16: seq<CodeWord> := [
    CodeWord(0xfffe6, 20), CodeWord(0x3fffd2, 22), CodeWord(0xfffe7, 20), CodeWord(0xfffe8, 20),
    CodeWord(0x3fffd3, 22), CodeWord(0x3fffd4, 22), CodeWord(0x3fffd5, 22), CodeWord(0x7fffd9, 23)]
  const ROW17: seq<CodeWord> := [
    CodeWord(0x3fffd6, 22), CodeWord(0x7fffda, 23), CodeWord(0x7fffdb, 23), CodeWord(0x7fffdc, 23),
    CodeWord(0x7fffdd, 23), CodeWord(0x7fffde, 23), CodeWord(0xffffeb, 24), CodeWord(0x7fffdf, 23)]
  const ROW18: seq<CodeWord> := [
    CodeWord(0xffffec, 24), CodeWord(0xffffed, 24), CodeWord(0x3fffd7, 22), CodeWord(0x7fffe0, 23),
    CodeWord(0xffffee, 24), CodeWord(0x7fffe1, 23), CodeWord(0x7fffe2, 23), CodeWord(0x7fffe3, 23)]
  const ROW19: seq<CodeWord> := [
    CodeWord(0x7fffe4, 23), CodeWord(0x1fffdc, 21), CodeWord(0x3fffd8, 22), CodeWord(0x7fffe5, 23),
    CodeWord(0x3fffd9, 22), CodeWord(0x7fffe6, 23), CodeWord(0x7fffe7, 23), CodeWord(0xffffef, 24)]
  const ROW20: seq<CodeWord> := [
    CodeWord(0x3fffda, 22), CodeWord(0x1fffdd, 21), CodeWord(0xfffe9, 20), CodeWord(0x3fffdb, 22),
    CodeWord(0x3fffdc, 22), CodeWord(0x7fffe8, 23), CodeWord(0x7fffe9, 23), CodeWord(0x1fffde, 21)]
  const ROW21: seq<CodeWord> := [
    CodeWord(0x7fffea, 23), CodeWord(0x3fffdd, 22), CodeWord(0x3fffde, 22), CodeWord(0xfffff0, 24),
    CodeWord(0x1fffdf, 21), CodeWord(0x3fffdf, 22), CodeWord(0x7fffeb, 23), CodeWord(0x7fffec, 23)]
  const ROW22: seq<CodeWord> := [
    CodeWord(0x1fffe0, 21), CodeWord(0x1fffe1, 21), CodeWord(0x3fffe0, 22), CodeWord(0x1fffe2, 21),
    CodeWord(0x7fffed, 23), CodeWord(0x3fffe1, 22), CodeWord(0x7fffee, 23), CodeWord(0x7fffef, 23)]
  const ROW23: seq<CodeWord> := [
    CodeWord(0xfffea, 20), CodeWord(0x3fffe2, 22), CodeWord(0x3fffe3, 22), CodeWord(0x3fffe4, 22),
    CodeWord(0x7ffff0, 23), CodeWord(0x3fffe5, 22), CodeWord(0x3fffe6, 22), CodeWord(0x7ffff1, 23)]
  const ROW24: seq<CodeWord> := [
    CodeWord(0x3ffffe0, 26), CodeWord(0x3ffffe1, 26), CodeWord(0xfffeb, 20), CodeWord(0x7fff1, 19),
    CodeWord(0x3fffe7, 22), CodeWord(0x7ffff2, 23), CodeWord(0x3fffe8, 22), CodeWord(0x1ffffec, 25)]
  const ROW25: seq<CodeWord> := [
    CodeWord(0x3ffffe2, 26), CodeWord(0x3ffffe3, 26), CodeWord(0x3ffffe4, 26), CodeWord(0x7ffffde, 27),
    CodeWord(0x7ffffdf, 27), CodeWord(0x3ffffe5, 26), CodeWord(0xfffff1, 24), CodeWord(0x1ffffed, 25)]
  const ROW26: seq<CodeWord> := [
    CodeWord(0x7fff2, 19), CodeWord(0x1fffe3, 21), CodeWord(0x3ffffe6, 26), CodeWord(0x7ffffe0, 27),
    CodeWord(0x7ffffe1, 27), CodeWord(0x3ffffe7, 26), CodeWord(0x7ffffe2, 27), CodeWord(0xfffff2, 24)]
  const ROW27: seq<CodeWord> := [
    CodeWord(0x1fffe4, 21), CodeWord(0x1fffe5, 21), CodeWord(0x3ffffe8, 26), CodeWord(0x3ffffe9, 26),
    CodeWord(0xffffffd, 28), CodeWord(0x7ffffe3, 27), CodeWord(0x7ffffe4, 27), CodeWord(0x7ffffe5, 27)]
  const ROW28: seq<CodeWord> := [
    CodeWord(0xfffec, 20), CodeWord(0xfffff3, 24), CodeWord(0xfffed, 20), CodeWord(0x1fffe6, 21),
    CodeWord(0x3fffe9, 22), CodeWord(0x1fffe7, 21), CodeWord(0x1fffe8, 21), CodeWord(0x7ffff3, 23)]
  const ROW29: seq<CodeWord> := [
    CodeWord(0x3fffea, 22), CodeWord(0x3fffeb, 22), CodeWord(0x1ffffee, 25), CodeWord(0x1ffffef, 25),
    CodeWord(0xfffff4, 24), CodeWord(0xfffff5, 24), CodeWord(0x3ffffea, 26), CodeWord(0x7ffff4, 23)]
  const ROW30: seq<CodeWord> := [
    CodeWord(0x3ffffeb, 26), CodeWord(0x7ffffe6, 27), CodeWord(0x3ffffec, 26), CodeWord(0x3ffffed, 26),
    CodeWord(0x7ffffe7, 27), CodeWord(0x7ffffe8, 27), CodeWord(0x7ffffe9, 27), CodeWord(0x7ffffea, 27)]
  const ROW31: seq<CodeWord> := [
    CodeWord(0x7ffffeb, 27), CodeWord(0xffffffe, 28), CodeWord(0x7ffffec, 27), CodeWord(0x7ffffed, 27),
    CodeWord(0x7ffffee, 27), CodeWord(0x7ffffef, 27), CodeWord(0x7fffff0, 27), CodeWord(0x3ffffee, 26)]

  /** The code words of eight bytes at a time, found by halving. */
  function AppendixB(b: byte): CodeWord {
    if b < 128 then
      if b < 64 then
        if b < 32 then
          if b < 16 then
            if b < 8 then ROW0[b - 0] else ROW1[b - 8]
          else
            if b < 24 then ROW2[b - 16] else ROW3[b - 24]
        else
          if b < 48 then
            if b < 40 then ROW4[b - 32] else ROW5[b - 40]
          else
            if b < 56 then ROW6[b - 48] else ROW7[b - 56]
      else
        if b < 96 then
          if b < 80 then
            if b < 72 then ROW8[b - 64] else ROW9[b - 72]
          else
            if b < 88 then ROW10[b - 80] else ROW11[b - 88]
        else
          if b < 112 then
            if b < 104 then ROW12[b - 96] else ROW13[b - 104]
          else
            if b < 120 then ROW14[b - 112] else ROW15[b - 120]
    else
      if b < 192 then
        if b < 160 then
          if b < 144 then
            if b < 136 then ROW16[b - 128] else ROW17[b - 136]
          else
            if b < 152 then ROW18[b - 144] else ROW19[b - 152]
        else
          if b < 176 then
            if b < 168 then ROW20[b - 160] else ROW21[b - 168]
          else
            if b < 184 then ROW22[b - 176] else ROW23[b - 184]
      else
        if b < 224 then
          if b < 208 then
            if b < 200 then ROW24[b - 192] else ROW25[b - 200]
          else
            if b < 216 then ROW26[b - 208] else ROW27[b - 216]
        else
          if b < 240 then
            if b < 232 then ROW28[b - 224] else ROW29[b - 232]
          else
            if b < 248 then ROW30[b - 240] else ROW31[b - 248]
  }

  /** Node `d`, reached by the `length` bits of `value`, and everything below it
      agree with Appendix B: a leaf stands exactly where its code word leads, every
      node reads at most five bits and has one entry for each of their values, and
      only the node reached by the thirty ones of EOS has none and reads eight. */
  ghost predicate Conforms(d: Decoder, value: nat, length: nat) {
    var k := d.lookup;
    && 1 <= k <= 8
    && ((k <= 5 && |d.table| == Pow2(k)) || (d.table == [] && k == 8 && value == 0x3fffffff && length == 30))
    && forall i :: 0 <= i < |d.table| ==>
         match d.table[i]
         case Sym(x) => AppendixB(x) == CodeWord(value * Pow2(k) + i, length + k)
         case Partial(n) => Conforms(n, value * Pow2(k) + i, length + k)
  }

  lemma ConformsBelowBit27Low()
    ensures Conforms(END27B_0001, 0x7fffff1, 27)
    ensures Conforms(END27B_0010, 0x7fffff2, 27)
    ensures Conforms(END27B_0011, 0x7fffff3, 27)
    ensures Conforms(END27B_0100, 0x7fffff4, 27)
    ensures Conforms(END27B_0101, 0x7fffff5, 27)
    ensures Conforms(END27B_0110, 0x7fffff6, 27)
    ensures Conforms(END27B_0111, 0x7fffff7, 27)
  {
    Pow2Small();
  }

  lemma ConformsBelowBit27High()
    ensures Conforms(END27B_1000, 0x7fffff8, 27)
    ensures Conforms(END27B_1001, 0x7fffff9, 27)
    ensures Conforms(END27B_1010, 0x7fffffa, 27)
    ensures Conforms(END27B_1011, 0x7fffffb, 27)
    ensures Conforms(END27B_1100, 0x7fffffc, 27)
    ensures Conforms(END27B_1101, 0x7fffffd, 27)
    ensures Conforms(END27B_1110, 0x7fffffe, 27)
  {
    Pow2Small();
  }

  lemma ConformsBelowBit30()
    ensures Conforms(EOF, 0x3fffffff, 30)
    ensures Conforms(END31_1, 0xfffffff, 28)
    ensures Conforms(END27B_1111, 0x7ffffff, 27)
  {
    Pow2Small();
  }

  lemma ConformsBit23Ones()
    ensures Conforms(END23B_1111, 0x7fffff, 23)
  {
    Pow2Small();
    ConformsBelowBit27Low();
    ConformsBelowBit27High();
    ConformsBelowBit30();
  }

  lemma ConformsBit23Low()
    ensures Conforms(END23B_0101, 0x7ffff5, 23)
    ensures Conforms(END23B_0110, 0x7ffff6, 23)
    ensures Conforms(END23B_0111, 0x7ffff7, 23)
    ensures Conforms(END23B_1000, 0x7ffff8, 23)
    ensures Conforms(END23B_1001, 0x7ffff9, 23)
    ensures Conforms(END23B_1010, 0x7ffffa, 23)
    ensures Conforms(END23B_1011, 0x7ffffb, 23)
  {
    Pow2Small();
  }

  lemma ConformsBit23High()
    ensures Conforms(END23B_1100, 0x7ffffc, 23)
    ensures Conforms(END27A_111, 0x3ffffef, 26)
    ensures Conforms(END23B_1101, 0x7ffffd, 23)
  {
    Pow2Small();
  }

  lemma ConformsBit23Full()
    ensures Conforms(END23B_1110, 0x7ffffe, 23)
  {
    Pow2Small();
  }

  lemma ConformsBit19Ones()
    ensures Conforms(END19_1111, 0x7ffff, 19)
  {
    Pow2Small();
    ConformsBit23Ones();
    ConformsBit23Low();
    ConformsBit23High();
    ConformsBit23Full();
  }

  lemma ConformsBit19Low()
    ensures Conforms(END19_0011, 0x7fff3, 19)
    ensures Conforms(END19_0100, 0x7fff4, 19)
    ensures Conforms(END19_0101, 0x7fff5, 19)
    ensures Conforms(END19_0110, 0x7fff6, 19)
    ensures Conforms(END19_0111, 0x7fff7, 19)
    ensures Conforms(END19_1000, 0x7fff8, 19)
    ensures Conforms(END19_1001, 0x7fff9, 19)
  {
    Pow2Small();
  }

  lemma ConformsBit19Ten()
    ensures Conforms(END19_1010_01, 0x1fffe9, 21)
    ensures Conforms(END19_1010_10, 0x1fffea, 21)
    ensures Conforms(END19_1010_11, 0x1fffeb, 21)
    ensures Conforms(END19_1010, 0x7fffa, 19)
  {
    Pow2Small();
  }

  lemma ConformsBit19Eights()
    ensures Conforms(END19_1011, 0x7fffb, 19)
    ensures Conforms(END19_1100, 0x7fffc, 19)
  {
    Pow2Small();
  }

  lemma ConformsBit19High()
    ensures Conforms(END23A_100, 0x3fffec, 22)
    ensures Conforms(END23A_101, 0x3fffed, 22)
    ensures Conforms(END23A_110, 0x3fffee, 22)
    ensures Conforms(END23A_111, 0x3fffef, 22)
    ensures Conforms(END19_1101, 0x7fffd, 19)
  {
    Pow2Small();
  }

  lemma ConformsBit19Full()
    ensures Conforms(END19_1110, 0x7fffe, 19)
  {
    Pow2Small();
  }

  lemma ConformsBit15()
    ensures Conforms(END15_1, 0x7fff, 15)
  {
    Pow2Small();
    ConformsBit19Ones();
    ConformsBit19Low();
    ConformsBit19Ten();
    ConformsBit19Eights();
    ConformsBit19High();
    ConformsBit19Full();
  }

  lemma ConformsBit13()
    ensures Conforms(END14_0, 0x3ffe, 14)
    ensures Conforms(END14_1, 0x3fff, 14)
    ensures Conforms(END13_10, 0x1ffe, 13)
    ensures Conforms(END13_11, 0x1fff, 13)
  {
    Pow2Small();
    ConformsBit15();
  }

  lemma ConformsBit9()
    ensures Conforms(END9B_01, 0x7fd, 11)
    ensures Conforms(END9B_10, 0x7fe, 11)
    ensures Conforms(END9B_11, 0x7ff, 11)
    ensures Conforms(END9A_1, 0x3fd, 10)
  {
    Pow2Small();
    ConformsBit13();
  }

  lemma ConformsBit7()
    ensures Conforms(END8_0, 0x1fe, 9)
    ensures Conforms(END8_1, 0x1ff, 9)
    ensures Conforms(END7_0, 0xfe, 8)
    ensures Conforms(END7_1, 0xff, 8)
  {
    Pow2Small();
    ConformsBit9();
  }

  lemma ConformsBit5Ones()
    ensures Conforms(END5_00, 0x7c, 7)
    ensures Conforms(END5_01, 0x7d, 7)
    ensures Conforms(END5_10, 0x7e, 7)
    ensures Conforms(END5_11, 0x7f, 7)
    ensures Conforms(END0_11111, 0x1f, 5)
  {
    Pow2Small();
    ConformsBit7();
  }

  lemma ConformsBit5Pairs()
    ensures Conforms(END0_01010, 0xa, 5)
    ensures Conforms(END0_01011, 0xb, 5)
    ensures Conforms(END0_01100, 0xc, 5)
    ensures Conforms(END0_01101, 0xd, 5)
    ensures Conforms(END0_01110, 0xe, 5)
    ensures Conforms(END0_01111, 0xf, 5)
    ensures Conforms(END0_10000, 0x10, 5)
  {
    Pow2Small();
  }

  lemma ConformsBit5MorePairs()
    ensures Conforms(END0_10001, 0x11, 5)
    ensures Conforms(END0_10010, 0x12, 5)
    ensures Conforms(END0_10011, 0x13, 5)
    ensures Conforms(END0_10100, 0x14, 5)
    ensures Conforms(END0_10101, 0x15, 5)
    ensures Conforms(END0_10110, 0x16, 5)
  {
    Pow2Small();
  }

  lemma ConformsBit5Fours()
    ensures Conforms(END0_10111, 0x17, 5)
    ensures Conforms(END0_11000, 0x18, 5)
    ensures Conforms(END0_11001, 0x19, 5)
    ensures Conforms(END0_11010, 0x1a, 5)
  {
    Pow2Small();
  }

  lemma ConformsBit5MoreFours()
    ensures Conforms(END0_11011, 0x1b, 5)
    ensures Conforms(END0_11100, 0x1c, 5)
    ensures Conforms(END0_11101, 0x1d, 5)
    ensures Conforms(END0_11110, 0x1e, 5)
  {
    Pow2Small();
  }

  lemma ConformsRoot()
    ensures Conforms(HPACK_STRING, 0x0, 0)
  {
    Pow2Small();
    ConformsBit5Ones();
    ConformsBit5Pairs();
    ConformsBit5MorePairs();
    ConformsBit5Fours();
    ConformsBit5MoreFours();
  }

  // ---- Leaves stand where their code words lead ----

  /** The bits of a byte's code word. */
  function CodeBits(b: byte): bits {
    ToBits(AppendixB(b).value, AppendixB(b).length)
  }

  lemma {:induction false} PathSpellsCode(d: Decoder, value: nat, length: nat, p: bits, b: byte)
    requires Conforms(d, value, length) && IsPath(d, p, b)
    ensures AppendixB(b) == CodeWord(value * Pow2(|p|) + Value(p), length + |p|)
    decreases d
  {
    hide AppendixB, Pow2, Value, Walk, AllOnes;
    var k := d.lookup;
    WalkHop(d, p);
    var v := Value(p[..k]);
    SplitValue(value, p, k);
    if d.table[v].Partial? {
      PathSpellsCode(d.table[v].node, value * Pow2(k) + v, length + k, p[k..], b);
    } else {
      assert p[..k] == p;
    }
  }

  lemma SplitValue(value: nat, p: bits, k: nat)
    requires k <= |p|
    ensures (value * Pow2(k) + Value(p[..k])) * Pow2(|p| - k) + Value(p[k..]) == value * Pow2(|p|) + Value(p)
  {
    assert p == p[..k] + p[k..];
    ValueConcat(p[..k], p[k..]);
    Pow2Add(k, |p| - k);
    Regroup(value, Pow2(k), Value(p[..k]), Pow2(|p| - k));
  }

  lemma Regroup(a: nat, p: nat, v: nat, q: nat)
    ensures (a * p + v) * q == a * (p * q) + v * q
  {
    assert (a * p) * q == a * (p * q);
  }

  // ---- Every byte has a leaf: the leaves are distinct, and there are 256 ----

  function Leaves(d: Decoder): seq<byte>
    decreases d, 1
  {
    LeavesOf(d.table)
  }

  function LeavesOf(t: seq<Entry>): seq<byte>
    decreases t, 0
  {
    if t == [] then [] else EntryLeaves(t[0]) + LeavesOf(t[1..])
  }

  function EntryLeaves(e: Entry): seq<byte>
    decreases e, 0
  {
    match e
    case Sym(x) => [x]
    case Partial(n) => Leaves(n)
  }

  ghost predicate Distinct(s: seq<byte>) {
    forall i, j :: 0 <= i < j < |s| ==> s[i] != s[j]
  }

  lemma {:induction false} LeafHasPath(d: Decoder, value: nat, length: nat, b: byte) returns (p: bits)
    requires Conforms(d, value, length) && b in Leaves(d)
    ensures IsPath(d, p, b)
    decreases d, |d.table| + 1
  {
    hide AppendixB, Walk;
    assert d.table[0..] == d.table;
    var j, q := EntryHasPath(d, value, length, 0, b);
    p := ToBits(j, d.lookup) + q;
  }

  /** A leaf listed from entry `i` on is reached through one of those entries. */
  lemma {:induction false} EntryHasPath(d: Decoder, value: nat, length: nat, i: nat, b: byte) returns (j: nat, q: bits)
    requires Conforms(d, value, length) && i <= |d.table| && b in LeavesOf(d.table[i..])
    ensures i <= j < |d.table| && j < Pow2(d.lookup) && IsPath(d, ToBits(j, d.lookup) + q, b)
    decreases d, |d.table| - i
  {
    hide AppendixB, Walk, AllOnes, ToBits, Value, Pow2;
    assert d.table[i..][0] == d.table[i] && d.table[i..][1..] == d.table[i + 1..];
    if b in EntryLeaves(d.table[i]) {
      j, q := i, [];
      if d.table[i].Partial? {
        q := LeafHasPath(d.table[i].node, value * Pow2(d.lookup) + i, length + d.lookup, b);
      }
      ThroughEntry(d, i, q, b);
    } else {
      j, q := EntryHasPath(d, value, length, i + 1, b);
    }
  }

  lemma ThroughEntry(d: Decoder, i: nat, q: bits, b: byte)
    requires i < |d.table| && i < Pow2(d.lookup)
    requires match d.table[i] case Sym(x) => x == b && q == [] case Partial(n) => IsPath(n, q, b)
    ensures IsPath(d, ToBits(i, d.lookup) + q, b)
  {
    var p := ToBits(i, d.lookup) + q;
    WalkHop(d, p);
    assert p[..d.lookup] == ToBits(i, d.lookup) && p[d.lookup..] == q;
  }

  /** No byte stands at two leaves: both paths would spell its one code word. */
  lemma {:induction false} LeavesDistinct(d: Decoder, value: nat, length: nat)
    requires Conforms(d, value, length)
    ensures Distinct(Leaves(d))
    decreases d, |d.table| + 1
  {
    hide AppendixB, Distinct;
    assert d.table[0..] == d.table;
    EntriesDistinct(d, value, length, 0);
  }

  lemma {:induction false} EntryDistinct(d: Decoder, value: nat, length: nat, i: nat)
    requires Conforms(d, value, length) && i < |d.table|
    ensures Distinct(EntryLeaves(d.table[i]))
    decreases d, 0
  {
    hide AppendixB;
    if d.table[i].Partial? {
      LeavesDistinct(d.table[i].node, value * Pow2(d.lookup) + i, length + d.lookup);
    }
  }

  lemma {:induction false} EntriesDistinct(d: Decoder, value: nat, length: nat, i: nat)
    requires Conforms(d, value, length) && i <= |d.table|
    ensures Distinct(LeavesOf(d.table[i..]))
    decreases d, |d.table| - i
  {
    hide AppendixB, Conforms, EntryLeaves;
    if i < |d.table| {
      var first, later := EntryLeaves(d.table[i]), LeavesOf(d.table[i + 1..]);
      assert d.table[i..][0] == d.table[i] && d.table[i..][1..] == d.table[i + 1..];
      EntriesDistinct(d, value, length, i + 1);
      EntryDistinct(d, value, length, i);
      forall b: byte | b in first ensures b !in later {
        LaterEntryDiffers(d, value, length, i, b);
      }
      DistinctConcat(first, later);
    }
  }

  lemma LaterEntryDiffers(d: Decoder, value: nat, length: nat, i: nat, b: byte)
    requires Conforms(d, value, length) && i < |d.table| && b in EntryLeaves(d.table[i])
    ensures b !in LeavesOf(d.table[i + 1..])
  {
    hide AppendixB, Walk, Value, Pow2, ToBits;
    if b in LeavesOf(d.table[i + 1..]) {
      var j, r := EntryHasPath(d, value, length, i + 1, b);
      var q := [];
      if d.table[i].Partial? {
        q := LeafHasPath(d.table[i].node, value * Pow2(d.lookup) + i, length + d.lookup, b);
      }
      ThroughEntry(d, i, q, b);
      var k := d.lookup;
      var x, y := ToBits(i, k), ToBits(j, k);
      assert Value(x) == i && Value(y) == j;
      assert (x + q)[..k] == x && (y + r)[..k] == y;
      OnePath(d, value, length, x + q, y + r, b);
    }
  }

  lemma OnePath(d: Decoder, value: nat, length: nat, p: bits, q: bits, b: byte)
    requires Conforms(d, value, length) && IsPath(d, p, b) && IsPath(d, q, b)
    ensures p == q
  {
    hide AppendixB, Conforms, IsPath, Pow2;
    PathSpellsCode(d, value, length, p, b);
    PathSpellsCode(d, value, length, q, b);
    assert Pow2(|p|) == Pow2(|q|);
    ValueInjective(p, q);
  }

  lemma DistinctConcat(a: seq<byte>, b: seq<byte>)
    requires Distinct(a) && Distinct(b) && forall x: byte :: x in a ==> x !in b
    ensures Distinct(a + b)
  {
    var s := a + b;
    forall i, j | 0 <= i < j < |s| ensures s[i] != s[j] {
      if i < |a| <= j {
        assert a[i] in a && b[j - |a|] in b;
      }
    }
  }

  /** Distinct bytes are at most 256, and 256 of them are all. */
  lemma AllBytes(s: seq<byte>, b: byte)
    requires Distinct(s) && |s| == 256
    ensures b in s
  {
    var present := Elements(s);
    if b !in s {
      SubsetCount(present + {b}, Below(256));
    }
  }

  ghost function Below(n: nat): (r: set<int>)
    ensures |r| == n && forall x :: x in r <==> 0 <= x < n
  {
    if n == 0 then {} else Below(n - 1) + {n - 1}
  }

  ghost function Elements(s: seq<byte>): (r: set<int>)
    ensures forall x :: x in r ==> 0 <= x < 256
    ensures forall x: byte :: x in r <==> x in s
    ensures Distinct(s) ==> |r| == |s|
  {
    if s == [] then {} else
      var n := |s| - 1;
      assert s == s[..n] + [s[n]];
      Elements(s[..n]) + {s[n]}
  }

  lemma SubsetCount(a: set<int>, b: set<int>)
    requires a <= b
    ensures |a| <= |b|
  {
    assert b == a + (b - a);
    assert a * (b - a) == {};
  }

  // ---- Counting the leaves ----

  /** A stretch of entries with `c` leaves each. */
  lemma {:induction false} LeafCount(t: seq<Entry>, i: nat, j: nat, c: nat)
    requires i <= j <= |t| && forall k :: i <= k < j ==> |EntryLeaves(t[k])| == c
    ensures |LeavesOf(t[i..])| == c * (j - i) + |LeavesOf(t[j..])|
    decreases j - i
  {
    if i < j {
      assert t[i..][0] == t[i] && t[i..][1..] == t[i + 1..];
      LeafCount(t, i + 1, j, c);
      assert c * (j - i) == c * (j - i - 1) + c;
    }
  }

  /** A node whose `c` entries are all symbols. */
  predicate IsSymbols(e: Entry, c: nat) {
    e.Partial? && |e.node.table| == c && forall i :: 0 <= i < c ==> e.node.table[i].Sym?
  }

  lemma SymbolsCount(e: Entry, c: nat)
    requires IsSymbols(e, c)
    ensures |EntryLeaves(e)| == c
  {
    var t := e.node.table;
    assert t[0..] == t && t[c..] == [];
    LeafCount(t, 0, c, 1);
  }

  /** Leaves of a table of symbols up to `m`, nodes of `c` symbols up to `n`, and more. */
  lemma CountTo(t: seq<Entry>, m: nat, n: nat, c: nat)
    requires m <= n <= |t|
    requires forall i :: 0 <= i < m ==> t[i].Sym?
    requires forall i :: m <= i < n ==> IsSymbols(t[i], c)
    ensures |LeavesOf(t)| == m + c * (n - m) + |LeavesOf(t[n..])|
  {
    hide IsSymbols, LeavesOf;
    assert t[0..] == t;
    LeafCount(t, 0, m, 1);
    NodesCount(t, m, n, c);
  }

  lemma NodesCount(t: seq<Entry>, m: nat, n: nat, c: nat)
    requires m <= n <= |t| && forall i :: m <= i < n ==> IsSymbols(t[i], c)
    ensures |LeavesOf(t[m..])| == c * (n - m) + |LeavesOf(t[n..])|
  {
    hide IsSymbols, LeavesOf, EntryLeaves;
    forall k | m <= k < n ensures |EntryLeaves(t[k])| == c {
      SymbolsCount(t[k], c);
    }
    LeafCount(t, m, n, c);
  }

  /** The last entry of a table is all that stands after the one before it. */
  lemma LastCount(t: seq<Entry>)
    requires t != []
    ensures |LeavesOf(t[|t| - 1..])| == |EntryLeaves(t[|t| - 1])|
  {
    var u := t[|t| - 1..];
    assert u[1..] == [];
  }

  lemma EmptyTable()
    ensures LeavesOf([]) == []
  {
  }

  lemma OneCount(t: seq<Entry>, i: nat)
    requires i < |t|
    ensures |LeavesOf(t[i..])| == |EntryLeaves(t[i])| + |LeavesOf(t[i + 1..])|
  {
    LeafCount(t, i, i + 1, |EntryLeaves(t[i])|);
  }

  lemma CountBit23()
    ensures |Leaves(END27B_1111)| == 4 && |Leaves(END23B_1111)| == 33
  {
    hide LeavesOf;
    assert Leaves(EOF) == [] by { EmptyTable(); }
    CountTo(END31_1.table, 3, 3, 0);
    LastCount(END31_1.table);
    CountTo(END27B_1111.table, 1, 1, 0);
    LastCount(END27B_1111.table);
    CountTo(END23B_1111.table, 1, 15, 2);
    LastCount(END23B_1111.table);
  }

  lemma CountBit19()
    ensures |Leaves(END19_1010)| == 7 && |Leaves(END19_1101)| == 12 && |Leaves(END23B_1101)| == 9
  {
    CountTo(END19_1010.table, 1, 4, 2);
    CountTo(END19_1101.table, 4, 8, 2);
    CountTo(END23B_1101.table, 7, 8, 2);
  }

  lemma CountBit19OnesHigh()
    ensures |LeavesOf(END19_1111.table[11..])| == 70
  {
    hide LeavesOf;
    CountBit19();
    CountBit23();
    var t := END19_1111.table;
    NodesCount(t, 11, 12, 4);
    NodesCount(t, 12, 13, 8);
    OneCount(t, 13);
    NodesCount(t, 14, 15, 16);
    LastCount(t);
  }

  lemma CountBit19Ones()
    ensures |Leaves(END19_1111)| == 87
  {
    hide LeavesOf;
    CountBit19OnesHigh();
    CountTo(END19_1111.table, 5, 11, 2);
  }

  lemma CountBit15High()
    ensures |LeavesOf(END15_1.table[10..])| == 138
  {
    hide LeavesOf;
    CountBit19();
    CountBit19Ones();
    var t := END15_1.table;
    OneCount(t, 10);
    NodesCount(t, 11, 13, 8);
    OneCount(t, 13);
    NodesCount(t, 14, 15, 16);
    LastCount(t);
  }

  lemma CountBit15()
    ensures |Leaves(END15_1)| == 161
  {
    hide LeavesOf;
    CountBit15High();
    CountTo(END15_1.table, 3, 7, 2);
    NodesCount(END15_1.table, 7, 10, 4);
  }

  lemma CountBit9()
    ensures |Leaves(END9B_11)| == 168
  {
    hide LeavesOf;
    CountBit15();
    CountTo(END14_1.table, 1, 1, 0);
    LastCount(END14_1.table);
    CountTo(END13_11.table, 0, 1, 2);
    LastCount(END13_11.table);
    CountTo(END9B_11.table, 2, 3, 2);
    LastCount(END9B_11.table);
  }

  lemma CountBit7()
    ensures |Leaves(END7_1)| == 178
  {
    hide LeavesOf;
    CountBit9();
    CountTo(END8_1.table, 1, 2, 2);
    NodesCount(END8_1.table, 2, 3, 4);
    LastCount(END8_1.table);
    CountTo(END8_0.table, 1, 2, 2);
    EmptyTable();
    assert END8_0.table[2..] == [];
    CountTo(END7_1.table, 0, 0, 0);
    OneCount(END7_1.table, 0);
    LastCount(END7_1.table);
  }

  lemma CountRoot()
    ensures |Leaves(HPACK_STRING)| == 256
  {
    hide LeavesOf;
    CountBit7();
    CountTo(END5_11.table, 0, 1, 4);
    LastCount(END5_11.table);
    CountTo(END0_11111.table, 0, 3, 2);
    LastCount(END0_11111.table);
    CountTo(HPACK_STRING.table, 10, 23, 2);
    NodesCount(HPACK_STRING.table, 23, 31, 4);
    LastCount(HPACK_STRING.table);
  }

  // ---- The tree is a code for the bytes ----

  /** Every byte value has exactly one leaf, at the end of its code word. */
  lemma EveryByteOneLeaf()
    ensures LeafMap(HPACK_STRING, CodeBits)
  {
    hide AppendixB, Leaves, Conforms, IsPath;
    ConformsRoot();
    CountRoot();
    LeavesDistinct(HPACK_STRING, 0, 0);
    forall b: byte, p: bits ensures IsPath(HPACK_STRING, p, b) <==> p == CodeBits(b) {
      AllBytes(Leaves(HPACK_STRING), b);
      var q := LeafHasPath(HPACK_STRING, 0, 0, b);
      PathIsCode(q, b);
      if IsPath(HPACK_STRING, p, b) {
        PathIsCode(p, b);
      }
    }
  }

  lemma PathIsCode(p: bits, b: byte)
    requires IsPath(HPACK_STRING, p, b)
    ensures p == CodeBits(b)
  {
    hide AppendixB, Conforms, IsPath, Pow2;
    ConformsRoot();
    PathSpellsCode(HPACK_STRING, 0, 0, p, b);
    ToBitsOfValue(p);
  }

  /** Up to seven ones stop inside the tree: padding is no symbol. */
  lemma PaddingEnds()
    ensures PaddingSafe(HPACK_STRING)
  {
    forall k: nat | k < 8 ensures Walk(HPACK_STRING, [], Ones(k)) == End {
      OnesHop(HPACK_STRING, k);
      if k >= 5 {
        OnesHop(END0_11111, k - 5);
        if k == 7 {
          OnesHop(END5_11, 0);
        }
      }
    }
  }

  lemma OnesHop(d: Decoder, k: nat)
    ensures Walk(d, [], Ones(k)) ==
            if d.lookup <= k then Enter(d, Pow2(d.lookup) - 1, Ones(k - d.lookup)) else End
  {
    WalkHop(d, Ones(k));
    if d.lookup <= k {
      assert Ones(k)[..d.lookup] == Ones(d.lookup) && Ones(k)[d.lookup..] == Ones(k - d.lookup);
      AllOnesValue(Ones(d.lookup));
    }
  }

  // ---- The end-of-string node ----

  /** A value beyond a table is met only below the thirty ones of EOS. */
  lemma {:induction false} OverrunSpellsEos(d: Decoder, value: nat, length: nat, s: bits)
    requires Conforms(d, value, length) && Walk(d, [], s).Overrun?
    ensures length <= 30 && |s| >= 30 - length + 8
    ensures value * Pow2(30 - length) + Value(s[..30 - length]) == 0x3fffffff
    decreases d
  {
    hide AppendixB, Walk, Pow2, Value;
    Pow2Small();
    WalkHop(d, s);
    var k := d.lookup;
    var v := Value(s[..k]);
    ValueBound(s[..k]);
    if v < |d.table| {
      var n := d.table[v].node;
      OverrunSpellsEos(n, value * Pow2(k) + v, length + k, s[k..]);
      var m := 30 - length - k;
      assert s[..k + m][..k] == s[..k] && s[..k + m][k..] == s[k..][..m];
      SplitValue(value, s[..k + m], k);
    } else {
      assert d.table == [];
      assert value * Pow2(0) + Value(s[..0]) == value by { ValueBound(s[..0]); }
    }
  }

  lemma OnesThen(d: Decoder, n: nat, rest: bits)
    requires d.lookup <= n
    ensures Walk(d, [], Ones(n) + rest) == Enter(d, Pow2(d.lookup) - 1, Ones(n - d.lookup) + rest)
  {
    var s := Ones(n) + rest;
    WalkHop(d, s);
    assert s[..d.lookup] == Ones(d.lookup) && s[d.lookup..] == Ones(n - d.lookup) + rest;
    AllOnesValue(Ones(d.lookup));
  }

  /** Fifteen ones lead from the root to the first node of long codes. */
  lemma SpineTop(n: nat, rest: bits)
    requires n >= 15
    ensures Walk(HPACK_STRING, [], Ones(n) + rest) == Walk(END15_1, [], Ones(n - 15) + rest)
  {
    hide Walk, Ones;
    Pow2Small();
    OnesThen(HPACK_STRING, n, rest);
    OnesThen(END0_11111, n - 5, rest);
    OnesThen(END5_11, n - 7, rest);
    OnesThen(END7_1, n - 8, rest);
    OnesThen(END8_1, n - 9, rest);
    OnesThen(END9B_11, n - 11, rest);
    OnesThen(END13_11, n - 13, rest);
    OnesThen(END14_1, n - 14, rest);
  }

  /** Fifteen more lead to the end-of-string node. */
  lemma SpineBottom(n: nat, rest: bits)
    requires n >= 15
    ensures Walk(END15_1, [], Ones(n) + rest) == Walk(EOF, [], Ones(n - 15) + rest)
  {
    hide Walk, Ones;
    Pow2Small();
    OnesThen(END15_1, n, rest);
    OnesThen(END19_1111, n - 4, rest);
    OnesThen(END23B_1111, n - 8, rest);
    OnesThen(END27B_1111, n - 12, rest);
    OnesThen(END31_1, n - 13, rest);
  }

  lemma OverrunNeedsEos(s: bits)
    requires Walk(HPACK_STRING, [], s).Overrun?
    ensures |s| >= 38 && AllOnes(s[..30])
  {
    hide *;
    ConformsRoot();
    OverrunSpellsEos(HPACK_STRING, 0, 0, s);
    AllOnesValue(s[..30]);
    Pow2Thirty();
  }

  lemma EosOverruns(s: bits)
    requires |s| >= 38 && AllOnes(s[..30])
    ensures Walk(HPACK_STRING, [], s) == Overrun(8, Value(s[30..38]), s[38..])
  {
    hide Walk, Conforms, AppendixB, Pow2, Value, AllOnes, Ones;
    var rest := s[30..];
    AllOnesIsOnes(s[..30]);
    assert s == Ones(30) + rest;
    SpineTop(30, rest);
    SpineBottom(15, rest);
    assert Ones(0) + rest == rest;
    WalkHop(EOF, rest);
    assert rest[..8] == s[30..38] && rest[8..] == s[38..];
  }

  /** The decoder reports an unhandled value exactly on the thirty ones of the
      end-of-string code with at least eight bits after them. */
  lemma OverrunExact(s: bits)
    ensures Walk(HPACK_STRING, [], s).Overrun? <==> |s| >= 38 && AllOnes(s[..30])
    ensures |s| >= 38 && AllOnes(s[..30]) ==> Walk(HPACK_STRING, [], s) == Overrun(8, Value(s[30..38]), s[38..])
  {
    hide *;
    if Walk(HPACK_STRING, [], s).Overrun? {
      OverrunNeedsEos(s);
    }
    if |s| >= 38 && AllOnes(s[..30]) {
      EosOverruns(s);
    }
  }

  /** A node of more than five bits is reached only by the thirty ones of EOS. */
  lemma {:induction false} WideNodeSpellsEos(d: Decoder, value: nat, length: nat, s: bits, n: Decoder)
    requires Conforms(d, value, length) && LeadsTo(d, s, n) && n.lookup > 5
    ensures n.lookup == 8 && length + |s| == 30 && value * Pow2(|s|) + Value(s) == 0x3fffffff
    decreases d
  {
    hide AppendixB, Pow2, Value;
    var k := d.lookup;
    if s == [] && n == d {
      assert value * Pow2(0) + Value([]) == value by { NoBits(); }
    } else {
      var v := Value(s[..k]);
      WideNodeSpellsEos(d.table[v].node, value * Pow2(k) + v, length + k, s[k..], n);
      SplitValue(value, s, k);
    }
  }

  lemma NoBits()
    ensures Value([]) == 0 && Pow2(0) == 1
  {
  }

  /** The tree reads more than five bits at once only behind EOS, and then eight. */
  lemma WideNodeExact(s: bits)
    ensures (exists n :: LeadsTo(HPACK_STRING, s, n) && n.lookup > 5) <==> s == Ones(30)
    ensures forall n :: LeadsTo(HPACK_STRING, s, n) ==> n.lookup <= 5 || n.lookup == 8
  {
    hide *;
    forall n | LeadsTo(HPACK_STRING, s, n) && n.lookup > 5 ensures s == Ones(30) && n.lookup == 8 {
      ConformsRoot();
      WideNodeSpellsEos(HPACK_STRING, 0, 0, s, n);
      AllOnesValue(s);
      Pow2Thirty();
      AllOnesIsOnes(s);
    }
    if s == Ones(30) {
      var n := EosNode();
    }
  }

  lemma EosNode() returns (n: Decoder)
    ensures LeadsTo(HPACK_STRING, Ones(30), n) && n.lookup == 8
  {
    hide Walk, Conforms, AppendixB, Pow2, Value, AllOnes, Ones, LeadsTo;
    var s := Ones(30) + [false];
    SpineTop(30, [false]);
    SpineBottom(15, [false]);
    assert Ones(0) + [false] == [false];
    WalkHop(EOF, [false]);
    assert !AllOnes([false]) by { NotOnes(); }
    MissingExact(HPACK_STRING, s, [false], 8);
    var j: nat, m :| StopsInside(HPACK_STRING, s, j, m) && s[j..] == [false] && m.lookup == 8;
    assert s[..j] == Ones(30);
    n := m;
  }

  lemma NotOnes()
    ensures !AllOnes([false])
  {
    assert ![false][0];
  }

  lemma Pow2Thirty()
    ensures Pow2(30) == 0x4000_0000
  {
    Pow2Small();
    Pow2Add(16, 8);
    Pow2Add(24, 6);
  }

  lemma AllOnesIsOnes(s: bits)
    requires AllOnes(s)
    ensures s == Ones(|s|)
  {
  }
}
