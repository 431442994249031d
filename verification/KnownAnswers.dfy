/** Byte strings that anyone can check by hand: they fix the orders and constants that a round trip
    alone would leave open. */
module KnownAnswers {
  import opened Common
  import I = Integers
  import T = CodeTable
  import C = Checksums
  import B = BitStream
  import E = StreamEncoder
  import A = AddressCache
  import TruncatedDelta

  /** The example of section 2 of RFC 3284. */
  lemma IntegerExample()
    ensures I.Encode(123456789) == [0xba, 0xef, 0x9a, 0x15]
  {
    assert 123456789 / 128 == 964506 && 964506 / 128 == 7535 && 7535 / 128 == 58;
    assert I.Continued(58) == [0xba];
    assert I.Continued(7535) == [0xba, 0xef];
    assert I.Continued(964506) == [0xba, 0xef, 0x9a];
  }

  /** First and last rows of every group of the default code table (section 5.6 of RFC 3284). */
  lemma TableRows()
    ensures T.Entry(0) == T.DInst(2, 0, 0, 0)
    ensures T.Entry(1) == T.DInst(1, 0, 0, 0) && T.Entry(2) == T.DInst(1, 1, 0, 0)
    ensures T.Entry(18) == T.DInst(1, 17, 0, 0)
    ensures T.Entry(19) == T.DInst(3, 0, 0, 0) && T.Entry(20) == T.DInst(3, 4, 0, 0)
    ensures T.Entry(34) == T.DInst(3, 18, 0, 0) && T.Entry(35) == T.DInst(4, 0, 0, 0)
    ensures T.Entry(162) == T.DInst(11, 18, 0, 0)
    ensures T.Entry(163) == T.DInst(1, 1, 3, 4) && T.Entry(165) == T.DInst(1, 1, 3, 6)
    ensures T.Entry(166) == T.DInst(1, 2, 3, 4) && T.Entry(174) == T.DInst(1, 4, 3, 6)
    ensures T.Entry(175) == T.DInst(1, 1, 4, 4) && T.Entry(234) == T.DInst(1, 4, 8, 6)
    ensures T.Entry(235) == T.DInst(1, 1, 9, 4) && T.Entry(238) == T.DInst(1, 4, 9, 4)
    ensures T.Entry(239) == T.DInst(1, 1, 10, 4) && T.Entry(246) == T.DInst(1, 4, 11, 4)
    ensures T.Entry(247) == T.DInst(3, 4, 1, 1) && T.Entry(255) == T.DInst(11, 4, 1, 1)
  {
  }

  const WIKIPEDIA: seq<byte> := [87, 105, 107, 105, 112, 101, 100, 105, 97]

  lemma AdlerNext(data: seq<byte>, b: byte, s1: nat, s2: nat)
    requires C.Adler(1, 0, data) == (s1, s2) && s1 + b < 65521 && s2 + s1 + b < 65521
    ensures C.Adler(1, 0, data + [b]) == (s1 + b, s2 + s1 + b)
  {
    assert (data + [b])[..|data|] == data;
  }

  /** The checksum of a well-known word. */
  lemma ChecksumExample()
    ensures C.WindowAdler(WIKIPEDIA) == 0x11e60398
  {
    hide C.Adler;
    NoBytes();
    var w := [];
    AdlerNext(w, 87, 1, 0);
    w := w + [87];
    AdlerNext(w, 105, 88, 88);
    w := w + [105];
    AdlerNext(w, 107, 193, 281);
    w := w + [107];
    AdlerNext(w, 105, 300, 581);
    w := w + [105];
    AdlerNext(w, 112, 405, 986);
    w := w + [112];
    AdlerNext(w, 101, 517, 1503);
    w := w + [101];
    AdlerNext(w, 100, 618, 2121);
    w := w + [100];
    AdlerNext(w, 105, 718, 2839);
    w := w + [105];
    AdlerNext(w, 97, 823, 3662);
    assert w + [97] == WIKIPEDIA;
  }

  lemma NoBytes()
    ensures C.Adler(1, 0, []) == (1, 0)
  {
  }

  /** Bits fill a byte from its lowest bit on; a value goes out from its highest bit on. */
  lemma BitOrder()
    ensures B.Pack([true, false, false, false, false, false, false, false, false, true]) == [1, 2]
    ensures B.Bits(4, 8) == [true, false, false, false]
  {
    var first := [true, false, false, false, false, false, false, false];
    var all := [true, false, false, false, false, false, false, false, false, true];
    assert all[..8] == first && all[8..] == [false, true];
  }

  /** The smallest delta with a target, [7] from one ADD: magic, version and header indicator, then
      window indicator, length of the encoding, target size, delta indicator, three sizes, data and
      code. */
  lemma SmallestDelta()
    ensures E.FileBytes(None, [TruncatedDelta.Seven()])
         == [0xd6, 0xc3, 0xc4, 0, 0] + [0, 7, 1, 0, 1, 1, 0, 7, 2]
  {
    hide I.Encode;
    SmallNumber(0);
    SmallNumber(1);
    SmallNumber(7);
    var w := TruncatedDelta.Seven();
    assert [w][1..] == [];
    assert E.WindowBytes(w, []) == [0, 7, 1, 0, 1, 1, 0, 7, 2];
  }

  lemma SmallNumber(n: nat)
    requires n < 128
    ensures I.Encode(n) == [n]
  {
    assert n / 128 == 0;
  }

  /** Addresses 1000 and 2000 fill the first two near slots; near mode 2 with byte 5 is then 1005. */
  lemma NearExample(rest: seq<byte>)
    ensures var c := A.Init(4, 3).Update(1000).Update(2000);
            c.Valid() && c.Decode(5000, 2, [5] + rest) == Ok((1005, rest, c.Update(1005)))
  {
    hide I.Encode, I.Read;
    SmallNumber(5);
    I.ReadEncode(5, rest);
  }
}
