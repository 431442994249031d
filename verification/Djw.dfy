/** The DJW secondary compressor with one group: code lengths, written by move-to-front and a
    prefix code of their own, then the data.  Models xd3_encode_huff and xd3_decode_huff. */
module Djw {
  import opened Common
  import opened BitStream
  import C = Canonical
  import M = MoveToFront
  import H = Huffman

  const ALPHABET_SIZE: nat := 256
  const MAX_CODELEN: nat := 20
  const TOTAL_CODES: nat := 22
  const MAX_CLCLEN: nat := 15
  const EXTRA_OFFSET: nat := 7

  /** djw_init_clen_mtf_1_2: zero, the basic lengths, the extra ones. */
  function InitMtf(): (r: seq<nat>)
    ensures |r| == 21 && forall i :: 0 <= i < |r| ==> r[i] <= MAX_CODELEN
  {
    [0] + [4, 5, 6, 7, 8] + [9, 10, 3, 11, 2, 12, 13, 1, 14, 15, 16, 17, 18, 19, 20]
  }

  lemma AllLengthsListed(clen: seq<nat>)
    requires C.Bounded(clen, MAX_CODELEN)
    ensures M.Over(clen, InitMtf())
  {
    var l := InitMtf();
    assert l[0] == 0 && l[1] == 4 && l[2] == 5 && l[3] == 6 && l[4] == 7 && l[5] == 8 && l[6] == 9;
    assert l[7] == 10 && l[8] == 3 && l[9] == 11 && l[10] == 2 && l[11] == 12 && l[12] == 13 && l[13] == 1;
    assert l[14] == 14 && l[15] == 15 && l[16] == 16 && l[17] == 17 && l[18] == 18 && l[19] == 19 && l[20] == 20;
    forall i | 0 <= i < |clen| ensures clen[i] in l {
      assert clen[i] <= 20;
    }
  }

  // ---------------------------------------------------------------- what is written

  /** Trailing zero lengths beyond the basic ones are not sent. */
  function NumToEncode(clclen: seq<nat>, k: nat): (r: nat)
    requires EXTRA_OFFSET <= k <= |clclen|
    ensures EXTRA_OFFSET <= r <= k && forall i :: r <= i < k ==> clclen[i] == 0
    ensures r > EXTRA_OFFSET ==> clclen[r - 1] != 0
  {
    if k > EXTRA_OFFSET && clclen[k - 1] == 0 then NumToEncode(clclen, k - 1) else k
  }

  function LengthBits(lens: seq<nat>): seq<bool> {
    if lens == [] then [] else LengthBits(lens[..|lens| - 1]) + Bits(4, lens[|lens| - 1])
  }

  /** Lengths for a code of n symbols. */
  ghost predicate Code(clen: seq<nat>, n: nat, m: nat) {
    |clen| == n && C.Decodable(clen, m) && exists i :: 0 <= i < n && clen[i] > 0
  }

  /** The move-to-front codes of the lengths. */
  function LengthCodes(clen: seq<nat>): seq<nat>
    requires C.Bounded(clen, MAX_CODELEN)
  {
    AllLengthsListed(clen);
    M.Encode(InitMtf(), clen, 0).0
  }

  /** Everything the prefix and the data use has a code. */
  ghost predicate Complete(clen: seq<nat>, clclen: seq<nat>, data: seq<byte>) {
    && Code(clen, ALPHABET_SIZE, MAX_CODELEN) && Code(clclen, TOTAL_CODES, MAX_CLCLEN)
    && M.AllCoded(clclen, LengthCodes(clen)) && M.AllCoded(clen, data)
  }

  ghost function PrefixBits(clen: seq<nat>, clclen: seq<nat>): seq<bool>
    requires C.Bounded(clen, MAX_CODELEN) && |clclen| == TOTAL_CODES && M.AllCoded(clclen, LengthCodes(clen))
  {
    var num := NumToEncode(clclen, TOTAL_CODES);
    Bits(4, num - EXTRA_OFFSET) + LengthBits(clclen[..num]) + M.CodesBits(clclen, LengthCodes(clen))
  }

  /** The bits for a section: one group, its prefix, the data. */
  ghost function Message(clen: seq<nat>, clclen: seq<nat>, data: seq<byte>): seq<bool>
    requires Complete(clen, clclen, data)
  {
    Bits(3, 0) + PrefixBits(clen, clclen) + M.CodesBits(clen, data)
  }

  // ---------------------------------------------------------------- what is read

  function TakeBits(bits: seq<bool>, n: nat): Option<(nat, seq<bool>)> {
    if |bits| < n then None else Some((Value(bits[..n]), bits[n..]))
  }

  function ReadLengths(bits: seq<bool>, k: nat): (r: Option<(seq<nat>, seq<bool>)>)
    ensures r.Some? ==> |r.value.0| == k && C.Bounded(r.value.0, MAX_CLCLEN)
  {
    if k == 0 then Some(([], bits))
    else
      match ReadLengths(bits, k - 1)
      case None => None
      case Some((lens, rest)) =>
        match TakeBits(rest, 4)
        case None => None
        case Some((v, rest')) =>
          FourBits(rest);
          Some((lens + [v], rest'))
  }

  lemma FourBits(bits: seq<bool>)
    requires |bits| >= 4
    ensures Value(bits[..4]) <= 15
  {
    BitsValue(bits[..4]);
    assert Pow2(4) == 16;
  }

  /** djw_decode_clclen: the lengths of the codes for lengths. */
  function ReadClclen(bits: seq<bool>): (r: Option<(seq<nat>, seq<bool>)>)
    ensures r.Some? ==> |r.value.0| == TOTAL_CODES && C.Bounded(r.value.0, MAX_CLCLEN)
  {
    match TakeBits(bits, 4)
    case None => None
    case Some((extra, rest)) =>
      FourBits(bits);
      match ReadLengths(rest, extra + EXTRA_OFFSET)
      case None => None
      case Some((lens, rest')) => Some((lens + Repeat(0, TOTAL_CODES - |lens|), rest'))
  }

  /** n symbols of the data. */
  function ReadSymbols(t: C.Tables, bits: seq<bool>, n: nat): Option<(seq<nat>, seq<bool>)>
    requires t.maxLen < |t.limit| && t.maxLen < |t.base|
  {
    if n == 0 then Some(([], bits))
    else
      match ReadSymbols(t, bits, n - 1)
      case None => None
      case Some((syms, rest)) =>
        match C.DecodeSymbol(t, rest, ALPHABET_SIZE)
        case None => None
        case Some((sym, rest')) => Some((syms + [sym], rest'))
  }

  /** xd3_decode_huff for one group: the data and the bits left. */
  function DecodeHuff(bits: seq<bool>, count: nat): Option<(seq<nat>, seq<bool>)> {
    if count == 0 then None
    else
      match TakeBits(bits, 3)
      case None => None
      case Some((groups, rest)) =>
        if groups != 0 then None
        else
          match ReadClclen(rest)
          case None => None
          case Some((clclen, rest')) =>
            var t := C.TablesOf(clclen, MAX_CLCLEN);
            match M.Resume(t, InitMtf(), rest', ALPHABET_SIZE, 0, 0, 0)
            case None => None
            case Some((clen, rest'', _)) =>
              ResumeBounded(t, InitMtf(), rest', ALPHABET_SIZE, 0, 0, 0);
              ReadSymbols(C.TablesOf(clen, MAX_CODELEN), rest'', count)
  }

  /** Values come from the list. */
  lemma {:induction false} ResumeBounded(t: C.Tables, list: seq<nat>, bits: seq<bool>, left: nat, rep: nat, mtf: nat,
                                         s: nat)
    requires t.maxLen < |t.limit| && t.maxLen < |t.base| && C.Bounded(list, MAX_CODELEN)
    ensures var r := M.Resume(t, list, bits, left, rep, mtf, s);
            r.Some? ==> |r.value.0| == left && C.Bounded(r.value.0, MAX_CODELEN)
    decreases left, if rep == 0 && mtf == 0 then 1 else 0
  {
    hide C.DecodeSymbol;
    if left == 0 {
    } else if rep != 0 {
      ResumeBounded(t, list, bits, left - 1, rep - 1, mtf, s);
    } else if mtf != 0 {
      if mtf < |list| {
        ResumeBounded(t, M.ToFront(list, mtf), bits, left - 1, 0, 0, s);
      }
    } else {
      var d := C.DecodeSymbol(t, bits, 22);
      if d.Some? {
        if d.value.0 <= M.RUN_1 {
          ResumeBounded(t, list, d.value.1, left, (d.value.0 + 1) * Pow2(s), 0, s + 1);
        } else {
          ResumeBounded(t, list, d.value.1, left, 0, d.value.0 - 1, 0);
        }
      }
    }
  }

  // ---------------------------------------------------------------- round trip

  lemma TakeWritten(n: nat, v: nat, rest: seq<bool>)
    requires v < Pow2(n)
    ensures TakeBits(Bits(n, v) + rest, n) == Some((v, rest))
  {
    ValueBits(n, v);
    assert (Bits(n, v) + rest)[..n] == Bits(n, v) && (Bits(n, v) + rest)[n..] == rest;
  }

  lemma {:induction false} ReadWrittenLengths(lens: seq<nat>, rest: seq<bool>)
    requires C.Bounded(lens, MAX_CLCLEN)
    ensures ReadLengths(LengthBits(lens) + rest, |lens|) == Some((lens, rest))
    decreases |lens|
  {
    if lens == [] {
      assert LengthBits(lens) + rest == rest;
    } else {
      var front, l := lens[..|lens| - 1], lens[|lens| - 1];
      assert LengthBits(lens) + rest == LengthBits(front) + (Bits(4, l) + rest);
      ReadWrittenLengths(front, Bits(4, l) + rest);
      assert Pow2(4) == 16;
      TakeWritten(4, l, rest);
      assert lens == front + [l];
    }
  }

  lemma ReadWrittenClclen(clclen: seq<nat>, rest: seq<bool>)
    requires |clclen| == TOTAL_CODES && C.Bounded(clclen, MAX_CLCLEN)
    ensures var num := NumToEncode(clclen, TOTAL_CODES);
            ReadClclen(Bits(4, num - EXTRA_OFFSET) + (LengthBits(clclen[..num]) + rest)) == Some((clclen, rest))
  {
    hide LengthBits, ReadLengths, Bits, TakeBits, NumToEncode;
    var num := NumToEncode(clclen, TOTAL_CODES);
    assert Pow2(4) == 16;
    TakeWritten(4, num - EXTRA_OFFSET, LengthBits(clclen[..num]) + rest);
    ReadWrittenLengths(clclen[..num], rest);
    assert clclen[..num] + Repeat(0, TOTAL_CODES - num) == clclen;
  }

  lemma {:induction false} CodesBitsSnoc(clen: seq<nat>, codes: seq<nat>, c: nat)
    requires c < |clen| && forall i :: 0 <= i < |codes| ==> codes[i] < |clen|
    ensures M.CodesBits(clen, codes + [c]) == M.CodesBits(clen, codes) + C.CodeBits(clen, c)
    decreases |codes|
  {
    hide C.CodeBits;
    if codes == [] {
      assert ([] + [c])[1..] == [];
      assert C.CodeBits(clen, c) + [] == [] + C.CodeBits(clen, c);
    } else {
      CodesBitsSnoc(clen, codes[1..], c);
      assert (codes + [c])[1..] == codes[1..] + [c];
    }
  }

  lemma {:induction false} ReadWrittenSymbols(clen: seq<nat>, data: seq<nat>, rest: seq<bool>)
    requires Code(clen, ALPHABET_SIZE, MAX_CODELEN) && M.AllCoded(clen, data)
    ensures ReadSymbols(C.TablesOf(clen, MAX_CODELEN), M.CodesBits(clen, data) + rest, |data|) == Some((data, rest))
    decreases |data|
  {
    hide C.TablesOf, C.DecodeSymbol, C.CodeBits, C.KraftSum;
    var t := C.TablesOf(clen, MAX_CODELEN);
    if data == [] {
      assert M.CodesBits(clen, data) + rest == rest;
    } else {
      var front, c := data[..|data| - 1], data[|data| - 1];
      assert data == front + [c];
      CodesBitsSnoc(clen, front, c);
      assert M.CodesBits(clen, data) + rest == M.CodesBits(clen, front) + (C.CodeBits(clen, c) + rest);
      ReadWrittenSymbols(clen, front, C.CodeBits(clen, c) + rest);
      CodeTables(clen, ALPHABET_SIZE, MAX_CODELEN);
      C.DecodeEncoded(t, clen, MAX_CODELEN, c, rest, ALPHABET_SIZE);
    }
  }

  lemma CodeTables(clen: seq<nat>, n: nat, m: nat)
    requires Code(clen, n, m)
    ensures C.Bounded(clen, m) && C.TablesFor(C.TablesOf(clen, m), clen, m)
  {
    var i :| 0 <= i < n && clen[i] > 0;
    C.TablesOfCoded(clen, m, i);
  }

  /** The parts of a message, in the order they are read. */
  lemma MessageParts(clen: seq<nat>, clclen: seq<nat>, data: seq<byte>, rest: seq<bool>)
    requires Complete(clen, clclen, data)
    ensures var num := NumToEncode(clclen, TOTAL_CODES);
            Message(clen, clclen, data) + rest
            == Bits(3, 0) + (Bits(4, num - EXTRA_OFFSET) + (LengthBits(clclen[..num])
               + (M.CodesBits(clclen, LengthCodes(clen)) + (M.CodesBits(clen, data) + rest))))
  {
    hide C.KraftSum, M.CodesBits, Bits, LengthBits, LengthCodes;
  }

  /** The decoder inverts the message, whatever bits follow it. */
  lemma RoundTrip(clen: seq<nat>, clclen: seq<nat>, data: seq<byte>, rest: seq<bool>)
    requires Complete(clen, clclen, data) && data != []
    ensures DecodeHuff(Message(clen, clclen, data) + rest, |data|) == Some((data, rest))
  {
    hide C.KraftSum, C.TablesFor, C.TablesOf, M.Resume, M.CodesBits, ReadSymbols, ReadClclen, TakeBits, Bits,
         LengthBits, Message, LengthCodes, NumToEncode, InitMtf;
    var num, codes := NumToEncode(clclen, TOTAL_CODES), LengthCodes(clen);
    var tail1 := M.CodesBits(clen, data) + rest;
    var tail2 := M.CodesBits(clclen, codes) + tail1;
    MessageParts(clen, clclen, data, rest);
    ThreeBits();
    TakeWritten(3, 0, Bits(4, num - EXTRA_OFFSET) + (LengthBits(clclen[..num]) + tail2));
    ReadWrittenClclen(clclen, tail2);
    ReadWrittenPrefix(clen, clclen, tail1);
    ReadWrittenSymbols(clen, data, rest);
  }

  lemma ThreeBits()
    ensures Pow2(3) == 8
  {
  }

  lemma ReadWrittenPrefix(clen: seq<nat>, clclen: seq<nat>, rest: seq<bool>)
    requires |clen| == ALPHABET_SIZE && C.Bounded(clen, MAX_CODELEN) && Code(clclen, TOTAL_CODES, MAX_CLCLEN)
    requires M.AllCoded(clclen, LengthCodes(clen))
    ensures var r := M.Resume(C.TablesOf(clclen, MAX_CLCLEN), InitMtf(), M.CodesBits(clclen, LengthCodes(clen)) + rest,
                              ALPHABET_SIZE, 0, 0, 0);
            r.Some? && r.value.0 == clen && r.value.1 == rest
  {
    hide C.KraftSum, C.TablesFor, C.TablesOf, M.Resume, C.DecodeSymbol, C.CodeBits, M.Encode, M.Decode;
    var t, list, codes := C.TablesOf(clclen, MAX_CLCLEN), InitMtf(), LengthCodes(clen);
    CodeTables(clclen, TOTAL_CODES, MAX_CLCLEN);
    AllLengthsListed(clen);
    M.DecodeEncoded(list, clen, 0);
    assert Repeat(list[0], 0) + clen == clen;
    M.ResumeCodes(t, clclen, MAX_CLCLEN, list, codes, ALPHABET_SIZE, 0, rest);
    assert M.CodesBits(clclen, []) + rest == rest;
  }
}
