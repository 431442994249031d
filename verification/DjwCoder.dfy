/** The DJW coder as it runs: frequencies, tables and bits are changed in place. */
module DjwCoder {
  import opened Common
  import opened BitStream
  import opened Djw
  import C = Canonical
  import M = MoveToFront
  import H = Huffman

  const EFFICIENCY_BITS: nat := 16

  // ---------------------------------------------------------------- counting

  /** djw_count_freqs */
  method CountFreqs(data: seq<byte>) returns (freq: seq<nat>)
    ensures |freq| == ALPHABET_SIZE && M.Counts(freq, data)
  {
    hide M.Counts;
    var f := new nat[ALPHABET_SIZE](_ => 0);
    M.NoCounts(f[..]);
    assert data[..0] == [];
    for i := 0 to |data|
      invariant M.Counts(f[..], data[..i])
    {
      M.CountsSnoc(f[..], data[..i], data[i]);
      assert data[..i + 1] == data[..i] + [data[i]];
      f[data[i]] := f[data[i]] + 1;
    }
    assert data[..|data|] == data;
    freq := f[..];
  }

  /** What occurs has a frequency. */
  lemma {:induction false} CountedOccurs(syms: seq<nat>, i: nat)
    requires i < |syms|
    ensures C.Count(syms, syms[i]) > 0
  {
    C.CountPrefix(syms, i, syms[i]);
  }

  lemma CountedAllCoded(freq: seq<nat>, syms: seq<nat>, clen: seq<nat>)
    requires |clen| == |freq| && M.Counts(freq, syms) && forall i :: 0 <= i < |syms| ==> syms[i] < |freq|
    requires forall i :: 0 <= i < |freq| && freq[i] > 0 ==> clen[i] > 0
    ensures M.AllCoded(clen, syms)
    ensures syms != [] ==> H.Any(freq)
  {
    hide C.Count;
    forall i | 0 <= i < |syms| ensures freq[syms[i]] > 0 {
      CountedOccurs(syms, i);
    }
    if syms != [] {
      assert freq[syms[0]] > 0;
    }
  }

  lemma {:induction false} CostUpdate(clen: seq<nat>, freq: seq<nat>, c: nat)
    requires |clen| == |freq| && c < |freq| && freq[c] > 0
    ensures H.Cost(clen, freq) == H.Cost(clen, freq[c := freq[c] - 1]) + clen[c]
    decreases |clen|
  {
    var k, less := |clen| - 1, freq[c := freq[c] - 1];
    if c == k {
      assert less[..k] == freq[..k];
      Minus(clen[k], freq[k]);
    } else {
      assert less[..k] == freq[..k][c := freq[c] - 1];
      CostUpdate(clen[..k], freq[..k], c);
    }
  }

  lemma Minus(a: nat, b: nat)
    requires b > 0
    ensures a * b == a * (b - 1) + a
  {
  }

  lemma {:induction false} CostZero(clen: seq<nat>, freq: seq<nat>)
    requires |clen| == |freq| && forall i :: 0 <= i < |freq| ==> freq[i] == 0
    ensures H.Cost(clen, freq) == 0
    decreases |clen|
  {
    if clen != [] {
      CostZero(clen[..|clen| - 1], freq[..|clen| - 1]);
    }
  }

  /** The data takes exactly the bits that the prefix builder returned. */
  lemma {:induction false} DataBits(clen: seq<nat>, data: seq<nat>, freq: seq<nat>)
    requires |clen| == |freq| && M.Counts(freq, data) && forall i :: 0 <= i < |data| ==> data[i] < |clen|
    ensures |M.CodesBits(clen, data)| == H.Cost(clen, freq)
    decreases |data|
  {
    hide H.Cost, M.CodesBits;
    if data == [] {
      CostZero(clen, freq);
      NoBits(clen);
    } else {
      var front, c := data[..|data| - 1], data[|data| - 1];
      assert data == front + [c];
      CountedOccurs(data, |data| - 1);
      var less := freq[c := freq[c] - 1];
      assert M.Counts(less, front);
      DataBits(clen, front, less);
      CodesBitsSnoc(clen, front, c);
      CostUpdate(clen, freq, c);
    }
  }

  lemma NoBits(clen: seq<nat>)
    ensures M.CodesBits(clen, []) == []
  {
  }

  // ---------------------------------------------------------------- writing

  /** Any loop that writes symbols with their codes. */
  method WriteSymbols(w: Writer, clen: seq<nat>, codes: seq<nat>, syms: seq<nat>, m: nat)
    requires w.Valid() && C.Decodable(clen, m) && m < 32 && M.AllCoded(clen, syms)
    requires |codes| == |clen| && forall i :: 0 <= i < |clen| && clen[i] > 0 ==> codes[i] == C.Code(clen, i)
    modifies w
    ensures w.Valid() && w.Written() == old(w.Written()) + M.CodesBits(clen, syms)
  {
    hide M.CodesBits, C.Code, C.KraftSum, C.First, C.Past;
    ghost var base := w.Written();
    NoBits(clen);
    assert syms[..0] == [] && base + [] == base;
    for i := 0 to |syms|
      invariant w.Valid() && w.Written() == base + M.CodesBits(clen, syms[..i])
    {
      var sym := syms[i];
      C.CodeFits(clen, m, sym);
      w.EncodeBits(clen[sym], codes[sym]);
      CodesBitsSnoc(clen, syms[..i], sym);
      assert syms[..i + 1] == syms[..i] + [sym];
      assert C.CodeBits(clen, sym) == Bits(clen[sym], codes[sym]);
      assert w.Written() == base + (M.CodesBits(clen, syms[..i]) + C.CodeBits(clen, sym));
    }
    assert syms[..|syms|] == syms;
  }

  /** A table from BuildPrefix is a code. */
  lemma PrefixIsCode(clen: seq<nat>, n: nat, m: nat)
    requires |clen| == n && C.Bounded(clen, m) && C.KraftSum(clen, m) == Pow2(m)
    ensures Code(clen, n, m)
  {
    if forall i :: 0 <= i < n ==> clen[i] == 0 {
      KraftZero(clen, m);
    }
  }

  lemma {:induction false} KraftZero(clen: seq<nat>, m: nat)
    requires forall i :: 0 <= i < |clen| ==> clen[i] == 0
    ensures C.KraftSum(clen, m) == 0
    decreases |clen|
  {
    if clen != [] {
      KraftZero(clen[..|clen| - 1], m);
    }
  }

  ghost function Frequencies(syms: seq<nat>, n: nat): (r: seq<nat>)
    ensures |r| == n && M.Counts(r, syms)
  {
    seq(n, c requires 0 <= c < n => C.Count(syms, c))
  }

  /** The lengths are optimal for the symbols, or, after as many passes as needed, for their halved
      frequencies. */
  ghost predicate BestFor(clen: seq<nat>, syms: seq<nat>, maxlen: nat)
    requires clen != []
  {
    var freq := Frequencies(syms, |clen|);
    exists passes :: H.PassesNeeded(freq, maxlen, passes) && H.Optimal(clen, H.Halved(H.Start(freq), passes))
  }

  lemma BuiltIsBest(clen: seq<nat>, syms: seq<nat>, freq: seq<nat>, maxlen: nat, passes: nat)
    requires clen != [] && |freq| == |clen| && M.Counts(freq, syms)
    requires H.PassesNeeded(freq, maxlen, passes) && H.Optimal(clen, H.Halved(H.Start(freq), passes))
    ensures BestFor(clen, syms, maxlen)
  {
    hide H.PassesNeeded, H.Optimal, H.Halved, H.Start;
    assert freq == Frequencies(syms, |clen|);
  }

  /** For fewer than Fib(maxlen + 3) symbols, two of them different, no table is better. */
  lemma BestIsOptimal(clen: seq<nat>, syms: seq<nat>, maxlen: nat)
    requires clen != [] && BestFor(clen, syms, maxlen)
    requires var freq := Frequencies(syms, |clen|); H.Two(freq) && Sum(freq) < H.Fib(maxlen + 3)
    ensures H.Optimal(clen, Frequencies(syms, |clen|))
  {
    hide H.Fib, H.Optimal;
  }

  /** djw_compute_prefix_1_2 */
  method ComputePrefix(clen: seq<nat>) returns (mtfsym: seq<nat>, freq: seq<nat>)
    requires |clen| == ALPHABET_SIZE && C.Bounded(clen, MAX_CODELEN)
    ensures mtfsym == LengthCodes(clen) && mtfsym != [] && forall i :: 0 <= i < |mtfsym| ==> mtfsym[i] < TOTAL_CODES
    ensures |freq| == TOTAL_CODES && M.Counts(freq, mtfsym)
  {
    hide M.Encode, M.Counts, M.Over, InitMtf;
    var list := InitMtf();
    var mtf := new nat[|list|](i requires 0 <= i < |list| => list[i]);
    assert mtf[..] == list;
    AllLengthsListed(clen);
    var f := new nat[TOTAL_CODES];
    mtfsym := M.ComputeMtf(clen, mtf, f);
    M.EncodeBounds(list, clen, 0);
    freq := f[..];
  }

  /** The symbols of the prefix and the code for them. */
  method PlanPrefix(clen: seq<nat>) returns (mtfsym: seq<nat>, clclen: seq<nat>, clcode: seq<nat>)
    requires |clen| == ALPHABET_SIZE && C.Bounded(clen, MAX_CODELEN)
    ensures mtfsym == LengthCodes(clen) && Code(clclen, TOTAL_CODES, MAX_CLCLEN) && M.AllCoded(clclen, mtfsym)
    ensures BestFor(clclen, mtfsym, MAX_CLCLEN)
    ensures |clcode| == TOTAL_CODES && forall i :: 0 <= i < TOTAL_CODES && clclen[i] > 0 ==>
              clcode[i] == C.Code(clclen, i)
  {
    hide M.Counts, C.KraftSum, C.Code, H.Roomy, H.Cost, LengthCodes;
    hide H.PassesNeeded, H.Optimal, H.Halved, H.Start, BestFor;
    var freq;
    mtfsym, freq := ComputePrefix(clen);
    CountedAllCoded(freq, mtfsym, Repeat(1, TOTAL_CODES));
    H.UsedSizes(1);
    var bits;
    ghost var passes;
    clclen, bits, passes := H.BuildPrefix(freq, MAX_CLCLEN);
    BuiltIsBest(clclen, mtfsym, freq, MAX_CLCLEN, passes);
    CountedAllCoded(freq, mtfsym, clclen);
    PrefixIsCode(clclen, TOTAL_CODES, MAX_CLCLEN);
    clcode := C.BuildCodes(clclen, MAX_CLCLEN);
  }

  /** djw_encode_prefix */
  method EncodePrefix(w: Writer, clen: seq<nat>) returns (clclen: seq<nat>)
    requires w.Valid() && |clen| == ALPHABET_SIZE && C.Bounded(clen, MAX_CODELEN)
    modifies w
    ensures Code(clclen, TOTAL_CODES, MAX_CLCLEN) && M.AllCoded(clclen, LengthCodes(clen))
    ensures BestFor(clclen, LengthCodes(clen), MAX_CLCLEN)
    ensures w.Valid() && w.Written() == old(w.Written()) + PrefixBits(clen, clclen)
  {
    hide LengthCodes, M.CodesBits, C.KraftSum, C.Code, LengthBits, Bits, Pow2, BestFor;
    var mtfsym, clcode;
    mtfsym, clclen, clcode := PlanPrefix(clen);
    var num: nat := TOTAL_CODES;
    while num > EXTRA_OFFSET && clclen[num - 1] == 0
      invariant EXTRA_OFFSET <= num <= TOTAL_CODES && NumToEncode(clclen, num) == NumToEncode(clclen, TOTAL_CODES)
    {
      num := num - 1;
    }
    ghost var base := w.Written();
    Sixteen();
    w.EncodeBits(4, num - EXTRA_OFFSET);
    WriteLengths(w, clclen[..num]);
    WriteSymbols(w, clclen, clcode, mtfsym, MAX_CLCLEN);
    assert w.Written()
           == base + (Bits(4, num - EXTRA_OFFSET) + LengthBits(clclen[..num]) + M.CodesBits(clclen, mtfsym));
  }

  lemma Sixteen()
    ensures Pow2(4) == 16 && Pow2(3) == 8
  {
  }

  method WriteLengths(w: Writer, lens: seq<nat>)
    requires w.Valid() && C.Bounded(lens, MAX_CLCLEN)
    modifies w
    ensures w.Valid() && w.Written() == old(w.Written()) + LengthBits(lens)
  {
    hide Bits, Pow2;
    ghost var base := w.Written();
    Sixteen();
    for i := 0 to |lens|
      invariant w.Valid() && w.Written() == base + LengthBits(lens[..i])
    {
      w.EncodeBits(4, lens[i]);
      assert lens[..i + 1][..i] == lens[..i];
    }
    assert lens[..|lens|] == lens;
  }

  /** The bits of the data alone leave too little to save. */
  ghost predicate DataTooLarge(clen: seq<nat>, data: seq<byte>)
    requires M.AllCoded(clen, data)
  {
    |M.CodesBits(clen, data)| + EFFICIENCY_BITS >= 8 * |data|
  }

  /** So do data, prefix and the `used` bytes before them, the last only in whole bytes. */
  ghost predicate MessageTooLarge(clen: seq<nat>, clclen: seq<nat>, data: seq<byte>, used: nat)
    requires Complete(clen, clclen, data)
  {
    |M.CodesBits(clen, data)| + 8 * (used + (3 + |PrefixBits(clen, clclen)|) / 8) + EFFICIENCY_BITS >= 8 * |data|
  }

  /** xd3_encode_huff with one group.  `used` bytes are in the output already.  Nothing is returned
      exactly when the section would not shrink enough, with the best lengths, and `inefficient`
      is not set. */
  method EncodeHuff(data: seq<byte>, used: nat, inefficient: bool)
    returns (out: Option<seq<byte>>, ghost clen: seq<nat>, ghost clclen: seq<nat>)
    requires data != []
    ensures Code(clen, ALPHABET_SIZE, MAX_CODELEN) && M.AllCoded(clen, data) && BestFor(clen, data, MAX_CODELEN)
    ensures out.Some? ==>
              && Complete(clen, clclen, data) && BestFor(clclen, LengthCodes(clen), MAX_CLCLEN)
              && out.value == Pack(Message(clen, clclen, data))
              && (inefficient || (!DataTooLarge(clen, data) && !MessageTooLarge(clen, clclen, data, used)))
    ensures out.None? ==> !inefficient && Refused(clen, clclen, data, used)
  {
    hide M.Counts, M.CodesBits, C.KraftSum, C.Code, H.Roomy, LengthCodes, Bits, Pow2, H.Cost, PrefixBits;
    hide H.PassesNeeded, H.Optimal, H.Halved, H.Start, BestFor;
    var inputBits := 8 * |data|;
    var freq := CountFreqs(data);
    var w := new Writer();
    Sixteen();
    w.EncodeBits(3, 0);
    CountedAllCoded(freq, data, Repeat(1, ALPHABET_SIZE));
    H.UsedSizes(1);
    ghost var passes;
    var lens, outputBits;
    lens, outputBits, passes := H.BuildPrefix(freq, MAX_CODELEN);
    BuiltIsBest(lens, data, freq, MAX_CODELEN, passes);
    CountedAllCoded(freq, data, lens);
    PrefixIsCode(lens, ALPHABET_SIZE, MAX_CODELEN);
    DataBits(lens, data, freq);
    var code := C.BuildCodes(lens, MAX_CODELEN);
    if outputBits + EFFICIENCY_BITS >= inputBits && !inefficient {
      return None, lens, [];
    }
    var cl := EncodePrefix(w, lens);
    assert w.Written() == Bits(3, 0) + PrefixBits(lens, cl);
    WholeBytes(w);
    if outputBits + 8 * (used + |w.out|) + EFFICIENCY_BITS >= inputBits && !inefficient {
      return None, lens, cl;
    }
    WriteSymbols(w, lens, code, data, MAX_CODELEN);
    w.FlushBits();
    clen, clclen, out := lens, cl, Some(w.out);
  }

  ghost predicate Refused(clen: seq<nat>, clclen: seq<nat>, data: seq<byte>, used: nat)
    requires M.AllCoded(clen, data) && clen != []
  {
    DataTooLarge(clen, data)
    || (Complete(clen, clclen, data) && BestFor(clclen, LengthCodes(clen), MAX_CLCLEN)
        && MessageTooLarge(clen, clclen, data, used))
  }

  /** Only whole bytes are in the output. */
  lemma WholeBytes(w: Writer)
    requires w.Valid()
    ensures |w.out| == |w.Written()| / 8
  {
    hide Pow2;
  }

  /** For every non-empty section that is coded, decoding gives it back and no whole byte is
      left over. */
  lemma HuffRoundTrip(clen: seq<nat>, clclen: seq<nat>, data: seq<byte>)
    requires Complete(clen, clclen, data) && data != []
    ensures var r := DecodeHuff(Unpack(Pack(Message(clen, clclen, data))), |data|);
            r.Some? && r.value.0 == data && |r.value.1| < 8
  {
    var bits := Message(clen, clclen, data);
    UnpackPacked(bits);
    RoundTrip(clen, clclen, data, Repeat(false, 8 * |Pack(bits)| - |bits|));
  }

  // ---------------------------------------------------------------- reading

  /** djw_decode_clclen */
  method DecodeClclen(r: Reader) returns (clclen: Option<seq<nat>>)
    requires r.Valid()
    modifies r
    ensures r.Valid()
    ensures match ReadClclen(old(r.Rest()))
            case Some((lens, rest)) => clclen == Some(lens) && r.Rest() == rest
            case None => clclen == None
  {
    hide RestOf, Pow2, Value;
    ghost var all := r.Rest();
    var extra := r.DecodeBits(4);
    if extra.None? {
      return None;
    }
    FourBits(all);
    var num := extra.value + EXTRA_OFFSET;
    ghost var start := r.Rest();
    var lens: seq<nat> := [];
    for i := 0 to num
      invariant r.Valid() && |lens| == i && ReadLengths(start, i) == Some((lens, r.Rest()))
    {
      var value := r.DecodeBits(4);
      if value.None? {
        NoLengths(start, i, num);
        return None;
      }
      lens := lens + [value.value];
    }
    return Some(lens + Repeat(0, TOTAL_CODES - num));
  }

  lemma {:induction false} NoLengths(bits: seq<bool>, i: nat, k: nat)
    requires i < k && (ReadLengths(bits, i).None? || |ReadLengths(bits, i).value.1| < 4)
    ensures ReadLengths(bits, k) == None
    decreases k
  {
    if i < k - 1 {
      NoLengths(bits, i, k - 1);
    }
  }

  /** The loop of xd3_decode_huff over one sector. */
  method DecodeData(r: Reader, t: C.Tables, count: nat) returns (data: Option<seq<nat>>)
    requires r.Valid() && t.maxLen < |t.limit| && t.maxLen < |t.base|
    modifies r
    ensures r.Valid()
    ensures match ReadSymbols(t, old(r.Rest()), count)
            case Some((syms, rest)) => data == Some(syms) && r.Rest() == rest
            case None => data == None
  {
    hide RestOf, C.DecodeSymbol;
    ghost var start := r.Rest();
    var out: seq<nat> := [];
    for i := 0 to count
      invariant r.Valid() && ReadSymbols(t, start, i) == Some((out, r.Rest()))
    {
      var sym := C.ReadSymbol(r, t, ALPHABET_SIZE);
      if sym.None? {
        NoSymbols(t, start, i + 1, count);
        return None;
      }
      out := out + [sym.value];
    }
    return Some(out);
  }

  lemma {:induction false} NoSymbols(t: C.Tables, bits: seq<bool>, i: nat, k: nat)
    requires t.maxLen < |t.limit| && t.maxLen < |t.base| && i <= k && ReadSymbols(t, bits, i) == None
    ensures ReadSymbols(t, bits, k) == None
    decreases k
  {
    if i < k {
      NoSymbols(t, bits, i, k - 1);
    }
  }

  /** xd3_decode_huff with one group, on any input: the data and the number of bytes read. */
  method DecodeSection(input: seq<byte>, count: nat) returns (data: Option<seq<nat>>, used: nat)
    ensures used <= |input|
    ensures match DecodeHuff(Unpack(input), count)
            case Some((syms, rest)) => data == Some(syms) && 8 * (|input| - used) <= |rest| < 8 * (|input| - used) + 8
            case None => data == None
  {
    hide RestOf, C.DecodeSymbol, C.TablesOf, M.Resume, ReadSymbols, ReadClclen, Value;
    used := 0;
    if count == 0 {
      return None, 0;
    }
    var r := new Reader(input);
    var groups := r.DecodeBits(3);
    if groups.None? || groups.value != 0 {
      return None, r.pos;
    }
    var clclen := DecodeClclen(r);
    if clclen.None? {
      return None, r.pos;
    }
    var clt := C.BuildDecoder(clclen.value, MAX_CLCLEN);
    var list := InitMtf();
    var mtf := new nat[|list|](i requires 0 <= i < |list| => list[i]);
    assert mtf[..] == list;
    ResumeBounded(clt, list, r.Rest(), ALPHABET_SIZE, 0, 0, 0);
    var clen := M.Decode12(r, clt, mtf, ALPHABET_SIZE);
    if clen.None? {
      return None, r.pos;
    }
    var t := C.BuildDecoder(clen.value, MAX_CODELEN);
    data := DecodeData(r, t, count);
    used := r.pos;
  }
}
