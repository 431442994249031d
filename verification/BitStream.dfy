/** Bit packing of the secondary compressor: values go out most significant bit first, bits fill
    bytes from the least significant end.  Models xdelta3-second.h. */
module BitStream {
  import opened Common

  function Pow2(n: nat): (r: nat)
    ensures r > 0
  {
    if n == 0 then 1 else 2 * Pow2(n - 1)
  }

  function Bit(b: bool): nat {
    if b then 1 else 0
  }

  /** The low n bits of v, most significant first. */
  function Bits(n: nat, v: nat): (r: seq<bool>)
    ensures |r| == n
  {
    if n == 0 then [] else Bits(n - 1, v / 2) + [v % 2 == 1]
  }

  /** The value of a bit string, most significant first. */
  function Value(bits: seq<bool>): nat {
    if bits == [] then 0 else 2 * Value(bits[..|bits| - 1]) + Bit(bits[|bits| - 1])
  }

  lemma {:induction false} ValueBits(n: nat, v: nat)
    requires v < Pow2(n)
    ensures Value(Bits(n, v)) == v
    decreases n
  {
    if n > 0 {
      ValueBits(n - 1, v / 2);
      assert Bits(n, v)[..n - 1] == Bits(n - 1, v / 2);
    }
  }

  lemma {:induction false} BitsValue(bits: seq<bool>)
    ensures Value(bits) < Pow2(|bits|) && Bits(|bits|, Value(bits)) == bits
    decreases |bits|
  {
    if bits != [] {
      BitsValue(bits[..|bits| - 1]);
      assert bits == bits[..|bits| - 1] + [bits[|bits| - 1]];
    }
  }

  /** Up to eight bits in one byte, least significant first. */
  function PackByte(bits: seq<bool>): (r: nat)
    ensures r < Pow2(|bits|)
  {
    if bits == [] then 0 else Bit(bits[0]) + 2 * PackByte(bits[1..])
  }

  lemma Pow2Eight()
    ensures Pow2(8) == 256
  {
    assert Pow2(4) == 16 && Pow2(8) == 16 * Pow2(4);
  }

  function ToByte(bits: seq<bool>): byte
    requires |bits| <= 8
  {
    Pow2Eight();
    Pow2Mono(|bits|, 8);
    PackByte(bits)
  }

  lemma {:induction false} Pow2Mono(a: nat, b: nat)
    requires a <= b
    ensures Pow2(a) <= Pow2(b)
    decreases b - a
  {
    if a < b {
      Pow2Mono(a, b - 1);
    }
  }

  lemma {:induction false} Pow2Add(a: nat, b: nat)
    ensures Pow2(a + b) == Pow2(a) * Pow2(b)
    decreases b
  {
    if b > 0 {
      Pow2Add(a, b - 1);
      assert a + b - 1 == a + (b - 1);
      assert Pow2(a + b) == 2 * Pow2(a + (b - 1));
    }
  }

  /** The n lowest bits of a byte, least significant first. */
  function UnpackByte(v: nat, n: nat): (r: seq<bool>)
    ensures |r| == n
  {
    if n == 0 then [] else [v % 2 == 1] + UnpackByte(v / 2, n - 1)
  }

  /** Unpacking gives the packed bits back, followed by zeros. */
  lemma {:induction false} UnpackPack(bits: seq<bool>, n: nat)
    requires |bits| <= n
    ensures UnpackByte(PackByte(bits), n) == bits + Repeat(false, n - |bits|)
    decreases n
  {
    if n > 0 {
      if bits == [] {
        UnpackPack([], n - 1);
        assert [] + Repeat(false, n - 1) == Repeat(false, n - 1);
        assert [false] + Repeat(false, n - 1) == Repeat(false, n) == [] + Repeat(false, n);
      } else {
        UnpackPack(bits[1..], n - 1);
        assert bits + Repeat(false, n - |bits|) == [bits[0]] + (bits[1..] + Repeat(false, n - |bits|));
      }
    }
  }

  /** The bytes for a bit string: full bytes and a zero-padded last one. */
  function Pack(bits: seq<bool>): (r: seq<byte>)
    ensures |r| == (|bits| + 7) / 8
    decreases |bits|
  {
    if bits == [] then []
    else if |bits| <= 8 then [ToByte(bits)]
    else [ToByte(bits[..8])] + Pack(bits[8..])
  }

  function Unpack(bytes: seq<byte>): (r: seq<bool>)
    ensures |r| == 8 * |bytes|
  {
    if bytes == [] then [] else UnpackByte(bytes[0], 8) + Unpack(bytes[1..])
  }

  /** More than eight bits: a full byte and the rest. */
  lemma PackSplit(a: seq<bool>, b: seq<bool>)
    requires |a| == 8
    ensures Pack(a + b) == [ToByte(a)] + Pack(b)
  {
    if b == [] {
      assert a + b == a;
    } else {
      assert (a + b)[..8] == a && (a + b)[8..] == b;
    }
  }

  lemma UnpackCons(x: byte, bytes: seq<byte>)
    ensures Unpack([x] + bytes) == UnpackByte(x, 8) + Unpack(bytes)
  {
    assert ([x] + bytes)[1..] == bytes;
  }

  lemma PackShort(bits: seq<bool>)
    requires |bits| <= 8
    ensures Pack(bits) == if bits == [] then [] else [ToByte(bits)]
  {
  }

  /** The bytes hold the bits and at most seven zeros of padding. */
  lemma {:induction false} UnpackPacked(bits: seq<bool>)
    ensures |bits| <= 8 * |Pack(bits)| < |bits| + 8
    ensures Unpack(Pack(bits)) == bits + Repeat(false, 8 * |Pack(bits)| - |bits|)
    decreases |bits|
  {
    hide Pack, UnpackByte, PackByte;
    if |bits| <= 8 {
      PackShort(bits);
      if bits == [] {
        assert [] + Repeat(false, 0) == [];
      } else {
        UnpackPack(bits, 8);
        UnpackCons(ToByte(bits), []);
        assert [ToByte(bits)] + [] == [ToByte(bits)];
        assert UnpackByte(ToByte(bits), 8) + [] == UnpackByte(ToByte(bits), 8);
      }
    } else {
      var a, b := bits[..8], bits[8..];
      assert bits == a + b;
      PackSplit(a, b);
      UnpackPack(a, 8);
      UnpackPacked(b);
      UnpackCons(ToByte(a), Pack(b));
      assert a + Repeat(false, 0) == a;
      var pad := Repeat(false, 8 * |Pack(b)| - |b|);
      assert bits + pad == a + (b + pad);
    }
  }

  lemma {:induction false} PackAppend(a: seq<bool>, b: seq<bool>)
    requires |a| % 8 == 0
    ensures Pack(a + b) == Pack(a) + Pack(b)
    decreases |a|
  {
    hide Pack, ToByte;
    if a == [] {
      PackShort(a);
      assert a + b == b && [] + Pack(b) == Pack(b);
    } else {
      var h, t := a[..8], a[8..];
      PackAppend(t, b);
      assert a == h + t && a + b == h + (t + b);
      PackSplit(h, t);
      PackSplit(h, t + b);
      assert [ToByte(h)] + (Pack(t) + Pack(b)) == [ToByte(h)] + Pack(t) + Pack(b);
    }
  }

  lemma FullByte(full: seq<bool>, last: seq<bool>)
    requires |full| % 8 == 0 && |last| == 8
    ensures Pack(full + last) == Pack(full) + [ToByte(last)]
  {
    hide ToByte;
    PackAppend(full, last);
    PackShort(last);
  }

  lemma EmptyByte()
    ensures PackByte([]) == 0 && Pow2(0) == 1
  {
  }

  lemma Pow2Double(n: nat)
    ensures Pow2(n + 1) == 2 * Pow2(n)
  {
  }

  // ---------------------------------------------------------------- writer

  /** bit_state of the encoder with its output.  cur_mask is 2 to the number of pending bits. */
  class Writer {
    var out: seq<byte>
    var curByte: nat
    var curMask: nat
    ghost var full: seq<bool>     // bits already in `out`
    ghost var pending: seq<bool>  // bits in curByte

    ghost predicate Valid()
      reads this
    {
      && |pending| < 8 && |full| % 8 == 0
      && out == Pack(full)
      && curByte == PackByte(pending) && curMask == Pow2(|pending|)
    }

    ghost function Written(): seq<bool>
      reads this
    {
      full + pending
    }

    /** BIT_STATE_ENCODE_INIT */
    constructor ()
      ensures Valid() && Written() == []
    {
      out, curByte, curMask := [], 0, 1;
      full, pending := [], [];
    }

    /** xd3_encode_bit */
    method EncodeBit(bit: bool)
      requires Valid()
      modifies this
      ensures Valid() && Written() == old(Written()) + [bit]
    {
      PackSnoc(pending, bit);
      if bit {
        curByte := curByte + curMask;
      }
      ghost var all := pending + [bit];
      assert Pow2(7) == 128 by { assert Pow2(4) == 16 && Pow2(7) == 8 * Pow2(4); }
      Pow2Strict(|pending|, 7);
      assert full + all == full + pending + [bit];
      hide Pow2, Pack, PackByte;
      if curMask == 0x80 {
        FullByte(full, all);
        assert ToByte(all) == curByte;
        out := out + [curByte];
        curMask, curByte := 1, 0;
        full, pending := full + all, [];
        assert full + [] == full;
        EmptyByte();
      } else {
        Pow2Double(|pending|);
        curMask := 2 * curMask;
        pending := all;
      }
    }

    /** xd3_encode_bits: the value's bits from the highest down, by a moving mask. */
    method EncodeBits(nbits: nat, value: nat)
      requires Valid() && 0 < nbits < 32 && value < Pow2(nbits)
      modifies this
      ensures Valid() && Written() == old(Written()) + Bits(nbits, value)
    {
      var mask := Pow2(nbits);
      ghost var left: nat := nbits;
      assert old(Written()) + Bits(nbits, value)[..0] == old(Written());
      while mask != 1
        invariant left <= nbits && mask == Pow2(left)
        invariant Valid() && Written() == old(Written()) + Bits(nbits, value)[..nbits - left]
        decreases left
      {
        Pow2Half(left);
        mask := mask / 2;
        left := left - 1;
        BitAt(nbits, value, left);
        ghost var sofar := Written();
        EncodeBit((value / mask) % 2 == 1);
        assert Bits(nbits, value)[..nbits - left]
               == Bits(nbits, value)[..nbits - left - 1] + [Bits(nbits, value)[nbits - left - 1]];
      }
      assert Bits(nbits, value)[..nbits] == Bits(nbits, value);
    }

    /** xd3_flush_bits: a partial byte goes out as it is. */
    method FlushBits()
      requires Valid()
      modifies this`out
      ensures out == Pack(old(Written()))
    {
      if curMask != 1 {
        Pow2Eight();
        Pow2Mono(|pending|, 8);
        out := out + [curByte];
        assert pending != [];
        PackAppend(full, pending);
      } else {
        Pow2Strict(0, |pending|);
        assert full + pending == full;
      }
    }
  }

  lemma {:induction false} Pow2Strict(a: nat, b: nat)
    ensures a < b <==> Pow2(a) < Pow2(b)
  {
    if a < b {
      Pow2Mono(a + 1, b);
    } else {
      Pow2Mono(b, a);
    }
  }

  lemma Pow2Zero()
    ensures Pow2(0) == 1
  {
  }

  lemma Pow2Next(n: nat)
    ensures Pow2(n + 1) == 2 * Pow2(n)
  {
  }

  lemma Pow2Half(n: nat)
    requires Pow2(n) != 1
    ensures n > 0 && Pow2(n) / 2 == Pow2(n - 1)
  {
  }

  /** One more bit adds the next power of two. */
  lemma {:induction false} PackSnoc(bits: seq<bool>, b: bool)
    ensures PackByte(bits + [b]) == PackByte(bits) + (if b then Pow2(|bits|) else 0)
    decreases |bits|
  {
    if bits == [] {
      assert ([] + [b])[1..] == [];
    } else {
      PackSnoc(bits[1..], b);
      assert (bits + [b])[1..] == bits[1..] + [b];
    }
  }

  /** The bit that a mask of 2^j selects. */
  lemma {:induction false} BitAt(n: nat, v: nat, j: nat)
    requires j < n
    ensures Bits(n, v)[n - 1 - j] == ((v / Pow2(j)) % 2 == 1)
    decreases n
  {
    if j > 0 {
      BitAt(n - 1, v / 2, j - 1);
      assert v / Pow2(j) == v / 2 / Pow2(j - 1) by { DivDiv(v, Pow2(j - 1)); }
    } else {
      assert v / Pow2(0) == v;
    }
  }

  lemma DivDiv(v: nat, p: nat)
    requires p > 0
    ensures v / (2 * p) == v / 2 / p
  {
    var q, r := v / (2 * p), v % (2 * p);
    assert v == 2 * (p * q) + r by { assert 2 * p * q == 2 * (p * q); }
    assert v / 2 == p * q + r / 2;
    DivUnique(v / 2, p, q, r / 2, v / 2 / p, v / 2 % p);
  }

  /** Quotient and remainder are unique. */
  lemma DivUnique(v: nat, p: nat, q: nat, r: nat, q2: nat, r2: nat)
    requires v == p * q + r == p * q2 + r2 && r < p && r2 < p
    ensures q == q2
  {
    if q < q2 {
      MulStep(p, q, q2);
    } else if q2 < q {
      MulStep(p, q2, q);
    }
  }

  lemma {:induction false} MulStep(p: nat, a: nat, b: nat)
    requires a < b
    ensures p * a + p <= p * b
    decreases b
  {
    assert p * b == p * (b - 1) + p;
    if a + 1 < b {
      MulStep(p, a, b - 1);
    }
  }

  lemma DivThenHalf(v: nat, p: nat)
    requires p > 0
    ensures v / p / 2 == v / (2 * p)
  {
    DoubleDivisor(v, p, v / (2 * p), v % (2 * p));
  }

  lemma DoubleDivisor(v: nat, p: nat, q: nat, r: nat)
    requires p > 0 && v == 2 * p * q + r && r < 2 * p
    ensures v / p / 2 == q
  {
    TwoMul(p, q);
    if r < p {
      QuotientIs(v, p, 2 * q, r);
    } else {
      QuotientIs(v, p, 2 * q + 1, r - p);
    }
  }

  lemma QuotientIs(v: nat, p: nat, q: nat, r: nat)
    requires v == p * q + r && r < p
    ensures v / p == q
  {
    DivUnique(v, p, q, r, v / p, v % p);
  }

  lemma TwoMul(p: nat, q: nat)
    ensures 2 * p * q == p * (2 * q) && p * (2 * q + 1) == p * (2 * q) + p
  {
  }

  // ---------------------------------------------------------------- reader

  /** v >> k */
  function Shift(v: nat, k: nat): nat {
    if k == 0 then v else Shift(v, k - 1) / 2
  }

  lemma {:induction false} ShiftDiv(v: nat, k: nat)
    ensures Shift(v, k) == v / Pow2(k)
    decreases k
  {
    if k > 0 {
      ShiftDiv(v, k - 1);
      DivThenHalf(v, Pow2(k - 1));
    }
  }

  /** The unread bits when `taken` bits of the current byte are read and `tail` follows. */
  ghost function RestOf(cur: nat, taken: nat, tail: seq<byte>): (r: seq<bool>)
    requires taken <= 8
    ensures |r| == 8 * |tail| + 8 - taken
  {
    UnpackByte(Shift(cur, taken), 8 - taken) + Unpack(tail)
  }

  lemma TakeBit(cur: nat, taken: nat, tail: seq<byte>)
    requires taken < 8
    ensures RestOf(cur, taken, tail) == [(cur / Pow2(taken)) % 2 == 1] + RestOf(cur, taken + 1, tail)
  {
    var v := Shift(cur, taken);
    ShiftDiv(cur, taken);
    assert UnpackByte(v, 8 - taken) == [v % 2 == 1] + UnpackByte(v / 2, 8 - (taken + 1));
  }

  lemma NextByte(cur: nat, tail: seq<byte>)
    requires tail != []
    ensures RestOf(cur, 8, tail) == RestOf(tail[0], 0, tail[1..])
  {
  }

  /** bit_state of the decoder with its input.  cur_mask is 2 to the number of bits of cur_byte
      already read; 0x100 asks for the next byte. */
  class Reader {
    const input: seq<byte>
    var pos: nat
    var curByte: nat
    var curMask: nat
    ghost var taken: nat

    ghost predicate Valid()
      reads this
    {
      pos <= |input| && 1 <= taken <= 8 && curMask == Pow2(taken)
    }

    /** The bits still to be read. */
    ghost function Rest(): (r: seq<bool>)
      requires Valid()
      reads this
      ensures |r| == 8 * (|input| - pos) + 8 - taken
    {
      RestOf(curByte, taken, input[pos..])
    }

    /** BIT_STATE_DECODE_INIT */
    constructor (input: seq<byte>)
      ensures Valid() && this.input == input && Rest() == Unpack(input)
    {
      this.input := input;
      pos, curByte, curMask, taken := 0, 0, 0x100, 8;
      new;
      Pow2Eight();
      assert input[0..] == input && [] + Unpack(input) == Unpack(input);
    }

    /** The step that xd3_decode_bits and djw_decode_symbol share: one bit, fetching a byte if
        the last one is used up. */
    method ReadBit() returns (r: Option<bool>)
      requires Valid()
      modifies this
      ensures Valid()
      ensures old(Rest()) == [] ==> r == None && Rest() == []
      ensures old(Rest()) != [] ==> r == Some(old(Rest())[0]) && Rest() == old(Rest())[1..]
    {
      hide RestOf, Pow2, Shift;
      MaskEight(taken);
      if curMask == 0x100 {
        if pos == |input| {
          return None;
        }
        NextByte(curByte, input[pos..]);
        assert input[pos..][1..] == input[pos + 1..];
        curByte, pos := input[pos], pos + 1;
        curMask, taken := 1, 0;
        Pow2Zero();
      }
      ghost var rest := RestOf(curByte, taken, input[pos..]);
      assert rest == old(Rest());
      TakeBit(curByte, taken, input[pos..]);
      r := Some((curByte / curMask) % 2 == 1);
      Pow2Next(taken);
      curMask, taken := 2 * curMask, taken + 1;
      FirstOf(r.value, RestOf(curByte, taken, input[pos..]));
    }

    lemma FirstOf(b: bool, rest: seq<bool>)
      ensures ([b] + rest)[0] == b && ([b] + rest)[1..] == rest
    {
    }

    lemma MaskEight(taken: nat)
      requires taken <= 8
      ensures Pow2(taken) == 0x100 <==> taken == 8
    {
      Pow2Eight();
      Pow2Strict(taken, 8);
    }

    /** xd3_decode_bits */
    method DecodeBits(nbits: nat) returns (r: Option<nat>)
      requires Valid() && nbits > 0
      modifies this
      ensures Valid()
      ensures |old(Rest())| < nbits ==> r == None
      ensures |old(Rest())| >= nbits ==> r == Some(Value(old(Rest())[..nbits])) && Rest() == old(Rest())[nbits..]
    {
      hide Pow2, Value, RestOf;
      var value, vmask := 0, Pow2(nbits);
      ghost var bits := Rest();
      ghost var k: nat := 0;
      assert bits[0..] == bits;
      ValueStart(bits);
      while vmask != 1
        invariant k <= nbits && k <= |bits| && vmask == Pow2(nbits - k)
        invariant Valid() && Rest() == bits[k..]
        invariant value == Value(bits[..k]) * vmask
        decreases nbits - k
      {
        Pow2Half(nbits - k);
        Pow2Next(nbits - k - 1);
        vmask := vmask / 2;
        var b := ReadBit();
        if b.None? {
          return None;
        }
        assert bits[k..][1..] == bits[k + 1..];
        ValueNext(bits, k, vmask);
        if b.value {
          value := value + vmask;
        }
        k := k + 1;
      }
      assert k == nbits by {
        Pow2Zero();
        Pow2Strict(0, nbits - k);
      }
      r := Some(value);
    }
  }

  lemma ValueStart(bits: seq<bool>)
    ensures Value(bits[..0]) == 0
  {
  }

  lemma ValueNext(bits: seq<bool>, k: nat, m: nat)
    requires k < |bits|
    ensures Value(bits[..k + 1]) * m == Value(bits[..k]) * (2 * m) + (if bits[k] then m else 0)
  {
    assert bits[..k + 1][..k] == bits[..k];
    MaskStep(Value(bits[..k]), m);
  }

  lemma MaskStep(v: nat, m: nat)
    ensures v * (2 * m) == 2 * v * m
    ensures (2 * v + 1) * m == 2 * v * m + m
  {
  }
}
