/** Base-128 integers: most significant digit first, the high bit marks continuation
    (section 2 of RFC 3284).  Models the integer macros of xdelta3.c. */
module Integers {
  import opened Common

  /** The digits of n with every continuation bit set; empty for zero. */
  function Continued(n: nat): seq<byte> {
    if n == 0 then [] else Continued(n / 128) + [n % 128 + 128]
  }

  /** The encoding that EMIT_INTEGER_TYPE produces. */
  function Encode(n: nat): seq<byte> {
    Continued(n / 128) + [n % 128]
  }

  /** READ_INTEGER_TYPE from an accumulated value: a digit is refused once a bit of
      0xfe000000 is set in the value read so far. */
  function ReadFrom(s: seq<byte>, val: nat): (r: Result<(nat, seq<byte>)>)
    ensures r.Ok? ==> r.value.0 <= USIZE_MAX && |r.value.1| < |s|
    ensures r.Err? ==> r.error == InvalidInput
    decreases s
  {
    if s == [] then Err(InvalidInput)
    else if val >= 0x200_0000 then Err(InvalidInput)
    else
      var next := val * 128 + s[0] % 128;
      if s[0] >= 128 then ReadFrom(s[1..], next) else Ok((next, s[1..]))
  }

  function Read(s: seq<byte>): Result<(nat, seq<byte>)> {
    ReadFrom(s, 0)
  }

  /** xd3_sizeof_uint32_t */
  function SizeOf(n: nat): nat {
    if n < 0x80 then 1
    else if n < 0x4000 then 2
    else if n < 0x20_0000 then 3
    else if n < 0x1000_0000 then 4
    else 5
  }

  /** The overflow mask of the 32-bit reader, as the comparison used in ReadFrom. */
  lemma OverflowMask(v: bv32)
    ensures (v & 0xfe00_0000) != 0 <==> v >= 0x200_0000
  {
  }

  lemma {:induction false} ReadContinued(n: nat, t: seq<byte>)
    requires t != []
    ensures n <= USIZE_MAX ==> Read(Continued(n) + t) == ReadFrom(t, n)
    ensures n > USIZE_MAX ==> Read(Continued(n) + t).Err?
  {
    if n == 0 {
      assert Continued(n) + t == t;
    } else {
      var d := [n % 128 + 128] + t;
      ReadContinued(n / 128, d);
      assert Continued(n) + t == Continued(n / 128) + d;
      assert d[1..] == t;
    }
  }

  /** Reading an encoded integer gives it back and leaves the rest of the input exactly
      when it fits 32 bits; otherwise the reader reports overflow. */
  lemma ReadEncode(n: nat, rest: seq<byte>)
    ensures n <= USIZE_MAX ==> Read(Encode(n) + rest) == Ok((n, rest))
    ensures n > USIZE_MAX ==> Read(Encode(n) + rest) == Err(InvalidInput)
  {
    var d := [n % 128] + rest;
    ReadContinued(n / 128, d);
    assert Encode(n) + rest == Continued(n / 128) + d;
    assert d[1..] == rest;
  }

  lemma {:induction false} ContinuedLength(n: nat, k: nat)
    requires n < Pow128(k)
    ensures |Continued(n)| <= k
    decreases k
  {
    if n != 0 {
      ContinuedLength(n / 128, k - 1);
    }
  }

  function Pow128(k: nat): nat {
    if k == 0 then 1 else 128 * Pow128(k - 1)
  }

  lemma {:induction false} ContinuedAtLeast(n: nat, k: nat)
    requires n >= Pow128(k)
    ensures |Continued(n)| > k
    decreases k
  {
    if k > 0 {
      ContinuedAtLeast(n / 128, k - 1);
    } else {
      assert n > 0;
    }
  }

  /** xd3_sizeof_size predicts the emitted length of every 32-bit value. */
  lemma SizeOfEncode(n: nat)
    requires n <= USIZE_MAX
    ensures |Encode(n)| == SizeOf(n)
  {
    var k := SizeOf(n) - 1;
    var m := n / 128;
    assert Pow128(0) == 1 && Pow128(1) == 128 && Pow128(2) == 128 * Pow128(1);
    assert Pow128(3) == 128 * Pow128(2) && Pow128(4) == 128 * Pow128(3);
    ContinuedLength(m, k);
    if k > 0 {
      ContinuedAtLeast(m, k - 1);
    }
  }

  /** A number is read from its own bytes, whatever follows them. */
  lemma {:induction false} ReadPrefix(s: seq<byte>, val: nat)
    requires ReadFrom(s, val).Ok?
    ensures var (n, rest) := ReadFrom(s, val).value;
            s == s[..|s| - |rest|] + rest && ReadFrom(s[..|s| - |rest|], val) == Ok((n, []))
    decreases |s|
  {
    if s[0] >= 128 {
      ReadPrefix(s[1..], val * 128 + s[0] % 128);
      var rest := ReadFrom(s, val).value.1;
      assert s[..|s| - |rest|][1..] == s[1..][..|s[1..]| - |rest|];
    } else {
      assert s[..1][1..] == [];
    }
  }

  /** More bytes behind a number do not change it. */
  lemma {:induction false} ReadMore(s: seq<byte>, val: nat, more: seq<byte>)
    requires ReadFrom(s, val).Ok?
    ensures ReadFrom(s + more, val) == Ok((ReadFrom(s, val).value.0, ReadFrom(s, val).value.1 + more))
    decreases |s|
  {
    assert (s + more)[1..] == s[1..] + more;
    if s[0] >= 128 {
      ReadMore(s[1..], val * 128 + s[0] % 128, more);
    }
  }

  /** The value of base-128 digits, most significant first. */
  function Digits(s: seq<byte>): nat {
    if s == [] then 0 else Digits(s[..|s| - 1]) * 128 + s[|s| - 1] % 128
  }

  lemma DigitSnoc(s: seq<byte>, b: byte)
    ensures Digits(s + [b]) == Digits(s) * 128 + b % 128
  {
    assert (s + [b])[..|s|] == s;
  }

  lemma DigitSplit(n: nat)
    ensures n / 128 * 128 + n % 128 == n && (n % 128 + 128) % 128 == n % 128
  {
  }

  /** The encoding is the number in base 128, with the high bit on every byte but the last. */
  lemma EncodeDigits(n: nat)
    ensures Digits(Encode(n)) == n && Encode(n)[|Encode(n)| - 1] < 128
    ensures forall i :: 0 <= i < |Encode(n)| - 1 ==> Encode(n)[i] >= 128
  {
    hide Digits, Continued;
    ContinuedDigits(n / 128);
    DigitSnoc(Continued(n / 128), n % 128);
    DigitSplit(n);
  }

  lemma {:induction false} ContinuedDigits(n: nat)
    ensures Digits(Continued(n)) == n && forall i :: 0 <= i < |Continued(n)| ==> Continued(n)[i] >= 128
  {
    if n > 0 {
      hide Digits;
      ContinuedDigits(n / 128);
      DigitSnoc(Continued(n / 128), n % 128 + 128);
      DigitSplit(n);
    } else {
      assert Continued(0) == [] && Digits([]) == 0;
    }
  }

  /** No byte string that reads as n is shorter than the encoding of n: redundant leading
      digits only lengthen it. */
  lemma EncodeIsShortest(s: seq<byte>, n: nat)
    requires Read(s) == Ok((n, []))
    ensures |Encode(n)| <= |s|
  {
    ReadLength(s, 0, n);
    SizeOfEncode(n);
    assert Pow128(1) == 128 * Pow128(0);
    assert Pow128(2) == 128 * Pow128(1) && Pow128(3) == 128 * Pow128(2) && Pow128(4) == 128 * Pow128(3);
  }

  lemma {:induction false} ReadLength(s: seq<byte>, val: nat, n: nat)
    requires ReadFrom(s, val) == Ok((n, []))
    ensures n <= USIZE_MAX
    ensures n < (val + 1) * Pow128(|s|)
    decreases s
  {
    var next := val * 128 + s[0] % 128;
    var p := Pow128(|s| - 1);
    if s[0] >= 128 {
      ReadLength(s[1..], next, n);
      assert next + 1 <= (val + 1) * 128;
      MulLe(next + 1, (val + 1) * 128, p);
    } else {
      assert s[1..] == [] && |s| == 1;
      assert Pow128(0) == 1;
    }
    MulAssoc(val + 1, 128, p);
  }

  lemma MulLe(a: nat, b: nat, c: nat)
    requires a <= b
    ensures a * c <= b * c
  {
  }

  lemma MulAssoc(a: nat, b: nat, c: nat)
    ensures a * b * c == a * (b * c)
  {
  }

  lemma PowStep(k: nat)
    requires k > 0
    ensures Pow128(k) == 128 * Pow128(k - 1)
  {
  }

  /** Ten digits hold 64 bits. */
  lemma TenDigits(value: nat)
    requires value < 0x1_0000_0000_0000_0000
    ensures value < Pow128(10) && Pow128(0) == 1
  {
    assert Pow128(2) == 0x4000 && Pow128(4) == 0x4000 * Pow128(2);
    assert Pow128(6) == 0x4000 * Pow128(4) && Pow128(8) == 0x4000 * Pow128(6) && Pow128(10) == 0x4000 * Pow128(8);
  }

  lemma ContinuedStep(n: nat, tail: seq<byte>)
    requires n > 0
    ensures Continued(n) + tail == Continued(n / 128) + ([n % 128 + 128] + tail)
  {
  }

  lemma ContinuedZero(tail: seq<byte>)
    ensures Continued(0) + tail == tail
  {
  }

  /** EMIT_INTEGER_TYPE: fills a ten-byte buffer from its end. */
  method Emit(value: nat) returns (out: seq<byte>)
    requires value < 0x1_0000_0000_0000_0000
    ensures out == Encode(value)
  {
    hide Pow128, Continued;
    var buf := new byte[10];
    TenDigits(value);
    buf[9] := value % 128 + 128;
    var num: nat, bufi: nat := value / 128, 9;
    PowStep(10);
    assert Continued(num) + buf[9..9] == Continued(value / 128);
    while num != 0
      invariant 0 <= bufi <= 9 && num < Pow128(bufi)
      invariant buf[9] == value % 128 + 128
      invariant Continued(num) + buf[bufi..9] == Continued(value / 128)
      decreases bufi
    {
      ContinuedStep(num, buf[bufi..9]);
      ghost var tail := buf[bufi..9];
      assert bufi > 0;
      PowStep(bufi);
      bufi := bufi - 1;
      buf[bufi] := num % 128 + 128;
      assert buf[bufi..9] == [num % 128 + 128] + tail;
      num := num / 128;
    }
    ContinuedZero(buf[bufi..9]);
    ghost var digits := buf[bufi..9];
    buf[9] := buf[9] % 128;
    assert buf[bufi..9] == digits;
    out := buf[bufi..10];
    assert out == buf[bufi..9] + [buf[9]];
  }

  /** READ_INTEGER_TYPE over an input of which the first `pos` bytes are consumed. */
  method ReadInteger(input: seq<byte>, pos: nat) returns (r: Result<nat>, next: nat)
    requires pos <= |input|
    ensures r.Ok? ==> pos < next <= |input| && Read(input[pos..]) == Ok((r.value, input[next..]))
    ensures r.Err? ==> Read(input[pos..]) == Err(r.error) && next == pos
  {
    var val: nat, inp: nat := 0, pos;
    while true
      invariant pos <= inp <= |input|
      invariant Read(input[pos..]) == ReadFrom(input[inp..], val)
      decreases |input| - inp
    {
      if inp == |input| {
        return Err(InvalidInput), pos;
      }
      if val >= 0x200_0000 {
        return Err(InvalidInput), pos;
      }
      var b := input[inp];
      assert input[inp..][1..] == input[inp + 1..];
      inp := inp + 1;
      val := val * 128 + b % 128;
      if b < 128 {
        return Ok(val), inp;
      }
    }
  }
}
