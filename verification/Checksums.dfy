/** The window checksum (section 8.2 of RFC 1950) and the rolling checksum of the matcher. */
module Checksums {
  import opened Common

  const A32_BASE: nat := 65521
  const A32_NMAX: nat := 5552
  const WORD: nat := 0x1_0000_0000

  // ---------------------------------------------------------------- adler32

  /** The definition: both sums are kept modulo the base at every byte. */
  function Adler(s1: nat, s2: nat, data: seq<byte>): (r: (nat, nat))
    requires s1 < A32_BASE && s2 < A32_BASE
    ensures r.0 < A32_BASE && r.1 < A32_BASE
    decreases |data|
  {
    if data == [] then (s1, s2)
    else
      var (t1, t2) := Adler(s1, s2, data[..|data| - 1]);
      var u1 := (t1 + data[|data| - 1]) % A32_BASE;
      (u1, (t2 + u1) % A32_BASE)
  }

  /** The checksum of a window: starting from 1. */
  function WindowAdler(data: seq<byte>): nat {
    var (s1, s2) := Adler(1, 0, data);
    s2 * 65536 + s1
  }

  /** The greatest value of s2 after k bytes without a reduction. */
  function Ceiling(k: nat): nat {
    if k == 0 then 65535 else Ceiling(k - 1) + 65535 + 255 * k
  }

  lemma {:induction false} CeilingIs(k: nat)
    ensures 2 * Ceiling(k) == 131070 * (k + 1) + 255 * k * (k + 1)
    decreases k
  {
    if k > 0 {
      CeilingIs(k - 1);
      assert 255 * k * (k + 1) == 255 * (k - 1) * k + 510 * k;
    }
  }

  lemma {:induction false} CeilingMono(a: nat, b: nat)
    requires a <= b
    ensures Ceiling(a) <= Ceiling(b)
    decreases b
  {
    if a < b {
      CeilingMono(a, b - 1);
    }
  }

  /** A full block fits a 32-bit word, and a longer one need not. */
  lemma BlockFits()
    ensures Ceiling(A32_NMAX) < WORD <= Ceiling(A32_NMAX + 1)
  {
    CeilingIs(A32_NMAX);
    CeilingIs(A32_NMAX + 1);
  }

  lemma ModStep(s1: nat, s2: nat, t1: nat, t2: nat, b: byte)
    requires s1 % A32_BASE == t1 && s2 % A32_BASE == t2
    ensures (s1 + b) % A32_BASE == (t1 + b) % A32_BASE
    ensures (s2 + (s1 + b)) % A32_BASE == (t2 + (t1 + b) % A32_BASE) % A32_BASE
  {
    AddReduced(s1, b);
    AddReduced(s2, s1 + b);
    AddReduced(s1 + b, t2);
  }

  /** A summand may be reduced first. */
  lemma AddReduced(a: nat, b: nat)
    ensures (a + b) % A32_BASE == (a % A32_BASE + b) % A32_BASE
  {
    var q, r := a / A32_BASE, a % A32_BASE;
    assert a + b == A32_BASE * q + (r + b);
  }

  /** Sums that agree with the definition modulo the base and have not grown too far since the
      last reduction, `run` bytes ago. */
  ghost predicate Deferred(s1: nat, s2: nat, start: (nat, nat), data: seq<byte>, run: nat) {
    && start.0 < A32_BASE && start.1 < A32_BASE
    && (s1 % A32_BASE, s2 % A32_BASE) == Adler(start.0, start.1, data)
    && s1 <= 65535 + 255 * run && s2 <= Ceiling(run)
  }

  lemma DeferredStep(s1: nat, s2: nat, start: (nat, nat), data: seq<byte>, run: nat, b: byte)
    requires Deferred(s1, s2, start, data, run)
    ensures Deferred(s1 + b, s2 + (s1 + b), start, data + [b], run + 1)
  {
    var (t1, t2) := Adler(start.0, start.1, data);
    ModStep(s1, s2, t1, t2, b);
    assert (data + [b])[..|data|] == data;
  }

  /** One step of A32_DO1 at position i. */
  method AdlerByte(s1: nat, s2: nat, buf: seq<byte>, i: nat, ghost start: (nat, nat), ghost run: nat)
    returns (r1: nat, r2: nat)
    requires i < |buf| && run < A32_NMAX && Deferred(s1, s2, start, buf[..i], run)
    ensures Deferred(r1, r2, start, buf[..i + 1], run + 1) && r1 < WORD && r2 < WORD
  {
    DeferredStep(s1, s2, start, buf[..i], run, buf[i]);
    assert buf[..i + 1] == buf[..i] + [buf[i]];
    r1 := s1 + buf[i];
    r2 := s2 + r1;
    CeilingMono(run + 1, A32_NMAX);
    BlockFits();
  }

  /** The block loop: sixteen bytes at a time, then the rest. */
  method AdlerBlock(s1: nat, s2: nat, buf: seq<byte>, from: nat, size: nat, ghost start: (nat, nat))
    returns (r1: nat, r2: nat)
    requires from + size <= |buf| && size <= A32_NMAX && Deferred(s1, s2, start, buf[..from], 0)
    ensures Deferred(r1, r2, start, buf[..from + size], size) && r1 < WORD && r2 < WORD
  {
    hide Deferred, Ceiling;
    r1, r2 := s1, s2;
    var k: nat, i: nat := size, from;
    StartFits(s1, s2, start, buf[..from]);
    while k >= 16
      invariant k <= size && i == from + (size - k)
      invariant Deferred(r1, r2, start, buf[..i], i - from) && r1 < WORD && r2 < WORD
    {
      for j := 0 to 16
        invariant Deferred(r1, r2, start, buf[..i + j], i + j - from) && r1 < WORD && r2 < WORD
      {
        r1, r2 := AdlerByte(r1, r2, buf, i + j, start, i + j - from);
      }
      i := i + 16;
      k := k - 16;
    }
    while k != 0
      invariant k <= size && i == from + (size - k)
      invariant Deferred(r1, r2, start, buf[..i], i - from) && r1 < WORD && r2 < WORD
    {
      r1, r2 := AdlerByte(r1, r2, buf, i, start, i - from);
      i := i + 1;
      k := k - 1;
    }
  }

  lemma StartFits(s1: nat, s2: nat, start: (nat, nat), data: seq<byte>)
    requires Deferred(s1, s2, start, data, 0)
    ensures s1 < WORD && s2 < WORD
  {
  }

  lemma Reduce(s1: nat, s2: nat, start: (nat, nat), data: seq<byte>, run: nat)
    requires Deferred(s1, s2, start, data, run)
    ensures Deferred(s1 % A32_BASE, s2 % A32_BASE, start, data, 0)
  {
  }

  /** adler32: reducing only after each block gives the definition, from any starting value and
      for any length, and no sum leaves 32 bits. */
  method Adler32(adler: nat, buf: seq<byte>) returns (r: nat)
    requires adler < WORD
    ensures buf == [] ==> r == adler
    ensures buf != [] ==>
              var (s1, s2) := Adler(adler % 65536 % A32_BASE, adler / 65536 % A32_BASE, buf); r == s2 * 65536 + s1
  {
    hide Adler, Ceiling;
    var s1: nat, s2: nat := adler % 65536, adler / 65536;
    ghost var start := (s1 % A32_BASE, s2 % A32_BASE);
    var len: nat := |buf|;
    NoData(s1, s2, start);
    assert buf[..0] == [];
    while len > 0
      invariant len <= |buf| && Deferred(s1, s2, start, buf[..|buf| - len], 0)
      invariant if len == |buf| then s1 == adler % 65536 && s2 == adler / 65536 else s1 < A32_BASE && s2 < A32_BASE
    {
      var k: nat := if len < A32_NMAX then len else A32_NMAX;
      ghost var from := |buf| - len;
      s1, s2 := AdlerBlock(s1, s2, buf, |buf| - len, k, start);
      len := len - k;
      Reduce(s1, s2, start, buf[..|buf| - len], k);
      s1, s2 := s1 % A32_BASE, s2 % A32_BASE;
    }
    assert buf[..|buf|] == buf;
    r := s2 * 65536 + s1;
  }

  /** A window's checksum starts from 1. */
  lemma FromOne(data: seq<byte>)
    ensures data == [] ==> WindowAdler(data) == 1
    ensures var (s1, s2) := Adler(1 % 65536 % A32_BASE, 1 / 65536 % A32_BASE, data);
            WindowAdler(data) == s2 * 65536 + s1
  {
    FromNothing();
    hide Adler;
  }

  lemma FromNothing()
    ensures WindowAdler([]) == 1
  {
  }

  lemma NoData(s1: nat, s2: nat, start: (nat, nat))
    requires s1 <= 65535 && s2 <= 65535 && start == (s1 % A32_BASE, s2 % A32_BASE)
    ensures Deferred(s1, s2, start, [], 0)
  {
  }

  // ---------------------------------------------------------------- rolling checksum

  /** The sum of the permuted bytes. */
  function Low(perm: seq<nat>, s: seq<byte>): nat
    requires |perm| == 256
  {
    if s == [] then 0 else Low(perm, s[..|s| - 1]) + perm[s[|s| - 1]]
  }

  /** The sum of all sums so far. */
  function High(perm: seq<nat>, s: seq<byte>): nat
    requires |perm| == 256
  {
    if s == [] then 0 else High(perm, s[..|s| - 1]) + Low(perm, s)
  }

  /** The large checksum of a window. */
  function LargeCksum(perm: seq<nat>, s: seq<byte>): nat
    requires |perm| == 256
  {
    High(perm, s) % 65536 * 65536 + Low(perm, s) % 65536
  }

  lemma AddMod(a: nat, b: nat)
    ensures (a % WORD + b) % WORD == (a + b) % WORD
    ensures (a + b % WORD) % WORD == (a + b) % WORD
    ensures a % WORD % 65536 == a % 65536
  {
    AddWord(a, b);
    AddWord(b, a);
    LowHalf(a);
  }

  lemma AddWord(a: nat, b: nat)
    ensures (a % WORD + b) % WORD == (a + b) % WORD
  {
    var q, r := a / WORD, a % WORD;
    assert a + b == WORD * q + (r + b);
  }

  lemma LowHalf(a: nat)
    ensures a % WORD % 65536 == a % 65536
  {
    var q, r := a / WORD, a % WORD;
    assert a == 65536 * (65536 * q) + r;
  }

  /** xd3_lcksum, in 32-bit arithmetic. */
  method Lcksum(perm: seq<nat>, seg: seq<byte>) returns (r: nat)
    requires |perm| == 256
    ensures r == LargeCksum(perm, seg)
  {
    hide Low, High;
    var low: nat, high: nat := 0, 0;
    SumsStart(perm);
    assert seg[..0] == [];
    for i := 0 to |seg|
      invariant low == Low(perm, seg[..i]) % WORD && high == High(perm, seg[..i]) % WORD
    {
      SumsStep(perm, seg, i);
      AddMod(Low(perm, seg[..i]), perm[seg[i]]);
      low := (low + perm[seg[i]]) % WORD;
      high := WrapSum(high, low, High(perm, seg[..i]), Low(perm, seg[..i + 1]));
    }
    assert seg[..|seg|] == seg;
    AddMod(Low(perm, seg), 0);
    AddMod(High(perm, seg), 0);
    r := high % 65536 * 65536 + low % 65536;
  }

  /** A 32-bit addition. */
  function WrapSum(x: nat, y: nat, ghost fullX: nat, ghost fullY: nat): (r: nat)
    requires x == fullX % WORD && y == fullY % WORD
    ensures r == (fullX + fullY) % WORD
  {
    AddMod(fullX, y);
    AddMod(fullX, fullY);
    (x + y) % WORD
  }

  lemma SumsStart(perm: seq<nat>)
    requires |perm| == 256
    ensures Low(perm, []) == 0 && High(perm, []) == 0
  {
  }

  lemma SumsStep(perm: seq<nat>, seg: seq<byte>, i: nat)
    requires |perm| == 256 && i < |seg|
    ensures Low(perm, seg[..i + 1]) == Low(perm, seg[..i]) + perm[seg[i]]
    ensures High(perm, seg[..i + 1]) == High(perm, seg[..i]) + Low(perm, seg[..i + 1])
  {
    assert seg[..i + 1][..i] == seg[..i];
  }

  lemma {:induction false} LowCons(perm: seq<nat>, x: byte, s: seq<byte>)
    requires |perm| == 256
    ensures Low(perm, [x] + s) == perm[x] + Low(perm, s)
    ensures High(perm, [x] + s) == (|s| + 1) * perm[x] + High(perm, s)
    decreases |s|
  {
    var all := [x] + s;
    if s == [] {
      assert all[..0] == [];
    } else {
      var n := |s|;
      var front := s[..n - 1];
      LowCons(perm, x, front);
      assert all[..n] == [x] + front && all[n] == s[n - 1];
      OneMore(n, perm[x]);
    }
  }

  lemma OneMore(n: nat, v: nat)
    ensures (n + 1) * v == n * v + v
  {
  }

  /** The window moves one byte on. */
  lemma Slide(perm: seq<nat>, s: seq<byte>, look: nat)
    requires |perm| == 256 && |s| == look + 1 && look > 0
    ensures Low(perm, s[1..]) == Low(perm, s[..look]) - perm[s[0]] + perm[s[look]]
    ensures High(perm, s[1..]) == High(perm, s[..look]) - look * perm[s[0]] + Low(perm, s[1..])
  {
    var mid := s[1..look];
    assert s[..look] == [s[0]] + mid && s[1..][..look - 1] == mid;
    LowCons(perm, s[0], mid);
  }

  /** xd3_large_cksum_update, in 32-bit arithmetic. */
  method LargeUpdate(perm: seq<nat>, cksum: nat, base: seq<byte>, look: nat) returns (r: nat)
    requires |perm| == 256 && |base| > look > 0 && cksum == LargeCksum(perm, base[..look])
    ensures r == LargeCksum(perm, base[1..look + 1])
  {
    hide Low, High;
    var oldC: nat, newC: nat := perm[base[0]], perm[base[look]];
    ghost var l, h := Low(perm, base[..look]), High(perm, base[..look]);
    Halves(h % 65536, l % 65536);
    var low := ((cksum % 65536 - oldC + newC) % WORD) % 65536;
    ghost var s := base[..look + 1];
    assert s[..look] == base[..look] && s[1..] == base[1..look + 1];
    Slide(perm, s, look);
    LowMod(l, oldC, newC, Low(perm, s[1..]));
    var product := look * oldC;
    HighMod(h, product, Low(perm, s[1..]), High(perm, s[1..]));
    var high := ((cksum / 65536 - product % WORD + low) % WORD) % 65536;
    r := high * 65536 + low;
  }

  lemma Halves(high: nat, low: nat)
    requires low < 65536
    ensures (high * 65536 + low) % 65536 == low && (high * 65536 + low) / 65536 == high
  {
  }

  /** Reducing first changes nothing. */
  lemma LowMod(l: nat, o: nat, n: nat, l2: nat)
    requires l2 == l - o + n
    ensures (l % 65536 - o + n) % WORD % 65536 == l2 % 65536
  {
  }

  lemma HighMod(h: nat, p: nat, l2: nat, h2: nat)
    requires h2 == h - p + l2
    ensures (h % 65536 - p % WORD + l2 % 65536) % WORD % 65536 == h2 % 65536
  {
  }

  /** The rolling checksum equals recomputation at every position scanned. */
  method RollAll(perm: seq<nat>, input: seq<byte>, look: nat) returns (sums: seq<nat>)
    requires |perm| == 256 && 0 < look <= |input|
    ensures |sums| == |input| - look + 1
    ensures forall i :: 0 <= i < |sums| ==> sums[i] == LargeCksum(perm, input[i..i + look])
  {
    hide LargeCksum;
    var lcksum := Lcksum(perm, input[..look]);
    sums := [lcksum];
    var pos: nat := 0;
    assert input[0..look] == input[..look];
    while pos + look < |input|
      invariant pos + look <= |input| && |sums| == pos + 1 && lcksum == sums[pos]
      invariant forall i :: 0 <= i < |sums| ==> sums[i] == LargeCksum(perm, input[i..i + look])
    {
      assert input[pos..][..look] == input[pos..pos + look];
      lcksum := LargeUpdate(perm, lcksum, input[pos..], look);
      assert input[pos..][1..look + 1] == input[pos + 1..pos + 1 + look];
      sums := sums + [lcksum];
      pos := pos + 1;
    }
  }
}
