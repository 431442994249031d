/** Canonical prefix codes (the rule of section 3.2.2 of RFC 1951): codes from lengths, and the
    table-driven decoder of xdelta3-djw.h. */
module Canonical {
  import opened Common
  import opened BitStream

  /** How many symbols have length l. */
  function Count(clen: seq<nat>, l: nat): nat {
    if clen == [] then 0 else Count(clen[..|clen| - 1], l) + (if clen[|clen| - 1] == l then 1 else 0)
  }

  /** Symbols of length l that carry a code: length zero means no code. */
  function Coded(clen: seq<nat>, l: nat): nat {
    if l == 0 then 0 else Count(clen, l)
  }

  /** The first code of length l. */
  function First(clen: seq<nat>, l: nat): nat {
    if l == 0 then 0 else 2 * (First(clen, l - 1) + Coded(clen, l - 1))
  }

  /** One past the last code of length l.  Since Past(l) = 2 Past(l-1) + Coded(l), it is also the
      Kraft sum of the lengths up to l, scaled by 2^l. */
  function Past(clen: seq<nat>, l: nat): nat {
    First(clen, l) + Coded(clen, l)
  }

  /** Symbols with a shorter code than l. */
  function Below(clen: seq<nat>, l: nat): nat {
    if l == 0 then 0 else Below(clen, l - 1) + Coded(clen, l - 1)
  }

  /** The code of symbol i: codes of one length are consecutive in symbol order. */
  function Code(clen: seq<nat>, i: nat): nat
    requires i < |clen|
  {
    First(clen, clen[i]) + Count(clen[..i], clen[i])
  }

  function CodeBits(clen: seq<nat>, i: nat): seq<bool>
    requires i < |clen|
  {
    Bits(clen[i], Code(clen, i))
  }

  /** The sum of 2^(m - length) over the symbols that carry a code. */
  function KraftSum(clen: seq<nat>, m: nat): nat {
    if clen == [] then 0
    else
      var c := clen[|clen| - 1];
      KraftSum(clen[..|clen| - 1], m) + (if 0 < c <= m then Pow2(m - c) else 0)
  }

  ghost predicate Bounded(clen: seq<nat>, m: nat) {
    forall i :: 0 <= i < |clen| ==> clen[i] <= m
  }

  /** Lengths with a Kraft sum of at most one. */
  ghost predicate Decodable(clen: seq<nat>, m: nat) {
    Bounded(clen, m) && KraftSum(clen, m) <= Pow2(m)
  }

  lemma {:induction false} PastNone(l: nat)
    ensures Past([], l) == 0
    decreases l
  {
    if l > 0 {
      PastNone(l - 1);
    }
  }

  lemma {:induction false} PastSnoc(front: seq<nat>, c: nat, l: nat)
    ensures Past(front + [c], l) == Past(front, l) + (if 0 < c <= l then Pow2(l - c) else 0)
    decreases l
  {
    var clen := front + [c];
    assert clen[..|clen| - 1] == front;
    if l > 0 {
      PastSnoc(front, c, l - 1);
    }
  }

  /** The scaled Kraft sum is where the codes of the greatest length end. */
  lemma {:induction false} KraftIsPast(clen: seq<nat>, m: nat)
    ensures KraftSum(clen, m) == Past(clen, m)
    decreases |clen|
  {
    if clen == [] {
      PastNone(m);
    } else {
      var front := clen[..|clen| - 1];
      KraftIsPast(front, m);
      PastSnoc(front, clen[|clen| - 1], m);
      assert clen == front + [clen[|clen| - 1]];
    }
  }

  /** Codes of a greater length continue beyond every code of length l, extended by zeros. */
  lemma {:induction false} FirstBeyond(clen: seq<nat>, l: nat, m: nat)
    requires l < m
    ensures First(clen, m) >= Past(clen, l) * Pow2(m - l)
    decreases m
  {
    if l + 1 < m {
      FirstBeyond(clen, l, m - 1);
      assert Pow2(m - l) == 2 * Pow2(m - 1 - l);
      MulTwo(Past(clen, l), Pow2(m - 1 - l));
    } else {
      assert Pow2(m - l) == 2 * Pow2(0);
    }
  }

  lemma MulTwo(a: nat, b: nat)
    ensures a * (2 * b) == 2 * (a * b)
  {
  }

  lemma MulCancel(a: nat, b: nat, p: nat)
    requires p > 0 && a * p <= b * p
    ensures a <= b
  {
  }

  /** In a decodable table the codes of each length fit that length. */
  lemma PastFits(clen: seq<nat>, m: nat, l: nat)
    requires Decodable(clen, m) && l <= m
    ensures Past(clen, l) <= Pow2(l)
  {
    KraftIsPast(clen, m);
    if l < m {
      FirstBeyond(clen, l, m);
      Pow2Add(l, m - l);
      MulCancel(Past(clen, l), Pow2(l), Pow2(m - l));
    }
  }

  lemma {:induction false} CountPrefix(clen: seq<nat>, i: nat, l: nat)
    requires i <= |clen|
    ensures Count(clen[..i], l) <= Count(clen, l)
    ensures i < |clen| && clen[i] == l ==> Count(clen[..i], l) < Count(clen, l)
    decreases |clen|
  {
    if i < |clen| {
      var front := clen[..|clen| - 1];
      assert front[..i] == clen[..i];
      CountPrefix(front, i, l);
      if i == |clen| - 1 {
        assert front[..i] == front;
      }
    } else {
      assert clen[..i] == clen;
    }
  }

  lemma CodeFits(clen: seq<nat>, m: nat, i: nat)
    requires Decodable(clen, m) && i < |clen| && clen[i] > 0
    ensures First(clen, clen[i]) <= Code(clen, i) < Past(clen, clen[i]) <= Pow2(clen[i])
  {
    CountPrefix(clen, i, clen[i]);
    PastFits(clen, m, clen[i]);
  }

  // ---------------------------------------------------------------- the canonical order

  /** Only the symbols that come before i: those with a shorter code, and of one length those with
      a smaller index. */
  function Earlier(clen: seq<nat>, i: nat): (r: seq<nat>)
    requires i < |clen|
    ensures |r| == |clen|
  {
    seq(|clen|, j requires 0 <= j < |clen| =>
      if clen[j] < clen[i] || (clen[j] == clen[i] && j < i) then clen[j] else 0)
  }

  lemma {:induction false} CountSame(a: seq<nat>, b: seq<nat>, l: nat)
    requires |a| == |b| && forall j :: 0 <= j < |a| ==> (a[j] == l <==> b[j] == l)
    ensures Count(a, l) == Count(b, l)
    decreases |a|
  {
    if a != [] {
      CountSame(a[..|a| - 1], b[..|b| - 1], l);
    }
  }

  lemma {:induction false} CountTail(clen: seq<nat>, i: nat, l: nat)
    requires i <= |clen| && forall j :: i <= j < |clen| ==> clen[j] != l
    ensures Count(clen, l) == Count(clen[..i], l)
    decreases |clen|
  {
    if i < |clen| {
      CountTail(clen[..|clen| - 1], i, l);
      assert clen[..|clen| - 1][..i] == clen[..i];
    } else {
      assert clen[..i] == clen;
    }
  }

  lemma {:induction false} FirstSame(a: seq<nat>, b: seq<nat>, l: nat)
    requires forall k :: 0 < k < l ==> Count(a, k) == Count(b, k)
    ensures First(a, l) == First(b, l)
    decreases l
  {
    if l > 0 {
      FirstSame(a, b, l - 1);
    }
  }

  /** Codes are given out in this order without a gap: the code of a symbol is the space, in units
      of its length, that the symbols before it take up. */
  lemma CodeIsSpaceBefore(clen: seq<nat>, i: nat)
    requires i < |clen| && clen[i] > 0
    ensures Code(clen, i) == KraftSum(Earlier(clen, i), clen[i])
  {
    var e, l := Earlier(clen, i), clen[i];
    KraftIsPast(e, l);
    forall k | 0 < k < l ensures Count(e, k) == Count(clen, k) {
      CountSame(e, clen, k);
    }
    FirstSame(e, clen, l);
    CountTail(e, i, l);
    CountSame(e[..i], clen[..i], l);
  }

  // ---------------------------------------------------------------- prefixes

  lemma {:induction false} BitsTake(n: nat, v: nat, l: nat)
    requires l <= n
    ensures Bits(n, v)[..l] == Bits(l, Shift(v, n - l))
    decreases n
  {
    if l < n {
      BitsTake(n - 1, v / 2, l);
      ShiftHalf(v, n - 1 - l);
      assert Bits(n, v)[..l] == Bits(n - 1, v / 2)[..l];
    } else {
      assert Bits(n, v)[..n] == Bits(n, v);
    }
  }

  lemma {:induction false} ShiftHalf(v: nat, k: nat)
    ensures Shift(v / 2, k) == Shift(v, k + 1)
    decreases k
  {
    if k > 0 {
      ShiftHalf(v, k - 1);
    }
  }

  lemma {:induction false} ShiftLower(v: nat, k: nat, a: nat)
    requires v >= a * Pow2(k)
    ensures Shift(v, k) >= a
    decreases k
  {
    if k > 0 {
      MulTwo(a, Pow2(k - 1));
      ShiftLower(v / 2, k - 1, a);
      ShiftHalf(v, k - 1);
    }
  }

  lemma {:induction false} ShiftUpper(v: nat, k: nat, a: nat)
    requires v < a * Pow2(k)
    ensures Shift(v, k) < a
    decreases k
  {
    if k > 0 {
      MulTwo(a, Pow2(k - 1));
      ShiftUpper(v / 2, k - 1, a);
      ShiftHalf(v, k - 1);
    }
  }

  /** The first l bits of a longer code are no code of length l: they lie past them all. */
  lemma PrefixBeyond(clen: seq<nat>, m: nat, i: nat, l: nat)
    requires Decodable(clen, m) && i < |clen| && l < clen[i]
    ensures Past(clen, l) <= Value(CodeBits(clen, i)[..l])
  {
    var n, c := clen[i], Code(clen, i);
    CodeFits(clen, m, i);
    FirstBeyond(clen, l, n);
    ShiftLower(c, n - l, Past(clen, l));
    BitsTake(n, c, l);
    Pow2Add(l, n - l);
    ShiftUpper(c, n - l, Pow2(l));
    ValueBits(l, Shift(c, n - l));
  }

  /** Prefix-freeness: no code is a prefix of another symbol's code. */
  lemma PrefixFree(clen: seq<nat>, m: nat, i: nat, j: nat)
    requires Decodable(clen, m) && i < |clen| && j < |clen| && i != j && clen[i] > 0 && clen[j] > 0
    ensures !(CodeBits(clen, i) <= CodeBits(clen, j))
  {
    if CodeBits(clen, i) <= CodeBits(clen, j) {
      CodeFits(clen, m, i);
      CodeFits(clen, m, j);
      ValueBits(clen[i], Code(clen, i));
      if clen[i] < clen[j] {
        assert CodeBits(clen, j)[..clen[i]] == CodeBits(clen, i);
        PrefixBeyond(clen, m, j, clen[i]);
      } else {
        assert CodeBits(clen, i) == CodeBits(clen, j);
        ValueBits(clen[j], Code(clen, j));
        if i < j { RankIncreases(clen, i, j); } else { RankIncreases(clen, j, i); }
      }
    }
  }

  lemma RankIncreases(clen: seq<nat>, i: nat, j: nat)
    requires i < j < |clen| && clen[i] == clen[j]
    ensures Count(clen[..i], clen[i]) < Count(clen[..j], clen[j])
  {
    assert clen[..j][..i] == clen[..i];
    CountPrefix(clen[..j], i, clen[i]);
  }

  // ---------------------------------------------------------------- decoding

  /** The decoder's tables: for each length the last code and the distance from codes to
      positions in the list of symbols ordered by code. */
  datatype Tables = Tables(limit: seq<int>, base: seq<int>, inorder: seq<nat>, minLen: nat, maxLen: nat)

  /** Reading on with `n` bits read as `code`: the number of bits of the symbol's code and their
      value.  Nothing if the bits run out or no code matches. */
  function FindCode(t: Tables, bits: seq<bool>, code: nat, n: nat): (r: Option<(nat, nat)>)
    requires t.maxLen < |t.limit|
    ensures r.Some? ==> n < r.value.0 <= n + |bits| && t.minLen <= r.value.0 <= t.maxLen
    decreases |bits|
  {
    if n >= t.maxLen || bits == [] then None
    else
      var code' := 2 * code + Bit(bits[0]);
      if n + 1 >= t.minLen && code' <= t.limit[n + 1] then Some((n + 1, code'))
      else FindCode(t, bits[1..], code', n + 1)
  }

  /** djw_decode_symbol: the symbol and the bits after its code. */
  function DecodeSymbol(t: Tables, bits: seq<bool>, maxSym: nat): Option<(nat, seq<bool>)>
    requires t.maxLen < |t.limit| && t.maxLen < |t.base|
  {
    match FindCode(t, bits, 0, 0)
    case None => None
    case Some((n, code)) =>
      var offset := code - t.base[n];
      if 0 <= offset <= maxSym && offset < |t.inorder| then Some((t.inorder[offset], bits[n..])) else None
  }

  /** Tables that djw_build_decoder makes for a length table. */
  ghost predicate TablesFor(t: Tables, clen: seq<nat>, m: nat) {
    && 1 <= t.minLen <= t.maxLen <= m && |t.limit| == m + 2 && |t.base| == m + 2
    && (forall l :: 1 <= l < t.minLen ==> Coded(clen, l) == 0)
    && (forall l :: t.maxLen < l <= m ==> Coded(clen, l) == 0)
    && (forall l :: t.minLen <= l <= t.maxLen ==> t.limit[l] == Past(clen, l) - 1)
    && (forall l :: t.minLen <= l <= t.maxLen ==> t.base[l] == First(clen, l) - Below(clen, l))
    && (forall i :: 0 <= i < |clen| && clen[i] > 0 ==> Slot(clen, i) < |t.inorder| && t.inorder[Slot(clen, i)] == i)
  }

  /** The place of symbol i in code order. */
  function Slot(clen: seq<nat>, i: nat): nat
    requires i < |clen|
  {
    Below(clen, clen[i]) + Count(clen[..i], clen[i])
  }

  /** The shortest length from l up that some symbol has; past m if none. */
  function MinLen(clen: seq<nat>, m: nat, l: nat): (r: nat)
    requires l <= m + 1
    ensures l <= r <= m + 1 && (r <= m ==> Count(clen, r) > 0)
    ensures forall k :: l <= k < r ==> Count(clen, k) == 0
    decreases m + 1 - l
  {
    if l > m || Count(clen, l) > 0 then l else MinLen(clen, m, l + 1)
  }

  /** The longest length from l down; zero if none. */
  function MaxLen(clen: seq<nat>, l: nat): (r: nat)
    ensures r <= l && (r > 0 ==> Count(clen, r) > 0)
    ensures forall k :: r < k <= l ==> Count(clen, k) == 0
  {
    if l == 0 || Count(clen, l) > 0 then l else MaxLen(clen, l - 1)
  }

  /** The first k symbols put in their places. */
  function Inorder(clen: seq<nat>, m: nat, k: nat): (r: seq<nat>)
    requires Bounded(clen, m) && k <= |clen|
    ensures |r| == |clen|
  {
    if k == 0 then Repeat(0, |clen|)
    else
      SlotBound(clen, m, k - 1);
      var r := Inorder(clen, m, k - 1);
      if clen[k - 1] != 0 then r[Slot(clen, k - 1) := k - 1] else r
  }

  /** What djw_build_decoder leaves in its arrays, for every length table, even one that codes
      nothing or too much. */
  function TablesOf(clen: seq<nat>, m: nat): (t: Tables)
    requires Bounded(clen, m)
    ensures t.maxLen < |t.limit| && t.maxLen < |t.base|
  {
    var lo, hi := MinLen(clen, m, 1), MaxLen(clen, m);
    Tables(
      seq(m + 2, l requires 0 <= l => if l == lo || lo <= l <= hi then Past(clen, l) - 1 else 0),
      seq(m + 2, l requires 0 <= l => if lo <= l <= hi then First(clen, l) - Below(clen, l) else 0),
      Inorder(clen, m, |clen|), lo, hi)
  }

  lemma {:induction false} InorderHolds(clen: seq<nat>, m: nat, k: nat, i: nat)
    requires Bounded(clen, m) && i < k <= |clen| && clen[i] > 0
    ensures Slot(clen, i) < |clen| && Inorder(clen, m, k)[Slot(clen, i)] == i
    decreases k
  {
    hide Slot;
    SlotBound(clen, m, i);
    SlotBound(clen, m, k - 1);
    if i < k - 1 {
      InorderHolds(clen, m, k - 1, i);
      if clen[k - 1] != 0 {
        SlotsDiffer(clen, i, k - 1);
      }
    }
  }

  /** The tables of a table that codes something. */
  lemma TablesOfCoded(clen: seq<nat>, m: nat, i: nat)
    requires Bounded(clen, m) && i < |clen| && clen[i] > 0
    ensures TablesFor(TablesOf(clen, m), clen, m)
  {
    hide First, Past, Below, Count, Slot, Inorder;
    LengthCounted(clen, i);
    forall k | 0 <= k < |clen| && clen[k] > 0
      ensures Slot(clen, k) < |clen| && Inorder(clen, m, |clen|)[Slot(clen, k)] == k
    {
      InorderHolds(clen, m, |clen|, k);
    }
  }

  /** Without codes every symbol is an error. */
  lemma NothingCoded(clen: seq<nat>, m: nat, bits: seq<bool>, maxSym: nat)
    requires Bounded(clen, m) && forall i :: 0 <= i < |clen| ==> clen[i] == 0
    ensures DecodeSymbol(TablesOf(clen, m), bits, maxSym) == None
  {
    if MaxLen(clen, m) > 0 {
      CountNone(clen, MaxLen(clen, m));
    }
  }

  lemma {:induction false} FindCodeRuns(t: Tables, clen: seq<nat>, m: nat, i: nat, n: nat, rest: seq<bool>)
    requires Decodable(clen, m) && TablesFor(t, clen, m) && i < |clen| && n < clen[i]
    ensures FindCode(t, CodeBits(clen, i)[n..] + rest, Value(CodeBits(clen, i)[..n]), n)
            == Some((clen[i], Code(clen, i)))
    decreases clen[i] - n
  {
    hide FindCode, Value, Bits, Code, Bit;
    var bits, len := CodeBits(clen, i), clen[i];
    LengthInTables(t, clen, m, i);
    var s := bits[n..] + rest;
    assert s[0] == bits[n] && s[1..] == bits[n + 1..] + rest;
    ValueNext(bits, n);
    FindCodeStep(t, s, Value(bits[..n]), n);
    if n + 1 == len {
      LastBit(t, clen, m, i);
      assert bits[..len] == bits;
    } else {
      PrefixBeyond(clen, m, i, n + 1);
      FindCodeRuns(t, clen, m, i, n + 1, rest);
    }
  }

  lemma ValueNext(bits: seq<bool>, n: nat)
    requires n < |bits|
    ensures Value(bits[..n + 1]) == 2 * Value(bits[..n]) + Bit(bits[n])
  {
    assert bits[..n + 1][..n] == bits[..n];
  }

  /** With its last bit a code is complete and within the limit of its length. */
  lemma LastBit(t: Tables, clen: seq<nat>, m: nat, i: nat)
    requires Decodable(clen, m) && TablesFor(t, clen, m) && i < |clen| && clen[i] > 0
    ensures t.minLen <= clen[i] <= t.maxLen && Value(CodeBits(clen, i)) == Code(clen, i) <= t.limit[clen[i]]
  {
    hide Value, Bits;
    CodeFits(clen, m, i);
    LengthInTables(t, clen, m, i);
    ValueBits(clen[i], Code(clen, i));
  }

  lemma LengthInTables(t: Tables, clen: seq<nat>, m: nat, i: nat)
    requires TablesFor(t, clen, m) && Bounded(clen, m) && i < |clen| && clen[i] > 0
    ensures t.minLen <= clen[i] <= t.maxLen
  {
    CountPrefix(clen, i, clen[i]);
    assert Coded(clen, clen[i]) > 0;
  }

  /** The table decoder refines the code: from the code of a symbol followed by anything it
      returns the symbol and exactly what follows. */
  lemma DecodeEncoded(t: Tables, clen: seq<nat>, m: nat, i: nat, rest: seq<bool>, maxSym: nat)
    requires Decodable(clen, m) && TablesFor(t, clen, m) && i < |clen| && clen[i] > 0
    requires |clen| <= maxSym + 1
    ensures DecodeSymbol(t, CodeBits(clen, i) + rest, maxSym) == Some((i, rest))
  {
    hide FindCode;
    var bits := CodeBits(clen, i);
    FindCodeRuns(t, clen, m, i, 0, rest);
    assert bits[0..] == bits && bits[..0] == [];
    LengthInTables(t, clen, m, i);
    SlotBound(clen, m, i);
    assert (bits + rest)[clen[i]..] == rest;
  }

  /** Slots number the coded symbols from zero. */
  lemma SlotBound(clen: seq<nat>, m: nat, i: nat)
    requires Bounded(clen, m) && i < |clen|
    ensures Slot(clen, i) < |clen|
  {
    CountPrefix(clen, i, clen[i]);
    BelowBound(clen, m, clen[i]);
  }

  /** At most |clen| symbols have a length of at most l. */
  lemma {:induction false} BelowBound(clen: seq<nat>, m: nat, l: nat)
    ensures Below(clen, l) + Count(clen, l) <= |clen|
    decreases |clen|
  {
    if clen == [] {
      BelowNone(l);
    } else {
      var front, c := clen[..|clen| - 1], clen[|clen| - 1];
      BelowBound(front, m, l);
      BelowSnoc(front, c, l);
      assert clen == front + [c];
    }
  }

  lemma {:induction false} BelowNone(l: nat)
    ensures Below([], l) == 0
  {
    if l > 0 {
      BelowNone(l - 1);
    }
  }

  lemma {:induction false} BelowSnoc(front: seq<nat>, c: nat, l: nat)
    ensures Below(front + [c], l) == Below(front, l) + (if 0 < c < l then 1 else 0)
    decreases l
  {
    assert (front + [c])[..|front + [c]| - 1] == front;
    if l > 0 {
      BelowSnoc(front, c, l - 1);
    }
  }

  // ---------------------------------------------------------------- table construction

  lemma {:induction false} FirstZero(clen: seq<nat>, l: nat)
    requires forall k :: 1 <= k < l ==> Coded(clen, k) == 0
    ensures First(clen, l) == 0 && Below(clen, l) == 0
    decreases l
  {
    if l > 0 {
      FirstZero(clen, l - 1);
    }
  }

  lemma CountTake(clen: seq<nat>, i: nat, l: nat)
    requires i < |clen|
    ensures Count(clen[..i + 1], l) == Count(clen[..i], l) + (if clen[i] == l then 1 else 0)
  {
    assert clen[..i + 1][..i] == clen[..i];
  }

  lemma {:induction false} CountNone(clen: seq<nat>, l: nat)
    requires forall i :: 0 <= i < |clen| ==> clen[i] != l
    ensures Count(clen, l) == 0
  {
    if clen != [] {
      CountNone(clen[..|clen| - 1], l);
    }
  }

  lemma CodeIs(clen: seq<nat>, i: nat)
    requires i < |clen|
    ensures Code(clen, i) == First(clen, clen[i]) + Count(clen[..i], clen[i])
  {
  }

  /** djw_build_codes */
  method BuildCodes(clen: seq<nat>, absMax: nat) returns (codes: seq<nat>)
    requires Bounded(clen, absMax) && absMax <= 20
    ensures |codes| == |clen| && forall i :: 0 <= i < |clen| && clen[i] > 0 ==> codes[i] == Code(clen, i)
  {
    hide First, Past, Below, Coded, Count, Code;
    var minClen: nat, maxClen: nat := 20, 0;
    for i := 0 to |clen|
      invariant maxClen <= absMax && 1 <= minClen <= 20
      invariant forall k :: 0 <= k < i ==> clen[k] <= maxClen && (clen[k] > 0 ==> minClen <= clen[k])
    {
      if clen[i] > 0 && clen[i] < minClen {
        minClen := clen[i];
      }
      maxClen := Max(maxClen, clen[i]);
    }
    var c := new nat[|clen|](_ => 0);
    var code, l := 0, minClen;
    forall k | 1 <= k < minClen ensures Coded(clen, k) == 0 { CodedIsCount(clen, k); CountNone(clen, k); }
    FirstZero(clen, minClen);
    while l <= maxClen
      invariant minClen <= l && code == First(clen, l)
      invariant forall i :: 0 <= i < |clen| && minClen <= clen[i] < l ==> c[i] == Code(clen, i)
    {
      CountNone(clen[..0], l);
      for i := 0 to |clen|
        invariant code == First(clen, l) + Count(clen[..i], l)
        invariant forall k :: 0 <= k < |clen| && minClen <= clen[k] < l ==> c[k] == Code(clen, k)
        invariant forall k :: 0 <= k < i && clen[k] == l ==> c[k] == Code(clen, k)
      {
        CountTake(clen, i, l);
        if clen[i] == l {
          CodeIs(clen, i);
          c[i] := code;
          code := code + 1;
        }
      }
      assert clen[..|clen|] == clen;
      CodedIsCount(clen, l);
      PastIs(clen, l);
      TableStep(clen, l + 1);
      code := 2 * code;
      l := l + 1;
    }
    codes := c[..];
  }

  /** The counting part of djw_build_decoder. */
  method CountLengths(clen: seq<nat>, absMax: nat) returns (nrClen: seq<nat>, minClen: nat, maxClen: nat)
    requires Bounded(clen, absMax)
    ensures |nrClen| == absMax + 2 && forall l :: 0 <= l <= absMax + 1 ==> nrClen[l] == Count(clen, l)
    ensures minClen == MinLen(clen, absMax, 1) && maxClen == MaxLen(clen, absMax)
  {
    var nr := new nat[absMax + 2](_ => 0);
    for i := 0 to |clen|
      invariant forall l :: 0 <= l <= absMax + 1 ==> nr[l] == Count(clen[..i], l)
    {
      forall l | 0 <= l <= absMax + 1
        ensures Count(clen[..i + 1], l) == Count(clen[..i], l) + (if clen[i] == l then 1 else 0)
      {
        CountTake(clen, i, l);
      }
      nr[clen[i]] := nr[clen[i]] + 1;
    }
    assert clen[..|clen|] == clen;
    nrClen := nr[..];
    minClen := 1;
    while minClen <= absMax && nrClen[minClen] == 0
      invariant 1 <= minClen <= absMax + 1
      invariant MinLen(clen, absMax, minClen) == MinLen(clen, absMax, 1)
    {
      minClen := minClen + 1;
    }
    maxClen := absMax;
    while maxClen != 0 && nrClen[maxClen] == 0
      invariant maxClen <= absMax && MaxLen(clen, maxClen) == MaxLen(clen, absMax)
    {
      maxClen := maxClen - 1;
    }
  }

  lemma LengthCounted(clen: seq<nat>, i: nat)
    requires i < |clen| && clen[i] > 0
    ensures Count(clen, clen[i]) > 0
  {
    CountPrefix(clen, i, clen[i]);
  }

  lemma CodedIsCount(clen: seq<nat>, l: nat)
    requires l > 0
    ensures Coded(clen, l) == Count(clen, l)
  {
  }

  lemma PastIs(clen: seq<nat>, l: nat)
    ensures Past(clen, l) == First(clen, l) + Coded(clen, l)
  {
  }

  lemma TableStep(clen: seq<nat>, l: nat)
    requires l > 0
    ensures First(clen, l) == 2 * Past(clen, l - 1) && Below(clen, l) == Below(clen, l - 1) + Coded(clen, l - 1)
  {
  }

  /** The middle part of djw_build_decoder: the BASE and LIMIT tables. */
  method FillLimits(clen: seq<nat>, absMax: nat, nrClen: seq<nat>, minClen: nat, maxClen: nat)
    returns (limit: seq<int>, base: seq<int>, tmpBase: seq<nat>)
    requires |nrClen| == absMax + 2 && 1 <= minClen <= absMax + 1 && maxClen <= absMax
    requires forall l :: 1 <= l <= absMax + 1 ==> nrClen[l] == Coded(clen, l)
    requires forall l :: 1 <= l < minClen ==> Coded(clen, l) == 0
    ensures |limit| == |base| == |tmpBase| == absMax + 2
    ensures forall l :: l == minClen || minClen <= l <= maxClen ==> limit[l] == Past(clen, l) - 1
    ensures forall l :: minClen <= l <= maxClen ==> base[l] == First(clen, l) - Below(clen, l)
    ensures forall l :: 0 <= l < minClen || Max(minClen, maxClen) < l < absMax + 2 ==> limit[l] == base[l] == 0
    ensures maxClen < minClen ==> base[minClen] == 0
    ensures forall l :: minClen <= l <= maxClen ==> tmpBase[l] == Below(clen, l)
  {
    hide First, Past, Below, Coded;
    var lim: array<int> := new int[absMax + 2](_ => 0);
    var bas: array<int> := new int[absMax + 2](_ => 0);
    var tmp := new nat[absMax + 2](_ => 0);
    FirstZero(clen, minClen);
    PastIs(clen, minClen);
    var codes: int := nrClen[minClen];
    lim[minClen] := codes - 1;
    var l := minClen + 1;
    while l <= maxClen
      invariant minClen < l <= Max(minClen, maxClen) + 1
      invariant forall k :: minClen <= k < l ==>
                  lim[k] == Past(clen, k) - 1 && tmp[k] == Below(clen, k) && bas[k] == First(clen, k) - Below(clen, k)
      invariant forall k :: 0 <= k < minClen || l <= k < absMax + 2 ==> lim[k] == 0 && bas[k] == 0
    {
      var lastLimit := (lim[l - 1] + 1) * 2;
      TableStep(clen, l);
      PastIs(clen, l);
      PastIs(clen, l - 1);
      tmp[l] := tmp[l - 1] + nrClen[l - 1];
      lim[l] := lastLimit + nrClen[l] - 1;
      bas[l] := lastLimit - tmp[l];
      l := l + 1;
    }
    limit, base, tmpBase := lim[..], bas[..], tmp[..];
  }

  /** djw_build_decoder */
  method BuildDecoder(clen: seq<nat>, absMax: nat) returns (t: Tables)
    requires Bounded(clen, absMax)
    ensures t == TablesOf(clen, absMax)
  {
    hide First, Past, Below, Coded, Count, Slot, MinLen, MaxLen, Inorder, Bounded;
    var nrClen, minClen, maxClen := CountLengths(clen, absMax);
    forall k | 1 <= k <= absMax + 1 ensures Coded(clen, k) == nrClen[k] { CodedIsCount(clen, k); }
    var limit, base, tmpBase := FillLimits(clen, absMax, nrClen, minClen, maxClen);
    forall i | 0 <= i < |clen| && clen[i] > 0 ensures minClen <= clen[i] <= maxClen {
      LengthBetween(clen, absMax, i);
    }
    var inorder := FillInorder(clen, absMax, tmpBase, minClen, maxClen);
    t := Tables(limit, base, inorder, minClen, maxClen);
    assert t.limit == TablesOf(clen, absMax).limit;
    assert t.base == TablesOf(clen, absMax).base;
  }

  lemma LengthBetween(clen: seq<nat>, m: nat, i: nat)
    requires Bounded(clen, m) && i < |clen| && clen[i] > 0
    ensures MinLen(clen, m, 1) <= clen[i] <= MaxLen(clen, m)
  {
    LengthCounted(clen, i);
  }

  /** The last loop of djw_build_decoder: each symbol goes to the next free place of its length. */
  method FillInorder(clen: seq<nat>, absMax: nat, tmpBase: seq<nat>, minClen: nat, maxClen: nat)
    returns (inorder: seq<nat>)
    requires Bounded(clen, absMax) && |tmpBase| == absMax + 2 && 1 <= minClen && maxClen <= absMax
    requires forall l :: minClen <= l <= maxClen ==> tmpBase[l] == Below(clen, l)
    requires forall i :: 0 <= i < |clen| && clen[i] > 0 ==> minClen <= clen[i] <= maxClen
    ensures inorder == Inorder(clen, absMax, |clen|)
  {
    hide Count, Below, Slot;
    var order := new nat[|clen|](_ => 0);
    forall l | minClen <= l <= maxClen ensures Count(clen[..0], l) == 0 { CountNone(clen[..0], l); }
    var next := new nat[absMax + 2](k requires 0 <= k < absMax + 2 => tmpBase[k]);
    for i := 0 to |clen|
      invariant forall l :: minClen <= l <= maxClen ==> next[l] == Below(clen, l) + Count(clen[..i], l)
      invariant order[..] == Inorder(clen, absMax, i)
    {
      forall l | minClen <= l <= maxClen
        ensures Count(clen[..i + 1], l) == Count(clen[..i], l) + (if clen[i] == l then 1 else 0)
      {
        CountTake(clen, i, l);
      }
      var len := clen[i];
      if len != 0 {
        SlotBound(clen, absMax, i);
        SlotIs(clen, i);
        order[next[len]] := i;
        next[len] := next[len] + 1;
      }
    }
    inorder := order[..];
  }

  lemma SlotIs(clen: seq<nat>, i: nat)
    requires i < |clen|
    ensures Slot(clen, i) == Below(clen, clen[i]) + Count(clen[..i], clen[i])
  {
  }

  lemma SlotsDiffer(clen: seq<nat>, i: nat, j: nat)
    requires i < |clen| && j < |clen| && i < j && clen[i] > 0 && clen[j] > 0
    ensures Slot(clen, i) != Slot(clen, j)
  {
    CountPrefix(clen, i, clen[i]);
    CountPrefix(clen, j, clen[j]);
    if clen[i] == clen[j] {
      RankIncreases(clen, i, j);
    } else if clen[i] < clen[j] {
      BelowMono(clen, clen[i], clen[j]);
    } else {
      BelowMono(clen, clen[j], clen[i]);
    }
  }

  lemma {:induction false} BelowMono(clen: seq<nat>, a: nat, b: nat)
    requires 0 < a < b
    ensures Below(clen, a) + Coded(clen, a) <= Below(clen, b)
    decreases b
  {
    if a + 1 < b {
      BelowMono(clen, a, b - 1);
    }
  }

  lemma FindCodeStep(t: Tables, bits: seq<bool>, code: nat, n: nat)
    requires t.maxLen < |t.limit|
    ensures n >= t.maxLen || bits == [] ==> FindCode(t, bits, code, n) == None
    ensures n < t.maxLen && bits != [] ==>
            var code' := 2 * code + Bit(bits[0]);
            FindCode(t, bits, code, n) ==
            if n + 1 >= t.minLen && code' <= t.limit[n + 1] then Some((n + 1, code'))
            else FindCode(t, bits[1..], code', n + 1)
  {
  }

  /** The loop over the bits of a code. */
  method ReadCode(reader: Reader, t: Tables) returns (found: Option<(nat, nat)>)
    requires reader.Valid() && t.maxLen < |t.limit|
    modifies reader
    ensures reader.Valid()
    ensures found == FindCode(t, old(reader.Rest()), 0, 0)
    ensures found.Some? ==> found.value.0 <= |old(reader.Rest())| && found.value.0 <= t.maxLen
    ensures found.Some? ==> reader.Rest() == old(reader.Rest())[found.value.0..]
  {
    hide FindCode, RestOf, Pow2;
    var code: nat, bits: nat := 0, 0;
    ghost var all := reader.Rest();
    assert all[0..] == all;
    while true
      invariant reader.Valid() && bits <= |all| && reader.Rest() == all[bits..]
      invariant FindCode(t, all[bits..], code, bits) == FindCode(t, all, 0, 0)
      decreases |all| - bits
    {
      FindCodeStep(t, all[bits..], code, bits);
      if bits >= t.maxLen {
        return None;
      }
      var b := reader.ReadBit();
      if b.None? {
        return None;
      }
      assert all[bits..][1..] == all[bits + 1..];
      bits := bits + 1;
      code := 2 * code + Bit(b.value);
      if bits >= t.minLen && code <= t.limit[bits] {
        return Some((bits, code));
      }
    }
  }

  /** djw_decode_symbol on a bit reader. */
  method ReadSymbol(reader: Reader, t: Tables, maxSym: nat) returns (sym: Option<nat>)
    requires reader.Valid() && t.maxLen < |t.limit| && t.maxLen < |t.base|
    modifies reader
    ensures reader.Valid()
    ensures match DecodeSymbol(t, old(reader.Rest()), maxSym)
            case Some((s, rest)) => sym == Some(s) && reader.Rest() == rest
            case None => sym == None
  {
    hide FindCode, RestOf;
    var found := ReadCode(reader, t);
    if found.None? {
      return None;
    }
    var (bits, code) := found.value;
    var offset := code - t.base[bits];
    if 0 <= offset <= maxSym && offset < |t.inorder| {
      return Some(t.inorder[offset]);
    }
    return None;
  }
}
