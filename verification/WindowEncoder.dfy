/** The encoder's back end: the compacted queue becomes instructions, gaps become ADDs, and the
    instructions become the three sections of a window. */
module WindowEncoder {
  import opened Common
  import opened Delta
  import opened CodeTable
  import opened WindowCodec
  import AddressCache
  import Integers
  import Q = Queue

  /** The source window chosen for the target window: its offset and its bytes. */
  datatype Source = Source(base: nat, bytes: seq<byte>)

  /** Addresses are in range: source copies lie in the source window, target copies start
      before their own position. */
  predicate Addressable(m: Q.Match, base: nat, srclen: nat) {
    m.CopyMatch? ==>
      if m.fromSource then base <= m.addr && m.addr + m.size <= base + srclen else m.addr < m.pos
  }

  /** The byte that the match claims for position p of the input. */
  function Claimed(m: Q.Match, s: Source, input: seq<byte>, p: nat): byte
    requires m.pos <= p < m.End() <= |input| && Addressable(m, s.base, |s.bytes|)
  {
    match m
    case RunMatch(_, _, value) => value
    case CopyMatch(pos, _, addr, fromSource) =>
      if fromSource then s.bytes[addr - s.base + (p - pos)] else input[addr + (p - pos)]
  }

  /** A true run, or a true equality of the input with source bytes or with earlier input. */
  ghost predicate Genuine(m: Q.Match, s: Source, input: seq<byte>) {
    && m.End() <= |input|
    && Addressable(m, s.base, |s.bytes|)
    && forall p :: m.pos <= p < m.End() ==> input[p] == Claimed(m, s, input, p)
  }

  ghost predicate AllGenuine(q: seq<Q.Match>, s: Source, input: seq<byte>) {
    forall i :: 0 <= i < |q| ==> Genuine(q[i], s, input)
  }

  /** The instruction for a match, with its address in the combined address space. */
  function ToInst(m: Q.Match, base: nat, srclen: nat): Inst
    requires Addressable(m, base, srclen)
  {
    match m
    case RunMatch(_, size, value) => Run(value, size)
    case CopyMatch(_, size, addr, fromSource) => Copy(if fromSource then addr - base else srclen + addr, size)
  }

  /** Matches in order without overlap, from off to at most n. */
  predicate InOrder(q: seq<Q.Match>, off: nat, n: nat, base: nat, srclen: nat)
    decreases |q|
  {
    if q == [] then off <= n
    else
      && off <= q[0].pos && q[0].size > 0 && Addressable(q[0], base, srclen)
      && InOrder(q[1..], q[0].End(), n, base, srclen)
  }

  /** The ADD that xd3_iopt_add synthesises for an unmatched stretch. */
  function Gap(input: seq<byte>, off: nat, pos: nat): seq<Inst>
    requires off <= pos <= |input|
  {
    if pos > off then [Add(input[off..pos])] else []
  }

  /** Where the encoding stands after a prefix of the queue. */
  function EndOf(q: seq<Q.Match>, off: nat): nat {
    if q == [] then off else q[|q| - 1].End()
  }

  /** The instructions for a queue: each match after the ADD for the gap before it. */
  function CoverPart(q: seq<Q.Match>, input: seq<byte>, off: nat, base: nat, srclen: nat): seq<Inst>
    requires InOrder(q, off, |input|, base, srclen)
    decreases |q|
  {
    if q == [] then []
    else
      InOrderBound(q, off, |input|, base, srclen);
      Gap(input, off, q[0].pos) + [ToInst(q[0], base, srclen)] + CoverPart(q[1..], input, q[0].End(), base, srclen)
  }

  lemma {:induction false} InOrderSnoc(q: seq<Q.Match>, m: Q.Match, off: nat, n: nat, base: nat, srclen: nat)
    requires InOrder(q, off, n, base, srclen) && m.size > 0 && Addressable(m, base, srclen)
    requires EndOf(q, off) <= m.pos && m.End() <= n
    ensures InOrder(q + [m], off, n, base, srclen)
    decreases |q|
  {
    if q == [] {
      assert (q + [m])[0] == m && (q + [m])[1..] == [];
    } else {
      assert (q + [m])[0] == q[0] && (q + [m])[1..] == q[1..] + [m];
      InOrderSnoc(q[1..], m, q[0].End(), n, base, srclen);
    }
  }

  /** One more match appends its gap and itself. */
  lemma {:induction false} CoverSnoc(q: seq<Q.Match>, m: Q.Match, input: seq<byte>, off: nat, base: nat, srclen: nat)
    requires InOrder(q, off, |input|, base, srclen) && m.size > 0 && Addressable(m, base, srclen)
    requires EndOf(q, off) <= m.pos && m.End() <= |input|
    ensures InOrder(q + [m], off, |input|, base, srclen)
    ensures CoverPart(q + [m], input, off, base, srclen)
         == CoverPart(q, input, off, base, srclen) + Gap(input, EndOf(q, off), m.pos) + [ToInst(m, base, srclen)]
    decreases |q|
  {
    InOrderSnoc(q, m, off, |input|, base, srclen);
    var i := ToInst(m, base, srclen);
    if q == [] {
      assert (q + [m])[0] == m && (q + [m])[1..] == [];
      var g := Gap(input, off, m.pos);
      assert CoverPart(q + [m], input, off, base, srclen) == g + [i] + [];
      assert [] + g == g;
    } else {
      assert (q + [m])[0] == q[0] && (q + [m])[1..] == q[1..] + [m];
      InOrderBound(q, off, |input|, base, srclen);
      CoverSnoc(q[1..], m, input, q[0].End(), base, srclen);
      var head := Gap(input, off, q[0].pos) + [ToInst(q[0], base, srclen)];
      var rest := CoverPart(q[1..], input, q[0].End(), base, srclen);
      assert EndOf(q[1..], q[0].End()) == EndOf(q, off);
      var g := Gap(input, EndOf(q, off), m.pos);
      assert head + (rest + g + [i]) == (head + rest) + g + [i];
    }
  }

  /** The whole window: the matches with their gaps and a final ADD for what remains. */
  function Cover(q: seq<Q.Match>, input: seq<byte>, off: nat, base: nat, srclen: nat): seq<Inst>
    requires InOrder(q, off, |input|, base, srclen)
  {
    InOrderBound(q, off, |input|, base, srclen);
    CoverPart(q, input, off, base, srclen) + Gap(input, EndOf(q, off), |input|)
  }

  lemma {:induction false} InOrderBound(q: seq<Q.Match>, off: nat, n: nat, base: nat, srclen: nat)
    requires InOrder(q, off, n, base, srclen)
    ensures off <= EndOf(q, off) <= n && (q != [] ==> q[0].End() <= n)
    decreases |q|
  {
    if q != [] {
      InOrderBound(q[1..], q[0].End(), n, base, srclen);
      assert EndOf(q[1..], q[0].End()) == EndOf(q, off);
    }
  }

  lemma {:induction false} EncodableAppend(a: seq<Inst>, b: seq<Inst>, srclen: nat, here: nat)
    requires AllEncodable(a, srclen, here) && AllEncodable(b, srclen, here + TotalSize(a))
    ensures AllEncodable(a + b, srclen, here)
    ensures TotalSize(a + b) == TotalSize(a) + TotalSize(b)
    decreases |a|
  {
    if a == [] {
      assert a + b == b;
    } else {
      assert (a + b)[0] == a[0] && (a + b)[1..] == a[1..] + b;
      EncodableAppend(a[1..], b, srclen, here + a[0].Size());
    }
  }

  lemma {:induction false} DescribeAppend(a: seq<Inst>, b: seq<Inst>, src: seq<byte>, input: seq<byte>, pos: nat)
    requires AllDescribe(a, src, input, pos) && AllDescribe(b, src, input, pos + TotalSize(a))
    ensures AllDescribe(a + b, src, input, pos)
    decreases |a|
  {
    if a == [] {
      assert a + b == b;
    } else {
      assert (a + b)[0] == a[0] && (a + b)[1..] == a[1..] + b;
      DescribeAppend(a[1..], b, src, input, pos + a[0].Size());
    }
  }

  lemma GapSize(input: seq<byte>, off: nat, pos: nat, src: seq<byte>)
    requires off <= pos <= |input| && |src| + |input| <= USIZE_MAX
    ensures TotalSize(Gap(input, off, pos)) == pos - off
    ensures AllEncodable(Gap(input, off, pos), |src|, |src| + off)
    ensures AllDescribe(Gap(input, off, pos), src, input, off)
  {
    if pos > off {
      assert Gap(input, off, pos)[1..] == [];
    }
  }

  lemma One(i: Inst)
    ensures [i][1..] == [] && TotalSize([i]) == i.Size()
  {
  }

  lemma {:induction false} PartEncodable(q: seq<Q.Match>, input: seq<byte>, off: nat, base: nat, src: seq<byte>)
    requires InOrder(q, off, |input|, base, |src|) && |src| + |input| <= USIZE_MAX
    ensures var insts := CoverPart(q, input, off, base, |src|);
            AllEncodable(insts, |src|, |src| + off) && TotalSize(insts) == EndOf(q, off) - off
    decreases |q|
  {
    InOrderBound(q, off, |input|, base, |src|);
    if q != [] {
      var m := q[0];
      var gap, i := Gap(input, off, m.pos), ToInst(m, base, |src|);
      GapSize(input, off, m.pos, src);
      One(i);
      EncodableAppend(gap, [i], |src|, |src| + off);
      PartEncodable(q[1..], input, m.End(), base, src);
      assert EndOf(q[1..], m.End()) == EndOf(q, off);
      EncodableAppend(gap + [i], CoverPart(q[1..], input, m.End(), base, |src|), |src|, |src| + off);
    }
  }

  /** The instructions cover the input from off to its end and can all be encoded. */
  lemma CoverEncodable(q: seq<Q.Match>, input: seq<byte>, off: nat, base: nat, src: seq<byte>)
    requires InOrder(q, off, |input|, base, |src|) && |src| + |input| <= USIZE_MAX
    ensures var insts := Cover(q, input, off, base, |src|);
            off <= |input| && AllEncodable(insts, |src|, |src| + off) && TotalSize(insts) == |input| - off
  {
    hide CoverPart, AllEncodable, TotalSize, Gap;
    InOrderBound(q, off, |input|, base, |src|);
    PartEncodable(q, input, off, base, src);
    GapSize(input, EndOf(q, off), |input|, src);
    EncodableAppend(CoverPart(q, input, off, base, |src|), Gap(input, EndOf(q, off), |input|), |src|, |src| + off);
  }

  lemma GenuineDescribes(m: Q.Match, s: Source, input: seq<byte>)
    requires Genuine(m, s, input) && m.size > 0
    ensures Describes(ToInst(m, s.base, |s.bytes|), s.bytes, input, m.pos)
  {
    if m.CopyMatch? {
      var i := ToInst(m, s.base, |s.bytes|);
      forall p | m.pos <= p < m.End()
        ensures input[p] == At(s.bytes, input, i.addr + (p - m.pos))
      {
        assert input[p] == Claimed(m, s, input, p);
      }
    }
  }

  lemma {:induction false} PartDescribes(q: seq<Q.Match>, input: seq<byte>, off: nat, s: Source)
    requires InOrder(q, off, |input|, s.base, |s.bytes|) && |s.bytes| + |input| <= USIZE_MAX
    requires AllGenuine(q, s, input)
    ensures AllDescribe(CoverPart(q, input, off, s.base, |s.bytes|), s.bytes, input, off)
    decreases |q|
  {
    hide Genuine, Describes, Encodable, Addressable;
    InOrderBound(q, off, |input|, s.base, |s.bytes|);
    if q != [] {
      var m := q[0];
      var gap, i := Gap(input, off, m.pos), ToInst(m, s.base, |s.bytes|);
      GapSize(input, off, m.pos, s.bytes);
      One(i);
      assert Genuine(q[0], s, input);
      GenuineDescribes(m, s, input);
      DescribeAppend(gap, [i], s.bytes, input, off);
      PartDescribes(q[1..], input, m.End(), s);
      ApplicableAppend(gap, [i], 0, 0);
      DescribeAppend(gap + [i], CoverPart(q[1..], input, m.End(), s.base, |s.bytes|), s.bytes, input, off);
    }
  }

  /** Instructions made from genuine matches describe the input. */
  lemma CoverDescribes(q: seq<Q.Match>, input: seq<byte>, off: nat, s: Source)
    requires InOrder(q, off, |input|, s.base, |s.bytes|) && |s.bytes| + |input| <= USIZE_MAX
    requires AllGenuine(q, s, input)
    ensures AllDescribe(Cover(q, input, off, s.base, |s.bytes|), s.bytes, input, off)
  {
    hide CoverPart, Genuine, AllDescribe, Gap, AllEncodable, TotalSize;
    InOrderBound(q, off, |input|, s.base, |s.bytes|);
    PartEncodable(q, input, off, s.base, s.bytes);
    PartDescribes(q, input, off, s);
    GapSize(input, EndOf(q, off), |input|, s.bytes);
    DescribeAppend(CoverPart(q, input, off, s.base, |s.bytes|), Gap(input, EndOf(q, off), |input|), s.bytes, input,
                   off);
  }

  // ------------------------------------------------- from the raw queue to the decoded window

  /** A part of a genuine match is genuine. */
  lemma PartGenuine(m: Q.Match, whole: Q.Match, s: Source, input: seq<byte>)
    requires m.PartOf(whole) && Genuine(whole, s, input)
    ensures Genuine(m, s, input)
  {
    forall p | m.pos <= p < m.End() ensures input[p] == Claimed(m, s, input, p) {
      assert Claimed(m, s, input, p) == Claimed(whole, s, input, p);
    }
  }

  lemma CompactGenuine(q: seq<Q.Match>, force: bool, s: Source, input: seq<byte>)
    requires Q.Ordered(q) && AllGenuine(q, s, input)
    ensures AllGenuine(Q.Compact(q, force), s, input)
  {
    hide Q.Compact, Genuine;
    Q.CompactResult(q, force);
    var c := Q.Compact(q, force);
    forall i | 0 <= i < |c| ensures Genuine(c[i], s, input) {
      assert Q.From(c[i], q);
      var j :| 0 <= j < |q| && c[i].PartOf(q[j]) && (c[i].size == q[j].size || c[i].size >= Q.MIN_MATCH);
      PartGenuine(c[i], q[j], s, input);
    }
  }

  lemma {:induction false} DisjointInOrder(q: seq<Q.Match>, off: nat, s: Source, input: seq<byte>)
    requires Q.Ordered(q) && Q.Disjoint(q) && AllGenuine(q, s, input)
    requires off <= |input| && (q != [] ==> off <= q[0].pos)
    ensures InOrder(q, off, |input|, s.base, |s.bytes|)
    decreases |q|
  {
    if q != [] {
      assert Genuine(q[0], s, input);
      DisjointInOrder(q[1..], q[0].End(), s, input);
    }
  }

  /** The instructions a forced flush and xd3_iopt_add_finalize encode for a queue. */
  function WindowInsts(q: seq<Q.Match>, input: seq<byte>, base: nat, srclen: nat): seq<Inst>
    requires Q.Ordered(q) && InOrder(Q.Compact(q, true), 0, |input|, base, srclen)
  {
    Cover(Q.Compact(q, true), input, 0, base, srclen)
  }

  /** Window losslessness: for every input, source window and queue of genuine matches with
      increasing starts and ends, decoding the three sections written after a forced flush
      returns exactly the input and uses the sections up. */
  lemma Lossless(q: seq<Q.Match>, input: seq<byte>, s: Source)
    requires Q.Ordered(q) && AllGenuine(q, s, input) && |s.bytes| + |input| <= USIZE_MAX
    ensures InOrder(Q.Compact(q, true), 0, |input|, s.base, |s.bytes|)
    ensures var insts := WindowInsts(q, input, s.base, |s.bytes|);
            && AllEncodable(insts, |s.bytes|, |s.bytes|)
            && var (ops, addr, data) := EncodeInsts(insts, InitialCache(), |s.bytes|, |s.bytes|);
            DecodeWindow(EmitOps(None, ops), addr, data, s.bytes, |input|) == Ok(input)
  {
    hide Q.Compact, EncodeInsts, EmitOps, DecodeWindow, Genuine, AllEncodable, AllDescribe, Apply, Cover, TotalSize,
         InOrder;
    Q.CompactResult(q, true);
    CompactGenuine(q, true, s, input);
    var c := Q.Compact(q, true);
    DisjointInOrder(c, 0, s, input);
    var insts := Cover(c, input, 0, s.base, |s.bytes|);
    CoverEncodable(c, input, 0, s.base, s.bytes);
    CoverDescribes(c, input, 0, s);
    WindowRoundTrip(insts, s.bytes);
    ApplyReproduces(insts, s.bytes, input, 0);
    assert input[..0] == [] && input[..|input|] == input;
  }
}
