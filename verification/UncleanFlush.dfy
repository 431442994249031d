/** What becomes of a window when an unforced flush gets stuck at two overlapping matches: the
    first is encoded whole, the second later without a gap, and the window is too long. */
module UncleanFlush {
  import opened Common
  import opened Delta
  import opened CodeTable
  import opened WindowCodec
  import opened WindowEncoder
  import AddressCache
  import Q = Queue
  import V = WindowParse

  // ---------------------------------------------------------------- sizes decide

  function OpsSize(ops: seq<Op>): nat {
    if ops == [] then 0 else ops[0].size + OpsSize(ops[1..])
  }

  lemma OpsSizeMore(a: Op, ops: seq<Op>)
    ensures OpsSize([a] + ops) == a.size + OpsSize(ops)
  {
    assert ([a] + ops)[1..] == ops;
  }

  lemma ParsedSize(kind: nat, size: nat, cpylen: nat, maxpos: nat, d: Dec)
    requires d.Valid() && ADD <= kind < CPY + MODES && maxpos <= USIZE_MAX
    requires ParseHalf(kind, size, cpylen, maxpos, d).Ok?
    ensures var (h, d') := ParseHalf(kind, size, cpylen, maxpos, d).value;
            HalfSize(size, d.inst) == Ok((h.size, d'.inst))
  {
    hide AddressCache.Cache.Decode, HalfSize;
  }

  /** Output grows by exactly the sizes that the instruction section spells out. */
  lemma {:induction false} EmittedSize(src: seq<byte>, maxpos: nat, d: Dec)
    requires d.Valid() && maxpos <= USIZE_MAX && d.position == |src| + |d.out| && Emit(src, maxpos, d).Ok?
    ensures ParseOps(d.inst).Ok?
    ensures |Emit(src, maxpos, d).value.out| == |d.out| + OpsSize(ParseOps(d.inst).value)
    decreases |d.inst|
  {
    hide ParseHalf, OutputHalf, HalfSize, Entry, DefaultCache;
    if d.inst != [] {
      var e := Entry(d.inst[0]);
      var d0 := d.(inst := d.inst[1..]);
      V.EntryKinds(d.inst[0]);
      ParsedSize(e.type1, e.size1, |src|, maxpos, d0);
      var (h1, h2, d1) := DecodeInstruction(|src|, maxpos, d).value;
      var d2 := OutputHalf(h1, src, d1).value;
      if e.type2 == NOOP {
        EmittedSize(src, maxpos, d2);
        OpsSizeMore(Op(e.type1, h1.size), ParseOps(d1.inst).value);
      } else {
        var p1 := ParseHalf(e.type1, e.size1, |src|, maxpos, d0).value.1;
        ParsedSize(e.type2, e.size2, |src|, maxpos, p1);
        var d3 := OutputHalf(h2.value, src, d2).value;
        EmittedSize(src, maxpos, d3);
        var a, b, rest := Op(e.type1, h1.size), Op(e.type2, h2.value.size), ParseOps(d1.inst).value;
        OpsSizeMore(b, rest);
        OpsSizeMore(a, [b] + rest);
        assert [a, b] + rest == [a] + ([b] + rest);
      }
    }
  }

  /** Instructions that do not add up to the window are refused, whatever the other sections hold. */
  lemma WrongSizeRefused(ops: seq<Op>, addr: seq<byte>, data: seq<byte>, src: seq<byte>, tgtlen: nat)
    requires AllValid(ops) && |src| + tgtlen <= USIZE_MAX && OpsSize(ops) != tgtlen
    ensures DecodeWindow(EmitOps(None, ops), addr, data, src, tgtlen).Err?
  {
    hide Emit, EmitOps, ParseOps, AddressCache.Init, Op.Valid;
    var d := Dec(EmitOps(None, ops), addr, data, InitialCache(), |src|, []);
    ParseEmit(None, ops);
    assert AsSeq(None) + ops == ops;
    if Emit(src, |src| + tgtlen, d).Ok? {
      EmittedSize(src, |src| + tgtlen, d);
    }
  }

  // ---------------------------------------------------------------- a stuck queue

  /** The half instructions of a window of n bytes in which the queue got stuck at r1 and r2:
      xd3_iopt_add makes no gap before r2, which starts before the end of r1. */
  function StuckOps(r1: Q.Match, r2: Q.Match, kind1: nat, kind2: nat, n: nat): seq<Op> {
    var end := r1.End() + r2.size;
    (if r1.pos > 0 then [Op(ADD, r1.pos)] else [])
    + [Op(kind1, r1.size), Op(kind2, r2.size)]
    + (if end < n then [Op(ADD, n - end)] else [])
  }

  lemma StuckSize(r1: Q.Match, r2: Q.Match, kind1: nat, kind2: nat, n: nat)
    ensures OpsSize(StuckOps(r1, r2, kind1, kind2, n)) == Max(n, r1.End() + r2.size)
  {
    var end := r1.End() + r2.size;
    var last := if end < n then [Op(ADD, n - end)] else [];
    var a, b := Op(kind1, r1.size), Op(kind2, r2.size);
    OpsSizeMore(Op(ADD, n - Min(n, end)), []);
    assert [Op(ADD, n - Min(n, end))] + [] == [Op(ADD, n - Min(n, end))];
    OpsSizeMore(b, last);
    OpsSizeMore(a, [b] + last);
    OpsSizeMore(Op(ADD, r1.pos), [a] + ([b] + last));
    assert StuckOps(r1, r2, kind1, kind2, n)
        == (if r1.pos > 0 then [Op(ADD, r1.pos)] else []) + ([a] + ([b] + last));
  }

  /** A window that ends before both could fit one after the other no longer decodes. */
  lemma StuckRefused(r1: Q.Match, r2: Q.Match, kind1: nat, kind2: nat, n: nat,
                     addr: seq<byte>, data: seq<byte>, src: seq<byte>)
    requires r2.pos < r1.End() && r2.End() <= n < r1.End() + r2.size && |src| + n <= USIZE_MAX
    requires AllValid(StuckOps(r1, r2, kind1, kind2, n))
    ensures DecodeWindow(EmitOps(None, StuckOps(r1, r2, kind1, kind2, n)), addr, data, src, n).Err?
  {
    hide DecodeWindow, EmitOps, StuckOps, OpsSize;
    StuckSize(r1, r2, kind1, kind2, n);
    WrongSizeRefused(StuckOps(r1, r2, kind1, kind2, n), addr, data, src, n);
  }

  // ---------------------------------------------------------------- a true queue of this kind

  const INPUT: seq<byte> := [0, 1, 2, 3, 4, 5, 6, 7, 8, 9, 10, 11, 12, 13, 14]
  const FILE: seq<byte> := INPUT[..10] + [99] + INPUT[5..]
  const FIRST: Q.Match := Q.CopyMatch(0, 10, 0, true)
  const SECOND: Q.Match := Q.CopyMatch(5, 10, 11, true)

  /** Two overlapping true copies from the source get stuck, and the window for their fifteen
      bytes is refused, whatever modes and addresses are written. */
  lemma StuckCopies(mode1: nat, mode2: nat, addr: seq<byte>, data: seq<byte>)
    requires mode1 < MODES && mode2 < MODES
    ensures var q := [FIRST, SECOND];
            && Q.Ordered(q) && AllGenuine(q, Source(0, FILE), INPUT) && Q.Stuck(q)
            && Q.Compact(q, false) == q && !Q.CleanCut(q, Q.FlushCount(2, false, 2))
    ensures DecodeWindow(EmitOps(None, StuckOps(FIRST, SECOND, CPY + mode1, CPY + mode2, |INPUT|)),
                         addr, data, FILE, |INPUT|).Err?
  {
    hide DecodeWindow, EmitOps;
    GenuineCopy(FIRST);
    GenuineCopy(SECOND);
    StuckRefused(FIRST, SECOND, CPY + mode1, CPY + mode2, |INPUT|, addr, data, FILE);
  }

  lemma GenuineCopy(m: Q.Match)
    requires m == FIRST || m == SECOND
    ensures Genuine(m, Source(0, FILE), INPUT)
  {
    forall p | m.pos <= p < m.End() ensures INPUT[p] == Claimed(m, Source(0, FILE), INPUT, p) {
      if m == SECOND {
        assert FILE[11 + (p - 5)] == INPUT[5..][p - 5];
      } else {
        assert FILE[p] == INPUT[..10][p];
      }
    }
  }
}
