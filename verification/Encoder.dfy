/** The encoder's mutable state: the instruction buffer with its free slots, the pending
    instruction, the address cache and the growing sections. */
module Encoder {
  import opened Common
  import opened Delta
  import opened CodeTable
  import opened WindowCodec
  import opened WindowEncoder
  import AddressCache
  import Integers
  import Q = Queue
  import S = SectionSizes

  /** An instruction on its way into the sections: an ADD made up for a gap, or a queued match. */
  datatype RInst = Unmatched(pos: nat, size: nat) | Matched(m: Q.Match) {
    function Pos(): nat {
      if Unmatched? then pos else m.pos
    }

    function Size(): nat {
      if Unmatched? then size else m.size
    }
  }

  /** What the sections, the pending instruction and the cache hold once `insts` are encoded. */
  ghost predicate Written(insts: seq<Inst>, srclen: nat, inst: seq<byte>, addr: seq<byte>, data: seq<byte>,
                          pending: Option<Op>, cache: AddressCache.Cache)
  {
    && AllEncodable(insts, srclen, srclen)
    && var (ops, a, d) := EncodeInsts(insts, InitialCache(), srclen, srclen);
    && (inst, pending) == EmitFold(ops) && addr == a && data == d
    && cache == CacheAfter(insts, InitialCache(), srclen, srclen)
  }

  lemma WrittenValid(insts: seq<Inst>, srclen: nat, inst: seq<byte>, addr: seq<byte>, data: seq<byte>,
                     pending: Option<Op>, cache: AddressCache.Cache)
    requires Written(insts, srclen, inst, addr, data, pending, cache)
    ensures DefaultCache(cache) && (pending.Some? ==> pending.value.Valid())
  {
    hide EncodeInsts, EmitFold, CacheAfter, DefaultCache;
    var (ops, a, d) := EncodeInsts(insts, InitialCache(), srclen, srclen);
    assert pending.Some? ==> AsSeq(pending)[0].Valid() by { hide Op.Valid; }
  }

  lemma WrittenSnoc(insts: seq<Inst>, srclen: nat, inst: seq<byte>, addr: seq<byte>, data: seq<byte>,
                    pending: Option<Op>, cache: AddressCache.Cache, i: Inst)
    requires Written(insts, srclen, inst, addr, data, pending, cache)
    requires Encodable(i, srclen, srclen + TotalSize(insts))
    requires DefaultCache(cache) && (pending.Some? ==> pending.value.Valid())
    ensures TotalSize(insts + [i]) == TotalSize(insts) + i.Size()
    ensures var p := EncodeInst(i, cache, srclen, srclen + TotalSize(insts));
            var (inst', pending') := EmitStep(inst, pending, p.op);
            Written(insts + [i], srclen, inst', addr + p.addr, data + p.data, pending', p.cache)
  {
    hide EncodeInst, EncodeInsts, CacheAfter, Encodable, DefaultCache, EmitStep, EmitFold, AllEncodable, TotalSize,
         Op.Valid;
    EncodeSnoc(insts, i, InitialCache(), srclen, srclen);
    var (ops, a, d) := EncodeInsts(insts, InitialCache(), srclen, srclen);
    var p := EncodeInst(i, cache, srclen, srclen + TotalSize(insts));
    EmitFoldSnoc(ops, p.op);
  }

  /** Once the pending instruction has its own code the sections decode to what the
      instructions mean. */
  lemma WrittenDecodes(insts: seq<Inst>, src: seq<byte>, inst: seq<byte>, addr: seq<byte>, data: seq<byte>,
                       pending: Option<Op>, cache: AddressCache.Cache)
    requires Written(insts, |src|, inst, addr, data, pending, cache)
    requires pending.Some? ==> pending.value.Valid()
    requires |src| + TotalSize(insts) <= USIZE_MAX
    ensures AllApplicable(insts, |src|, 0)
    ensures var last := if pending.Some? then EmitSingle(pending.value) else [];
            DecodeWindow(inst + last, addr, data, src, TotalSize(insts)) == Ok(Apply(insts, src, []))
  {
    hide EncodeInsts, CacheAfter, DecodeWindow, Apply, AllEncodable, TotalSize, EmitFold, EmitSingle;
    var (ops, a, d) := EncodeInsts(insts, InitialCache(), |src|, |src|);
    EmitFoldOps(ops, []);
    assert ops + [] == ops;
    WindowRoundTrip(insts, src);
  }

  /** They also stay short: twelve bytes for a byte of input at most. */
  lemma WrittenSize(insts: seq<Inst>, srclen: nat, inst: seq<byte>, addr: seq<byte>, data: seq<byte>,
                    pending: Option<Op>, cache: AddressCache.Cache)
    requires Written(insts, srclen, inst, addr, data, pending, cache)
    requires pending.Some? ==> pending.value.Valid()
    ensures var last := if pending.Some? then EmitSingle(pending.value) else [];
            |inst + last| + |addr| + |data| <= 12 * TotalSize(insts)
  {
    hide EncodeInsts, CacheAfter, AllEncodable, TotalSize, EmitFold, EmitSingle;
    var (ops, a, d) := EncodeInsts(insts, InitialCache(), srclen, srclen);
    EmitFoldOps(ops, []);
    assert ops + [] == ops;
    S.WindowSize(insts, srclen);
  }

  /** Parts of addressable matches are addressable. */
  lemma PartAddressable(m: Q.Match, whole: Q.Match, base: nat, srclen: nat)
    requires m.PartOf(whole) && Addressable(whole, base, srclen)
    ensures Addressable(m, base, srclen)
  {
  }

  lemma DropOrdered(q: seq<Q.Match>, k: nat)
    requires Q.Ordered(q) && k <= |q|
    ensures Q.Ordered(q[k..])
  {
  }

  class Encoder {
    const input: seq<byte>   // next_in, avail_in
    const base: nat          // src->srcbase
    const srclen: nat        // src->srclen, also taroff; zero without a source

    var ioptSize: nat
    var used: seq<Q.Match>   // iopt_used
    var free: nat            // length of iopt_free
    var iout: Option<Op>
    var unencoded: nat       // unencoded_offset
    var cache: AddressCache.Cache
    var instSect: seq<byte>
    var addrSect: seq<byte>
    var dataSect: seq<byte>
    ghost var insts: seq<Inst>  // what has been encoded

    ghost predicate Valid()
      reads this
    {
      && srclen + |input| <= USIZE_MAX
      && Written(insts, srclen, instSect, addrSect, dataSect, iout, cache)
      && unencoded == TotalSize(insts) <= |input|
    }

    /** The slots of xd3_iopt_check; an ADD on the stack is no slot. */
    function Slots(): nat
      reads this
    {
      |used| + free + (if Occupied() then 1 else 0)
    }

    /** The pending instruction takes up a slot. */
    predicate Occupied()
      reads this
    {
      iout.Some? && iout.value.kind != ADD
    }

    /** The queue can be encoded after what is already encoded. */
    ghost predicate Ready(q: seq<Q.Match>)
      reads this
    {
      && Q.Ordered(q)
      && (q != [] ==> unencoded <= q[0].pos)
      && forall i :: 0 <= i < |q| ==> q[i].End() <= |input| && Addressable(q[i], base, srclen)
    }

    /** The start of a window's encoding, with the queue that the matcher has left. */
    constructor (input: seq<byte>, base: nat, srclen: nat, queue: seq<Q.Match>, free: nat)
      requires srclen + |input| <= USIZE_MAX
      ensures Valid() && used == queue && insts == [] && unencoded == 0
      ensures this.input == input && this.base == base && this.srclen == srclen
      ensures ioptSize == |queue| + free && Slots() == ioptSize && iout == None
    {
      this.input, this.base, this.srclen := input, base, srclen;
      ioptSize, used, this.free := |queue| + free, queue, free;
      iout, unencoded, cache := None, 0, InitialCache();
      instSect, addrSect, dataSect, insts := [], [], [], [];
    }

    /** xd3_encode_address: search the near slots, then the same slot, then emit. */
    method EncodeAddress(addr: nat, here: nat) returns (mode: nat)
      requires addr < here <= USIZE_MAX && DefaultCache(cache)
      modifies this`addrSect, this`cache
      ensures mode == old(cache).Encode(addr, here).0
      ensures addrSect == old(addrSect) + old(cache).Encode(addr, here).1
      ensures cache == old(cache).Update(addr)
    {
      var bestd: nat, bestm: nat := addr, AddressCache.VCD_SELF;
      if bestd >= 128 && here - addr < bestd {
        bestd, bestm := here - addr, AddressCache.VCD_HERE;
      }
      var i := 0;
      while i < |cache.near| && bestd >= 128
        invariant 0 <= i <= |cache.near| && bestd <= addr
        invariant cache.SearchNear(addr, i, (bestd, bestm)) == cache.Nearest(addr, here)
      {
        if addr >= cache.near[i] && addr - cache.near[i] < bestd {
          bestd, bestm := addr - cache.near[i], i + 2;
        }
        i := i + 1;
      }
      if bestd >= 128 && cache.same != [] && cache.same[addr % |cache.same|] == addr {
        var d := addr % |cache.same|;
        addrSect := addrSect + [d % 256];
        mode := 2 + |cache.near| + d / 256;
      } else {
        var bytes := Integers.Emit(bestd);
        addrSect := addrSect + bytes;
        mode := bestm;
      }
      cache := cache.Update(addr);
    }

    /** xd3_emit_single */
    method EmitSingleCode(op: Op)
      requires op.Valid()
      modifies this`instSect
      ensures instSect == old(instSect) + EmitSingle(op)
    {
      instSect := instSect + [Code1(op)];
      if Entry(Code1(op)).size1 == 0 {
        var bytes := Integers.Emit(op.size);
        instSect := instSect + bytes;
      }
      assert instSect == old(instSect) + EmitSingle(op);
    }

    /** xd3_iopt_free_nonadd */
    method FreeNonAdd(op: Op)
      modifies this`free
      ensures free == old(free) + (if op.kind != ADD then 1 else 0)
    {
      if op.kind != ADD {
        free := free + 1;
      }
    }

    /** The instruction that an RInst stands for. */
    function InstOf(r: RInst): Inst
      requires r.Pos() + r.Size() <= |input|
      requires r.Matched? ==> Addressable(r.m, base, srclen)
    {
      match r
      case Unmatched(pos, size) => Add(input[pos..pos + size])
      case Matched(m) => ToInst(m, base, srclen)
    }

    /** The part of xd3_iopt_finish_encoding that fills the address and data sections. */
    method FillSections(r: RInst) returns (op: Op)
      requires Valid() && r.Pos() == unencoded && r.Size() > 0 && r.Pos() + r.Size() <= |input|
      requires r.Matched? ==> Addressable(r.m, base, srclen)
      requires DefaultCache(cache) && Encodable(InstOf(r), srclen, srclen + unencoded)
      modifies this`addrSect, this`dataSect, this`cache
      ensures var p := EncodeInst(InstOf(r), old(cache), srclen, srclen + unencoded);
              && op == p.op && addrSect == old(addrSect) + p.addr && dataSect == old(dataSect) + p.data
              && cache == p.cache
    {
      hide AddressCache.Cache.Encode, AddressCache.Cache.Update, Written, DefaultCache;
      match r {
        case Unmatched(pos, size) =>
          dataSect := dataSect + input[pos..pos + size];
          op := Op(ADD, size);
        case Matched(RunMatch(_, size, value)) =>
          dataSect := dataSect + [value];
          op := Op(RUN, size);
        case Matched(CopyMatch(pos, size, addr, fromSource)) =>
          var mode := EncodeAddress(if fromSource then addr - base else srclen + addr, pos + srclen);
          op := Op(CPY + mode, size);
      }
      assert old(addrSect) + [] == old(addrSect) && old(dataSect) + [] == old(dataSect);
    }

    /** The rest of it: emit the pending instruction alone or fused with this one. */
    method EmitPending(op: Op)
      requires op.Valid() && (iout.Some? ==> iout.value.Valid())
      modifies this`instSect, this`iout, this`free
      ensures (instSect, iout) == EmitStep(old(instSect), old(iout), op)
      ensures Slots() == old(Slots()) + (if op.kind != ADD then 1 else 0)
      ensures iout.Some? ==> iout.value == op
      ensures old(iout).Some? && old(iout).value.kind == ADD && iout.Some? ==> free == old(free)
      ensures old(iout).Some? && old(iout).value.kind != ADD ==> free > old(free)
    {
      if iout.Some? {
        var code2 := Code2(iout.value, op);
        if code2 != 0 {
          instSect := instSect + [code2];
          FreeNonAdd(iout.value);
          FreeNonAdd(op);
          iout := None;
          return;
        }
        EmitSingleCode(iout.value);
        FreeNonAdd(iout.value);
      }
      iout := Some(op);
    }

    /** xd3_iopt_finish_encoding */
    method FinishEncoding(r: RInst)
      requires Valid() && r.Pos() == unencoded && r.Size() > 0 && r.Pos() + r.Size() <= |input|
      requires r.Matched? ==> Addressable(r.m, base, srclen)
      modifies this
      ensures Valid() && used == old(used) && ioptSize == old(ioptSize)
      ensures insts == old(insts) + [InstOf(r)] && unencoded == r.Pos() + r.Size()
      ensures Slots() == old(Slots()) + (if r.Matched? then 1 else 0)
      ensures iout.Some? ==> (iout.value.kind == ADD <==> r.Unmatched?)
      ensures free >= old(free)
    {
      hide EncodeInst, Written, EmitStep, DefaultCache, TotalSize;
      WrittenValid(insts, srclen, instSect, addrSect, dataSect, iout, cache);
      var i := InstOf(r);
      assert Encodable(i, srclen, srclen + unencoded) by { RInstEncodable(r); }
      WrittenSnoc(insts, srclen, instSect, addrSect, dataSect, iout, cache, i);
      var op := FillSections(r);
      unencoded := unencoded + r.Size();
      EmitPending(op);
      insts := insts + [i];
    }

    lemma RInstEncodable(r: RInst)
      requires srclen + |input| <= USIZE_MAX && r.Size() > 0 && r.Pos() + r.Size() <= |input|
      requires r.Matched? ==> Addressable(r.m, base, srclen)
      ensures Encodable(InstOf(r), srclen, srclen + r.Pos()) && InstOf(r).Size() == r.Size()
    {
    }

    /** xd3_iopt_add: an ADD for the bytes before pos that no match covers. */
    method AddUnmatched(pos: nat)
      requires Valid() && unencoded <= pos <= |input|
      modifies this
      ensures Valid() && used == old(used) && unencoded == pos && ioptSize == old(ioptSize)
      ensures insts == old(insts) + Gap(input, old(unencoded), pos)
      ensures Slots() == old(Slots()) && free >= old(free)
      ensures pos == old(unencoded) ==> iout == old(iout)
    {
      if pos > unencoded {
        FinishEncoding(Unmatched(unencoded, pos - unencoded));
      } else {
        assert insts == insts + Gap(input, unencoded, pos);
      }
    }

    /** xd3_iopt_add_encoding: the gap, then the match.  No ADD is pending afterwards. */
    method AddEncoding(m: Q.Match)
      requires Valid() && unencoded <= m.pos && m.size > 0 && m.End() <= |input|
      requires Addressable(m, base, srclen)
      modifies this
      ensures Valid() && used == old(used) && unencoded == m.End() && ioptSize == old(ioptSize)
      ensures insts == old(insts) + Gap(input, old(unencoded), m.pos) + [ToInst(m, base, srclen)]
      ensures Slots() == old(Slots()) + 1 && free >= old(free)
      ensures iout.Some? ==> iout.value.kind != ADD
    {
      hide Written;
      AddUnmatched(m.pos);
      FinishEncoding(Matched(m));
    }

    /** xd3_iopt_add_finalize: the last ADD and the last pending code. */
    method AddFinalize()
      requires Valid()
      modifies this
      ensures insts == old(insts) + Gap(input, old(unencoded), |input|)
      ensures iout == None && used == old(used) && unencoded == |input| && ioptSize == old(ioptSize)
      ensures Slots() == old(Slots())
      ensures forall src: seq<byte> :: |src| == srclen ==>
                AllApplicable(insts, srclen, 0)
                && DecodeWindow(instSect, addrSect, dataSect, src, |input|) == Ok(Apply(insts, src, []))
      ensures |instSect| + |addrSect| + |dataSect| <= 12 * |input|
    {
      hide Written, DecodeWindow, Apply, EmitSingle, TotalSize;
      AddUnmatched(|input|);
      WrittenValid(insts, srclen, instSect, addrSect, dataSect, iout, cache);
      var last := if iout.Some? then EmitSingle(iout.value) else [];
      WrittenSize(insts, srclen, instSect, addrSect, dataSect, iout, cache);
      forall src: seq<byte> | |src| == srclen
        ensures AllApplicable(insts, srclen, 0)
        ensures DecodeWindow(instSect + last, addrSect, dataSect, src, |input|) == Ok(Apply(insts, src, []))
      {
        WrittenDecodes(insts, src, instSect, addrSect, dataSect, iout, cache);
      }
      if iout.Some? {
        EmitSingleCode(iout.value);
        FreeNonAdd(iout.value);
        iout := None;
      } else {
        assert instSect + last == instSect;
      }
    }

    /** The first loop of xd3_iopt_flush_instructions: r1 is the match at index i. */
    method Compaction(force: bool)
      requires Q.Ordered(used)
      modifies this`used, this`free
      ensures used == Q.Compact(old(used), force)
      ensures Slots() == old(Slots()) && free >= old(free)
    {
      hide Q.Compact, Q.Split, Q.Ordered;
      var i := 0;
      assert used[0..] == used && [] + Q.Compact(used, force) == Q.Compact(used, force);
      while i + 1 < |used|
        invariant i <= |used| && Q.Ordered(used[i..])
        invariant used[..i] + Q.Compact(used[i..], force) == Q.Compact(old(used), force)
        invariant Slots() == old(Slots()) && free >= old(free)
        decreases |used| - i
      {
        var r1, r2 := used[i], used[i + 1];
        if r1.End() <= r2.pos {
          KeepHead(used, i, force);
          i := i + 1;
        } else if i + 2 < |used| && used[i + 2].pos <= r1.End() + 1 {
          DropSecond(used, i, force);
          used, free := used[..i + 1] + used[i + 2..], free + 1;
        } else if i + 2 == |used| && !force {
          break;
        } else if Q.Discard(r1, r2) {
          DropShorter(used, i, force);
          if r1.size < r2.size {
            used, free := used[..i] + used[i + 1..], free + 1;
          } else {
            used, free := used[..i + 1] + used[i + 2..], free + 1;
            i := i + 1;
          }
        } else {
          SplitHeads(used, i, force);
          var (s1, s2) := Q.Split(r1, r2);
          used := used[i := s1][i + 1 := s2];
          i := i + 1;
        }
      }
      Settled(used, i, force);
    }

    /** The second loop of xd3_iopt_flush_instructions, after compaction. */
    method Drain(force: bool)
      requires Valid() && Ready(used)
      requires if force then Q.Disjoint(used) else Q.DisjointButLast(used)
      modifies this
      ensures Valid() && ioptSize == old(ioptSize)
      ensures var k := Q.FlushCount(|old(used)|, force, ioptSize);
              && used == old(used)[k..]
              && InOrder(old(used)[..k], old(unencoded), |input|, base, srclen)
              && unencoded == EndOf(old(used)[..k], old(unencoded))
              && insts == old(insts) + CoverPart(old(used)[..k], input, old(unencoded), base, srclen)
      ensures Slots() == old(Slots()) && free >= old(free)
      ensures iout.Some? && old(used) != [] ==> iout.value.kind != ADD
    {
      hide Written, CoverPart, InOrder, ToInst, Addressable, Gap, TotalSize, Q.Disjoint, Q.DisjointButLast;
      ghost var c, off := used, unencoded;
      var flushed: nat := 0;
      assert InOrder([], off, |input|, base, srclen) && CoverPart([], input, off, base, srclen) == [] by {
        NothingInOrder(input, off, base, srclen);
      }
      ghost var k: nat := 0;
      assert c[..0] == [];
      while used != []
        invariant k <= |c| && used == c[k..]
        invariant Valid() && unencoded == EndOf(c[..k], off) && ioptSize == old(ioptSize)
        invariant InOrder(c[..k], off, |input|, base, srclen)
        invariant insts == old(insts) + CoverPart(c[..k], input, off, base, srclen)
        invariant Slots() == old(Slots()) && free >= old(free)
        invariant !force && k > 0 ==> |c| - k >= 3 && k <= ioptSize / 2
        invariant !force ==> flushed == k
        invariant iout.Some? && k > 0 ==> iout.value.kind != ADD
        decreases |used|
      {
        var renc := used[0];
        assert renc == c[k] && c[..k + 1] == c[..k] + [renc] && c[k..][1..] == c[k + 1..];
        NextStarts(c, k, off, force);
        CoverSnoc(c[..k], renc, input, off, base, srclen);
        used := used[1..];
        AddEncoding(renc);
        k := k + 1;
        assert insts == old(insts) + CoverPart(c[..k], input, off, base, srclen);
        if !force {
          flushed := flushed + 1;
          if flushed > ioptSize / 2 {
            break;
          }
          if |used| < 3 {
            break;
          }
        }
      }
      assert k == Q.FlushCount(|c|, force, ioptSize);
    }

    /** Compaction keeps a queue ready for encoding. */
    lemma CompactReady(q: seq<Q.Match>, force: bool)
      requires Ready(q)
      ensures Ready(Q.Compact(q, force)) && |Q.Compact(q, force)| <= |q| && (q != [] ==> Q.Compact(q, force) != [])
      ensures if force then Q.Disjoint(Q.Compact(q, force)) else Q.DisjointButLast(Q.Compact(q, force))
    {
      hide Q.Compact, Q.Ordered, Addressable;
      Q.CompactResult(q, force);
      var c := Q.Compact(q, force);
      forall i | 0 <= i < |c| ensures c[i].End() <= |input| && Addressable(c[i], base, srclen) {
        assert Q.From(c[i], q);
        var j :| 0 <= j < |q| && c[i].PartOf(q[j]) && (c[i].size == q[j].size || c[i].size >= Q.MIN_MATCH);
        PartAddressable(c[i], q[j], base, srclen);
      }
    }

    /** xd3_iopt_flush_instructions.  What stays queued can still be encoded unless an unforced
        flush met a queue that gets stuck at two overlapping instructions.  No slot becomes free
        exactly when the pending instruction takes the last one: with a buffer of one slot, or of
        two or three that compaction left full. */
    method Flush(force: bool)
      requires Valid() && Ready(used) && Slots() == ioptSize
      modifies this
      ensures Valid() && ioptSize == old(ioptSize)
      ensures var c := Q.Compact(old(used), force);
              var k := Q.FlushCount(|c|, force, ioptSize);
              && used == c[k..]
              && InOrder(c[..k], old(unencoded), |input|, base, srclen)
              && insts == old(insts) + CoverPart(c[..k], input, old(unencoded), base, srclen)
              && unencoded == EndOf(c[..k], old(unencoded))
              && (Ready(used) <==> force || !Q.Stuck(old(used)))
              && (free == 0 <==>
                    ioptSize == 0 || (Occupied() && if |c| == k then ioptSize == 1 else |c| == ioptSize <= 3))
      ensures Slots() == ioptSize
      ensures force ==> used == []
      ensures iout.Some? && old(used) != [] ==> iout.value.kind != ADD
    {
      hide Q.Compact, Q.Ordered, CoverPart, InOrder, Written, Addressable, TotalSize, Q.Split, Q.Disjoint,
           Q.DisjointButLast, Q.CleanCut;
      hide Q.Stuck;
      CompactReady(used, force);
      Q.FlushIsClean(used, force, ioptSize);
      ghost var c := Q.Compact(used, force);
      Compaction(force);
      Drain(force);
      LeftReady(c, Q.FlushCount(|c|, force, ioptSize));
    }

    /** The queue left after k matches are encoded is ready if the cut is clean. */
    lemma LeftReady(c: seq<Q.Match>, k: nat)
      requires k <= |c| && Q.Ordered(c) && (k == 0 && c != [] ==> unencoded <= c[0].pos)
      requires forall i :: 0 <= i < |c| ==> c[i].End() <= |input| && Addressable(c[i], base, srclen)
      requires k > 0 ==> unencoded == c[k - 1].End()
      ensures Ready(c[k..]) <==> Q.CleanCut(c, k)
    {
      DropOrdered(c, k);
      assert k < |c| ==> c[k..][0] == c[k];
    }

    /** ENC_INSTR: a forced flush and the final ADD encode the compacted queue with its gaps, for
        any queue that is in order and any source. */
    method EncodeQueue()
      requires Valid() && Ready(used) && Slots() == ioptSize && insts == []
      modifies this
      ensures used == [] && iout == None && Slots() == ioptSize
      ensures var c := Q.Compact(old(used), true);
              InOrder(c, 0, |input|, base, srclen) && insts == Cover(c, input, 0, base, srclen)
      ensures forall src: seq<byte> :: |src| == srclen ==>
                AllApplicable(insts, srclen, 0)
                && DecodeWindow(instSect, addrSect, dataSect, src, |input|) == Ok(Apply(insts, src, []))
      ensures |instSect| + |addrSect| + |dataSect| <= 12 * |input|
    {
      hide Q.Compact, Q.Ordered, Written, CoverPart, InOrder, DecodeWindow, Gap, Apply, AllApplicable, Q.Stuck;
      ghost var c := Q.Compact(used, true);
      Flush(true);
      assert c[..|c|] == c;
      AddFinalize();
    }

    /** A forced flush and the final ADD turn a queue of genuine matches into sections that
        decode to the input. */
    method EncodeWindow(ghost src: seq<byte>)
      requires Valid() && Ready(used) && Slots() == ioptSize && insts == []
      requires |src| == srclen && AllGenuine(used, Source(base, src), input)
      modifies this
      ensures used == [] && iout == None && Slots() == ioptSize
      ensures DecodeWindow(instSect, addrSect, dataSect, src, |input|) == Ok(input)
      ensures |instSect| + |addrSect| + |dataSect| <= 12 * |input|
    {
      hide Q.Compact, Q.Ordered, Written, Cover, InOrder, DecodeWindow, Genuine, Apply, AllApplicable, AllDescribe;
      ghost var q, s := used, Source(base, src);
      ghost var c := Q.Compact(q, true);
      EncodeQueue();
      CompactGenuine(q, true, s, input);
      CoverDescribes(c, input, 0, s);
      CoverEncodable(c, input, 0, base, src);
      ApplyReproduces(insts, src, input, 0);
      assert input[..0] == [] && input[..|input|] == input;
    }
  }

  /** What is encoded so far ends before the next match of a compacted queue. */
  lemma NextStarts(c: seq<Q.Match>, k: nat, off: nat, force: bool)
    requires k < |c| && off <= c[0].pos && (if force then Q.Disjoint(c) else Q.DisjointButLast(c))
    requires !force && k > 0 ==> |c| - k >= 3
    ensures EndOf(c[..k], off) <= c[k].pos
  {
  }

  lemma NothingInOrder(input: seq<byte>, off: nat, base: nat, srclen: nat)
    requires off <= |input|
    ensures InOrder([], off, |input|, base, srclen) && CoverPart([], input, off, base, srclen) == []
  {
  }

  // The branches of the compaction loop: with the settled part u[..i] kept, each step leaves the
  // outcome of compaction unchanged.

  ghost predicate Overlap(u: seq<Q.Match>, i: nat, force: bool) {
    && i + 1 < |u| && Q.Ordered(u[i..]) && u[i + 1].pos < u[i].End()
    && if i + 2 < |u| then u[i].End() + 1 < u[i + 2].pos else force
  }

  lemma KeepHead(u: seq<Q.Match>, i: nat, force: bool)
    requires i + 1 < |u| && Q.Ordered(u[i..]) && u[i].End() <= u[i + 1].pos
    ensures Q.Ordered(u[i + 1..])
    ensures u[..i + 1] + Q.Compact(u[i + 1..], force) == u[..i] + Q.Compact(u[i..], force)
  {
    var q := u[i..];
    assert q[1..] == u[i + 1..] && u[..i + 1] == u[..i] + [u[i]] && q[0] == u[i] && q[1] == u[i + 1];
    DropOrdered(q, 1);
    CompactKeepStep(q, force);
    hide Q.Compact, Q.Ordered;
    assert u[..i] + ([q[0]] + Q.Compact(q[1..], force)) == u[..i] + [q[0]] + Q.Compact(q[1..], force);
  }

  lemma CompactKeepStep(q: seq<Q.Match>, force: bool)
    requires Q.Ordered(q) && |q| >= 2 && q[0].End() <= q[1].pos && Q.Ordered(q[1..])
    ensures Q.Compact(q, force) == [q[0]] + Q.Compact(q[1..], force)
  {
  }

  lemma DropSecond(u: seq<Q.Match>, i: nat, force: bool)
    requires i + 2 < |u| && Q.Ordered(u[i..]) && u[i + 1].pos < u[i].End() && u[i + 2].pos <= u[i].End() + 1
    ensures var v := u[..i + 1] + u[i + 2..];
            Q.Ordered(v[i..]) && v[..i] + Q.Compact(v[i..], force) == u[..i] + Q.Compact(u[i..], force)
  {
    var v := u[..i + 1] + u[i + 2..];
    var q := u[i..];
    assert v[..i] == u[..i] && v[i..] == [q[0]] + q[2..];
    assert Q.Ordered(v[i..]) by {
      forall j | 0 < j < |v[i..]| ensures v[i..][j] == q[j + 1] {}
    }
  }

  lemma DropShorter(u: seq<Q.Match>, i: nat, force: bool)
    requires Overlap(u, i, force) && Q.Discard(u[i], u[i + 1])
    ensures u[i].size < u[i + 1].size ==>
            var v := u[..i] + u[i + 1..];
            Q.Ordered(v[i..]) && v[..i] + Q.Compact(v[i..], force) == u[..i] + Q.Compact(u[i..], force)
    ensures u[i].size >= u[i + 1].size ==>
            var v := u[..i + 1] + u[i + 2..];
            Q.Ordered(v[i + 1..]) && v[..i + 1] + Q.Compact(v[i + 1..], force) == u[..i] + Q.Compact(u[i..], force)
  {
    hide Q.Compact, Q.Ordered, Q.Discard, Q.Split;
    var q := u[i..];
    OverlapTail(u, i, force);
    CompactDrop(q, force);
    assert q[1..] == u[i + 1..] && q[2..] == u[i + 2..];
    if u[i].size < u[i + 1].size {
      var v := u[..i] + u[i + 1..];
      assert v[..i] == u[..i] && v[i..] == q[1..];
    } else {
      var v, c := u[..i + 1] + u[i + 2..], Q.Compact(q[2..], force);
      assert v[..i + 1] == u[..i] + [q[0]] && v[i + 1..] == q[2..];
      assert u[..i] + [q[0]] + c == u[..i] + ([q[0]] + c);
    }
  }

  lemma OverlapTail(u: seq<Q.Match>, i: nat, force: bool)
    requires Overlap(u, i, force)
    ensures Overlap(u[i..], 0, force) && |u| > i + 1
  {
    assert u[i..][0..] == u[i..];
  }

  /** The shorter of two overlapping matches goes. */
  lemma CompactDrop(q: seq<Q.Match>, force: bool)
    requires Overlap(q, 0, force) && Q.Discard(q[0], q[1])
    ensures Q.Ordered(q) && Q.Ordered(q[1..]) && Q.Ordered(q[2..])
    ensures Q.Compact(q, force) ==
            if q[0].size < q[1].size then Q.Compact(q[1..], force) else [q[0]] + Q.Compact(q[2..], force)
  {
    hide Q.Split;
    DropOrdered(q, 1);
    DropOrdered(q, 2);
    assert q[0..] == q;
  }

  lemma SplitHeads(u: seq<Q.Match>, i: nat, force: bool)
    requires Overlap(u, i, force) && !Q.Discard(u[i], u[i + 1])
    ensures u[i].pos < u[i + 1].pos < u[i].End() < u[i + 1].End()
    ensures var (s1, s2) := Q.Split(u[i], u[i + 1]);
            var v := u[i := s1][i + 1 := s2];
            Q.Ordered(v[i + 1..]) && v[..i + 1] + Q.Compact(v[i + 1..], force) == u[..i] + Q.Compact(u[i..], force)
  {
    hide Q.Split, Q.Match.PartOf, Q.Compact, Q.Ordered;
    var q := u[i..];
    assert q[0] == u[i] && q[1] == u[i + 1];
    OverlapOrder(u, i, force);
    var (s1, s2) := Q.Split(q[0], q[1]);
    var v := u[i := s1][i + 1 := s2];
    SplitOrdered(q, s2);
    Q.SplitStep(q, s1, s2, force);
    assert v[..i + 1] == u[..i] + [s1] && v[i + 1..] == [s2] + q[2..];
    assert u[..i] + ([s1] + Q.Compact([s2] + q[2..], force)) == u[..i] + [s1] + Q.Compact([s2] + q[2..], force);
  }

  lemma OverlapOrder(u: seq<Q.Match>, i: nat, force: bool)
    requires Overlap(u, i, force)
    ensures u[i].pos < u[i + 1].pos < u[i].End() < u[i + 1].End() && Q.Ordered(u[i..])
    ensures |u[i..]| > 2 ==> u[i].End() + 1 < u[i..][2].pos
  {
    assert u[i..][0] == u[i] && u[i..][1] == u[i + 1];
  }

  lemma SplitOrdered(q: seq<Q.Match>, s2: Q.Match)
    requires Q.Ordered(q) && |q| >= 2 && (|q| > 2 ==> q[0].End() + 1 < q[2].pos)
    requires s2.size > 0 && s2.pos <= q[0].End() && s2.End() == q[1].End()
    ensures Q.Ordered([s2] + q[2..])
  {
    var q2 := [s2] + q[2..];
    forall i, j | 0 <= i < j < |q2|
      ensures q2[i].pos < q2[j].pos && q2[i].End() < q2[j].End()
    {
      assert q2[j] == q[j + 1];
      if i > 0 { assert q2[i] == q[i + 1]; } else { assert q[2].pos <= q[j + 1].pos; }
    }
  }

  lemma Settled(u: seq<Q.Match>, i: nat, force: bool)
    requires i <= |u| && Q.Ordered(u[i..])
    requires i + 1 >= |u| || (i + 2 == |u| && !force && u[i + 1].pos < u[i].End())
    ensures u[..i] + Q.Compact(u[i..], force) == u
  {
    assert u[..i] + u[i..] == u;
  }
}
