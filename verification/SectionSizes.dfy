/** How long the sections of a window can get: every instruction costs at most twelve bytes and
    covers at least one byte of input, so the sizes in a window header fit their fields. */
module SectionSizes {
  import opened Common
  import opened Delta
  import opened CodeTable
  import opened WindowCodec
  import AddressCache
  import Integers

  lemma NumberSize(n: nat)
    requires n <= USIZE_MAX
    ensures |Integers.Encode(n)| <= 5
  {
    hide Integers.Encode;
    Integers.SizeOfEncode(n);
  }

  lemma AddressSize(c: AddressCache.Cache, addr: nat, here: nat)
    requires addr < here <= USIZE_MAX && |c.same| % 256 == 0
    ensures |c.Encode(addr, here).1| <= 5
  {
    hide Integers.Encode;
    var start := if addr >= 128 && here - addr < addr then (here - addr, AddressCache.VCD_HERE)
                 else (addr, AddressCache.VCD_SELF);
    AddressCache.SearchNearResult(c, addr, 0, start);
    NumberSize(c.Nearest(addr, here).0);
  }

  lemma PieceSize(i: Inst, c: AddressCache.Cache, srclen: nat, here: nat)
    requires DefaultCache(c) && Encodable(i, srclen, here)
    ensures var p := EncodeInst(i, c, srclen, here);
            |p.addr| <= 5 && |p.data| <= i.Size()
  {
    hide AddressCache.Cache.Encode, AddressCache.Cache.Update;
    if i.Copy? {
      AddressSize(c, i.addr, here);
    }
  }

  /** Addresses and data of a list of instructions; no instruction is empty. */
  lemma {:induction false} SectionsSize(insts: seq<Inst>, c: AddressCache.Cache, srclen: nat, here: nat)
    requires DefaultCache(c) && AllEncodable(insts, srclen, here)
    ensures var (ops, addr, data) := EncodeInsts(insts, c, srclen, here);
            && |addr| <= 5 * |insts| && |data| <= TotalSize(insts) && |insts| <= TotalSize(insts)
            && forall i :: 0 <= i < |ops| ==> ops[i].size <= USIZE_MAX
    decreases |insts|
  {
    hide EncodeInst, DefaultCache;
    if insts != [] {
      PieceSize(insts[0], c, srclen, here);
      var p := EncodeInst(insts[0], c, srclen, here);
      SectionsSize(insts[1..], p.cache, srclen, here + insts[0].Size());
    }
  }

  lemma SingleSize(op: Op)
    requires op.Valid() && op.size <= USIZE_MAX
    ensures |EmitSingle(op)| <= 6
  {
    hide Integers.Encode, Entry, Code1;
    NumberSize(op.size);
  }

  /** Codes and sizes. */
  lemma {:induction false} CodesSize(pending: Option<Op>, ops: seq<Op>)
    requires AllValid(AsSeq(pending)) && AllValid(ops)
    requires pending.Some? ==> pending.value.Valid() && pending.value.size <= USIZE_MAX
    requires forall i :: 0 <= i < |ops| ==> ops[i].size <= USIZE_MAX
    ensures |EmitOps(pending, ops)| <= 6 * (|AsSeq(pending)| + |ops|)
    decreases |ops|
  {
    hide EmitSingle, Code2, Op.Valid;
    if pending.Some? {
      SingleSize(pending.value);
    }
    if ops != [] {
      var op, rest := ops[0], ops[1..];
      assert op.Valid() && AllValid(AsSeq(Some(op)));
      if pending.None? || Code2(pending.value, op) == 0 {
        CodesSize(Some(op), rest);
      } else {
        CodesSize(None, rest);
      }
    }
  }

  /** All three sections together. */
  lemma WindowSize(insts: seq<Inst>, srclen: nat)
    requires AllEncodable(insts, srclen, srclen)
    ensures var (ops, addr, data) := EncodeInsts(insts, InitialCache(), srclen, srclen);
            |EmitOps(None, ops)| + |addr| + |data| <= 12 * TotalSize(insts)
  {
    hide EncodeInsts, EmitOps, AllEncodable, TotalSize;
    SectionsSize(insts, InitialCache(), srclen, srclen);
    CodesSize(None, EncodeInsts(insts, InitialCache(), srclen, srclen).0);
  }
}
