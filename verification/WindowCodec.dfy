/** One window as three byte sections: what the encoder writes for a list of instructions and
    what the decoder makes of the sections (sections 4.3, 5 and 6 of RFC 3284). */
module WindowCodec {
  import opened Common
  import opened Delta
  import opened CodeTable
  import AddressCache
  import Integers

  /** The cache of the default code table: four near and three same slots. */
  ghost predicate DefaultCache(c: AddressCache.Cache) {
    c.Valid() && |c.near| == NEAR_MODES && |c.same| == 256 * SAME_MODES
  }

  lemma CacheValid(c: AddressCache.Cache)
    requires DefaultCache(c)
    ensures c.Valid()
  {
  }

  function InitialCache(): (c: AddressCache.Cache)
    ensures DefaultCache(c)
  {
    AddressCache.Init(NEAR_MODES, SAME_MODES)
  }

  // ---------------------------------------------------------------- decoder

  /** The decoder's working state: what is left of each section, the address cache,
      dec_position and the output so far. */
  datatype Dec = Dec(inst: seq<byte>, addr: seq<byte>, data: seq<byte>,
                     cache: AddressCache.Cache, position: nat, out: seq<byte>) {
    ghost predicate Valid() {
      DefaultCache(cache) && position <= USIZE_MAX
    }
  }

  /** xd3_hinst */
  datatype HInst = HInst(kind: nat, size: nat, addr: nat) {
    /** An instruction, and if it copies from the source window, not beyond its end. */
    predicate Within(cpylen: nat) {
      ADD <= kind < CPY + MODES && (kind >= CPY && addr < cpylen ==> addr + size <= cpylen)
    }
  }

  /** xd3_decode_parse_halfinst */
  function ParseHalf(kind: nat, size: nat, cpylen: nat, maxpos: nat, d: Dec): (r: Result<(HInst, Dec)>)
    requires d.Valid() && ADD <= kind < CPY + MODES && maxpos <= USIZE_MAX
    ensures r.Ok? ==> r.value.1.Valid() && |r.value.1.inst| <= |d.inst|
    ensures r.Ok? ==> r.value.1.out == d.out && r.value.1.data == d.data
    ensures r.Ok? ==> r.value.1.position == d.position + r.value.0.size <= maxpos
    ensures r.Ok? && kind >= CPY ==> r.value.0.addr < d.position
    ensures r.Ok? && kind >= CPY && r.value.0.addr < cpylen ==> r.value.0.addr + r.value.0.size <= cpylen
    ensures r.Ok? ==> r.value.0.kind == kind
  {
    var (sz, inst) :- HalfSize(size, d.inst);
    if kind >= CPY then
      var (addr, rest, cache) :- d.cache.Decode(d.position, kind - CPY, d.addr);
      if addr >= d.position then Err(InvalidInput)
      else if addr < cpylen && addr + sz > cpylen then Err(InvalidInput)
      else if d.position + sz > maxpos then Err(InvalidInput)
      else Ok((HInst(kind, sz, addr), d.(inst := inst, addr := rest, cache := cache, position := d.position + sz)))
    else if d.position + sz > maxpos then Err(InvalidInput)
    else Ok((HInst(kind, sz, 0), d.(inst := inst, position := d.position + sz)))
  }

  /** xd3_decode_output_halfinst, with the whole source window at hand. */
  function OutputHalf(h: HInst, src: seq<byte>, d: Dec): (r: Result<Dec>)
    requires h.kind >= CPY ==> h.addr < |src| + |d.out|
    ensures r.Ok? ==> r.value == d.(data := r.value.data, out := r.value.out)
    ensures r.Ok? ==> |r.value.out| == |d.out| + h.size
  {
    if h.kind == RUN then
      if d.data == [] then Err(InvalidInput)
      else Ok(d.(data := d.data[1..], out := d.out + Repeat(d.data[0], h.size)))
    else if h.kind < CPY then
      if h.size > |d.data| then Err(InvalidInput)
      else Ok(d.(data := d.data[h.size..], out := d.out + d.data[..h.size]))
    else
      Ok(d.(out := CopyBytes(src, d.out, h.addr, h.size)))
  }

  /** xd3_decode_instruction: one code and its one or two half instructions. */
  function DecodeInstruction(cpylen: nat, maxpos: nat, d: Dec): (r: Result<(HInst, Option<HInst>, Dec)>)
    requires d.Valid() && d.inst != [] && maxpos <= USIZE_MAX
    ensures r.Ok? ==> r.value.2.Valid() && |r.value.2.inst| < |d.inst|
    ensures r.Ok? ==> r.value.2.out == d.out && r.value.2.data == d.data
    ensures r.Ok? ==> r.value.2.position == d.position + r.value.0.size
                      + (if r.value.1.Some? then r.value.1.value.size else 0)
    ensures r.Ok? && r.value.0.kind >= CPY ==> r.value.0.addr < d.position
    ensures r.Ok? && r.value.1.Some? && r.value.1.value.kind >= CPY ==>
              r.value.1.value.addr < d.position + r.value.0.size
    ensures r.Ok? ==> r.value.0.Within(cpylen) && (r.value.1.Some? ==> r.value.1.value.Within(cpylen))
  {
    var e := Entry(d.inst[0]);
    var (h1, d1) :- ParseHalf(e.type1, e.size1, cpylen, maxpos, d.(inst := d.inst[1..]));
    if e.type2 == NOOP then Ok((h1, None, d1))
    else
      var (h2, d2) :- ParseHalf(e.type2, e.size2, cpylen, maxpos, d1);
      Ok((h1, Some(h2), d2))
  }

  /** The loop of xd3_decode_emit. */
  function Emit(src: seq<byte>, maxpos: nat, d: Dec): (r: Result<Dec>)
    requires d.Valid() && maxpos <= USIZE_MAX && d.position == |src| + |d.out|
    ensures r.Ok? ==> r.value.inst == [] && r.value.position == |src| + |r.value.out|
    decreases |d.inst|
  {
    if d.inst == [] then Ok(d)
    else
      var (h1, h2, d1) :- DecodeInstruction(|src|, maxpos, d);
      var d2 :- OutputHalf(h1, src, d1);
      if h2.None? then Emit(src, maxpos, d2)
      else
        var d3 :- OutputHalf(h2.value, src, d2);
        Emit(src, maxpos, d3)
  }

  /** A window decodes to its target bytes if the instructions fill it exactly and use up the
      data and address sections. */
  function DecodeWindow(inst: seq<byte>, addr: seq<byte>, data: seq<byte>, src: seq<byte>,
                        tgtlen: nat): Result<seq<byte>>
    requires |src| + tgtlen <= USIZE_MAX
  {
    var d :- Emit(src, |src| + tgtlen, Dec(inst, addr, data, InitialCache(), |src|, []));
    if |d.out| != tgtlen || d.data != [] || d.addr != [] then Err(InvalidInput) else Ok(d.out)
  }

  // ---------------------------------------------------------------- encoder

  /** An instruction the encoder may emit at `here`: a copy lies wholly in the source window
      or starts in the target written so far. */
  predicate Encodable(i: Inst, srclen: nat, here: nat) {
    && 0 < i.Size() <= USIZE_MAX - here
    && (i.Copy? ==> i.addr < here && (i.addr < srclen ==> i.addr + i.length <= srclen))
  }

  predicate AllEncodable(insts: seq<Inst>, srclen: nat, here: nat)
    decreases |insts|
  {
    insts == [] || (Encodable(insts[0], srclen, here) && AllEncodable(insts[1..], srclen, here + insts[0].Size()))
  }

  /** The half instruction, address bytes, data bytes and new cache for one instruction. */
  datatype Piece = Piece(op: Op, addr: seq<byte>, data: seq<byte>, cache: AddressCache.Cache)

  function EncodeInst(i: Inst, c: AddressCache.Cache, srclen: nat, here: nat): (p: Piece)
    requires DefaultCache(c) && Encodable(i, srclen, here)
    ensures p.op.Valid() && p.op.size == i.Size() && DefaultCache(p.cache)
    ensures p.op.kind == ADD <==> i.Add?
  {
    match i
    case Add(bytes) => Piece(Op(ADD, |bytes|), [], bytes, c)
    case Run(value, count) => Piece(Op(RUN, count), [], [value], c)
    case Copy(addr, length) =>
      var (mode, bytes) := c.Encode(addr, here);
      AddressCache.RoundTrip(c, addr, here, []);
      Piece(Op(CPY + mode, length), bytes, [], c.Update(addr))
  }

  /** The sections for a list of instructions; the half instructions still await their codes. */
  function EncodeInsts(insts: seq<Inst>, c: AddressCache.Cache, srclen: nat,
                       here: nat): (r: (seq<Op>, seq<byte>, seq<byte>))
    requires DefaultCache(c) && AllEncodable(insts, srclen, here)
    ensures AllValid(r.0) && |r.0| == |insts|
    decreases |insts|
  {
    if insts == [] then ([], [], [])
    else
      var p := EncodeInst(insts[0], c, srclen, here);
      var (ops, addr, data) := EncodeInsts(insts[1..], p.cache, srclen, here + insts[0].Size());
      ([p.op] + ops, p.addr + addr, p.data + data)
  }

  /** The address cache after a list of instructions. */
  function CacheAfter(insts: seq<Inst>, c: AddressCache.Cache, srclen: nat, here: nat): (r: AddressCache.Cache)
    requires DefaultCache(c) && AllEncodable(insts, srclen, here)
    ensures DefaultCache(r)
    decreases |insts|
  {
    if insts == [] then c
    else CacheAfter(insts[1..], EncodeInst(insts[0], c, srclen, here).cache, srclen, here + insts[0].Size())
  }

  /** One more instruction only appends to the sections. */
  lemma {:induction false} EncodeSnoc(insts: seq<Inst>, i: Inst, c: AddressCache.Cache, srclen: nat, here: nat)
    requires DefaultCache(c) && AllEncodable(insts, srclen, here) && Encodable(i, srclen, here + TotalSize(insts))
    ensures AllEncodable(insts + [i], srclen, here) && TotalSize(insts + [i]) == TotalSize(insts) + i.Size()
    ensures var (ops, addr, data) := EncodeInsts(insts, c, srclen, here);
            var p := EncodeInst(i, CacheAfter(insts, c, srclen, here), srclen, here + TotalSize(insts));
            && EncodeInsts(insts + [i], c, srclen, here) == (ops + [p.op], addr + p.addr, data + p.data)
            && CacheAfter(insts + [i], c, srclen, here) == p.cache
    decreases |insts|
  {
    hide EncodeInst, Encodable, DefaultCache;
    var all := insts + [i];
    if insts == [] {
      assert all[0] == i && all[1..] == [];
      var p := EncodeInst(i, c, srclen, here);
      var (ops, addr, data) := EncodeInsts(insts, c, srclen, here);
      assert [p.op] + ops == ops + [p.op] && p.addr + addr == addr + p.addr && p.data + data == data + p.data;
    } else {
      assert all[0] == insts[0] && all[1..] == insts[1..] + [i];
      var p := EncodeInst(insts[0], c, srclen, here);
      EncodeSnoc(insts[1..], i, p.cache, srclen, here + insts[0].Size());
      var (ops, addr, data) := EncodeInsts(insts[1..], p.cache, srclen, here + insts[0].Size());
      var q := EncodeInst(i, CacheAfter(insts, c, srclen, here), srclen, here + TotalSize(insts));
      assert [p.op] + (ops + [q.op]) == ([p.op] + ops) + [q.op];
      assert p.addr + (addr + q.addr) == (p.addr + addr) + q.addr;
      assert p.data + (data + q.data) == (p.data + data) + q.data;
    }
  }

  // ---------------------------------------------------------------- round trip

  /** Parsing one half instruction of an encoded window: its size comes from the table or from
      `size bytes`, its address from the address section. */
  lemma ParseEncoded(i: Inst, srclen: nat, maxpos: nat, d: Dec, size: nat, inst: seq<byte>, addr: seq<byte>)
    requires d.Valid() && Encodable(i, srclen, d.position) && d.position + i.Size() <= maxpos <= USIZE_MAX
    requires HalfSize(size, d.inst) == Ok((i.Size(), inst))
    requires d.addr == EncodeInst(i, d.cache, srclen, d.position).addr + addr
    ensures var p := EncodeInst(i, d.cache, srclen, d.position);
            ParseHalf(p.op.kind, size, srclen, maxpos, d)
            == Ok((HInst(p.op.kind, i.Size(), if i.Copy? then i.addr else 0),
                   d.(inst := inst, addr := addr, cache := p.cache, position := d.position + i.Size())))
  {
    hide AddressCache.Cache.Encode, AddressCache.Cache.Decode, AddressCache.Cache.Update, DefaultCache, HalfSize;
    if i.Copy? {
      assert d.cache.Valid() by { CacheValid(d.cache); }
      AddressCache.RoundTrip(d.cache, i.addr, d.position, addr);
    } else {
      assert d.addr == addr;
    }
  }

  /** Executing one encoded half instruction has the effect of the instruction. */
  lemma OutputEncoded(i: Inst, c: AddressCache.Cache, src: seq<byte>, d: Dec, data: seq<byte>)
    requires DefaultCache(c) && Encodable(i, |src|, |src| + |d.out|)
    requires d.data == EncodeInst(i, c, |src|, |src| + |d.out|).data + data
    ensures var p := EncodeInst(i, c, |src|, |src| + |d.out|);
            OutputHalf(HInst(p.op.kind, i.Size(), if i.Copy? then i.addr else 0), src, d)
            == Ok(d.(data := data, out := ApplyInst(i, src, d.out)))
  {
    match i {
      case Add(bytes) =>
        assert d.data[..|bytes|] == bytes && d.data[|bytes|..] == data;
      case Run(value, count) =>
        assert d.data[0] == value && d.data[1..] == data;
      case Copy(addr, length) =>
        assert d.data == data;
    }
  }

  /** The first code of an emitted section: a double code for two instructions that fuse,
      otherwise the single code of the first. */
  lemma FirstCode(ops: seq<Op>)
    requires AllValid(ops) && ops != []
    ensures |ops| > 1 && Code2(ops[0], ops[1]) != 0 ==>
            EmitOps(None, ops) == [Code2(ops[0], ops[1])] + EmitOps(None, ops[2..])
    ensures |ops| == 1 || Code2(ops[0], ops[1]) == 0 ==>
            EmitOps(None, ops) == EmitSingle(ops[0]) + EmitOps(None, ops[1..])
  {
    assert ops[0].Valid();
    if |ops| > 1 {
      assert ops[1..][0] == ops[1] && ops[1..][1..] == ops[2..];
      assert EmitOps(None, ops[1..]) == EmitOps(Some(ops[1]), ops[2..]);
    } else {
      assert EmitSingle(ops[0]) + EmitOps(None, ops[1..]) == EmitSingle(ops[0]);
    }
  }

  /** Unfolding the decoder's loop once. */
  lemma EmitUnfold(src: seq<byte>, maxpos: nat, d: Dec, h1: HInst, h2: Option<HInst>, d1: Dec, d2: Dec, d3: Dec)
    requires d.Valid() && d.inst != [] && maxpos <= USIZE_MAX && d.position == |src| + |d.out|
    requires DecodeInstruction(|src|, maxpos, d) == Ok((h1, h2, d1))
    requires OutputHalf(h1, src, d1) == Ok(d2)
    requires if h2.Some? then OutputHalf(h2.value, src, d2) == Ok(d3) else d3 == d2
    ensures Emit(src, maxpos, d) == Emit(src, maxpos, d3)
  {
    hide DecodeInstruction, OutputHalf;
  }

  /** The half instruction that an encoded instruction decodes to. */
  function Decoded(i: Inst, p: Piece): HInst {
    HInst(p.op.kind, i.Size(), if i.Copy? then i.addr else 0)
  }

  /** One instruction by its single code. */
  lemma SingleStep(i: Inst, p: Piece, src: seq<byte>, maxpos: nat, d: Dec, inst: seq<byte>, addr: seq<byte>,
                   data: seq<byte>)
    requires d.Valid() && d.position == |src| + |d.out| && Encodable(i, |src|, d.position)
    requires d.position + i.Size() <= maxpos <= USIZE_MAX
    requires p == EncodeInst(i, d.cache, |src|, d.position)
    requires d.inst == EmitSingle(p.op) + inst && d.addr == p.addr + addr && d.data == p.data + data
    ensures Emit(src, maxpos, d)
         == Emit(src, maxpos, Dec(inst, addr, data, p.cache, d.position + i.Size(), ApplyInst(i, src, d.out)))
  {
    hide EncodeInst, Code1, Entry, ParseHalf, OutputHalf, Emit, DefaultCache, CopyBytes, HalfSize;
    Code1Entry(p.op);
    ParseSingle(p.op, inst);
    var d0 := d.(inst := d.inst[1..]);
    ParseEncoded(i, |src|, maxpos, d0, Entry(d.inst[0]).size1, inst, addr);
    var d1 := d.(inst := inst, addr := addr, cache := p.cache, position := d.position + i.Size());
    OutputEncoded(i, d.cache, src, d1, data);
    var d2 := d1.(data := data, out := ApplyInst(i, src, d.out));
    assert DecodeInstruction(|src|, maxpos, d) == Ok((Decoded(i, p), None, d1));
    EmitUnfold(src, maxpos, d, Decoded(i, p), None, d1, d2, d2);
  }

  lemma ImmediateSize(size: nat, inst: seq<byte>)
    requires size > 0
    ensures HalfSize(size, inst) == Ok((size, inst))
  {
  }

  /** Two instructions by one double code. */
  lemma DoubleStep(i: Inst, p: Piece, j: Inst, q: Piece, src: seq<byte>, maxpos: nat, d: Dec,
                   inst: seq<byte>, addr: seq<byte>, data: seq<byte>)
    requires d.Valid() && d.position == |src| + |d.out|
    requires Encodable(i, |src|, d.position) && Encodable(j, |src|, d.position + i.Size())
    requires d.position + i.Size() + j.Size() <= maxpos <= USIZE_MAX
    requires p == EncodeInst(i, d.cache, |src|, d.position)
    requires q == EncodeInst(j, p.cache, |src|, d.position + i.Size())
    requires Code2(p.op, q.op) != 0
    requires d.inst == [Code2(p.op, q.op)] + inst && d.addr == p.addr + (q.addr + addr)
             && d.data == p.data + (q.data + data)
    ensures Emit(src, maxpos, d)
         == Emit(src, maxpos, Dec(inst, addr, data, q.cache, d.position + i.Size() + j.Size(),
                                  ApplyInst(j, src, ApplyInst(i, src, d.out))))
  {
    hide EncodeInst, Code2, Entry, ParseHalf, OutputHalf, Emit, DefaultCache, CopyBytes, HalfSize;
    Code2Entry(p.op, q.op);
    var d0 := d.(inst := inst);
    assert d.inst[1..] == inst;
    assert HalfSize(p.op.size, inst) == Ok((p.op.size, inst)) && HalfSize(q.op.size, inst) == Ok((q.op.size, inst)) by {
      ImmediateSize(p.op.size, inst);
      ImmediateSize(q.op.size, inst);
    }
    ParseEncoded(i, |src|, maxpos, d0, p.op.size, inst, q.addr + addr);
    var d1 := d0.(addr := q.addr + addr, cache := p.cache, position := d.position + i.Size());
    ParseEncoded(j, |src|, maxpos, d1, q.op.size, inst, addr);
    var d2 := d1.(addr := addr, cache := q.cache, position := d1.position + j.Size());
    OutputEncoded(i, d.cache, src, d2, q.data + data);
    var d3 := d2.(data := q.data + data, out := ApplyInst(i, src, d.out));
    OutputEncoded(j, p.cache, src, d3, data);
    var d4 := d3.(data := data, out := ApplyInst(j, src, d3.out));
    assert DecodeInstruction(|src|, maxpos, d) == Ok((Decoded(i, p), Some(Decoded(j, q)), d2));
    EmitUnfold(src, maxpos, d, Decoded(i, p), Some(Decoded(j, q)), d2, d3, d4);
  }

  lemma {:induction false} EncodableIsApplicable(insts: seq<Inst>, srclen: nat, pos: nat)
    requires AllEncodable(insts, srclen, srclen + pos)
    ensures AllApplicable(insts, srclen, pos)
    ensures insts != [] ==> srclen + pos + TotalSize(insts) <= USIZE_MAX
    decreases |insts|
  {
    if insts != [] {
      EncodableIsApplicable(insts[1..], srclen, pos + insts[0].Size());
    }
  }

  lemma EmitNothing(src: seq<byte>, maxpos: nat, d: Dec, ops: seq<Op>)
    requires d.Valid() && maxpos <= USIZE_MAX && d.position == |src| + |d.out|
    requires ops == [] && d.inst == EmitOps(None, ops)
    ensures Emit(src, maxpos, d) == Ok(d)
  {
  }

  /** Decoding the encoded sections applies the instructions and uses the sections up. */
  lemma {:induction false} EmitDecodes(insts: seq<Inst>, ops: seq<Op>, src: seq<byte>, maxpos: nat, d: Dec)
    requires d.Valid() && d.position == |src| + |d.out| && AllEncodable(insts, |src|, d.position)
    requires d.position + TotalSize(insts) == maxpos <= USIZE_MAX
    requires (ops, d.addr, d.data) == EncodeInsts(insts, d.cache, |src|, d.position)
    requires d.inst == EmitOps(None, ops)
    ensures AllApplicable(insts, |src|, |d.out|)
    ensures var r := Emit(src, maxpos, d);
            r.Ok? && r.value.out == Apply(insts, src, d.out) && r.value.data == [] && r.value.addr == []
    decreases |insts|
  {
    hide EncodeInst, Emit, Code2, EmitSingle, EmitOps, ApplyInst, Encodable, Applicable, DefaultCache;
    EncodableIsApplicable(insts, |src|, |d.out|);
    if insts == [] {
      EmitNothing(src, maxpos, d, ops);
    } else {
      var i := insts[0];
      var p := EncodeInst(i, d.cache, |src|, d.position);
      var (ops1, addr1, data1) := EncodeInsts(insts[1..], p.cache, |src|, d.position + i.Size());
      assert ops == [p.op] + ops1 && ops[1..] == ops1;
      FirstCode(ops);
      if |ops| > 1 && Code2(ops[0], ops[1]) != 0 {
        var j := insts[1];
        assert insts[1..][0] == j && insts[1..][1..] == insts[2..];
        var q := EncodeInst(j, p.cache, |src|, d.position + i.Size());
        var (ops2, addr2, data2) := EncodeInsts(insts[2..], q.cache, |src|, d.position + i.Size() + j.Size());
        assert ops1 == [q.op] + ops2 && ops[2..] == ops2;
        DoubleStep(i, p, j, q, src, maxpos, d, EmitOps(None, ops2), addr2, data2);
        var out := ApplyInst(j, src, ApplyInst(i, src, d.out));
        EmitDecodes(insts[2..], ops2, src, maxpos, Dec(EmitOps(None, ops2), addr2, data2, q.cache, |src| + |out|, out));
      } else {
        SingleStep(i, p, src, maxpos, d, EmitOps(None, ops1), addr1, data1);
        var out := ApplyInst(i, src, d.out);
        EmitDecodes(insts[1..], ops1, src, maxpos, Dec(EmitOps(None, ops1), addr1, data1, p.cache, |src| + |out|, out));
      }
    }
  }

  /** Section round trip: for every encodable instruction list the decoder returns what the
      instructions mean, and accepts the three sections as exactly used up. */
  lemma WindowRoundTrip(insts: seq<Inst>, src: seq<byte>)
    requires AllEncodable(insts, |src|, |src|) && |src| + TotalSize(insts) <= USIZE_MAX
    ensures AllApplicable(insts, |src|, 0)
    ensures var (ops, addr, data) := EncodeInsts(insts, InitialCache(), |src|, |src|);
            DecodeWindow(EmitOps(None, ops), addr, data, src, TotalSize(insts)) == Ok(Apply(insts, src, []))
  {
    hide EncodeInsts, EmitOps, Emit, Apply, EncodeInst, AllEncodable, AddressCache.Init;
    var (ops, addr, data) := EncodeInsts(insts, InitialCache(), |src|, |src|);
    EmitDecodes(insts, ops, src, |src| + TotalSize(insts),
                Dec(EmitOps(None, ops), addr, data, InitialCache(), |src|, []));
  }
}
