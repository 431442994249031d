/** What the window decoder accepts: nothing may be left over of any section, and the address cache
    has seen exactly the copies. */
module WindowExact {
  import opened Common
  import opened Delta
  import opened CodeTable
  import opened WindowCodec
  import A = AddressCache
  import I = Integers
  import V = WindowParse

  // ---------------------------------------------------------------- more bytes than needed

  /** The state with more bytes at the ends of the address and data sections. */
  function Longer(d: Dec, addr: seq<byte>, data: seq<byte>): Dec {
    d.(addr := d.addr + addr, data := d.data + data)
  }

  lemma DecodeMore(c: A.Cache, here: nat, mode: nat, s: seq<byte>, more: seq<byte>)
    requires c.Valid() && here <= USIZE_MAX && mode < c.SameStart() + |c.same| / 256 && c.Decode(here, mode, s).Ok?
    ensures var (addr, rest, c') := c.Decode(here, mode, s).value;
            c.Decode(here, mode, s + more) == Ok((addr, rest + more, c'))
  {
    hide A.Cache.Update;
    if mode < c.SameStart() {
      I.ReadMore(s, 0, more);
    } else {
      assert (s + more)[1..] == s[1..] + more;
    }
  }

  lemma ParseMore(kind: nat, size: nat, cpylen: nat, maxpos: nat, d: Dec, addr: seq<byte>, data: seq<byte>)
    requires d.Valid() && ADD <= kind < CPY + MODES && maxpos <= USIZE_MAX
    requires ParseHalf(kind, size, cpylen, maxpos, d).Ok?
    ensures var (h, d') := ParseHalf(kind, size, cpylen, maxpos, d).value;
            ParseHalf(kind, size, cpylen, maxpos, Longer(d, addr, data)) == Ok((h, Longer(d', addr, data)))
  {
    hide A.Cache.Decode, HalfSize;
    if kind >= CPY {
      DecodeMore(d.cache, d.position, kind - CPY, d.addr, addr);
    }
  }

  lemma InstructionMore(cpylen: nat, maxpos: nat, d: Dec, addr: seq<byte>, data: seq<byte>)
    requires d.Valid() && d.inst != [] && maxpos <= USIZE_MAX && DecodeInstruction(cpylen, maxpos, d).Ok?
    ensures var (h1, h2, d1) := DecodeInstruction(cpylen, maxpos, d).value;
            DecodeInstruction(cpylen, maxpos, Longer(d, addr, data)) == Ok((h1, h2, Longer(d1, addr, data)))
  {
    hide ParseHalf, Entry, DefaultCache;
    var e, d0 := Entry(d.inst[0]), d.(inst := d.inst[1..]);
    V.EntryKinds(d.inst[0]);
    ParseMore(e.type1, e.size1, cpylen, maxpos, d0, addr, data);
    assert Longer(d, addr, data).(inst := d.inst[1..]) == Longer(d0, addr, data);
    if e.type2 != NOOP {
      var d1 := ParseHalf(e.type1, e.size1, cpylen, maxpos, d0).value.1;
      ParseMore(e.type2, e.size2, cpylen, maxpos, d1, addr, data);
    }
  }

  lemma OutputMore(h: HInst, src: seq<byte>, d: Dec, addr: seq<byte>, data: seq<byte>)
    requires (h.kind >= CPY ==> h.addr < |src| + |d.out|) && OutputHalf(h, src, d).Ok?
    ensures OutputHalf(h, src, Longer(d, addr, data)) == Ok(Longer(OutputHalf(h, src, d).value, addr, data))
  {
    var all := d.data + data;
    if h.kind == RUN {
      assert all[1..] == d.data[1..] + data;
    } else if h.kind < CPY {
      assert all[h.size..] == d.data[h.size..] + data && all[..h.size] == d.data[..h.size];
    }
  }

  /** Bytes behind the sections stay behind. */
  lemma {:induction false} EmitMore(src: seq<byte>, maxpos: nat, d: Dec, addr: seq<byte>, data: seq<byte>)
    requires d.Valid() && maxpos <= USIZE_MAX && d.position == |src| + |d.out| && Emit(src, maxpos, d).Ok?
    ensures Emit(src, maxpos, Longer(d, addr, data)) == Ok(Longer(Emit(src, maxpos, d).value, addr, data))
    decreases |d.inst|
  {
    hide DecodeInstruction, OutputHalf, DefaultCache;
    if d.inst != [] {
      var (h1, h2, d1, d2, d3) := V.EmitStep(src, maxpos, d);
      InstructionMore(|src|, maxpos, d, addr, data);
      OutputMore(h1, src, d1, addr, data);
      if h2.Some? {
        OutputMore(h2.value, src, d2, addr, data);
      }
      EmitMore(src, maxpos, d3, addr, data);
    }
  }

  /** A window with anything left over of its addresses or data is refused. */
  lemma LeftoverRefused(inst: seq<byte>, addr: seq<byte>, data: seq<byte>, src: seq<byte>, tgtlen: nat,
                        moreAddr: seq<byte>, moreData: seq<byte>)
    requires |src| + tgtlen <= USIZE_MAX && DecodeWindow(inst, addr, data, src, tgtlen).Ok?
    requires moreAddr != [] || moreData != []
    ensures DecodeWindow(inst, addr + moreAddr, data + moreData, src, tgtlen) == Err(InvalidInput)
  {
    hide Emit, A.Init;
    EmitMore(src, |src| + tgtlen, Dec(inst, addr, data, InitialCache(), |src|, []), moreAddr, moreData);
  }

  /** So is one whose instructions do not fill it exactly: the length decides. */
  lemma OtherLengthRefused(inst: seq<byte>, addr: seq<byte>, data: seq<byte>, src: seq<byte>, tgtlen: nat, other: nat)
    requires |src| + tgtlen <= USIZE_MAX && |src| + other <= USIZE_MAX
    requires DecodeWindow(inst, addr, data, src, tgtlen).Ok? && DecodeWindow(inst, addr, data, src, other).Ok?
    ensures tgtlen == other
  {
    hide A.Init, Emit;
    var d := Dec(inst, addr, data, InitialCache(), |src|, []);
    EmitEither(src, |src| + tgtlen, |src| + other, d);
  }

  /** The bound on positions only refuses. */
  lemma {:induction false} EmitEither(src: seq<byte>, m: nat, n: nat, d: Dec)
    requires d.Valid() && m <= USIZE_MAX && n <= USIZE_MAX && d.position == |src| + |d.out|
    requires Emit(src, m, d).Ok? && Emit(src, n, d).Ok?
    ensures Emit(src, m, d) == Emit(src, n, d)
    decreases |d.inst|
  {
    hide OutputHalf, DefaultCache, ParseHalf, DecodeInstruction;
    if d.inst != [] {
      var (h1, h2, d1, d2, d3) := V.EmitStep(src, m, d);
      InstructionEither(|src|, m, n, d);
      EmitEither(src, m, n, d3);
    }
  }

  lemma InstructionEither(cpylen: nat, m: nat, n: nat, d: Dec)
    requires d.Valid() && d.inst != [] && m <= USIZE_MAX && n <= USIZE_MAX
    requires DecodeInstruction(cpylen, m, d).Ok? && DecodeInstruction(cpylen, n, d).Ok?
    ensures DecodeInstruction(cpylen, m, d) == DecodeInstruction(cpylen, n, d)
  {
    hide A.Cache.Decode, HalfSize, Entry;
  }

  // ---------------------------------------------------------------- what the cache has seen

  /** The copies in a list of instructions, each with the position at which it is decoded. */
  function Copies(insts: seq<Inst>, here: nat): seq<(nat, nat)>
    decreases |insts|
  {
    if insts == [] then []
    else (if insts[0].Copy? then [(insts[0].addr, here)] else []) + Copies(insts[1..], here + insts[0].Size())
  }

  /** From any state: the cache at the end is the one at the start after the addresses of the
      decoded copies, in their order. */
  lemma {:induction false} EmitRemembers(src: seq<byte>, maxpos: nat, d: Dec)
    requires d.Valid() && maxpos <= USIZE_MAX && d.position == |src| + |d.out| && Emit(src, maxpos, d).Ok?
    ensures var r := V.Parse(|src|, maxpos, d);
            && r.Some? && r.value.Ok?
            && var uses := Copies(r.value.value, d.position);
               A.InRange(uses) && Emit(src, maxpos, d).value.cache == A.UpdateAll(d.cache, uses)
    decreases |d.inst|
  {
    hide DecodeInstruction, OutputHalf, V.InstOf, V.AfterData, V.Supplied, DefaultCache, Emit, V.Parse;
    hide A.Cache.Update, A.UpdateAll, V.AllWithin, Copies, A.InRange;
    V.EmitIsParsed(src, maxpos, d);
    if d.inst == [] {
      NothingSeen(src, maxpos, d);
    } else {
      var (h1, h2, d1, d2, d3) := V.EmitStep(src, maxpos, d);
      EmitRemembers(src, maxpos, d3);
      V.ParseIgnoresOut(|src|, maxpos, d3, d1.out);
      V.OutputIsApply(h1, src, d1);
      var i1, rest := V.InstOf(h1, d1.data), V.Parse(|src|, maxpos, d3).value.value;
      if h2.None? {
        V.ParseStep(|src|, maxpos, d, h1, h2, d1);
        assert d3.(out := d1.out) == d1.(data := d2.data);
        OneSeen(|src|, maxpos, d, h1, d1, rest);
      } else {
        V.OutputIsApply(h2.value, src, d2);
        V.ParseStep(|src|, maxpos, d, h1, h2, d1);
        assert d3.(out := d1.out) == d1.(data := d3.data);
        TwoSeen(|src|, maxpos, d, h1, h2.value, d1, d2.data, rest);
      }
    }
  }

  lemma NothingSeen(src: seq<byte>, maxpos: nat, d: Dec)
    requires d.Valid() && maxpos <= USIZE_MAX && d.position == |src| + |d.out| && d.inst == []
    ensures Emit(src, maxpos, d) == Ok(d) && V.Parse(|src|, maxpos, d) == Some(Ok([]))
    ensures Copies([], d.position) == [] && A.InRange([]) && A.UpdateAll(d.cache, []) == d.cache
  {
  }

  /** The cache after a half instruction. */
  function CacheAfter(c: A.Cache, h: HInst): A.Cache
    requires c.Valid()
  {
    if h.kind >= CPY then c.Update(h.addr) else c
  }

  lemma HalfSeen(kind: nat, size: nat, cpylen: nat, maxpos: nat, d: Dec)
    requires d.Valid() && ADD <= kind < CPY + MODES && maxpos <= USIZE_MAX
    requires ParseHalf(kind, size, cpylen, maxpos, d).Ok?
    ensures var (h, d') := ParseHalf(kind, size, cpylen, maxpos, d).value;
            d'.cache == CacheAfter(d.cache, h) && d'.position == d.position + h.size
  {
    hide HalfSize, A.Cache.Update;
  }

  lemma InstructionSeen(cpylen: nat, maxpos: nat, d: Dec)
    requires d.Valid() && d.inst != [] && maxpos <= USIZE_MAX && DecodeInstruction(cpylen, maxpos, d).Ok?
    ensures var (h1, h2, d1) := DecodeInstruction(cpylen, maxpos, d).value;
            var c := CacheAfter(d.cache, h1);
            c.Valid() && d1.cache == if h2.Some? then CacheAfter(c, h2.value) else c
  {
    hide ParseHalf, Entry, A.Cache.Update;
    var e, d0 := Entry(d.inst[0]), d.(inst := d.inst[1..]);
    V.EntryKinds(d.inst[0]);
    HalfSeen(e.type1, e.size1, cpylen, maxpos, d0);
    if e.type2 != NOOP {
      HalfSeen(e.type2, e.size2, cpylen, maxpos, ParseHalf(e.type1, e.size1, cpylen, maxpos, d0).value.1);
    }
  }

  /** One instruction in front of copies. */
  lemma CopiesCons(c: A.Cache, h: HInst, data: seq<byte>, rest: seq<Inst>, here: nat)
    requires c.Valid() && V.Supplied(h, data) && (h.kind >= CPY ==> h.addr < here <= USIZE_MAX) && h.kind != NOOP
    requires A.InRange(Copies(rest, here + h.size)) && CacheAfter(c, h).Valid()
    ensures var uses := Copies([V.InstOf(h, data)] + rest, here);
            A.InRange(uses) && A.UpdateAll(c, uses) == A.UpdateAll(CacheAfter(c, h), Copies(rest, here + h.size))
  {
    hide A.Cache.Update;
    var i, more := V.InstOf(h, data), Copies(rest, here + h.size);
    assert ([i] + rest)[0] == i && ([i] + rest)[1..] == rest;
    if h.kind >= CPY {
      assert ([(h.addr, here)] + more)[1..] == more;
    } else {
      assert [] + more == more;
    }
  }

  lemma OneSeen(cpylen: nat, maxpos: nat, d: Dec, h: HInst, d1: Dec, rest: seq<Inst>)
    requires d.Valid() && d.inst != [] && maxpos <= USIZE_MAX
             && DecodeInstruction(cpylen, maxpos, d) == Ok((h, None, d1))
    requires V.Supplied(h, d1.data) && A.InRange(Copies(rest, d1.position))
    ensures var uses := Copies([V.InstOf(h, d1.data)] + rest, d.position);
            A.InRange(uses) && A.UpdateAll(d.cache, uses) == A.UpdateAll(d1.cache, Copies(rest, d1.position))
  {
    hide A.Cache.Update, A.UpdateAll, Copies, DecodeInstruction, A.InRange;
    InstructionSeen(cpylen, maxpos, d);
    CopiesCons(d.cache, h, d1.data, rest, d.position);
  }

  lemma TwoSeen(cpylen: nat, maxpos: nat, d: Dec, h1: HInst, h2: HInst, d1: Dec, data: seq<byte>, rest: seq<Inst>)
    requires d.Valid() && d.inst != [] && maxpos <= USIZE_MAX
    requires DecodeInstruction(cpylen, maxpos, d) == Ok((h1, Some(h2), d1))
    requires V.Supplied(h1, d1.data) && V.Supplied(h2, data) && A.InRange(Copies(rest, d1.position))
    ensures var uses := Copies([V.InstOf(h1, d1.data)] + ([V.InstOf(h2, data)] + rest), d.position);
            A.InRange(uses) && A.UpdateAll(d.cache, uses) == A.UpdateAll(d1.cache, Copies(rest, d1.position))
  {
    hide A.Cache.Update, A.UpdateAll, Copies, DecodeInstruction, A.InRange;
    InstructionSeen(cpylen, maxpos, d);
    CopiesCons(CacheAfter(d.cache, h1), h2, data, rest, d.position + h1.size);
    CopiesCons(d.cache, h1, d1.data, [V.InstOf(h2, data)] + rest, d.position);
  }
}
