/** A window read without being executed, as the merge does it: half instructions are parsed with
    all checks of the decoder, and literals are taken from the data section without a check. */
module WindowParse {
  import opened Common
  import opened Delta
  import opened CodeTable
  import opened WindowCodec
  import AddressCache

  /** The data section holds what the half instruction takes. */
  predicate Supplied(h: HInst, data: seq<byte>) {
    if h.kind == RUN then |data| > 0 else h.kind < CPY ==> h.size <= |data|
  }

  /** The instruction that a half instruction and its data stand for. */
  function InstOf(h: HInst, data: seq<byte>): (i: Inst)
    requires Supplied(h, data)
    ensures i.Size() == h.size
  {
    if h.kind == RUN then Run(data[0], h.size)
    else if h.kind < CPY then Add(data[..h.size])
    else Copy(h.addr, h.size)
  }

  function AfterData(h: HInst, data: seq<byte>): seq<byte>
    requires Supplied(h, data)
  {
    if h.kind == RUN then data[1..] else if h.kind < CPY then data[h.size..] else data
  }

  /** The instructions of a window; nothing if the data section is too short for them. */
  function Parse(cpylen: nat, maxpos: nat, d: Dec): Option<Result<seq<Inst>>>
    requires d.Valid() && maxpos <= USIZE_MAX
    decreases |d.inst|
  {
    if d.inst == [] then Some(Ok([]))
    else
      match DecodeInstruction(cpylen, maxpos, d)
      case Err(e) => Some(Err(e))
      case Ok((h1, h2, d1)) =>
        if !Supplied(h1, d1.data) then None
        else
          var data := AfterData(h1, d1.data);
          if h2.None? then Cons(InstOf(h1, d1.data), Parse(cpylen, maxpos, d1.(data := data)))
          else if !Supplied(h2.value, data) then None
          else
            var rest := Parse(cpylen, maxpos, d1.(data := AfterData(h2.value, data)));
            Cons(InstOf(h1, d1.data), Cons(InstOf(h2.value, data), rest))
  }

  function Cons(i: Inst, rest: Option<Result<seq<Inst>>>): Option<Result<seq<Inst>>> {
    match rest
    case Some(Ok(more)) => Some(Ok([i] + more))
    case _ => rest
  }

  /** No instruction is empty. */
  ghost predicate Positive(insts: seq<Inst>) {
    forall k :: 0 <= k < |insts| ==> insts[k].Size() > 0
  }

  /** Executing a half instruction is applying its instruction. */
  lemma OutputIsApply(h: HInst, src: seq<byte>, d: Dec)
    requires h.Within(|src|) && (h.kind >= CPY ==> h.addr < |src| + |d.out|) && OutputHalf(h, src, d).Ok?
    ensures Supplied(h, d.data)
    ensures h.size > 0 ==> Applicable(InstOf(h, d.data), |src|, |d.out|)
    ensures var r := OutputHalf(h, src, d).value;
            r.data == AfterData(h, d.data) && (h.size > 0 ==> r.out == ApplyInst(InstOf(h, d.data), src, d.out))
  {
  }

  /** Parsing does not look at the output. */
  lemma DecodeIgnoresOut(cpylen: nat, maxpos: nat, d: Dec, out: seq<byte>)
    requires d.Valid() && d.inst != [] && maxpos <= USIZE_MAX
    ensures var r, r' := DecodeInstruction(cpylen, maxpos, d), DecodeInstruction(cpylen, maxpos, d.(out := out));
            && r.Ok? == r'.Ok? && (r.Err? ==> r == r')
            && (r.Ok? ==> r'.value == (r.value.0, r.value.1, r.value.2.(out := out)))
  {
    hide ParseHalf, Entry, DefaultCache;
    var e, d0 := Entry(d.inst[0]), d.(inst := d.inst[1..]);
    EntryKinds(d.inst[0]);
    HalfIgnoresOut(e.type1, e.size1, cpylen, maxpos, d0, out);
    var r := ParseHalf(e.type1, e.size1, cpylen, maxpos, d0);
    if r.Ok? && e.type2 != NOOP {
      HalfIgnoresOut(e.type2, e.size2, cpylen, maxpos, r.value.1, out);
    }
  }

  lemma HalfIgnoresOut(kind: nat, size: nat, cpylen: nat, maxpos: nat, d: Dec, out: seq<byte>)
    requires d.Valid() && ADD <= kind < CPY + MODES && maxpos <= USIZE_MAX
    ensures var r := ParseHalf(kind, size, cpylen, maxpos, d);
            var r' := ParseHalf(kind, size, cpylen, maxpos, d.(out := out));
            if r.Err? then r' == r else r' == Ok((r.value.0, r.value.1.(out := out)))
  {
    hide AddressCache.Cache.Decode, HalfSize;
  }

  lemma EntryKinds(code: byte)
    ensures ADD <= Entry(code).type1 < CPY + MODES
    ensures Entry(code).type2 == NOOP || ADD <= Entry(code).type2 < CPY + MODES
  {
  }

  lemma {:induction false} ParseIgnoresOut(cpylen: nat, maxpos: nat, d: Dec, out: seq<byte>)
    requires d.Valid() && maxpos <= USIZE_MAX
    ensures Parse(cpylen, maxpos, d) == Parse(cpylen, maxpos, d.(out := out))
    decreases |d.inst|
  {
    hide DecodeInstruction, InstOf, AfterData, Supplied;
    if d.inst != [] {
      DecodeIgnoresOut(cpylen, maxpos, d, out);
      var r := DecodeInstruction(cpylen, maxpos, d);
      if r.Ok? {
        var (h1, h2, d1) := r.value;
        if Supplied(h1, d1.data) {
          var data := AfterData(h1, d1.data);
          if h2.None? {
            ParseIgnoresOut(cpylen, maxpos, d1.(data := data), out);
          } else if Supplied(h2.value, data) {
            ParseIgnoresOut(cpylen, maxpos, d1.(data := AfterData(h2.value, data)), out);
          }
        }
      }
    }
  }

  /** Copies that start in the source window end there. */
  ghost predicate AllWithin(insts: seq<Inst>, cpylen: nat) {
    forall k :: 0 <= k < |insts| && insts[k].Copy? && insts[k].addr < cpylen ==>
      insts[k].addr + insts[k].length <= cpylen
  }

  /** What a window executes is what it parses to: a window that decodes is read in full, and its
      instructions mean what decoding writes. */
  lemma {:induction false} EmitIsParsed(src: seq<byte>, maxpos: nat, d: Dec)
    requires d.Valid() && maxpos <= USIZE_MAX && d.position == |src| + |d.out| && Emit(src, maxpos, d).Ok?
    ensures var r := Parse(|src|, maxpos, d);
            && r.Some? && r.value.Ok? && AllWithin(r.value.value, |src|)
            && (Positive(r.value.value) ==>
                  && AllApplicable(r.value.value, |src|, |d.out|)
                  && Apply(r.value.value, src, d.out) == Emit(src, maxpos, d).value.out)
    decreases |d.inst|
  {
    hide DecodeInstruction, OutputHalf, InstOf, AfterData, Supplied, DefaultCache, Emit, Parse, Apply, AllApplicable;
    hide AllWithin, Positive;
    if d.inst == [] {
      NothingParsed(src, maxpos, d);
    } else {
      var (h1, h2, d1, d2, d3) := EmitStep(src, maxpos, d);
      EmitIsParsed(src, maxpos, d3);
      ParseIgnoresOut(|src|, maxpos, d3, d1.out);
      OutputIsApply(h1, src, d1);
      WithinInst(h1, d1.data, |src|);
      var i1, rest := InstOf(h1, d1.data), Parse(|src|, maxpos, d3).value.value;
      if h2.None? {
        ParseStep(|src|, maxpos, d, h1, h2, d1);
        assert d3.(out := d1.out) == d1.(data := d2.data);
        ConsMeaning(i1, rest, src, d.out, d2.out);
      } else {
        OutputIsApply(h2.value, src, d2);
        WithinInst(h2.value, d2.data, |src|);
        ParseStep(|src|, maxpos, d, h1, h2, d1);
        assert d3.(out := d1.out) == d1.(data := d3.data);
        var i2 := InstOf(h2.value, d2.data);
        ConsMeaning(i2, rest, src, d2.out, d3.out);
        ConsMeaning(i1, [i2] + rest, src, d.out, d2.out);
      }
    }
  }

  lemma NothingParsed(src: seq<byte>, maxpos: nat, d: Dec)
    requires d.Valid() && maxpos <= USIZE_MAX && d.position == |src| + |d.out| && d.inst == []
    ensures Emit(src, maxpos, d) == Ok(d) && Parse(|src|, maxpos, d) == Some(Ok([])) && AllWithin([], |src|)
    ensures AllApplicable([], |src|, |d.out|) && Apply([], src, d.out) == d.out
  {
  }

  /** One round of executing: the half instructions and the states after each of them. */
  ghost function EmitStep(src: seq<byte>, maxpos: nat, d: Dec): (r: (HInst, Option<HInst>, Dec, Dec, Dec))
    requires d.Valid() && maxpos <= USIZE_MAX && d.position == |src| + |d.out| && d.inst != []
    requires Emit(src, maxpos, d).Ok?
    ensures var (h1, h2, d1, d2, d3) := r;
            && DecodeInstruction(|src|, maxpos, d) == Ok((h1, h2, d1)) && d1.out == d.out
            && h1.Within(|src|) && (h1.kind >= CPY ==> h1.addr < |src| + |d1.out|) && OutputHalf(h1, src, d1) == Ok(d2)
            && (h2.None? ==> d3 == d2)
            && (h2.Some? ==> h2.value.Within(|src|) && (h2.value.kind >= CPY ==> h2.value.addr < |src| + |d2.out|)
                             && OutputHalf(h2.value, src, d2) == Ok(d3))
            && d3.Valid() && |d3.inst| < |d.inst| && d3.position == |src| + |d3.out|
            && Emit(src, maxpos, d) == Emit(src, maxpos, d3)
  {
    hide DecodeInstruction, OutputHalf, DefaultCache;
    var (h1, h2, d1) := DecodeInstruction(|src|, maxpos, d).value;
    var d2 := OutputHalf(h1, src, d1).value;
    (h1, h2, d1, d2, if h2.Some? then OutputHalf(h2.value, src, d2).value else d2)
  }

  /** One round of parsing. */
  lemma ParseStep(cpylen: nat, maxpos: nat, d: Dec, h1: HInst, h2: Option<HInst>, d1: Dec)
    requires d.Valid() && maxpos <= USIZE_MAX && d.inst != []
    requires DecodeInstruction(cpylen, maxpos, d) == Ok((h1, h2, d1)) && Supplied(h1, d1.data)
    requires h2.Some? ==> Supplied(h2.value, AfterData(h1, d1.data))
    ensures var data := AfterData(h1, d1.data);
            Parse(cpylen, maxpos, d) == Cons(InstOf(h1, d1.data),
              if h2.None? then Parse(cpylen, maxpos, d1.(data := data))
              else Cons(InstOf(h2.value, data), Parse(cpylen, maxpos, d1.(data := AfterData(h2.value, data)))))
  {
    hide DecodeInstruction, InstOf, AfterData, Supplied;
  }

  lemma WithinInst(h: HInst, data: seq<byte>, cpylen: nat)
    requires h.Within(cpylen) && Supplied(h, data)
    ensures var i := InstOf(h, data); i.Copy? && i.addr < cpylen ==> i.addr + i.length <= cpylen
  {
  }

  /** An instruction in front of a list. */
  lemma ConsMeaning(i: Inst, rest: seq<Inst>, src: seq<byte>, out: seq<byte>, next: seq<byte>)
    requires AllWithin(rest, |src|) && (i.Copy? && i.addr < |src| ==> i.addr + i.length <= |src|)
    requires i.Size() > 0 ==> Applicable(i, |src|, |out|) && next == ApplyInst(i, src, out)
    ensures AllWithin([i] + rest, |src|)
    ensures Positive([i] + rest) ==> i.Size() > 0 && Positive(rest)
    ensures i.Size() > 0 && AllApplicable(rest, |src|, |next|) ==>
              AllApplicable([i] + rest, |src|, |out|) && Apply([i] + rest, src, out) == Apply(rest, src, next)
  {
    hide ApplyInst, Applicable, Positive, AllWithin;
    assert ([i] + rest)[0] == i && ([i] + rest)[1..] == rest;
    ConsWithin(i, rest, |src|);
    if Positive([i] + rest) {
      ConsPositive(i, rest);
    }
  }

  lemma ConsPositive(i: Inst, rest: seq<Inst>)
    requires Positive([i] + rest)
    ensures i.Size() > 0 && Positive(rest)
  {
    assert ([i] + rest)[0] == i;
    forall k | 0 <= k < |rest| ensures rest[k].Size() > 0 {
      assert ([i] + rest)[k + 1].Size() > 0;
    }
  }

  lemma ConsWithin(i: Inst, rest: seq<Inst>, cpylen: nat)
    requires AllWithin(rest, cpylen) && (i.Copy? && i.addr < cpylen ==> i.addr + i.length <= cpylen)
    ensures AllWithin([i] + rest, cpylen)
  {
    assert forall k :: 0 < k < |[i] + rest| ==> ([i] + rest)[k] == rest[k - 1];
  }

  /** The whole window. */
  lemma WindowIsParsed(inst: seq<byte>, addr: seq<byte>, data: seq<byte>, src: seq<byte>, tgtlen: nat)
    requires |src| + tgtlen <= USIZE_MAX && DecodeWindow(inst, addr, data, src, tgtlen).Ok?
    ensures var r := Parse(|src|, |src| + tgtlen, Dec(inst, addr, data, InitialCache(), |src|, []));
            && r.Some? && r.value.Ok? && AllWithin(r.value.value, |src|)
            && (Positive(r.value.value) ==>
                  && AllApplicable(r.value.value, |src|, 0)
                  && Apply(r.value.value, src, []) == DecodeWindow(inst, addr, data, src, tgtlen).value)
  {
    hide Emit, Parse, AddressCache.Init, Apply;
    EmitIsParsed(src, |src| + tgtlen, Dec(inst, addr, data, InitialCache(), |src|, []));
  }
}
