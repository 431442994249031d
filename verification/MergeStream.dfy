/** The imperative side of merging: the growing whole state, the command-line fold over several
    deltas, and the whole state built from decoded windows. */
module MergeStream {
  import opened Common
  import opened Delta
  import opened Merge
  import W = WholeWindows
  import V = WindowParse
  import C = CodeTable
  import D = WindowCodec
  import AddressCache

  /** stream->whole_target */
  class Merger {
    var inst: seq<WInst>
    var adds: seq<byte>
    var length: nat
    var wininfo: seq<WinInfo>

    ghost function State(): Whole
      reads this
    {
      Whole(inst, adds, length, wininfo)
    }

    /** xd3_whole_state_init */
    constructor ()
      ensures State() == Whole([], [], 0, [])
    {
      inst, adds, length, wininfo := [], [], 0, [];
    }

    /** xd3_whole_append_inst: the literal bytes come from the data section, without a check. */
    method WholeAppendInst(h: D.HInst, data: seq<byte>, cpyoff: nat, cpylen: nat, winstart: nat)
      returns (rest: seq<byte>)
      requires V.Supplied(h, data)
      modifies this
      ensures State() == W.AppendInst(old(State()), V.InstOf(h, data), cpyoff, cpylen, winstart)
      ensures rest == V.AfterData(h, data)
    {
      var position := length;
      length := length + h.size;
      if h.kind == C.RUN {
        inst := inst + [WInst(RUN, false, h.size, |adds|, position)];
        adds := adds + [data[0]];
        rest := data[1..];
      } else if h.kind < C.CPY {
        inst := inst + [WInst(ADD, false, h.size, |adds|, position)];
        adds := adds + data[..h.size];
        rest := data[h.size..];
      } else {
        assert adds + [] == adds;
        rest := data;
        if h.addr < cpylen {
          inst := inst + [WInst(COPY, true, h.size, cpyoff + h.addr, position)];
        } else {
          inst := inst + [WInst(COPY, false, h.size, winstart + h.addr - cpylen, position)];
        }
      }
    }

    /** xd3_whole_append_window on the sections of a window whose data section is long enough, as
        that of every window that decodes: the parsed instructions are appended, or the first
        parse error is returned. */
    method WholeAppendWindow(instSect: seq<byte>, addrSect: seq<byte>, dataSect: seq<byte>,
                             cpyoff: nat, cpylen: nat, tgtlen: nat, adler32: nat)
      returns (ret: Option<Error>)
      requires cpylen + tgtlen <= USIZE_MAX
      requires V.Parse(cpylen, cpylen + tgtlen, D.Dec(instSect, addrSect, dataSect, D.InitialCache(), cpylen, [])).Some?
      modifies this
      ensures match V.Parse(cpylen, cpylen + tgtlen,
                            D.Dec(instSect, addrSect, dataSect, D.InitialCache(), cpylen, [])).value
              case Err(e) => ret == Some(e)
              case Ok(insts) =>
                && ret == None
                && var info := WinInfo(old(length), tgtlen, adler32);
                   State() == W.AppendInsts(old(State()).(wininfo := old(wininfo) + [info]), insts, cpyoff, cpylen,
                                            old(length))
    {
      hide W.AppendInst, D.DecodeInstruction, V.Supplied, V.InstOf, V.AfterData, D.DefaultCache;
      var winstart, maxpos := length, cpylen + tgtlen;
      wininfo := wininfo + [WinInfo(length, tgtlen, adler32)];
      ghost var start := State();
      var d := D.Dec(instSect, addrSect, dataSect, D.InitialCache(), cpylen, []);
      ghost var all := V.Parse(cpylen, maxpos, d);
      ghost var done: seq<Inst> := [];
      PrefixedNothing(all);
      while d.inst != []
        invariant d.Valid() && V.Parse(cpylen, maxpos, d).Some?
        invariant State() == W.AppendInsts(start, done, cpyoff, cpylen, winstart)
        invariant all == Prefixed(done, V.Parse(cpylen, maxpos, d))
        decreases |d.inst|
      {
        var parsed := D.DecodeInstruction(cpylen, maxpos, d);
        if parsed.Err? {
          return Some(parsed.error);
        }
        var (h1, h2, d1) := parsed.value;
        ghost var i1 := V.InstOf(h1, d1.data);
        var data := WholeAppendInst(h1, d1.data, cpyoff, cpylen, winstart);
        AppendOneMore(start, done, i1, cpyoff, cpylen, winstart);
        ghost var rest := if h2.None? then V.Parse(cpylen, maxpos, d1.(data := data))
                          else
                            V.Cons(V.InstOf(h2.value, data),
                                   V.Parse(cpylen, maxpos, d1.(data := V.AfterData(h2.value, data))));
        PrefixedNext(done, i1, rest);
        done := done + [i1];
        if h2.Some? {
          ghost var i2 := V.InstOf(h2.value, data);
          ghost var more := V.Parse(cpylen, maxpos, d1.(data := V.AfterData(h2.value, data)));
          data := WholeAppendInst(h2.value, data, cpyoff, cpylen, winstart);
          AppendOneMore(start, done, i2, cpyoff, cpylen, winstart);
          PrefixedNext(done, i2, more);
          done := done + [i2];
        }
        d := d1.(data := data);
      }
      assert done + [] == done;
      ret := None;
    }

    /** xd3_merge_run */
    method MergeRun(target: Whole, iinst: WInst)
      requires iinst.kind == RUN && iinst.addr < |target.adds|
      modifies this
      ensures State()
              == Append(old(State()), iinst.(addr := old(|adds|), position := old(length)), [target.adds[iinst.addr]])
                         .(length := old(length) + iinst.size)
    {
      inst := inst + [iinst.(addr := |adds|, position := length)];
      length := length + iinst.size;
      adds := adds + [target.adds[iinst.addr]];
    }

    /** xd3_merge_add */
    method MergeAdd(target: Whole, iinst: WInst)
      requires iinst.kind == ADD && iinst.addr + iinst.size <= |target.adds|
      modifies this
      ensures State() == Append(old(State()), iinst.(addr := old(|adds|), position := old(length)),
                                target.adds[iinst.addr..iinst.addr + iinst.size])
                         .(length := old(length) + iinst.size)
    {
      inst := inst + [iinst.(addr := |adds|, position := length)];
      length := length + iinst.size;
      adds := adds + target.adds[iinst.addr..iinst.addr + iinst.size];
    }

    /** xd3_merge_target_copy */
    method MergeTargetCopy(iinst: WInst)
      modifies this
      ensures State() == Append(old(State()), iinst, [])
    {
      inst := inst + [iinst];
      assert adds == adds + [];
    }

    /** xd3_merge_source_copy */
    method MergeSourceCopy(source: Whole, ghost srclen: nat, iinst: WInst) returns (ret: Option<Error>)
      requires WellFormed(source, srclen) && iinst.size > 0 && Resolvable(iinst.addr, iinst.size, source.length)
      modifies this`inst, this`adds
      ensures iinst.addr >= source.length ==> ret == Some(InvalidInput) && State() == old(State())
      ensures iinst.addr < source.length ==>
              ret == None && State() == SourceCopy(old(State()), source, srclen, iinst.addr, iinst.size, iinst.position)
      decreases iinst.addr + iinst.size
    {
      var found := FindPosition(source.inst, source.length, iinst.addr);
      if found.Err? {
        return Some(found.error);
      }
      var k: nat := found.value;
      ret := None;
      var addr: nat, size: nat, position: nat := iinst.addr, iinst.size, iinst.position;
      while size > 0
        invariant addr + size == iinst.addr + iinst.size <= source.length
        invariant size > 0 ==> Holds(source.inst, k, addr)
        invariant CopyLoop(State(), source, srclen, addr, size, position, k)
               == SourceCopy(old(State()), source, srclen, iinst.addr, iinst.size, iinst.position)
        decreases size
      {
        var sinst := source.inst[k];
        var off := addr - sinst.position;
        var take := Min(size, sinst.size - off);
        assert sinst.InRange(|source.adds|, srclen);
        NextIfAny(source, srclen, k, addr + take, size - take);
        if sinst.kind == COPY && !sinst.fromSource {
          var nested := MergeSourceCopy(source, srclen, WInst(COPY, true, take, sinst.addr + off, position));
          assert nested == None;
        } else {
          AppendPiece(source, sinst, off, take, position);
        }
        addr, size, position, k := addr + take, size - take, position + take, k + 1;
      }
    }

    /** The cases of xd3_merge_source_copy that emit an instruction of their own. */
    method AppendPiece(source: Whole, sinst: WInst, off: nat, take: nat, position: nat)
      requires sinst.kind != COPY || sinst.fromSource
      requires sinst.kind == RUN ==> sinst.addr < |source.adds|
      requires sinst.kind == ADD ==> sinst.addr + off + take <= |source.adds|
      modifies this`inst, this`adds
      ensures State() == PieceOf(old(State()), sinst, source.adds, off, take, position)
    {
      match sinst.kind {
        case RUN =>
          inst := inst + [WInst(RUN, false, take, |adds|, position)];
          adds := adds + [source.adds[sinst.addr]];
        case ADD =>
          inst := inst + [WInst(ADD, false, take, |adds|, position)];
          adds := adds + source.adds[sinst.addr + off..sinst.addr + off + take];
        case COPY =>
          inst := inst + [WInst(COPY, true, take, sinst.addr + off, position)];
          assert adds == adds + [];
      }
    }

    /** xd3_merge_inputs */
    method MergeInputs(source: Whole, ghost srclen: nat, input: Whole) returns (ret: Option<Error>)
      requires WellFormed(source, srclen) && Mergeable(input.inst, |input.adds|, source.length)
      requires State() == Whole([], [], 0, [])
      modifies this
      ensures match Merge.MergeInputs(source, srclen, input)
              case Ok(w) => ret == None && State() == w
              case Err(e) => ret == Some(e)
    {
      for i := 0 to |input.wininfo|
        invariant State() == Whole([], [], 0, input.wininfo[..i])
      {
        wininfo := wininfo + [input.wininfo[i]];
      }
      assert wininfo == input.wininfo;
      var k := 0;
      assert input.inst[0..] == input.inst;
      while k < |input.inst|
        invariant 0 <= k <= |input.inst|
        invariant MergeInsts(State(), source, srclen, input.inst[k..], input.adds)
               == Merge.MergeInputs(source, srclen, input)
      {
        hide MergeInst, SourceCopy;
        var iinst := input.inst[k];
        assert input.inst[k..][0] == iinst && input.inst[k..][1..] == input.inst[k + 1..];
        ghost var before := State();
        ret := MergeOne(source, srclen, input, iinst);
        if ret.Some? {
          return;
        }
        k := k + 1;
      }
      ret := None;
    }

    /** The switch of xd3_merge_inputs. */
    method MergeOne(source: Whole, ghost srclen: nat, input: Whole, iinst: WInst) returns (ret: Option<Error>)
      requires WellFormed(source, srclen) && Mergeable([iinst], |input.adds|, source.length)
      modifies this
      ensures iinst.size > 0
      ensures iinst.kind == RUN ==> iinst.addr < |input.adds|
      ensures iinst.kind == ADD ==> iinst.addr + iinst.size <= |input.adds|
      ensures iinst.kind == COPY && iinst.fromSource ==> Resolvable(iinst.addr, iinst.size, source.length)
      ensures match MergeInst(old(State()), source, srclen, iinst, input.adds)
              case Ok(w) => ret == None && State() == w
              case Err(e) => ret == Some(e)
    {
      assert [iinst][0] == iinst;
      ret := None;
      match iinst.kind {
        case RUN =>
          MergeRun(input, iinst);
        case ADD =>
          MergeAdd(input, iinst);
        case COPY =>
          if iinst.fromSource {
            ret := MergeSourceCopy(source, srclen, iinst);
          } else {
            MergeTargetCopy(iinst);
          }
          length := length + iinst.size;
      }
    }
  }

  /** A parse result with instructions in front. */
  ghost function Prefixed(front: seq<Inst>, rest: Option<Result<seq<Inst>>>): Option<Result<seq<Inst>>> {
    match rest
    case Some(Ok(more)) => Some(Ok(front + more))
    case _ => rest
  }

  lemma PrefixedNothing(rest: Option<Result<seq<Inst>>>)
    ensures Prefixed([], rest) == rest
  {
    match rest {
      case Some(Ok(more)) => assert [] + more == more;
      case _ =>
    }
  }

  lemma PrefixedNext(front: seq<Inst>, i: Inst, rest: Option<Result<seq<Inst>>>)
    ensures Prefixed(front, V.Cons(i, rest)) == Prefixed(front + [i], rest)
  {
    match rest {
      case Some(Ok(more)) => assert front + ([i] + more) == front + [i] + more;
      case _ =>
    }
  }

  lemma {:induction false} AppendOneMore(w: Whole, insts: seq<Inst>, i: Inst, cpyoff: nat, cpylen: nat, winstart: nat)
    ensures W.AppendInsts(w, insts + [i], cpyoff, cpylen, winstart)
         == W.AppendInst(W.AppendInsts(w, insts, cpyoff, cpylen, winstart), i, cpyoff, cpylen, winstart)
    decreases |insts|
  {
    if insts == [] {
      assert (insts + [i])[1..] == [];
    } else {
      assert (insts + [i])[0] == insts[0] && (insts + [i])[1..] == insts[1..] + [i];
      AppendOneMore(W.AppendInst(w, insts[0], cpyoff, cpylen, winstart), insts[1..], i, cpyoff, cpylen, winstart);
    }
  }

  /** A window that decodes, without empty instructions, is read in full: what is appended is a
      valid window with the meaning of the decoded one. */
  lemma DecodedIsAppended(instSect: seq<byte>, addrSect: seq<byte>, dataSect: seq<byte>, s: seq<byte>,
                          cpyoff: nat, cpylen: nat, tgtlen: nat, adler32: nat, w: Whole)
    requires cpyoff + cpylen <= |s| && cpylen + tgtlen <= USIZE_MAX
    requires D.DecodeWindow(instSect, addrSect, dataSect, s[cpyoff..cpyoff + cpylen], tgtlen).Ok?
    ensures var r := V.Parse(cpylen, cpylen + tgtlen,
                             D.Dec(instSect, addrSect, dataSect, D.InitialCache(), cpylen, []));
            && r.Some? && r.value.Ok?
            && (V.Positive(r.value.value) ==>
                  var win := W.Window(cpyoff, cpylen, r.value.value);
                  && win.Valid(|s|)
                  && Apply(win.insts, win.Source(s), [])
                     == D.DecodeWindow(instSect, addrSect, dataSect, s[cpyoff..cpyoff + cpylen], tgtlen).value
                  && W.AppendInsts(w.(wininfo := w.wininfo + [WinInfo(w.length, tgtlen, adler32)]),
                                   win.insts, cpyoff, cpylen, w.length)
                     == W.AppendWindow(w, win, adler32))
  {
    hide V.Parse, W.AppendInsts, AllApplicable, D.DecodeWindow, V.Positive, Apply, AddressCache.Init, D.DefaultCache;
    var src := s[cpyoff..cpyoff + cpylen];
    V.WindowIsParsed(instSect, addrSect, dataSect, src, tgtlen);
    DecodedLength(instSect, addrSect, dataSect, src, tgtlen);
  }

  lemma DecodedLength(instSect: seq<byte>, addrSect: seq<byte>, dataSect: seq<byte>, src: seq<byte>, tgtlen: nat)
    requires |src| + tgtlen <= USIZE_MAX && D.DecodeWindow(instSect, addrSect, dataSect, src, tgtlen).Ok?
    ensures |D.DecodeWindow(instSect, addrSect, dataSect, src, tgtlen).value| == tgtlen
  {
    hide D.Emit;
  }

  // ------------------------------------------------- several deltas

  /** Each delta fits the target of the one before it. */
  ghost predicate Chain(ds: seq<Whole>, srclen: nat)
    decreases |ds|
  {
    ds == [] || (WellFormed(ds[0], srclen) && Chain(ds[1..], ds[0].length))
  }

  /** The deltas applied one after the other. */
  ghost function ApplyAll(ds: seq<Whole>, s: seq<byte>): seq<byte>
    requires Chain(ds, |s|)
    decreases |ds|
  {
    if ds == [] then s else ApplyAll(ds[1..], Target(ds[0], s))
  }

  lemma {:induction false} ChainAt(ds: seq<Whole>, s: seq<byte>, k: nat)
    requires Chain(ds, |s|) && k < |ds|
    ensures Chain(ds[..k], |s|) && WellFormed(ds[k], |ApplyAll(ds[..k], s)|)
    ensures Chain(ds[..k + 1], |s|)
    ensures ApplyAll(ds[..k + 1], s) == Target(ds[k], ApplyAll(ds[..k], s))
    decreases |ds|
  {
    if k == 0 {
      assert ds[..0] == [] && ds[..1][0] == ds[0] && ds[..1][1..] == [];
    } else {
      ChainAt(ds[1..], Target(ds[0], s), k - 1);
      assert ds[..k][0] == ds[0] && ds[..k][1..] == ds[1..][..k - 1];
      assert ds[..k + 1][0] == ds[0] && ds[..k + 1][1..] == ds[1..][..k];
    }
  }

  /** The fold of main_merge_arguments with the last step of main_merge_output: each further
      delta is merged with the result so far.  The result does to any source what the deltas do
      to it one after the other. */
  method MergeAll(ds: seq<Whole>, ghost srclen: nat) returns (merged: Whole)
    requires ds != [] && Chain(ds, srclen)
    ensures WellFormed(merged, srclen)
    ensures forall s: seq<byte> :: |s| == srclen ==> Target(merged, s) == ApplyAll(ds, s)
  {
    merged := ds[0];
    ghost var any: seq<byte> := Repeat(0, srclen);
    assert ds[..1][0] == ds[0] && ds[..1][1..] == [];
    var k := 1;
    while k < |ds|
      invariant 1 <= k <= |ds| && Chain(ds[..k], srclen) && WellFormed(merged, srclen)
      invariant forall s: seq<byte> :: |s| == srclen ==> Target(merged, s) == ApplyAll(ds[..k], s)
    {
      hide WellFormed, Target, Chain, ApplyAll;
      ChainAt(ds, any, k);
      assert WellFormed(ds[k], merged.length);
      var stream := new Merger();
      MergeIsComposition(merged, ds[k], any);
      var ret := stream.MergeInputs(merged, srclen, ds[k]);
      ghost var next := Merge.MergeInputs(merged, srclen, ds[k]).value;
      forall s: seq<byte> | |s| == srclen
        ensures Target(next, s) == ApplyAll(ds[..k + 1], s)
      {
        ChainAt(ds, s, k);
        MergeIsComposition(merged, ds[k], s);
      }
      merged := Whole(stream.inst, stream.adds, stream.length, stream.wininfo);
      k := k + 1;
    }
    assert ds[..k] == ds;
  }
}
