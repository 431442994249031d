/** The decoder as it runs: xd3_decode_input takes what input there is, returns for more input,
    for a source block or with a window, and takes up where it stopped.  Models the state
    machine of xdelta3-decode.h and the driver of delta.c. */
module StreamDecoder {
  import opened Common
  import opened BitStream
  import opened SourceBlocks
  import opened StreamFormat
  import opened WindowEmitter
  import Checksums

  datatype Code = NeedInput | GetSrcBlock | GotOutput | GotHeader | WinStart | WinFinish | Error(error: Common.Error)

  // ---------------------------------------------------------------- one field at a time

  /** The whole state is determined by what was taken in. */
  lemma TakeMore(c: Config, s: State, input: seq<byte>, from: nat, mid: nat, to: nat)
    requires from <= mid <= to <= |input|
    ensures FeedAll(c, s, input[from..to]) == FeedAll(c, FeedAll(c, s, input[from..mid]), input[mid..to])
  {
    assert input[from..to] == input[from..mid] + input[mid..to];
    FeedAppend(c, s, input[from..mid], input[mid..to]);
  }

  lemma TakeByte(c: Config, s: State, input: seq<byte>, from: nat, at: nat)
    requires from <= at < |input|
    ensures FeedAll(c, s, input[from..at + 1]) == Feed(c, FeedAll(c, s, input[from..at]), input[at])
  {
    TakeMore(c, s, input, from, at, at + 1);
    assert input[at..at + 1] == [input[at]];
    FeedOne(c, FeedAll(c, s, input[from..at]), input[at]);
  }

  /** What reading a field from position `from` comes to: everything up to `to` is taken, and
      the field is either incomplete, complete with a value, or wrong. */
  datatype Reading = Incomplete(got: seq<byte>, part: nat) | Complete(v: nat, bs: seq<byte>)
    | Wrong(error: Common.Error)

  ghost predicate Reads(c: Config, s: State, input: seq<byte>, from: nat, to: nat, r: Reading) {
    && from <= to <= |input| && s.phase.Running?
    && var t := FeedAll(c, s, input[from..to]);
       match r
       case Incomplete(got, part) => to == |input| && t == State(Running(s.phase.step, s.phase.f, got, part), s.out)
       case Complete(v, bs) => t == Settle(c, Act(c, s.phase.step, s.phase.f, v, bs, s.out))
       case Wrong(e) => t == State(Failed(e), s.out)
  }

  /** A state between calls: the partial field fits the step. */
  ghost predicate Partial(s: State) {
    && s.phase.Running?
    && match ItemOf(s.phase.step, s.phase.f)
       case Bytes(n) => |s.phase.got| < n && s.phase.part == 0
       case Number(_) => s.phase.got == []
       case _ => s.phase.got == [] && s.phase.part == 0
  }

  /** xd3_decode_byte */
  method ReadByte(input: seq<byte>, pos: nat, ghost c: Config, ghost s: State) returns (to: nat, r: Reading)
    requires pos <= |input| && Partial(s) && ItemOf(s.phase.step, s.phase.f) == OneByte
    ensures Reads(c, s, input, pos, to, r) && (r.Incomplete? ==> r.got == s.phase.got && r.part == s.phase.part)
    ensures r.Incomplete? || pos < to
  {
    hide Settle, Act;
    if pos == |input| {
      assert input[pos..pos] == [];
      return pos, Incomplete([], 0);
    }
    TakeByte(c, s, input, pos, pos);
    assert input[pos..pos] == [];
    return pos + 1, Complete(input[pos], []);
  }

  /** xd3_decode_bytes: the loop takes what there is until the field is full. */
  method ReadBytes(input: seq<byte>, pos: nat, got: seq<byte>, n: nat, ghost c: Config, ghost s: State)
    returns (to: nat, r: Reading)
    requires pos <= |input| && Partial(s) && ItemOf(s.phase.step, s.phase.f) == Bytes(n) && s.phase.got == got
    ensures Reads(c, s, input, pos, to, r) && (r.Incomplete? ==> |r.got| < n && r.part == 0)
    ensures pos <= to && (r.Incomplete? || pos < to) && !r.Wrong?
    ensures r.Complete? ==> |r.bs| == n && r.v == 0
  {
    hide Settle, Act;
    var buf := got;
    to := pos;
    assert input[pos..pos] == [];
    while |buf| < n
      invariant pos <= to <= |input| && buf == got + input[pos..to] && |buf| <= n
    {
      if to == |input| {
        FeedBytes(c, s, input[pos..to], n);
        return to, Incomplete(buf, 0);
      }
      var take := Min(n - |buf|, |input| - to);
      assert input[pos..to] + input[to..to + take] == input[pos..to + take];
      buf := buf + input[to..to + take];
      to := to + take;
    }
    FeedBytes(c, s, input[pos..to], n);
    r := Complete(0, buf);
  }

  /** xd3_decode_uint32_t and xd3_decode_uint64_t: the digits so far are kept between calls. */
  method ReadNumber(input: seq<byte>, pos: nat, part: nat, limit: nat, ghost c: Config, ghost s: State)
    returns (to: nat, r: Reading)
    requires pos <= |input| && Partial(s) && ItemOf(s.phase.step, s.phase.f) == Number(limit) && s.phase.part == part
    ensures Reads(c, s, input, pos, to, r) && (r.Incomplete? ==> r.got == [])
    ensures r.Incomplete? || pos < to
    ensures r.Complete? ==> r.v < 128 * limit && r.bs == []
  {
    hide Settle, Act, FeedAll, ItemOf;
    NothingFed(c, s, input, pos);
    var val: nat := part;
    to := pos;
    assert input[pos..pos] == [];
    while to != |input|
      invariant pos <= to <= |input|
      invariant FeedAll(c, s, input[pos..to]) == State(Running(s.phase.step, s.phase.f, [], val), s.out)
    {
      var next := input[to];
      TakeByte(c, s, input, pos, to);
      to := to + 1;
      if val >= limit {
        return to, Wrong(InvalidInput);
      }
      val := val * 128 + next % 128;
      if next < 128 {
        return to, Complete(val, []);
      }
    }
    r := Incomplete([], val);
  }

  /** xd3_decode_section: without a copy if all that remains of the window is in the input. */
  method ReadSection(input: seq<byte>, pos: nat, got: seq<byte>, size: nat, copy: bool, ghost c: Config, ghost s: State)
    returns (to: nat, r: Reading)
    requires pos <= |input| && Partial(s) && ItemOf(s.phase.step, s.phase.f) == Bytes(size) && s.phase.got == got
    requires !copy ==> size - |got| <= |input| - pos
    ensures Reads(c, s, input, pos, to, r) && (r.Incomplete? ==> |r.got| < size && r.part == 0 && copy)
    ensures pos <= to && (r.Incomplete? || pos < to) && !r.Wrong?
    ensures r.Complete? ==> |r.bs| == size && r.v == 0 && |got| + (to - pos) == size
    ensures r.Incomplete? ==> |r.got| == |got| + (to - pos)
  {
    hide Settle, Act;
    if pos == |input| {
      assert input[pos..pos] == [] && got + [] == got;
      FeedBytes(c, s, [], size);
      return pos, Incomplete(got, 0);
    }
    var sectTake: nat;
    var buf: seq<byte>;
    if !copy && got == [] {
      sectTake := size;
      buf := input[pos..pos + size];
      assert got + buf == buf;
    } else {
      sectTake := Min(size - |got|, |input| - pos);
      buf := got + input[pos..pos + sectTake];
    }
    to := pos + sectTake;
    FeedBytes(c, s, input[pos..to], size);
    r := if |got| + sectTake < size then Incomplete(buf, 0) else Complete(0, buf);
  }

  // ---------------------------------------------------------------- the stream

  /** Bytes of the window's sections taken in so far (dec_winbytes). */
  function Taken(step: Step, f: Fields, got: seq<byte>): nat {
    match step
    case DataSect => |got|
    case InstSect => f.dataSize + |got|
    case AddrSect => f.dataSize + f.instSize + |got|
    case EmitWin => f.dataSize + f.instSize + f.addrSize
    case _ => 0
  }

  /** What the header has established. */
  predicate Checked(step: Step, f: Fields) {
    10 <= Rank(step) <= 18 ==> f.cpylen + f.tgtlen <= USIZE_MAX
  }

  class Stream {
    ghost const cfg: Config
    const shiftby: nat
    // fields of xd3_stream
    var step: Step
    var f: Fields
    var got: seq<byte>
    var part: nat
    var input: seq<byte>
    var pos: nat
    var winbytes: nat
    var nextOut: seq<byte>
    var emitter: Emitter?
    // xd3_source between windows
    var curblkno: Option<nat>
    var curblk: seq<byte>
    ghost var written: seq<byte>

    /** The state of the automaton. */
    ghost function Abs(): State
      reads this
    {
      State(Running(step, f, got, part), written)
    }

    /** Up to steps that need no input. */
    ghost function Norm(): State
      reads this
    {
      Settle(cfg, Abs())
    }

    ghost predicate Plain()
      reads this
    {
      && shiftby == cfg.shiftby && pos <= |input| && Partial(Abs()) && Checked(step, f)
      && winbytes == Taken(step, f, got)
      && (curblkno.Some? ==> curblk == Block(cfg.file, Pow2(shiftby), curblkno.value))
    }

    /** An emitter in use belongs to the current window. */
    ghost predicate Emitting()
      reads this, emitter
    {
      emitter != null ==>
        && step == EmitWin && emitter.Valid() && emitter.seg == SegmentOf(cfg, f) && emitter.seg.Fits()
        && emitter.shiftby == shiftby && emitter.cpylen == f.cpylen && emitter.maxpos == f.cpylen + f.tgtlen
        && Close(emitter.Outcome(), f.tgtlen) == DecodeFrom(SegmentOf(cfg, f), f.inst, f.addr, f.data, f.tgtlen)
    }

    ghost predicate Valid()
      reads this, emitter
    {
      Plain() && Emitting()
    }

    constructor (ghost c: Config, shiftby: nat)
      requires shiftby == c.shiftby
      ensures Valid() && cfg == c && Abs() == Init() && pos == |input| && emitter == null
    {
      cfg, this.shiftby := c, shiftby;
      step, f, got, part := VcHead, Init().phase.f, [], 0;
      input, pos, winbytes, nextOut := [], 0, 0, [];
      emitter, curblkno, curblk, written := null, None, [], [];
    }

    /** xd3_avail_input */
    method AvailInput(chunk: seq<byte>)
      requires Valid() && pos == |input|
      modifies this`input, this`pos
      ensures Valid() && input == chunk && pos == 0 && Abs() == old(Abs())
    {
      input, pos := chunk, 0;
    }

    /** Reads the field of the current step. */
    method ReadItem() returns (r: Reading, to: nat)
      requires Plain() && ItemOf(step, f) != Nothing
      ensures Reads(cfg, Abs(), input, pos, to, r)
      ensures r.Incomplete? || pos < to
      ensures r.Incomplete? ==>
                && Partial(State(Running(step, f, r.got, r.part), written))
                && Taken(step, f, r.got) == winbytes + SectionBytes(step, to - pos)
      ensures r.Complete? && 15 <= Rank(step) <= 17 ==> winbytes + (to - pos) == Taken(NextSection(step), f, [])
    {
      hide FeedAll, Settle, Act;
      var item := ItemOf(step, f);
      match item {
        case OneByte => to, r := ReadByte(input, pos, cfg, Abs());
        case Number(limit) => to, r := ReadNumber(input, pos, part, limit, cfg, Abs());
        case Bytes(n) =>
          if 15 <= Rank(step) <= 17 {
            var need := f.dataSize + f.instSize + f.addrSize;
            var more := need - winbytes;
            var copy := Min(more, |input| - pos) != more;
            to, r := ReadSection(input, pos, got, n, copy, cfg, Abs());
          } else {
            to, r := ReadBytes(input, pos, got, n, cfg, Abs());
          }
      }
    }

    /** A complete field takes the machine to its next step. */
    method Advance(v: nat, bs: seq<byte>) returns (err: Option<Common.Error>)
      requires shiftby == cfg.shiftby && pos <= |input| && Checked(step, f) && step != EmitWin
      requires 15 <= Rank(step) <= 17 ==> winbytes == Taken(NextSection(step), f, [])
      requires Rank(step) < 15 || step == FinishWin ==> winbytes == 0
      requires curblkno.Some? ==> curblk == Block(cfg.file, Pow2(shiftby), curblkno.value)
      modifies this`step, this`f, this`got, this`part
      ensures err.None? ==> Plain() && Abs() == Act(cfg, old(step), old(f), v, bs, written)
      ensures err.None? ==> Rank(step) > old(Rank(step)) || step == WinInd
      ensures err.Some? ==> Act(cfg, old(step), old(f), v, bs, written) == State(Failed(err.value), written)
    {
      hide Accept, Block, Pow2;
      AcceptKeeps(step, f, v, bs);
      var r := Accept(step, f, v, bs);
      if r.Err? {
        return Some(r.error);
      }
      step, f, got, part := r.value.0, r.value.1, [], 0;
      return None;
    }

    /** Reads the field and notes what has been taken of it. */
    method TakeField() returns (r: Reading)
      requires Plain() && ItemOf(step, f) != Nothing
      modifies this`got, this`part, this`pos, this`winbytes
      ensures old(pos) <= pos <= |input| && Reads(cfg, old(Abs()), input, old(pos), pos, r)
              && (r.Incomplete? || pos > old(pos))
      ensures r.Incomplete? ==> Plain() && got == r.got && part == r.part
      ensures r.Complete? && 15 <= Rank(step) <= 17 ==> winbytes == Taken(NextSection(step), f, [])
      ensures r.Complete? && (Rank(step) < 15 || step == FinishWin) ==> winbytes == 0
    {
      hide FeedAll, Act, Settle, Block, Pow2, Checked, ItemOf;
      var to;
      r, to := ReadItem();
      winbytes := winbytes + SectionBytes(step, to - pos);
      pos := to;
      if r.Incomplete? {
        got, part := r.got, r.part;
      }
    }

    /** One step that is not the emission of a window. */
    method Field() returns (ret: Option<Code>)
      requires Plain() && step != EmitWin
      modifies this`step, this`f, this`got, this`part, this`pos, this`winbytes
      ensures old(pos) <= pos <= |input|
      ensures ret == None ==>
                && Plain() && Norm() == FeedAll(cfg, old(Norm()), input[old(pos)..pos])
                && (Rank(step) > old(Rank(step)) || step == WinInd)
                && (pos > old(pos) || old(ItemOf(step, f)) == Nothing)
      ensures ret == Some(NeedInput) ==>
                Plain() && pos == |input| && Abs() == Norm() == FeedAll(cfg, old(Norm()), input[old(pos)..pos])
      ensures ret.Some? ==> ret == Some(NeedInput) || ret.value.Error?
      ensures ret.Some? && ret.value.Error? ==>
                FeedAll(cfg, old(Norm()), input[old(pos)..pos]) == State(Failed(ret.value.error), written)
    {
      hide FeedAll, Act, Block, Pow2, Checked, Settle, ItemOf, Partial, NextSection, Taken, SectionBytes;
      ghost var s := Abs();
      var v: nat, bs: seq<byte> := 0, [];
      if ItemOf(step, f) == Nothing {
        Unread(cfg, s, input, pos);
        NothingTaken(step, f);
        UntakenGot(s);
        TakenElsewhere(step, f, got);
      } else {
        SettledAs(cfg, s);
        var r := TakeField();
        match r {
          case Incomplete(_, _) =>
            SettledAs(cfg, Abs());
            return Some(NeedInput);
          case Wrong(e) => return Some(Error(e));
          case Complete(value, bytes) => v, bs := value, bytes;
        }
      }
      var err := Advance(v, bs);
      if err.Some? {
        SettledFailed(cfg, State(Failed(err.value), written));
        return Some(Error(err.value));
      }
      return None;
    }

    /** Sets up the output of a window whose sections are complete. */
    method StartEmitter()
      requires Valid() && step == EmitWin && emitter == null && SegmentOf(cfg, f).Fits()
      modifies this`emitter
      ensures Valid() && emitter != null && fresh(emitter)
    {
      hide Pow2, Block, DecodeFrom, Continue;
      emitter := new Emitter(cfg.file, f.cpyoff, f.cpylen, shiftby, f.tgtlen, f.inst, f.addr, f.data, curblkno, curblk);
    }

    /** Some emitter has made progress since it had `work` and `left` to do. */
    ghost predicate Progress(work: nat, left: nat)
      reads this, emitter
    {
      emitter != null && (emitter.Work() < work || (emitter.Work() == work && emitter.Left() < left))
    }

    /** xd3_decode_emit on this window. */
    method RunEmitter() returns (r: Ret)
      requires Valid() && emitter != null
      modifies emitter
      ensures r == GetSrcBlk ==>
                && Valid() && emitter.Waiting() && emitter.getblkno == emitter.Wanted()
                && (old(!emitter.Waiting()) ==> Progress(old(emitter.Work()), old(emitter.Left())))
      ensures r == Output ==>
                && DecodeFrom(SegmentOf(cfg, f), f.inst, f.addr, f.data, f.tgtlen) == Ok(emitter.d.out)
                && (emitter.curblkno.Some? ==> emitter.curblk == Block(cfg.file, Pow2(shiftby), emitter.curblkno.value))
      ensures r.Fail? ==> DecodeFrom(SegmentOf(cfg, f), f.inst, f.addr, f.data, f.tgtlen) == Err(r.error)
      ensures r != Done
    {
      hide Pow2, Block, DecodeFrom, Continue, Consistent, Close, ItemOf, Taken, Emitter.Work, Emitter.Left;
      r := emitter.Emit();
    }

    /** The checksum test at the end of xd3_decode_emit. */
    method Verify(window: seq<byte>) returns (err: Option<Common.Error>)
      requires Checked(step, f) && step == EmitWin && SegmentOf(cfg, f).Fits()
      requires DecodeFrom(SegmentOf(cfg, f), f.inst, f.addr, f.data, f.tgtlen) == Ok(window)
      ensures err.None? ==> WindowOf(cfg, f) == Ok(window)
      ensures err.Some? ==> WindowOf(cfg, f) == Err(err.value)
    {
      hide DecodeFrom, Checksums.Adler, Flag, Pow2;
      if HasAdler(f) {
        var a32 := Checksums.Adler32(1, window);
        Checksums.FromOne(window);
        if a32 != f.adler {
          return Some(InvalidInput);
        }
      }
      return None;
    }

    /** The state DEC_EMIT: the window, its checks, or a request for a source block. */
    method EmitStep() returns (ret: Code)
      requires Valid() && step == EmitWin
      modifies this, emitter
      ensures input == old(input) && pos == old(pos)
      ensures emitter != null ==> emitter == old(emitter) || fresh(emitter)
      ensures ret == GetSrcBlock ==>
                && Valid() && Abs() == old(Abs()) && emitter != null && emitter.Waiting()
                && emitter.getblkno == emitter.Wanted()
                && (old(emitter) == null || (emitter == old(emitter) &&
                     (old(!emitter.Waiting()) ==> Progress(old(emitter.Work()), old(emitter.Left())))))
      ensures ret == GotOutput ==>
                && Valid() && emitter == null && step == FinishWin && written == old(written) + nextOut
                && Abs() == Act(cfg, EmitWin, old(f), 0, [], old(written))
      ensures ret.Error? ==>
                && Act(cfg, EmitWin, f, 0, [], written) == State(Failed(ret.error), written) && written == old(written)
                && f == old(f)
      ensures ret == GetSrcBlock || ret == GotOutput || ret.Error?
      ensures ret == GetSrcBlock ==> Stage() == old(Stage())
      ensures ret == GotOutput ==> Stage() < old(Stage())
    {
      hide Pow2, Block, DecodeFrom, Close, Emitter.Outcome, Emitter.Work, Emitter.Left, Emitter.Waiting, Progress;
      hide Emitter.Sound, Emitter.Valid, ItemOf, Taken, Settle, WindowOf, Emitter.Wanted, Accept, Partial;
      if emitter == null {
        if f.cpyoff % Pow2(shiftby) + f.cpylen > USIZE_MAX || Pow2(shiftby) > USIZE_MAX {
          TooWide(cfg, f);
          return Error(Unimplemented);
        }
        StartEmitter();
      }
      var r := RunEmitter();
      match r {
        case GetSrcBlk => return GetSrcBlock;
        case Fail(e) =>
          EmitFailed(cfg, f, e);
          return Error(e);
        case Output =>
      }
      var err := Verify(emitter.d.out);
      if err.Some? {
        return Error(err.value);
      }
      FinishWindow();
      return GotOutput;
    }

    /** xd3_decode_finish_window: the window is handed over. */
    method FinishWindow()
      requires Plain() && step == EmitWin && emitter != null
      requires Act(cfg, EmitWin, f, 0, [], written) == State(Running(FinishWin, f, [], 0), written + emitter.d.out)
      requires emitter.curblkno.Some? ==> emitter.curblk == Block(cfg.file, Pow2(shiftby), emitter.curblkno.value)
      modifies this
      ensures input == old(input) && pos == old(pos)
      ensures Valid() && emitter == null && step == FinishWin && written == old(written) + nextOut
      ensures Abs() == Act(cfg, EmitWin, old(f), 0, [], old(written))
    {
      hide Pow2, Block, Act, Partial, Taken, Checked;
      FinishIsPlain(f, written + emitter.d.out);
      nextOut, written := emitter.d.out, written + emitter.d.out;
      curblkno, curblk := emitter.curblkno, emitter.curblk;
      emitter, winbytes, step := null, 0, FinishWin;
      got, part := [], 0;
    }

    /** Steps still to take without input. */
    ghost function Stage(): nat
      reads this
    {
      if step == WinInd then 0 else 21 - Rank(step)
    }

    /** What a call leaves to do, against what it found: less input, or the same input and
        a later step, or the same step and an emitter that is new or has moved on. */
    ghost predicate Closer(avail: nat, stage: nat, hadEmitter: bool, work: nat, left: nat)
      reads this, emitter
    {
      || |input| - pos < avail
      || (|input| - pos == avail && Stage() < stage)
      || (|input| - pos == avail && Stage() == stage && emitter != null && (!hadEmitter || Progress(work, left)))
    }

    ghost function WorkOf(): nat
      reads this, emitter
    {
      if emitter == null then 0 else emitter.Work()
    }

    ghost function LeftOf(): nat
      reads this, emitter
    {
      if emitter == null then 0 else emitter.Left()
    }

    /** xd3_decode_input.  Whatever it returns, the state is what the bytes taken in make of the
        state before; it asks for input only when it has used all there is. */
    method DecodeInput() returns (ret: Code)
      requires Valid() && (emitter != null ==> !emitter.Waiting())
      modifies this, emitter
      ensures input == old(input) && old(pos) <= pos <= |input|
      ensures emitter != null ==> emitter == old(emitter) || fresh(emitter)
      ensures !ret.Error? ==> Valid() && Norm() == FeedAll(cfg, old(Norm()), input[old(pos)..pos])
      ensures ret == NeedInput ==> pos == |input| && Abs() == Norm() && emitter == null
      ensures ret != NeedInput && !ret.Error? ==>
                Closer(old(|input| - pos), old(Stage()), old(emitter != null), old(WorkOf()), old(LeftOf()))
      ensures ret == GetSrcBlock <==> emitter != null && !ret.Error?
      ensures ret == GetSrcBlock ==> emitter.Waiting() && emitter.getblkno == emitter.Wanted()
      ensures written == old(written) + (if ret == GotOutput then nextOut else [])
      ensures ret.Error? ==> FeedAll(cfg, old(Norm()), input[old(pos)..pos]) == State(Failed(ret.error), written)
    {
      hide FeedAll, Act, Settle, ItemOf, Emitter.Waiting, Emitter.Work, Emitter.Left, Emitter.Wanted, Emitter.Valid,
           Emitter.Outcome;
      hide Plain, Close, DecodeFrom, Progress, SegmentOf, Rank, Stage;
      var r := ReadFields();
      if r.Some? {
        return r.value;
      }
      EmitSettles(cfg, Abs());
      ret := EmitStep();
      if ret.Error? {
        SettledFailed(cfg, State(Failed(ret.error), written));
      }
    }

    /** The steps up to the emission of a window. */
    method ReadFields() returns (ret: Option<Code>)
      requires Plain() && (emitter != null ==> step == EmitWin)
      modifies this`step, this`f, this`got, this`part, this`pos, this`winbytes
      ensures old(pos) <= pos <= |input|
      ensures ret.None? || !ret.value.Error? ==> Plain() && Norm() == FeedAll(cfg, old(Norm()), input[old(pos)..pos])
      ensures ret.None? ==> step == EmitWin
      ensures ret.None? ==>
                || (pos == old(pos) && Abs() == old(Abs()) && Stage() == old(Stage()))
                || pos > old(pos) || Stage() < old(Stage())
      ensures emitter != null ==> ret.None? && Abs() == old(Abs())
      ensures ret == Some(NeedInput) ==> pos == |input| && Abs() == Norm()
      ensures ret.Some? && ret.value.Error? ==>
                FeedAll(cfg, old(Norm()), input[old(pos)..pos]) == State(Failed(ret.value.error), written)
      ensures ret.Some? && ret != Some(NeedInput) && !ret.value.Error? ==> pos > old(pos) || Stage() < old(Stage())
      ensures ret.Some? ==> ret.value in {NeedInput, GotHeader, WinStart, WinFinish} || ret.value.Error?
    {
      hide FeedAll, Act, Settle, ItemOf, Block, Pow2, Taken, Checked, Partial;
      ghost var s0, p0 := Norm(), pos;
      NothingFed(cfg, s0, input, pos);
      while step != EmitWin
        invariant Plain() && p0 <= pos <= |input| && Norm() == FeedAll(cfg, s0, input[p0..pos])
        invariant (Abs() == old(Abs()) && pos == p0) || pos > p0 || Stage() < old(Stage())
        invariant emitter != null ==> step == EmitWin && Abs() == old(Abs())
        decreases |input| - pos, Stage()
      {
        var was := step;
        ghost var p1 := pos;
        WinIndReads(f);
        var r := Field();
        TakeMore(cfg, s0, input, p0, p1, pos);
        if r.Some? {
          return r;
        }
        if was == Cksum {
          return Some(if f.windows == 0 then GotHeader else WinStart);
        } else if was == FinishWin {
          return Some(WinFinish);
        }
      }
      return None;
    }
  }

  lemma EmitSettles(c: Config, s: State)
    requires s.phase.Running? && s.phase.step == EmitWin
    ensures Settle(c, s) == Settle(c, Act(c, EmitWin, s.phase.f, 0, [], s.out))
  {
    hide Act;
  }

  lemma NothingFed(c: Config, s: State, input: seq<byte>, pos: nat)
    requires pos <= |input|
    ensures FeedAll(c, s, input[pos..pos]) == s
  {
    assert input[pos..pos] == [];
  }

  lemma WinIndReads(f: Fields)
    ensures ItemOf(WinInd, f) != Nothing
  {
  }

  lemma FinishIsPlain(f: Fields, out: seq<byte>)
    ensures Partial(State(Running(FinishWin, f, [], 0), out)) && Checked(FinishWin, f) && Taken(FinishWin, f, []) == 0
  {
  }

  lemma TooWide(c: Config, f: Fields)
    requires f.cpylen + f.tgtlen <= USIZE_MAX && !SegmentOf(c, f).Fits()
    ensures WindowOf(c, f) == Err(Unimplemented)
  {
  }

  lemma EmitFailed(c: Config, f: Fields, e: Common.Error)
    requires f.cpylen + f.tgtlen <= USIZE_MAX && SegmentOf(c, f).Fits()
    requires DecodeFrom(SegmentOf(c, f), f.inst, f.addr, f.data, f.tgtlen) == Err(e)
    ensures WindowOf(c, f) == Err(e)
  {
    hide DecodeFrom;
  }

  lemma AcceptKeeps(step: Step, f: Fields, v: nat, bs: seq<byte>)
    requires step != EmitWin && Checked(step, f)
    ensures var r := Accept(step, f, v, bs);
            r.Ok? ==>
              && Checked(r.value.0, r.value.1)
              && (15 <= Rank(step) <= 17 ==> Taken(r.value.0, r.value.1, []) == Taken(NextSection(step), f, []))
              && (Rank(step) < 15 || step == FinishWin ==> Taken(r.value.0, r.value.1, []) == 0)
  {
    hide EncodingLength, Flag, BigEndian;
  }

  lemma SettledAs(c: Config, s: State)
    requires s.phase.Running? && ItemOf(s.phase.step, s.phase.f) != Nothing
    ensures Settle(c, s) == s
  {
  }

  lemma SettledFailed(c: Config, s: State)
    requires s.phase.Failed?
    ensures Settle(c, s) == s
  {
  }

  lemma Unread(c: Config, s: State, input: seq<byte>, pos: nat)
    requires s.phase.Running? && ItemOf(s.phase.step, s.phase.f) == Nothing && pos <= |input|
    ensures FeedAll(c, Settle(c, s), input[pos..pos]) == Settle(c, Act(c, s.phase.step, s.phase.f, 0, [], s.out))
  {
    hide Act;
    assert input[pos..pos] == [];
  }

  lemma UntakenGot(s: State)
    requires Partial(s) && ItemOf(s.phase.step, s.phase.f) == Nothing
    ensures s.phase.got == []
  {
  }

  lemma TakenElsewhere(step: Step, f: Fields, got: seq<byte>)
    ensures Rank(step) < 15 || step == FinishWin ==> Taken(step, f, got) == 0
  {
  }

  lemma NothingTaken(step: Step, f: Fields)
    requires ItemOf(step, f) == Nothing
    ensures 15 <= Rank(step) <= 17 ==> Taken(step, f, []) == Taken(NextSection(step), f, [])
  {
  }

  function SectionBytes(step: Step, n: nat): nat {
    if 15 <= Rank(step) <= 17 then n else 0
  }

  function NextSection(step: Step): Step {
    match step
    case DataSect => InstSect
    case InstSect => AddrSect
    case _ => EmitWin
  }

  // ---------------------------------------------------------------- the driver

  function Concat(chunks: seq<seq<byte>>): seq<byte> {
    if chunks == [] then [] else Concat(chunks[..|chunks| - 1]) + chunks[|chunks| - 1]
  }

  /** The loop of dedelta on one chunk: output is written, source blocks are read on request. */
  method Process(stream: Stream, file: seq<byte>, fout: seq<byte>) returns (err: Option<Common.Error>, out: seq<byte>)
    requires stream.Valid() && stream.emitter == null && file == stream.cfg.file && fout == stream.written
    modifies stream, stream.emitter
    ensures err.None? ==>
              && stream.Valid() && stream.pos == |stream.input| && stream.emitter == null && out == stream.written
              && stream.Abs() == stream.Norm()
                == FeedAll(stream.cfg, old(stream.Norm()), old(stream.input[stream.pos..]))
    ensures err.Some? ==>
              FeedAll(stream.cfg, old(stream.Norm()), old(stream.input[stream.pos..])) == State(Failed(err.value), out)
  {
    hide FeedAll, Settle, Emitter.Work, Emitter.Left, Emitter.Outcome, Block, Pow2, Taken, Partial, Checked, DecodeFrom,
         Close, Consistent;
    ghost var s0, p0, all := stream.Norm(), stream.pos, stream.input;
    out := fout;
    NothingFed(stream.cfg, s0, all, p0);
    while true
      invariant stream.Valid() && stream.input == all && p0 <= stream.pos && out == stream.written
      invariant stream.emitter != null ==> !stream.emitter.Waiting() && fresh(stream.emitter)
      invariant stream.Norm() == FeedAll(stream.cfg, s0, all[p0..stream.pos])
      decreases |all| - stream.pos, stream.Stage(), if stream.emitter == null then 1 else 0, stream.WorkOf(),
                stream.LeftOf()
    {
      ghost var p1 := stream.pos;
      var ret := stream.DecodeInput();
      TakeMore(stream.cfg, s0, all, p0, p1, stream.pos);
      match ret {
        case NeedInput =>
          assert all[p0..|all|] == all[p0..];
          return None, out;
        case Error(e) =>
          ghost var p2 := stream.pos;
          TakeMore(stream.cfg, s0, all, p0, p2, |all|);
          FeedFailed(stream.cfg, State(Failed(e), stream.written), all[p2..|all|]);
          assert all[p0..|all|] == all[p0..];
          return Some(e), out;
        case GotOutput =>
          out := out + stream.nextOut;
        case GetSrcBlock =>
          LoadBlock(stream, file);
        case _ =>
      }
    }
  }

  /** The answer to XD3_GETSRCBLK. */
  method LoadBlock(stream: Stream, file: seq<byte>)
    requires stream.Valid() && stream.emitter != null && file == stream.cfg.file
    requires stream.emitter.getblkno == stream.emitter.Wanted()
    modifies stream.emitter
    ensures stream.Valid() && !stream.emitter.Waiting()
    ensures stream.WorkOf() == old(stream.WorkOf()) && stream.LeftOf() == old(stream.LeftOf())
  {
    hide Block, Pow2, Continue, Consistent, DecodeFrom, Close, ItemOf, Taken;
    var e := stream.emitter;
    e.curblk := ReadBlock(file, e.shiftby, e.getblkno);
    e.curblkno := Some(e.getblkno);
  }

  /** dedelta: for every way of cutting the delta into chunks and every block size, the result
      is the one of the whole delta taken byte by byte. */
  method Dedelta(file: seq<byte>, shiftby: nat, chunks: seq<seq<byte>>) returns (ok: bool, out: seq<byte>)
    ensures var s := FeedAll(Config(file, shiftby), Init(), Concat(chunks));
            (ok <==> s.phase.Running?) && out == s.out
  {
    hide FeedAll, Settle, Stream.Emitting, Stream.Plain;
    ghost var c := Config(file, shiftby);
    var stream := new Stream(c, shiftby);
    InitSettled(c);
    out := [];
    NothingFed(c, Init(), [], 0);
    for i := 0 to |chunks|
      invariant stream.Valid() && stream.cfg == c && stream.pos == |stream.input| && stream.emitter == null
                && out == stream.written
      invariant stream.Abs() == stream.Norm() == FeedAll(c, Init(), Concat(chunks[..i]))
      invariant fresh(stream)
    {
      ConcatSnoc(c, chunks, i);
      stream.AvailInput(chunks[i]);
      assert stream.input[0..] == chunks[i];
      var err;
      err, out := Process(stream, file, out);
      if err.Some? {
        ConcatPrefix(c, chunks, i + 1, State(Failed(err.value), out));
        return false, out;
      }
    }
    assert chunks[..|chunks|] == chunks;
    ok := true;
  }

  lemma InitSettled(c: Config)
    ensures Settle(c, Init()) == Init()
  {
  }

  lemma ConcatSnoc(c: Config, chunks: seq<seq<byte>>, i: nat)
    requires i < |chunks|
    ensures FeedAll(c, Init(), Concat(chunks[..i + 1]))
            == FeedAll(c, FeedAll(c, Init(), Concat(chunks[..i])), chunks[i])
  {
    assert chunks[..i + 1][..i] == chunks[..i];
    FeedAppend(c, Init(), Concat(chunks[..i]), chunks[i]);
  }

  /** Once failed, the chunks that follow do not matter. */
  lemma {:induction false} ConcatPrefix(c: Config, chunks: seq<seq<byte>>, i: nat, s: State)
    requires i <= |chunks| && s.phase.Failed? && FeedAll(c, Init(), Concat(chunks[..i])) == s
    ensures FeedAll(c, Init(), Concat(chunks)) == s
    decreases |chunks| - i
  {
    if i == |chunks| {
      assert chunks[..i] == chunks;
    } else {
      ConcatSnoc(c, chunks, i);
      FeedFailed(c, s, chunks[i]);
      ConcatPrefix(c, chunks, i + 1, s);
    }
  }
}
