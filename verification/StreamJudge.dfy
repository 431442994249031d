/** The decoder's verdict on any windows, good or bad: every field of the window headers may hold
    any value.  A file is accepted exactly as far as its windows are right. */
module StreamJudge {
  import opened Common
  import opened StreamFormat
  import opened StreamEncoder
  import opened WindowEmitter
  import I = Integers
  import Checksums
  import D = StreamDecoder
  import C = StreamCut

  /** What a window may say, whether it is true or not. */
  datatype RawWindow = RawWindow(ind: byte, cpylen: nat, cpyoff: nat, enclen: nat, tgtlen: nat, delind: byte,
                                 cksum: nat, data: seq<byte>, inst: seq<byte>, addr: seq<byte>)
  {
    /** Sizes and lengths fit 32 bits, offsets 64. */
    ghost predicate Sizes32() {
      && Cpylen() <= USIZE_MAX && Cpyoff() <= XOFF_MAX && enclen <= USIZE_MAX && tgtlen <= USIZE_MAX
      && |data| <= USIZE_MAX && |inst| <= USIZE_MAX && |addr| <= USIZE_MAX
    }

    function Cpylen(): nat {
      if Flag(ind, 0) then cpylen else 0
    }

    function Cpyoff(): nat {
      if Flag(ind, 0) then cpyoff else 0
    }

    function Sections(rest: seq<byte>): seq<byte> {
      data + (inst + (addr + rest))
    }

    function Checked(rest: seq<byte>): seq<byte> {
      if Flag(ind, 2) then FourBytes(cksum) + Sections(rest) else Sections(rest)
    }

    function Sizes(rest: seq<byte>): seq<byte> {
      I.Encode(|data|) + (I.Encode(|inst|) + (I.Encode(|addr|) + Checked(rest)))
    }

    /** The delta encoding: what the length in front of it counts. */
    function Body(rest: seq<byte>): seq<byte> {
      I.Encode(tgtlen) + ([delind] + Sizes(rest))
    }

    function Lengths(rest: seq<byte>): seq<byte> {
      I.Encode(enclen) + Body(rest)
    }

    function Bytes(rest: seq<byte>): seq<byte> {
      [ind] + if Flag(ind, 0) then I.Encode(cpylen) + (I.Encode(cpyoff) + Lengths(rest)) else Lengths(rest)
    }

    /** The header is right for a window whose target starts at `start`: numbers of the right
        width, no other indicator bits
        than VCD_SOURCE and VCD_ADLER32, no delta indicator, offsets and sizes within their
        limits, and a true length of the delta encoding. */
    ghost predicate HeaderRight(start: nat) {
      && Sizes32() && start <= XOFF_MAX && ind in {0, 1, 4, 5} && delind == 0
      && Cpyoff() + Cpylen() <= XOFF_MAX && Cpylen() + tgtlen <= USIZE_MAX && tgtlen <= HARD_MAX_WINSIZE
      && enclen == |Body([])|
    }

    ghost function Source(c: Config): Segment {
      Segment(c.file, Cpyoff(), Cpylen(), c.shiftby)
    }

    /** The target, if the window is accepted: header and sections are right and the checksum, if
        there is one, is that of the target. */
    ghost function Verdict(c: Config, start: nat): Option<seq<byte>> {
      if !HeaderRight(start) || !Source(c).Fits() then None
      else
        match DecodeFrom(Source(c), inst, addr, data, tgtlen)
        case Err(_) => None
        case Ok(t) => if ind >= 4 && cksum != Checksums.WindowAdler(t) then None else Some(t)
    }
  }

  ghost predicate Refused(s: State, out: seq<byte>) {
    s.phase.Failed? && s.out == out
  }

  /** All is right but the checksum. */
  ghost predicate Mismatch(c: Config, w: RawWindow, start: nat) {
    && w.HeaderRight(start) && w.Source(c).Fits() && w.ind >= 4
    && var r := DecodeFrom(w.Source(c), w.inst, w.addr, w.data, w.tgtlen);
       r.Ok? && Checksums.WindowAdler(r.value) != w.cksum
  }

  // ---------------------------------------------------------------- a field that is refused

  lemma ByteRefused(c: Config, step: Step, f: Fields, out: seq<byte>, b: byte, rest: seq<byte>, e: Error)
    requires step != EmitWin && ItemOf(step, f) == OneByte && Accept(step, f, b, []) == Err(e)
    ensures FeedAll(c, At(c, step, f, out), [b] + rest) == State(Failed(e), out)
  {
    hide Accept;
    FeedAppend(c, At(c, step, f, out), [b], rest);
    FeedOne(c, At(c, step, f, out), b);
    FeedFailed(c, State(Failed(e), out), rest);
  }

  lemma BytesRefused(c: Config, step: Step, f: Fields, out: seq<byte>, bs: seq<byte>, rest: seq<byte>, e: Error)
    requires step != EmitWin && Accept(step, f, 0, bs) == Err(e)
    requires if bs == [] then ItemOf(step, f) == Nothing else ItemOf(step, f) == Bytes(|bs|)
    ensures FeedAll(c, At(c, step, f, out), bs + rest) == State(Failed(e), out)
  {
    hide Accept;
    var failed := State(Failed(e), out);
    assert Settle(c, Act(c, step, f, 0, bs, out)) == failed;
    if bs == [] {
      assert At(c, step, f, out) == failed;
      assert bs + rest == rest;
    } else {
      FeedAppend(c, At(c, step, f, out), bs, rest);
      FeedBytes(c, At(c, step, f, out), bs, |bs|);
      assert [] + bs == bs;
    }
    FeedFailed(c, failed, rest);
  }

  /** A number beyond its field is refused at the digit that would overflow. */
  lemma {:induction false} DigitsRefused(c: Config, step: Step, f: Fields, out: seq<byte>, m: nat, limit: nat, b: byte)
    requires ItemOf(step, f) == Number(limit) && m >= limit > 0
    ensures FeedAll(c, At(c, step, f, out), I.Continued(m) + [b]) == State(Failed(InvalidInput), out)
    decreases m
  {
    hide FeedAll, At, Settle, Act, ItemOf;
    var s := At(c, step, f, out);
    FeedAppend(c, s, I.Continued(m), [b]);
    if m < 128 * limit {
      FeedDigits(c, step, f, out, m, limit);
      FeedOne(c, State(Running(step, f, [], m), out), b);
      DigitRefused(c, step, f, out, m, limit, b);
    } else {
      ContinuedMore(m);
      DigitsRefused(c, step, f, out, m / 128, limit, m % 128 + 128);
      FeedFailed(c, State(Failed(InvalidInput), out), [b]);
    }
  }

  lemma DigitRefused(c: Config, step: Step, f: Fields, out: seq<byte>, m: nat, limit: nat, b: byte)
    requires ItemOf(step, f) == Number(limit) && m >= limit
    ensures Feed(c, State(Running(step, f, [], m), out), b) == State(Failed(InvalidInput), out)
  {
    hide ItemOf;
  }

  lemma ContinuedMore(m: nat)
    requires m > 0
    ensures I.Continued(m) == I.Continued(m / 128) + [m % 128 + 128]
  {
  }

  lemma NumberRefused(c: Config, step: Step, f: Fields, out: seq<byte>, n: nat, limit: nat, rest: seq<byte>)
    requires ItemOf(step, f) == Number(limit) && n >= 128 * limit > 0
    ensures FeedAll(c, At(c, step, f, out), I.Encode(n) + rest) == State(Failed(InvalidInput), out)
  {
    hide FeedAll, At, ItemOf;
    DigitsRefused(c, step, f, out, n / 128, limit, n % 128);
    FeedAppend(c, At(c, step, f, out), I.Encode(n), rest);
    FeedFailed(c, State(Failed(InvalidInput), out), rest);
  }

  /** A size or length is taken if it fits 32 bits and is accepted. */
  lemma JudgeNumber(c: Config, step: Step, f: Fields, out: seq<byte>, n: nat, rest: seq<byte>)
    requires step != EmitWin && ItemOf(step, f) == SIZE
    ensures var s := FeedAll(c, At(c, step, f, out), I.Encode(n) + rest);
            if n <= USIZE_MAX && Accept(step, f, n, []).Ok?
            then var (step', f') := Accept(step, f, n, []).value; s == FeedAll(c, At(c, step', f', out), rest)
            else Refused(s, out)
  {
    hide FeedAll, At, I.Encode, Accept, ItemOf;
    if n > USIZE_MAX {
      NumberRefused(c, step, f, out, n, 0x200_0000, rest);
    } else if Accept(step, f, n, []).Ok? {
      var (step', f') := Accept(step, f, n, []).value;
      GoNumber(c, step, f, out, n, 0x200_0000, rest, step', f');
    } else {
      GoNumberFails(c, step, f, out, n, 0x200_0000, rest, Accept(step, f, n, []).error);
    }
  }

  // ---------------------------------------------------------------- field by field

  /** The fields of the header as the decoder takes them in. */
  function G1(w: RawWindow, f: Fields): Fields {
    f.(winInd := w.ind, winstart := f.winstart + f.tgtlen, cpylen := w.Cpylen(), cpyoff := w.Cpyoff())
  }

  function G2(w: RawWindow, f: Fields): Fields {
    f.(enclen := w.enclen, tgtlen := w.tgtlen)
  }

  function G3(w: RawWindow, f: Fields): Fields {
    f.(dataSize := |w.data|, instSize := |w.inst|, addrSize := |w.addr|)
  }

  function G4(w: RawWindow, f: Fields): Fields {
    f.(adler := if Flag(w.ind, 2) then w.cksum else f.adler)
  }

  function G5(w: RawWindow, f: Fields): Fields {
    f.(data := w.data, inst := w.inst, addr := w.addr)
  }

  lemma JudgeIndicator(c: Config, w: RawWindow, f: Fields, out: seq<byte>, tail: seq<byte>)
    ensures var s := FeedAll(c, At(c, WinInd, f, out), [w.ind] + tail);
            if f.winstart + f.tgtlen <= XOFF_MAX && w.ind in {0, 1, 4, 5}
            then s == FeedAll(c, At(c, CpyLen, G1(w, f).(cpylen := 0, cpyoff := 0), out), tail)
            else Refused(s, out)
  {
    hide FeedAll, At;
    Indicators(w.ind);
    hide Flag;
    var r := Accept(WinInd, f, w.ind, []);
    if r.Ok? {
      GoByte(c, WinInd, f, out, w.ind, tail, CpyLen, G1(w, f).(cpylen := 0, cpyoff := 0));
    } else {
      ByteRefused(c, WinInd, f, out, w.ind, tail, r.error);
    }
  }

  lemma Indicators(ind: byte)
    ensures ind < 8 && !Flag(ind, 1) <==> ind in {0, 1, 4, 5}
    ensures ind < 8 ==> (Flag(ind, 2) <==> ind >= 4)
  {
  }

  lemma JudgeSegment(c: Config, w: RawWindow, f: Fields, out: seq<byte>, rest: seq<byte>)
    requires f.winInd == w.ind && f.cpylen == f.cpyoff == 0
    ensures var tail := if Flag(w.ind, 0) then I.Encode(w.cpylen) + (I.Encode(w.cpyoff) + rest) else rest;
            var s := FeedAll(c, At(c, CpyLen, f, out), tail);
            if w.Cpylen() <= USIZE_MAX && w.Cpyoff() + w.Cpylen() <= XOFF_MAX
            then s == FeedAll(c, At(c, EncLen, f.(cpylen := w.Cpylen(), cpyoff := w.Cpyoff()), out), rest)
            else Refused(s, out)
  {
    hide FeedAll, At, I.Encode, Flag;
    if Flag(w.ind, 0) {
      var h := f.(cpylen := w.cpylen);
      JudgeNumber(c, CpyLen, f, out, w.cpylen, I.Encode(w.cpyoff) + rest);
      if w.cpylen > USIZE_MAX {
      } else if w.cpyoff > XOFF_MAX {
        NumberRefused(c, CpyOff, h, out, w.cpyoff, 0x200_0000_0000_0000, rest);
      } else if w.cpyoff + w.cpylen <= XOFF_MAX {
        GoNumber(c, CpyOff, h, out, w.cpyoff, 0x200_0000_0000_0000, rest, EncLen, h.(cpyoff := w.cpyoff));
      } else {
        GoNumberFails(c, CpyOff, h, out, w.cpyoff, 0x200_0000_0000_0000, rest, InvalidInput);
      }
    } else {
      GoNothing(c, CpyLen, f, out, CpyOff, f);
      GoNothing(c, CpyOff, f, out, EncLen, f);
    }
  }

  lemma JudgeLengths(c: Config, w: RawWindow, f: Fields, out: seq<byte>, rest: seq<byte>)
    requires f.cpylen == w.Cpylen()
    ensures var s := FeedAll(c, At(c, EncLen, f, out), I.Encode(w.enclen) + (I.Encode(w.tgtlen) + ([w.delind] + rest)));
            if w.enclen <= USIZE_MAX && w.Cpylen() + w.tgtlen <= USIZE_MAX && w.tgtlen <= HARD_MAX_WINSIZE
               && w.delind == 0
            then s == FeedAll(c, At(c, DataLen, G2(w, f), out), rest)
            else Refused(s, out)
  {
    hide FeedAll, At, I.Encode, Flag;
    var g := f.(enclen := w.enclen);
    var tail := [w.delind] + rest;
    JudgeNumber(c, EncLen, f, out, w.enclen, I.Encode(w.tgtlen) + tail);
    if w.enclen <= USIZE_MAX {
      JudgeNumber(c, TgtLen, g, out, w.tgtlen, tail);
      if w.Cpylen() + w.tgtlen <= USIZE_MAX && w.tgtlen <= HARD_MAX_WINSIZE {
        if w.delind == 0 {
          GoByte(c, DelInd, G2(w, f), out, w.delind, rest, DataLen, G2(w, f));
        } else {
          ByteRefused(c, DelInd, G2(w, f), out, w.delind, rest, InvalidInput);
        }
      }
    }
  }

  lemma JudgeSizes(c: Config, w: RawWindow, f: Fields, out: seq<byte>, rest: seq<byte>)
    ensures var tail := I.Encode(|w.data|) + (I.Encode(|w.inst|) + (I.Encode(|w.addr|) + rest));
            var s := FeedAll(c, At(c, DataLen, f, out), tail);
            if |w.data| <= USIZE_MAX && |w.inst| <= USIZE_MAX && |w.addr| <= USIZE_MAX
            then s == FeedAll(c, At(c, Cksum, G3(w, f), out), rest)
            else Refused(s, out)
  {
    hide FeedAll, At, I.Encode, Flag;
    var g := f.(dataSize := |w.data|);
    JudgeNumber(c, DataLen, f, out, |w.data|, I.Encode(|w.inst|) + (I.Encode(|w.addr|) + rest));
    if |w.data| <= USIZE_MAX {
      JudgeNumber(c, InstLen, g, out, |w.inst|, I.Encode(|w.addr|) + rest);
      if |w.inst| <= USIZE_MAX {
        JudgeNumber(c, AddrLen, g.(instSize := |w.inst|), out, |w.addr|, rest);
      }
    }
  }

  lemma BodyLength(w: RawWindow, f: Fields)
    requires w.Sizes32() && f.tgtlen == w.tgtlen && f.winInd == w.ind
    requires f.dataSize == |w.data| && f.instSize == |w.inst| && f.addrSize == |w.addr|
    ensures EncodingLength(f) == |w.Body([])|
  {
    hide I.Encode, I.SizeOf, Flag, FourBytes;
    I.SizeOfEncode(w.tgtlen);
    I.SizeOfEncode(|w.data|);
    I.SizeOfEncode(|w.inst|);
    I.SizeOfEncode(|w.addr|);
  }

  lemma JudgeChecksum(c: Config, w: RawWindow, f: Fields, out: seq<byte>, rest: seq<byte>)
    requires w.Sizes32() && w.cksum <= USIZE_MAX
    requires f.tgtlen == w.tgtlen && f.winInd == w.ind && f.enclen == w.enclen
    requires f.dataSize == |w.data| && f.instSize == |w.inst| && f.addrSize == |w.addr|
    ensures var tail := if Flag(w.ind, 2) then FourBytes(w.cksum) + rest else rest;
            var s := FeedAll(c, At(c, Cksum, f, out), tail);
            if w.enclen == |w.Body([])| then s == FeedAll(c, At(c, DataSect, G4(w, f), out), rest)
            else Refused(s, out)
  {
    BodyLength(w, f);
    hide FeedAll, At, FourBytes, BigEndian, I.SizeOf, Flag, RawWindow.Body, EncodingLength;
    FourBytesBack(w.cksum);
    EncodingSame(w, f);
    var bs := if Flag(w.ind, 2) then FourBytes(w.cksum) else [];
    if w.enclen == |w.Body([])| {
      GoBytes(c, Cksum, f, out, bs, rest, DataSect, G4(w, f));
    } else {
      BytesRefused(c, Cksum, f, out, bs, rest, InvalidInput);
    }
    assert [] + rest == rest;
  }

  lemma EncodingSame(w: RawWindow, f: Fields)
    ensures EncodingLength(G4(w, f)) == EncodingLength(f)
  {
  }

  lemma JudgeSections(c: Config, w: RawWindow, f: Fields, out: seq<byte>, rest: seq<byte>)
    requires f.dataSize == |w.data| && f.instSize == |w.inst| && f.addrSize == |w.addr|
    ensures FeedAll(c, At(c, DataSect, f, out), w.Sections(rest)) == FeedAll(c, At(c, EmitWin, G5(w, f), out), rest)
  {
    hide FeedAll, At, Flag;
    var g := f.(data := w.data);
    var h := g.(inst := w.inst);
    GoBytes(c, DataSect, f, out, w.data, w.inst + (w.addr + rest), InstSect, g);
    GoBytes(c, InstSect, g, out, w.inst, w.addr + rest, AddrSect, h);
    GoBytes(c, AddrSect, h, out, w.addr, rest, EmitWin, G5(w, f));
  }

  lemma EmitRefused(c: Config, f: Fields, out: seq<byte>)
    requires WindowOf(c, f).Err?
    ensures At(c, EmitWin, f, out) == State(Failed(WindowOf(c, f).error), out)
  {
    hide WindowOf;
    var failed := State(Failed(WindowOf(c, f).error), out);
    assert Act(c, EmitWin, f, 0, [], out) == failed;
    assert Settle(c, failed) == failed;
    assert Settle(c, State(Running(EmitWin, f, [], 0), out)) == Settle(c, Act(c, EmitWin, f, 0, [], out));
  }

  /** The end of a window whose header is right. */
  lemma JudgeTarget(c: Config, w: RawWindow, f: Fields, out: seq<byte>, start: nat)
    requires w.HeaderRight(start) && f.winInd == w.ind && f.cpylen == w.Cpylen() && f.cpyoff == w.Cpyoff()
    requires f.tgtlen == w.tgtlen && f.data == w.data && f.inst == w.inst && f.addr == w.addr
    requires w.ind >= 4 ==> f.adler == w.cksum
    ensures var s := At(c, EmitWin, f, out);
            match w.Verdict(c, start)
            case Some(t) => s == At(c, WinInd, f.(windows := f.windows + 1), out + t) && |t| == w.tgtlen
            case None => Refused(s, out)
    ensures Mismatch(c, w, start) ==> At(c, EmitWin, f, out) == State(Failed(InvalidInput), out)
  {
    Indicators(w.ind);
    hide EmitFrom, Checksums.WindowAdler, RawWindow.Body, Flag;
    if w.Verdict(c, start).Some? {
      var t := w.Verdict(c, start).value;
      assert WindowOf(c, f) == Ok(t);
      GoNothing(c, FinishWin, f, out + t, WinInd, f.(windows := f.windows + 1));
    } else {
      assert WindowOf(c, f).Err?;
      EmitRefused(c, f, out);
    }
  }

  // ---------------------------------------------------------------- a window

  /** The fields that an accepted window leaves behind. */
  function AfterRaw(w: RawWindow, f: Fields): Fields {
    var g := G5(w, G4(w, G3(w, G2(w, G1(w, f)))));
    g.(windows := g.windows + 1)
  }

  /** Any window: it goes on after the target if and only if the window is accepted, and otherwise
      fails with nothing of it output. */
  lemma JudgeWindow(c: Config, w: RawWindow, f: Fields, out: seq<byte>, rest: seq<byte>)
    requires w.cksum <= USIZE_MAX
    ensures var s := FeedAll(c, At(c, WinInd, f, out), w.Bytes(rest));
            match w.Verdict(c, f.winstart + f.tgtlen)
            case Some(t) =>
              && s == FeedAll(c, At(c, WinInd, AfterRaw(w, f), out + t), rest)
              && AfterRaw(w, f).winstart + AfterRaw(w, f).tgtlen == f.winstart + f.tgtlen + |t|
            case None => Refused(s, out) && (Mismatch(c, w, f.winstart + f.tgtlen) ==> s.phase.error == InvalidInput)
  {
    hide FeedAll, At, I.Encode, FourBytes, Flag, RawWindow.Verdict, RawWindow.Body, Mismatch;
    var start := f.winstart + f.tgtlen;
    var f1, f2 := G1(w, f), G2(w, G1(w, f));
    var f5 := G5(w, G4(w, G3(w, f2)));
    var tail := if Flag(w.ind, 0) then I.Encode(w.cpylen) + (I.Encode(w.cpyoff) + w.Lengths(rest)) else w.Lengths(rest);
    JudgeIndicator(c, w, f, out, tail);
    JudgeSegment(c, w, f1.(cpylen := 0, cpyoff := 0), out, w.Lengths(rest));
    LengthsIs(w, rest);
    JudgeLengths(c, w, f1, out, w.Sizes(rest));
    JudgeSizes(c, w, f2, out, w.Checked(rest));
    if w.Sizes32() {
      JudgeChecksum(c, w, G3(w, f2), out, w.Sections(rest));
    }
    JudgeSections(c, w, G4(w, G3(w, f2)), out, rest);
    if w.HeaderRight(start) {
      Indicators(w.ind);
      JudgeTarget(c, w, f5, out, start);
      if w.Verdict(c, start).None? {
        FeedFailed(c, At(c, EmitWin, f5, out), rest);
      }
    } else {
      NoVerdict(c, w, start);
    }
  }

  lemma LengthsIs(w: RawWindow, rest: seq<byte>)
    ensures w.Lengths(rest) == I.Encode(w.enclen) + (I.Encode(w.tgtlen) + ([w.delind] + w.Sizes(rest)))
  {
    hide I.Encode, RawWindow.Sizes;
  }

  lemma NoVerdict(c: Config, w: RawWindow, start: nat)
    requires !w.HeaderRight(start)
    ensures w.Verdict(c, start) == None && !Mismatch(c, w, start)
  {
    hide RawWindow.Body;
  }

  // ---------------------------------------------------------------- a file

  function RawWindows(windows: seq<RawWindow>): seq<byte> {
    if windows == [] then [] else windows[0].Bytes(RawWindows(windows[1..]))
  }

  /** Whether all windows are accepted, and the targets of those before the first that is not. */
  ghost function JudgeAll(c: Config, windows: seq<RawWindow>, start: nat): (bool, seq<byte>) {
    if windows == [] then (true, [])
    else
      match windows[0].Verdict(c, start)
      case None => (false, [])
      case Some(t) =>
        var (ok, more) := JudgeAll(c, windows[1..], start + |t|);
        (ok, t + more)
  }

  lemma {:induction false} JudgeWindows(c: Config, windows: seq<RawWindow>, f: Fields, out: seq<byte>)
    requires forall i :: 0 <= i < |windows| ==> windows[i].cksum <= USIZE_MAX
    ensures var s := FeedAll(c, At(c, WinInd, f, out), RawWindows(windows));
            var (ok, targets) := JudgeAll(c, windows, f.winstart + f.tgtlen);
            (s.phase.Running? <==> ok) && s.out == out + targets && (ok ==> C.Complete(s))
    decreases |windows|
  {
    hide FeedAll, At, RawWindow.Bytes, RawWindow.Verdict, AfterRaw, Mismatch;
    if windows == [] {
      FeedNothing(c, At(c, WinInd, f, out));
      AtWinInd(c, f, out);
      assert out + [] == out;
    } else {
      var w, rest := windows[0], windows[1..];
      assert w.cksum <= USIZE_MAX;
      JudgeWindow(c, w, f, out, RawWindows(rest));
      var v := w.Verdict(c, f.winstart + f.tgtlen);
      if v.Some? {
        JudgeWindows(c, rest, AfterRaw(w, f), out + v.value);
        var more := JudgeAll(c, rest, f.winstart + f.tgtlen + |v.value|).1;
        assert out + v.value + more == out + (v.value + more);
      } else {
        assert out + [] == out;
      }
    }
  }

  /** The start of a file, whatever it says. */
  datatype RawHeader = RawHeader(magic: seq<byte>, ind: byte, second: byte, app: seq<byte>) {
    function Rest(body: seq<byte>): seq<byte> {
      if Flag(ind, 2) then I.Encode(|app|) + (app + body) else body
    }

    function Bytes(body: seq<byte>): seq<byte> {
      magic + ([ind] + if Flag(ind, 0) then [second] + Rest(body) else Rest(body))
    }

    /** VCDIFF in version 0, and no indicator bits but VCD_APPHEADER, with a size that fits. */
    predicate Right() {
      magic == [0xd6, 0xc3, 0xc4, 0] && (ind == 0 || (ind == 4 && |app| <= USIZE_MAX))
    }
  }

  lemma HeaderIndicators(ind: byte)
    ensures ind < 8 && !Flag(ind, 1) && !Flag(ind, 0) <==> ind in {0, 4}
    ensures ind < 8 ==> (Flag(ind, 2) <==> ind >= 4)
  {
  }

  lemma JudgeHeader(c: Config, h: RawHeader, body: seq<byte>)
    requires |h.magic| == 4
    ensures var s := FeedAll(c, Init(), h.Bytes(body));
            if h.Right() then s == FeedAll(c, At(c, WinInd, HeaderFields(AppOf(h)), []), body) else Refused(s, [])
  {
    hide FeedAll, At, I.Encode;
    HeaderIndicators(h.ind);
    hide Flag;
    var f0 := Init().phase.f;
    var tail := if Flag(h.ind, 0) then [h.second] + h.Rest(body) else h.Rest(body);
    InitAt(c);
    if h.Right() {
      FeedHeader(c, AppOf(h), body);
    } else if h.magic != [0xd6, 0xc3, 0xc4, 0] {
      OtherMagic(h.magic);
      BytesRefused(c, VcHead, f0, [], h.magic, [h.ind] + tail, InvalidInput);
    } else {
      GoBytes(c, VcHead, f0, [], h.magic, [h.ind] + tail, HdrInd, f0);
      var r := Accept(HdrInd, f0, h.ind, []);
      if r.Err? {
        ByteRefused(c, HdrInd, f0, [], h.ind, tail, r.error);
      } else {
        var f1 := f0.(hdrInd := h.ind);
        GoByte(c, HdrInd, f0, [], h.ind, tail, SecondId, f1);
        if Flag(h.ind, 0) {
          ByteRefused(c, SecondId, f1, [], h.second, h.Rest(body), Accept(SecondId, f1, h.second, []).error);
        } else {
          GoNothing(c, SecondId, f1, [], AppLen, f1);
          JudgeNumber(c, AppLen, f1, [], |h.app|, h.app + body);
        }
      }
    }
  }

  function AppOf(h: RawHeader): Option<seq<byte>> {
    if h.ind == 4 then Some(h.app) else None
  }

  lemma OtherMagic(magic: seq<byte>)
    requires |magic| == 4 && magic != [0xd6, 0xc3, 0xc4, 0]
    ensures !(magic[0] == 0xd6 && magic[1] == 0xc3 && magic[2] == 0xc4 && magic[3] == 0)
  {
    if magic[0] == 0xd6 && magic[1] == 0xc3 && magic[2] == 0xc4 && magic[3] == 0 {
      SameMagic(magic);
    }
  }

  lemma SameMagic(magic: seq<byte>)
    requires |magic| == 4 && magic[0] == 0xd6 && magic[1] == 0xc3 && magic[2] == 0xc4 && magic[3] == 0
    ensures magic == [0xd6, 0xc3, 0xc4, 0]
  {
  }

  /** The driver on any file of this shape, in any chunks and blocks: it succeeds if and only if
      the header is right and every window is accepted, and puts out the targets of the windows
      before the first that is not. */
  method JudgeFile(file: seq<byte>, shiftby: nat, h: RawHeader, windows: seq<RawWindow>, chunks: seq<seq<byte>>)
    returns (ok: bool, out: seq<byte>)
    requires |h.magic| == 4
    requires forall i :: 0 <= i < |windows| ==> windows[i].cksum <= USIZE_MAX
    requires D.Concat(chunks) == h.Bytes(RawWindows(windows))
    ensures (ok, out) == if h.Right() then JudgeAll(Config(file, shiftby), windows, 0) else (false, [])
  {
    hide FeedAll, At, RawHeader.Bytes, RawWindows, JudgeAll;
    var c := Config(file, shiftby);
    ok, out := D.Dedelta(file, shiftby, chunks);
    JudgeHeader(c, h, RawWindows(windows));
    if h.Right() {
      JudgeWindows(c, windows, HeaderFields(AppOf(h)), []);
      assert [] + JudgeAll(c, windows, 0).1 == JudgeAll(c, windows, 0).1;
    }
  }

  /** A checksum that is not the target's: the window is refused. */
  lemma ChecksumRefused(c: Config, w: RawWindow, f: Fields, out: seq<byte>, rest: seq<byte>)
    requires w.cksum <= USIZE_MAX && w.HeaderRight(f.winstart + f.tgtlen) && w.Source(c).Fits() && w.ind >= 4
    requires DecodeFrom(w.Source(c), w.inst, w.addr, w.data, w.tgtlen).Ok?
    ensures var s := FeedAll(c, At(c, WinInd, f, out), w.Bytes(rest));
            var t := DecodeFrom(w.Source(c), w.inst, w.addr, w.data, w.tgtlen).value;
            if w.cksum == Checksums.WindowAdler(t)
            then s == FeedAll(c, At(c, WinInd, AfterRaw(w, f), out + t), rest)
            else s == State(Failed(InvalidInput), out)
  {
    hide FeedAll, At, RawWindow.Bytes, RawWindow.HeaderRight, DecodeFrom, Checksums.WindowAdler;
    JudgeWindow(c, w, f, out, rest);
  }
}
