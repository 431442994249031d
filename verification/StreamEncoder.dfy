/** What the encoder writes around the sections (xd3_emit_hdr), and the way back: the automaton
    of the decoder turns the file into the target windows. */
module StreamEncoder {
  import opened Common
  import opened StreamFormat
  import opened WindowCodec
  import opened WindowEmitter
  import I = Integers
  import Checksums

  /** A window ready to be written: with or without a source segment and a checksum. */
  datatype Window = Window(source: Option<(nat, nat)>, adler: bool, target: seq<byte>,
                           data: seq<byte>, inst: seq<byte>, addr: seq<byte>)
  {
    function Cpylen(): nat {
      if source.Some? then source.value.0 else 0
    }

    function Cpyoff(): nat {
      if source.Some? then source.value.1 else 0
    }

    function Indicator(): (r: byte)
      ensures Flag(r, 0) <==> source.Some?
      ensures !Flag(r, 1) && r < 8
      ensures Flag(r, 2) <==> adler
    {
      (if source.Some? then 1 else 0) + (if adler then 4 else 0)
    }

    function EncLength(): nat {
      1 + I.SizeOf(|target|) + I.SizeOf(|data|) + I.SizeOf(|inst|) + I.SizeOf(|addr|)
      + |data| + |inst| + |addr| + (if adler then 4 else 0)
    }

    /** Sizes that the format and the decoder's limits allow. */
    ghost predicate Bounded() {
      && Cpylen() + |target| <= USIZE_MAX && Cpyoff() + Cpylen() <= XOFF_MAX
      && |target| <= HARD_MAX_WINSIZE && EncLength() <= USIZE_MAX
    }

    /** The sections rebuild the target from the source. */
    ghost predicate Rebuilds(c: Config) {
      && Bounded() && Segment(c.file, Cpyoff(), Cpylen(), c.shiftby).Fits()
      && DecodeFrom(Segment(c.file, Cpyoff(), Cpylen(), c.shiftby), inst, addr, data, |target|) == Ok(target)
    }
  }

  /** The four checksum bytes, highest first. */
  function FourBytes(v: nat): (r: seq<byte>)
    ensures |r| == 4
  {
    [v / 0x100_0000 % 256, v / 0x1_0000 % 256, v / 0x100 % 256, v % 256]
  }

  lemma FourBytesBack(v: nat)
    requires v < 0x1_0000_0000
    ensures BigEndian(FourBytes(v)) == v
  {
    var s := FourBytes(v);
    var a := s[..0] + [s[0]];
    var b := a + [s[1]];
    var c := b + [s[2]];
    BigEndianSnoc(s[..0], s[0]);
    BigEndianSnoc(a, s[1]);
    BigEndianSnoc(b, s[2]);
    BigEndianSnoc(c, s[3]);
    assert c + [s[3]] == s;
    Digits(v);
  }

  lemma Digits(v: nat)
    requires v < 0x1_0000_0000
    ensures ((v / 0x100_0000 % 256 * 256 + v / 0x1_0000 % 256) * 256 + v / 0x100 % 256) * 256 + v % 256 == v
  {
    assert v / 0x1_0000 == v / 0x100 / 256 && v / 0x100_0000 == v / 0x1_0000 / 256;
  }

  lemma BigEndianSnoc(s: seq<byte>, b: byte)
    ensures BigEndian(s + [b]) == BigEndian(s) * 256 + b
  {
    assert (s + [b])[..|s|] == s;
  }

  lemma AdlerFits(data: seq<byte>)
    ensures Checksums.WindowAdler(data) < 0x1_0000_0000
  {
  }

  /** xd3_emit_hdr for a window, with its sections: written back to front, so that each part is
      followed by the rest. */
  function WindowBytes(w: Window, rest: seq<byte>): seq<byte> {
    var tail1 := w.data + (w.inst + (w.addr + rest));
    var tail2 := if w.adler then FourBytes(Checksums.WindowAdler(w.target)) + tail1 else tail1;
    var tail3 := I.Encode(|w.data|) + (I.Encode(|w.inst|) + (I.Encode(|w.addr|) + tail2));
    var tail4 := I.Encode(w.EncLength()) + (I.Encode(|w.target|) + ([0] + tail3));
    var tail5 := if w.source.Some? then I.Encode(w.Cpylen()) + (I.Encode(w.Cpyoff()) + tail4) else tail4;
    [w.Indicator()] + tail5
  }

  /** The file: magic, version, header indicator, application header, windows. */
  function FileBytes(app: Option<seq<byte>>, windows: seq<Window>): seq<byte> {
    var body := AllWindows(windows);
    [0xd6, 0xc3, 0xc4, 0] + ([if app.Some? then 4 else 0]
      + (if app.Some? then I.Encode(|app.value|) + (app.value + body) else body))
  }

  function AllWindows(windows: seq<Window>): seq<byte> {
    if windows == [] then [] else WindowBytes(windows[0], AllWindows(windows[1..]))
  }

  function Targets(windows: seq<Window>): seq<byte> {
    if windows == [] then [] else windows[0].target + Targets(windows[1..])
  }

  // ---------------------------------------------------------------- field by field

  /** The settled state at a step. */
  ghost function At(c: Config, step: Step, f: Fields, out: seq<byte>): State {
    Settle(c, State(Running(step, f, [], 0), out))
  }

  lemma GoAccept(c: Config, step: Step, f: Fields, out: seq<byte>, v: nat, bs: seq<byte>, step': Step, f': Fields)
    requires step != EmitWin && Accept(step, f, v, bs) == Ok((step', f'))
    ensures Settle(c, Act(c, step, f, v, bs, out)) == At(c, step', f', out)
  {
    hide Accept, Settle;
  }

  lemma GoNothing(c: Config, step: Step, f: Fields, out: seq<byte>, step': Step, f': Fields)
    requires step != EmitWin && ItemOf(step, f) == Nothing && Accept(step, f, 0, []) == Ok((step', f'))
    ensures At(c, step, f, out) == At(c, step', f', out)
  {
    hide Accept;
  }

  lemma GoByte(c: Config, step: Step, f: Fields, out: seq<byte>, b: byte, rest: seq<byte>, step': Step, f': Fields)
    requires step != EmitWin && ItemOf(step, f) == OneByte && Accept(step, f, b, []) == Ok((step', f'))
    ensures FeedAll(c, At(c, step, f, out), [b] + rest) == FeedAll(c, At(c, step', f', out), rest)
  {
    hide Accept;
    FeedAppend(c, At(c, step, f, out), [b], rest);
    FeedOne(c, At(c, step, f, out), b);
  }

  lemma GoBytes(c: Config, step: Step, f: Fields, out: seq<byte>, bs: seq<byte>, rest: seq<byte>, step': Step,
                f': Fields)
    requires step != EmitWin && Accept(step, f, 0, bs) == Ok((step', f'))
    requires if bs == [] then ItemOf(step, f) == Nothing else ItemOf(step, f) == Bytes(|bs|)
    ensures FeedAll(c, At(c, step, f, out), bs + rest) == FeedAll(c, At(c, step', f', out), rest)
  {
    hide Accept;
    if bs == [] {
      GoNothing(c, step, f, out, step', f');
      assert bs + rest == rest;
    } else {
      FeedAppend(c, At(c, step, f, out), bs, rest);
      FeedBytes(c, At(c, step, f, out), bs, |bs|);
      assert [] + bs == bs;
    }
  }

  lemma Digit(c: Config, step: Step, f: Fields, out: seq<byte>, m: nat, limit: nat, d: byte)
    requires ItemOf(step, f) == Number(limit) && m < limit && d < 128
    ensures Feed(c, State(Running(step, f, [], m), out), d + 128) == State(Running(step, f, [], m * 128 + d), out)
    ensures Feed(c, State(Running(step, f, [], m), out), d) == Settle(c, Act(c, step, f, m * 128 + d, [], out))
    ensures At(c, step, f, out) == State(Running(step, f, [], 0), out)
  {
    hide Act, ItemOf;
  }

  lemma {:induction false} FeedDigits(c: Config, step: Step, f: Fields, out: seq<byte>, n: nat, limit: nat)
    requires ItemOf(step, f) == Number(limit) && n < 128 * limit
    ensures FeedAll(c, At(c, step, f, out), I.Continued(n)) == State(Running(step, f, [], n), out)
    decreases n
  {
    hide Feed, ItemOf, At, Settle, Act;
    if n > 0 {
      var m, d := n / 128, n % 128;
      FeedDigits(c, step, f, out, m, limit);
      FeedAppend(c, At(c, step, f, out), I.Continued(m), [d + 128]);
      FeedOne(c, State(Running(step, f, [], m), out), d + 128);
      Digit(c, step, f, out, m, limit, d);
    } else {
      Digit(c, step, f, out, 0, limit, 0);
    }
  }

  lemma GoNumber(c: Config, step: Step, f: Fields, out: seq<byte>, n: nat, limit: nat, rest: seq<byte>, step': Step,
                 f': Fields)
    requires step != EmitWin && ItemOf(step, f) == Number(limit) && n < 128 * limit
    requires Accept(step, f, n, []) == Ok((step', f'))
    ensures FeedAll(c, At(c, step, f, out), I.Encode(n) + rest) == FeedAll(c, At(c, step', f', out), rest)
  {
    hide Accept, ItemOf, At, Settle, Act, Feed;
    var s := At(c, step, f, out);
    Digit(c, step, f, out, n / 128, limit, n % 128);
    GoAccept(c, step, f, out, n, [], step', f');
    FeedDigits(c, step, f, out, n / 128, limit);
    FeedAppend(c, s, I.Continued(n / 128), [n % 128]);
    FeedOne(c, State(Running(step, f, [], n / 128), out), n % 128);
    FeedAppend(c, s, I.Encode(n), rest);
  }

  /** A number that is not accepted ends the decoding. */
  lemma GoNumberFails(c: Config, step: Step, f: Fields, out: seq<byte>, n: nat, limit: nat, rest: seq<byte>, e: Error)
    requires step != EmitWin && ItemOf(step, f) == Number(limit) && n < 128 * limit
    requires Accept(step, f, n, []) == Err(e)
    ensures FeedAll(c, At(c, step, f, out), I.Encode(n) + rest) == State(Failed(e), out)
  {
    hide Accept, ItemOf, At, Feed, FeedAll;
    var s, failed := At(c, step, f, out), State(Failed(e), out);
    Digit(c, step, f, out, n / 128, limit, n % 128);
    FeedDigits(c, step, f, out, n / 128, limit);
    FeedAppend(c, s, I.Continued(n / 128), [n % 128]);
    FeedOne(c, State(Running(step, f, [], n / 128), out), n % 128);
    FeedAppend(c, s, I.Encode(n), rest);
    FeedFailed(c, failed, rest);
  }

  // ---------------------------------------------------------------- a window

  function F1(w: Window, f: Fields): Fields {
    f.(winInd := w.Indicator(), winstart := f.winstart + f.tgtlen, cpylen := w.Cpylen(), cpyoff := w.Cpyoff())
  }

  function F2(w: Window, f: Fields): Fields {
    f.(enclen := w.EncLength(), tgtlen := |w.target|)
  }

  function F3(w: Window, f: Fields): Fields {
    f.(dataSize := |w.data|, instSize := |w.inst|, addrSize := |w.addr|)
  }

  function F4(w: Window, f: Fields): Fields {
    f.(adler := if w.adler then Checksums.WindowAdler(w.target) else f.adler)
  }

  function F5(w: Window, f: Fields): Fields {
    f.(data := w.data, inst := w.inst, addr := w.addr)
  }

  lemma FeedSegment(c: Config, w: Window, f: Fields, out: seq<byte>, rest: seq<byte>)
    requires w.Cpylen() <= USIZE_MAX && w.Cpyoff() + w.Cpylen() <= XOFF_MAX && f.winstart + f.tgtlen <= XOFF_MAX
    ensures var tail := if w.source.Some? then I.Encode(w.Cpylen()) + (I.Encode(w.Cpyoff()) + rest) else rest;
            FeedAll(c, At(c, WinInd, f, out), [w.Indicator()] + tail) == FeedAll(c, At(c, EncLen, F1(w, f), out), rest)
  {
    hide FeedAll, At, I.Encode, Flag;
    var tail := if w.source.Some? then I.Encode(w.Cpylen()) + (I.Encode(w.Cpyoff()) + rest) else rest;
    var g := f.(winInd := w.Indicator(), winstart := f.winstart + f.tgtlen, cpylen := 0, cpyoff := 0);
    GoByte(c, WinInd, f, out, w.Indicator(), tail, CpyLen, g);
    var h := g.(cpylen := w.Cpylen());
    if w.source.Some? {
      GoNumber(c, CpyLen, g, out, w.Cpylen(), 0x200_0000, I.Encode(w.Cpyoff()) + rest, CpyOff, h);
      GoNumber(c, CpyOff, h, out, w.Cpyoff(), 0x200_0000_0000_0000, rest, EncLen, F1(w, f));
    } else {
      GoNothing(c, CpyLen, g, out, CpyOff, h);
      GoNothing(c, CpyOff, h, out, EncLen, F1(w, f));
    }
  }

  lemma FeedLengths(c: Config, w: Window, f: Fields, out: seq<byte>, rest: seq<byte>)
    requires w.Bounded() && f.cpylen == w.Cpylen()
    ensures FeedAll(c, At(c, EncLen, f, out), I.Encode(w.EncLength()) + (I.Encode(|w.target|) + ([0] + rest)))
         == FeedAll(c, At(c, DataLen, F2(w, f), out), rest)
  {
    hide FeedAll, At, I.Encode, Flag, I.SizeOf;
    var g := f.(enclen := w.EncLength());
    GoNumber(c, EncLen, f, out, w.EncLength(), 0x200_0000, I.Encode(|w.target|) + ([0] + rest), TgtLen, g);
    GoNumber(c, TgtLen, g, out, |w.target|, 0x200_0000, [0] + rest, DelInd, F2(w, f));
    GoByte(c, DelInd, F2(w, f), out, 0, rest, DataLen, F2(w, f));
  }

  lemma FeedSizes(c: Config, w: Window, f: Fields, out: seq<byte>, rest: seq<byte>)
    requires w.Bounded()
    ensures FeedAll(c, At(c, DataLen, f, out), I.Encode(|w.data|) + (I.Encode(|w.inst|) + (I.Encode(|w.addr|) + rest)))
         == FeedAll(c, At(c, Cksum, F3(w, f), out), rest)
  {
    hide FeedAll, At, I.Encode, Flag, I.SizeOf;
    var g := f.(dataSize := |w.data|);
    var h := g.(instSize := |w.inst|);
    GoNumber(c, DataLen, f, out, |w.data|, 0x200_0000, I.Encode(|w.inst|) + (I.Encode(|w.addr|) + rest), InstLen, g);
    GoNumber(c, InstLen, g, out, |w.inst|, 0x200_0000, I.Encode(|w.addr|) + rest, AddrLen, h);
    GoNumber(c, AddrLen, h, out, |w.addr|, 0x200_0000, rest, Cksum, F3(w, f));
  }

  lemma FeedChecksum(c: Config, w: Window, f: Fields, out: seq<byte>, rest: seq<byte>)
    requires f.winInd == w.Indicator() && f.enclen == w.EncLength() && f.tgtlen == |w.target|
    requires f.dataSize == |w.data| && f.instSize == |w.inst| && f.addrSize == |w.addr|
    ensures var tail := if w.adler then FourBytes(Checksums.WindowAdler(w.target)) + rest else rest;
            FeedAll(c, At(c, Cksum, f, out), tail) == FeedAll(c, At(c, DataSect, F4(w, f), out), rest)
  {
    hide FeedAll, At, FourBytes, Checksums.WindowAdler, BigEndian, I.SizeOf;
    if w.adler {
      var a := Checksums.WindowAdler(w.target);
      AdlerFits(w.target);
      FourBytesBack(a);
      GoBytes(c, Cksum, f, out, FourBytes(a), rest, DataSect, F4(w, f));
    } else {
      GoNothing(c, Cksum, f, out, DataSect, F4(w, f));
    }
  }

  lemma FeedSections(c: Config, w: Window, f: Fields, out: seq<byte>, rest: seq<byte>)
    requires f.dataSize == |w.data| && f.instSize == |w.inst| && f.addrSize == |w.addr|
    ensures FeedAll(c, At(c, DataSect, f, out), w.data + (w.inst + (w.addr + rest)))
         == FeedAll(c, At(c, EmitWin, F5(w, f), out), rest)
  {
    hide FeedAll, At, Flag;
    var g := f.(data := w.data);
    var h := g.(inst := w.inst);
    GoBytes(c, DataSect, f, out, w.data, w.inst + (w.addr + rest), InstSect, g);
    GoBytes(c, InstSect, g, out, w.inst, w.addr + rest, AddrSect, h);
    GoBytes(c, AddrSect, h, out, w.addr, rest, EmitWin, F5(w, f));
  }

  lemma EmitGood(c: Config, w: Window, f: Fields, out: seq<byte>)
    requires w.Rebuilds(c) && f.winInd == w.Indicator() && f.cpylen == w.Cpylen() && f.cpyoff == w.Cpyoff()
    requires f.tgtlen == |w.target| && f.data == w.data && f.inst == w.inst && f.addr == w.addr
    requires w.adler ==> f.adler == Checksums.WindowAdler(w.target)
    ensures At(c, EmitWin, f, out) == At(c, WinInd, f.(windows := f.windows + 1), out + w.target)
  {
    hide DecodeFrom, Checksums.WindowAdler;
    assert WindowOf(c, f) == Ok(w.target);
    GoNothing(c, FinishWin, f, out + w.target, WinInd, f.(windows := f.windows + 1));
  }

  /** The fields a window leaves behind. */
  function AfterWindow(w: Window, f: Fields): Fields {
    var g := F5(w, F4(w, F3(w, F2(w, F1(w, f)))));
    g.(windows := g.windows + 1)
  }

  /** A window that rebuilds its target decodes to it, whatever follows. */
  lemma FeedWindow(c: Config, w: Window, f: Fields, out: seq<byte>, rest: seq<byte>)
    requires w.Rebuilds(c) && f.winstart + f.tgtlen <= XOFF_MAX
    ensures FeedAll(c, At(c, WinInd, f, out), WindowBytes(w, rest))
            == FeedAll(c, At(c, WinInd, AfterWindow(w, f), out + w.target), rest)
    ensures AfterWindow(w, f).winstart == f.winstart + f.tgtlen && AfterWindow(w, f).tgtlen == |w.target|
  {
    hide FeedAll, At, I.Encode, FourBytes, Checksums.WindowAdler, I.SizeOf, DecodeFrom, Flag;
    var tail1 := w.data + (w.inst + (w.addr + rest));
    var tail2 := if w.adler then FourBytes(Checksums.WindowAdler(w.target)) + tail1 else tail1;
    var tail3 := I.Encode(|w.data|) + (I.Encode(|w.inst|) + (I.Encode(|w.addr|) + tail2));
    var tail4 := I.Encode(w.EncLength()) + (I.Encode(|w.target|) + ([0] + tail3));
    var f1 := F1(w, f);
    var f2 := F2(w, f1);
    var f3 := F3(w, f2);
    var f4 := F4(w, f3);
    FeedSegment(c, w, f, out, tail4);
    FeedLengths(c, w, f1, out, tail3);
    FeedSizes(c, w, f2, out, tail2);
    FeedChecksum(c, w, f3, out, tail1);
    FeedSections(c, w, f4, out, rest);
    EmitGood(c, w, F5(w, f4), out);
  }

  /** A window whose source and target together exceed 32 bits is refused, whatever its sections:
      the encoder, which does not check this, must not make one. */
  lemma LongWindowRefused(c: Config, w: Window, f: Fields, out: seq<byte>, rest: seq<byte>)
    requires w.Cpylen() <= USIZE_MAX && w.Cpyoff() + w.Cpylen() <= XOFF_MAX && |w.target| <= USIZE_MAX
    requires w.EncLength() <= USIZE_MAX && f.winstart + f.tgtlen <= XOFF_MAX
    requires w.Cpylen() + |w.target| > USIZE_MAX
    ensures FeedAll(c, At(c, WinInd, f, out), WindowBytes(w, rest)) == State(Failed(InvalidInput), out)
  {
    hide FeedAll, At, I.Encode, FourBytes, Checksums.WindowAdler, I.SizeOf, Flag;
    var tail1 := w.data + (w.inst + (w.addr + rest));
    var tail2 := if w.adler then FourBytes(Checksums.WindowAdler(w.target)) + tail1 else tail1;
    var tail3 := I.Encode(|w.data|) + (I.Encode(|w.inst|) + (I.Encode(|w.addr|) + tail2));
    var tail4 := I.Encode(w.EncLength()) + (I.Encode(|w.target|) + ([0] + tail3));
    var f1 := F1(w, f);
    FeedSegment(c, w, f, out, tail4);
    var g := f1.(enclen := w.EncLength());
    GoNumber(c, EncLen, f1, out, w.EncLength(), 0x200_0000, I.Encode(|w.target|) + ([0] + tail3), TgtLen, g);
    GoNumberFails(c, TgtLen, g, out, |w.target|, 0x200_0000, [0] + tail3, InvalidInput);
  }

  // ---------------------------------------------------------------- a file

  function AfterAll(windows: seq<Window>, f: Fields): Fields {
    if windows == [] then f else AfterAll(windows[1..], AfterWindow(windows[0], f))
  }

  lemma {:induction false} FeedWindows(c: Config, windows: seq<Window>, f: Fields, out: seq<byte>)
    requires forall i :: 0 <= i < |windows| ==> windows[i].Rebuilds(c)
    requires f.winstart + f.tgtlen + |Targets(windows)| <= XOFF_MAX
    ensures FeedAll(c, At(c, WinInd, f, out), AllWindows(windows))
            == At(c, WinInd, AfterAll(windows, f), out + Targets(windows))
    ensures AfterAll(windows, f).windows == f.windows + |windows|
    decreases |windows|
  {
    hide WindowBytes, AfterWindow, Window.Rebuilds, FeedAll, At;
    if windows == [] {
      FeedNothing(c, At(c, WinInd, f, out));
      assert out + [] == out;
    } else {
      var w := windows[0];
      FeedWindow(c, w, f, out, AllWindows(windows[1..]));
      CountWindow(w, f);
      FeedWindows(c, windows[1..], AfterWindow(w, f), out + w.target);
      assert out + w.target + Targets(windows[1..]) == out + Targets(windows);
    }
  }

  lemma FeedNothing(c: Config, s: State)
    ensures FeedAll(c, s, []) == s
  {
  }

  lemma CountWindow(w: Window, f: Fields)
    ensures AfterWindow(w, f).windows == f.windows + 1
  {
  }

  lemma AtWinInd(c: Config, f: Fields, out: seq<byte>)
    ensures At(c, WinInd, f, out) == State(Running(WinInd, f, [], 0), out)
  {
  }

  function HeaderFields(app: Option<seq<byte>>): Fields {
    var f := Init().phase.f.(hdrInd := if app.Some? then 4 else 0);
    if app.Some? then f.(appheadsz := |app.value|, appheader := app.value) else f
  }

  lemma FeedApp(c: Config, app: Option<seq<byte>>, body: seq<byte>)
    requires app.Some? ==> |app.value| <= USIZE_MAX
    ensures var f := Init().phase.f.(hdrInd := if app.Some? then 4 else 0);
            FeedAll(c, At(c, AppLen, f, []), if app.Some? then I.Encode(|app.value|) + (app.value + body) else body)
            == FeedAll(c, At(c, WinInd, HeaderFields(app), []), body)
  {
    hide FeedAll, I.Encode, At;
    var f1 := Init().phase.f.(hdrInd := if app.Some? then 4 else 0);
    if app.Some? {
      var f2 := f1.(appheadsz := |app.value|);
      GoNumber(c, AppLen, f1, [], |app.value|, 0x200_0000, app.value + body, AppDat, f2);
      GoBytes(c, AppDat, f2, [], app.value, body, WinInd, f2.(appheader := app.value));
    } else {
      GoNothing(c, AppLen, f1, [], AppDat, f1);
      GoNothing(c, AppDat, f1, [], WinInd, f1);
    }
  }

  lemma InitAt(c: Config)
    ensures Init() == At(c, VcHead, Init().phase.f, [])
  {
  }

  lemma FeedHeader(c: Config, app: Option<seq<byte>>, body: seq<byte>)
    requires app.Some? ==> |app.value| <= USIZE_MAX
    ensures FeedAll(c, Init(), [0xd6, 0xc3, 0xc4, 0] + ([if app.Some? then 4 else 0]
                    + (if app.Some? then I.Encode(|app.value|) + (app.value + body) else body)))
            == FeedAll(c, At(c, WinInd, HeaderFields(app), []), body)
  {
    hide FeedAll, I.Encode, At;
    var f0 := Init().phase.f;
    var ind: byte := if app.Some? then 4 else 0;
    var tail := if app.Some? then I.Encode(|app.value|) + (app.value + body) else body;
    InitAt(c);
    GoBytes(c, VcHead, f0, [], [0xd6, 0xc3, 0xc4, 0], [ind] + tail, HdrInd, f0);
    var f1 := f0.(hdrInd := ind);
    GoByte(c, HdrInd, f0, [], ind, tail, SecondId, f1);
    GoNothing(c, SecondId, f1, [], AppLen, f1);
    FeedApp(c, app, body);
  }

  /** Every file of good windows decodes to the targets, ends between windows and counts them. */
  lemma FileRoundTrip(c: Config, app: Option<seq<byte>>, windows: seq<Window>)
    requires app.Some? ==> |app.value| <= USIZE_MAX
    requires forall i :: 0 <= i < |windows| ==> windows[i].Rebuilds(c)
    requires |Targets(windows)| <= XOFF_MAX
    ensures var s := FeedAll(c, Init(), FileBytes(app, windows));
            && s.phase.Running? && s.phase.step == WinInd && s.phase.got == [] && s.phase.part == 0
            && s.out == Targets(windows) && s.phase.f.windows == |windows|
  {
    hide FeedAll, At, I.Encode, Window.Rebuilds, AllWindows;
    var body := AllWindows(windows);
    var f := HeaderFields(app);
    FeedHeader(c, app, body);
    FeedWindows(c, windows, f, []);
    AtWinInd(c, AfterAll(windows, f), Targets(windows));
    assert [] + Targets(windows) == Targets(windows);
  }

  /** A window encoded against a segment that the file holds. */
  lemma EncodedRebuilds(c: Config, w: Window)
    requires w.Bounded() && w.Cpyoff() + w.Cpylen() <= |c.file|
    requires Segment(c.file, w.Cpyoff(), w.Cpylen(), c.shiftby).Fits()
    requires DecodeWindow(w.inst, w.addr, w.data, c.file[w.Cpyoff()..w.Cpyoff() + w.Cpylen()], |w.target|)
             == Ok(w.target)
    ensures w.Rebuilds(c)
  {
    hide DecodeFrom, DecodeWindow, Segment.Fits;
    DecodeFromWhole(Segment(c.file, w.Cpyoff(), w.Cpylen(), c.shiftby), w.inst, w.addr, w.data, |w.target|);
  }
}
