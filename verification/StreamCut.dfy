/** What the decoder makes of a delta that ends too early.  The driver asks only whether an error
    was reported, so a cut file succeeds; this module says what was output by then and exactly
    which cuts leave a complete delta. */
module StreamCut {
  import opened Common
  import opened StreamFormat
  import opened StreamEncoder
  import I = Integers
  import Checksums

  /** Between windows, with no field begun: the delta may end here. */
  ghost predicate Complete(s: State) {
    s.phase.Running? && s.phase.step == WinInd && s.phase.got == [] && s.phase.part == 0
  }

  /** A state in which the decoder waits for input. */
  ghost predicate Settled(s: State) {
    s.phase.Running? ==> ItemOf(s.phase.step, s.phase.f) != Nothing
  }

  /** How far the decoder is: in the file header, between windows (even) or in a window (odd). */
  ghost function Height(s: State): int
    requires s.phase.Running?
  {
    if Rank(s.phase.step) < 5 then -1
    else 2 * s.phase.f.windows + if Rank(s.phase.step) > 5 then 1 else 0
  }

  // ---------------------------------------------------------------- every byte goes forward

  /** Fields that are accepted leave the count of windows alone until the last. */
  lemma AcceptCounts(step: Step, f: Fields, v: nat, bs: seq<byte>)
    requires step != EmitWin && Accept(step, f, v, bs).Ok?
    ensures var (step', f') := Accept(step, f, v, bs).value;
            if step == FinishWin then step' == WinInd && f'.windows == f.windows + 1
            else f'.windows == f.windows && if Rank(step) < 5 then Rank(step') <= 5 else Rank(step') > 5
  {
    hide EncodingLength, Flag, BigEndian;
  }

  /** An action goes forward; only a finished window adds output. */
  lemma ActClimbs(c: Config, step: Step, f: Fields, v: nat, bs: seq<byte>, out: seq<byte>, got: seq<byte>, part: nat)
    ensures var s, s' := State(Running(step, f, got, part), out), Act(c, step, f, v, bs, out);
            s'.phase.Running? ==>
              && Height(s) <= Height(s')
              && (step == WinInd ==> Height(s) < Height(s'))
              && s'.phase.f.windows == f.windows + (if step == FinishWin then 1 else 0)
              && (s'.out == out || (step == EmitWin && s'.phase.step == FinishWin))
              && (s'.phase.step == WinInd ==> step == FinishWin || Rank(step) < 5)
  {
    hide Accept, WindowOf;
    if step != EmitWin && Accept(step, f, v, bs).Ok? {
      AcceptCounts(step, f, v, bs);
    }
  }

  /** Output comes only together with the next window count. */
  ghost predicate Quiet(s: State, s': State)
    requires s.phase.Running? && s'.phase.Running?
  {
    s'.phase.f.windows <= s.phase.f.windows ==> s'.out == s.out
  }

  lemma {:induction false} SettleClimbs(c: Config, s: State)
    requires s.phase.Running? && s.phase.step != WinInd && Settle(c, s).phase.Running?
    ensures var r := Settle(c, s);
            && Height(s) <= Height(r) && s.phase.f.windows <= r.phase.f.windows
            && (s.phase.step != FinishWin ==> Quiet(s, r))
            && (s.phase.step == FinishWin ==> s.phase.f.windows < r.phase.f.windows)
    decreases 20 - Rank(s.phase.step)
  {
    hide WindowOf, Accept, ItemOf;
    if ItemOf(s.phase.step, s.phase.f) == Nothing {
      var s' := Act(c, s.phase.step, s.phase.f, 0, [], s.out);
      ActClimbs(c, s.phase.step, s.phase.f, 0, [], s.out, s.phase.got, s.phase.part);
      ActMovesOn(c, s.phase.step, s.phase.f, 0, [], s.out);
      if s'.phase.Running? && s'.phase.step != WinInd {
        SettleClimbs(c, s');
      } else if s'.phase.Running? {
        FinishReads(s'.phase.f);
      }
    } else {
      FinishReads(s.phase.f);
    }
  }

  lemma FinishReads(f: Fields)
    ensures ItemOf(FinishWin, f) == Nothing && ItemOf(WinInd, f) != Nothing
  {
  }

  /** Every byte goes forward, and from between windows strictly. */
  lemma FeedClimbs(c: Config, s: State, b: byte)
    requires s.phase.Running? && Settled(s) && Feed(c, s, b).phase.Running?
    ensures var r := Feed(c, s, b);
            && Settled(r) && Height(s) <= Height(r) && (s.phase.step == WinInd ==> Height(s) < Height(r))
            && s.phase.f.windows <= r.phase.f.windows && Quiet(s, r)
  {
    hide WindowOf, Accept;
    var Running(step, f, got, part) := s.phase;
    FinishReads(f);
    var v := if ItemOf(step, f).Number? then part * 128 + b else if ItemOf(step, f) == OneByte then b else 0;
    var bs := if ItemOf(step, f).Bytes? then got + [b] else [];
    var a := Act(c, step, f, v, bs, s.out);
    ActClimbs(c, step, f, v, bs, s.out, got, part);
    ActMovesOn(c, step, f, v, bs, s.out);
    if a.phase.Running? {
      FinishReads(a.phase.f);
      if a.phase.step != WinInd && Settle(c, a).phase.Running? {
        SettleClimbs(c, a);
      }
    }
  }

  /** So does every piece of the delta. */
  lemma {:induction false} FeedAllClimbs(c: Config, s: State, a: seq<byte>)
    requires s.phase.Running? && Settled(s) && FeedAll(c, s, a).phase.Running?
    ensures var r := FeedAll(c, s, a);
            && Settled(r) && Height(s) <= Height(r) && (a != [] && s.phase.step == WinInd ==> Height(s) < Height(r))
            && s.phase.f.windows <= r.phase.f.windows && Quiet(s, r)
    decreases |a|
  {
    hide Feed, Settled, Height, ItemOf;
    if a != [] {
      var front, b := a[..|a| - 1], a[|a| - 1];
      RunningBefore(c, s, front, [b]);
      assert front + [b] == a;
      FeedAllClimbs(c, s, front);
      FeedClimbs(c, FeedAll(c, s, front), b);
    }
  }

  /** What runs at the end ran before. */
  lemma RunningBefore(c: Config, s: State, a: seq<byte>, b: seq<byte>)
    requires FeedAll(c, s, a + b).phase.Running?
    ensures FeedAll(c, s, a).phase.Running?
  {
    hide FeedAll;
    FeedAppend(c, s, a, b);
    if FeedAll(c, s, a).phase.Failed? {
      FeedFailed(c, FeedAll(c, s, a), b);
    }
  }

  /** A cut strictly inside the bytes of one field group, header or window: lower than the end,
      higher than the start. */
  lemma CutBetween(c: Config, s: State, a: seq<byte>, b: seq<byte>)
    requires s.phase.Running? && Settled(s) && Complete(FeedAll(c, s, a + b)) && b != []
    ensures var r := FeedAll(c, s, a);
            && r.phase.Running? && Height(s) <= Height(r) < Height(FeedAll(c, s, a + b))
            && (a != [] && s.phase.step == WinInd ==> Height(s) < Height(r))
            && s.phase.f.windows <= r.phase.f.windows <= FeedAll(c, s, a + b).phase.f.windows && Quiet(s, r)
  {
    hide FeedAll, Height, Quiet;
    RunningBefore(c, s, a, b);
    FeedAllClimbs(c, s, a);
    FeedAppend(c, s, a, b);
    var r := FeedAll(c, s, a);
    FeedAllClimbs(c, r, b);
    if r.phase.step != WinInd {
      InsideIsLower(r, FeedAll(c, r, b));
    }
  }

  lemma InsideIsLower(r: State, s: State)
    requires r.phase.Running? && s.phase.Running? && r.phase.step != WinInd && s.phase.step == WinInd
    ensures Height(r) != Height(s)
  {
  }

  // ---------------------------------------------------------------- a cut among windows

  /** The number of windows that lie whole in the first n bytes. */
  function WholeBefore(windows: seq<Window>, n: nat): (k: nat)
    ensures k <= |windows|
    decreases |windows|
  {
    if windows == [] || n < |WindowBytes(windows[0], [])| then 0
    else 1 + WholeBefore(windows[1..], n - |WindowBytes(windows[0], [])|)
  }

  /** A window's bytes do not depend on what follows. */
  lemma WindowThen(w: Window, rest: seq<byte>)
    ensures WindowBytes(w, rest) == WindowBytes(w, []) + rest
  {
    hide I.Encode, FourBytes, I.SizeOf, Window.Indicator, Window.EncLength, Checksums.WindowAdler;
    var tail0 := w.data + (w.inst + (w.addr + []));
    var tail1 := w.data + (w.inst + (w.addr + rest));
    assert tail1 == tail0 + rest by {
      Twice(w.inst, w.addr, rest);
      Then(w.data, w.inst + (w.addr + []), rest);
    }
    var sum := FourBytes(Checksums.WindowAdler(w.target));
    var more0 := if w.adler then sum + tail0 else tail0;
    var more1 := if w.adler then sum + tail1 else tail1;
    assert more1 == more0 + rest by { Then(sum, tail0, rest); }
    var sizes0 := I.Encode(|w.data|) + (I.Encode(|w.inst|) + (I.Encode(|w.addr|) + more0));
    var sizes1 := I.Encode(|w.data|) + (I.Encode(|w.inst|) + (I.Encode(|w.addr|) + more1));
    assert sizes1 == sizes0 + rest by {
      Then(I.Encode(|w.addr|), more0, rest);
      Then(I.Encode(|w.inst|), I.Encode(|w.addr|) + more0, rest);
      Then(I.Encode(|w.data|), I.Encode(|w.inst|) + (I.Encode(|w.addr|) + more0), rest);
    }
    var lengths0 := I.Encode(w.EncLength()) + (I.Encode(|w.target|) + ([0] + sizes0));
    var lengths1 := I.Encode(w.EncLength()) + (I.Encode(|w.target|) + ([0] + sizes1));
    assert lengths1 == lengths0 + rest by {
      Then([0], sizes0, rest);
      Then(I.Encode(|w.target|), [0] + sizes0, rest);
      Then(I.Encode(w.EncLength()), I.Encode(|w.target|) + ([0] + sizes0), rest);
    }
    SourceThen(w, lengths0, rest);
  }

  /** The segment fields in front of the rest of the window. */
  lemma SourceThen(w: Window, lengths: seq<byte>, rest: seq<byte>)
    ensures var before := (tail: seq<byte>) =>
              if w.source.Some? then I.Encode(w.Cpylen()) + (I.Encode(w.Cpyoff()) + tail) else tail;
            [w.Indicator()] + before(lengths + rest) == [w.Indicator()] + before(lengths) + rest
  {
    hide I.Encode, Window.Indicator;
    if w.source.Some? {
      Then(I.Encode(w.Cpyoff()), lengths, rest);
      Then(I.Encode(w.Cpylen()), I.Encode(w.Cpyoff()) + lengths, rest);
      Then([w.Indicator()], I.Encode(w.Cpylen()) + (I.Encode(w.Cpyoff()) + lengths), rest);
    } else {
      Then([w.Indicator()], lengths, rest);
    }
  }

  lemma Then(a: seq<byte>, b: seq<byte>, rest: seq<byte>)
    ensures a + (b + rest) == a + b + rest
  {
  }

  lemma Twice(a: seq<byte>, b: seq<byte>, rest: seq<byte>)
    ensures a + (b + rest) == a + (b + []) + rest
  {
  }

  ghost predicate AllRebuild(windows: seq<Window>, c: Config) {
    forall i :: 0 <= i < |windows| ==> windows[i].Rebuilds(c)
  }

  /** Inside a window nothing is output yet. */
  lemma CutWindow(c: Config, w: Window, f: Fields, out: seq<byte>, n: nat)
    requires w.Rebuilds(c) && f.winstart + f.tgtlen <= XOFF_MAX && 0 < n < |WindowBytes(w, [])|
    ensures var s := FeedAll(c, At(c, WinInd, f, out), WindowBytes(w, [])[..n]);
            s.phase.Running? && !Complete(s) && s.out == out && s.phase.f.windows == f.windows
  {
    hide FeedAll, WindowBytes, AfterWindow, Window.Rebuilds, Settle;
    var all := WindowBytes(w, []);
    var s0 := At(c, WinInd, f, out);
    AtWinInd(c, f, out);
    FeedWindow(c, w, f, out, []);
    FeedNothing(c, At(c, WinInd, AfterWindow(w, f), out + w.target));
    AtWinInd(c, AfterWindow(w, f), out + w.target);
    CountWindow(w, f);
    assert all[..n] + all[n..] == all;
    CutBetween(c, s0, all[..n], all[n..]);
  }

  /** Among windows that rebuild their targets a cut leaves the targets of the whole windows, and
      the delta is complete if and only if the cut is between windows. */
  lemma {:induction false} CutWindows(c: Config, windows: seq<Window>, f: Fields, out: seq<byte>, n: nat)
    requires AllRebuild(windows, c) && n <= |AllWindows(windows)|
    requires f.winstart + f.tgtlen + |Targets(windows)| <= XOFF_MAX
    ensures var s := FeedAll(c, At(c, WinInd, f, out), AllWindows(windows)[..n]);
            var k := WholeBefore(windows, n);
            && s.phase.Running? && s.out == out + Targets(windows[..k]) && s.phase.f.windows == f.windows + k
            && (Complete(s) <==> n == |AllWindows(windows[..k])|)
            && |AllWindows(windows[..k])| <= n && (k < |windows| ==> n < |AllWindows(windows[..k + 1])|)
    decreases |windows|
  {
    hide FeedAll, WindowBytes, AfterWindow, Window.Rebuilds, At;
    var s0 := At(c, WinInd, f, out);
    AtWinInd(c, f, out);
    var bytes := AllWindows(windows)[..n];
    if windows == [] || n == 0 {
      assert bytes == [] && windows[..0] == [];
      FeedNothing(c, s0);
      assert out + [] == out;
      FirstSize(windows);
    } else {
      var w, rest := windows[0], windows[1..];
      var size := |WindowBytes(w, [])|;
      WindowThen(w, AllWindows(rest));
      FirstSize(windows);
      if n < size {
        assert bytes == WindowBytes(w, [])[..n] && windows[..0] == [];
        CutWindow(c, w, f, out, n);
        assert out + [] == out;
      } else {
        var k := WholeBefore(rest, n - size);
        assert bytes == WindowBytes(w, []) + AllWindows(rest)[..n - size];
        FeedAppend(c, s0, WindowBytes(w, []), AllWindows(rest)[..n - size]);
        FeedWindow(c, w, f, out, []);
        FeedNothing(c, At(c, WinInd, AfterWindow(w, f), out + w.target));
        CountWindow(w, f);
        CutWindows(c, rest, AfterWindow(w, f), out + w.target, n - size);
        TakeFirst(windows, k);
        if k < |rest| {
          TakeFirst(windows, k + 1);
        }
        assert out + w.target + Targets(rest[..k]) == out + Targets(windows[..k + 1]);
      }
    }
  }

  lemma FirstSize(windows: seq<Window>)
    ensures windows == [] || |AllWindows(windows[..1])| == |WindowBytes(windows[0], [])| > 1
  {
    if windows != [] {
      assert windows[..1][1..] == [];
    }
  }

  lemma TakeFirst(windows: seq<Window>, k: nat)
    requires windows != [] && k <= |windows[1..]|
    ensures |AllWindows(windows[..k + 1])| == |WindowBytes(windows[0], [])| + |AllWindows(windows[1..][..k])|
    ensures Targets(windows[..k + 1]) == windows[0].target + Targets(windows[1..][..k])
  {
    hide WindowBytes;
    assert windows[..k + 1][1..] == windows[1..][..k];
    WindowThen(windows[0], AllWindows(windows[1..][..k]));
  }

  // ---------------------------------------------------------------- a cut file

  /** The number of windows that lie whole before the cut. */
  function WholeWindows(app: Option<seq<byte>>, windows: seq<Window>, n: nat): (k: nat)
    ensures k <= |windows|
  {
    var header := |FileBytes(app, [])|;
    if n < header then 0 else WholeBefore(windows, n - header)
  }

  lemma HeaderThen(app: Option<seq<byte>>, windows: seq<Window>)
    ensures FileBytes(app, windows) == FileBytes(app, []) + AllWindows(windows)
  {
    hide I.Encode, WindowBytes;
    var body := AllWindows(windows);
    var magic, ind := [0xd6, 0xc3, 0xc4, 0], [if app.Some? then 4 else 0];
    if app.Some? {
      assert FileBytes(app, []) == magic + (ind + (I.Encode(|app.value|) + (app.value + [])));
      assert FileBytes(app, windows) == magic + (ind + (I.Encode(|app.value|) + (app.value + body)));
    }
  }

  /** Every cut of a file of good windows is accepted: the output is the targets of the windows
      before the cut, and the delta is complete if and only if the cut is at the end of the header
      or of a window. */
  lemma CutFile(c: Config, app: Option<seq<byte>>, windows: seq<Window>, n: nat)
    requires app.Some? ==> |app.value| <= USIZE_MAX
    requires AllRebuild(windows, c) && |Targets(windows)| <= XOFF_MAX && n <= |FileBytes(app, windows)|
    ensures var s := FeedAll(c, Init(), FileBytes(app, windows)[..n]);
            var k := WholeWindows(app, windows, n);
            && s.phase.Running? && s.out == Targets(windows[..k])
            && (Complete(s) <==> n == |FileBytes(app, windows[..k])|)
            && (k > 0 ==> |FileBytes(app, windows[..k])| <= n)
            && (k < |windows| ==> n < |FileBytes(app, windows[..k + 1])|)
  {
    hide FeedAll, FileBytes, AllWindows, At, AllRebuild, WholeBefore, Window.Rebuilds;
    var k := WholeWindows(app, windows, n);
    var header := FileBytes(app, []);
    HeaderThen(app, windows);
    HeaderThen(app, windows[..k]);
    if k < |windows| {
      HeaderThen(app, windows[..k + 1]);
    }
    HeaderFed(c, app);
    if n < |header| {
      assert FileBytes(app, windows)[..n] == header[..n];
      assert header[..n] + header[n..] == header;
      InitSettled(c);
      CutBetween(c, Init(), header[..n], header[n..]);
      HeaderHeights(FeedAll(c, Init(), header[..n]), HeaderFields(app));
      assert windows[..0] == [];
    } else {
      assert FileBytes(app, windows)[..n] == header + AllWindows(windows)[..n - |header|];
      FeedAppend(c, Init(), header, AllWindows(windows)[..n - |header|]);
      CutWindows(c, windows, HeaderFields(app), [], n - |header|);
      assert [] + Targets(windows[..k]) == Targets(windows[..k]);
    }
  }

  lemma InitSettled(c: Config)
    ensures Init().phase.Running? && Settled(Init()) && Height(Init()) == -1 && Init().out == []
  {
  }

  lemma HeaderFed(c: Config, app: Option<seq<byte>>)
    requires app.Some? ==> |app.value| <= USIZE_MAX
    ensures FeedAll(c, Init(), FileBytes(app, [])) == At(c, WinInd, HeaderFields(app), [])
    ensures At(c, WinInd, HeaderFields(app), []) == State(Running(WinInd, HeaderFields(app), [], 0), [])
    ensures HeaderFields(app).winstart + HeaderFields(app).tgtlen == 0 && HeaderFields(app).windows == 0
  {
    hide FeedAll, At, I.Encode;
    FeedHeader(c, app, []);
    FeedNothing(c, At(c, WinInd, HeaderFields(app), []));
    AtWinInd(c, HeaderFields(app), []);
  }

  /** Below the first window means in the header. */
  lemma HeaderHeights(s: State, f: Fields)
    requires s.phase.Running? && f.windows == 0 && Height(s) < Height(State(Running(WinInd, f, [], 0), []))
    ensures Rank(s.phase.step) < 5
  {
  }
}
