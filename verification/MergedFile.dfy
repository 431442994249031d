/** Merging from file to file: the windows of two deltas are merged, recoded and written, and the
    decoder makes of the new file what it makes of the two old ones in turn. */
module MergedFile {
  import opened Common
  import opened Delta
  import opened StreamFormat
  import opened StreamEncoder
  import opened WindowCodec
  import opened WindowEmitter
  import O = MergeOutput
  import R = MergeRecode
  import W = WholeWindows
  import C = StreamCut
  import I = Integers
  import opened BitStream

  /** A recoded window as the header writer sees it; no checksum is carried over. */
  function WindowFor(c: R.Coded, target: seq<byte>): Window {
    Window(if c.cpylen > 0 then Some((c.cpylen, c.cpyoff)) else None, false, target, c.data, c.inst, c.addr)
  }

  /** The windows with some content: what is written does not depend on it. */
  function Filled(coded: seq<R.Coded>): (ws: seq<Window>)
    ensures |ws| == |coded|
  {
    seq(|coded|, k requires 0 <= k < |coded| => WindowFor(coded[k], Repeat(0, coded[k].size)))
  }

  /** Windows that differ at most in the content of their targets, and have no checksum. */
  ghost predicate Alike(a: Window, b: Window) {
    !a.adler && b == a.(target := b.target) && |a.target| == |b.target|
  }

  lemma AlikeBytes(a: Window, b: Window, rest: seq<byte>)
    requires Alike(a, b)
    ensures WindowBytes(a, rest) == WindowBytes(b, rest)
  {
    hide I.Encode, I.SizeOf, FourBytes;
  }

  lemma {:induction false} AllAlikeBytes(a: seq<Window>, b: seq<Window>)
    requires |a| == |b| && forall k :: 0 <= k < |a| ==> Alike(a[k], b[k])
    ensures AllWindows(a) == AllWindows(b)
    decreases |a|
  {
    hide WindowBytes, Alike;
    if a != [] {
      AllAlikeBytes(a[1..], b[1..]);
      assert Alike(a[0], b[0]);
      AlikeBytes(a[0], b[0], AllWindows(a[1..]));
    }
  }

  lemma AlikeFiles(app: Option<seq<byte>>, a: seq<Window>, b: seq<Window>)
    requires |a| == |b| && forall k :: 0 <= k < |a| ==> Alike(a[k], b[k])
    ensures FileBytes(app, a) == FileBytes(app, b)
  {
    hide AllWindows, I.Encode;
    AllAlikeBytes(a, b);
  }

  // ---------------------------------------------------------------- for one source

  /** The window with the target that it has for this source. */
  ghost function Rebuilt(c: R.Coded, win: W.Window, s: seq<byte>): Window
    requires win.Valid(|s|)
  {
    WindowFor(c, Apply(win.insts, win.Source(s), []))
  }

  lemma RebuiltRebuilds(c: R.Coded, win: W.Window, s: seq<byte>, shiftby: nat)
    requires win.Valid(|s|) && R.Encodes(c, win) && c.size <= HARD_MAX_WINSIZE
    requires |s| + HARD_MAX_WINSIZE <= USIZE_MAX && Pow2(shiftby) <= USIZE_MAX
    ensures Rebuilt(c, win, s).Rebuilds(Config(s, shiftby))
  {
    hide DecodeWindow, Apply, TotalSize, AllApplicable, Pow2;
    var w := Rebuilt(c, win, s);
    assert |w.target| == c.size;
    WindowBounds(w, |s|);
    assert s[w.Cpyoff()..w.Cpyoff() + w.Cpylen()] == win.Source(s);
    SegmentFits(s, w.Cpyoff(), w.Cpylen(), shiftby);
    EncodedRebuilds(Config(s, shiftby), w);
  }

  lemma WindowBounds(w: Window, filesize: nat)
    requires |w.target| <= HARD_MAX_WINSIZE && w.Cpylen() + |w.target| <= USIZE_MAX
    requires w.Cpyoff() + w.Cpylen() <= filesize <= USIZE_MAX
    requires |w.inst| + |w.addr| + |w.data| <= 12 * |w.target|
    ensures w.Bounded()
  {
  }

  lemma SegmentFits(s: seq<byte>, off: nat, len: nat, shiftby: nat)
    requires off + len <= |s| <= USIZE_MAX && Pow2(shiftby) <= USIZE_MAX
    ensures Segment(s, off, len, shiftby).Fits()
  {
    RemainderLess(off, Pow2(shiftby));
  }

  /** All windows with their targets for this source. */
  ghost function AllRebuilt(coded: seq<R.Coded>, wins: seq<W.Window>, s: seq<byte>): (ws: seq<Window>)
    requires |coded| == |wins| && W.AllValid(wins, |s|)
    ensures |ws| == |wins|
  {
    seq(|wins|, k requires 0 <= k < |wins| => Rebuilt(coded[k], wins[k], s))
  }

  lemma {:induction false} TargetsAppend(a: seq<Window>, w: Window)
    ensures Targets(a + [w]) == Targets(a) + w.target
    decreases |a|
  {
    if a == [] {
      assert (a + [w])[1..] == [];
    } else {
      assert (a + [w])[0] == a[0] && (a + [w])[1..] == a[1..] + [w];
      TargetsAppend(a[1..], w);
    }
  }

  lemma {:induction false} RebuiltTargets(coded: seq<R.Coded>, wins: seq<W.Window>, s: seq<byte>)
    requires |coded| == |wins| && W.AllValid(wins, |s|)
    ensures Targets(AllRebuilt(coded, wins, s)) == W.DecodeAll(wins, s)
    decreases |wins|
  {
    hide Apply, W.Window.Valid;
    if wins != [] {
      var n := |wins| - 1;
      RebuiltTargets(coded[..n], wins[..n], s);
      assert wins[n].Valid(|s|);
      assert AllRebuilt(coded, wins, s) == AllRebuilt(coded[..n], wins[..n], s) + [Rebuilt(coded[n], wins[n], s)];
      TargetsAppend(AllRebuilt(coded[..n], wins[..n], s), Rebuilt(coded[n], wins[n], s));
    }
  }

  ghost predicate AllEncode(coded: seq<R.Coded>, wins: seq<W.Window>) {
    && |coded| == |wins|
    && forall k :: 0 <= k < |coded| ==> R.Encodes(coded[k], wins[k]) && coded[k].size <= HARD_MAX_WINSIZE
  }

  /** The file decodes, for this source, to what the windows decode to. */
  lemma FileDecodes(app: Option<seq<byte>>, coded: seq<R.Coded>, wins: seq<W.Window>, s: seq<byte>, shiftby: nat)
    requires AllEncode(coded, wins) && W.AllValid(wins, |s|) && (app.Some? ==> |app.value| <= USIZE_MAX)
    requires |s| + HARD_MAX_WINSIZE <= USIZE_MAX && Pow2(shiftby) <= USIZE_MAX
    requires |W.DecodeAll(wins, s)| <= XOFF_MAX
    ensures var r := FeedAll(Config(s, shiftby), Init(), FileBytes(app, Filled(coded)));
            C.Complete(r) && r.out == W.DecodeAll(wins, s)
  {
    hide FeedAll, FileBytes, W.DecodeAll, Window.Rebuilds, R.Encodes, Pow2, Init, WindowFor, W.Window.Valid, Targets;
    var ws := AllRebuilt(coded, wins, s);
    forall k | 0 <= k < |ws| ensures ws[k].Rebuilds(Config(s, shiftby)) && Alike(Filled(coded)[k], ws[k]) {
      assert wins[k].Valid(|s|) && R.Encodes(coded[k], wins[k]);
      RebuiltRebuilds(coded[k], wins[k], s, shiftby);
      FilledAlike(coded[k], wins[k], s);
    }
    AlikeFiles(app, Filled(coded), ws);
    RebuiltTargets(coded, wins, s);
    FileRoundTrip(Config(s, shiftby), app, ws);
  }

  lemma FilledAlike(c: R.Coded, win: W.Window, s: seq<byte>)
    requires win.Valid(|s|) && R.Encodes(c, win)
    ensures Alike(WindowFor(c, Repeat(0, c.size)), Rebuilt(c, win, s))
  {
    hide DecodeWindow, TotalSize, AllApplicable;
  }

  // ---------------------------------------------------------------- for every source

  /** The bytes decode, against every source of this length and in blocks of any size, to what
      the windows decode to. */
  ghost predicate Delivers(bytes: seq<byte>, wins: seq<W.Window>, srclen: nat)
    requires W.AllValid(wins, srclen)
  {
    forall s: seq<byte>, shiftby: nat :: |s| == srclen && Pow2(shiftby) <= USIZE_MAX ==>
      var r := FeedAll(Config(s, shiftby), Init(), bytes);
      C.Complete(r) && r.out == W.DecodeAll(wins, s)
  }

  /** The recoding loop of main_merge_output, with the file header. */
  method WriteMerged(wins: seq<W.Window>, ghost srclen: nat, app: Option<seq<byte>>) returns (bytes: seq<byte>)
    requires W.AllValid(wins, srclen) && srclen + HARD_MAX_WINSIZE <= USIZE_MAX
             && (app.Some? ==> |app.value| <= USIZE_MAX)
    requires forall k :: 0 <= k < |wins| ==> TotalSize(wins[k].insts) <= HARD_MAX_WINSIZE
    requires O.DecodedSize(wins) <= XOFF_MAX
    ensures Delivers(bytes, wins, srclen)
  {
    hide FileBytes, TotalSize, R.Encodes, AllApplicable, O.DecodedSize, W.DecodeAll, FeedAll, C.Complete, Pow2;
    var coded: seq<R.Coded> := [];
    var bdata := new byte[0];
    for k := 0 to |wins|
      invariant |coded| == k && fresh(bdata)
      invariant forall j :: 0 <= j < k ==> R.Encodes(coded[j], wins[j]) && coded[j].size <= HARD_MAX_WINSIZE
    {
      assert wins[k].Valid(srclen);
      var size := R.SizeOf(wins[k].insts);
      if bdata.Length < size {
        bdata := new byte[size](_ => 0);
      }
      var c := R.RecodeWindow(wins[k], bdata);
      EncodesSize(c, wins[k]);
      coded := coded + [c];
    }
    bytes := FileBytes(app, Filled(coded));
    forall s: seq<byte>, shiftby: nat | |s| == srclen && Pow2(shiftby) <= USIZE_MAX
      ensures var r := FeedAll(Config(s, shiftby), Init(), bytes);
              C.Complete(r) && r.out == W.DecodeAll(wins, s)
    {
      O.DecodedLength(wins, s);
      FileDecodes(app, coded, wins, s, shiftby);
    }
  }

  lemma EncodesSize(c: R.Coded, win: W.Window)
    requires R.Encodes(c, win)
    ensures c.size == TotalSize(win.insts)
  {
  }

  /** Merging two files gives a file that does to every source what the two do in turn. */
  method MergeToFile(first: seq<W.Window>, second: seq<W.Window>, srclen: nat, app: Option<seq<byte>>)
    returns (r: Result<seq<byte>>)
    requires W.AllValid(first, srclen) && second != [] && W.AllValid(second, O.DecodedSize(first))
    requires srclen + HARD_MAX_WINSIZE <= USIZE_MAX && (app.Some? ==> |app.value| <= USIZE_MAX)
    requires forall k :: 0 <= k < |second| ==> TotalSize(second[k].insts) <= HARD_MAX_WINSIZE
    requires O.DecodedSize(second) <= XOFF_MAX
    ensures r.Ok?
    ensures forall s: seq<byte>, shiftby: nat | |s| == srclen && Pow2(shiftby) <= USIZE_MAX ::
              |W.DecodeAll(first, s)| == O.DecodedSize(first)
              && var st := FeedAll(Config(s, shiftby), Init(), r.value);
                 C.Complete(st) && st.out == W.DecodeAll(second, W.DecodeAll(first, s))
  {
    hide TotalSize, O.DecodedSize, W.DecodeAll, W.AllValid, FeedAll, C.Complete, Pow2;
    var merged := O.MergeFiles(first, second, srclen);
    ghost var any := Repeat<byte>(0, srclen);
    O.DecodedLength(merged.value, any);
    O.DecodedLength(second, W.DecodeAll(first, any));
    var bytes := WriteMerged(merged.value, srclen, app);
    r := Ok(bytes);
  }
}
