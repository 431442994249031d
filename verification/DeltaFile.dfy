/** From end to end: the matcher's queue becomes a window, the windows a delta file, and the
    decoder, fed that file in any chunks, the target again. */
module DeltaFile {
  import opened Common
  import opened StreamFormat
  import opened StreamEncoder
  import opened WindowCodec
  import opened WindowEncoder
  import E = Encoder
  import M = Matcher
  import D = StreamDecoder
  import Em = WindowEmitter
  import Q = Queue
  import C = StreamCut
  import I = Integers

  /** Addresses in the file are addresses in the chosen window of it. */
  lemma Rebase(q: seq<Q.Match>, file: seq<byte>, input: seq<byte>, lo: nat, hi: nat)
    requires M.GoodQueue(q, file, input, lo, hi) && lo <= hi <= |file|
    ensures AllGenuine(q, Source(lo, file[lo..hi]), input)
  {
    forall i | 0 <= i < |q| ensures Genuine(q[i], Source(lo, file[lo..hi]), input) {
      assert M.True(q[i], file, input) && M.Between(q[i], lo, hi);
      RebaseOne(q[i], file, input, lo, hi);
    }
  }

  lemma RebaseOne(m: Q.Match, file: seq<byte>, input: seq<byte>, lo: nat, hi: nat)
    requires M.True(m, file, input) && M.Between(m, lo, hi) && lo <= hi <= |file|
    ensures Genuine(m, Source(lo, file[lo..hi]), input)
  {
    var s, s2 := Source(0, file), Source(lo, file[lo..hi]);
    forall p | m.pos <= p < m.End() ensures input[p] == Claimed(m, s2, input, p) {
      assert input[p] == Claimed(m, s, input, p);
    }
  }

  /** A sound search is all that encoding a window needs: xd3_srcwin_setup for exactly the
      addresses in use, a forced flush and the final ADD.  What comes out decodes to the input;
      the only error is a source window that is too long. */
  method EncodeTarget(search: M.Search, adler: bool) returns (r: Result<Window>)
    requires search.Sound()
    requires search.maxAddr - search.minAddr <= USIZE_MAX ==>
               search.maxAddr - search.minAddr + |search.input| <= USIZE_MAX
    ensures r.Err? <==> search.maxAddr - search.minAddr > USIZE_MAX
    ensures r.Ok? ==>
              && r.value.target == search.input && r.value.adler == adler
              && r.value.Cpyoff() + r.value.Cpylen() <= |search.file|
              && r.value.Cpylen() + |search.input| <= USIZE_MAX
              && (r.value.Cpylen() > 0 ==> r.value.Cpyoff() == search.minAddr)
              && (r.value.Cpylen() == search.maxAddr - search.minAddr)
              && |r.value.inst| + |r.value.addr| + |r.value.data| <= 12 * |search.input|
              && DecodeWindow(r.value.inst, r.value.addr, r.value.data,
                              search.file[r.value.Cpyoff()..r.value.Cpyoff() + r.value.Cpylen()],
                              |search.input|) == Ok(search.input)
  {
    hide DecodeWindow, Q.Ordered, Genuine;
    var srcbase, srclen := search.minAddr, search.maxAddr - search.minAddr;
    if srclen > USIZE_MAX {
      return Err(Internal);
    }
    ghost var src := search.file[srcbase..srcbase + srclen];
    Rebase(search.used, search.file, search.input, search.minAddr, search.maxAddr);
    var e := new E.Encoder(search.input, srcbase, srclen, search.used, search.free);
    QueueReady(search.used, search.file, search.input, search.minAddr, search.maxAddr);
    e.EncodeWindow(src);
    if srclen > 0 {
      r := Ok(Window(Some((srclen, srcbase)), adler, search.input, e.dataSect, e.instSect, e.addrSect));
    } else {
      assert src == search.file[0..0];
      r := Ok(Window(None, adler, search.input, e.dataSect, e.instSect, e.addrSect));
    }
  }

  lemma QueueReady(q: seq<Q.Match>, file: seq<byte>, input: seq<byte>, lo: nat, hi: nat)
    requires M.GoodQueue(q, file, input, lo, hi) && lo <= hi <= |file|
    ensures Q.Ordered(q)
    ensures forall i :: 0 <= i < |q| ==> q[i].End() <= |input| && Addressable(q[i], lo, hi - lo)
  {
    forall i | 0 <= i < |q| ensures q[i].End() <= |input| && Addressable(q[i], lo, hi - lo) {
      assert M.True(q[i], file, input) && M.Between(q[i], lo, hi);
    }
  }

  /** The lengths of a window of at most HARD_MAX_WINSIZE bytes fit its header. */
  lemma WindowBounded(w: Window, filesize: nat)
    requires |w.target| <= HARD_MAX_WINSIZE && w.Cpylen() + |w.target| <= USIZE_MAX
    requires w.Cpyoff() + w.Cpylen() <= filesize <= XOFF_MAX
    requires |w.inst| + |w.addr| + |w.data| <= 12 * |w.target|
    ensures w.Bounded()
  {
  }

  // ---------------------------------------------------------------- whole files

  /** A sound search whose window can be sent to a decoder that reads the source in these blocks. */
  ghost predicate Sendable(search: M.Search, file: seq<byte>, shiftby: nat)
    reads search
  {
    && search.Sound() && search.file == file && |search.input| <= HARD_MAX_WINSIZE
    && search.maxAddr - search.minAddr + |search.input| <= USIZE_MAX
    && Em.Segment(file, search.minAddr, search.maxAddr - search.minAddr, shiftby).Fits()
  }

  /** Every sendable search gives a window that rebuilds its input from the source. */
  method EncodeDelta(searches: seq<M.Search>, file: seq<byte>, shiftby: nat, adler: bool) returns (windows: seq<Window>)
    requires |file| <= XOFF_MAX
    requires forall i :: 0 <= i < |searches| ==> Sendable(searches[i], file, shiftby)
    ensures |windows| == |searches| && C.AllRebuild(windows, Config(file, shiftby))
    ensures forall i :: 0 <= i < |windows| ==> windows[i].target == searches[i].input
  {
    hide DecodeWindow, Window.Rebuilds, Window.Bounded, Em.Segment.Fits;
    windows := [];
    for n := 0 to |searches|
      invariant |windows| == n && C.AllRebuild(windows, Config(file, shiftby))
      invariant forall i :: 0 <= i < n ==> windows[i].target == searches[i].input
    {
      var r := EncodeTarget(searches[n], adler);
      var w := r.value;
      WindowBounded(w, |file|);
      SegmentFits(file, w.Cpyoff(), w.Cpylen(), searches[n].minAddr, shiftby);
      EncodedRebuilds(Config(file, shiftby), w);
      windows := windows + [w];
    }
  }

  lemma SegmentFits(file: seq<byte>, off: nat, len: nat, base: nat, shiftby: nat)
    requires Em.Segment(file, base, len, shiftby).Fits() && (len > 0 ==> off == base)
    ensures Em.Segment(file, off, len, shiftby).Fits()
  {
  }

  /** The inputs of the searches, one after another. */
  function Inputs(searches: seq<M.Search>): seq<byte> {
    if searches == [] then [] else searches[0].input + Inputs(searches[1..])
  }

  lemma {:induction false} TargetsAreInputs(windows: seq<Window>, searches: seq<M.Search>)
    requires |windows| == |searches|
    requires forall i :: 0 <= i < |windows| ==> windows[i].target == searches[i].input
    ensures Targets(windows) == Inputs(searches)
    decreases |windows|
  {
    if windows != [] {
      TargetsAreInputs(windows[1..], searches[1..]);
    }
  }

  /** A file read in pieces of the given sizes, the rest in one piece. */
  function Chunks(bytes: seq<byte>, sizes: seq<nat>): seq<seq<byte>>
    decreases |sizes|
  {
    if sizes == [] then [bytes]
    else
      var n := Min(sizes[|sizes| - 1], |bytes|);
      Chunks(bytes[..|bytes| - n], sizes[..|sizes| - 1]) + [bytes[|bytes| - n..]]
  }

  lemma {:induction false} ChunksConcat(bytes: seq<byte>, sizes: seq<nat>)
    ensures D.Concat(Chunks(bytes, sizes)) == bytes
    decreases |sizes|
  {
    if sizes == [] {
      assert [bytes][..0] == [] && [] + bytes == bytes;
    } else {
      var n := Min(sizes[|sizes| - 1], |bytes|);
      var front, last := Chunks(bytes[..|bytes| - n], sizes[..|sizes| - 1]), bytes[|bytes| - n..];
      ChunksConcat(bytes[..|bytes| - n], sizes[..|sizes| - 1]);
      assert (front + [last])[..|front|] == front;
      assert bytes[..|bytes| - n] + last == bytes;
    }
  }

  /** A delta file of windows that rebuild their targets, cut into any chunks and applied to the
      source in blocks of any size, gives the targets. */
  method ApplyDelta(file: seq<byte>, shiftby: nat, app: Option<seq<byte>>, windows: seq<Window>, chunks: seq<seq<byte>>)
    returns (ok: bool, out: seq<byte>)
    requires app.Some? ==> |app.value| <= USIZE_MAX
    requires C.AllRebuild(windows, Config(file, shiftby))
    requires |Targets(windows)| <= XOFF_MAX && D.Concat(chunks) == FileBytes(app, windows)
    ensures ok && out == Targets(windows)
  {
    hide Window.Rebuilds, FileBytes, FeedAll;
    FileRoundTrip(Config(file, shiftby), app, windows);
    ok, out := D.Dedelta(file, shiftby, chunks);
  }

  /** The same for a file that ends early: the driver still succeeds, with the targets of the
      windows before the end; the automaton is complete if and only if that is between windows. */
  method ApplyCut(file: seq<byte>, shiftby: nat, app: Option<seq<byte>>, windows: seq<Window>, n: nat,
                  chunks: seq<seq<byte>>)
    returns (ok: bool, out: seq<byte>)
    requires app.Some? ==> |app.value| <= USIZE_MAX
    requires C.AllRebuild(windows, Config(file, shiftby)) && |Targets(windows)| <= XOFF_MAX
    requires n <= |FileBytes(app, windows)| && D.Concat(chunks) == FileBytes(app, windows)[..n]
    ensures ok && out == Targets(windows[..C.WholeWindows(app, windows, n)])
    ensures C.Complete(FeedAll(Config(file, shiftby), Init(), D.Concat(chunks)))
        <==> n == |FileBytes(app, windows[..C.WholeWindows(app, windows, n)])|
  {
    hide Window.Rebuilds, FileBytes, FeedAll, C.Complete, C.WholeWindows;
    C.CutFile(Config(file, shiftby), app, windows, n);
    ok, out := D.Dedelta(file, shiftby, chunks);
  }

  /** From end to end: whatever the matcher found in a number of windows, the delta file made of
      it, cut into any chunks, gives the inputs back. */
  method EncodeThenApply(searches: seq<M.Search>, file: seq<byte>, shiftby: nat, app: Option<seq<byte>>, adler: bool,
                         sizes: seq<nat>)
    returns (ok: bool, out: seq<byte>)
    requires |file| <= XOFF_MAX && |Inputs(searches)| <= XOFF_MAX && (app.Some? ==> |app.value| <= USIZE_MAX)
    requires forall i :: 0 <= i < |searches| ==> Sendable(searches[i], file, shiftby)
    ensures ok && out == Inputs(searches)
  {
    hide FileBytes, Sendable, C.AllRebuild, Chunks;
    var windows := EncodeDelta(searches, file, shiftby, adler);
    TargetsAreInputs(windows, searches);
    var bytes := FileBytes(app, windows);
    ChunksConcat(bytes, sizes);
    ok, out := ApplyDelta(file, shiftby, app, windows, Chunks(bytes, sizes));
  }
}
