/** The other way round: a whole-file delta is cut into target windows, each with the source
    segment its copies need.  Models the window splitting of main_merge_output. */
module MergeOutput {
  import opened Common
  import opened Delta
  import opened Merge
  import W = WholeWindows

  /** The first `take` bytes of an instruction. */
  function Front(i: WInst, take: nat): WInst {
    i.(size := take)
  }

  /** What is left of it for the next window: literals and copies move on, a run does not. */
  function Rest(i: WInst, take: nat): WInst
    requires take <= i.size
  {
    WInst(i.kind, i.fromSource, i.size - take, if i.kind == RUN then i.addr else i.addr + take, i.position + take)
  }

  /** The instruction writes its part of t. */
  ghost predicate True(i: WInst, adds: seq<byte>, s: seq<byte>, t: seq<byte>) {
    i.InRange(|adds|, |s|) && i.End() <= |t| && Describes(i.ToInst(adds, |s|), s, t, i.position)
  }

  ghost predicate AllTrue(inst: seq<WInst>, adds: seq<byte>, s: seq<byte>, t: seq<byte>) {
    forall k :: 0 <= k < |inst| ==> True(inst[k], adds, s, t)
  }

  /** Both parts of a cut instruction write their parts. */
  lemma CutTrue(i: WInst, take: nat, adds: seq<byte>, s: seq<byte>, t: seq<byte>)
    requires True(i, adds, s, t) && 0 < take < i.size
    ensures True(Front(i, take), adds, s, t) && True(Rest(i, take), adds, s, t)
  {
    match i.kind {
      case ADD => CutAdd(i, take, adds, s, t);
      case COPY => CutCopy(i, take, adds, s, t);
      case RUN =>
    }
  }

  lemma CutAdd(i: WInst, take: nat, adds: seq<byte>, s: seq<byte>, t: seq<byte>)
    requires True(i, adds, s, t) && 0 < take < i.size && i.kind == ADD
    ensures True(Front(i, take), adds, s, t) && True(Rest(i, take), adds, s, t)
  {
    SliceOfSlice(adds, i.addr, i.addr + i.size, 0, take);
    SliceOfSlice(adds, i.addr, i.addr + i.size, take, i.size - take);
    SliceOfSlice(t, i.position, i.End(), 0, take);
    SliceOfSlice(t, i.position, i.End(), take, i.size - take);
  }

  lemma CutCopy(i: WInst, take: nat, adds: seq<byte>, s: seq<byte>, t: seq<byte>)
    requires True(i, adds, s, t) && 0 < take < i.size && i.kind == COPY
    ensures True(Front(i, take), adds, s, t) && True(Rest(i, take), adds, s, t)
  {
    var b, n := Rest(i, take), i.ToInst(adds, |s|);
    var m := b.ToInst(adds, |s|);
    forall p | b.position <= p < b.End() ensures t[p] == At(s, t, m.addr + (p - b.position)) {
      assert t[p] == At(s, t, n.addr + (p - i.position));
    }
  }

  /** The inner loop of main_merge_output: the pieces for a window of the given size and what is
      left of the instructions. */
  function Take(inst: seq<WInst>, size: nat): (seq<WInst>, seq<WInst>)
    decreases |inst|
  {
    if size == 0 || inst == [] then ([], inst)
    else if inst[0].size <= size then
      var (pieces, rest) := Take(inst[1..], size - inst[0].size);
      ([inst[0]] + pieces, rest)
    else ([Front(inst[0], size)], [Rest(inst[0], size)] + inst[1..])
  }

  /** The pieces fill the window, and both parts still tile and write the target. */
  lemma {:induction false} TakeTrue(inst: seq<WInst>, size: nat, adds: seq<byte>, s: seq<byte>, t: seq<byte>, pos: nat,
                                    n: nat)
    requires Contiguous(inst, pos, n) && AllTrue(inst, adds, s, t) && pos + size <= n
    ensures var (pieces, rest) := Take(inst, size);
            && Contiguous(pieces, pos, pos + size) && Contiguous(rest, pos + size, n)
            && AllTrue(pieces, adds, s, t) && AllTrue(rest, adds, s, t)
    decreases |inst|
  {
    hide True;
    if size > 0 && inst != [] {
      assert True(inst[0], adds, s, t);
      if inst[0].size <= size {
        TakeTrue(inst[1..], size - inst[0].size, adds, s, t, inst[0].End(), n);
      } else {
        CutTrue(inst[0], size, adds, s, t);
        assert ([Rest(inst[0], size)] + inst[1..])[1..] == inst[1..];
      }
    } else if inst == [] {
      assert size == 0;
    }
  }

  // ---------------------------------------------------------------- a window

  /** The source addresses of a list of pieces: none, or from lo to hi. */
  ghost predicate Spans(pieces: seq<WInst>, lo: nat, hi: nat) {
    forall k :: 0 <= k < |pieces| && pieces[k].kind == COPY && pieces[k].fromSource ==>
      lo <= pieces[k].addr && pieces[k].addr + pieces[k].size <= hi
  }

  ghost predicate UsesSource(i: WInst) {
    i.kind == COPY && i.fromSource
  }

  /** The range is no larger than it must be: both ends are in use, or nothing is. */
  ghost predicate Tight(pieces: seq<WInst>, lo: nat, hi: nat) {
    if forall k :: 0 <= k < |pieces| ==> !UsesSource(pieces[k]) then lo == hi == 0
    else
      && (exists k :: 0 <= k < |pieces| && UsesSource(pieces[k]) && pieces[k].addr == lo)
      && (exists k :: 0 <= k < |pieces| && UsesSource(pieces[k]) && pieces[k].addr + pieces[k].size == hi)
  }

  lemma TightSame(pieces: seq<WInst>, i: WInst, lo: nat, hi: nat)
    requires Tight(pieces, lo, hi) && !UsesSource(i)
    ensures Tight(pieces + [i], lo, hi)
  {
    var all := pieces + [i];
    assert forall k :: 0 <= k < |pieces| ==> all[k] == pieces[k];
    if k :| 0 <= k < |pieces| && UsesSource(pieces[k]) {
      var a :| 0 <= a < |pieces| && UsesSource(pieces[a]) && pieces[a].addr == lo;
      var b :| 0 <= b < |pieces| && UsesSource(pieces[b]) && pieces[b].addr + pieces[b].size == hi;
      assert UsesSource(all[a]) && UsesSource(all[b]);
    }
  }

  lemma TightFirst(pieces: seq<WInst>, i: WInst)
    requires UsesSource(i)
    ensures Tight(pieces + [i], i.addr, i.addr + i.size)
  {
    assert (pieces + [i])[|pieces|] == i;
  }

  lemma TightMore(pieces: seq<WInst>, i: WInst, lo: nat, hi: nat, k: nat)
    requires Tight(pieces, lo, hi) && UsesSource(i) && k < |pieces| && UsesSource(pieces[k])
    ensures Tight(pieces + [i], Min(lo, i.addr), Max(hi, i.addr + i.size))
  {
    var all := pieces + [i];
    assert all[|pieces|] == i && forall k :: 0 <= k < |pieces| ==> all[k] == pieces[k];
    var a :| 0 <= a < |pieces| && UsesSource(pieces[a]) && pieces[a].addr == lo;
    var b :| 0 <= b < |pieces| && UsesSource(pieces[b]) && pieces[b].addr + pieces[b].size == hi;
    assert UsesSource(all[a]) && UsesSource(all[b]);
  }

  /** Copies from the target stay within the window that starts at `start`. */
  predicate Local(pieces: seq<WInst>, start: nat) {
    forall k :: 0 <= k < |pieces| && pieces[k].kind == COPY && !pieces[k].fromSource ==> pieces[k].addr >= start
  }

  /** A piece as an instruction of its window. */
  function InWindow(i: WInst, adds: seq<byte>, start: nat, lo: nat, hi: nat): Inst
    requires Fits(i, |adds|, start, lo, hi)
  {
    match i.kind
    case ADD => Add(adds[i.addr..i.addr + i.size])
    case RUN => Run(adds[i.addr], i.size)
    case COPY => if i.fromSource then Copy(i.addr - lo, i.size) else Copy(hi - lo + (i.addr - start), i.size)
  }

  /** What writes the target of the file writes the target of the window. */
  lemma PieceInWindow(i: WInst, adds: seq<byte>, s: seq<byte>, t: seq<byte>, start: nat, end: nat, lo: nat, hi: nat)
    requires True(i, adds, s, t) && start <= i.position && i.End() <= end <= |t| && lo <= hi <= |s|
    requires Spans([i], lo, hi) && Local([i], start)
    ensures Fits(i, |adds|, start, lo, hi)
    ensures var j := InWindow(i, adds, start, lo, hi);
            Describes(j, s[lo..hi], t[start..end], i.position - start) && W.InSegment(j, hi - lo) && j.Size() == i.size
  {
    assert [i][0] == i;
    match i.kind {
      case ADD => SliceOfSlice(t, start, end, i.position - start, i.size);
      case COPY => CopyInWindow(i, adds, s, t, start, end, lo, hi);
      case RUN =>
        forall p | i.position - start <= p < i.End() - start ensures t[start..end][p] == adds[i.addr] {
          assert t[p + start] == i.ToInst(adds, |s|).value;
        }
    }
  }

  lemma CopyInWindow(i: WInst, adds: seq<byte>, s: seq<byte>, t: seq<byte>, start: nat, end: nat, lo: nat, hi: nat)
    requires True(i, adds, s, t) && start <= i.position && i.End() <= end <= |t| && lo <= hi <= |s| && i.kind == COPY
    requires if i.fromSource then lo <= i.addr && i.addr + i.size <= hi else start <= i.addr
    ensures var j := InWindow(i, adds, start, lo, hi);
            Describes(j, s[lo..hi], t[start..end], i.position - start) && W.InSegment(j, hi - lo)
  {
    var tw, seg, j, n := t[start..end], s[lo..hi], InWindow(i, adds, start, lo, hi), i.ToInst(adds, |s|);
    forall p | i.position - start <= p < i.End() - start
      ensures tw[p] == At(seg, tw, j.addr + (p - (i.position - start)))
    {
      assert t[p + start] == At(s, t, n.addr + (p + start - i.position));
    }
  }

  /** Every piece can be an instruction of the window. */
  ghost predicate Fit(pieces: seq<WInst>, adds: nat, start: nat, lo: nat, hi: nat) {
    lo <= hi && forall k :: 0 <= k < |pieces| ==> Fits(pieces[k], adds, start, lo, hi)
  }

  predicate Fits(i: WInst, adds: nat, start: nat, lo: nat, hi: nat) {
    match i.kind
    case ADD => i.addr + i.size <= adds
    case RUN => i.addr < adds
    case COPY => if i.fromSource then lo <= i.addr else start <= i.addr && lo <= hi
  }

  function WindowInsts(pieces: seq<WInst>, adds: seq<byte>, start: nat, lo: nat, hi: nat): (r: seq<Inst>)
    requires Fit(pieces, |adds|, start, lo, hi)
    ensures |r| == |pieces|
    ensures forall k :: 0 <= k < |r| ==> r[k] == InWindow(pieces[k], adds, start, lo, hi)
  {
    seq(|pieces|, k requires 0 <= k < |pieces| => InWindow(pieces[k], adds, start, lo, hi))
  }

  lemma {:induction false} WindowDescribes(pieces: seq<WInst>, adds: seq<byte>, s: seq<byte>, t: seq<byte>,
                                           start: nat, pos: nat, end: nat, lo: nat, hi: nat)
    requires Contiguous(pieces, pos, end) && start <= pos && end <= |t| && lo <= hi <= |s|
    requires AllTrue(pieces, adds, s, t) && Spans(pieces, lo, hi) && Local(pieces, start)
    ensures Fit(pieces, |adds|, start, lo, hi) && pos <= end
    ensures AllDescribe(WindowInsts(pieces, adds, start, lo, hi), s[lo..hi], t[start..end], pos - start)
    ensures TotalSize(WindowInsts(pieces, adds, start, lo, hi)) == end - pos
    ensures forall k :: 0 <= k < |pieces| ==> W.InSegment(WindowInsts(pieces, adds, start, lo, hi)[k], hi - lo)
    decreases |pieces|
  {
    hide Describes, InWindow;
    if pieces != [] {
      var i, more := pieces[0], pieces[1..];
      assert True(i, adds, s, t);
      WindowDescribes(more, adds, s, t, start, i.End(), end, lo, hi);
      assert Spans([i], lo, hi) && Local([i], start);
      PieceInWindow(i, adds, s, t, start, end, lo, hi);
      assert forall k :: 0 < k < |pieces| ==> pieces[k] == more[k - 1];
      assert Fit(pieces, |adds|, start, lo, hi);
      var all, rest := WindowInsts(pieces, adds, start, lo, hi), WindowInsts(more, adds, start, lo, hi);
      assert all[0] == InWindow(i, adds, start, lo, hi) && all[1..] == rest;
    }
  }

  /** The window of these pieces decodes to its part of the target. */
  lemma WindowMeaning(pieces: seq<WInst>, adds: seq<byte>, s: seq<byte>, t: seq<byte>, start: nat, end: nat, lo: nat,
                      hi: nat)
    requires Contiguous(pieces, start, end) && end <= |t| && lo <= hi <= |s|
    requires AllTrue(pieces, adds, s, t) && Spans(pieces, lo, hi) && Local(pieces, start)
    ensures Fit(pieces, |adds|, start, lo, hi) && start <= end
    ensures var w := W.Window(lo, hi - lo, WindowInsts(pieces, adds, start, lo, hi));
            w.Valid(|s|) && Apply(w.insts, w.Source(s), []) == t[start..end]
  {
    hide Describes, InWindow, Contiguous, True, Spans, Local, Fits;
    WindowDescribes(pieces, adds, s, t, start, start, end, lo, hi);
    Reproduced(WindowInsts(pieces, adds, start, lo, hi), s[lo..hi], t[start..end]);
  }

  lemma Reproduced(insts: seq<Inst>, src: seq<byte>, t: seq<byte>)
    requires AllDescribe(insts, src, t, 0) && TotalSize(insts) == |t|
    ensures AllApplicable(insts, |src|, 0) && Apply(insts, src, []) == t
  {
    hide Describes;
    assert t[..0] == [] && t[..|t|] == t;
    ApplyReproduces(insts, src, t, 0);
  }

  // ---------------------------------------------------------------- as it runs

  lemma TakeNext(inst: seq<WInst>, size: nat, pieces: seq<WInst>)
    requires inst != [] && size > 0
    ensures var take := Min(inst[0].size, size);
            var rest := if take == inst[0].size then inst[1..] else [Rest(inst[0], take)] + inst[1..];
            var (p, r) := Take(inst, size);
            var (p', r') := Take(rest, size - take);
            r == r' && pieces + p == pieces + [Front(inst[0], take)] + p'
  {
    if inst[0].size > size {
      assert Take([Rest(inst[0], size)] + inst[1..], 0) == ([], [Rest(inst[0], size)] + inst[1..]);
    }
  }

  /** Instructions that are not empty and copy from within the source. */
  ghost predicate Sane(inst: seq<WInst>, srclen: nat) {
    forall k :: 0 <= k < |inst| ==>
      inst[k].size > 0 && (inst[k].kind == COPY && inst[k].fromSource ==> inst[k].addr + inst[k].size <= srclen)
  }

  lemma SaneNext(inst: seq<WInst>, srclen: nat, take: nat)
    requires Sane(inst, srclen) && inst != [] && take <= inst[0].size
    ensures Sane(inst[1..], srclen) && (take < inst[0].size ==> Sane([Rest(inst[0], take)] + inst[1..], srclen))
    ensures inst[0].size > 0 && (inst[0].kind == COPY && inst[0].fromSource ==> inst[0].addr + inst[0].size <= srclen)
  {
  }

  lemma SpansSnoc(pieces: seq<WInst>, i: WInst, lo: nat, hi: nat, lo': nat, hi': nat)
    requires Spans(pieces, lo, hi) && Spans([i], lo', hi')
    requires (lo' <= lo && hi <= hi') || Spans(pieces, lo', hi')
    ensures Spans(pieces + [i], lo', hi')
  {
    assert [i][0] == i;
  }

  /** One window: pieces are queued, and exactly the source range they use is noted. */
  method CollectWindow(inst0: seq<WInst>, windowSize: nat, ghost srclen: nat)
    returns (pieces: seq<WInst>, inst: seq<WInst>, srcmin: nat, srcmax: nat)
    requires Sane(inst0, srclen)
    ensures (pieces, inst) == Take(inst0, windowSize) && Sane(inst, srclen)
    ensures Spans(pieces, srcmin, srcmax) && Tight(pieces, srcmin, srcmax) && srcmin <= srcmax <= srclen
  {
    hide Rest, Sane, Spans, Take, Tight;
    pieces, inst, srcmin, srcmax := [], inst0, 0, 0;
    var windowPos: nat, srcset := 0, false;
    ghost var first: nat := 0;
    NothingTight();
    assert [] + Take(inst0, windowSize).0 == Take(inst0, windowSize).0;
    NothingSpans();
    while windowPos < windowSize && inst != []
      invariant windowPos <= windowSize && Sane(inst, srclen)
      invariant var (p, r) := Take(inst, windowSize - windowPos); Take(inst0, windowSize) == (pieces + p, r)
      invariant Spans(pieces, srcmin, srcmax) && srcmin <= srcmax <= srclen
      invariant !srcset ==> forall lo, hi :: Spans(pieces, lo, hi)
      invariant Tight(pieces, srcmin, srcmax) && (srcset ==> first < |pieces| && UsesSource(pieces[first]))
      decreases windowSize - windowPos
    {
      var i := inst[0];
      var take: nat := Min(i.size, windowSize - windowPos);
      TakeNext(inst, windowSize - windowPos, pieces);
      SaneNext(inst, srclen, take);
      ghost var lo, hi := srcmin, srcmax;
      if i.kind == COPY && i.fromSource {
        if srcset {
          TightMore(pieces, Front(i, take), lo, hi, first);
          srcmin, srcmax := Min(srcmin, i.addr), Max(srcmax, i.addr + take);
        } else {
          TightFirst(pieces, Front(i, take));
          srcset, srcmin, srcmax, first := true, i.addr, i.addr + take, |pieces|;
        }
      } else {
        TightSame(pieces, Front(i, take), lo, hi);
      }
      OneSpans(Front(i, take), srcmin, srcmax);
      SpansSnoc(pieces, Front(i, take), lo, hi, srcmin, srcmax);
      if !srcset {
        forall x, y ensures Spans(pieces + [Front(i, take)], x, y) {
          OneSpans(Front(i, take), x, y);
          SpansSnoc(pieces, Front(i, take), x, y, x, y);
        }
      }
      pieces := pieces + [Front(i, take)];
      windowPos := windowPos + take;
      inst := if take == i.size then inst[1..] else [Rest(i, take)] + inst[1..];
    }
    TakeNothing(inst, windowSize - windowPos);
    assert pieces + [] == pieces;
  }

  lemma NothingTight()
    ensures Tight([], 0, 0)
  {
  }

  lemma NothingSpans()
    ensures forall lo, hi :: Spans([], lo, hi)
  {
  }

  lemma OneSpans(i: WInst, lo: nat, hi: nat)
    requires i.kind == COPY && i.fromSource ==> lo <= i.addr && i.addr + i.size <= hi
    ensures Spans([i], lo, hi)
  {
  }

  lemma TakeNothing(inst: seq<WInst>, size: nat)
    requires size == 0 || inst == []
    ensures Take(inst, size) == ([], inst)
  {
  }

  // ---------------------------------------------------------------- windows match

  /** The windows tile the target from pos to n. */
  ghost predicate Tiled(info: seq<WinInfo>, pos: nat, n: nat)
    decreases |info|
  {
    if info == [] then pos == n
    else info[0].offset == pos && Tiled(info[1..], pos + info[0].length, n)
  }

  /** A copy from the target stays in one window, with what it reads. */
  ghost predicate Homed(i: WInst, info: seq<WinInfo>) {
    i.kind == COPY && !i.fromSource ==>
      exists k :: 0 <= k < |info| && info[k].offset <= i.addr && info[k].offset <= i.position
                  && i.End() <= info[k].offset + info[k].length
  }

  ghost predicate AllHomed(inst: seq<WInst>, info: seq<WinInfo>) {
    forall k :: 0 <= k < |inst| ==> Homed(inst[k], info)
  }

  lemma {:induction false} TiledAt(info: seq<WinInfo>, pos: nat, n: nat, k: nat)
    requires Tiled(info, pos, n) && k < |info|
    ensures pos <= info[k].offset && info[k].offset + info[k].length <= n
    ensures Tiled(info[k..], info[k].offset, n) && Tiled(info[k + 1..], info[k].offset + info[k].length, n)
    ensures forall j :: k < j < |info| ==> info[k].offset + info[k].length <= info[j].offset
    decreases |info|
  {
    if k > 0 {
      TiledAt(info[1..], pos + info[0].length, n, k - 1);
      assert info[1..][k - 1..] == info[k..] && info[1..][k..] == info[k + 1..];
      forall j | k < j < |info| ensures info[k].offset + info[k].length <= info[j].offset {
        assert info[1..][j - 1] == info[j];
      }
    } else {
      assert info[0..] == info;
      TiledEnd(info[1..], pos + info[0].length, n);
      forall j | 0 < j < |info| ensures info[0].offset + info[0].length <= info[j].offset {
        TiledAt(info[1..], pos + info[0].length, n, j - 1);
      }
    }
  }

  lemma {:induction false} TiledEnd(info: seq<WinInfo>, pos: nat, n: nat)
    requires Tiled(info, pos, n)
    ensures pos <= n
    decreases |info|
  {
    if info != [] {
      TiledEnd(info[1..], pos + info[0].length, n);
    }
  }

  /** A position lies in one window only. */
  lemma SameWindow(info: seq<WinInfo>, n: nat, j: nat, k: nat, p: nat)
    requires Tiled(info, 0, n) && j < |info| && k < |info|
    requires info[j].offset <= p < info[j].offset + info[j].length
             && info[k].offset <= p < info[k].offset + info[k].length
    ensures j == k
  {
    TiledAt(info, 0, n, j);
    TiledAt(info, 0, n, k);
  }

  /** Homed instructions are never cut between windows, and their copies are local. */
  lemma {:induction false} TakeLocal(inst: seq<WInst>, info: seq<WinInfo>, n: nat, k: nat, pos: nat)
    requires Tiled(info, 0, n) && k < |info| && info[k].offset <= pos <= info[k].offset + info[k].length
    requires Contiguous(inst, pos, n) && AllHomed(inst, info) && forall j :: 0 <= j < |inst| ==> inst[j].size > 0
    ensures var (pieces, rest) := Take(inst, info[k].offset + info[k].length - pos);
            Local(pieces, info[k].offset) && AllHomed(rest, info)
    decreases |inst|
  {
    hide Homed;
    var size := info[k].offset + info[k].length - pos;
    if size > 0 && inst != [] {
      var i := inst[0];
      HomeIsHere(i, info, n, k, pos);
      if i.size <= size {
        TakeLocal(inst[1..], info, n, k, i.End());
      } else {
        assert Homed(Rest(i, size), info) by { NoTargetHomed(Rest(i, size), info); }
      }
    }
  }

  lemma NoTargetHomed(i: WInst, info: seq<WinInfo>)
    requires i.kind == COPY ==> i.fromSource
    ensures Homed(i, info)
  {
  }

  lemma HomeIsHere(i: WInst, info: seq<WinInfo>, n: nat, k: nat, pos: nat)
    requires Tiled(info, 0, n) && k < |info| && Homed(i, info) && i.position == pos && i.size > 0
    requires info[k].offset <= pos < info[k].offset + info[k].length
    ensures i.kind == COPY && !i.fromSource ==> info[k].offset <= i.addr && i.End() <= info[k].offset + info[k].length
  {
    if i.kind == COPY && !i.fromSource {
      var j :| 0 <= j < |info| && info[j].offset <= i.addr && info[j].offset <= i.position
        && i.End() <= info[j].offset + info[j].length;
      SameWindow(info, n, j, k, pos);
    }
  }

  /** Merging keeps the second delta's windows: its target copies are kept, and the pieces that
      replace its source copies are no target copies. */
  lemma {:induction false} MergeHomed(out: Whole, src: Whole, s: seq<byte>, inst: seq<WInst>, adds: seq<byte>, n: nat,
                                      info: seq<WinInfo>)
    requires WellFormed(src, |s|) && WellFormed(out, |s|)
    requires Contiguous(inst, out.length, n) && AllInRange(inst, |adds|, src.length)
    requires AllHomed(out.inst, info) && AllHomed(inst, info)
    ensures Mergeable(inst, |adds|, src.length)
    ensures var r := MergeInsts(out, src, |s|, inst, adds); r.Ok? && AllHomed(r.value.inst, info)
    decreases |inst|
  {
    hide WellFormed, Target, MergeInst, Homed;
    RangeIsMergeable(inst, |adds|, src.length);
    if inst != [] {
      assert inst[0].InRange(|adds|, src.length);
      MergeInstMeaning(out, src, s, inst[0], adds);
      MergeInstHomed(out, src, s, inst[0], adds, info);
      MergeHomed(MergeInst(out, src, |s|, inst[0], adds).value, src, s, inst[1..], adds, n, info);
    }
  }

  lemma MergeInstHomed(out: Whole, src: Whole, s: seq<byte>, i: WInst, adds: seq<byte>, info: seq<WinInfo>)
    requires WellFormed(src, |s|) && i.InRange(|adds|, src.length) && AllHomed(out.inst, info) && Homed(i, info)
    ensures var r := MergeInst(out, src, |s|, i, adds); r.Ok? ==> AllHomed(r.value.inst, info)
  {
    hide WellFormed, Target, SourceCopy;
    if i.kind == COPY && i.fromSource {
      if i.addr < src.length {
        var next := SourceCopy(out, src, |s|, i.addr, i.size, i.position);
        SourceCopySupplies(out, src, s, i.addr, i.size, i.position);
        SuppliesHomed(out, next, s, i.position, Target(src, s)[i.addr..i.addr + i.size], info);
      }
    } else if i.kind != COPY {
      NoTargetHomed(i.(addr := |out.adds|, position := out.length), info);
    }
  }

  lemma SuppliesHomed(out: Whole, next: Whole, s: seq<byte>, position: nat, bytes: seq<byte>, info: seq<WinInfo>)
    requires Supplies(out, next, s, position, bytes) && AllHomed(out.inst, info)
    ensures AllHomed(next.inst, info)
  {
    var inst: seq<WInst>, more: seq<byte> :| SuppliesBy(out, next, s, position, bytes, inst, more);
    hide Writes, Contiguous;
    forall k | 0 <= k < |inst| ensures Homed(inst[k], info) {
      NoTargetHomed(inst[k], info);
    }
  }

  // ---------------------------------------------------------------- collected windows are homed

  lemma HomedMore(i: WInst, info: seq<WinInfo>, x: WinInfo)
    requires Homed(i, info)
    ensures Homed(i, info + [x])
  {
    if i.kind == COPY && !i.fromSource {
      var k :| 0 <= k < |info| && info[k].offset <= i.addr && info[k].offset <= i.position
        && i.End() <= info[k].offset + info[k].length;
      assert (info + [x])[k] == info[k];
    }
  }

  lemma {:induction false} TiledSnoc(info: seq<WinInfo>, x: WinInfo, pos: nat, n: nat)
    requires Tiled(info, pos, n) && x.offset == n
    ensures Tiled(info + [x], pos, n + x.length)
    decreases |info|
  {
    if info == [] {
      assert (info + [x])[1..] == [];
    } else {
      assert (info + [x])[1..] == info[1..] + [x];
      TiledSnoc(info[1..], x, pos + info[0].length, n);
    }
  }

  lemma {:induction false} AppendInstsHomed(w: Whole, insts: seq<Inst>, cpyoff: nat, cpylen: nat, info: seq<WinInfo>,
                                            k: nat)
    requires k < |info| && info[k].offset <= w.length && w.length + TotalSize(insts) <= info[k].offset + info[k].length
    requires AllHomed(w.inst, info)
    ensures var r := W.AppendInsts(w, insts, cpyoff, cpylen, info[k].offset);
            AllHomed(r.inst, info) && r.length == w.length + TotalSize(insts) && r.wininfo == w.wininfo
    decreases |insts|
  {
    if insts != [] {
      var next := W.AppendInst(w, insts[0], cpyoff, cpylen, info[k].offset);
      assert AllHomed(next.inst, info);
      AppendInstsHomed(next, insts[1..], cpyoff, cpylen, info, k);
    }
  }

  /** The windows of a delta file tile its target, and its copies stay in them. */
  lemma {:induction false} CollectHomed(wins: seq<W.Window>)
    ensures var w := W.Collect(wins);
            Tiled(w.wininfo, 0, w.length) && AllHomed(w.inst, w.wininfo) && |w.wininfo| == |wins|
    decreases |wins|
  {
    if wins != [] {
      hide Homed;
      var win, w := wins[|wins| - 1], W.Collect(wins[..|wins| - 1]);
      CollectHomed(wins[..|wins| - 1]);
      var x := WinInfo(w.length, TotalSize(win.insts), 0);
      forall k | 0 <= k < |w.inst| ensures Homed(w.inst[k], w.wininfo + [x]) {
        HomedMore(w.inst[k], w.wininfo, x);
      }
      TiledSnoc(w.wininfo, x, 0, w.length);
      AppendInstsHomed(w.(wininfo := w.wininfo + [x]), win.insts, win.cpyoff, win.cpylen, w.wininfo + [x], |w.wininfo|);
    }
  }

  // ---------------------------------------------------------------- the output

  lemma {:induction false} TakeAll(inst: seq<WInst>, size: nat, pos: nat, n: nat)
    requires Contiguous(inst, pos, n) && pos + size >= n && forall j :: 0 <= j < |inst| ==> inst[j].size > 0
    ensures Take(inst, size) == (inst, [])
    decreases |inst|
  {
    if inst != [] {
      ContiguousEnd(inst, pos, n);
      TakeAll(inst[1..], size - inst[0].size, inst[0].End(), n);
      assert [inst[0]] + inst[1..] == inst;
    }
  }

  lemma {:induction false} ContiguousEnd(inst: seq<WInst>, pos: nat, n: nat)
    requires Contiguous(inst, pos, n)
    ensures pos <= n && (inst != [] ==> inst[0].End() <= n)
    decreases |inst|
  {
    if inst != [] {
      ContiguousEnd(inst[1..], inst[0].End(), n);
    }
  }

  /** What remains to be written after `pos` bytes of the target. */
  ghost predicate Remains(inst: seq<WInst>, w: Whole, s: seq<byte>, t: seq<byte>, pos: nat) {
    Contiguous(inst, pos, w.length) && AllTrue(inst, w.adds, s, t) && pos <= w.length == |t| && Sane(inst, |s|)
  }

  lemma TakeRemains(inst: seq<WInst>, w: Whole, s: seq<byte>, t: seq<byte>, pos: nat, size: nat)
    requires Remains(inst, w, s, t, pos)
    ensures var (pieces, rest) := Take(inst, size);
            var end := Min(pos + size, w.length);
            Remains(rest, w, s, t, end) && Contiguous(pieces, pos, end) && AllTrue(pieces, w.adds, s, t)
  {
    hide True;
    var left := Min(size, w.length - pos);
    if left < size {
      TakeAll(inst, size, pos, w.length);
      TakeAll(inst, left, pos, w.length);
    }
    TakeTrue(inst, left, w.adds, s, t, pos, w.length);
    TakeSane(inst, left, |s|);
  }

  lemma {:induction false} TakeSane(inst: seq<WInst>, size: nat, srclen: nat)
    requires Sane(inst, srclen)
    ensures Sane(Take(inst, size).1, srclen)
    decreases |inst|
  {
    if size > 0 && inst != [] {
      if inst[0].size <= size {
        TakeSane(inst[1..], size - inst[0].size, srclen);
      } else {
        SaneNext(inst, srclen, size);
      }
    }
  }

  lemma RemainsAtFirst(w: Whole, s: seq<byte>)
    requires WellFormed(w, |s|)
    ensures Remains(w.inst, w, s, Target(w, s), 0)
  {
    hide Target;
    forall k | 0 <= k < |w.inst| ensures True(w.inst[k], w.adds, s, Target(w, s)) && w.inst[k].InRange(|w.adds|, |s|) {
      TargetAt(w, s, k);
    }
  }

  /** The windows still to be written tile the rest of the target, or some check will fail. */
  ghost predicate Matching(w: Whole, inst: seq<WInst>, k: nat, pos: nat) {
    Tiled(w.wininfo, 0, w.length) && k <= |w.wininfo| && Tiled(w.wininfo[k..], pos, w.length)
    && AllHomed(inst, w.wininfo)
  }

  lemma MatchingNext(w: Whole, inst: seq<WInst>, k: nat, pos: nat)
    requires Matching(w, inst, k, pos) && k < |w.wininfo| && Contiguous(inst, pos, w.length)
             && forall j :: 0 <= j < |inst| ==> inst[j].size > 0
    ensures w.wininfo[k].offset == pos && pos + w.wininfo[k].length <= w.length
    ensures var (pieces, rest) := Take(inst, w.wininfo[k].length);
            Local(pieces, pos) && Matching(w, rest, k + 1, pos + w.wininfo[k].length)
  {
    hide Homed, Take;
    TiledAt(w.wininfo, 0, w.length, k);
    assert w.wininfo[k..][0] == w.wininfo[k];
    TakeLocal(inst, w.wininfo, w.length, k, pos);
  }

  lemma MatchingMore(w: Whole, inst: seq<WInst>, k: nat, pos: nat)
    requires Matching(w, inst, k, pos) && inst != [] && inst[0].size > 0 && Contiguous(inst, pos, w.length)
    ensures k < |w.wininfo|
  {
    ContiguousEnd(inst, pos, w.length);
  }

  /** What remains, whatever the source holds. */
  ghost predicate AllRemain(inst: seq<WInst>, w: Whole, srclen: nat, pos: nat)
    requires WellFormed(w, srclen)
  {
    forall s: seq<byte> :: |s| == srclen ==> Remains(inst, w, s, Target(w, s), pos)
  }

  lemma AllRemainSizes(inst: seq<WInst>, w: Whole, srclen: nat, pos: nat)
    requires WellFormed(w, srclen) && AllRemain(inst, w, srclen, pos)
    ensures forall j :: 0 <= j < |inst| ==> inst[j].size > 0
    ensures Contiguous(inst, pos, w.length) && Sane(inst, srclen) && pos <= w.length
  {
    var any := Repeat(0, srclen);
    RemainsSizes(inst, w, any, Target(w, any), pos);
  }

  /** A window writes its part of the target, whatever the source holds. */
  ghost predicate Writes(win: W.Window, w: Whole, srclen: nat, pos: nat, end: nat)
    requires WellFormed(w, srclen)
  {
    && pos <= end <= w.length && win.Valid(srclen)
    && forall s: seq<byte> :: |s| == srclen ==> Apply(win.insts, win.Source(s), []) == Target(w, s)[pos..end]
  }

  lemma TakeWrites(inst: seq<WInst>, w: Whole, srclen: nat, pos: nat, size: nat, lo: nat, hi: nat)
    requires WellFormed(w, srclen) && AllRemain(inst, w, srclen, pos)
    requires var (pieces, rest) := Take(inst, size); Spans(pieces, lo, hi) && Local(pieces, pos)
    requires lo <= hi <= srclen
    ensures var (pieces, rest) := Take(inst, size);
            var end := Min(pos + size, w.length);
            && Contiguous(pieces, pos, end) && Fit(pieces, |w.adds|, pos, lo, hi) && AllRemain(rest, w, srclen, end)
            && Writes(W.Window(lo, hi - lo, WindowInsts(pieces, w.adds, pos, lo, hi)), w, srclen, pos, end)
  {
    hide Take, Contiguous, AllTrue, Sane, Spans, Local, Fit, WindowInsts, AllDescribe, WellFormed, Target;
    var (pieces, rest) := Take(inst, size);
    var end := Min(pos + size, w.length);
    AllRemainSizes(inst, w, srclen, pos);
    forall s: seq<byte> | |s| == srclen
      ensures Contiguous(pieces, pos, end) && Fit(pieces, |w.adds|, pos, lo, hi) && pos <= end
      ensures Remains(rest, w, s, Target(w, s), end)
      ensures var win := W.Window(lo, hi - lo, WindowInsts(pieces, w.adds, pos, lo, hi));
              win.Valid(srclen) && Apply(win.insts, win.Source(s), []) == Target(w, s)[pos..end]
    {
      TakeRemains(inst, w, s, Target(w, s), pos, size);
      WindowMeaning(pieces, w.adds, s, Target(w, s), pos, end, lo, hi);
    }
    assert |Repeat<byte>(0, srclen)| == srclen;
  }

  /** One round of the outer loop: a window, what is left, and the new output position. */
  method NextWindow(w: Whole, inst: seq<WInst>, k: nat, pos: nat, ghost srclen: nat)
    returns (r: Result<W.Window>, rest: seq<WInst>, end: nat)
    requires WellFormed(w, srclen) && AllRemain(inst, w, srclen, pos) && k < |w.wininfo|
    ensures r.Ok? ==> AllRemain(rest, w, srclen, end) && Writes(r.value, w, srclen, pos, end)
    ensures r.Ok? ==> end - pos <= w.wininfo[k].length
    ensures r.Ok? ==> Tight(Take(inst, w.wininfo[k].length).0, r.value.cpyoff, r.value.cpyoff + r.value.cpylen)
    ensures r.Ok? <==> pos == w.wininfo[k].offset && Local(Take(inst, w.wininfo[k].length).0, pos)
    ensures Matching(w, inst, k, pos) ==> r.Ok? && Matching(w, rest, k + 1, end)
  {
    hide Take, Contiguous, Sane, Spans, Local, Fit, WindowInsts, Matching, AllRemain, Writes, WellFormed;
    rest, end := inst, pos;
    AllRemainSizes(inst, w, srclen, pos);
    if Matching(w, inst, k, pos) {
      MatchingNext(w, inst, k, pos);
    }
    if pos != w.wininfo[k].offset {
      return Err(InvalidInput), inst, pos;
    }
    var size := w.wininfo[k].length;
    var pieces, lo, hi;
    pieces, rest, lo, hi := CollectWindow(inst, size, srclen);
    if !Local(pieces, pos) {
      return Err(Internal), inst, pos;
    }
    TakeWrites(inst, w, srclen, pos, size, lo, hi);
    end := pos + TotalOf(pieces, pos, Min(pos + size, w.length));
    r := Ok(W.Window(lo, hi - lo, WindowInsts(pieces, w.adds, pos, lo, hi)));
  }

  /** The windows so far decode to the beginning of the target, whatever the source holds. */
  ghost predicate WrittenSoFar(wins: seq<W.Window>, w: Whole, srclen: nat, pos: nat)
    requires WellFormed(w, srclen)
  {
    && pos <= w.length && W.AllValid(wins, srclen)
    && forall s: seq<byte> :: |s| == srclen ==> W.DecodeAll(wins, s) == Target(w, s)[..pos]
  }

  lemma WrittenMore(wins: seq<W.Window>, win: W.Window, w: Whole, srclen: nat, pos: nat, end: nat)
    requires WellFormed(w, srclen) && WrittenSoFar(wins, w, srclen, pos) && Writes(win, w, srclen, pos, end)
    ensures WrittenSoFar(wins + [win], w, srclen, end)
  {
    hide WellFormed, Target, W.AllValid, W.DecodeAll, Apply, W.Window.Valid;
    forall s: seq<byte> | |s| == srclen
      ensures W.AllValid(wins + [win], srclen) && W.DecodeAll(wins + [win], s) == Target(w, s)[..end]
    {
      DecodeSnoc(wins, win, s);
      assert Target(w, s)[..pos] + Target(w, s)[pos..end] == Target(w, s)[..end];
    }
    assert |Repeat<byte>(0, srclen)| == srclen;
  }

  /** main_merge_output: the windows decode, one after the other, to the target of the whole
      delta, whatever the source holds, and each is as long as its window information says.  It
      succeeds for every delta whose copies stay in its windows, like any merged one. */
  method SplitOutput(w: Whole, ghost srclen: nat) returns (r: Result<seq<W.Window>>)
    requires WellFormed(w, srclen)
    ensures r.Ok? ==> W.AllValid(r.value, srclen)
    ensures r.Ok? ==> forall s: seq<byte> :: |s| == srclen ==> W.DecodeAll(r.value, s) == Target(w, s)
    ensures r.Ok? ==> |r.value| <= |w.wininfo|
                      && forall k :: 0 <= k < |r.value| ==> TotalSize(r.value[k].insts) <= w.wininfo[k].length
    ensures Tiled(w.wininfo, 0, w.length) && AllHomed(w.inst, w.wininfo) && w.wininfo != [] ==> r.Ok?
  {
    hide WellFormed, Target, AllRemain, Matching, W.AllValid, W.DecodeAll, Apply, Tiled, AllHomed, Writes, WrittenSoFar;
    hide TotalSize;
    AllRemainAtFirst(w, srclen);
    var inst, outputPos: nat, windowNum: nat, atLeastOnce := w.inst, 0, 0, false;
    var wins: seq<W.Window> := [];
    ghost var good := Tiled(w.wininfo, 0, w.length) && AllHomed(w.inst, w.wininfo) && w.wininfo != [];
    MatchingFirst(w);
    while inst != [] || !atLeastOnce
      invariant AllRemain(inst, w, srclen, outputPos) && windowNum <= |w.wininfo| && (!atLeastOnce ==> windowNum == 0)
      invariant WrittenSoFar(wins, w, srclen, outputPos) && |wins| == windowNum
      invariant forall k :: 0 <= k < windowNum ==> TotalSize(wins[k].insts) <= w.wininfo[k].length
      invariant good ==> Matching(w, inst, windowNum, outputPos)
      decreases |w.wininfo| - windowNum
    {
      if good && inst != [] {
        AllRemainSizes(inst, w, srclen, outputPos);
        MatchingMore(w, inst, windowNum, outputPos);
      }
      atLeastOnce := true;
      if windowNum == |w.wininfo| {
        return Err(Internal);
      }
      var win, rest, end := NextWindow(w, inst, windowNum, outputPos, srclen);
      if win.Err? {
        return Err(win.error);
      }
      WritesSize(win.value, w, srclen, outputPos, end);
      WrittenMore(wins, win.value, w, srclen, outputPos, end);
      wins, inst, outputPos, windowNum := wins + [win.value], rest, end, windowNum + 1;
    }
    AllWritten(wins, w, srclen, outputPos);
    r := Ok(wins);
  }

  lemma WritesSize(win: W.Window, w: Whole, srclen: nat, pos: nat, end: nat)
    requires WellFormed(w, srclen) && Writes(win, w, srclen, pos, end)
    ensures TotalSize(win.insts) == end - pos
  {
    hide WellFormed, Target;
    var any := Repeat<byte>(0, srclen);
    assert Apply(win.insts, win.Source(any), []) == Target(w, any)[pos..end];
    assert |Target(w, any)| == w.length by { TargetLength(w, any); }
  }

  lemma TargetLength(w: Whole, s: seq<byte>)
    requires WellFormed(w, |s|)
    ensures |Target(w, s)| == w.length
  {
    RemainsAtFirst(w, s);
  }

  lemma AllRemainAtFirst(w: Whole, srclen: nat)
    requires WellFormed(w, srclen)
    ensures AllRemain(w.inst, w, srclen, 0) && WrittenSoFar([], w, srclen, 0)
  {
    hide WellFormed, Target, Remains;
    forall s: seq<byte> | |s| == srclen ensures Remains(w.inst, w, s, Target(w, s), 0) {
      RemainsAtFirst(w, s);
    }
  }

  lemma AllWritten(wins: seq<W.Window>, w: Whole, srclen: nat, pos: nat)
    requires WellFormed(w, srclen) && AllRemain([], w, srclen, pos) && WrittenSoFar(wins, w, srclen, pos)
    ensures W.AllValid(wins, srclen)
    ensures forall s: seq<byte> :: |s| == srclen ==> W.DecodeAll(wins, s) == Target(w, s)
  {
    hide WellFormed, Target, W.AllValid, W.DecodeAll, Remains;
    forall s: seq<byte> | |s| == srclen ensures W.DecodeAll(wins, s) == Target(w, s) {
      RemainsDone(w, s, Target(w, s), pos);
    }
  }

  /** The bytes that the pieces of a window write (window_pos at the end of the inner loop). */
  function TotalOf(pieces: seq<WInst>, ghost pos: nat, ghost end: nat): (n: nat)
    requires Contiguous(pieces, pos, end)
    ensures pos + n == end
    decreases |pieces|
  {
    if pieces == [] then 0 else pieces[0].size + TotalOf(pieces[1..], pieces[0].End(), end)
  }

  lemma MatchingFirst(w: Whole)
    ensures Tiled(w.wininfo, 0, w.length) && AllHomed(w.inst, w.wininfo) ==> Matching(w, w.inst, 0, 0)
  {
    assert w.wininfo[0..] == w.wininfo;
  }

  lemma RemainsSizes(inst: seq<WInst>, w: Whole, s: seq<byte>, t: seq<byte>, pos: nat)
    requires Remains(inst, w, s, t, pos)
    ensures forall j :: 0 <= j < |inst| ==> inst[j].size > 0
    ensures Contiguous(inst, pos, w.length) && Sane(inst, |s|) && pos <= |t|
  {
  }

  lemma RemainsDone(w: Whole, s: seq<byte>, t: seq<byte>, pos: nat)
    requires Remains([], w, s, t, pos)
    ensures t[..pos] == t
  {
  }

  lemma DecodeSnoc(wins: seq<W.Window>, win: W.Window, s: seq<byte>)
    requires W.AllValid(wins, |s|) && win.Valid(|s|)
    ensures W.AllValid(wins + [win], |s|)
    ensures W.DecodeAll(wins + [win], s) == W.DecodeAll(wins, s) + Apply(win.insts, win.Source(s), [])
  {
    assert (wins + [win])[..|wins|] == wins;
  }

  /** The size of what the windows decode to. */
  function DecodedSize(wins: seq<W.Window>): nat {
    if wins == [] then 0 else DecodedSize(wins[..|wins| - 1]) + TotalSize(wins[|wins| - 1].insts)
  }

  lemma {:induction false} DecodedLength(wins: seq<W.Window>, s: seq<byte>)
    requires W.AllValid(wins, |s|)
    ensures |W.DecodeAll(wins, s)| == DecodedSize(wins)
    decreases |wins|
  {
    if wins != [] {
      assert wins[|wins| - 1].Valid(|s|);
      DecodedLength(wins[..|wins| - 1], s);
    }
  }

  /** Two delta files become one: read into whole states, merged, and cut into the windows of the
      second.  The result, decoded against any source, is the second decoded against what the
      first makes of that source. */
  method MergeFiles(first: seq<W.Window>, second: seq<W.Window>, srclen: nat) returns (r: Result<seq<W.Window>>)
    requires W.AllValid(first, srclen) && second != [] && W.AllValid(second, DecodedSize(first))
    ensures r.Ok? && W.AllValid(r.value, srclen) && |r.value| <= |second|
    ensures forall k :: 0 <= k < |r.value| ==> TotalSize(r.value[k].insts) <= TotalSize(second[k].insts)
    ensures forall s: seq<byte> | |s| == srclen ::
              |W.DecodeAll(first, s)| == DecodedSize(first)
              && W.DecodeAll(r.value, s) == W.DecodeAll(second, W.DecodeAll(first, s))
  {
    hide WellFormed, Target, W.AllValid, W.DecodeAll, Homed, Tiled, W.Collect, MergeInsts, DecodedSize, TotalSize;
    var a, b := W.Collect(first), W.Collect(second);
    ghost var any := Repeat<byte>(0, srclen);
    MergedAlways(first, second, any);
    CollectHomed(second);
    MergedHomed(a, b, any);
    CollectInfo(second);
    var merged := MergeInputs(a, srclen, b);
    r := SplitOutput(merged.value, srclen);
    forall s: seq<byte> | |s| == srclen
      ensures |W.DecodeAll(first, s)| == DecodedSize(first)
      ensures W.DecodeAll(r.value, s) == W.DecodeAll(second, W.DecodeAll(first, s))
    {
      MergedAlways(first, second, s);
    }
  }

  /** What the merge of the collected files means for one source. */
  lemma MergedAlways(first: seq<W.Window>, second: seq<W.Window>, s: seq<byte>)
    requires W.AllValid(first, |s|) && W.AllValid(second, DecodedSize(first))
    ensures var a, b := W.Collect(first), W.Collect(second);
            && WellFormed(a, |s|) && WellFormed(b, a.length) && Mergeable(b.inst, |b.adds|, a.length)
            && |W.DecodeAll(first, s)| == DecodedSize(first)
            && var r := MergeInputs(a, |s|, b);
               && r.Ok? && WellFormed(r.value, |s|) && r.value.length == b.length && r.value.wininfo == b.wininfo
               && Target(r.value, s) == W.DecodeAll(second, W.DecodeAll(first, s))
  {
    hide WellFormed, Target, W.AllValid, W.DecodeAll, W.Collect, MergeInsts, DecodedSize;
    var a, b := W.Collect(first), W.Collect(second);
    DecodedLength(first, s);
    W.CollectMeaning(first, s);
    TargetLength(a, s);
    W.CollectMeaning(second, W.DecodeAll(first, s));
    MergeIsComposition(a, b, s);
  }

  /** The window information has the sizes of the windows. */
  lemma {:induction false} CollectInfo(wins: seq<W.Window>)
    ensures var w := W.Collect(wins);
            |w.wininfo| == |wins| && forall k :: 0 <= k < |wins| ==> w.wininfo[k].length == TotalSize(wins[k].insts)
    decreases |wins|
  {
    if wins != [] {
      hide TotalSize;
      var win, w := wins[|wins| - 1], W.Collect(wins[..|wins| - 1]);
      CollectInfo(wins[..|wins| - 1]);
      AppendKeepsInfo(w.(wininfo := w.wininfo + [WinInfo(w.length, TotalSize(win.insts), 0)]), win.insts,
                      win.cpyoff, win.cpylen, w.length);
    }
  }

  lemma {:induction false} AppendKeepsInfo(w: Whole, insts: seq<Inst>, cpyoff: nat, cpylen: nat, winstart: nat)
    ensures W.AppendInsts(w, insts, cpyoff, cpylen, winstart).wininfo == w.wininfo
    decreases |insts|
  {
    if insts != [] {
      AppendKeepsInfo(W.AppendInst(w, insts[0], cpyoff, cpylen, winstart), insts[1..], cpyoff, cpylen, winstart);
    }
  }

  lemma MergedHomed(a: Whole, b: Whole, s: seq<byte>)
    requires WellFormed(a, |s|) && WellFormed(b, a.length) && AllHomed(b.inst, b.wininfo)
    ensures Mergeable(b.inst, |b.adds|, a.length)
    ensures var r := MergeInputs(a, |s|, b); r.Ok? && AllHomed(r.value.inst, b.wininfo)
  {
    MergeHomed(Whole([], [], 0, b.wininfo), a, s, b.inst, b.adds, b.length, b.wininfo);
  }
}
