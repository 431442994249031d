/** The last step of a merge: each window of the merged delta goes through the encoder's back end
    and into the output file.  Literals are put into the input buffer, runs and copies are queued,
    and the gaps between them become ADDs again. */
module MergeRecode {
  import opened Common
  import opened Delta
  import opened WindowCodec
  import opened WindowEncoder
  import E = Encoder
  import Q = Queue
  import W = WholeWindows

  // ---------------------------------------------------------------- the queue

  /** The match that xd3_emit_run or xd3_found_match puts into the queue; none for an ADD. */
  function Queued(i: Inst, pos: nat, base: nat, srclen: nat): seq<Q.Match> {
    match i
    case Add(_) => []
    case Run(value, count) => [Q.RunMatch(pos, count, value)]
    case Copy(addr, length) =>
      if addr < srclen then [Q.CopyMatch(pos, length, base + addr, true)]
      else [Q.CopyMatch(pos, length, addr - srclen, false)]
  }

  function QueueOf(insts: seq<Inst>, pos: nat, base: nat, srclen: nat): seq<Q.Match>
    decreases |insts|
  {
    if insts == [] then []
    else Queued(insts[0], pos, base, srclen) + QueueOf(insts[1..], pos + insts[0].Size(), base, srclen)
  }

  /** The literals are in the buffer, each at its position. */
  ghost predicate HoldsAdds(buf: seq<byte>, insts: seq<Inst>, pos: nat)
    decreases |insts|
  {
    insts == [] ||
    (&& pos + insts[0].Size() <= |buf|
     && (insts[0].Add? ==> buf[pos..pos + insts[0].Size()] == insts[0].bytes)
     && HoldsAdds(buf, insts[1..], pos + insts[0].Size()))
  }

  lemma {:induction false} HoldsAddsKept(buf: seq<byte>, buf': seq<byte>, insts: seq<Inst>, pos: nat)
    requires HoldsAdds(buf, insts, pos) && |buf| == |buf'|
    requires forall p :: pos <= p < pos + TotalSize(insts) && p < |buf| ==> buf[p] == buf'[p]
    ensures HoldsAdds(buf', insts, pos)
    decreases |insts|
  {
    if insts != [] {
      HoldsAddsKept(buf, buf', insts[1..], pos + insts[0].Size());
    }
  }

  lemma {:induction false} HoldsAddsSnoc(buf: seq<byte>, insts: seq<Inst>, i: Inst, pos: nat)
    requires HoldsAdds(buf, insts, pos)
    requires var at := pos + TotalSize(insts);
             at + i.Size() <= |buf| && (i.Add? ==> buf[at..at + i.Size()] == i.bytes)
    ensures HoldsAdds(buf, insts + [i], pos) && TotalSize(insts + [i]) == TotalSize(insts) + i.Size()
    decreases |insts|
  {
    if insts == [] {
      assert (insts + [i])[1..] == [];
    } else {
      assert (insts + [i])[0] == insts[0] && (insts + [i])[1..] == insts[1..] + [i];
      HoldsAddsSnoc(buf, insts[1..], i, pos + insts[0].Size());
    }
  }

  /** memcpy into the input buffer. */
  method PutLiteral(bdata: array<byte>, pos: nat, bytes: seq<byte>)
    requires pos + |bytes| <= bdata.Length
    modifies bdata
    ensures bdata[..] == old(bdata[..])[..pos] + bytes + old(bdata[..])[pos + |bytes|..]
  {
    forall p | 0 <= p < |bytes| {
      bdata[pos + p] := bytes[p];
    }
  }

  /** The buffer after the instruction at k, in terms of the buffer before. */
  lemma FillStep(insts: seq<Inst>, k: nat, buf: seq<byte>, buf': seq<byte>, pos: nat)
    requires k < |insts| && HoldsAdds(buf, insts[..k], 0) && pos == TotalSize(insts[..k])
    requires pos + TotalSize(insts[k..]) <= |buf|
    requires buf' == if insts[k].Add? then buf[..pos] + insts[k].bytes + buf[pos + |insts[k].bytes|..] else buf
    ensures pos + insts[k].Size() + TotalSize(insts[k + 1..]) == pos + TotalSize(insts[k..])
    ensures pos + insts[k].Size() == TotalSize(insts[..k + 1]) && HoldsAdds(buf', insts[..k + 1], 0)
  {
    var i := insts[k];
    assert insts[k..][0] == i && insts[k..][1..] == insts[k + 1..];
    assert insts[..k + 1] == insts[..k] + [i];
    hide HoldsAdds;
    HoldsAddsKept(buf, buf', insts[..k], 0);
    if i.Add? {
      assert buf'[pos..pos + i.Size()] == i.bytes;
    }
    HoldsAddsSnoc(buf', insts[..k], i, 0);
  }

  lemma QueueStep(queue: seq<Q.Match>, insts: seq<Inst>, k: nat, pos: nat, base: nat, srclen: nat)
    requires k < |insts|
    ensures queue + QueueOf(insts[k..], pos, base, srclen)
         == queue + Queued(insts[k], pos, base, srclen) + QueueOf(insts[k + 1..], pos + insts[k].Size(), base, srclen)
  {
    hide Queued;
    assert insts[k..][0] == insts[k] && insts[k..][1..] == insts[k + 1..];
  }

  /** The window is filled up to instruction k. */
  ghost predicate Filling(insts: seq<Inst>, k: nat, pos: nat, queue: seq<Q.Match>, buf: seq<byte>, base: nat,
                          srclen: nat)
  {
    && k <= |insts| && pos == TotalSize(insts[..k]) && pos + TotalSize(insts[k..]) == TotalSize(insts) <= |buf|
    && queue + QueueOf(insts[k..], pos, base, srclen) == QueueOf(insts, 0, base, srclen)
    && HoldsAdds(buf, insts[..k], 0)
  }

  lemma FillingStarts(insts: seq<Inst>, buf: seq<byte>, base: nat, srclen: nat)
    requires TotalSize(insts) <= |buf|
    ensures Filling(insts, 0, 0, [], buf, base, srclen)
  {
    assert insts[..0] == [] && insts[0..] == insts;
    assert [] + QueueOf(insts, 0, base, srclen) == QueueOf(insts, 0, base, srclen);
  }

  lemma FillingNext(insts: seq<Inst>, k: nat, pos: nat, queue: seq<Q.Match>, buf: seq<byte>, buf': seq<byte>,
                    base: nat, srclen: nat)
    requires k < |insts| && Filling(insts, k, pos, queue, buf, base, srclen)
    requires pos + insts[k].Size() <= |buf|
    requires buf' == if insts[k].Add? then buf[..pos] + insts[k].bytes + buf[pos + |insts[k].bytes|..] else buf
    ensures Filling(insts, k + 1, pos + insts[k].Size(), queue + Queued(insts[k], pos, base, srclen), buf', base,
                    srclen)
  {
    hide TotalSize, HoldsAdds, Queued, QueueOf;
    FillStep(insts, k, buf, buf', pos);
    QueueStep(queue, insts, k, pos, base, srclen);
  }

  lemma FillingRoom(insts: seq<Inst>, k: nat, pos: nat, queue: seq<Q.Match>, buf: seq<byte>, base: nat, srclen: nat)
    requires k < |insts| && Filling(insts, k, pos, queue, buf, base, srclen)
    ensures pos + insts[k].Size() <= |buf|
  {
    hide HoldsAdds, QueueOf;
    SizeStep(insts, k);
  }

  lemma FillingEnds(insts: seq<Inst>, pos: nat, queue: seq<Q.Match>, buf: seq<byte>, base: nat, srclen: nat)
    requires Filling(insts, |insts|, pos, queue, buf, base, srclen)
    ensures queue == QueueOf(insts, 0, base, srclen) && HoldsAdds(buf, insts, 0)
  {
    hide HoldsAdds;
    assert insts[..|insts|] == insts && insts[|insts|..] == [];
    assert queue + [] == queue;
  }

  /** The inner loop of main_merge_output for one window. */
  method FillWindow(insts: seq<Inst>, base: nat, srclen: nat, bdata: array<byte>) returns (queue: seq<Q.Match>)
    requires TotalSize(insts) <= bdata.Length
    modifies bdata
    ensures queue == QueueOf(insts, 0, base, srclen)
    ensures HoldsAdds(bdata[..], insts, 0)
  {
    FillingStarts(insts, bdata[..], base, srclen);
    hide TotalSize, HoldsAdds, Queued, QueueOf, Filling;
    queue := [];
    var pos: nat, k: nat := 0, 0;
    while k < |insts|
      invariant k <= |insts| && Filling(insts, k, pos, queue, bdata[..], base, srclen)
    {
      var i := insts[k];
      FillingRoom(insts, k, pos, queue, bdata[..], base, srclen);
      ghost var before := bdata[..];
      if i.Add? {
        PutLiteral(bdata, pos, i.bytes);
      }
      FillingNext(insts, k, pos, queue, before, bdata[..], base, srclen);
      queue := queue + Queued(i, pos, base, srclen);
      pos := pos + i.Size();
      k := k + 1;
    }
    FillingEnds(insts, pos, queue, bdata[..], base, srclen);
  }

  lemma SizeStep(insts: seq<Inst>, k: nat)
    requires k < |insts|
    ensures TotalSize(insts[k..]) == insts[k].Size() + TotalSize(insts[k + 1..])
  {
    assert insts[k..][0] == insts[k] && insts[k..][1..] == insts[k + 1..];
  }

  // ---------------------------------------------------------------- what the queue means

  /** Each instruction describes its part of t, so its match is genuine. */
  lemma QueuedGenuine(i: Inst, src: seq<byte>, t: seq<byte>, pos: nat, base: nat)
    requires Describes(i, src, t, pos) && W.InSegment(i, |src|) && !i.Add?
    ensures var q := Queued(i, pos, base, |src|);
            |q| == 1 && Genuine(q[0], Source(base, src), t) && q[0].pos == pos && q[0].size == i.Size()
  {
    var m := Queued(i, pos, base, |src|)[0];
    if i.Copy? {
      forall p | m.pos <= p < m.End() ensures t[p] == Claimed(m, Source(base, src), t, p) {
        assert t[p] == At(src, t, i.addr + (p - pos));
      }
    }
  }

  ghost predicate InSegments(insts: seq<Inst>, srclen: nat) {
    forall k :: 0 <= k < |insts| ==> W.InSegment(insts[k], srclen)
  }

  /** A queue in order and without overlaps, from pos to end. */
  ghost predicate Separate(q: seq<Q.Match>, pos: nat, end: nat) {
    && Q.Ordered(q) && Q.Disjoint(q)
    && forall k :: 0 <= k < |q| ==> pos <= q[k].pos && q[k].End() <= end
  }

  lemma {:induction false} QueueGenuine(insts: seq<Inst>, src: seq<byte>, t: seq<byte>, pos: nat, base: nat)
    requires AllDescribe(insts, src, t, pos) && InSegments(insts, |src|)
    ensures var q := QueueOf(insts, pos, base, |src|);
            AllGenuine(q, Source(base, src), t) && Separate(q, pos, pos + TotalSize(insts))
    decreases |insts|
  {
    hide Genuine, Describes, Queued, Separate, AllGenuine;
    if insts == [] {
      NothingSeparate(src, t, pos, base);
    } else {
      var i, more := insts[0], insts[1..];
      var next := pos + i.Size();
      QueueGenuine(more, src, t, next, base);
      assert W.InSegment(i, |src|);
      PositiveSize(i, src, t, pos);
      var q := QueueOf(more, next, base, |src|);
      if i.Add? {
        NotQueued(i, pos, base, |src|);
        assert [] + q == q;
        SeparateEarlier(q, pos, next, next + TotalSize(more));
      } else {
        QueuedGenuine(i, src, t, pos, base);
        var m := Queued(i, pos, base, |src|)[0];
        assert Queued(i, pos, base, |src|) == [m];
        SeparateCons(m, q, next, next + TotalSize(more));
        GenuineCons(m, q, Source(base, src), t);
      }
    }
  }

  lemma NothingSeparate(src: seq<byte>, t: seq<byte>, pos: nat, base: nat)
    ensures AllGenuine([], Source(base, src), t) && Separate([], pos, pos)
  {
  }

  lemma SeparateEarlier(q: seq<Q.Match>, pos: nat, next: nat, end: nat)
    requires Separate(q, next, end) && pos <= next
    ensures Separate(q, pos, end)
  {
  }

  lemma GenuineCons(m: Q.Match, q: seq<Q.Match>, s: Source, t: seq<byte>)
    requires Genuine(m, s, t) && AllGenuine(q, s, t)
    ensures AllGenuine([m] + q, s, t)
  {
    hide Genuine;
  }

  lemma SeparateCons(m: Q.Match, q: seq<Q.Match>, next: nat, end: nat)
    requires Separate(q, next, end) && m.size > 0 && m.End() == next <= end
    ensures Separate([m] + q, m.pos, end)
  {
    hide Q.Ordered, Q.Disjoint, Q.DisjointButLast;
    Q.Cons(m, q);
    assert forall k :: 0 < k < |[m] + q| ==> ([m] + q)[k] == q[k - 1];
  }

  lemma NotQueued(i: Inst, pos: nat, base: nat, srclen: nat)
    requires i.Add?
    ensures Queued(i, pos, base, srclen) == []
  {
  }

  lemma PositiveSize(i: Inst, src: seq<byte>, t: seq<byte>, pos: nat)
    requires Describes(i, src, t, pos)
    ensures i.Size() > 0
  {
  }

  /** Compaction leaves matches that do not overlap alone. */
  lemma {:induction false} CompactSeparate(q: seq<Q.Match>)
    requires Q.Ordered(q) && Q.Disjoint(q)
    ensures Q.Compact(q, true) == q
    decreases |q|
  {
    if |q| >= 2 {
      CompactSeparate(q[1..]);
      assert [q[0]] + q[1..] == q;
    }
  }

  // ---------------------------------------------------------------- the gaps

  /** Outside the matches the buffer agrees with t. */
  ghost predicate AgreeOutside(buf: seq<byte>, t: seq<byte>, q: seq<Q.Match>, off: nat)
    requires |buf| == |t|
    decreases |q|
  {
    if q == [] then off <= |t| && buf[off..] == t[off..]
    else
      && off <= q[0].pos && q[0].End() <= |t| && buf[off..q[0].pos] == t[off..q[0].pos]
      && AgreeOutside(buf, t, q[1..], q[0].End())
  }

  lemma {:induction false} QueueAgrees(insts: seq<Inst>, src: seq<byte>, t: seq<byte>, buf: seq<byte>,
                                       off: nat, pos: nat, base: nat)
    requires |buf| == |t| == pos + TotalSize(insts) && off <= pos && buf[off..pos] == t[off..pos]
    requires AllDescribe(insts, src, t, pos) && HoldsAdds(buf, insts, pos)
    ensures AgreeOutside(buf, t, QueueOf(insts, pos, base, |src|), off)
    decreases |insts|
  {
    hide Describes, Queued;
    if insts == [] {
      assert buf[off..] == buf[off..pos] && t[off..] == t[off..pos];
    } else {
      var i, more := insts[0], insts[1..];
      var next := pos + i.Size();
      var q := QueueOf(more, next, base, |src|);
      if i.Add? {
        AddDescribed(i, src, t, pos);
        assert buf[off..next] == buf[off..pos] + buf[pos..next];
        assert t[off..next] == t[off..pos] + t[pos..next];
        QueueAgrees(more, src, t, buf, off, next, base);
        NotQueued(i, pos, base, |src|);
        assert [] + q == q;
      } else {
        assert buf[next..next] == t[next..next];
        QueueAgrees(more, src, t, buf, next, next, base);
        OneQueued(i, pos, base, |src|);
        assert (Queued(i, pos, base, |src|) + q)[1..] == q;
      }
    }
  }

  lemma AddDescribed(i: Inst, src: seq<byte>, t: seq<byte>, pos: nat)
    requires i.Add? && Describes(i, src, t, pos)
    ensures pos + i.Size() <= |t| && t[pos..pos + i.Size()] == i.bytes
  {
  }

  lemma OneQueued(i: Inst, pos: nat, base: nat, srclen: nat)
    requires !i.Add?
    ensures var q := Queued(i, pos, base, srclen); |q| == 1 && q[0].pos == pos && q[0].size == i.Size()
  {
  }

  lemma {:induction false} PartAgrees(q: seq<Q.Match>, buf: seq<byte>, t: seq<byte>, off: nat, base: nat, srclen: nat)
    requires |buf| == |t| && InOrder(q, off, |t|, base, srclen) && AgreeOutside(buf, t, q, off)
    ensures CoverPart(q, buf, off, base, srclen) == CoverPart(q, t, off, base, srclen)
    ensures EndOf(q, off) <= |t| && buf[EndOf(q, off)..] == t[EndOf(q, off)..]
    decreases |q|
  {
    hide ToInst, Addressable;
    if q != [] {
      InOrderBound(q, off, |t|, base, srclen);
      PartAgrees(q[1..], buf, t, q[0].End(), base, srclen);
      assert EndOf(q[1..], q[0].End()) == EndOf(q, off);
    }
  }

  lemma CoverAgrees(q: seq<Q.Match>, buf: seq<byte>, t: seq<byte>, base: nat, srclen: nat)
    requires |buf| == |t| && InOrder(q, 0, |t|, base, srclen) && AgreeOutside(buf, t, q, 0)
    ensures Cover(q, buf, 0, base, srclen) == Cover(q, t, 0, base, srclen)
  {
    hide CoverPart;
    InOrderBound(q, 0, |t|, base, srclen);
    PartAgrees(q, buf, t, 0, base, srclen);
    var end := EndOf(q, 0);
    assert buf[end..|buf|] == buf[end..] && t[end..|t|] == t[end..];
  }

  /** What the back end encodes from buffer and queue is what the instructions mean. */
  lemma RecodedMeaning(insts: seq<Inst>, src: seq<byte>, buf: seq<byte>, base: nat)
    requires AllApplicable(insts, |src|, 0) && InSegments(insts, |src|) && HoldsAdds(buf, insts, 0)
    requires |buf| == TotalSize(insts) && |src| + |buf| <= USIZE_MAX
    ensures var q := QueueOf(insts, 0, base, |src|);
            && Separate(q, 0, |buf|) && Q.Compact(q, true) == q && InOrder(q, 0, |buf|, base, |src|)
            && (forall k :: 0 <= k < |q| ==> Addressable(q[k], base, |src|))
            && AllApplicable(Cover(q, buf, 0, base, |src|), |src|, 0)
            && Apply(Cover(q, buf, 0, base, |src|), src, []) == Apply(insts, src, [])
  {
    hide QueueOf, Cover, Genuine, HoldsAdds, Separate, AllApplicable, Apply, TotalSize, AllDescribe, InOrder, Q.Compact;
    hide AgreeOutside, InSegments, Addressable;
    var t := Apply(insts, src, []);
    var q := QueueOf(insts, 0, base, |src|);
    ApplyDescribes(insts, src, []);
    assert t[..|t|] == t;
    QueueGenuine(insts, src, t, 0, base);
    SeparateParts(q, 0, |buf|);
    CompactSeparate(q);
    DisjointInOrder(q, 0, Source(base, src), t);
    QueueAgrees(insts, src, t, buf, 0, 0, base);
    CoverAgrees(q, buf, t, base, |src|);
    CoverDescribes(q, t, 0, Source(base, src));
    CoverEncodable(q, t, 0, base, src);
    ApplyReproduces(Cover(q, t, 0, base, |src|), src, t, 0);
    assert t[..0] == [];
    forall k | 0 <= k < |q| ensures Addressable(q[k], base, |src|) {
      GenuineAddressable(q[k], Source(base, src), t);
    }
  }

  lemma GenuineAddressable(m: Q.Match, s: Source, t: seq<byte>)
    requires Genuine(m, s, t)
    ensures Addressable(m, s.base, |s.bytes|)
  {
  }

  lemma SeparateParts(q: seq<Q.Match>, pos: nat, end: nat)
    requires Separate(q, pos, end)
    ensures Q.Ordered(q) && Q.Disjoint(q) && (q != [] ==> pos <= q[0].pos)
  {
  }

  // ---------------------------------------------------------------- a window

  /** The sections of a window, its source segment and its size. */
  datatype Coded = Coded(cpyoff: nat, cpylen: nat, size: nat, inst: seq<byte>, addr: seq<byte>, data: seq<byte>)

  /** The sections decode to what the instructions mean, whatever the source holds. */
  ghost predicate Encodes(c: Coded, win: W.Window) {
    && c.cpyoff == win.cpyoff && c.cpylen == win.cpylen && c.size == TotalSize(win.insts)
    && AllApplicable(win.insts, win.cpylen, 0) && c.cpylen + c.size <= USIZE_MAX
    && |c.inst| + |c.addr| + |c.data| <= 12 * c.size
    && forall src: seq<byte> :: |src| == c.cpylen ==>
         DecodeWindow(c.inst, c.addr, c.data, src, c.size) == Ok(Apply(win.insts, src, []))
  }

  /** One window of main_merge_output: filled, queued and encoded. */
  method RecodeWindow(win: W.Window, bdata: array<byte>) returns (c: Coded)
    requires AllApplicable(win.insts, win.cpylen, 0) && InSegments(win.insts, win.cpylen)
    requires TotalSize(win.insts) <= bdata.Length && win.cpylen + TotalSize(win.insts) <= USIZE_MAX
    modifies bdata
    ensures Encodes(c, win)
  {
    hide QueueOf, Cover, HoldsAdds, AllApplicable, Apply, TotalSize, DecodeWindow, Q.Compact, Q.Ordered, InOrder,
         Addressable;
    hide Separate;
    var size := SizeOf(win.insts);
    var queue := FillWindow(win.insts, win.cpyoff, win.cpylen, bdata);
    var buf := bdata[..size];
    BufferKept(bdata[..], size, win.insts);
    assert bdata[..][..size] == buf;
    ghost var any := Repeat<byte>(0, win.cpylen);
    RecodedMeaning(win.insts, any, buf, win.cpyoff);
    SeparateEnds(queue, size);
    var e := new E.Encoder(buf, win.cpyoff, win.cpylen, queue, 0);
    e.EncodeQueue();
    forall src: seq<byte> | |src| == win.cpylen
      ensures DecodeWindow(e.instSect, e.addrSect, e.dataSect, src, size) == Ok(Apply(win.insts, src, []))
    {
      RecodedMeaning(win.insts, src, buf, win.cpyoff);
    }
    c := Coded(win.cpyoff, win.cpylen, size, e.instSect, e.addrSect, e.dataSect);
  }

  /** window_pos after the last instruction. */
  method SizeOf(insts: seq<Inst>) returns (n: nat)
    ensures n == TotalSize(insts)
  {
    n := 0;
    assert insts[0..] == insts;
    for k := 0 to |insts|
      invariant n + TotalSize(insts[k..]) == TotalSize(insts)
    {
      SizeStep(insts, k);
      n := n + insts[k].Size();
    }
  }

  lemma {:induction false} BufferKept(buf: seq<byte>, n: nat, insts: seq<Inst>)
    requires HoldsAdds(buf, insts, 0) && n == TotalSize(insts) <= |buf|
    ensures HoldsAdds(buf[..n], insts, 0)
  {
    Shortened(buf, n, insts, 0);
  }

  lemma {:induction false} Shortened(buf: seq<byte>, n: nat, insts: seq<Inst>, pos: nat)
    requires HoldsAdds(buf, insts, pos) && pos + TotalSize(insts) <= n <= |buf|
    ensures HoldsAdds(buf[..n], insts, pos)
    decreases |insts|
  {
    if insts != [] {
      var end := pos + insts[0].Size();
      Shortened(buf, n, insts[1..], end);
      if insts[0].Add? {
        assert buf[..n][pos..end] == buf[pos..end];
      }
    }
  }

  lemma SeparateEnds(q: seq<Q.Match>, n: nat)
    requires Separate(q, 0, n)
    ensures Q.Ordered(q) && forall i :: 0 <= i < |q| ==> q[i].End() <= n
  {
  }
}
