/** The decoder's output phase as it runs: a copy from the source may suspend for a block any
    number of times.  Models xd3_decode_output_halfinst and xd3_decode_emit with the driver's
    answer to XD3_GETSRCBLK. */
module WindowEmitter {
  import opened Common
  import opened BitStream
  import opened Delta
  import opened CodeTable
  import opened WindowCodec
  import opened SourceBlocks
  import AddressCache

  /** A window's copy segment within a source file read in blocks of 2^shiftby bytes. */
  datatype Segment = Segment(file: seq<byte>, cpyoff: nat, cpylen: nat, shiftby: nat) {
    function Blksize(): (r: nat)
      ensures r > 0
    {
      Pow2(shiftby)
    }

    /** The segment's bytes; what lies past the end of the file reads as zero. */
    ghost function Bytes(): (r: seq<byte>)
      ensures |r| == cpylen
    {
      seq(cpylen, i requires 0 <= i => if cpyoff + i < |file| then file[cpyoff + i] else 0)
    }

    /** Offsets within the segment can be added to its block offset in 32 bits. */
    predicate Fits() {
      cpyoff % Blksize() + cpylen <= USIZE_MAX && Blksize() <= USIZE_MAX
    }

    predicate FromSource(h: HInst) {
      h.kind >= CPY && h.addr < cpylen
    }

    /** The block that a copy needs next. */
    function Needs(h: HInst): nat {
      Shift(cpyoff + h.addr, shiftby)
    }
  }

  /** The two sums for a copy of n bytes at an address, offset plus address and block offset plus
      length, stay within 32 bits. */
  predicate SumsFit(off: nat, b: nat, addr: nat, n: nat)
    requires b > 0
  {
    off + addr <= USIZE_MAX && (off + addr) % b + n <= USIZE_MAX
  }

  /** They do for every copy of the segment if and only if the segment fits. */
  lemma FitsIsExact(w: Segment)
    requires w.Blksize() <= USIZE_MAX && w.cpylen > 0
    ensures w.Fits() <==>
              forall addr: nat, n: nat :: addr + n <= w.cpylen ==> SumsFit(w.cpyoff % w.Blksize(), w.Blksize(), addr, n)
  {
    var b := w.Blksize();
    var off := w.cpyoff % b;
    hide Segment.Blksize;
    if w.Fits() {
      forall addr: nat, n: nat | addr + n <= w.cpylen ensures SumsFit(off, b, addr, n) {
        RemainderLess(off + addr, b);
      }
    } else {
      WholeOverflows(off, b, w.cpylen);
    }
  }

  lemma WholeOverflows(off: nat, b: nat, n: nat)
    requires off < b && off + n > USIZE_MAX
    ensures !SumsFit(off, b, 0, n)
  {
    RemainderSame(off, b);
  }

  lemma RemainderLess(x: nat, b: nat)
    requires b > 0
    ensures x % b <= x
  {
    Split(x, b);
  }

  lemma RemainderSame(x: nat, b: nat)
    requires x < b
    ensures x % b == x
  {
  }

  // ---------------------------------------------------------------- what is to be written

  /** An instruction's output, however the source is read: an error if it copies past the end
      of the file. */
  ghost function OutputFrom(w: Segment, h: HInst, d: Dec): (r: Result<Dec>)
    requires h.kind >= CPY ==> h.addr < w.cpylen + |d.out|
    ensures r.Ok? ==> r.value == d.(data := r.value.data, out := r.value.out) && |r.value.out| == |d.out| + h.size
  {
    if w.FromSource(h) && TooShort(w.file, w.Blksize(), w.cpyoff + h.addr, h.size) then Err(InvalidInput)
    else OutputHalf(h, w.Bytes(), d)
  }

  ghost function EmitFrom(w: Segment, maxpos: nat, d: Dec): (r: Result<Dec>)
    requires d.Valid() && maxpos <= USIZE_MAX && d.position == w.cpylen + |d.out|
    decreases |d.inst|
  {
    if d.inst == [] then Ok(d)
    else
      var (h1, h2, d1) :- DecodeInstruction(w.cpylen, maxpos, d);
      var d2 :- OutputFrom(w, h1, d1);
      if h2.None? then EmitFrom(w, maxpos, d2)
      else
        var d3 :- OutputFrom(w, h2.value, d2);
        EmitFrom(w, maxpos, d3)
  }

  lemma WholeOutput(w: Segment, h: HInst, d: Dec)
    requires w.cpyoff + w.cpylen <= |w.file| && h.Within(w.cpylen) && (h.kind >= CPY ==> h.addr < w.cpylen + |d.out|)
    ensures OutputFrom(w, h, d) == OutputHalf(h, w.file[w.cpyoff..w.cpyoff + w.cpylen], d)
  {
    assert w.Bytes() == w.file[w.cpyoff..w.cpyoff + w.cpylen];
  }

  /** If the file holds the whole segment, reading by blocks is reading the segment. */
  lemma {:induction false} WholeSegment(w: Segment, maxpos: nat, d: Dec)
    requires d.Valid() && maxpos <= USIZE_MAX && d.position == w.cpylen + |d.out|
    requires w.cpyoff + w.cpylen <= |w.file|
    ensures EmitFrom(w, maxpos, d) == Emit(w.file[w.cpyoff..w.cpyoff + w.cpylen], maxpos, d)
    decreases |d.inst|
  {
    hide OutputFrom, OutputHalf, DecodeInstruction;
    if d.inst != [] {
      var r := DecodeInstruction(w.cpylen, maxpos, d);
      if r.Ok? {
        var (h1, h2, d1) := r.value;
        WholeOutput(w, h1, d1);
        var o1 := OutputFrom(w, h1, d1);
        if o1.Ok? {
          if h2.None? {
            WholeSegment(w, maxpos, o1.value);
          } else {
            WholeOutput(w, h2.value, o1.value);
            var o2 := OutputFrom(w, h2.value, o1.value);
            if o2.Ok? {
              WholeSegment(w, maxpos, o2.value);
            }
          }
        }
      }
    }
  }

  // ---------------------------------------------------------------- pending instructions

  const DONE: HInst := HInst(NOOP, 0, 0)

  /** A half instruction still to be output at position `here`, or none. */
  predicate Pending(w: Segment, h: HInst, here: nat) {
    h == DONE || (h.Within(w.cpylen) && (h.kind >= CPY ==> h.addr < here))
  }

  ghost function Finish(w: Segment, h: HInst, d: Dec): (r: Result<Dec>)
    requires Pending(w, h, w.cpylen + |d.out|)
    ensures r.Ok? ==> r.value == d.(data := r.value.data, out := r.value.out) && |r.value.out| == |d.out| + h.size
  {
    if h == DONE then Ok(d) else OutputFrom(w, h, d)
  }

  ghost predicate Consistent(w: Segment, maxpos: nat, h1: HInst, h2: HInst, d: Dec) {
    && d.Valid() && maxpos <= USIZE_MAX
    && Pending(w, h1, w.cpylen + |d.out|) && Pending(w, h2, w.cpylen + |d.out| + h1.size)
    && d.position == w.cpylen + |d.out| + h1.size + h2.size
  }

  /** What the rest of the window comes to. */
  ghost function Continue(w: Segment, maxpos: nat, h1: HInst, h2: HInst, d: Dec): Result<Dec>
    requires Consistent(w, maxpos, h1, h2, d)
  {
    var d1 :- Finish(w, h1, d);
    var d2 :- Finish(w, h2, d1);
    EmitFrom(w, maxpos, d2)
  }

  lemma FirstState(w: Segment, maxpos: nat, d: Dec)
    requires d.Valid() && maxpos <= USIZE_MAX && d.position == w.cpylen + |d.out|
    ensures Consistent(w, maxpos, DONE, DONE, d) && Continue(w, maxpos, DONE, DONE, d) == EmitFrom(w, maxpos, d)
  {
    hide EmitFrom;
  }

  /** Copying up to the end of a block leaves the rest of the copy. */
  lemma CopyPart(w: Segment, h: HInst, d: Dec, take: nat)
    requires h.Within(w.cpylen) && w.FromSource(h) && take < h.size && w.cpyoff + h.addr + take <= |w.file|
    requires TooShort(w.file, w.Blksize(), w.cpyoff + h.addr, h.size)
         <==> TooShort(w.file, w.Blksize(), w.cpyoff + h.addr + take, h.size - take)
    ensures var p := w.cpyoff + h.addr;
            OutputFrom(w, h, d)
            == OutputFrom(w, HInst(h.kind, h.size - take, h.addr + take), d.(out := d.out + w.file[p..p + take]))
  {
    hide TooShort, CopyBytes;
    var p := w.cpyoff + h.addr;
    var src, rest, d' := w.Bytes(), HInst(h.kind, h.size - take, h.addr + take), d.(out := d.out + w.file[p..p + take]);
    assert w.cpyoff + rest.addr == p + take;
    SourceCopyBytes(src, d.out, h.addr, h.size);
    SourceCopyBytes(src, d'.out, rest.addr, rest.size);
    var a, b := src[h.addr..h.addr + take], src[rest.addr..rest.addr + rest.size];
    assert a == w.file[p..p + take];
    assert src[h.addr..h.addr + h.size] == a + b;
    assert d.out + (a + b) == d'.out + b;
  }

  /** A copy that its block can finish. */
  lemma CopyWhole(w: Segment, h: HInst, d: Dec, bytes: seq<byte>)
    requires h.Within(w.cpylen) && w.FromSource(h) && !TooShort(w.file, w.Blksize(), w.cpyoff + h.addr, h.size)
    requires |bytes| == h.size
    requires h.size > 0 ==>
               w.cpyoff + h.addr + h.size <= |w.file| && bytes == w.file[w.cpyoff + h.addr..w.cpyoff + h.addr + h.size]
    ensures OutputFrom(w, h, d) == Ok(d.(out := d.out + bytes))
  {
    hide TooShort;
    SourceCopyBytes(w.Bytes(), d.out, h.addr, h.size);
    assert w.Bytes()[h.addr..h.addr + h.size] == bytes;
  }

  /** The byte-by-byte loop of a copy from the target. */
  method CopyTarget(out: seq<byte>, at: nat, size: nat, ghost src: seq<byte>) returns (r: seq<byte>)
    requires at < |out|
    ensures r == CopyBytes(src, out, |src| + at, size)
  {
    r := out;
    var from: nat, i: nat := at, size;
    while i != 0
      invariant i <= size && from == at + (size - i) < |r|
      invariant CopyBytes(src, r, |src| + from, i) == CopyBytes(src, out, |src| + at, size)
    {
      r := r + [r[from]];
      from := from + 1;
      i := i - 1;
    }
  }

  // ---------------------------------------------------------------- the running decoder

  datatype Ret = Done | GetSrcBlk | Output | Fail(error: Error)

  lemma CopyPosition(w: Segment, h: HInst, blkno: nat, blkoff: nat)
    requires blkno * w.Blksize() + blkoff == w.cpyoff + h.addr && blkoff < w.Blksize()
    ensures blkno == w.Needs(h) == (w.cpyoff + h.addr) / w.Blksize() && blkoff == (w.cpyoff + h.addr) % w.Blksize()
  {
    SplitUnique(w.cpyoff + h.addr, w.Blksize(), blkno, blkoff);
    ShiftDiv(w.cpyoff + h.addr, w.shiftby);
  }

  class Emitter {
    ghost const seg: Segment
    const cpyoff: nat
    const cpylen: nat
    const shiftby: nat
    const maxpos: nat
    // xd3_stream
    var d: Dec
    var current1: HInst
    var current2: HInst
    // xd3_source
    var curblkno: Option<nat>
    var curblk: seq<byte>
    var getblkno: nat

    /** A window whose sections are complete.  The block in hand may be left from an earlier one. */
    constructor (ghost file: seq<byte>, cpyoff: nat, cpylen: nat, shiftby: nat, tgtlen: nat,
                 inst: seq<byte>, addr: seq<byte>, data: seq<byte>, curblkno: Option<nat>, curblk: seq<byte>)
      requires Segment(file, cpyoff, cpylen, shiftby).Fits() && cpylen + tgtlen <= USIZE_MAX
      requires curblkno.Some? ==> curblk == Block(file, Pow2(shiftby), curblkno.value)
      ensures Valid() && seg == Segment(file, cpyoff, cpylen, shiftby)
      ensures this.cpylen == cpylen && this.shiftby == shiftby && maxpos == cpylen + tgtlen
      ensures Close(Outcome(), tgtlen) == DecodeFrom(seg, inst, addr, data, tgtlen)
    {
      hide Block, Pow2, EmitFrom, AddressCache.Init, InitialCache, Close, DecodeFrom, Segment.Fits, Segment.Blksize;
      hide Consistent, Continue, Pending, Finish;
      ghost var w := Segment(file, cpyoff, cpylen, shiftby);
      WindowStart(w, inst, addr, data, tgtlen);
      BlockSize(w);
      seg := w;
      this.cpyoff, this.cpylen, this.shiftby := cpyoff, cpylen, shiftby;
      maxpos := cpylen + tgtlen;
      d := Dec(inst, addr, data, InitialCache(), cpylen, []);
      current1, current2 := DONE, DONE;
      this.curblkno, this.curblk := curblkno, curblk;
      getblkno := 0;
    }

    /** The block in hand is a block of the file. */
    ghost predicate Sound()
      reads this
    {
      && seg.Fits() && cpyoff == seg.cpyoff && cpylen == seg.cpylen && shiftby == seg.shiftby
      && (curblkno.Some? ==> curblk == Block(seg.file, seg.Blksize(), curblkno.value))
    }

    ghost predicate Valid()
      reads this
    {
      Sound() && Consistent(seg, maxpos, current1, current2, d)
    }

    /** The window's outcome from here on. */
    ghost function Outcome(): Result<Dec>
      requires Valid()
      reads this
    {
      Continue(seg, maxpos, current1, current2, d)
    }

    /** xd3_decode_output_halfinst.  Progress keeps the outcome; a request for a block changes
        nothing. */
    method OutputHalfInst(h: HInst) returns (ret: Ret, rest: HInst)
      requires Sound() && h != DONE && Pending(seg, h, cpylen + |d.out|)
      modifies this`d, this`getblkno
      ensures Sound() && Pending(seg, rest, cpylen + |d.out|) && !ret.Output?
      ensures ret == Done ==>
                && Finish(seg, rest, d) == old(Finish(seg, h, d)) && |d.out| + rest.size == old(|d.out|) + h.size
                && (rest == DONE || (rest.size < h.size && rest.kind >= CPY))
                && d == old(d).(data := d.data, out := d.out)
      ensures ret == GetSrcBlk ==>
                rest == h && d == old(d) && seg.FromSource(h) && getblkno == seg.Needs(h) && curblkno != Some(getblkno)
      ensures ret.Fail? ==> rest == h && d == old(d) && old(Finish(seg, h, d)) == Err(ret.error)
    {
      hide OutputHalf, TooShort, Block, Pow2;
      rest := h;
      if h.kind == RUN {
        ret, rest := OutputRun(h);
      } else if h.kind == ADD {
        ret, rest := OutputAdd(h);
      } else if h.addr < cpylen {
        ret, rest := OutputSource(h);
      } else {
        ret, rest := OutputTarget(h);
      }
    }

    method OutputRun(h: HInst) returns (ret: Ret, rest: HInst)
      requires Sound() && h.kind == RUN && Pending(seg, h, cpylen + |d.out|)
      modifies this`d
      ensures ret == Done ==>
                && rest == DONE && Finish(seg, DONE, d) == old(Finish(seg, h, d))
                && d == old(d).(data := d.data, out := d.out)
      ensures ret != Done ==> rest == h && d == old(d) && ret.Fail? && old(Finish(seg, h, d)) == Err(ret.error)
    {
      if d.data == [] {
        return Fail(InvalidInput), h;
      }
      d := d.(data := d.data[1..], out := d.out + Repeat(d.data[0], h.size));
      return Done, DONE;
    }

    method OutputAdd(h: HInst) returns (ret: Ret, rest: HInst)
      requires Sound() && h.kind == ADD && Pending(seg, h, cpylen + |d.out|)
      modifies this`d
      ensures ret == Done ==>
                && rest == DONE && Finish(seg, DONE, d) == old(Finish(seg, h, d))
                && d == old(d).(data := d.data, out := d.out)
      ensures ret != Done ==> rest == h && d == old(d) && ret.Fail? && old(Finish(seg, h, d)) == Err(ret.error)
    {
      if h.size > |d.data| {
        return Fail(InvalidInput), h;
      }
      d := d.(data := d.data[h.size..], out := d.out + d.data[..h.size]);
      return Done, DONE;
    }

    method OutputTarget(h: HInst) returns (ret: Ret, rest: HInst)
      requires Sound() && h.kind >= CPY && h.addr >= cpylen && Pending(seg, h, cpylen + |d.out|)
      modifies this`d
      ensures ret == Done && rest == DONE && Finish(seg, DONE, d) == old(Finish(seg, h, d))
              && d == old(d).(data := d.data, out := d.out)
    {
      var out := CopyTarget(d.out, h.addr - cpylen, h.size, seg.Bytes());
      d := d.(out := out);
      return Done, DONE;
    }

    /** The branch that reads a source block. */
    method OutputSource(h: HInst) returns (ret: Ret, rest: HInst)
      requires Sound() && h.kind >= CPY && h.addr < cpylen && Pending(seg, h, cpylen + |d.out|)
      modifies this`d, this`getblkno
      ensures ret == Done ==>
                && Pending(seg, rest, cpylen + |d.out|) && Finish(seg, rest, d) == old(Finish(seg, h, d))
                && |d.out| + rest.size == old(|d.out|) + h.size
                && (rest == DONE || (rest.size < h.size && rest.kind >= CPY))
                && d == old(d).(data := d.data, out := d.out)
      ensures ret != Done ==> rest == h && d == old(d)
      ensures ret == GetSrcBlk ==> getblkno == seg.Needs(h) && curblkno != Some(getblkno)
      ensures !ret.Output? && (ret.Fail? ==> old(Finish(seg, h, d)) == Err(ret.error))
    {
      hide OutputHalf, TooShort, Block, Pow2, CopyBytes;
      var blksize := Pow2(shiftby);
      var blkno, blkoff := BlksizeDiv(cpyoff, shiftby);
      blkno, blkoff := BlksizeAdd(blkno, blkoff, shiftby, h.addr);
      CopyPosition(seg, h, blkno, blkoff);
      if curblkno != Some(blkno) {
        getblkno := blkno;
        return GetSrcBlk, h;
      }
      var take := h.size;
      BlockStep(seg.file, blksize, cpyoff + h.addr, take);
      if |curblk| != blksize && blkoff + take > |curblk| {
        return Fail(InvalidInput), h;
      }
      if blkoff + take <= blksize {
        CopyWhole(seg, h, d, curblk[blkoff..blkoff + take]);
        rest := DONE;
      } else {
        take := blksize - blkoff;
        CopyPart(seg, h, d, take);
        rest := HInst(h.kind, h.size - take, h.addr + take);
      }
      d := d.(out := d.out + curblk[blkoff..blkoff + take]);
      ret := Done;
    }

    /** The loops of xd3_decode_emit over one half instruction. */
    method Drain(h: HInst) returns (ret: Ret, rest: HInst)
      requires Sound() && Pending(seg, h, cpylen + |d.out|)
      modifies this`d, this`getblkno
      ensures Sound() && Pending(seg, rest, cpylen + |d.out|) && !ret.Output?
      ensures d == old(d).(data := d.data, out := d.out) && |d.out| + rest.size == old(|d.out|) + h.size
      ensures ret == Done ==> rest == DONE
      ensures !ret.Fail? ==> Finish(seg, rest, d) == old(Finish(seg, h, d))
      ensures ret == GetSrcBlk ==>
                && seg.FromSource(rest) && getblkno == seg.Needs(rest) && curblkno != Some(getblkno)
                && ((rest == h && d == old(d)) || rest.size < h.size)
      ensures ret.Fail? ==> old(Finish(seg, h, d)) == Err(ret.error)
    {
      hide Finish, Block, Pow2;
      rest, ret := h, Done;
      while rest != DONE
        invariant Sound() && Pending(seg, rest, cpylen + |d.out|) && ret == Done
        invariant d == old(d).(data := d.data, out := d.out) && |d.out| + rest.size == old(|d.out|) + h.size
        invariant Finish(seg, rest, d) == old(Finish(seg, h, d))
        invariant (rest == h && d == old(d)) || rest == DONE || rest.size < h.size
        decreases if rest == DONE then 0 else 1 + rest.size
      {
        ret, rest := OutputHalfInst(rest);
        if ret != Done {
          return;
        }
      }
    }

    /** Work left: instruction bytes and pending halves, then bytes of the pending halves. */
    ghost function Work(): nat
      reads this
    {
      3 * |d.inst| + (if current1 == DONE then 0 else 1) + (if current2 == DONE then 0 else 1)
    }

    ghost function Left(): nat
      reads this
    {
      current1.size + current2.size
    }

    /** A pending copy needs a block that is not in hand. */
    ghost predicate Waiting()
      reads this
    {
      var h := if current1 != DONE then current1 else current2;
      h != DONE && seg.FromSource(h) && curblkno != Some(seg.Needs(h))
    }

    /** The next code makes new halves pending. */
    method TakeCode() returns (ret: Ret)
      requires Valid() && current1 == DONE && current2 == DONE && d.inst != []
      modifies this`d, this`current1, this`current2
      ensures Sound()
      ensures ret == Done ==> Valid() && Outcome() == old(Outcome()) && Work() < old(Work())
      ensures ret != Done ==> ret.Fail? && old(Outcome()) == Err(ret.error)
    {
      hide Finish, Block, Pow2, DecodeInstruction, Pending, Continue, Consistent, Segment.Fits;
      NextInstruction(seg, maxpos, d);
      var r := DecodeInstruction(cpylen, maxpos, d);
      if r.Err? {
        return Fail(r.error);
      }
      d := r.value.2;
      current1 := r.value.0;
      current2 := if r.value.1.Some? then r.value.1.value else DONE;
      ret := Done;
    }

    /** xd3_decode_emit up to its final checks. */
    method Run() returns (ret: Ret)
      requires Valid()
      modifies this`d, this`current1, this`current2, this`getblkno
      ensures Sound()
      ensures ret == Done ==> old(Outcome()) == Ok(d)
      ensures ret == GetSrcBlk ==>
                && Valid() && Outcome() == old(Outcome()) && Waiting() && getblkno == Wanted()
                && (old(!Waiting()) ==> Work() < old(Work()) || (Work() == old(Work()) && Left() < old(Left())))
                && (Work() < old(Work()) || (Work() == old(Work()) && Left() <= old(Left())))
      ensures ret.Fail? ==> old(Outcome()) == Err(ret.error)
      ensures !ret.Output?
    {
      hide Finish, Block, Pow2, DecodeInstruction, Pending, Continue, Consistent, Segment.Fits;
      ghost var outcome := Outcome();
      while d.inst != [] || current1 != DONE || current2 != DONE
        invariant Sound() && Consistent(seg, maxpos, current1, current2, d)
                  && Continue(seg, maxpos, current1, current2, d) == outcome
        invariant (d == old(d) && current1 == old(current1) && current2 == old(current2)) || Work() < old(Work())
        decreases Work()
      {
        if current1 == DONE && current2 == DONE {
          ret := TakeCode();
          if ret != Done {
            return;
          }
        }
        ConsistentParts(seg, maxpos, current1, current2, d);
        ghost var d0, h0 := d, current1;
        ret, current1 := Drain(current1);
        FirstDrained(seg, maxpos, h0, current1, current2, d0, d, ret);
        if ret != Done {
          return;
        }
        ConsistentParts(seg, maxpos, current1, current2, d);
        ghost var d1, h1 := d, current2;
        ret, current2 := Drain(current2);
        SecondDrained(seg, maxpos, h1, current2, d1, d, ret);
        if ret != Done {
          return;
        }
      }
      NothingLeft(seg, maxpos, d);
      ret := Done;
    }

    /** The checks at the end of xd3_decode_emit, without the checksum. */
    method Emit() returns (ret: Ret)
      requires Valid() && cpylen <= maxpos
      modifies this`d, this`current1, this`current2, this`getblkno
      ensures Sound()
      ensures ret == Output ==> Close(old(Outcome()), maxpos - cpylen) == Ok(d.out)
      ensures ret == GetSrcBlk ==>
                && Valid() && Outcome() == old(Outcome()) && Waiting() && getblkno == Wanted()
                && (old(!Waiting()) ==> Work() < old(Work()) || (Work() == old(Work()) && Left() < old(Left())))
                && (Work() < old(Work()) || (Work() == old(Work()) && Left() <= old(Left())))
      ensures ret.Fail? ==> Close(old(Outcome()), maxpos - cpylen) == Err(ret.error)
      ensures ret != Done
    {
      ret := Run();
      if ret == Done {
        if |d.out| != maxpos - cpylen || d.data != [] || d.addr != [] {
          return Fail(InvalidInput);
        }
        return Output;
      }
    }

    /** The driver around one window: every request is answered with the block asked for, until
        the window is output or fails.  The result does not depend on the block size. */
    method Drive(file: seq<byte>) returns (r: Result<seq<byte>>)
      requires Valid() && cpylen <= maxpos && file == seg.file
      modifies this
      ensures r == Close(old(Outcome()), maxpos - cpylen)
    {
      hide Pow2, Continue, Consistent, Close, Block;
      ghost var outcome := Outcome();
      while true
        invariant Valid() && Outcome() == outcome
        decreases Work(), Left(), if Waiting() then 1 else 0
      {
        var ret := Emit();
        match ret {
          case Output => return Ok(d.out);
          case Fail(e) => return Err(e);
          case GetSrcBlk =>
            curblk := ReadBlock(file, shiftby, getblkno);
            curblkno := Some(getblkno);
        }
      }
    }

    ghost function Wanted(): nat
      reads this
    {
      seg.Needs(if current1 != DONE then current1 else current2)
    }
  }

  /** A window is good if it fills its length exactly and uses up data and addresses. */
  function Close(r: Result<Dec>, tgtlen: nat): Result<seq<byte>> {
    match r
    case Err(e) => Err(e)
    case Ok(d) => if |d.out| != tgtlen || d.data != [] || d.addr != [] then Err(InvalidInput) else Ok(d.out)
  }

  /** A window decoded against a segment of the source file. */
  ghost function DecodeFrom(w: Segment, inst: seq<byte>, addr: seq<byte>, data: seq<byte>,
                            tgtlen: nat): Result<seq<byte>>
    requires w.cpylen + tgtlen <= USIZE_MAX
  {
    Close(EmitFrom(w, w.cpylen + tgtlen, Dec(inst, addr, data, InitialCache(), w.cpylen, [])), tgtlen)
  }

  lemma WindowStart(w: Segment, inst: seq<byte>, addr: seq<byte>, data: seq<byte>, tgtlen: nat)
    requires w.cpylen + tgtlen <= USIZE_MAX
    ensures var d := Dec(inst, addr, data, InitialCache(), w.cpylen, []);
            && Consistent(w, w.cpylen + tgtlen, DONE, DONE, d)
            && Close(Continue(w, w.cpylen + tgtlen, DONE, DONE, d), tgtlen) == DecodeFrom(w, inst, addr, data, tgtlen)
  {
    hide EmitFrom, AddressCache.Init, Close, Continue, Consistent;
    FirstState(w, w.cpylen + tgtlen, Dec(inst, addr, data, InitialCache(), w.cpylen, []));
  }

  lemma BlockSize(w: Segment)
    ensures w.Blksize() == Pow2(w.shiftby)
  {
    hide Pow2;
  }

  /** When the file holds the segment, that is decoding with the segment at hand. */
  lemma DecodeFromWhole(w: Segment, inst: seq<byte>, addr: seq<byte>, data: seq<byte>, tgtlen: nat)
    requires w.cpylen + tgtlen <= USIZE_MAX && w.cpyoff + w.cpylen <= |w.file|
    ensures DecodeFrom(w, inst, addr, data, tgtlen)
         == DecodeWindow(inst, addr, data, w.file[w.cpyoff..w.cpyoff + w.cpylen], tgtlen)
  {
    hide EmitFrom, Emit, AddressCache.Init;
    WholeSegment(w, w.cpylen + tgtlen, Dec(inst, addr, data, InitialCache(), w.cpylen, []));
  }

  /** Seek and read. */
  method ReadBlock(file: seq<byte>, shiftby: nat, blkno: nat) returns (blk: seq<byte>)
    ensures blk == Block(file, Pow2(shiftby), blkno)
  {
    hide Pow2;
    var b := Pow2(shiftby);
    var at := b * blkno;
    assert at == blkno * b;
    blk := if at >= |file| then [] else file[at..Min(|file|, at + b)];
  }

  lemma NextInstruction(w: Segment, maxpos: nat, d: Dec)
    requires Consistent(w, maxpos, DONE, DONE, d) && d.inst != []
    ensures d.Valid() && maxpos <= USIZE_MAX
    ensures var r := DecodeInstruction(w.cpylen, maxpos, d);
            if r.Err? then Continue(w, maxpos, DONE, DONE, d) == Err(r.error)
            else
              var h2 := if r.value.1.Some? then r.value.1.value else DONE;
              && Consistent(w, maxpos, r.value.0, h2, r.value.2) && |r.value.2.inst| < |d.inst|
              && Continue(w, maxpos, r.value.0, h2, r.value.2) == Continue(w, maxpos, DONE, DONE, d)
  {
    hide DecodeInstruction, OutputFrom;
  }

  lemma ConsistentParts(w: Segment, maxpos: nat, h1: HInst, h2: HInst, d: Dec)
    requires Consistent(w, maxpos, h1, h2, d)
    ensures Pending(w, h1, w.cpylen + |d.out|) && (h1 == DONE ==> Pending(w, h2, w.cpylen + |d.out|))
  {
  }

  lemma FirstDrained(w: Segment, maxpos: nat, h: HInst, rest: HInst, h2: HInst, d: Dec, d': Dec, ret: Ret)
    requires Consistent(w, maxpos, h, h2, d) && Pending(w, rest, w.cpylen + |d'.out|)
    requires d' == d.(data := d'.data, out := d'.out) && |d'.out| + rest.size == |d.out| + h.size
    requires if ret.Fail? then Finish(w, h, d) == Err(ret.error) else Finish(w, rest, d') == Finish(w, h, d)
    ensures if ret.Fail? then Continue(w, maxpos, h, h2, d) == Err(ret.error)
            else
              && Consistent(w, maxpos, rest, h2, d')
              && Continue(w, maxpos, rest, h2, d') == Continue(w, maxpos, h, h2, d)
  {
    hide OutputFrom, EmitFrom;
  }

  lemma SecondDrained(w: Segment, maxpos: nat, h: HInst, rest: HInst, d: Dec, d': Dec, ret: Ret)
    requires Consistent(w, maxpos, DONE, h, d) && Pending(w, rest, w.cpylen + |d'.out|)
    requires d' == d.(data := d'.data, out := d'.out) && |d'.out| + rest.size == |d.out| + h.size
    requires if ret.Fail? then Finish(w, h, d) == Err(ret.error) else Finish(w, rest, d') == Finish(w, h, d)
    ensures if ret.Fail? then Continue(w, maxpos, DONE, h, d) == Err(ret.error)
            else
              && Consistent(w, maxpos, DONE, rest, d')
              && Continue(w, maxpos, DONE, rest, d') == Continue(w, maxpos, DONE, h, d)
  {
    hide OutputFrom, EmitFrom;
  }

  lemma NothingLeft(w: Segment, maxpos: nat, d: Dec)
    requires Consistent(w, maxpos, DONE, DONE, d) && d.inst == []
    ensures Continue(w, maxpos, DONE, DONE, d) == Ok(d)
  {
  }
}
