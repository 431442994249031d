/** Between windows and whole files: the whole state collected from the windows of a delta. */
module WholeWindows {
  import opened Common
  import opened Delta
  import opened Merge

  /** A target window as parsed: its copy window in the source file and its instructions. */
  datatype Window = Window(cpyoff: nat, cpylen: nat, insts: seq<Inst>) {
    /** The bounds that xd3_decode_parse_halfinst checks. */
    ghost predicate Valid(srclen: nat) {
      && cpyoff + cpylen <= srclen
      && AllApplicable(insts, cpylen, 0)
      && forall k :: 0 <= k < |insts| ==> InSegment(insts[k], cpylen)
    }

    function Source(s: seq<byte>): seq<byte>
      requires cpyoff + cpylen <= |s|
    {
      s[cpyoff..cpyoff + cpylen]
    }
  }

  /** A copy that starts in the copy window also ends there. */
  predicate InSegment(i: Inst, cpylen: nat) {
    i.Copy? && i.addr < cpylen ==> i.addr + i.length <= cpylen
  }

  /** xd3_whole_append_inst: the instruction with file offsets instead of window addresses. */
  function AppendInst(w: Whole, i: Inst, cpyoff: nat, cpylen: nat, winstart: nat): Whole {
    match i
    case Add(bytes) =>
      Append(w, WInst(ADD, false, |bytes|, |w.adds|, w.length), bytes).(length := w.length + |bytes|)
    case Run(value, count) =>
      Append(w, WInst(RUN, false, count, |w.adds|, w.length), [value]).(length := w.length + count)
    case Copy(addr, length) =>
      if addr < cpylen then
        Append(w, WInst(COPY, true, length, cpyoff + addr, w.length), []).(length := w.length + length)
      else
        Append(w, WInst(COPY, false, length, winstart + (addr - cpylen), w.length), []).(length := w.length + length)
  }

  function AppendInsts(w: Whole, insts: seq<Inst>, cpyoff: nat, cpylen: nat, winstart: nat): Whole
    decreases |insts|
  {
    if insts == [] then w
    else AppendInsts(AppendInst(w, insts[0], cpyoff, cpylen, winstart), insts[1..], cpyoff, cpylen, winstart)
  }

  /** xd3_whole_append_window, at the end of the target collected so far. */
  function AppendWindow(w: Whole, win: Window, adler32: nat): Whole {
    var info := WinInfo(w.length, TotalSize(win.insts), adler32);
    AppendInsts(w.(wininfo := w.wininfo + [info]), win.insts, win.cpyoff, win.cpylen, w.length)
  }

  /** A window address in the target is the same place in the file, counted from its start. */
  lemma {:induction false} CopyShift(s: seq<byte>, src: seq<byte>, base: seq<byte>, out: seq<byte>, a: nat, n: nat)
    requires a < |out|
    ensures CopyBytes(s, base + out, |s| + |base| + a, n) == base + CopyBytes(src, out, |src| + a, n)
    decreases n
  {
    if n > 0 {
      assert (base + out) + [out[a]] == base + (out + [out[a]]);
      CopyShift(s, src, base, out + [out[a]], a + 1, n - 1);
    }
  }

  lemma AppendInstMeaning(w: Whole, i: Inst, s: seq<byte>, win: Window, base: seq<byte>, out: seq<byte>)
    requires WellFormed(w, |s|) && Target(w, s) == base + out
    requires win.cpyoff + win.cpylen <= |s| && Applicable(i, win.cpylen, |out|) && InSegment(i, win.cpylen)
    ensures var next := AppendInst(w, i, win.cpyoff, win.cpylen, |base|);
            WellFormed(next, |s|) && Target(next, s) == base + ApplyInst(i, win.Source(s), out)
  {
    hide WellFormed, Target, Supplies, CopyBytes;
    match i {
      case Add(bytes) =>
        var d := WInst(ADD, false, |bytes|, |w.adds|, w.length);
        SuppliesOne(w, d, bytes, s, bytes);
        SuppliesTarget(w, Append(w, d, bytes), s, bytes);
        assert base + out + bytes == base + (out + bytes);
      case Run(value, count) =>
        var d, bytes := WInst(RUN, false, count, |w.adds|, w.length), Repeat(value, count);
        SuppliesOne(w, d, [value], s, bytes);
        SuppliesTarget(w, Append(w, d, [value]), s, bytes);
        assert base + out + bytes == base + (out + bytes);
      case Copy(addr, length) => AppendCopyMeaning(w, addr, length, s, win, base, out);
    }
  }

  lemma AppendCopyMeaning(w: Whole, addr: nat, length: nat, s: seq<byte>, win: Window, base: seq<byte>, out: seq<byte>)
    requires WellFormed(w, |s|) && Target(w, s) == base + out && win.cpyoff + win.cpylen <= |s|
    requires Applicable(Copy(addr, length), win.cpylen, |out|) && InSegment(Copy(addr, length), win.cpylen)
    ensures var next := AppendInst(w, Copy(addr, length), win.cpyoff, win.cpylen, |base|);
            WellFormed(next, |s|) && Target(next, s) == base + CopyBytes(win.Source(s), out, addr, length)
  {
    hide WellFormed, Target, CopyBytes, Append, AppendInst;
    AppendCopy(w, addr, length, win.cpyoff, win.cpylen, |base|);
    if addr < win.cpylen {
      SourceCopyMeaning(w, addr, length, s, win, base, out);
    } else {
      TargetCopyMeaning(w, addr - win.cpylen, length, s, win.Source(s), base, out);
      assert |win.Source(s)| + (addr - win.cpylen) == addr;
    }
  }

  lemma AppendCopy(w: Whole, addr: nat, length: nat, cpyoff: nat, cpylen: nat, winstart: nat)
    ensures AppendInst(w, Copy(addr, length), cpyoff, cpylen, winstart)
            == if addr < cpylen
               then Append(w, WInst(COPY, true, length, cpyoff + addr, w.length), []).(length := w.length + length)
               else Append(w, WInst(COPY, false, length, winstart + (addr - cpylen), w.length), [])
                      .(length := w.length + length)
  {
    hide Append;
  }

  lemma TargetCopyMeaning(w: Whole, a: nat, length: nat, s: seq<byte>, src: seq<byte>, base: seq<byte>, out: seq<byte>)
    requires WellFormed(w, |s|) && Target(w, s) == base + out && a < |out| && length > 0
    ensures var next := Append(w, WInst(COPY, false, length, |base| + a, w.length), []).(length := w.length + length);
            WellFormed(next, |s|) && Target(next, s) == base + CopyBytes(src, out, |src| + a, length)
  {
    hide WellFormed, Target, CopyBytes, Append;
    var d := WInst(COPY, false, length, |base| + a, w.length);
    assert d.ToInst([], |s|) == Copy(|s| + (|base| + a), length);
    KeepTargetCopy(w, s, s, d);
    CopyShift(s, src, base, out, a, length);
  }

  lemma SourceCopyMeaning(w: Whole, addr: nat, length: nat, s: seq<byte>, win: Window, base: seq<byte>, out: seq<byte>)
    requires WellFormed(w, |s|) && Target(w, s) == base + out && win.cpyoff + win.cpylen <= |s|
    requires addr < win.cpylen && 0 < length && addr + length <= win.cpylen
    ensures var copy := WInst(COPY, true, length, win.cpyoff + addr, w.length);
            var next := Append(w, copy, []).(length := w.length + length);
            WellFormed(next, |s|) && Target(next, s) == base + CopyBytes(win.Source(s), out, addr, length)
  {
    hide WellFormed, Target, Supplies, CopyBytes;
    var d := WInst(COPY, true, length, win.cpyoff + addr, w.length);
    var bytes := s[win.cpyoff + addr..win.cpyoff + addr + length];
    SliceOfSlice(s, win.cpyoff, win.cpyoff + win.cpylen, addr, length);
    SuppliesOne(w, d, [], s, bytes);
    SuppliesTarget(w, Append(w, d, []), s, bytes);
    SourceCopyBytes(win.Source(s), out, addr, length);
    assert base + out + bytes == base + (out + bytes);
  }

  lemma {:induction false} AppendInstsMeaning(w: Whole, insts: seq<Inst>, s: seq<byte>, win: Window, base: seq<byte>,
                                              out: seq<byte>)
    requires WellFormed(w, |s|) && Target(w, s) == base + out
    requires win.cpyoff + win.cpylen <= |s| && AllApplicable(insts, win.cpylen, |out|)
    requires forall k :: 0 <= k < |insts| ==> InSegment(insts[k], win.cpylen)
    ensures var next := AppendInsts(w, insts, win.cpyoff, win.cpylen, |base|);
            WellFormed(next, |s|) && Target(next, s) == base + Apply(insts, win.Source(s), out)
    decreases |insts|
  {
    hide WellFormed, Target;
    if insts != [] {
      AppendInstMeaning(w, insts[0], s, win, base, out);
      var next := AppendInst(w, insts[0], win.cpyoff, win.cpylen, |base|);
      AppendInstsMeaning(next, insts[1..], s, win, base, ApplyInst(insts[0], win.Source(s), out));
    }
  }

  /** A window appends to the whole target exactly the bytes that decoding it produces. */
  lemma AppendWindowMeaning(w: Whole, win: Window, adler32: nat, s: seq<byte>)
    requires WellFormed(w, |s|) && win.Valid(|s|)
    ensures var next := AppendWindow(w, win, adler32);
            && WellFormed(next, |s|)
            && Target(next, s) == Target(w, s) + Apply(win.insts, win.Source(s), [])
  {
    var start := w.(wininfo := w.wininfo + [WinInfo(w.length, TotalSize(win.insts), adler32)]);
    assert WellFormed(start, |s|) && Target(start, s) == Target(w, s) + [];
    AppendInstsMeaning(start, win.insts, s, win, Target(w, s), []);
  }

  /** All windows of a delta file, in order. */
  function Collect(wins: seq<Window>): Whole {
    if wins == [] then Whole([], [], 0, [])
    else AppendWindow(Collect(wins[..|wins| - 1]), wins[|wins| - 1], 0)
  }

  ghost predicate AllValid(wins: seq<Window>, srclen: nat) {
    forall k :: 0 <= k < |wins| ==> wins[k].Valid(srclen)
  }

  /** What decoding the windows one after the other writes. */
  ghost function DecodeAll(wins: seq<Window>, s: seq<byte>): seq<byte>
    requires AllValid(wins, |s|)
  {
    if wins == [] then []
    else
      var last := wins[|wins| - 1];
      assert last.Valid(|s|);
      DecodeAll(wins[..|wins| - 1], s) + Apply(last.insts, last.Source(s), [])
  }

  /** The whole state of a delta file means what its windows decode to. */
  lemma {:induction false} CollectMeaning(wins: seq<Window>, s: seq<byte>)
    requires AllValid(wins, |s|)
    ensures WellFormed(Collect(wins), |s|) && Target(Collect(wins), s) == DecodeAll(wins, s)
  {
    if wins != [] {
      CollectMeaning(wins[..|wins| - 1], s);
      assert wins[|wins| - 1].Valid(|s|);
      AppendWindowMeaning(Collect(wins[..|wins| - 1]), wins[|wins| - 1], 0, s);
    }
  }
}
