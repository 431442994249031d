/** Delta merging: two whole-file deltas become one without seeing the source file. */
module Merge {
  import opened Common
  import opened Delta

  datatype Kind = ADD | RUN | COPY

  /** xd3_winst.  For ADD and RUN, addr indexes the literal bytes; for COPY it is an offset in
      the source file (mode VCD_SOURCE) or in the target (mode 0). */
  datatype WInst = WInst(kind: Kind, fromSource: bool, size: nat, addr: nat, position: nat) {
    function End(): nat {
      position + size
    }

    /** The operands are in range for the given literal bytes and source length. */
    predicate InRange(adds: nat, srclen: nat) {
      && size > 0
      && match kind
         case ADD => addr + size <= adds
         case RUN => addr < adds
         case COPY => if fromSource then addr + size <= srclen else addr < position
    }

    /** The instruction as a window instruction over the whole source file. */
    function ToInst(adds: seq<byte>, srclen: nat): (i: Inst)
      requires InRange(|adds|, srclen)
      ensures i.Size() == size
    {
      match kind
      case ADD => Add(adds[addr..addr + size])
      case RUN => Run(adds[addr], size)
      case COPY => Copy(if fromSource then addr else srclen + addr, size)
    }
  }

  /** xd3_wininfo */
  datatype WinInfo = WinInfo(offset: nat, length: nat, adler32: nat)

  /** xd3_whole_state */
  datatype Whole = Whole(inst: seq<WInst>, adds: seq<byte>, length: nat, wininfo: seq<WinInfo>)

  /** Every instruction starts where the one before it ended, and the last ends at n. */
  ghost predicate Contiguous(inst: seq<WInst>, pos: nat, n: nat)
    decreases |inst|
  {
    if inst == [] then pos == n
    else inst[0].position == pos && Contiguous(inst[1..], inst[0].End(), n)
  }

  ghost predicate AllInRange(inst: seq<WInst>, adds: nat, srclen: nat) {
    forall k :: 0 <= k < |inst| ==> inst[k].InRange(adds, srclen)
  }

  /** A delta for sources of length srclen. */
  ghost predicate WellFormed(w: Whole, srclen: nat) {
    Contiguous(w.inst, 0, w.length) && AllInRange(w.inst, |w.adds|, srclen)
  }

  function Insts(inst: seq<WInst>, adds: seq<byte>, srclen: nat): (r: seq<Inst>)
    requires AllInRange(inst, |adds|, srclen)
    ensures |r| == |inst|
  {
    if inst == [] then [] else [inst[0].ToInst(adds, srclen)] + Insts(inst[1..], adds, srclen)
  }

  lemma {:induction false} InstsAt(inst: seq<WInst>, adds: seq<byte>, srclen: nat, k: nat)
    requires AllInRange(inst, |adds|, srclen) && k < |inst|
    ensures Insts(inst, adds, srclen)[k] == inst[k].ToInst(adds, srclen)
    decreases |inst|
  {
    if k > 0 {
      InstsAt(inst[1..], adds, srclen, k - 1);
    }
  }

  lemma {:induction false} InstsAppend(a: seq<WInst>, b: seq<WInst>, adds: seq<byte>, srclen: nat)
    requires AllInRange(a, |adds|, srclen) && AllInRange(b, |adds|, srclen)
    ensures AllInRange(a + b, |adds|, srclen)
    ensures Insts(a + b, adds, srclen) == Insts(a, adds, srclen) + Insts(b, adds, srclen)
    decreases |a|
  {
    if a == [] {
      assert a + b == b;
    } else {
      assert (a + b)[0] == a[0] && (a + b)[1..] == a[1..] + b;
      InstsAppend(a[1..], b, adds, srclen);
    }
  }

  /** More literal bytes do not change what the instructions mean. */
  lemma {:induction false} InstsMoreAdds(inst: seq<WInst>, adds: seq<byte>, more: seq<byte>, srclen: nat)
    requires AllInRange(inst, |adds|, srclen)
    ensures AllInRange(inst, |adds + more|, srclen)
    ensures Insts(inst, adds + more, srclen) == Insts(inst, adds, srclen)
    decreases |inst|
  {
    if inst != [] {
      InstsMoreAdds(inst[1..], adds, more, srclen);
      var i := inst[0];
      assert i.InRange(|adds|, srclen);
      assert i.kind == ADD ==> (adds + more)[i.addr..i.addr + i.size] == adds[i.addr..i.addr + i.size];
    }
  }

  lemma {:induction false} ContiguousSize(inst: seq<WInst>, adds: seq<byte>, srclen: nat, pos: nat, n: nat)
    requires Contiguous(inst, pos, n) && AllInRange(inst, |adds|, srclen)
    ensures AllApplicable(Insts(inst, adds, srclen), srclen, pos)
    ensures pos + TotalSize(Insts(inst, adds, srclen)) == n
    decreases |inst|
  {
    if inst != [] {
      assert inst[0].InRange(|adds|, srclen);
      ContiguousSize(inst[1..], adds, srclen, inst[0].End(), n);
      assert Insts(inst, adds, srclen)[1..] == Insts(inst[1..], adds, srclen);
    }
  }

  lemma {:induction false} ContiguousAppend(a: seq<WInst>, b: seq<WInst>, pos: nat, mid: nat, n: nat)
    requires Contiguous(a, pos, mid) && Contiguous(b, mid, n)
    ensures Contiguous(a + b, pos, n)
    decreases |a|
  {
    if a == [] {
      assert a + b == b;
    } else {
      assert (a + b)[0] == a[0] && (a + b)[1..] == a[1..] + b;
      ContiguousAppend(a[1..], b, a[0].End(), mid, n);
    }
  }

  /** What a delta makes of a source file. */
  function Target(w: Whole, s: seq<byte>): (t: seq<byte>)
    requires WellFormed(w, |s|)
    ensures |t| == w.length
  {
    ContiguousSize(w.inst, w.adds, |s|, 0, w.length);
    Apply(Insts(w.inst, w.adds, |s|), s, [])
  }

  // ---------------------------------------------------------------- lookup

  /** The index of the instruction that writes address a, counting from k. */
  function IndexOf(inst: seq<WInst>, a: nat, k: nat): nat
    requires k <= |inst|
    decreases |inst| - k
  {
    if k == |inst| || a < inst[k].End() then k else IndexOf(inst, a, k + 1)
  }

  predicate Holds(inst: seq<WInst>, k: nat, a: nat) {
    k < |inst| && inst[k].position <= a < inst[k].End()
  }

  lemma {:induction false} ContiguousDrop(inst: seq<WInst>, pos: nat, n: nat, k: nat)
    requires Contiguous(inst, pos, n) && k <= |inst|
    ensures Contiguous(inst[k..], if k == |inst| then n else inst[k].position, n)
    ensures pos <= n && (k < |inst| ==> pos <= inst[k].position && inst[k].End() <= n)
    decreases |inst|
  {
    if k > 0 {
      ContiguousDrop(inst[1..], inst[0].End(), n, k - 1);
      assert inst[1..][k - 1..] == inst[k..];
    } else {
      assert inst[0..] == inst;
      if inst != [] {
        ContiguousDrop(inst[1..], inst[0].End(), n, 0);
      }
    }
  }

  lemma {:induction false} IndexOfHolds(inst: seq<WInst>, n: nat, a: nat, k: nat)
    requires Contiguous(inst, 0, n) && k < |inst| && inst[k].position <= a < n
    ensures Holds(inst, IndexOf(inst, a, k), a)
    decreases |inst| - k
  {
    ContiguousDrop(inst, 0, n, k);
    if a >= inst[k].End() {
      assert inst[k..][1..] == inst[k + 1..];
      IndexOfHolds(inst, n, a, k + 1);
    }
  }

  /** The next instruction begins where instruction k ends. */
  lemma NextHolds(inst: seq<WInst>, n: nat, k: nat)
    requires Contiguous(inst, 0, n) && k < |inst| && inst[k].End() < n
    requires forall j :: 0 <= j < |inst| ==> inst[j].size > 0
    ensures Holds(inst, k + 1, inst[k].End())
  {
    ContiguousDrop(inst, 0, n, k);
    assert inst[k..][1..] == inst[k + 1..];
  }

  /** At most one instruction holds an address. */
  lemma HoldsUnique(inst: seq<WInst>, n: nat, j: nat, k: nat, a: nat)
    requires Contiguous(inst, 0, n) && Holds(inst, j, a) && Holds(inst, k, a)
    ensures j == k
  {
    if j < k {
      HoldsBefore(inst, n, j, k);
    } else if k < j {
      HoldsBefore(inst, n, k, j);
    }
  }

  lemma HoldsBefore(inst: seq<WInst>, n: nat, j: nat, k: nat)
    requires Contiguous(inst, 0, n) && j < k < |inst|
    ensures inst[j].End() <= inst[k].position
  {
    ContiguousDrop(inst, 0, n, j);
    assert inst[j..][1..] == inst[j + 1..];
    ContiguousDrop(inst[j + 1..], inst[j].End(), n, k - j - 1);
  }

  /** xd3_merge_find_position: binary search. */
  method FindPosition(inst: seq<WInst>, length: nat, address: nat) returns (r: Result<nat>)
    requires Contiguous(inst, 0, length)
    ensures address >= length ==> r == Err(InvalidInput)
    ensures address < length ==> inst != [] && r == Ok(IndexOf(inst, address, 0)) && Holds(inst, r.value, address)
  {
    if address >= length {
      return Err(InvalidInput);
    }
    ContiguousDrop(inst, 0, length, 0);
    assert inst[0..] == inst;
    IndexOfHolds(inst, length, address, 0);
    ghost var k := IndexOf(inst, address, 0);
    var low: nat, high: nat := 0, |inst|;
    while low != high
      invariant low <= k < high <= |inst|
    {
      var mid := low + (high - low) / 2;
      if address < inst[mid].position {
        if mid < k { HoldsBefore(inst, length, mid, k); }
        high := mid;
      } else if address >= inst[mid].End() {
        if k < mid { HoldsBefore(inst, length, k, mid); }
        low := mid + 1;
      } else {
        HoldsUnique(inst, length, mid, k, address);
        return Ok(mid);
      }
    }
    return Err(Internal);
  }

  // ---------------------------------------------------------------- the merge

  /** Append one instruction and its literal bytes. */
  function Append(out: Whole, i: WInst, literal: seq<byte>): Whole {
    out.(inst := out.inst + [i], adds := out.adds + literal)
  }

  /** A source copy of the second delta may be resolved: it starts in range, and then it ends in
      range (XD3_ASSERT (sinst_num < source->instlen)). */
  predicate Resolvable(addr: nat, size: nat, length: nat) {
    addr < length ==> addr + size <= length
  }

  /** The piece of instruction s that supplies its bytes from off on, if it is no target copy. */
  function PieceOf(out: Whole, s: WInst, adds: seq<byte>, off: nat, take: nat, position: nat): Whole
    requires s.kind != COPY || s.fromSource
    requires s.kind == RUN ==> s.addr < |adds|
    requires s.kind == ADD ==> s.addr + off + take <= |adds|
  {
    match s.kind
    case RUN => Append(out, WInst(RUN, false, take, |out.adds|, position), [adds[s.addr]])
    case ADD => Append(out, WInst(ADD, false, take, |out.adds|, position), adds[s.addr + off..s.addr + off + take])
    case COPY => Append(out, WInst(COPY, true, take, s.addr + off, position), [])
  }

  /** The loop of xd3_merge_source_copy: the bytes [addr, addr + size) of the first delta's
      target, from instruction k on, as instructions over the original source. */
  function CopyLoop(out: Whole, src: Whole, srclen: nat, addr: nat, size: nat, position: nat, k: nat): Whole
    requires WellFormed(src, srclen) && addr + size <= src.length
    requires size > 0 ==> Holds(src.inst, k, addr)
    decreases addr + size, size, 0
  {
    if size == 0 then out
    else
      var s := src.inst[k];
      var off := addr - s.position;
      var take := Min(size, s.size - off);
      assert s.InRange(|src.adds|, srclen);
      NextIfAny(src, srclen, k, addr + take, size - take);
      var next :=
        if s.kind == COPY && !s.fromSource then SourceCopy(out, src, srclen, s.addr + off, take, position)
        else PieceOf(out, s, src.adds, off, take, position);
      CopyLoop(next, src, srclen, addr + take, size - take, position + take, k + 1)
  }

  /** xd3_merge_source_copy.  The end of the range decreases with every nested call, because a
      target copy reads before the position it writes, even where it overlaps itself. */
  function SourceCopy(out: Whole, src: Whole, srclen: nat, addr: nat, size: nat, position: nat): Whole
    requires WellFormed(src, srclen) && addr + size <= src.length && size > 0
    decreases addr + size, size, 1
  {
    FirstHolds(src, srclen, addr);
    CopyLoop(out, src, srclen, addr, size, position, IndexOf(src.inst, addr, 0))
  }

  lemma FirstHolds(src: Whole, srclen: nat, addr: nat)
    requires WellFormed(src, srclen) && addr < src.length
    ensures src.inst != [] && Holds(src.inst, IndexOf(src.inst, addr, 0), addr)
  {
    ContiguousDrop(src.inst, 0, src.length, 0);
    assert src.inst[0..] == src.inst;
    IndexOfHolds(src.inst, src.length, addr, 0);
  }

  lemma NextIfAny(src: Whole, srclen: nat, k: nat, addr: nat, left: nat)
    requires WellFormed(src, srclen) && k < |src.inst| && addr + left <= src.length
    requires left > 0 ==> addr == src.inst[k].End()
    ensures left > 0 ==> Holds(src.inst, k + 1, addr)
  {
    if left > 0 {
      assert forall j :: 0 <= j < |src.inst| ==> src.inst[j].InRange(|src.adds|, srclen);
      NextHolds(src.inst, src.length, k);
    }
  }

  /** One instruction of the second delta (the switch of xd3_merge_inputs). */
  function MergeInst(out: Whole, src: Whole, srclen: nat, i: WInst, adds: seq<byte>): Result<Whole>
    requires WellFormed(src, srclen) && i.size > 0
    requires i.kind == RUN ==> i.addr < |adds|
    requires i.kind == ADD ==> i.addr + i.size <= |adds|
    requires i.kind == COPY && i.fromSource ==> Resolvable(i.addr, i.size, src.length)
  {
    match i.kind
    case RUN =>
      Ok(Append(out, i.(addr := |out.adds|, position := out.length), [adds[i.addr]]).(length := out.length + i.size))
    case ADD =>
      var added := i.(addr := |out.adds|, position := out.length);
      Ok(Append(out, added, adds[i.addr..i.addr + i.size]).(length := out.length + i.size))
    case COPY =>
      if !i.fromSource then Ok(Append(out, i, []).(length := out.length + i.size))
      else if i.addr >= src.length then Err(InvalidInput)
      else Ok(SourceCopy(out, src, srclen, i.addr, i.size, i.position).(length := out.length + i.size))
  }

  /** The operands of the second delta are in range for its own literal bytes. */
  ghost predicate Mergeable(inst: seq<WInst>, adds: nat, length: nat) {
    forall k :: 0 <= k < |inst| ==>
      && inst[k].size > 0
      && (inst[k].kind == RUN ==> inst[k].addr < adds)
      && (inst[k].kind == ADD ==> inst[k].addr + inst[k].size <= adds)
      && (inst[k].kind == COPY && inst[k].fromSource ==> Resolvable(inst[k].addr, inst[k].size, length))
  }

  /** The loop of xd3_merge_inputs over the instructions of the second delta. */
  function MergeInsts(out: Whole, src: Whole, srclen: nat, inst: seq<WInst>, adds: seq<byte>): Result<Whole>
    requires WellFormed(src, srclen) && Mergeable(inst, |adds|, src.length)
    decreases |inst|
  {
    if inst == [] then Ok(out)
    else
      match MergeInst(out, src, srclen, inst[0], adds)
      case Err(e) => Err(e)
      case Ok(next) => MergeInsts(next, src, srclen, inst[1..], adds)
  }

  /** xd3_merge_inputs: the second delta applied to the first. */
  function MergeInputs(src: Whole, srclen: nat, input: Whole): Result<Whole>
    requires WellFormed(src, srclen) && Mergeable(input.inst, |input.adds|, src.length)
  {
    MergeInsts(Whole([], [], 0, input.wininfo), src, srclen, input.inst, input.adds)
  }

  // ---------------------------------------------------------------- meaning

  /** `next` continues `out` with instructions that tile [position, position + size), contain no
      target copy and write the given bytes of the target t, whatever was written before. */
  ghost predicate Supplies(out: Whole, next: Whole, s: seq<byte>, position: nat, bytes: seq<byte>) {
    exists inst: seq<WInst>, more: seq<byte> :: SuppliesBy(out, next, s, position, bytes, inst, more)
  }

  ghost predicate SuppliesBy(out: Whole, next: Whole, s: seq<byte>, position: nat, bytes: seq<byte>,
                             inst: seq<WInst>, more: seq<byte>)
  {
    && next == out.(inst := out.inst + inst, adds := out.adds + more)
    && Contiguous(inst, position, position + |bytes|)
    && AllInRange(inst, |next.adds|, |s|)
    && (forall k :: 0 <= k < |inst| ==> inst[k].kind == COPY ==> inst[k].fromSource)
    && Writes(Insts(inst, next.adds, |s|), s, bytes)
  }

  /** Wherever they are executed, the instructions append the bytes. */
  ghost predicate Writes(insts: seq<Inst>, s: seq<byte>, bytes: seq<byte>) {
    AllSelfContained(insts, |s|) && Content(insts, s) == bytes
  }

  lemma SuppliesTrans(out: Whole, mid: Whole, next: Whole, s: seq<byte>, position: nat, b1: seq<byte>, b2: seq<byte>)
    requires Supplies(out, mid, s, position, b1) && Supplies(mid, next, s, position + |b1|, b2)
    ensures Supplies(out, next, s, position, b1 + b2)
  {
    hide SuppliesBy;
    var i1: seq<WInst>, m1: seq<byte> :| SuppliesBy(out, mid, s, position, b1, i1, m1);
    var i2: seq<WInst>, m2: seq<byte> :| SuppliesBy(mid, next, s, position + |b1|, b2, i2, m2);
    SuppliesByTrans(out, mid, next, s, position, b1, b2, i1, m1, i2, m2);
  }

  lemma SuppliesByTrans(out: Whole, mid: Whole, next: Whole, s: seq<byte>, position: nat, b1: seq<byte>, b2: seq<byte>,
                        i1: seq<WInst>, m1: seq<byte>, i2: seq<WInst>, m2: seq<byte>)
    requires SuppliesBy(out, mid, s, position, b1, i1, m1) && SuppliesBy(mid, next, s, position + |b1|, b2, i2, m2)
    ensures SuppliesBy(out, next, s, position, b1 + b2, i1 + i2, m1 + m2)
  {
    hide Contiguous, Insts, Content, AllSelfContained, AllInRange, WInst.InRange;
    assert out.inst + i1 + i2 == out.inst + (i1 + i2) && out.adds + m1 + m2 == out.adds + (m1 + m2);
    ContiguousAppend(i1, i2, position, position + |b1|, position + |b1 + b2|);
    InstsMoreAdds(i1, mid.adds, m2, |s|);
    InstsAppend(i1, i2, next.adds, |s|);
    ContentAppend(Insts(i1, mid.adds, |s|), Insts(i2, next.adds, |s|), s);
  }

  lemma SuppliesNothing(out: Whole, s: seq<byte>, position: nat)
    ensures Supplies(out, out, s, position, [])
  {
    assert out.inst + [] == out.inst && out.adds + [] == out.adds;
    assert SuppliesBy(out, out, s, position, [], [], []);
  }

  /** One instruction that writes the same bytes wherever it is executed. */
  lemma SuppliesOne(out: Whole, i: WInst, literal: seq<byte>, s: seq<byte>, bytes: seq<byte>)
    requires i.size == |bytes| > 0 && (i.kind == COPY ==> i.fromSource && literal == [] && i.addr + i.size <= |s|)
    requires i.kind == COPY ==> bytes == s[i.addr..i.addr + i.size]
    requires i.kind == RUN ==> i.addr == |out.adds| && |literal| == 1 && bytes == Repeat(literal[0], i.size)
    requires i.kind == ADD ==> i.addr == |out.adds| && bytes == literal
    ensures Supplies(out, Append(out, i, literal), s, i.position, bytes)
  {
    var adds := out.adds + literal;
    assert i.InRange(|adds|, |s|);
    var d := i.ToInst(adds, |s|);
    var insts := Insts([i], adds, |s|);
    assert [i][1..] == [] && insts == [d] + [];
    assert insts[0] == d && insts[1..] == [];
    assert i.kind == ADD ==> adds[i.addr..i.addr + i.size] == literal;
    assert Content(insts, s) == bytes + [] == bytes;
    assert SuppliesBy(out, Append(out, i, literal), s, i.position, bytes, [i], literal);
  }

  /** What the first delta writes at the position of its instruction k. */
  lemma TargetAt(src: Whole, s: seq<byte>, k: nat)
    requires WellFormed(src, |s|) && k < |src.inst|
    ensures src.inst[k].InRange(|src.adds|, |s|)
    ensures Describes(src.inst[k].ToInst(src.adds, |s|), s, Target(src, s), src.inst[k].position)
  {
    hide Describes, AllDescribe, Apply, TotalSize, AllApplicable, Contiguous;
    var insts := Insts(src.inst, src.adds, |s|);
    ContiguousSize(src.inst, src.adds, |s|, 0, src.length);
    ApplyDescribes(insts, s, []);
    DescribesAt(insts, s, Target(src, s), 0, k);
    InstsAt(src.inst, src.adds, |s|, k);
    PositionIsSize(src, s, k);
  }

  lemma PositionIsSize(src: Whole, s: seq<byte>, k: nat)
    requires WellFormed(src, |s|) && k < |src.inst|
    ensures TotalSize(Insts(src.inst, src.adds, |s|)[..k]) == src.inst[k].position
  {
    var a, b := src.inst[..k], src.inst[k..];
    assert src.inst == a + b;
    ContiguousDrop(src.inst, 0, src.length, k);
    ContiguousSize(b, src.adds, |s|, src.inst[k].position, src.length);
    ContiguousSize(src.inst, src.adds, |s|, 0, src.length);
    InstsAppend(a, b, src.adds, |s|);
    var ia, ib := Insts(a, src.adds, |s|), Insts(b, src.adds, |s|);
    ApplicableAppend(ia, ib, |s|, 0);
    assert (ia + ib)[..k] == ia;
  }

  lemma SliceOfSlice(t: seq<byte>, a: nat, b: nat, off: nat, n: nat)
    requires a + off + n <= b <= |t|
    ensures t[a..b][off..off + n] == t[a + off..a + off + n]
  {
    var x, y := t[a..b][off..off + n], t[a + off..a + off + n];
    forall j | 0 <= j < n ensures x[j] == y[j] {
      assert t[a..b][off + j] == t[a + (off + j)];
    }
  }

  /** The bytes of the first delta's target inside instruction k, if it is no target copy. */
  lemma PieceBytes(src: Whole, s: seq<byte>, k: nat, off: nat, take: nat)
    requires WellFormed(src, |s|) && k < |src.inst| && off + take <= src.inst[k].size
    ensures var w := src.inst[k];
            var a := w.position + off;
            && w.InRange(|src.adds|, |s|) && a + take <= src.length
            && (w.kind == RUN ==> Target(src, s)[a..a + take] == Repeat(src.adds[w.addr], take))
            && (w.kind == ADD ==> Target(src, s)[a..a + take] == src.adds[w.addr + off..w.addr + off + take])
            && (w.kind == COPY && w.fromSource ==> Target(src, s)[a..a + take] == s[w.addr + off..w.addr + off + take])
  {
    hide WellFormed, Target, Describes;
    TargetAt(src, s, k);
    PieceOfTarget(src.inst[k], src.adds, s, Target(src, s), off, take);
  }

  lemma PieceOfTarget(w: WInst, adds: seq<byte>, s: seq<byte>, t: seq<byte>, off: nat, take: nat)
    requires w.InRange(|adds|, |s|) && Describes(w.ToInst(adds, |s|), s, t, w.position) && off + take <= w.size
    ensures var a := w.position + off;
            && a + take <= |t|
            && (w.kind == RUN ==> t[a..a + take] == Repeat(adds[w.addr], take))
            && (w.kind == ADD ==> t[a..a + take] == adds[w.addr + off..w.addr + off + take])
            && (w.kind == COPY && w.fromSource ==> t[a..a + take] == s[w.addr + off..w.addr + off + take])
  {
    var a := w.position + off;
    if w.kind == ADD {
      SliceOfSlice(t, w.position, w.End(), off, take);
      SliceOfSlice(adds, w.addr, w.addr + w.size, off, take);
    } else if w.kind == COPY && w.fromSource {
      forall j | a <= j < a + take ensures t[j] == s[w.addr + off + (j - a)] {
        assert t[j] == At(s, t, w.addr + (j - w.position));
      }
    }
  }

  /** A piece that is no target copy supplies the bytes of the first delta's target. */
  lemma PieceSupplies(out: Whole, src: Whole, s: seq<byte>, k: nat, off: nat, take: nat, position: nat)
    requires WellFormed(src, |s|) && k < |src.inst| && 0 < take && off + take <= src.inst[k].size
    requires src.inst[k].End() <= src.length
    requires src.inst[k].kind != COPY || src.inst[k].fromSource
    requires src.inst[k].InRange(|src.adds|, |s|)
    ensures var a := src.inst[k].position + off;
            Supplies(out, PieceOf(out, src.inst[k], src.adds, off, take, position), s, position,
                     Target(src, s)[a..a + take])
  {
    hide WellFormed, Target, Supplies;
    PieceBytes(src, s, k, off, take);
    var w := src.inst[k];
    var bytes := Target(src, s)[w.position + off..w.position + off + take];
    match w.kind {
      case RUN =>
        SuppliesOne(out, WInst(RUN, false, take, |out.adds|, position), [src.adds[w.addr]], s, bytes);
      case ADD =>
        SuppliesOne(out, WInst(ADD, false, take, |out.adds|, position), bytes, s, bytes);
      case COPY =>
        SuppliesOne(out, WInst(COPY, true, take, w.addr + off, position), [], s, bytes);
    }
  }

  /** A target copy of the first delta repeats earlier bytes of its target. */
  lemma TargetRepeats(src: Whole, s: seq<byte>, k: nat, off: nat, take: nat)
    requires WellFormed(src, |s|) && k < |src.inst| && off + take <= src.inst[k].size
    requires src.inst[k].kind == COPY && !src.inst[k].fromSource
    ensures var w := src.inst[k];
            && w.addr + off + take <= w.position + off + take <= |Target(src, s)|
            && Target(src, s)[w.addr + off..w.addr + off + take]
              == Target(src, s)[w.position + off..w.position + off + take]
  {
    TargetAt(src, s, k);
    hide Target, WellFormed;
    var w, t := src.inst[k], Target(src, s);
    var x, y := t[w.addr + off..w.addr + off + take], t[w.position + off..w.position + off + take];
    forall j | 0 <= j < take ensures x[j] == y[j] {
      assert t[w.position + off + j] == At(s, t, |s| + w.addr + (w.position + off + j - w.position));
    }
  }

  /** Source copy resolution: the instructions emitted for [addr, addr + size) tile that range,
      read only the original source, and write the bytes the first delta's target has there. */
  lemma {:induction false} CopyLoopSupplies(out: Whole, src: Whole, s: seq<byte>, addr: nat, size: nat, position: nat,
                                            k: nat)
    requires WellFormed(src, |s|) && addr + size <= src.length
    requires size > 0 ==> Holds(src.inst, k, addr)
    ensures Supplies(out, CopyLoop(out, src, |s|, addr, size, position, k), s, position,
                     Target(src, s)[addr..addr + size])
    decreases addr + size, size, 0
  {
    hide Supplies, Target, PieceOf;
    var t := Target(src, s);
    if size == 0 {
      assert t[addr..addr] == [];
      SuppliesNothing(out, s, position);
    } else {
      var w := src.inst[k];
      var off := addr - w.position;
      var take := Min(size, w.size - off);
      assert w.InRange(|src.adds|, |s|);
      NextIfAny(src, |s|, k, addr + take, size - take);
      ContiguousDrop(src.inst, 0, src.length, k);
      var next;
      if w.kind == COPY && !w.fromSource {
        next := SourceCopy(out, src, |s|, w.addr + off, take, position);
        SourceCopySupplies(out, src, s, w.addr + off, take, position);
        TargetRepeats(src, s, k, off, take);
      } else {
        next := PieceOf(out, w, src.adds, off, take, position);
        PieceSupplies(out, src, s, k, off, take, position);
      }
      CopyLoopSupplies(next, src, s, addr + take, size - take, position + take, k + 1);
      var b1, b2 := t[addr..addr + take], t[addr + take..addr + size];
      SuppliesTrans(out, next, CopyLoop(next, src, |s|, addr + take, size - take, position + take, k + 1), s, position,
                    b1, b2);
      assert t[addr..addr + size] == b1 + b2;
    }
  }

  lemma {:induction false} SourceCopySupplies(out: Whole, src: Whole, s: seq<byte>, addr: nat, size: nat, position: nat)
    requires WellFormed(src, |s|) && addr + size <= src.length && size > 0
    ensures Supplies(out, SourceCopy(out, src, |s|, addr, size, position), s, position,
                     Target(src, s)[addr..addr + size])
    decreases addr + size, size, 1
  {
    FirstHolds(src, |s|, addr);
    CopyLoopSupplies(out, src, s, addr, size, position, IndexOf(src.inst, addr, 0));
  }

  // ---------------------------------------------------------------- composition

  /** Continuing a well-formed delta with instructions that supply bytes appends them. */
  lemma SuppliesTarget(out: Whole, next: Whole, s: seq<byte>, bytes: seq<byte>)
    requires WellFormed(out, |s|) && Supplies(out, next, s, out.length, bytes)
    ensures var full := next.(length := out.length + |bytes|);
            WellFormed(full, |s|) && Target(full, s) == Target(out, s) + bytes
  {
    hide Content, AllSelfContained, Contiguous, Insts;
    var inst: seq<WInst>, more: seq<byte> :| SuppliesBy(out, next, s, out.length, bytes, inst, more);
    ContiguousAppend(out.inst, inst, 0, out.length, out.length + |bytes|);
    InstsMoreAdds(out.inst, out.adds, more, |s|);
    InstsAppend(out.inst, inst, next.adds, |s|);
    var a, b := Insts(out.inst, out.adds, |s|), Insts(inst, next.adds, |s|);
    ContiguousSize(out.inst, out.adds, |s|, 0, out.length);
    var o := Target(out, s);
    ApplyContent(b, s, o);
    ApplyAppend(a, b, s, []);
  }

  /** A target copy of the second delta is kept as it is. */
  lemma KeepTargetCopy(out: Whole, s: seq<byte>, t: seq<byte>, i: WInst)
    requires WellFormed(out, |s|) && i.kind == COPY && !i.fromSource && i.size > 0
    requires i.position == out.length && i.addr < i.position
    ensures var next := Append(out, i, []).(length := out.length + i.size);
            WellFormed(next, |s|) && Target(next, s) == ApplyInst(i.ToInst([], |t|), t, Target(out, s))
  {
    hide Insts, Contiguous, AllApplicable, Apply, CopyBytes, TotalSize;
    KeptInsts(out, i, |s|);
    var a, d := Insts(out.inst, out.adds, |s|), i.ToInst(out.adds, |s|);
    ContiguousSize(out.inst, out.adds, |s|, 0, out.length);
    var o := Target(out, s);
    ApplyOne(d, s, o);
    ApplyAppend(a, [d], s, []);
    TargetCopyBytes(s, t, o, i.addr, i.size);
  }

  lemma ApplyOne(d: Inst, s: seq<byte>, o: seq<byte>)
    requires Applicable(d, |s|, |o|)
    ensures AllApplicable([d], |s|, |o|) && Apply([d], s, o) == ApplyInst(d, s, o)
  {
    assert [d][1..] == [];
  }

  /** One more target copy: the list stays well formed and its meaning gains one instruction. */
  lemma KeptInsts(out: Whole, i: WInst, srclen: nat)
    requires WellFormed(out, srclen) && i.kind == COPY && !i.fromSource && i.size > 0
    requires i.position == out.length && i.addr < i.position
    ensures var next := Append(out, i, []).(length := out.length + i.size);
            && WellFormed(next, srclen) && next.adds == out.adds
            && Insts(next.inst, next.adds, srclen) == Insts(out.inst, out.adds, srclen) + [i.ToInst(out.adds, srclen)]
  {
    assert out.adds + [] == out.adds && [i][1..] == [];
    ContiguousAppend(out.inst, [i], 0, out.length, out.length + i.size);
    InstsAppend(out.inst, [i], out.adds, srclen);
    assert Insts([i], out.adds, srclen) == [i.ToInst(out.adds, srclen)] + [];
  }

  /** One merged instruction has the effect of the second delta's instruction on the target of
      the first. */
  lemma MergeInstMeaning(out: Whole, src: Whole, s: seq<byte>, i: WInst, adds: seq<byte>)
    requires WellFormed(src, |s|) && WellFormed(out, |s|)
    requires i.position == out.length && i.InRange(|adds|, src.length)
    ensures var r := MergeInst(out, src, |s|, i, adds);
            && r.Ok? && WellFormed(r.value, |s|) && r.value.length == i.End() && r.value.wininfo == out.wininfo
            && Target(r.value, s) == ApplyInst(i.ToInst(adds, src.length), Target(src, s), Target(out, s))
  {
    hide WellFormed, Target, Supplies, SourceCopy;
    var t := Target(src, s);
    match i.kind {
      case RUN =>
        var bytes := Repeat(adds[i.addr], i.size);
        var w := i.(addr := |out.adds|, position := out.length);
        SuppliesOne(out, w, [adds[i.addr]], s, bytes);
        SuppliesTarget(out, Append(out, w, [adds[i.addr]]), s, bytes);
      case ADD =>
        var bytes := adds[i.addr..i.addr + i.size];
        var w := i.(addr := |out.adds|, position := out.length);
        SuppliesOne(out, w, bytes, s, bytes);
        SuppliesTarget(out, Append(out, w, bytes), s, bytes);
      case COPY =>
        if i.fromSource {
          var bytes := t[i.addr..i.addr + i.size];
          SourceCopySupplies(out, src, s, i.addr, i.size, i.position);
          SuppliesWininfo(out, SourceCopy(out, src, |s|, i.addr, i.size, i.position), s, i.position, bytes);
          SuppliesTarget(out, SourceCopy(out, src, |s|, i.addr, i.size, i.position), s, bytes);
          SourceCopyBytes(t, Target(out, s), i.addr, i.size);
        } else {
          KeepTargetCopy(out, s, t, i);
        }
    }
  }

  lemma SuppliesWininfo(out: Whole, next: Whole, s: seq<byte>, position: nat, bytes: seq<byte>)
    requires Supplies(out, next, s, position, bytes)
    ensures next.wininfo == out.wininfo
  {
    var inst: seq<WInst>, more: seq<byte> :| SuppliesBy(out, next, s, position, bytes, inst, more);
  }

  lemma {:induction false} MergeInstsMeaning(out: Whole, src: Whole, s: seq<byte>, inst: seq<WInst>, adds: seq<byte>,
                                             n: nat)
    requires WellFormed(src, |s|) && WellFormed(out, |s|)
    requires Contiguous(inst, out.length, n) && AllInRange(inst, |adds|, src.length)
    ensures Mergeable(inst, |adds|, src.length)
    ensures AllApplicable(Insts(inst, adds, src.length), src.length, out.length)
    ensures var r := MergeInsts(out, src, |s|, inst, adds);
            && r.Ok? && WellFormed(r.value, |s|) && r.value.length == n && r.value.wininfo == out.wininfo
            && Target(r.value, s) == Apply(Insts(inst, adds, src.length), Target(src, s), Target(out, s))
    decreases |inst|
  {
    hide WellFormed, Target, MergeInst;
    RangeIsMergeable(inst, |adds|, src.length);
    ContiguousSize(inst, adds, src.length, out.length, n);
    if inst != [] {
      assert inst[0].InRange(|adds|, src.length);
      MergeInstMeaning(out, src, s, inst[0], adds);
      MergeInstsMeaning(MergeInst(out, src, |s|, inst[0], adds).value, src, s, inst[1..], adds, n);
      assert Insts(inst, adds, src.length)[1..] == Insts(inst[1..], adds, src.length);
    }
  }

  lemma RangeIsMergeable(inst: seq<WInst>, adds: nat, length: nat)
    requires AllInRange(inst, adds, length)
    ensures Mergeable(inst, adds, length)
  {
    forall k | 0 <= k < |inst| ensures inst[k].InRange(adds, length) {}
  }

  /** Merge is composition: for every two deltas that fit together and every source, the merged
      delta is well formed and produces what the two deltas produce one after the other. */
  lemma MergeIsComposition(src: Whole, input: Whole, s: seq<byte>)
    requires WellFormed(src, |s|) && WellFormed(input, src.length)
    ensures Mergeable(input.inst, |input.adds|, src.length)
    ensures var r := MergeInputs(src, |s|, input);
            && r.Ok? && WellFormed(r.value, |s|) && r.value.length == input.length && r.value.wininfo == input.wininfo
            && Target(r.value, s) == Target(input, Target(src, s))
  {
    var empty := Whole([], [], 0, input.wininfo);
    assert Target(empty, s) == [];
    MergeInstsMeaning(empty, src, s, input.inst, input.adds, input.length);
  }

  /** A merge fails exactly when the second delta copies from beyond the first delta's target. */
  lemma {:induction false} MergeFails(out: Whole, src: Whole, srclen: nat, inst: seq<WInst>, adds: seq<byte>)
    requires WellFormed(src, srclen) && Mergeable(inst, |adds|, src.length)
    ensures MergeInsts(out, src, srclen, inst, adds).Err? <==>
            exists k :: 0 <= k < |inst| && inst[k].kind == COPY && inst[k].fromSource && inst[k].addr >= src.length
    decreases |inst|
  {
    hide SourceCopy;
    if inst != [] {
      match MergeInst(out, src, srclen, inst[0], adds)
      case Err(_) =>
      case Ok(next) =>
        MergeFails(next, src, srclen, inst[1..], adds);
        if MergeInsts(next, src, srclen, inst[1..], adds).Err? {
          var k :| 0 <= k < |inst[1..]| && inst[1..][k].kind == COPY && inst[1..][k].fromSource
            && inst[1..][k].addr >= src.length;
          assert inst[k + 1] == inst[1..][k];
        } else {
          forall k | 0 < k < |inst|
            ensures !(inst[k].kind == COPY && inst[k].fromSource && inst[k].addr >= src.length)
          {
            assert inst[k] == inst[1..][k - 1];
          }
        }
    }
  }

  // ---------------------------------------------------------------- a copy that runs out

  /** sinst_num after the loop of xd3_merge_source_copy has resolved [addr, addr + size). */
  function IndexAfter(src: Whole, srclen: nat, addr: nat, size: nat, k: nat): nat
    requires WellFormed(src, srclen) && addr + size <= src.length
    requires size > 0 ==> Holds(src.inst, k, addr)
    decreases size
  {
    if size == 0 then k
    else
      var s := src.inst[k];
      var take := Min(size, s.End() - addr);
      NextIfAny(src, srclen, k, addr + take, size - take);
      IndexAfter(src, srclen, addr + take, size - take, k + 1)
  }

  /** The last instruction is the one that ends where the target ends. */
  lemma LastEnds(src: Whole, srclen: nat, k: nat)
    requires WellFormed(src, srclen) && k < |src.inst| && src.inst[k].End() == src.length
    ensures k + 1 == |src.inst|
  {
    if k + 1 < |src.inst| {
      assert src.inst[k + 1].InRange(|src.adds|, srclen);
      ContiguousDrop(src.inst, 0, src.length, k + 1);
      ContiguousDrop(src.inst, 0, src.length, k);
    }
  }

  /** A copy that starts inside the first target and ends beyond it arrives, with bytes still to
      copy, at the end of the instruction list: the assertion on sinst_num fails there. */
  lemma {:induction false} OverrunHitsEnd(src: Whole, srclen: nat, addr: nat, size: nat, k: nat)
    requires WellFormed(src, srclen) && size > 0 && addr + size == src.length && Holds(src.inst, k, addr)
    ensures IndexAfter(src, srclen, addr, size, k) == |src.inst|
    decreases size
  {
    hide WellFormed, Contiguous;
    var s := src.inst[k];
    var take := Min(size, s.End() - addr);
    NextIfAny(src, srclen, k, addr + take, size - take);
    HeldInside(src, srclen, k, addr);
    if take == size {
      LastEnds(src, srclen, k);
    } else {
      OverrunHitsEnd(src, srclen, addr + take, size - take, k + 1);
    }
  }

  lemma HeldInside(src: Whole, srclen: nat, k: nat, addr: nat)
    requires WellFormed(src, srclen) && Holds(src.inst, k, addr)
    ensures addr < src.inst[k].End() <= src.length
  {
    ContiguousDrop(src.inst, 0, src.length, k);
  }
}
