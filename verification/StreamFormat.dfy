/** The delta file as a byte-by-byte automaton: which field each byte belongs to and what a
    complete field means (section 4 of RFC 3284).  This is the reference for the decoder, which
    takes its input in chunks of any size. */
module StreamFormat {
  import opened Common
  import opened SourceBlocks
  import opened WindowEmitter
  import Integers
  import Checksums

  const XOFF_MAX: nat := 0xFFFF_FFFF_FFFF_FFFF
  const HARD_MAX_WINSIZE: nat := 0x100_0000

  /** The source file and its block size. */
  datatype Config = Config(file: seq<byte>, shiftby: nat)

  /** dec_state, without the states for custom code tables. */
  datatype Step =
    | VcHead | HdrInd | SecondId | AppLen | AppDat
    | WinInd | CpyLen | CpyOff | EncLen | TgtLen | DelInd | DataLen | InstLen | AddrLen | Cksum
    | DataSect | InstSect | AddrSect | EmitWin | FinishWin

  datatype Fields = Fields(
    hdrInd: nat, appheadsz: nat, appheader: seq<byte>,
    winInd: nat, winstart: nat, tgtlen: nat, cpylen: nat, cpyoff: nat, enclen: nat,
    dataSize: nat, instSize: nat, addrSize: nat, adler: nat,
    data: seq<byte>, inst: seq<byte>, addr: seq<byte>, windows: nat)

  /** `got` and `part` hold the beginning of a field: its bytes, or the value of its digits. */
  datatype Phase = Running(step: Step, f: Fields, got: seq<byte>, part: nat) | Failed(error: Error)

  datatype State = State(phase: Phase, out: seq<byte>)

  /** What a step reads. */
  datatype Item = Nothing | OneByte | Bytes(n: nat) | Number(limit: nat)

  const SIZE: Item := Number(0x200_0000)
  const OFFSET: Item := Number(0x200_0000_0000_0000)

  /** Bit k of an indicator byte. */
  predicate Flag(ind: nat, k: nat) {
    match k
    case 0 => ind % 2 == 1
    case 1 => ind / 2 % 2 == 1
    case _ => ind / 4 % 2 == 1
  }

  predicate HasSecondary(f: Fields) { Flag(f.hdrInd, 0) }
  predicate HasAppHeader(f: Fields) { Flag(f.hdrInd, 2) }
  predicate HasSource(f: Fields) { Flag(f.winInd, 0) }
  predicate HasAdler(f: Fields) { Flag(f.winInd, 2) }

  function ItemOf(step: Step, f: Fields): Item {
    match step
    case VcHead => Bytes(4)
    case HdrInd => OneByte
    case SecondId => if HasSecondary(f) then OneByte else Nothing
    case AppLen => if HasAppHeader(f) then SIZE else Nothing
    case AppDat => if HasAppHeader(f) && f.appheadsz > 0 then Bytes(f.appheadsz) else Nothing
    case WinInd => OneByte
    case CpyLen => if HasSource(f) then SIZE else Nothing
    case CpyOff => if HasSource(f) then OFFSET else Nothing
    case EncLen => SIZE
    case TgtLen => SIZE
    case DelInd => OneByte
    case DataLen => SIZE
    case InstLen => SIZE
    case AddrLen => SIZE
    case Cksum => if HasAdler(f) then Bytes(4) else Nothing
    case DataSect => if f.dataSize > 0 then Bytes(f.dataSize) else Nothing
    case InstSect => if f.instSize > 0 then Bytes(f.instSize) else Nothing
    case AddrSect => if f.addrSize > 0 then Bytes(f.addrSize) else Nothing
    case EmitWin => Nothing
    case FinishWin => Nothing
  }

  function Rank(step: Step): nat {
    match step
    case VcHead => 0 case HdrInd => 1 case SecondId => 2 case AppLen => 3 case AppDat => 4
    case WinInd => 5 case CpyLen => 6 case CpyOff => 7 case EncLen => 8 case TgtLen => 9 case DelInd => 10
    case DataLen => 11 case InstLen => 12 case AddrLen => 13 case Cksum => 14
    case DataSect => 15 case InstSect => 16 case AddrSect => 17 case EmitWin => 18 case FinishWin => 19
  }

  function BigEndian(bs: seq<byte>): nat {
    if bs == [] then 0 else BigEndian(bs[..|bs| - 1]) * 256 + bs[|bs| - 1]
  }

  /** The redundant length of the delta encoding. */
  function EncodingLength(f: Fields): nat {
    1 + Integers.SizeOf(f.tgtlen) + Integers.SizeOf(f.dataSize)
    + Integers.SizeOf(f.instSize) + Integers.SizeOf(f.addrSize)
    + f.dataSize + f.instSize + f.addrSize + (if HasAdler(f) then 4 else 0)
  }

  function SegmentOf(c: Config, f: Fields): Segment {
    Segment(c.file, f.cpyoff, f.cpylen, c.shiftby)
  }

  /** The target bytes of a complete window. */
  ghost function WindowOf(c: Config, f: Fields): Result<seq<byte>> {
    if f.cpylen + f.tgtlen > USIZE_MAX then Err(InvalidInput)
    else if !SegmentOf(c, f).Fits() then Err(Unimplemented)
    else
      var t :- DecodeFrom(SegmentOf(c, f), f.inst, f.addr, f.data, f.tgtlen);
      if HasAdler(f) && Checksums.WindowAdler(t) != f.adler then Err(InvalidInput) else Ok(t)
  }

  function Next(step: Step, f: Fields): Result<(Step, Fields)> {
    Ok((step, f))
  }

  /** What a complete field of the file header means: `v` is its value if it is a byte or a
      number, `bs` its bytes. */
  function AcceptHeader(step: Step, f: Fields, v: nat, bs: seq<byte>): (r: Result<(Step, Fields)>)
    requires Rank(step) < 5
    ensures r.Ok? ==> Rank(r.value.0) > Rank(step)
  {
    match step
    case VcHead =>
      if |bs| < 4 || bs[0] != 0xd6 || bs[1] != 0xc3 || bs[2] != 0xc4 then Err(InvalidInput)
      else if bs[3] != 0 then Err(InvalidInput)
      else Next(HdrInd, f)
    case HdrInd =>
      if v >= 8 then Err(InvalidInput)
      else if Flag(v, 1) then Err(Unimplemented)
      else Next(SecondId, f.(hdrInd := v))
    case SecondId =>
      if !HasSecondary(f) then Next(AppLen, f)
      else if v == 16 || v == 1 || v == 2 then Err(Internal)
      else Err(InvalidInput)
    case AppLen => Next(AppDat, f.(appheadsz := v))
    case AppDat => Next(WinInd, f.(appheader := bs))
  }

  /** Fields of a window header. */
  function AcceptWindow(step: Step, f: Fields, v: nat, bs: seq<byte>): (r: Result<(Step, Fields)>)
    requires 5 <= Rank(step) < 15
    ensures r.Ok? ==> Rank(r.value.0) > Rank(step)
  {
    match step
    case WinInd =>
      if f.winstart + f.tgtlen > XOFF_MAX then Err(InvalidInput)
      else if v >= 8 then Err(InvalidInput)
      else if Flag(v, 1) then Err(Unimplemented)
      else Next(CpyLen, f.(winInd := v, winstart := f.winstart + f.tgtlen, cpylen := 0, cpyoff := 0))
    case CpyLen => Next(CpyOff, f.(cpylen := v))
    case CpyOff => if v + f.cpylen > XOFF_MAX then Err(InvalidInput) else Next(EncLen, f.(cpyoff := v))
    case EncLen => Next(TgtLen, f.(enclen := v))
    case TgtLen =>
      if f.cpylen + v > USIZE_MAX then Err(InvalidInput)
      else if v > HARD_MAX_WINSIZE then Err(InvalidInput)
      else Next(DelInd, f.(tgtlen := v))
    case DelInd => if v != 0 then Err(InvalidInput) else Next(DataLen, f)
    case DataLen => Next(InstLen, f.(dataSize := v))
    case InstLen => Next(AddrLen, f.(instSize := v))
    case AddrLen => Next(Cksum, f.(addrSize := v))
    case Cksum =>
      var g := f.(adler := if HasAdler(f) then BigEndian(bs) else f.adler);
      if g.enclen != EncodingLength(g) then Err(InvalidInput) else Next(DataSect, g)
  }

  /** Every field, with the sections. */
  function Accept(step: Step, f: Fields, v: nat, bs: seq<byte>): (r: Result<(Step, Fields)>)
    requires step != EmitWin
    ensures r.Ok? ==> Rank(r.value.0) > Rank(step) || r.value.0 == WinInd
  {
    if Rank(step) < 5 then AcceptHeader(step, f, v, bs)
    else if Rank(step) < 15 then AcceptWindow(step, f, v, bs)
    else match step
      case DataSect => Next(InstSect, f.(data := bs))
      case InstSect => Next(AddrSect, f.(inst := bs))
      case AddrSect => Next(EmitWin, f.(addr := bs))
      case FinishWin => Next(WinInd, f.(windows := f.windows + 1))
  }

  /** The state after a complete field; a window is output when its last section is complete. */
  ghost function Act(c: Config, step: Step, f: Fields, v: nat, bs: seq<byte>, out: seq<byte>): State {
    if step == EmitWin then
      match WindowOf(c, f)
      case Err(e) => State(Failed(e), out)
      case Ok(t) => State(Running(FinishWin, f, [], 0), out + t)
    else
      match Accept(step, f, v, bs)
      case Err(e) => State(Failed(e), out)
      case Ok((step', f')) => State(Running(step', f', [], 0), out)
  }

  lemma ActMovesOn(c: Config, step: Step, f: Fields, v: nat, bs: seq<byte>, out: seq<byte>)
    ensures var s := Act(c, step, f, v, bs, out);
            s.phase.Running? ==>
              && (Rank(s.phase.step) > Rank(step) || s.phase.step == WinInd)
              && s.phase.got == [] && s.phase.part == 0
  {
    hide Accept, WindowOf;
  }

  /** Steps that read nothing are taken at once. */
  ghost function Settle(c: Config, s: State): (r: State)
    ensures r.phase.Running? ==> ItemOf(r.phase.step, r.phase.f) != Nothing
    decreases if s.phase.Running? && ItemOf(s.phase.step, s.phase.f) == Nothing then 20 - Rank(s.phase.step) else 0
  {
    if s.phase.Running? && ItemOf(s.phase.step, s.phase.f) == Nothing then
      ActMovesOn(c, s.phase.step, s.phase.f, 0, [], s.out);
      Settle(c, Act(c, s.phase.step, s.phase.f, 0, [], s.out))
    else s
  }

  ghost function Feed(c: Config, s: State, b: byte): State {
    match s.phase
    case Failed(_) => s
    case Running(step, f, got, part) =>
      match ItemOf(step, f)
      case Nothing => s
      case OneByte => Settle(c, Act(c, step, f, b, [], s.out))
      case Bytes(n) =>
        if |got| + 1 < n then State(Running(step, f, got + [b], part), s.out)
        else Settle(c, Act(c, step, f, 0, got + [b], s.out))
      case Number(limit) =>
        if part >= limit then State(Failed(InvalidInput), s.out)
        else if b >= 128 then State(Running(step, f, got, part * 128 + b % 128), s.out)
        else Settle(c, Act(c, step, f, part * 128 + b, [], s.out))
  }

  ghost function FeedAll(c: Config, s: State, bytes: seq<byte>): State {
    if bytes == [] then s else Feed(c, FeedAll(c, s, bytes[..|bytes| - 1]), bytes[|bytes| - 1])
  }

  function Init(): State {
    State(Running(VcHead, Fields(0, 0, [], 0, 0, 0, 0, 0, 0, 0, 0, 0, 0, [], [], [], 0), [], 0), [])
  }

  /** Taking a piece and then another is taking both. */
  lemma {:induction false} FeedAppend(c: Config, s: State, a: seq<byte>, b: seq<byte>)
    ensures FeedAll(c, s, a + b) == FeedAll(c, FeedAll(c, s, a), b)
    decreases |b|
  {
    if b == [] {
      assert a + b == a;
    } else {
      var front := b[..|b| - 1];
      FeedAppend(c, s, a, front);
      assert (a + b)[..|a + b| - 1] == a + front;
    }
  }

  lemma {:induction false} FeedFailed(c: Config, s: State, a: seq<byte>)
    requires s.phase.Failed?
    ensures FeedAll(c, s, a) == s
    decreases |a|
  {
    if a != [] {
      FeedFailed(c, s, a[..|a| - 1]);
    }
  }

  lemma FeedOne(c: Config, s: State, b: byte)
    ensures FeedAll(c, s, [b]) == Feed(c, s, b)
  {
    assert [b][..0] == [];
  }

  /** Bytes of a field may come in pieces. */
  lemma {:induction false} FeedBytes(c: Config, s: State, bs: seq<byte>, n: nat)
    requires s.phase.Running? && ItemOf(s.phase.step, s.phase.f) == Bytes(n) && |s.phase.got| + |bs| <= n
             && |s.phase.got| < n
    ensures FeedAll(c, s, bs) ==
            if |s.phase.got| + |bs| < n
            then State(Running(s.phase.step, s.phase.f, s.phase.got + bs, s.phase.part), s.out)
            else Settle(c, Act(c, s.phase.step, s.phase.f, 0, s.phase.got + bs, s.out))
    decreases |bs|
  {
    hide Settle, Act;
    if bs == [] {
      assert s.phase.got + bs == s.phase.got;
    } else {
      var front, b := bs[..|bs| - 1], bs[|bs| - 1];
      FeedBytes(c, s, front, n);
      assert s.phase.got + front + [b] == s.phase.got + bs;
    }
  }
}
