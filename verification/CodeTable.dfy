/** The default instruction code table (section 5.6 of RFC 3284), the choice of single and
    double codes, and the instruction section they form. */
module CodeTable {
  import opened Common
  import Integers

  const NOOP: nat := 0
  const ADD: nat := 1
  const RUN: nat := 2
  const CPY: nat := 3  // copy instructions are CPY + address mode
  const MIN_MATCH: nat := 4
  const MODES: nat := 9  // 2 + near_modes + same_modes

  // The parameters of __rfc3284_code_table_desc
  const ADD_SIZES: nat := 17
  const NEAR_MODES: nat := 4
  const SAME_MODES: nat := 3
  const CPY_SIZES: nat := 15
  const ADDCOPY_ADD_MAX: nat := 4
  const ADDCOPY_NEAR_CPY_MAX: nat := 6
  const ADDCOPY_SAME_CPY_MAX: nat := 4
  const COPYADD_ADD_MAX: nat := 1
  const COPYADD_CPY_MAX: nat := 4

  /** xd3_dinst: one table entry. */
  datatype DInst = DInst(type1: nat, size1: nat, type2: nat, size2: nat)

  /** A half instruction as the instruction section carries it. */
  datatype Op = Op(kind: nat, size: nat) {
    predicate Valid() {
      ADD <= kind < CPY + MODES && 0 < size <= USIZE_MAX
    }
  }

  /** The default code table, read off the listing in section 5.6 of RFC 3284. */
  function Entry(code: byte): DInst {
    if code == 0 then DInst(RUN, 0, NOOP, 0)
    else if code < 19 then DInst(ADD, code - 1, NOOP, 0)
    else if code < 163 then
      var j := (code - 19) % 16;
      DInst(CPY + (code - 19) / 16, if j == 0 then 0 else j + 3, NOOP, 0)
    else if code < 235 then
      var j := (code - 163) % 12;
      DInst(ADD, j / 3 + 1, CPY + (code - 163) / 12, j % 3 + 4)
    else if code < 247 then DInst(ADD, (code - 235) % 4 + 1, CPY + 6 + (code - 235) / 4, 4)
    else DInst(CPY + code - 247, 4, ADD, 1)
  }

  /** xd3_build_code_table for the default description. */
  method BuildCodeTable() returns (table: seq<DInst>)
    ensures |table| == 256 && forall c: byte :: table[c] == Entry(c)
  {
    var tbl := new DInst[256](_ => DInst(NOOP, 0, NOOP, 0));
    tbl[0] := DInst(RUN, 0, NOOP, 0);
    tbl[1] := DInst(ADD, 0, NOOP, 0);
    var d := 2;
    for size1 := 1 to ADD_SIZES + 1
      invariant d == 1 + size1
      invariant forall c: byte :: c < d ==> tbl[c] == Entry(c)
    {
      tbl[d] := DInst(ADD, size1, NOOP, 0);
      d := d + 1;
    }
    d := BuildCopies(tbl, d);
    d := BuildAddCopy(tbl, d);
    d := BuildCopyAdd(tbl, d);
    table := tbl[..];
  }

  /** The single copies, sixteen codes to a mode. */
  method BuildCopies(tbl: array<DInst>, first: nat) returns (d: nat)
    requires tbl.Length == 256 && first == 19
    requires forall c: byte :: c < first ==> tbl[c] == Entry(c)
    modifies tbl
    ensures d == 163 && forall c: byte :: c < d ==> tbl[c] == Entry(c)
  {
    d := first;
    for mode := 0 to MODES
      invariant d == 19 + 16 * mode
      invariant forall c: byte :: c < d ==> tbl[c] == Entry(c)
    {
      CopyEntry(mode, 0);
      tbl[d] := DInst(CPY + mode, 0, NOOP, 0);
      d := d + 1;
      for size1 := MIN_MATCH to MIN_MATCH + CPY_SIZES
        invariant d == 16 + 16 * mode + size1
        invariant forall c: byte :: c < d ==> tbl[c] == Entry(c)
      {
        CopyEntry(mode, size1 - 3);
        hide Entry;
        tbl[d] := DInst(CPY + mode, size1, NOOP, 0);
        d := d + 1;
      }
    }
  }

  lemma CopyEntry(mode: nat, j: nat)
    requires mode < MODES && j < 16
    ensures Entry(19 + 16 * mode + j) == DInst(CPY + mode, if j == 0 then 0 else j + 3, NOOP, 0)
  {
    assert (16 * mode + j) / 16 == mode && (16 * mode + j) % 16 == j;
  }

  /** Where the table holds the ADD-COPY pair of the given sizes. */
  function AddCopyCode(mode: nat, size1: nat, size2: nat): byte
    requires mode < MODES && 1 <= size1 <= 4 && 4 <= size2 <= (if mode < 6 then 6 else 4)
  {
    if mode < 6 then 163 + 12 * mode + 3 * (size1 - 1) + (size2 - 4) else 235 + 4 * (mode - 6) + (size1 - 1)
  }

  lemma AddCopyEntry(mode: nat, size1: nat, size2: nat)
    requires mode < MODES && 1 <= size1 <= 4 && 4 <= size2 <= (if mode < 6 then 6 else 4)
    ensures Entry(AddCopyCode(mode, size1, size2)) == DInst(ADD, size1, CPY + mode, size2)
  {
    if mode < 6 {
      var j := 3 * (size1 - 1) + (size2 - 4);
      assert (12 * mode + j) / 12 == mode && (12 * mode + j) % 12 == j;
      assert j / 3 == size1 - 1 && j % 3 == size2 - 4;
    }
  }

  method BuildAddCopy(tbl: array<DInst>, first: nat) returns (d: nat)
    requires tbl.Length == 256 && first == 163
    requires forall c: byte :: c < first ==> tbl[c] == Entry(c)
    modifies tbl
    ensures d == 247 && forall c: byte :: c < d ==> tbl[c] == Entry(c)
  {
    d := first;
    for mode := 0 to MODES
      invariant d == if mode <= 6 then 163 + 12 * mode else 235 + 4 * (mode - 6)
      invariant forall c: byte :: c < d ==> tbl[c] == Entry(c)
    {
      var max := if mode < 2 + NEAR_MODES then ADDCOPY_NEAR_CPY_MAX else ADDCOPY_SAME_CPY_MAX;
      for size1 := 1 to ADDCOPY_ADD_MAX + 1
        invariant d == if mode < 6 then 163 + 12 * mode + 3 * (size1 - 1) else 235 + 4 * (mode - 6) + size1 - 1
        invariant forall c: byte :: c < d ==> tbl[c] == Entry(c)
      {
        for size2 := MIN_MATCH to max + 1
          invariant d == if mode < 6 then 163 + 12 * mode + 3 * (size1 - 1) + size2 - 4
                         else 235 + 4 * (mode - 6) + size1 - 1 + size2 - 4
          invariant forall c: byte :: c < d ==> tbl[c] == Entry(c)
        {
          AddCopyEntry(mode, size1, size2);
          tbl[d] := DInst(ADD, size1, CPY + mode, size2);
          d := d + 1;
        }
      }
    }
  }

  method BuildCopyAdd(tbl: array<DInst>, first: nat) returns (d: nat)
    requires tbl.Length == 256 && first == 247
    requires forall c: byte :: c < first ==> tbl[c] == Entry(c)
    modifies tbl
    ensures d == 256 && forall c: byte :: tbl[c] == Entry(c)
  {
    d := first;
    for mode := 0 to MODES
      invariant d == 247 + mode
      invariant forall c: byte :: c < d ==> tbl[c] == Entry(c)
    {
      for size1 := MIN_MATCH to COPYADD_CPY_MAX + 1
        invariant d == 247 + mode + size1 - 4
        invariant forall c: byte :: c < d ==> tbl[c] == Entry(c)
      {
        for size2 := 1 to COPYADD_ADD_MAX + 1
          invariant d == 247 + mode + size1 - 4 + size2 - 1
          invariant forall c: byte :: c < d ==> tbl[c] == Entry(c)
        {
          tbl[d] := DInst(CPY + mode, size1, ADD, size2);
          d := d + 1;
        }
      }
    }
  }

  /** The single code that xd3_choose_instruction stores in inst->code1. */
  function Code1(op: Op): byte
    requires op.Valid()
  {
    if op.kind == RUN then 0
    else if op.kind == ADD then (if op.size <= 17 then 1 + op.size else 1)
    else
      var mode := op.kind - CPY;
      19 + 16 * mode + (if 4 <= op.size <= 18 then op.size - 3 else 0)
  }

  /** The double code it stores in prev->code2; zero if the pair has none. */
  function Code2(prev: Op, op: Op): byte
    requires prev.Valid() && op.Valid()
  {
    if op.kind == ADD && op.size == 1 && prev.size == 4 && prev.kind >= CPY then 247 + (prev.kind - CPY)
    else if op.kind >= CPY && 4 <= op.size <= 18 && prev.kind == ADD && prev.size <= 4 then
      var mode := op.kind - CPY;
      if op.size <= 6 && mode <= 5 then 163 + mode * 12 + 3 * (prev.size - 1) + (op.size - 4)
      else if op.size == 4 && mode >= 6 then 235 + (mode - 6) * 4 + (prev.size - 1)
      else 0
    else 0
  }

  /** A single code names its instruction, with the size unless the size must follow. */
  lemma Code1Entry(op: Op)
    requires op.Valid()
    ensures Entry(Code1(op)) == DInst(op.kind, Entry(Code1(op)).size1, NOOP, 0)
    ensures Entry(Code1(op)).size1 in {0, op.size}
  {
  }

  /** A double code names both instructions with both sizes. */
  lemma Code2Entry(prev: Op, op: Op)
    requires prev.Valid() && op.Valid() && Code2(prev, op) != 0
    ensures Entry(Code2(prev, op)) == DInst(prev.kind, prev.size, op.kind, op.size)
  {
    if prev.kind == ADD {
      AddCopyEntry(op.kind - CPY, prev.size, op.size);
    }
  }

  /** Whenever the table has a single code with the size, that is the one chosen. */
  lemma Code1Complete(op: Op, code: byte)
    requires op.Valid() && Entry(code) == DInst(op.kind, op.size, NOOP, 0)
    ensures Code1(op) == code
  {
    if 19 <= code < 163 {
      var c := code - 19;
      assert c == 16 * (c / 16) + c % 16;
    }
  }

  /** Whenever the table has a double code for the pair, that is the one chosen. */
  lemma Code2Complete(prev: Op, op: Op, code: byte)
    requires prev.Valid() && op.Valid() && Entry(code) == DInst(prev.kind, prev.size, op.kind, op.size)
    ensures Code2(prev, op) == code
  {
    if 163 <= code < 235 {
      var c := code - 163;
      assert c == 12 * (c / 12) + c % 12;
      assert c % 12 == 3 * (c % 12 / 3) + c % 12 % 3 && c % 12 % 3 == c % 12 - 3 * (c % 12 / 3) && c % 12 % 3 == c % 3;
    }
  }

  /** xd3_emit_single */
  function EmitSingle(op: Op): seq<byte>
    requires op.Valid()
  {
    [Code1(op)] + (if Entry(Code1(op)).size1 == 0 then Integers.Encode(op.size) else [])
  }

  ghost predicate AllValid(ops: seq<Op>) {
    forall i :: 0 <= i < |ops| ==> ops[i].Valid()
  }

  function AsSeq(p: Option<Op>): seq<Op> {
    if p.Some? then [p.value] else []
  }

  /** The bytes written for `ops` when `pending` (stream->iout) still waits for its code. */
  function EmitOps(pending: Option<Op>, ops: seq<Op>): seq<byte>
    requires AllValid(AsSeq(pending)) && AllValid(ops)
    decreases |ops|
  {
    if ops == [] then (if pending.Some? then assert AsSeq(pending)[0].Valid(); EmitSingle(pending.value) else [])
    else
      var op := ops[0];
      if pending.None? then EmitOps(Some(op), ops[1..])
      else
        assert AsSeq(pending)[0].Valid();
        if Code2(pending.value, op) != 0 then [Code2(pending.value, op)] + EmitOps(None, ops[1..])
        else EmitSingle(pending.value) + EmitOps(Some(op), ops[1..])
  }

  /** The size of a half instruction: from the table, or else read from the section. */
  function HalfSize(size: nat, s: seq<byte>): (r: Result<(nat, seq<byte>)>)
    ensures r.Ok? ==> |r.value.1| <= |s|
  {
    if size == 0 then Integers.Read(s) else Ok((size, s))
  }

  /** The instructions an instruction section spells out. */
  function ParseOps(s: seq<byte>): Result<seq<Op>>
    decreases |s|
  {
    if s == [] then Ok([])
    else
      var e := Entry(s[0]);
      match HalfSize(e.size1, s[1..])
      case Err(err) => Err(err)
      case Ok((size1, s1)) =>
        if e.type2 == NOOP then
          match ParseOps(s1)
          case Err(err) => Err(err)
          case Ok(rest) => Ok([Op(e.type1, size1)] + rest)
        else
          match HalfSize(e.size2, s1)
          case Err(err) => Err(err)
          case Ok((size2, s2)) =>
            match ParseOps(s2)
            case Err(err) => Err(err)
            case Ok(rest) => Ok([Op(e.type1, size1), Op(e.type2, size2)] + rest)
  }

  lemma ParseSingle(op: Op, rest: seq<byte>)
    requires op.Valid()
    ensures EmitSingle(op) != []
    ensures HalfSize(Entry(Code1(op)).size1, (EmitSingle(op) + rest)[1..]) == Ok((op.size, rest))
  {
    Code1Entry(op);
    Integers.ReadEncode(op.size, rest);
    assert (EmitSingle(op) + rest)[1..] == EmitSingle(op)[1..] + rest;
    assert [] + rest == rest;
  }

  /** Opcode stream round trip: parsing what the encoder emits for any instruction list, with
      any instruction pending, gives the pending instruction and the list back in order. */
  lemma {:induction false} ParseEmit(pending: Option<Op>, ops: seq<Op>)
    requires AllValid(AsSeq(pending)) && AllValid(ops)
    ensures ParseOps(EmitOps(pending, ops)) == Ok(AsSeq(pending) + ops)
    decreases |ops|
  {
    if ops == [] {
      if pending.Some? {
        assert AsSeq(pending)[0].Valid();
        ParseSingle(pending.value, []);
        Code1Entry(pending.value);
        assert EmitSingle(pending.value) + [] == EmitSingle(pending.value);
      }
      assert AsSeq(pending) + ops == AsSeq(pending);
    } else {
      var op := ops[0];
      assert ops == [op] + ops[1..];
      if pending.None? {
        ParseEmit(Some(op), ops[1..]);
        assert AsSeq(pending) + ops == AsSeq(Some(op)) + ops[1..];
      } else {
        assert AsSeq(pending)[0].Valid();
        ParsePair(pending.value, op, ops[1..]);
      }
    }
  }

  lemma {:induction false} ParsePair(p: Op, op: Op, rest: seq<Op>)
    requires p.Valid() && op.Valid() && AllValid(rest)
    ensures ParseOps(EmitOps(Some(p), [op] + rest)) == Ok([p] + ([op] + rest))
    decreases |rest| + 1, 1
  {
    hide EmitOps, ParseOps, EmitSingle, Code2, Op.Valid;
    EmitPair(p, op, rest);
    if Code2(p, op) != 0 {
      ParseEmit(None, rest);
      assert AsSeq(None) + rest == rest;
      ParseDouble(p, op, EmitOps(None, rest), rest);
      assert [p, op] + rest == [p] + ([op] + rest);
    } else {
      ParseEmit(Some(op), rest);
      ParseOne(p, EmitOps(Some(op), rest), AsSeq(Some(op)) + rest);
    }
  }

  /** What is written when an instruction meets a pending one. */
  lemma EmitPair(p: Op, op: Op, rest: seq<Op>)
    requires p.Valid() && op.Valid() && AllValid(rest)
    ensures AllValid(AsSeq(Some(p))) && AllValid(AsSeq(Some(op))) && AllValid([op] + rest)
    ensures EmitOps(Some(p), [op] + rest) ==
            if Code2(p, op) != 0 then [Code2(p, op)] + EmitOps(None, rest) else EmitSingle(p) + EmitOps(Some(op), rest)
  {
    hide EmitSingle, Code2, Op.Valid;
    assert ([op] + rest)[1..] == rest;
  }

  /** A double code in front of a section. */
  lemma ParseDouble(p: Op, op: Op, tail: seq<byte>, rest: seq<Op>)
    requires p.Valid() && op.Valid() && Code2(p, op) != 0 && ParseOps(tail) == Ok(rest)
    ensures ParseOps([Code2(p, op)] + tail) == Ok([p, op] + rest)
  {
    Code2Entry(p, op);
    hide Entry, Code2;
    assert ([Code2(p, op)] + tail)[1..] == tail;
  }

  /** A single code with its size in front of a section. */
  lemma ParseOne(p: Op, tail: seq<byte>, rest: seq<Op>)
    requires p.Valid() && ParseOps(tail) == Ok(rest)
    ensures ParseOps(EmitSingle(p) + tail) == Ok([p] + rest)
  {
    Code1Entry(p);
    ParseSingle(p, tail);
    SingleCode(p, tail);
    hide Entry, Code1, HalfSize, EmitSingle;
  }

  lemma SingleCode(p: Op, tail: seq<byte>)
    requires p.Valid()
    ensures (EmitSingle(p) + tail)[0] == Code1(p)
  {
  }

  /** One instruction handed to the emitter: the bytes written and what is pending after. */
  function EmitStep(written: seq<byte>, pending: Option<Op>, op: Op): (seq<byte>, Option<Op>)
    requires AllValid(AsSeq(pending)) && op.Valid()
  {
    if pending.None? then (written, Some(op))
    else
      assert AsSeq(pending)[0].Valid();
      if Code2(pending.value, op) != 0 then (written + [Code2(pending.value, op)], None)
      else (written + EmitSingle(pending.value), Some(op))
  }

  /** The emitter's state after a list of instructions. */
  function EmitFold(ops: seq<Op>): (r: (seq<byte>, Option<Op>))
    requires AllValid(ops)
    ensures AllValid(AsSeq(r.1))
    ensures r.1.Some? ==> ops != [] && r.1.value == ops[|ops| - 1]
    decreases |ops|
  {
    if ops == [] then ([], None)
    else
      var (written, pending) := EmitFold(ops[..|ops| - 1]);
      EmitStep(written, pending, ops[|ops| - 1])
  }

  lemma EmitFoldSnoc(ops: seq<Op>, op: Op)
    requires AllValid(ops) && op.Valid()
    ensures AllValid(ops + [op])
    ensures EmitFold(ops + [op]) == EmitStep(EmitFold(ops).0, EmitFold(ops).1, op)
  {
    assert (ops + [op])[..|ops + [op]| - 1] == ops;
  }

  /** Emitting step by step and emitting a whole list write the same bytes. */
  lemma {:induction false} EmitFoldOps(ops: seq<Op>, rest: seq<Op>)
    requires AllValid(ops) && AllValid(rest)
    ensures EmitFold(ops).0 + EmitOps(EmitFold(ops).1, rest) == EmitOps(None, ops + rest)
    decreases |ops|
  {
    if ops == [] {
      assert ops + rest == rest && EmitFold(ops).0 + EmitOps(None, rest) == EmitOps(None, rest);
    } else {
      var front, last := ops[..|ops| - 1], ops[|ops| - 1];
      var (written, pending) := EmitFold(front);
      EmitFoldOps(front, [last] + rest);
      assert ops + rest == front + ([last] + rest);
      assert ([last] + rest)[1..] == rest;
      EmitStepOps(written, pending, last, rest);
    }
  }

  lemma EmitStepOps(written: seq<byte>, pending: Option<Op>, op: Op, rest: seq<Op>)
    requires AllValid(AsSeq(pending)) && op.Valid() && AllValid(rest)
    ensures var (w, p) := EmitStep(written, pending, op);
            AllValid(AsSeq(p)) && w + EmitOps(p, rest) == written + EmitOps(pending, [op] + rest)
  {
    assert ([op] + rest)[1..] == rest;
    if pending.Some? {
      assert AsSeq(pending)[0].Valid();
      var code := Code2(pending.value, op);
      if code != 0 {
        assert written + [code] + EmitOps(None, rest) == written + ([code] + EmitOps(None, rest));
      } else {
        var single := EmitSingle(pending.value);
        assert written + single + EmitOps(Some(op), rest) == written + (single + EmitOps(Some(op), rest));
      }
    }
  }
}
