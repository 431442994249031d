/** The instruction section is as short as the code table allows: taking a double code whenever the
    pending instruction and the next one have one loses nothing, because every double code saves
    exactly one byte. */
module ShortestCodes {
  import opened Common
  import opened CodeTable
  import Integers

  /** Both instructions of a double code would take one byte alone. */
  lemma DoubleSaves(a: Op, b: Op)
    requires a.Valid() && b.Valid() && Code2(a, b) != 0
    ensures |EmitSingle(a)| == 1 && |EmitSingle(b)| == 1
  {
    OneByte(a);
    OneByte(b);
  }

  lemma OneByte(op: Op)
    requires op.Valid() && op.kind != RUN && op.size <= (if op.kind == ADD then 17 else 18)
    requires op.kind >= CPY ==> op.size >= 4
    ensures |EmitSingle(op)| == 1
  {
    if op.kind >= CPY {
      CopyEntry(op.kind - CPY, op.size - 3);
    }
  }

  /** A pending instruction costs at most its single code, and does not make the rest shorter. */
  lemma {:induction false} PendingCosts(p: Op, ops: seq<Op>)
    requires p.Valid() && AllValid(ops)
    ensures AllValid(AsSeq(Some(p))) && AllValid(AsSeq(None))
    ensures |EmitOps(Some(p), ops)| <= |EmitSingle(p)| + |EmitOps(None, ops)|
    ensures |EmitOps(None, ops)| <= |EmitOps(Some(p), ops)|
    decreases |ops|
  {
    hide EmitOps, EmitSingle, Code2, Op.Valid;
    if ops == [] {
      NothingMore(p);
      NothingRead();
    } else {
      var op, rest := ops[0], ops[1..];
      assert op.Valid() && ops == [op] + rest;
      EmitPair(p, op, rest);
      EmitFirst(op, rest);
      PendingCosts(op, rest);
      SingleNotEmpty(p);
      if Code2(p, op) != 0 {
        DoubleSaves(p, op);
      }
    }
  }

  lemma NothingMore(p: Op)
    requires p.Valid()
    ensures AllValid(AsSeq(Some(p))) && EmitOps(Some(p), []) == EmitSingle(p)
  {
    assert AsSeq(Some(p))[0] == p;
  }

  lemma EmitFirst(op: Op, rest: seq<Op>)
    requires op.Valid() && AllValid(rest)
    ensures AllValid(AsSeq(Some(op))) && AllValid([op] + rest)
    ensures EmitOps(None, [op] + rest) == EmitOps(Some(op), rest)
  {
    hide EmitSingle, Code2, Op.Valid;
    assert ([op] + rest)[1..] == rest;
  }

  lemma SingleNotEmpty(op: Op)
    requires op.Valid()
    ensures |EmitSingle(op)| >= 1
  {
  }

  // ---------------------------------------------------------------- against any other section

  /** One code as it is read: its entry, its sizes, what follows. */
  function ReadCode(s: seq<byte>): (r: Result<(DInst, nat, nat, seq<byte>)>)
    requires s != []
    ensures r.Ok? ==> |r.value.3| < |s|
  {
    var e := Entry(s[0]);
    match HalfSize(e.size1, s[1..])
    case Err(err) => Err(err)
    case Ok((size1, s1)) =>
      if e.type2 == NOOP then Ok((e, size1, 0, s1))
      else
        match HalfSize(e.size2, s1)
        case Err(err) => Err(err)
        case Ok((size2, s2)) => Ok((e, size1, size2, s2))
  }

  lemma ParseCode(s: seq<byte>)
    requires s != [] && ParseOps(s).Ok?
    ensures ReadCode(s).Ok? && var (e, size1, size2, rest) := ReadCode(s).value;
            && ParseOps(rest).Ok?
            && ParseOps(s).value == (if e.type2 == NOOP then [Op(e.type1, size1)]
                                     else [Op(e.type1, size1), Op(e.type2, size2)]) + ParseOps(rest).value
  {
    hide Entry, HalfSize;
  }

  /** A number read takes at least the bytes of its encoding. */
  lemma NumberTakes(s: seq<byte>)
    requires Integers.Read(s).Ok?
    ensures var (n, rest) := Integers.Read(s).value;
            |Integers.Encode(n)| + |rest| <= |s|
  {
    Integers.ReadPrefix(s, 0);
    var (n, rest) := Integers.Read(s).value;
    Integers.EncodeIsShortest(s[..|s| - |rest|], n);
  }

  /** A single code with its size takes at least the bytes of the chosen one. */
  lemma SingleTakes(s: seq<byte>, op: Op)
    requires s != [] && ReadCode(s).Ok? && op.Valid()
    requires var (e, size1, size2, rest) := ReadCode(s).value; e.type2 == NOOP && op == Op(e.type1, size1)
    ensures |EmitSingle(op)| + |ReadCode(s).value.3| <= |s|
  {
    hide Integers.Encode, Integers.Read, Code1;
    var (e, size1, size2, rest) := ReadCode(s).value;
    if e.size1 == 0 {
      NumberTakes(s[1..]);
    } else {
      SingleEntry(s[0]);
      Code1Complete(op, s[0]);
    }
  }

  lemma SingleEntry(code: byte)
    ensures Entry(code).type2 == NOOP ==> Entry(code).size2 == 0
    ensures Entry(code).type2 != NOOP ==> Entry(code).size1 > 0 && Entry(code).size2 > 0
  {
  }

  /** Every byte string that reads as these instructions is at least as long as the section that
      the encoder writes for them. */
  lemma {:induction false} EmitIsShortest(s: seq<byte>, ops: seq<Op>)
    requires AllValid(ops) && ParseOps(s) == Ok(ops)
    ensures |EmitOps(None, ops)| <= |s|
    decreases |s|
  {
    hide EmitOps, ParseOps, EmitSingle, Code2, Op.Valid, ReadCode, Entry;
    if s == [] {
      NothingRead();
    } else {
      ParseCode(s);
      var (e, size1, size2, rest) := ReadCode(s).value;
      var more := ParseOps(rest).value;
      var first := Op(e.type1, size1);
      assert ops[0] == first && first.Valid();
      if e.type2 == NOOP {
        assert ops[1..] == more && ops == [first] + more;
        EmitIsShortest(rest, more);
        EmitFirst(first, more);
        PendingCosts(first, more);
        SingleTakes(s, first);
      } else {
        var second := Op(e.type2, size2);
        assert ops[1] == second && second.Valid();
        assert ops[2..] == more && ops == [first] + ([second] + more);
        EmitIsShortest(rest, more);
        DoubleRead(s);
        Code2Complete(first, second, s[0]);
        EmitFirst(first, [second] + more);
        EmitPair(first, second, more);
      }
    }
  }

  lemma NothingRead()
    ensures ParseOps([]) == Ok([]) && EmitOps(None, []) == []
  {
  }

  /** A double code has both sizes in the table. */
  lemma DoubleRead(s: seq<byte>)
    requires s != [] && ReadCode(s).Ok? && ReadCode(s).value.0.type2 != NOOP
    ensures var (e, size1, size2, rest) := ReadCode(s).value;
            e == Entry(s[0]) == DInst(e.type1, size1, e.type2, size2) && |rest| == |s| - 1 && s[0] != 0
  {
    SingleEntry(s[0]);
  }
}
