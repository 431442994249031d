/** Move-to-front with 1/2 run coding: how the secondary compressor writes code lengths. */
module MoveToFront {
  import opened Common
  import opened BitStream
  import C = Canonical

  const RUN_0: nat := 0
  const RUN_1: nat := 1

  /** The list with the element at j moved to the front. */
  function ToFront(list: seq<nat>, j: nat): (r: seq<nat>)
    requires j < |list|
    ensures |r| == |list|
  {
    [list[j]] + list[..j] + list[j + 1..]
  }

  lemma ToFrontPermutes(list: seq<nat>, j: nat)
    requires j < |list|
    ensures multiset(ToFront(list, j)) == multiset(list)
  {
    assert list == list[..j] + [list[j]] + list[j + 1..];
  }

  /** The position of a symbol in the list. */
  function Find(list: seq<nat>, sym: nat): (j: nat)
    requires sym in list
    ensures j < |list| && list[j] == sym
  {
    if list[0] == sym then 0 else 1 + Find(list[1..], sym)
  }

  /** A run length as digits 1 and 2 of increasing weight (djw_update_1_2). */
  function RunCodes(run: nat): (r: seq<nat>)
    requires run > 0
    ensures 0 < |r| <= run && forall i :: 0 <= i < |r| ==> r[i] <= RUN_1
  {
    var left := run - 1;
    [left % 2] + (if left / 2 >= 1 then RunCodes(left / 2) else [])
  }

  function Pending(run: nat): seq<nat> {
    if run > 0 then RunCodes(run) else []
  }

  predicate Over(syms: seq<nat>, list: seq<nat>) {
    forall i :: 0 <= i < |syms| ==> syms[i] in list
  }

  /** djw_compute_mtf_1_2 from a list and a run of its first element not yet written: the codes
      and the final list. */
  function Encode(list: seq<nat>, syms: seq<nat>, run: nat): (seq<nat>, seq<nat>)
    requires Over(syms, list)
    decreases |syms|
  {
    if syms == [] then (Pending(run), list)
    else
      var j := Find(list, syms[0]);
      var list' := ToFront(list, j);
      StillOver(list, j, syms);
      if j == 0 then Encode(list', syms[1..], run + 1)
      else
        var (codes, final) := Encode(list', syms[1..], 0);
        (Pending(run) + [j + RUN_1] + codes, final)
  }

  lemma StillOver(list: seq<nat>, j: nat, syms: seq<nat>)
    requires Over(syms, list) && j < |list| && syms != []
    ensures Over(syms[1..], ToFront(list, j))
  {
    hide ToFront;
    var front := ToFront(list, j);
    ToFrontPermutes(list, j);
    forall i | 0 <= i < |syms| - 1 ensures syms[1..][i] in front {
      assert syms[i + 1] in multiset(list);
    }
  }

  type Decoded = Option<(seq<nat>, seq<nat>, seq<nat>)>

  /** djw_decode_1_2 on a list of codes, with s run codes just read: the values, the codes left
      and the final list.  A run that reaches past the last value is an error. */
  function Decode(list: seq<nat>, codes: seq<nat>, elts: nat, s: nat): Decoded
    decreases |codes|
  {
    if elts == 0 then Some(([], codes, list))
    else if codes == [] || list == [] then None
    else if codes[0] <= RUN_1 then
      var rep := (codes[0] + 1) * Pow2(s);
      if rep > elts then None else After(Repeat(list[0], rep), Decode(list, codes[1..], elts - rep, s + 1))
    else if codes[0] - 1 >= |list| then None
    else After([list[codes[0] - 1]], Decode(ToFront(list, codes[0] - 1), codes[1..], elts - 1, 0))
  }

  /** A decoding whose values follow a prefix. */
  function After(prefix: seq<nat>, r: Decoded): Decoded {
    match r
    case None => None
    case Some((vals, rest, final)) => Some((prefix + vals, rest, final))
  }

  lemma DecodeRunCode(list: seq<nat>, codes: seq<nat>, elts: nat, s: nat, d: nat, rep: nat)
    requires list != [] && d <= RUN_1 && 0 < rep <= elts && rep == (d + 1) * Pow2(s)
    ensures Decode(list, [d] + codes, elts, s) == After(Repeat(list[0], rep), Decode(list, codes, elts - rep, s + 1))
  {
    assert ([d] + codes)[1..] == codes;
  }

  lemma DecodeMove(list: seq<nat>, codes: seq<nat>, elts: nat, s: nat, j: nat)
    requires 0 < j < |list| && elts > 0
    ensures Decode(list, [j + RUN_1] + codes, elts, s) == After([list[j]], Decode(ToFront(list, j), codes, elts - 1, 0))
  {
    assert ([j + RUN_1] + codes)[1..] == codes;
  }

  /** The shift after some run codes matters only to further run codes. */
  predicate NoRunNext(codes: seq<nat>, elts: nat) {
    elts == 0 || (codes != [] && codes[0] > RUN_1)
  }

  lemma ShiftIrrelevant(list: seq<nat>, codes: seq<nat>, elts: nat, s: nat)
    requires NoRunNext(codes, elts)
    ensures Decode(list, codes, elts, s) == Decode(list, codes, elts, 0)
  {
  }

  /** The digits of a run add up to it: rep counts (d + 1) * 2^s. */
  lemma {:induction false} DecodeRun(list: seq<nat>, run: nat, codes: seq<nat>, elts: nat, s: nat, total: nat)
    requires run > 0 && list != [] && total == run * Pow2(s) <= elts
    requires NoRunNext(codes, elts - total)
    ensures Decode(list, RunCodes(run) + codes, elts, s)
            == After(Repeat(list[0], total), Decode(list, codes, elts - total, 0))
    decreases run
  {
    hide Decode, RunCodes, Pow2, NoRunNext, After;
    var left := run - 1;
    var d, more := left % 2, left / 2;
    RunSplit(d, more, Pow2(s), run);
    var rep := (d + 1) * Pow2(s);
    RunCodesStep(run, codes);
    Pow2Next(s);
    var later := more * Pow2(s + 1);
    if more >= 1 {
      DecodeRunCode(list, RunCodes(more) + codes, elts, s, d, rep);
      DecodeRun(list, more, codes, elts - rep, s + 1, later);
      RepeatSplit(list[0], rep, later, total);
      AfterTwice(Repeat(list[0], rep), Repeat(list[0], later), Repeat(list[0], total),
                 Decode(list, codes, elts - total, 0));
    } else {
      DecodeRunCode(list, codes, elts, s, d, rep);
      ShiftIrrelevant(list, codes, elts - rep, s + 1);
    }
  }

  lemma RunCodesStep(run: nat, codes: seq<nat>)
    requires run > 0
    ensures var d, more := (run - 1) % 2, (run - 1) / 2;
            RunCodes(run) + codes == [d] + (if more >= 1 then RunCodes(more) + codes else codes)
  {
  }

  lemma RunSplit(d: nat, more: nat, p: nat, run: nat)
    requires run == d + 1 + 2 * more
    ensures run * p == (d + 1) * p + more * (2 * p)
    ensures (d + 1) * p <= run * p && p > 0 ==> (d + 1) * p > 0
  {
  }

  lemma RepeatSplit(x: nat, a: nat, b: nat, n: nat)
    requires n == a + b
    ensures Repeat(x, a) + Repeat(x, b) == Repeat(x, n)
  {
  }

  lemma AfterTwice(a: seq<nat>, b: seq<nat>, c: seq<nat>, r: Option<(seq<nat>, seq<nat>, seq<nat>)>)
    requires a + b == c
    ensures After(a, After(b, r)) == After(c, r)
  {
    if r.Some? {
      assert a + (b + r.value.0) == c + r.value.0;
    }
  }

  lemma DecodePending(list: seq<nat>, run: nat, codes: seq<nat>, elts: nat)
    requires list != [] && run <= elts && NoRunNext(codes, elts - run)
    ensures Decode(list, Pending(run) + codes, elts, 0)
            == After(Repeat(list[0], run), Decode(list, codes, elts - run, 0))
  {
    hide Decode, RunCodes;
    if run > 0 {
      assert Pow2(0) == 1;
      DecodeRun(list, run, codes, elts, 0, run);
    } else {
      assert Pending(run) + codes == codes;
      var r := Decode(list, codes, elts, 0);
      if r.Some? {
        assert Repeat(list[0], 0) + r.value.0 == r.value.0;
      }
    }
  }

  /** Decoding inverts encoding for every symbol sequence over the list: the same values, nothing
      left over, and the same final list on both sides. */
  lemma {:induction false} DecodeEncoded(list: seq<nat>, syms: seq<nat>, run: nat)
    requires list != [] && Over(syms, list)
    ensures var (codes, final) := Encode(list, syms, run);
            Decode(list, codes, run + |syms|, 0) == Some((Repeat(list[0], run) + syms, [], final))
    decreases |syms|
  {
    hide Decode, Pending, Find;
    if syms == [] {
      DecodePending(list, run, [], run);
      DecodeNothing(list);
      assert Pending(run) + [] == Pending(run);
    } else {
      var j, elts := Find(list, syms[0]), run + |syms|;
      var list' := ToFront(list, j);
      StillOver(list, j, syms);
      if j == 0 {
        assert list' == list;
        DecodeEncoded(list, syms[1..], run + 1);
        assert Repeat(list[0], run + 1) + syms[1..] == Repeat(list[0], run) + syms;
      } else {
        var (codes, final) := Encode(list', syms[1..], 0);
        DecodeEncoded(list', syms[1..], 0);
        assert Repeat(list'[0], 0) + syms[1..] == syms[1..];
        assert [syms[0]] + syms[1..] == syms;
        DecodeFound(list, run, j, codes, syms[1..], final);
      }
    }
  }

  /** A pending run, then an element that is not the first. */
  lemma DecodeFound(list: seq<nat>, run: nat, j: nat, codes: seq<nat>, vals: seq<nat>, final: seq<nat>)
    requires 0 < j < |list| && Decode(ToFront(list, j), codes, |vals|, 0) == Some((vals, [], final))
    ensures Decode(list, Pending(run) + [j + RUN_1] + codes, run + 1 + |vals|, 0)
            == Some((Repeat(list[0], run) + ([list[j]] + vals), [], final))
  {
    hide Decode, Pending, ToFront;
    var tail := [j + RUN_1] + codes;
    assert Pending(run) + [j + RUN_1] + codes == Pending(run) + tail;
    DecodePending(list, run, tail, run + 1 + |vals|);
    DecodeMove(list, codes, 1 + |vals|, 0, j);
  }

  lemma DecodeNothing(list: seq<nat>)
    ensures Decode(list, [], 0, 0) == Some(([], [], list))
  {
  }

  // ---------------------------------------------------------------- what the list says

  ghost predicate Ahead(list: seq<nat>, a: nat, b: nat) {
    exists i, j :: 0 <= i < j < |list| && list[i] == a && list[j] == b
  }

  /** Moving another element to the front leaves a ahead of b, and moving a puts it there. */
  lemma ToFrontAhead(list: seq<nat>, k: nat, a: nat, b: nat)
    requires k < |list| && a != b && list[k] != b && b in list && (list[k] == a || Ahead(list, a, b))
    ensures Ahead(ToFront(list, k), a, b)
  {
    var r := ToFront(list, k);
    if list[k] == a {
      var j :| 0 <= j < |list| && list[j] == b;
      assert r[0] == a && r[if j < k then j + 1 else j] == b;
    } else {
      var i, j :| 0 <= i < j < |list| && list[i] == a && list[j] == b;
      assert r[if i < k then i + 1 else i] == a && r[if j < k then j + 1 else j] == b;
    }
  }

  /** What is ahead stays there until the other is used. */
  lemma {:induction false} StaysAhead(list: seq<nat>, syms: seq<nat>, run: nat, a: nat, b: nat)
    requires Over(syms, list) && a != b && Ahead(list, a, b) && b !in syms
    ensures Ahead(Encode(list, syms, run).1, a, b)
    decreases |syms|
  {
    if syms != [] {
      hide Ahead, ToFront, RunCodes;
      var j := Find(list, syms[0]);
      StillOver(list, j, syms);
      AheadIn(list, a, b);
      ToFrontAhead(list, j, a, b);
      StaysAhead(ToFront(list, j), syms[1..], if j == 0 then run + 1 else 0, a, b);
    }
  }

  lemma AheadIn(list: seq<nat>, a: nat, b: nat)
    requires Ahead(list, a, b)
    ensures a in list && b in list
  {
  }

  /** After any symbols, the one used later is ahead. */
  lemma {:induction false} RecentAhead(list: seq<nat>, syms: seq<nat>, run: nat, k: nat, b: nat)
    requires Over(syms, list) && k < |syms| && b in list && b !in syms[k..]
    ensures Ahead(Encode(list, syms, run).1, syms[k], b)
    decreases |syms|
  {
    hide Ahead, ToFront, RunCodes;
    var j := Find(list, syms[0]);
    var list' := ToFront(list, j);
    var run' := if j == 0 then run + 1 else 0;
    StillOver(list, j, syms);
    ToFrontPermutes(list, j);
    assert b in multiset(list');
    if k == 0 {
      assert syms[0] == syms[0..][0];
      ToFrontAhead(list, j, syms[0], b);
      assert b !in syms[1..];
      StaysAhead(list', syms[1..], run', syms[0], b);
    } else {
      assert syms[1..][k - 1..] == syms[k..];
      RecentAhead(list', syms[1..], run', k - 1, b);
    }
  }

  /** The codes are never more than the symbols, and each is a run code or a shifted position. */
  lemma {:induction false} EncodeBounds(list: seq<nat>, syms: seq<nat>, run: nat)
    requires list != [] && Over(syms, list)
    ensures var (codes, final) := Encode(list, syms, run);
            && |codes| <= run + |syms| && multiset(final) == multiset(list)
            && (run + |syms| > 0 ==> codes != [])
            && forall i :: 0 <= i < |codes| ==> codes[i] <= |list|
    decreases |syms|
  {
    if syms != [] {
      hide ToFront, RunCodes;
      var j := Find(list, syms[0]);
      var list' := ToFront(list, j);
      StillOver(list, j, syms);
      ToFrontPermutes(list, j);
      if j == 0 {
        EncodeBounds(list', syms[1..], run + 1);
      } else {
        EncodeBounds(list', syms[1..], 0);
      }
    }
  }

  // ---------------------------------------------------------------- from bits

  type DecodedBits = Option<(seq<nat>, seq<bool>, seq<nat>)>

  function AfterBits(prefix: seq<nat>, r: DecodedBits): DecodedBits {
    match r
    case None => None
    case Some((vals, rest, final)) => Some((prefix + vals, rest, final))
  }

  /** The loop of djw_decode_1_2: `left` values to go, `rep` repeats owed, then the symbol at
      place `mtf` if that is not zero. */
  function Resume(t: C.Tables, list: seq<nat>, bits: seq<bool>, left: nat, rep: nat, mtf: nat, s: nat): DecodedBits
    requires t.maxLen < |t.limit| && t.maxLen < |t.base|
    decreases left, if rep == 0 && mtf == 0 then 1 else 0
  {
    if left == 0 then (if rep != 0 then None else Some(([], bits, list)))
    else if rep != 0 then
      if list == [] then None else AfterBits([list[0]], Resume(t, list, bits, left - 1, rep - 1, mtf, s))
    else if mtf != 0 then
      if mtf >= |list| then None
      else AfterBits([list[mtf]], Resume(t, ToFront(list, mtf), bits, left - 1, 0, 0, s))
    else
      match C.DecodeSymbol(t, bits, 22)
      case None => None
      case Some((sym, rest)) =>
        if sym <= RUN_1 then Resume(t, list, rest, left, (sym + 1) * Pow2(s), 0, s + 1)
        else Resume(t, list, rest, left, 0, sym - 1, 0)
  }

  /** The codes of a list of symbols, one after another. */
  function CodesBits(clen: seq<nat>, codes: seq<nat>): seq<bool>
    requires forall i :: 0 <= i < |codes| ==> codes[i] < |clen|
  {
    if codes == [] then [] else C.CodeBits(clen, codes[0]) + CodesBits(clen, codes[1..])
  }

  /** Every symbol used has a code. */
  ghost predicate AllCoded(clen: seq<nat>, codes: seq<nat>) {
    forall i :: 0 <= i < |codes| ==> codes[i] < |clen| && clen[codes[i]] > 0
  }

  lemma {:induction false} ResumeRun(t: C.Tables, list: seq<nat>, bits: seq<bool>, left: nat, rep: nat, s: nat)
    requires t.maxLen < |t.limit| && t.maxLen < |t.base| && list != [] && rep <= left
    ensures Resume(t, list, bits, left, rep, 0, s)
            == AfterBits(Repeat(list[0], rep), Resume(t, list, bits, left - rep, 0, 0, s))
    decreases rep
  {
    var r := Resume(t, list, bits, left - rep, 0, 0, s);
    if rep == 0 {
      if r.Some? {
        assert Repeat(list[0], 0) + r.value.0 == r.value.0;
      }
    } else {
      ResumeRun(t, list, bits, left - 1, rep - 1, s);
      if r.Some? {
        assert [list[0]] + (Repeat(list[0], rep - 1) + r.value.0) == Repeat(list[0], rep) + r.value.0;
      }
    }
  }

  ghost predicate CodeFor(t: C.Tables, clen: seq<nat>, m: nat) {
    C.Decodable(clen, m) && C.TablesFor(t, clen, m) && |clen| <= 23 && t.maxLen < |t.limit| && t.maxLen < |t.base|
  }

  /** Reading bits follows reading codes. */
  lemma {:induction false} ResumeCodes(t: C.Tables, clen: seq<nat>, m: nat, list: seq<nat>, codes: seq<nat>,
                                       elts: nat, s: nat, tail: seq<bool>)
    requires CodeFor(t, clen, m) && AllCoded(clen, codes)
    requires Decode(list, codes, elts, s).Some?
    ensures var (vals, rest, final) := Decode(list, codes, elts, s).value;
            AllCoded(clen, rest)
            && Resume(t, list, CodesBits(clen, codes) + tail, elts, 0, 0, s)
              == Some((vals, CodesBits(clen, rest) + tail, final))
    decreases |codes|
  {
    hide C.Decodable, C.TablesFor, C.DecodeSymbol, C.CodeBits;
    if elts > 0 {
      var c, more := codes[0], codes[1..];
      var after := CodesBits(clen, more) + tail;
      assert CodesBits(clen, codes) + tail == C.CodeBits(clen, c) + after;
      C.DecodeEncoded(t, clen, m, c, after, 22);
      if c <= RUN_1 {
        var rep := (c + 1) * Pow2(s);
        ResumeCodes(t, clen, m, list, more, elts - rep, s + 1, tail);
        ResumeRun(t, list, after, elts, rep, s + 1);
      } else {
        ResumeCodes(t, clen, m, ToFront(list, c - 1), more, elts - 1, 0, tail);
      }
    }
  }

  // ---------------------------------------------------------------- in place

  /** djw_update_mtf, and the inner loop of djw_compute_mtf_1_2. */
  method UpdateMtf(mtf: array<nat>, i: nat) returns (sym: nat)
    requires i < mtf.Length
    modifies mtf
    ensures sym == old(mtf[i]) && mtf[..] == ToFront(old(mtf[..]), i)
  {
    sym := mtf[i];
    var k := i;
    while k != 0
      invariant 0 <= k <= i
      invariant forall p :: 0 <= p <= k ==> mtf[p] == old(mtf[p])
      invariant forall p :: k < p <= i ==> mtf[p] == old(mtf[..])[p - 1]
      invariant forall p :: i < p < mtf.Length ==> mtf[p] == old(mtf[p])
    {
      mtf[k] := mtf[k - 1];
      k := k - 1;
    }
    mtf[0] := sym;
  }

  /** The frequencies count the codes written so far. */
  ghost predicate Counts(freq: seq<nat>, codes: seq<nat>) {
    forall c :: 0 <= c < |freq| ==> freq[c] == C.Count(codes, c)
  }

  lemma CountsSnoc(freq: seq<nat>, codes: seq<nat>, c: nat)
    requires Counts(freq, codes) && c < |freq|
    ensures Counts(freq[c := freq[c] + 1], codes + [c])
  {
    assert (codes + [c])[..|codes|] == codes;
  }

  /** djw_update_1_2 */
  method UpdateRun(run: nat, mtfsym: seq<nat>, freq: array<nat>) returns (codes: seq<nat>)
    requires run > 0 && freq.Length >= 2 && Counts(freq[..], mtfsym)
    modifies freq
    ensures codes == mtfsym + Pending(run) && Counts(freq[..], codes)
  {
    hide Counts, RunCodes;
    codes := mtfsym;
    var left := run;
    assert codes + Pending(run) == mtfsym + Pending(run);
    while true
      invariant left > 0 && codes + RunCodes(left) == mtfsym + RunCodes(run)
      invariant Counts(freq[..], codes)
      decreases left
    {
      ghost var before := codes;
      RunCodesStep(left, []);
      assert RunCodes(left) + [] == RunCodes(left);
      left := left - 1;
      var code := if left % 2 == 1 then RUN_1 else RUN_0;
      CountsSnoc(freq[..], codes, code);
      codes := codes + [code];
      freq[code] := freq[code] + 1;
      left := left / 2;
      if left < 1 {
        break;
      }
      assert RunCodes(left) + [] == RunCodes(left);
      assert before + ([code] + RunCodes(left)) == codes + RunCodes(left);
    }
  }

  lemma NoCounts(freq: seq<nat>)
    requires forall k :: 0 <= k < |freq| ==> freq[k] == 0
    ensures Counts(freq, [])
  {
  }

  /** One symbol of the encoding, after codes already written. */
  lemma EncodeStep(list: seq<nat>, syms: seq<nat>, run: nat, codes: seq<nat>)
    requires syms != [] && Over(syms, list)
    ensures var j := Find(list, syms[0]);
            Over(syms[1..], ToFront(list, j))
            && var list' := ToFront(list, j);
               var (c, f) := Encode(list, syms, run);
               if j == 0 then Encode(list', syms[1..], run + 1) == (c, f)
               else var (c', f') := Encode(list', syms[1..], 0);
                    f == f' && codes + c == codes + Pending(run) + [j + RUN_1] + c'
  {
    hide ToFront, Pending, Find;
    StillOver(list, Find(list, syms[0]), syms);
  }

  lemma NoPending()
    ensures Pending(0) == []
  {
  }

  lemma EncodeEnd(list: seq<nat>, run: nat)
    ensures Encode(list, [], run) == (Pending(run), list)
  {
  }

  /** The search of djw_compute_mtf_1_2. */
  method FindIn(mtf: array<nat>, sym: nat) returns (j: nat)
    requires sym in mtf[..]
    ensures j < mtf.Length && j == Find(mtf[..], sym)
  {
    j := 0;
    assert mtf[0..] == mtf[..];
    while mtf[j] != sym
      invariant j < mtf.Length && sym in mtf[j..] && Find(mtf[..], sym) == j + Find(mtf[j..], sym)
      decreases mtf.Length - j
    {
      assert mtf[j..][1..] == mtf[j + 1..];
      j := j + 1;
    }
  }

  /** djw_compute_mtf_1_2 */
  method ComputeMtf(symbols: seq<nat>, mtf: array<nat>, freq: array<nat>) returns (codes: seq<nat>)
    requires mtf.Length > 0 && Over(symbols, mtf[..]) && freq.Length > mtf.Length && freq != mtf
    modifies mtf, freq
    ensures (codes, mtf[..]) == Encode(old(mtf[..]), symbols, 0)
    ensures Counts(freq[..], codes)
  {
    hide Counts, RunCodes, Pending, Encode, ToFront;
    for c := 0 to freq.Length
      modifies freq
      invariant forall k :: 0 <= k < c ==> freq[k] == 0
    {
      freq[c] := 0;
    }
    NoCounts(freq[..]);
    codes := [];
    var run: nat := 0;
    ghost var list := mtf[..];
    assert list == old(mtf[..]) && symbols[0..] == symbols;
    assert [] + Encode(list, symbols, 0).0 == Encode(list, symbols, 0).0;
    for i := 0 to |symbols|
      invariant Over(symbols[i..], mtf[..])
      invariant var (c, f) := Encode(mtf[..], symbols[i..], run); Encode(list, symbols, 0) == (codes + c, f)
      invariant Counts(freq[..], codes)
    {
      ghost var from := mtf[..];
      var sym := symbols[i];
      assert symbols[i..][0] == sym && symbols[i..][1..] == symbols[i + 1..];
      var j := FindIn(mtf, sym);
      EncodeStep(from, symbols[i..], run, codes);
      StillOver(from, j, symbols[i..]);
      var same := UpdateMtf(mtf, j);
      if j == 0 {
        run := run + 1;
      } else {
        ghost var before, pending := codes, Pending(run);
        if run > 0 {
          codes := UpdateRun(run, codes, freq);
          run := 0;
        }
        NoPending();
        assert codes == before + pending;
        CountsSnoc(freq[..], codes, j + RUN_1);
        codes := codes + [j + RUN_1];
        freq[j + RUN_1] := freq[j + RUN_1] + 1;
      }
    }
    assert symbols[|symbols|..] == [] && codes + [] == codes;
    EncodeEnd(mtf[..], run);
    NoPending();
    if run > 0 {
      codes := UpdateRun(run, codes, freq);
    }
  }

  lemma ResumeStep(t: C.Tables, list: seq<nat>, bits: seq<bool>, left: nat, s: nat)
    requires t.maxLen < |t.limit| && t.maxLen < |t.base| && left > 0
    ensures Resume(t, list, bits, left, 0, 0, s) ==
            match C.DecodeSymbol(t, bits, 22)
            case None => None
            case Some((sym, rest)) =>
              if sym <= RUN_1 then Resume(t, list, rest, left, (sym + 1) * Pow2(s), 0, s + 1)
              else Resume(t, list, rest, left, 0, sym - 1, 0)
  {
  }

  lemma ResumeValue(t: C.Tables, list: seq<nat>, bits: seq<bool>, left: nat, rep: nat, mtf: nat, s: nat, vals: seq<nat>)
    requires t.maxLen < |t.limit| && t.maxLen < |t.base| && left > 0 && (rep == 0 || mtf == 0) && list != []
    ensures rep != 0 ==>
              AfterBits(vals, Resume(t, list, bits, left, rep, mtf, s))
              == AfterBits(vals + [list[0]], Resume(t, list, bits, left - 1, rep - 1, mtf, s))
    ensures rep == 0 < mtf < |list| ==>
              AfterBits(vals, Resume(t, list, bits, left, rep, mtf, s))
              == AfterBits(vals + [list[mtf]], Resume(t, ToFront(list, mtf), bits, left - 1, 0, 0, s))
  {
    if rep != 0 {
      AfterBitsTwice(vals, list[0], Resume(t, list, bits, left - 1, rep - 1, mtf, s));
    } else if 0 < mtf < |list| {
      AfterBitsTwice(vals, list[mtf], Resume(t, ToFront(list, mtf), bits, left - 1, 0, 0, s));
    }
  }

  lemma AfterBitsTwice(a: seq<nat>, x: nat, r: DecodedBits)
    ensures AfterBits(a, AfterBits([x], r)) == AfterBits(a + [x], r)
  {
    if r.Some? {
      assert a + ([x] + r.value.0) == a + [x] + r.value.0;
    }
  }

  /** djw_decode_1_2 for values without a skip offset. */
  method Decode12(reader: Reader, t: C.Tables, mtfvals: array<nat>, elts: nat) returns (values: Option<seq<nat>>)
    requires reader.Valid() && t.maxLen < |t.limit| && t.maxLen < |t.base| && mtfvals.Length > 0
    modifies reader, mtfvals
    ensures reader.Valid()
    ensures match Resume(t, old(mtfvals[..]), old(reader.Rest()), elts, 0, 0, 0)
            case Some((vals, rest, final)) => values == Some(vals) && reader.Rest() == rest && mtfvals[..] == final
            case None => values == None
  {
    hide Resume, C.DecodeSymbol, RestOf, Pow2, ToFront;
    var vals: seq<nat>, n: nat, rep: nat, mtf: nat, s: nat := [], 0, 0, 0, 0;
    ghost var want := Resume(t, mtfvals[..], reader.Rest(), elts, 0, 0, 0);
    assert want.Some? ==> [] + want.value.0 == want.value.0;
    while n < elts
      invariant n == |vals| <= elts && reader.Valid() && (rep == 0 || mtf == 0)
      invariant want == AfterBits(vals, Resume(t, mtfvals[..], reader.Rest(), elts - n, rep, mtf, s))
      decreases elts - n, if rep == 0 && mtf == 0 then 1 else 0
    {
      ghost var bits := reader.Rest();
      if rep != 0 {
        ResumeValue(t, mtfvals[..], bits, elts - n, rep, mtf, s, vals);
        vals := vals + [mtfvals[0]];
        n, rep := n + 1, rep - 1;
      } else if mtf != 0 {
        if mtf >= mtfvals.Length {
          ResumeOutside(t, mtfvals[..], bits, elts - n, mtf, s);
          return None;
        }
        ResumeValue(t, mtfvals[..], bits, elts - n, rep, mtf, s, vals);
        var sym := UpdateMtf(mtfvals, mtf);
        vals := vals + [sym];
        n, mtf := n + 1, 0;
      } else {
        ResumeStep(t, mtfvals[..], bits, elts - n, s);
        var sym := C.ReadSymbol(reader, t, 22);
        if sym.None? {
          return None;
        }
        if sym.value <= RUN_1 {
          rep, s := (sym.value + 1) * Pow2(s), s + 1;
        } else {
          mtf, s := sym.value - 1, 0;
        }
      }
    }
    ResumeEnd(t, mtfvals[..], reader.Rest(), rep, mtf, s);
    if rep != 0 {
      return None;
    }
    assert vals + [] == vals;
    return Some(vals);
  }

  lemma ResumeOutside(t: C.Tables, list: seq<nat>, bits: seq<bool>, left: nat, mtf: nat, s: nat)
    requires t.maxLen < |t.limit| && t.maxLen < |t.base| && left > 0 && mtf >= |list| > 0
    ensures Resume(t, list, bits, left, 0, mtf, s) == None
  {
  }

  lemma ResumeEnd(t: C.Tables, list: seq<nat>, bits: seq<bool>, rep: nat, mtf: nat, s: nat)
    requires t.maxLen < |t.limit| && t.maxLen < |t.base|
    ensures Resume(t, list, bits, 0, rep, mtf, s) == if rep != 0 then None else Some(([], bits, list))
  {
  }
}
