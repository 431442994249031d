/** What the string matcher has done at each position: which look-ups it made, what it found, where
    it went next.  A log is right if every entry is what the input, the source and the entries
    before it demand; the queue of candidates follows from the log. */
module SearchLog {
  import opened Common
  import Q = Queue

  const MIN_MATCH: nat := Q.MIN_MATCH
  const MIN_RUN: nat := 8

  /** The matcher's settings.  With `patient` the application never answers XD3_TOOFARBACK. */
  datatype Config = Config(slook: nat, llook: nat, chain: nat, lchain: nat, maxLazy: nat, longEnough: nat,
                           doSmall: bool, doLarge: bool, shiftby: nat, elts: nat, patient: bool)

  /** What the table of source checksums gives for one look-up: a place in the source, if any; and
      whether the limit on seeking back forbids it and the size of the source is known. */
  datatype Answer = Answer(place: Option<nat>, refused: bool, eofKnown: bool)

  /** A window to be searched.  `answers` lists the look-ups in the source by the number of log
      entries before them; `slots` and `prevs` are the sizes of the small table and its chains. */
  datatype Setting = Setting(input: seq<byte>, file: seq<byte>, cfg: Config, hash: seq<byte> -> nat,
                             answers: nat -> Answer, slots: nat, prevs: nat)
  {
    ghost predicate Valid() {
      slots > 0 && prevs > 0 && cfg.slook > 0 && forall k :: answers(k).place.Some? ==> answers(k).place.value <= |file|
    }

    /** The slot of the small table for the bytes at p. */
    function Slot(p: nat): nat
      requires slots > 0 && p + cfg.slook <= |input|
    {
      hash(input[p..p + cfg.slook]) % slots
    }
  }

  /** One entry: what was tried at a position, with the candidates of the small table that were
      looked at and the match taken, or a source match that was taken up again.  `noBack` and
      `noFwd` say that an extension was given up at a block that was too far back. */
  datatype Event =
    | Tried(at: nat, again: bool, noBack: bool, noFwd: bool, cands: seq<nat>, found: Option<Q.Match>)
    | Resumed(at: nat, place: nat, noBack: bool, noFwd: bool, found: Option<Q.Match>)

  // ---------------------------------------------------------------- lengths

  /** How many bytes from `at` on are c. */
  function RunLength(input: seq<byte>, at: nat, c: byte): (n: nat)
    requires at <= |input|
    ensures at + n <= |input| && forall p :: at <= p < at + n ==> input[p] == c
    ensures at + n < |input| ==> input[at + n] != c
    decreases |input| - at
  {
    if at < |input| && input[at] == c then 1 + RunLength(input, at + 1, c) else 0
  }

  /** The n bytes of s from i on are those of t from j on. */
  ghost predicate Agree(s: seq<byte>, i: nat, t: seq<byte>, j: nat, n: nat) {
    i + n <= |s| && j + n <= |t| && forall p :: i <= p < i + n ==> s[p] == t[p - i + j]
  }

  /** The longest common prefix of s from i on and t from j on. */
  function Prefix(s: seq<byte>, i: nat, t: seq<byte>, j: nat): (n: nat)
    requires i <= |s| && j <= |t|
    ensures i + n <= |s| && j + n <= |t| && Agree(s, i, t, j, n)
    ensures i + n < |s| && j + n < |t| ==> s[i + n] != t[j + n]
    decreases |s| - i
  {
    if i < |s| && j < |t| && s[i] == t[j] then 1 + Prefix(s, i + 1, t, j + 1) else 0
  }

  /** The longest common suffix of s up to i and t up to j. */
  function Suffix(s: seq<byte>, i: nat, t: seq<byte>, j: nat): (n: nat)
    requires i <= |s| && j <= |t|
    ensures n <= i && n <= j && Agree(s, i - n, t, j - n, n)
    ensures n < i && n < j ==> s[i - n - 1] != t[j - n - 1]
    decreases i
  {
    if i > 0 && j > 0 && s[i - 1] == t[j - 1] then 1 + Suffix(s, i - 1, t, j - 1) else 0
  }

  lemma RunIs(input: seq<byte>, at: nat, c: byte, n: nat)
    requires at + n <= |input| && forall p :: at <= p < at + n ==> input[p] == c
    requires at + n < |input| ==> input[at + n] != c
    ensures RunLength(input, at, c) == n
  {
  }

  lemma PrefixIs(s: seq<byte>, i: nat, t: seq<byte>, j: nat, n: nat)
    requires Agree(s, i, t, j, n)
    requires i + n < |s| && j + n < |t| ==> s[i + n] != t[j + n]
    ensures Prefix(s, i, t, j) == n
  {
  }

  lemma SuffixIs(s: seq<byte>, i: nat, t: seq<byte>, j: nat, n: nat)
    requires n <= i <= |s| && n <= j <= |t| && Agree(s, i - n, t, j - n, n)
    requires n < i && n < j ==> s[i - n - 1] != t[j - n - 1]
    ensures Suffix(s, i, t, j) == n
  {
  }

  // ---------------------------------------------------------------- the queue

  /** The queue without the candidates at its end that start at pos or later. */
  function Keep(q: seq<Q.Match>, pos: nat): (r: seq<Q.Match>)
    ensures |r| <= |q| && r == q[..|r|]
    ensures r != [] ==> r[|r| - 1].pos < pos
    ensures forall i :: |r| <= i < |q| ==> q[i].pos >= pos
  {
    if q != [] && q[|q| - 1].pos >= pos then Keep(q[..|q| - 1], pos) else q
  }

  function Taken(q: seq<Q.Match>, found: Option<Q.Match>): seq<Q.Match> {
    if found.Some? then Keep(q, found.value.pos) + [found.value] else q
  }

  /** The queue after all entries. */
  function Replay(log: seq<Event>): seq<Q.Match> {
    if log == [] then [] else Taken(Replay(log[..|log| - 1]), log[|log| - 1].found)
  }

  /** The range of source addresses in use, after one more find. */
  function NewRange(lo: nat, hi: nat, found: Option<Q.Match>): (nat, nat) {
    if found.Some? && found.value.CopyMatch? && found.value.fromSource then
      var m := found.value;
      (if hi == 0 || m.addr < lo then m.addr else lo, Max(m.addr + m.size, hi))
    else (lo, hi)
  }

  /** match_minaddr and match_maxaddr after all entries. */
  function Range(log: seq<Event>): (nat, nat) {
    if log == [] then (0, 0)
    else
      var (lo, hi) := Range(log[..|log| - 1]);
      NewRange(lo, hi, log[|log| - 1].found)
  }

  /** xd3_iopt_last_matched */
  function LastMatched(q: seq<Q.Match>): nat {
    if q == [] then 0 else q[|q| - 1].End()
  }

  /** A match at `at` has to be this long to end after all before it. */
  function Least(q: seq<Q.Match>, at: nat): (n: nat)
    ensures n >= MIN_MATCH
  {
    if LastMatched(q) > at then Max(MIN_MATCH, 1 + LastMatched(q) - at) else MIN_MATCH
  }

  // ---------------------------------------------------------------- where the search goes

  /** TRYLAZYLEN */
  predicate Lazy(s: Setting, at: nat, length: nat) {
    s.cfg.maxLazy > 0 && length < s.cfg.maxLazy && at + length + 2 <= |s.input|
  }

  /** The position after an entry: the next one, or the end of the match that was taken. */
  function After(s: Setting, e: Event): nat {
    match e
    case Tried(at, _, _, _, _, found) =>
      if found.None? || Lazy(s, at, Max(found.value.End(), at) - at) then at + 1 else found.value.End()
    case Resumed(at, _, _, _, found) => if found.None? then at else found.value.End()
  }

  function Reached(s: Setting, log: seq<Event>): nat {
    if log == [] then 0 else After(s, log[|log| - 1])
  }

  // ---------------------------------------------------------------- the small table

  /** The position was entered into the small table: no run and no source match was taken. */
  predicate Entered(s: Setting, e: Event) {
    && e.Tried? && s.cfg.doSmall && e.at + s.cfg.slook <= |s.input|
    && (e.found.None? || (e.found.value.CopyMatch? && !e.found.value.fromSource))
  }

  /** One more than the last position entered into a slot, or 0. */
  function Head(s: Setting, log: seq<Event>, slot: nat): nat
    requires s.slots > 0
  {
    if log == [] then 0
    else
      var e := log[|log| - 1];
      if Entered(s, e) && s.Slot(e.at) == slot then e.at + 1 else Head(s, log[..|log| - 1], slot)
  }

  /** The same among the entries before the one at position p. */
  function HeadBefore(s: Setting, log: seq<Event>, slot: nat, p: nat): nat
    requires s.slots > 0
  {
    if log == [] then 0
    else if log[|log| - 1].at >= p then HeadBefore(s, log[..|log| - 1], slot, p)
    else Head(s, log, slot)
  }

  /** Head and HeadBefore lead to entered positions. */
  lemma {:induction false} HeadEntered(s: Setting, log: seq<Event>, slot: nat) returns (i: nat)
    requires s.slots > 0 && Head(s, log, slot) > 0
    ensures i < |log| && Entered(s, log[i]) && log[i].at + 1 == Head(s, log, slot) && s.Slot(log[i].at) == slot
    decreases |log|
  {
    var e := log[|log| - 1];
    if Entered(s, e) && s.Slot(e.at) == slot {
      i := |log| - 1;
    } else {
      i := HeadEntered(s, log[..|log| - 1], slot);
    }
  }

  lemma {:induction false} HeadBeforeEntered(s: Setting, log: seq<Event>, slot: nat, p: nat) returns (i: nat)
    requires s.slots > 0 && HeadBefore(s, log, slot, p) > 0 && Rising(log)
    ensures i < |log| && Entered(s, log[i]) && log[i].at + 1 == HeadBefore(s, log, slot, p) && s.Slot(log[i].at) == slot
    ensures log[i].at < p
    decreases |log|
  {
    if log[|log| - 1].at >= p {
      i := HeadBeforeEntered(s, log[..|log| - 1], slot, p);
    } else {
      i := HeadEntered(s, log, slot);
    }
  }

  /** Positions never fall. */
  ghost predicate Rising(log: seq<Event>) {
    forall i, j :: 0 <= i < j < |log| ==> log[i].at <= log[j].at
  }

  /** The table holds the last entries of the log; the chains hold the entries before each entry,
      as far back as their size. */
  ghost predicate TableHolds(s: Setting, log: seq<Event>, table: seq<nat>, prev: seq<nat>, at: nat)
    requires s.slots > 0 && s.prevs > 0
  {
    && |table| == s.slots && |prev| == s.prevs
    && (forall k :: 0 <= k < s.slots ==> table[k] == Head(s, log, k))
    && (forall i :: 0 <= i < |log| && Entered(s, log[i]) && at <= log[i].at + s.prevs ==>
          prev[log[i].at % s.prevs] == HeadBefore(s, log, s.Slot(log[i].at), log[i].at))
  }

  lemma TableStarts(s: Setting)
    requires s.slots > 0 && s.prevs > 0
    ensures TableHolds(s, [], Repeat(0, s.slots), Repeat(0, s.prevs), 0)
  {
  }

  lemma TableLater(s: Setting, log: seq<Event>, table: seq<nat>, prev: seq<nat>, at: nat, at': nat)
    requires s.slots > 0 && s.prevs > 0 && TableHolds(s, log, table, prev, at) && at <= at'
    ensures TableHolds(s, log, table, prev, at')
  {
    hide Head, HeadBefore, Entered;
  }

  lemma {:induction false} HeadBeforeSnoc(s: Setting, log: seq<Event>, e: Event, slot: nat, p: nat)
    requires s.slots > 0 && p <= e.at
    ensures HeadBefore(s, log + [e], slot, p) == HeadBefore(s, log, slot, p)
  {
    assert (log + [e])[..|log|] == log;
  }

  lemma HeadSnoc(s: Setting, log: seq<Event>, e: Event, slot: nat)
    requires s.slots > 0
    ensures Head(s, log + [e], slot)
            == if Entered(s, e) && s.Slot(e.at) == slot then e.at + 1 else Head(s, log, slot)
  {
    assert (log + [e])[..|log|] == log;
  }

  /** An entry without a position for the table. */
  lemma TableSkips(s: Setting, log: seq<Event>, e: Event, table: seq<nat>, prev: seq<nat>, at: nat)
    requires s.slots > 0 && s.prevs > 0 && TableHolds(s, log, table, prev, at) && !Entered(s, e)
    requires forall i :: 0 <= i < |log| ==> log[i].at <= e.at
    ensures TableHolds(s, log + [e], table, prev, at)
  {
    hide Head, HeadBefore, Entered;
    forall k | 0 <= k < s.slots ensures table[k] == Head(s, log + [e], k) {
      HeadSnoc(s, log, e, k);
    }
    forall i | 0 <= i < |log + [e]| && Entered(s, (log + [e])[i]) && at <= (log + [e])[i].at + s.prevs
      ensures (log + [e])[i].at + s.cfg.slook <= |s.input|
      ensures var p := (log + [e])[i].at; prev[p % s.prevs] == HeadBefore(s, log + [e], s.Slot(p), p)
    {
      assert i < |log| && (log + [e])[i] == log[i];
      EnteredFits(s, log[i]);
      HeadBeforeSnoc(s, log, e, s.Slot(log[i].at), log[i].at);
    }
  }

  lemma EnteredFits(s: Setting, e: Event)
    requires Entered(s, e)
    ensures e.at + s.cfg.slook <= |s.input|
  {
  }

  /** An entry with a position: the old head goes into the chain, the position into the table. */
  lemma TableEnters(s: Setting, log: seq<Event>, e: Event, table: seq<nat>, prev: seq<nat>)
    requires s.slots > 0 && s.prevs > 0 && TableHolds(s, log, table, prev, e.at) && Entered(s, e)
    requires forall i :: 0 <= i < |log| && log[i].Tried? ==> log[i].at < e.at
    requires forall i :: 0 <= i < |log| ==> log[i].at <= e.at
    requires e.at + s.cfg.slook <= |s.input|
    ensures var slot := s.Slot(e.at);
            TableHolds(s, log + [e], table[slot := e.at + 1], prev[e.at % s.prevs := table[slot]], e.at + 1)
  {
    hide Head, HeadBefore;
    var slot, all := s.Slot(e.at), log + [e];
    var table', prev' := table[slot := e.at + 1], prev[e.at % s.prevs := table[slot]];
    forall k | 0 <= k < s.slots ensures table'[k] == Head(s, all, k) {
      HeadSnoc(s, log, e, k);
    }
    forall i | 0 <= i < |all| && Entered(s, all[i]) && e.at + 1 <= all[i].at + s.prevs
      ensures all[i].at + s.cfg.slook <= |s.input|
      ensures prev'[all[i].at % s.prevs] == HeadBefore(s, all, s.Slot(all[i].at), all[i].at)
    {
      if i < |log| {
        assert all[i] == log[i];
        HeadBeforeSnoc(s, log, e, s.Slot(log[i].at), log[i].at);
        NoClash(log[i].at, e.at, s.prevs);
      } else {
        HeadBeforeSnoc(s, log, e, slot, e.at);
        HeadBeforeThis(s, log, slot, e.at);
      }
    }
  }

  /** Positions less than n apart do not share a place. */
  lemma NoClash(a: nat, b: nat, n: nat)
    requires a < b < a + n
    ensures a % n != b % n
  {
    if a % n == b % n {
      AlikeApart(a, b, n);
    }
  }

  lemma AlikeApart(a: nat, b: nat, n: nat)
    requires n > 0 && a < b && a % n == b % n
    ensures a + n <= b
  {
    var d := b / n - a / n;
    assert b - a == n * d;
    if d >= 1 {
      assert n * d >= n;
    }
  }

  /** All entries with a position are before this one. */
  lemma {:induction false} HeadBeforeThis(s: Setting, log: seq<Event>, slot: nat, p: nat)
    requires s.slots > 0 && forall i :: 0 <= i < |log| && log[i].Tried? ==> log[i].at < p
    ensures HeadBefore(s, log, slot, p) == Head(s, log, slot)
    decreases |log|
  {
    if log != [] && log[|log| - 1].at >= p {
      HeadBeforeThis(s, log[..|log| - 1], slot, p);
    }
  }

  /** The best of the candidates: its length and the first place that has it. */
  function Best(input: seq<byte>, at: nat, cands: seq<nat>): (nat, nat)
    requires at <= |input| && Before(cands, at)
  {
    if cands == [] then (0, 0)
    else
      var c, b := cands[|cands| - 1], Best(input, at, cands[..|cands| - 1]);
      if Prefix(input, at, input, c) > b.0 then (Prefix(input, at, input, c), c) else b
  }

  ghost predicate Before(cands: seq<nat>, at: nat) {
    forall i :: 0 <= i < |cands| ==> cands[i] < at
  }

  /** No candidate has more in common with the input. */
  lemma {:induction false} BestIsLongest(input: seq<byte>, at: nat, cands: seq<nat>, i: nat)
    requires at <= |input| && Before(cands, at) && i < |cands|
    ensures Prefix(input, at, input, cands[i]) <= Best(input, at, cands).0
    decreases |cands|
  {
    hide Prefix;
    if i < |cands| - 1 {
      BestIsLongest(input, at, cands[..|cands| - 1], i);
    }
  }

  /** The best one is a candidate, and the first of its length. */
  lemma {:induction false} BestIsFirst(input: seq<byte>, at: nat, cands: seq<nat>) returns (i: nat)
    requires at <= |input| && Before(cands, at) && Best(input, at, cands).0 > 0
    ensures i < |cands| && cands[i] == Best(input, at, cands).1
    ensures Prefix(input, at, input, cands[i]) == Best(input, at, cands).0
    ensures forall j :: 0 <= j < i ==> Prefix(input, at, input, cands[j]) < Best(input, at, cands).0
    decreases |cands|
  {
    hide Prefix;
    var k := |cands| - 1;
    var front := cands[..k];
    if Prefix(input, at, input, cands[k]) > Best(input, at, front).0 {
      i := k;
      forall j | 0 <= j < i ensures Prefix(input, at, input, cands[j]) < Best(input, at, cands).0 {
        BestIsLongest(input, at, front, j);
      }
    } else {
      i := BestIsFirst(input, at, front);
      assert forall j :: 0 <= j < i ==> front[j] == cands[j];
    }
  }

  lemma BestSnoc(input: seq<byte>, at: nat, cands: seq<nat>, c: nat)
    requires at <= |input| && Before(cands + [c], at)
    ensures Before(cands, at) && c < at
    ensures var b := Best(input, at, cands);
            Best(input, at, cands + [c])
            == if Prefix(input, at, input, c) > b.0 then (Prefix(input, at, input, c), c) else b
  {
    assert (cands + [c])[|cands|] == c;
    assert forall i :: 0 <= i < |cands| ==> (cands + [c])[i] == cands[i];
    assert (cands + [c])[..|cands|] == cands;
  }

  lemma {:induction false} BestFits(input: seq<byte>, at: nat, cands: seq<nat>)
    requires at <= |input| && Before(cands, at)
    ensures at + Best(input, at, cands).0 <= |input|
    decreases |cands|
  {
    if cands != [] {
      BestFits(input, at, cands[..|cands| - 1]);
    }
  }

  /** A match so short and so far away is not worth it. */
  predicate FarShort(length: nat, distance: nat) {
    (length == 4 && distance >= 0x4000) || (length == 5 && distance >= 0x20_0000)
  }

  /** The search stops at a match like this. */
  predicate Enough(s: Setting, at: nat, length: nat) {
    at + length == |s.input| || length >= s.cfg.longEnough
  }

  // ---------------------------------------------------------------- right entries

  /** All bytes of the look-ahead are the same. */
  predicate SameAhead(s: Setting, at: nat) {
    at + s.cfg.slook <= |s.input| && forall p :: at <= p < at + s.cfg.slook ==> s.input[p] == s.input[at]
  }

  /** A run is taken: the look-ahead is full, the run was not seen before, and it is long enough. */
  predicate RunTaken(s: Setting, at: nat, min: nat, again: bool)
    requires at < |s.input|
  {
    !again && SameAhead(s, at) && RunLength(s.input, at, s.input[at]) >= Max(min, MIN_RUN)
  }

  /** What a source match at a place comes to. */
  ghost predicate SourceFound(s: Setting, at: nat, place: nat, min: nat, noBack: bool, noFwd: bool,
                              found: Option<Q.Match>)
    requires at <= |s.input| && place <= |s.file|
  {
    var fwd, back := Prefix(s.input, at, s.file, place), Suffix(s.input, at, s.file, place);
    && (s.cfg.patient ==> !noFwd)
    && (found.None? ==> noFwd || fwd < min)
    && (found.Some? ==>
          var m := found.value;
          && m.CopyMatch? && m.fromSource && m.pos <= at && m.End() >= at + min && m.addr + at == place + m.pos
          && m.pos >= at - back && m.End() <= at + fwd
          && (!noBack ==> m.pos == at - back) && (!noFwd ==> m.End() == at + fwd))
  }

  /** The place of the last source match that was set up. */
  function LastSetup(s: Setting, log: seq<Event>): nat
    decreases |log|, 0
  {
    if log == [] then 0
    else
      var k := |log| - 1;
      match log[k]
      case Resumed(_, place, _, _, _) => place
      case Tried(at, again, _, _, _, found) =>
        if LookedUp(s, log[..k], log[k]) then s.answers(k).place.value else LastSetup(s, log[..k])
  }

  /** A source match was set up at this position. */
  predicate LookedUp(s: Setting, before: seq<Event>, e: Event)
    decreases |before|, 1
  {
    && e.Tried? && s.cfg.doLarge && e.at + s.cfg.llook <= |s.input| && e.at < |s.input|
    && !(e.found.Some? && e.found.value.RunMatch?) && SetUp(s, |before|, LastSetup(s, before))
  }

  /** xd3_source_match_setup succeeds: there is a place, which is allowed, and not the last one. */
  predicate SetUp(s: Setting, k: nat, last: nat) {
    var a := s.answers(k);
    a.place.Some? && !a.refused && !(a.place.value != 0 && a.place.value == last)
  }

  /** What the small table comes to. */
  ghost predicate SmallFound(s: Setting, before: seq<Event>, at: nat, min: nat, cands: seq<nat>, found: Option<Q.Match>)
    requires s.slots > 0 && at + s.cfg.slook <= |s.input|
  {
    && ChainSeen(s, before, at, if min == MIN_MATCH then s.cfg.chain else s.cfg.lchain, cands)
    && var (n, place) := Best(s.input, at, cands);
       found == (if n >= min && !FarShort(n, Max(at, place) - place) then Some(Q.CopyMatch(at, n, place, false))
                 else None)
  }

  /** The candidates: the last position entered into the slot, then always the one before it, up to
      the limit on their number, until one is enough, or as long as the chains reach back. */
  ghost predicate ChainSeen(s: Setting, before: seq<Event>, at: nat, chain: nat, cands: seq<nat>)
    requires s.slots > 0 && at + s.cfg.slook <= |s.input|
  {
    Before(cands, at) && ChainFollowed(s, before, at, chain, cands)
  }

  ghost predicate ChainFollowed(s: Setting, before: seq<Event>, at: nat, chain: nat, cands: seq<nat>)
    requires s.slots > 0 && at + s.cfg.slook <= |s.input| && Before(cands, at)
  {
    var slot := s.Slot(at);
    && (cands == [] <==> Head(s, before, slot) == 0)
    && (cands != [] ==>
          && cands[0] + 1 == Head(s, before, slot)
          && (at - cands[0] <= s.prevs ==>
                && (forall i :: 0 < i < |cands| ==> cands[i] + 1 == HeadBefore(s, before, slot, cands[i - 1]))
                && var last := cands[|cands| - 1];
                   var next := HeadBefore(s, before, slot, last);
                   || |cands| >= chain || next == 0 || at - (next - 1) >= s.prevs
                   || Enough(s, at, Best(s.input, at, cands).0)))
  }

  /** The entry is what the input, the source and the entries before it demand. */
  ghost predicate Right(s: Setting, before: seq<Event>, e: Event)
    requires s.slots > 0
  {
    var min := Least(Replay(before), e.at);
    && e.at == Reached(s, before)
    && (s.cfg.patient ==> !e.noFwd)
    && match e
       case Resumed(at, place, noBack, noFwd, found) =>
         && at <= |s.input| && place <= |s.file| && s.cfg.doLarge
         && (s.answers(|before|).place == Some(place) || before == [])
         && SourceFound(s, at, place, min, noBack, noFwd, found)
         && (s.cfg.patient && before != [] ==> !noBack)
       case Tried(at, again, noBack, noFwd, cands, found) =>
         && at + s.cfg.slook <= |s.input| && at < |s.input|
         && (again ==> SeenBefore(s, before, at))
         && (s.cfg.patient ==> !noBack)
         && if RunTaken(s, at, min, again) then
              cands == [] && found == Some(Q.RunMatch(at, RunLength(s.input, at, s.input[at]), s.input[at]))
            else
              && !(found.Some? && found.value.RunMatch?)
              && if LookedUp(s, before, e) && found.Some? && found.value.CopyMatch? && found.value.fromSource then
                   && cands == [] && s.answers(|before|).place.value <= |s.file|
                   && SourceFound(s, at, s.answers(|before|).place.value, min, noBack, noFwd, found)
                 else
                   && (LookedUp(s, before, e) ==>
                         && s.answers(|before|).place.value <= |s.file|
                         && SourceFound(s, at, s.answers(|before|).place.value, min, noBack, noFwd, None))
                   && if s.cfg.doSmall then SmallFound(s, before, at, min, cands, found)
                      else cands == [] && found == None
  }

  /** The run at `at` went on from the position before, which was tried. */
  ghost predicate SeenBefore(s: Setting, before: seq<Event>, at: nat) {
    && before != [] && before[|before| - 1].Tried? && before[|before| - 1].at + 1 == at
    && at < |s.input| && SameAhead(s, at - 1) && SameAhead(s, at) && s.input[at - 1] == s.input[at]
  }

  /** All entries are. */
  ghost predicate Walk(s: Setting, log: seq<Event>)
    requires s.slots > 0
  {
    log == [] || (Walk(s, log[..|log| - 1]) && Right(s, log[..|log| - 1], log[|log| - 1]))
  }

  // ---------------------------------------------------------------- following the chains

  /** The candidates so far: the head of the slot, then always the entry before, not too far back. */
  ghost predicate Linked(s: Setting, log: seq<Event>, at: nat, slot: nat, cands: seq<nat>)
    requires s.slots > 0
  {
    && Before(cands, at) && cands != [] && cands[0] + 1 == Head(s, log, slot)
    && (at - cands[0] <= s.prevs ==>
          forall i :: 0 < i < |cands| ==>
            cands[i] + 1 == HeadBefore(s, log, slot, cands[i - 1]) && at - cands[i] < s.prevs)
  }

  /** The chain of the last candidate leads to the entry before it. */
  lemma NextLink(s: Setting, log: seq<Event>, table: seq<nat>, prev: seq<nat>, at: nat, slot: nat, cands: seq<nat>)
    requires s.slots > 0 && s.prevs > 0 && TableHolds(s, log, table, prev, at) && Rising(log)
    requires Linked(s, log, at, slot, cands)
    ensures var last := cands[|cands| - 1];
            at - cands[0] <= s.prevs ==>
              prev[last % s.prevs] == HeadBefore(s, log, slot, last) <= last
  {
    hide Rising;
    var last := cands[|cands| - 1];
    var i: nat;
    if at - cands[0] <= s.prevs {
      if |cands| == 1 {
        i := HeadEntered(s, log, slot);
      } else {
        i := HeadBeforeEntered(s, log, slot, cands[|cands| - 2]);
      }
      assert log[i].at == last && Entered(s, log[i]) && at <= last + s.prevs;
      if HeadBefore(s, log, slot, last) > 0 {
        var j := HeadBeforeEntered(s, log, slot, last);
      }
    }
  }

  lemma LinkStarts(s: Setting, log: seq<Event>, at: nat, slot: nat, base: nat)
    requires s.slots > 0 && base < at && base + 1 == Head(s, log, slot)
    ensures Linked(s, log, at, slot, [] + [base])
  {
  }

  lemma LinkGoesOn(s: Setting, log: seq<Event>, at: nat, slot: nat, cands: seq<nat>, base: nat)
    requires s.slots > 0 && Linked(s, log, at, slot, cands) && base < at
    requires at - cands[0] <= s.prevs ==>
               base + 1 == HeadBefore(s, log, slot, cands[|cands| - 1]) && at - base < s.prevs
    ensures Linked(s, log, at, slot, cands + [base])
  {
    hide Head, HeadBefore;
    var more := cands + [base];
    assert more[0] == cands[0];
    assert forall i :: 0 <= i < |cands| ==> more[i] == cands[i];
  }

  lemma LinkedBefore(s: Setting, log: seq<Event>, at: nat, slot: nat, cands: seq<nat>)
    requires s.slots > 0 && Linked(s, log, at, slot, cands)
    ensures Before(cands, at) && cands != []
  {
  }

  /** The chain is followed to an end. */
  lemma ChainEnds(s: Setting, log: seq<Event>, at: nat, chain: nat, cands: seq<nat>)
    requires s.slots > 0 && at + s.cfg.slook <= |s.input| && Linked(s, log, at, s.Slot(at), cands)
    requires at - cands[0] <= s.prevs ==>
               var next := HeadBefore(s, log, s.Slot(at), cands[|cands| - 1]);
               || |cands| >= chain || next == 0 || at - (next - 1) >= s.prevs
               || Enough(s, at, Best(s.input, at, cands).0)
    ensures ChainSeen(s, log, at, chain, cands)
  {
    hide Head, HeadBefore, Best;
  }

  lemma NoCandidates(s: Setting, log: seq<Event>, at: nat, chain: nat)
    requires s.slots > 0 && at + s.cfg.slook <= |s.input| && Head(s, log, s.Slot(at)) == 0
    ensures ChainSeen(s, log, at, chain, []) && Best(s.input, at, []) == (0, 0)
  {
  }

  /** Bytes that were entered before are found again: the first candidate is the last position
      with their slot, so what is found has at least as much in common with the input. */
  lemma {:induction false} HeadLatest(s: Setting, log: seq<Event>, i: nat)
    requires s.slots > 0 && Rising(log) && i < |log| && Entered(s, log[i])
    ensures Head(s, log, s.Slot(log[i].at)) > log[i].at
    decreases |log|
  {
    var k := |log| - 1;
    if i < k && !(Entered(s, log[k]) && s.Slot(log[k].at) == s.Slot(log[i].at)) {
      HeadLatest(s, log[..k], i);
    }
  }

  // ---------------------------------------------------------------- one more entry

  lemma WalkSnoc(s: Setting, before: seq<Event>, e: Event)
    requires s.slots > 0 && Walk(s, before) && Right(s, before, e)
    ensures Walk(s, before + [e]) && Replay(before + [e]) == Taken(Replay(before), e.found)
    ensures Reached(s, before + [e]) == After(s, e)
    ensures var (lo, hi) := Range(before); Range(before + [e]) == NewRange(lo, hi, e.found)
  {
    hide Right;
    assert (before + [e])[..|before|] == before;
  }

  /** A position can be tried. */
  ghost predicate CanTry(s: Setting, before: seq<Event>, at: nat, again: bool) {
    && s.slots > 0 && at == Reached(s, before) && at + s.cfg.slook <= |s.input| && at < |s.input|
    && (again ==> SeenBefore(s, before, at))
  }

  lemma RightRun(s: Setting, before: seq<Event>, at: nat, again: bool)
    requires CanTry(s, before, at, again) && RunTaken(s, at, Least(Replay(before), at), again)
    ensures var e := Tried(at, again, false, false, [],
                           Some(Q.RunMatch(at, RunLength(s.input, at, s.input[at]), s.input[at])));
            Right(s, before, e) && !Entered(s, e) && LastSetup(s, before + [e]) == LastSetup(s, before)
  {
    hide SeenBefore, SourceFound, SmallFound, RunLength, Reached;
    SetupSnoc(s, before, Tried(at, again, false, false, [],
                               Some(Q.RunMatch(at, RunLength(s.input, at, s.input[at]), s.input[at]))));
  }

  lemma SetupSnoc(s: Setting, before: seq<Event>, e: Event)
    requires e.Tried?
    ensures LastSetup(s, before + [e])
            == if LookedUp(s, before, e) then s.answers(|before|).place.value else LastSetup(s, before)
  {
    assert (before + [e])[..|before|] == before;
  }

  lemma RightLarge(s: Setting, before: seq<Event>, at: nat, again: bool, noBack: bool, noFwd: bool,
                   found: Option<Q.Match>)
    requires CanTry(s, before, at, again) && !RunTaken(s, at, Least(Replay(before), at), again)
    requires s.cfg.doLarge && at + s.cfg.llook <= |s.input| && SetUp(s, |before|, LastSetup(s, before)) && found.Some?
    requires s.answers(|before|).place.value <= |s.file|
    requires SourceFound(s, at, s.answers(|before|).place.value, Least(Replay(before), at), noBack, noFwd, found)
    requires s.cfg.patient ==> !noBack && !noFwd
    ensures var e := Tried(at, again, noBack, noFwd, [], found);
            && Right(s, before, e) && !Entered(s, e)
            && LastSetup(s, before + [e]) == s.answers(|before|).place.value
  {
    hide SeenBefore, SmallFound, RunTaken, Reached, Replay, Prefix, Suffix;
    SetupSnoc(s, before, Tried(at, again, noBack, noFwd, [], found));
  }

  /** The source look-up at a position, if there was one, came to nothing. */
  ghost predicate NoLarge(s: Setting, before: seq<Event>, at: nat, noBack: bool, noFwd: bool)
    requires at <= |s.input|
  {
    && (s.cfg.patient ==> !noBack && !noFwd)
    && (s.cfg.doLarge && at + s.cfg.llook <= |s.input| && SetUp(s, |before|, LastSetup(s, before)) ==>
          && s.answers(|before|).place.value <= |s.file|
          && SourceFound(s, at, s.answers(|before|).place.value, Least(Replay(before), at), noBack, noFwd, None))
  }

  /** The last place set up, once this position has been looked up. */
  function SetupAfter(s: Setting, before: seq<Event>, at: nat): nat {
    if s.cfg.doLarge && at + s.cfg.llook <= |s.input| && SetUp(s, |before|, LastSetup(s, before))
    then s.answers(|before|).place.value else LastSetup(s, before)
  }

  lemma RightSmall(s: Setting, before: seq<Event>, at: nat, again: bool, noBack: bool, noFwd: bool, cands: seq<nat>,
                   found: Option<Q.Match>)
    requires CanTry(s, before, at, again) && !RunTaken(s, at, Least(Replay(before), at), again)
    requires NoLarge(s, before, at, noBack, noFwd)
    requires if s.cfg.doSmall then SmallFound(s, before, at, Least(Replay(before), at), cands, found)
             else cands == [] && found == None
    ensures var e := Tried(at, again, noBack, noFwd, cands, found);
            && Right(s, before, e) && (Entered(s, e) <==> s.cfg.doSmall)
            && LastSetup(s, before + [e]) == SetupAfter(s, before, at)
  {
    hide SeenBefore, RunTaken, Reached, Replay, SourceFound, ChainSeen, Best;
    SetupSnoc(s, before, Tried(at, again, noBack, noFwd, cands, found));
  }

  lemma RightResumed(s: Setting, before: seq<Event>, at: nat, place: nat, noBack: bool, noFwd: bool,
                     found: Option<Q.Match>)
    requires s.slots > 0 && at == Reached(s, before) && at <= |s.input| && place <= |s.file| && s.cfg.doLarge
    requires before == [] || s.answers(|before|).place == Some(place)
    requires SourceFound(s, at, place, Least(Replay(before), at), noBack, noFwd, found)
    requires s.cfg.patient ==> !noFwd && (before != [] ==> !noBack)
    ensures var e := Resumed(at, place, noBack, noFwd, found);
            Right(s, before, e) && !Entered(s, e) && LastSetup(s, before + [e]) == place
  {
    hide Reached, Replay, SourceFound;
  }

  // ---------------------------------------------------------------- over whole searches

  /** Part of a right search is a right search. */
  lemma {:induction false} WalkPrefix(s: Setting, log: seq<Event>, k: nat)
    requires s.slots > 0 && Walk(s, log) && k <= |log|
    ensures Walk(s, log[..k]) && (k < |log| ==> Right(s, log[..k], log[k]))
    decreases |log|
  {
    hide Right;
    if k == |log| {
      assert log[..k] == log;
    } else if k < |log| - 1 {
      WalkPrefix(s, log[..|log| - 1], k);
      assert log[..|log| - 1][..k] == log[..k];
    }
  }

  /** What is taken starts no later than the position and ends far enough behind it. */
  lemma FoundFits(s: Setting, before: seq<Event>, e: Event)
    requires s.slots > 0 && Right(s, before, e) && e.found.Some?
    ensures var m := e.found.value;
            m.pos <= e.at && e.at + Least(Replay(before), e.at) <= m.End() <= |s.input|
  {
    hide Replay, ChainFollowed, LookedUp, Head, Best;
    if e.Tried? && Before(e.cands, e.at) {
      BestFits(s.input, e.at, e.cands);
    }
  }

  /** The search moves on, except when a source match that was taken up again comes to nothing. */
  lemma MovesOn(s: Setting, before: seq<Event>, e: Event)
    requires s.slots > 0 && Right(s, before, e)
    ensures After(s, e) >= e.at && (e.Tried? ==> After(s, e) > e.at)
  {
    hide Right;
    if e.found.Some? {
      FoundFits(s, before, e);
    }
  }

  /** Positions never fall, and no position is tried twice. */
  lemma {:induction false} WalkRises(s: Setting, log: seq<Event>)
    requires s.slots > 0 && Walk(s, log)
    ensures Rising(log) && forall i :: 0 <= i < |log| ==>
              log[i].at <= Reached(s, log) && (log[i].Tried? ==> log[i].at < Reached(s, log))
    decreases |log|
  {
    hide Right;
    if log != [] {
      var front, e := log[..|log| - 1], log[|log| - 1];
      WalkRises(s, front);
      RightStart(s, front, e);
      MovesOn(s, front, e);
      assert forall i :: 0 <= i < |front| ==> front[i] == log[i];
    }
  }

  /** No position is passed by: it was tried, or a match that was taken goes over it. */
  lemma {:induction false} NoneSkipped(s: Setting, log: seq<Event>, p: nat) returns (k: nat)
    requires s.slots > 0 && Walk(s, log) && p < Reached(s, log)
    ensures k < |log|
    ensures (log[k].Tried? && log[k].at == p)
            || (log[k].found.Some? && log[k].at <= p < log[k].found.value.End())
    decreases |log|
  {
    hide Right;
    var front, e := log[..|log| - 1], log[|log| - 1];
    RightStart(s, front, e);
    if p < e.at {
      k := NoneSkipped(s, front, p);
    } else {
      k := |log| - 1;
    }
  }

  lemma RightStart(s: Setting, before: seq<Event>, e: Event)
    requires s.slots > 0 && Right(s, before, e)
    ensures e.at == Reached(s, before)
  {
    hide SourceFound, SmallFound, LookedUp;
  }

  ghost predicate FromSource(e: Event) {
    e.found.Some? && e.found.value.CopyMatch? && e.found.value.fromSource
  }

  /** The range holds every source match that was taken. */
  lemma {:induction false} RangeHolds(s: Setting, log: seq<Event>, k: nat)
    requires s.slots > 0 && Walk(s, log) && k < |log| && FromSource(log[k])
    ensures var m, (lo, hi) := log[k].found.value, Range(log);
            lo <= m.addr && m.addr + m.size <= hi && hi > 0
    decreases |log|
  {
    hide Right;
    if k < |log| - 1 {
      RangeHolds(s, log[..|log| - 1], k);
    } else {
      SourceSize(s, log[..k], log[k]);
    }
  }

  lemma SourceSize(s: Setting, before: seq<Event>, e: Event)
    requires s.slots > 0 && Right(s, before, e) && FromSource(e)
    ensures e.found.value.size >= MIN_MATCH
  {
    hide Right;
    FoundFits(s, before, e);
  }

  /** Both its ends are in use. */
  lemma {:induction false} RangeUsed(log: seq<Event>) returns (i: nat, j: nat)
    requires Range(log).1 > 0
    ensures i < |log| && FromSource(log[i]) && log[i].found.value.addr == Range(log).0
    ensures j < |log| && FromSource(log[j]) && log[j].found.value.addr + log[j].found.value.size == Range(log).1
    decreases |log|
  {
    var k := |log| - 1;
    var (lo, hi) := Range(log[..k]);
    if hi > 0 {
      i, j := RangeUsed(log[..k]);
    }
    if FromSource(log[k]) {
      var m := log[k].found.value;
      i := if hi == 0 || m.addr < lo then k else i;
      j := if m.addr + m.size >= hi then k else j;
    }
  }

  /** The queue of a right search: starts and ends increase. */
  lemma {:induction false} ReplayOrdered(s: Setting, log: seq<Event>)
    requires s.slots > 0 && Walk(s, log)
    ensures Q.Ordered(Replay(log))
    decreases |log|
  {
    hide Right, Keep;
    if log != [] {
      var front, e := log[..|log| - 1], log[|log| - 1];
      ReplayOrdered(s, front);
      if e.found.Some? {
        FoundFits(s, front, e);
      }
    }
  }

  /** A position covered by the queue. */
  ghost predicate Covers(q: seq<Q.Match>, p: nat) {
    exists i :: 0 <= i < |q| && q[i].pos <= p < q[i].End()
  }

  /** What has been covered stays covered: a candidate is only dropped for one that covers it. */
  lemma {:induction false} CoveredStays(s: Setting, log: seq<Event>, k: nat, p: nat)
    requires s.slots > 0 && Walk(s, log) && k <= |log| && Covers(Replay(log[..k]), p)
    ensures Covers(Replay(log), p)
    decreases |log|
  {
    hide Right, Replay, Least, Q.Ordered, Covers;
    if k == |log| {
      assert log[..k] == log;
    } else {
      var front, e := log[..|log| - 1], log[|log| - 1];
      assert log[..k] == front[..k];
      CoveredStays(s, front, k, p);
      ReplayLast(log);
      if e.found.Some? {
        FoundFits(s, front, e);
        ReplayOrdered(s, front);
        TakenCovers(Replay(front), e.found.value, e.at, p);
      }
    }
  }

  lemma ReplayLast(log: seq<Event>)
    requires log != []
    ensures Replay(log) == Taken(Replay(log[..|log| - 1]), log[|log| - 1].found)
  {
  }

  lemma TakenCovers(q: seq<Q.Match>, m: Q.Match, at: nat, p: nat)
    requires Q.Ordered(q) && m.pos <= at && at + Least(q, at) <= m.End() && Covers(q, p)
    ensures Covers(Taken(q, Some(m)), p)
  {
    var i :| 0 <= i < |q| && q[i].pos <= p < q[i].End();
    var r := Keep(q, m.pos);
    var t := Taken(q, Some(m));
    if i < |r| {
      assert t[i] == q[i];
    } else {
      assert t[|r|] == m;
      assert q[i].End() <= LastMatched(q);
    }
  }

  /** A match that was taken is covered to the end. */
  lemma FoundCovered(s: Setting, log: seq<Event>, k: nat, p: nat)
    requires s.slots > 0 && Walk(s, log) && k < |log| && log[k].found.Some?
    requires log[k].found.value.pos <= p < log[k].found.value.End()
    ensures Covers(Replay(log), p)
  {
    hide Right;
    var q := Replay(log[..k + 1]);
    assert log[..k + 1][..k] == log[..k];
    assert q[|q| - 1] == log[k].found.value;
    CoveredStays(s, log, k + 1, p);
  }

  /** An input that begins with a run, which no source match continues into: the run is taken
      first and whole. */
  lemma FirstRun(s: Setting, log: seq<Event>)
    requires s.slots > 0 && Walk(s, log) && log != [] && log[0].Tried?
    requires s.input != [] && SameAhead(s, 0) && RunLength(s.input, 0, s.input[0]) >= MIN_RUN
    ensures log[0].found == Some(Q.RunMatch(0, RunLength(s.input, 0, s.input[0]), s.input[0]))
  {
    WalkPrefix(s, log, 0);
    hide SourceFound, SmallFound, LookedUp, RunLength;
    assert log[..0] == [] && Replay([]) == [];
  }

  /** It stays first in the queue, unless a source match that covers it takes its place. */
  lemma {:induction false} FirstStays(s: Setting, log: seq<Event>)
    requires s.slots > 0 && Walk(s, log) && log != [] && log[0].found.Some? && log[0].found.value.pos == 0
    ensures var q := Replay(log);
            q != [] && q[0].pos == 0 && q[0].End() >= log[0].found.value.End()
            && (q[0] == log[0].found.value || (q[0].CopyMatch? && q[0].fromSource))
    decreases |log|
  {
    hide Right, Least;
    var front, e := log[..|log| - 1], log[|log| - 1];
    if front == [] {
      assert Replay(front) == [];
    } else {
      FirstStays(s, front);
      if e.found.Some? {
        FoundFits(s, front, e);
        ReplayOrdered(s, front);
        PastFirst(s, front);
        RightStart(s, front, e);
        LaterTarget(s, front, e);
        FirstTaken(Replay(front), e.found.value, e.at);
      }
    }
  }

  lemma FirstTaken(q: seq<Q.Match>, m: Q.Match, at: nat)
    requires Q.Ordered(q) && q != [] && q[0].pos == 0 && m.pos <= at && at + Least(q, at) <= m.End()
    ensures var t := Taken(q, Some(m));
            t[0] == if m.pos > 0 then q[0] else m
    ensures m.pos == 0 ==> q[0].End() <= m.End()
  {
    assert q[0].End() <= LastMatched(q);
  }

  /** After a match at the start the search is past the start. */
  lemma {:induction false} PastFirst(s: Setting, log: seq<Event>)
    requires s.slots > 0 && Walk(s, log) && log != [] && log[0].found.Some? && log[0].found.value.pos == 0
    ensures Reached(s, log) > 0
    decreases |log|
  {
    hide Right;
    var front, e := log[..|log| - 1], log[|log| - 1];
    MovesOn(s, front, e);
    if front != [] {
      PastFirst(s, front);
      RightStart(s, front, e);
    } else {
      FoundFits(s, front, e);
    }
  }

  /** So at the end of a search of an input that begins with a long run, which no source match
      continues into, that run is first in the queue, whole, or a source match that covers it. */
  lemma FirstRunQueued(s: Setting, log: seq<Event>)
    requires s.slots > 0 && s.cfg.slook > 0 && Walk(s, log) && Reached(s, log) + s.cfg.slook > |s.input|
    requires s.input != [] && SameAhead(s, 0) && RunLength(s.input, 0, s.input[0]) >= MIN_RUN
    requires s.cfg.doLarge ==> log != [] && log[0].Tried?
    ensures var q, run := Replay(log), Q.RunMatch(0, RunLength(s.input, 0, s.input[0]), s.input[0]);
            && q != [] && q[0].pos == 0 && q[0].End() >= run.End()
            && (q[0] == run || (s.cfg.doLarge && q[0].CopyMatch? && q[0].fromSource))
  {
    hide RunLength, Replay, SameAhead, Right;
    assert SameAhead(s, 0) ==> s.cfg.slook <= |s.input| by { AheadFits(s); }
    if log[0].Resumed? {
      WalkPrefix(s, log, 0);
      ResumedLarge(s, log[..0], log[0]);
    } else {
      FirstRun(s, log);
      FirstStays(s, log);
      if !s.cfg.doLarge {
        NoSource(s, log);
      }
    }
  }

  lemma AheadFits(s: Setting)
    requires SameAhead(s, 0)
    ensures s.cfg.slook <= |s.input|
  {
  }

  lemma ResumedLarge(s: Setting, before: seq<Event>, e: Event)
    requires s.slots > 0 && Right(s, before, e)
    ensures e.Resumed? ==> s.cfg.doLarge
    ensures e.found.Some? && e.found.value.CopyMatch? && e.found.value.fromSource ==> s.cfg.doLarge
  {
    hide ChainSeen, Best, Replay;
  }

  /** Without a source there are no source matches. */
  lemma {:induction false} NoSource(s: Setting, log: seq<Event>)
    requires s.slots > 0 && Walk(s, log) && !s.cfg.doLarge
    ensures forall i :: 0 <= i < |Replay(log)| ==> !(Replay(log)[i].CopyMatch? && Replay(log)[i].fromSource)
    decreases |log|
  {
    hide Right;
    if log != [] {
      NoSource(s, log[..|log| - 1]);
      ResumedLarge(s, log[..|log| - 1], log[|log| - 1]);
    }
  }

  /** Runs and target copies start where they are found. */
  lemma LaterTarget(s: Setting, before: seq<Event>, e: Event)
    requires s.slots > 0 && Right(s, before, e) && e.found.Some? && Replay(before) != []
    requires Replay(before)[0].pos == 0
    ensures e.found.value.pos > 0 || (e.found.value.CopyMatch? && e.found.value.fromSource) || e.at == 0
  {
    hide ChainSeen, Head, Replay;
  }

  /** Bytes that were entered before are not missed: if the look-ahead repeats that of an entered
      position, the search at this position takes a run or a source match, or looks at the last
      position alike and takes what is best, unless that is no longer than it must be or too far. */
  lemma RepeatFound(s: Setting, before: seq<Event>, e: Event, i: nat)
    requires s.slots > 0 && Walk(s, before) && Right(s, before, e) && e.Tried? && s.cfg.doSmall
    requires i < |before| && Entered(s, before[i])
    requires s.input[before[i].at..before[i].at + s.cfg.slook] == s.input[e.at..e.at + s.cfg.slook]
    ensures Entered(s, e) ==>
              && e.cands != [] && before[i].at <= e.cands[0] < e.at
              && var (n, place) := Best(s.input, e.at, e.cands);
                 n >= Prefix(s.input, e.at, s.input, e.cands[0])
                 && (e.found == None ==> n < Least(Replay(before), e.at) || FarShort(n, Max(e.at, place) - place))
                 && (e.found.Some? ==> e.found.value == Q.CopyMatch(e.at, n, place, false))
  {
    hide Walk, Prefix, Best, Replay, SourceFound, HeadBefore;
    WalkRises(s, before);
    HeadLatest(s, before, i);
    assert s.Slot(before[i].at) == s.Slot(e.at);
    if Entered(s, e) {
      EnteredSmall(s, before, e);
      BestIsLongest(s.input, e.at, e.cands, 0);
    }
  }

  lemma EnteredSmall(s: Setting, before: seq<Event>, e: Event)
    requires s.slots > 0 && Right(s, before, e) && e.Tried? && Entered(s, e)
    ensures e.at + s.cfg.slook <= |s.input|
            && SmallFound(s, before, e.at, Least(Replay(before), e.at), e.cands, e.found)
  {
    hide SmallFound, SourceFound, Replay, SeenBefore;
  }
}
