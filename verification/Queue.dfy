/** The instruction buffer of the lazy matcher: overlapping candidate matches and their
    compaction by xd3_iopt_flush_instructions. */
module Queue {
  import opened Common
  import opened Delta

  const MIN_MATCH: nat := 4
  const MAX_MATCH_SPLIT: nat := 18

  /** xd3_rinst: a candidate at a position of the input window. */
  datatype Match =
    | RunMatch(pos: nat, size: nat, value: byte)
    | CopyMatch(pos: nat, size: nat, addr: nat, fromSource: bool)
  {
    function End(): nat {
      pos + size
    }

    /** The match without its first k bytes. */
    function DropFront(k: nat): Match
      requires k <= size
    {
      match this
      case RunMatch(_, _, value) => RunMatch(pos + k, size - k, value)
      case CopyMatch(_, _, addr, fromSource) => CopyMatch(pos + k, size - k, addr + k, fromSource)
    }

    function Truncate(n: nat): Match
      requires n <= size
    {
      match this
      case RunMatch(_, _, value) => RunMatch(pos, n, value)
      case CopyMatch(_, _, addr, fromSource) => CopyMatch(pos, n, addr, fromSource)
    }

    /** A part of m: same kind and content, same distance between address and position. */
    ghost predicate PartOf(m: Match) {
      && m.pos <= pos && End() <= m.End()
      && RunMatch? == m.RunMatch?
      && (RunMatch? ==> value == m.value)
      && (CopyMatch? ==> fromSource == m.fromSource && addr - m.addr == pos - m.pos)
    }
  }

  /** Starts and ends increase strictly and no match is empty. */
  ghost predicate Ordered(q: seq<Match>) {
    && (forall i :: 0 <= i < |q| ==> q[i].size > 0)
    && (forall i, j :: 0 <= i < j < |q| ==> q[i].pos < q[j].pos && q[i].End() < q[j].End())
  }

  ghost predicate Disjoint(q: seq<Match>) {
    forall i, j :: 0 <= i < j < |q| ==> q[i].End() <= q[j].pos
  }

  /** The size left to the first of two partly overlapping matches, r1 at pos1 and r2 at pos2:
      the overlap is cut so that both lengths balance, but not beyond MAX_MATCH_SPLIT. */
  function FirstSize(pos1: nat, size1: nat, pos2: nat, size2: nat): (n: nat)
    requires pos1 < pos2 < pos1 + size1 < pos2 + size2 && pos2 + size2 - pos1 >= 2 * MIN_MATCH
    ensures pos2 <= pos1 + n && n <= size1
    ensures n == size1 || n >= MIN_MATCH
    ensures pos1 + n == pos2 || pos2 + size2 - (pos1 + n) >= MIN_MATCH
  {
    var end1 := pos1 + size1;
    var gap := pos2 + size2 - pos1;
    var average := gap / 2;
    var newsize := Min(MAX_MATCH_SPLIT, gap - average);
    if newsize > size1 then size1
    else if newsize > size2 then size1 - (end1 - pos2)
    else
      var adjust := size1 - newsize;
      if pos2 > end1 - adjust then size1 - (adjust - (pos2 - (end1 - adjust))) else size1 - adjust
  }

  function Distance(a: nat, b: nat): nat {
    if a < b then b - a else a - b
  }

  /** No other cut within the overlap is nearer to the balanced one; and unless both matches would
      get more than MAX_MATCH_SPLIT, no other makes the two lengths more alike. */
  lemma FirstSizeNearest(pos1: nat, size1: nat, pos2: nat, size2: nat, k: nat)
    requires pos1 < pos2 < pos1 + size1 < pos2 + size2 && pos2 + size2 - pos1 >= 2 * MIN_MATCH
    requires pos2 - pos1 <= k <= size1
    ensures var n, gap := FirstSize(pos1, size1, pos2, size2), pos2 + size2 - pos1;
            && Distance(n, Min(MAX_MATCH_SPLIT, (gap + 1) / 2)) <= Distance(k, Min(MAX_MATCH_SPLIT, (gap + 1) / 2))
            && (gap <= 2 * MAX_MATCH_SPLIT ==> Distance(n, gap - n) <= Distance(k, pos2 + size2 - (pos1 + k)))
  {
  }

  /** The two matches left after a partial overlap has been split between them. */
  function Split(r1: Match, r2: Match): (s: (Match, Match))
    requires r1.pos < r2.pos < r1.End() < r2.End() && r2.End() - r1.pos >= 2 * MIN_MATCH
    ensures s.0.PartOf(r1) && s.1.PartOf(r2)
    ensures s.0.pos == r1.pos && s.1.End() == r2.End() && s.0.End() == s.1.pos <= r1.End()
    ensures s.0.size == r1.size || s.0.size >= MIN_MATCH
    ensures s.1.size == r2.size || s.1.size >= MIN_MATCH
    ensures s.0.size > 0 && s.1.size > 0
  {
    var n := FirstSize(r1.pos, r1.size, r2.pos, r2.size);
    (r1.Truncate(n), r2.DropFront(r1.pos + n - r2.pos))
  }

  /** One of two overlapping matches is not worth keeping. */
  predicate Discard(r1: Match, r2: Match) {
    r2.End() - r1.pos < 2 * MIN_MATCH || r2.End() - r1.End() <= 2 || r2.pos - r1.pos <= 2
  }

  /** The compaction loop, from a current instruction (the head) on. */
  function Compact(q: seq<Match>, force: bool): seq<Match>
    requires Ordered(q)
    decreases |q|
  {
    if |q| < 2 then q
    else
      var r1, r2 := q[0], q[1];
      if r1.End() <= r2.pos then [r1] + Compact(q[1..], force)
      else if |q| > 2 && q[2].pos <= r1.End() + 1 then Compact([r1] + q[2..], force)
      else if |q| == 2 && !force then q
      else if Discard(r1, r2) then
        if r1.size < r2.size then Compact(q[1..], force) else [r1] + Compact(q[2..], force)
      else
        var (s1, s2) := Split(r1, r2);
        [s1] + Compact([s2] + q[2..], force)
  }

  /** m is a part of some match of q, as long as before or at least MIN_MATCH. */
  ghost predicate From(m: Match, q: seq<Match>) {
    exists j :: 0 <= j < |q| && m.PartOf(q[j]) && (m.size == q[j].size || m.size >= MIN_MATCH)
  }

  /** Only the last two may still overlap. */
  ghost predicate DisjointButLast(q: seq<Match>) {
    forall i, j :: 0 <= i < j < |q| && i < |q| - 2 ==> q[i].End() <= q[j].pos
  }

  /** Parts of parts: a match from `q2`, each of whose elements comes from q, comes from q. */
  lemma FromTrans(m: Match, q2: seq<Match>, q: seq<Match>)
    requires From(m, q2)
    requires forall i :: 0 <= i < |q2| ==> From(q2[i], q)
    ensures From(m, q)
  {
    var i :| 0 <= i < |q2| && m.PartOf(q2[i]) && (m.size == q2[i].size || m.size >= MIN_MATCH);
    assert From(q2[i], q);
    var j :| 0 <= j < |q| && q2[i].PartOf(q[j]) && (q2[i].size == q[j].size || q2[i].size >= MIN_MATCH);
    assert m.PartOf(q[j]);
  }

  lemma FromSelf(q: seq<Match>, i: nat)
    requires i < |q|
    ensures From(q[i], q)
  {
    assert q[i].PartOf(q[i]);
  }

  /** What a compacted queue looks like. */
  ghost predicate Compacted(c: seq<Match>, q: seq<Match>, force: bool) {
    && Ordered(c)
    && (q != [] ==> c != [] && c[0].pos >= q[0].pos && c[|c| - 1].End() <= q[|q| - 1].End())
    && |c| <= |q|
    && (forall i :: 0 <= i < |c| ==> From(c[i], q))
    && (if force then Disjoint(c) else DisjointButLast(c))
  }

  /** Compaction terminates with ordered, disjoint parts of the original matches on their
      original diagonals; nothing it shortens falls below MIN_MATCH. */
  lemma {:induction false} CompactResult(q: seq<Match>, force: bool)
    requires Ordered(q)
    ensures Compacted(Compact(q, force), q, force)
    decreases |q|, 2
  {
    hide Match.PartOf, From, Split, Compacted, Discard;
    FromSelves(q);
    if |q| < 2 {
      CompactShort(q, force);
    } else {
      var r1, r2 := q[0], q[1];
      if r1.End() <= r2.pos {
        Prepend(r1, q[1..], q, force);
      } else if |q| > 2 && q[2].pos <= r1.End() + 1 {
        CompactSkip(q, force);
      } else if |q| == 2 && !force {
        CompactShort(q, force);
      } else if Discard(r1, r2) {
        CompactDiscard(q, force);
      } else {
        CompactSplit(q, force);
      }
    }
  }

  /** A queue that compaction leaves alone. */
  lemma CompactShort(q: seq<Match>, force: bool)
    requires Ordered(q) && (|q| < 2 || (|q| == 2 && !force))
    ensures Compacted(q, q, force)
  {
    hide From;
    FromSelves(q);
  }

  lemma {:induction false} CompactSkip(q: seq<Match>, force: bool)
    requires Ordered(q) && |q| > 2 && q[1].pos < q[0].End() && q[2].pos <= q[0].End() + 1
    ensures Compacted(Compact(q, force), q, force)
    decreases |q|, 1
  {
    hide Match.PartOf, From, Split, Compacted;
    FromSelves(q);
    var q2 := [q[0]] + q[2..];
    assert forall i :: 0 < i < |q2| ==> q2[i] == q[i + 1];
    Replace(q2, q, force);
  }

  lemma {:induction false} CompactDiscard(q: seq<Match>, force: bool)
    requires Ordered(q) && |q| >= 2 && q[1].pos < q[0].End() && Discard(q[0], q[1])
    requires if |q| > 2 then q[0].End() + 1 < q[2].pos else force
    ensures Compacted(Compact(q, force), q, force)
    decreases |q|, 1
  {
    hide Match.PartOf, From, Split, Compacted, Compact;
    FromSelves(q);
    DiscardStep(q, force);
    if q[0].size < q[1].size {
      Replace(q[1..], q, force);
    } else if |q| > 2 {
      Prepend(q[0], q[2..], q, force);
    } else {
      KeepFirst(q, force);
    }
  }

  lemma DiscardStep(q: seq<Match>, force: bool)
    requires Ordered(q) && |q| >= 2 && q[1].pos < q[0].End() && Discard(q[0], q[1])
    requires if |q| > 2 then q[0].End() + 1 < q[2].pos else force
    ensures Compact(q, force) == if q[0].size < q[1].size then Compact(q[1..], force)
                                 else [q[0]] + Compact(q[2..], force)
    ensures |q| == 2 ==> Compact(q[2..], force) == []
  {
    hide Split, Discard;
  }

  lemma KeepFirst(q: seq<Match>, force: bool)
    requires Ordered(q) && |q| == 2
    ensures Compacted([q[0]] + [], q, force)
  {
    hide From;
    FromSelf(q, 0);
  }

  lemma {:induction false} CompactSplit(q: seq<Match>, force: bool)
    requires Ordered(q) && |q| >= 2 && q[1].pos < q[0].End() && !Discard(q[0], q[1])
    requires if |q| > 2 then q[0].End() + 1 < q[2].pos else force
    ensures Compacted(Compact(q, force), q, force)
    decreases |q|, 1
  {
    hide From, Split, Compacted, Compact;
    FromSelves(q);
    var (s1, s2) := Split(q[0], q[1]);
    SplitFrom(q, s1, s2);
    var q2 := [s2] + q[2..];
    assert forall i :: 0 < i < |q2| ==> q2[i] == q[i + 1];
    assert Ordered(q2);
    SplitStep(q, s1, s2, force);
    hide Match.PartOf, Ordered;
    Prepend(s1, q2, q, force);
  }

  lemma SplitStep(q: seq<Match>, s1: Match, s2: Match, force: bool)
    requires Ordered(q) && |q| >= 2 && q[1].pos < q[0].End() && !Discard(q[0], q[1])
    requires if |q| > 2 then q[0].End() + 1 < q[2].pos else force
    requires (s1, s2) == Split(q[0], q[1]) && Ordered([s2] + q[2..])
    ensures Compact(q, force) == [s1] + Compact([s2] + q[2..], force)
  {
    hide Split;
  }

  lemma FromSelves(q: seq<Match>)
    ensures forall i :: 0 <= i < |q| ==> From(q[i], q)
  {
    forall i | 0 <= i < |q| ensures From(q[i], q) { FromSelf(q, i); }
  }

  lemma SplitFrom(q: seq<Match>, s1: Match, s2: Match)
    requires |q| >= 2 && s1.PartOf(q[0]) && s2.PartOf(q[1])
    requires s1.size == q[0].size || s1.size >= MIN_MATCH
    requires s2.size == q[1].size || s2.size >= MIN_MATCH
    ensures From(s1, q) && From(s2, q)
  {
  }

  lemma {:induction false} FromAll(q2: seq<Match>, q: seq<Match>, c: seq<Match>)
    requires forall i :: 0 <= i < |q2| ==> From(q2[i], q)
    requires forall i :: 0 <= i < |c| ==> From(c[i], q2)
    ensures forall i :: 0 <= i < |c| ==> From(c[i], q)
  {
    forall i | 0 <= i < |c| ensures From(c[i], q) { FromTrans(c[i], q2, q); }
  }

  lemma {:induction false} Replace(q2: seq<Match>, q: seq<Match>, force: bool)
    requires Ordered(q) && Ordered(q2) && 0 < |q2| < |q|
    requires q2[0].pos >= q[0].pos && q2[|q2| - 1] == q[|q| - 1]
    requires forall i :: 0 <= i < |q2| ==> From(q2[i], q)
    ensures Compacted(Compact(q2, force), q, force)
    decreases |q|, 0
  {
    CompactResult(q2, force);
    FromAll(q2, q, Compact(q2, force));
  }

  lemma {:induction false} Prepend(r: Match, q2: seq<Match>, q: seq<Match>, force: bool)
    requires Ordered(q) && Ordered(q2) && 0 < |q2| < |q|
    requires r.size > 0 && r.pos == q[0].pos && From(r, q) && r.End() <= q2[0].pos
    requires q2[|q2| - 1].End() == q[|q| - 1].End()
    requires forall i :: 0 <= i < |q2| ==> From(q2[i], q)
    ensures Compacted([r] + Compact(q2, force), q, force)
    decreases |q|, 0
  {
    hide Match.PartOf, From, Compact, Ordered, Disjoint, DisjointButLast;
    CompactResult(q2, force);
    var c := Compact(q2, force);
    FromAll(q2, q, c);
    Cons(r, c);
    assert forall i :: 0 < i < |[r] + c| ==> ([r] + c)[i] == c[i - 1];
  }

  lemma Cons(r: Match, c: seq<Match>)
    requires Ordered(c) && r.size > 0 && (c != [] ==> r.End() <= c[0].pos)
    ensures Ordered([r] + c)
    ensures Disjoint(c) ==> Disjoint([r] + c)
    ensures DisjointButLast(c) ==> DisjointButLast([r] + c)
  {
    var d := [r] + c;
    forall i, j | 0 <= i < j < |d|
      ensures d[i].pos < d[j].pos && d[i].End() < d[j].End()
      ensures Disjoint(c) || (i < |d| - 2 && DisjointButLast(c)) ==> d[i].End() <= d[j].pos
    {
      assert d[j] == c[j - 1];
      if i == 0 {
        assert r.End() <= c[0].pos <= c[j - 1].pos;
      } else {
        assert d[i] == c[i - 1];
      }
    }
  }

  // ------------------------------------------------- the flush that empties half the queue

  /** How many instructions of a compacted queue of length n a flush takes off. */
  function FlushCount(n: nat, force: bool, ioptSize: nat): (k: nat)
    ensures k <= n && (n > 0 ==> k > 0)
  {
    if force || n == 0 then n
    else if n <= 3 then 1
    else Min(ioptSize / 2 + 1, n - 2)
  }

  /** The instruction left at the head of the queue starts where the flushed ones have ended. */
  predicate CleanCut(c: seq<Match>, k: nat)
    requires k <= |c|
  {
    0 < k < |c| ==> c[k - 1].End() <= c[k].pos
  }

  /** Walking the queue with one current match: every next match overlaps it and is either
      irrelevant, because the one after starts early enough, or longer and taken instead; until
      two overlapping ones are left. */
  predicate Stuck(q: seq<Match>)
    decreases |q|
  {
    && |q| >= 2 && q[1].pos < q[0].End()
    && (|q| == 2
        || if q[2].pos <= q[0].End() + 1 then Stuck([q[0]] + q[2..])
           else Discard(q[0], q[1]) && q[0].size < q[1].size && Stuck(q[1..]))
  }

  /** Exactly such queues are compacted to two overlapping matches when not forced. */
  lemma {:induction false} StuckIsTwo(q: seq<Match>)
    requires Ordered(q)
    ensures var c := Compact(q, false);
            |c| == 2 && c[0].End() > c[1].pos <==> Stuck(q)
    decreases |q|
  {
    hide Split, Discard;
    if |q| >= 2 {
      var r1, r2 := q[0], q[1];
      if r1.End() <= r2.pos {
        StartsLater(r1, q[1..]);
      } else if |q| > 2 && q[2].pos <= r1.End() + 1 {
        StuckIsTwo([r1] + q[2..]);
      } else if |q| > 2 {
        if Discard(r1, r2) {
          if r1.size < r2.size {
            StuckIsTwo(q[1..]);
          } else {
            StartsLater(r1, q[2..]);
          }
        } else {
          StuckSplit(q);
        }
      }
    }
  }

  lemma StuckSplit(q: seq<Match>)
    requires Ordered(q) && |q| > 2 && q[1].pos < q[0].End() && !Discard(q[0], q[1]) && q[0].End() + 1 < q[2].pos
    ensures var (s1, s2) := Split(q[0], q[1]);
            Ordered([s2] + q[2..])
            && var c := [s1] + Compact([s2] + q[2..], false); !(|c| == 2 && c[0].End() > c[1].pos)
  {
    hide Split, Compact;
    var (s1, s2) := Split(q[0], q[1]);
    var q2 := [s2] + q[2..];
    assert forall i :: 0 < i < |q2| ==> q2[i] == q[i + 1];
    StartsLater(s1, q2);
  }

  /** A match in front of a queue that starts later overlaps nothing of it after compaction. */
  lemma StartsLater(r: Match, q: seq<Match>)
    requires Ordered(q) && (q != [] ==> r.End() <= q[0].pos)
    ensures var c := [r] + Compact(q, false);
            !(|c| == 2 && c[0].End() > c[1].pos)
  {
    hide Compact, Ordered, From;
    CompactResult(q, false);
  }

  /** A flush cuts the queue cleanly exactly when it is forced or the queue does not get stuck at
      two overlapping matches. */
  lemma FlushIsClean(q: seq<Match>, force: bool, ioptSize: nat)
    requires Ordered(q)
    ensures var c := Compact(q, force);
            CleanCut(c, FlushCount(|c|, force, ioptSize)) <==> force || !Stuck(q)
  {
    hide Compact, From, Stuck;
    CompactResult(q, force);
    StuckIsTwo(q);
  }
}
