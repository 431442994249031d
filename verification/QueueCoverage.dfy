/** How little compaction loses: at most three covered positions for every match it drops. */
module QueueCoverage {
  import opened Common
  import opened Queue

  /** The number of positions that an ordered queue covers. */
  function Coverage(q: seq<Match>): nat
    requires Ordered(q)
    decreases |q|
  {
    if q == [] then 0
    else if |q| == 1 then q[0].size
    else Min(q[0].End(), q[1].pos) - q[0].pos + Coverage(q[1..])
  }

  // ---------------------------------------------------------------- counting positions

  ghost function Interval(a: nat, b: nat): (r: set<nat>)
    ensures forall p :: p in r <==> a <= p < b
    ensures |r| == if a < b then b - a else 0
    decreases b
  {
    if a < b then Interval(a, b - 1) + {b - 1} else {}
  }

  ghost function Covered(q: seq<Match>): set<nat> {
    if q == [] then {} else Interval(q[0].pos, q[0].End()) + Covered(q[1..])
  }

  lemma {:induction false} CoveredFrom(q: seq<Match>)
    requires Ordered(q) && q != []
    ensures forall p :: p in Covered(q) ==> p >= q[0].pos
    decreases |q|
  {
    if |q| > 1 {
      CoveredFrom(q[1..]);
    }
  }

  /** Coverage counts the covered positions once each. */
  lemma {:induction false} CoverageCounts(q: seq<Match>)
    requires Ordered(q)
    ensures |Covered(q)| == Coverage(q)
    decreases |q|
  {
    if |q| == 1 {
      assert Covered(q) == Interval(q[0].pos, q[0].End());
    } else if |q| > 1 {
      CoverageCounts(q[1..]);
      FrontCounts(q);
    }
  }

  lemma FrontCounts(q: seq<Match>)
    requires Ordered(q) && |q| > 1
    ensures |Covered(q)| == Min(q[0].End(), q[1].pos) - q[0].pos + |Covered(q[1..])|
  {
    CoveredFrom(q[1..]);
    FrontAdds(q[0].pos, q[0].End(), q[1].pos, q[1].End(), Covered(q[1..]));
  }

  /** What an interval adds to positions that start with a later interval. */
  lemma FrontAdds(a: nat, b: nat, c: nat, d: nat, more: set<nat>)
    requires a < c && a < b < d && Interval(c, d) <= more && forall p :: p in more ==> p >= c
    ensures |Interval(a, b) + more| == Min(b, c) - a + |more|
  {
    hide Interval;
    var front := Interval(a, Min(b, c));
    forall p | p in Interval(a, b) ensures p in front + more {
      if p >= c {
        assert p in Interval(c, d);
      }
    }
    assert Interval(a, b) + more == front + more;
    assert front !! more;
  }

  // ---------------------------------------------------------------- case by case

  /** What compaction promises about coverage. */
  ghost predicate Keeps(q: seq<Match>, c: seq<Match>) {
    Ordered(q) && Ordered(c) && |c| <= |q| && Coverage(c) + 3 * (|q| - |c|) >= Coverage(q)
  }

  lemma CoverageFront(r: Match, c: seq<Match>)
    requires Ordered(c) && r.size > 0 && (c != [] ==> r.End() <= c[0].pos)
    ensures Ordered([r] + c) && Coverage([r] + c) == r.size + Coverage(c)
  {
    Cons(r, c);
    assert ([r] + c)[1..] == c;
  }

  /** A dropped second match loses at most the position before the third. */
  lemma SkipCovers(q: seq<Match>)
    requires Ordered(q) && |q| > 2 && q[1].pos < q[0].End() && q[2].pos <= q[0].End() + 1
    ensures Ordered([q[0]] + q[2..]) && Coverage([q[0]] + q[2..]) + 1 >= Coverage(q)
  {
    var q2 := [q[0]] + q[2..];
    assert forall i :: 0 < i < |q2| ==> q2[i] == q[i + 1];
    assert q2[1..] == q[2..] && q[1..][1..] == q[2..];
  }

  /** The shorter of two that overlap almost entirely loses at most two positions, or three when both
      together are shorter than two matches. */
  lemma DiscardCovers(q: seq<Match>)
    requires Ordered(q) && |q| >= 2 && q[1].pos < q[0].End() && Discard(q[0], q[1])
    requires |q| > 2 ==> q[0].End() + 1 < q[2].pos
    ensures Coverage(if q[0].size < q[1].size then q[1..] else q[2..])
            + (if q[0].size < q[1].size then 0 else q[0].size)
            + (if q[1].End() - q[0].pos < 2 * MIN_MATCH then 3 else 2) >= Coverage(q)
  {
    assert q[1..][1..] == q[2..];
  }

  lemma SplitCovers(q: seq<Match>, s1: Match, s2: Match)
    requires Ordered(q) && |q| >= 2 && q[1].pos < q[0].End() && (|q| > 2 ==> q[0].End() + 1 < q[2].pos)
    requires s1.size > 0 && s2.size > 0 && s1.pos == q[0].pos && s2.End() == q[1].End()
    requires s1.End() == s2.pos <= q[0].End()
    ensures Ordered([s2] + q[2..]) && s1.size + Coverage([s2] + q[2..]) == Coverage(q)
  {
    SplitOrdered(q, s2);
    CoverageTwo(q);
    var q2 := [s2] + q[2..];
    assert q2[1..] == q[2..] && (|q| > 2 ==> q2[1] == q[2]);
  }

  lemma SplitOrdered(q: seq<Match>, s2: Match)
    requires Ordered(q) && |q| >= 2 && s2.size > 0 && s2.End() == q[1].End() && s2.pos <= q[0].End()
    requires |q| > 2 ==> q[0].End() + 1 < q[2].pos
    ensures Ordered([s2] + q[2..])
  {
    var q2 := [s2] + q[2..];
    assert forall i :: 0 < i < |q2| ==> q2[i] == q[i + 1];
  }

  lemma CoverageTwo(q: seq<Match>)
    requires Ordered(q) && |q| >= 2
    ensures Ordered(q[2..])
    ensures Coverage(q) == Min(q[0].End(), q[1].pos) - q[0].pos
            + if |q| == 2 then q[1].size else Min(q[1].End(), q[2].pos) - q[1].pos + Coverage(q[2..])
  {
    assert q[1..][1..] == q[2..];
  }

  lemma CompactStart(q: seq<Match>, force: bool)
    requires Ordered(q)
    ensures var c := Compact(q, force);
            Ordered(c) && |c| <= |q| && (q != [] ==> c != [] && c[0].pos >= q[0].pos)
  {
    hide Compact, From, Ordered;
    CompactResult(q, force);
  }

  lemma SkipStep(q: seq<Match>, force: bool)
    requires Ordered(q) && |q| > 2 && q[1].pos < q[0].End() && q[2].pos <= q[0].End() + 1
    requires Ordered([q[0]] + q[2..])
    ensures Compact(q, force) == Compact([q[0]] + q[2..], force)
  {
    hide Split;
  }

  lemma ApartStep(q: seq<Match>, force: bool)
    requires Ordered(q) && |q| >= 2 && q[0].End() <= q[1].pos
    ensures Compact(q, force) == [q[0]] + Compact(q[1..], force)
    ensures Coverage(q) == q[0].size + Coverage(q[1..])
  {
    hide Split;
  }

  lemma LeftAlone(q: seq<Match>, force: bool)
    requires Ordered(q) && (|q| < 2 || (|q| == 2 && q[1].pos < q[0].End() && !force))
    ensures Compact(q, force) == q
  {
    hide Split;
  }

  /** Compaction loses at most three positions for every match that it drops, and none when it
      drops none. */
  lemma {:induction false} CompactCovers(q: seq<Match>, force: bool)
    requires Ordered(q)
    ensures Keeps(q, Compact(q, force))
    decreases |q|
  {
    hide Match.PartOf, From, Split, Compact, Coverage, Discard, Ordered;
    CompactStart(q, force);
    if |q| < 2 || (|q| == 2 && q[1].pos < q[0].End() && !force) {
      LeftAlone(q, force);
    } else if q[0].End() <= q[1].pos {
      OrderedParts(q);
      ApartStep(q, force);
      CompactStart(q[1..], force);
      CompactCovers(q[1..], force);
      CoverageFront(q[0], Compact(q[1..], force));
    } else if |q| > 2 && q[2].pos <= q[0].End() + 1 {
      SkipCovers(q);
      SkipStep(q, force);
      CompactCovers([q[0]] + q[2..], force);
    } else if Discard(q[0], q[1]) {
      OrderedParts(q);
      DiscardStep(q, force);
      DiscardCovers(q);
      if q[0].size < q[1].size {
        CompactCovers(q[1..], force);
      } else {
        CompactStart(q[2..], force);
        CompactCovers(q[2..], force);
        CoverageFront(q[0], Compact(q[2..], force));
      }
    } else {
      SplitKeeps(q, force);
    }
  }

  lemma OrderedParts(q: seq<Match>)
    requires Ordered(q) && |q| >= 2
    ensures Ordered(q[1..]) && Ordered(q[2..]) && q[0].size > 0
  {
  }

  lemma {:induction false} SplitKeeps(q: seq<Match>, force: bool)
    requires Ordered(q) && |q| >= 2 && q[1].pos < q[0].End() && !Discard(q[0], q[1])
    requires if |q| > 2 then q[0].End() + 1 < q[2].pos else force
    ensures Keeps(q, Compact(q, force))
    decreases |q|, 0
  {
    hide Match.PartOf, From, Compact, Coverage;
    OrderedPair(q);
    var (s1, s2) := Split(q[0], q[1]);
    hide Split, Ordered;
    var q2 := [s2] + q[2..];
    SplitCovers(q, s1, s2);
    SplitStep(q, s1, s2, force);
    CompactStart(q2, force);
    CompactCovers(q2, force);
    CoverageFront(s1, Compact(q2, force));
  }

  lemma OrderedPair(q: seq<Match>)
    requires Ordered(q) && |q| >= 2 && !Discard(q[0], q[1])
    ensures q[0].pos < q[1].pos && q[0].End() < q[1].End() && q[1].End() - q[0].pos >= 2 * MIN_MATCH
  {
  }
}
