/** Why merging the two least weights is optimal: among all code lengths that can be decoded, some
    cheapest ones give the two least weights the same, greatest length. */
module OptimalCode {
  import opened Common
  import opened BitStream
  import opened Sums

  /** The share of each place that has a weight, at scale m. */
  function Shares(v: seq<nat>, l: seq<nat>, m: nat): (r: seq<nat>)
    requires |l| == |v|
    ensures |r| == |v|
  {
    seq(|v|, x requires 0 <= x < |v| => if v[x] > 0 && l[x] <= m then Pow2(m - l[x]) else 0)
  }

  function Costs(v: seq<nat>, l: seq<nat>): (r: seq<nat>)
    requires |l| == |v|
    ensures |r| == |v|
  {
    seq(|v|, x requires 0 <= x < |v| => v[x] * l[x])
  }

  /** Lengths up to m, for the places with a weight, with a Kraft sum of at most one. */
  ghost predicate Code(v: seq<nat>, l: seq<nat>, m: nat) {
    && |l| == |v| && (forall x :: 0 <= x < |v| && v[x] > 0 ==> l[x] <= m)
    && Sum(Shares(v, l, m)) <= Pow2(m)
  }

  /** No place with a weight is deeper. */
  ghost predicate Deepest(v: seq<nat>, l: seq<nat>, x: nat)
    requires |l| == |v|
  {
    x < |v| && v[x] > 0 && forall y :: 0 <= y < |v| && v[y] > 0 ==> l[y] <= l[x]
  }

  lemma {:induction false} SomeDeepest(v: seq<nat>, l: seq<nat>, k: nat, a: nat) returns (x: nat)
    requires |l| == |v| && a < k <= |v| && v[a] > 0
    ensures x < k && v[x] > 0 && forall y :: 0 <= y < k && v[y] > 0 ==> l[y] <= l[x]
    decreases k
  {
    if k == 1 {
      x := a;
    } else if v[k - 1] == 0 {
      x := SomeDeepest(v, l, k - 1, a);
    } else if forall y :: 0 <= y < k - 1 ==> v[y] == 0 {
      x := k - 1;
    } else {
      var y :| 0 <= y < k - 1 && v[y] != 0;
      x := SomeDeepest(v, l, k - 1, y);
      if l[k - 1] > l[x] {
        x := k - 1;
      }
    }
  }

  // ---------------------------------------------------------------- shortening

  /** Without place x all lengths are below L, so all shares are multiples of 2^(m - L + 1). */
  lemma OthersDivide(v: seq<nat>, l: seq<nat>, m: nat, x: nat, most: nat)
    requires |l| == |v| && x < |v| && most <= m
    requires forall y :: 0 <= y < |v| && y != x && v[y] > 0 ==> l[y] <= most
    ensures Sum(Shares(v[x := 0], l, m)) == Pow2(m - most) * Sum(Shares(v[x := 0], l, most))
  {
    hide Pow2;
    var rest := v[x := 0];
    var s, t := Shares(rest, l, m), Shares(rest, l, most);
    forall y | 0 <= y < |s| ensures s[y] == Pow2(m - most) * t[y] {
      if rest[y] > 0 {
        Pow2Add(m - most, most - l[y]);
        assert m - most + (most - l[y]) == m - l[y];
      }
    }
    SumScale(s, t, Pow2(m - most));
  }

  lemma Room(q: nat, t: nat, p: nat)
    requires 2 * (q * t) + q <= 2 * (q * p) && q > 0
    ensures 2 * (q * t) + 2 * q <= 2 * (q * p)
  {
    if t >= p {
      MulMore(q, p, t);
    } else {
      MulMore(q, t + 1, p);
      Distribute(q, t, 1);
    }
  }

  lemma MulMore(q: nat, a: nat, b: nat)
    requires a <= b
    ensures q * a <= q * b
  {
  }

  /** One place with one bit less takes twice its share. */
  lemma ShorterShares(v: seq<nat>, l: seq<nat>, m: nat, x: nat)
    requires |l| == |v| && x < |v| && v[x] > 0 && 0 < l[x] <= m
    ensures var q := Pow2(m - l[x]);
            && Sum(Shares(v, l, m)) == Sum(Shares(v[x := 0], l, m)) + q
            && Sum(Shares(v, l[x := l[x] - 1], m)) == Sum(Shares(v[x := 0], l, m)) + 2 * q
  {
    hide Pow2;
    Pow2Next(m - l[x]);
    assert m - l[x] + 1 == m - (l[x] - 1);
    var s := Shares(v, l, m);
    var q := Pow2(m - l[x]);
    SumUpdate(s, x, 0);
    SumUpdate(s, x, 2 * q);
    assert Shares(v[x := 0], l, m) == s[x := 0];
    assert Shares(v, l[x := l[x] - 1], m) == s[x := 2 * q];
  }

  lemma ShorterCosts(v: seq<nat>, l: seq<nat>, x: nat)
    requires |l| == |v| && x < |v| && l[x] > 0
    ensures Sum(Costs(v, l[x := l[x] - 1])) + v[x] == Sum(Costs(v, l))
  {
    var cost: nat := v[x] * (l[x] - 1);
    SumUpdate(Costs(v, l), x, cost);
    assert Costs(v, l[x := l[x] - 1]) == Costs(v, l)[x := cost];
    Distribute(v[x], l[x] - 1, 1);
  }

  /** The only place of greatest length can do with one bit less. */
  lemma Shorten(v: seq<nat>, l: seq<nat>, m: nat, x: nat)
    requires Code(v, l, m) && x < |v| && v[x] > 0 && l[x] > 0
    requires forall y :: 0 <= y < |v| && y != x && v[y] > 0 ==> l[y] < l[x]
    ensures Code(v, l[x := l[x] - 1], m)
    ensures Sum(Costs(v, l[x := l[x] - 1])) + v[x] == Sum(Costs(v, l))
  {
    hide Pow2, Shares, Costs, Sum;
    var most: nat := l[x] - 1;
    ShorterCosts(v, l, x);
    ShorterShares(v, l, m, x);
    OthersDivide(v, l, m, x, most);
    RoomForOne(Sum(Shares(v[x := 0], l, most)), m, most);
  }

  /** A multiple of 2^(m - most) that leaves some room below 2^m leaves that much. */
  lemma RoomForOne(t: nat, m: nat, most: nat)
    requires most < m && Pow2(m - most) * t + Pow2(m - most - 1) <= Pow2(m)
    ensures Pow2(m - most) * t + 2 * Pow2(m - most - 1) <= Pow2(m)
  {
    hide Pow2;
    var q := Pow2(m - most - 1);
    Pow2Next(m - most - 1);
    assert m - most - 1 + 1 == m - most;
    Pow2Add(m - most, most);
    assert m - most + most == m;
    Twice(q, t);
    Twice(q, Pow2(most));
    Room(q, t, Pow2(most));
  }

  lemma Twice(q: nat, t: nat)
    ensures (2 * q) * t == 2 * (q * t)
  {
  }

  // ---------------------------------------------------------------- swapping

  /** Two places swap their lengths: the sum stays, and the longer code goes to the lesser weight. */
  lemma Swap(v: seq<nat>, l: seq<nat>, m: nat, a: nat, z: nat)
    requires Code(v, l, m) && a < |v| && z < |v| && a != z && 0 < v[a] <= v[z] && l[a] <= l[z]
    ensures Code(v, l[a := l[z]][z := l[a]], m)
    ensures Sum(Costs(v, l[a := l[z]][z := l[a]])) <= Sum(Costs(v, l))
  {
    hide Pow2;
    var l' := l[a := l[z]][z := l[a]];
    var s: seq<nat>, c: seq<nat> := Shares(v, l, m), Costs(v, l);
    assert Shares(v, l', m) == s[a := s[z]][z := s[a]];
    SumTwo(s, a, z, s[z], s[a]);
    var ca: nat, cz: nat := v[a] * l[z], v[z] * l[a];
    assert Costs(v, l') == c[a := ca][z := cz];
    SumTwo(c, a, z, ca, cz);
    Cheaper(v[a], v[z], l[a], l[z]);
  }

  lemma Cheaper(a: nat, z: nat, la: nat, lz: nat)
    requires a <= z && la <= lz
    ensures a * lz + z * la <= a * la + z * lz
  {
    var d := lz - la;
    assert a * lz == a * la + a * d;
    assert z * lz == z * la + z * d;
    assert a * d <= z * d;
  }

  // ---------------------------------------------------------------- the two least

  /** Two places of greatest length. */
  ghost predicate Twins(v: seq<nat>, l: seq<nat>, p: nat, q: nat)
    requires |l| == |v|
  {
    p != q && Deepest(v, l, p) && q < |v| && v[q] > 0 && l[q] == l[p] && l[p] > 0
  }

  /** Codes can be made cheaper until two have the greatest length. */
  lemma {:induction false} FindTwins(v: seq<nat>, l: seq<nat>, m: nat, a: nat, b: nat)
    returns (l': seq<nat>, p: nat, q: nat)
    requires Code(v, l, m) && a < |v| && b < |v| && a != b && v[a] > 0 && v[b] > 0
    ensures Code(v, l', m) && Sum(Costs(v, l')) <= Sum(Costs(v, l)) && Twins(v, l', p, q)
    decreases Sum(Costs(v, l))
  {
    hide Pow2, Shares, Costs;
    p := SomeDeepest(v, l, |v|, a);
    if y :| 0 <= y < |v| && y != p && v[y] > 0 && l[y] == l[p] {
      l', q := l, y;
      if l[p] == 0 {
        NoRoot(v, l, m, p, q);
      }
    } else {
      var other := if a == p then b else a;
      assert l[other] < l[p];
      Shorten(v, l, m, p);
      l', p, q := FindTwins(v, l[p := l[p] - 1], m, a, b);
    }
  }

  /** A length of zero leaves no room for a second code. */
  lemma NoRoot(v: seq<nat>, l: seq<nat>, m: nat, p: nat, q: nat)
    requires Code(v, l, m) && p < |v| && q < |v| && p != q && v[p] > 0 && v[q] > 0
    ensures l[p] > 0
  {
    hide Pow2;
    SumTwo(Shares(v, l, m), p, q, 0, 0);
  }

  /** The two least weights get the greatest length. */
  lemma PutLeast(v: seq<nat>, l: seq<nat>, m: nat, a: nat, b: nat, p: nat, q: nat) returns (l': seq<nat>)
    requires Code(v, l, m) && Twins(v, l, p, q) && Least(v, a, b)
    ensures Code(v, l', m) && Sum(Costs(v, l')) <= Sum(Costs(v, l))
    ensures 0 < l'[a] == l'[b] <= m
  {
    hide Pow2, Shares, Costs;
    l' := l;
    var z2 := if p == a then q else p;
    if l[a] < l[p] {
      var z := if p != b then p else q;
      z2 := if p != b then q else p;
      Swap(v, l, m, a, z);
      l' := l[a := l[z]][z := l[a]];
    }
    if l'[b] < l[p] {
      assert l'[z2] == l[p];
      Swap(v, l', m, b, z2);
      l' := l'[b := l'[z2]][z2 := l'[b]];
    }
  }

  /** The two least weights. */
  ghost predicate Least(v: seq<nat>, a: nat, b: nat) {
    && a < |v| && b < |v| && a != b && 0 < v[a] <= v[b]
    && forall x :: 0 <= x < |v| && x != a && v[x] > 0 ==> v[b] <= v[x]
  }

  /** The weights after a merge. */
  function MergeWeights(v: seq<nat>, a: nat, b: nat): (r: seq<nat>)
    requires a < |v| && b < |v| && a != b
    ensures |r| == |v| + 1
  {
    v[a := 0][b := 0] + [v[a] + v[b]]
  }

  /** Two codes of one length become one that is a bit shorter: the shares of both together. */
  lemma MergeShares(v: seq<nat>, l: seq<nat>, m: nat, a: nat, b: nat)
    requires Code(v, l, m) && a < |v| && b < |v| && a != b && v[a] > 0 && v[b] > 0 && 0 < l[a] == l[b]
    ensures Sum(Shares(MergeWeights(v, a, b), l + [l[a] - 1], m)) == Sum(Shares(v, l, m))
  {
    hide Pow2;
    var s := Shares(v, l, m);
    Pow2Next(m - l[a]);
    assert m - l[a] + 1 == m - (l[a] - 1);
    var t := Shares(MergeWeights(v, a, b), l + [l[a] - 1], m);
    assert t == s[a := 0][b := 0] + [s[a] + s[b]];
    SumMerge(s, t, a, b, s[a] + s[b]);
  }

  lemma MergeCosts(v: seq<nat>, l: seq<nat>, a: nat, b: nat)
    requires |l| == |v| && a < |v| && b < |v| && a != b && 0 < l[a] == l[b]
    ensures Sum(Costs(MergeWeights(v, a, b), l + [l[a] - 1])) + v[a] + v[b] == Sum(Costs(v, l))
  {
    var c: seq<nat>, last: nat := Costs(v, l), (v[a] + v[b]) * (l[a] - 1);
    assert Costs(MergeWeights(v, a, b), l + [l[a] - 1]) == c[a := 0][b := 0] + [last];
    SumTwo(c, a, b, 0, 0);
    SumSnoc(c[a := 0][b := 0], last);
    Less(v[a], v[b], l[a]);
  }

  lemma MergeCode(v: seq<nat>, l: seq<nat>, m: nat, a: nat, b: nat)
    requires Code(v, l, m) && a < |v| && b < |v| && a != b && v[a] > 0 && v[b] > 0 && 0 < l[a] == l[b]
    ensures Code(MergeWeights(v, a, b), l + [l[a] - 1], m)
    ensures Sum(Costs(MergeWeights(v, a, b), l + [l[a] - 1])) + v[a] + v[b] == Sum(Costs(v, l))
  {
    hide Shares, Costs, Pow2;
    MergeShares(v, l, m, a, b);
    MergeCosts(v, l, a, b);
  }

  lemma Less(x: nat, y: nat, n: nat)
    requires n > 0
    ensures (x + y) * (n - 1) + x + y == x * n + y * n
  {
  }

  /** Whatever the lengths, merging the two least weights costs no more. */
  lemma Exchange(v: seq<nat>, l: seq<nat>, m: nat, a: nat, b: nat) returns (l': seq<nat>)
    requires Code(v, l, m) && Least(v, a, b)
    ensures Code(MergeWeights(v, a, b), l', m)
    ensures Sum(Costs(MergeWeights(v, a, b), l')) + v[a] + v[b] <= Sum(Costs(v, l))
  {
    hide Pow2, Shares, Costs, MergeWeights;
    var l1, p, q := FindTwins(v, l, m, a, b);
    var l2 := PutLeast(v, l1, m, a, b, p, q);
    MergeCode(v, l2, m, a, b);
    l' := l2 + [l2[a] - 1];
  }

  // ---------------------------------------------------------------- over all merges

  /** Every code for the first weights costs at least what was merged and some code for what is
      left. */
  ghost predicate Bound(first: seq<nat>, v: seq<nat>, merged: nat) {
    forall l, m :: Code(first, l, m) ==>
      exists l' :: Code(v, l', m) && Sum(Costs(v, l')) + merged <= Sum(Costs(first, l))
  }

  lemma BoundStarts(v: seq<nat>)
    ensures Bound(v, v, 0)
  {
  }

  lemma BoundStep(first: seq<nat>, v: seq<nat>, merged: nat, a: nat, b: nat)
    requires Bound(first, v, merged) && Least(v, a, b)
    ensures Bound(first, MergeWeights(v, a, b), merged + v[a] + v[b])
  {
    hide Shares, Costs, MergeWeights, Pow2;
    var w := MergeWeights(v, a, b);
    forall l, m | Code(first, l, m)
      ensures exists l' :: Code(w, l', m) && Sum(Costs(w, l')) + merged + v[a] + v[b] <= Sum(Costs(first, l))
    {
      var l1 :| Code(v, l1, m) && Sum(Costs(v, l1)) + merged <= Sum(Costs(first, l));
      var l' := Exchange(v, l1, m, a, b);
    }
  }
}
