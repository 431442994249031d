/** Sums of lists when an element changes, two are merged, or all grow. */
module Sums {
  import opened Common

  lemma {:induction false} SumSnoc(s: seq<nat>, x: nat)
    ensures Sum(s + [x]) == Sum(s) + x
    decreases |s|
  {
    if s == [] {
      assert ([] + [x])[1..] == [];
    } else {
      assert (s + [x])[1..] == s[1..] + [x];
      SumSnoc(s[1..], x);
    }
  }

  lemma {:induction false} SumUpdate(s: seq<nat>, i: nat, v: nat)
    requires i < |s|
    ensures Sum(s[i := v]) == Sum(s) - s[i] + v
    decreases |s|
  {
    if i == 0 {
      assert s[0 := v][1..] == s[1..];
    } else {
      assert s[i := v][1..] == s[1..][i - 1 := v];
      SumUpdate(s[1..], i - 1, v);
    }
  }

  /** Two terms go and their sum comes in at the end. */
  lemma SumMerge(s: seq<nat>, t: seq<nat>, a: nat, b: nat, v: nat)
    requires a < |s| && b < |s| && a != b && t == s[a := 0][b := 0] + [v] && v == s[a] + s[b]
    ensures Sum(t) == Sum(s)
  {
    SumUpdate(s, a, 0);
    SumUpdate(s[a := 0], b, 0);
    SumSnoc(s[a := 0][b := 0], v);
  }

  lemma {:induction false} SumZeros(s: seq<nat>)
    requires forall i :: 0 <= i < |s| ==> s[i] == 0
    ensures Sum(s) == 0
    decreases |s|
  {
    if s != [] {
      SumZeros(s[1..]);
    }
  }

  lemma SumLast(s: seq<nat>, v: nat)
    requires s != [] && s[|s| - 1] == v && forall i :: 0 <= i < |s| - 1 ==> s[i] == 0
    ensures Sum(s) == v
  {
    var front := s[..|s| - 1];
    SumZeros(front);
    SumSnoc(front, v);
    assert s == front + [v];
  }

  lemma {:induction false} SumMono(s: seq<nat>, t: seq<nat>)
    requires |s| == |t| && forall i :: 0 <= i < |s| ==> s[i] <= t[i]
    ensures Sum(s) <= Sum(t)
    ensures (exists i :: 0 <= i < |s| && s[i] < t[i]) ==> Sum(s) < Sum(t)
    decreases |s|
  {
    if s != [] {
      SumMono(s[1..], t[1..]);
      if i :| 0 <= i < |s| && s[i] < t[i] {
        if i > 0 {
          assert s[1..][i - 1] < t[1..][i - 1];
        }
      }
    }
  }

  /** Two terms change. */
  lemma SumTwo(s: seq<nat>, a: nat, b: nat, v: nat, w: nat)
    requires a < |s| && b < |s| && a != b
    ensures s[a] + s[b] <= Sum(s)
    ensures Sum(s[a := v][b := w]) == Sum(s) - s[a] - s[b] + v + w
  {
    SumUpdate(s, a, 0);
    SumUpdate(s[a := 0], b, 0);
    SumUpdate(s, a, v);
    SumUpdate(s[a := v], b, w);
  }

  lemma {:induction false} SumScale(s: seq<nat>, t: seq<nat>, q: nat)
    requires |s| == |t| && forall i :: 0 <= i < |s| ==> s[i] == q * t[i]
    ensures Sum(s) == q * Sum(t)
    decreases |s|
  {
    if s != [] {
      SumScale(s[1..], t[1..], q);
      assert s[0] == q * t[0];
      Distribute(q, t[0], Sum(t[1..]));
    }
  }

  lemma Distribute(q: nat, a: nat, b: nat)
    ensures q * (a + b) == q * a + q * b
  {
  }
}
