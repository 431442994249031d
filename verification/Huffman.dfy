/** Length-limited prefix codes: djw_build_prefix builds a tree bottom up with a heap, reads off
    code lengths, and rescales the frequencies until every length fits. */
module Huffman {
  import opened Common
  import opened BitStream
  import opened Heap
  import opened Sums
  import C = Canonical
  import O = OptimalCode

  function Fib(n: nat): nat {
    if n < 2 then n else Fib(n - 1) + Fib(n - 2)
  }

  lemma {:induction false} FibMono(a: nat, b: nat)
    requires 1 <= a <= b
    ensures Fib(a) <= Fib(b)
    decreases b
  {
    if a < b {
      FibMono(a, b - 1);
    }
  }

  // ---------------------------------------------------------------- the forest

  /** Entries in use: coded symbols 1 to n and the internal nodes after them. */
  predicate InPlay(ents: seq<Ent>, n: nat, x: nat)
    requires x < |ents|
  {
    1 <= x && (x > n || ents[x].freq != 0)
  }

  predicate Root(ents: seq<Ent>, n: nat, x: nat)
    requires x < |ents|
  {
    InPlay(ents, n, x) && ents[x].parent == 0
  }

  /** Every node's parent is a later internal node that has it as one of two children. */
  ghost predicate Forest(ents: seq<Ent>, n: nat, size: nat, kids: seq<(nat, nat)>) {
    && n < size <= |ents| && |kids| == size
    && (forall x :: 1 <= x < size && ents[x].parent != 0 ==>
          InPlay(ents, n, x) && x < ents[x].parent < size && n < ents[x].parent
          && (x == kids[ents[x].parent].0 || x == kids[ents[x].parent].1))
    && (forall k :: n < k < size ==>
          && kids[k].0 != kids[k].1 && 1 <= kids[k].0 < k && 1 <= kids[k].1 < k
          && ents[kids[k].0].parent == k && ents[kids[k].1].parent == k)
  }

  /** Depth counts the longest way down; it falls along every edge. */
  ghost predicate Deep(ents: seq<Ent>, n: nat, size: nat) {
    && size <= |ents|
    && forall x :: 1 <= x < size && ents[x].parent != 0 ==>
         x < ents[x].parent < size && ents[x].depth < ents[ents[x].parent].depth
  }

  /** A node of depth d weighs at least Fib(d + 2).  Merged nodes weigh no more than `last` and
      roots no less, because each merge takes the two least roots. */
  ghost predicate Heavy(ents: seq<Ent>, n: nat, size: nat, last: nat) {
    && size <= |ents|
    && (forall x :: 1 <= x < size && InPlay(ents, n, x) ==> ents[x].freq >= Fib(ents[x].depth + 2))
    && (forall x :: 1 <= x < size && Root(ents, n, x) ==>
          ents[x].freq >= last && (ents[x].depth > 0 ==> last >= Fib(ents[x].depth + 1)))
  }

  /** The weights of the roots, by place. */
  ghost function RootWeights(ents: seq<Ent>, n: nat, size: nat): seq<nat>
    requires size <= |ents|
  {
    seq(size, x requires 0 <= x < size => if Root(ents, n, x) then ents[x].freq else 0)
  }

  /** Two roots become the children of a new one. */
  function Merged(ents: seq<Ent>, size: nat, a: nat, b: nat): (r: seq<Ent>)
    requires size < |ents| && a < size && b < size && a != b
    ensures |r| == |ents|
  {
    var ea, eb := ents[a], ents[b];
    ents[size := Ent(ea.freq + eb.freq, 1 + Max(ea.depth, eb.depth), 0)]
        [a := Ent(ea.freq, ea.depth, size)][b := Ent(eb.freq, eb.depth, size)]
  }

  ghost predicate CanMerge(ents: seq<Ent>, n: nat, size: nat, a: nat, b: nat) {
    n < size < |ents| && 1 <= a < size && 1 <= b < size && a != b && Root(ents, n, a) && Root(ents, n, b)
  }

  lemma MergeKeepsForest(ents: seq<Ent>, n: nat, size: nat, kids: seq<(nat, nat)>, a: nat, b: nat)
    requires Forest(ents, n, size, kids) && CanMerge(ents, n, size, a, b)
    ensures Forest(Merged(ents, size, a, b), n, size + 1, kids + [(a, b)])
  {
    hide Max;
    var r, kids' := Merged(ents, size, a, b), kids + [(a, b)];
    forall x | 1 <= x < size + 1 && r[x].parent != 0
      ensures InPlay(r, n, x) && x < r[x].parent < size + 1 && n < r[x].parent
      ensures x == kids'[r[x].parent].0 || x == kids'[r[x].parent].1
    {
      if x != a && x != b {
        assert r[x] == ents[x];
      }
    }
    forall k | n < k < size + 1
      ensures kids'[k].0 != kids'[k].1 && 1 <= kids'[k].0 < k && 1 <= kids'[k].1 < k
      ensures r[kids'[k].0].parent == k && r[kids'[k].1].parent == k
    {
      if k < size {
        assert kids'[k] == kids[k];
      }
    }
  }

  lemma MergeKeepsDeep(ents: seq<Ent>, n: nat, size: nat, a: nat, b: nat)
    requires Deep(ents, n, size) && CanMerge(ents, n, size, a, b)
    ensures Deep(Merged(ents, size, a, b), n, size + 1)
  {
  }

  lemma MergeRoots(ents: seq<Ent>, n: nat, size: nat, a: nat, b: nat, x: nat)
    requires CanMerge(ents, n, size, a, b) && x <= size
    ensures Root(Merged(ents, size, a, b), n, x) <==> x == size || (Root(ents, n, x) && x != a && x != b)
  {
  }

  /** a and b are least, so every root that remains weighs at least as much as b. */
  lemma MergeKeepsHeavy(ents: seq<Ent>, n: nat, size: nat, last: nat, a: nat, b: nat)
    requires Heavy(ents, n, size, last) && CanMerge(ents, n, size, a, b) && ents[a].freq <= ents[b].freq
    requires forall x :: 1 <= x < size && Root(ents, n, x) && x != a ==> ents[b].freq <= ents[x].freq
    ensures Heavy(Merged(ents, size, a, b), n, size + 1, ents[b].freq)
  {
    hide Fib;
    var r := Merged(ents, size, a, b);
    var d := Max(ents[a].depth, ents[b].depth);
    FibStep(d + 1);
    NewRootHeavy(ents, n, size, last, a, b);
    forall x | 1 <= x < size + 1 && Root(r, n, x)
      ensures r[x].freq >= ents[b].freq && (r[x].depth > 0 ==> ents[b].freq >= Fib(r[x].depth + 1))
    {
      MergeRoots(ents, n, size, a, b, x);
    }
  }

  lemma FibStep(n: nat)
    ensures Fib(n + 2) == Fib(n + 1) + Fib(n) && Fib(1) == 1
  {
  }

  lemma NewRootHeavy(ents: seq<Ent>, n: nat, size: nat, last: nat, a: nat, b: nat)
    requires Heavy(ents, n, size, last) && CanMerge(ents, n, size, a, b) && ents[a].freq <= ents[b].freq
    ensures var d := Max(ents[a].depth, ents[b].depth);
            ents[a].freq + ents[b].freq >= Fib(d + 3) && ents[b].freq >= Fib(d + 2)
  {
    hide Fib;
    var d := Max(ents[a].depth, ents[b].depth);
    FibStep(d + 1);
    FibStep(d);
    assert ents[a].freq >= last && ents[b].freq >= last;
  }

  lemma MergeKeepsWeight(ents: seq<Ent>, n: nat, size: nat, a: nat, b: nat)
    requires CanMerge(ents, n, size, a, b)
    ensures Sum(RootWeights(Merged(ents, size, a, b), n, size + 1)) == Sum(RootWeights(ents, n, size))
  {
    var s, t := RootWeights(ents, n, size), RootWeights(Merged(ents, size, a, b), n, size + 1);
    var v := ents[a].freq + ents[b].freq;
    forall x | 0 <= x <= size ensures t[x] == (s[a := 0][b := 0] + [v])[x] {
      MergeRoots(ents, n, size, a, b, x);
    }
    assert t == s[a := 0][b := 0] + [v];
    SumMerge(s, t, a, b, v);
  }

  // ---------------------------------------------------------------- code lengths

  /** Counting parents. */
  ghost function Steps(ents: seq<Ent>, n: nat, size: nat, x: nat): nat
    requires Deep(ents, n, size) && 1 <= x < size
    decreases size - x
  {
    if ents[x].parent == 0 then 0 else 1 + Steps(ents, n, size, ents[x].parent)
  }

  /** The last node is the only root. */
  ghost predicate Tree(ents: seq<Ent>, n: nat, size: nat) {
    && n + 1 < size <= |ents|
    && forall x :: 1 <= x < size ==> (Root(ents, n, x) <==> x == size - 1)
  }

  /** No way up is longer than the depth of the root. */
  lemma {:induction false} StepsBound(ents: seq<Ent>, n: nat, size: nat, kids: seq<(nat, nat)>, x: nat)
    requires Forest(ents, n, size, kids) && Deep(ents, n, size) && Tree(ents, n, size) && 1 <= x < size
             && InPlay(ents, n, x)
    ensures Steps(ents, n, size, x) + ents[x].depth <= ents[size - 1].depth
    decreases size - x
  {
    if ents[x].parent != 0 {
      StepsBound(ents, n, size, kids, ents[x].parent);
    } else {
      assert Root(ents, n, x);
    }
  }

  /** The cut below k: the values of the nodes before k whose parent is not. */
  ghost function Cut(ents: seq<Ent>, n: nat, vals: seq<nat>, k: nat): (r: seq<nat>)
    requires k <= |vals| <= |ents|
    ensures |r| == k
  {
    seq(k, x requires 0 <= x < k =>
      if InPlay(ents, n, x) && (ents[x].parent == 0 || ents[x].parent >= k) then vals[x] else 0)
  }

  /** Each node's share is 2^(m - steps). */
  ghost function AllShares(ents: seq<Ent>, n: nat, size: nat, m: nat): (r: seq<nat>)
    requires Deep(ents, n, size)
    ensures |r| == size
  {
    seq(size, x requires 0 <= x < size => Share(ents, n, size, m, x))
  }

  ghost function Share(ents: seq<Ent>, n: nat, size: nat, m: nat, x: nat): nat
    requires Deep(ents, n, size) && x < size
  {
    if x == 0 || Steps(ents, n, size, x) > m then 0 else Pow2(m - Steps(ents, n, size, x))
  }

  lemma ShareHalves(ents: seq<Ent>, n: nat, size: nat, m: nat, x: nat)
    requires Deep(ents, n, size) && 1 <= x < size && ents[x].parent != 0 && Steps(ents, n, size, x) <= m
    ensures Share(ents, n, size, m, ents[x].parent) == 2 * Share(ents, n, size, m, x)
  {
  }

  /** Lowering the cut past an internal node puts its two children in its place. */
  lemma CutTerms(ents: seq<Ent>, n: nat, size: nat, kids: seq<(nat, nat)>, vals: seq<nat>, k: nat)
    requires Forest(ents, n, size, kids) && n < k < size == |vals|
    ensures var (a, b) := kids[k];
            var s := Cut(ents, n, vals, k);
            && Cut(ents, n, vals, k + 1) == s[a := 0][b := 0] + [vals[k]] && s[a] == vals[a] && s[b] == vals[b]
  {
    var (a, b) := kids[k];
    var s, t := Cut(ents, n, vals, k), Cut(ents, n, vals, k + 1);
    var u := s[a := 0][b := 0] + [vals[k]];
    forall x | 0 <= x <= k ensures t[x] == u[x] {
      if 0 < x < k && x != a && x != b {
        assert ents[x].parent != k;
      }
    }
  }

  lemma CutStep(ents: seq<Ent>, n: nat, size: nat, kids: seq<(nat, nat)>, m: nat, k: nat)
    requires Forest(ents, n, size, kids) && Deep(ents, n, size) && Tree(ents, n, size) && n < k < size
    requires m >= ents[size - 1].depth
    ensures var vals := AllShares(ents, n, size, m);
            Sum(Cut(ents, n, vals, k + 1)) == Sum(Cut(ents, n, vals, k))
  {
    var vals := AllShares(ents, n, size, m);
    var (a, b) := kids[k];
    StepsBound(ents, n, size, kids, a);
    StepsBound(ents, n, size, kids, b);
    ShareHalves(ents, n, size, m, a);
    ShareHalves(ents, n, size, m, b);
    CutTerms(ents, n, size, kids, vals, k);
    SumMerge(Cut(ents, n, vals, k), Cut(ents, n, vals, k + 1), a, b, vals[k]);
  }

  /** All cuts weigh the same: 2^m, the share of the root. */
  lemma {:induction false} CutSum(ents: seq<Ent>, n: nat, size: nat, kids: seq<(nat, nat)>, m: nat, k: nat)
    requires Forest(ents, n, size, kids) && Deep(ents, n, size) && Tree(ents, n, size) && n < k <= size
    requires m >= ents[size - 1].depth
    ensures Sum(Cut(ents, n, AllShares(ents, n, size, m), k)) == Pow2(m)
    decreases size - k
  {
    hide Forest, Deep;
    if k < size {
      CutSum(ents, n, size, kids, m, k + 1);
      CutStep(ents, n, size, kids, m, k);
    } else {
      RootCut(ents, n, size, kids, m);
    }
  }

  lemma RootCut(ents: seq<Ent>, n: nat, size: nat, kids: seq<(nat, nat)>, m: nat)
    requires Forest(ents, n, size, kids) && Deep(ents, n, size) && Tree(ents, n, size)
    ensures Sum(Cut(ents, n, AllShares(ents, n, size, m), size)) == Pow2(m)
  {
    var s := Cut(ents, n, AllShares(ents, n, size, m), size);
    assert Root(ents, n, size - 1);
    forall x | 0 <= x < size - 1 ensures s[x] == 0 {
      if x > 0 {
        assert !Root(ents, n, x);
      }
    }
    SumLast(s, Pow2(m));
  }

  ghost predicate Built(ents: seq<Ent>, n: nat, size: nat, kids: seq<(nat, nat)>) {
    Forest(ents, n, size, kids) && Deep(ents, n, size) && Tree(ents, n, size)
  }

  /** The length of each symbol's code. */
  ghost function Lengths(ents: seq<Ent>, n: nat, size: nat): (r: seq<nat>)
    requires Deep(ents, n, size) && n < size
    ensures |r| == n
  {
    seq(n, i requires 0 <= i < n => if ents[i + 1].freq != 0 then Steps(ents, n, size, i + 1) else 0)
  }

  /** A coded symbol is below the root, so its length is not zero. */
  lemma LengthFacts(ents: seq<Ent>, n: nat, size: nat, kids: seq<(nat, nat)>, i: nat)
    requires Built(ents, n, size, kids) && i < n
    ensures var l := Lengths(ents, n, size)[i];
            (l > 0 <==> ents[i + 1].freq != 0) && l <= ents[size - 1].depth
  {
    if ents[i + 1].freq != 0 {
      assert !Root(ents, n, i + 1);
      StepsBound(ents, n, size, kids, i + 1);
    }
  }

  /** The Kraft sum adds up a share for each length. */
  lemma {:induction false} KraftIsShares(clen: seq<nat>, shares: seq<nat>, m: nat, i: nat)
    requires |shares| == |clen| + 1 && shares[0] == 0 && i <= |clen|
    requires forall x :: 1 <= x <= |clen| ==> shares[x] == ShareOf(clen[x - 1], m)
    ensures C.KraftSum(clen[..i], m) == Sum(shares[..i + 1])
    decreases i
  {
    if i == 0 {
      SumZeros(shares[..1]);
    } else {
      hide Sum, Pow2;
      KraftIsShares(clen, shares, m, i - 1);
      assert clen[..i][..i - 1] == clen[..i - 1] && shares[..i + 1] == shares[..i] + [shares[i]];
      SumSnoc(shares[..i], shares[i]);
    }
  }

  function ShareOf(l: nat, m: nat): nat {
    if 0 < l <= m then Pow2(m - l) else 0
  }

  lemma KraftIsCut(ents: seq<Ent>, n: nat, size: nat, kids: seq<(nat, nat)>, m: nat)
    requires Built(ents, n, size, kids) && m >= ents[size - 1].depth
    ensures C.KraftSum(Lengths(ents, n, size), m) == Sum(Cut(ents, n, AllShares(ents, n, size, m), n + 1))
  {
    hide Forest, Deep, Sum, C.KraftSum, Pow2;
    var clen, cut := Lengths(ents, n, size), Cut(ents, n, AllShares(ents, n, size, m), n + 1);
    hide Lengths, Cut;
    CutStartsEmpty(ents, n, size, m);
    forall x | 1 <= x <= n ensures cut[x] == ShareOf(clen[x - 1], m) {
      LeafShare(ents, n, size, kids, m, x);
    }
    KraftIsShares(clen, cut, m, n);
    assert clen[..n] == clen && cut[..n + 1] == cut;
  }

  lemma CutStartsEmpty(ents: seq<Ent>, n: nat, size: nat, m: nat)
    requires Deep(ents, n, size) && n < size
    ensures Cut(ents, n, AllShares(ents, n, size, m), n + 1)[0] == 0
  {
  }

  lemma LeafShare(ents: seq<Ent>, n: nat, size: nat, kids: seq<(nat, nat)>, m: nat, x: nat)
    requires Built(ents, n, size, kids) && m >= ents[size - 1].depth && 1 <= x <= n
    ensures var l := Lengths(ents, n, size)[x - 1];
            Cut(ents, n, AllShares(ents, n, size, m), n + 1)[x] == ShareOf(l, m)
  {
    hide Steps, Pow2, Forest, Deep, Tree, Cut;
    LengthFacts(ents, n, size, kids, x - 1);
    LeafCut(ents, n, size, kids, AllShares(ents, n, size, m), x);
  }

  /** At the leaves the cut has all of the coded ones. */
  lemma LeafCut(ents: seq<Ent>, n: nat, size: nat, kids: seq<(nat, nat)>, vals: seq<nat>, x: nat)
    requires Built(ents, n, size, kids) && 1 <= x <= n && |vals| == size
    ensures n + 1 < size
    ensures Cut(ents, n, vals, n + 1)[x] == if ents[x].freq != 0 then vals[x] else 0
  {
    LeafParent(ents, n, size, kids, x);
    hide Forest, Deep, Tree;
  }

  /** A leaf's parent is an internal node. */
  lemma LeafParent(ents: seq<Ent>, n: nat, size: nat, kids: seq<(nat, nat)>, x: nat)
    requires Built(ents, n, size, kids) && 1 <= x <= n
    ensures ents[x].parent == 0 || ents[x].parent >= n + 1
  {
  }

  lemma {:induction false} KraftScale(clen: seq<nat>, m: nat, big: nat)
    requires C.Bounded(clen, m) && m <= big
    ensures C.KraftSum(clen, big) == C.KraftSum(clen, m) * Pow2(big - m)
    decreases |clen|
  {
    if clen != [] {
      var front, c := clen[..|clen| - 1], clen[|clen| - 1];
      KraftScale(front, m, big);
      if c > 0 {
        Pow2Add(m - c, big - m);
        assert m - c + (big - m) == big - c;
        Distribute(C.KraftSum(front, m), Pow2(m - c), Pow2(big - m));
      }
    }
  }

  lemma Distribute(a: nat, b: nat, p: nat)
    ensures (a + b) * p == a * p + b * p
  {
  }

  lemma CancelRight(a: nat, b: nat, p: nat)
    requires p > 0 && a * p == b * p
    ensures a == b
  {
    if a < b {
      MulStep(p, a, b);
    } else if b < a {
      MulStep(p, b, a);
    }
  }

  /** Lengths read off a tree have a Kraft sum of exactly one. */
  lemma KraftIsOne(ents: seq<Ent>, n: nat, size: nat, kids: seq<(nat, nat)>, m: nat)
    requires Built(ents, n, size, kids) && C.Bounded(Lengths(ents, n, size), m)
    ensures C.KraftSum(Lengths(ents, n, size), m) == Pow2(m)
  {
    hide C.Bounded, C.KraftSum, Cut, Lengths, Pow2;
    var clen, big := Lengths(ents, n, size), Max(m, ents[size - 1].depth);
    KraftIsCut(ents, n, size, kids, big);
    CutSum(ents, n, size, kids, big, n + 1);
    KraftScale(clen, m, big);
    Pow2Add(m, big - m);
    assert m + (big - m) == big;
    CancelRight(C.KraftSum(clen, m), Pow2(m), Pow2(big - m));
  }

  /** The weight of the only root is the weight of all symbols. */
  lemma RootWeight(ents: seq<Ent>, n: nat, size: nat)
    requires Tree(ents, n, size)
    ensures Sum(RootWeights(ents, n, size)) == ents[size - 1].freq
  {
    var s := RootWeights(ents, n, size);
    assert Root(ents, n, size - 1);
    forall x | 0 <= x < size - 1 ensures s[x] == 0 {
      if x > 0 {
        assert !Root(ents, n, x);
      }
    }
    SumLast(s, ents[size - 1].freq);
  }

  /** A length beyond maxlen needs a total weight of Fib(maxlen + 3). */
  lemma LongNeedsWeight(ents: seq<Ent>, n: nat, size: nat, kids: seq<(nat, nat)>, last: nat, maxlen: nat, i: nat)
    requires Built(ents, n, size, kids) && Heavy(ents, n, size, last)
    requires i < n && Lengths(ents, n, size)[i] > maxlen
    ensures Sum(RootWeights(ents, n, size)) >= Fib(maxlen + 3)
  {
    hide Fib, Lengths;
    LengthFacts(ents, n, size, kids, i);
    RootWeight(ents, n, size);
    assert Root(ents, n, size - 1);
    FibMono(maxlen + 3, ents[size - 1].depth + 2);
  }

  // ---------------------------------------------------------------- djw_build_prefix

  ghost function Weights(ents: seq<Ent>, n: nat): (w: seq<nat>)
    requires n < |ents|
    ensures |w| == n
  {
    seq(n, i requires 0 <= i < n => ents[i + 1].freq)
  }

  ghost function Roots(ents: seq<Ent>, n: nat, size: nat): set<nat>
    requires size <= |ents|
  {
    set x: nat | 1 <= x < size && Root(ents, n, x)
  }

  /** The heap holds each root once. */
  ghost predicate HoldsRoots(heap: seq<nat>, ents: seq<Ent>, n: nat, size: nat, last: nat) {
    && IsHeap(heap, ents, last) && size <= |ents|
    && Contents(heap, last) == multiset(Roots(ents, n, size))
  }

  /** Symbols up to k start a pass without parent and depth. */
  ghost predicate Plain(ents: seq<Ent>, k: nat) {
    k < |ents| && forall x :: 1 <= x <= k ==> ents[x].depth == 0 && ents[x].parent == 0
  }

  /** A heap looks only at the frequency and depth of its entries. */
  lemma HeapFrame(heap: seq<nat>, e1: seq<Ent>, e2: seq<Ent>, last: nat)
    requires IsHeap(heap, e1, last) && |e1| == |e2|
    requires forall j :: 0 <= j <= last ==>
               e2[heap[j]].freq == e1[heap[j]].freq && e2[heap[j]].depth == e1[heap[j]].depth
    ensures IsHeap(heap, e2, last)
  {
  }

  lemma InContents(heap: seq<nat>, last: nat, j: nat)
    requires 1 <= j <= last < |heap|
    ensures heap[j] in Contents(heap, last)
  {
    assert heap[j] == heap[1..last + 1][j - 1];
  }

  lemma HeapSize(heap: seq<nat>, ents: seq<Ent>, n: nat, size: nat, last: nat)
    requires HoldsRoots(heap, ents, n, size, last)
    ensures last == |Roots(ents, n, size)|
  {
    assert |Contents(heap, last)| == last;
  }

  /** The loop "Initial heap." */
  method InitialHeap(heap: array<nat>, ents: array<Ent>, n: nat) returns (last: nat)
    requires n >= 2 && heap.Length == n + 1 && ents.Length == 2 * n
    modifies heap, ents
    ensures last <= n && Plain(ents[..], n) && Weights(ents[..], n) == old(Weights(ents[..], n))
    ensures HoldsRoots(heap[..], ents[..], n, n + 1, last)
  {
    hide Contents, Ordered, Less, IsHeap, HoldsRoots;
    last := 0;
    heap[0], ents[0] := 0, Ent(0, 0, 0);
    var size := 1;
    HeapStarts(heap[..], ents[..], n);
    while size <= n
      invariant 1 <= size <= n + 1 && last < size && Plain(ents[..], size - 1)
      invariant forall x :: 1 <= x < ents.Length ==> ents[x].freq == old(ents[x].freq)
      invariant HoldsRoots(heap[..], ents[..], n, size, last)
    {
      HeapReset(heap[..], ents[..], n, size, last);
      ents[size] := Ent(ents[size].freq, 0, 0);
      last := EnterSymbol(heap, ents[..], n, size, last);
      size := size + 1;
    }
  }

  /** One symbol, which enters the heap if it has a frequency. */
  method EnterSymbol(heap: array<nat>, ents: seq<Ent>, n: nat, size: nat, last0: nat) returns (last: nat)
    requires 1 <= size <= n && heap.Length == n + 1 && size < |ents| && last0 < size && ents[size].parent == 0
    requires HoldsRoots(heap[..], ents, n, size, last0)
    modifies heap
    ensures last <= size && HoldsRoots(heap[..], ents, n, size + 1, last)
  {
    hide Contents, Ordered, Less, IsHeap, Roots, HoldsRoots;
    last := last0;
    RootsGrow(ents, n, size);
    if ents[size].freq != 0 {
      HoldsHeap(heap[..], ents, n, size, last);
      ghost var before := heap[..];
      last := last + 1;
      HeapInsert(heap, ents, last, size);
      RootInserted(before, heap[..], ents, n, size, last);
    } else {
      RootSkipped(heap[..], ents, n, size, last);
    }
  }

  lemma HoldsHeap(heap: seq<nat>, ents: seq<Ent>, n: nat, size: nat, last: nat)
    requires HoldsRoots(heap, ents, n, size, last)
    ensures IsHeap(heap, ents, last)
  {
  }

  lemma RootInserted(before: seq<nat>, heap: seq<nat>, ents: seq<Ent>, n: nat, size: nat, last: nat)
    requires last > 0 && HoldsRoots(before, ents, n, size, last - 1) && size < |ents| && IsHeap(heap, ents, last)
    requires Contents(heap, last) == Contents(before, last - 1) + multiset{size}
    requires Roots(ents, n, size + 1) == Roots(ents, n, size) + {size}
    ensures HoldsRoots(heap, ents, n, size + 1, last)
  {
    hide Contents, IsHeap;
    assert size !in Roots(ents, n, size);
    assert multiset(Roots(ents, n, size) + {size}) == multiset(Roots(ents, n, size)) + multiset{size};
  }

  lemma RootSkipped(heap: seq<nat>, ents: seq<Ent>, n: nat, size: nat, last: nat)
    requires HoldsRoots(heap, ents, n, size, last) && size < |ents| && Roots(ents, n, size + 1) == Roots(ents, n, size)
    ensures HoldsRoots(heap, ents, n, size + 1, last)
  {
    hide Contents, IsHeap, Roots;
  }

  lemma HeapStarts(heap: seq<nat>, ents: seq<Ent>, n: nat)
    requires heap != [] && ents != [] && heap[0] == 0 && ents[0] == Ent(0, 0, 0)
    ensures HoldsRoots(heap, ents, n, 1, 0)
  {
  }

  lemma HeapReset(heap: seq<nat>, ents: seq<Ent>, n: nat, size: nat, last: nat)
    requires HoldsRoots(heap, ents, n, size, last) && 1 <= size < |ents|
    ensures HoldsRoots(heap, ents[size := Ent(ents[size].freq, 0, 0)], n, size, last)
  {
    var e := ents[size := Ent(ents[size].freq, 0, 0)];
    forall j | 0 <= j <= last ensures e[heap[j]] == ents[heap[j]] {
      if j > 0 {
        InContents(heap, last, j);
      }
    }
    HeapFrame(heap, ents, e, last);
    assert Roots(e, n, size) == Roots(ents, n, size);
  }

  lemma RootsGrow(ents: seq<Ent>, n: nat, size: nat)
    requires 1 <= size < |ents| && size <= n && ents[size].parent == 0
    ensures Roots(ents, n, size + 1)
            == if ents[size].freq != 0 then Roots(ents, n, size) + {size} else Roots(ents, n, size)
  {
  }

  /** The two extracted entries are different roots. */
  lemma PairOfRoots(ents: seq<Ent>, n: nat, size: nat, a: nat, b: nat)
    requires n < size < |ents| && a in multiset(Roots(ents, n, size))
             && b in multiset(Roots(ents, n, size)) - multiset{a}
    ensures CanMerge(ents, n, size, a, b)
    ensures forall x :: x in Roots(ents, n, size) && x != a ==> x in multiset(Roots(ents, n, size)) - multiset{a}
  {
  }

  /** The roots once the pair is merged, and the heap between extraction and insertion. */
  lemma MergeInHeap(heap: seq<nat>, ents: seq<Ent>, n: nat, size: nat, last: nat, a: nat, b: nat)
    requires CanMerge(ents, n, size, a, b) && IsHeap(heap, ents, last)
    requires Contents(heap, last) == multiset(Roots(ents, n, size)) - multiset{a} - multiset{b}
    ensures IsHeap(heap, Merged(ents, size, a, b), last)
    ensures Contents(heap, last) + multiset{size} == multiset(Roots(Merged(ents, size, a, b), n, size + 1))
  {
    hide Contents, Ordered;
    var r, before := Merged(ents, size, a, b), Roots(ents, n, size);
    forall j | 0 <= j <= last ensures r[heap[j]].freq == ents[heap[j]].freq && r[heap[j]].depth == ents[heap[j]].depth {
      if j > 0 {
        InContents(heap, last, j);
        assert heap[j] in before;
      }
    }
    HeapFrame(heap, ents, r, last);
    forall x: nat | x <= size ensures Root(r, n, x) <==> x == size || (Root(ents, n, x) && x != a && x != b) {
      MergeRoots(ents, n, size, a, b, x);
    }
    assert Roots(r, n, size + 1) == before - {a, b} + {size};
  }

  /** One round of the loop "Build prefix tree.": the two least roots are merged. */
  method MergePair(heap: array<nat>, ents: array<Ent>, n: nat, size: nat, heapLast: nat) returns (h1: nat, h2: nat)
    requires heapLast < heap.Length && n < size < ents.Length && heapLast >= 2
    requires HoldsRoots(heap[..], ents[..], n, size, heapLast)
    modifies heap, ents
    ensures HoldsRoots(heap[..], ents[..], n, size + 1, heapLast - 1)
    ensures LeastPair(old(ents[..]), n, size, h1, h2) && CanMerge(old(ents[..]), n, size, h1, h2)
    ensures ents[..] == Merged(old(ents[..]), size, h1, h2)
  {
    hide Contents, Ordered;
    ghost var was, roots := ents[..], Roots(ents[..], n, size);
    var last := heapLast - 1;
    h1 := HeapExtract(heap, ents[..], last);
    last := last - 1;
    h2 := HeapExtract(heap, ents[..], last);
    PairOfRoots(was, n, size, h1, h2);
    assert LeastPair(was, n, size, h1, h2) by {
      forall x | 1 <= x < size && Root(was, n, x) && x != h1 ensures was[h2].freq <= was[x].freq {
        assert x in roots;
      }
    }
    hide Root, Roots;
    MergeInHeap(heap[..], was, n, size, last, h1, h2);
    ents[size] := Ent(ents[h1].freq + ents[h2].freq, 1 + Max(ents[h1].depth, ents[h2].depth), 0);
    ents[h1] := Ent(ents[h1].freq, ents[h1].depth, size);
    ents[h2] := Ent(ents[h2].freq, ents[h2].depth, size);
    assert ents[..] == Merged(was, size, h1, h2);
    last := last + 1;
    HeapInsert(heap, ents[..], last, size);
  }

  /** Two roots, the first no heavier than the second and no other root lighter than that. */
  ghost predicate LeastPair(ents: seq<Ent>, n: nat, size: nat, a: nat, b: nat) {
    && CanMerge(ents, n, size, a, b) && ents[a].freq <= ents[b].freq
    && forall x :: 1 <= x < size && Root(ents, n, x) && x != a ==> ents[b].freq <= ents[x].freq
  }

  /** What every merge keeps. */
  ghost predicate Growing(ents: seq<Ent>, n: nat, size: nat, kids: seq<(nat, nat)>, bound: nat, total: nat) {
    && Forest(ents, n, size, kids) && Deep(ents, n, size) && Heavy(ents, n, size, bound)
    && Sum(RootWeights(ents, n, size)) == total
  }

  lemma MergeGrows(ents: seq<Ent>, n: nat, size: nat, kids: seq<(nat, nat)>, bound: nat, total: nat, a: nat, b: nat)
    requires Growing(ents, n, size, kids, bound, total) && LeastPair(ents, n, size, a, b)
    ensures Growing(Merged(ents, size, a, b), n, size + 1, kids + [(a, b)], ents[b].freq, total)
    ensures forall x :: 0 <= x < size ==> Merged(ents, size, a, b)[x].freq == ents[x].freq
  {
    hide Forest, Deep, Heavy, RootWeights;
    MergeKeepsForest(ents, n, size, kids, a, b);
    MergeKeepsDeep(ents, n, size, a, b);
    MergeKeepsHeavy(ents, n, size, bound, a, b);
    MergeKeepsWeight(ents, n, size, a, b);
  }

  /** The loop "Build prefix tree." */
  method BuildTree(heap: array<nat>, ents: array<Ent>, n: nat, heapLast: nat)
    returns (size: nat, ghost kids: seq<(nat, nat)>, ghost bound: nat)
    requires n >= 2 && heap.Length == n + 1 && ents.Length == 2 * n && 2 <= heapLast <= n
    requires Plain(ents[..], n) && HoldsRoots(heap[..], ents[..], n, n + 1, heapLast)
    modifies heap, ents
    ensures Weights(ents[..], n) == old(Weights(ents[..], n))
    ensures n + 1 < size <= ents.Length && Tree(ents[..], n, size)
    ensures Growing(ents[..], n, size, kids, bound, Sum(Weights(ents[..], n)))
    ensures Best(ents[..], n, size, kids, Weights(ents[..], n))
  {
    hide HoldsRoots, Growing, Merged, Roots, Root, Sum, Best, LeastPair;
    ForestStarts(ents[..], n);
    BestStarts(ents[..], n);
    size, kids, bound := n + 1, Repeat((0, 0), n + 1), 0;
    var last := heapLast;
    ghost var w := Weights(ents[..], n);
    ghost var total := Sum(w);
    while last > 1
      invariant size + last == n + 1 + heapLast && 1 <= last
      invariant HoldsRoots(heap[..], ents[..], n, size, last)
      invariant Growing(ents[..], n, size, kids, bound, total) && Best(ents[..], n, size, kids, w)
      invariant forall x :: 1 <= x <= n ==> ents[x].freq == old(ents[x].freq)
    {
      ghost var was := ents[..];
      var h1, h2 := MergePair(heap, ents, n, size, last);
      MergeGrows(was, n, size, kids, bound, total, h1, h2);
      BestGrows(was, n, size, kids, bound, total, w, h1, h2);
      assert forall x :: 1 <= x <= n ==> ents[x].freq == was[x].freq by {
        assert forall x :: 0 <= x < size ==> ents[..][x].freq == was[x].freq;
      }
      kids, bound := kids + [(h1, h2)], was[h2].freq;
      last, size := last - 1, size + 1;
    }
    assert Weights(ents[..], n) == old(Weights(ents[..], n));
    HeapSize(heap[..], ents[..], n, size, last);
    OneRoot(ents[..], n, size, kids, bound, total);
  }

  lemma BestGrows(ents: seq<Ent>, n: nat, size: nat, kids: seq<(nat, nat)>, bound: nat, total: nat, w: seq<nat>,
                  a: nat, b: nat)
    requires Growing(ents, n, size, kids, bound, total) && Best(ents, n, size, kids, w)
    requires LeastPair(ents, n, size, a, b)
    ensures Best(Merged(ents, size, a, b), n, size + 1, kids + [(a, b)], w)
  {
    hide Best, Heavy, Forest, Deep;
    MergeKeepsBest(ents, n, size, kids, bound, w, a, b);
  }

  lemma ForestStarts(ents: seq<Ent>, n: nat)
    requires Plain(ents, n)
    ensures Growing(ents, n, n + 1, Repeat((0, 0), n + 1), 0, Sum(Weights(ents, n)))
  {
    hide Heavy, Fib;
    assert RootWeights(ents, n, n + 1)[1..] == Weights(ents, n);
    PlainHeavy(ents, n);
  }

  lemma PlainHeavy(ents: seq<Ent>, n: nat)
    requires Plain(ents, n)
    ensures Heavy(ents, n, n + 1, 0)
  {
    assert Fib(2) == 1;
  }

  lemma OneRoot(ents: seq<Ent>, n: nat, size: nat, kids: seq<(nat, nat)>, bound: nat, total: nat)
    requires Growing(ents, n, size, kids, bound, total) && n + 1 < size && |Roots(ents, n, size)| == 1
    ensures Tree(ents, n, size)
  {
    assert Root(ents, n, size - 1);
    var roots := Roots(ents, n, size);
    assert size - 1 in roots;
    assert |roots - {size - 1}| == 0;
    forall x | 1 <= x < size ensures Root(ents, n, x) <==> x == size - 1 {
      assert x !in roots - {size - 1};
    }
  }

  // ---------------------------------------------------------------- the cost of a tree

  /** The bits that symbols with these frequencies and lengths take. */
  function Cost(clen: seq<nat>, freq: seq<nat>): nat
    requires |clen| == |freq|
  {
    if clen == [] then 0
    else
      var k := |clen| - 1;
      Cost(clen[..k], freq[..k]) + clen[k] * freq[k]
  }

  /** Internal nodes weigh as much as their children. */
  ghost predicate Weighed(ents: seq<Ent>, n: nat, size: nat, kids: seq<(nat, nat)>) {
    && size <= |ents| && |kids| == size
    && forall k :: n < k < size ==>
         && kids[k].0 < k && kids[k].1 < k
         && ents[k].freq == ents[kids[k].0].freq + ents[kids[k].1].freq
  }

  /** What was merged: the weights of the internal nodes. */
  ghost function Inner(ents: seq<Ent>, n: nat, size: nat): nat
    requires size <= |ents|
  {
    if size <= n + 1 then 0 else Inner(ents, n, size - 1) + ents[size - 1].freq
  }

  lemma {:induction false} InnerSame(ents: seq<Ent>, other: seq<Ent>, n: nat, size: nat)
    requires size <= |ents| && size <= |other| && forall x :: 0 <= x < size ==> ents[x].freq == other[x].freq
    ensures Inner(ents, n, size) == Inner(other, n, size)
    decreases size
  {
    if size > n + 1 {
      InnerSame(ents, other, n, size - 1);
    }
  }

  /** Each node's weight, as often as it has parents above it. */
  ghost function AllCosts(ents: seq<Ent>, n: nat, size: nat): (r: seq<nat>)
    requires Deep(ents, n, size)
    ensures |r| == size
  {
    seq(size, x requires 0 <= x < size => if x == 0 then 0 else ents[x].freq * Steps(ents, n, size, x))
  }

  /** Lowering the cut past an internal node adds its weight. */
  lemma CostStep(ents: seq<Ent>, n: nat, size: nat, kids: seq<(nat, nat)>, k: nat)
    requires Forest(ents, n, size, kids) && Deep(ents, n, size) && Weighed(ents, n, size, kids) && n < k < size
    ensures var vals := AllCosts(ents, n, size);
            Sum(Cut(ents, n, vals, k)) == Sum(Cut(ents, n, vals, k + 1)) + ents[k].freq
  {
    var vals := AllCosts(ents, n, size);
    var (a, b) := kids[k];
    var s := Cut(ents, n, vals, k);
    CutTerms(ents, n, size, kids, vals, k);
    ChildCosts(ents, n, size, kids, k);
    SumTwo(s, a, b, 0, 0);
    SumSnoc(s[a := 0][b := 0], vals[k]);
  }

  lemma ChildCosts(ents: seq<Ent>, n: nat, size: nat, kids: seq<(nat, nat)>, k: nat)
    requires Forest(ents, n, size, kids) && Deep(ents, n, size) && Weighed(ents, n, size, kids) && n < k < size
    ensures var vals := AllCosts(ents, n, size);
            vals[kids[k].0] + vals[kids[k].1] == vals[k] + ents[k].freq
  {
    var (a, b) := kids[k];
    var steps := Steps(ents, n, size, k);
    assert Steps(ents, n, size, a) == Steps(ents, n, size, b) == steps + 1;
    TwoTimes(ents[a].freq, ents[b].freq, steps);
  }

  lemma TwoTimes(x: nat, y: nat, n: nat)
    ensures x * (n + 1) + y * (n + 1) == (x + y) * n + (x + y)
  {
  }

  lemma {:induction false} CostCut(ents: seq<Ent>, n: nat, size: nat, kids: seq<(nat, nat)>, k: nat)
    requires Built(ents, n, size, kids) && Weighed(ents, n, size, kids) && n < k <= size
    ensures Sum(Cut(ents, n, AllCosts(ents, n, size), k)) + Inner(ents, n, k) == Inner(ents, n, size)
    decreases size - k
  {
    hide Forest, Deep, Weighed, Cut;
    if k < size {
      CostCut(ents, n, size, kids, k + 1);
      CostStep(ents, n, size, kids, k);
    } else {
      RootCost(ents, n, size, kids);
    }
  }

  /** The root has no parents. */
  lemma RootCost(ents: seq<Ent>, n: nat, size: nat, kids: seq<(nat, nat)>)
    requires Built(ents, n, size, kids)
    ensures Sum(Cut(ents, n, AllCosts(ents, n, size), size)) == 0
  {
    var s := Cut(ents, n, AllCosts(ents, n, size), size);
    assert Root(ents, n, size - 1);
    forall x | 0 <= x < size ensures s[x] == 0 {
      if 0 < x < size - 1 {
        assert !Root(ents, n, x);
      }
    }
    SumZeros(s);
  }

  lemma {:induction false} CostIsSum(clen: seq<nat>, freq: seq<nat>, costs: seq<nat>, i: nat)
    requires |clen| == |freq| && |costs| == |clen| + 1 && costs[0] == 0 && i <= |clen|
    requires forall x :: 1 <= x <= |clen| ==> costs[x] == freq[x - 1] * clen[x - 1]
    ensures Cost(clen[..i], freq[..i]) == Sum(costs[..i + 1])
    decreases i
  {
    if i == 0 {
      SumZeros(costs[..1]);
    } else {
      hide Sum;
      CostIsSum(clen, freq, costs, i - 1);
      assert clen[..i][..i - 1] == clen[..i - 1] && freq[..i][..i - 1] == freq[..i - 1];
      assert costs[..i + 1] == costs[..i] + [costs[i]];
      SumSnoc(costs[..i], costs[i]);
      Commutes(clen[i - 1], freq[i - 1]);
    }
  }

  lemma Commutes(a: nat, b: nat)
    ensures a * b == b * a
  {
  }

  /** The lengths of a tree cost as much as its internal nodes weigh. */
  lemma TreeCost(ents: seq<Ent>, n: nat, size: nat, kids: seq<(nat, nat)>)
    requires Built(ents, n, size, kids) && Weighed(ents, n, size, kids)
    ensures Cost(Lengths(ents, n, size), Weights(ents, n)) == Inner(ents, n, size)
  {
    hide Forest, Deep, Weighed, Cost, Sum, Lengths, Cut, Steps;
    var clen, w, vals := Lengths(ents, n, size), Weights(ents, n), AllCosts(ents, n, size);
    CostCut(ents, n, size, kids, n + 1);
    NoneMerged(ents, n);
    var costs := Cut(ents, n, vals, n + 1);
    forall x | 1 <= x <= n ensures costs[x] == w[x - 1] * clen[x - 1] {
      LeafCut(ents, n, size, kids, vals, x);
      LeafCost(ents, n, size, x);
    }
    CutStart(ents, n, vals);
    CostIsSum(clen, w, costs, n);
    assert clen[..n] == clen && w[..n] == w && costs[..n + 1] == costs;
  }

  lemma NoneMerged(ents: seq<Ent>, n: nat)
    requires n < |ents|
    ensures Inner(ents, n, n + 1) == 0
  {
  }

  lemma CutStart(ents: seq<Ent>, n: nat, vals: seq<nat>)
    requires n < |vals| <= |ents|
    ensures Cut(ents, n, vals, n + 1)[0] == 0
  {
  }

  lemma LeafCost(ents: seq<Ent>, n: nat, size: nat, x: nat)
    requires Deep(ents, n, size) && 1 <= x <= n < size
    ensures var l := Lengths(ents, n, size)[x - 1];
            if ents[x].freq != 0 then AllCosts(ents, n, size)[x] == ents[x].freq * l else l == 0
  {
    hide Deep, Steps;
  }

  // ---------------------------------------------------------------- optimal lengths

  /** A table that could be used in place: every symbol in use has a code of at most m bits, and
      the Kraft sum is at most one. */
  ghost predicate Admissible(other: seq<nat>, w: seq<nat>, m: nat) {
    && |other| == |w| && C.Bounded(other, m) && C.KraftSum(other, m) <= Pow2(m)
    && forall i :: 0 <= i < |w| && w[i] > 0 ==> other[i] > 0
  }

  /** No such table is cheaper. */
  ghost predicate Optimal(clen: seq<nat>, w: seq<nat>) {
    |clen| == |w| && forall other, m :: Admissible(other, w, m) ==> Cost(clen, w) <= Cost(other, w)
  }

  lemma AdmissibleCode(other: seq<nat>, w: seq<nat>, m: nat)
    requires Admissible(other, w, m)
    ensures O.Code([0] + w, [0] + other, m) && Sum(O.Costs([0] + w, [0] + other)) == Cost(other, w)
  {
    hide Sum, Cost, C.KraftSum, Pow2;
    var v, l := [0] + w, [0] + other;
    var shares := seq(|l|, x requires 0 <= x < |l| => ShareOf(l[x], m));
    KraftIsShares(other, shares, m, |other|);
    assert other[..|other|] == other && shares[..|other| + 1] == shares && w[..|w|] == w;
    SumMono(O.Shares(v, l, m), shares);
    var costs := O.Costs(v, l);
    CostIsSum(other, w, costs, |w|);
    assert costs[..|w| + 1] == costs;
  }

  /** The merges so far, and what they leave, are as cheap as any lengths. */
  ghost predicate Best(ents: seq<Ent>, n: nat, size: nat, kids: seq<(nat, nat)>, w: seq<nat>) {
    && Weighed(ents, n, size, kids)
    && O.Bound([0] + w, RootWeights(ents, n, size), Inner(ents, n, size))
  }

  lemma BestStarts(ents: seq<Ent>, n: nat)
    requires Plain(ents, n)
    ensures Best(ents, n, n + 1, Repeat((0, 0), n + 1), Weights(ents, n))
  {
    assert RootWeights(ents, n, n + 1) == [0] + Weights(ents, n);
    O.BoundStarts([0] + Weights(ents, n));
  }

  /** Roots have a weight. */
  lemma RootsWeigh(ents: seq<Ent>, n: nat, size: nat, last: nat, x: nat)
    requires Heavy(ents, n, size, last) && x < size && Root(ents, n, x)
    ensures ents[x].freq > 0
  {
    FibMono(2, ents[x].depth + 2);
    assert Fib(2) == 1;
  }

  lemma LeastRoots(ents: seq<Ent>, n: nat, size: nat, last: nat, a: nat, b: nat)
    requires Heavy(ents, n, size, last) && LeastPair(ents, n, size, a, b)
    ensures O.Least(RootWeights(ents, n, size), a, b)
  {
    hide Heavy;
    RootsWeigh(ents, n, size, last, a);
    RootsWeigh(ents, n, size, last, b);
  }

  lemma MergedWeights(ents: seq<Ent>, n: nat, size: nat, a: nat, b: nat)
    requires CanMerge(ents, n, size, a, b)
    ensures RootWeights(Merged(ents, size, a, b), n, size + 1) == O.MergeWeights(RootWeights(ents, n, size), a, b)
  {
    var s, t := RootWeights(ents, n, size), RootWeights(Merged(ents, size, a, b), n, size + 1);
    forall x | 0 <= x <= size ensures t[x] == O.MergeWeights(s, a, b)[x] {
      MergeRoots(ents, n, size, a, b, x);
    }
  }

  lemma MergeKeepsWeighed(ents: seq<Ent>, n: nat, size: nat, kids: seq<(nat, nat)>, a: nat, b: nat)
    requires Weighed(ents, n, size, kids) && CanMerge(ents, n, size, a, b)
    ensures Weighed(Merged(ents, size, a, b), n, size + 1, kids + [(a, b)])
    ensures Inner(Merged(ents, size, a, b), n, size + 1) == Inner(ents, n, size) + ents[a].freq + ents[b].freq
  {
    var r, kids' := Merged(ents, size, a, b), kids + [(a, b)];
    forall k | n < k < size + 1 ensures r[k].freq == r[kids'[k].0].freq + r[kids'[k].1].freq {
      if k < size {
        assert kids'[k] == kids[k];
      }
    }
    InnerSame(ents, r, n, size);
  }

  lemma MergeKeepsBest(ents: seq<Ent>, n: nat, size: nat, kids: seq<(nat, nat)>, last: nat, w: seq<nat>, a: nat, b: nat)
    requires Best(ents, n, size, kids, w) && Heavy(ents, n, size, last) && LeastPair(ents, n, size, a, b)
    ensures Best(Merged(ents, size, a, b), n, size + 1, kids + [(a, b)], w)
  {
    hide Weighed, Heavy, O.Bound, Merged;
    MergeKeepsWeighed(ents, n, size, kids, a, b);
    LeastRoots(ents, n, size, last, a, b);
    MergedWeights(ents, n, size, a, b);
    O.BoundStep([0] + w, RootWeights(ents, n, size), Inner(ents, n, size), a, b);
  }

  /** The lengths of a finished tree are optimal for its weights. */
  lemma TreeIsOptimal(ents: seq<Ent>, n: nat, size: nat, kids: seq<(nat, nat)>, w: seq<nat>)
    requires Built(ents, n, size, kids) && Best(ents, n, size, kids, w) && w == Weights(ents, n)
    ensures Optimal(Lengths(ents, n, size), w)
  {
    hide Forest, Deep, Weighed, Lengths, Cost, RootWeights, O.Code, O.Costs, C.KraftSum, Sum;
    TreeCost(ents, n, size, kids);
    forall other, m | Admissible(other, w, m) ensures Cost(Lengths(ents, n, size), w) <= Cost(other, w) {
      AdmissibleCode(other, w, m);
      assert O.Code([0] + w, [0] + other, m);
    }
  }

  method CountParents(ents: seq<Ent>, n: nat, size: nat, i: nat) returns (b: nat)
    requires Deep(ents, n, size) && 1 <= i < size
    ensures b == Steps(ents, n, size, i)
  {
    var p: nat := i;
    b := 0;
    while ents[p].parent != 0
      invariant 1 <= p < size && b + Steps(ents, n, size, p) == Steps(ents, n, size, i)
      decreases size - p
    {
      p := ents[p].parent;
      b := b + 1;
    }
  }

  /** The loop "Now compute prefix code lengths, counting parents." */
  method CodeLengths(freq: seq<nat>, ents: seq<Ent>, size: nat, maxlen: nat)
    returns (clen: seq<nat>, totalBits: nat, overflow: bool)
    requires |freq| < size <= |ents| && Deep(ents, |freq|, size)
    ensures clen == Lengths(ents, |freq|, size) && totalBits == Cost(clen, freq)
    ensures overflow <==> !C.Bounded(clen, maxlen)
  {
    hide Steps, Deep, Cost, C.Bounded;
    var n := |freq|;
    clen, totalBits, overflow := [], 0, false;
    CostNone();
    for i := 1 to n + 1
      invariant |clen| == i - 1 && clen == Lengths(ents, n, size)[..i - 1]
      invariant totalBits == Cost(clen, freq[..i - 1])
      invariant overflow <==> !C.Bounded(clen, maxlen)
    {
      var b: nat := 0;
      var bits: nat := 0;
      if ents[i].freq != 0 {
        b := CountParents(ents, n, size, i);
        if b > maxlen {
          overflow := true;
        }
        bits := b * freq[i - 1];
      }
      CostSnoc(clen, b, freq[..i]);
      assert freq[..i][..i - 1] == freq[..i - 1];
      BoundedSnoc(clen, b, maxlen);
      totalBits := totalBits + bits;
      clen := clen + [b];
      assert Lengths(ents, n, size)[..i] == Lengths(ents, n, size)[..i - 1] + [b];
    }
    assert freq[..n] == freq && Lengths(ents, n, size)[..n] == Lengths(ents, n, size);
  }

  lemma CostNone()
    ensures Cost([], []) == 0 && forall m :: C.Bounded([], m)
  {
  }

  lemma CostSnoc(clen: seq<nat>, b: nat, freq: seq<nat>)
    requires |clen| + 1 == |freq|
    ensures Cost(clen + [b], freq) == Cost(clen, freq[..|clen|]) + b * freq[|clen|]
    ensures b == 0 ==> b * freq[|clen|] == 0
  {
    assert (clen + [b])[..|clen|] == clen;
  }

  lemma BoundedSnoc(clen: seq<nat>, b: nat, m: nat)
    ensures C.Bounded(clen + [b], m) <==> C.Bounded(clen, m) && b <= m
  {
    assert forall i :: 0 <= i < |clen| ==> (clen + [b])[i] == clen[i];
    assert (clen + [b])[|clen|] == b;
  }

  // ---------------------------------------------------------------- rescaling

  function Rescale(w: seq<nat>): (r: seq<nat>)
    ensures |r| == |w|
  {
    seq(|w|, i requires 0 <= i < |w| => w[i] / 2 + 1)
  }

  /** Rescaling lowers this until every weight is 1 or 2. */
  ghost function Excess(w: seq<nat>): nat {
    Sum(seq(|w|, i requires 0 <= i < |w| => if w[i] < 2 then 2 else w[i]))
  }

  lemma RescaleShrinks(w: seq<nat>, i: nat)
    requires i < |w| && w[i] > 2
    ensures Excess(Rescale(w)) < Excess(w)
  {
    var s := seq(|w|, i requires 0 <= i < |w| => if Rescale(w)[i] < 2 then 2 else Rescale(w)[i]);
    var t := seq(|w|, i requires 0 <= i < |w| => if w[i] < 2 then 2 else w[i]);
    assert s[i] < t[i];
    SumMono(s, t);
  }

  lemma SmallSum(w: seq<nat>)
    requires forall i :: 0 <= i < |w| ==> w[i] <= 2
    ensures Sum(w) <= 2 * |w|
  {
    if w != [] {
      SmallSum(w[1..]);
    }
  }

  /** At least two symbols have a code. */
  ghost predicate Two(w: seq<nat>) {
    exists i, j :: 0 <= i < j < |w| && w[i] > 0 && w[j] > 0
  }

  ghost predicate Any(w: seq<nat>) {
    exists i :: 0 <= i < |w| && w[i] > 0
  }

  lemma RootCount(ents: seq<Ent>, n: nat)
    requires n < |ents| && Plain(ents, n)
    ensures Any(Weights(ents, n)) ==> |Roots(ents, n, n + 1)| >= 1
    ensures Two(Weights(ents, n)) <==> |Roots(ents, n, n + 1)| >= 2
  {
    hide Weights, Roots;
    if Any(Weights(ents, n)) {
      OneCounted(ents, n);
    }
    if Two(Weights(ents, n)) {
      TwoCounted(ents, n);
    }
    if |Roots(ents, n, n + 1)| >= 2 {
      CountedTwo(ents, n);
    }
  }

  lemma WeightIsRoot(ents: seq<Ent>, n: nat, x: nat)
    requires n < |ents| && Plain(ents, n)
    ensures x in Roots(ents, n, n + 1) <==> 1 <= x <= n && Weights(ents, n)[x - 1] > 0
  {
  }

  lemma OneCounted(ents: seq<Ent>, n: nat)
    requires n < |ents| && Plain(ents, n) && Any(Weights(ents, n))
    ensures |Roots(ents, n, n + 1)| >= 1
  {
    hide Weights, Roots;
    var i :| 0 <= i < n && Weights(ents, n)[i] > 0;
    WeightIsRoot(ents, n, i + 1);
  }

  lemma TwoCounted(ents: seq<Ent>, n: nat)
    requires n < |ents| && Plain(ents, n) && Two(Weights(ents, n))
    ensures |Roots(ents, n, n + 1)| >= 2
  {
    hide Weights, Roots;
    var i, j :| 0 <= i < j < n && Weights(ents, n)[i] > 0 && Weights(ents, n)[j] > 0;
    WeightIsRoot(ents, n, i + 1);
    WeightIsRoot(ents, n, j + 1);
    var pair := {i + 1, j + 1};
    assert |pair| == 2;
    SubsetSize(pair, Roots(ents, n, n + 1));
  }

  lemma CountedTwo(ents: seq<Ent>, n: nat)
    requires n < |ents| && Plain(ents, n) && |Roots(ents, n, n + 1)| >= 2
    ensures Two(Weights(ents, n))
  {
    hide Weights, Roots, Plain;
    var w, roots := Weights(ents, n), Roots(ents, n, n + 1);
    var a :| a in roots;
    assert |roots - {a}| >= 1;
    var b :| b in roots - {a};
    WeightIsRoot(ents, n, a);
    WeightIsRoot(ents, n, b);
    assert w[a - 1] > 0 && w[b - 1] > 0;
    assert if a < b then 0 <= a - 1 < b - 1 < |w| else 0 <= b - 1 < a - 1 < |w|;
  }

  lemma SubsetSize(a: set<nat>, b: set<nat>)
    requires a <= b
    ensures |a| <= |b|
  {
    if a != {} {
      var x :| x in a;
      SubsetSize(a - {x}, b - {x});
    }
  }

  /** Weights that keep every symbol of the input: the input's own, or with two symbols coded. */
  ghost predicate Covers(w: seq<nat>, freq: seq<nat>) {
    && |w| == |freq| && (w == freq || Two(w))
    && forall i :: 0 <= i < |w| && freq[i] > 0 ==> w[i] > 0
  }

  /** Enough room for any frequencies: no tree over weights of at most 2 is deeper than maxlen. */
  ghost predicate Roomy(n: nat, maxlen: nat) {
    2 <= n && 2 * n < Fib(maxlen + 3)
  }

  /** A great total needs a weight above 2. */
  lemma SomeLarge(w: seq<nat>, maxlen: nat)
    requires Roomy(|w|, maxlen) && Sum(w) >= Fib(maxlen + 3)
    ensures exists i :: 0 <= i < |w| && w[i] > 2
  {
    hide Fib;
    if forall i :: 0 <= i < |w| ==> w[i] <= 2 {
      SmallSum(w);
    }
  }

  /** With one coded symbol, the first or the last symbol without a code gets one. */
  lemma FakeSecond(w: seq<nat>, s: nat)
    requires |w| >= 2 && Any(w) && !Two(w) && s == if w[0] != 0 then |w| - 1 else 0
    ensures w[s] == 0 && Two(w[s := 1]) && Excess(w[s := 1]) == Excess(w)
  {
    var i :| 0 <= i < |w| && w[i] > 0;
    var r := w[s := 1];
    assert i != s;
    assert r[i] > 0 && r[s] > 0;
    assert seq(|w|, i requires 0 <= i < |w| => if w[i] < 2 then 2 else w[i])
        == seq(|r|, i requires 0 <= i < |r| => if r[i] < 2 then 2 else r[i]);
  }

  lemma RescaleCovers(w: seq<nat>, freq: seq<nat>)
    requires |w| == |freq| >= 2 && exists i :: 0 <= i < |w| && w[i] > 2
    ensures Covers(Rescale(w), freq) && Excess(Rescale(w)) < Excess(w)
  {
    var i :| 0 <= i < |w| && w[i] > 2;
    RescaleShrinks(w, i);
    assert Rescale(w)[0] > 0 && Rescale(w)[1] > 0;
  }

  /** The loop that halves every frequency. */
  method Halve(ents: array<Ent>, n: nat)
    requires n < ents.Length
    modifies ents
    ensures Weights(ents[..], n) == Rescale(old(Weights(ents[..], n)))
  {
    for i := 1 to n + 1
      invariant forall k :: 1 <= k < i ==> ents[k].freq == old(ents[k].freq) / 2 + 1
      invariant forall k :: i <= k < ents.Length ==> ents[k] == old(ents[k])
    {
      ents[i] := Ent(ents[i].freq / 2 + 1, ents[i].depth, ents[i].parent);
    }
    assert forall k :: 0 <= k < n ==> old(Weights(ents[..], n))[k] == old(ents[k + 1].freq);
  }

  lemma GrownTree(ents: seq<Ent>, n: nat, size: nat, kids: seq<(nat, nat)>, bound: nat, total: nat)
    requires Growing(ents, n, size, kids, bound, total) && Tree(ents, n, size)
    ensures Built(ents, n, size, kids) && Deep(ents, n, size)
  {
  }

  /** Optimal lengths follow the weights: what weighs more has no longer code. */
  lemma HeavierIsShorter(clen: seq<nat>, w: seq<nat>, m: nat, i: nat, j: nat)
    requires Optimal(clen, w) && Admissible(clen, w, m) && i < |w| && j < |w| && w[i] > w[j] > 0
    ensures clen[i] <= clen[j]
  {
    hide C.KraftSum, Pow2, Cost, Sum, O.Costs, O.Code;
    if clen[i] > clen[j] {
      var other := clen[i := clen[j]][j := clen[i]];
      AdmissibleCode(clen, w, m);
      SwapKraft(clen, i, j, m);
      assert Admissible(other, w, m);
      AdmissibleCode(other, w, m);
      SwapCosts(clen, w, i, j);
      StrictlyCheaper(w[j], w[i], clen[j], clen[i]);
    }
  }

  /** What swapping two lengths costs. */
  lemma SwapCosts(clen: seq<nat>, w: seq<nat>, i: nat, j: nat)
    requires |clen| == |w| && i < |w| && j < |w| && i != j
    ensures var other := clen[i := clen[j]][j := clen[i]];
            Sum(O.Costs([0] + w, [0] + other)) + w[i] * clen[i] + w[j] * clen[j]
            == Sum(O.Costs([0] + w, [0] + clen)) + w[i] * clen[j] + w[j] * clen[i]
  {
    var other := clen[i := clen[j]][j := clen[i]];
    var costs: seq<nat> := O.Costs([0] + w, [0] + clen);
    var ci: nat, cj: nat := w[i] * clen[j], w[j] * clen[i];
    assert O.Costs([0] + w, [0] + other) == costs[i + 1 := ci][j + 1 := cj];
    SumTwo(costs, i + 1, j + 1, ci, cj);
  }

  lemma StrictlyCheaper(a: nat, z: nat, la: nat, lz: nat)
    requires a < z && la < lz
    ensures z * la + a * lz < a * la + z * lz
  {
    var d, e := lz - la, z - a;
    assert a * lz == a * la + a * d;
    assert z * lz == z * la + z * d;
    assert z * d == a * d + e * d;
  }

  /** Swapping lengths keeps the Kraft sum. */
  lemma SwapKraft(clen: seq<nat>, i: nat, j: nat, m: nat)
    requires i < |clen| && j < |clen| && i != j
    ensures C.KraftSum(clen[i := clen[j]][j := clen[i]], m) == C.KraftSum(clen, m)
  {
    hide Pow2, C.KraftSum;
    var other := clen[i := clen[j]][j := clen[i]];
    var s := seq(|clen| + 1, x requires 0 <= x <= |clen| => if x == 0 then 0 else ShareOf(clen[x - 1], m));
    var t := seq(|clen| + 1, x requires 0 <= x <= |clen| => if x == 0 then 0 else ShareOf(other[x - 1], m));
    KraftIsShares(clen, s, m, |clen|);
    KraftIsShares(other, t, m, |clen|);
    assert clen[..|clen|] == clen && other[..|clen|] == other && s[..|clen| + 1] == s && t[..|clen| + 1] == t;
    assert t == s[i + 1 := s[j + 1]][j + 1 := s[i + 1]];
    SumTwo(s, i + 1, j + 1, s[j + 1], s[i + 1]);
  }

  // ---------------------------------------------------------------- the frequencies in use

  /** With one symbol, a second is made up. */
  ghost function Start(freq: seq<nat>): (w: seq<nat>)
    requires freq != []
    ensures |w| == |freq|
  {
    if Two(freq) then freq else freq[if freq[0] != 0 then |freq| - 1 else 0 := 1]
  }

  /** The frequencies after so many passes. */
  function Halved(w: seq<nat>, passes: nat): (r: seq<nat>)
    ensures |r| == |w|
  {
    if passes == 0 then w else Rescale(Halved(w, passes - 1))
  }

  /** Some optimal lengths do not fit. */
  ghost predicate TooDeep(w: seq<nat>, maxlen: nat) {
    exists clen :: Optimal(clen, w) && !C.Bounded(clen, maxlen)
  }

  /** What is known of a number of passes: each was needed, and the first only for a great total. */
  ghost predicate PassesNeeded(freq: seq<nat>, maxlen: nat, passes: nat)
    requires freq != []
  {
    && (forall j :: 0 <= j < passes ==> TooDeep(Halved(Start(freq), j), maxlen))
    && (passes > 0 ==> Sum(Start(freq)) >= Fib(maxlen + 3))
  }

  /** The state of the frequencies when the loop is entered. */
  ghost predicate InPass(w: seq<nat>, freq: seq<nat>, passes: nat)
    requires freq != []
  {
    w == Halved(Start(freq), passes) || (passes == 0 && w == freq && !Two(freq))
  }

  lemma PassStarts(freq: seq<nat>, maxlen: nat)
    requires freq != []
    ensures InPass(freq, freq, 0) && PassesNeeded(freq, maxlen, 0)
  {
  }

  lemma PassIsHalved(w: seq<nat>, freq: seq<nat>, passes: nat)
    requires freq != [] && InPass(w, freq, passes) && Two(w)
    ensures w == Halved(Start(freq), passes)
  {
  }

  lemma PassFaked(w: seq<nat>, freq: seq<nat>, passes: nat, s: nat)
    requires |w| == |freq| >= 2 && InPass(w, freq, passes) && !Two(w) && Any(freq)
    requires s == if freq[0] != 0 then |freq| - 1 else 0
    ensures w == freq && passes == 0 && InPass(w[s := 1], freq, 0)
  {
    hide Two, Rescale;
    HalvedTwo(freq, passes);
  }

  /** The frequencies of every pass have two symbols. */
  lemma HalvedTwo(freq: seq<nat>, passes: nat)
    requires |freq| >= 2 && Any(freq)
    ensures Two(Halved(Start(freq), passes))
  {
    if passes == 0 {
      if !Two(freq) {
        FakeSecond(freq, if freq[0] != 0 then |freq| - 1 else 0);
      }
    } else {
      var w := Halved(Start(freq), passes);
      assert w[0] > 0 && w[1] > 0;
    }
  }

  /** A tree that is too deep: optimal lengths that do not fit, and a great weight. */
  lemma DeepTree(ents: seq<Ent>, n: nat, size: nat, kids: seq<(nat, nat)>, bound: nat, maxlen: nat)
    requires n < |ents| && Growing(ents, n, size, kids, bound, Sum(Weights(ents, n)))
    requires Built(ents, n, size, kids) && Best(ents, n, size, kids, Weights(ents, n))
    requires !C.Bounded(Lengths(ents, n, size), maxlen)
    ensures TooDeep(Weights(ents, n), maxlen) && Sum(Weights(ents, n)) >= Fib(maxlen + 3)
  {
    hide Best, Optimal, Forest, Deep, Heavy, Lengths, Fib, Sum;
    TreeIsOptimal(ents, n, size, kids, Weights(ents, n));
    var clen := Lengths(ents, n, size);
    var i :| 0 <= i < |clen| && clen[i] > maxlen;
    LongNeedsWeight(ents, n, size, kids, bound, maxlen, i);
  }

  /** A pass that was too deep makes the next one needed. */
  lemma PassFailed(w: seq<nat>, freq: seq<nat>, maxlen: nat, passes: nat)
    requires freq != [] && w == Halved(Start(freq), passes) && PassesNeeded(freq, maxlen, passes)
    requires TooDeep(w, maxlen) && Sum(w) >= Fib(maxlen + 3)
    ensures PassesNeeded(freq, maxlen, passes + 1)
  {
    hide TooDeep, Sum, Fib, Start;
  }

  lemma PassHalved(w: seq<nat>, freq: seq<nat>, passes: nat)
    requires freq != [] && w == Halved(Start(freq), passes)
    ensures InPass(Rescale(w), freq, passes + 1)
  {
  }

  lemma LengthsExact(ents: seq<Ent>, n: nat, size: nat, kids: seq<(nat, nat)>)
    requires Built(ents, n, size, kids) && n < |ents|
    ensures forall i :: 0 <= i < n ==> (Lengths(ents, n, size)[i] > 0 <==> Weights(ents, n)[i] > 0)
  {
    forall i | 0 <= i < n ensures Lengths(ents, n, size)[i] > 0 <==> Weights(ents, n)[i] > 0 {
      LengthFacts(ents, n, size, kids, i);
    }
  }

  /** One pass from the initial heap on: a tree and its lengths, which are optimal. */
  method Attempt(heap: array<nat>, ents: array<Ent>, freq: seq<nat>, maxlen: nat, heapLast: nat)
    returns (clen: seq<nat>, totalBits: nat, overflow: bool)
    requires var n := |freq|; n >= 2 && heap.Length == n + 1 && ents.Length == 2 * n && 2 <= heapLast <= n
    requires Plain(ents[..], |freq|) && HoldsRoots(heap[..], ents[..], |freq|, |freq| + 1, heapLast)
    modifies heap, ents
    ensures Weights(ents[..], |freq|) == old(Weights(ents[..], |freq|))
    ensures |clen| == |freq| && totalBits == Cost(clen, freq) && (overflow <==> !C.Bounded(clen, maxlen))
    ensures var w := Weights(ents[..], |freq|);
            && Optimal(clen, w) && (forall i :: 0 <= i < |w| ==> (clen[i] > 0 <==> w[i] > 0))
            && (!overflow ==> C.KraftSum(clen, maxlen) == Pow2(maxlen))
            && (overflow ==> TooDeep(w, maxlen) && Sum(w) >= Fib(maxlen + 3))
  {
    hide HoldsRoots, Growing, Sum, C.Bounded, C.KraftSum, Tree, Pow2, Built, Deep, Lengths, Best, Optimal, TooDeep, Fib;
    hide Cost;
    var n := |freq|;
    var size;
    ghost var kids, bound;
    size, kids, bound := BuildTree(heap, ents, n, heapLast);
    GrownTree(ents[..], n, size, kids, bound, Sum(Weights(ents[..], n)));
    clen, totalBits, overflow := CodeLengths(freq, ents[..], size, maxlen);
    LengthsExact(ents[..], n, size, kids);
    TreeIsOptimal(ents[..], n, size, kids, Weights(ents[..], n));
    if overflow {
      DeepTree(ents[..], n, size, kids, bound, maxlen);
    } else {
      KraftIsOne(ents[..], n, size, kids, maxlen);
    }
  }

  /** Insert real symbol frequencies. */
  method LoadFrequencies(ents: array<Ent>, freq: seq<nat>)
    requires freq != [] && ents.Length == 2 * |freq|
    modifies ents
    ensures Weights(ents[..], |freq|) == freq
  {
    for i := 0 to |freq|
      invariant forall k :: 0 <= k < i ==> ents[k + 1].freq == freq[k]
    {
      ents[i + 1] := Ent(freq[i], ents[i + 1].depth, ents[i + 1].parent);
    }
  }

  /** djw_build_prefix.  It terminates for all frequencies; every symbol of the input has a code
      of at most maxlen bits, the Kraft sum is exactly one, and the result is the exact cost.  The
      lengths are optimal for the frequencies of the last pass, and the input's own are rescaled
      only if some optimal lengths do not fit, so never when they add up to less than
      Fib(maxlen + 3). */
  method BuildPrefix(freq: seq<nat>, maxlen: nat) returns (clen: seq<nat>, totalBits: nat, ghost passes: nat)
    requires Any(freq) && |freq| >= 2 && Roomy(|freq|, maxlen)
    ensures |clen| == |freq| && C.Bounded(clen, maxlen) && C.KraftSum(clen, maxlen) == Pow2(maxlen)
    ensures forall i :: 0 <= i < |freq| && freq[i] > 0 ==> clen[i] > 0
    ensures totalBits == Cost(clen, freq)
    ensures PassesNeeded(freq, maxlen, passes)
    ensures var w := Halved(Start(freq), passes);
            Optimal(clen, w) && forall i :: 0 <= i < |w| ==> (clen[i] > 0 <==> w[i] > 0)
  {
    hide HoldsRoots, Sum, Excess, C.Bounded, C.KraftSum, Pow2, Two, Rescale, Roomy, Cost, Weights, Roots;
    hide InPass, PassesNeeded, Halved, Start, Optimal, TooDeep, Fib;
    var n := |freq|;
    var ents := new Ent[2 * n](i => Ent(0, 0, 0));
    var heap := new nat[n + 1](i => 0);
    LoadFrequencies(ents, freq);
    passes := 0;
    PassStarts(freq, maxlen);
    while true
      invariant Covers(Weights(ents[..], n), freq) && InPass(Weights(ents[..], n), freq, passes)
      invariant PassesNeeded(freq, maxlen, passes)
      decreases Excess(Weights(ents[..], n)), if Two(Weights(ents[..], n)) then 0 else 1
    {
      var heapLast := InitialHeap(heap, ents, n);
      ghost var w := Weights(ents[..], n);
      HeapSize(heap[..], ents[..], n, n + 1, heapLast);
      RootCount(ents[..], n);
      if heapLast == 1 {
        var s := if freq[0] != 0 then n - 1 else 0;
        PassFaked(w, freq, passes, s);
        FakeSecond(w, s);
        WeightSet(ents[..], n, s, 1);
        ents[s + 1] := Ent(1, ents[s + 1].depth, ents[s + 1].parent);
        continue;
      }
      PassIsHalved(w, freq, passes);
      var overflow;
      clen, totalBits, overflow := Attempt(heap, ents, freq, maxlen, heapLast);
      if !overflow {
        return;
      }
      SomeLarge(w, maxlen);
      PassFailed(w, freq, maxlen, passes);
      Halve(ents, n);
      RescaleCovers(w, freq);
      PassHalved(w, freq, passes);
      passes := passes + 1;
    }
  }

  lemma WeightSet(ents: seq<Ent>, n: nat, s: nat, v: nat)
    requires s < n < |ents|
    ensures Weights(ents[s + 1 := Ent(v, ents[s + 1].depth, ents[s + 1].parent)], n) == Weights(ents, n)[s := v]
  {
  }

  /** The sizes in use: bytes, lengths of bytes' codes, and group selectors. */
  lemma UsedSizes(groups: nat)
    requires 1 <= groups <= 8
    ensures Roomy(256, 20) && Roomy(22, 15) && Roomy(groups + 1, 7)
  {
    assert Fib(5) == 5 && Fib(6) == 8;
    assert Fib(7) == 13 && Fib(8) == 21;
    assert Fib(9) == 34 && Fib(10) == 55;
    assert Fib(11) == 89 && Fib(12) == 144;
    assert Fib(13) == 233 && Fib(14) == 377;
    assert Fib(15) == 610 && Fib(16) == 987;
    assert Fib(17) == 1597 && Fib(18) == 2584;
    FibMono(18, 23);
  }
}
