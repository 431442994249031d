/** The binary heap of djw_build_prefix: positions 1 to last of an array of entry numbers, with
    entry 0 as a sentinel no other entry is less than. */
module Heap {
  import opened Common

  datatype Ent = Ent(freq: nat, depth: nat, parent: nat)

  /** heap_less */
  predicate Less(a: Ent, b: Ent) {
    a.freq < b.freq || (a.freq == b.freq && a.depth < b.depth)
  }

  /** Every place is in range and place 0 holds the sentinel. */
  predicate InRange(heap: seq<nat>, ents: seq<Ent>, last: nat) {
    && last < |heap| && |ents| > 0
    && heap[0] == 0 && ents[0].freq == 0 && ents[0].depth == 0
    && forall i :: 0 <= i <= last ==> heap[i] < |ents|
  }

  /** No entry is less than its parent (heap_check). */
  predicate Ordered(heap: seq<nat>, ents: seq<Ent>, last: nat)
    requires InRange(heap, ents, last)
  {
    forall i :: 1 <= i <= last ==> !Less(ents[heap[i]], ents[heap[i / 2]])
  }

  predicate IsHeap(heap: seq<nat>, ents: seq<Ent>, last: nat) {
    InRange(heap, ents, last) && Ordered(heap, ents, last)
  }

  /** The entries in the heap. */
  ghost function Contents(heap: seq<nat>, last: nat): multiset<nat>
    requires last < |heap|
  {
    multiset(heap[1..last + 1])
  }

  /** Changing one place changes one entry. */
  lemma ContentsUpdate(heap: seq<nat>, last: nat, p: nat, e: nat)
    requires 1 <= p <= last < |heap|
    ensures Contents(heap[p := e], last) == Contents(heap, last) - multiset{heap[p]} + multiset{e}
    ensures heap[p] in Contents(heap, last)
  {
    assert heap[p := e][1..last + 1] == heap[1..last + 1][p - 1 := e];
    assert heap[1..last + 1][p - 1] == heap[p];
  }

  lemma ContentsSnoc(heap: seq<nat>, last: nat)
    requires last + 1 < |heap|
    ensures Contents(heap, last + 1) == Contents(heap, last) + multiset{heap[last + 1]}
  {
    assert heap[1..last + 2] == heap[1..last + 1] + [heap[last + 1]];
  }

  /** The first place holds a least entry. */
  lemma {:induction false} RootIsLeast(heap: seq<nat>, ents: seq<Ent>, last: nat, i: nat)
    requires IsHeap(heap, ents, last) && 1 <= i <= last
    ensures !Less(ents[heap[i]], ents[heap[1]])
    decreases i
  {
    if i > 1 {
      RootIsLeast(heap, ents, last, i / 2);
    }
  }

  /** A heap with a hole at p for e, which is less than everything below p. */
  predicate Rising(heap: seq<nat>, ents: seq<Ent>, at: nat, p: nat, e: nat) {
    && 1 <= p <= at < |heap| && e < |ents|
    && (if p == at then IsHeap(heap, ents, at - 1) else IsHeap(heap, ents, at) && Less(ents[e], ents[heap[p]]))
  }

  lemma RisingStep(heap: seq<nat>, ents: seq<Ent>, at: nat, p: nat, e: nat)
    requires Rising(heap, ents, at, p, e)
    ensures heap[p / 2] < |ents|
    ensures Less(ents[e], ents[heap[p / 2]]) ==> p / 2 >= 1 && Rising(heap[p := heap[p / 2]], ents, at, p / 2, e)
    ensures !Less(ents[e], ents[heap[p / 2]]) ==> IsHeap(heap[p := e], ents, at)
  {
  }

  /** heap_insert: entries move down one place from parent to child until e finds its own. */
  method HeapInsert(heap: array<nat>, ents: seq<Ent>, at: nat, e: nat)
    requires 1 <= at < heap.Length && e < |ents| && IsHeap(heap[..], ents, at - 1)
    modifies heap
    ensures IsHeap(heap[..], ents, at)
    ensures Contents(heap[..], at) == old(Contents(heap[..], at - 1)) + multiset{e}
  {
    assert Rising(heap[..], ents, at, at, e);
    hide Contents, Rising, IsHeap, Less;
    var p, pp := at, at / 2;
    ContentsSnoc(heap[..], at - 1);
    ContentsUpdate(heap[..], at, at, e);
    RisingStep(heap[..], ents, at, p, e);
    while Less(ents[e], ents[heap[pp]])
      invariant 1 <= p <= at && pp == p / 2 && Rising(heap[..], ents, at, p, e) && heap[pp] < |ents|
      invariant Contents(heap[..][p := e], at) == old(Contents(heap[..], at - 1)) + multiset{e}
      decreases p
    {
      RisingStep(heap[..], ents, at, p, e);
      MoveDown(heap[..], at, p, pp, e);
      heap[p] := heap[pp];
      p := pp;
      pp := p / 2;
      RisingStep(heap[..], ents, at, p, e);
    }
    RisingStep(heap[..], ents, at, p, e);
    heap[p] := e;
  }

  /** Copying the parent down and putting e at the parent holds the same entries. */
  lemma MoveDown(heap: seq<nat>, last: nat, p: nat, pp: nat, e: nat)
    requires 1 <= p <= last < |heap| && pp == p / 2 && pp >= 1
    ensures Contents(heap[p := heap[pp]][pp := e], last) == Contents(heap[p := e], last)
  {
    var a := heap[p := heap[pp]];
    ContentsUpdate(heap, last, p, heap[pp]);
    ContentsUpdate(a, last, pp, e);
    ContentsUpdate(heap, last, p, e);
    assert a[pp] == heap[pp];
  }

  /** The heap but for place p, whose entry may be greater than its children. */
  predicate Sinking(heap: seq<nat>, ents: seq<Ent>, last: nat, p: nat)
    requires InRange(heap, ents, last)
  {
    && (forall i :: 1 <= i <= last && i / 2 != p ==> !Less(ents[heap[i]], ents[heap[i / 2]]))
    && (forall i :: 1 <= i <= last && i / 2 == p && p >= 1 ==> !Less(ents[heap[i]], ents[heap[p / 2]]))
  }

  lemma SwapContents(heap: seq<nat>, last: nat, p: nat, q: nat)
    requires 1 <= p <= last < |heap| && 1 <= q <= last && p != q
    ensures Contents(heap[p := heap[q]][q := heap[p]], last) == Contents(heap, last)
  {
    var a := heap[p := heap[q]];
    ContentsUpdate(heap, last, p, heap[q]);
    ContentsUpdate(a, last, q, heap[p]);
  }

  /** The child of p that is not greater than the other. */
  function Child(heap: seq<nat>, ents: seq<Ent>, last: nat, p: nat): (pc: nat)
    requires InRange(heap, ents, last) && 1 <= p && 2 * p <= last
    ensures pc / 2 == p && pc <= last
    ensures forall i :: 1 <= i <= last && i / 2 == p ==> !Less(ents[heap[i]], ents[heap[pc]])
  {
    var pc := p * 2;
    if pc < last && Less(ents[heap[pc + 1]], ents[heap[pc]]) then pc + 1 else pc
  }

  lemma SinkingStarts(heap: seq<nat>, ents: seq<Ent>, last: nat)
    requires last + 1 < |heap| && IsHeap(heap, ents, last + 1)
    ensures var h := heap[1 := heap[last + 1]]; InRange(h, ents, last) && Sinking(h, ents, last, 1)
  {
  }

  lemma SinkingEnds(heap: seq<nat>, ents: seq<Ent>, last: nat, p: nat)
    requires InRange(heap, ents, last) && Sinking(heap, ents, last, p) && p >= 1
    requires 2 * p <= last ==> !Less(ents[heap[Child(heap, ents, last, p)]], ents[heap[p]])
    ensures IsHeap(heap, ents, last)
  {
  }

  /** The smaller child takes the parent's place. */
  lemma SwapSinks(heap: seq<nat>, ents: seq<Ent>, last: nat, p: nat, pc: nat)
    requires InRange(heap, ents, last) && Sinking(heap, ents, last, p) && 1 <= p <= last && pc / 2 == p && pc <= last
    requires Less(ents[heap[pc]], ents[heap[p]])
    requires forall i :: 1 <= i <= last && i / 2 == p ==> !Less(ents[heap[i]], ents[heap[pc]])
    ensures var h := heap[p := heap[pc]][pc := heap[p]];
            InRange(h, ents, last) && Sinking(h, ents, last, pc)
  {
    var h := heap[p := heap[pc]][pc := heap[p]];
    forall i | 1 <= i <= last && i / 2 != pc ensures !Less(ents[h[i]], ents[h[i / 2]]) {
      if i / 2 == p {
        assert !Less(ents[heap[i]], ents[heap[pc]]);
      }
    }
  }

  lemma RootLeastOfAll(heap: seq<nat>, ents: seq<Ent>, last: nat)
    requires 1 <= last && IsHeap(heap, ents, last)
    ensures heap[1] in Contents(heap, last)
    ensures forall x :: x in Contents(heap, last) ==> x < |ents| && !Less(ents[x], ents[heap[1]])
  {
    var s := heap[1..last + 1];
    assert s[0] == heap[1];
    forall x | x in s ensures x < |ents| && !Less(ents[x], ents[heap[1]]) {
      var k :| 0 <= k < |s| && s[k] == x;
      assert heap[k + 1] == x;
      RootIsLeast(heap, ents, last, k + 1);
    }
  }

  /** The loop of heap_extract. */
  method SiftDown(heap: array<nat>, ents: seq<Ent>, last: nat)
    requires InRange(heap[..], ents, last) && Sinking(heap[..], ents, last, 1)
    modifies heap
    ensures IsHeap(heap[..], ents, last) && Contents(heap[..], last) == old(Contents(heap[..], last))
  {
    hide Contents, Sinking, Less, Ordered;
    var p: nat := 1;
    while true
      invariant 1 <= p && (p <= last || last == 0)
      invariant InRange(heap[..], ents, last) && Sinking(heap[..], ents, last, p)
      invariant Contents(heap[..], last) == old(Contents(heap[..], last))
      decreases last + 1 - p
    {
      var pc: nat := p * 2;
      if pc > last {
        SinkingEnds(heap[..], ents, last, p);
        break;
      }
      if pc < last && Less(ents[heap[pc + 1]], ents[heap[pc]]) {
        pc := pc + 1;
      }
      assert pc == Child(heap[..], ents, last, p);
      if !Less(ents[heap[pc]], ents[heap[p]]) {
        SinkingEnds(heap[..], ents, last, p);
        break;
      }
      SwapContents(heap[..], last, p, pc);
      SwapSinks(heap[..], ents, last, p, pc);
      heap[p], heap[pc] := heap[pc], heap[p];
      p := pc;
    }
  }

  /** heap_extract: `last` is already decremented, so the replacement is at last + 1. */
  method HeapExtract(heap: array<nat>, ents: seq<Ent>, last: nat) returns (smallest: nat)
    requires last + 1 < heap.Length && IsHeap(heap[..], ents, last + 1)
    modifies heap
    ensures IsHeap(heap[..], ents, last)
    ensures smallest in old(Contents(heap[..], last + 1))
    ensures Contents(heap[..], last) == old(Contents(heap[..], last + 1)) - multiset{smallest}
    ensures forall x :: x in old(Contents(heap[..], last + 1)) ==> x < |ents| && !Less(ents[x], ents[smallest])
  {
    hide Contents, Sinking, Less, Ordered;
    smallest := heap[1];
    RootLeastOfAll(heap[..], ents, last + 1);
    SinkingStarts(heap[..], ents, last);
    FillRoot(heap[..], last);
    heap[1] := heap[last + 1];
    SiftDown(heap, ents, last);
  }

  lemma FillRoot(heap: seq<nat>, last: nat)
    requires last + 1 < |heap|
    ensures Contents(heap[1 := heap[last + 1]], last) == Contents(heap, last + 1) - multiset{heap[1]}
  {
    ContentsSnoc(heap, last);
    if last > 0 {
      ContentsUpdate(heap, last, 1, heap[last + 1]);
    }
  }
}
