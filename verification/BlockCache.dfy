/** The cache of source blocks: a few slots with least-recently-used or first-in-first-out
    replacement, which must agree with the file.  Models xdelta3-blkcache.h for a seekable
    source that does not change. */
module BlockCache {
  import opened Common
  import opened SourceBlocks

  const MAX_LRU_SIZE: nat := 32

  /** main_blklru: a block number, unless the slot is empty, and its bytes. */
  datatype Slot = Slot(blkno: Option<nat>, data: seq<byte>)

  /** A list of each number below n once. */
  ghost predicate Permutation(order: seq<nat>, n: nat) {
    && |order| == n
    && (forall k :: 0 <= k < n ==> order[k] < n)
    && (forall j, k :: 0 <= j < k < n ==> order[j] != order[k])
  }

  /** Taking the element at place k to the back. */
  function ToBack(order: seq<nat>, k: nat): seq<nat>
    requires k < |order|
  {
    order[..k] + order[k + 1..] + [order[k]]
  }

  /** Non-empty slots hold their block of the file, and no block is held twice. */
  ghost predicate Agrees(slots: seq<Slot>, file: seq<byte>, blksize: nat) {
    && (forall i :: 0 <= i < |slots| && slots[i].blkno.Some? ==>
        slots[i].data == Block(file, blksize, slots[i].blkno.value))
    && (forall i, j :: 0 <= i < j < |slots| && slots[i].blkno.Some? ==> slots[i].blkno != slots[j].blkno)
  }

  /** The order is by time of last use. */
  ghost predicate ByAge(order: seq<nat>, stamp: seq<nat>, clock: nat)
    requires Permutation(order, |stamp|)
  {
    && (forall j, k :: 0 <= j < k < |order| ==> stamp[order[j]] < stamp[order[k]])
    && (forall i :: 0 <= i < |stamp| ==> stamp[i] < clock)
  }

  lemma ToBackPermutes(order: seq<nat>, n: nat, k: nat)
    requires Permutation(order, n) && k < n
    ensures Permutation(ToBack(order, k), n)
  {
  }

  lemma ToBackByAge(order: seq<nat>, stamp: seq<nat>, clock: nat, k: nat)
    requires Permutation(order, |stamp|) && ByAge(order, stamp, clock) && k < |order|
    ensures Permutation(ToBack(order, k), |stamp|)
    ensures ByAge(ToBack(order, k), stamp[order[k] := clock], clock + 1)
  {
    ToBackPermutes(order, |stamp|, k);
  }

  /** Every slot is somewhere in the list. */
  lemma Somewhere(order: seq<nat>, n: nat, i: nat)
    requires Permutation(order, n) && i < n
    ensures exists k :: 0 <= k < n && order[k] == i
  {
    if forall k :: 0 <= k < n ==> order[k] != i {
      Places(order, n, Below(n) - {i});
    }
  }

  ghost function Below(n: nat): (s: set<nat>)
    ensures |s| == n && forall k: nat :: k in s <==> k < n
  {
    if n == 0 then {} else Below(n - 1) + {n - 1}
  }

  /** n different members need a set of at least n. */
  lemma {:induction false} Places(order: seq<nat>, k: nat, t: set<nat>)
    requires k <= |order|
    requires forall i :: 0 <= i < k ==> order[i] in t
    requires forall i, j :: 0 <= i < j < k ==> order[i] != order[j]
    ensures |t| >= k
    decreases k
  {
    if k > 0 {
      Places(order, k - 1, t - {order[k - 1]});
    }
  }

  /** 0, 1, up to n - 1. */
  function Numbers(n: nat): (r: seq<nat>)
    ensures |r| == n && Permutation(r, n) && ByAge(r, r, n) && forall i :: 0 <= i < n ==> r[i] == i
  {
    seq(n, i requires 0 <= i < n => i)
  }

  /** Block i of the buffer that the first read filled. */
  function FirstBlock(first: seq<byte>, b: nat, i: nat): seq<byte> {
    var lo := i * b;
    if lo >= |first| then [] else first[lo..Min(|first|, lo + b)]
  }

  function FirstSlots(first: seq<byte>, b: nat, n: nat): (r: seq<Slot>)
    ensures |r| == n && forall i :: 0 <= i < n ==> r[i] == Slot(Some(i), FirstBlock(first, b, i))
  {
    seq(n, i requires 0 <= i < n => Slot(Some(i), FirstBlock(first, b, i)))
  }

  lemma SplitAgrees(file: seq<byte>, srcwinsz: nat, n: nat, b: nat, slots: seq<Slot>)
    requires |slots| == n > 0 && b > 0 && n * b == srcwinsz && (n > 1 ==> |file| >= srcwinsz)
    requires forall i :: 0 <= i < n ==> slots[i] == Slot(Some(i), FirstBlock(file[..Min(|file|, srcwinsz)], b, i))
    ensures Agrees(slots, file, b) && slots[0].data == Block(file, b, 0)
    ensures forall i :: 0 <= i < n ==> slots[i].blkno == Some(i) && i % n == i
  {
    hide Block, FirstBlock;
    forall i | 0 <= i < n ensures slots[i].data == Block(file, b, i) && i % n == i {
      FirstBlockIs(file, srcwinsz, n, b, i);
      SmallMod(i, n);
    }
  }

  lemma SmallMod(i: nat, n: nat)
    requires i < n
    ensures i % n == i
  {
  }

  lemma FirstBlockIs(file: seq<byte>, srcwinsz: nat, n: nat, b: nat, i: nat)
    requires b > 0 && n * b == srcwinsz && i < n && (n > 1 ==> |file| >= srcwinsz)
    ensures FirstBlock(file[..Min(|file|, srcwinsz)], b, i) == Block(file, b, i)
  {
    var lo := i * b;
    assert lo + b <= srcwinsz by { BeforeEnd(i, n, b); }
  }

  lemma BeforeEnd(i: nat, n: nat, b: nat)
    requires i < n
    ensures i * b + b <= n * b
  {
    Spread(i, n - i, b);
    Spread(1, n - i - 1, b);
  }

  class Cache {
    const file: seq<byte>
    const blksize: nat
    const fifo: bool
    // lru, lru_list
    var slots: seq<Slot>
    var order: seq<nat>
    // main_file
    var position: nat
    // xd3_source
    var curblkno: Option<nat>
    var curblk: seq<byte>
    ghost var stamp: seq<nat>
    ghost var clock: nat
    ghost var high: nat  // the highest block asked for

    ghost predicate Valid()
      reads this
    {
      && |slots| > 0 && blksize > 0
      && Agrees(slots, file, blksize)
      && Permutation(order, |slots|)
      && |stamp| == |slots| && ByAge(order, stamp, clock)
      && (fifo ==> forall i :: 0 <= i < |slots| && slots[i].blkno.Some? ==>
          slots[i].blkno.value % |slots| == i && slots[i].blkno.value <= high)
    }

    /** The block in hand is what a direct read gives. */
    ghost predicate InHand(blkno: nat)
      reads this
    {
      curblkno == Some(blkno) && curblk == Block(file, blksize, blkno)
    }

    /** main_set_source: the first read fills one slot; unless the whole file fits, the buffer is
        split into slots that hold the first blocks.  A file of unknown size is read in order. */
    constructor (file: seq<byte>, srcwinsz: nat, sizeKnown: bool)
      requires srcwinsz > 0 && srcwinsz % MAX_LRU_SIZE == 0
      ensures Valid() && InHand(0) && this.file == file
      ensures fifo <==> !sizeKnown && |file| >= srcwinsz
      ensures if |file| > srcwinsz || fifo then |slots| == MAX_LRU_SIZE && blksize * MAX_LRU_SIZE == srcwinsz
              else |slots| == 1 && blksize == srcwinsz
      ensures high == |slots| - 1
    {
      hide Block, FirstBlock, Agrees, Permutation, ByAge, FirstSlots, Numbers;
      var first := file[..Min(|file|, srcwinsz)];
      var known := sizeKnown || |first| < srcwinsz;
      var size := if sizeKnown then |file| else |first|;
      this.file := file;
      var n: nat, b: nat := 1, srcwinsz;
      if !known || size > srcwinsz {
        n, b := MAX_LRU_SIZE, srcwinsz / MAX_LRU_SIZE;
      }
      assert n * b == srcwinsz && b > 0;
      fifo, blksize := !known, b;
      slots := FirstSlots(first, b, n);
      order, position := Numbers(n), |first|;
      curblkno, curblk := Some(0), FirstBlock(first, b, 0);
      stamp, clock, high := Numbers(n), n, n - 1;
      new;
      SplitAgrees(file, srcwinsz, n, b, slots);
    }

    /** main_getblk_lru: the slot of a block, or a slot emptied for it.  In FIFO mode the slot is
        fixed and may hold a later block; otherwise the slot unused for longest is taken. */
    method GetblkLru(blkno: nat) returns (found: Option<nat>, isNew: bool)
      requires Valid()
      modifies this`slots, this`order, this`stamp, this`clock
      ensures Valid() && |slots| == old(|slots|)
      ensures found.None?
              <==> fifo && old(slots[blkno % |slots|].blkno.Some? && slots[blkno % |slots|].blkno.value > blkno)
      ensures found.None? ==> slots == old(slots)
      ensures found.Some? ==> found.value < |slots|
      ensures found.Some? && !isNew ==> slots == old(slots) && slots[found.value].blkno == Some(blkno)
      ensures found.Some? && isNew ==>
                && slots == old(slots)[found.value := Slot(None, old(slots)[found.value].data)]
                && forall i :: 0 <= i < |slots| ==> old(slots)[i].blkno != Some(blkno)
      ensures found.Some? && isNew && !fifo ==>
                && found.value == old(order)[0] && order == ToBack(old(order), 0)
                && forall i :: 0 <= i < |slots| ==> old(stamp)[found.value] <= old(stamp)[i]
      ensures found.Some? && fifo ==> found.value == blkno % |slots|
      ensures found.Some? && !fifo ==>
                && stamp == old(stamp)[found.value := old(clock)] && clock == old(clock) + 1
                && exists k :: 0 <= k < |old(order)| && old(order)[k] == found.value && order == ToBack(old(order), k)
      ensures fifo ==> order == old(order) && stamp == old(stamp) && clock == old(clock)
    {
      hide Block;
      isNew := false;
      if fifo {
        var idx := blkno % |slots|;
        if slots[idx].blkno == Some(blkno) {
          return Some(idx), false;
        }
        if slots[idx].blkno.Some? && slots[idx].blkno.value > blkno {
          return None, false;
        }
        slots := slots[idx := Slot(None, slots[idx].data)];
        return Some(idx), true;
      }
      for i := 0 to |slots|
        invariant forall j :: 0 <= j < i ==> slots[j].blkno != Some(blkno)
      {
        if slots[i].blkno == Some(blkno) {
          Somewhere(order, |slots|, i);
          var k :| 0 <= k < |slots| && order[k] == i;
          Touch(k);
          return Some(i), false;
        }
      }
      var victim := order[0];
      OldestFirst(order, stamp, clock);
      Touch(0);
      slots := slots[victim := Slot(None, slots[victim].data)];
      return Some(victim), true;
    }

    /** Removing a slot from the list and pushing it at the back. */
    method Touch(k: nat)
      requires Valid() && k < |order|
      modifies this`order, this`stamp, this`clock
      ensures Valid()
      ensures stamp == old(stamp)[old(order)[k] := old(clock)] && clock == old(clock) + 1
      ensures order == ToBack(old(order), k)
    {
      hide Agrees, Block;
      ToBackByAge(order, stamp, clock, k);
      stamp := stamp[order[k] := clock];
      clock := clock + 1;
      order := ToBack(order, k);
    }

    /** A hit takes the slot of the block to the back of the list. */
    ghost predicate Moved(before: seq<nat>, after: seq<nat>, blkno: nat)
      reads this`slots
    {
      exists k :: 0 <= k < |before| && before[k] < |slots| && slots[before[k]].blkno == Some(blkno)
                  && after == ToBack(before, k)
    }

    lemma IsMoved(before: seq<nat>, i: nat, blkno: nat)
      requires i < |slots| && slots[i].blkno == Some(blkno)
      requires exists k :: 0 <= k < |before| && before[k] == i && order == ToBack(before, k)
      ensures Moved(before, order, blkno)
    {
    }

    /** The slots after a miss: the block is in the slot unused for longest or, in FIFO mode, in its
        own.  After a seek the look-up is made again: the first slot is left empty and the block
        goes to the next one. */
    ghost function Replaced(before: seq<Slot>, list: seq<nat>, blkno: nat, seek: bool): seq<Slot>
      requires |before| > 0 && Permutation(list, |before|)
    {
      var filled := Slot(Some(blkno), Block(file, blksize, blkno));
      if fifo then before[blkno % |before| := filled]
      else if seek then
        before[list[0] := Slot(None, before[list[0]].data)][ToBack(list, 0)[0] := filled]
      else before[list[0] := filled]
    }

    /** main_getblk_func.  The second look-up after a seek may empty a second slot; still every
        slot in use agrees with the file, and the block handed out is the file's. */
    method GetblkFunc(blkno: nat) returns (err: Option<Error>)
      requires Valid()
      modifies this
      ensures Valid() && |slots| == old(|slots|)
      ensures err.None? ==> InHand(blkno)
      ensures err.Some? ==>
                err == Some(TooFarBack) && slots == old(slots) && curblkno == old(curblkno) && curblk == old(curblk)
      ensures err.Some?
              <==> fifo && old(slots[blkno % |slots|].blkno.Some? && slots[blkno % |slots|].blkno.value > blkno)
      ensures high == (if err.None? && blkno > old(high) then blkno else old(high))
      ensures err.None? ==>
                if exists i :: 0 <= i < |slots| && old(slots)[i].blkno == Some(blkno)
                then slots == old(slots) && position == old(position) && (!fifo ==> Moved(old(order), order, blkno))
                else
                  && position == blkno * blksize + |curblk|
                  && slots == Replaced(old(slots), old(order), blkno, old(position) != blkno * blksize)
                  && (!fifo ==> order == if old(position) != blkno * blksize then ToBack(ToBack(old(order), 0), 0)
                                         else ToBack(old(order), 0))
    {
      hide Block, ByAge, Permutation, Replaced, ToBack, Moved, Agrees;
      var pos := blkno * blksize;
      ghost var before, list := slots, order;
      var found, isNew := GetblkLru(blkno);
      if found.None? {
        return Some(TooFarBack);
      }
      if !isNew {
        SlotAgrees(slots, file, blksize, found.value);
        if !fifo {
          IsMoved(list, found.value, blkno);
        }
        curblkno, curblk := Some(blkno), slots[found.value].data;
        high := if blkno > high then blkno else high;
        return None;
      }
      Refill(found.value, blkno, pos, before, list);
      return None;
    }

    /** A miss: a seek if the position is wrong, after which the look-up is made again, and the
        read. */
    method Refill(i: nat, blkno: nat, pos: nat, ghost first: seq<Slot>, ghost list: seq<nat>)
      requires Valid() && i < |slots| && pos == blkno * blksize && (fifo ==> i == blkno % |slots|)
      requires forall k :: 0 <= k < |slots| ==> slots[k].blkno != Some(blkno)
      requires |first| == |slots| && Permutation(list, |first|) && slots == first[i := Slot(None, first[i].data)]
      requires !fifo ==> i == list[0] && order == ToBack(list, 0)
      modifies this
      ensures Valid() && |slots| == old(|slots|) && InHand(blkno)
      ensures high == if blkno > old(high) then blkno else old(high)
      ensures position == pos + |curblk| && slots == Replaced(first, list, blkno, old(position) != pos)
      ensures !fifo ==> order == if old(position) != pos then ToBack(ToBack(list, 0), 0) else ToBack(list, 0)
    {
      hide Block, ByAge;
      ghost var emptied := slots;
      var at := i;
      if pos != position {
        position := pos;
        var found, isNew := GetblkLru(blkno);
        at := found.value;
        hide Permutation;
        Overwritten(emptied, at, Slot(None, emptied[at].data), Slot(Some(blkno), Block(file, blksize, blkno)));
      }
      hide Permutation;
      Overwritten(first, i, Slot(None, first[i].data), Slot(Some(blkno), Block(file, blksize, blkno)));
      Fill(at, blkno, pos);
    }

    /** The read into an emptied slot. */
    method Fill(i: nat, blkno: nat, pos: nat)
      requires Valid() && i < |slots| && pos == blkno * blksize && (fifo ==> i == blkno % |slots|)
      requires forall k :: 0 <= k < |slots| ==> slots[k].blkno != Some(blkno)
      modifies this
      ensures Valid() && |slots| == old(|slots|) && InHand(blkno)
      ensures high == if blkno > old(high) then blkno else old(high)
      ensures slots == old(slots)[i := Slot(Some(blkno), Block(file, blksize, blkno))]
      ensures order == old(order) && position == pos + |curblk|
    {
      hide Block, ByAge, Permutation;
      var data := ReadAt(pos, blkno);
      position := pos + |data|;
      curblk, curblkno := data, Some(blkno);
      slots := slots[i := Slot(Some(blkno), data)];
      high := if blkno > high then blkno else high;
    }

    /** main_read_primary_input at a position. */
    method ReadAt(pos: nat, blkno: nat) returns (data: seq<byte>)
      requires pos == blkno * blksize
      ensures data == Block(file, blksize, blkno)
    {
      data := if pos >= |file| then [] else file[pos..Min(|file|, pos + blksize)];
    }
  }

  // ---------------------------------------------------------------- what stays in the cache

  /** The block is in a slot with at least r others before it in the list. */
  ghost predicate Rank(slots: seq<Slot>, order: seq<nat>, blkno: nat, r: int) {
    exists k :: 0 <= k < |order| && r <= k && order[k] < |slots| && slots[order[k]].blkno == Some(blkno)
  }

  /** Another request that is a hit takes at most one place from a block. */
  lemma HitFalls(slots: seq<Slot>, list: seq<nat>, j: nat, blkno: nat, r: int)
    requires Rank(slots, list, blkno, r) && j < |list| && list[j] < |slots|
    requires slots[list[j]].blkno.Some? && slots[list[j]].blkno != Some(blkno)
    ensures Rank(slots, ToBack(list, j), blkno, r - 1)
  {
    var k :| 0 <= k < |list| && r <= k && list[k] < |slots| && slots[list[k]].blkno == Some(blkno);
    assert ToBack(list, j)[if j < k then k - 1 else k] == list[k];
  }

  /** So does a slot that is emptied or filled, if it is the first. */
  lemma FirstFalls(slots: seq<Slot>, list: seq<nat>, slot: Slot, blkno: nat, r: nat)
    requires r >= 1 && Rank(slots, list, blkno, r) && Permutation(list, |slots|)
    ensures |slots| > 0 && Rank(slots[list[0] := slot], ToBack(list, 0), blkno, r - 1)
  {
    var k :| 0 <= k < |list| && r <= k && list[k] < |slots| && slots[list[k]].blkno == Some(blkno);
    assert list[0] != list[k];
    assert ToBack(list, 0)[k - 1] == list[k];
  }

  /** The slots and the list after a request that is not refused. */
  ghost predicate Served(c: Cache, before: seq<Slot>, list: seq<nat>, after: seq<Slot>, list': seq<nat>, asked: nat,
                         seek: bool)
    requires |before| > 0 && Permutation(list, |before|)
  {
    || (after == before && exists j :: 0 <= j < |list| && list[j] < |before| && before[list[j]].blkno == Some(asked)
                                       && list' == ToBack(list, j))
    || (after == c.Replaced(before, list, asked, seek)
        && list' == if seek then ToBack(ToBack(list, 0), 0) else ToBack(list, 0))
  }

  /** A request for another block: the rank falls by at most two. */
  lemma RankFalls(c: Cache, before: seq<Slot>, list: seq<nat>, after: seq<Slot>, list': seq<nat>, blkno: nat,
                  other: nat,
                  seek: bool, r: nat)
    requires |before| > 0 && Permutation(list, |before|) && Served(c, before, list, after, list', other, seek)
    requires r >= 2 && Rank(before, list, blkno, r) && !c.fifo && blkno != other
    ensures Rank(after, list', blkno, r - 2)
  {
    hide Block, Rank, ToBack;
    if after == before && exists j :: 0 <= j < |list| && list[j] < |before| && before[list[j]].blkno == Some(other)
                                      && list' == ToBack(list, j) {
      var j :| 0 <= j < |list| && list[j] < |before| && before[list[j]].blkno == Some(other)
        && list' == ToBack(list, j);
      HitFalls(before, list, j, blkno, r);
      RankLess(after, list', blkno, r - 1, r - 2);
    } else {
      var filled := Slot(Some(other), Block(c.file, c.blksize, other));
      ToBackPermutes(list, |before|, 0);
      if seek {
        var emptied := Slot(None, before[list[0]].data);
        FirstFalls(before, list, emptied, blkno, r);
        FirstFalls(before[list[0] := emptied], ToBack(list, 0), filled, blkno, r - 1);
      } else {
        FirstFalls(before, list, filled, blkno, r);
        RankLess(after, list', blkno, r - 1, r - 2);
      }
    }
  }

  /** The block that was asked for is at the end of the list. */
  lemma RankTop(c: Cache, before: seq<Slot>, list: seq<nat>, after: seq<Slot>, list': seq<nat>, blkno: nat, seek: bool)
    requires |before| > 0 && Permutation(list, |before|) && Served(c, before, list, after, list', blkno, seek)
    requires !c.fifo && |after| == |before|
    ensures Rank(after, list', blkno, |before| - 1)
  {
    hide Block;
    assert list'[|before| - 1] < |after| && after[list'[|before| - 1]].blkno == Some(blkno);
  }

  /** After a request, the block stays for as many further requests as half the other slots: asked
      for again, it is handed out without a read. */
  method Retained(c: Cache, blkno: nat, others: seq<nat>) returns (err: Option<Error>)
    requires c.Valid() && !c.fifo && 2 * |others| < |c.slots|
    modifies c
    ensures c.Valid() && |c.slots| == old(|c.slots|)
    ensures exists i :: 0 <= i < |c.slots| && c.slots[i].blkno == Some(blkno)
  {
    hide Block, Agrees, Permutation, ByAge, Rank, Cache.Replaced, ToBack;
    ghost var n := |c.slots|;
    err := Ask(c, blkno, blkno, 0);
    for i := 0 to |others|
      invariant c.Valid() && |c.slots| == n && Rank(c.slots, c.order, blkno, n - 1 - 2 * i)
    {
      err := Ask(c, others[i], blkno, n - 1 - 2 * i);
      RankLess(c.slots, c.order, blkno, if others[i] == blkno then n - 1 else n - 1 - 2 * i - 2, n - 1 - 2 * (i + 1));
    }
    InSlot(c.slots, c.order, blkno, n - 1 - 2 * |others|);
  }

  lemma RankLess(slots: seq<Slot>, order: seq<nat>, blkno: nat, r: int, less: int)
    requires Rank(slots, order, blkno, r) && less <= r
    ensures Rank(slots, order, blkno, less)
  {
  }

  lemma InSlot(slots: seq<Slot>, order: seq<nat>, blkno: nat, r: int)
    requires Rank(slots, order, blkno, r)
    ensures exists i :: 0 <= i < |slots| && slots[i].blkno == Some(blkno)
  {
  }

  /** One request, and what it does to the rank of a block. */
  method Ask(c: Cache, request: nat, ghost blkno: nat, ghost r: nat) returns (err: Option<Error>)
    requires c.Valid() && !c.fifo && (request != blkno ==> r >= 2 && Rank(c.slots, c.order, blkno, r))
    modifies c
    ensures c.Valid() && |c.slots| == old(|c.slots|) && err.None?
    ensures Rank(c.slots, c.order, blkno, if request == blkno then |c.slots| - 1 else r - 2)
  {
    hide Block, Agrees, Permutation, ByAge, Rank, Cache.Replaced, ToBack;
    ghost var slots, order, seek := c.slots, c.order, c.position != request * c.blksize;
    err := c.GetblkFunc(request);
    if request == blkno {
      RankTop(c, slots, order, c.slots, c.order, blkno, seek);
    } else {
      RankFalls(c, slots, order, c.slots, c.order, blkno, request, seek, r);
    }
  }

  lemma SlotAgrees(slots: seq<Slot>, file: seq<byte>, blksize: nat, i: nat)
    requires Agrees(slots, file, blksize) && i < |slots| && slots[i].blkno.Some?
    ensures slots[i].data == Block(file, blksize, slots[i].blkno.value)
  {
    hide Block;
  }

  lemma Overwritten(s: seq<Slot>, i: nat, a: Slot, b: Slot)
    requires i < |s|
    ensures s[i := a][i := b] == s[i := b]
  {
  }

  lemma OldestFirst(order: seq<nat>, stamp: seq<nat>, clock: nat)
    requires Permutation(order, |stamp|) && ByAge(order, stamp, clock) && |order| > 0
    ensures forall i :: 0 <= i < |stamp| ==> stamp[order[0]] <= stamp[i]
  {
    forall i | 0 <= i < |stamp| ensures stamp[order[0]] <= stamp[i] {
      Somewhere(order, |stamp|, i);
      var k :| 0 <= k < |stamp| && order[k] == i;
    }
  }

  /** A later block with the same slot is at least n blocks later. */
  lemma SameSlot(v: nat, blkno: nat, n: nat)
    requires n > 0 && v % n == blkno % n && v > blkno
    ensures v >= blkno + n
  {
    Split(v, n);
    Split(blkno, n);
    var p, q := v / n, blkno / n;
    if p > q {
      Spread(q, p - q, n);
      Spread(1, p - q - 1, n);
    } else if p < q {
      Spread(p, q - p, n);
      Spread(1, q - p - 1, n);
    }
  }

  /** In FIFO mode a request is refused only if it goes back a whole cache. */
  lemma RefusedOnlyFarBack(c: Cache, blkno: nat)
    requires c.Valid() && c.fifo && blkno + |c.slots| > c.high
    ensures var s := c.slots[blkno % |c.slots|]; !(s.blkno.Some? && s.blkno.value > blkno)
  {
    var n := |c.slots|;
    var s := c.slots[blkno % n];
    if s.blkno.Some? && s.blkno.value > blkno {
      SameSlot(s.blkno.value, blkno, n);
    }
  }

  /** Any sequence of requests: what is handed out is what a direct read gives, and without FIFO
      nothing is refused. */
  method Serve(c: Cache, requests: seq<nat>) returns (results: seq<Option<seq<byte>>>)
    requires c.Valid()
    modifies c
    ensures c.Valid() && |results| == |requests|
    ensures forall i :: 0 <= i < |results| && results[i].Some? ==>
              results[i].value == Block(c.file, c.blksize, requests[i])
    ensures !c.fifo ==> forall i :: 0 <= i < |results| ==> results[i].Some?
  {
    hide Block, Agrees, Permutation, ByAge;
    results := [];
    for i := 0 to |requests|
      invariant c.Valid() && |results| == i
      invariant forall k :: 0 <= k < i && results[k].Some? ==> results[k].value == Block(c.file, c.blksize, requests[k])
      invariant !c.fifo ==> forall k :: 0 <= k < i ==> results[k].Some?
    {
      var err := c.GetblkFunc(requests[i]);
      results := results + [if err.None? then Some(c.curblk) else None];
    }
  }
}
