/** The string matcher: runs, source matches extended across blocks, and small target matches,
    tried at one input position after another with lazy matching.  It keeps the queue of
    candidates that the encoder's back end relies on. */
module Matcher {
  import opened Common
  import opened BitStream
  import opened SourceBlocks
  import opened WindowEncoder
  import opened SearchLog
  import Q = Queue

  // ---------------------------------------------------------------- comparing

  /** The first n bytes at two places agree. */
  ghost predicate Equal(s: seq<byte>, i: nat, t: seq<byte>, j: nat, n: nat)
    requires i + n <= |s| && j + n <= |t|
  {
    s[i..i + n] == t[j..j + n]
  }

  /** k is the length of the longest common prefix, up to n. */
  ghost predicate Longest(s: seq<byte>, i: nat, t: seq<byte>, j: nat, n: nat, k: nat)
    requires i + n <= |s| && j + n <= |t|
  {
    k <= n && Equal(s, i, t, j, k) && (k < n ==> s[i + k] != t[j + k])
  }

  lemma EqualMore(s: seq<byte>, i: nat, t: seq<byte>, j: nat, k: nat, m: nat)
    requires i + k + m <= |s| && j + k + m <= |t| && Equal(s, i, t, j, k) && Equal(s, i + k, t, j + k, m)
    ensures Equal(s, i, t, j, k + m)
  {
    assert s[i..i + k + m] == s[i..i + k] + s[i + k..i + k + m];
    assert t[j..j + k + m] == t[j..j + k] + t[j + k..j + k + m];
  }

  lemma EqualLess(s: seq<byte>, i: nat, t: seq<byte>, j: nat, k: nat, m: nat)
    requires i + k <= |s| && j + k <= |t| && Equal(s, i, t, j, k) && m <= k
    ensures Equal(s, i, t, j, m)
  {
    var a, b := s[i..i + k], t[j..j + k];
    assert s[i..i + m] == a[..m] by {
      assert forall p :: 0 <= p < m ==> a[p] == s[i + p];
    }
    assert t[j..j + m] == b[..m] by {
      assert forall p :: 0 <= p < m ==> b[p] == t[j + p];
    }
  }

  /** xd3_forward_match: eight words of four bytes at a time, then bytes. */
  method ForwardMatch(s: seq<byte>, i: nat, t: seq<byte>, j: nat, n: nat) returns (k: nat)
    requires i + n <= |s| && j + n <= |t|
    ensures Longest(s, i, t, j, n, k)
  {
    k := 0;
    var words: nat := n / 4;
    if words >= 8 {
      k := WordMatch(s, i, t, j, words);
      k := 4 * (k - 1);
    }
    while k < n && s[i + k] == t[j + k]
      invariant k <= n && Equal(s, i, t, j, k)
    {
      EqualMore(s, i, t, j, k, 1);
      k := k + 1;
    }
  }

  /** The words before w agree, and also word w - 1 if `same`. */
  ghost predicate Words(s: seq<byte>, i: nat, t: seq<byte>, j: nat, words: nat, w: nat, same: bool)
    requires i + 4 * words <= |s| && j + 4 * words <= |t|
  {
    && w <= words && (same || w > 0)
    && Equal(s, i, t, j, if same then 4 * w else 4 * (w - 1))
  }

  /** The unrolled condition: up to eight words. */
  method EightWords(s: seq<byte>, i: nat, t: seq<byte>, j: nat, words: nat, w0: nat) returns (w: nat, same: bool)
    requires i + 4 * words <= |s| && j + 4 * words <= |t| && w0 + 8 <= words && Words(s, i, t, j, words, w0, true)
    ensures w0 < w <= w0 + 8 && Words(s, i, t, j, words, w, same)
  {
    hide Equal;
    w, same := w0, true;
    while same && w < w0 + 8
      invariant w0 <= w <= w0 + 8 && Words(s, i, t, j, words, w, same) && (w == w0 ==> same)
      decreases w0 + 8 - w
    {
      var a, b := i + 4 * w, j + 4 * w;
      same := s[a..a + 4] == t[b..b + 4];
      if same {
        assert Equal(s, a, t, b, 4) by { WordEqual(s, a, t, b); }
        EqualMore(s, i, t, j, 4 * w, 4);
      }
      w := w + 1;
    }
  }

  lemma WordEqual(s: seq<byte>, a: nat, t: seq<byte>, b: nat)
    requires a + 4 <= |s| && b + 4 <= |t| && s[a..a + 4] == t[b..b + 4]
    ensures Equal(s, a, t, b, 4)
  {
  }

  /** The word loop: it stops just past the first different word, or when fewer than eight
      words are left. */
  method WordMatch(s: seq<byte>, i: nat, t: seq<byte>, j: nat, words: nat) returns (w: nat)
    requires words >= 8 && i + 4 * words <= |s| && j + 4 * words <= |t|
    ensures 1 <= w <= words && Equal(s, i, t, j, 4 * (w - 1))
  {
    w := 0;
    var same := true;
    while same && w <= words - 8
      invariant Words(s, i, t, j, words, w, same) && (w == 0 ==> same)
      decreases words - w
    {
      w, same := EightWords(s, i, t, j, words, w);
    }
    if same {
      EqualLess(s, i, t, j, 4 * w, 4 * (w - 1));
    }
  }

  // ---------------------------------------------------------------- the queue

  /** A candidate is true: a run, or bytes equal to earlier input or to the source file. */
  ghost predicate True(m: Q.Match, file: seq<byte>, input: seq<byte>) {
    Genuine(m, Source(0, file), input) && m.size >= MIN_MATCH
  }

  /** Source candidates lie between the two addresses. */
  ghost predicate Between(m: Q.Match, lo: nat, hi: nat) {
    m.CopyMatch? && m.fromSource ==> lo <= m.addr && m.addr + m.size <= hi
  }

  ghost predicate GoodQueue(q: seq<Q.Match>, file: seq<byte>, input: seq<byte>, lo: nat, hi: nat) {
    && Q.Ordered(q)
    && forall i :: 0 <= i < |q| ==> True(q[i], file, input) && Between(q[i], lo, hi)
  }

  /** The last candidate starts before `ip` and ends before `end`. */
  ghost predicate LastBefore(q: seq<Q.Match>, ip: nat, end: nat) {
    q != [] ==> q[|q| - 1].pos < ip && q[|q| - 1].End() < end
  }

  lemma QueueSnoc(q: seq<Q.Match>, m: Q.Match, file: seq<byte>, input: seq<byte>, lo: nat, hi: nat)
    requires GoodQueue(q, file, input, lo, hi) && True(m, file, input) && Between(m, lo, hi)
             && LastBefore(q, m.pos, m.End())
    ensures GoodQueue(q + [m], file, input, lo, hi)
  {
    hide Genuine;
  }

  lemma QueueWiden(q: seq<Q.Match>, file: seq<byte>, input: seq<byte>, lo: nat, hi: nat, lo': nat, hi': nat)
    requires GoodQueue(q, file, input, lo, hi) && hi <= hi' && (hi == 0 || lo' <= lo)
    ensures GoodQueue(q, file, input, lo', hi')
  {
    hide Genuine;
  }

  lemma QueuePrefix(q: seq<Q.Match>, k: nat, file: seq<byte>, input: seq<byte>, lo: nat, hi: nat, ip: nat, end: nat)
    requires GoodQueue(q, file, input, lo, hi) && k <= |q| && LastBefore(q, ip, end)
    ensures GoodQueue(q[..k], file, input, lo, hi) && LastBefore(q[..k], ip, end)
  {
    hide Genuine;
  }

  /** Around positions ip of the input and srcpos of the source the bytes agree. */
  ghost predicate SameBytes(input: seq<byte>, file: seq<byte>, ip: nat, srcpos: nat, back: nat, fwd: nat)
    requires back <= ip && back <= srcpos && ip + fwd <= |input| && srcpos + fwd <= |file|
  {
    forall p :: ip - back <= p < ip + fwd ==> input[p] == file[p - ip + srcpos]
  }

  /** Bytes of a block that agree with the input extend the match forwards. */
  lemma SameForward(input: seq<byte>, file: seq<byte>, ip: nat, srcpos: nat, back: nat, fwd: nat,
                    blk: seq<byte>, lo: nat, off: nat, n: nat)
    requires back <= ip && back <= srcpos && ip + fwd + n <= |input| && lo + off == srcpos + fwd && off + n <= |blk|
    requires lo + |blk| <= |file| && forall i :: 0 <= i < |blk| ==> blk[i] == file[lo + i]
    requires SameBytes(input, file, ip, srcpos, back, fwd) && Equal(blk, off, input, ip + fwd, n)
    ensures srcpos + fwd + n <= |file| && SameBytes(input, file, ip, srcpos, back, fwd + n)
  {
    var a, b := blk[off..off + n], input[ip + fwd..ip + fwd + n];
    forall p | ip - back <= p < ip + fwd + n ensures input[p] == file[p - ip + srcpos] {
      if p >= ip + fwd {
        var k := p - (ip + fwd);
        assert a[k] == blk[off + k] && b[k] == input[p];
      }
    }
  }

  datatype MState = Target | Forward | Backward | Searching

  datatype MRet = Done | GetSrcBlk

  /** Part of xd3_stream, with the whole source file as what blocks are read from. */
  class Search {
    const input: seq<byte>
    const file: seq<byte>
    const cfg: Config
    const hash: seq<byte> -> nat
    const answers: nat -> Answer
    const smallTable: array<nat>
    const smallPrev: array<nat>
    // the instruction buffer, which grows when it is full
    var used: seq<Q.Match>
    var free: nat
    var ioptSize: nat
    // the scan
    var ip: nat
    var minMatch: nat
    // the source match in progress
    var state: MState
    var srcpos: nat
    var lastSrcpos: nat
    var maxBack: nat
    var maxFwd: nat
    var back: nat
    var fwd: nat
    var minAddr: nat
    var maxAddr: nat
    // xd3_source
    var curblkno: Option<nat>
    var curblk: seq<byte>
    var getblkno: nat
    // the number of log entries, which numbers the look-ups in the source
    var steps: nat
    // what has been done, and whether the extension backwards was given up
    ghost var log: seq<Event>
    ghost var noBack: bool

    /** The window as the log refers to it. */
    function S(): Setting {
      Setting(input, file, cfg, hash, answers, smallTable.Length, smallPrev.Length)
    }

    /** Every queued candidate is true, starts and ends increase. */
    ghost predicate QueueOk()
      reads this`minAddr, this`maxAddr, this`used, this`free, this`ioptSize
    {
      && minAddr <= maxAddr <= |file|
      && cfg.elts > 0 && |used| + free == ioptSize
      && GoodQueue(used, file, input, minAddr, maxAddr)
    }

    ghost predicate Sound()
      reads this`ip, this`minAddr, this`maxAddr, this`used, this`free, this`ioptSize
    {
      ip <= |input| && QueueOk()
    }

    /** A match at the current position that is long enough ends after all before it. */
    ghost predicate Room()
      reads this`minMatch, this`used, this`ip
    {
      minMatch >= MIN_MATCH && LastBefore(used, ip, ip + minMatch)
    }

    ghost predicate Fresh()
      reads this`minMatch, this`used, this`ip
    {
      Room() && minMatch == Least(used, ip)
    }

    /** The log is right and the queue is what it says. */
    ghost predicate Logged()
      reads this`used, this`log, this`steps, this`minAddr, this`maxAddr
    {
      && S().Valid() && Walk(S(), log) && used == Replay(log) && steps == |log|
      && (minAddr, maxAddr) == Range(log)
    }

    /** The match in progress: what has been compared is equal, within its limits. */
    ghost predicate Extending()
      reads this`ip, this`back, this`fwd, this`maxBack, this`maxFwd, this`srcpos
    {
      && back <= maxBack == Min(ip, srcpos) && srcpos <= |file| && ip <= |input|
      && fwd <= maxFwd <= |input| - ip && srcpos + fwd <= |file|
      && (maxFwd == |input| - ip || maxFwd + srcpos == |file|)
      && SameBytes(input, file, ip, srcpos, back, fwd)
    }

    /** The backward half of the match in progress is over. */
    ghost predicate BackOver()
      reads this`ip, this`back, this`srcpos, this`noBack
    {
      srcpos <= |file| && ip <= |input| && (noBack || back == Suffix(input, ip, file, srcpos))
    }

    /** The match in progress was set up where the log says. */
    ghost predicate Pending()
      reads this`srcpos, this`lastSrcpos, this`log, this`noBack
    {
      && cfg.doLarge && lastSrcpos == srcpos
      && (log == [] || answers(|log|).place == Some(srcpos))
      && (cfg.patient && log != [] ==> !noBack)
    }

    ghost predicate BlockOk()
      reads this`curblkno, this`curblk
    {
      curblkno.Some? ==> curblk == Block(file, Pow2(cfg.shiftby), curblkno.value)
    }

    predicate InProgress()
      reads this`state
    {
      state == Backward || state == Forward
    }

    /** What holds between calls. */
    ghost predicate Valid()
      reads this
    {
      && Sound() && Fresh() && BlockOk() && Logged() && ip == Reached(S(), log)
      && (InProgress() ==> Extending() && Pending())
      && (state == Backward ==> fwd == 0) && (state == Forward ==> BackOver())
      && (state == Target ==> srcpos <= |file| && log == [])
      && (!InProgress() ==> lastSrcpos == LastSetup(S(), log))
    }

    /** xd3_iopt_get_slot: the unlimited buffer grows when no slot is free. */
    method GetSlot()
      requires Sound()
      modifies this`free, this`ioptSize
      ensures |used| + 1 + free == ioptSize
    {
      if free == 0 {
        ioptSize, free := ioptSize + cfg.elts, free + cfg.elts;
      }
      free := free - 1;
    }

    /** xd3_found_match, xd3_emit_run */
    method Enqueue(m: Q.Match)
      requires Sound() && True(m, file, input) && Between(m, minAddr, maxAddr) && LastBefore(used, m.pos, m.End())
      modifies this`used, this`free, this`ioptSize
      ensures Sound() && used == old(used) + [m] == Taken(old(used), Some(m))
    {
      KeepsAll(used, m.pos);
      QueueSnoc(used, m, file, input, minAddr, maxAddr);
      GetSlot();
      used := used + [m];
    }

    /** xd3_iopt_erase */
    method Erase(pos: nat)
      requires Sound() && Room()
      modifies this`used, this`free, this`ioptSize
      ensures Sound() && Room() && used == Keep(old(used), pos)
    {
      hide GoodQueue, LastBefore, Keep;
      while used != []
        invariant Sound() && Room() && Keep(used, pos) == Keep(old(used), pos)
        decreases |used|
      {
        KeepStep(used, pos);
        if used[|used| - 1].pos < pos {
          return;
        }
        QueuePrefix(used, |used| - 1, file, input, minAddr, maxAddr, ip, ip + minMatch);
        used, free := used[..|used| - 1], free + 1;
      }
      KeepsAll(used, pos);
    }

    /** xd3_source_match_setup with an undecided source window.  `refused` stands for the limit
        on seeking back; `eofKnown` for knowing the size of the source. */
    method MatchSetup(pos: nat, refused: bool, eofKnown: bool) returns (ok: bool)
      requires pos <= |file| && ip <= |input|
      modifies this`maxBack, this`maxFwd, this`back, this`fwd, this`state, this`srcpos, this`lastSrcpos, this`noBack
      ensures ok <==> !refused && !(pos != 0 && pos == old(lastSrcpos))
      ensures ok ==> state == Backward && Extending() && back == fwd == 0 && srcpos == pos == lastSrcpos && !noBack
      ensures !ok ==> state == Searching && fwd == 0 && srcpos == old(srcpos) && lastSrcpos == old(lastSrcpos)
    {
      maxBack, maxFwd, back, fwd, noBack := 0, 0, 0, 0, false;
      if (pos != 0 && pos == lastSrcpos) || refused {
        state := Searching;
        return false;
      }
      maxBack := ip;
      maxFwd := |input| - ip;
      if pos < maxBack {
        maxBack := pos;
      }
      if eofKnown {
        var srcavail := |file| - pos;
        if srcavail < maxFwd {
          maxFwd := srcavail;
        }
      }
      state, srcpos, lastSrcpos := Backward, pos, pos;
      ok := true;
    }

    /** xd3_getblk: the block in hand, or the application is asked for it or declines. */
    method GetBlk(blkno: nat) returns (have: bool, tooFarBack: bool)
      modifies this`getblkno
      ensures have ==> curblkno == Some(blkno) && !tooFarBack
      ensures !have && !tooFarBack ==> getblkno == blkno && curblkno != Some(blkno)
      ensures tooFarBack ==> !cfg.patient
    {
      if curblkno == Some(blkno) {
        return true, false;
      }
      getblkno := blkno;
      var declined: bool := *;
      tooFarBack := declined && !cfg.patient;
      have := false;
    }

    /** The comparison of one block, backwards from offset `from` of the block. */
    method CompareBack(from: nat, rem: nat, ghost lo: nat) returns (same: bool)
      requires Extending() && fwd == 0 && Holds(curblk, file, lo, from)
      requires rem <= from && lo + from == srcpos - back && back + rem <= maxBack
      modifies this`back
      ensures Extending() && old(back) <= back && (same ==> back == old(back) + rem)
      ensures !same ==> back < maxBack && file[srcpos - back - 1] != input[ip - back - 1]
    {
      var tryoff: nat, tryrem: nat := from, rem;
      var streamoff := ip - back;
      while tryrem != 0
        invariant tryrem <= tryoff <= from && Extending() && back == old(back) + (rem - tryrem)
                  && rem - tryrem == from - tryoff
        invariant streamoff == ip - back
      {
        assert curblk[tryoff - 1] == file[lo + (tryoff - 1)];
        if curblk[tryoff - 1] != input[streamoff - 1] {
          return false;
        }
        tryoff, streamoff, tryrem := tryoff - 1, streamoff - 1, tryrem - 1;
        back := back + 1;
      }
      same := true;
    }

    /** Where backward comparison has stopped. */
    lemma BackStopped()
      requires Extending()
      requires back == maxBack || (back < maxBack && file[srcpos - back - 1] != input[ip - back - 1])
      ensures back == Suffix(input, ip, file, srcpos)
    {
      SuffixIs(input, ip, file, srcpos, back);
    }

    lemma ForwardStopped()
      requires Extending()
      requires fwd == maxFwd || srcpos + fwd == |file| || file[srcpos + fwd] != input[ip + fwd]
      ensures fwd == Prefix(input, ip, file, srcpos)
    {
      PrefixIs(input, ip, file, srcpos, fwd);
    }

    /** The backward half of xd3_source_extend_match: it ends where the bytes differ, or input or
        source begin, unless the application declines a block. */
    method ExtendBack() returns (ret: MRet)
      requires Extending() && fwd == 0 && BlockOk() && !noBack
      modifies this`back, this`getblkno, this`noBack
      ensures Extending() && BlockOk() && fwd == 0
      ensures ret == GetSrcBlk ==> curblkno != Some(getblkno) && !noBack
      ensures ret == Done ==> BackOver() && (noBack ==> !cfg.patient)
    {
      hide Pow2, Block, StartsAt, Holds, Suffix, SameBytes;
      var blksize := Pow2(cfg.shiftby);
      var tryblk: nat, tryoff: nat := BlksizeDiv(srcpos - back, cfg.shiftby);
      ghost var lo: nat := StartOf(tryblk, blksize);
      while back < maxBack
        invariant Extending() && fwd == 0 && BlockOk() && !noBack
        invariant StartsAt(lo, tryblk, blksize) && lo + tryoff == srcpos - back && tryoff <= blksize
        decreases maxBack - back
      {
        if tryoff == 0 {
          PreviousBlock(lo, tryblk, blksize);
          tryoff, tryblk := blksize, tryblk - 1;
          lo := lo - blksize;
        }
        var have, tooFarBack := GetBlk(tryblk);
        if tooFarBack {
          noBack := true;
          return Done;
        }
        if !have {
          return GetSrcBlk;
        }
        BlockHolds(file, blksize, tryblk, lo, tryoff);
        var tryrem: nat := Min(tryoff, maxBack - back);
        var same := CompareBack(tryoff, tryrem, lo);
        if !same {
          BackStopped();
          return Done;
        }
        tryoff := tryoff - tryrem;
      }
      BackStopped();
      ret := Done;
    }

    /** The comparison of one block, forwards from offset `from` of the block. */
    method CompareForward(from: nat, rem: nat, ghost lo: nat) returns (matched: nat)
      requires Extending() && lo + from == srcpos + fwd && from + rem <= |curblk| && fwd + rem <= maxFwd
      requires lo + |curblk| <= |file| && forall i :: 0 <= i < |curblk| ==> curblk[i] == file[lo + i]
      modifies this`fwd
      ensures Extending() && matched <= rem && fwd == old(fwd) + matched
      ensures matched < rem ==> fwd < maxFwd && srcpos + fwd < |file| && file[srcpos + fwd] != input[ip + fwd]
    {
      hide Equal, SameBytes;
      matched := ForwardMatch(curblk, from, input, ip + fwd, rem);
      SameForward(input, file, ip, srcpos, back, fwd, curblk, lo, from, matched);
      fwd := fwd + matched;
    }

    /** The forward half of xd3_source_extend_match: it ends where the bytes differ, or input or
        source end, unless the application declines a block. */
    method ExtendForward() returns (ret: MRet, ghost noFwd: bool)
      requires Extending() && BlockOk()
      modifies this`fwd, this`getblkno
      ensures Extending() && BlockOk() && fwd >= old(fwd)
      ensures ret == GetSrcBlk ==> curblkno != Some(getblkno)
      ensures ret == Done ==> noFwd || fwd == Prefix(input, ip, file, srcpos)
      ensures noFwd ==> !cfg.patient
    {
      hide Pow2, Block, StartsAt, Equal, SameBytes, Prefix;
      noFwd := false;
      var blksize := Pow2(cfg.shiftby);
      var tryblk: nat, tryoff: nat := BlksizeDiv(srcpos + fwd, cfg.shiftby);
      ghost var lo: nat := StartOf(tryblk, blksize);
      while fwd < maxFwd
        invariant Extending() && BlockOk() && fwd >= old(fwd)
        invariant StartsAt(lo, tryblk, blksize) && lo + tryoff == srcpos + fwd && tryoff <= blksize
        decreases maxFwd - fwd
      {
        if tryoff == blksize {
          NextBlock(lo, tryblk, blksize);
          tryoff, tryblk := 0, tryblk + 1;
          lo := lo + blksize;
        }
        var have, tooFarBack := GetBlk(tryblk);
        if tooFarBack {
          noFwd := true;
          return Done, noFwd;
        }
        if !have {
          return GetSrcBlk, noFwd;
        }
        BlockSize(file, blksize, tryblk, lo);
        var tryrem: nat := Min(maxFwd - fwd, |curblk| - tryoff);
        if tryrem == 0 {
          ForwardStopped();
          return Done, noFwd;
        }
        var matched := CompareForward(tryoff, tryrem, lo);
        tryoff := tryoff + matched;
        if tryrem != matched {
          ForwardStopped();
          return Done, noFwd;
        }
      }
      ForwardStopped();
      ret := Done;
    }

    /** What the extension found, as a candidate. */
    function Found(): Q.Match
      requires back <= ip && back <= srcpos
      reads this
    {
      Q.CopyMatch(ip - back, back + fwd, srcpos - back, true)
    }

    lemma FoundIsTrue()
      requires Extending() && back + fwd >= MIN_MATCH
      ensures True(Found(), file, input)
    {
      var m := Found();
      forall p | m.pos <= p < m.End() ensures input[p] == Claimed(m, Source(0, file), input, p) {
        assert input[p] == file[p - ip + srcpos];
      }
    }

    /** It is what the log expects of a source match. */
    lemma FoundIsRight(noFwd: bool)
      requires Extending() && BackOver() && (noFwd || fwd == Prefix(input, ip, file, srcpos))
      requires cfg.patient ==> !noFwd
      ensures SourceFound(S(), ip, srcpos, minMatch, noBack, noFwd, if fwd < minMatch then None else Some(Found()))
    {
      SuffixAtLeast(input, ip, file, srcpos, back);
      PrefixAtLeast(input, ip, file, srcpos, fwd);
    }

    /** Candidates that a match extended backwards covers go. */
    method EraseCovered(m: Q.Match)
      requires Sound() && Room() && m.pos == ip - back && back <= ip
      requires m.End() >= ip + minMatch
      modifies this`used, this`free, this`ioptSize
      ensures Sound() && used == Keep(old(used), m.pos) && LastBefore(used, m.pos, m.End())
    {
      hide GoodQueue, Keep;
      KeepsAll(used, ip);
      if back > 0 {
        Erase(m.pos);
      }
    }

    /** The match is taken: covered candidates go, the address range grows, it is queued. */
    method TakeMatch()
      requires Sound() && Room() && Extending() && fwd >= minMatch
      modifies this`used, this`free, this`ioptSize, this`back, this`minAddr, this`maxAddr
      ensures Sound() && LastBefore(used, ip + 1, ip + fwd + 1) && used == Taken(old(used), Some(old(Found())))
      ensures (minAddr, maxAddr) == NewRange(old(minAddr), old(maxAddr), Some(old(Found())))
    {
      hide True, GoodQueue, Keep, Taken, SameBytes, Least, LastBefore;
      FoundIsTrue();
      var m, matchEnd := Found(), srcpos + fwd;
      EraseCovered(m);
      TakenKept(old(used), m);
      back := 0;
      QueueWiden(used, file, input, minAddr, maxAddr,
                 if maxAddr == 0 || m.addr < minAddr then m.addr else minAddr, Max(matchEnd, maxAddr));
      if maxAddr == 0 || m.addr < minAddr {
        minAddr := m.addr;
      }
      if matchEnd > maxAddr {
        maxAddr := matchEnd;
      }
      Enqueue(m);
      LastIs(used, m, ip + 1, ip + fwd + 1);
    }

    /** The backward half, if it is not over. */
    method FinishBack() returns (ret: MRet)
      requires Valid() && InProgress()
      modifies this`back, this`getblkno, this`state, this`noBack
      ensures Valid() && InProgress()
      ensures ret == GetSrcBlk ==> curblkno != Some(getblkno)
      ensures ret == Done ==> state == Forward && (cfg.patient ==> (noBack ==> old(noBack)))
    {
      hide GoodQueue, Block, Pow2, Walk, Replay, SameBytes, Suffix, Setting.Valid, Reached, LastSetup, Least;
      hide Sound, Room, Fresh, Logged, BlockOk;
      ret := Done;
      if state == Backward {
        noBack := false;
        ret := ExtendBack();
        if ret == Done {
          state := Forward;
        }
      }
    }

    /** xd3_source_extend_match: on a request for a block everything stays, so that the next call
        takes up the comparison; in the end what was found is queued if it is long enough. */
    method ExtendMatch() returns (ret: MRet, ghost noFwd: bool, ghost found: Option<Q.Match>)
      requires Valid() && InProgress()
      modifies this`back, this`fwd, this`getblkno, this`state, this`used, this`free, this`ioptSize, this`minAddr,
               this`maxAddr, this`srcpos, this`noBack
      ensures ret == GetSrcBlk ==> Valid() && used == old(used) && InProgress() && curblkno != Some(getblkno)
      ensures ret == Done ==>
                && Sound() && BlockOk() && old(srcpos) <= |file|
                && SourceFound(S(), ip, old(srcpos), minMatch, noBack, noFwd, found)
                && used == Taken(old(used), found)
                && (minAddr, maxAddr) == NewRange(old(minAddr), old(maxAddr), found)
                && fwd == (if found.None? then 0 else Max(found.value.End(), ip) - ip) && ip + fwd <= |input|
                && (state == Searching || (state == Target && ip + fwd == |input| && srcpos <= |file|))
                && (cfg.patient ==> !noFwd && (noBack ==> old(noBack)))
      ensures ret == Done && found.Some? ==> fwd >= MIN_MATCH && LastBefore(used, ip + 1, ip + fwd + 1)
    {
      hide GoodQueue, Block, Pow2, Walk, Replay, SameBytes, Prefix, Suffix, Setting.Valid, Reached, LastSetup, Taken,
           Least;
      hide Logged, SourceFound, BlockOk, LastBefore;
      noFwd, found := false, None;
      ret := FinishBack();
      if ret == GetSrcBlk {
        return;
      }
      ret, noFwd := ExtendForward();
      if ret == Done {
        found := Conclude(noFwd);
      }
    }

    lemma SoundFits()
      requires Sound()
      ensures ip <= |input|
    {
    }

    lemma ExtendingFits()
      requires Extending()
      ensures back <= ip && back <= srcpos && srcpos + fwd <= |file| && ip + fwd <= |input|
    {
      hide SameBytes;
    }

    lemma RoomFits()
      requires Room()
      ensures minMatch >= MIN_MATCH
    {
    }

    /** A match is taken if it is long enough forwards. */
    method Conclude(ghost noFwd: bool) returns (ghost found: Option<Q.Match>)
      requires Sound() && Room() && Extending() && BackOver() && (cfg.patient ==> !noFwd)
      requires noFwd || fwd == Prefix(input, ip, file, srcpos)
      modifies this`back, this`fwd, this`state, this`used, this`free, this`ioptSize, this`minAddr, this`maxAddr,
               this`srcpos
      ensures Sound() && old(srcpos) <= |file|
      ensures SourceFound(S(), ip, old(srcpos), minMatch, noBack, noFwd, found)
      ensures used == Taken(old(used), found) && (minAddr, maxAddr) == NewRange(old(minAddr), old(maxAddr), found)
      ensures fwd == (if found.None? then 0 else Max(found.value.End(), ip) - ip) && ip + fwd <= |input|
      ensures state == Searching || (state == Target && ip + fwd == |input| && srcpos <= |file|)
      ensures found.Some? ==> fwd >= MIN_MATCH && LastBefore(used, ip + 1, ip + fwd + 1)
    {
      hide Sound, Extending, BackOver, Room, LastBefore, Prefix, Suffix, Taken, Least, SourceFound;
      ExtendingFits();
      FoundIsRight(noFwd);
      RoomFits();
      state := Searching;
      if fwd < minMatch {
        found := None;
        NothingTaken(used);
        fwd := 0;
      } else {
        found := Some(Found());
        TakeMatch();
        if ip + fwd == |input| {
          state, srcpos := Target, srcpos + fwd;
        }
      }
    }

    /** The expansion loop of xd3_smatch. */
    method CommonLength(base: nat) returns (n: nat)
      requires base < ip <= |input|
      ensures n == Prefix(input, ip, input, base)
    {
      n := 0;
      while ip + n < |input| && input[ip + n] == input[base + n]
        invariant ip + n <= |input| && forall p :: ip <= p < ip + n ==> input[p] == input[p - ip + base]
      {
        n := n + 1;
      }
      PrefixIs(input, ip, input, base, n);
    }

    /** The small table as a look-up at this position finds it. */
    ghost predicate Looking()
      reads this`log, this`ip, smallTable, smallPrev
    {
      && S().Valid() && Rising(log) && ip + cfg.slook <= |input|
      && (forall i :: 0 <= i < |log| && log[i].Tried? ==> log[i].at < ip)
      && TableHolds(S(), log, smallTable[..], smallPrev[..], ip)
    }

    /** The candidate before the last one on the chain, if the chain reaches back to one. */
    method NextCandidate(base: nat, ghost limit: nat, ghost cands: seq<nat>) returns (more: bool, next: nat)
      requires Looking() && Linked(S(), log, ip, S().Slot(ip), cands) && cands[|cands| - 1] == base
      ensures more ==> next < ip && Linked(S(), log, ip, S().Slot(ip), cands + [next])
      ensures !more ==> ChainSeen(S(), log, ip, limit, cands)
    {
      hide Head, HeadBefore, TableHolds, Rising, Best, Linked, ChainSeen, Before;
      ghost var s, slot := S(), S().Slot(ip);
      LinkedBefore(s, log, ip, slot, cands);
      var prev := smallPrev[base % smallPrev.Length];
      next := 0;
      NextLink(s, log, smallTable[..], smallPrev[..], ip, slot, cands);
      if prev == 0 || prev - 1 > base {
        ChainEnds(s, log, ip, limit, cands);
        return false, next;
      }
      if ip - (prev - 1) >= smallPrev.Length {
        ChainEnds(s, log, ip, limit, cands);
        return false, next;
      }
      next := prev - 1;
      LinkGoesOn(s, log, ip, slot, cands, next);
      more := true;
    }

    /** xd3_smatch: the longest of the chained candidates that are looked at, unless that is too
        short and too far. */
    method Smatch(first: nat) returns (length: nat, offset: nat, ghost cands: seq<nat>)
      requires Looking() && first == Head(S(), log, S().Slot(ip)) > 0
      ensures ChainSeen(S(), log, ip, if minMatch == MIN_MATCH then cfg.chain else cfg.lchain, cands)
      ensures var (n, place) := Best(input, ip, cands);
              offset == place && length == if FarShort(n, Max(ip, place) - place) then 0 else n
    {
      hide Agree, Prefix, Head, HeadBefore, Best, Linked, ChainSeen, Before, TableHolds, Rising, Setting.Slot;
      ghost var s, slot := S(), S().Slot(ip);
      var chain: nat := if minMatch == MIN_MATCH then cfg.chain else cfg.lchain;
      ghost var limit := chain;
      HeadEarlier(s, log, slot, ip);
      var base: nat := first - 1;
      LinkStarts(s, log, ip, slot, base);
      NoCandidate(input, ip);
      hide Looking;
      length, offset, cands := 0, 0, [];
      while true
        invariant base < ip && Before(cands, ip) && (length, offset) == Best(input, ip, cands)
        invariant |cands| + chain == limit && Linked(s, log, ip, slot, cands + [base])
        decreases chain
      {
        LinkedBefore(s, log, ip, slot, cands + [base]);
        BestSnoc(input, ip, cands, base);
        var cmpLen := CommonLength(base);
        cands := cands + [base];
        if cmpLen > length {
          length, offset := cmpLen, base;
          if ip + cmpLen == |input| || cmpLen >= cfg.longEnough {
            ChainEnds(s, log, ip, limit, cands);
            break;
          }
        }
        if chain <= 1 {
          ChainEnds(s, log, ip, limit, cands);
          break;
        }
        chain := chain - 1;
        var more, next := NextCandidate(base, limit, cands);
        if !more {
          break;
        }
        base := next;
      }
      BestPlace(input, ip, cands);
      if (length == 4 && ip - offset >= 0x4000) || (length == 5 && ip - offset >= 0x20_0000) {
        length := 0;
      }
    }

    // -------------------------------------------------------------- the scan

    /** The small table is what the log says. */
    ghost predicate Tables()
      reads this`log, this`ip, smallTable, smallPrev
    {
      smallTable.Length > 0 && smallPrev.Length > 0 && smallTable != smallPrev
      && TableHolds(S(), log, smallTable[..], smallPrev[..], ip)
    }

    /** The run length counts the equal bytes before the end of the look-ahead.  Once a run has
        been expanded it is out of step, until the run is over. */
    ghost predicate RunState(runL: nat, runC: byte)
      reads this`ip, this`log
    {
      && ip + cfg.slook <= |input| && cfg.slook > 0 && runL > 0
      && (forall p :: ip + cfg.slook - Min(runL, cfg.slook) <= p < ip + cfg.slook ==> input[p] == runC)
      && (runL < cfg.slook ==> input[ip + cfg.slook - runL - 1] != runC)
      && (runL > cfg.slook ==> SeenBefore(S(), log, ip))
    }

    /** xd3_comprun */
    method CompRun() returns (runL: nat, runC: byte)
      requires ip + cfg.slook <= |input| && cfg.slook > 0
      ensures RunState(runL, runC) && runL <= cfg.slook
    {
      runL, runC := 0, 0;
      for i := 0 to cfg.slook
        invariant runL <= i && (i > 0 ==> runL > 0)
        invariant forall p :: ip + i - runL <= p < ip + i ==> input[p] == runC
        invariant runL < i ==> input[ip + i - runL - 1] != runC
      {
        if input[ip + i] == runC {
          runL := runL + 1;
        } else {
          runL, runC := 1, input[ip + i];
        }
      }
    }

    /** The expansion loop of a run. */
    method ExpandRun(runC: byte) returns (runL: nat)
      requires ip + cfg.slook <= |input| && forall p :: ip <= p < ip + cfg.slook ==> input[p] == runC
      ensures runL == RunLength(input, ip, runC) >= cfg.slook
    {
      runL := cfg.slook;
      while runL < |input| - ip && input[ip + runL] == runC
        invariant cfg.slook <= runL <= |input| - ip && forall p :: ip <= p < ip + runL ==> input[p] == runC
      {
        runL := runL + 1;
      }
      RunIs(input, ip, runC, runL);
    }

    /** The start of a run is expanded once and queued if it is long enough. */
    method TryRun(runL0: nat, runC: byte) returns (runL: nat, found: bool)
      requires Sound() && Fresh() && RunState(runL0, runC)
      modifies this`used, this`free, this`ioptSize
      ensures Sound() && RunStays(runL0, runL, runC)
      ensures found <==> RunTaken(S(), ip, minMatch, runL0 > cfg.slook)
      ensures if found then used == Taken(old(used), Some(Q.RunMatch(ip, runL, input[ip]))) else used == old(used)
      ensures found ==> runL == RunLength(input, ip, input[ip]) >= MIN_MATCH && LastBefore(used, ip + 1, ip + runL + 1)
    {
      hide GoodQueue, SameAhead, Taken, Least, True, LastBefore, RunState, RunStays, RunLength;
      runL, found := runL0, false;
      RunKept(runL0, runC);
      if runL == cfg.slook {
        runL := ExpandRun(runC);
        if runL >= minMatch && runL >= MIN_RUN {
          LastShrinks(used, ip, ip + minMatch, ip + runL);
          RunIsTrue(file, input, ip, runL, runC);
          Enqueue(Q.RunMatch(ip, runL, runC));
          LastIs(used, Q.RunMatch(ip, runL, runC), ip + 1, ip + runL + 1);
          found := true;
        }
      }
    }

    /** The counter before and after. */
    lemma RunKept(runL0: nat, runC: byte)
      requires RunState(runL0, runC)
      ensures ip + cfg.slook <= |input| && cfg.slook > 0
      ensures RunStays(runL0, if runL0 == cfg.slook then RunLength(input, ip, runC) else runL0, runC)
      ensures if runL0 < cfg.slook then !SameAhead(S(), ip) else SameAhead(S(), ip) && input[ip] == runC
      ensures runL0 == cfg.slook ==> forall p :: ip <= p < ip + cfg.slook ==> input[p] == runC
    {
      RunAhead(S(), ip, runL0, runC);
      hide SameAhead;
      if runL0 == cfg.slook {
        RunReaches(input, ip, runC, cfg.slook);
      }
    }

    /** The run length before and after it was tried at this position. */
    ghost predicate RunStays(runL0: nat, runL: nat, runC: byte)
      reads this`ip
    {
      && ip + cfg.slook <= |input| && cfg.slook > 0 && runL > 0
      && (runL0 != cfg.slook ==> runL == runL0)
      && (forall p :: ip + cfg.slook - Min(runL, cfg.slook) <= p < ip + cfg.slook ==> input[p] == runC)
      && (runL < cfg.slook ==> input[ip + cfg.slook - runL - 1] != runC)
      && (runL == cfg.slook && ip + cfg.slook < |input| ==> input[ip + cfg.slook] != runC)
    }

    /** The look-up of a source match. */
    method TryLarge() returns (ret: MRet, ghost gaveUp: bool, ghost noFwd: bool, ghost found: Option<Q.Match>)
      requires Valid() && state == Searching && cfg.doLarge
      modifies this`maxBack, this`maxFwd, this`back, this`fwd, this`state, this`srcpos, this`lastSrcpos, this`noBack
      modifies this`getblkno, this`used, this`free, this`ioptSize, this`minAddr, this`maxAddr
      ensures ret == GetSrcBlk ==> Valid() && InProgress() && curblkno != Some(getblkno) && used == old(used)
      ensures ret == Done ==> LargeDone(gaveUp, noFwd, found) && used == Taken(old(used), found)
      ensures ret == Done ==> (minAddr, maxAddr) == NewRange(old(minAddr), old(maxAddr), found)
      ensures ret == Done && found.Some? ==> fwd >= MIN_MATCH && LastBefore(used, ip + 1, ip + fwd + 1)
    {
      hide GoodQueue, Walk, Replay, Range, Reached, LastSetup, SourceFound, Taken, Least, Extending, BackOver, Room;
      hide BlockOk, LastBefore, Setting.Valid;
      hide NewRange, SetUp, Sound, Fresh;
      SoundFits();
      NothingTaken(used);
      SetUpIs(S(), |log|, lastSrcpos);
      NothingRanged(minAddr, maxAddr);
      fwd, gaveUp, noFwd, found := 0, false, false, None;
      var answer := answers(steps);
      ret := Done;
      if answer.place.Some? {
        AnswerFits(S(), |log|);
        var ok := MatchSetup(answer.place.value, answer.refused, answer.eofKnown);
        if ok {
          ret, noFwd, found := ExtendMatch();
          gaveUp := noBack;
        }
      }
    }

    /** What a look-up that was not interrupted has come to. */
    ghost predicate LargeDone(gaveUp: bool, noFwd: bool, found: Option<Q.Match>)
      reads this
    {
      var a, last := answers(|log|), LastSetup(S(), log);
      && Sound() && BlockOk()
      && fwd == (if found.None? then 0 else Max(found.value.End(), ip) - ip) && ip + fwd <= |input|
      && (state == Searching || (state == Target && ip + fwd == |input| && srcpos <= |file|))
      && (cfg.patient ==> !gaveUp && !noFwd)
      && if SetUp(S(), |log|, last) then
           && a.place.value <= |file| && lastSrcpos == a.place.value
           && SourceFound(S(), ip, a.place.value, minMatch, gaveUp, noFwd, found)
         else found == None && lastSrcpos == last && state == Searching
    }

    /** xd3_scksum_insert: the old head goes into the chain, the position into the table. */
    method EnterPosition(sinx: nat, ghost e: Event)
      requires Looking() && smallTable != smallPrev && sinx == S().Slot(ip) < smallTable.Length
      requires Entered(S(), e) && e.at == ip && forall i :: 0 <= i < |log| ==> log[i].at <= ip
      modifies smallTable, smallPrev
      ensures TableHolds(S(), log + [e], smallTable[..], smallPrev[..], ip + 1)
    {
      hide TableHolds, Entered, Rising;
      ghost var s, table: seq<nat>, prev: seq<nat> := S(), smallTable[..], smallPrev[..];
      smallPrev[ip % smallPrev.Length] := smallTable[sinx];
      smallTable[sinx] := ip + 1;
      assert smallTable[..] == table[sinx := ip + 1] && smallPrev[..] == prev[ip % s.prevs := table[sinx]];
      TableEnters(s, log, e, table, prev);
    }

    /** The look-up of a target match, and the entry of this position into the table. */
    method TrySmall(ghost again: bool, ghost back0: bool, ghost fwd0: bool)
      returns (length: nat, ghost cands: seq<nat>, ghost found: Option<Q.Match>)
      requires Sound() && Fresh() && Tables() && S().Valid() && Walk(S(), log) && ip == Reached(S(), log)
      requires ip + cfg.slook <= |input| && cfg.doSmall
      modifies this`used, this`free, this`ioptSize, smallTable, smallPrev
      ensures Sound() && used == Taken(old(used), found)
      ensures SmallFound(S(), log, ip, minMatch, cands, found)
      ensures if found.None? then length == 0 else length == found.value.size && found.value.pos == ip
      ensures TableHolds(S(), log + [Tried(ip, again, back0, fwd0, cands, found)], smallTable[..], smallPrev[..],
                         ip + 1)
      ensures found.Some? ==>
                length >= MIN_MATCH && ip + length <= |input| && LastBefore(used, ip + 1, ip + length + 1)
    {
      hide GoodQueue, Prefix, Head, HeadBefore, TableHolds, Setting.Valid, Walk, Reached, Least, Best;
      hide Rising, ChainFollowed;
      WalkRises(S(), log);
      ghost var s := S();
      SettingSizes(s);
      assert Looking();
      var sinx := hash(input[ip..ip + cfg.slook]) % smallTable.Length;
      TableSlot(s, log, smallTable[..], smallPrev[..], ip, sinx);
      var offset: nat;
      length, offset, cands, found := 0, 0, [], None;
      if smallTable[sinx] != 0 {
        length, offset, cands := Smatch(smallTable[sinx]);
      } else {
        NoCandidates(s, log, ip, if minMatch == MIN_MATCH then cfg.chain else cfg.lchain);
      }
      CandidateFound(s, log, ip, cands, length, offset, minMatch);
      if length >= minMatch {
        found := Some(Q.CopyMatch(ip, length, offset, false));
      }
      ghost var e := Tried(ip, again, back0, fwd0, cands, found);
      EnterPosition(sinx, e);
      if length >= minMatch {
        TargetTrue(file, input, ip, length, offset);
        Enqueue(Q.CopyMatch(ip, length, offset, false));
      } else {
        NothingTaken(used);
        length := 0;
      }
    }

    /** HANDLELAZY: go on at the next position with a raised minimum, or skip the match. */
    method HandleLazy(length: nat) returns (restart: bool)
      requires MIN_MATCH <= length <= |input| - ip && LastBefore(used, ip + 1, ip + length + 1)
      modifies this`ip, this`minMatch
      ensures restart <==> !Lazy(S(), old(ip), length)
      ensures restart ==> ip == old(ip) + length && minMatch == old(minMatch) && LastBefore(used, ip, ip + 1)
      ensures !restart ==> ip == old(ip) && minMatch == length
    {
      if cfg.maxLazy > 0 && length < cfg.maxLazy && ip + length + 2 <= |input| {
        minMatch := length;
        return false;
      }
      ip := ip + length;
      return true;
    }

    /** One more entry in the log, for the position at hand. */
    ghost predicate Advanced(before: seq<Event>, length: nat)
      reads this
    {
      && Sound() && BlockOk() && Logged() && lastSrcpos == LastSetup(S(), log)
      && log != [] && log[..|log| - 1] == before && log[|log| - 1].Tried? && log[|log| - 1].at == ip
      && var found := log[|log| - 1].found;
         && length == (if found.None? then 0 else Max(found.value.End(), ip) - ip) && ip + length <= |input|
         && Reached(S(), log) == if length == 0 || Lazy(S(), ip, length) then ip + 1 else ip + length
    }

    lemma AdvancedMeans(before: seq<Event>, length: nat)
      requires Advanced(before, length)
      ensures Sound() && BlockOk() && Logged() && lastSrcpos == LastSetup(S(), log) && ip + length <= |input|
      ensures Reached(S(), log) == if length == 0 || Lazy(S(), ip, length) then ip + 1 else ip + length
      ensures log != []
    {
      hide Sound, BlockOk, Logged, LastSetup, Reached;
    }

    /** A right entry is made. */
    lemma Advances(before: seq<Event>, e: Event, length: nat)
      requires Sound() && BlockOk() && S().Valid() && Walk(S(), before) && Right(S(), before, e) && log == before + [e]
      requires steps == |log|
      requires used == Taken(Replay(before), e.found) && lastSrcpos == LastSetup(S(), log)
      requires (minAddr, maxAddr) == NewRange(Range(before).0, Range(before).1, e.found)
      requires e.Tried? && e.at == ip && ip + length <= |input|
      requires length == if e.found.None? then 0 else Max(e.found.value.End(), ip) - ip
      requires e.found.Some? ==> length > 0
      ensures Advanced(before, length)
    {
      hide Right, Walk, Replay, LastSetup, GoodQueue, Block;
      WalkSnoc(S(), before, e);
    }

    /** A run that is taken. */
    method TakeRun(runL0: nat, runC: byte) returns (runL: nat, found: bool)
      requires Valid() && state == Searching && Tables() && RunState(runL0, runC)
      modifies this`used, this`free, this`ioptSize, this`log, this`steps
      ensures RunStays(runL0, runL, runC) && CanTry(S(), old(log), ip, runL0 > cfg.slook)
      ensures found <==> RunTaken(S(), ip, minMatch, runL0 > cfg.slook)
      ensures !found ==> Valid() && Tables() && used == old(used) && log == old(log)
      ensures found ==>
                && Advanced(old(log), runL) && TableHolds(S(), log, smallTable[..], smallPrev[..], ip + 1)
                && runL >= MIN_MATCH && LastBefore(used, ip + 1, ip + runL + 1)
    {
      hide GoodQueue, Block, Pow2, Walk, Replay, Range, Reached, LastSetup, TableHolds, Least, Taken, RunLength,
           SeenBefore;
      hide SameAhead, Setting.Valid, Right, RunTaken;
      runL, found := TryRun(runL0, runC);
      if found {
        ghost var s, before, again := S(), log, runL0 > cfg.slook;
        ghost var e := Tried(ip, again, false, false, [], Some(Q.RunMatch(ip, runL, input[ip])));
        RightRun(s, before, ip, again);
        log, steps := before + [e], steps + 1;
        Advances(before, e, runL);
        TableGoesOn(s, before, e, smallTable[..], smallPrev[..]);
      }
    }

    /** A source match that is taken, a request for a block, or neither. */
    method TakeLarge(ghost again: bool) returns (ret: MRet, length: nat, ghost gaveUp: bool, ghost noFwd: bool)
      requires Valid() && state == Searching && Tables() && CanTry(S(), log, ip, again)
      requires !RunTaken(S(), ip, minMatch, again)
      modifies this`maxBack, this`maxFwd, this`back, this`fwd, this`state, this`srcpos, this`lastSrcpos, this`noBack
      modifies this`getblkno, this`used, this`free, this`ioptSize, this`minAddr, this`maxAddr, this`log, this`steps
      ensures ret == GetSrcBlk ==> Valid() && Tables() && InProgress() && curblkno != Some(getblkno)
      ensures ret == Done && length > 0 ==>
                && Advanced(old(log), length) && TableHolds(S(), log, smallTable[..], smallPrev[..], ip + 1)
                && length >= MIN_MATCH && LastBefore(used, ip + 1, ip + length + 1)
                && (state == Searching || (state == Target && ip + length == |input| && srcpos <= |file|))
      ensures ret == Done && length == 0 ==>
                && Sound() && Fresh() && BlockOk() && Logged() && Tables() && ip == Reached(S(), log)
                && log == old(log) && used == old(used) && state == Searching
                && NoLarge(S(), log, ip, gaveUp, noFwd) && lastSrcpos == SetupAfter(S(), log, ip)
    {
      hide GoodQueue, Block, Pow2, Walk, Replay, Range, Reached, LastSetup, TableHolds, Least, Taken, SeenBefore;
      hide SameAhead, Setting.Valid, Right, RunTaken, SourceFound, Q.Ordered, LastBefore, Extending, BackOver, Pending;
      hide Room, Advanced, BlockOk;
      ret, length, gaveUp, noFwd := Done, 0, false, false;
      if cfg.doLarge && ip + cfg.llook <= |input| {
        ghost var s, before, found := S(), log, None;
        ret, gaveUp, noFwd, found := TryLarge();
        if ret == GetSrcBlk {
          return;
        }
        if fwd > 0 {
          length := fwd;
          ghost var e := Tried(ip, again, gaveUp, noFwd, [], found);
          RightLarge(s, before, ip, again, gaveUp, noFwd, found);
          log, steps := before + [e], steps + 1;
          Advances(before, e, length);
          TableGoesOn(s, before, e, smallTable[..], smallPrev[..]);
        } else {
          assert found == None;
          NothingTaken(old(used));
        }
      }
    }

    /** A target match that is taken, or nothing. */
    method TakeSmall(ghost again: bool, ghost gaveUp: bool, ghost noFwd: bool) returns (length: nat)
      requires Sound() && Fresh() && BlockOk() && Logged() && ip == Reached(S(), log) && Tables()
      requires CanTry(S(), log, ip, again) && !RunTaken(S(), ip, minMatch, again)
      requires NoLarge(S(), log, ip, gaveUp, noFwd) && lastSrcpos == SetupAfter(S(), log, ip)
      modifies this`used, this`free, this`ioptSize, this`log, this`steps, smallTable, smallPrev
      ensures Advanced(old(log), length) && TableHolds(S(), log, smallTable[..], smallPrev[..], ip + 1)
      ensures length == 0 ==> used == old(used)
      ensures length > 0 ==> length >= MIN_MATCH && LastBefore(used, ip + 1, ip + length + 1)
    {
      hide GoodQueue, Block, Pow2, Walk, Replay, Range, Reached, LastSetup, TableHolds, Least, Taken, SeenBefore;
      hide SameAhead, Setting.Valid, Right, RunTaken, NoLarge, SmallFound, LastBefore;
      length := 0;
      ghost var s, before := S(), log;
      ghost var cands, found := [], None;
      NothingTaken(used);
      if cfg.doSmall {
        length, cands, found := TrySmall(again, gaveUp, noFwd);
      }
      ghost var e := Tried(ip, again, gaveUp, noFwd, cands, found);
      RightSmall(s, before, ip, again, gaveUp, noFwd, cands, found);
      log, steps := before + [e], steps + 1;
      Advances(before, e, length);
      if !cfg.doSmall {
        TableGoesOn(s, before, e, smallTable[..], smallPrev[..]);
      }
    }

    /** The three kinds of match at one position, in this order: the length taken, 0 if none.  The
        log gets a right entry. */
    method TryAll(runL0: nat, runC: byte) returns (ret: MRet, runL: nat, length: nat)
      requires Valid() && state == Searching && Tables() && RunState(runL0, runC)
      modifies this, smallTable, smallPrev
      ensures ip == old(ip) && minMatch == old(minMatch) && curblkno == old(curblkno) && curblk == old(curblk)
      ensures ret == GetSrcBlk ==> Valid() && Tables() && InProgress() && curblkno != Some(getblkno)
      ensures ret == Done ==>
                && Advanced(old(log), length) && RunStays(runL0, runL, runC)
                && TableHolds(S(), log, smallTable[..], smallPrev[..], ip + 1)
                && (state == Searching || (state == Target && ip + length == |input| && srcpos <= |file|))
      ensures ret == Done && length == 0 ==> used == old(used) && state == Searching
      ensures ret == Done && length > 0 ==> length >= MIN_MATCH && LastBefore(used, ip + 1, ip + length + 1)
    {
      hide GoodQueue, Block, Pow2, Walk, Replay, Range, Reached, LastSetup, TableHolds, Least, Taken, SeenBefore;
      hide SameAhead, Setting.Valid, RunTaken, NoLarge, LastBefore, CanTry, Sound, SetUp, Extending, Pending, BackOver;
      hide Room, Fresh, BlockOk, Tables, Advanced, RunState, RunStays;
      ret, length := Done, 0;
      ghost var again := runL0 > cfg.slook;
      var found;
      runL, found := TakeRun(runL0, runC);
      if found {
        length := runL;
        return;
      }
      ghost var gaveUp, noFwd;
      ret, length, gaveUp, noFwd := TakeLarge(again);
      if ret == GetSrcBlk || length > 0 {
        return;
      }
      length := TakeSmall(again, gaveUp, noFwd);
    }

    /** Between positions of a scan. */
    ghost predicate Scanning()
      reads this, smallTable, smallPrev
    {
      Valid() && Tables() && state == Searching
    }

    /** After the last position. */
    ghost predicate Searched()
      reads this
    {
      && Sound() && BlockOk() && Logged() && Reached(S(), log) + cfg.slook > |input|
    }

    /** Before a scan starts again: the minimum is not set yet. */
    ghost predicate Restarting()
      reads this, smallTable, smallPrev
    {
      && Sound() && BlockOk() && Logged() && ip == Reached(S(), log) && Tables() && lastSrcpos == LastSetup(S(), log)
      && (used != [] ==> used[|used| - 1].pos < ip)
      && (state == Searching || (state == Target && ip == |input| && srcpos <= |file|))
    }

    /** On to the next position after nothing, or after a match that may be improved on. */
    lemma NextPosition(before: seq<Event>, length: nat, min: nat)
      requires Advanced(before, length) && min >= MIN_MATCH
      requires if length == 0 then min == Least(used, ip) && LastBefore(used, ip, ip + min)
               else length == min && LastBefore(used, ip + 1, ip + length + 1)
      ensures Least(used, ip + 1) == if length == 0 then (if min > MIN_MATCH then min - 1 else min) else min
      ensures LastBefore(used, ip + 1, ip + 1 + Least(used, ip + 1))
    {
      hide Walk, Reached, LastSetup, GoodQueue, Block, Setting.Valid;
      if length > 0 {
        SettingSizes(S());
        LastTaken(Replay(before), log[|log| - 1].found.value);
        WalkLast(S(), log);
      }
    }

    lemma LookAheadStays(runL0: nat, runL: nat, runC: byte)
      requires RunStays(runL0, runL, runC)
      ensures ip + cfg.slook <= |input|
    {
    }

    /** The run counter at the next position. */
    ghost predicate RunNext(runL: nat, runC: byte)
      reads this`ip, this`log
    {
      && ip + 1 + cfg.slook <= |input| && cfg.slook > 0 && runL > 0
      && (forall p :: ip + 1 + cfg.slook - Min(runL, cfg.slook) <= p < ip + 1 + cfg.slook ==> input[p] == runC)
      && (runL < cfg.slook ==> input[ip + 1 + cfg.slook - runL - 1] != runC)
      && (runL > cfg.slook ==> SeenBefore(S(), log, ip + 1))
    }

    lemma NextRun(runL0: nat, runL: nat, runC: byte, before: seq<Event>, length: nat)
      requires RunStays(runL0, runL, runC) && Advanced(before, length) && ip + cfg.slook < |input|
      ensures var c := input[ip + cfg.slook];
              RunNext(if c == runC then runL + 1 else 1, if c == runC then runC else c)
    {
      hide Walk, Reached, LastSetup, GoodQueue, Block, Setting.Valid, Replay;
    }

    /** On to the next position. */
    method Advance(ghost runL: nat, ghost runC: byte)
      requires Sound() && BlockOk() && Logged() && Reached(S(), log) == ip + 1 && lastSrcpos == LastSetup(S(), log)
      requires state == Searching && smallTable != smallPrev && RunNext(runL, runC)
      requires minMatch == Least(used, ip + 1) && LastBefore(used, ip + 1, ip + 1 + minMatch)
      requires smallTable.Length > 0 && smallPrev.Length > 0
      requires TableHolds(S(), log, smallTable[..], smallPrev[..], ip + 1)
      modifies this`ip
      ensures Scanning() && RunState(runL, runC) && ip == old(ip) + 1
    {
      hide QueueOk, BlockOk, Logged, Reached, LastSetup, TableHolds, Least, LastBefore, SeenBefore, Extending, Pending;
      hide BackOver;
      ip := ip + 1;
    }

    /** After a position has been tried: on to the next one, or over the match. */
    method GoOn(runL0: nat, runL1: nat, runC0: byte, length: nat, ghost before: seq<Event>)
      returns (restart: bool, over: bool, runL: nat, runC: byte)
      requires S().Valid() && Advanced(before, length) && RunStays(runL0, runL1, runC0)
      requires TableHolds(S(), log, smallTable[..], smallPrev[..], ip + 1) && smallTable != smallPrev
      requires state == Searching || (state == Target && length > 0 && ip + length == |input| && srcpos <= |file|)
      requires if length == 0 then Fresh() else length >= MIN_MATCH && LastBefore(used, ip + 1, ip + length + 1)
      modifies this`ip, this`minMatch
      ensures over && !restart ==> Searched()
      ensures restart ==> over && old(ip) < ip && Restarting()
      ensures !over ==> Scanning() && RunState(runL, runC) && ip == old(ip) + 1
    {
      hide GoodQueue, Block, Pow2, Walk, Replay, Range, Reached, LastSetup, TableHolds, Least, Taken, SeenBefore;
      hide Setting.Valid, Extending, Pending, BackOver, Q.Ordered, SameAhead, LastBefore, Advanced, Logged, BlockOk,
           RunStays, QueueOk, RunNext, RunState, Scanning;
      AdvancedMeans(before, length);
      LookAheadStays(runL0, runL1, runC0);
      runL, runC, restart, over := runL1, runC0, false, true;
      SettingSizes(S());
      NextPosition(before, length, if length == 0 then minMatch else length);
      if ip + cfg.slook < |input| {
        NextRun(runL0, runL, runC, before, length);
      }
      if length > 0 {
        restart := HandleLazy(length);
        if restart {
          TableLater(S(), log, smallTable[..], smallPrev[..], old(ip) + 1, ip);
          LastStarts(used, ip, ip + 1);
          return;
        }
      } else if minMatch > MIN_MATCH {
        minMatch := minMatch - 1;
      }
      if ip + cfg.slook == |input| {
        return;
      }
      var c := input[ip + cfg.slook];
      if c == runC {
        runL := runL + 1;
      } else {
        runC, runL := c, 1;
      }
      Advance(runL, runC);
      over := false;
    }

    /** One position of the scan, and the step to the next. */
    method ScanStep(runL0: nat, runC0: byte) returns (ret: MRet, restart: bool, over: bool, runL: nat, runC: byte)
      requires Scanning() && RunState(runL0, runC0)
      modifies this, smallTable, smallPrev
      ensures ret == GetSrcBlk ==> Valid() && Tables() && InProgress() && curblkno != Some(getblkno) && !restart && over
      ensures ret == Done && over && !restart ==> Searched()
      ensures restart ==> ret == Done && over && old(ip) < ip && Restarting()
      ensures !over ==> Scanning() && RunState(runL, runC) && ip == old(ip) + 1
    {
      hide GoodQueue, Block, Pow2, Walk, Replay, Range, Reached, LastSetup, TableHolds, Least, Taken, SeenBefore;
      hide Extending, Pending, BackOver, Q.Ordered, SameAhead, RunState, RunStays, Searched, Restarting;
      var length;
      ghost var before := log;
      runC, restart, over := runC0, false, true;
      ret, runL, length := TryAll(runL0, runC);
      if ret == Done {
        restart, over, runL, runC := GoOn(runL0, runL, runC0, length, before);
      }
    }

    /** xd3_string_match from a restart on: one position after another.  True if it is to be
        restarted. */
    method Scan() returns (ret: MRet, restart: bool)
      requires Scanning() && ip + cfg.slook <= |input|
      modifies this, smallTable, smallPrev
      ensures ret == GetSrcBlk ==> Valid() && Tables() && InProgress() && curblkno != Some(getblkno) && !restart
      ensures ret == Done && !restart ==> Searched()
      ensures restart ==> ret == Done && old(ip) < ip && Restarting()
    {
      hide Valid, Tables, Setting.Valid, SeenBefore, Restarting, Searched;
      ScanningLooks();
      var runL, runC := CompRun();
      while true
        invariant Scanning() && RunState(runL, runC) && old(ip) <= ip
        decreases |input| - ip
      {
        var over;
        ret, restart, over, runL, runC := ScanStep(runL, runC);
        if over {
          return;
        }
      }
    }

    lemma ScanningLooks()
      requires Scanning()
      ensures cfg.slook > 0
    {
      hide Walk, Replay, GoodQueue;
      SettingSizes(S());
    }

    /** xd3_string_match */
    method StringMatch() returns (ret: MRet)
      requires Restarting()
      modifies this, smallTable, smallPrev
      ensures ret == GetSrcBlk ==> Valid() && Tables() && InProgress() && curblkno != Some(getblkno)
      ensures ret == Done ==> Searched()
    {
      hide GoodQueue, Block, Pow2, Walk, Replay, Range, Reached, LastSetup, TableHolds, Taken, Setting.Valid;
      hide Q.Ordered, Extending, Pending, BackOver;
      while true
        invariant Restarting()
        decreases |input| - ip
      {
        if ip + cfg.slook > |input| {
          return Done;
        }
        LookAhead(S());
        if LastMatched(used) > ip {
          minMatch := Max(MIN_MATCH, 1 + LastMatched(used) - ip);
        } else {
          minMatch := MIN_MATCH;
        }
        var restart;
        ret, restart := Scan();
        if !restart {
          return;
        }
      }
    }

    lemma RoomStarts()
      requires Room()
      ensures used != [] ==> used[|used| - 1].pos < ip
    {
    }

    /** The log entry for a match that was taken up again. */
    method EnterResumed(ghost place: nat, ghost noFwd: bool, ghost found: Option<Q.Match>)
      requires S().Valid() && Walk(S(), log) && steps == |log| && ip == Reached(S(), log) && Tables()
               && ip + fwd <= |input|
      requires used == Taken(Replay(log), found) && (minAddr, maxAddr) == NewRange(Range(log).0, Range(log).1, found)
      requires place <= |file| && cfg.doLarge && (log == [] || answers(|log|).place == Some(place))
      requires SourceFound(S(), ip, place, Least(Replay(log), ip), noBack, noFwd, found)
      requires cfg.patient ==> !noFwd && (log != [] ==> !noBack)
      requires fwd == if found.None? then 0 else Max(found.value.End(), ip) - ip
      requires found.Some? ==> fwd > 0
      modifies this`log, this`steps
      ensures Logged() && LastSetup(S(), log) == place && Reached(S(), log) == ip + fwd
      ensures TableHolds(S(), log, smallTable[..], smallPrev[..], ip + fwd)
    {
      hide Walk, Replay, Range, NewRange, Reached, LastSetup, TableHolds, Taken, Setting.Valid, Right, SourceFound,
           Least;
      ghost var s, before := S(), log;
      SettingSizes(s);
      ghost var e := Resumed(ip, place, noBack, noFwd, found);
      RightResumed(s, before, ip, place, noBack, noFwd, found);
      WalkSnoc(s, before, e);
      log, steps := before + [e], steps + 1;
      SkippedHere(s, before, e, smallTable[..], smallPrev[..], ip + fwd);
    }

    /** An interrupted source match, or one that goes on from the window before. */
    method Resume() returns (ret: MRet)
      requires Valid() && Tables() && InProgress()
      modifies this, smallTable, smallPrev
      ensures ret == GetSrcBlk ==> Valid() && Tables() && InProgress() && curblkno != Some(getblkno)
      ensures ret == Done ==> Restarting()
    {
      hide GoodQueue, Walk, Replay, Range, NewRange, Reached, LastSetup, TableHolds, Taken, Setting.Valid;
      hide Extending, BackOver, SourceFound, Least, LastBefore, Room, BlockOk;
      ghost var place := srcpos;
      ghost var noFwd, found;
      RoomStarts();
      ret, noFwd, found := ExtendMatch();
      if ret == GetSrcBlk {
        return;
      }
      EnterResumed(place, noFwd, found);
      if found.None? {
        NothingTaken(old(used));
      } else {
        LastStarts(used, ip + 1, ip + fwd + 1);
      }
      ip := ip + fwd;
    }

    /** The ENC_SEARCH state of xd3_encode_input: an interrupted source match is taken up first.
        It may be called again after a block has been supplied. */
    method Step() returns (ret: MRet)
      requires Valid() && Tables()
      modifies this, smallTable, smallPrev
      ensures ret == GetSrcBlk ==> Valid() && Tables() && InProgress() && curblkno != Some(getblkno)
      ensures ret == Done ==> Searched()
    {
      hide GoodQueue, Block, Pow2, Walk, Replay, LastSetup, TableHolds, Taken, Setting.Valid, Right, Least;
      hide Q.Ordered, SameBytes, Suffix;
      if cfg.doLarge {
        if state == Target {
          if |input| > 0 {
            var eofKnown: bool, refused: bool := *, *;
            var ok := MatchSetup(srcpos, refused, eofKnown);
            if ok {
              state, noBack := Forward, true;
            }
          } else {
            state, fwd := Searching, 0;
          }
        }
        if InProgress() {
          ret := Resume();
          if ret == GetSrcBlk {
            return;
          }
        }
      } else {
        state := Searching;
      }
      ret := StringMatch();
    }

    /** A new window.  `srcpos` is where the last window's source match ended. */
    constructor (input: seq<byte>, file: seq<byte>, cfg: Config, hash: seq<byte> -> nat, answers: nat -> Answer,
                 slots: nat, chain: nat, srcpos: nat)
      requires slots > 0 && chain > 0 && srcpos <= |file| && cfg.elts > 0 && cfg.slook > 0
      requires forall k :: answers(k).place.Some? ==> answers(k).place.value <= |file|
      ensures Valid() && Tables() && used == [] && log == []
      ensures this.input == input && this.file == file && this.cfg == cfg && this.hash == hash
              && this.answers == answers
      ensures smallTable.Length == slots && smallPrev.Length == chain
      ensures fresh(smallTable) && fresh(smallPrev)
    {
      this.input, this.file, this.cfg, this.hash, this.answers := input, file, cfg, hash, answers;
      smallTable := new nat[slots](_ => 0);
      smallPrev := new nat[chain](_ => 0);
      used, free, ioptSize, ip, minMatch := [], cfg.elts, cfg.elts, 0, MIN_MATCH;
      state, this.srcpos, lastSrcpos := Target, srcpos, 0;
      maxBack, maxFwd, back, fwd, minAddr, maxAddr := 0, 0, 0, 0, 0, 0;
      curblkno, curblk, getblkno := None, [], 0;
      steps, log, noBack := 0, [], false;
      new;
      hide GoodQueue, Block, Pow2;
      TableStarts(S());
      assert smallTable[..] == Repeat(0, slots) && smallPrev[..] == Repeat(0, chain);
      NoQueue(file, input);
    }

    /** The search over any number of calls, with every requested block supplied in between:
        whenever it stops, the queue is sound and what the right log says; when it is done, it has
        gone over the whole input. */
    method Run(calls: nat) returns (done: bool)
      requires Valid() && Tables()
      modifies this, smallTable, smallPrev
      ensures Sound() && Logged()
      ensures done ==> Reached(S(), log) + cfg.slook > |input|
    {
      hide GoodQueue, Block, Pow2, Walk, Replay, Range, Reached, LastSetup, TableHolds, Taken, Setting.Valid;
      hide Q.Ordered, Extending, Pending, BackOver, Least, LastBefore;
      done := false;
      for i := 0 to calls
        invariant Valid() && Tables()
      {
        var ret := Step();
        if ret == Done {
          return true;
        }
        ReadSourceBlock();
      }
    }

    /** The answer to XD3_GETSRCBLK. */
    method ReadSourceBlock()
      requires Valid() && Tables()
      modifies this`curblk, this`curblkno
      ensures Valid() && Tables() && curblkno == Some(getblkno)
    {
      hide Sound, Fresh, Room, Logged, Extending, BackOver, Pending, Reached, LastSetup, TableHolds, Pow2;
      var at := getblkno * Pow2(cfg.shiftby);
      curblk := if at >= |file| then [] else file[at..Min(|file|, at + Pow2(cfg.shiftby))];
      curblkno := Some(getblkno);
    }
  }

  // ---------------------------------------------------------------- small steps

  lemma NoQueue(file: seq<byte>, input: seq<byte>)
    ensures GoodQueue([], file, input, 0, 0)
  {
  }

  lemma KeepsAll(q: seq<Q.Match>, pos: nat)
    ensures q == [] || q[|q| - 1].pos < pos ==> Keep(q, pos) == q
  {
  }

  lemma LastIs(q: seq<Q.Match>, m: Q.Match, ip: nat, end: nat)
    requires q != [] && q[|q| - 1] == m && m.pos < ip && m.End() < end
    ensures LastBefore(q, ip, end)
  {
  }

  lemma LastShrinks(q: seq<Q.Match>, ip: nat, end: nat, later: nat)
    requires LastBefore(q, ip, end) && end <= later
    ensures LastBefore(q, ip, later)
  {
  }

  /** A run is a true candidate. */
  lemma RunIsTrue(file: seq<byte>, input: seq<byte>, at: nat, n: nat, c: byte)
    requires at <= |input| && n == RunLength(input, at, c) >= MIN_MATCH
    ensures True(Q.RunMatch(at, n, c), file, input)
  {
    hide RunLength;
  }

  lemma {:induction false} RunReaches(input: seq<byte>, at: nat, c: byte, n: nat)
    requires at + n <= |input| && forall p :: at <= p < at + n ==> input[p] == c
    ensures RunLength(input, at, c) >= n
    decreases n
  {
    if n > 0 {
      RunReaches(input, at + 1, c, n - 1);
    }
  }

  lemma LastStarts(q: seq<Q.Match>, ip: nat, end: nat)
    requires LastBefore(q, ip, end)
    ensures q != [] ==> q[|q| - 1].pos < ip
  {
  }

  lemma KeepStep(q: seq<Q.Match>, pos: nat)
    requires q != []
    ensures Keep(q, pos) == if q[|q| - 1].pos >= pos then Keep(q[..|q| - 1], pos) else q
  {
  }

  lemma TakenKept(q: seq<Q.Match>, m: Q.Match)
    ensures Taken(Keep(q, m.pos), Some(m)) == Taken(q, Some(m))
    ensures var r := Keep(q, m.pos); r != [] ==> |r| <= |q| && r[|r| - 1].pos < m.pos && r[|r| - 1] == q[|r| - 1]
  {
    KeepsAll(Keep(q, m.pos), m.pos);
  }

  lemma NothingTaken(q: seq<Q.Match>)
    ensures Taken(q, None) == q
  {
  }

  lemma SuffixAtLeast(s: seq<byte>, i: nat, t: seq<byte>, j: nat, n: nat)
    requires n <= i <= |s| && n <= j <= |t| && Agree(s, i - n, t, j - n, n)
    ensures Suffix(s, i, t, j) >= n
  {
  }

  lemma PrefixAtLeast(s: seq<byte>, i: nat, t: seq<byte>, j: nat, n: nat)
    requires Agree(s, i, t, j, n)
    ensures Prefix(s, i, t, j) >= n
  {
  }

  lemma SetUpIs(s: Setting, k: nat, last: nat)
    ensures var a := s.answers(k);
            SetUp(s, k, last) <==> a.place.Some? && !a.refused && !(a.place.value != 0 && a.place.value == last)
  {
  }

  lemma NothingRanged(lo: nat, hi: nat)
    ensures NewRange(lo, hi, None) == (lo, hi)
  {
  }

  lemma AnswerFits(s: Setting, k: nat)
    requires s.Valid() && s.answers(k).place.Some?
    ensures s.answers(k).place.value <= |s.file|
  {
  }

  lemma SettingSizes(s: Setting)
    requires s.Valid()
    ensures s.slots > 0 && s.prevs > 0 && s.cfg.slook > 0
  {
  }

  lemma LookAhead(s: Setting)
    requires s.Valid()
    ensures s.cfg.slook > 0
  {
  }

  lemma NoCandidate(input: seq<byte>, at: nat)
    requires at <= |input|
    ensures Before([], at) && Best(input, at, []) == (0, 0)
  {
  }

  lemma HeadEarlier(s: Setting, log: seq<Event>, slot: nat, at: nat)
    requires s.slots > 0 && forall i :: 0 <= i < |log| && log[i].Tried? ==> log[i].at < at
    ensures Head(s, log, slot) <= at
  {
    if Head(s, log, slot) > 0 {
      var i := HeadEntered(s, log, slot);
    }
  }

  lemma TableSlot(s: Setting, log: seq<Event>, table: seq<nat>, prev: seq<nat>, at: nat, slot: nat)
    requires s.slots > 0 && s.prevs > 0 && TableHolds(s, log, table, prev, at) && slot < s.slots
    ensures |table| == s.slots && table[slot] == Head(s, log, slot)
  {
  }

  /** The best candidate is among them. */
  lemma BestPlace(input: seq<byte>, at: nat, cands: seq<nat>)
    requires at <= |input| && Before(cands, at)
    ensures var (n, place) := Best(input, at, cands);
            && at + n <= |input| && (n > 0 ==> place < at)
            && (n > 0 ==> Agree(input, at, input, place, n))
            && (n == 0 ==> !FarShort(n, Max(at, place) - place))
  {
    hide Best;
    BestFits(input, at, cands);
    if Best(input, at, cands).0 > 0 {
      var i := BestIsFirst(input, at, cands);
    }
  }

  /** What the small table comes to, from the best of the candidates. */
  lemma CandidateFound(s: Setting, before: seq<Event>, at: nat, cands: seq<nat>, length: nat, offset: nat, min: nat)
    requires s.slots > 0 && at + s.cfg.slook <= |s.input| && min >= MIN_MATCH
    requires ChainSeen(s, before, at, if min == MIN_MATCH then s.cfg.chain else s.cfg.lchain, cands)
    requires var (n, place) := Best(s.input, at, cands);
             offset == place && length == if FarShort(n, Max(at, place) - place) then 0 else n
    ensures SmallFound(s, before, at, min, cands,
                       if length >= min then Some(Q.CopyMatch(at, length, offset, false)) else None)
    ensures length >= min ==> offset < at && Agree(s.input, at, s.input, offset, length)
  {
    hide ChainFollowed, Best;
    BestPlace(s.input, at, cands);
  }

  /** A copy of earlier input that compares equal is true. */
  lemma TargetTrue(file: seq<byte>, input: seq<byte>, at: nat, length: nat, offset: nat)
    requires offset < at && length >= MIN_MATCH && Agree(input, at, input, offset, length)
    ensures True(Q.CopyMatch(at, length, offset, false), file, input)
  {
    hide Agree;
    AgreeAt(input, at, input, offset, length, at + length - 1);
    var m := Q.CopyMatch(at, length, offset, false);
    forall p | m.pos <= p < m.End() ensures input[p] == Claimed(m, Source(0, file), input, p) {
      AgreeAt(input, at, input, offset, length, p);
    }
  }

  lemma AgreeAt(s: seq<byte>, i: nat, t: seq<byte>, j: nat, n: nat, p: nat)
    requires Agree(s, i, t, j, n) && i <= p < i + n
    ensures p < |s| && p - i + j < |t| && s[p] == t[p - i + j]
  {
  }

  /** A full look-ahead, in terms of the run counter. */
  lemma RunAhead(s: Setting, at: nat, runL: nat, runC: byte)
    requires at + s.cfg.slook <= |s.input| && s.cfg.slook > 0 && runL > 0
    requires forall p :: at + s.cfg.slook - Min(runL, s.cfg.slook) <= p < at + s.cfg.slook ==> s.input[p] == runC
    requires runL < s.cfg.slook ==> s.input[at + s.cfg.slook - runL - 1] != runC
    ensures runL < s.cfg.slook ==> !SameAhead(s, at)
    ensures runL >= s.cfg.slook ==> SameAhead(s, at) && s.input[at] == runC
  {
    assert s.input[at + s.cfg.slook - 1] == runC;
  }

  /** An entry that leaves the table alone. */
  lemma TableGoesOn(s: Setting, before: seq<Event>, e: Event, table: seq<nat>, prev: seq<nat>)
    requires s.Valid() && Walk(s, before) && e.at == Reached(s, before) && !Entered(s, e)
    requires TableHolds(s, before, table, prev, e.at)
    ensures TableHolds(s, before + [e], table, prev, e.at + 1)
  {
    hide Walk, Reached, Entered, TableHolds, Rising;
    WalkRises(s, before);
    TableSkips(s, before, e, table, prev, e.at);
    TableLater(s, before + [e], table, prev, e.at, e.at + 1);
  }

  lemma SkippedHere(s: Setting, before: seq<Event>, e: Event, table: seq<nat>, prev: seq<nat>, at: nat)
    requires s.Valid() && Walk(s, before) && e.at == Reached(s, before) <= at && !Entered(s, e)
    requires TableHolds(s, before, table, prev, e.at)
    ensures TableHolds(s, before + [e], table, prev, at)
  {
    hide Walk, Reached, Entered, TableHolds, Rising;
    WalkRises(s, before);
    TableSkips(s, before, e, table, prev, e.at);
    TableLater(s, before + [e], table, prev, e.at, at);
  }

  lemma LastTaken(q: seq<Q.Match>, m: Q.Match)
    ensures var t := Taken(q, Some(m)); t != [] && t[|t| - 1] == m
  {
  }

  /** What a right log says of its last entry. */
  lemma WalkLast(s: Setting, log: seq<Event>)
    requires s.slots > 0 && Walk(s, log) && log != []
    ensures Right(s, log[..|log| - 1], log[|log| - 1])
    ensures Replay(log) == Taken(Replay(log[..|log| - 1]), log[|log| - 1].found)
  {
    hide Right;
  }

  ghost predicate StartsAt(lo: nat, blkno: nat, b: nat) {
    lo == blkno * b
  }

  ghost function StartOf(blkno: nat, b: nat): (lo: nat)
    ensures lo == blkno * b && StartsAt(lo, blkno, b)
  {
    blkno * b
  }

  /** The first n bytes of a block are the file's from lo on. */
  ghost predicate Holds(blk: seq<byte>, file: seq<byte>, lo: nat, n: nat) {
    n <= |blk| && lo + n <= |file| && forall i :: 0 <= i < n ==> blk[i] == file[lo + i]
  }

  lemma BlockSize(file: seq<byte>, b: nat, blkno: nat, lo: nat)
    requires StartsAt(lo, blkno, b)
    ensures |Block(file, b, blkno)| == if lo >= |file| then 0 else Min(|file| - lo, b)
    ensures forall i :: 0 <= i < |Block(file, b, blkno)| ==> lo + i < |file| && Block(file, b, blkno)[i] == file[lo + i]
  {
    BlockAt(file, b, blkno, lo);
  }

  lemma BlockHolds(file: seq<byte>, b: nat, blkno: nat, lo: nat, n: nat)
    requires StartsAt(lo, blkno, b) && lo + n <= |file| && n <= b
    ensures Holds(Block(file, b, blkno), file, lo, n)
  {
    BlockAt(file, b, blkno, lo);
  }

  lemma PreviousBlock(lo: nat, blkno: nat, b: nat)
    requires StartsAt(lo, blkno, b) && lo > 0
    ensures blkno > 0 && lo >= b && StartsAt(lo - b, blkno - 1, b)
  {
    Spread(blkno - 1, 1, b);
  }

  lemma NextBlock(lo: nat, blkno: nat, b: nat)
    requires StartsAt(lo, blkno, b)
    ensures StartsAt(lo + b, blkno + 1, b)
  {
    Spread(blkno, 1, b);
  }
}
