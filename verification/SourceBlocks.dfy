/** A source file read in blocks: block arithmetic and what a copy finds in a block. */
module SourceBlocks {
  import opened Common
  import opened BitStream

  /** Block n of the file; short at the end of the file and empty beyond it. */
  function Block(file: seq<byte>, blksize: nat, n: nat): (r: seq<byte>)
    ensures |r| <= blksize
  {
    var lo := n * blksize;
    if lo >= |file| then [] else file[lo..Min(|file|, lo + blksize)]
  }

  lemma Split(p: nat, b: nat)
    requires b > 0
    ensures p / b * b + p % b == p && p % b < b
  {
  }

  lemma SplitUnique(p: nat, b: nat, q: nat, r: nat)
    requires b > 0 && q * b + r == p && r < b
    ensures q == p / b && r == p % b
  {
    Split(p, b);
    assert b * q + r == b * (p / b) + p % b;
    DivUnique(p, b, q, r, p / b, p % b);
  }

  /** xd3_blksize_div */
  method BlksizeDiv(offset: nat, shiftby: nat) returns (blkno: nat, blkoff: nat)
    ensures blkno == offset / Pow2(shiftby) && blkoff == offset % Pow2(shiftby)
    ensures blkno * Pow2(shiftby) + blkoff == offset && blkoff < Pow2(shiftby)
  {
    ShiftDiv(offset, shiftby);
    Split(offset, Pow2(shiftby));
    blkno := Shift(offset, shiftby);
    blkoff := offset % Pow2(shiftby);
  }

  /** xd3_blksize_add: the offset is added in 32 bits, so the position is right exactly when
      that addition does not overflow. */
  method BlksizeAdd(blkno: nat, blkoff: nat, shiftby: nat, add: nat) returns (blkno': nat, blkoff': nat)
    requires blkoff <= USIZE_MAX && add <= USIZE_MAX
    ensures blkoff' < Pow2(shiftby)
    ensures blkno' * Pow2(shiftby) + blkoff' == AddedPosition(blkno, blkoff, shiftby, add)
    ensures blkno' * Pow2(shiftby) + blkoff' == blkno * Pow2(shiftby) + blkoff + add <==> blkoff + add <= USIZE_MAX
  {
    var b := Pow2(shiftby);
    var sum := (blkoff + add) % 0x1_0000_0000;
    ShiftDiv(sum, shiftby);
    Split(sum, b);
    var blkdiff := Shift(sum, shiftby);
    blkno', blkoff' := blkno, sum;
    if blkdiff != 0 {
      blkno' := blkno + blkdiff;
      blkoff' := sum % b;
      assert blkno' * b == blkno * b + blkdiff * b by { Spread(blkno, blkdiff, b); }
    } else {
      assert sum / b * b == 0;
    }
  }

  /** The position that the 32-bit addition leads to. */
  function AddedPosition(blkno: nat, blkoff: nat, shiftby: nat, add: nat): nat {
    blkno * Pow2(shiftby) + (blkoff + add) % 0x1_0000_0000
  }

  /** In the blocks of delta.c, the last byte of a block plus a long offset comes out 4 GiB short. */
  lemma AddOverflows(blkno: nat)
    ensures AddedPosition(blkno, 0x3_FFFF, 18, 0xFFFC_0001) + 0x1_0000_0000
         == blkno * Pow2(18) + 0x3_FFFF + 0xFFFC_0001
  {
  }

  lemma Spread(x: nat, y: nat, b: nat)
    ensures (x + y) * b == x * b + y * b
  {
  }

  /** A copy of n bytes at position p runs past the end of the file.  An empty copy is only
      found out inside a block. */
  predicate TooShort(file: seq<byte>, blksize: nat, p: nat, n: nat)
    requires blksize > 0
  {
    p + n > |file| && (n > 0 || p % blksize > 0)
  }

  /** Beyond the end of a one-byte file an empty copy is refused inside a block and let through at
      the start of one. */
  lemma EmptyCopies()
    ensures TooShort([7], 4, 5, 0) && !TooShort([7], 4, 4, 0)
  {
  }

  /** What one visit to the block of p can settle. */
  lemma BlockStep(file: seq<byte>, b: nat, p: nat, n: nat)
    requires b > 0
    ensures var blk, off := Block(file, b, p / b), p % b;
            && (|blk| != b && off + n > |blk| ==> TooShort(file, b, p, n))
            && (!(|blk| != b && off + n > |blk|) && off + n <= b ==>
                  !TooShort(file, b, p, n) && off + n <= |blk|
                  && (n > 0 ==> p + n <= |file| && blk[off..off + n] == file[p..p + n]))
            && (!(|blk| != b && off + n > |blk|) && off + n > b ==>
                  |blk| == b && p + (b - off) <= |file| && blk[off..b] == file[p..p + (b - off)]
                  && (TooShort(file, b, p, n) <==> TooShort(file, b, p + (b - off), n - (b - off))))
  {
    hide TooShort, Block;
    var n', off := p / b, p % b;
    Split(p, b);
    var lo := n' * b;
    BlockAt(file, b, n', lo);
    StepFrom(file, Block(file, b, n'), b, lo, off, n);
    BlockEndStart(p, b, lo, off);
    TooShortIs(file, b, p, n);
    TooShortIs(file, b, lo + b, n - Min(n, b - off));
  }

  lemma TooShortIs(file: seq<byte>, b: nat, p: nat, n: nat)
    requires b > 0
    ensures TooShort(file, b, p, n) <==> p + n > |file| && (n > 0 || p % b > 0)
  {
  }

  /** The end of a block is the start of the next. */
  lemma BlockEndStart(p: nat, b: nat, lo: nat, off: nat)
    requires b > 0 && p == lo + off && lo == p / b * b && off < b
    ensures p + (b - off) == lo + b && (lo + b) % b == 0
  {
    assert lo + b == (p / b + 1) * b;
    SplitUnique(lo + b, b, p / b + 1, 0);
  }

  /** The three cases, with the block's place in the file. */
  lemma StepFrom(file: seq<byte>, blk: seq<byte>, b: nat, lo: nat, off: nat, n: nat)
    requires off < b && |blk| == if lo >= |file| then 0 else Min(|file| - lo, b)
    requires forall i :: 0 <= i < |blk| ==> lo + i < |file| && blk[i] == file[lo + i]
    ensures var p := lo + off;
            && (|blk| != b && off + n > |blk| ==> p + n > |file| && (n > 0 || off > 0))
            && (!(|blk| != b && off + n > |blk|) && off + n <= b ==>
                  off + n <= |blk| && p + n <= lo + |blk|
                  && (n > 0 ==> p + n <= |file| && blk[off..off + n] == file[p..p + n])
                  && !(p + n > |file| && (n > 0 || off > 0)))
            && (!(|blk| != b && off + n > |blk|) && off + n > b ==>
                  |blk| == b && p + (b - off) <= |file| && blk[off..b] == file[p..p + (b - off)])
  {
  }

  lemma BlockAt(file: seq<byte>, b: nat, n: nat, lo: nat)
    requires lo == n * b
    ensures |Block(file, b, n)| == if lo >= |file| then 0 else Min(|file| - lo, b)
    ensures forall i :: 0 <= i < |Block(file, b, n)| ==> lo + i < |file| && Block(file, b, n)[i] == file[lo + i]
  {
  }
}
