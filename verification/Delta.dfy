/** The meaning of delta instructions (section 3 of RFC 3284): what a list of ADD, RUN and COPY
    instructions makes of a source window. */
module Delta {
  import opened Common

  /** Addresses of a copy count through the source window and on into the target. */
  datatype Inst = Add(bytes: seq<byte>) | Run(value: byte, count: nat) | Copy(addr: nat, length: nat) {
    function Size(): nat {
      match this
      case Add(bytes) => |bytes|
      case Run(_, count) => count
      case Copy(_, length) => length
    }
  }

  /** The byte at an address of source window and target laid end to end. */
  function At(src: seq<byte>, target: seq<byte>, addr: nat): byte
    requires addr < |src| + |target|
  {
    if addr < |src| then src[addr] else target[addr - |src|]
  }

  /** The n bytes of t at pos equal those at the addresses from addr on. */
  ghost predicate Matches(src: seq<byte>, t: seq<byte>, pos: nat, addr: nat, n: nat)
    requires pos + n <= |t| && addr < |src| + pos
  {
    forall p :: pos <= p < pos + n ==> t[p] == At(src, t, addr + (p - pos))
  }

  /** A copy proceeds byte by byte, so it may read what it has just written. */
  function CopyBytes(src: seq<byte>, out: seq<byte>, addr: nat, n: nat): (r: seq<byte>)
    requires addr < |src| + |out|
    ensures |r| == |out| + n
    decreases n
  {
    if n == 0 then out else CopyBytes(src, out + [At(src, out, addr)], addr + 1, n - 1)
  }

  predicate Applicable(i: Inst, srclen: nat, pos: nat) {
    && i.Size() > 0
    && (i.Copy? ==> i.addr < srclen + pos)
  }

  function ApplyInst(i: Inst, src: seq<byte>, out: seq<byte>): (r: seq<byte>)
    requires Applicable(i, |src|, |out|)
    ensures |r| == |out| + i.Size()
  {
    match i
    case Add(bytes) => out + bytes
    case Run(value, count) => out + Repeat(value, count)
    case Copy(addr, length) => CopyBytes(src, out, addr, length)
  }

  predicate AllApplicable(insts: seq<Inst>, srclen: nat, pos: nat)
    decreases |insts|
  {
    insts == [] || (Applicable(insts[0], srclen, pos) && AllApplicable(insts[1..], srclen, pos + insts[0].Size()))
  }

  function TotalSize(insts: seq<Inst>): nat {
    if insts == [] then 0 else insts[0].Size() + TotalSize(insts[1..])
  }

  /** The target after `out` has been written. */
  function Apply(insts: seq<Inst>, src: seq<byte>, out: seq<byte>): (r: seq<byte>)
    requires AllApplicable(insts, |src|, |out|)
    ensures |r| == |out| + TotalSize(insts)
    decreases |insts|
  {
    if insts == [] then out else Apply(insts[1..], src, ApplyInst(insts[0], src, out))
  }

  /** What a byte-by-byte copy leaves: the output so far, then bytes equal to those at the
      copied addresses of the final output, even where the copy overlaps itself. */
  lemma {:induction false} CopyBytesMeaning(src: seq<byte>, out: seq<byte>, addr: nat, n: nat)
    requires addr < |src| + |out|
    ensures var r := CopyBytes(src, out, addr, n);
            && r[..|out|] == out
            && Matches(src, r, |out|, addr, n)
    decreases n
  {
    if n > 0 {
      var next := out + [At(src, out, addr)];
      CopyBytesMeaning(src, next, addr + 1, n - 1);
      var r := CopyBytes(src, out, addr, n);
      assert r == CopyBytes(src, next, addr + 1, n - 1);
      assert next[..|out|] == out;
      assert r[..|out|] == r[..|next|][..|out|];
      assert r[|out|] == r[..|next|][|out|] == At(src, out, addr);
      assert Matches(src, r, |next|, addr + 1, n - 1);
      if addr >= |src| {
        assert r[addr - |src|] == r[..|out|][addr - |src|];
      }
    }
  }

  /** The output so far is never touched again. */
  lemma {:induction false} ApplyPrefix(insts: seq<Inst>, src: seq<byte>, out: seq<byte>)
    requires AllApplicable(insts, |src|, |out|)
    ensures Apply(insts, src, out)[..|out|] == out
    decreases |insts|
  {
    if insts == [] {
      assert out[..|out|] == out;
    } else {
      var next := ApplyInst(insts[0], src, out);
      assert next[..|out|] == out by {
        if insts[0].Copy? {
          CopyBytesMeaning(src, out, insts[0].addr, insts[0].length);
        }
      }
      ApplyPrefix(insts[1..], src, next);
      assert Apply(insts, src, out)[..|out|] == Apply(insts, src, out)[..|next|][..|out|];
    }
  }

  lemma {:induction false} ApplicableAppend(a: seq<Inst>, b: seq<Inst>, srclen: nat, pos: nat)
    ensures AllApplicable(a + b, srclen, pos) <==>
            AllApplicable(a, srclen, pos) && AllApplicable(b, srclen, pos + TotalSize(a))
    ensures TotalSize(a + b) == TotalSize(a) + TotalSize(b)
    decreases |a|
  {
    if a == [] {
      assert a + b == b;
    } else {
      assert (a + b)[0] == a[0] && (a + b)[1..] == a[1..] + b;
      ApplicableAppend(a[1..], b, srclen, pos + a[0].Size());
    }
  }

  lemma {:induction false} ApplyAppend(a: seq<Inst>, b: seq<Inst>, src: seq<byte>, out: seq<byte>)
    requires AllApplicable(a, |src|, |out|)
    requires AllApplicable(b, |src|, |out| + TotalSize(a))
    ensures AllApplicable(a + b, |src|, |out|)
    ensures Apply(a + b, src, out) == Apply(b, src, Apply(a, src, out))
    decreases |a|
  {
    ApplicableAppend(a, b, |src|, |out|);
    if a == [] {
      assert a + b == b;
    } else {
      assert (a + b)[0] == a[0] && (a + b)[1..] == a[1..] + b;
      ApplyAppend(a[1..], b, src, ApplyInst(a[0], src, out));
    }
  }

  /** An instruction at `pos` that describes `input` there: the bytes themselves, a run of one
      byte, or a range equal to the bytes at the copied addresses. */
  ghost predicate Describes(i: Inst, src: seq<byte>, input: seq<byte>, pos: nat) {
    && 0 < i.Size() <= |input| - pos
    && match i
       case Add(bytes) => bytes == input[pos..pos + |bytes|]
       case Run(value, count) => forall p :: pos <= p < pos + count ==> input[p] == value
       case Copy(addr, length) => addr < |src| + pos && Matches(src, input, pos, addr, length)
  }

  ghost predicate AllDescribe(insts: seq<Inst>, src: seq<byte>, input: seq<byte>, pos: nat)
    decreases |insts|
  {
    insts == [] || (Describes(insts[0], src, input, pos) && AllDescribe(insts[1..], src, input, pos + insts[0].Size()))
  }

  lemma {:induction false} ApplyDescribed(i: Inst, src: seq<byte>, input: seq<byte>, pos: nat)
    requires pos <= |input| && Describes(i, src, input, pos)
    ensures Applicable(i, |src|, pos)
    ensures ApplyInst(i, src, input[..pos]) == input[..pos + i.Size()]
  {
    var out := input[..pos];
    match i {
      case Add(bytes) =>
        assert out + bytes == input[..pos + |bytes|];
      case Run(value, count) =>
        assert out + Repeat(value, count) == input[..pos + count];
      case Copy(addr, length) =>
        CopyBytesMeaning(src, out, addr, length);
        var r := CopyBytes(src, out, addr, length);
        CopyAgrees(src, input, r, pos, addr, length, length);
    }
  }

  /** A copy that is a true match writes the input, one byte after the other. */
  lemma {:induction false} CopyAgrees(src: seq<byte>, input: seq<byte>, r: seq<byte>, pos: nat, addr: nat, n: nat,
                                      k: nat)
    requires k <= n <= |input| - pos && |r| == pos + n && addr < |src| + pos
    requires r[..pos] == input[..pos]
    requires Matches(src, input, pos, addr, n) && Matches(src, r, pos, addr, n)
    ensures r[..pos + k] == input[..pos + k]
    decreases k
  {
    if k > 0 {
      CopyAgrees(src, input, r, pos, addr, n, k - 1);
      var j := k - 1;
      if addr + j >= |src| {
        assert r[..pos + j][addr + j - |src|] == input[..pos + j][addr + j - |src|];
      }
      assert r[pos + j] == input[pos + j];
      assert r[..pos + k] == r[..pos + j] + [r[pos + j]];
      assert input[..pos + k] == input[..pos + j] + [input[pos + j]];
    }
  }

  /** Instructions that describe an input from its start produce exactly that input. */
  lemma {:induction false} ApplyReproduces(insts: seq<Inst>, src: seq<byte>, input: seq<byte>, pos: nat)
    requires pos <= |input| && AllDescribe(insts, src, input, pos)
    ensures pos + TotalSize(insts) <= |input|
    ensures AllApplicable(insts, |src|, pos)
    ensures Apply(insts, src, input[..pos]) == input[..pos + TotalSize(insts)]
    decreases |insts|
  {
    if insts != [] {
      ApplyDescribed(insts[0], src, input, pos);
      ApplyReproduces(insts[1..], src, input, pos + insts[0].Size());
    }
  }

  /** A copy inside the source window appends that range of it. */
  lemma {:induction false} SourceCopyBytes(src: seq<byte>, out: seq<byte>, addr: nat, n: nat)
    requires addr < |src| && addr + n <= |src|
    ensures CopyBytes(src, out, addr, n) == out + src[addr..addr + n]
  {
    CopyBytesMeaning(src, out, addr, n);
    var r := CopyBytes(src, out, addr, n);
    assert r == r[..|out|] + r[|out|..];
    assert r[|out|..] == src[addr..addr + n];
  }

  /** A copy from the target does not depend on the source window. */
  lemma {:induction false} TargetCopyBytes(src1: seq<byte>, src2: seq<byte>, out: seq<byte>, a: nat, n: nat)
    requires a < |out|
    ensures CopyBytes(src1, out, |src1| + a, n) == CopyBytes(src2, out, |src2| + a, n)
    decreases n
  {
    if n > 0 {
      TargetCopyBytes(src1, src2, out + [out[a]], a + 1, n - 1);
    }
  }

  /** What instructions produce is what they describe. */
  lemma {:induction false} ApplyDescribes(insts: seq<Inst>, src: seq<byte>, out: seq<byte>)
    requires AllApplicable(insts, |src|, |out|)
    ensures AllDescribe(insts, src, Apply(insts, src, out), |out|)
    decreases |insts|
  {
    if insts != [] {
      var i := insts[0];
      var next := ApplyInst(i, src, out);
      var t := Apply(insts, src, out);
      ApplyDescribes(insts[1..], src, next);
      ApplyPrefix(insts[1..], src, next);
      assert forall p :: 0 <= p < |next| ==> t[p] == t[..|next|][p] == next[p];
      if i.Copy? {
        CopyBytesMeaning(src, out, i.addr, i.length);
      } else if i.Add? {
        assert t[|out|..|next|] == next[|out|..] == i.bytes;
      }
    }
  }

  lemma {:induction false} DescribesAt(insts: seq<Inst>, src: seq<byte>, t: seq<byte>, pos: nat, k: nat)
    requires AllDescribe(insts, src, t, pos) && k < |insts|
    ensures Describes(insts[k], src, t, pos + TotalSize(insts[..k]))
    decreases |insts|
  {
    if k > 0 {
      DescribesAt(insts[1..], src, t, pos + insts[0].Size(), k - 1);
      assert insts[..k][0] == insts[0] && insts[..k][1..] == insts[1..][..k - 1];
    }
  }

  /** An instruction that reads nothing of the target. */
  predicate SelfContained(i: Inst, srclen: nat) {
    i.Size() > 0 && (i.Copy? ==> i.addr + i.length <= srclen)
  }

  ghost predicate AllSelfContained(insts: seq<Inst>, srclen: nat) {
    forall k :: 0 <= k < |insts| ==> SelfContained(insts[k], srclen)
  }

  /** The bytes that a self-contained instruction writes wherever it is executed. */
  function ContentOf(i: Inst, src: seq<byte>): seq<byte>
    requires SelfContained(i, |src|)
  {
    match i
    case Add(bytes) => bytes
    case Run(value, count) => Repeat(value, count)
    case Copy(addr, length) => src[addr..addr + length]
  }

  lemma ApplyContentOf(i: Inst, src: seq<byte>, out: seq<byte>)
    requires SelfContained(i, |src|)
    ensures ApplyInst(i, src, out) == out + ContentOf(i, src)
  {
    if i.Copy? {
      SourceCopyBytes(src, out, i.addr, i.length);
    }
  }

  function Content(insts: seq<Inst>, src: seq<byte>): seq<byte>
    requires AllSelfContained(insts, |src|)
    decreases |insts|
  {
    if insts == [] then []
    else
      assert SelfContained(insts[0], |src|);
      ContentOf(insts[0], src) + Content(insts[1..], src)
  }

  lemma {:induction false} ContentAppend(a: seq<Inst>, b: seq<Inst>, src: seq<byte>)
    requires AllSelfContained(a, |src|) && AllSelfContained(b, |src|)
    ensures AllSelfContained(a + b, |src|)
    ensures Content(a + b, src) == Content(a, src) + Content(b, src)
    decreases |a|
  {
    hide ContentOf, SelfContained;
    if a == [] {
      assert a + b == b && [] + Content(b, src) == Content(b, src);
    } else {
      assert (a + b)[0] == a[0] && (a + b)[1..] == a[1..] + b;
      ContentAppend(a[1..], b, src);
      assert SelfContained(a[0], |src|);
      var x := ContentOf(a[0], src);
      assert x + (Content(a[1..], src) + Content(b, src)) == x + Content(a[1..], src) + Content(b, src);
    }
  }

  lemma {:induction false} ApplyContent(insts: seq<Inst>, src: seq<byte>, out: seq<byte>)
    requires AllSelfContained(insts, |src|)
    ensures AllApplicable(insts, |src|, |out|)
    ensures Apply(insts, src, out) == out + Content(insts, src)
    decreases |insts|
  {
    if insts != [] {
      var i := insts[0];
      assert SelfContained(i, |src|);
      ApplyContentOf(i, src, out);
      var rest := insts[1..];
      ApplyContent(rest, src, ApplyInst(i, src, out));
      assert out + ContentOf(i, src) + Content(rest, src) == out + (ContentOf(i, src) + Content(rest, src));
    }
  }
}
