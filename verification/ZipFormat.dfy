/** ZIP archives as zipadjust.c reads and writes them (sections 4.3.7, 4.3.12 and 4.3.16 of
    PKWARE APPNOTE): headers are lists of little-endian fields. */
module ZipFormat {
  import opened Common

  const MAGIC_LOCAL: nat := 0x04034b50
  const MAGIC_CENTRAL: nat := 0x02014b50
  const MAGIC_FOOTER: nat := 0x06054b50

  /** Field widths of the three structures. */
  const LOCAL: seq<nat> := [4, 2, 2, 2, 2, 2, 4, 4, 4, 2, 2]
  const CENTRAL_A: seq<nat> := [4, 2, 2, 2, 2, 2, 2, 4, 4, 4]
  const CENTRAL_B: seq<nat> := [2, 2, 2, 2, 2, 4, 4]
  const CENTRAL: seq<nat> := CENTRAL_A + CENTRAL_B
  const FOOTER: seq<nat> := [4, 2, 2, 2, 2, 4, 4, 2]

  const LOCAL_SIZE: nat := 30
  const CENTRAL_SIZE: nat := 46
  const FOOTER_SIZE: nat := 22

  // local_header_t
  const L_FLAGS := 2
  const L_METHOD := 3
  const L_CRC := 6
  const L_CSIZE := 7
  const L_USIZE := 8
  const L_NAME := 9
  const L_EXTRA := 10
  // central_header_t
  const C_FLAGS := 3
  const C_METHOD := 4
  const C_CRC := 7
  const C_CSIZE := 8
  const C_USIZE := 9
  const C_NAME := 10
  const C_EXTRA := 11
  const C_COMMENT := 12
  const C_OFFSET := 16
  // central_footer_t
  const F_SIZE := 5
  const F_OFFSET := 6
  const F_COMMENT := 7

  const L_FIELDS: nat := 11
  const C_FIELDS: nat := 17
  const F_FIELDS: nat := 8

  const DEFLATED: nat := 8

  /** 2^31 and 2^32. */
  const HALF: nat := 0x8000_0000
  const LIMIT: nat := 0x1_0000_0000

  // ---------------------------------------------------------------- fields

  function Pow256(w: nat): nat {
    if w == 0 then 1 else 256 * Pow256(w - 1)
  }

  function ToBytes(v: nat, w: nat): (r: seq<byte>)
    ensures |r| == w
  {
    if w == 0 then [] else [v % 256] + ToBytes(v / 256, w - 1)
  }

  function ToNumber(bs: seq<byte>): nat {
    if bs == [] then 0 else bs[0] + 256 * ToNumber(bs[1..])
  }

  lemma {:induction false} NumberBack(v: nat, w: nat)
    requires v < Pow256(w)
    ensures ToNumber(ToBytes(v, w)) == v
    decreases w
  {
    if w > 0 {
      NumberBack(v / 256, w - 1);
      assert ToBytes(v, w)[1..] == ToBytes(v / 256, w - 1);
    }
  }

  function Total(widths: seq<nat>): nat {
    if widths == [] then 0 else widths[0] + Total(widths[1..])
  }

  lemma {:induction false} TotalSame(widths: seq<nat>, w: nat)
    requires forall i :: 0 <= i < |widths| ==> widths[i] == w
    ensures Total(widths) == w * |widths|
    decreases |widths|
  {
    if widths != [] {
      TotalSame(widths[1..], w);
    }
  }

  lemma {:induction false} TotalAppend(a: seq<nat>, b: seq<nat>)
    ensures Total(a + b) == Total(a) + Total(b)
    decreases |a|
  {
    if a == [] {
      assert a + b == b;
    } else {
      assert (a + b)[1..] == a[1..] + b;
      TotalAppend(a[1..], b);
    }
  }

  lemma TotalRuns(k: nat, m: nat, n: nat)
    ensures Total(Repeat(4, k) + Repeat(2, m) + Repeat(4, n)) == 4 * k + 2 * m + 4 * n
  {
    TotalSame(Repeat(4, k), 4);
    TotalSame(Repeat(2, m), 2);
    TotalSame(Repeat(4, n), 4);
    TotalAppend(Repeat(4, k), Repeat(2, m));
    TotalAppend(Repeat(4, k) + Repeat(2, m), Repeat(4, n));
  }

  lemma LocalSize()
    ensures Total(LOCAL) == LOCAL_SIZE
  {
    TotalRuns(1, 5, 3);
    TotalSame(Repeat(2, 2), 2);
    TotalAppend(Repeat(4, 1) + Repeat(2, 5) + Repeat(4, 3), Repeat(2, 2));
    assert LOCAL == Repeat(4, 1) + Repeat(2, 5) + Repeat(4, 3) + Repeat(2, 2);
  }

  lemma CentralSize()
    ensures Total(CENTRAL) == CENTRAL_SIZE
  {
    CentralSizeA();
    CentralSizeB();
    TotalAppend(CENTRAL_A, CENTRAL_B);
  }

  lemma CentralSizeA()
    ensures Total(CENTRAL_A) == 28
  {
    TotalRuns(1, 6, 3);
    assert CENTRAL_A == Repeat(4, 1) + Repeat(2, 6) + Repeat(4, 3);
  }

  lemma CentralSizeB()
    ensures Total(CENTRAL_B) == 18
  {
    TotalRuns(0, 5, 2);
    assert CENTRAL_B == Repeat(4, 0) + Repeat(2, 5) + Repeat(4, 2);
  }

  lemma FooterSize()
    ensures Total(FOOTER) == FOOTER_SIZE
  {
    TotalRuns(1, 4, 2);
    TotalSame(Repeat(2, 1), 2);
    TotalAppend(Repeat(4, 1) + Repeat(2, 4) + Repeat(4, 2), Repeat(2, 1));
    assert FOOTER == Repeat(4, 1) + Repeat(2, 4) + Repeat(4, 2) + Repeat(2, 1);
  }

  /** A header whose fields fit their widths. */
  ghost predicate Header(widths: seq<nat>, vals: seq<nat>) {
    |vals| == |widths| && forall i :: 0 <= i < |vals| ==> vals[i] < Pow256(widths[i])
  }

  function Write(widths: seq<nat>, vals: seq<nat>): (r: seq<byte>)
    requires |vals| == |widths|
    ensures |r| == Total(widths)
  {
    if widths == [] then [] else ToBytes(vals[0], widths[0]) + Write(widths[1..], vals[1..])
  }

  function Read(widths: seq<nat>, bs: seq<byte>): (r: seq<nat>)
    requires |bs| >= Total(widths)
    ensures |r| == |widths|
  {
    if widths == [] then [] else [ToNumber(bs[..widths[0]])] + Read(widths[1..], bs[widths[0]..])
  }

  lemma {:induction false} ReadWrite(widths: seq<nat>, vals: seq<nat>, rest: seq<byte>)
    requires Header(widths, vals)
    ensures Read(widths, Write(widths, vals) + rest) == vals
    decreases |widths|
  {
    hide ToBytes, ToNumber, Pow256, Total;
    if widths != [] {
      var all := Write(widths, vals) + rest;
      var first := ToBytes(vals[0], widths[0]);
      NumberBack(vals[0], widths[0]);
      assert all[..widths[0]] == first;
      assert all[widths[0]..] == Write(widths[1..], vals[1..]) + rest;
      ReadWrite(widths[1..], vals[1..], rest);
    }
  }

  // ---------------------------------------------------------------- archives

  /** One archived file: its headers, the variable parts and its stored bytes. */
  datatype Member = Member(local: seq<nat>, central: seq<nat>, name: seq<byte>,
                           extra: seq<byte>, centralExtra: seq<byte>, comment: seq<byte>, raw: seq<byte>)
  {
    /** Lengths and magics are as the headers say; local and central agree on them. */
    ghost predicate Valid() {
      && |local| == L_FIELDS && |central| == C_FIELDS
      && Header(LOCAL, local) && Header(CENTRAL, central)
      && local[0] == MAGIC_LOCAL && central[0] == MAGIC_CENTRAL
      && local[L_NAME] == central[C_NAME] == |name| < 1024
      && local[L_EXTRA] == central[C_EXTRA] == |extra| == |centralExtra|
      && central[C_COMMENT] == |comment|
      && central[C_CSIZE] == |raw|
    }

    function LocalBytes(): seq<byte>
      requires |local| == L_FIELDS
    {
      Write(LOCAL, local) + name + extra + raw
    }

    function CentralBytes(): seq<byte>
      requires |central| == C_FIELDS
    {
      Write(CENTRAL, central) + name + centralExtra + comment
    }
  }

  /** `part` is in the file at the offset. */
  ghost predicate Holds(file: seq<byte>, offset: nat, part: seq<byte>) {
    offset + |part| <= |file| && file[offset..offset + |part|] == part
  }

  /** The local records, one after another. */
  function Records(ms: seq<Member>): seq<byte>
    requires forall i :: 0 <= i < |ms| ==> |ms[i].local| == L_FIELDS
  {
    if ms == [] then [] else Records(ms[..|ms| - 1]) + ms[|ms| - 1].LocalBytes()
  }

  /** The central directory. */
  function Directory(ms: seq<Member>): seq<byte>
    requires forall i :: 0 <= i < |ms| ==> |ms[i].central| == C_FIELDS
  {
    if ms == [] then [] else Directory(ms[..|ms| - 1]) + ms[|ms| - 1].CentralBytes()
  }

  /** Four bytes as a magic number. */
  predicate MagicAt(file: seq<byte>, i: nat, magic: nat) {
    i + 4 <= |file| && ToNumber(file[i..i + 4]) == magic
  }

  /** A deflated stream ends by itself. */
  ghost predicate SelfDelimiting(inflate: seq<byte> -> Option<seq<byte>>) {
    forall a, b {:trigger inflate(a + b)} :: inflate(a).Some? ==> inflate(a + b) == inflate(a)
  }

  /** Deflated data inflates to the size that the header gives. */
  ghost predicate Inflates(m: Member, inflate: seq<byte> -> Option<seq<byte>>)
    requires |m.central| == C_FIELDS
  {
    m.central[C_METHOD] == DEFLATED ==> inflate(m.raw).Some? && |inflate(m.raw).value| == m.central[C_USIZE]
  }

  /** Every local record is where the directory says. */
  ghost predicate Stored(file: seq<byte>, ms: seq<Member>) {
    forall i :: 0 <= i < |ms| ==> ms[i].Valid() && Holds(file, ms[i].central[C_OFFSET], ms[i].LocalBytes())
  }

  /** The directory at `position` lists these members and then ends. */
  ghost predicate Directed(file: seq<byte>, ms: seq<Member>, position: nat) {
    && |file| < LIMIT && Stored(file, ms)
    && Holds(file, position, Directory(ms)) && position + |Directory(ms)| + 4 <= |file|
    && !MagicAt(file, position + |Directory(ms)|, MAGIC_CENTRAL)
  }

  /** A file that is an archive of these members: the directory is where the footer says and the
      footer follows it.  Anything may follow the footer. */
  ghost predicate Archive(file: seq<byte>, ms: seq<Member>, footer: seq<nat>) {
    && |file| < LIMIT && ms != [] && Stored(file, ms)
    && |footer| == F_FIELDS && Header(FOOTER, footer) && footer[0] == MAGIC_FOOTER
    && Holds(file, footer[F_OFFSET], Directory(ms) + Write(FOOTER, footer))
  }

  // ---------------------------------------------------------------- the search for the footer

  /** The footer at `i`, and the first directory entry that it points to, can be read. */
  predicate Readable(file: seq<byte>, i: nat) {
    FooterSize();
    i + FOOTER_SIZE <= |file| && Read(FOOTER, file[i..])[F_OFFSET] + CENTRAL_SIZE <= |file|
  }

  function FooterIn(file: seq<byte>, i: nat): (f: seq<nat>)
    requires Readable(file, i)
    ensures |f| == F_FIELDS
  {
    FooterSize();
    Read(FOOTER, file[i..])
  }

  /** The search ends at `i`: there is a footer magic, and what it announces is cut off by the end
      of the file or does find a directory. */
  predicate Stops(file: seq<byte>, i: nat) {
    && MagicAt(file, i, MAGIC_FOOTER)
    && (Readable(file, i) ==> MagicAt(file, FooterIn(file, i)[F_OFFSET], MAGIC_CENTRAL))
  }

  /** The last place, below `n`, where the search ends. */
  ghost predicate LastStop(file: seq<byte>, i: nat, n: nat) {
    i < n && Stops(file, i) && forall j :: i < j < n ==> !Stops(file, j)
  }

  /** The number of places to search: the file size is taken as a signed 32-bit number. */
  function Places(size: nat): nat {
    var s := size % LIMIT;
    if 4 <= s < HALF + 4 then s - 3 else 0
  }

  /** What the search from place `n` downwards ends with. */
  function Search(file: seq<byte>, n: nat): (r: Option<seq<nat>>)
    ensures r.Some? ==> |r.value| == F_FIELDS
  {
    if n == 0 then None
    else if Stops(file, n - 1) then if Readable(file, n - 1) then Some(FooterIn(file, n - 1)) else None
    else Search(file, n - 1)
  }

  function Found(file: seq<byte>): (r: Option<seq<nat>>)
    ensures r.Some? ==> |r.value| == F_FIELDS
  {
    Search(file, Places(|file|))
  }

  /** The search gives the footer at the last place that ends it, if that footer can be read. */
  lemma {:induction false} SearchEndsAt(file: seq<byte>, i: nat, n: nat)
    requires LastStop(file, i, n)
    ensures Search(file, n) == if Readable(file, i) then Some(FooterIn(file, i)) else None
    decreases n
  {
    hide Stops, Readable, FooterIn;
    if i < n - 1 {
      SearchEndsAt(file, i, n - 1);
    }
  }

  /** Without such a place it gives nothing. */
  lemma {:induction false} SearchNothing(file: seq<byte>, n: nat)
    requires forall j :: 0 <= j < n ==> !Stops(file, j)
    ensures Search(file, n) == None
    decreases n
  {
    hide Stops, Readable, FooterIn;
    if n > 0 {
      SearchNothing(file, n - 1);
    }
  }

  /** No later place ends the search. */
  ghost predicate Undisturbed(file: seq<byte>, at: nat) {
    forall j :: at < j < |file| ==> !Stops(file, j)
  }
}
