/** Normalising a ZIP archive: every member is rewritten without extra fields, descriptors and
    comments, deflated members may be stored inflated, and records become contiguous.  Models
    the rewriting of zipadjust.c. */
module ZipAdjust {
  import opened Common
  import opened ZipFormat

  type Inflate = seq<byte> -> Option<seq<byte>>

  /** `flags & !8`: in C the operand is the logical negation of 8, which is 0. */
  function ClearFlags(flags: nat): nat {
    0
  }

  /** What clearing only bit 3, the data descriptor flag, would give. */
  function WithoutDescriptor(flags: nat): nat {
    if flags / 8 % 2 == 1 then flags - 8 else flags
  }

  /** The other flags survive exactly when there are none. */
  lemma FlagsSurvive(flags: nat)
    ensures ClearFlags(flags) == WithoutDescriptor(flags) <==> flags == 0 || flags == 8
  {
  }

  /** The flag for names in UTF-8 (bit 11) is lost. */
  lemma LostFlag()
    ensures ClearFlags(0x808) != WithoutDescriptor(0x808)
  {
  }

  predicate Inflated(m: Member, decompress: bool)
    requires |m.central| == C_FIELDS
  {
    decompress && m.central[C_METHOD] == DEFLATED
  }

  /** The uncompressed contents. */
  function Contents(m: Member, inflate: Inflate): Option<seq<byte>>
    requires |m.central| == C_FIELDS
  {
    if m.central[C_METHOD] == DEFLATED then inflate(m.raw) else Some(m.raw)
  }

  /** The rewritten headers and contents of a member whose local record goes to `at`. */
  function Adjusted(m: Member, at: nat, decompress: bool, inflate: Inflate): (r: Member)
    requires |m.central| == C_FIELDS && |m.local| == L_FIELDS
    ensures |r.central| == C_FIELDS && |r.local| == L_FIELDS
  {
    var c0 := m.central[C_OFFSET := at][C_FLAGS := ClearFlags(m.central[C_FLAGS])];
    var inflated := Inflated(m, decompress);
    var c1 := if inflated then c0[C_METHOD := 0][C_CSIZE := c0[C_USIZE]] else c0;
    var c2 := c1[C_EXTRA := 0][C_COMMENT := 0];
    var l := m.local[L_METHOD := c2[C_METHOD]][L_FLAGS := c2[C_FLAGS]][L_CRC := c2[C_CRC]]
                    [L_USIZE := c2[C_USIZE]][L_CSIZE := c2[C_CSIZE]][L_EXTRA := 0];
    var raw := if inflated && inflate(m.raw).Some? then inflate(m.raw).value else m.raw;
    Member(l, c2, m.name, [], [], [], raw)
  }

  ghost predicate Sized(ms: seq<Member>) {
    forall i :: 0 <= i < |ms| ==> |ms[i].central| == C_FIELDS && |ms[i].local| == L_FIELDS
  }

  /** All members, each at the end of the records before it. */
  function Place(ms: seq<Member>, decompress: bool, inflate: Inflate): (r: seq<Member>)
    requires Sized(ms)
    ensures |r| == |ms| && Sized(r)
  {
    hide Records, Adjusted;
    if ms == [] then []
    else
      var front := Place(ms[..|ms| - 1], decompress, inflate);
      front + [Adjusted(ms[|ms| - 1], |Records(front)|, decompress, inflate)]
  }

  function NewFooter(footer: seq<nat>, ms: seq<Member>): (r: seq<nat>)
    requires |footer| == F_FIELDS && Sized(ms)
    ensures |r| == F_FIELDS
  {
    hide Directory, Records;
    footer[F_SIZE := |Directory(ms)|][F_OFFSET := |Records(ms)|][F_COMMENT := 0]
  }

  /** The output file. */
  function Image(ms: seq<Member>, footer: seq<nat>): seq<byte>
    requires Sized(ms) && |footer| == F_FIELDS
  {
    Records(ms) + Directory(ms) + Write(FOOTER, footer)
  }

  // ---------------------------------------------------------------- meaning

  /** Headers of the local record and of the directory entry say the same. */
  predicate Matching(r: Member)
    requires |r.central| == C_FIELDS && |r.local| == L_FIELDS
  {
    && r.local[L_METHOD] == r.central[C_METHOD] && r.local[L_FLAGS] == r.central[C_FLAGS] == 0
    && r.local[L_CRC] == r.central[C_CRC] && r.local[L_CSIZE] == r.central[C_CSIZE]
    && r.local[L_USIZE] == r.central[C_USIZE]
  }

  /** All that is different in the headers: offset, flags, lengths of what is dropped, and method
      and compressed size of a member that is inflated.  The local header follows the directory. */
  ghost predicate HeadersAdjusted(c0: seq<nat>, l0: seq<nat>, c: seq<nat>, l: seq<nat>, at: nat, inflated: bool)
    requires |c0| == C_FIELDS == |c| && |l0| == L_FIELDS == |l|
  {
    && (forall i :: 0 <= i < C_FIELDS && i !in {C_FLAGS, C_METHOD, C_CSIZE, C_EXTRA, C_COMMENT, C_OFFSET} ==>
          c[i] == c0[i])
    && (forall i :: 0 <= i < L_FIELDS && i !in {L_FLAGS, L_METHOD, L_CRC, L_CSIZE, L_USIZE, L_EXTRA} ==>
          l[i] == l0[i])
    && c[C_OFFSET] == at && c[C_FLAGS] == 0 && c[C_EXTRA] == c[C_COMMENT] == 0
    && c[C_METHOD] == (if inflated then 0 else c0[C_METHOD])
    && c[C_CSIZE] == (if inflated then c0[C_USIZE] else c0[C_CSIZE])
    && l[L_METHOD] == c[C_METHOD] && l[L_FLAGS] == 0 && l[L_EXTRA] == 0
    && l[L_CRC] == c0[C_CRC] && l[L_USIZE] == c0[C_USIZE] && l[L_CSIZE] == c[C_CSIZE]
  }

  ghost predicate OnlyAdjusted(m: Member, r: Member, at: nat, inflated: bool)
    requires |m.central| == C_FIELDS == |r.central| && |m.local| == L_FIELDS == |r.local|
  {
    && HeadersAdjusted(m.central, m.local, r.central, r.local, at, inflated)
    && r.name == m.name && r.extra == r.centralExtra == r.comment == []
  }

  /** The stored bytes are the inflated ones, or the same. */
  ghost predicate RawKept(m: Member, r: Member, inflated: bool, inflate: Inflate) {
    if inflated then inflate(m.raw) == Some(r.raw) else r.raw == m.raw
  }

  /** Modification time and date, attributes, versions and disk numbers are the input's. */
  lemma FieldsKept(m: Member, at: nat, decompress: bool, inflate: Inflate)
    requires |m.central| == C_FIELDS && |m.local| == L_FIELDS
    ensures var r := Adjusted(m, at, decompress, inflate);
            && OnlyAdjusted(m, r, at, Inflated(m, decompress))
            && ((Inflated(m, decompress) ==> inflate(m.raw).Some?) ==>
                  RawKept(m, r, Inflated(m, decompress), inflate))
  {
  }

  /** The footer keeps disk numbers and entry counts. */
  lemma FooterKept(footer: seq<nat>, ms: seq<Member>)
    requires |footer| == F_FIELDS && Sized(ms)
    ensures var f := NewFooter(footer, ms);
            && (forall i :: 0 <= i < F_FIELDS && i !in {F_SIZE, F_OFFSET, F_COMMENT} ==> f[i] == footer[i])
            && f[F_SIZE] == |Directory(ms)| && f[F_OFFSET] == |Records(ms)| && f[F_COMMENT] == 0
  {
    hide Records, Directory;
  }

  /** A member that is well formed stays so, with matching headers, the same name and the same
      contents. */
  lemma AdjustedMember(m: Member, at: nat, decompress: bool, inflate: Inflate)
    requires m.Valid() && (Inflated(m, decompress) ==> Inflates(m, inflate)) && at < LIMIT
    ensures var r := Adjusted(m, at, decompress, inflate);
            && r.Valid() && !Inflated(r, decompress) && r.name == m.name && r.central[C_OFFSET] == at
            && Contents(r, inflate) == Contents(m, inflate) && Matching(r)
            && OnlyAdjusted(m, r, at, Inflated(m, decompress))
            && RawKept(m, r, Inflated(m, decompress), inflate)
  {
    var r := Adjusted(m, at, decompress, inflate);
    FieldsKept(m, at, decompress, inflate);
    hide OnlyAdjusted;
    Widths();
    assert Header(CENTRAL, r.central);
    assert Header(LOCAL, r.local);
  }

  lemma Widths()
    ensures Pow256(2) == 0x1_0000 && Pow256(4) == 0x1_0000_0000
  {
    assert Pow256(1) == 256 && Pow256(2) == 256 * Pow256(1) && Pow256(3) == 256 * Pow256(2);
  }

  /** Adjusting again changes nothing. */
  lemma AdjustTwice(m: Member, at: nat, decompress: bool, inflate: Inflate)
    requires |m.central| == C_FIELDS && |m.local| == L_FIELDS
    ensures var r := Adjusted(m, at, decompress, inflate); Adjusted(r, at, decompress, inflate) == r
  {
    var r := Adjusted(m, at, decompress, inflate);
    var q := Adjusted(r, at, decompress, inflate);
    assert q.central == r.central;
    assert q.local == r.local;
  }

  lemma PlaceSnoc(front: seq<Member>, m: Member, decompress: bool, inflate: Inflate)
    requires Sized(front + [m])
    ensures Sized(front) && |m.central| == C_FIELDS && |m.local| == L_FIELDS
    ensures var ps := Place(front, decompress, inflate);
            Place(front + [m], decompress, inflate) == ps + [Adjusted(m, |Records(ps)|, decompress, inflate)]
  {
    hide Adjusted, Records;
    var ms := front + [m];
    assert ms[..|front|] == front && ms[|front|] == m;
    forall i | 0 <= i < |front| ensures |front[i].central| == C_FIELDS && |front[i].local| == L_FIELDS {
      assert ms[i] == front[i];
    }
  }

  /** A second pass is the identity. */
  lemma {:induction false} PlaceTwice(ms: seq<Member>, decompress: bool, inflate: Inflate)
    requires Sized(ms)
    ensures Place(Place(ms, decompress, inflate), decompress, inflate) == Place(ms, decompress, inflate)
    decreases |ms|
  {
    if ms != [] {
      hide Adjusted, Records, Place, Sized;
      var front, m := ms[..|ms| - 1], ms[|ms| - 1];
      assert ms == front + [m];
      PlaceSnoc(front, m, decompress, inflate);
      PlaceTwice(front, decompress, inflate);
      var ps := Place(front, decompress, inflate);
      var r := Adjusted(m, |Records(ps)|, decompress, inflate);
      PlaceSnoc(ps, r, decompress, inflate);
      AdjustTwice(m, |Records(ps)|, decompress, inflate);
    }
  }

  // ---------------------------------------------------------------- the output is an archive

  lemma {:induction false} PlacePrefix(ms: seq<Member>, decompress: bool, inflate: Inflate, k: nat)
    requires Sized(ms) && k <= |ms|
    ensures Place(ms, decompress, inflate)[..k] == Place(ms[..k], decompress, inflate)
    decreases |ms|
  {
    hide Adjusted, Records;
    var ps := Place(ms, decompress, inflate);
    if k == |ms| {
      assert ps[..k] == ps && ms[..k] == ms;
    } else {
      var n := |ms| - 1;
      PlacePrefix(ms[..n], decompress, inflate, k);
      assert ps[..k] == ps[..n][..k] && ms[..n][..k] == ms[..k];
    }
  }

  /** Each placed member is the adjusted one at the end of the records before it. */
  lemma PlacedAt(ms: seq<Member>, decompress: bool, inflate: Inflate, k: nat)
    requires Sized(ms) && k < |ms|
    ensures var ps := Place(ms, decompress, inflate);
            Sized(ps[..k]) && ps[k] == Adjusted(ms[k], |Records(ps[..k])|, decompress, inflate)
  {
    hide Adjusted, Records;
    var ps := Place(ms, decompress, inflate);
    PlacePrefix(ms, decompress, inflate, k + 1);
    PlacePrefix(ms, decompress, inflate, k);
    assert ps[k] == ps[..k + 1][k] && ms[..k + 1][..k] == ms[..k];
  }

  lemma {:induction false} RecordAt(ms: seq<Member>, k: nat)
    requires Sized(ms) && k < |ms|
    ensures Sized(ms[..k]) && Holds(Records(ms), |Records(ms[..k])|, ms[k].LocalBytes())
    decreases |ms|
  {
    hide Member.LocalBytes;
    var n := |ms| - 1;
    if k < n {
      RecordAt(ms[..n], k);
      assert ms[..n][..k] == ms[..k];
      HoldsMore(Records(ms[..n]), ms[n].LocalBytes(), |Records(ms[..k])|, ms[k].LocalBytes());
    }
  }

  lemma HoldsMore(file: seq<byte>, more: seq<byte>, at: nat, part: seq<byte>)
    requires Holds(file, at, part)
    ensures Holds(file + more, at, part)
  {
    assert (file + more)[at..at + |part|] == file[at..at + |part|];
  }

  lemma {:induction false} DirectoryAt(ms: seq<Member>, k: nat)
    requires Sized(ms) && k < |ms|
    ensures Sized(ms[..k]) && Holds(Directory(ms), |Directory(ms[..k])|, ms[k].CentralBytes())
    decreases |ms|
  {
    hide Member.CentralBytes;
    var n := |ms| - 1;
    if k < n {
      DirectoryAt(ms[..n], k);
      assert ms[..n][..k] == ms[..k];
      HoldsMore(Directory(ms[..n]), ms[n].CentralBytes(), |Directory(ms[..k])|, ms[k].CentralBytes());
    }
  }

  /** The deflated members that are to be inflated do so. */
  ghost predicate Inflatable(ms: seq<Member>, decompress: bool, inflate: Inflate)
    requires Sized(ms)
  {
    forall i :: 0 <= i < |ms| ==> Inflated(ms[i], decompress) ==> Inflates(ms[i], inflate)
  }

  /** The meaning is kept: as many members, the same names and contents, headers that match and
      records that follow each other. */
  lemma PlaceMeaning(ms: seq<Member>, file: seq<byte>, decompress: bool, inflate: Inflate, k: nat)
    requires Sized(ms) && Stored(file, ms) && Inflatable(ms, decompress, inflate) && k < |ms|
    requires |Records(Place(ms, decompress, inflate))| < LIMIT
    ensures var ps := Place(ms, decompress, inflate);
            && Sized(ps[..k]) && ps[k].Valid() && !Inflated(ps[k], decompress)
            && ps[k].name == ms[k].name && Contents(ps[k], inflate) == Contents(ms[k], inflate)
            && ps[k].central[C_OFFSET] == |Records(ps[..k])|
            && Holds(Records(ps), ps[k].central[C_OFFSET], ps[k].LocalBytes())
            && Matching(ps[k]) && OnlyAdjusted(ms[k], ps[k], |Records(ps[..k])|, Inflated(ms[k], decompress))
            && RawKept(ms[k], ps[k], Inflated(ms[k], decompress), inflate)
  {
    hide OnlyAdjusted, RawKept, Adjusted, Records, Member.LocalBytes, Contents, Inflated, Matching;
    var ps := Place(ms, decompress, inflate);
    PlacedAt(ms, decompress, inflate, k);
    RecordAt(ps, k);
    assert ms[k].Valid();
    AdjustedMember(ms[k], |Records(ps[..k])|, decompress, inflate);
  }

  // ---------------------------------------------------------------- the footer of the output

  /** The footer's own bytes hold no second footer magic. */
  ghost predicate Quiet(footer: seq<nat>)
    requires |footer| == F_FIELDS
  {
    forall i :: 0 < i < FOOTER_SIZE ==> !MagicAt(Write(FOOTER, footer), i, MAGIC_FOOTER)
  }

  /** Behind a footer that ends the file the search stops exactly at its inner magics. */
  lemma StopsInside(before: seq<byte>, footer: seq<nat>, i: nat)
    requires |footer| == F_FIELDS && 0 < i < FOOTER_SIZE
    ensures var file := before + Write(FOOTER, footer);
            && (Stops(file, |before| + i) <==> MagicAt(Write(FOOTER, footer), i, MAGIC_FOOTER))
            && !Readable(file, |before| + i)
  {
    hide Write, Read, FooterIn, ToNumber;
    FooterSize();
    var fb := Write(FOOTER, footer);
    var file := before + fb;
    if i + 4 <= FOOTER_SIZE {
      assert file[|before| + i..|before| + i + 4] == fb[i..i + 4];
    }
  }

  /** The search finds a footer at the end of the file if and only if it is quiet, and otherwise
      ends with nothing. */
  lemma SearchLastFooter(before: seq<byte>, footer: seq<nat>)
    requires |footer| == F_FIELDS
    requires var file := before + Write(FOOTER, footer);
             Stops(file, |before|) && Readable(file, |before|) && FooterIn(file, |before|) == footer
    ensures var file := before + Write(FOOTER, footer);
            Search(file, |file| - 3) == if Quiet(footer) then Some(footer) else None
  {
    hide Write, Stops, Readable, FooterIn, Search, MagicAt;
    FooterSize();
    var file := before + Write(FOOTER, footer);
    var n := |file| - 3;
    if Quiet(footer) {
      forall j | |before| < j < n ensures !Stops(file, j) {
        StopsInside(before, footer, j - |before|);
      }
      SearchEndsAt(file, |before|, n);
    } else {
      var i :| 0 < i < FOOTER_SIZE && MagicAt(Write(FOOTER, footer), i, MAGIC_FOOTER);
      InnerPlace(footer, i);
      StopsInside(before, footer, i);
      var last := LastPlace(file, |before| + i, n);
      StopsInside(before, footer, last - |before|);
      SearchEndsAt(file, last, n);
    }
  }

  lemma InnerPlace(footer: seq<nat>, i: nat)
    requires |footer| == F_FIELDS && MagicAt(Write(FOOTER, footer), i, MAGIC_FOOTER)
    ensures i + 4 <= FOOTER_SIZE
  {
    FooterSize();
  }

  /** If some place ends the search, one is the last. */
  lemma {:induction false} LastPlace(file: seq<byte>, i: nat, n: nat) returns (last: nat)
    requires i < n && Stops(file, i)
    ensures LastStop(file, last, n) && i <= last
    decreases n
  {
    hide Stops;
    if Stops(file, n - 1) {
      last := n - 1;
    } else {
      last := LastPlace(file, i, n - 1);
    }
  }

  /** The rewritten file is an archive of the rewritten members. */
  lemma OutputIsArchive(file: seq<byte>, ms: seq<Member>, footer: seq<nat>, decompress: bool, inflate: Inflate,
                        ps: seq<Member>, f: seq<nat>)
    requires Sized(ms) && ms != [] && Stored(file, ms) && Inflatable(ms, decompress, inflate)
    requires |footer| == F_FIELDS && Header(FOOTER, footer) && footer[0] == MAGIC_FOOTER
    requires ps == Place(ms, decompress, inflate) && f == NewFooter(footer, ps) && |Image(ps, f)| < LIMIT
    ensures Archive(Image(ps, f), ps, f) && f[F_OFFSET] > 0
    ensures forall k :: 0 <= k < |ps| ==> !Inflated(ps[k], decompress)
  {
    hide Adjusted, Records, Directory, Place, Write, Member.LocalBytes, Member.CentralBytes, Contents, Inflated,
         Matching, OnlyAdjusted, RawKept;
    var rs, ds, fb := Records(ps), Directory(ps), Write(FOOTER, f);
    var img := rs + ds + fb;
    forall k | 0 <= k < |ps|
      ensures ps[k].Valid() && Holds(img, ps[k].central[C_OFFSET], ps[k].LocalBytes()) && !Inflated(ps[k], decompress)
    {
      PlaceMeaning(ms, file, decompress, inflate, k);
      HoldsMore(rs, ds + fb, ps[k].central[C_OFFSET], ps[k].LocalBytes());
      assert rs + (ds + fb) == img;
    }
    assert Stored(img, ps);
    FooterHeader(footer, ps);
    assert Holds(img, |rs|, ds + fb) by { assert img[|rs|..|rs| + |ds + fb|] == ds + fb; }
    NonEmptyRecords(ps);
  }

  lemma FooterHeader(footer: seq<nat>, ps: seq<Member>)
    requires Header(FOOTER, footer) && |footer| == F_FIELDS && Sized(ps)
    requires |Records(ps)| < LIMIT && |Directory(ps)| < LIMIT
    ensures Header(FOOTER, NewFooter(footer, ps)) && NewFooter(footer, ps)[0] == footer[0]
    ensures NewFooter(footer, ps)[F_OFFSET] == |Records(ps)|
  {
    hide Records, Directory;
    Widths();
  }

  lemma NonEmptyRecords(ps: seq<Member>)
    requires Sized(ps) && ps != []
    ensures |Records(ps)| > 0
  {
    LocalSize();
  }
}
