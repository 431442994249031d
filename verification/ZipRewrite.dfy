/** zipadjust as it runs: find the footer from the end, walk the directory, write each record,
    then the directory and the footer. */
module ZipRewrite {
  import opened Common
  import opened ZipFormat
  import opened ZipAdjust

  // ---------------------------------------------------------------- reading

  lemma HoldsInside(file: seq<byte>, at: nat, part: seq<byte>, k: nat, sub: seq<byte>)
    requires Holds(file, at, part) && Holds(part, k, sub)
    ensures Holds(file, at + k, sub)
  {
    forall i | 0 <= i < |sub| ensures file[at + k..at + k + |sub|][i] == sub[i] {
      assert file[at..at + |part|][k + i] == part[k..k + |sub|][i];
    }
  }

  /** A header that is in the file is read back from there. */
  lemma ReadHeld(file: seq<byte>, at: nat, widths: seq<nat>, vals: seq<nat>)
    requires Header(widths, vals) && Holds(file, at, Write(widths, vals))
    ensures at + Total(widths) <= |file| && Read(widths, file[at..]) == vals
  {
    var w := Write(widths, vals);
    var rest := file[at + |w|..];
    assert file[at..] == w + rest;
    ReadWrite(widths, vals, rest);
  }

  lemma MagicRead(file: seq<byte>, at: nat, widths: seq<nat>, magic: nat)
    requires widths != [] && widths[0] == 4 && at + Total(widths) <= |file|
    ensures MagicAt(file, at, magic) <==> Read(widths, file[at..])[0] == magic
  {
    assert file[at..][..4] == file[at..at + 4];
  }

  /** The directory entry at `at` is the member's. */
  ghost predicate EntryShown(file: seq<byte>, at: nat, m: Member) {
    && at + CENTRAL_SIZE + |m.name| <= |file| && MagicAt(file, at, MAGIC_CENTRAL)
    && Total(CENTRAL) == CENTRAL_SIZE && Read(CENTRAL, file[at..]) == m.central
    && file[at + CENTRAL_SIZE..at + CENTRAL_SIZE + |m.name|] == m.name
  }

  /** Local header and data at `at` are the member's. */
  ghost predicate RecordShown(file: seq<byte>, at: nat, m: Member) {
    && Total(LOCAL) == LOCAL_SIZE && at + LOCAL_SIZE <= |file| && Read(LOCAL, file[at..]) == m.local
    && var data := at + LOCAL_SIZE + |m.name| + |m.extra|;
       data + |m.raw| <= |file| && file[data..data + |m.raw|] == m.raw
  }

  /** Where the directory entry of member k is. */
  lemma EntryAt(file: seq<byte>, ms: seq<Member>, position: nat, k: nat)
    requires Directed(file, ms, position) && Sized(ms) && k < |ms|
    ensures Sized(ms[..k]) && EntryShown(file, position + |Directory(ms[..k])|, ms[k])
  {
    hide Directory, Member.CentralBytes, Read, Holds, EntryShown, MagicAt, Member.LocalBytes;
    var at := |Directory(ms[..k])|;
    DirectoryAt(ms, k);
    assert ms[k].Valid();
    hide Member.Valid, Stored;
    HoldsInside(file, position, Directory(ms), at, ms[k].CentralBytes());
    CentralHeld(file, ms[k], position + at);
  }

  lemma CentralHeld(file: seq<byte>, m: Member, at: nat)
    requires m.Valid() && Holds(file, at, m.CentralBytes())
    ensures EntryShown(file, at, m)
  {
    CentralSize();
    EntryParts(m);
    HoldsInside(file, at, m.CentralBytes(), 0, Write(CENTRAL, m.central));
    HoldsInside(file, at, m.CentralBytes(), CENTRAL_SIZE, m.name);
    hide Write, Read, Member.CentralBytes;
    ReadHeld(file, at, CENTRAL, m.central);
    MagicRead(file, at, CENTRAL, MAGIC_CENTRAL);
  }

  lemma EntryParts(m: Member)
    requires m.Valid()
    ensures Holds(m.CentralBytes(), 0, Write(CENTRAL, m.central)) && Holds(m.CentralBytes(), CENTRAL_SIZE, m.name)
    ensures |m.CentralBytes()| == CENTRAL_SIZE + m.central[C_NAME] + m.central[C_EXTRA] + m.central[C_COMMENT]
  {
    hide Write;
    CentralSize();
  }

  /** The footer is behind the directory, and the search can end at it. */
  ghost predicate Announced(file: seq<byte>, ms: seq<Member>, footer: seq<nat>)
    requires Sized(ms) && |footer| == F_FIELDS
  {
    var at := footer[F_OFFSET] + |Directory(ms)|;
    at + FOOTER_SIZE <= |file| && Stops(file, at) && Readable(file, at) && FooterIn(file, at) == footer
  }

  /** In an archive the search can end at the footer, and the directory is where it says. */
  lemma FooterAt(file: seq<byte>, ms: seq<Member>, footer: seq<nat>)
    requires Sized(ms) && |footer| == F_FIELDS && Archive(file, ms, footer)
    ensures Directed(file, ms, footer[F_OFFSET]) && Announced(file, ms, footer)
  {
    hide Directory, Stored, Write, Holds, Total, Read, MagicAt, Header;
    FooterSize();
    var dir, fb := Directory(ms), Write(FOOTER, footer);
    HoldsTail(dir, fb);
    HoldsInside(file, footer[F_OFFSET], dir + fb, |dir|, fb);
    HoldsHead(dir, fb);
    HoldsInside(file, footer[F_OFFSET], dir + fb, 0, dir);
    FooterHeld(file, footer, footer[F_OFFSET] + |dir|);
    EntryAt(file, ms, footer[F_OFFSET], 0);
    assert ms[..0] == [];
    NoDirectory();
  }

  lemma HoldsHead(a: seq<byte>, b: seq<byte>)
    ensures Holds(a + b, 0, a)
  {
  }

  lemma HoldsTail(a: seq<byte>, b: seq<byte>)
    ensures Holds(a + b, |a|, b)
  {
  }

  lemma FooterHeld(file: seq<byte>, footer: seq<nat>, at: nat)
    requires |footer| == F_FIELDS && Header(FOOTER, footer) && footer[0] == MAGIC_FOOTER
    requires Holds(file, at, Write(FOOTER, footer))
    ensures at + FOOTER_SIZE <= |file| && Total(FOOTER) == FOOTER_SIZE && Read(FOOTER, file[at..]) == footer
    ensures MagicAt(file, at, MAGIC_FOOTER) && !MagicAt(file, at, MAGIC_CENTRAL)
  {
    hide Read, Write, Total;
    FooterSize();
    ReadHeld(file, at, FOOTER, footer);
    MagicRead(file, at, FOOTER, MAGIC_FOOTER);
    MagicRead(file, at, FOOTER, MAGIC_CENTRAL);
  }

  lemma LocalHeld(file: seq<byte>, m: Member, at: nat)
    requires m.Valid() && Holds(file, at, m.LocalBytes())
    ensures RecordShown(file, at, m)
  {
    hide Write, Read, Member.LocalBytes, Member.Valid;
    HeaderHeld(file, m, at);
    DataHeld(file, m, at);
  }

  lemma HeaderHeld(file: seq<byte>, m: Member, at: nat)
    requires m.Valid() && Holds(file, at, m.LocalBytes())
    ensures Total(LOCAL) == LOCAL_SIZE && at + LOCAL_SIZE <= |file| && Read(LOCAL, file[at..]) == m.local
  {
    hide Write, Read, Total;
    LocalSize();
    LocalParts(m);
    HoldsInside(file, at, m.LocalBytes(), 0, Write(LOCAL, m.local));
    ReadHeld(file, at, LOCAL, m.local);
  }

  lemma DataHeld(file: seq<byte>, m: Member, at: nat)
    requires m.Valid() && Holds(file, at, m.LocalBytes())
    ensures Holds(file, at + LOCAL_SIZE + |m.name| + |m.extra|, m.raw)
  {
    hide Write, Read, Total;
    LocalParts(m);
    HoldsInside(file, at, m.LocalBytes(), LOCAL_SIZE + |m.name| + |m.extra|, m.raw);
  }

  lemma LocalParts(m: Member)
    requires m.Valid()
    ensures Holds(m.LocalBytes(), 0, Write(LOCAL, m.local))
    ensures Holds(m.LocalBytes(), LOCAL_SIZE + |m.name| + |m.extra|, m.raw)
  {
    hide Write;
    LocalSize();
  }

  // ---------------------------------------------------------------- finding the footer

  /** A later place ends the search, and the footer there reads the same. */
  ghost predicate Copied(file: seq<byte>, at: nat, footer: seq<nat>) {
    exists last :: at < last && LastStop(file, last, Places(|file|)) && Readable(file, last)
                   && FooterIn(file, last) == footer
  }

  /** In an archive the search finds the footer if and only if the size fits the signed counter and
      nothing after the footer ends the search, but for a copy of it.  A later place that ends the
      search gives the footer there, or nothing if that is cut off. */
  lemma ArchiveFound(file: seq<byte>, ms: seq<Member>, footer: seq<nat>)
    requires Archive(file, ms, footer) && Sized(ms)
    ensures var at := footer[F_OFFSET] + |Directory(ms)|;
            && (Found(file) == Some(footer) <==>
                  |file| < HALF + 4 && (Undisturbed(file, at) || Copied(file, at, footer)))
            && (|file| >= HALF + 4 ==> Found(file) == None)
            && (forall last :: at < last && LastStop(file, last, Places(|file|)) ==>
                  Found(file) == if Readable(file, last) then Some(FooterIn(file, last)) else None)
  {
    hide Directory, Stored, Stops, Readable, FooterIn, Holds, Header, Write, Directed, Search;
    FooterAt(file, ms, footer);
    var at := footer[F_OFFSET] + |Directory(ms)|;
    var n := Places(|file|);
    forall last | LastStop(file, last, n)
      ensures Found(file) == if Readable(file, last) then Some(FooterIn(file, last)) else None
    {
      SearchEndsAt(file, last, n);
    }
    if |file| >= HALF + 4 {
      SearchNothing(file, 0);
    } else if Undisturbed(file, at) {
      assert LastStop(file, at, n);
    } else {
      var j :| at < j < |file| && Stops(file, j);
      MagicFits(file, j);
      var last := LastPlace(file, j, n);
    }
  }

  lemma MagicFits(file: seq<byte>, j: nat)
    requires Stops(file, j)
    ensures j + 4 <= |file|
  {
  }

  /** The search for the footer, from the end of the file: on every file it ends at the last place
      with a footer magic whose footer, or directory entry, is missing or right. */
  method FindFooter(file: seq<byte>) returns (r: Option<seq<nat>>)
    ensures r == Found(file)
    ensures r.Some? ==>
              exists i :: LastStop(file, i, Places(|file|)) && Readable(file, i) && r.value == FooterIn(file, i)
    ensures r.None? ==> forall i :: LastStop(file, i, Places(|file|)) ==> !Readable(file, i)
  {
    hide Read, MagicAt;
    var size := |file| % LIMIT;
    var i := if size < 4 || size >= HALF + 4 then -1 else size - 4;
    while i >= 0
      invariant -1 <= i < Places(|file|)
      invariant forall j :: i < j < Places(|file|) ==> !Stops(file, j)
      invariant Found(file) == Search(file, i + 1)
    {
      if MagicAt(file, i, MAGIC_FOOTER) {
        FooterSize();
        if i + FOOTER_SIZE > |file| {
          return None;
        }
        var f := Read(FOOTER, file[i..]);
        if f[F_OFFSET] + CENTRAL_SIZE > |file| {
          return None;
        }
        if MagicAt(file, f[F_OFFSET], MAGIC_CENTRAL) {
          assert LastStop(file, i, Places(|file|));
          return Some(f);
        }
      }
      i := i - 1;
    }
    return None;
  }

  lemma NoDirectory()
    ensures Directory([]) == []
  {
  }

  // ---------------------------------------------------------------- rewriting

  /** What the file shows of a member. */
  ghost predicate Shown(file: seq<byte>, at: nat, m: Member) {
    m.Valid() && EntryShown(file, at, m) && RecordShown(file, m.central[C_OFFSET], m)
  }

  lemma Shows(file: seq<byte>, ms: seq<Member>, position: nat, k: nat)
    requires Directed(file, ms, position) && Sized(ms) && k < |ms|
    ensures Sized(ms[..k]) && Shown(file, position + |Directory(ms[..k])|, ms[k])
  {
    hide Directory, Holds, Header, EntryShown, RecordShown, Member.LocalBytes, MagicAt;
    EntryAt(file, ms, position, k);
    assert ms[k].Valid();
    LocalHeld(file, ms[k], ms[k].central[C_OFFSET]);
  }

  lemma ShownMagic(file: seq<byte>, at: nat, m: Member)
    requires Shown(file, at, m)
    ensures MagicAt(file, at, MAGIC_CENTRAL)
  {
  }

  /** The corrected headers. */
  method RewriteHeaders(central0: seq<nat>, local0: seq<nat>, outIndex: nat, decompress: bool,
                        ghost m: Member, ghost inflate: Inflate)
    returns (central: seq<nat>, local: seq<nat>)
    requires |central0| == C_FIELDS && |local0| == L_FIELDS && m.central == central0 && m.local == local0
    ensures var r := Adjusted(m, outIndex, decompress, inflate); central == r.central && local == r.local
    ensures HeadersAdjusted(central0, local0, central, local, outIndex, decompress && central0[C_METHOD] == DEFLATED)
  {
    central, local := central0, local0;
    var methodOld := central[C_METHOD];
    central := central[C_OFFSET := outIndex][C_FLAGS := ClearFlags(central[C_FLAGS])];
    if decompress && methodOld == DEFLATED {
      central := central[C_METHOD := 0][C_CSIZE := central[C_USIZE]];
    }
    central := central[C_EXTRA := 0][C_COMMENT := 0];
    local := local[L_METHOD := central[C_METHOD]][L_FLAGS := central[C_FLAGS]][L_CRC := central[C_CRC]];
    local := local[L_USIZE := central[C_USIZE]][L_CSIZE := central[C_CSIZE]][L_EXTRA := 0];
  }

  /** Where the stored bytes of a member are. */
  function DataStart(m: Member): nat
    requires |m.central| == C_FIELDS
  {
    m.central[C_OFFSET] + LOCAL_SIZE + |m.name| + |m.extra|
  }

  /** The stream at the member's place does not inflate. */
  ghost predicate Corrupt(file: seq<byte>, m: Member, inflate: Inflate)
    requires |m.central| == C_FIELDS
  {
    DataStart(m) <= |file| && inflate(file[DataStart(m)..]).None?
  }

  /** A member to be inflated has a stream of the announced size or none. */
  ghost predicate Unpackable(file: seq<byte>, m: Member, decompress: bool, inflate: Inflate)
    requires |m.central| == C_FIELDS
  {
    Inflated(m, decompress) ==> Inflates(m, inflate) || Corrupt(file, m, inflate)
  }

  ghost predicate Torn(file: seq<byte>, m: Member, decompress: bool, inflate: Inflate)
    requires |m.central| == C_FIELDS
  {
    Inflated(m, decompress) && Corrupt(file, m, inflate)
  }

  /** xdecompress or xfilecopy. */
  method CopyContents(file: seq<byte>, from: nat, size: nat, inflated: bool, inflate: Inflate, ghost raw: seq<byte>)
    returns (data: Option<seq<byte>>)
    requires from + size <= |file| && file[from..from + size] == raw && SelfDelimiting(inflate)
    requires inflated ==> inflate(raw).Some? || inflate(file[from..]).None?
    ensures data == if !inflated then Some(raw) else if inflate(file[from..]).None? then None else inflate(raw)
  {
    assert file[from..] == raw + file[from + size..];
    if inflated {
      data := inflate(file[from..]);
    } else {
      data := Some(file[from..from + size]);
    }
  }

  /** One round of the loop: the parts of the record for the output and the entry for the new
      directory, or nothing if the contents do not inflate. */
  method RewriteMember(file: seq<byte>, at: nat, outIndex: nat, decompress: bool, inflate: Inflate, ghost m: Member)
    returns (header: seq<byte>, name: seq<byte>, data: Option<seq<byte>>, entry: seq<byte>, size: nat)
    requires Shown(file, at, m) && SelfDelimiting(inflate) && Unpackable(file, m, decompress, inflate)
    ensures data.None? <==> Torn(file, m, decompress, inflate)
    ensures var r := Adjusted(m, outIndex, decompress, inflate);
            && (data.Some? ==> header + name + data.value == r.LocalBytes())
            && entry == r.CentralBytes()
    ensures size == |m.CentralBytes()|
  {
    hide Read, Write, Header, Total, SelfDelimiting, MagicAt, Adjusted, Member.LocalBytes, Member.CentralBytes, Holds;
    hide Shown, EntryShown, RecordShown, Member.Valid, Unpackable, Torn, Corrupt, Inflates;
    ShownParts(file, at, m);
    EntryParts(m);
    var central := Read(CENTRAL, file[at..]);
    name := file[at + CENTRAL_SIZE..at + CENTRAL_SIZE + central[C_NAME]];
    var local := Read(LOCAL, file[central[C_OFFSET]..]);
    size := CENTRAL_SIZE + central[C_NAME] + central[C_EXTRA] + central[C_COMMENT];
    var from := central[C_OFFSET] + LOCAL_SIZE + central[C_NAME] + central[C_EXTRA];
    assert from == DataStart(m);
    var inflated := decompress && central[C_METHOD] == DEFLATED;
    NotTorn(file, m, decompress, inflate);
    data := CopyContents(file, from, central[C_CSIZE], inflated, inflate, m.raw);
    central, local := RewriteHeaders(central, local, outIndex, decompress, m, inflate);
    header := Write(LOCAL, local);
    entry := Write(CENTRAL, central) + name;
    AdjustedBytes(m, outIndex, decompress, inflate);
  }

  /** What one round reads of the member. */
  lemma ShownParts(file: seq<byte>, at: nat, m: Member)
    requires Shown(file, at, m)
    ensures |m.central| == C_FIELDS && |m.local| == L_FIELDS && m.Valid() && RecordShown(file, m.central[C_OFFSET], m)
    ensures Total(CENTRAL) == CENTRAL_SIZE && Total(LOCAL) == LOCAL_SIZE
    ensures at + CENTRAL_SIZE + |m.name| <= |file| && Read(CENTRAL, file[at..]) == m.central
    ensures file[at + CENTRAL_SIZE..at + CENTRAL_SIZE + |m.name|] == m.name
    ensures m.central[C_OFFSET] + LOCAL_SIZE <= |file| && Read(LOCAL, file[m.central[C_OFFSET]..]) == m.local
    ensures m.central[C_NAME] == |m.name| && m.central[C_EXTRA] == |m.extra| && m.central[C_CSIZE] == |m.raw|
    ensures DataStart(m) + |m.raw| <= |file| && file[DataStart(m)..DataStart(m) + |m.raw|] == m.raw
  {
    hide Read, Write, Header, MagicAt, Member.LocalBytes, Member.CentralBytes, Total;
  }

  /** A stream that inflates is not corrupt, whatever follows it. */
  lemma NotTorn(file: seq<byte>, m: Member, decompress: bool, inflate: Inflate)
    requires m.Valid() && RecordShown(file, m.central[C_OFFSET], m) && SelfDelimiting(inflate)
    requires Unpackable(file, m, decompress, inflate)
    ensures Torn(file, m, decompress, inflate) <==>
              Inflated(m, decompress) && DataStart(m) <= |file| && inflate(file[DataStart(m)..]).None?
    ensures Inflated(m, decompress) ==> inflate(m.raw).Some? || inflate(file[DataStart(m)..]).None?
    ensures Inflated(m, decompress) ==> (Torn(file, m, decompress, inflate) <==> inflate(m.raw).None?)
  {
    hide Read, Write, Header, Total, MagicAt;
    var from := DataStart(m);
    assert file[from..] == m.raw + file[from + |m.raw|..];
  }

  lemma AdjustedBytes(m: Member, at: nat, decompress: bool, inflate: Inflate)
    requires |m.central| == C_FIELDS && |m.local| == L_FIELDS
    ensures var r := Adjusted(m, at, decompress, inflate);
            && r.LocalBytes() == Write(LOCAL, r.local) + m.name + r.raw
            && r.CentralBytes() == Write(CENTRAL, r.central) + m.name
            && r.raw == if Inflated(m, decompress) && inflate(m.raw).Some? then inflate(m.raw).value else m.raw
  {
    hide Write;
    var r := Adjusted(m, at, decompress, inflate);
    assert r.name == m.name && r.extra == [] && r.centralExtra == [] && r.comment == [];
  }

  lemma LocalOnly(m: Member, at: nat, other: nat, decompress: bool, inflate: Inflate)
    requires |m.central| == C_FIELDS && |m.local| == L_FIELDS
    ensures Adjusted(m, at, decompress, inflate).local == Adjusted(m, other, decompress, inflate).local
  {
  }

  /** The size of an entry does not depend on the offset in it. */
  lemma EntrySize(m: Member, at: nat, other: nat, decompress: bool, inflate: Inflate)
    requires |m.central| == C_FIELDS && |m.local| == L_FIELDS
    ensures var r, q := Adjusted(m, at, decompress, inflate), Adjusted(m, other, decompress, inflate);
            |r.CentralBytes()| == |q.CentralBytes()| && r.LocalBytes() == q.LocalBytes()
  {
    hide Write, Member.LocalBytes, Member.CentralBytes;
    AdjustedBytes(m, at, decompress, inflate);
    AdjustedBytes(m, other, decompress, inflate);
    LocalOnly(m, at, other, decompress, inflate);
    hide Adjusted;
  }

  lemma PlaceNext(ms: seq<Member>, decompress: bool, inflate: Inflate, k: nat)
    requires Sized(ms) && k < |ms|
    ensures Sized(ms[..k]) && Sized(ms[..k + 1])
    ensures var ps := Place(ms[..k], decompress, inflate);
            var r := Adjusted(ms[k], |Records(ps)|, decompress, inflate);
            && Place(ms[..k + 1], decompress, inflate) == ps + [r]
            && Records(ps + [r]) == Records(ps) + r.LocalBytes()
            && Directory(ps + [r]) == Directory(ps) + r.CentralBytes()
    ensures Directory(ms[..k + 1]) == Directory(ms[..k]) + ms[k].CentralBytes()
  {
    hide Adjusted, Member.LocalBytes, Member.CentralBytes;
    var ps := Place(ms[..k], decompress, inflate);
    var r := Adjusted(ms[k], |Records(ps)|, decompress, inflate);
    assert ms[..k + 1][..k] == ms[..k];
    assert (ps + [r])[..k] == ps;
  }

  // ---------------------------------------------------------------- writing

  /** The file after a seek and a write: a gap is filled with zeros. */
  function PutAt(out: seq<byte>, at: nat, data: seq<byte>): seq<byte> {
    if data == [] then out
    else if at + |data| < |out| then out[..at] + data + out[at + |data|..]
    else if at <= |out| then out[..at] + data
    else out + Repeat(0, at - |out|) + data
  }

  /** Header, name and contents of a record, each written at the 32-bit index and moving it on. */
  method WriteRecord(out0: seq<byte>, index0: nat, header: seq<byte>, name: seq<byte>, data: seq<byte>,
                     ghost total: nat)
    returns (out: seq<byte>, index: nat)
    requires index0 == total % LIMIT && |out0| <= total
    ensures var end := total + |header + name + data|;
            && index == end % LIMIT && |out| <= end
            && (end < LIMIT && |out0| == total ==> out == out0 + (header + name + data))
  {
    out, index := WritePart(out0, index0, header, total);
    out, index := WritePart(out, index, name, total + |header|);
    out, index := WritePart(out, index, data, total + |header| + |name|);
    assert out0 + (header + name + data) == out0 + header + name + data;
  }

  method WritePart(out0: seq<byte>, index0: nat, data: seq<byte>, ghost total: nat)
    returns (out: seq<byte>, index: nat)
    requires index0 == total % LIMIT && |out0| <= total
    ensures index == (total + |data|) % LIMIT && |out| <= total + |data| && |out| <= Max(|out0|, index0 + |data|)
    ensures total < LIMIT && |out0| == total ==> out == out0 + data
  {
    out, index := PutAt(out0, index0, data), (index0 + |data|) % LIMIT;
  }

  /** All members up to k are written: as the image has it as long as 32 bits suffice, and never
      beyond its end. */
  ghost predicate Progress(out: seq<byte>, index: nat, directory: seq<byte>, ps: seq<Member>)
    requires Sized(ps)
  {
    && index == |Records(ps)| % LIMIT && |out| <= |Records(ps)| && |directory| == |Directory(ps)|
    && (|Records(ps)| < LIMIT ==> out == Records(ps) && directory == Directory(ps))
  }

  lemma ProgressNext(out: seq<byte>, index: nat, directory: seq<byte>, ps: seq<Member>, m: Member, decompress: bool,
                     inflate: Inflate, out': seq<byte>, index': nat, directory': seq<byte>)
    requires Sized(ps) && Progress(out, index, directory, ps) && |m.central| == C_FIELDS && |m.local| == L_FIELDS
    requires var q := Adjusted(m, index, decompress, inflate);
             && directory' == directory + q.CentralBytes()
             && var end := |Records(ps)| + |q.LocalBytes()|;
                && index' == end % LIMIT && |out'| <= end
                && (end < LIMIT && |out| == |Records(ps)| ==> out' == out + q.LocalBytes())
    requires var r := Adjusted(m, |Records(ps)|, decompress, inflate);
             && Sized(ps + [r]) && Records(ps + [r]) == Records(ps) + r.LocalBytes()
             && Directory(ps + [r]) == Directory(ps) + r.CentralBytes()
    ensures Progress(out', index', directory', ps + [Adjusted(m, |Records(ps)|, decompress, inflate)])
  {
    hide Records, Directory, Adjusted, Member.LocalBytes, Member.CentralBytes;
    EntrySize(m, index, |Records(ps)|, decompress, inflate);
  }

  /** The directory and the footer after the records: the image exactly when 32 bits suffice. */
  method WriteEnd(out0: seq<byte>, index0: nat, directory: seq<byte>, footer: seq<nat>, ghost ps: seq<Member>)
    returns (out: seq<byte>)
    requires Sized(ps) && |footer| == F_FIELDS && Progress(out0, index0, directory, ps)
    ensures out == Image(ps, NewFooter(footer, ps)) <==> |Records(ps)| + |Directory(ps)| < LIMIT
  {
    hide Records, Directory, Write, NewFooter;
    FooterSize();
    var f := footer[F_SIZE := |directory|][F_OFFSET := index0][F_COMMENT := 0];
    var index;
    out, index := WritePart(out0, index0, directory, |Records(ps)|);
    ghost var written := out;
    out, index := WritePart(out, index, Write(FOOTER, f), |Records(ps)| + |Directory(ps)|);
    FooterFields(footer, ps, directory, index0);
    ImageSize(ps, NewFooter(footer, ps));
    if |Records(ps)| + |Directory(ps)| < LIMIT {
      assert written == Records(ps) + Directory(ps);
    }
  }

  lemma FooterFields(footer: seq<nat>, ps: seq<Member>, directory: seq<byte>, index: nat)
    requires Sized(ps) && |footer| == F_FIELDS && |directory| == |Directory(ps)| && index == |Records(ps)| % LIMIT
    ensures |Records(ps)| < LIMIT ==>
              footer[F_SIZE := |directory|][F_OFFSET := index][F_COMMENT := 0] == NewFooter(footer, ps)
  {
    hide Records, Directory;
  }

  lemma ImageSize(ps: seq<Member>, f: seq<nat>)
    requires Sized(ps) && |f| == F_FIELDS
    ensures |Image(ps, f)| == |Records(ps)| + |Directory(ps)| + FOOTER_SIZE
  {
    hide Records, Directory, Write;
    FooterSize();
  }

  // ---------------------------------------------------------------- whole files

  /** What a pass needs of the directory that it was led to. */
  ghost predicate Listed(file: seq<byte>, ms: seq<Member>, position: nat, decompress: bool, inflate: Inflate) {
    && Sized(ms) && Directed(file, ms, position) && SelfDelimiting(inflate)
    && forall i :: 0 <= i < |ms| ==> Unpackable(file, ms[i], decompress, inflate)
  }

  /** The search leads to a directory. */
  ghost predicate Led(file: seq<byte>) {
    Found(file).Some? && Found(file).value[F_OFFSET] > 0
  }

  /** Some member that is to be inflated does not. */
  ghost predicate AnyTorn(file: seq<byte>, ms: seq<Member>, decompress: bool, inflate: Inflate)
    requires Sized(ms)
  {
    exists i :: 0 <= i < |ms| && Torn(file, ms[i], decompress, inflate)
  }

  /** zipadjust, on every file whose search leads to nothing or to a well-formed directory: nothing
      comes out when the search or some inflation fails; otherwise the output is the image of the
      placed members exactly when its offsets fit 32 bits. */
  method Zipadjust(file: seq<byte>, decompress: bool, inflate: Inflate, ghost ms: seq<Member>)
    returns (r: Option<seq<byte>>)
    requires Led(file) ==> Listed(file, ms, Found(file).value[F_OFFSET], decompress, inflate)
    ensures r.Some? <==> Led(file) && !AnyTorn(file, ms, decompress, inflate)
    ensures r.Some? ==>
              var ps := Place(ms, decompress, inflate);
              (r.value == Image(ps, NewFooter(Found(file).value, ps)) <==> |Records(ps)| + |Directory(ps)| < LIMIT)
  {
    hide Records, Directory, Place, Adjusted, Member.LocalBytes, Member.CentralBytes, Write, Shown, MagicAt, Found;
    hide Stored, Directed, Torn, Unpackable, Image, SelfDelimiting, Progress, NewFooter;
    var f := FindFooter(file);
    if f.None? || f.value[F_OFFSET] == 0 {
      return None;
    }
    var position := f.value[F_OFFSET];
    var inIndex, out, outIndex, directory := 0, [], 0, [];
    ghost var k: nat := 0;
    NothingPlaced(ms, decompress, inflate);
    DirectoryEnd(file, ms, position);
    while MagicAt(file, position + inIndex, MAGIC_CENTRAL)
      invariant k <= |ms| && Sized(ms[..k]) && inIndex == |Directory(ms[..k])|
      invariant Progress(out, outIndex, directory, Place(ms[..k], decompress, inflate))
      invariant forall i :: 0 <= i < k ==> !Torn(file, ms[i], decompress, inflate)
      decreases |ms| - k
    {
      assert k < |ms|;
      Shows(file, ms, position, k);
      PlaceNext(ms, decompress, inflate, k);
      var header, name, data, entry, size :=
        RewriteMember(file, position + inIndex, outIndex, decompress, inflate, ms[k]);
      if data.None? {
        return None;
      }
      ghost var ps := Place(ms[..k], decompress, inflate);
      IndexOf(out, outIndex, directory, ps);
      var out', outIndex' := WriteRecord(out, outIndex, header, name, data.value, |Records(ps)|);
      ProgressNext(out, outIndex, directory, ps, ms[k], decompress, inflate, out', outIndex', directory + entry);
      inIndex, out, outIndex, directory := inIndex + size, out', outIndex', directory + entry;
      k := k + 1;
    }
    if k < |ms| {
      Shows(file, ms, position, k);
      ShownMagic(file, position + inIndex, ms[k]);
      assert false;
    }
    assert ms[..k] == ms;
    var image := WriteEnd(out, outIndex, directory, f.value, Place(ms, decompress, inflate));
    return Some(image);
  }

  lemma IndexOf(out: seq<byte>, index: nat, directory: seq<byte>, ps: seq<Member>)
    requires Sized(ps) && Progress(out, index, directory, ps)
    ensures index == |Records(ps)| % LIMIT && |out| <= |Records(ps)|
  {
  }

  lemma DirectoryEnd(file: seq<byte>, ms: seq<Member>, position: nat)
    requires Sized(ms) && Directed(file, ms, position)
    ensures ms[..|ms|] == ms && !MagicAt(file, position + |Directory(ms)|, MAGIC_CENTRAL)
  {
    hide Directory, Stored, Holds, MagicAt;
  }

  lemma NothingPlaced(ms: seq<Member>, decompress: bool, inflate: Inflate)
    ensures ms[..0] == [] && Directory([]) == [] && Progress([], 0, [], Place([], decompress, inflate))
  {
  }

  // ---------------------------------------------------------------- a second pass

  lemma {:induction false} NumberFits(bs: seq<byte>)
    ensures ToNumber(bs) < Pow256(|bs|)
    decreases |bs|
  {
    if bs != [] {
      NumberFits(bs[1..]);
    }
  }

  /** What is read is a header. */
  lemma {:induction false} ReadIsHeader(widths: seq<nat>, bs: seq<byte>)
    requires |bs| >= Total(widths)
    ensures Header(widths, Read(widths, bs))
    decreases |widths|
  {
    if widths != [] {
      ReadIsHeader(widths[1..], bs[widths[0]..]);
      NumberFits(bs[..widths[0]]);
      var r := Read(widths, bs);
      forall i | 0 <= i < |r| ensures r[i] < Pow256(widths[i]) {
        if i > 0 {
          assert r[i] == r[1..][i - 1] && widths[i] == widths[1..][i - 1];
        }
      }
    }
  }

  /** The search only ever returns footers, and a directory that it leads to is not empty. */
  lemma FoundFooter(file: seq<byte>)
    requires Found(file).Some?
    ensures var f := Found(file).value;
            Header(FOOTER, f) && f[0] == MAGIC_FOOTER && MagicAt(file, f[F_OFFSET], MAGIC_CENTRAL)
  {
    hide Read, Search, Header, LastStop;
    FooterSize();
    var i := StopBelow(file, Places(|file|));
    MagicRead(file, i, FOOTER, MAGIC_FOOTER);
    ReadIsHeader(FOOTER, file[i..]);
  }

  lemma {:induction false} StopBelow(file: seq<byte>, n: nat) returns (i: nat)
    requires Search(file, n).Some?
    ensures Stops(file, i) && Readable(file, i) && Search(file, n) == Some(FooterIn(file, i))
    decreases n
  {
    hide Stops, Readable, FooterIn;
    if Stops(file, n - 1) {
      i := n - 1;
    } else {
      i := StopBelow(file, n - 1);
    }
  }

  lemma LedToMembers(file: seq<byte>, ms: seq<Member>, decompress: bool, inflate: Inflate)
    requires Led(file) && Listed(file, ms, Found(file).value[F_OFFSET], decompress, inflate)
    requires !AnyTorn(file, ms, decompress, inflate)
    ensures ms != [] && Stored(file, ms) && Inflatable(ms, decompress, inflate)
  {
    hide Found, MagicAt, Stored, Inflates, Inflated, Corrupt, Holds;
    FoundFooter(file);
    NoDirectory();
    forall i | 0 <= i < |ms| ensures Inflated(ms[i], decompress) ==> Inflates(ms[i], inflate) {
      assert Unpackable(file, ms[i], decompress, inflate) && !Torn(file, ms[i], decompress, inflate);
    }
  }

  /** The search in the output finds its footer if and only if the footer is quiet and the size fits. */
  lemma ImageFound(ps: seq<Member>, f: seq<nat>)
    requires Sized(ps) && |f| == F_FIELDS && Archive(Image(ps, f), ps, f) && f[F_OFFSET] == |Records(ps)|
    ensures Found(Image(ps, f)) == if Quiet(f) && |Image(ps, f)| < HALF + 4 then Some(f) else None
  {
    hide Records, Directory, Write, Stops, Readable, FooterIn, Quiet, Stored, Search, Holds, Header, Directed;
    var img := Image(ps, f);
    FooterAt(img, ps, f);
    if |img| >= HALF + 4 {
      ArchiveFound(img, ps, f);
    } else {
      ImageSize(ps, f);
      SearchLastFooter(Records(ps) + Directory(ps), f);
    }
  }

  /** The output needs nothing more to be passed over again. */
  lemma ImageListed(ps: seq<Member>, f: seq<nat>, decompress: bool, inflate: Inflate)
    requires Sized(ps) && |f| == F_FIELDS && Archive(Image(ps, f), ps, f) && SelfDelimiting(inflate)
    requires forall k :: 0 <= k < |ps| ==> !Inflated(ps[k], decompress)
    ensures Listed(Image(ps, f), ps, f[F_OFFSET], decompress, inflate)
    ensures !AnyTorn(Image(ps, f), ps, decompress, inflate)
  {
    hide Records, Directory, Write, Stops, Readable, FooterIn, Stored, Holds, Header, Directed, Image, Inflated,
         Archive;
    FooterAt(Image(ps, f), ps, f);
  }

  /** A second pass over the output writes the same bytes if and only if the new footer is quiet
      and the size fits the signed counter of the search; otherwise it writes nothing. */
  method TwoPasses(file: seq<byte>, decompress: bool, inflate: Inflate, ghost ms: seq<Member>,
                   ghost ps: seq<Member>, ghost f: seq<nat>)
    returns (once: Option<seq<byte>>, twice: Option<seq<byte>>)
    requires Led(file) && Listed(file, ms, Found(file).value[F_OFFSET], decompress, inflate)
    requires !AnyTorn(file, ms, decompress, inflate)
    requires ps == Place(ms, decompress, inflate) && f == NewFooter(Found(file).value, ps) && |Image(ps, f)| < LIMIT
    ensures once == Some(Image(ps, f))
    ensures twice == if Quiet(f) && |Image(ps, f)| < HALF + 4 then once else None
    ensures twice == once <==> Quiet(f) && |Image(ps, f)| < HALF + 4
  {
    hide Records, Directory, Place, Write, Quiet, Archive, Found, Inflated, Torn, Unpackable, Header, SelfDelimiting;
    hide Stored, Directed, Image, NewFooter;
    LedToMembers(file, ms, decompress, inflate);
    FoundFooter(file);
    OutputIsArchive(file, ms, Found(file).value, decompress, inflate, ps, f);
    FooterTwice(Found(file).value, ps);
    ImageFound(ps, f);
    ImageSize(ps, f);
    ImageListed(ps, f, decompress, inflate);
    PlaceTwice(ms, decompress, inflate);
    once := Zipadjust(file, decompress, inflate, ms);
    twice := Zipadjust(once.value, decompress, inflate, ps);
  }

  lemma FooterTwice(footer: seq<nat>, ps: seq<Member>)
    requires |footer| == F_FIELDS && Sized(ps)
    ensures NewFooter(NewFooter(footer, ps), ps) == NewFooter(footer, ps)
    ensures NewFooter(footer, ps)[F_OFFSET] == |Records(ps)|
  {
    hide Records, Directory;
  }
}
