/** An archive on which the second pass of zipadjust fails: its local records take as many bytes as
    the footer magic says, so that the new footer holds its own magic in the offset field. */
module ZipLoud {
  import opened Common
  import opened ZipFormat
  import opened ZipAdjust
  import opened ZipRewrite

  /** The size of the member, which fills the record up to MAGIC_FOOTER bytes. */
  const BULK: nat := MAGIC_FOOTER - LOCAL_SIZE - 1

  /** A stored member of that size with its record at `offset`. */
  function Bulky(offset: nat): (m: Member)
    ensures |m.local| == L_FIELDS && |m.central| == C_FIELDS
  {
    Member([MAGIC_LOCAL, 20, 0, 0, 0, 0, 0, BULK, BULK, 1, 0],
           [MAGIC_CENTRAL, 20, 20, 0, 0, 0, 0, 0, BULK, BULK, 1, 0, 0, 0, 0, 0, offset],
           [97], [], [], [], Repeat(0, BULK))
  }

  /** The footer for a directory of 47 bytes at `offset`. */
  function Foot(offset: nat): (f: seq<nat>)
    ensures |f| == F_FIELDS
  {
    [MAGIC_FOOTER, 0, 0, 1, 1, CENTRAL_SIZE + 1, offset, 0]
  }

  /** One byte in front of the record moves the directory to another offset. */
  function Padded(): seq<byte> {
    [0] + Bulky(1).LocalBytes() + Bulky(1).CentralBytes()
  }

  function Original(): seq<byte> {
    Padded() + Write(FOOTER, Foot(MAGIC_FOOTER + 1))
  }

  // ---------------------------------------------------------------- bytes of the footer

  /** A field is its low byte and the field of the rest. */
  lemma FieldStep(low: byte, v: nat, w: nat)
    ensures ToBytes(low + 256 * v, w + 1) == [low] + ToBytes(v, w)
  {
    assert (low + 256 * v) % 256 == low && (low + 256 * v) / 256 == v;
  }

  lemma ShortField(v: byte)
    ensures ToBytes(v, 2) == [v, 0]
  {
    FieldStep(v, 0, 1);
    FieldStep(0, 0, 0);
  }

  lemma LongField(a: byte, b: byte, c: byte, d: byte)
    ensures ToBytes(a + 256 * (b + 256 * (c + 256 * d)), 4) == [a, b, c, d]
  {
    FieldStep(a, b + 256 * (c + 256 * d), 3);
    FieldStep(b, c + 256 * d, 2);
    FieldStep(c, d, 1);
    FieldStep(d, 0, 0);
  }

  const FOOT_START: seq<byte> := [0x50, 0x4b, 5, 6, 0, 0, 0, 0, 1, 0, 1, 0]

  lemma WriteStep(width: nat, value: nat, widths: seq<nat>, vals: seq<nat>)
    requires |widths| == |vals|
    ensures Write([width] + widths, [value] + vals) == ToBytes(value, width) + Write(widths, vals)
  {
    assert ([width] + widths)[1..] == widths && ([value] + vals)[1..] == vals;
  }

  /** The end of the footer: directory size, offset and comment length. */
  lemma FootEnd(low: byte)
    ensures Write([4, 4, 2], [47, low + 0x06054b00, 0]) == [47, 0, 0, 0] + [low, 0x4b, 5, 6] + [0, 0]
  {
    LongField(47, 0, 0, 0);
    LongField(low, 0x4b, 5, 6);
    ShortField(0);
    hide ToBytes;
    WriteStep(2, 0, [], []);
    WriteStep(4, low + 0x06054b00, [2], [0]);
    WriteStep(4, 47, [4, 2], [low + 0x06054b00, 0]);
    hide Write;
    assert [4] + ([4] + [2]) == [4, 4, 2];
  }

  /** Disk numbers and entry counts. */
  lemma FootCounts()
    ensures Write([2, 2, 2, 2], [0, 0, 1, 1]) == [0, 0] + ([0, 0] + ([1, 0] + [1, 0]))
  {
    ShortField(0);
    ShortField(1);
    hide ToBytes;
    WriteStep(2, 1, [], []);
    WriteStep(2, 1, [2], [1]);
    WriteStep(2, 0, [2, 2], [1, 1]);
    WriteStep(2, 0, [2, 2, 2], [0, 1, 1]);
    assert Write([], []) == [];
    hide Write;
    assert [2] + [2] == [2, 2] && [1] + [1] == [1, 1];
    assert [2] + [2, 2] == [2, 2, 2] && [0] + [1, 1] == [0, 1, 1];
    assert [2] + [2, 2, 2] == [2, 2, 2, 2] && [0] + [0, 1, 1] == [0, 0, 1, 1];
  }

  /** The start of the footer. */
  lemma FootFront()
    ensures Write([4, 2, 2, 2, 2], [MAGIC_FOOTER, 0, 0, 1, 1]) == FOOT_START
  {
    hide ToBytes, Write;
    LongField(0x50, 0x4b, 5, 6);
    FootCounts();
    WriteStep(4, MAGIC_FOOTER, [2, 2, 2, 2], [0, 0, 1, 1]);
    assert [4] + [2, 2, 2, 2] == [4, 2, 2, 2, 2] && [MAGIC_FOOTER] + [0, 0, 1, 1] == [MAGIC_FOOTER, 0, 0, 1, 1];
  }

  lemma {:induction false} WriteAppend(ws: seq<nat>, vs: seq<nat>, ws': seq<nat>, vs': seq<nat>)
    requires |ws| == |vs| && |ws'| == |vs'|
    ensures Write(ws + ws', vs + vs') == Write(ws, vs) + Write(ws', vs')
    decreases |ws|
  {
    if ws == [] {
      assert ws + ws' == ws' && vs + vs' == vs';
    } else {
      assert (ws + ws')[1..] == ws[1..] + ws' && (vs + vs')[1..] == vs[1..] + vs';
      WriteAppend(ws[1..], vs[1..], ws', vs');
    }
  }

  lemma FootBytes(low: byte)
    ensures Write(FOOTER, Foot(low + 0x06054b00)) == FOOT_START + ([47, 0, 0, 0] + [low, 0x4b, 5, 6] + [0, 0])
  {
    hide Write;
    FootFront();
    FootEnd(low);
    WriteAppend([4, 2, 2, 2, 2], [MAGIC_FOOTER, 0, 0, 1, 1], [4, 4, 2], [47, low + 0x06054b00, 0]);
    assert FOOTER == [4, 2, 2, 2, 2] + [4, 4, 2];
    assert Foot(low + 0x06054b00) == [MAGIC_FOOTER, 0, 0, 1, 1] + [47, low + 0x06054b00, 0];
  }

  lemma FirstByte(file: seq<byte>, i: nat)
    requires MagicAt(file, i, MAGIC_FOOTER)
    ensures file[i] == 0x50
  {
    assert ToNumber(file[i..i + 4]) == file[i] + 256 * ToNumber(file[i..i + 4][1..]);
  }

  /** An offset of 0x06054b51 leaves the footer quiet, 0x06054b50 does not. */
  lemma LoudFooter()
    ensures Quiet(Foot(MAGIC_FOOTER + 1)) && !Quiet(Foot(MAGIC_FOOTER))
  {
    hide Write;
    FooterSize();
    FootBytes(0x51);
    var quiet := Write(FOOTER, Foot(MAGIC_FOOTER + 1));
    forall i | 0 < i < FOOTER_SIZE ensures !MagicAt(quiet, i, MAGIC_FOOTER) {
      if MagicAt(quiet, i, MAGIC_FOOTER) {
        FirstByte(quiet, i);
      }
    }
    FootBytes(0x50);
    var loud := Write(FOOTER, Foot(MAGIC_FOOTER));
    assert loud[16..20] == [0x50, 0x4b, 5, 6];
    LongField(0x50, 0x4b, 5, 6);
    Widths();
    NumberBack(MAGIC_FOOTER, 4);
    assert MagicAt(loud, 16, MAGIC_FOOTER);
  }

  // ---------------------------------------------------------------- the archive

  lemma BulkyValid(offset: nat)
    requires offset < LIMIT
    ensures Bulky(offset).Valid()
  {
    Widths();
    var m := Bulky(offset);
    assert Header(LOCAL, m.local);
    assert Header(CENTRAL, m.central);
  }

  lemma BulkySizes(offset: nat)
    ensures |Bulky(offset).LocalBytes()| == MAGIC_FOOTER && |Bulky(offset).CentralBytes()| == CENTRAL_SIZE + 1
    ensures Sized([Bulky(offset)]) && Records([Bulky(offset)]) == Bulky(offset).LocalBytes()
    ensures Directory([Bulky(offset)]) == Bulky(offset).CentralBytes()
  {
    hide Write;
    LocalSize();
    CentralSize();
    var m := Bulky(offset);
    assert [m][..0] == [] && [m][0] == m;
  }

  lemma IsArchive()
    ensures Sized([Bulky(1)]) && Archive(Original(), [Bulky(1)], Foot(MAGIC_FOOTER + 1))
  {
    hide Write, Directory, Member.LocalBytes, Member.CentralBytes, Member.Valid, Records;
    var m, f := Bulky(1), Foot(MAGIC_FOOTER + 1);
    BulkyValid(1);
    BulkySizes(1);
    FooterSize();
    Widths();
    assert Header(FOOTER, f);
    var file, l, c, fb := Original(), m.LocalBytes(), m.CentralBytes(), Write(FOOTER, f);
    assert file == [0] + l + (c + fb);
    assert Holds(file, 1, l) by { assert file[1..1 + |l|] == l; }
    assert Holds(file, MAGIC_FOOTER + 1, c + fb) by { assert file[1 + |l|..1 + |l| + |c + fb|] == c + fb; }
  }

  lemma IsFound()
    ensures Found(Original()) == Some(Foot(MAGIC_FOOTER + 1))
  {
    hide Write, Directory, Bulky, Foot, Stops, Readable, FooterIn, Quiet, Archive, Search, Directed, Records;
    hide Member.LocalBytes, Member.CentralBytes, Sized;
    var m, f := Bulky(1), Foot(MAGIC_FOOTER + 1);
    IsArchive();
    FooterAt(Original(), [m], f);
    BulkySizes(1);
    FooterSize();
    LoudFooter();
    assert f[F_OFFSET] == MAGIC_FOOTER + 1 by { OffsetOf(MAGIC_FOOTER + 1); }
    SearchLastFooter(Padded(), f);
  }

  lemma OffsetOf(offset: nat)
    ensures Foot(offset)[F_OFFSET] == offset
  {
  }

  lemma MovedMember(decompress: bool, inflate: Inflate)
    ensures Adjusted(Bulky(1), 0, decompress, inflate) == Bulky(0)
  {
    hide Repeat;
    var r := Adjusted(Bulky(1), 0, decompress, inflate);
    assert r.central == Bulky(0).central;
    assert r.local == Bulky(0).local;
  }

  /** The pass moves the record to the start and keeps its size. */
  lemma Moved(decompress: bool, inflate: Inflate)
    ensures Sized([Bulky(1)]) && Sized([Bulky(0)]) && Place([Bulky(1)], decompress, inflate) == [Bulky(0)]
  {
    hide Write, Directory, Adjusted, Bulky, Records, Place;
    var m := Bulky(1);
    BulkySizes(1);
    BulkySizes(0);
    assert [] + [m] == [m];
    PlaceSnoc([], m, decompress, inflate);
    NonePlaced(decompress, inflate);
    NoRecords();
    MovedMember(decompress, inflate);
  }

  lemma NonePlaced(decompress: bool, inflate: Inflate)
    ensures Place([], decompress, inflate) == []
  {
  }

  lemma MovedFooter()
    ensures Sized([Bulky(0)]) && NewFooter(Foot(MAGIC_FOOTER + 1), [Bulky(0)]) == Foot(MAGIC_FOOTER)
  {
    hide Write, Records, Directory, Bulky, Member.LocalBytes, Member.CentralBytes;
    BulkySizes(0);
  }

  lemma NoRecords()
    ensures Records([]) == []
  {
  }

  lemma IsListed(decompress: bool, inflate: Inflate)
    requires SelfDelimiting(inflate)
    ensures Led(Original()) && Listed(Original(), [Bulky(1)], MAGIC_FOOTER + 1, decompress, inflate)
    ensures !AnyTorn(Original(), [Bulky(1)], decompress, inflate)
  {
    hide Write, Directory, Archive, Found, Directed, Stops, Readable, FooterIn, Original, Foot;
    IsArchive();
    IsFound();
    OffsetOf(MAGIC_FOOTER + 1);
    FooterAt(Original(), [Bulky(1)], Foot(MAGIC_FOOTER + 1));
  }

  lemma ImageFits()
    ensures Sized([Bulky(0)]) && |Image([Bulky(0)], Foot(MAGIC_FOOTER))| < LIMIT
  {
    hide Write, Directory, Records, Bulky, Foot, Image;
    BulkySizes(0);
    ImageSize([Bulky(0)], Foot(MAGIC_FOOTER));
  }

  /** What the first pass makes of it. */
  function Normalised(): seq<byte> {
    ImageFits();
    Image([Bulky(0)], Foot(MAGIC_FOOTER))
  }

  lemma NormalisedImage()
    ensures Sized([Bulky(0)]) && Normalised() == Image([Bulky(0)], Foot(MAGIC_FOOTER))
  {
    hide Bulky, Foot, Image;
    ImageFits();
  }

  /** On this archive the first pass writes a file that the second pass refuses. */
  method SecondPassFails(decompress: bool, inflate: Inflate, file: seq<byte>)
    returns (once: Option<seq<byte>>, twice: Option<seq<byte>>)
    requires SelfDelimiting(inflate) && file == Original()
    ensures once == Some(Normalised()) && twice == None
  {
    hide *;
    IsFound();
    IsListed(decompress, inflate);
    OffsetOf(MAGIC_FOOTER + 1);
    Moved(decompress, inflate);
    MovedFooter();
    ImageFits();
    LoudFooter();
    once, twice := TwoPasses(file, decompress, inflate, [Bulky(1)], [Bulky(0)], Foot(MAGIC_FOOTER));
    assert once == Some(Normalised()) by {
      NormalisedImage();
    }
  }
}
