/** One cut, byte for byte: the smallest delta with a target, short of its last byte. */
module TruncatedDelta {
  import opened Common
  import opened Delta
  import opened CodeTable
  import opened WindowCodec
  import opened WindowEmitter
  import opened StreamFormat
  import opened StreamCut
  import E = StreamEncoder
  import AddressCache

  /** The window for the target [7]: one ADD. */
  function Seven(): E.Window {
    E.Window(None, false, [7], [7], [2], [])
  }

  lemma SevenDecodes()
    ensures DecodeWindow([2], [], [7], [], 1) == Ok([7])
  {
    hide DecodeWindow, AddressCache.Init, Apply;
    var insts := [Add([7])];
    assert AllEncodable(insts, 0, 0) by { assert insts[1..] == []; }
    SevenSections();
    WindowRoundTrip(insts, []);
    assert Apply(insts, [], []) == [7] by { SevenApplied(); }
  }

  lemma SevenApplied()
    ensures AllApplicable([Add([7])], 0, 0) && Apply([Add([7])], [], []) == [7] && TotalSize([Add([7])]) == 1
  {
    assert [Add([7])][1..] == [] && [] + [7] == [7];
  }

  lemma SevenSections()
    ensures AllEncodable([Add([7])], 0, 0)
    ensures var (ops, addr, data) := EncodeInsts([Add([7])], InitialCache(), 0, 0);
            EmitOps(None, ops) == [2] && addr == [] && data == [7]
  {
    hide AddressCache.Init;
    var insts, op := [Add([7])], Op(ADD, 1);
    assert insts[1..] == [] && AllEncodable([], 0, 1);
    assert EncodeInsts([], InitialCache(), 0, 1) == ([], [], []);
    var p := EncodeInst(Add([7]), InitialCache(), 0, 0);
    assert p == Piece(op, [], [7], InitialCache());
    assert EncodeInsts(insts, InitialCache(), 0, 0) == ([op] + [], [] + [], [7] + []);
    assert [op][1..] == [];
    assert EmitOps(None, [op]) == EmitOps(Some(op), []) == EmitSingle(op);
    assert Code1(op) == 2 && Entry(2).size1 == 1;
  }

  lemma SevenRebuilds(c: Config)
    requires Segment(c.file, 0, 0, c.shiftby).Fits()
    ensures Seven().Rebuilds(c)
  {
    hide DecodeWindow, DecodeFrom, Segment.Fits;
    SevenDecodes();
    assert c.file[0..0] == [];
    E.EncodedRebuilds(c, Seven());
  }

  /** With its last byte missing, the delta for [7] is accepted and nothing is output. */
  lemma LastByteMissing(c: Config)
    requires Segment(c.file, 0, 0, c.shiftby).Fits()
    ensures var bytes := E.FileBytes(None, [Seven()]);
            var s := FeedAll(c, Init(), bytes[..|bytes| - 1]);
            && FeedAll(c, Init(), bytes).out == [7]
            && s.phase.Running? && !Complete(s) && s.out == []
  {
    hide FeedAll, E.FileBytes, E.Window.Rebuilds, Init, E.AllWindows, WholeBefore, E.WindowBytes, Segment.Fits,
         Complete, Seven;
    var windows := [Seven()];
    var bytes := E.FileBytes(None, windows);
    SevenRebuilds(c);
    SevenTargets();
    E.FileRoundTrip(c, None, windows);
    HeaderThen(None, windows);
    FirstSize(windows);
    assert windows[..1] == windows && windows[..0] == [];
    var n := |bytes| - 1;
    CutFile(c, None, windows, n);
    assert WholeWindows(None, windows, n) == 0 && n > |E.FileBytes(None, [])|;
  }

  lemma SevenTargets()
    ensures E.Targets([Seven()]) == [7] && E.Targets([]) == [] && E.FileBytes(None, []) != []
  {
    assert [Seven()][1..] == [];
  }
}
