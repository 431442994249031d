/** Secondary compression of a section: its size, then its compressed bytes.  Models the two
    drivers of xdelta3-second.h with the DJW coder. */
module Secondary {
  import opened Common
  import opened BitStream
  import I = Integers
  import D = Djw
  import K = DjwCoder

  const MIN_SAVINGS: nat := 2
  const MIN_INPUT: nat := 10

  /** xd3_decode_secondary: all input has to be used, down to less than a byte. */
  function Decompress(input: seq<byte>): Result<seq<nat>> {
    match I.Read(input)
    case Err(e) => Err(e)
    case Ok((size, rest)) =>
      match D.DecodeHuff(Unpack(rest), size)
      case None => Err(Internal)
      case Some((data, left)) => if |left| < 8 then Ok(data) else Err(Internal)
  }

  /** Coded sections decompress to themselves. */
  lemma SectionRoundTrip(clen: seq<nat>, clclen: seq<nat>, section: seq<byte>)
    requires D.Complete(clen, clclen, section) && 0 < |section| <= USIZE_MAX
    ensures Decompress(I.Encode(|section|) + Pack(D.Message(clen, clclen, section))) == Ok(section)
  {
    hide I.Read, I.Encode, D.DecodeHuff, D.Message, Pack, Unpack;
    I.ReadEncode(|section|, Pack(D.Message(clen, clclen, section)));
    K.HuffRoundTrip(clen, clclen, section);
  }

  /** The best message for the section, with its size, saves too little. */
  ghost predicate SavesTooLittle(clen: seq<nat>, clclen: seq<nat>, section: seq<byte>)
    requires clen != []
  {
    && D.Complete(clen, clclen, section) && K.BestFor(clclen, D.LengthCodes(clen), D.MAX_CLCLEN)
    && |I.Encode(|section|)| + |Pack(D.Message(clen, clclen, section))| + MIN_SAVINGS >= |section|
  }

  /** xd3_encode_secondary: nothing is returned when the section stays as it is.  Whatever is
      returned decompresses to the section and, unless inefficiency is allowed, is shorter.
      Nothing is returned only for a short section or one that the best lengths do not make small
      enough. */
  method EncodeSecondary(section: seq<byte>, inefficient: bool)
    returns (r: Option<seq<byte>>, ghost clen: seq<nat>, ghost clclen: seq<nat>)
    requires |section| <= USIZE_MAX
    ensures r.Some? ==> |section| >= MIN_INPUT && Decompress(r.value) == Ok(section)
    ensures r.Some? && !inefficient ==> |r.value| + MIN_SAVINGS < |section|
    ensures r.None? && |section| >= MIN_INPUT ==>
              && !inefficient && D.Code(clen, D.ALPHABET_SIZE, D.MAX_CODELEN) && D.M.AllCoded(clen, section)
              && K.BestFor(clen, section, D.MAX_CODELEN)
              && (K.Refused(clen, clclen, section, |I.Encode(|section|)|) || SavesTooLittle(clen, clclen, section))
  {
    hide Decompress, D.Complete, D.Message, K.Refused, K.BestFor;
    clen, clclen := [], [];
    if |section| < MIN_INPUT {
      r := None;
      return;
    }
    var size := I.Emit(|section|);
    var out;
    out, clen, clclen := K.EncodeHuff(section, |size|, inefficient);
    if out.None? {
      r := None;
      return;
    }
    var all := size + out.value;
    SectionRoundTrip(clen, clclen, section);
    if |all| < |section| - MIN_SAVINGS || inefficient {
      r := Some(all);
    } else {
      r := None;
    }
  }

  /** xd3_decode_secondary as it runs. */
  method DecodeSecondary(input: seq<byte>) returns (r: Result<seq<nat>>)
    ensures r == Decompress(input)
  {
    hide I.Read, D.DecodeHuff, Unpack;
    var size, next := I.ReadInteger(input, 0);
    assert input[0..] == input;
    if size.Err? {
      return Err(size.error);
    }
    var data, used := K.DecodeSection(input[next..], size.value);
    if data.None? {
      return Err(Internal);
    }
    if used != |input[next..]| {
      return Err(Internal);
    }
    return Ok(data.value);
  }
}
