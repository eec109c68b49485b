/** Operations on a binary section: building it from a FASTA section and
    writing it as a frame (descriptor length, signed big-endian symbol
    count, descriptor bytes, packed bytes). */
module BinarySections {
  import opened Base
  import opened Codec
  import opened Sections
  import opened FastaSections

  /** `get_descriptor_byte_length`: the descriptor's byte length as a `u8`;
      a longer descriptor cannot be framed (the source panics), which is
      `None` here. */
  function DescriptorByteLength(s: BinarySection): (r: Option<u8>)
    ensures r.Some? <==> |s.descriptor| <= 0xFF
    ensures r.Some? ==> r.value == |s.descriptor|
  {
    if |s.descriptor| <= 0xFF then Some(|s.descriptor|) else None
  }

  /** `BinaryFastaSection::from_fasta`: the descriptor is kept, the
      sequence is packed, and the symbol count is stored with a minus sign
      for RNA. A count beyond `i32::MAX` or a character that is not a
      nucleotide makes the source panic, which is `None` here. */
  function FromFasta(f: FastaSection): (r: Option<BinarySection>)
    ensures r.Some? <==> IsNucleotideString(f.sequence) && |f.sequence| <= I32_MAX
    ensures r.Some? ==> r.value.descriptor == f.descriptor && r.value.sequence == Pack(f.sequence)
    ensures r.Some? ==> Abs(r.value.sequenceLength) == |f.sequence|
    ensures r.Some? ==> (r.value.sequenceLength < 0 <==> !IsDna(f.sequence))
  {
    if |f.sequence| > I32_MAX || !IsNucleotideString(f.sequence) then None
    else
      var sign := if IsDna(f.sequence) then 1 else -1;
      Some(BinarySection(f.descriptor, Pack(f.sequence), sign * |f.sequence|))
  }

  /** The frame of a section. */
  function FrameBytes(s: BinarySection): (r: seq<u8>)
    requires |s.descriptor| <= 0xFF
    ensures |r| == 5 + |s.descriptor| + |s.sequence|
  {
    [|s.descriptor|] + ToBeBytes(s.sequenceLength) + s.descriptor + s.sequence
  }

  /** `BinaryFastaSection::convert_to_bytes`: byte 0 is the descriptor
      length, bytes 1 to 4 the signed count most significant byte first,
      then the descriptor bytes, then the packed bytes. */
  method ConvertToBytes(s: BinarySection) returns (bytes: seq<u8>)
    requires |s.descriptor| <= 0xFF
    ensures bytes == FrameBytes(s)
    ensures |bytes| == 5 + |s.descriptor| + |s.sequence|
    ensures bytes[0] == |s.descriptor|
    ensures FromBeBytes(bytes[1..5]) == s.sequenceLength
    ensures bytes[5..5 + |s.descriptor|] == s.descriptor
    ensures bytes[5 + |s.descriptor|..] == s.sequence
  {
    var length := DescriptorByteLength(s);
    bytes := [length.value];
    bytes := bytes + ToBeBytes(s.sequenceLength);
    bytes := bytes + s.descriptor;
    bytes := bytes + s.sequence;
    assert bytes[1..5] == ToBeBytes(s.sequenceLength);
    BeBytesRoundTrip(s.sequenceLength);
  }
}
