/** Conversions in both directions: a FASTA section through the binary
    format and back, and a whole FASTA file through a binary file and back. */
module RoundTrip {
  import opened Base
  import opened Codec
  import opened Sections
  import opened FastaSections
  import opened BinarySections
  import opened Frames
  import BastaData
  import FastaData

  /** What a section becomes after a round trip through the binary format:
      the same descriptor, and the sequence upper-cased with every T or U
      written as the alphabet `is_dna` chose. */
  function Converted(f: FastaSection): FastaSection
    requires IsNucleotideString(f.sequence)
  {
    FastaSection(f.descriptor, Canonical(f.sequence, IsDna(f.sequence)))
  }

  /** Whether a section can be converted to the binary format and framed. */
  predicate Convertible(f: FastaSection)
  {
    IsNucleotideString(f.sequence) && |f.sequence| <= I32_MAX && |f.descriptor| <= 0xFF
  }

  /** Section round trip: converting a section to the binary format and back
      keeps its descriptor and gives its sequence in canonical form; the
      binary section is well-formed, so its frame reads back too. */
  lemma SectionRoundTrip(f: FastaSection)
    requires Convertible(f) && IsUtf8(f.descriptor)
    ensures FromFasta(f).Some? && WellFormed(FromFasta(f).value)
    ensures FromFasta(f).value.sequenceLength != I32_MIN
    ensures FromBasta(FromFasta(f).value) == Converted(f)
  {
    var b := FromFasta(f).value;
    var s := f.sequence;
    assert Abs(b.sequenceLength) == |s|;
    assert b.sequenceLength >= 0 <==> IsDna(s);
    PackRoundTrip(s, IsDna(s));
    assert Decode(b.sequence, b.sequenceLength) == Canonical(s, IsDna(s));
  }

  /** A sequence written in one alphabet comes back upper-cased and
      otherwise unchanged. */
  lemma SingleAlphabetRoundTrip(f: FastaSection)
    requires Convertible(f) && IsUtf8(f.descriptor)
    requires !(HasT(f.sequence) && HasU(f.sequence))
    ensures FromBasta(FromFasta(f).value) == FastaSection(f.descriptor, Upper(f.sequence))
  {
    SectionRoundTrip(f);
    IsDnaOfAlphabet(f.sequence);
    CanonicalIsUpper(f.sequence, IsDna(f.sequence));
  }

  /** The binary sections of convertible text sections. */
  function Encoded(ss: seq<FastaSection>): (bs: seq<BinarySection>)
    requires forall i :: 0 <= i < |ss| ==> Convertible(ss[i])
    ensures |bs| == |ss|
  {
    seq(|ss|, i requires 0 <= i < |ss| => assert Convertible(ss[i]); FromFasta(ss[i]).value)
  }

  /** Each binary section of convertible sections is well-formed and
      converts back to the section in canonical form. */
  lemma EncodedSections(ss: seq<FastaSection>)
    requires forall i :: 0 <= i < |ss| ==> Convertible(ss[i]) && IsUtf8(ss[i].descriptor)
    ensures forall i :: 0 <= i < |ss| ==>
      WellFormed(Encoded(ss)[i]) && Encoded(ss)[i].sequenceLength != I32_MIN &&
      FromBasta(Encoded(ss)[i]) == Converted(ss[i])
  {
    var bs := Encoded(ss);
    forall i | 0 <= i < |ss|
      ensures WellFormed(bs[i]) && bs[i].sequenceLength != I32_MIN && FromBasta(bs[i]) == Converted(ss[i])
    {
      SectionRoundTrip(ss[i]);
    }
  }

  /** The streaming converter turns the text sections into their binary
      sections, in order. */
  lemma StreamEncodes(ss: seq<FastaSection>)
    requires forall i :: 0 <= i < |ss| ==> Convertible(ss[i])
    ensures BastaData.Encodable(Oks(ss)) && BastaData.FromFastaStream(Oks(ss)) == Oks(Encoded(ss))
  {
    var text := Oks<FastaSection, Error>(ss);
    var binary := Oks<BinarySection, Error>(Encoded(ss));
    assert BastaData.Encodable(text) by {
      forall i | 0 <= i < |text| && text[i].Ok? ensures FromFasta(text[i].value).Some? {
        assert text[i].value == ss[i];
      }
    }
    var converted := BastaData.FromFastaStream(text);
    forall i | 0 <= i < |ss| ensures converted[i] == binary[i] {
      assert text[i] == Ok(ss[i]);
    }
  }

  /** The streaming converter turns the binary sections back into the text
      sections in canonical form. */
  lemma StreamDecodes(ss: seq<FastaSection>)
    requires forall i :: 0 <= i < |ss| ==> Convertible(ss[i]) && IsUtf8(ss[i].descriptor)
    ensures FastaData.Decodable(Oks(Encoded(ss)))
    ensures FastaData.FromBastaStream(Oks(Encoded(ss))) == Oks(seq(|ss|, i requires 0 <= i < |ss| => Converted(ss[i])))
  {
    var bs := Encoded(ss);
    EncodedSections(ss);
    var binary := Oks<BinarySection, Error>(bs);
    assert FastaData.Decodable(binary) by {
      forall i | 0 <= i < |binary| && binary[i].Ok? ensures binary[i].value.sequenceLength != I32_MIN {
        assert binary[i].value == bs[i];
      }
    }
    var back := FastaData.FromBastaStream(binary);
    var expected := Oks<FastaSection, Error>(seq(|ss|, i requires 0 <= i < |ss| => Converted(ss[i])));
    forall i | 0 <= i < |ss| ensures back[i] == expected[i] {
      assert binary[i] == Ok(bs[i]);
    }
  }

  /** File round trip: FASTA text written from sections, read, converted to
      a binary file, read back and converted to text again gives every
      section, in order, in canonical form. The intended binary reader
      does so for every convertible section; the source's only when no
      section is RNA of four or more symbols. */
  lemma FileRoundTrip(path: string, ss: seq<FastaSection>, asWritten: bool)
    requires ss != []
    requires forall i :: 0 <= i < |ss| ==> FastaData.Rereadable(ss[i]) && Convertible(ss[i])
    requires asWritten ==> forall i :: 0 <= i < |ss| ==> IsDna(ss[i].sequence) || |ss[i].sequence| < 4
    ensures FastaData.Read(path, FastaData.Written(Oks(ss)).0) == Ok(Oks(ss))
    ensures BastaData.Encodable(Oks(ss)) && BastaData.FromFastaStream(Oks(ss)) == Oks(Encoded(ss))
    ensures BastaData.Writable(Oks(Encoded(ss)))
    ensures BastaData.Written(Oks(Encoded(ss))) == (EncodeAll(Encoded(ss)), Ok(()))
    ensures BastaData.DecodeStream(EncodeAll(Encoded(ss)), asWritten) == Oks(Encoded(ss))
    ensures FastaData.Decodable(Oks(Encoded(ss)))
    ensures FastaData.FromBastaStream(Oks(Encoded(ss))) == Oks(seq(|ss|, i requires 0 <= i < |ss| => Converted(ss[i])))
  {
    FastaData.ReadWritten(path, ss);
    var bs := Encoded(ss);
    assert forall i :: 0 <= i < |ss| ==> Convertible(ss[i]) && IsUtf8(ss[i].descriptor);
    EncodedSections(ss);
    StreamEncodes(ss);
    assert AllWellFormed(bs);
    BastaData.WrittenAllOk(bs);
    assert asWritten ==> forall i :: 0 <= i < |bs| ==> bs[i].sequenceLength > -4 by {
      forall i | 0 <= i < |bs| ensures asWritten ==> bs[i].sequenceLength > -4 {
        assert Convertible(ss[i]);
      }
    }
    BastaData.DecodeEncoded(bs, asWritten);
    StreamDecodes(ss);
  }
}
