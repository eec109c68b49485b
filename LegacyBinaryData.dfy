/** The older whole-file binary driver: every section converted at once,
    the file written byte by byte, and read back by decoding frames until
    the buffer is exhausted. */
module LegacyBinaryData {
  import opened Base
  import opened Sections
  import opened BinarySections
  import opened Frames
  import opened Codec
  import FastaSections
  import BastaData

  /** `BinaryFastaData::from_fasta`: one binary section per FASTA section,
      in order; `None` when a section cannot be converted (the source
      panics). */
  function FromFastaData(fs: seq<FastaSection>): (r: Option<seq<BinarySection>>)
    ensures r.Some? <==> forall i :: 0 <= i < |fs| ==> FromFasta(fs[i]).Some?
    ensures r.Some? ==> |r.value| == |fs|
    ensures r.Some? ==> forall i :: 0 <= i < |fs| ==>
      r.value[i].descriptor == fs[i].descriptor && r.value[i].sequence == Pack(fs[i].sequence) &&
      Abs(r.value[i].sequenceLength) == |fs[i].sequence| &&
      (r.value[i].sequenceLength < 0 <==> !FastaSections.IsDna(fs[i].sequence))
  {
    if forall i :: 0 <= i < |fs| ==> FromFasta(fs[i]).Some? then
      Some(seq(|fs|, i requires 0 <= i < |fs| && FromFasta(fs[i]).Some? => FromFasta(fs[i]).value))
    else None
  }

  /** Both generations convert the same sections: when every section
      converts, the streaming converter gives the same binary sections. */
  lemma FromFastaAgrees(fs: seq<FastaSection>)
    requires FromFastaData(fs).Some?
    ensures BastaData.Encodable(Oks(fs))
    ensures BastaData.FromFastaStream(Oks(fs)) == Oks(FromFastaData(fs).value)
  {
    var text := Oks<FastaSection, Error>(fs);
    assert BastaData.Encodable(text) by {
      forall i | 0 <= i < |text| && text[i].Ok? ensures FromFasta(text[i].value).Some? {
        assert text[i].value == fs[i];
      }
    }
    var l := BastaData.FromFastaStream(text);
    var r := Oks<BinarySection, Error>(FromFastaData(fs).value);
    forall i | 0 <= i < |fs| ensures l[i] == r[i] {
      assert text[i] == Ok(fs[i]);
    }
  }

  /** `BinaryFastaData::write`: the frames of all sections, flattened and
      written one byte at a time. */
  method Write(sections: seq<BinarySection>) returns (sink: seq<u8>)
    requires forall i :: 0 <= i < |sections| ==> |sections[i].descriptor| <= 0xFF
    ensures sink == EncodeAll(sections)
  {
    sink := [];
    for k := 0 to |sections|
      invariant sink == EncodeAll(sections[..k])
    {
      var bytes := ConvertToBytes(sections[k]);
      for j := 0 to |bytes|
        invariant sink == EncodeAll(sections[..k]) + bytes[..j]
      {
        sink := sink + [bytes[j]];
        assert bytes[..j + 1] == bytes[..j] + [bytes[j]];
      }
      assert bytes[..|bytes|] == bytes;
      WriteStep(sections, k);
    }
    assert sections[..|sections|] == sections;
  }

  /** The frames of the first k + 1 sections extend those of the first k by
      one frame. */
  lemma WriteStep(sections: seq<BinarySection>, k: nat)
    requires k < |sections|
    requires forall i :: 0 <= i < |sections| ==> |sections[i].descriptor| <= 0xFF
    ensures EncodeAll(sections[..k + 1]) == EncodeAll(sections[..k]) + FrameBytes(sections[k])
  {
    assert sections[..k + 1] == sections[..k] + [sections[k]];
    EncodeAllAppend(sections[..k], [sections[k]]);
    assert EncodeAll([sections[k]]) == FrameBytes(sections[k]) + EncodeAll([]);
  }

  /** What `BinaryFastaData::read` gives for the file's bytes: every frame
      in order, or the first frame that cannot be read (the older reader's
      frame decoder has no error result, so such a frame ends the read).
      The source reads frames with the packed byte count as written
      (`asWritten`); the intended reader is the other. */
  function ReadAll(b: seq<u8>, asWritten: bool): Result<seq<BinarySection>, Error>
    decreases |b|
  {
    if b == [] then Ok([])
    else
      var p := ParseFrameWith(b, asWritten);
      if p.result.Err? then Err(p.result.error)
      else
        var rest := ReadAll(b[p.consumed..], asWritten);
        if rest.Err? then rest else Ok([p.result.value] + rest.value)
  }

  /** `BinaryFastaData::read`: while a byte remains, decode one frame, with
      the source's packed byte count, and append its section. */
  method Read(data: seq<u8>) returns (r: Result<seq<BinarySection>, Error>)
    ensures r == ReadAll(data, true)
  {
    var cursor := new ByteCursor(data);
    var sections: seq<BinarySection> := [];
    assert cursor.Remaining() == data;
    ResumeNothing(data);
    var more := cursor.HasNext();
    while more
      invariant cursor.Valid()
      invariant more <==> cursor.Remaining() != []
      invariant ReadAll(data, true) == Resume(sections, cursor.Remaining())
      decreases |cursor.Remaining()|
    {
      ghost var b := cursor.Remaining();
      ghost var start := cursor.pos;
      var section := FromBytes(cursor, true);
      assert cursor.Remaining() == b[cursor.pos - start..];
      if section.Err? {
        return Err(section.error);
      }
      ResumeStep(sections, b);
      sections := sections + [section.value];
      more := cursor.HasNext();
    }
    assert sections + [] == sections;
    return Ok(sections);
  }

  /** What the reader ends with when it has already collected `sections` and
      `b` is still to be read. */
  ghost function Resume(sections: seq<BinarySection>, b: seq<u8>): Result<seq<BinarySection>, Error>
  {
    if ReadAll(b, true).Err? then ReadAll(b, true) else Ok(sections + ReadAll(b, true).value)
  }

  lemma ResumeNothing(b: seq<u8>)
    ensures Resume([], b) == ReadAll(b, true)
  {
    if ReadAll(b, true).Ok? {
      assert [] + ReadAll(b, true).value == ReadAll(b, true).value;
    }
  }

  /** Reading one good frame moves its section from the input to the result. */
  lemma ResumeStep(sections: seq<BinarySection>, b: seq<u8>)
    requires b != [] && ParseFrameAsWritten(b).result.Ok?
    ensures Resume(sections, b)
         == Resume(sections + [ParseFrameAsWritten(b).result.value], b[ParseFrameAsWritten(b).consumed..])
  {
    var p := ParseFrameAsWritten(b);
    var rest := ReadAll(b[p.consumed..], true);
    if rest.Ok? {
      assert sections + ([p.result.value] + rest.value) == (sections + [p.result.value]) + rest.value;
    }
  }

  /** The older reader keeps what the streaming reader yields when no frame
      fails, and otherwise stops at the first failure. */
  lemma {:induction false} ReadAllCollects(b: seq<u8>, asWritten: bool)
    ensures ReadAll(b, asWritten) == Collect(BastaData.DecodeStream(b, asWritten))
    decreases |b|
  {
    if b != [] {
      var p := ParseFrameWith(b, asWritten);
      ReadAllCollects(b[p.consumed..], asWritten);
      assert BastaData.DecodeStream(b, asWritten)[1..] == BastaData.DecodeStream(b[p.consumed..], asWritten);
    }
  }

  /** Round trip of the older driver: reading what it writes gives back the
      sections, and an empty file gives no section. The intended reader
      does so for every well-formed section; the source's only when every
      count is above -4. */
  lemma ReadWritten(ss: seq<BinarySection>, asWritten: bool)
    requires AllWellFormed(ss)
    requires asWritten ==> forall i :: 0 <= i < |ss| ==> ss[i].sequenceLength > -4
    ensures ReadAll(EncodeAll(ss), asWritten) == Ok(ss)
  {
    ReadAllCollects(EncodeAll(ss), asWritten);
    BastaData.DecodeEncoded(ss, asWritten);
    CollectOks<BinarySection, Error>(ss);
  }
}
