/** The whole-file FASTA driver of the first generation: every section
    decoded at once, lines grouped into a vector of sections with the first
    error ending the read, and the sections written one after the other. */
module LegacyFastaData {
  import opened Base
  import opened Codec
  import opened Sections
  import opened FastaSections
  import opened FastaData

  /** `FastaData::from_basta`: one text section per binary section, in
      order, each keeping its descriptor. */
  function FromBastaData(bs: seq<BinarySection>): (r: seq<FastaSection>)
    requires forall i :: 0 <= i < |bs| ==> bs[i].sequenceLength != I32_MIN
    ensures |r| == |bs|
    ensures forall i :: 0 <= i < |bs| ==> r[i] == FromBasta(bs[i])
  {
    seq(|bs|, i requires 0 <= i < |bs| => FromBasta(bs[i]))
  }

  /** Both generations decode the same sections. */
  lemma FromBastaAgrees(bs: seq<BinarySection>)
    requires forall i :: 0 <= i < |bs| ==> bs[i].sequenceLength != I32_MIN
    ensures Decodable(Oks(bs))
    ensures FromBastaStream(Oks(bs)) == Oks(FromBastaData(bs))
  {
    var l := FromBastaStream(Oks(bs));
    var r := Oks<FastaSection, Error>(FromBastaData(bs));
    forall i | 0 <= i < |bs| ensures l[i] == r[i] {
      assert Oks<BinarySection, Error>(bs)[i] == Ok(bs[i]);
    }
  }

  /** The pending section, if any. */
  function PendingSections(description: Option<seq<u8>>, data: seq<u8>): seq<FastaSection>
  {
    if description.Some? then [New(description.value, data)] else []
  }

  /** What `FastaData::read` returns for `lines` with the header
      `description` pending and `data` gathered since it: a header line
      pushes the pending section and starts a new one; any other line, with
      trailing newlines trimmed, is added to the data; the first error ends
      the read; at the end the pending section is pushed. */
  function ReadLines(lines: seq<Result<seq<u8>, Error>>, description: Option<seq<u8>>, data: seq<u8>)
    : Result<seq<FastaSection>, Error>
    decreases |lines|
  {
    if lines == [] then Ok(PendingSections(description, data))
    else match lines[0]
      case Err(e) => Err(e)
      case Ok(line) =>
        if IsHeader(line) then Prepend(PendingSections(description, data), ReadLines(lines[1..], Some(line), []))
        else ReadLines(lines[1..], description, data + TrimEnd(line, NL))
  }

  /** `FastaData::read` over the file's lines. */
  method Read(lines: seq<Result<seq<u8>, Error>>) returns (r: Result<seq<FastaSection>, Error>)
    ensures r == ReadLines(lines, None, [])
  {
    var sections: seq<FastaSection> := [];
    var description: Option<seq<u8>> := None;
    var data: seq<u8> := [];
    assert lines[0..] == lines;
    assert Prepend([], ReadLines(lines, None, [])) == ReadLines(lines, None, []);
    for i := 0 to |lines|
      invariant Prepend(sections, ReadLines(lines[i..], description, data)) == ReadLines(lines, None, [])
    {
      assert lines[i..][1..] == lines[i + 1..];
      match lines[i]
      case Err(e) =>
        return Err(e);
      case Ok(line) =>
        if |line| > 0 && line[0] == GT {
          PrependPrepend(sections, PendingSections(description, data), ReadLines(lines[i + 1..], Some(line), []));
          if description.Some? {
            sections := sections + [New(description.value, data)];
          } else {
            assert sections + [] == sections;
          }
          description := Some(line);
          data := [];
        } else {
          data := data + TrimEnd(line, NL);
        }
    }
    if description.Some? {
      sections := sections + [New(description.value, data)];
    } else {
      assert sections + [] == sections;
    }
    return Ok(sections);
  }

  /** `FastaData::read` on a file: the grouping over its lines; unlike the
      streaming reader it does not look at the first byte. */
  function ReadText(file: seq<u8>): Result<seq<FastaSection>, Error>
  {
    ReadLines(LinesOf(file), None, [])
  }

  /** No line ends in a carriage return or a newline. */
  predicate Untrimmed(lines: seq<Result<seq<u8>, Error>>)
  {
    forall i :: 0 <= i < |lines| && lines[i].Ok? ==>
      DropCR(lines[i].value) == lines[i].value && TrimEnd(lines[i].value, NL) == lines[i].value
  }

  /** The two readers agree on lines that end in neither a carriage return
      nor a newline: the whole-file reader returns the sections the
      streaming reader yields, or the first error among them. */
  lemma {:induction false} ReadersAgree(lines: seq<Result<seq<u8>, Error>>, description: Option<seq<u8>>, data: seq<u8>)
    requires Untrimmed(lines)
    ensures ReadLines(lines, description, data) == Collect(Group(lines, description, data))
    decreases |lines|
  {
    var pending := PendingSections(description, data);
    assert Pending(description, data) == Oks(pending);
    if lines == [] {
      CollectOks<FastaSection, Error>(pending);
    } else {
      var rest := lines[1..];
      assert Untrimmed(rest) by {
        forall i | 0 <= i < |rest| && rest[i].Ok?
          ensures DropCR(rest[i].value) == rest[i].value && TrimEnd(rest[i].value, NL) == rest[i].value
        {
          assert rest[i] == lines[i + 1];
        }
      }
      match lines[0]
      case Err(e) =>
        assert Group(lines, description, data)[0] == Err(e);
      case Ok(line) =>
        if IsHeader(line) {
          ReadersAgree(rest, Some(line), []);
          CollectPrepend(pending, Group(rest, Some(line), []));
        } else {
          ReadersAgree(rest, description, data + line);
        }
    }
  }

  /** With no header line and no error, the read gives no section. */
  lemma {:induction false} NoHeaderNoSections(lines: seq<Result<seq<u8>, Error>>, data: seq<u8>)
    requires forall i :: 0 <= i < |lines| ==> lines[i].Ok? && !IsHeader(lines[i].value)
    ensures ReadLines(lines, None, data) == Ok([])
    decreases |lines|
  {
    if lines != [] {
      assert lines[0].Ok? && !IsHeader(lines[0].value);
      NoHeaderNoSections(lines[1..], data + TrimEnd(lines[0].value, NL));
    }
  }

  /** Line splitting already removes the `\r` of a `\r\n` ending, so a
      carriage return reaches this reader only at the end of a last line
      without a newline (as here) or from a `\r\r\n` ending; this reader
      keeps it and the streaming one drops it. */
  lemma CarriageReturnKept()
    ensures ReadLines([Ok([GT]), Ok([A, CR])], None, []) == Ok([FastaSection([], [A, CR])])
    ensures Group([Ok([GT]), Ok([A, CR])], None, []) == [Ok(FastaSection([], [A]))]
  {
    var lines: seq<Result<seq<u8>, Error>> := [Ok([GT]), Ok([A, CR])];
    var header: seq<u8> := [GT];
    var last: seq<Result<seq<u8>, Error>> := [Ok([A, CR])];
    assert lines[1..] == last && last[1..] == [];
    NewOfHeader([], [A, CR]);
    NewOfHeader([], [A]);
    assert header + [] == header;
    assert DropCR(header) == header && IsHeader(header);
    assert TrimEnd([A, CR], NL) == [A, CR];
    assert DropCR([A, CR]) == [A] && !IsHeader([A, CR]) && !IsHeader([A]);
    assert New(header, [A, CR]) == FastaSection([], [A, CR]) && New(header, [A]) == FastaSection([], [A]);
    assert [] + [A, CR] == [A, CR] && [] + [A] == [A];
    assert ReadLines(last, Some(header), []) == ReadLines([], Some(header), [A, CR]);
    assert ReadLines(last, Some(header), []) == Ok([FastaSection([], [A, CR])]);
    assert ReadLines(lines, None, []) == Prepend([], ReadLines(last, Some(header), []));
    assert Group(last, Some(header), []) == Group([], Some(header), [A]);
    assert Group(last, Some(header), []) == [Ok(FastaSection([], [A]))];
    assert Group(lines, None, []) == [] + Group(last, Some(header), []);
  }

  /** Text round trip: sections written by this driver read back as the
      same sections, and an empty file as no section at all. */
  lemma ReadWritten(ss: seq<FastaSection>)
    requires forall i :: 0 <= i < |ss| ==> Rereadable(ss[i])
    ensures ReadText(WriteText(ss)) == Ok(ss)
  {
    var lines := Oks<seq<u8>, Error>(FileLines(ss));
    assert LinesOf(WriteText(ss)) == lines by {
      WriteTextLines(ss);
      FileLinesPlain(ss);
      LinesOfTerminated(FileLines(ss));
    }
    WrittenLinesUntrimmed(ss);
    ReadersAgree(lines, None, []);
    assert Group(lines, None, []) == Oks(ss) by {
      GroupFile(ss, None, []);
      assert Pending(None, []) == [];
      assert [] + Oks<FastaSection, Error>(ss) == Oks(ss);
    }
    CollectOks<FastaSection, Error>(ss);
  }

  /** No line of written sections ends in a carriage return or a newline. */
  lemma WrittenLinesUntrimmed(ss: seq<FastaSection>)
    requires forall i :: 0 <= i < |ss| ==> Rereadable(ss[i])
    ensures Untrimmed(Oks(FileLines(ss)))
  {
    FileLinesPlain(ss);
    var lines := Oks<seq<u8>, Error>(FileLines(ss));
    forall i | 0 <= i < |lines| && lines[i].Ok?
      ensures DropCR(lines[i].value) == lines[i].value && TrimEnd(lines[i].value, NL) == lines[i].value
    {
      var l := FileLines(ss)[i];
      assert PlainLine(l);
    }
  }

  /** Writing from section i on: its text and a newline, then the rest. */
  lemma WriteTextFrom(ss: seq<FastaSection>, i: nat)
    requires i < |ss|
    ensures WriteText(ss[i..]) == SectionText(ss[i]) + [NL] + WriteText(ss[i + 1..])
  {
    assert ss[i..][1..] == ss[i + 1..];
  }

  /** `FastaData::write`: each section's text followed by a newline. */
  method Write(sections: seq<FastaSection>) returns (sink: seq<u8>)
    ensures sink == WriteText(sections)
  {
    sink := [];
    for i := 0 to |sections|
      invariant sink + WriteText(sections[i..]) == WriteText(sections)
    {
      WriteTextFrom(sections, i);
      var bytes := ConvertToBytes(sections[i]);
      ghost var before := sink;
      sink := sink + bytes + [NL];
      SinkStep(before, bytes, WriteText(sections[i + 1..]));
    }
    assert sections[|sections|..] == [];
    assert sink + [] == sink;
  }
}
