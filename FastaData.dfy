/** The streaming FASTA driver: the header check on the first byte, the
    line-grouping reader (a pending header and the data gathered since
    it), decoding a stream of binary sections, and writing sections until
    the first error. */
module FastaData {
  import opened Base
  import opened Codec
  import opened Sections
  import opened FastaSections

  // ---------------------------------------------------------------------
  // Conversion

  /** Whether every section of the stream can be decoded (the source
      overflows negating `i32::MIN`). */
  predicate Decodable(items: seq<Result<BinarySection, Error>>)
  {
    forall i :: 0 <= i < |items| && items[i].Ok? ==> items[i].value.sequenceLength != I32_MIN
  }

  /** `fasta_data::from_basta`: each section decoded, each error passed on
      unchanged. */
  function FromBastaStream(items: seq<Result<BinarySection, Error>>): (r: seq<Result<FastaSection, Error>>)
    requires Decodable(items)
    ensures |r| == |items|
    ensures forall i :: 0 <= i < |items| && items[i].Err? ==> r[i] == Err(items[i].error)
    ensures forall i :: 0 <= i < |items| && items[i].Ok? ==>
      r[i] == Ok(FromBasta(items[i].value))
  {
    seq(|items|, i requires 0 <= i < |items| =>
      match items[i]
      case Ok(b) => Ok(FromBasta(b))
      case Err(e) => Err(e))
  }

  // ---------------------------------------------------------------------
  // The file and its lines

  /** `validate_fasta` on the file's contents: an empty file is
      `UnexpectedEof`, and a first byte other than `>` is a malformed
      header. */
  function ValidateFasta(path: string, file: seq<u8>): (r: Result<(), Error>)
    ensures r.Ok? <==> file != [] && file[0] == GT
    ensures file == [] ==> r == Err(UnexpectedEof)
    ensures file != [] && file[0] != GT ==> r == Err(MalformedFastaHeader(path))
  {
    if file == [] then Err(UnexpectedEof)
    else if file[0] != GT then Err(MalformedFastaHeader(path))
    else Ok(())
  }

  /** The index of the first newline, or the length when there is none. */
  function LineEnd(b: seq<u8>): (k: nat)
    ensures k <= |b|
    ensures k < |b| ==> b[k] == NL
    ensures forall j :: 0 <= j < k ==> b[j] != NL
    decreases |b|
  {
    if b == [] || b[0] == NL then 0 else 1 + LineEnd(b[1..])
  }

  /** A line without the carriage return of a `\r\n` ending. */
  function DropCR(l: seq<u8>): (r: seq<u8>)
  {
    if l != [] && l[|l| - 1] == CR then l[..|l| - 1] else l
  }

  const INVALID_UTF8: string := "stream did not contain valid UTF-8"

  /** `BufRead::lines`: the file split after each newline. A line ended by a
      newline loses it and a carriage return just before it; a last line
      with no newline is kept as it is; a line that is not UTF-8 is an
      error, and reading goes on after it. */
  function LinesOf(b: seq<u8>): seq<Result<seq<u8>, Error>>
    decreases |b|
  {
    if b == [] then []
    else
      var k := LineEnd(b);
      var line := if k == |b| then b else DropCR(b[..k]);
      var item := if IsUtf8(b[..k]) then Ok(line) else Err(Io(INVALID_UTF8));
      if k == |b| then [item] else [item] + LinesOf(b[k + 1..])
  }

  // ---------------------------------------------------------------------
  // Grouping lines into sections

  predicate IsHeader(line: seq<u8>) { line != [] && line[0] == GT }

  /** The pending section, if any, as the item it is emitted as. */
  function Pending(description: Option<seq<u8>>, data: seq<u8>): seq<Result<FastaSection, Error>>
  {
    if description.Some? then [Ok(New(description.value, data))] else []
  }

  /** What the reader yields from `lines` with the header `description`
      pending and `data` gathered since it: a header line emits the pending
      section and becomes the new pending header; any other line is added
      to the data; an error is emitted and reading goes on; at the end the
      pending section is emitted. Lines before the first header are
      dropped. */
  function Group(lines: seq<Result<seq<u8>, Error>>, description: Option<seq<u8>>, data: seq<u8>)
    : seq<Result<FastaSection, Error>>
    decreases |lines|
  {
    if lines == [] then Pending(description, data)
    else match lines[0]
      case Err(e) => [Err(e)] + Group(lines[1..], description, data)
      case Ok(raw) =>
        var line := DropCR(raw);
        if IsHeader(line) then Pending(description, data) + Group(lines[1..], Some(line), [])
        else Group(lines[1..], description, data + line)
  }

  /** The iterator `fasta_data::read` returns once the header check has
      passed: the lines, how many have been consumed, the pending header
      and the data gathered since it. */
  class FastaReader {
    const lines: seq<Result<seq<u8>, Error>>
    var pos: nat
    var description: Option<seq<u8>>
    var data: seq<u8>

    ghost predicate Valid()
      reads this
    {
      pos <= |lines|
    }

    /** Everything the reader has still to yield. */
    ghost function Rest(): seq<Result<FastaSection, Error>>
      reads this
      requires Valid()
    {
      Group(lines[pos..], description, data)
    }

    constructor (lines: seq<Result<seq<u8>, Error>>)
      ensures Valid() && this.lines == lines
      ensures Rest() == Group(lines, None, [])
    {
      this.lines := lines;
      pos := 0;
      description := None;
      data := [];
      new;
      assert lines[0..] == lines;
    }

    /** One step: read lines until a section is complete or an error comes,
      and at the end emit the pending section once. */
    method Next() returns (item: Option<Result<FastaSection, Error>>)
      requires Valid()
      modifies this
      ensures Valid()
      ensures item.None? <==> old(Rest()) == []
      ensures old(Rest()) == (if item.Some? then [item.value] else []) + Rest()
    {
      while pos < |lines|
        invariant Valid()
        invariant Rest() == old(Rest())
        decreases |lines| - pos
      {
        var lineResult := lines[pos];
        ghost var here := lines[pos..];
        assert here[0] == lineResult && here[1..] == lines[pos + 1..];
        pos := pos + 1;
        match lineResult
        case Err(e) =>
          return Some(Err(e));
        case Ok(raw) =>
          var line := raw;
          if |line| > 0 && line[|line| - 1] == CR {
            line := line[..|line| - 1];
          }
          assert line == DropCR(raw);
          if |line| > 0 && line[0] == GT {
            assert Group(here, description, data)
                == Pending(description, data) + Group(lines[pos..], Some(line), []);
            var previous := description;
            description := Some(line);
            if previous.Some? {
              var section := New(previous.value, data);
              data := [];
              return Some(Ok(section));
            } else {
              data := [];
            }
          } else {
            assert Group(here, description, data) == Group(lines[pos..], description, data + line);
            data := data + line;
          }
      }
      if description.Some? {
        var d := description.value;
        description := None;
        return Some(Ok(New(d, data)));
      }
      return None;
    }
  }

  /** `fasta_data::read` on a file: the header check, then the reader over
      the file's lines. */
  function Read(path: string, file: seq<u8>): (r: Result<seq<Result<FastaSection, Error>>, Error>)
    ensures r.Err? <==> ValidateFasta(path, file).Err?
  {
    var valid := ValidateFasta(path, file);
    if valid.Err? then Err(valid.error) else Ok(Group(LinesOf(file), None, []))
  }

  // ---------------------------------------------------------------------
  // Properties of the grouping

  function CountOk<T>(items: seq<Result<T, Error>>): nat
    decreases |items|
  {
    if items == [] then 0 else (if items[0].Ok? then 1 else 0) + CountOk(items[1..])
  }

  /** The number of header lines. */
  function CountHeaders(lines: seq<Result<seq<u8>, Error>>): nat
    decreases |lines|
  {
    if lines == [] then 0
    else (if lines[0].Ok? && IsHeader(DropCR(lines[0].value)) then 1 else 0) + CountHeaders(lines[1..])
  }

  lemma {:induction false} CountOkAppend<T>(a: seq<Result<T, Error>>, b: seq<Result<T, Error>>)
    ensures CountOk(a + b) == CountOk(a) + CountOk(b)
    decreases |a|
  {
    if a == [] {
      assert a + b == b;
    } else {
      assert (a + b)[1..] == a[1..] + b;
      CountOkAppend(a[1..], b);
    }
  }

  /** One section per header line (and one for a pending header), and one
      error per error line: no header line means no section. */
  lemma {:induction false} GroupCounts(lines: seq<Result<seq<u8>, Error>>, description: Option<seq<u8>>, data: seq<u8>)
    ensures CountOk(Group(lines, description, data)) == CountHeaders(lines) + (if description.Some? then 1 else 0)
    ensures |Group(lines, description, data)| - CountOk(Group(lines, description, data)) == |lines| - CountOk(lines)
    decreases |lines|
  {
    if lines != [] {
      var rest := lines[1..];
      match lines[0]
      case Err(e) =>
        GroupCounts(rest, description, data);
        CountOkAppend([Err(e)], Group(rest, description, data));
      case Ok(raw) =>
        var line := DropCR(raw);
        if IsHeader(line) {
          GroupCounts(rest, Some(line), []);
          CountOkAppend(Pending(description, data), Group(rest, Some(line), []));
        } else {
          GroupCounts(rest, description, data + line);
        }
    }
  }

  /** Data lines before the first header are dropped: with no header
      pending, what was gathered makes no difference. */
  lemma {:induction false} LeadingDataDropped(lines: seq<Result<seq<u8>, Error>>, data: seq<u8>)
    ensures Group(lines, None, data) == Group(lines, None, [])
    decreases |lines|
  {
    if lines != [] && lines[0].Ok? && !IsHeader(DropCR(lines[0].value)) {
      LeadingDataDropped(lines[1..], data + DropCR(lines[0].value));
      LeadingDataDropped(lines[1..], [] + DropCR(lines[0].value));
    } else if lines != [] && lines[0].Err? {
      LeadingDataDropped(lines[1..], data);
    }
  }

  // ---------------------------------------------------------------------
  // Writing

  /** What `write` puts in the file, and what it returns: the text of the
      sections up to the first error, each followed by a newline, and that
      error. */
  function Written(items: seq<Result<FastaSection, Error>>): (seq<u8>, Result<(), Error>)
    decreases |items|
  {
    if items == [] then ([], Ok(()))
    else if items[0].Err? then ([], Err(items[0].error))
    else
      var rest := Written(items[1..]);
      (SectionText(items[0].value) + [NL] + rest.0, rest.1)
  }

  /** `fasta_data::write`: each section's text and a newline, in order,
      stopping at the first error, which is returned. */
  method Write(items: seq<Result<FastaSection, Error>>) returns (sink: seq<u8>, r: Result<(), Error>)
    ensures (sink, r) == Written(items)
  {
    sink := [];
    for i := 0 to |items|
      invariant sink + Written(items[i..]).0 == Written(items).0
      invariant Written(items[i..]).1 == Written(items).1
    {
      assert items[i..][1..] == items[i + 1..];
      match items[i]
      case Err(e) =>
        assert sink == Written(items).0;
        return sink, Err(e);
      case Ok(section) =>
        var sectionBytes := ConvertToBytes(section);
        ghost var before := sink;
        sink := sink + sectionBytes + [NL];
        WrittenFrom(items, i);
        SinkStep(before, sectionBytes, Written(items[i + 1..]).0);
    }
    assert items[|items|..] == [];
    assert sink == Written(items).0 && Written(items).1 == Ok(());
    return sink, Ok(());
  }

  /** Writing from an `Ok` item on: its text and a newline, then the rest. */
  lemma WrittenFrom(items: seq<Result<FastaSection, Error>>, i: nat)
    requires i < |items| && items[i].Ok?
    ensures Written(items[i..]).0 == SectionText(items[i].value) + [NL] + Written(items[i + 1..]).0
    ensures Written(items[i..]).1 == Written(items[i + 1..]).1
  {
    assert items[i..][1..] == items[i + 1..];
  }

  lemma SinkStep(before: seq<u8>, bytes: seq<u8>, rest: seq<u8>)
    ensures before + (bytes + [NL] + rest) == (before + bytes + [NL]) + rest
  {
  }

  /** The text of sections written with no error. */
  function WriteText(ss: seq<FastaSection>): seq<u8>
    decreases |ss|
  {
    if ss == [] then [] else SectionText(ss[0]) + [NL] + WriteText(ss[1..])
  }

  /** With no error in the stream, the file is every section's text, each
      followed by a newline; at the first error the writer stops. */
  lemma {:induction false} WrittenText(ss: seq<FastaSection>, tail: seq<Result<FastaSection, Error>>)
    ensures Written(Oks(ss)) == (WriteText(ss), Ok(()))
    ensures forall e :: Written(Oks(ss) + [Err(e)] + tail) == (WriteText(ss), Err(e))
    decreases |ss|
  {
    if ss != [] {
      assert Oks<FastaSection, Error>(ss)[1..] == Oks(ss[1..]);
      WrittenText(ss[1..], tail);
      forall e
        ensures Written(Oks(ss) + [Err(e)] + tail) == (WriteText(ss), Err(e))
      {
        assert (Oks<FastaSection, Error>(ss) + [Err(e)] + tail)[1..] == Oks(ss[1..]) + [Err(e)] + tail;
      }
    } else {
      forall e
        ensures Written(Oks(ss) + [Err(e)] + tail) == (WriteText(ss), Err(e))
      {
        assert (Oks<FastaSection, Error>(ss) + [Err(e)] + tail)[0] == Err(e);
      }
    }
  }

  // ---------------------------------------------------------------------
  // Reading back what was written

  /** A section that survives being written and read back: a clean UTF-8
      descriptor with no newline and no final carriage return, and a
      nucleotide sequence. */
  predicate Rereadable(f: FastaSection)
  {
    IsUtf8(f.descriptor) && CleanDescriptor(f.descriptor) &&
    (forall i :: 0 <= i < |f.descriptor| ==> f.descriptor[i] != NL) &&
    (f.descriptor == [] || f.descriptor[|f.descriptor| - 1] != CR) &&
    IsNucleotideString(f.sequence)
  }

  /** The lines of the written text: each header, then the sequence's chunks. */
  function FileLines(ss: seq<FastaSection>): seq<seq<u8>>
    decreases |ss|
  {
    if ss == [] then [] else [[GT] + ss[0].descriptor] + Chunks(ss[0].sequence) + FileLines(ss[1..])
  }

  lemma {:induction false} WriteTextLines(ss: seq<FastaSection>)
    ensures WriteText(ss) == Terminated(FileLines(ss))
    decreases |ss|
  {
    if ss != [] {
      var f := ss[0];
      var h: seq<u8> := [GT] + f.descriptor;
      var header: seq<seq<u8>> := [h];
      WriteTextLines(ss[1..]);
      WrapChunks(f.sequence);
      TerminatedAppend(header + Chunks(f.sequence), FileLines(ss[1..]));
      TerminatedAppend(header, Chunks(f.sequence));
      assert header[1..] == [];
      assert Terminated(header) == h + [NL];
    }
  }

  /** A line `LinesOf` gives back unchanged. */
  predicate PlainLine(l: seq<u8>)
  {
    (forall i :: 0 <= i < |l| ==> l[i] != NL) && (l == [] || l[|l| - 1] != CR) && IsUtf8(l)
  }

  /** Splitting lines each followed by a newline gives those lines back. */
  lemma {:induction false} LinesOfTerminated(ls: seq<seq<u8>>)
    requires forall k :: 0 <= k < |ls| ==> PlainLine(ls[k])
    ensures LinesOf(Terminated(ls)) == Oks(ls)
    decreases |ls|
  {
    if ls != [] {
      var l := ls[0];
      var b := Terminated(ls);
      assert b == l + [NL] + Terminated(ls[1..]);
      var k := LineEnd(b);
      assert b[|l|] == NL;
      assert k == |l|;
      assert b[..k] == l;
      assert b[k + 1..] == Terminated(ls[1..]);
      LinesOfTerminated(ls[1..]);
      assert Oks<seq<u8>, Error>(ls) == [Ok(l)] + Oks(ls[1..]);
    }
  }

  /** Lines that are not headers are gathered, with nothing between them,
      into the pending section's data. */
  lemma {:induction false} GroupData(chunks: seq<seq<u8>>, more: seq<Result<seq<u8>, Error>>,
                                     description: Option<seq<u8>>, data: seq<u8>)
    requires forall k :: 0 <= k < |chunks| ==> DropCR(chunks[k]) == chunks[k] && !IsHeader(chunks[k])
    ensures Group(Oks(chunks) + more, description, data) == Group(more, description, data + Concat(chunks))
    decreases |chunks|
  {
    if chunks == [] {
      assert Oks<seq<u8>, Error>(chunks) + more == more;
      assert data + Concat(chunks) == data;
    } else {
      var lines := Oks<seq<u8>, Error>(chunks) + more;
      OksFront(chunks, more);
      assert Group(lines, description, data) == Group(lines[1..], description, data + chunks[0]) by {
        GroupPlainLine(lines, description, data);
      }
      var tail := chunks[1..];
      assert forall k :: 0 <= k < |tail| ==> DropCR(tail[k]) == tail[k] && !IsHeader(tail[k]) by {
        forall k | 0 <= k < |tail| ensures DropCR(tail[k]) == tail[k] && !IsHeader(tail[k]) {
          assert tail[k] == chunks[k + 1];
        }
      }
      GroupData(tail, more, description, data + chunks[0]);
      assert data + chunks[0] + Concat(tail) == data + Concat(chunks) by {
        assert Concat(chunks) == chunks[0] + Concat(tail);
      }
    }
  }

  /** A line that is not a header is added to the pending data. */
  lemma GroupPlainLine(lines: seq<Result<seq<u8>, Error>>, description: Option<seq<u8>>, data: seq<u8>)
    requires lines != [] && lines[0].Ok?
    requires DropCR(lines[0].value) == lines[0].value && !IsHeader(lines[0].value)
    ensures Group(lines, description, data) == Group(lines[1..], description, data + lines[0].value)
  {
  }

  lemma OksFront(xs: seq<seq<u8>>, more: seq<Result<seq<u8>, Error>>)
    requires xs != []
    ensures (Oks<seq<u8>, Error>(xs) + more)[0] == Ok(xs[0])
    ensures (Oks<seq<u8>, Error>(xs) + more)[1..] == Oks(xs[1..]) + more
  {
    OksCons<seq<u8>, Error>(xs);
  }

  /** A header line emits what was pending and starts a section of its own. */
  lemma GroupHeader(h: seq<u8>, chunks: seq<seq<u8>>, more: seq<Result<seq<u8>, Error>>,
                    description: Option<seq<u8>>, data: seq<u8>)
    requires DropCR(h) == h && IsHeader(h)
    ensures Group(Oks([h] + chunks) + more, description, data)
         == Pending(description, data) + Group(Oks(chunks) + more, Some(h), [])
  {
    OksAppend<seq<u8>, Error>([h], chunks);
    OksFront([h] + chunks, more);
    assert ([h] + chunks)[1..] == chunks;
  }

  /** The chunks of a nucleotide sequence are plain data lines. */
  lemma ChunkLines(s: seq<u8>)
    requires IsNucleotideString(s)
    ensures forall k :: 0 <= k < |Chunks(s)| ==>
      DropCR(Chunks(s)[k]) == Chunks(s)[k] && !IsHeader(Chunks(s)[k]) && PlainLine(Chunks(s)[k])
  {
    WrapChunks(s);
    forall k | 0 <= k < |Chunks(s)|
      ensures DropCR(Chunks(s)[k]) == Chunks(s)[k] && !IsHeader(Chunks(s)[k]) && PlainLine(Chunks(s)[k])
    {
      var c := Chunks(s)[k];
      assert forall i :: 0 <= i < |c| ==> IsNucleotide(c[i]) by {
        forall i | 0 <= i < |c| ensures IsNucleotide(c[i]) {
          assert c[i] in s;
        }
      }
      assert IsAscii(c);
      AsciiIsUtf8(c);
    }
  }

  /** The lines of one written section close what was pending and leave
      the section pending with its whole sequence. */
  lemma GroupSection(f: FastaSection, more: seq<Result<seq<u8>, Error>>, description: Option<seq<u8>>, data: seq<u8>)
    requires Rereadable(f)
    ensures Group(Oks([[GT] + f.descriptor] + Chunks(f.sequence)) + more, description, data)
         == Pending(description, data) + Group(more, Some([GT] + f.descriptor), f.sequence)
    ensures Pending(Some([GT] + f.descriptor), f.sequence) == [Ok(f)]
  {
    var h: seq<u8> := [GT] + f.descriptor;
    var chunks := Chunks(f.sequence);
    assert DropCR(h) == h && IsHeader(h);
    GroupHeader(h, chunks, more, description, data);
    ChunkLines(f.sequence);
    GroupData(chunks, more, Some(h), []);
    WrapChunks(f.sequence);
    assert [] + Concat(chunks) == f.sequence;
    NewOfHeader(f.descriptor, f.sequence);
  }

  /** Grouping the lines of written sections emits what was pending, then
      the sections themselves. */
  lemma {:induction false} GroupFile(ss: seq<FastaSection>, description: Option<seq<u8>>, data: seq<u8>)
    requires forall i :: 0 <= i < |ss| ==> Rereadable(ss[i])
    ensures Group(Oks(FileLines(ss)), description, data) == Pending(description, data) + Oks(ss)
    decreases |ss|
  {
    if ss == [] {
      assert Oks<seq<u8>, Error>([]) == [];
    } else {
      var f := ss[0];
      var h: seq<u8> := [GT] + f.descriptor;
      var more := Oks<seq<u8>, Error>(FileLines(ss[1..]));
      assert Oks<seq<u8>, Error>(FileLines(ss)) == Oks([h] + Chunks(f.sequence)) + more by {
        assert FileLines(ss) == [h] + Chunks(f.sequence) + FileLines(ss[1..]);
        OksAppend<seq<u8>, Error>([h] + Chunks(f.sequence), FileLines(ss[1..]));
      }
      GroupSection(f, more, description, data);
      RereadableTail(ss);
      GroupFile(ss[1..], Some(h), f.sequence);
      OksCons<FastaSection, Error>(ss);
      calc {
        Group(Oks(FileLines(ss)), description, data);
        Pending(description, data) + Group(more, Some(h), f.sequence);
        Pending(description, data) + ([Ok(f)] + Oks(ss[1..]));
        Pending(description, data) + Oks(ss);
      }
    }
  }

  lemma RereadableTail(ss: seq<FastaSection>)
    requires ss != [] && forall i :: 0 <= i < |ss| ==> Rereadable(ss[i])
    ensures forall i :: 0 <= i < |ss[1..]| ==> Rereadable(ss[1..][i])
  {
    forall i | 0 <= i < |ss[1..]| ensures Rereadable(ss[1..][i]) {
      assert ss[1..][i] == ss[i + 1];
    }
  }

  /** The lines of written sections are plain. */
  lemma {:induction false} FileLinesPlain(ss: seq<FastaSection>)
    requires forall i :: 0 <= i < |ss| ==> Rereadable(ss[i])
    ensures forall k :: 0 <= k < |FileLines(ss)| ==> PlainLine(FileLines(ss)[k])
    decreases |ss|
  {
    if ss != [] {
      var f := ss[0];
      var h: seq<u8> := [GT] + f.descriptor;
      FileLinesPlain(ss[1..]);
      ChunkLines(f.sequence);
      AsciiIsUtf8([GT]);
      Utf8Concat([GT], f.descriptor);
      assert PlainLine(h);
      var ls := FileLines(ss);
      forall k | 0 <= k < |ls| ensures PlainLine(ls[k]) {
        if k == 0 {
        } else if k <= |Chunks(f.sequence)| {
          assert ls[k] == Chunks(f.sequence)[k - 1];
        } else {
          assert ls[k] == FileLines(ss[1..])[k - 1 - |Chunks(f.sequence)|];
        }
      }
    }
  }

  /** Text round trip: sections written with no error read back as the same
      sections, in order; with no section the file is empty and is rejected
      as `UnexpectedEof`. */
  lemma ReadWritten(path: string, ss: seq<FastaSection>)
    requires forall i :: 0 <= i < |ss| ==> Rereadable(ss[i])
    ensures Written(Oks(ss)).1 == Ok(())
    ensures Read(path, Written(Oks(ss)).0) == if ss == [] then Err(UnexpectedEof) else Ok(Oks(ss))
  {
    WrittenText(ss, []);
    var file := WriteText(ss);
    WriteTextLines(ss);
    FileLinesPlain(ss);
    LinesOfTerminated(FileLines(ss));
    assert LinesOf(file) == Oks(FileLines(ss));
    GroupFile(ss, None, []);
    assert Pending(None, []) == [];
    assert Group(LinesOf(file), None, []) == Oks(ss);
    if ss != [] {
      assert file[0] == GT;
    }
  }
}
