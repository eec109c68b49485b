/** The streaming binary driver: converting a stream of FASTA sections,
    reading frames from a byte source one per step, and writing sections
    until the first error. */
module BastaData {
  import opened Base
  import opened Sections
  import opened BinarySections
  import opened Frames
  import opened Codec
  import FastaSections

  // ---------------------------------------------------------------------
  // Conversion

  /** Whether every section of the stream can be converted (the source
      panics on a section it cannot). */
  predicate Encodable(items: seq<Result<FastaSection, Error>>)
  {
    forall i :: 0 <= i < |items| && items[i].Ok? ==> FromFasta(items[i].value).Some?
  }

  /** `binary_fasta_data::from_fasta`: item by item, a section is converted
      and an error of any kind becomes `UnexpectedEof`. */
  function FromFastaStream(items: seq<Result<FastaSection, Error>>): (r: seq<Result<BinarySection, Error>>)
    requires Encodable(items)
    ensures |r| == |items|
    ensures forall i :: 0 <= i < |items| ==> (r[i].Ok? <==> items[i].Ok?)
    ensures forall i :: 0 <= i < |items| && items[i].Err? ==> r[i] == Err(UnexpectedEof)
    ensures forall i :: 0 <= i < |items| && items[i].Ok? ==>
      r[i].value.descriptor == items[i].value.descriptor &&
      r[i].value.sequence == Pack(items[i].value.sequence) &&
      Abs(r[i].value.sequenceLength) == |items[i].value.sequence| &&
      (r[i].value.sequenceLength < 0 <==> !FastaSections.IsDna(items[i].value.sequence))
  {
    seq(|items|, i requires 0 <= i < |items| =>
      match items[i]
      case Ok(f) => Ok(FromFasta(f).value)
      case Err(_) => Err(UnexpectedEof))
  }

  // ---------------------------------------------------------------------
  // Reading

  /** What the reader yields from `b`: nothing when no byte is left,
      otherwise the outcome of one frame and then what follows it. An error
      does not end the stream. The source reads frames with the packed byte
      count as written (`asWritten`); the intended reader is the other. */
  function DecodeStream(b: seq<u8>, asWritten: bool): (r: seq<Result<BinarySection, Error>>)
    ensures b == [] <==> r == []
    ensures b != [] ==> r[0] == ParseFrameWith(b, asWritten).result
    decreases |b|
  {
    if b == [] then [] else
      var p := ParseFrameWith(b, asWritten);
      [p.result] + DecodeStream(b[p.consumed..], asWritten)
  }

  /** The iterator `binary_fasta_data::read` returns: a cursor over the
      file's bytes. */
  class SectionReader {
    const cursor: ByteCursor

    ghost predicate Valid()
      reads this, cursor
    {
      cursor.Valid()
    }

    /** Everything the reader has still to yield. */
    ghost function Rest(): seq<Result<BinarySection, Error>>
      reads this, cursor
      requires Valid()
    {
      DecodeStream(cursor.Remaining(), true)
    }

    constructor (data: seq<u8>)
      ensures Valid() && fresh(cursor)
      ensures Rest() == DecodeStream(data, true)
    {
      cursor := new ByteCursor(data);
      new;
      assert cursor.Remaining() == data;
    }

    /** One step: the end when no byte remains, otherwise exactly one frame,
        read with the source's packed byte count. */
    method Next() returns (item: Option<Result<BinarySection, Error>>)
      requires Valid()
      modifies cursor
      ensures Valid()
      ensures item.None? <==> old(Rest()) == []
      ensures old(Rest()) == (if item.Some? then [item.value] else []) + Rest()
    {
      var more := cursor.HasNext();
      if more {
        ghost var b := cursor.Remaining();
        ghost var start := cursor.pos;
        var section := FromBytes(cursor, true);
        assert cursor.Remaining() == b[cursor.pos - start..];
        item := Some(section);
      } else {
        item := None;
      }
    }
  }

  /** Stream round trip: the frames of well-formed sections, one after the
      other, read back as those sections in order, and then the stream ends.
      The intended reader does so for every section; the source's only when
      every count is above -4 (no RNA section of four or more symbols). */
  lemma {:induction false} DecodeEncoded(ss: seq<BinarySection>, asWritten: bool)
    requires AllWellFormed(ss)
    requires asWritten ==> forall i :: 0 <= i < |ss| ==> ss[i].sequenceLength > -4
    ensures DecodeStream(EncodeAll(ss), asWritten) == Oks(ss)
    decreases |ss|
  {
    if ss != [] {
      assert WellFormed(ss[0]) && AllWellFormed(ss[1..]) by {
        assert forall i :: 0 <= i < |ss[1..]| ==> ss[1..][i] == ss[i + 1];
      }
      var frame := FrameBytes(ss[0]);
      var rest := EncodeAll(ss[1..]);
      assert EncodeAll(ss) == frame + rest;
      assert asWritten ==> forall i :: 0 <= i < |ss[1..]| ==> ss[1..][i].sequenceLength > -4 by {
        assert forall i :: 0 <= i < |ss[1..]| ==> ss[1..][i] == ss[i + 1];
      }
      DecodeEncoded(ss[1..], asWritten);
      FrameRoundTripWith(ss[0], rest, asWritten);
      assert (frame + rest)[|frame|..] == rest;
      assert DecodeStream(frame + rest, asWritten) == [Ok(ss[0])] + DecodeStream(rest, asWritten);
      OksCons<BinarySection, Error>(ss);
    }
  }

  /** Finding, for the stream: a file holding the RNA section "ACGU" and
      then anything shorter than 2^64 - 2 bytes makes the source's reader
      yield one `UnexpectedEof` and end, as the whole rest is taken for
      that frame's packed bytes; the intended reader yields the section and
      goes on with what follows. */
  lemma {:induction false} RnaStreamMiscount(rest: seq<u8>)
    requires |rest| < USIZE_MODULUS - 2
    ensures DecodeStream(FrameBytes(AcguFrameSection()) + rest, true) == [Err(UnexpectedEof)]
    ensures DecodeStream(FrameBytes(AcguFrameSection()) + rest, false)
         == [Ok(AcguFrameSection())] + DecodeStream(rest, false)
  {
    var frame := FrameBytes(AcguFrameSection());
    var b := frame + rest;
    assert b != [];
    RnaFrameMiscountFollowed(rest);
    var p := ParseFrameWith(b, true);
    assert p == Parsed(Err(UnexpectedEof), |b|);
    assert b[p.consumed..] == [];
    assert DecodeStream(b, true) == [p.result] + DecodeStream([], true);
    FrameRoundTrip(AcguFrameSection(), rest);
    var q := ParseFrameWith(b, false);
    assert q == Parsed(Ok(AcguFrameSection()), |frame|);
    assert b[q.consumed..] == rest;
    assert DecodeStream(b, false) == [q.result] + DecodeStream(rest, false);
  }

  // ---------------------------------------------------------------------
  // Writing

  /** Whether every section `write` reaches before an error can be framed
      (the source panics on a descriptor over 255 bytes). */
  predicate Writable(items: seq<Result<BinarySection, Error>>)
    decreases |items|
  {
    items == [] || items[0].Err? || (|items[0].value.descriptor| <= 0xFF && Writable(items[1..]))
  }

  /** What `write` puts in the file, and what it returns: the frames of the
      sections up to the first error, and that error. */
  function Written(items: seq<Result<BinarySection, Error>>): (seq<u8>, Result<(), Error>)
    requires Writable(items)
    decreases |items|
  {
    if items == [] then ([], Ok(()))
    else if items[0].Err? then ([], Err(items[0].error))
    else
      var rest := Written(items[1..]);
      (FrameBytes(items[0].value) + rest.0, rest.1)
  }

  /** `binary_fasta_data::write`: appends each section's frame to the sink in
      order and returns the first error it meets, writing nothing after it. */
  method Write(items: seq<Result<BinarySection, Error>>) returns (sink: seq<u8>, r: Result<(), Error>)
    requires Writable(items)
    ensures (sink, r) == Written(items)
  {
    sink := [];
    for i := 0 to |items|
      invariant Writable(items[i..])
      invariant sink + Written(items[i..]).0 == Written(items).0
      invariant Written(items[i..]).1 == Written(items).1
    {
      assert items[i..][1..] == items[i + 1..];
      match items[i]
      case Err(e) =>
        assert sink == Written(items).0;
        return sink, Err(e);
      case Ok(section) =>
        var bytes := ConvertToBytes(section);
        sink := sink + bytes;
    }
    assert items[|items|..] == [];
    assert sink == Written(items).0 && Written(items).1 == Ok(());
    return sink, Ok(());
  }

  /** With no error in the stream, the file is every frame in order. */
  lemma {:induction false} WrittenAllOk(ss: seq<BinarySection>)
    requires forall i :: 0 <= i < |ss| ==> |ss[i].descriptor| <= 0xFF
    ensures Writable(Oks(ss))
    ensures Written(Oks(ss)) == (EncodeAll(ss), Ok(()))
    decreases |ss|
  {
    if ss != [] {
      assert Oks<BinarySection, Error>(ss)[1..] == Oks(ss[1..]);
      WrittenAllOk(ss[1..]);
    }
  }

  /** At the first error the writer stops: the file holds the frames of the
      sections before it, and the error is returned. */
  lemma {:induction false} WrittenStopsAtError(ss: seq<BinarySection>, e: Error, more: seq<Result<BinarySection, Error>>)
    requires forall i :: 0 <= i < |ss| ==> |ss[i].descriptor| <= 0xFF
    ensures Writable(Oks(ss) + [Err(e)] + more)
    ensures Written(Oks(ss) + [Err(e)] + more) == (EncodeAll(ss), Err(e))
    decreases |ss|
  {
    var items := Oks<BinarySection, Error>(ss) + [Err(e)] + more;
    if ss == [] {
      assert items[0] == Err(e);
    } else {
      assert items[1..] == Oks(ss[1..]) + [Err(e)] + more;
      WrittenStopsAtError(ss[1..], e, more);
    }
  }
}
