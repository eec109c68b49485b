/** Reading one frame from a byte cursor (`BinaryFastaSection::from_bytes`).
    Every read takes as many bytes as it asks for or, when fewer remain,
    all that remain, so a frame cut short still consumes the rest of the
    input. */
module Frames {
  import opened Base
  import opened Sections
  import opened BinarySections

  // ---------------------------------------------------------------------
  // How many packed bytes follow the descriptor

  /** The packed byte count as the source computes it: `n / 4`, plus one when
      `n % 4 != 0`, on the SIGNED count with Rust's truncating division,
      then cast to a 64-bit `usize`. */
  function SequenceByteCountAsWritten(n: i32): (k: nat)
    ensures n >= 0 ==> k == (n + 3) / 4
    ensures k < USIZE_MODULUS
  {
    var q := TruncDiv(n, 4) + (if TruncRem(n, 4) != 0 then 1 else 0);
    I32AsUsize(q)
  }

  /** The packed byte count the decoder needs: one byte per four symbols of
      the count's magnitude, rounded up. */
  function SequenceByteCount(n: i32): (k: nat)
    ensures 4 * k >= Abs(n) && 4 * k < Abs(n) + 4
  {
    (Abs(n) + 3) / 4
  }

  /** The two counts agree exactly when the length is above -4: for every
      RNA length of at least four symbols the source reads the wrong number
      of bytes. */
  lemma CountsAgree(n: i32)
    ensures SequenceByteCountAsWritten(n) == SequenceByteCount(n) <==> n > -4
  {
    var m: int := -(n as int);
    if n <= -4 {
      assert TruncDiv(n, 4) == -(m / 4) && m / 4 >= 1;
      if m % 4 == 0 {
        assert TruncRem(n, 4) == 0;
        assert SequenceByteCountAsWritten(n) == USIZE_MODULUS - m / 4;
      } else {
        assert TruncRem(n, 4) != 0;
        if m / 4 == 1 {
          assert SequenceByteCountAsWritten(n) == 0;
        } else {
          assert SequenceByteCountAsWritten(n) == USIZE_MODULUS + 1 - m / 4;
        }
      }
    } else if n < 0 {
      assert TruncDiv(n, 4) == 0 && TruncRem(n, 4) == n;
    }
  }

  // ---------------------------------------------------------------------
  // One frame

  /** The outcome of reading one frame and how many bytes it consumed. */
  datatype Parsed = Parsed(result: Result<BinarySection, Error>, consumed: nat)

  /** The packed byte count a reader uses: the source's (`asWritten`) or
      the intended one. */
  function FrameByteCount(n: i32, asWritten: bool): (k: nat)
    ensures asWritten ==> k == SequenceByteCountAsWritten(n)
    ensures !asWritten ==> k == SequenceByteCount(n)
  {
    if asWritten then SequenceByteCountAsWritten(n) else SequenceByteCount(n)
  }

  /** Reading one frame from `b`, with the packed byte count as written
      (`asWritten`) or as intended. A missing length byte, count byte,
      descriptor byte or packed byte is `UnexpectedEof` and consumes all
      that is left; a descriptor that is not UTF-8 is
      `InvalidUtf8Descriptor`; otherwise the frame is read. */
  function ParseFrameWith(b: seq<u8>, asWritten: bool): (p: Parsed)
    ensures p.consumed <= |b|
    ensures b != [] ==> p.consumed > 0
    ensures b == [] ==> p == Parsed(Err(UnexpectedEof), 0)
    ensures |b| < 5 ==> p.result == Err(UnexpectedEof) && p.consumed == |b|
    ensures 5 <= |b| < 5 + b[0] as nat ==> p.result == Err(UnexpectedEof) && p.consumed == |b|
    ensures 5 <= |b| && 5 + b[0] as nat <= |b| ==>
      (!IsUtf8(b[5..5 + b[0] as nat]) <==> p.result == Err(InvalidUtf8Descriptor))
    ensures 5 <= |b| && 5 + b[0] as nat <= |b| && IsUtf8(b[5..5 + b[0] as nat]) ==>
      if 5 + b[0] as nat + FrameByteCount(FromBeBytes(b[1..5]), asWritten) <= |b| then p.result.Ok?
      else p == Parsed(Err(UnexpectedEof), |b|)
    ensures p.result.Ok? ==>
      5 <= |b| && p.result.value.descriptor == b[5..5 + b[0] as nat] &&
      p.result.value.sequenceLength == FromBeBytes(b[1..5]) &&
      p.consumed == 5 + b[0] as nat + FrameByteCount(FromBeBytes(b[1..5]), asWritten) &&
      p.result.value.sequence == b[5 + b[0] as nat..p.consumed]
  {
    if |b| == 0 then Parsed(Err(UnexpectedEof), 0)
    else if |b| < 5 then Parsed(Err(UnexpectedEof), |b|)
    else
      var descriptorLength := b[0] as nat;
      var sequenceLength := FromBeBytes(b[1..5]);
      if |b| < 5 + descriptorLength then Parsed(Err(UnexpectedEof), |b|)
      else
        var descriptor := b[5..5 + descriptorLength];
        if !IsUtf8(descriptor) then Parsed(Err(InvalidUtf8Descriptor), 5 + descriptorLength)
        else
          var count := FrameByteCount(sequenceLength, asWritten);
          if |b| < 5 + descriptorLength + count then Parsed(Err(UnexpectedEof), |b|)
          else
            var sequence := b[5 + descriptorLength..5 + descriptorLength + count];
            Parsed(Ok(BinarySection(descriptor, sequence, sequenceLength)), 5 + descriptorLength + count)
  }

  /** `from_bytes` with the count the source computes. */
  function ParseFrameAsWritten(b: seq<u8>): (p: Parsed)
    ensures p.consumed <= |b|
  {
    ParseFrameWith(b, true)
  }

  /** `from_bytes` with the count the decoder needs, the intended reading
      the round trips are proved for. A missing length byte, count byte,
      descriptor byte or packed byte is `UnexpectedEof`; a descriptor that
      is not UTF-8 is `InvalidUtf8Descriptor`; otherwise the frame is read. */
  function ParseFrame(b: seq<u8>): (p: Parsed)
    ensures p.consumed <= |b|
    ensures b != [] ==> p.consumed > 0
    ensures |b| < 5 ==> p.result == Err(UnexpectedEof)
    ensures 5 <= |b| < 5 + b[0] as nat ==> p.result == Err(UnexpectedEof)
    ensures 5 <= |b| && 5 + b[0] as nat <= |b| ==>
      (!IsUtf8(b[5..5 + b[0] as nat]) <==> p.result == Err(InvalidUtf8Descriptor))
    ensures 5 <= |b| && 5 + b[0] as nat <= |b| && IsUtf8(b[5..5 + b[0] as nat]) ==>
      (p.result.Ok? <==> 5 + b[0] as nat + SequenceByteCount(FromBeBytes(b[1..5])) <= |b|)
    ensures p.result.Ok? ==>
      5 <= |b| && p.result.value.descriptor == b[5..5 + b[0] as nat] &&
      p.result.value.sequenceLength == FromBeBytes(b[1..5])
  {
    ParseFrameWith(b, false)
  }

  /** A section that survives framing: a descriptor of at most 255 bytes of
      well-formed UTF-8, and as many packed bytes as its count needs. */
  predicate WellFormed(s: BinarySection)
  {
    |s.descriptor| <= 0xFF && IsUtf8(s.descriptor) &&
    |s.sequence| == SequenceByteCount(s.sequenceLength)
  }

  /** Every section of `ss` is well-formed; in particular each can be framed. */
  predicate AllWellFormed(ss: seq<BinarySection>)
    ensures AllWellFormed(ss) ==> forall i :: 0 <= i < |ss| ==> |ss[i].descriptor| <= 0xFF
  {
    forall i :: 0 <= i < |ss| ==> WellFormed(ss[i])
  }

  /** Frame round trip: reading the frame of a well-formed section, whatever
      follows it, gives the section back and consumes exactly its frame. */
  lemma FrameRoundTrip(s: BinarySection, rest: seq<u8>)
    requires WellFormed(s)
    ensures ParseFrame(FrameBytes(s) + rest) == Parsed(Ok(s), |FrameBytes(s)|)
  {
    var b := FrameBytes(s) + rest;
    var l := |s.descriptor|;
    assert b[0] == l;
    assert b[1..5] == ToBeBytes(s.sequenceLength);
    BeBytesRoundTrip(s.sequenceLength);
    assert b[5..5 + l] == s.descriptor;
    assert b[5 + l..5 + l + |s.sequence|] == s.sequence;
  }

  /** The converse: whatever a frame is read as is a well-formed section, and
      the bytes consumed are exactly its frame. */
  lemma FrameParsed(b: seq<u8>)
    requires ParseFrame(b).result.Ok?
    ensures WellFormed(ParseFrame(b).result.value)
    ensures b[..ParseFrame(b).consumed] == FrameBytes(ParseFrame(b).result.value)
  {
    var s := ParseFrame(b).result.value;
    BeBytesRoundTripBytes(b[1..5]);
    assert b[..ParseFrame(b).consumed] == [b[0]] + b[1..5] + s.descriptor + s.sequence;
  }

  /** Where the source's count is right (every DNA length, and RNA lengths
      of fewer than four symbols), its frame reader is the intended one. */
  lemma AsWrittenAgrees(b: seq<u8>)
    requires |b| >= 5 && FromBeBytes(b[1..5]) > -4
    ensures ParseFrameAsWritten(b) == ParseFrame(b)
  {
    CountsAgree(FromBeBytes(b[1..5]));
  }

  /** The source's frame reader gives back every well-formed section whose
      count is above -4: all DNA sections, and RNA sections of fewer than
      four symbols. */
  lemma FrameRoundTripAsWritten(s: BinarySection, rest: seq<u8>)
    requires WellFormed(s) && s.sequenceLength > -4
    ensures ParseFrameAsWritten(FrameBytes(s) + rest) == Parsed(Ok(s), |FrameBytes(s)|)
  {
    var b := FrameBytes(s) + rest;
    FrameRoundTrip(s, rest);
    assert b[1..5] == ToBeBytes(s.sequenceLength);
    BeBytesRoundTrip(s.sequenceLength);
    AsWrittenAgrees(b);
  }

  /** Either reader gives back a well-formed section whose count it reads
      right. */
  lemma FrameRoundTripWith(s: BinarySection, rest: seq<u8>, asWritten: bool)
    requires WellFormed(s) && (asWritten ==> s.sequenceLength > -4)
    ensures ParseFrameWith(FrameBytes(s) + rest, asWritten) == Parsed(Ok(s), |FrameBytes(s)|)
  {
    if asWritten {
      FrameRoundTripAsWritten(s, rest);
    } else {
      FrameRoundTrip(s, rest);
    }
  }

  /** A four-symbol RNA section, "ACGU", framed with an empty descriptor. */
  function AcguFrameSection(): BinarySection
  {
    BinarySection([], [0x1B], -4)
  }

  /** Finding: the frame of the RNA sequence "ACGU" (count -4, one packed
      byte) is read back by the intended reader, but the source computes a
      count of 2^64 - 1 bytes and fails with `UnexpectedEof`. */
  lemma RnaFrameMiscount()
    ensures WellFormed(AcguFrameSection())
    ensures FrameBytes(AcguFrameSection()) == [0, 0xFF, 0xFF, 0xFF, 0xFC, 0x1B]
    ensures SequenceByteCountAsWritten(-4) == USIZE_MODULUS - 1
    ensures ParseFrameAsWritten(FrameBytes(AcguFrameSection())) == Parsed(Err(UnexpectedEof), 6)
    ensures ParseFrame(FrameBytes(AcguFrameSection())) == Parsed(Ok(AcguFrameSection()), 6)
  {
    var s := AcguFrameSection();
    var b := FrameBytes(s);
    assert ToBeBytes(-4) == [0xFF, 0xFF, 0xFF, 0xFC];
    assert b == [0, 0xFF, 0xFF, 0xFF, 0xFC, 0x1B];
    assert b[1..5] == [0xFF, 0xFF, 0xFF, 0xFC];
    assert b[5..5] == [];
    FrameRoundTrip(s, []);
    assert b + [] == b;
  }

  /** The same frame followed by any bytes short of 2^64 - 2: the source
      takes all of them for the packed bytes and still runs out. */
  lemma RnaFrameMiscountFollowed(rest: seq<u8>)
    requires |rest| < USIZE_MODULUS - 2
    ensures ParseFrameAsWritten(FrameBytes(AcguFrameSection()) + rest)
         == Parsed(Err(UnexpectedEof), 6 + |rest|)
  {
    var b := FrameBytes(AcguFrameSection()) + rest;
    RnaFrameMiscount();
    assert b[0] == 0 && b[1..5] == [0xFF, 0xFF, 0xFF, 0xFC] && b[5..5] == [];
    assert FromBeBytes(b[1..5]) == -4 by {
      BeBytesRoundTrip(-4);
      assert ToBeBytes(-4) == [0xFF, 0xFF, 0xFF, 0xFC];
    }
  }

  /** Finding: for the RNA count -6 the source computes zero packed bytes, so
      it returns a section with no packed bytes and leaves the two real ones
      to be read as the start of another frame. */
  lemma RnaFrameTruncated(p: u8, q: u8)
    ensures SequenceByteCountAsWritten(-6) == 0 && SequenceByteCount(-6) == 2
    ensures ParseFrameAsWritten(FrameBytes(BinarySection([], [p, q], -6)))
         == Parsed(Ok(BinarySection([], [], -6)), 5)
  {
    var b := FrameBytes(BinarySection([], [p, q], -6));
    assert ToBeBytes(-6) == [0xFF, 0xFF, 0xFF, 0xFA];
    assert b[1..5] == [0xFF, 0xFF, 0xFF, 0xFA];
    assert b[5..5] == [];
  }

  /** The frames of several sections, one after the other. */
  function EncodeAll(ss: seq<BinarySection>): (r: seq<u8>)
    requires forall i :: 0 <= i < |ss| ==> |ss[i].descriptor| <= 0xFF
    decreases |ss|
  {
    if ss == [] then [] else FrameBytes(ss[0]) + EncodeAll(ss[1..])
  }

  lemma {:induction false} EncodeAllAppend(a: seq<BinarySection>, b: seq<BinarySection>)
    requires forall i :: 0 <= i < |a| ==> |a[i].descriptor| <= 0xFF
    requires forall i :: 0 <= i < |b| ==> |b[i].descriptor| <= 0xFF
    ensures forall i :: 0 <= i < |a + b| ==> |(a + b)[i].descriptor| <= 0xFF
    ensures EncodeAll(a + b) == EncodeAll(a) + EncodeAll(b)
    decreases |a|
  {
    FitsConcat(a, b);
    if a == [] {
      assert a + b == b;
    } else {
      var ab := a + b;
      assert ab[0] == a[0] && ab[1..] == a[1..] + b;
      EncodeAllAppend(a[1..], b);
      assert EncodeAll(ab) == FrameBytes(a[0]) + EncodeAll(a[1..] + b);
      assert EncodeAll(a) == FrameBytes(a[0]) + EncodeAll(a[1..]);
    }
  }

  lemma FitsConcat(a: seq<BinarySection>, b: seq<BinarySection>)
    requires forall i :: 0 <= i < |a| ==> |a[i].descriptor| <= 0xFF
    requires forall i :: 0 <= i < |b| ==> |b[i].descriptor| <= 0xFF
    ensures forall i :: 0 <= i < |a + b| ==> |(a + b)[i].descriptor| <= 0xFF
  {
    forall i | 0 <= i < |a + b|
      ensures |(a + b)[i].descriptor| <= 0xFF
    {
      if i >= |a| {
        assert (a + b)[i] == b[i - |a|];
      }
    }
  }

  // ---------------------------------------------------------------------
  // The cursor and the imperative reader

  /** A peekable byte iterator: the bytes and how many have been consumed. */
  class ByteCursor {
    const data: seq<u8>
    var pos: nat

    ghost predicate Valid()
      reads this
    {
      pos <= |data|
    }

    /** The bytes not yet consumed. */
    function Remaining(): seq<u8>
      reads this
      requires Valid()
    {
      data[pos..]
    }

    constructor (data: seq<u8>)
      ensures Valid() && this.data == data && pos == 0
    {
      this.data := data;
      pos := 0;
    }

    /** `peek().is_some()` */
    method HasNext() returns (b: bool)
      requires Valid()
      ensures b <==> Remaining() != []
    {
      b := pos < |data|;
    }

    /** `next()` */
    method Next() returns (b: Option<u8>)
      requires Valid()
      modifies this
      ensures Valid()
      ensures old(Remaining()) == [] ==> b.None? && pos == old(pos)
      ensures old(Remaining()) != [] ==> b == Some(old(Remaining())[0]) && pos == old(pos) + 1
    {
      if pos < |data| {
        b := Some(data[pos]);
        pos := pos + 1;
      } else {
        b := None;
      }
    }

    /** `take(n).collect()`: up to n bytes, fewer when fewer remain. */
    method Take(n: nat) returns (r: seq<u8>)
      requires Valid()
      modifies this
      ensures Valid()
      ensures r == old(Remaining())[..Min(n, |old(Remaining())|)]
      ensures pos == old(pos) + |r|
    {
      var end := if pos + n <= |data| then pos + n else |data|;
      r := data[pos..end];
      pos := end;
    }
  }

  /** `BinaryFastaSection::from_bytes`: the descriptor length byte, the
      four count bytes, the descriptor, then the packed bytes, failing as
      soon as one read comes up short or the descriptor is not UTF-8. With
      `asWritten` the packed byte count is the source's, computed from the
      signed count; otherwise it is the intended one. */
  method FromBytes(cursor: ByteCursor, asWritten: bool) returns (r: Result<BinarySection, Error>)
    requires cursor.Valid()
    modifies cursor
    ensures cursor.Valid() && old(cursor.pos) <= cursor.pos
    ensures ParseFrameWith(old(cursor.Remaining()), asWritten) == Parsed(r, cursor.pos - old(cursor.pos))
  {
    ghost var b := cursor.Remaining();
    ghost var start := cursor.pos;
    var descriptorLength := cursor.Next();
    if descriptorLength.None? {
      return Err(UnexpectedEof);
    }
    assert cursor.Remaining() == b[1..];
    var seqLenVec := cursor.Take(4);
    if |seqLenVec| != 4 {
      return Err(UnexpectedEof);
    }
    assert seqLenVec == b[1..5];
    assert cursor.Remaining() == b[5..];
    var sequenceLength := FromBeBytes(seqLenVec);
    var l := descriptorLength.value as nat;
    var descriptionVector := cursor.Take(l);
    if |descriptionVector| != l {
      return Err(UnexpectedEof);
    }
    assert descriptionVector == b[5..5 + l];
    assert cursor.Remaining() == b[5 + l..];
    if !IsUtf8(descriptionVector) {
      return Err(InvalidUtf8Descriptor);
    }
    var sequenceBytes: nat;
    if asWritten {
      var quotient := TruncDiv(sequenceLength, 4) + (if TruncRem(sequenceLength, 4) != 0 then 1 else 0);
      sequenceBytes := I32AsUsize(quotient);
    } else {
      sequenceBytes := SequenceByteCount(sequenceLength);
    }
    assert sequenceBytes == FrameByteCount(sequenceLength, asWritten);
    var sequence := cursor.Take(sequenceBytes);
    if |sequence| != sequenceBytes {
      return Err(UnexpectedEof);
    }
    assert sequence == b[5 + l..5 + l + sequenceBytes];
    return Ok(BinarySection(descriptionVector, sequence, sequenceLength));
  }
}
