/** Operations on a FASTA text section: cleaning a header into a
    descriptor, deciding DNA or RNA, decoding a binary section, and the
    text a section is written as (header line, then the sequence wrapped at
    50 characters). */
module FastaSections {
  import opened Base
  import opened Codec
  import opened Sections

  // ---------------------------------------------------------------------
  // Construction from a header line and its data

  /** `str::trim_start_matches` with a one-byte pattern: the longest suffix
      that does not start with `c`. */
  function TrimStart(s: seq<u8>, c: u8): (r: seq<u8>)
    ensures |r| <= |s| && r == s[|s| - |r|..]
    ensures forall i :: 0 <= i < |s| - |r| ==> s[i] == c
    ensures r == [] || r[0] != c
    decreases |s|
  {
    if s != [] && s[0] == c then TrimStart(s[1..], c) else s
  }

  /** `str::trim_end_matches` with a one-byte pattern: the longest prefix
      that does not end with `c`. */
  function TrimEnd(s: seq<u8>, c: u8): (r: seq<u8>)
    ensures |r| <= |s| && r == s[..|r|]
    ensures forall i :: |r| <= i < |s| ==> s[i] == c
    ensures r == [] || r[|r| - 1] != c
    decreases |s|
  {
    if s != [] && s[|s| - 1] == c then TrimEnd(s[..|s| - 1], c) else s
  }

  /** `FastaSection::new`: every leading `>` and then every trailing newline
      is removed from the header; the data is kept as it is. */
  function New(descriptor: seq<u8>, fastaData: seq<u8>): (f: FastaSection)
    ensures f.sequence == fastaData
    ensures f.descriptor == [] || (f.descriptor[0] != GT && f.descriptor[|f.descriptor| - 1] != NL)
  {
    FastaSection(TrimEnd(TrimStart(descriptor, GT), NL), fastaData)
  }

  /** The descriptor `FastaSection::new` keeps is a slice of the header
      with only `>` before it and only newlines after it; with the clean
      ends `New` ensures, both runs are removed whole. */
  lemma NewStrips(descriptor: seq<u8>, fastaData: seq<u8>)
    ensures exists i, j :: StrippedFrom(New(descriptor, fastaData).descriptor, descriptor, i, j)
  {
    var t := TrimStart(descriptor, GT);
    var d := TrimEnd(t, NL);
    StripWitness(descriptor, t, d);
    assert New(descriptor, fastaData).descriptor == d;
    assert StrippedFrom(d, descriptor, |descriptor| - |t|, |descriptor| - |t| + |d|);
  }

  /** `d` is `header[i..j]`, with only `>` before it and only newlines
      after it. */
  ghost predicate StrippedFrom(d: seq<u8>, header: seq<u8>, i: int, j: int)
  {
    0 <= i <= j <= |header| && d == header[i..j] &&
    (forall k :: 0 <= k < i ==> header[k] == GT) &&
    (forall k :: j <= k < |header| ==> header[k] == NL)
  }

  /** The runs `TrimStart` and `TrimEnd` remove lie before and after the
      descriptor they leave. */
  lemma StripWitness(header: seq<u8>, t: seq<u8>, d: seq<u8>)
    requires |t| <= |header| && t == header[|header| - |t|..]
    requires forall k :: 0 <= k < |header| - |t| ==> header[k] == GT
    requires |d| <= |t| && d == t[..|d|]
    requires forall k :: |d| <= k < |t| ==> t[k] == NL
    ensures StrippedFrom(d, header, |header| - |t|, |header| - |t| + |d|)
  {
    var i := |header| - |t|;
    assert d == header[i..i + |d|];
    forall k | i + |d| <= k < |header| ensures header[k] == NL {
      assert header[k] == t[k - i];
    }
  }

  /** A descriptor the header line `>` + d gives back unchanged. */
  predicate CleanDescriptor(d: seq<u8>)
  {
    d == [] || (d[0] != GT && d[|d| - 1] != NL)
  }

  /** The header written for a clean descriptor is cleaned back to it. */
  lemma NewOfHeader(d: seq<u8>, fastaData: seq<u8>)
    requires CleanDescriptor(d)
    ensures New([GT] + d, fastaData) == FastaSection(d, fastaData)
  {
    var h := [GT] + d;
    assert h[1..] == d;
    assert TrimStart(h[1..], GT) == d;
  }

  /** Cleaning a header that is well-formed UTF-8 leaves a well-formed UTF-8
      descriptor, as Rust's `String` type demands. */
  lemma NewKeepsUtf8(descriptor: seq<u8>, fastaData: seq<u8>)
    requires IsUtf8(descriptor)
    ensures IsUtf8(New(descriptor, fastaData).descriptor)
  {
    TrimStartUtf8(descriptor, GT);
    TrimEndUtf8(TrimStart(descriptor, GT), NL);
  }

  lemma {:induction false} TrimStartUtf8(s: seq<u8>, c: u8)
    requires IsUtf8(s) && c < 0x80
    ensures IsUtf8(TrimStart(s, c))
    decreases |s|
  {
    if s != [] && s[0] == c {
      Utf8DropAscii(s);
      TrimStartUtf8(s[1..], c);
    }
  }

  lemma {:induction false} TrimEndUtf8(s: seq<u8>, c: u8)
    requires IsUtf8(s) && c < 0x80
    ensures IsUtf8(TrimEnd(s, c))
    decreases |s|
  {
    if s != [] && s[|s| - 1] == c {
      Utf8DropLastAscii(s);
      TrimEndUtf8(s[..|s| - 1], c);
    }
  }

  // ---------------------------------------------------------------------
  // DNA or RNA

  predicate IsTChar(c: u8) { c == T || c == T + 0x20 }

  predicate IsUChar(c: u8) { c == U || c == U + 0x20 }

  /** The alphabet of a sequence as `is_dna` decides it: RNA exactly when a
      U (either case) occurs with no T (either case) before it. */
  predicate IsDna(s: seq<u8>)
  {
    !exists i :: 0 <= i < |s| && IsUChar(s[i]) && forall j :: 0 <= j < i ==> !IsTChar(s[j])
  }

  /** `is_dna`: scans for the first T or U; a T means DNA, a U means RNA, and
      a sequence with neither is taken to be DNA. */
  method DetectDna(sequence: seq<u8>) returns (r: bool)
    ensures r == IsDna(sequence)
  {
    for i := 0 to |sequence|
      invariant forall j :: 0 <= j < i ==> !IsTChar(sequence[j]) && !IsUChar(sequence[j])
    {
      var c := sequence[i];
      if c == T || c == T + 0x20 {
        assert !IsUChar(c);
        return true;
      } else if c == U || c == U + 0x20 {
        return false;
      }
    }
    return true;
  }

  /** The alphabet decision on the sequences that matter: only T means DNA,
      only U means RNA, and neither means DNA. */
  lemma IsDnaOfAlphabet(s: seq<u8>)
    ensures !HasU(s) ==> IsDna(s)
    ensures HasU(s) && !HasT(s) ==> !IsDna(s)
  {
    if HasU(s) && !HasT(s) {
      var i :| 0 <= i < |s| && ToAsciiUpper(s[i]) == U;
      assert IsUChar(s[i]);
      forall j | 0 <= j < i ensures !IsTChar(s[j]) {
        assert ToAsciiUpper(s[j]) != T;
      }
    }
    if !HasU(s) {
      forall i | 0 <= i < |s| ensures !IsUChar(s[i]) {
        assert ToAsciiUpper(s[i]) != U;
      }
    }
  }

  // ---------------------------------------------------------------------
  // From a binary section

  /** `FastaSection::from_basta`: the descriptor is kept and the packed codes
      are decoded with the signed length. */
  function FromBasta(b: BinarySection): (f: FastaSection)
    requires b.sequenceLength != I32_MIN
    ensures f.descriptor == b.descriptor
    ensures |b.sequence| == (Abs(b.sequenceLength) + 3) / 4 ==>
      |f.sequence| == Abs(b.sequenceLength) &&
      forall i :: 0 <= i < |f.sequence| ==>
        f.sequence[i] == Symbol(Pair(b.sequence[i / 4], i % 4), b.sequenceLength >= 0)
  {
    var s := Decode(b.sequence, b.sequenceLength);
    if |b.sequence| == (Abs(b.sequenceLength) + 3) / 4 then
      DecodeExact(b.sequence, b.sequenceLength);
      FastaSection(b.descriptor, s)
    else
      FastaSection(b.descriptor, s)
  }

  // ---------------------------------------------------------------------
  // The text of a section

  const CHARS_PER_LINE: nat := 50

  /** The sequence as it is written: a newline after each full line of 50
      characters that more characters follow. */
  function Wrap(s: seq<u8>): seq<u8>
    decreases |s|
  {
    if |s| <= CHARS_PER_LINE then s
    else s[..CHARS_PER_LINE] + [NL] + Wrap(s[CHARS_PER_LINE..])
  }

  /** The bytes of a section as written: `>`, the descriptor, a newline and
      the wrapped sequence. */
  function SectionText(f: FastaSection): seq<u8>
  {
    [GT] + f.descriptor + [NL] + Wrap(f.sequence)
  }

  /** `FastaSection::convert_to_bytes`: the header line, then the sequence
      taken 50 bytes at a time, with a newline after a full chunk when more
      bytes follow. */
  method ConvertToBytes(f: FastaSection) returns (result: seq<u8>)
    ensures result == SectionText(f)
  {
    result := [GT];
    result := result + f.descriptor;
    result := result + [NL];
    var pos := 0;
    while pos < |f.sequence|
      invariant 0 <= pos <= |f.sequence|
      invariant result + Wrap(f.sequence[pos..]) == SectionText(f)
    {
      var rest := f.sequence[pos..];
      var end := if pos + CHARS_PER_LINE <= |f.sequence| then pos + CHARS_PER_LINE else |f.sequence|;
      var chunk := f.sequence[pos..end];
      pos := end;
      result := result + chunk;
      if |chunk| == CHARS_PER_LINE && pos < |f.sequence| {
        result := result + [NL];
        assert rest[..CHARS_PER_LINE] == chunk && rest[CHARS_PER_LINE..] == f.sequence[pos..];
      } else {
        assert rest == chunk && f.sequence[pos..] == [];
      }
    }
  }

  /** Where the newlines go: every 51st byte of the wrapped text is a
      newline, and the others are the sequence's bytes in order. */
  lemma {:induction false} WrapLayout(s: seq<u8>, i: nat)
    requires i < |Wrap(s)|
    ensures i % 51 == 50 ==> Wrap(s)[i] == NL
    ensures i % 51 != 50 ==> i - i / 51 < |s| && Wrap(s)[i] == s[i - i / 51]
    decreases |s|
  {
    if |s| > CHARS_PER_LINE && i > CHARS_PER_LINE {
      var rest := s[CHARS_PER_LINE..];
      assert Wrap(s)[i] == Wrap(rest)[i - 51];
      WrapLayout(rest, i - 51);
      assert (i - 51) % 51 == i % 51 && (i - 51) / 51 == i / 51 - 1;
    }
  }

  /** Wrapping adds one newline per full line that more characters follow. */
  lemma {:induction false} WrapLength(s: seq<u8>)
    ensures |Wrap(s)| == |s| + (if s == [] then 0 else (|s| - 1) / 50)
    decreases |s|
  {
    if |s| > CHARS_PER_LINE {
      WrapLength(s[CHARS_PER_LINE..]);
    }
  }

  /** There is no trailing newline: the wrapped text ends with the
      sequence's last byte. */
  lemma {:induction false} WrapEnd(s: seq<u8>)
    requires s != []
    ensures Wrap(s) != [] && Wrap(s)[|Wrap(s)| - 1] == s[|s| - 1]
    decreases |s|
  {
    if |s| > CHARS_PER_LINE {
      WrapEnd(s[CHARS_PER_LINE..]);
    }
  }

  /** `s` with every `c` removed. */
  function Without(s: seq<u8>, c: u8): (r: seq<u8>)
    ensures |r| <= |s|
    ensures forall i :: 0 <= i < |r| ==> r[i] != c
    decreases |s|
  {
    if s == [] then [] else (if s[0] == c then [] else [s[0]]) + Without(s[1..], c)
  }

  lemma {:induction false} WithoutAppend(a: seq<u8>, b: seq<u8>, c: u8)
    ensures Without(a + b, c) == Without(a, c) + Without(b, c)
    decreases |a|
  {
    if a != [] {
      assert (a + b)[1..] == a[1..] + b;
      WithoutAppend(a[1..], b, c);
    } else {
      assert a + b == b;
    }
  }

  /** Deleting the newlines from the wrapped text recovers the sequence. */
  lemma {:induction false} WrapUnwrap(s: seq<u8>)
    ensures Without(Wrap(s), NL) == Without(s, NL)
    decreases |s|
  {
    if |s| > CHARS_PER_LINE {
      var head, rest := s[..CHARS_PER_LINE], s[CHARS_PER_LINE..];
      WithoutAppend(head + [NL], Wrap(rest), NL);
      WithoutAppend(head, [NL], NL);
      assert Without([NL], NL) == [];
      WrapUnwrap(rest);
      assert head + rest == s;
      WithoutAppend(head, rest, NL);
    }
  }

  /** A sequence with no newline in it is its own newline-free form, so
      deleting the newlines of its wrapped text gives the sequence itself. */
  lemma {:induction false} WithoutAbsent(s: seq<u8>, c: u8)
    requires forall i :: 0 <= i < |s| ==> s[i] != c
    ensures Without(s, c) == s
    decreases |s|
  {
    if s != [] {
      WithoutAbsent(s[1..], c);
      assert [s[0]] + s[1..] == s;
    }
  }

  // ---------------------------------------------------------------------
  // The lines of the written text

  /** The lines the wrapped sequence consists of: full lines of 50, then
      the rest (an empty sequence gives one empty line). */
  function Chunks(s: seq<u8>): (r: seq<seq<u8>>)
    ensures |r| >= 1
    decreases |s|
  {
    if |s| <= CHARS_PER_LINE then [s] else [s[..CHARS_PER_LINE]] + Chunks(s[CHARS_PER_LINE..])
  }

  /** Lines, each followed by a newline. */
  function Terminated(lines: seq<seq<u8>>): seq<u8>
    decreases |lines|
  {
    if lines == [] then [] else lines[0] + [NL] + Terminated(lines[1..])
  }

  /** Lines joined with nothing between them. */
  function Concat(lines: seq<seq<u8>>): seq<u8>
    decreases |lines|
  {
    if lines == [] then [] else lines[0] + Concat(lines[1..])
  }

  lemma {:induction false} TerminatedAppend(a: seq<seq<u8>>, b: seq<seq<u8>>)
    ensures Terminated(a + b) == Terminated(a) + Terminated(b)
    decreases |a|
  {
    if a == [] {
      assert a + b == b;
    } else {
      assert (a + b)[1..] == a[1..] + b;
      TerminatedAppend(a[1..], b);
    }
  }

  /** The wrapped sequence and the newline after it are its chunks, each
      on its own line; joined back together, the chunks are the sequence. */
  lemma {:induction false} WrapChunks(s: seq<u8>)
    ensures Wrap(s) + [NL] == Terminated(Chunks(s))
    ensures Concat(Chunks(s)) == s
    ensures forall k :: 0 <= k < |Chunks(s)| ==> |Chunks(s)[k]| <= CHARS_PER_LINE
    ensures forall k, i :: 0 <= k < |Chunks(s)| && 0 <= i < |Chunks(s)[k]| ==> Chunks(s)[k][i] in s
    decreases |s|
  {
    if |s| > CHARS_PER_LINE {
      var head, rest := s[..CHARS_PER_LINE], s[CHARS_PER_LINE..];
      WrapChunks(rest);
      assert Chunks(s)[1..] == Chunks(rest);
      assert head + rest == s;
      forall k, i | 0 <= k < |Chunks(s)| && 0 <= i < |Chunks(s)[k]|
        ensures Chunks(s)[k][i] in s
      {
        if k == 0 {
          assert Chunks(s)[k][i] == s[i];
        } else {
          assert Chunks(s)[k] == Chunks(rest)[k - 1];
          var x := Chunks(rest)[k - 1][i];
          assert x in rest;
          var j :| 0 <= j < |rest| && rest[j] == x;
          assert s[CHARS_PER_LINE + j] == x;
        }
      }
    }
  }
}
