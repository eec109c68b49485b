/** The 2-bit nucleotide code: A = 00, C = 01, G = 10, T/U = 11, four
    characters to a byte with the first character in the most significant
    pair. Packing is `translate_to_binary`; unpacking is
    `translate_from_binary` with its helpers `is_bit_set` and `decode_bits`. */
module Codec {
  import opened Base

  // ASCII codes of the nucleotide letters
  const A: u8 := 0x41
  const C: u8 := 0x43
  const G: u8 := 0x47
  const T: u8 := 0x54
  const U: u8 := 0x55

  /** `char::to_ascii_uppercase` on one ASCII byte. */
  function ToAsciiUpper(c: u8): (r: u8)
    ensures !(0x61 <= r <= 0x7A)
    ensures r != c ==> 0x61 <= c <= 0x7A && c - r == 0x20
  {
    if 0x61 <= c <= 0x7A then c - 0x20 else c
  }

  /** A, C, G, T or U in either case. */
  predicate IsNucleotide(c: u8)
  {
    c == A || c == C || c == G || c == T || c == U ||
    c == A + 0x20 || c == C + 0x20 || c == G + 0x20 || c == T + 0x20 || c == U + 0x20
  }

  predicate IsNucleotideString(s: seq<u8>)
  {
    forall i :: 0 <= i < |s| ==> IsNucleotide(s[i])
  }

  /** The 2-bit code of a nucleotide character, in either case. */
  function Code(c: u8): (r: nat)
    requires IsNucleotide(c)
    ensures r < 4
  {
    var u := ToAsciiUpper(c);
    if u == A then 0 else if u == C then 1 else if u == G then 2 else 3
  }

  /** The upper-case letter a code decodes to; `dna` selects T or U. */
  function Symbol(code: nat, dna: bool): u8
    requires code < 4
  {
    if code == 0 then A else if code == 1 then C else if code == 2 then G
    else if dna then T else U
  }

  /** `2u8.pow(n)`. */
  function Pow2(n: nat): (r: nat)
    ensures r >= 1
  {
    if n == 0 then 1 else 2 * Pow2(n - 1)
  }

  /** The value of a one in the j-th pair of a byte, counting pairs from the
      most significant: 2^(6 - 2j). */
  function Weight(j: nat): nat
    requires j < 4
  {
    if j == 0 then 64 else if j == 1 then 16 else if j == 2 then 4 else 1
  }

  /** The j-th pair of bits of `b`, counting from the most significant. */
  function Pair(b: u8, j: nat): (p: nat)
    requires j < 4
    ensures p < 4
  {
    if j == 0 then (b / 64) % 4 else if j == 1 then (b / 16) % 4
    else if j == 2 then (b / 4) % 4 else b % 4
  }

  // ---------------------------------------------------------------------
  // Packing

  function CodeAt(chunk: seq<u8>, j: nat): (r: nat)
    requires IsNucleotideString(chunk)
    ensures r < 4
  {
    if j < |chunk| then Code(chunk[j]) else 0
  }

  /** The byte that holds a chunk of at most four nucleotides; the pairs
      after the chunk's last character stay zero. */
  function PackChunk(chunk: seq<u8>): (b: u8)
    requires |chunk| <= 4 && IsNucleotideString(chunk)
  {
    64 * CodeAt(chunk, 0) + 16 * CodeAt(chunk, 1) + 4 * CodeAt(chunk, 2) + CodeAt(chunk, 3)
  }

  /** The packed form of a nucleotide string: one byte per chunk of four,
      the last chunk possibly shorter. */
  function Pack(s: seq<u8>): (r: seq<u8>)
    requires IsNucleotideString(s)
    ensures |r| == (|s| + 3) / 4
    decreases |s|
  {
    if s == [] then []
    else if |s| <= 4 then [PackChunk(s)]
    else [PackChunk(s[..4])] + Pack(s[4..])
  }

  /** Each pair of a chunk's byte holds the code of the character at that
      position, and the pairs past the chunk's end are zero. */
  lemma PackChunkPairs(chunk: seq<u8>)
    requires |chunk| <= 4 && IsNucleotideString(chunk)
    ensures forall j :: 0 <= j < 4 ==> Pair(PackChunk(chunk), j) == CodeAt(chunk, j)
  {
    var c0, c1, c2, c3 := CodeAt(chunk, 0), CodeAt(chunk, 1), CodeAt(chunk, 2), CodeAt(chunk, 3);
    var b := 64 * c0 + 16 * c1 + 4 * c2 + c3;
    assert b / 64 == c0;
    assert b / 16 == 4 * c0 + c1;
    assert b / 4 == 16 * c0 + 4 * c1 + c2;
  }

  /** Packing a string whose length is a multiple of four, then another,
      is packing their concatenation. */
  lemma {:induction false} PackAppend(a: seq<u8>, b: seq<u8>)
    requires IsNucleotideString(a) && IsNucleotideString(b)
    requires |a| % 4 == 0
    ensures IsNucleotideString(a + b)
    ensures Pack(a + b) == Pack(a) + Pack(b)
    decreases |a|
  {
    NucleotideConcat(a, b);
    if a == [] {
      assert a + b == b;
    } else {
      var head, tail := a[..4], a[4..];
      NucleotideSlices(a, 4);
      PackAppend(tail, b);
      assert a == head + tail && a + b == head + (tail + b);
      PackAppendStep(head, tail, b);
    }
  }

  /** One step of `PackAppend`: a chunk of four in front of both sides. */
  lemma PackAppendStep(h: seq<u8>, t: seq<u8>, b: seq<u8>)
    requires |h| == 4 && IsNucleotideString(h) && IsNucleotideString(t) && IsNucleotideString(b)
    requires IsNucleotideString(t + b) && Pack(t + b) == Pack(t) + Pack(b)
    ensures IsNucleotideString(h + t) && IsNucleotideString(h + (t + b))
    ensures Pack(h + (t + b)) == Pack(h + t) + Pack(b)
  {
    NucleotideConcat(h, t);
    NucleotideConcat(h, t + b);
    var x, y, z := [PackChunk(h)], Pack(t), Pack(b);
    assert Pack(h + (t + b)) == x + (y + z) by {
      PackCons(h, t + b);
    }
    assert Pack(h + t) == x + y by {
      PackCons(h, t);
    }
    AppendAssoc(x, y, z);
  }

  /** Four nucleotides followed by more pack as their byte followed by the
      packed rest. */
  lemma PackCons(h: seq<u8>, t: seq<u8>)
    requires |h| == 4 && IsNucleotideString(h) && IsNucleotideString(t) && IsNucleotideString(h + t)
    ensures Pack(h + t) == [PackChunk(h)] + Pack(t)
  {
    var s := h + t;
    assert s[..4] == h && s[4..] == t;
    if t == [] {
      assert s == h;
    }
  }

  lemma NucleotideConcat(a: seq<u8>, b: seq<u8>)
    requires IsNucleotideString(a) && IsNucleotideString(b)
    ensures IsNucleotideString(a + b)
  {
    forall i | 0 <= i < |a + b| ensures IsNucleotide((a + b)[i]) {
      if i < |a| {
        assert (a + b)[i] == a[i];
      } else {
        assert (a + b)[i] == b[i - |a|];
      }
    }
  }

  /** Bit layout: the character at index i sits in pair i % 4 of byte i / 4. */
  lemma {:induction false} PackLayout(s: seq<u8>, i: nat)
    requires IsNucleotideString(s) && i < |s|
    ensures i / 4 < |Pack(s)|
    ensures Pair(Pack(s)[i / 4], i % 4) == Code(s[i])
    decreases |s|
  {
    if |s| <= 4 {
      PackChunkPairs(s);
    } else {
      var head, tail := s[..4], s[4..];
      NucleotideSlices(s, 4);
      assert Pack(s) == [PackChunk(head)] + Pack(tail);
      if i < 4 {
        assert s[i] == head[i] && i / 4 == 0 && i % 4 == i;
        PackChunkPairs(head);
        assert Pair(PackChunk(head), i) == CodeAt(head, i) == Code(head[i]);
      } else {
        var k := i - 4;
        assert s[i] == tail[k];
        PackLayout(tail, k);
        assert k / 4 + 1 == i / 4 && k % 4 == i % 4 by {
          QuarterShift(k);
        }
        assert Pack(s)[i / 4] == Pack(tail)[k / 4];
      }
    }
  }

  lemma QuarterShift(k: nat)
    ensures (k + 4) / 4 == k / 4 + 1 && (k + 4) % 4 == k % 4
  {
  }

  /** The unused pairs of a partial last byte are zero. */
  lemma PackPadding(s: seq<u8>, j: nat)
    requires IsNucleotideString(s) && |s| % 4 != 0
    requires |s| % 4 <= j < 4
    ensures Pair(Pack(s)[|s| / 4], j) == 0
  {
    var last := s[|s| - |s| % 4..];
    PackLastByte(s);
    PackChunkPadding(last, j);
  }

  lemma PackLastByte(s: seq<u8>)
    requires IsNucleotideString(s) && |s| % 4 != 0
    ensures |s| / 4 < |Pack(s)|
    ensures Pack(s)[|s| / 4] == PackChunk(s[|s| - |s| % 4..])
  {
    var n := |s| / 4;
    var q := |s| - |s| % 4;
    assert q == 4 * n && 0 < |s| - q < 4;
    var head, last := s[..q], s[q..];
    assert Pack(s) == Pack(head) + Pack(last) by {
      NucleotideSlices(s, q);
      assert |head| % 4 == 0 by { CeilQuarter(n); }
      assert head + last == s;
      PackAppend(head, last);
    }
    assert |Pack(head)| == n by {
      CeilQuarter(n);
    }
    assert Pack(last) == [PackChunk(last)];
  }

  /** Both sides of a cut of a nucleotide string are nucleotide strings. */
  lemma NucleotideSlices(s: seq<u8>, k: nat)
    requires IsNucleotideString(s) && k <= |s|
    ensures IsNucleotideString(s[..k]) && IsNucleotideString(s[k..])
  {
    assert forall i :: 0 <= i < |s| - k ==> s[k..][i] == s[k + i];
  }

  lemma CeilQuarter(n: nat)
    ensures (4 * n + 3) / 4 == n && (4 * n) % 4 == 0
  {
  }

  lemma PackChunkPadding(chunk: seq<u8>, j: nat)
    requires |chunk| <= j < 4 && IsNucleotideString(chunk)
    ensures Pair(PackChunk(chunk), j) == 0
  {
    PackChunkPairs(chunk);
    assert CodeAt(chunk, j) == 0;
  }

  /** Only the 2-bit codes matter: upper and lower case, and T and U, pack
      to the same bytes. */
  lemma {:induction false} PackSameCodes(s: seq<u8>, t: seq<u8>)
    requires IsNucleotideString(s) && IsNucleotideString(t) && |s| == |t|
    requires forall i :: 0 <= i < |s| ==> Code(s[i]) == Code(t[i])
    ensures Pack(s) == Pack(t)
    decreases |s|
  {
    if 0 < |s| <= 4 {
      assert PackChunk(s) == PackChunk(t);
    } else if |s| > 4 {
      assert PackChunk(s[..4]) == PackChunk(t[..4]);
      PackSameCodes(s[4..], t[4..]);
    }
  }

  lemma PackStep(chunk: seq<u8>, j: nat)
    requires j < |chunk| <= 4 && IsNucleotideString(chunk)
    ensures PackChunk(chunk[..j + 1]) == PackChunk(chunk[..j]) + Code(chunk[j]) * Weight(j)
  {
    assert forall i :: 0 <= i < 4 && i != j ==> CodeAt(chunk[..j + 1], i) == CodeAt(chunk[..j], i);
    assert CodeAt(chunk[..j], j) == 0;
  }

  /** Before the j-th character is placed, its pair and all later ones are
      still zero, so there is room for any code there. */
  lemma PackChunkRoom(chunk: seq<u8>, j: nat)
    requires j < |chunk| <= 4 && IsNucleotideString(chunk[..j])
    ensures PackChunk(chunk[..j]) + 3 * Weight(j) < 0x100
  {
    var p := chunk[..j];
    assert forall k :: j <= k < 4 ==> CodeAt(p, k) == 0;
  }

  lemma PowWeight(j: nat)
    requires j < 4
    ensures Pow2(6 - 2 * j) == Weight(j)
    ensures Pow2(7 - 2 * j) == 2 * Weight(j)
  {
    if j == 0 {
      assert Pow2(7) == 128;
    } else if j == 1 {
      assert Pow2(5) == 32;
    } else if j == 2 {
      assert Pow2(3) == 8;
    } else {
      assert Pow2(1) == 2;
    }
  }

  /** `translate_to_binary`: packs the characters four to a byte; any
      character that is not a nucleotide aborts the whole encoding (the
      source panics), which is `None` here. */
  method TranslateToBinary(sequence: seq<u8>) returns (r: Option<seq<u8>>)
    ensures r.Some? <==> IsNucleotideString(sequence)
    ensures r.Some? ==> r.value == Pack(sequence)
  {
    var results: seq<u8> := [];
    var start := 0;
    while start < |sequence|
      invariant 0 <= start <= |sequence|
      invariant start < |sequence| ==> start % 4 == 0
      invariant IsNucleotideString(sequence[..start])
      invariant results == Pack(sequence[..start])
    {
      var end := if start + 4 <= |sequence| then start + 4 else |sequence|;
      var chars := sequence[start..end];
      var binaryData := EncodeChunk(chars);
      if binaryData.None? {
        NotNucleotideSlice(sequence, start, end);
        return None;
      }
      PackExtend(sequence, start, end);
      results := results + [binaryData.value];
      start := end;
    }
    assert sequence[..start] == sequence;
    return Some(results);
  }

  /** What the j-th character adds to its byte: nothing for A, the low bit
      of its pair for C, the high bit for G and both for T or U. */
  lemma BitsOfCode(c: u8, j: nat)
    requires j < 4 && IsNucleotide(c)
    ensures ToAsciiUpper(c) == A ==> Code(c) * Weight(j) == 0
    ensures ToAsciiUpper(c) == C ==> Code(c) * Weight(j) == Pow2(7 - 2 * j - 1)
    ensures ToAsciiUpper(c) == G ==> Code(c) * Weight(j) == Pow2(7 - 2 * j)
    ensures ToAsciiUpper(c) == T || ToAsciiUpper(c) == U ==>
      Code(c) * Weight(j) == Pow2(7 - 2 * j) + Pow2(7 - 2 * j - 1)
  {
    PowWeight(j);
  }

  /** A nucleotide prefix followed by a nucleotide is a nucleotide prefix. */
  lemma NucleotideExtend(s: seq<u8>, j: nat)
    requires j < |s| && IsNucleotideString(s[..j]) && IsNucleotide(s[j])
    ensures IsNucleotideString(s[..j + 1]) && s[..j + 1][..j] == s[..j]
  {
    assert forall i :: 0 <= i < j ==> s[..j + 1][i] == s[..j][i];
  }

  /** A string with a slice that is not a nucleotide string is not one. */
  lemma NotNucleotideSlice(s: seq<u8>, start: nat, end: nat)
    requires start <= end <= |s| && !IsNucleotideString(s[start..end])
    ensures !IsNucleotideString(s)
  {
    var j :| 0 <= j < end - start && !IsNucleotide(s[start..end][j]);
    assert s[start + j] == s[start..end][j];
  }

  /** One more chunk of a nucleotide string packs to one more byte. */
  lemma {:induction false} PackExtend(s: seq<u8>, start: nat, end: nat)
    requires start % 4 == 0 && start < end <= |s| && end - start <= 4
    requires end < |s| ==> end == start + 4
    requires IsNucleotideString(s[..start]) && IsNucleotideString(s[start..end])
    ensures IsNucleotideString(s[..end])
    ensures Pack(s[..end]) == Pack(s[..start]) + [PackChunk(s[start..end])]
    ensures end < |s| ==> end % 4 == 0
  {
    var chunk := s[start..end];
    assert s[..end] == s[..start] + chunk;
    assert Pack(chunk) == [PackChunk(chunk)];
    PackAppend(s[..start], chunk);
  }

  /** The inner loop of `translate_to_binary` over one chunk of at most four
      characters: the character at position p turns on `2^(7 - p)` for the
      high bit and `2^(6 - p)` for the low bit of its pair. */
  method EncodeChunk(chars: seq<u8>) returns (r: Option<u8>)
    requires |chars| <= 4
    ensures r.Some? <==> IsNucleotideString(chars)
    ensures r.Some? ==> r.value == PackChunk(chars)
  {
    var currentPosition := 0;
    var binaryData: u8 := 0;
    for j := 0 to |chars|
      invariant currentPosition == 2 * j
      invariant IsNucleotideString(chars[..j])
      invariant binaryData == PackChunk(chars[..j])
    {
      var c := chars[j];
      ghost var before := binaryData;
      PackChunkRoom(chars, j);
      var upper := ToAsciiUpper(c);
      if IsNucleotide(c) {
        BitsOfCode(c, j);
      }
      if upper == A {
        // 00: no bit to turn on
      } else if upper == C {
        binaryData := binaryData + Pow2(7 - currentPosition - 1);
      } else if upper == G {
        binaryData := binaryData + Pow2(7 - currentPosition);
      } else if upper == T || upper == U {
        binaryData := binaryData + Pow2(7 - currentPosition) + Pow2(7 - currentPosition - 1);
      } else {
        return None;
      }
      assert IsNucleotide(c) && binaryData == before + Code(c) * Weight(j);
      NucleotideExtend(chars, j);
      PackStep(chars[..j + 1], j);
      currentPosition := currentPosition + 2;
    }
    assert chars[..|chars|] == chars;
    return Some(binaryData);
  }

  // ---------------------------------------------------------------------
  // Unpacking

  /** `b >> k` on an unsigned byte. */
  function ShiftRight(b: u8, k: nat): u8
  {
    if k == 0 then b else ShiftRight(b / 2, k - 1)
  }

  /** `is_bit_set`: whether bit `7 - i` of `b` is set, so that index 0 is the
      most significant bit. */
  function IsBitSet(b: u8, i: nat): bool
    requires i < 8
  {
    if i == 7 then b % 2 == 1 else ShiftRight(b, 7 - i) % 2 == 1
  }

  /** The two bits of each pair are the high and low bit of its code. */
  lemma BitsOfPair(b: u8, j: nat)
    requires j < 4
    ensures IsBitSet(b, 2 * j) <==> Pair(b, j) >= 2
    ensures IsBitSet(b, 2 * j + 1) <==> Pair(b, j) % 2 == 1
  {
    ShiftValues(b);
    if j == 0 {
      BitsOfPair0(b);
    } else if j == 1 {
      BitsOfPair1(b);
    } else if j == 2 {
      BitsOfPair2(b);
    } else {
      BitsOfPair3(b);
    }
  }

  lemma BitsOfPair0(b: u8)
    ensures IsBitSet(b, 0) <==> Pair(b, 0) >= 2
    ensures IsBitSet(b, 1) <==> Pair(b, 0) % 2 == 1
  {
    ShiftValues(b);
    HighLowBits(ShiftRight(b, 6));
  }

  lemma BitsOfPair1(b: u8)
    ensures IsBitSet(b, 2) <==> Pair(b, 1) >= 2
    ensures IsBitSet(b, 3) <==> Pair(b, 1) % 2 == 1
  {
    ShiftValues(b);
    HighLowBits(ShiftRight(b, 4));
  }

  lemma BitsOfPair2(b: u8)
    ensures IsBitSet(b, 4) <==> Pair(b, 2) >= 2
    ensures IsBitSet(b, 5) <==> Pair(b, 2) % 2 == 1
  {
    ShiftValues(b);
    HighLowBits(ShiftRight(b, 2));
  }

  lemma BitsOfPair3(b: u8)
    ensures IsBitSet(b, 6) <==> Pair(b, 3) >= 2
    ensures IsBitSet(b, 7) <==> Pair(b, 3) % 2 == 1
  {
    ShiftValues(b);
    HighLowBits(b);
  }

  /** The high bit of a two-bit field is the bit above the lowest one. */
  lemma HighLowBits(x: nat)
    ensures (x / 2) % 2 == 1 <==> x % 4 >= 2
    ensures x % 2 == 1 <==> (x % 4) % 2 == 1
  {
  }

  /** `b >> k` is `b / 2^k`, and each further shift halves once more. */
  lemma ShiftValues(b: u8)
    ensures ShiftRight(b, 1) == b / 2
    ensures ShiftRight(b, 2) == b / 4 && ShiftRight(b, 3) == ShiftRight(b, 2) / 2
    ensures ShiftRight(b, 4) == b / 16 && ShiftRight(b, 5) == ShiftRight(b, 4) / 2
    ensures ShiftRight(b, 6) == b / 64 && ShiftRight(b, 7) == ShiftRight(b, 6) / 2
  {
    ShiftStep(b, 1);
    ShiftStep(b, 2);
    ShiftStep(b, 3);
    ShiftStep(b, 4);
    ShiftStep(b, 5);
    ShiftStep(b, 6);
  }

  lemma {:induction false} ShiftStep(b: u8, k: nat)
    ensures ShiftRight(b, k + 1) == ShiftRight(b, k) / 2
  {
    if k > 0 {
      ShiftStep(b / 2, k - 1);
    }
  }

  /** `decode_bits`: 00 -> A, 01 -> C, 10 -> G, 11 -> T for DNA, U for RNA. */
  function DecodeBits(bits: (bool, bool), dna: bool): (r: u8)
  {
    match bits
    case (false, false) => A
    case (false, true) => C
    case (true, false) => G
    case (true, true) => if dna then T else U
  }

  /** The four characters one byte decodes to, most significant pair first. */
  function Symbols(b: u8, dna: bool): (r: seq<u8>)
    ensures |r| == 4
  {
    [DecodeBits((IsBitSet(b, 0), IsBitSet(b, 1)), dna),
     DecodeBits((IsBitSet(b, 2), IsBitSet(b, 3)), dna),
     DecodeBits((IsBitSet(b, 4), IsBitSet(b, 5)), dna),
     DecodeBits((IsBitSet(b, 6), IsBitSet(b, 7)), dna)]
  }

  /** Decoding a byte reads each pair as a code. */
  lemma SymbolsArePairs(b: u8, dna: bool)
    ensures forall j :: 0 <= j < 4 ==> Symbols(b, dna)[j] == Symbol(Pair(b, j), dna)
  {
    forall j | 0 <= j < 4
      ensures Symbols(b, dna)[j] == Symbol(Pair(b, j), dna)
    {
      SymbolAt(b, j, dna);
    }
  }

  lemma SymbolAt(b: u8, j: nat, dna: bool)
    requires j < 4
    ensures Symbols(b, dna)[j] == Symbol(Pair(b, j), dna)
  {
    BitsOfPair(b, j);
    assert Symbols(b, dna)[j] == DecodeBits((IsBitSet(b, 2 * j), IsBitSet(b, 2 * j + 1)), dna);
  }

  /** What `translate_from_binary` appends for `bytes` once `stored`
      characters of the `n` expected have been stored: four characters per
      byte while at least four remain, otherwise only `n % 4` of them. */
  function Unpack(bytes: seq<u8>, n: nat, stored: nat, dna: bool): seq<u8>
    requires stored <= n
    decreases |bytes|
  {
    if bytes == [] then []
    else if n - stored < 4 then Symbols(bytes[0], dna)[..n % 4] + Unpack(bytes[1..], n, stored, dna)
    else Symbols(bytes[0], dna) + Unpack(bytes[1..], n, stored + 4, dna)
  }

  /** The characters a signed length and its bytes decode to: a non-negative
      length means DNA, and its magnitude is the character count. */
  function Decode(bytes: seq<u8>, length: i32): seq<u8>
  {
    Unpack(bytes, Abs(length), 0, length >= 0)
  }

  /** `translate_from_binary`. The source negates a negative length, which
      overflows for `i32::MIN`; that length is excluded. */
  method TranslateFromBinary(bytes: seq<u8>, length: i32) returns (result: seq<u8>)
    requires length != I32_MIN
    ensures result == Decode(bytes, length)
  {
    result := [];
    var charsStored: nat := 0;
    var isDna := length >= 0;
    var positiveLength: nat := if length < 0 then -length else length;
    assert bytes[0..] == bytes;
    for k := 0 to |bytes|
      invariant charsStored <= positiveLength
      invariant result + Unpack(bytes[k..], positiveLength, charsStored, isDna) == Decode(bytes, length)
    {
      var byte := bytes[k];
      var nucleotideChars := Symbols(byte, isDna);
      UnpackAt(bytes, k, positiveLength, charsStored, isDna);
      if positiveLength - charsStored < 4 {
        var nucleotidesInLastByte := positiveLength % 4;
        AppendAssoc(result, nucleotideChars[..nucleotidesInLastByte], Unpack(bytes[k + 1..], positiveLength, charsStored, isDna));
        result := result + nucleotideChars[..nucleotidesInLastByte];
      } else {
        AppendAssoc(result, nucleotideChars, Unpack(bytes[k + 1..], positiveLength, charsStored + 4, isDna));
        result := result + nucleotideChars;
        charsStored := charsStored + 4;
      }
    }
  }

  lemma AppendAssoc(a: seq<u8>, b: seq<u8>, c: seq<u8>)
    ensures (a + b) + c == a + (b + c)
  {
  }

  /** `Unpack` from byte k on: byte k's characters, then the rest. */
  lemma UnpackAt(bytes: seq<u8>, k: nat, n: nat, stored: nat, dna: bool)
    requires stored <= n && k < |bytes|
    ensures n - stored < 4 ==>
      Unpack(bytes[k..], n, stored, dna) == Symbols(bytes[k], dna)[..n % 4] + Unpack(bytes[k + 1..], n, stored, dna)
    ensures n - stored >= 4 ==>
      Unpack(bytes[k..], n, stored, dna) == Symbols(bytes[k], dna) + Unpack(bytes[k + 1..], n, stored + 4, dna)
  {
    UnpackHead(bytes[k..], n, stored, dna);
    assert bytes[k..][0] == bytes[k] && bytes[k..][1..] == bytes[k + 1..];
  }

  /** One step of `Unpack`: the first byte's characters, then the rest. */
  lemma UnpackHead(bytes: seq<u8>, n: nat, stored: nat, dna: bool)
    requires stored <= n && bytes != []
    ensures n - stored < 4 ==>
      Unpack(bytes, n, stored, dna) == Symbols(bytes[0], dna)[..n % 4] + Unpack(bytes[1..], n, stored, dna)
    ensures n - stored >= 4 ==>
      Unpack(bytes, n, stored, dna) == Symbols(bytes[0], dna) + Unpack(bytes[1..], n, stored + 4, dna)
  {
  }

  /** With ceil((n - stored) / 4) bytes, exactly the n - stored outstanding
      characters come out, and each is read from its own pair. */
  lemma {:induction false} UnpackExact(bytes: seq<u8>, n: nat, stored: nat, dna: bool)
    requires stored <= n && stored % 4 == 0
    requires |bytes| == (n - stored + 3) / 4
    ensures |Unpack(bytes, n, stored, dna)| == n - stored
    ensures forall i :: 0 <= i < n - stored ==>
      Unpack(bytes, n, stored, dna)[i] == Symbol(Pair(bytes[i / 4], i % 4), dna)
    decreases |bytes|
  {
    if bytes != [] {
      var out := Unpack(bytes, n, stored, dna);
      var head := Symbols(bytes[0], dna);
      UnpackHead(bytes, n, stored, dna);
      if n - stored < 4 {
        assert bytes[1..] == [];
        assert n % 4 == n - stored;
        assert out == head[..n - stored];
        forall i | 0 <= i < n - stored
          ensures out[i] == Symbol(Pair(bytes[i / 4], i % 4), dna)
        {
          SymbolAt(bytes[0], i, dna);
        }
      } else {
        var tail := Unpack(bytes[1..], n, stored + 4, dna);
        UnpackExact(bytes[1..], n, stored + 4, dna);
        assert out == head + tail;
        forall i | 0 <= i < n - stored
          ensures out[i] == Symbol(Pair(bytes[i / 4], i % 4), dna)
        {
          if i < 4 {
            SymbolAt(bytes[0], i, dna);
          } else {
            assert out[i] == tail[i - 4];
            assert (i - 4) / 4 == i / 4 - 1 && (i - 4) % 4 == i % 4;
          }
        }
      }
    }
  }

  /** A length and exactly ceil(|length| / 4) bytes decode to |length|
      characters: character i is pair i % 4 of byte i / 4, read as T for a
      non-negative length and as U for a negative one. */
  lemma DecodeExact(bytes: seq<u8>, length: i32)
    requires |bytes| == (Abs(length) + 3) / 4
    ensures |Decode(bytes, length)| == Abs(length)
    ensures forall i :: 0 <= i < Abs(length) ==>
      Decode(bytes, length)[i] == Symbol(Pair(bytes[i / 4], i % 4), length >= 0)
  {
    UnpackExact(bytes, Abs(length), 0, length >= 0);
  }

  /** The upper-case letters a nucleotide string decodes back to: T or U is
      chosen by `dna`, whatever the input used. */
  function Canonical(s: seq<u8>, dna: bool): (r: seq<u8>)
    requires IsNucleotideString(s)
    ensures |r| == |s|
  {
    seq(|s|, i requires 0 <= i < |s| => Symbol(Code(s[i]), dna))
  }

  /** Codec round trip: unpacking the packed form of a string with its
      length gives the string back, in upper case, with T or U as `dna` says. */
  lemma PackRoundTrip(s: seq<u8>, dna: bool)
    requires IsNucleotideString(s)
    ensures Unpack(Pack(s), |s|, 0, dna) == Canonical(s, dna)
  {
    UnpackExact(Pack(s), |s|, 0, dna);
    forall i | 0 <= i < |s|
      ensures Unpack(Pack(s), |s|, 0, dna)[i] == Canonical(s, dna)[i]
    {
      PackLayout(s, i);
    }
  }

  /** `str::to_ascii_uppercase` on a byte string. */
  function Upper(s: seq<u8>): (r: seq<u8>)
    ensures |r| == |s|
  {
    seq(|s|, i requires 0 <= i < |s| => ToAsciiUpper(s[i]))
  }

  predicate HasT(s: seq<u8>) { exists i :: 0 <= i < |s| && ToAsciiUpper(s[i]) == T }

  predicate HasU(s: seq<u8>) { exists i :: 0 <= i < |s| && ToAsciiUpper(s[i]) == U }

  /** Decoding restores the upper-cased input exactly when the alphabet flag
      matches: T (or no T/U at all) with DNA, U with RNA. */
  lemma CanonicalIsUpper(s: seq<u8>, dna: bool)
    requires IsNucleotideString(s)
    requires dna ==> !HasU(s)
    requires !dna ==> !HasT(s)
    ensures Canonical(s, dna) == Upper(s)
  {
    forall i | 0 <= i < |s|
      ensures Canonical(s, dna)[i] == Upper(s)[i]
    {
      if ToAsciiUpper(s[i]) == T {
        assert HasT(s);
      } else if ToAsciiUpper(s[i]) == U {
        assert HasU(s);
      }
    }
  }

  // ---------------------------------------------------------------------
  // Worked examples

  // Lower-case letters, as bytes
  const a: u8 := A + 0x20
  const c: u8 := C + 0x20
  const g: u8 := G + 0x20
  const t: u8 := T + 0x20
  const u: u8 := U + 0x20

  /** Packing single letters and whole chunks: "acgt" is 0b0001_1011 and
      "TGCA" is 0b1110_0100. */
  lemma PackExamples()
    ensures Pack([]) == []
    ensures Pack([a]) == [0x00] && Pack([c]) == [0x40] && Pack([g]) == [0x80]
    ensures Pack([t]) == [0xC0] && Pack([u]) == [0xC0]
    ensures Pack([a, c, g, t]) == [0x1B]
    ensures Pack([T, G, C, A]) == [0xE4]
  {
  }

  /** Unpacking four bytes of sixteen symbols: the bytes 0x00, 0x55, 0xAA
      and 0xFF hold four codes 0, four codes 1, four codes 2 and four codes
      3, read as A, C, G and then T for a positive length or U for a
      negative one. */
  lemma DecodeExample(b: seq<u8>, length: i32)
    requires b == [0x00, 0x55, 0xAA, 0xFF]
    requires length == 16 || length == -16
    ensures |Decode(b, length)| == 16
    ensures forall i :: 0 <= i < 16 ==> Decode(b, length)[i] == Symbol(i / 4, length >= 0)
  {
    DecodeExact(b, length);
    forall i | 0 <= i < 16
      ensures Decode(b, length)[i] == Symbol(i / 4, length >= 0)
    {
      assert b[i / 4] == (0x55 * (i / 4)) as u8;
      PairOfRepeat(i / 4, i % 4);
    }
  }

  /** Every pair of the byte 0x55 * k holds k. */
  lemma PairOfRepeat(k: nat, j: nat)
    requires k < 4 && j < 4
    ensures Pair((0x55 * k) as u8, j) == k
  {
    if k == 0 {
    } else if k == 1 {
    } else if k == 2 {
    } else {
    }
  }
}
