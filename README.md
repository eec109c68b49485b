# Binary FASTA ("basta") converter — a Dafny model

Binary-Fasta converts FASTA text files to a packed binary format, "basta", and back.

- **Text format.** A FASTA file is a series of sections. Each section has a `>` header line holding its descriptor, followed by sequence lines over the nucleotide letters A, C, G and T (DNA) or U (RNA).
- **Binary format.** Each section becomes one frame. In order, a frame holds:
  1. one byte with the descriptor's length;
  2. the symbol count as a 4-byte big-endian signed integer, negative for RNA;
  3. the descriptor's bytes;
  4. the sequence packed four letters to a byte.
- **Packing.** The codes are A=00, C=01, G=10 and T/U=11. The first letter goes in the two most significant bits.

The model covers the following, with the inputs the program gets from files made into plain values:

- the nucleotide codec: encoding, bit tests, decoding, and DNA/RNA detection;
- the frame writer and the frame decoder over a byte cursor;
- the conversions between text sections and binary sections;
- the streaming drivers: the binary reader and writer, and the FASTA line-grouping reader, header check and writer;
- the older whole-file drivers;
- the file-name rules: extension classification and switching, and the command-line suffix check.

Files and their contents are byte sequences (`seq<u8>`). The lines a reader sees are a sequence of `Result`s. A writer's output is the sequence of bytes it appends. `i32` and `usize` are bounded integer subsets, and the source's truncating `/` and `%` and its `as usize` cast are written out.

The modules follow the program:

| module | source |
|---|---|
| `Base` | integer widths, big-endian bytes, UTF-8 validity, the error kinds, `Result`/`Option` helpers |
| `Sections` | the two section records |
| `Codec` | `translate_to_binary`, `is_bit_set`, `decode_bits` and `translate_from_binary` |
| `FastaSections` | `FastaSection::new`, `is_dna`, `from_basta` and the 50-column `convert_to_bytes` |
| `BinarySections` | `get_descriptor_byte_length`, `from_fasta` and `convert_to_bytes` |
| `Frames` | `from_bytes`, both as written and with the byte count corrected |
| `BastaData` | the streaming binary driver |
| `FastaData` | the streaming FASTA driver |
| `LegacyBinaryData` | the older whole-file binary driver |
| `LegacyFastaData` | the older whole-file FASTA driver |
| `NucleotideFiles` | `NucleotideFile::new`, `get_opposite_type` and `switch_extension` |
| `Parser` | `parse_input` |
| `RoundTrip` | the section and file round trips that tie the parts together |

Imperative code is modelled by methods with loops, proved against the functions that specify them:

- `Codec.TranslateToBinary`, `Codec.EncodeChunk` and `Codec.TranslateFromBinary`;
- `FastaSections.DetectDna` and `FastaSections.ConvertToBytes`;
- `Frames.FromBytes` over the `Frames.ByteCursor` class;
- each driver's `Read` and `Write`.

The lazy iterators are classes with a `Next` method: `BastaData.SectionReader` and `FastaData.FastaReader`. Each `Next` keeps `old(Rest()) == [item] + Rest()`, where the ghost `Rest()` is the function that specifies the whole stream.

## Model

| member | source | states |
|---|---|---|
| Base.TruncDiv | src/basta/binary_fasta_section.rs:65-66 | Rust's `/` on `i32` truncates toward zero: for `a >= 0` the quotient is the largest `q` with `q * b <= a`, for `a < 0` the smallest `q` with `q * b >= a` |
| Base.TruncRem | src/basta/binary_fasta_section.rs:65-66 | Rust's `%` satisfies `a == (a / b) * b + r`, with `r` in `[0, b)` for `a >= 0` and in `(-b, 0]` for `a < 0` |
| Base.I32AsUsize | src/basta/binary_fasta_section.rs:65-66 | `as usize` gives the one value below `2^64` that is congruent to the `i32` modulo `2^64` |
| Base.FromBeBytes | src/basta/binary_fasta_section.rs:47-51 | `i32::from_be_bytes` gives a negative number exactly when the first byte has its top bit set |
| Base.BeBytesRoundTrip | src/basta/binary_fasta_section.rs:89 | reading back the 4 big-endian bytes of any `i32` gives the same number |
| Base.BeBytesRoundTripBytes | src/basta/binary_fasta_section.rs:47-51 | every 4 bytes are the big-endian bytes of the `i32` they decode to, so the count field loses nothing |
| Base.AsciiIsUtf8 | src/basta/binary_fasta_section.rs:59-60 | bytes below 0x80 always pass the UTF-8 check on descriptors |
| Base.Utf8Concat | src/basta/binary_fasta_section.rs:59-60 | the concatenation of two UTF-8 byte strings is UTF-8 |
| Base.CollectOks | src/fasta_data.rs:36-37 | collecting a sequence of `Ok` items gives all of them, in order |
| Base.CollectPrepend | src/fasta_data.rs:36-41 | collecting `Ok` items ahead of a stream prepends them to what the stream collects to, or gives its first error |
| Codec.ToAsciiUpper | src/basta/binary_fasta_section.rs:109 | `to_ascii_uppercase` never returns a byte in `a`..`z`, and changes a byte only when it is in `a`..`z`, lowering it by 0x20 |
| Codec.Pack | src/basta/binary_fasta_section.rs:99-135 | the packed form of `n` nucleotide letters has exactly `ceil(n/4)` bytes |
| Codec.PackChunkPairs | src/basta/binary_fasta_section.rs:103-131 | the `j`-th 2-bit pair of a chunk's byte, counted from the most significant bits, is the code of the chunk's `j`-th letter; missing letters give 00 |
| Codec.PackLayout | src/basta/binary_fasta_section.rs:99-135 | letter `i` of the sequence is the pair `i mod 4` of byte `i / 4` of the packed form |
| Codec.PackPadding | src/basta/binary_fasta_section.rs:103-132 | the unused low pairs of a partly filled last byte are 00 |
| Codec.PackLastByte | src/basta/binary_fasta_section.rs:103-132 | the last byte of a sequence whose length is not a multiple of 4 packs just its `len mod 4` trailing letters |
| Codec.PackAppend | src/basta/binary_fasta_section.rs:103-133 | packing a whole number of chunks followed by more letters is the concatenation of the two packed forms |
| Codec.PackSameCodes | src/basta/binary_fasta_section.rs:109-126 | sequences whose letters have the same codes pack to the same bytes, so upper and lower case, and T and U, are indistinguishable |
| Codec.TranslateToBinary | src/basta/binary_fasta_section.rs:99-135 | the encoder succeeds exactly when every letter is A, C, G, T or U in either case, and then returns the packed form; any other letter is the panic, as `None` |
| Codec.EncodeChunk | src/basta/binary_fasta_section.rs:104-132 | the inner loop over a chunk of at most 4 letters, adding `2^(7-p)` and/or `2^(6-p)` per letter, produces the chunk's packed byte, or `None` at a letter outside the alphabet |
| Codec.BitsOfCode | src/basta/binary_fasta_section.rs:110-126 | the amount each letter adds at position `2j` is 0 for A, `2^(6-2j)` for C, `2^(7-2j)` for G, and their sum for T/U |
| Codec.BitsOfPair | src/fasta_section.rs:57-64 | `is_bit_set(b, 2j)` is the high bit and `is_bit_set(b, 2j+1)` the low bit of the `j`-th pair, counting from the most significant bit |
| Codec.ShiftValues | src/fasta_section.rs:80-91 | shifting a byte right by `k` is division by `2^k` |
| Codec.Symbols | src/fasta_section.rs:57-65 | each byte decodes to exactly 4 letters |
| Codec.SymbolsArePairs | src/fasta_section.rs:57-65 | letter `j` of a byte's 4 letters is `decode_bits` of its `j`-th pair: 00→A, 01→C, 10→G, and 11→T for DNA or U for RNA |
| Codec.UnpackExact | src/fasta_section.rs:56-77 | with `ceil((n - stored)/4)` bytes left the loop emits exactly `n - stored` letters: 4 per full byte, and only `n mod 4` from the last |
| Codec.DecodeExact | src/fasta_section.rs:46-78 | with `ceil(abs(len)/4)` bytes, `translate_from_binary` gives exactly `abs(len)` letters; letter `i` decodes pair `i mod 4` of byte `i/4` as DNA when `len >= 0` |
| Codec.TranslateFromBinary | src/fasta_section.rs:46-78 | the decoding loop computes the decoding function for every byte string and every length but `i32::MIN` |
| Codec.PackRoundTrip | src/fasta_section.rs:46-78 | unpacking the packed form of a sequence gives the sequence upper-cased, with T/U in the chosen alphabet |
| Codec.CanonicalIsUpper | src/fasta_section.rs:141-163 | for a sequence with no U (DNA) or no T (RNA), that canonical form is just the sequence upper-cased |
| Codec.PackExamples | src/basta/binary_fasta_section.rs:142-174 | `""`→none, `a`→0x00, `c`→0x40, `g`→0x80, `t` and `u`→0xC0, `acgt`→0x1B, `TGCA`→0xE4 |
| Codec.DecodeExample | src/fasta_section.rs:141-163 | bytes 0x00 0x55 0xAA 0xFF with length ±16 decode to four A, four C, four G, then four T (positive) or four U (negative) |
| FastaSections.TrimStart | src/fasta_section.rs:14 | `trim_start_matches` removes exactly the leading run of the byte: what it drops is all that byte, and what remains does not start with it |
| FastaSections.TrimEnd | src/fasta_section.rs:15 | `trim_end_matches` removes exactly the trailing run of the byte |
| FastaSections.New | src/fasta_section.rs:12-21 | the sequence is kept unchanged, and the descriptor neither starts with `>` nor ends with a newline |
| FastaSections.NewStrips | src/fasta_section.rs:12-21 | the descriptor is a slice of the header with only `>` before it and only newlines after it; with the clean ends, both runs are removed whole |
| FastaSections.NewOfHeader | src/fasta_section.rs:12-21 | a header line `>` + d, with d clean, gives descriptor d |
| FastaSections.NewKeepsUtf8 | src/fasta_section.rs:12-21 | cleaning a UTF-8 descriptor leaves it UTF-8 |
| FastaSections.DetectDna | src/fasta_section.rs:33-44 | the scan returns true at the first T/t, false at the first U/u, and true when neither occurs |
| FastaSections.IsDnaOfAlphabet | src/fasta_section.rs:33-44 | a sequence with no U/u is DNA; one with a U/u and no T/t is RNA |
| FastaSections.FromBasta | src/fasta_section.rs:23-31 | the descriptor is kept; with `ceil(abs(len)/4)` bytes the sequence has `abs(len)` letters decoded pair by pair in the alphabet of the sign |
| FastaSections.ConvertToBytes | src/fasta_section.rs:108-135 | the loop emits `>`, the descriptor and `\n`, then the sequence wrapped at 50 letters |
| FastaSections.WrapLayout | src/fasta_section.rs:122-133 | in the wrapped sequence every 51st byte is a newline and every other byte is the next letter of the sequence |
| FastaSections.WrapLength | src/fasta_section.rs:124-133 | the wrapped sequence has one newline per full 50-letter line that has more letters after it |
| FastaSections.WrapEnd | src/fasta_section.rs:130-132 | the wrapped sequence ends with the sequence's last letter: there is no trailing newline |
| FastaSections.WrapUnwrap | src/fasta_section.rs:124-133 | removing the newlines from the wrapped sequence gives the sequence with its own newlines removed |
| FastaSections.WrapChunks | src/fasta_section.rs:124-133 | the wrapped sequence plus a newline is its lines of at most 50 letters, each ended by a newline, and the lines concatenate back to the sequence |
| BinarySections.DescriptorByteLength | src/basta/binary_fasta_section.rs:17-19 | the length fits in a byte exactly when the descriptor has at most 255 bytes, and is then that length; otherwise it is the panic, as `None` |
| BinarySections.FromFasta | src/basta/binary_fasta_section.rs:21-32 | defined exactly for sequences over the alphabet with at most `i32::MAX` letters; keeps the descriptor, packs the sequence, and stores the letter count negated exactly when `is_dna` is false |
| BinarySections.FrameBytes | src/basta/binary_fasta_section.rs:80-97 | a frame has `5 + len(descriptor) + len(sequence)` bytes |
| BinarySections.ConvertToBytes | src/basta/binary_fasta_section.rs:80-97 | byte 0 is the descriptor length, bytes 1-4 the count in big-endian, then the descriptor, then the packed sequence |
| Frames.SequenceByteCountAsWritten | src/basta/binary_fasta_section.rs:65-66 | the byte count as the source computes it from the signed count: `ceil(n/4)` for `n >= 0`, always below `2^64` |
| Frames.SequenceByteCount | src/fasta_section.rs:54 | the intended byte count is `ceil(abs(n)/4)`, the bytes the decoder reads |
| Frames.CountsAgree | src/basta/binary_fasta_section.rs:65-66 | the two counts agree exactly when `n > -4` |
| Frames.ParseFrameWith | src/basta/binary_fasta_section.rs:34-78 | with the count as written or as intended: `UnexpectedEof`, consuming all that is left, when the length byte, a count byte, a descriptor byte or a packed byte is missing; `InvalidUtf8Descriptor` exactly when the descriptor is not UTF-8; otherwise the header's descriptor and count and the next packed bytes of that count |
| Frames.ParseFrame | src/basta/binary_fasta_section.rs:34-78 | `UnexpectedEof` when the length byte, a count byte, a descriptor byte or a sequence byte is missing; `InvalidUtf8Descriptor` exactly when the descriptor is not UTF-8; on success the descriptor and count are the ones in the header |
| Frames.FrameRoundTrip | src/basta/binary_fasta_section.rs:34-97 | reading a well-formed section's frame followed by any bytes gives the section back and consumes exactly the frame |
| Frames.FrameRoundTripAsWritten | src/basta/binary_fasta_section.rs:34-97 | the decoder as written reads a well-formed section's frame, followed by any bytes, back as the section when its count is above -4, consuming exactly the frame |
| Frames.FrameRoundTripWith | src/basta/binary_fasta_section.rs:34-97 | the frame round trip for either count: always with the intended one, for counts above -4 with the one as written |
| Frames.FrameParsed | src/basta/binary_fasta_section.rs:34-97 | every frame that reads successfully is a well-formed section's frame, byte for byte |
| Frames.AsWrittenAgrees | src/basta/binary_fasta_section.rs:65-66 | for counts above -4 the decoder as written reads the same frame as the corrected one |
| Frames.RnaFrameMiscount | src/basta/binary_fasta_section.rs:65-66 | the RNA section `ACGU` (count -4) frames as 00 FF FF FF FC 1B; the decoder as written fails on it with `UnexpectedEof`, and the corrected one reads it back |
| Frames.RnaFrameMiscountFollowed | src/basta/binary_fasta_section.rs:65-66 | the frame of `ACGU` followed by fewer than `2^64 - 2` bytes makes the decoder as written consume everything and fail with `UnexpectedEof` |
| Frames.RnaFrameTruncated | src/basta/binary_fasta_section.rs:65-66 | for count -6 the decoder as written reads 0 sequence bytes instead of 2, and leaves them unread |
| Frames.EncodeAllAppend | src/binary_fasta_data.rs:25 | the bytes of two lists of sections are the bytes of each, concatenated |
| Frames.ByteCursor.HasNext | src/basta/binary_fasta_data.rs:47 | `peek` reports whether a byte remains |
| Frames.ByteCursor.Next | src/basta/binary_fasta_section.rs:38 | `next` yields the first remaining byte and advances by one, or `None` at the end |
| Frames.ByteCursor.Take | src/basta/binary_fasta_section.rs:42-68 | `take(n)` yields the first `min(n, remaining)` bytes and advances past them |
| Frames.FromBytes | src/basta/binary_fasta_section.rs:34-78 | decoding from the cursor, with the count as written or as intended, returns that frame read's result and advances the cursor by exactly the bytes it consumed |
| BastaData.FromFastaStream | src/basta/binary_fasta_data.rs:9-19 | item by item: each section converted with its descriptor, its packed sequence and its letter count, negative exactly when it is not DNA; every error, whatever its kind, replaced by `UnexpectedEof` |
| BastaData.DecodeStream | src/basta/binary_fasta_data.rs:35-55 | with the count as written or as intended: the stream is empty exactly when no byte remains, and otherwise starts with the frame read at the front of the bytes |
| BastaData.SectionReader.constructor | src/basta/binary_fasta_data.rs:38-44 | the reader over the file's bytes has the whole stream, read with the count as written, still to yield |
| BastaData.SectionReader.Next | src/basta/binary_fasta_data.rs:46-54 | a step yields nothing exactly when no byte remains, and otherwise yields one frame's result, read with the count as written, the stream going on after it |
| BastaData.DecodeEncoded | src/basta/binary_fasta_data.rs:35-55 | reading the concatenated frames of well-formed sections yields each section, in order, and then ends: always with the intended count, and with the count as written when every count is above -4 |
| BastaData.RnaStreamMiscount | src/basta/binary_fasta_data.rs:46-54 | a file starting with the RNA section `ACGU` yields one `UnexpectedEof` and nothing more when read as written, and the section and then the rest of the stream with the intended count |
| BastaData.Write | src/basta/binary_fasta_data.rs:21-33 | the writing loop's output and result are `Written` of the items: the frames up to the first error, then that error (see `WrittenAllOk`, `WrittenStopsAtError`) |
| BastaData.WrittenAllOk | src/basta/binary_fasta_data.rs:27-32 | with no error the output is the concatenated frames of the sections, in order, and the result is `Ok` |
| BastaData.WrittenStopsAtError | src/basta/binary_fasta_data.rs:28 | the first error is returned and only the frames before it are written |
| FastaData.FromBastaStream | src/fasta/fasta_data.rs:12-19 | item by item: each section decoded by `from_basta`, and each error passed on unchanged |
| FastaData.ValidateFasta | src/fasta/fasta_data.rs:66-82 | success exactly when the file starts with `>`; an empty file is `UnexpectedEof`, and any other first byte is `MalformedFastaHeader` with the path |
| FastaData.LineEnd | src/fasta/fasta_data.rs:28 | the first newline of the bytes, or their end |
| FastaData.FastaReader.constructor | src/fasta/fasta_data.rs:28-33 | the reader over the lines starts with no pending header and no data, so it has the whole grouped stream still to yield |
| FastaData.FastaReader.Next | src/fasta/fasta_data.rs:33-63 | a step strips one trailing `\r`, emits the pending section at the next header, passes on a line error, and flushes the pending section once at the end; it yields nothing exactly when the grouped stream is exhausted |
| FastaData.Read | src/fasta/fasta_data.rs:21-24 | the read fails exactly when the header check fails |
| FastaData.GroupCounts | src/fasta/fasta_data.rs:33-63 | one section per header line (plus the pending one) and one error per failed line: data before the first header never makes a section |
| FastaData.LeadingDataDropped | src/fasta/fasta_data.rs:47-49 | data lines before the first header are discarded |
| FastaData.GroupData | src/fasta/fasta_data.rs:50-52 | plain lines are concatenated with no separator onto the pending data |
| FastaData.GroupHeader | src/fasta/fasta_data.rs:42-49 | a header line emits the pending section with its data and becomes the new pending header with empty data |
| FastaData.Write | src/fasta/fasta_data.rs:84-100 | the writing loop's output and result are `Written` of the items: each section's text and a newline up to the first error, then that error (see `WrittenText`) |
| FastaData.WrittenText | src/fasta/fasta_data.rs:91-96 | with no error the output is every section's text followed by `\n`, and the result is `Ok`; at the first error only the sections before it are written and that error is returned |
| FastaData.WriteTextLines | src/fasta/fasta_data.rs:91-96 | the written file is its header and sequence lines, each ended by a newline |
| FastaData.LinesOfTerminated | src/fasta/fasta_data.rs:28 | splitting newline-ended UTF-8 lines without `\r` or `\n` gives those lines back |
| FastaData.GroupFile | src/fasta/fasta_data.rs:33-63 | grouping the lines of written sections gives the pending section and then those sections |
| FastaData.ReadWritten | src/fasta/fasta_data.rs:21-100 | reading a written file gives every section back in order; an empty file is `UnexpectedEof` |
| LegacyBinaryData.FromFastaData | src/binary_fasta_data.rs:13-22 | one binary section per text section, in order, each keeping its descriptor, packing its sequence and storing its letter count, negative exactly when it is not DNA; defined exactly when every section can be converted |
| LegacyBinaryData.FromFastaAgrees | src/binary_fasta_data.rs:13-22 | when every section converts, the older conversion gives the same binary sections as the streaming one |
| LegacyBinaryData.Write | src/binary_fasta_data.rs:24-34 | the byte-by-byte loop writes the concatenation of every section's frame, in order |
| LegacyBinaryData.Read | src/binary_fasta_data.rs:36-47 | the loop, decoding one frame per step with the count as written while bytes remain, returns `ReadAll` of the bytes: every section in order, or the first frame's error |
| LegacyBinaryData.ReadAllCollects | src/binary_fasta_data.rs:36-47 | with either count, the whole-file reader gives what the streaming reader's items collect to |
| LegacyBinaryData.ReadWritten | src/binary_fasta_data.rs:24-47 | reading the written frames of well-formed sections gives the sections back, an empty buffer giving none: always with the intended count, and with the count as written when every count is above -4 |
| LegacyFastaData.FromBastaData | src/fasta_data.rs:15-24 | one text section per binary section, in order, each the `from_basta` of it |
| LegacyFastaData.FromBastaAgrees | src/fasta_data.rs:15-24 | the older conversion gives the same sections as the streaming one |
| LegacyFastaData.Read | src/fasta_data.rs:26-56 | the reading loop returns `ReadLines` of the lines: the grouped sections, or the first line error |
| LegacyFastaData.ReadersAgree | src/fasta_data.rs:26-56 | on lines without a trailing `\r` or `\n` the older reader gives what the streaming reader's items collect to, including its first error |
| LegacyFastaData.NoHeaderNoSections | src/fasta_data.rs:50-55 | input with no header line gives no section |
| LegacyFastaData.CarriageReturnKept | src/fasta_data.rs:46 | the older reader keeps a trailing `\r` in the data; the streaming reader drops it |
| LegacyFastaData.Write | src/fasta_data.rs:58-70 | the writing loop emits every section's text and a newline, in order |
| LegacyFastaData.ReadWritten | src/fasta_data.rs:26-70 | reading a written file gives the sections back |
| NucleotideFiles.LastIndexOf | src/nucleotide_file.rs:24 | the last position of a character, or `None` when it is absent |
| NucleotideFiles.Trimmed | src/nucleotide_file.rs:24 | the path's components ignore trailing separators and `.` components: the trimmed path is a prefix of the path that drops only `/` and `.`, ends in neither `/` nor `/.`, and is the path itself when it already does not |
| NucleotideFiles.NameStart | src/nucleotide_file.rs:24 | the file name starts after the last separator |
| NucleotideFiles.FileName | src/nucleotide_file.rs:24 | the last component of the trimmed path, absent when it is empty, `.` or `..` |
| NucleotideFiles.ExtensionDot | src/nucleotide_file.rs:24 | the extension's dot is the last dot of the file name, and not its first byte |
| NucleotideFiles.Extension | src/nucleotide_file.rs:24 | the trimmed path is its stem, a dot and the extension |
| NucleotideFiles.New | src/nucleotide_file.rs:20-40 | accepted exactly for the extensions `fasta`, `fa`, `basta` and `ba`; `fasta`/`fa` are FASTA; the extension is long exactly when it has 5 letters; the path is kept; otherwise the error names the path |
| NucleotideFiles.OppositeType | src/nucleotide_file.rs:42-47 | the opposite format differs from the format |
| NucleotideFiles.OppositeInvolution | src/nucleotide_file.rs:42-47 | taking the opposite twice gives the format back |
| NucleotideFiles.TargetExtension | src/nucleotide_file.rs:50-62 | FASTA switches to `basta`/`ba` and binary to `fasta`/`fa`, long exactly when the file's extension is long |
| NucleotideFiles.WithExtension | src/nucleotide_file.rs:66 | `with_extension` replaces the text after the extension's dot, or appends `.` and the extension to the trimmed path when it has none; a path with no file name is left unchanged |
| NucleotideFiles.SwitchExtension | src/nucleotide_file.rs:49-69 | the switched file has the opposite format and keeps `long_extension` |
| NucleotideFiles.ReplacedExtension | src/nucleotide_file.rs:66 | replacing the extension keeps the file name's start and the dot, and the new extension is the one given |
| NucleotideFiles.SwitchedPath | src/nucleotide_file.rs:49-69 | the switched path is the stem, a dot and the target extension |
| NucleotideFiles.SwitchKeepsStem | src/nucleotide_file.rs:164-175 | switching keeps the directory and stem and changes the extension |
| NucleotideFiles.SwitchedIsAccepted | src/nucleotide_file.rs:20-69 | the switched path is itself accepted, as the switched file |
| NucleotideFiles.SwitchTwice | src/nucleotide_file.rs:49-69 | switching twice gives the file back, its path without trailing separators and `.` components |
| NucleotideFiles.NestedPathSwitch | src/nucleotide_file.rs:163-175 | `/path/to/test.fasta` is a long FASTA file and switches to `/path/to/test.basta` |
| NucleotideFiles.TrailingSeparatorIgnored | src/nucleotide_file.rs:20-69 | `x.fasta/` is a long FASTA file, and switches to `x.basta` |
| Parser.ParseInput | src/parser.rs:3-9 | accepted exactly when the string ends with `.fa`, `.fasta`, `.ba` or `.basta`, returned unchanged; otherwise the error message contains the input |
| Parser.ClassifiedIsParsed | src/parser.rs:3-9 | every path `NucleotideFile::new` accepts passes the suffix check once its trailing separators and `.` components are removed |
| Parser.HiddenFilePassesCheck | src/parser.rs:4 | `.fa` passes the suffix check but has no extension, so `NucleotideFile::new` refuses it |
| Parser.TrailingSeparatorRefused | src/parser.rs:3-9 | `x.fasta/` fails the suffix check although `NucleotideFile::new` accepts it |
| Parser.UpperCaseRefused | src/parser.rs:4 | the suffix check is case-sensitive: `x.FA` is refused |
| RoundTrip.SectionRoundTrip | src/basta/binary_fasta_section.rs:21-32 | a section converted to binary and back keeps its descriptor and gets its sequence in canonical form; the binary section is well-formed |
| RoundTrip.SingleAlphabetRoundTrip | src/fasta_section.rs:141-163 | a sequence in one alphabet comes back upper-cased and otherwise unchanged |
| RoundTrip.Encoded | src/basta/binary_fasta_data.rs:15-16 | one binary section per text section |
| RoundTrip.FileRoundTrip | tests/round_trip_fasta.rs:11-47 | written FASTA read back, converted, written as binary, read back and converted again gives every section, in order, in canonical form: always with the intended count, and with the count as written when no section is RNA of four or more letters |

## Left out

- File I/O is not modelled: opening, creating, buffering and flushing, and every `Io` error except a line that is not UTF-8. Files are byte sequences, and a writer's output is the bytes it appends.
- Laziness is not modelled: each iterator is a class stepping over all its input. The `expect` on byte-read errors in the streaming reader cannot happen on a byte sequence.
- Panics become `None` results or preconditions. This covers a letter outside the alphabet, a descriptor over 255 bytes, and a count over `i32::MAX`.
- The `i32::MIN` overflow in the decoder's negation is excluded by a precondition.
- Letters are counted as bytes. `chars().count()` counts code points; the two agree on the nucleotide alphabet, which is the only case `from_fasta` does not panic on.
- Paths are `/`-separated strings. Platform path rules are not modelled: prefixes, non-UTF-8 paths, and the `expect` on `to_str`.
- The command-line interface (clap's `Args`, `main`) and the error messages' display text are not modelled.
- The older drivers call `BinaryFastaSection::new` and a `from_bytes` without an error result, from `src/binary_fasta_section.rs`. That file is not part of this model. Both are modelled by the same conversion and frame decoder as the newer code, with the count as written. In `LegacyBinaryData.ReadAll` a frame that cannot be read ends the read with its error.
- The newer files import `fasta::fasta_section`, which is not part of this model. It is taken to be `src/fasta_section.rs`.
- The frame decoder, the streaming reader and the older reader take the byte count as a parameter: the drivers `SectionReader` and `LegacyBinaryData.Read` use the count as written, and the stream round trips hold for it only over counts above -4. With the intended count they hold for every well-formed section.
- The mixed-case example at src/basta/binary_fasta_section.rs:176-185 has no concrete lemma. It is covered by `Codec.PackSameCodes` and `Codec.PackLayout`.

## Findings

| source | as written | input that shows it | evidently intended | confidence | as-written member | corrected member |
|---|---|---|---|---|---|---|
| src/basta/binary_fasta_section.rs:65-66 | the number of sequence bytes is computed from the signed count: for an RNA count of -4, or of -8 and below, it is negative and wraps to a huge number; for -5 to -7 it is 0 | the RNA section `ACGU` frames as 00 FF FF FF FC 1B, which the decoder fails on with `UnexpectedEof`, so a file starting with it reads as that one error (`BastaData.RnaStreamMiscount`); a count of -6 reads 0 bytes instead of 2 | `ceil(abs(n)/4)` bytes, the number the decoder uses | not executed | Frames.RnaFrameMiscount | Frames.FrameRoundTrip |
