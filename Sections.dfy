/** The two record types the converter moves between: a FASTA text section
    and its packed binary counterpart. */
module Sections {
  import opened Base

  // ASCII bytes that structure a FASTA file
  const GT: u8 := 0x3E
  const NL: u8 := 0x0A
  const CR: u8 := 0x0D

  /** `FastaSection`: the descriptor (header text without the `>`) and the
      nucleotide text, both as the bytes of their UTF-8 strings. */
  datatype FastaSection = FastaSection(descriptor: seq<u8>, sequence: seq<u8>)

  /** `BinaryFastaSection`: the descriptor, the packed 2-bit codes and the
      signed symbol count, whose sign says DNA (non-negative) or RNA. */
  datatype BinarySection = BinarySection(descriptor: seq<u8>, sequence: seq<u8>, sequenceLength: i32)
}
