# packed_dna in Dafny

A model of the `dna` crate's core (`dna/src/lib.rs`), in two modules:

- **Nucleotide** (`nucleotide.dfy`). This is the `Nuc` alphabet (A, C, G, T) with its two parsers.
  - `TryFromChar` handles one character and ignores ASCII case. Its error carries the character as given.
  - `FromStr` handles a string that must be exactly one letter. Its error carries the upper-cased string.
  - It also holds the 2-bit code table A=0, C=1, G=2, T=3 (`Code` and `FromCode`) that the packed container shares.
- **Packed** (`packed.dfy`). This is the `PackedDna` container: a class holding a byte array, four 2-bit codes per byte, plus a logical length.
  - The code of position `i` sits in byte `i / 4` at bit offset `(i % 4) * 2`.
  - Bit pairs past the length in the last byte are zero.
  - There are three operations:
    - The constructor `FromNucs` builds from a sequence of nucleotides and cannot fail.
    - The static method `FromStr` builds from text. It upper-cases the text, then packs codes in a loop. It stops at the first character that is not A/C/G/T.
    - The function `Get` does the indexed decode.
  - Each operation is proved against a specification function: `Pack` (the buffer of a nucleotide sequence), `DecodeAt` (mask-and-shift decoding) and `ParseText` (text parsing). The lemmas prove the properties of those functions: round trip, size, padding, injectivity and agreement of the two construction paths.

The crate's `PackedDna` is an unfinished sketch that does not compile. It has no length field. It stores one code per byte. Its `v` is not `mut`. The `Err` arm at `dna/src/lib.rs:81` is evaluated but not returned. `Ok(v)` at `dna/src/lib.rs:84` wraps a `Vec<u8>`, not a `PackedDna`. It declares `from_iterator` on `&self`. Its `get` match is not exhaustive. This model implements what the sketch and the TODO at `dna/src/lib.rs:7-16` intend, using the sketch's own code table and control flow.

Text parsing of a `PackedDna` fails with the whole upper-cased input, not only the offending character: `dna/src/lib.rs:81` builds `ParseNucError(upper)`, and the error type is `ParseNucError<String>` (`dna/src/lib.rs:70`). So `ParseText` and `FromStr` return `ParseNucError(UpperStr(s))`. The helper `ParseLetters` still finds the first bad character, and `ParseLettersSpec` proves that it is the first one, which shows the fail-fast order of the loop.

## Model

| member | source | states |
|---|---|---|
| Nucleotide.TryFromChar | dna/src/lib.rs:36-48 | Succeeds exactly on the eight letters A/C/G/T in either case. The result's letter is the ASCII upper-case of the input. A failure carries the original, un-upper-cased character. |
| Nucleotide.FromStr | dna/src/lib.rs:50-63 | Succeeds exactly on one-letter strings naming a nucleotide in either case. This excludes "" and longer strings. On success it agrees with `TryFromChar` on that letter. A failure carries the upper-cased input. |
| Nucleotide.Code | dna/src/lib.rs:93-96 | Every nucleotide's code is one of the 2-bit values 0..3. |
| Nucleotide.FromCode | dna/src/lib.rs:106-109 | Decoding a 2-bit code gives the nucleotide with that code, and it is the only one. So the code table is a bijection onto {0,1,2,3} and decoding is its inverse. |
| Nucleotide.SourceTests | dna/src/lib.rs:119-189 | The crate's unit tests: 'A','C','G','T' parse as characters and "a","c","g","t" parse as strings to the matching nucleotide. |
| Packed.PackGroup | dna/src/lib.rs:7-10 | Packing up to four codes into one byte leaves every bit above the last code's pair at zero. |
| Packed.GroupDecode | dna/src/lib.rs:103-112 | In a packed byte, the two bits at offset 2j are the code of element j. |
| Packed.PackRoundTrip | dna/src/lib.rs:103-112 | Decoding the packed buffer at any index below the length gives the nucleotide at that index of the original sequence. |
| Packed.PackInjective | dna/src/lib.rs:65-67 | Two sequences of equal length with equal buffers are equal, so the buffer plus the length determines the contents. |
| Packed.PackSize | dna/src/lib.rs:7-10 | The buffer has ceil(len/4) bytes. That is at most one byte per nucleotide, with less than one byte of slack. |
| Packed.PaddingBitsZero | dna/src/lib.rs:65-67 | When the length is not a multiple of four, the bit pairs past the last code in the final byte are zero. |
| Packed.SlotFieldAreShifts | dna/src/lib.rs:103-112 | Placing a code at pair k is a left shift by k*2 bits. Reading pair k is a right shift by k*2 bits masked with 3. "No pair from k upward is set" means the byte shifted right by k*2 is zero. |
| Packed.AppendStep | dna/src/lib.rs:74-83 | Appending one nucleotide to a sequence changes only byte len/4 of its packing. That byte gains the new code at pair len%4. |
| Packed.PushPacks | dna/src/lib.rs:74-83 | Or-ing the next code into its byte turns a buffer that packs a sequence into one that packs the sequence extended by that nucleotide. |
| Packed.Push | dna/src/lib.rs:77-80 | The in-place push used by both construction loops keeps the buffer packing exactly the nucleotides consumed so far, now including the new one. |
| Packed.ParseLettersSpec | dna/src/lib.rs:75-83 | Parsing upper-cased text succeeds iff every character names a nucleotide. On success it yields one nucleotide per character, in order. On failure it reports the first character that does not name one. |
| Packed.ParsePrefixErr | dna/src/lib.rs:81 | Once a prefix has failed to parse, the whole text fails: the loop may stop at the first bad character. |
| Packed.ParseTextSpec | dna/src/lib.rs:69-86 | Text parsing succeeds iff every character, ignoring ASCII case, names a nucleotide. It then keeps the length and agrees with `TryFromChar` at each position. Otherwise the error carries the upper-cased text. |
| Packed.TextAndNucPathsAgree | dna/src/lib.rs:73-100 | If each character parses to the matching element of a nucleotide sequence, text parsing yields exactly that sequence. Both constructors then hold the same contents and, through `Pack`, the same buffer. |
| Packed.TextRoundTrip | dna/src/lib.rs:69-86 | Spelling a sequence as text and parsing it gives the sequence back. Parsing valid text and spelling the result gives the text upper-cased. |
| Packed.PackedDna.Wrap | dna/src/lib.rs:84 | Wrapping a finished buffer gives a valid container with those contents and that length. |
| Packed.PackedDna.FromNucs | dna/src/lib.rs:88-101 | Builds a valid container whose contents are the input in order, whose length is the input's, and whose buffer is the input's packing in a fresh array. |
| Packed.PackedDna.FromStr | dna/src/lib.rs:69-86 | Fails exactly when `ParseText` fails, with the same error. On success the new container is valid, its contents are `ParseText`'s, and its length is the text's. |
| Packed.PackedDna.Get | dna/src/lib.rs:103-112 | For an index below the length, decodes pair idx%4 (bit offset (idx%4)*2) of byte idx/4 and returns the nucleotide at that index of the contents. |

## Left out

- The `thiserror` derive and the error's display text (`dna/src/lib.rs:32-34`) are formatting concerns. `ParseNucError` is a datatype carrying the offending char or string.
- The `Debug`, `Clone`, `Copy`, `PartialEq`, `Eq` and `Hash` derives (`dna/src/lib.rs:19`) are not modelled: Dafny datatype equality covers what is needed.
- Packed.PackedDna.FromNucs: takes a finite sequence instead of an arbitrary Rust iterator. It builds a fresh object, because the sketch's `&self` receiver cannot assign `self.DNA`.
- Packed.PackedDna.Get: an index at or past the length is a Rust bounds panic in the source. Here it is a precondition, and the panic itself is not modelled.
- The sketch's compile errors (an immutable `v`, the discarded `Err` arm, `Ok(v)` of the wrong type, the non-exhaustive `get` match) are not reproduced. The model gives the intended behaviour.
- `usize` and `u8` overflow are not modelled. Lengths are unbounded naturals. Bytes are `bv8`, where the packing arithmetic cannot overflow.
- The test module's `println!` error branches are output with no asserted behaviour.
- A separate `len()` accessor is not present in the source. The length is the public `len` field of `PackedDna`.
