# ComeOnPress codecs in Dafny

ComeOnPress is a small Flask service. It compresses an uploaded file with one of several algorithms and returns the result together with the metadata needed to decompress it. Its file `main.py` holds three codecs written by hand and a picker that chooses an algorithm for a file. This project models those parts.

- **Huffman coding** (`Huffman`, huffman.dfy):
  - the byte frequency table and the greedy tree construction;
  - the code table and bit packing;
  - the `HuffmanCoding` object, whose `codes` field `build_codes` fills.
- **LZ77** (`LZ77`, lz77.dfy):
  - the brute-force longest-match search over a 4096-byte window with an 18-byte look-ahead;
  - the (offset, length, next byte) tokens and their 4-byte records;
  - the decoder that replays them.
- **Run-length encoding** (`RunLength`, rle.dfy): byte 255 is an escape marker, a run is written as (255, count, value) and a literal 255 as (255, 1, 255).
- **Algorithm selection** (`Manager`, manager.dfy):
  - `CompressionManager.detect_algorithm`, which classifies a file by its lower-cased extension and its guessed MIME type;
  - the name check at the start of `compress_file`.

`Bytes` (bytes.dfy) defines the byte type and a few sequence identities. `Wrappers` (wrappers.dfy) defines `Option` and `Result`.

## How the model is built

- Each loop of the source is a method with a `while` or `for` loop. The method is proved equal to a specification function: `LZ77.Tokenize`, for example, returns exactly `TokensFrom(data, 0)`.
- The promised properties are lemmas about those specification functions:
  - round trips;
  - prefix-freedom of the codes;
  - the shape of tokens and records;
  - the choice of the longest match;
  - the escape rules;
  - the decision order of the picker.
- `HuffmanCoding` is a class with the fields `codes` and `reverseCodes`. In the source, `build_codes` fills `self.codes` recursively, and `BuildCodes` does the same through its `modifies` clause. `reverseCodes` is created empty and never written, exactly as `self.reverse_codes` is.
- The Huffman tree is a function of the frequency table alone (`HuffmanTree`), and decompression rebuilds it from the table in the metadata. The round trip therefore holds for every input, including the empty one and input with a single distinct byte.
- Where the source would raise an exception, the model returns `Err`. In `decompress`, walking to a child that does not exist would raise `AttributeError` on `None.char`.

Edge cases of the code that the model reproduces as written:
- **LZ77 tie-break.** Among equally long matches, the code keeps the earliest window position, which is the largest offset. It replaces the best match only on a strictly longer one (main.py:193-195).
- **LZ77 zero literal.** The compressor writes a placeholder 0 literal when a match runs to the end of the input (main.py:198). The decoder, however, drops every 0 literal that follows a copy (main.py:240), genuine ones included. See "## Findings".
- **Huffman single-byte input.** The shortcut at main.py:143-147, which would repeat a leaf root's byte `original_length` times, cannot run: the root built at main.py:52 has no byte. Single-byte input is decoded by the ordinary bit walk down the left edge. The model keeps the shortcut as a branch and proves it is never taken on a tree the model builds (`HuffmanTreeShape`).
- **RLE truncated marker.** Once decoding reaches a position with at most two bytes left, it copies them as they are: a 255 there is not read as a record, and no error is reported (main.py:294-304).
- **LZ77 partial record.** The decoder silently ignores a trailing record of fewer than four bytes (main.py:226).

## Model

| member | source | states |
|---|---|---|
| Huffman.FrequencyTableCounts | main.py:38-39 | The frequency table has exactly the bytes of the input as keys, and each maps to its number of occurrences. |
| Huffman.CountPrefixCounts | main.py:38-39 | Counting the first n bytes one at a time gives, for every byte, its multiplicity in those n bytes. |
| Huffman.MinIndexIsLeast | main.py:30-31 | The tree taken from the heap has the least frequency, and every tree before it has a strictly greater one. The model breaks ties by taking the leftmost least tree (see "## Left out"). |
| Huffman.MinFromIsLeast | main.py:30-31 | The minimum search from position i keeps the leftmost least-frequency tree seen so far. |
| Huffman.MergeStepOcc | main.py:57-62 | Popping two trees and pushing their parent keeps, for every byte, the number of leaves that carry it. |
| Huffman.MergeAllOcc | main.py:56-64 | The tree left at the end carries every byte of the heap, as often as the heap did. Starting from two or more trees, it is an internal node. |
| Huffman.LeavesFromOcc | main.py:45-47 | The initial heap has exactly one leaf for each byte of the table. |
| Huffman.HeapOccRemove | main.py:57-58 | Popping a tree removes exactly its leaves from the heap's byte counts. |
| Huffman.HuffmanTreeShape | main.py:41-64 | A tree exists exactly when the table is non-empty. Its root is never a leaf, and each byte of the table sits at exactly one leaf. |
| Huffman.SingleByteCode | main.py:49-54 | With one distinct byte, the root is an internal node whose only child, the left one, is that byte's leaf. The byte's code is "0". |
| Huffman.CodesKeys | main.py:66-76 | `build_codes` gives a code to exactly the bytes at the leaves. |
| Huffman.CodesExtend | main.py:66-76 | Every code is non-empty and extends the path it was built from. Below an internal node it is strictly longer. At a leaf below the root it is the path itself. |
| Huffman.CodesBranch | main.py:75-76 | A byte in the left subtree gets a code that continues the path with 0. A byte in the right subtree gets one that continues it with 1. |
| Huffman.CodesPrefixPair | main.py:66-76 | In a tree where no byte repeats, no byte's code is a prefix of another byte's code. |
| Huffman.CodeTablePrefixFree | main.py:66-76 | The code table of the built tree is prefix-free and has no empty code. |
| Huffman.DistinctChildren | main.py:59-61 | Both subtrees of a tree without repeated bytes are also free of repeats, and they share no byte. |
| Huffman.WalkCode | main.py:149-157 | Walking the remaining bits of a byte's code reaches that byte's leaf, emits the byte and resets to the root. |
| Huffman.WalkEncoded | main.py:149-157 | Walking the concatenated codes of an input from the root emits exactly that input. |
| Huffman.SingleByteRightBitFails | main.py:150-155 | On a single-byte tree, a 1 bit leads to the missing right child, and decoding fails. |
| Huffman.ToBitsValue | main.py:129-131 | `format(int(chunk, 2), '0nb')` gives back the n-bit chunk. |
| Huffman.ValueMostSignificantFirst | main.py:108 | `int(chunk, 2)` weighs the first bit of a chunk most: first bit times 2^(n-1), plus the value of the rest. |
| Huffman.PackChunks | main.py:105-108 | Byte k of the payload is the value of bits 8k to 8k+8 of the padded bit string. |
| Huffman.UnpackPack | main.py:105-131 | Unpacking the packed bytes restores the byte-aligned bit string. |
| Huffman.Pack | main.py:105-108 | A byte-aligned bit string packs into one-eighth as many bytes. |
| Huffman.Unpack | main.py:129-131 | Each payload byte becomes eight bits. |
| Huffman.PaddingRoundTrip | main.py:99-136 | The padding lies in 1..8, where 8 means none was added. The padded string is byte-aligned and less than 8 bits longer. Stripping the recorded padding restores the bits. |
| Huffman.CodesCoverInput | main.py:83-97 | For non-empty input there is a tree, its root is internal and without repeated bytes, and every input byte has a code. |
| Huffman.CompressedShape | main.py:99-116 | For non-empty input, the payload has ceil(code bits / 8) bytes, at least one. The metadata holds the frequency table, the padding and the original length. |
| Huffman.RoundTrip | main.py:78-159 | Decompressing the payload and metadata that compress returns gives back the input, for every input, including the empty one and a single repeated byte. |
| Huffman.HuffmanCoding.constructor | main.py:34-36 | Both `codes` and `reverseCodes` start empty. |
| Huffman.HuffmanCoding.BuildHuffmanTree | main.py:41-64 | The heap loop returns the tree that `HuffmanTree` defines for the table. |
| Huffman.HuffmanCoding.BuildCodes | main.py:66-76 | `codes` becomes its old value extended with the codes of the leaves below the node. `reverseCodes` is untouched. |
| Huffman.HuffmanCoding.Compress | main.py:78-116 | Returns the payload and metadata that `CompressedOf` defines. For non-empty input, `codes` is reset to the code table of the input's tree; otherwise `codes` is unchanged. |
| Huffman.HuffmanCoding.Decompress | main.py:118-159 | Returns what `Decompressed` defines: empty output for an empty payload, an empty table or no tree; otherwise the bit walk after the padding is stripped. |
| Huffman.InitialHeap | main.py:45-47 | The heap-filling loop gives one leaf per table byte, in ascending byte order. |
| Huffman.EncodeInput | main.py:95-97 | The bit string is the concatenation of the codes of the input bytes, in order. |
| Huffman.PackBits | main.py:105-108 | The packing loop computes `Pack` of the padded bits. |
| Huffman.UnpackBytes | main.py:129-131 | The unpacking loop computes `Unpack` of the payload. |
| LZ77.MatchFrom | main.py:187-191 | The inner match loop stops at a length between its start and the look-ahead cap. |
| LZ77.MatchFromAgrees | main.py:187-191 | The length found is the longest stretch, up to the cap, on which the bytes at j agree with those at i. |
| LZ77.BestFromIsBest | main.py:186-195 | The scan over window positions keeps the longest match. The earliest position wins a tie. |
| LZ77.LongestMatchIsLongest | main.py:181-195 | The chosen match is a longest one in the window, the earliest on a tie. It fits the look-ahead and the remaining input. A non-empty match has offset 1..4096, reaching no further back than position i, and its bytes agree with those at i. |
| LZ77.Advance | main.py:197-203 | Each token moves the position forward, and never past the end of the input. |
| LZ77.TokenAtEmittable | main.py:197-203 | Every token is a literal (0, 0, data[i]) or a match with 1 <= offset <= 4096 and 3 <= length <= 18. A match also has offset <= i and length <= the bytes remaining. |
| LZ77.TokensEmittable | main.py:177-203 | Every token that compress emits is a literal (0, 0, b) or a match with 1 <= offset <= 4096 and 3 <= length <= 18. The tighter per-position bounds are those of `TokenAtEmittable`. |
| LZ77.Record | main.py:207-214 | Each token becomes exactly 4 bytes: offset high, offset low, length, literal. |
| LZ77.Serialize | main.py:205-214 | The payload is 4 bytes per token. |
| LZ77.RecordDecodes | main.py:207-230 | Decoding the 4 bytes of an emitted token restores the token. |
| LZ77.DecodedSerialize | main.py:226-243 | Decoding a serialized token list replays the tokens in order. |
| LZ77.PartialRecordIgnored | main.py:226 | Decoding any payload gives the same output as decoding only its whole 4-byte records: a trailing part of fewer than 4 bytes is ignored. |
| LZ77.DecodedSerializeTail | main.py:226-243 | Fewer than 4 bytes appended to a serialization change nothing: decoding still replays exactly its tokens. |
| LZ77.CopyRebuilds | main.py:234-237 | The byte-by-byte copy from `len(out) - offset` rebuilds a matched stretch, even when the copy overlaps the bytes it is producing. |
| LZ77.CopiedRebuilds | main.py:232-237 | A match token copied onto the decoded prefix extends it by the matched bytes. |
| LZ77.MatchInWindow | main.py:181-199 | The chosen match lies inside the decoded prefix and agrees with the input. |
| LZ77.MatchRebuilds | main.py:232-241 | A match token followed by a non-zero literal, or by the end of the input, rebuilds the input up to the next token. |
| LZ77.TokenRebuilds | main.py:197-241 | For input without zero bytes, each token replayed on the decoded prefix rebuilds the input up to the next token. |
| LZ77.RoundTripFrom | main.py:177-245 | For input without zero bytes, replaying the tokens from position i restores the whole input. |
| LZ77.RoundTripWithoutZeros | main.py:170-245 | Decompressing the payload of input that contains no 0 byte gives back the input. |
| LZ77.RunThenZeroTokens | main.py:177-203 | [1,1,1,1,0] is tokenized as a literal 1, then an overlapping match of length 3 at offset 1 whose literal is the real 0. |
| LZ77.RunThenZeroPayload | main.py:205-214 | Those two tokens serialize to [0,0,0,1, 0,1,3,0]. |
| LZ77.RunThenZeroReplay | main.py:226-243 | Replaying them as written gives [1,1,1,1]. |
| LZ77.ZeroAfterMatchLost | main.py:240 | As written, [1,1,1,1,0] compresses to 8 bytes that decompress to [1,1,1,1]: the final 0 is lost. |
| LZ77.DecodedUpToSerialize | main.py:226-243 | The corrected decoder, run on a serialized token list, replays the tokens in order. |
| LZ77.TokenRebuildsUpTo | main.py:197-241 | With the length bound, each token rebuilds the input up to the next token, zero bytes included. |
| LZ77.RoundTripUpToFrom | main.py:177-245 | With the length bound, replaying the tokens from position i restores the whole input. |
| LZ77.RoundTripUpTo | main.py:170-245 | The corrected decoder restores every input from the payload and `original_length`. |
| LZ77.ZeroAfterMatchKept | main.py:240 | The corrected decoder restores [1,1,1,1,0]. |
| LZ77.MatchLengthAt | main.py:187-191 | The inner `while` loop computes the match length at window position j. |
| LZ77.FindLongestMatch | main.py:178-195 | The window scan computes the chosen match. |
| LZ77.Tokenize | main.py:174-203 | The outer loop produces exactly the token list that `TokensFrom` defines. |
| LZ77.SerializeTokens | main.py:205-214 | The record loop produces the serialized payload. |
| LZ77.Compress | main.py:170-217 | Returns the payload and the original length. |
| LZ77.CopyWindow | main.py:234-237 | The copy loop appends the back-referenced bytes one at a time, skipping positions outside the output. |
| LZ77.Decompress | main.py:219-245 | The record loop decodes exactly as `Decompressed` defines, ignoring a trailing partial record. |
| RunLength.RunFrom | main.py:261-265 | The counting loop stops at a count between its start and the smaller of the bytes left and 255. |
| RunLength.RunFromIsRun | main.py:261-265 | The counted run is a maximal run of bytes equal to the first, capped at 255. |
| RunLength.RunFromOfRun | main.py:261-265 | On a run of n equal bytes, counting gives n, or 255 when n exceeds 255. |
| RunLength.ShortRun | main.py:273-279 | A short run of n bytes takes n bytes, or 3n when the byte is 255. |
| RunLength.RunBecomesOneRecord | main.py:267-270 | A run of 4 to 255 equal bytes becomes exactly one record (255, count, value). |
| RunLength.LongRunSplits | main.py:264-270 | A run longer than 255 bytes starts with a full record of 255. The rest is again a run. |
| RunLength.ShortRunIsLiteral | main.py:271-279 | A run of 1 to 3 bytes is written byte by byte, with 255 escaped as (255, 1, 255). |
| RunLength.ShortRunOfPlainByte | main.py:278-279 | A short run of a byte other than 255 is written unchanged. |
| RunLength.ChunkLength | main.py:267-279 | One run of `count` bytes takes at most 3 × count bytes, and exactly 3 when written as a record. |
| RunLength.EncodedFromLength | main.py:259-281 | Compression expands by at most a factor of 3. |
| RunLength.TwelveBytesExample | main.py:259-281 | b"AAAABBBBCCCC" encodes to 9 bytes: three records. |
| RunLength.DecodedFromShift | main.py:293-304 | Decoding from a position does not depend on the bytes before it. |
| RunLength.DecodedLiteral | main.py:294-304 | A literal byte, or 255 escaped as (255, 1, 255), decodes to itself. |
| RunLength.DecodedShortRun | main.py:294-304 | A short run's encoding decodes to the run. |
| RunLength.DecodedRecord | main.py:294-300 | A record (255, count, value) decodes to count copies of value. |
| RunLength.DecodedChunk | main.py:294-304 | Whatever one run was written as decodes to that run. |
| RunLength.RunSplit | main.py:259-281 | A run of equal bytes splits the rest of the input into a repetition and what follows. |
| RunLength.RoundTripFrom | main.py:259-304 | Decoding the encoding of the bytes from i on gives them back. |
| RunLength.RoundTrip | main.py:252-306 | Every input, including bytes of value 255, is restored exactly. |
| RunLength.TruncatedTail | main.py:293-304 | Once decoding reaches a position with at most two bytes left, it copies them as they are: a 255 there is not read as a record, and no error is reported. |
| RunLength.TruncatedMarkerIsLiteral | main.py:293-304 | Instances of `TruncatedTail`: the payloads [255] and [255, x] decode to themselves. |
| RunLength.Compress | main.py:252-284 | Returns the encoding, whose decoding is the input, and the original length. |
| RunLength.EncodeRuns | main.py:259-281 | The outer loop produces exactly the encoding `Encoded` defines. |
| RunLength.CountRun | main.py:260-265 | The counting loop computes `RunFrom`. |
| RunLength.AppendRun | main.py:267-279 | One iteration appends what the run is written as. |
| RunLength.Decompress | main.py:286-306 | The decoding loop computes exactly what `Decoded` defines. |
| Manager.NamesResolve | main.py:346-351 | Each algorithm's registered name resolves back to it, and a name that resolves is that algorithm's name. |
| Manager.RFind | main.py:356 | The last position of a character, or -1: that position holds it and none after it does. |
| Manager.Lower | main.py:356 | Lower-casing keeps the length and lowers each ASCII letter. |
| Manager.ExtensionShape | main.py:356 | The extension is empty, or a suffix of the name that starts with its only '.' and contains no '/'. |
| Manager.ExtensionAtLastDot | main.py:356 | When the last component has a non-dot character before its last '.', the extension runs from that dot to the end. |
| Manager.LeadingDotsAreNoExtension | main.py:356 | A last component that is only dots before its last '.' (".bashrc", "..txt") has no extension. |
| Manager.NoDotNoExtension | main.py:356 | A last component without a '.' has no extension, even when an earlier component has one. |
| Manager.LastSeparator | main.py:356 | The last '/' is just before the start of the last component, or there is none. |
| Manager.OnlyDots | main.py:356 | A range holding only dots has no non-dot character, so it is not a stem. |
| Manager.RFindIs | main.py:356 | `rfind` returns the last position holding the character. |
| Manager.RFindAbsent | main.py:356 | `rfind` returns -1 when the character does not occur. |
| Manager.NonDotFound | main.py:356 | A non-dot character before the dot counts as a real stem. |
| Manager.DetectCases | main.py:353-365 | Huffman exactly for a text extension or a MIME type starting with "text". Then RLE exactly for the image extensions, LZ77 exactly for the binary ones, and Deflate otherwise. |
| Manager.TextMimeWins | main.py:358-359 | A MIME type starting with "text" selects Huffman whatever the file name, image extensions included. |
| Manager.UnknownContentIsNotText | main.py:355-359 | With no guess, the MIME type is application/octet-stream, so only a text extension selects Huffman. |
| Manager.ResolveCases | main.py:368-371 | "auto" selects the detected algorithm and never fails. Any other name is used as given when registered and rejected as unknown otherwise. |
| Manager.ExtensionExamples | main.py:356 | "archive.tar.gz" has extension ".gz". "notes.d/README" and ".bashrc" have none. |
| Manager.UpperCaseTextExtension | main.py:356-359 | "REPORT.TXT" selects Huffman. |
| Manager.TextMimeBeatsImageExtension | main.py:358-359 | "scan.bmp" with MIME text/plain selects Huffman. |
| Manager.ImageExtension | main.py:360-361 | "scan.PGM" selects RLE. |
| Manager.BinaryExtension | main.py:362-363 | "tool.exe" selects LZ77. |
| Manager.OtherExtension | main.py:364-365 | "photo.png" with MIME image/png selects Deflate. |

## Left out

- The Flask application, its routes, CORS and request handling (main.py:16-17, 436-556) are HTTP plumbing.
- `DeflateCompression` and the compression branches of `compress_file` and `decompress_file` (main.py:312-335, 373-430) are not modelled. They call gzip, zlib, bz2 and lzma, and the manager never calls the hand-written codecs. `Resolve` ends where those branches begin, once the algorithm name has been checked.
- `filetype.guess` is a foreign library. Its result enters `Detect` and `Resolve` as an `Option<string>` MIME type.
- `processing_time` and `compression_ratio` (main.py:387-390) are not modelled: they depend on the wall clock and on floating-point rounding.
- The base64 and JSON envelope of `process_file` (main.py:490-499, 518-523) is not modelled. After a JSON round trip, the keys of `freq_table` would be strings. The model keeps them as bytes, which is how `decompress` uses them when it receives the dictionary that `compress` built.
- The tie order of `heapq` is not modelled. The model pops the leftmost tree of least frequency and pushes the merged tree at the front. The initial heap lists the leaves in ascending byte order rather than in the order `Counter` first saw them. Ties may therefore merge in a different order than `heapq` would. Any choice made from the table alone keeps compression and decompression on the same tree, so the round trip and the prefix property do not depend on it. The difference shows only in the payload bytes. For input "ba", `heapq` pops b first, so b's code is "0" and the payload is 0x40. The model pops the lower byte a first, so a's code is "0" and the payload is 0x80. Both decompress to "ba".
- Tree optimality, meaning minimal weighted code length, is not proved. The source promises no more than the greedy construction.
- LZ77: the constructor parameters `window_size` and `look_ahead_size` are the constants 4096 and 18, the only values the source uses.
- The LZ77 and RLE decoders ignore their metadata argument, as the source does. `RunLength.Decompress` and `LZ77.Decompress` therefore take only the payload.
- Manager.Lower: lower-cases ASCII letters only, unlike Python's `str.lower`, which also maps other Unicode letters. Every extension the picker tests is ASCII.
- Manager.Extension: follows the POSIX rules of `os.path.splitext`. Only '/' separates components. On Windows, '\\' would also separate them.
- LZ77.RoundTripWithoutZeros: proves the round trip of the decoder as written only for input without 0 bytes, because that decoder loses a 0 that follows a match (see "## Findings"). `LZ77.RoundTripUpTo` proves the round trip for every input with the corrected decoder.
- The Huffman `reverse_codes` dictionary is created empty and never used. `HuffmanCoding.reverseCodes` is kept as a field, and no operation changes it.

## Findings

| source | as written | input that shows it | evidently intended | confidence | as-written member | corrected member |
|---|---|---|---|---|---|---|
| main.py:240 | After a copy, the decoder appends the literal only if it is not 0. A real 0 byte right after a match is dropped. | [1,1,1,1,0]: compress emits (0,0,1) and (1,3,0); decompress returns [1,1,1,1] | Drop the 0 only when the match ran to the end of the input, as the compressor's placeholder 0 at main.py:198 means. That is, append the literal while the output is shorter than `original_length`. | not executed | LZ77.ZeroAfterMatchLost | LZ77.RoundTripUpTo |
