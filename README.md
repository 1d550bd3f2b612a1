# RoadCraft save-file patcher, modelled in Dafny

The tool reads a RoadCraft map save and rewrites one JSON property inside it.
A save is two nested containers:

- **SSF1** (`SsfCodec`) is the outer container. The file starts with a header:
  - magic "SSF1";
  - bytes 4..8: total compressed length, i32 little-endian;
  - bytes 12..16: total decompressed length, i32 little-endian;
  - bytes 20..52: the lowercase hex MD5 of the compressed stream.

  The header is followed by a stream of chunk records. Each record is `uSize`, `cSize` (both i32 LE) and `cSize` bytes of zlib data.
  - Decoding takes the header length as `file length - totalComp` when that lies in [16, 1 MiB]. Otherwise it scans the first 256 KiB for the first plausible record. It then inflates the records in order.
  - Encoding cuts the payload into 1 MiB chunks, compresses each one, and rewrites exactly the three header fields.
- **SMBH** (`SmbhParser`) is the inner format of the decompressed payload. It has:
  - an opaque prefix;
  - a run of named blocks, each "SMBH", `nameLen`, `payloadLen` (u32 LE), a NUL-terminated name and a payload;
  - an opaque suffix.

  The parser scans for the first plausible block header, reads blocks while they pass their checks, and keeps the rest as suffix. `Build` writes the same layout back.
- **JsonExtractor** holds the byte-level helpers:
  - a whitespace-skipping sniff for JSON;
  - a bounded needle search;
  - a depth-counting scan for JSON fragments over the streaming reader's tokens;
  - a search for the largest fragment;
  - harvesting of printable strings.
- **MapPatcher** is the patch engine. It normalises a block selector, matches it against block names and replaces a named property everywhere in each matching JSON block. It counts the replacements, rebuilds the block list, refuses a run that patched nothing, and re-encodes the save.

The model works on byte sequences (`seq<byte>`, with `byte` the integers 0..255). The C# `int` arithmetic appears as explicit 32-bit wrap-around (`Bytes.Wrap32`) where it can overflow. The one exception is the header-offset scan that `Decode` and `EncodeLike` use: it checks its bound in exact arithmetic (see `SsfCodec.FindFirstBlockOffset` under "Left out" and the "Findings" section). Every `throw` becomes a `Failure` of the `Result` datatype.

Three libraries the tool calls are parameters of the model, and their internals are not modelled:
- zlib compression and decompression (`SsfCodec.Zlib`);
- MD5 (`md5: seq<byte> -> Digest`);
- System.Text.Json (`Json.JsonLib`: the streaming tokenizer, the parser and the compact serialiser).

Each loop of the source is a Dafny `method` with invariants. Each method is proved equal to a specification function (`…Spec`, `ChunkAt`, `Scan`, `StringsFrom`, `PatchAll`), and the lemmas state what those functions guarantee.

Modules:
- `Wrappers`: Option, Result and the error kinds;
- `Bytes`: little-endian words, the int32 wrap and ASCII;
- `Json`: JSON trees and the library interface;
- `Smbh`;
- `SsfCodec`;
- `SsfScanOverflow`: a counterexample for the finding below;
- `JsonExtractor`;
- `MapPatcher`.

## Model

| member | source | states |
|---|---|---|
| Bytes.Wrap32 | SsfCodec.cs:168 | int arithmetic lands in the int32 range and leaves in-range values alone |
| Bytes.U32BytesOfU32At | Smbh.cs:128-144 | writing the word read at an offset reproduces those four bytes |
| Bytes.U32RoundTrip | Smbh.cs:136-144 | reading back the bytes WriteU32LE emits gives the value modulo 2^32, as the cast to uint does |
| Bytes.I32RoundTrip | SsfCodec.cs:186-202 | for every int32 value, ReadI32LE on the bytes WriteI32LE emits returns that value |
| Bytes.AsciiDecodeEncode | SsfCodec.cs:74 | on 7-bit text, encoding and then decoding returns the text |
| Bytes.AsciiRoundTrip | Smbh.cs:47 | on 7-bit bytes, decoding and then encoding returns the bytes |
| Json.KeyedObjectsPositive | MapPatcher.cs:156-173 | the tree holds an object with the key iff the count of such objects is positive |
| Smbh.PrintableFromAll | Smbh.cs:105-111 | the name check holds iff every name byte before the terminator lies in 32..126 |
| Smbh.FirstValidFromFound | Smbh.cs:86-114 | the scan returns the least qualifying offset: that offset qualifies and none before it does |
| Smbh.FirstValidFromNone | Smbh.cs:86-117 | the scan finds nothing exactly when no offset in range qualifies |
| Smbh.IsAt | Smbh.cs:120-126 | true iff the magic lies entirely within the data at that offset |
| Smbh.IsValidBlockStartAt | Smbh.cs:88-112 | the header and name test of one offset, including the inner printable-name loop, agrees with the qualifying predicate |
| Smbh.FindFirstValidBlockOffset | Smbh.cs:82-118 | returns the first qualifying offset below min(maxScan, length - 16), or fails with NoSmbhBlocks |
| Smbh.ReadBlockAt | Smbh.cs:30-52 | one loop turn reads a block exactly when all break checks pass, and then yields that block and its end |
| Smbh.Parse | Smbh.cs:21-58 | the loop computes the specified prefix, blocks and suffix |
| Smbh.Build | Smbh.cs:60-80 | the stream writes produce the specified layout: prefix, each block's header, name and payload, then suffix |
| Smbh.EncodeBlockFrom | Smbh.cs:32-51 | a block read from the payload is well formed, and re-encoding it gives back exactly the bytes it spanned |
| Smbh.EncodeBlocksFrom | Smbh.cs:30-53 | the blocks the loop reads re-encode to exactly the bytes between the first block and the suffix |
| Smbh.BuildParse | Smbh.cs:21-80 | building from a parse result gives back the parsed payload byte for byte |
| Smbh.ParsedBlocksWellFormed | Smbh.cs:40-47 | every parsed block has a name of 1..1024 bytes ending in 0, so Build reuses its name bytes verbatim |
| Smbh.ParseOutcome | Smbh.cs:24-25 | Parse fails iff no offset below the scan limit qualifies, and it then fails with NoSmbhBlocks |
| Smbh.ParseFound | Smbh.cs:21-58 | on success: the prefix is the bytes before the least qualifying offset; at least one block follows; the suffix is the tail from the first position that fails the loop's checks |
| Smbh.ValidStartIsBlock | Smbh.cs:88-99 | an offset the scan accepts also passes the block loop's checks |
| Smbh.BlocksFromStopsAtNonBlock | Smbh.cs:30-45 | the loop stops exactly where no block passes the checks, and a start that passes yields at least one block |
| Smbh.ShortPayloadFails | Smbh.cs:84 | a payload of 16 bytes or fewer always fails |
| Smbh.BuildLength | Smbh.cs:60-79 | the output length is the prefix plus, per block, 12 + emitted name + payload, plus the suffix |
| Smbh.EncodeBlocksLength | Smbh.cs:65-76 | the encoded blocks are as long as the sum of their record sizes |
| SsfCodec.TryInflate | SsfCodec.cs:142-157 | a successful inflate never yields empty data, because an empty result counts as a failure |
| SsfCodec.ChunkAt | SsfCodec.cs:91-106 | a successful record read moves past the 8-byte record header and stays within the file |
| SsfCodec.ChunkAtOutcome | SsfCodec.cs:91-106 | a record read fails with UnexpectedEof, InvalidChunkSize, OutOfRange (end wrapped past int32) or Undecompressable, in that order; success yields the non-empty inflated chunk and the record end |
| SsfCodec.ReadChunkAt | SsfCodec.cs:91-106 | one turn of the decompression loop computes the specified record read |
| SsfCodec.DecompressBlocks | SsfCodec.cs:82-112 | the loop over records while processed < totalComp concatenates the inflated chunks, or stops at the first failing record |
| SsfCodec.ChunkStreamStep | SsfCodec.cs:119-137 | one loop turn emits the record of the next min(chunkSize, remaining) bytes, followed by the stream of the rest |
| SsfCodec.CompressToBlocks | SsfCodec.cs:114-140 | the loop emits the specified chunk stream |
| SsfCodec.ChunksProperties | SsfCodec.cs:119-137 | the chunks concatenate to the payload; each is non-empty and at most chunkSize; all but the last are full; there are none iff the payload is empty |
| SsfCodec.RecordsLength | SsfCodec.cs:132-134 | the stream length is the sum of 8 + cSize over the records |
| SsfCodec.ChunkAtRecord | SsfCodec.cs:91-106 | reading a record the encoder wrote, when inflate inverts compress, gives back its chunk and the offset after it |
| SsfCodec.DecompressStep | SsfCodec.cs:89-109 | one successful record read prepends its chunk to the result of the rest |
| SsfCodec.DecompressRecords | SsfCodec.cs:82-112 | decompressing a record stream the encoder wrote gives back the concatenation of its chunks |
| SsfCodec.FirstChunkFromIsLeast | SsfCodec.cs:159-176 | the fallback scan returns the least offset holding a plausible, inflatable record, and finds none iff no offset in range has one |
| SsfCodec.IsChunkRecordAt | SsfCodec.cs:164-172 | the per-offset test agrees with the plausible-record predicate: c > 0, the record fits, 0 <= u <= 500,000,000, data inflatable |
| SsfCodec.FindFirstBlockOffset | SsfCodec.cs:159-176 | returns the first offset below min(maxScan, length - 16) holding a plausible record, or fails with NoCompressedBlock |
| SsfCodec.HeaderLength | SsfCodec.cs:30-32 | the header length is length - totalComp when that lies in [16, 1 MiB], otherwise the result of the fallback scan |
| SsfCodec.StartsWith | SsfCodec.cs:178-184 | true iff the data begins with the prefix |
| SsfCodec.Decode | SsfCodec.cs:21-42 | computes the specified decode result or error |
| SsfCodec.DecodeOutcome | SsfCodec.cs:21-42 | missing magic fails with NotSsf1, and a file shorter than 16 bytes with OutOfRange. Decode succeeds iff the magic is there, a header length within the file is found and the stream after it decompresses, so the uncompressed total never causes a failure. On success: the length fields are read at 4 and 12; the header is the file's first headerLength bytes, chosen as HeaderLength states; the payload is the decompression from there; the size-mismatch warning is raised iff the expected size is positive and differs |
| SsfCodec.Hex | SsfCodec.cs:204-211 | the hex text has two characters per hash byte |
| SsfCodec.Md5Hex | SsfCodec.cs:204-211 | the hash formatting loop yields the hex text of the digest |
| SsfCodec.HexConcat | SsfCodec.cs:209 | formatting appends byte by byte: hex of a concatenation is the concatenation of the hexes |
| SsfCodec.HexDigits | SsfCodec.cs:209 | every character of the hex text is a lowercase hex digit, so it is 7-bit ASCII |
| SsfCodec.UnHexHex | SsfCodec.cs:204-211 | the hex text determines the digest: parsing it back gives the hash bytes |
| SsfCodec.UpdatedHeaderInSteps | SsfCodec.cs:66-75 | the three in-place writes, at 4, 12 and 20, produce the specified updated header |
| SsfCodec.BlockCopy | SsfCodec.cs:75 | copying into the array overwrites exactly the target range and keeps every other byte |
| SsfCodec.WriteI32LE | SsfCodec.cs:188-192 | the array write replaces exactly bytes offset..offset+4 with the value's little-endian bytes |
| SsfCodec.EncodeWithHeaderBytes | SsfCodec.cs:59-80 | the header copy, the three field writes and the appended stream compute the specified encoding |
| SsfCodec.EncodeFields | SsfCodec.cs:59-80 | a header shorter than 16 bytes fails HeaderTooShort; one without "SSF1" fails NotSsf1; one shorter than 52 bytes fails OutOfRange. Otherwise the output is the header then the stream; bytes 4..8 and 12..16 hold the stream and payload lengths; bytes 20..52 hold the hex MD5 of the stream; every other header byte is unchanged |
| SsfCodec.DecodeEncode | SsfCodec.cs:21-112 | decoding an encoded file (header 52 bytes to 1 MiB, inflate inverting compress, int32-sized) gives back the header length, both lengths, the updated header and the original payload, with no warning |
| SsfCodec.EncodeLike | SsfCodec.cs:44-57 | computes the specified re-encoding under the original's header |
| SsfCodec.EncodeLikeUsesDecodedHeader | SsfCodec.cs:44-57 | for a decodable original, EncodeLike re-encodes under exactly the header Decode extracts |
| SsfScanOverflow.FallbackScanOverflowAsWritten | SsfCodec.cs:168 | on the 40-byte example the fallback scan as written fails with an out-of-range slice instead of skipping offset 8 |
| SsfScanOverflow.ScanAsWrittenThrowsAt8 | SsfCodec.cs:166-171 | at offset 8, cSize 0x7FFFFFFF makes off + 8 + c wrap negative, so the bound check passes and the slice throws |
| SsfScanOverflow.FallbackScanOverflowCorrected | SsfCodec.cs:159-176 | with the bound check in exact arithmetic, the scan finds the record at offset 16 |
| SsfScanOverflow.FallbackScanOverflowDecodes | SsfCodec.cs:21-42 | with the corrected scan the example decodes: header of 16 bytes, empty payload, size-mismatch warning |
| JsonExtractor.SkipWsIsFirst | JsonExtractor.cs:12 | every byte skipped is whitespace, and the byte where the skip stops is not |
| JsonExtractor.LooksLikeJson | JsonExtractor.cs:8-15 | the loop computes the sniff predicate |
| JsonExtractor.LooksLikeFirstNonWs | JsonExtractor.cs:8-15 | true iff the first byte other than space, LF, CR or tab is '{' or '['; false on empty or all-whitespace input |
| JsonExtractor.IndexOf | JsonExtractor.cs:220-233 | returns the least position in [start, start + count - needle length] where the needle matches, or -1 when there is none |
| JsonExtractor.CloseFromIsFirstZero | JsonExtractor.cs:198-211 | the token found is the first at which the depth returns to 0; when none is found the depth stays positive to the end |
| JsonExtractor.ParseAtSpec | JsonExtractor.cs:181-216 | a successful parse consumes at least one byte and no more than remain |
| JsonExtractor.TryParseAt | JsonExtractor.cs:181-216 | the depth loop computes the specified parse attempt |
| JsonExtractor.ParseAtFirstClose | JsonExtractor.cs:190-215 | success needs a start token first; consumed is the reader's count at the first token bringing depth back to 0, and the parser accepts exactly that slice; tokens running out at positive depth fail |
| JsonExtractor.NextOpenIsOpen | JsonExtractor.cs:34 | the skip stops at a '{' or '[' byte or at the end |
| JsonExtractor.StepAt | JsonExtractor.cs:37-56 | every loop turn advances the index |
| JsonExtractor.StepAtFound | JsonExtractor.cs:48-52 | a fragment found is a successful parse at that offset, and the scan resumes right after it |
| JsonExtractor.SkipToOpen | JsonExtractor.cs:34 | the inner loop stops at the next brace or bracket |
| JsonExtractor.TryAt | JsonExtractor.cs:37-56 | the needle window test and the parse attempt compute the specified step |
| JsonExtractor.ScanStep | JsonExtractor.cs:34-56 | one turn of the outer loop contributes its fragment, if any, and the scan goes on from a later index |
| JsonExtractor.ScanFragmentsValid | JsonExtractor.cs:32-57 | each fragment found starts at '{' or '[', passes the needle window test, parses there with its length and lies within the input |
| JsonExtractor.DisjointCons | JsonExtractor.cs:51 | a fragment ending before all later ones keeps the list ordered and non-overlapping |
| JsonExtractor.ScanDisjoint | JsonExtractor.cs:32-57 | the offsets found increase strictly and the fragments do not overlap |
| JsonExtractor.ExtractJsonFragments | JsonExtractor.cs:23-60 | a negative maxFragments fails. Otherwise the result is the first maxFragments fragments of the scan: valid, within the input, ordered and non-overlapping |
| JsonExtractor.TakeFragments | JsonExtractor.cs:32 | stopping after maxFragments results keeps every scan property and at most maxFragments fragments |
| JsonExtractor.BestIsFirstMaximum | JsonExtractor.cs:75-79 | the best length bounds every fragment's length, and the best is the first fragment to attain it (strict >), or the starting values |
| JsonExtractor.BestConcat | JsonExtractor.cs:68-83 | the running best over a list is the running best over its tail, started from the head's result |
| JsonExtractor.TryExtractLargestJson | JsonExtractor.cs:62-86 | found iff some fragment parsed; bestLen is the largest length and bestOffset the first fragment attaining it; both 0 when nothing parsed |
| JsonExtractor.ExtendRun | JsonExtractor.cs:109 | appending the next byte keeps the run equal to the bytes just before the index |
| JsonExtractor.FlushKeeps | JsonExtractor.cs:93-102 | Flush keeps the results distinct and each one a printable run of the input of length minLen..4097 |
| JsonExtractor.HarvestPrintable | JsonExtractor.cs:107-111 | a printable byte extends the run, flushing it beyond 4096 characters, and keeps the loop invariant |
| JsonExtractor.HarvestOther | JsonExtractor.cs:112-116 | any other byte flushes the run and keeps the loop invariant |
| JsonExtractor.StringsFromHarvested | JsonExtractor.cs:104-119 | from any state that meets the invariant, the harvested list stays distinct and made of harvested strings |
| JsonExtractor.KeptMeans | JsonExtractor.cs:98-99 | lists built by appending only strings not yet present are exactly the lists with no duplicates |
| JsonExtractor.PrintableStringsHarvested | JsonExtractor.cs:88-121 | every string returned consists of bytes 32..126, has length minLen..4097 and occurs in the input; none is repeated |
| JsonExtractor.ExtractPrintableStrings | JsonExtractor.cs:88-121 | a negative maxItems fails; otherwise the loop computes the specified list, which is distinct and harvested |
| MapPatcher.TrimStartShape | MapPatcher.cs:197 | the result is the suffix left after dropping the leading characters, all of them whitespace, and it does not start with whitespace |
| MapPatcher.TrimEndShape | MapPatcher.cs:197 | the result is the prefix left after dropping the trailing characters, all of them whitespace, and it does not end with whitespace |
| MapPatcher.TrimEnds | MapPatcher.cs:197 | a non-empty trimmed string neither starts nor ends with whitespace |
| MapPatcher.TrimNoOp | MapPatcher.cs:197 | trimming a string without outer whitespace changes nothing |
| MapPatcher.NormalizeFolded | MapPatcher.cs:196-197 | a normalised string is lower-case with no '-' and starts with non-whitespace |
| MapPatcher.NormalizeIdempotent | MapPatcher.cs:196-197 | normalising twice is the same as normalising once |
| MapPatcher.NormalizePlain | MapPatcher.cs:196-197 | a trimmed string without capitals normalises to itself with '-' replaced by '_' |
| MapPatcher.BlankIff | MapPatcher.cs:191 | a string is blank iff all its characters are whitespace |
| MapPatcher.MatchesFromIff | MapPatcher.cs:193 | the case-insensitive search succeeds iff some window of the name equals the needle up to case |
| MapPatcher.MatchSelectorIff | MapPatcher.cs:189-194 | a block matches iff the normalised selector is non-empty and a substring of the normalised block name |
| MapPatcher.RequestSystemMatches | MapPatcher.cs:65 | the selector "request-system" matches the block "infrastructure.request-system" |
| MapPatcher.ReplacePropertyRecursive | MapPatcher.cs:152-176 | the result is a stack overflow exactly when the source recursion (`WalkFuel`, which descends into every inserted copy) finishes within no depth bound, which happens iff the new value and the tree both contain the property; otherwise it is what that recursion returns at depth Height(tree) + Height(new value) + 1 |
| MapPatcher.WalkFuelNeverEnds | MapPatcher.cs:152-176 | when the new value and the tree both contain the property, the depth-bounded recursion runs out at every bound |
| MapPatcher.WalkFuelEnds | MapPatcher.cs:152-176 | otherwise the depth-bounded recursion finishes within Height(tree) + Height(new value) + 1 and returns the walk's tree and count |
| MapPatcher.WalkIdentity | MapPatcher.cs:152-176 | a tree without the property comes back unchanged, with count 0 |
| MapPatcher.WalkPatches | MapPatcher.cs:156-173 | every member named propName becomes the new value; every other member, element and scalar keeps its place and order |
| MapPatcher.WalkCount | MapPatcher.cs:156-173 | the count returned is the number of objects in the result that hold the property |
| MapPatcher.WalkIdempotent | MapPatcher.cs:156-166 | replacing again in the result leaves it unchanged and returns the same count |
| MapPatcher.ReplaceOutcome | MapPatcher.cs:152-176 | for a new value without the property the walk succeeds; the count is positive iff the tree had the property, and a second walk is a no-op with the same count |
| MapPatcher.PatchedKeepsProp | MapPatcher.cs:158-161 | a patched tree still holds the property wherever the original did |
| MapPatcher.PatchBlock | MapPatcher.cs:100-138 | a block keeps its name and name bytes. It passes through unchanged with count 0 when it does not match the selector, does not look like JSON, does not parse, parses to null, or gets no replacement. It fails exactly when the parsed tree and the new value both contain the property. For a matching, JSON-looking block that parses to a non-null tree, a success carries exactly the replacement count of that tree. With a positive count, the payload is the serialisation of the replaced tree |
| MapPatcher.PatchBlockPatches | MapPatcher.cs:100-138 | with a new value free of the property, every block goes through, and it gets a positive count iff it matches, looks like JSON and parses to a non-null tree holding the property |
| MapPatcher.PatchAllPatches | MapPatcher.cs:98-139 | with a new value free of the property, the block loop succeeds, and patchedBlocks is positive iff some block is replaceable |
| MapPatcher.FoldSnoc | MapPatcher.cs:98-139 | the counters after k+1 blocks are the counters after k extended by block k |
| MapPatcher.FoldFailed | MapPatcher.cs:98-139 | once a block fails, the loop's outcome is that failure |
| MapPatcher.FoldShape | MapPatcher.cs:98-139 | the block list keeps the length and order of the steps. patchedBlocks is the number of steps with a positive count, and the total is the sum of the counts; patchedBlocks is 0 iff every count is 0. A failure comes from some step |
| MapPatcher.PatchAllShape | MapPatcher.cs:98-139 | the new block list has the input's length and order, block k being block k patched. patchedBlocks is the number of blocks whose PatchBlock count is positive, and patchedPropsTotal is the sum of those counts. No patched block means the list is unchanged. A failure comes from some block |
| MapPatcher.PatchOne | MapPatcher.cs:100-138 | the loop body computes the specified block patch |
| MapPatcher.PatchTurn | MapPatcher.cs:98-139 | one loop turn extends the new block list and both counters as specified |
| MapPatcher.PatchBlocks | MapPatcher.cs:98-139 | the loop over the blocks computes the specified list and counters |
| MapPatcher.PatchJsonProperty | MapPatcher.cs:73-150 | the whole patch computes the specified outcome |
| MapPatcher.PatchOutcomes | MapPatcher.cs:73-150 | decode errors propagate; an unparseable or null value fails before any block is patched; no patched block fails NoBlockPatched. On success the output re-encodes, under the decoded header, the rebuilt prefix, patched blocks and suffix, with 1 <= patchedBlocks <= patchedProps |
| MapPatcher.NoBlockPatchedIff | MapPatcher.cs:78-141 | after decoding and splitting, with a non-null value free of the property, the patch is refused as a no-op iff no block matches the selector with a replaceable property |
| MapPatcher.PatchSpecNoBlockPatchedIff | MapPatcher.cs:73-141 | the same for a whole file that decodes and splits: NoBlockPatched iff no block is replaceable |

## Left out

- zlib, raw deflate and MD5 are parameters, because the model does not look inside them. Where a round trip needs it, `inflateZlib(compress(c)) == Some(c)` is a precondition (`SsfCodec.LosslessOn`), not an axiom.
- System.Text.Json is a parameter:
  - the `Utf8JsonReader` token stream with its consumed-byte counts;
  - `JsonNode.Parse`/`JsonDocument.Parse`;
  - `ToJsonString`.

  JSON numbers are kept as opaque lexemes. `JsonNode.Parse(Encoding.UTF8.GetString(payload))` is modelled as the parser applied directly to the payload bytes, so UTF-8 decoding and replacement characters are not modelled.
- File I/O is replaced by byte sequences in and out: `File.ReadAllBytes` in `Decode`/`EncodeLike`, and `File.Create` and the two writes in `EncodeWithHeaderBytes`.
- Console output is left out. This covers the size-mismatch warning, which is kept as the `sizeMismatch` flag, and the OK lines of the patcher.
- MainForm.cs (the WinForms UI, background thread and backup workflow) is not part of this model. Neither are `JsonExtractor.WriteReport`, which writes a report file, and `JsonExtractor.ParseJson`, a single library call.
- `MapPatcher.PatchBuildCraneEstablish` is not part of this model, and neither are its replacement text and `ExtractReplacementValueJson`. They only pass a constant through the JSON parser and call `PatchJsonProperty` with the selector "request-system", whose match is `MapPatcher.RequestSystemMatches`.
- DecodeReport.cs and JsonFragment.cs are property bags. `JsonFragment` appears as `JsonExtractor.Fragment`, and the report is not modelled.
- `BitConverter` is taken to be little-endian.
- Case folding is approximated:
  - `ToLowerInvariant` and `OrdinalIgnoreCase` fold only 'A'..'Z';
  - `Trim` and `IsNullOrWhiteSpace` use the Unicode whitespace set of single UTF-16 code units.
- `Encoding.ASCII` maps bytes and characters above 127 to '?'. The round trips are stated for 7-bit data only.
- SsfCodec.EncodeWithHeaderBytes: the header copy that `WriteI32LE` and `Buffer.BlockCopy` update is an `array`. The stream is built by `CompressToBlocks` as a sequence, and aliasing between the caller's header and the copy is not modelled, because `ToArray` copies.
- `Json.Obj` holds its members as a sequence of pairs, so the model can represent an object with a repeated key, which a .NET `JsonObject` cannot hold. On such an object `Walk` replaces every member with that name but counts the object once. No such tree reaches the patcher from the source, since the parser is a parameter standing for `JsonNode.Parse`.
- MapPatcher.ReplacePropertyRecursive: the in-place update of `JsonObject` members is modelled as a function returning the new tree. The source's endless recursion, when the new value itself holds the property, is the `StackOverflow` failure rather than a process crash.
- JsonExtractor.ExtractPrintableStrings: does not state that the strings come in order of first occurrence in the input. The method is tied to `StringsFrom`, and stating that order needs the position of each printable run, which `StringsFrom`'s contract does not carry.
- JsonExtractor.PrintableStringsHarvested: does not state that the strings come in order of first occurrence in the input, for the same reason: `StringsFrom` yields strings without the positions of the runs they came from. It states that they are distinct, printable, of length minLen..4097 and present in the input.
- SsfCodec.FindFirstBlockOffset: the scan that `Decode`, `EncodeLike` and `PatchJsonProperty` use (`FirstChunkOffset`) checks `off + 8 + c <= length` in exact arithmetic. The source's 32-bit check throws on `SsfScanOverflow.OverflowFile`, where the model's scan finds the record at offset 16 and `Decode` goes on from there. The as-written scan is `FirstChunkOffsetAsWritten`, and the discrepancy is in "Findings".
- SsfCodec.CompressToBlocks: requires `chunkSize > 0`. With a non-empty payload, the source loops forever for chunkSize 0 (SsfCodec.cs:119-137), since `off` never advances. A negative chunkSize makes `uSize` negative, and the span at SsfCodec.cs:122 throws. The cases excluded with an empty payload are harmless, since the loop does not run. Every caller passes the default of 1 MiB.
- SsfCodec.EncodeWithHeaderBytes: requires `chunkSize > 0`, for the reason given for `CompressToBlocks`.
- SsfCodec.EncodeLike: requires `chunkSize > 0`, for the reason given for `CompressToBlocks`.

## Findings

| source | as written | input that shows it | evidently intended | confidence | as-written member | corrected member |
|---|---|---|---|---|---|---|
| SsfCodec.cs:168 | the fallback scan checks `off + 8 + c > file.Length` in 32-bit `int`; for c near int.MaxValue the sum wraps negative, the check passes, and `new ReadOnlySpan(file, off + 8, c)` throws ArgumentOutOfRangeException, aborting the scan | the 40-byte file `SsfScanOverflow.OverflowFile`: "SSF1", totalComp 0x80000000 so the header length is implausible, and at offset 8 a candidate with u = 0, c = 0x7FFFFFFF; a genuine record starts at offset 16 | an oversized candidate is skipped like any other record that does not fit, and the scan finds offset 16 | not executed | SsfScanOverflow.FallbackScanOverflowAsWritten | SsfScanOverflow.FallbackScanOverflowCorrected |

The same 32-bit bound check appears in `DecompressBlocks` (SsfCodec.cs:97). There a wrapped sum only changes which exception is thrown, so `SsfCodec.ChunkAt` keeps it as written: `OutOfRange` instead of `InvalidChunkSize`, as `SsfCodec.ChunkAtOutcome` states. `SsfCodec.FirstChunkOffset`, the scan that `Decode` uses in the model, performs the bound check in exact arithmetic. `SsfCodec.FirstChunkOffsetAsWritten` keeps the wrap.
