# BinParserTest decoder, modelled in Dafny

BinParserTest reads radar target records out of a framed binary file.
The decoder has four layers.

- **Stream reader.** `BinFileReader` is a checked reader over an input
  file stream. Every read, skip and signature search first checks that
  the file is open and the stream still good. A failure comes back as an
  `ifstreamBinaryError` instead of as an exception.
- **Frame and module walk.** `findModule` searches the stream for the
  frame signature `0xAB 0xCD`. It then reads the frame's 16-bit
  big-endian total size and walks the modules that follow. Each module is
  a 2-byte tag plus a 16-bit big-endian length that counts the 4 header
  bytes. The walk returns the payload of the first module whose tag
  matches. Tags are written with the `_bin_block` literal.
- **Record decode.** `TargetMessagePOD::fromBytes` decodes one packed
  29-byte record of sixteen big-endian integer fields from the front of a
  byte span, then advances the span.
- **Array decode.** `parseTargetMessages` splits a module payload into
  records.

How the model is built:

- The stream is the file's bytes, a position, whether it is open and
  whether it is still good. `FileReader.BinFileReader` is a class whose
  methods update the position and the good flag, as the source's member
  functions update the stream.
- Each reader method is proved against a specification written on those
  bytes. Whole operations are specified by functions:
  `SignatureSearch.Scan` for the signature search, `ModuleWalk.Walk` and
  `ModuleWalk.FindModuleSpec` for the module walk, and
  `TargetMessages.Decode` / `TargetMessages.Records` for the record
  layout.
- The properties the code guarantees are lemmas about those functions:
  - round trips between records and bytes;
  - the first-occurrence guarantee of the signature search;
  - which module header a payload can come from;
  - which frames make the walk loop for ever, and that every other frame
    ends the walk.
- The byte order of the host (`std::endian::native`) is a parameter.
  Every big-endian read is proved to give the same value on either host.

## Model

| member | source | states |
|---|---|---|
| Binary.DecodeEncodeInt | include/binary.h:10-13 | Encoding an in-range integer of a given width as big-endian bytes and decoding those bytes gives the integer back |
| Binary.EncodeDecodeInt | include/binary.h:10-13 | Every byte string of a width's size is the big-endian encoding of the value it decodes to, so decoding loses nothing |
| Binary.Read | include/binary.h:7-16 | `read` consumes exactly sizeof(T) bytes from the front of the span and leaves the rest |
| Binary.ReadMeaning | include/binary.h:10-13 | A read in big-endian order yields the big-endian value of the bytes in stream order; a little-endian read yields that of the reversed bytes; the host order never matters |
| Binary.BigEndianReadIsHostIndependent | include/binary.h:10-13 | A big-endian read of the same bytes gives the same value on a big-endian and on a little-endian host |
| Binary.ReadAt | include/binary.h:7-16 | A read from a span that starts at offset `off` of a buffer yields the big-endian value of bytes off..off+size and leaves the span starting at off+size |
| Binary.ReadBigEndian | include/binary.h:7-16 | The executable read used by the record decoder returns the value of the bytes at the given offset and the remaining span |
| Binary.ConsecutiveReads | include/binary.h:14 | Two reads in a row consume adjacent fields: the second starts where the first ended |
| FileReader.ErrorStr | include/bin_file_reader.h:28-39 | Each error has a newline-terminated message; exactly MODUL_NOT_FOUND falls through to "UNKNOWN ERROR" |
| FileReader.StreamOffset | src/bin_file_reader.cpp:12 | A size_t offset becomes a 64-bit signed stream offset congruent to it modulo 2^64, so a huge offset is a backwards seek |
| FileReader.BinFileReader.constructor | src/bin_file_reader.cpp:4 | A new reader is at position 0, and its stream is good exactly when the file is open |
| FileReader.BinFileReader.Oriented | include/bin_file_reader.h:109-110 | Reordering the bytes of a read keeps their number and changes nothing when the requested order is the host's |
| FileReader.BinFileReader.CheckValidity | src/bin_file_reader.cpp:23-31 | NOT_OPEN exactly when the file is closed; ERROR_FILE exactly when it is open but not good; success exactly when it is open and good |
| FileReader.BinFileReader.GetCursor | src/bin_file_reader.cpp:33-35 | Returns the current position, which lies within the file, and changes nothing |
| FileReader.BinFileReader.Seek | src/bin_file_reader.cpp:12 | A relative seek on a good stream to a position inside the file moves there; any other seek leaves the position and makes the stream not good |
| FileReader.BinFileReader.ReadInto | include/bin_file_reader.h:106-107 | Copies the next min(buffer length, bytes left) file bytes into the front of the buffer and leaves the rest of the buffer alone; the stream stays good only on a full read |
| FileReader.BinFileReader.ReverseInPlace | include/bin_file_reader.h:109-110 | The buffer afterwards holds its old contents in reverse order |
| FileReader.BinFileReader.TryReadInto | include/bin_file_reader.h:100-112 | An invalid stream's error is returned with nothing read. Otherwise the next `size` bytes are read, reversed when the requested order is not the host's; or, when fewer bytes are left, OUT_OF_RANGE is returned with the stream at the end and not good, the bytes that were left at the front of the buffer unreversed and the rest of the buffer unchanged |
| FileReader.BinFileReader.TryReadBytes | include/bin_file_reader.h:119-127 | Returns a fresh vector of exactly `size` bytes from the current position in the requested order, or the error of the underlying read |
| FileReader.BinFileReader.OrientedValue | include/bin_file_reader.h:131-138 | The integer that the bytes of a big-endian read form in memory is the big-endian value of the file bytes on either host; for a little-endian read it is that of the reversed bytes |
| FileReader.BinFileReader.TryReadInt | include/bin_file_reader.h:131-138 | Reading an integer of a given width consumes exactly its size and returns its value in the requested byte order, independent of the host; a short read gives OUT_OF_RANGE and leaves the stream not good |
| FileReader.BinFileReader.Skip | src/bin_file_reader.cpp:6-21 | An invalid stream's error comes back unchanged. Otherwise the position moves by the offset read as a signed 64-bit stream offset when that stays inside the file; a seek outside gives ERROR_FILE, and the stream is then not good |
| FileReader.BinFileReader.CompareChunk | include/bin_file_reader.h:88-93 | Finds the lowest offset of a full chunk at which the signature starts, exactly the first match of the signature among the chunk's start offsets in the file |
| FileReader.BinFileReader.SkipToSignature | include/bin_file_reader.h:70-98 | On a valid stream, either leaves the position just after the first occurrence that the chunked search finds (the position that `Scan` gives), or ends with ERROR_FILE at the end of the file when none is found; an invalid stream's error comes back unchanged |
| SignatureSearch.FirstMatchIsLowest | include/bin_file_reader.h:88-93 | The comparison loop returns an offset at which the signature occurs with no occurrence before it, and returns nothing exactly when no offset in the range matches |
| SignatureSearch.ChunkWindow | include/bin_file_reader.h:89 | The memcmp of the chunk buffer at offset i is a comparison of the file at chunkStart + i |
| SignatureSearch.ScanFindsFirst | include/bin_file_reader.h:80-96 | A successful search stops right after an occurrence of the signature that starts at an offset a full chunk compared, and there is no earlier occurrence at or after the starting position |
| SignatureSearch.ScanMissesNothing | include/bin_file_reader.h:80-96 | Because each chunk starts at the first offset its predecessor did not compare, the search fails exactly when no offset before the start of the final short chunk holds an occurrence, including occurrences that straddle chunk boundaries |
| SignatureSearch.ScanFindsOccurrence | include/bin_file_reader.h:80-96 | An occurrence at any offset a full chunk compares is always found, at or before it |
| SignatureSearch.PartialChunkIsNotScanned | include/bin_file_reader.h:80-86 | Fewer than `buffer_size` bytes remain from where the final chunk starts, and when the only occurrences lie from there on, the search finds nothing: the validity check after the short read fails before that chunk is compared |
| TargetMessages.ParseErrorStr | include/parser.h:18-29 | Each parse error has a newline-terminated message; exactly dataSizeMismatch falls through to "UNKNOWN ERROR" |
| TargetMessages.Encode | include/parser.h:32-62 | The on-disk form of a record is exactly sizeof(TargetMessagePOD) = 29 bytes |
| TargetMessages.DecodeEncode | include/parser.h:33-56 | Decoding the 29-byte big-endian form of a record gives every field back |
| TargetMessages.EncodeDecode | include/parser.h:33-62 | Every 29-byte string is the form of the record it decodes to; the packed layout has no unused byte |
| TargetMessages.DecodePrefix | src/parser.cpp:109-130 | Each field of the record decoded from the first 29 bytes is the big-endian value of that field's bytes at its packed offset |
| TargetMessages.FromBytes | src/parser.cpp:105-133 | Fewer than 29 bytes give dataSizeMismatch and leave the span untouched; otherwise the record is the decoding of the first 29 bytes, and the span advances past them |
| TargetMessages.ChunksOfConcat | src/parser.cpp:53-57 | Cutting 29-byte chunks laid end to end gives the chunks back |
| TargetMessages.ConcatOfChunks | src/parser.cpp:53-57 | Laying end to end the 29-byte chunks of a payload of whole records gives the payload back |
| TargetMessages.RecordsExtend | src/parser.cpp:53-57 | Decoding the span that starts at record k gives record k and leaves the span that starts at record k + 1 |
| TargetMessages.RecordsEncodeAll | src/parser.cpp:47-60 | Decoding the bytes of any record array gives back that array |
| TargetMessages.EncodeAllRecords | src/parser.cpp:47-60 | The records of a payload of whole records re-encode to exactly that payload |
| TargetMessages.EncodeAllPrefix | src/parser.cpp:47-60 | The first k records of a payload re-encode to its first 29k bytes |
| ModuleWalk.Uint16AtIsBigEndianRead | src/parser.cpp:28-30 | The module length and the frame size used by the walk are the big-endian uint16_t read of their two bytes |
| ModuleWalk.TagAtIsTagRead | src/parser.cpp:33 | The tag comparison of the walk is equality of the two tag bytes read with the target tag |
| ModuleWalk.PayloadSize | src/parser.cpp:38 | The payload size is the declared length minus 4 in uint16_t arithmetic, so it wraps for lengths below 4 |
| ModuleWalk.SkipMovesByLengthMinusHeader | src/parser.cpp:35 | Skipping `length - sizeof(length) - signatureSize` as a size_t moves the cursor by exactly length - 4, backwards for lengths below 4 |
| ModuleWalk.WalkReturnsMatchingPayload | src/parser.cpp:23-44 | A payload is only ever returned for a header the walk reaches after passing over every header before it; that header matches the tag and ends before the frame's bound, and the payload is exactly the declared length minus 4 (mod 2^16) bytes after it. So it is the first matching module |
| ModuleWalk.NoPayloadPastBound | src/parser.cpp:31-32 | No header that ends at or past the frame's bound can yield a payload, even when its tag matches |
| ModuleWalk.SmallFrameYieldsNothing | src/parser.cpp:15-32 | A frame whose total size is at most 6 yields no module: its first header already reaches the bound |
| ModuleWalk.WalkReadsOnlyAhead | src/parser.cpp:23-36 | The walk depends only on the bytes from the current header on |
| ModuleWalk.SkippedPayloadIsIgnored | src/parser.cpp:35 | The payload of a module that is passed over is never looked at: files that differ only there walk the same way |
| ModuleWalk.DivergesOnlyAtZeroLength | src/parser.cpp:23-36 | If findModule loops for ever, the walk has reached a header that is inside the bound, does not match and declares length 0 |
| ModuleWalk.ZeroLengthDiverges | src/parser.cpp:23-36 | Conversely, a walk that reaches such a header never ends (Parser.PassModule shows the pass over it leaving the reader unchanged) |
| ModuleWalk.PositiveLengthsTerminate | src/parser.cpp:23-36 | If no header the walk reaches declares length 0, the walk ends, whatever bytes the skipped payloads hold |
| Parser.BinBlock | include/parser.h:65-72 | A literal gives a module tag exactly when it has two characters, and the tag holds those two characters in order |
| Parser.FindModule | src/parser.cpp:7-45 | A reader that is not valid returns its error and nothing moves. Otherwise the result, the final position and the good flag are those of the signature search followed by the module walk on the file's bytes |
| Parser.ReadModuleHeader | src/parser.cpp:24-30 | Returns the 2-byte tag and the big-endian length of the header at the cursor and moves past it, or ERROR_FILE on a bad stream, or OUT_OF_RANGE when fewer than 4 bytes are left |
| ModuleWalk.WalkFollowsChain | src/parser.cpp:23-36 | The walk from a header ends the same way as the walk from any later header it reaches |
| Parser.PassModule | src/parser.cpp:24-35 | One pass of the loop: the error of a failed header read; MODUL_NOT_FOUND once the header ends `total` bytes past `start`; leaving the loop on a matching tag; otherwise the cursor ends up `length` bytes after the start of the header, or the stream is not good when that lies past the end. A length-0 header leaves position and stream state exactly as they were, so the next pass repeats it, and lengths 1 to 3 move the cursor back into the header |
| Parser.WalkModules | src/parser.cpp:23-44 | The loop ends with the result, position and good flag that the walk specification gives from the first header |
| Parser.ReadPayload | src/parser.cpp:38-44 | Reads exactly length - 4 (mod 2^16) bytes at the cursor, or OUT_OF_RANGE when the file is shorter |
| Parser.ParseAsWritten | src/parser.cpp:47-60 | arraySizeMismatch exactly when the payload is not a whole number of records; otherwise ceil(n/2) records come back for n whole records |
| Parser.AsWrittenIsPrefix | src/parser.cpp:47-60 | The records that come back are the leading ones of the payload: they re-encode to its first 29 bytes per record |
| Parser.AsWrittenCount | src/parser.cpp:53 | The loop, which compares its byte counter with the shrinking span, stops after the k-th record exactly when 2k records reach or pass the payload's length |
| Parser.ParseTargetMessages | src/parser.cpp:47-60 | The loop as written returns what ParseAsWritten states |
| Parser.ParseTargetMessagesIntended | src/parser.cpp:47-60 | arraySizeMismatch exactly when the payload is not a whole number of records; otherwise all records in order, and they re-encode to exactly the payload |
| Parser.TwoRecordsYieldOne | src/parser.cpp:53-58 | The payload of any two records decodes, as written, to the first record alone |

## Left out

- src/main.cpp is not part of this model: opening the file, choosing the tag, and printing records and errors.
- The printing helpers of src/parser.cpp:62-103 are not part of this model. They produce console output.
  - `printTargetMessage` also drops the last byte of the located payload before it calls `parseTargetMessages` (src/parser.cpp:68). A payload of exactly 29n bytes therefore reaches the decoder as 29n - 1 bytes and gives arraySizeMismatch.
  - For an empty payload, `size() - 1` wraps around and the span is invalid.
- The stream internals are abstracted. A file is a byte sequence and the stream is a position plus the open and good flags.
  - A seek outside the file is modelled as failing with the position unchanged.
  - `tellg` is never -1 in the model.
  - With that stream model, the OUT_OF_RANGE branch of `skip` (src/bin_file_reader.cpp:18-19) cannot be taken: a successful seek always moves by exactly the offset modulo 2^64.
- The host byte order (`std::endian::native`) is a parameter, not the machine's.
  - `memcpy` into a `T` is modelled as the value of the bytes in host order.
  - `std::byteswap` and `std::reverse` are modelled as reversal of the bytes.
  - Only the integer widths that the decoder uses are modelled: 8, 16 and 32 bits, signed and unsigned.
- The `std::byte*` overload of `tryReadData` (include/bin_file_reader.h:114-117) only casts its pointer. It is the same method as the `char*` overload, `TryReadInto`.
- The declaration of `fromBytes` at include/parser.h:59 is not modelled.
  - The definition at src/parser.cpp:105 takes the span by reference and matches no declaration at include/parser.h:59, which takes it by value. As written, src/parser.cpp does not compile.
  - The model follows the definition: `fromBytes` advances the caller's span.
  - With the declared by-value signature, every pass of `parseTargetMessages` would decode the first 29 bytes again and return n copies of the first record.
- Binary.Read: requires at least sizeof(T) bytes in the span. The source does not check this; reading past the span is undefined behaviour there.
- FileReader.BinFileReader.Skip: requires the offset to be a size_t, i.e. below 2^64, which the source's parameter type guarantees.
- FileReader.BinFileReader.SkipToSignature: the signature is a byte sequence rather than a value of an arbitrary trivially copyable type `T`. The byte-wise `memcmp` makes the two the same. The trailing `return {}` after the loop cannot be reached: the loop only ends through a failed validity check.
- Parser.FindModule: requires that the walk ends. On a frame with a module that neither matches nor reaches the bound and declares length 0, the source loops for ever re-reading the same header. ModuleWalk.DivergesOnlyAtZeroLength and ModuleWalk.ZeroLengthDiverges characterise exactly those frames.
- Parser.WalkModules: the same requirement that the walk ends, for the same reason.
- Two behaviours of `skipToSignature` that a caller may not expect, both modelled as the code has them:
  - When the signature is absent, the search fails with ERROR_FILE, from the validity check after the final short read. There is no separate "not found" error.
  - The last, short chunk is never compared. A signature that only that chunk would reach is not found (SignatureSearch.PartialChunkIsNotScanned).

## Findings

| source | as written | input that shows it | evidently intended | confidence | as-written member | corrected member |
|---|---|---|---|---|---|---|
| src/parser.cpp:53-58 | The loop runs while its byte counter `i` is below `data.size_bytes()`, but `fromBytes(data)` at line 54, under the by-reference definition at line 105, shrinks `data` by 29 bytes each pass while `i` grows by 29, so the loop stops halfway. The count ceil(n/2) depends on following that definition; under the by-value declaration at include/parser.h:59 the loop would instead return n copies of the first record | A 58-byte payload holding two encoded records: the first pass leaves i = 29 and a 29-byte `data`, so the loop ends and only the first record is returned | Every one of the n = len/29 records is decoded and returned in order | not executed | Parser.TwoRecordsYieldOne | Parser.ParseTargetMessagesIntended |
