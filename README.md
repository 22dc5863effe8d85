# Record file parser: a Dafny model

This project models `RecordFileParser`, the test client's reader for the
record stream files a Hedera services node writes. It also proves properties
of that model.

A record file is laid out as follows:
- two big-endian int32 header fields: the record format version and the
  protocol version;
- then a sequence of blocks, each opened by a marker byte:
  - `1` (`TYPE_PREV_HASH`): the 48-byte SHA-384 digest of the previous file;
  - `2` (`TYPE_RECORD`): a transaction and its record, each as a
    length-prefixed protobuf message;
  - `3` (`TYPE_SIGNATURE`): the file's signature, also length-prefixed.

The parser offers four operations:
- `loadRecordFile` decodes one file into its previous-file hash and the list
  of (transaction, record) pairs.
- `loadRecordFiles` walks a list of files, checking each link of the hash
  chain: the hash a file declares must equal the SHA-384 digest of the file
  before it.
- `getFileHash` computes that digest.
- `readPrevFileHash` probes only the first block for the declared hash.

Layout:

- `wrappers.dfy`: `Option`.
- `bytes.dfy`: octets, the int32 that `readInt` reads and its round trip with
  `writeInt`, the 48-byte hash, and lower-case hexadecimal with its inverse.
- `streams.dfy`: a `DataInputStream` class over a file's bytes with a
  cursor. `readByte`, `readInt`, `readFully`, `read` and `available` have the
  semantics of `java.io.DataInputStream` over a regular file.
- `record_format.dfy`: the file format and the decoder as pure functions.
  - `Step` decodes one block.
  - `DecodeBlocks` runs the block loop.
  - `LoadResult` is what `loadRecordFile` returns.
  - `PrevHashField` is what `readPrevFileHash` reads.
  - Lemmas give the behaviour of each kind of block.
- `record_encoding.dfy`: a writer for record files, used as the decoder's
  partner. Decoding an encoded, well-formed file yields exactly its pairs in
  order, and the hash of its last previous-hash block. `readPrevFileHash`
  agrees with `loadRecordFile` on a file that has one leading previous-hash
  block. Written blocks followed by any other bytes decode as those
  blocks first. A written file followed by a record block that is cut short
  anywhere after its marker, whose first length prefix is negative, or whose
  transaction or record fails to parse, still loads to exactly the written
  pairs and hash.
- `chain.dfy`: the hash chain check as a reference report. It contains the
  broken links before the first file that ends the walk, and that file's
  index. The report is proved to list every broken link, exactly once and in
  file order, and nothing else.
- `record_file_parser.dfy`: the operations as the class performs them.
  - Methods over the stream and a mutable 48-byte `prevFileHash` array.
  - The block loop and the file loop carry invariants.
  - Each method is proved equal to the pure function that specifies it.

Collaborators the model cannot see are parameters:
- The protobuf parsers are partial functions `seq<uint8> -> Option<T>`, held
  in an `Env` value.
- The record and signature sinks are functions in the same `Env` that return
  `false` when they, or the log formatting after them, throw.
- SHA-384 is a function `seq<uint8> -> Hash48`.
- The file system is a map from names to `Missing`, `Unreadable` or
  `Readable(bytes)`.

Where the behaviour documented for the system and the code disagree, the
model follows the code:
- An unknown marker byte is logged, consumes one byte, and decoding goes on.
- Any exception inside a block, including a payload that fails to parse,
  ends decoding; the pairs decoded before it are kept.
- In `loadRecordFiles`, a missing file, or an unreadable file after the
  first, ends the whole walk with a `NullPointerException`:
  - for a missing file, at `result.getKey()`;
  - for an unreadable file, when the `null` hash is hex-encoded for the log.

  The model reports this as `ChainReport.abortedAt`.

## Model

| member | source | states |
|---|---|---|
| Bytes.BigEndianInt32 | test-clients/src/main/java/com/hedera/services/legacy/client/util/RecordFileParser.java:92-93 | `readInt` yields an int32, negative exactly when the high bit of the first octet is set |
| Bytes.Int32RoundTrip | test-clients/src/main/java/com/hedera/services/legacy/client/util/RecordFileParser.java:109-117 | a length prefix written for any int32 is read back as that int32 |
| Bytes.Zeros | test-clients/src/main/java/com/hedera/services/legacy/client/util/RecordFileParser.java:91 | the freshly allocated hash buffer is 48 octets, all zero |
| Bytes.Hex | test-clients/src/main/java/com/hedera/services/legacy/client/util/RecordFileParser.java:264 | the hex text has two lower-case hexadecimal digits per octet |
| Bytes.UnHexHex | test-clients/src/main/java/com/hedera/services/legacy/client/util/RecordFileParser.java:264-266 | the hex string loses nothing: the octets read back from it are the hash |
| Streams.DataInputStream.constructor | test-clients/src/main/java/com/hedera/services/legacy/client/util/RecordFileParser.java:88-89 | a new stream is over the file's bytes, at offset 0 |
| Streams.DataInputStream.Available | test-clients/src/main/java/com/hedera/services/legacy/client/util/RecordFileParser.java:98 | `available()` is zero exactly when the whole file has been consumed |
| Streams.DataInputStream.ReadByte | test-clients/src/main/java/com/hedera/services/legacy/client/util/RecordFileParser.java:101 | the next byte and a cursor one further on, or end-of-file with the cursor unmoved |
| Streams.DataInputStream.ReadInt | test-clients/src/main/java/com/hedera/services/legacy/client/util/RecordFileParser.java:92-93 | the big-endian int32 of the next four bytes, or end-of-file with the file consumed |
| Streams.DataInputStream.ReadFully | test-clients/src/main/java/com/hedera/services/legacy/client/util/RecordFileParser.java:112 | fills the whole buffer from the stream exactly when enough bytes remain, otherwise fails having consumed the file |
| Streams.DataInputStream.Read | test-clients/src/main/java/com/hedera/services/legacy/client/util/RecordFileParser.java:105 | copies min(48, remaining) bytes to the front of the buffer, keeps the buffer's tail, and returns the count or -1 at end of file |
| RecordFormat.ReadInt32 | test-clients/src/main/java/com/hedera/services/legacy/client/util/RecordFileParser.java:109 | an int32 is there exactly when four bytes remain |
| RecordFormat.ReadSized | test-clients/src/main/java/com/hedera/services/legacy/client/util/RecordFileParser.java:109-112 | a length-prefixed range is exactly the bytes after the prefix, and reading ends right after them |
| RecordFormat.FillHash | test-clients/src/main/java/com/hedera/services/legacy/client/util/RecordFileParser.java:105 | the buffer after `read`: the bytes read in front, and the old contents after them |
| RecordFormat.RecordStep | test-clients/src/main/java/com/hedera/services/legacy/client/util/RecordFileParser.java:108-128 | a record block moves forward and never touches the hash |
| RecordFormat.SignatureStep | test-clients/src/main/java/com/hedera/services/legacy/client/util/RecordFileParser.java:129-136 | a signature block moves forward and changes neither the hash nor the pairs |
| RecordFormat.Step | test-clients/src/main/java/com/hedera/services/legacy/client/util/RecordFileParser.java:101-145 | one pass of the block loop advances; only marker 1 changes the hash, and only marker 2 changes the pairs |
| RecordFormat.DecodeBlocks | test-clients/src/main/java/com/hedera/services/legacy/client/util/RecordFileParser.java:98-146 | the block loop runs to the end of the file or to the first failing block; a pair takes at least nine bytes (marker and two length prefixes), so it yields at most one pair per nine bytes |
| RecordFormat.LoadResult | test-clients/src/main/java/com/hedera/services/legacy/client/util/RecordFileParser.java:73-165 | null exactly for a missing file; the hash is null exactly when the file cannot be opened |
| RecordFormat.PrevHashField | test-clients/src/main/java/com/hedera/services/legacy/client/util/RecordFileParser.java:250-266 | the probe finds a hash exactly when the file can be read, has a byte after the 8-byte header, and that byte is marker 1 |
| RecordFormat.ShortHeaderYieldsZeroHash | test-clients/src/main/java/com/hedera/services/legacy/client/util/RecordFileParser.java:91-93 | a file shorter than the 8-byte header loads as the zero hash and no pairs |
| RecordFormat.UnknownMarkerSkipped | test-clients/src/main/java/com/hedera/services/legacy/client/util/RecordFileParser.java:138-140 | a marker other than 1, 2 or 3 consumes one byte, changes nothing, and decoding goes on |
| RecordFormat.StopEndsDecoding | test-clients/src/main/java/com/hedera/services/legacy/client/util/RecordFileParser.java:142-145 | an exception inside a block ends the loop with what had been decoded |
| RecordFormat.DecodeAfterStep | test-clients/src/main/java/com/hedera/services/legacy/client/util/RecordFileParser.java:98-146 | after a block completes, the loop goes on from where the block ended |
| RecordFormat.RecordBlockStep | test-clients/src/main/java/com/hedera/services/legacy/client/util/RecordFileParser.java:108-128 | a pair (transaction, record) is appended exactly when both ranges are complete and both parse; the loop then goes on exactly when the sink accepts; otherwise nothing changes and the loop ends |
| RecordFormat.SignatureBlockStep | test-clients/src/main/java/com/hedera/services/legacy/client/util/RecordFileParser.java:129-136 | a signature block adds nothing and goes on after its range exactly when the range is complete and the sink accepts it |
| RecordFormat.PrevHashBlockStep | test-clients/src/main/java/com/hedera/services/legacy/client/util/RecordFileParser.java:104-107 | a previous-hash block always goes on; it overwrites the front of the buffer with up to 48 bytes and keeps the tail |
| RecordFormat.StepKeepsPairs | test-clients/src/main/java/com/hedera/services/legacy/client/util/RecordFileParser.java:108-120 | a block keeps the pairs before it and adds at most one |
| RecordFormat.DecodeKeepsPairs | test-clients/src/main/java/com/hedera/services/legacy/client/util/RecordFileParser.java:98-146 | decoding never drops a pair it appended, even when a later block fails |
| RecordFormat.PrevHashFieldContents | test-clients/src/main/java/com/hedera/services/legacy/client/util/RecordFileParser.java:250-264 | the probed hash holds the bytes after the marker, and zero wherever a short read did not reach |
| RecordEncoding.LastPrevHashIsLast | test-clients/src/main/java/com/hedera/services/legacy/client/util/RecordFileParser.java:104-107 | the last previous-hash block's bytes win; with none, the buffer stays as allocated |
| RecordEncoding.StepPrevHashRead | test-clients/src/main/java/com/hedera/services/legacy/client/util/RecordFileParser.java:104-107 | a complete previous-hash block sets the hash to its 48 bytes |
| RecordEncoding.StepRecordRead | test-clients/src/main/java/com/hedera/services/legacy/client/util/RecordFileParser.java:108-128 | a complete record block that parses and is accepted appends its pair and goes on after it |
| RecordEncoding.StepSignatureRead | test-clients/src/main/java/com/hedera/services/legacy/client/util/RecordFileParser.java:129-136 | a complete, accepted signature block changes nothing and goes on after it |
| RecordEncoding.StepEncodedBlock | test-clients/src/main/java/com/hedera/services/legacy/client/util/RecordFileParser.java:101-140 | decoding a written block performs exactly that block and stops where the next block begins |
| RecordEncoding.DecodeEncodedPrefix | test-clients/src/main/java/com/hedera/services/legacy/client/util/RecordFileParser.java:98-146 | written blocks followed by any bytes at all decode as those blocks, in order, and leave decoding at the first byte after them |
| RecordEncoding.DecodeEncodedBlocks | test-clients/src/main/java/com/hedera/services/legacy/client/util/RecordFileParser.java:98-146 | decoding written blocks replays them in order to the end of the file |
| RecordEncoding.LoadEncodedBlocks | test-clients/src/main/java/com/hedera/services/legacy/client/util/RecordFileParser.java:73-165 | a header followed by written blocks loads to their pairs and their last hash |
| RecordEncoding.LoadEndsAfterEncoded | test-clients/src/main/java/com/hedera/services/legacy/client/util/RecordFileParser.java:98-146 | when the bytes after written blocks end decoding at once, the file loads to exactly the written pairs and hash |
| RecordEncoding.TruncatedRecordLoads | test-clients/src/main/java/com/hedera/services/legacy/client/util/RecordFileParser.java:108-145 | a written file followed by marker 2 and fewer than four bytes (a cut-short length) loads to the written pairs and hash: the `EOFException` ends the loop and loses nothing |
| RecordEncoding.NegativeLengthLoads | test-clients/src/main/java/com/hedera/services/legacy/client/util/RecordFileParser.java:109-145 | a written file followed by marker 2 and a negative first length prefix loads to the written pairs and hash: the failed allocation ends the loop |
| RecordEncoding.UnparsableTransactionLoads | test-clients/src/main/java/com/hedera/services/legacy/client/util/RecordFileParser.java:112-145 | a written file followed by marker 2 and a transaction that fails to parse loads to the written pairs and hash |
| RecordEncoding.UnparsableRecordLoads | test-clients/src/main/java/com/hedera/services/legacy/client/util/RecordFileParser.java:115-145 | a written file followed by a complete record block whose transaction parses but whose record does not loads to the written pairs and hash: no pair is appended |
| RecordEncoding.CutRecordLoads | test-clients/src/main/java/com/hedera/services/legacy/client/util/RecordFileParser.java:108-145 | a written file followed by a record block cut short (its marker kept, but not the whole block) loads to the written pairs and hash: whether the cut falls in a length prefix or in a range (a length larger than the bytes left), the `EOFException` ends the loop and loses nothing |
| RecordEncoding.RoundTrip | test-clients/src/main/java/com/hedera/services/legacy/client/util/RecordFileParser.java:73-165 | a written, well-formed file loads to exactly its pairs in file order, and the hash of its last previous-hash block (zero when none) |
| RecordEncoding.ProbeFindsHash | test-clients/src/main/java/com/hedera/services/legacy/client/util/RecordFileParser.java:260-266 | 48 hash bytes right after the header's marker 1 are what the probe returns |
| RecordEncoding.EncodedProbe | test-clients/src/main/java/com/hedera/services/legacy/client/util/RecordFileParser.java:243-288 | a file written with a previous-hash block first gives that hash to the probe |
| RecordEncoding.LeadingHashLoads | test-clients/src/main/java/com/hedera/services/legacy/client/util/RecordFileParser.java:73-165 | a file written with a single, leading previous-hash block loads with that hash and its pairs |
| RecordEncoding.ProbeAgreesWithLoad | test-clients/src/main/java/com/hedera/services/legacy/client/util/RecordFileParser.java:243-288 | on such a file, `readPrevFileHash` and `loadRecordFile` read the same hash |
| ChainCheck.FirstFatal | test-clients/src/main/java/com/hedera/services/legacy/client/util/RecordFileParser.java:173-180 | the walk reaches the first file that ends it, and no earlier one ends it |
| ChainCheck.BrokenLinksSound | test-clients/src/main/java/com/hedera/services/legacy/client/util/RecordFileParser.java:176-183 | every reported mismatch is about a file after the first, with its name, the computed digest of its predecessor and its declared hash, and these differ |
| ChainCheck.BrokenLinksOrdered | test-clients/src/main/java/com/hedera/services/legacy/client/util/RecordFileParser.java:173-191 | mismatches are reported in file order, each link at most once |
| ChainCheck.BrokenLinksComplete | test-clients/src/main/java/com/hedera/services/legacy/client/util/RecordFileParser.java:176-186 | every broken link is reported: a mismatch does not stop the walk, and the running digest moves on regardless |
| ChainCheck.NoBrokenLinksBelow | test-clients/src/main/java/com/hedera/services/legacy/client/util/RecordFileParser.java:176-184 | links that all hold produce no mismatch |
| ChainCheck.IntactChainReportsNothing | test-clients/src/main/java/com/hedera/services/legacy/client/util/RecordFileParser.java:170-192 | a walk over present, readable files whose every link holds reports nothing and is not aborted |
| ChainCheck.GetFileHash | test-clients/src/main/java/com/hedera/services/legacy/client/util/RecordFileParser.java:216-234 | the digest of the file's bytes; a file that cannot be read (missing or unreadable) is digested as the empty array |
| ChainCheck.FileAt | test-clients/src/main/java/com/hedera/services/legacy/client/util/RecordFileParser.java:174-188 | the file the walk finds under a name: missing when the name came earlier (that file was moved to the parsed directory) or is not there, and otherwise the file itself |
| ChainCheck.FatalIsNullDereference | test-clients/src/main/java/com/hedera/services/legacy/client/util/RecordFileParser.java:174-180 | a file ends the walk exactly when `loadRecordFile` returns null, or returns a null hash for a file after the first |
| ChainCheck.BrokenLinks | test-clients/src/main/java/com/hedera/services/legacy/client/util/RecordFileParser.java:176-183 | at most one mismatch per link: none for the first file and at most one for each later file |
| ChainCheck.ExpectedReport | test-clients/src/main/java/com/hedera/services/legacy/client/util/RecordFileParser.java:170-192 | the walk ends at a file that ends it and at no earlier file, or runs over every file when none ends it; there are fewer mismatches than files |
| ChainCheck.RepeatedNameIsFatal | test-clients/src/main/java/com/hedera/services/legacy/client/util/RecordFileParser.java:174-188 | a name listed a second time ends the walk: its file was moved away after it was first read |
| ChainCheck.EncodedLinkIntact | test-clients/src/main/java/com/hedera/services/legacy/client/util/RecordFileParser.java:172-186 | a file written with its predecessor's digest as its single previous-hash block makes an intact link |
| RecordFileParser.ReadSizedBytes | test-clients/src/main/java/com/hedera/services/legacy/client/util/RecordFileParser.java:109-117 | reads a length-prefixed range exactly as `ReadSized` specifies, failing on a cut-short prefix, a negative length or a short range |
| RecordFileParser.ReadHash | test-clients/src/main/java/com/hedera/services/legacy/client/util/RecordFileParser.java:105 | `read(prevFileHash)` leaves the buffer `FillHash` gives and moves past the bytes read |
| RecordFileParser.ReadRecordBlock | test-clients/src/main/java/com/hedera/services/legacy/client/util/RecordFileParser.java:108-128 | reads a record block with the pairs, counter and continuation `RecordStep` gives |
| RecordFileParser.ReadBlock | test-clients/src/main/java/com/hedera/services/legacy/client/util/RecordFileParser.java:101-145 | one pass of the loop leaves the buffer, pairs, counter and position `Step` gives |
| RecordFileParser.LoadRecordFile | test-clients/src/main/java/com/hedera/services/legacy/client/util/RecordFileParser.java:73-165 | `loadRecordFile` returns exactly `LoadResult` of the file |
| RecordFileParser.LoadRecordFiles | test-clients/src/main/java/com/hedera/services/legacy/client/util/RecordFileParser.java:170-192 | `loadRecordFiles` logs exactly the mismatches of the reference report, and stops where it says |
| RecordFileParser.ReadPrevFileHash | test-clients/src/main/java/com/hedera/services/legacy/client/util/RecordFileParser.java:243-288 | non-null exactly when the file can be read and its byte at offset 8 is marker 1; then the 96-character hex of the probed 48-byte buffer |

The marker constants (`RecordFileParser.java:61-63`) are
`RecordFormat.TYPE_PREV_HASH`, `TYPE_RECORD` and `TYPE_SIGNATURE`.

## Left out

- Logging through log4j is not modelled. The model assumes that no logging call throws.
- `RecordFileLogger.initFile` and `completeFile` are not modelled. The model assumes that neither throws: `initFile` (line 84) runs outside any `try` and `completeFile` (line 161) runs in the `finally`, so an exception from either would escape `loadRecordFile`.
- The record and signature sinks are pure functions of their arguments, and one `Env` serves every file of a walk. A sink whose outcome depends on earlier calls, or on the file being read, cannot be expressed.
- `RecordFileLogger.storeRecord`, `storeSignature` and the log formatting after an append (`printTransaction`, `getTransactionBody`, `TextFormat`) are not modelled. Only whether they throw is kept, as `Env.storeRecord` and `Env.storeSignature` returning false.
- Protobuf parsing is an opaque partial function. The structure of transactions and records is not modelled.
- SHA-384 is an opaque function returning 48 octets. Its internals are not modelled.
- `getFileHash` returns null on `NoSuchAlgorithmException`; that branch is not modelled, because every Java runtime must provide SHA-384.
- LoadRecordFiles: `moveFileToParsedDir` is modelled only as the file leaving the place its name refers to. A move that fails (logged `IOException`) would leave the file in place; that case is not modelled. The `NullPointerException` for a name with no grandparent directory is not modelled either, and neither is the parsed directory itself.
- LoadRecordFile: a length prefix larger than the rest of the file is treated as the `EOFException` from `readFully`. A length large enough to make `new byte[n]` throw `OutOfMemoryError` is not modelled; that error is not caught by the method.
- I/O errors other than end-of-file while reading an open file are not modelled. A file is a fixed sequence of bytes, and on a regular file `read` returns every requested byte that remains.
- Closing the streams is not modelled. The model assumes that `close` does not throw on the file stream; an `IOException` from it is caught and logged in any case.
