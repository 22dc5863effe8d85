/**
 * The record file format and what `RecordFileParser.loadRecordFile` makes of
 * a file, as pure functions.
 *
 * A record file is two big-endian int32 header fields followed by blocks,
 * each opened by a marker byte: 1 the previous file's hash, 2 a transaction
 * and its record, 3 the file's signature. Decoding walks the blocks while
 * bytes remain. An unknown marker is skipped (one byte) and decoding goes
 * on; any failure inside a block ends decoding and keeps what was decoded.
 */
module RecordFormat {
  import opened Wrappers
  import opened Bytes

  const TYPE_PREV_HASH: uint8 := 1
  const TYPE_RECORD: uint8 := 2
  const TYPE_SIGNATURE: uint8 := 3

  /** Two int32 fields: the record format version and the protocol version. */
  const HEADER_LENGTH: nat := 8

  /**
   * What the file system offers under a name: nothing, an entry that cannot
   * be opened or read (a directory, no permission), or a file's bytes.
   */
  datatype FileState = Missing | Unreadable | Readable(bytes: seq<uint8>)

  function Lookup(fs: map<string, FileState>, name: string): FileState
  {
    if name in fs then fs[name] else Missing
  }

  datatype RecordPair<Tx, Rec> = RecordPair(transaction: Tx, record: Rec)

  /**
   * The collaborators decoding calls out to. `parseTransaction` and
   * `parseRecord` are the protobuf parsers (None: the bytes do not parse).
   * `storeRecord(counter, tx, rec)` is false when the calls made after a pair
   * is appended (the record sink and the log-message formatting) throw;
   * `storeSignature(sig)` likewise for the signature sink.
   */
  datatype Env<!Tx, !Rec> = Env(
    parseTransaction: seq<uint8> -> Option<Tx>,
    parseRecord: seq<uint8> -> Option<Rec>,
    storeRecord: (nat, Tx, Rec) -> bool,
    storeSignature: seq<uint8> -> bool)

  /** What decoding has built so far: the hash buffer and the pair list. */
  datatype Acc<Tx, Rec> = Acc(prevFileHash: Hash48, pairs: seq<RecordPair<Tx, Rec>>)

  /** One block: go on at `pos`, or stop (an exception ended the loop). */
  datatype StepResult<Tx, Rec> = Next(pos: nat, acc: Acc<Tx, Rec>) | Stop(acc: Acc<Tx, Rec>)

  /** The result of `loadRecordFile`: the hash (None: null) and the pairs. */
  datatype Loaded<Tx, Rec> = Loaded(prevFileHash: Option<Hash48>, pairs: seq<RecordPair<Tx, Rec>>)

  /** `readInt` at `p`; None when fewer than four bytes are left. */
  function ReadInt32(data: seq<uint8>, p: nat): (r: Option<int>)
    ensures r.Some? <==> p + 4 <= |data|
  {
    if p + 4 <= |data| then Some(BigEndianInt32(data[p..p + 4])) else None
  }

  /**
   * A length-prefixed byte range at `p` (`readInt`, `new byte[n]`,
   * `readFully`) and the position after it. None when the prefix is cut
   * short, is negative, or announces more bytes than are left.
   */
  function ReadSized(data: seq<uint8>, p: nat): (r: Option<(seq<uint8>, nat)>)
    ensures r.Some? ==> r.value.1 == p + 4 + |r.value.0| <= |data| && r.value.0 == data[p + 4..r.value.1]
  {
    match ReadInt32(data, p)
    case None => None
    case Some(n) =>
      if n < 0 || p + 4 + n > |data| then None else Some((data[p + 4..p + 4 + n], p + 4 + n))
  }

  /** How many bytes `read` copies into the 48-byte buffer from `p`. */
  function HashReadCount(data: seq<uint8>, p: nat): nat
    requires p <= |data|
  {
    Min(HASH_LENGTH, |data| - p)
  }

  /** The hash buffer after `read(prevFileHash)` at `p`. */
  function FillHash(buffer: Hash48, data: seq<uint8>, p: nat): (h: Hash48)
    requires p <= |data|
    ensures var k := HashReadCount(data, p);
      h[..k] == data[p..p + k] && h[k..] == buffer[k..]
  {
    data[p..p + HashReadCount(data, p)] + buffer[HashReadCount(data, p)..]
  }

  /** The rest of a record block after its marker, from `p`. */
  function RecordStep<Tx, Rec>(env: Env<Tx, Rec>, data: seq<uint8>, p: nat, acc: Acc<Tx, Rec>): (r: StepResult<Tx, Rec>)
    ensures r.Next? ==> p < r.pos <= |data|
    ensures r.acc.prevFileHash == acc.prevFileHash
    ensures r.acc.pairs == acc.pairs
      || (|r.acc.pairs| == |acc.pairs| + 1 && p + 8 <= (if r.Next? then r.pos else |data|))
  {
    match ReadSized(data, p)
    case None => Stop(acc)
    case Some((txBytes, q)) =>
      match env.parseTransaction(txBytes)
      case None => Stop(acc)
      case Some(tx) =>
        match ReadSized(data, q)
        case None => Stop(acc)
        case Some((recBytes, e)) =>
          match env.parseRecord(recBytes)
          case None => Stop(acc)
          case Some(rec) =>
            var pairs := acc.pairs + [RecordPair(tx, rec)];
            if env.storeRecord(|pairs|, tx, rec) then Next(e, acc.(pairs := pairs)) else Stop(acc.(pairs := pairs))
  }

  /** The rest of a signature block after its marker, from `p`. */
  function SignatureStep<Tx, Rec>(env: Env<Tx, Rec>, data: seq<uint8>, p: nat, acc: Acc<Tx, Rec>): (r: StepResult<Tx, Rec>)
    ensures r.Next? ==> p < r.pos <= |data|
    ensures r.acc == acc
  {
    match ReadSized(data, p)
    case None => Stop(acc)
    case Some((sigBytes, e)) => if env.storeSignature(sigBytes) then Next(e, acc) else Stop(acc)
  }

  /** One pass of the block loop, from the marker byte at `pos`. */
  function Step<Tx, Rec>(env: Env<Tx, Rec>, data: seq<uint8>, pos: nat, acc: Acc<Tx, Rec>): (r: StepResult<Tx, Rec>)
    requires pos < |data|
    ensures r.Next? ==> pos < r.pos <= |data|
    ensures data[pos] != TYPE_PREV_HASH ==> r.acc.prevFileHash == acc.prevFileHash
    ensures data[pos] != TYPE_RECORD ==> r.acc.pairs == acc.pairs
    ensures 9 * (|r.acc.pairs| - |acc.pairs|) <= (if r.Next? then r.pos else |data|) - pos
  {
    var marker := data[pos];
    if marker == TYPE_PREV_HASH then
      Next(pos + 1 + HashReadCount(data, pos + 1), acc.(prevFileHash := FillHash(acc.prevFileHash, data, pos + 1)))
    else if marker == TYPE_RECORD then
      RecordStep(env, data, pos + 1, acc)
    else if marker == TYPE_SIGNATURE then
      SignatureStep(env, data, pos + 1, acc)
    else
      Next(pos + 1, acc)
  }

  /**
   * The block loop from `pos` on: it runs while bytes are available. A pair
   * takes at least nine bytes (its marker and two length prefixes), so the
   * loop yields at most one pair per nine bytes.
   */
  function DecodeBlocks<Tx, Rec>(env: Env<Tx, Rec>, data: seq<uint8>, pos: nat, acc: Acc<Tx, Rec>): (r: Acc<Tx, Rec>)
    requires pos <= |data|
    ensures 9 * (|r.pairs| - |acc.pairs|) <= |data| - pos
    decreases |data| - pos
  {
    if pos == |data| then acc
    else
      match Step(env, data, pos, acc)
      case Next(q, acc') => DecodeBlocks(env, data, q, acc')
      case Stop(acc') => acc'
  }

  /**
   * `loadRecordFile`: None (null) for a missing file; a null hash and no
   * pairs when the file cannot be opened; otherwise the hash buffer and the
   * pairs the block loop left, or the zero hash and no pairs when the header
   * is cut short.
   */
  function LoadResult<Tx, Rec>(env: Env<Tx, Rec>, file: FileState): (r: Option<Loaded<Tx, Rec>>)
    ensures r.None? <==> file.Missing?
    ensures r.Some? ==> (r.value.prevFileHash.Some? <==> file.Readable?)
    ensures file.Readable? ==> 9 * |r.value.pairs| <= |file.bytes|
  {
    match file
    case Missing => None
    case Unreadable => Some(Loaded(None, []))
    case Readable(bytes) =>
      if |bytes| < HEADER_LENGTH then Some(Loaded(Some(ZERO_HASH), []))
      else
        match DecodeBlocks(env, bytes, HEADER_LENGTH, Acc(ZERO_HASH, []))
        case Acc(hash, pairs) => Some(Loaded(Some(hash), pairs))
  }

  /**
   * What `readPrevFileHash` reads: the 48-byte buffer after the marker at
   * offset 8 when that marker is a previous-hash marker, with the bytes a
   * short read leaves untouched still zero. None when the file is missing or
   * cannot be opened, when the header or the marker is cut short, or when the
   * first block is of another kind.
   */
  function PrevHashField(file: FileState): (r: Option<Hash48>)
    ensures r.Some? <==> file.Readable? && |file.bytes| > HEADER_LENGTH && file.bytes[HEADER_LENGTH] == TYPE_PREV_HASH
  {
    match file
    case Readable(bytes) =>
      if |bytes| > HEADER_LENGTH && bytes[HEADER_LENGTH] == TYPE_PREV_HASH then
        Some(FillHash(ZERO_HASH, bytes, HEADER_LENGTH + 1))
      else None
    case _ => None
  }

  /**
   * The probed hash holds the bytes after the marker, as many as there are up
   * to 48, and zero in every position a short read did not reach.
   */
  lemma PrevHashFieldContents(bytes: seq<uint8>)
    requires |bytes| > HEADER_LENGTH && bytes[HEADER_LENGTH] == TYPE_PREV_HASH
    ensures var h := PrevHashField(Readable(bytes)).value;
      var k := HashReadCount(bytes, HEADER_LENGTH + 1);
      && h[..k] == bytes[HEADER_LENGTH + 1..HEADER_LENGTH + 1 + k]
      && forall i :: k <= i < HASH_LENGTH ==> h[i] == 0
  {
    var h := PrevHashField(Readable(bytes)).value;
    var k := HashReadCount(bytes, HEADER_LENGTH + 1);
    forall i | k <= i < HASH_LENGTH
      ensures h[i] == 0
    {
      assert h[i] == h[k..][i - k] == ZERO_HASH[k..][i - k];
    }
  }

  /** The two length-prefixed ranges of a record block, transaction first, and the position after them. */
  function RecordFraming(data: seq<uint8>, p: nat): Option<(seq<uint8>, seq<uint8>, nat)>
  {
    match ReadSized(data, p)
    case None => None
    case Some((txBytes, q)) =>
      match ReadSized(data, q)
      case None => None
      case Some((recBytes, e)) => Some((txBytes, recBytes, e))
  }

  /** A file cut short inside its header decodes to the zero hash and no pairs. */
  lemma ShortHeaderYieldsZeroHash<Tx, Rec>(env: Env<Tx, Rec>, bytes: seq<uint8>)
    requires |bytes| < HEADER_LENGTH
    ensures LoadResult(env, Readable(bytes)) == Some(Loaded(Some(ZERO_HASH), []))
  {
  }

  /** An unknown marker consumes exactly its own byte and changes nothing. */
  lemma UnknownMarkerSkipped<Tx, Rec>(env: Env<Tx, Rec>, data: seq<uint8>, pos: nat, acc: Acc<Tx, Rec>)
    requires pos < |data|
    requires data[pos] !in {TYPE_PREV_HASH, TYPE_RECORD, TYPE_SIGNATURE}
    ensures Step(env, data, pos, acc) == Next(pos + 1, acc)
    ensures DecodeBlocks(env, data, pos, acc) == DecodeBlocks(env, data, pos + 1, acc)
  {
  }

  /** A failure inside a block is the end of decoding: what it left is the result. */
  lemma StopEndsDecoding<Tx, Rec>(env: Env<Tx, Rec>, data: seq<uint8>, pos: nat, acc: Acc<Tx, Rec>)
    requires pos < |data| && Step(env, data, pos, acc).Stop?
    ensures DecodeBlocks(env, data, pos, acc) == Step(env, data, pos, acc).acc
  {
  }

  /** Once a block has been decoded, decoding goes on from where it ended. */
  lemma DecodeAfterStep<Tx, Rec>(env: Env<Tx, Rec>, data: seq<uint8>, pos: nat, acc: Acc<Tx, Rec>,
                                 e: nat, acc': Acc<Tx, Rec>)
    requires pos < |data| && Step(env, data, pos, acc) == Next(e, acc')
    ensures e <= |data|
    ensures DecodeBlocks(env, data, pos, acc) == DecodeBlocks(env, data, e, acc')
  {
  }

  /**
   * A record block appends a pair exactly when both of its ranges are
   * present and both parse; the pair is (transaction, record) in that order.
   * If the sink then throws, the pair stays and decoding stops. Otherwise
   * the block leaves everything as it was and decoding stops.
   */
  lemma RecordBlockStep<Tx, Rec>(env: Env<Tx, Rec>, data: seq<uint8>, pos: nat, acc: Acc<Tx, Rec>)
    requires pos < |data| && data[pos] == TYPE_RECORD
    ensures var r := Step(env, data, pos, acc);
      var f := RecordFraming(data, pos + 1);
      var appended := f.Some? && env.parseTransaction(f.value.0).Some? && env.parseRecord(f.value.1).Some?;
      && (|r.acc.pairs| == |acc.pairs| + 1 <==> appended)
      && (appended ==>
            var pair := RecordPair(env.parseTransaction(f.value.0).value, env.parseRecord(f.value.1).value);
            && r.acc == acc.(pairs := acc.pairs + [pair])
            && (r.Next? <==> env.storeRecord(|acc.pairs| + 1, pair.transaction, pair.record))
            && (r.Next? ==> r.pos == f.value.2))
      && (!appended ==> r == Stop(acc))
  {
  }

  /**
   * A signature block changes neither the hash nor the pairs; decoding goes
   * on right after its byte range when the range is complete and the
   * signature sink accepts it.
   */
  lemma SignatureBlockStep<Tx, Rec>(env: Env<Tx, Rec>, data: seq<uint8>, pos: nat, acc: Acc<Tx, Rec>)
    requires pos < |data| && data[pos] == TYPE_SIGNATURE
    ensures var r := Step(env, data, pos, acc);
      var s := ReadSized(data, pos + 1);
      && r.acc == acc
      && (r.Next? <==> s.Some? && env.storeSignature(s.value.0))
      && (r.Next? ==> r.pos == pos + 5 + |s.value.0|)
  {
  }

  /**
   * A previous-hash block copies up to 48 bytes over the front of the hash
   * buffer; a short read keeps the buffer's tail, and the pairs are untouched.
   */
  lemma PrevHashBlockStep<Tx, Rec>(env: Env<Tx, Rec>, data: seq<uint8>, pos: nat, acc: Acc<Tx, Rec>)
    requires pos < |data| && data[pos] == TYPE_PREV_HASH
    ensures var r := Step(env, data, pos, acc);
      var k := Min(HASH_LENGTH, |data| - (pos + 1));
      && r.Next?
      && r.pos == pos + 1 + k
      && r.acc.pairs == acc.pairs
      && r.acc.prevFileHash == data[pos + 1..pos + 1 + k] + acc.prevFileHash[k..]
  {
  }

  /** A block adds at most one pair and keeps the ones before it. */
  lemma StepKeepsPairs<Tx, Rec>(env: Env<Tx, Rec>, data: seq<uint8>, pos: nat, acc: Acc<Tx, Rec>)
    requires pos < |data|
    ensures var r := Step(env, data, pos, acc);
      acc.pairs <= r.acc.pairs && |r.acc.pairs| <= |acc.pairs| + 1
  {
  }

  /** Decoding never drops a pair it has already appended. */
  lemma {:induction false} DecodeKeepsPairs<Tx, Rec>(env: Env<Tx, Rec>, data: seq<uint8>, pos: nat, acc: Acc<Tx, Rec>)
    requires pos <= |data|
    ensures acc.pairs <= DecodeBlocks(env, data, pos, acc).pairs
    decreases |data| - pos
  {
    if pos < |data| {
      StepKeepsPairs(env, data, pos, acc);
      match Step(env, data, pos, acc)
      case Next(q, acc') => DecodeKeepsPairs(env, data, q, acc');
      case Stop(_) =>
    }
  }

}
