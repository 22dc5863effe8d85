/**
 * Writing record files: the block layout the decoder expects, and the proof
 * that decoding a well-formed file gives back exactly its pairs, in order,
 * with the hash of its last previous-hash block.
 */
module RecordEncoding {
  import opened Wrappers
  import opened Bytes
  import opened RecordFormat

  datatype Block =
    | PrevHashBlock(hash: Hash48)
    | RecordBlock(transaction: seq<uint8>, record: seq<uint8>)
    | SignatureBlock(signature: seq<uint8>)

  /** Every length prefix of the block fits in an int32. */
  predicate Framable(b: Block)
  {
    match b
    case PrevHashBlock(_) => true
    case RecordBlock(t, r) => |t| <= INT32_MAX && |r| <= INT32_MAX
    case SignatureBlock(s) => |s| <= INT32_MAX
  }

  predicate AllFramable(bs: seq<Block>)
  {
    bs == [] || (Framable(bs[0]) && AllFramable(bs[1..]))
  }

  function EncodeSized(bytes: seq<uint8>): (e: seq<uint8>)
    requires |bytes| <= INT32_MAX
    ensures |e| == 4 + |bytes|
  {
    Int32Bytes(|bytes|) + bytes
  }

  function EncodeBlock(b: Block): (e: seq<uint8>)
    requires Framable(b)
    ensures |e| > 0
  {
    match b
    case PrevHashBlock(h) => [TYPE_PREV_HASH] + h
    case RecordBlock(t, r) => [TYPE_RECORD] + EncodeSized(t) + EncodeSized(r)
    case SignatureBlock(s) => [TYPE_SIGNATURE] + EncodeSized(s)
  }

  function EncodeBlocks(bs: seq<Block>): seq<uint8>
    requires AllFramable(bs)
  {
    if bs == [] then [] else EncodeBlock(bs[0]) + EncodeBlocks(bs[1..])
  }

  function EncodeRecordFile(formatVersion: int, version: int, bs: seq<Block>): seq<uint8>
    requires IsInt32(formatVersion) && IsInt32(version)
    requires AllFramable(bs)
  {
    Int32Bytes(formatVersion) + Int32Bytes(version) + EncodeBlocks(bs)
  }

  /**
   * The collaborators accept the block: both ranges of a record block parse
   * and the sink takes the pair (as the `count + 1`-th pair of the file), and
   * the signature sink takes a signature.
   */
  predicate BlockAccepted<Tx, Rec>(env: Env<Tx, Rec>, b: Block, count: nat)
  {
    && Framable(b)
    && match b
       case PrevHashBlock(_) => true
       case RecordBlock(t, r) =>
         && env.parseTransaction(t).Some?
         && env.parseRecord(r).Some?
         && env.storeRecord(count + 1, env.parseTransaction(t).value, env.parseRecord(r).value)
       case SignatureBlock(s) => env.storeSignature(s)
  }

  /** The pair a block stands for: one for a record block whose ranges parse, none otherwise. */
  function BlockPairs<Tx, Rec>(env: Env<Tx, Rec>, b: Block): (ps: seq<RecordPair<Tx, Rec>>)
    ensures |ps| <= 1
  {
    match b
    case RecordBlock(t, r) =>
      if env.parseTransaction(t).Some? && env.parseRecord(r).Some? then
        [RecordPair(env.parseTransaction(t).value, env.parseRecord(r).value)]
      else []
    case _ => []
  }

  /** Every block is accepted, the pairs counted from `count` on. */
  predicate Accepted<Tx, Rec>(env: Env<Tx, Rec>, bs: seq<Block>, count: nat)
    ensures Accepted(env, bs, count) ==> AllFramable(bs)
  {
    bs == [] || (BlockAccepted(env, bs[0], count) && Accepted(env, bs[1..], count + |BlockPairs(env, bs[0])|))
  }

  /** The pairs the record blocks stand for, in block order. */
  function PairsOf<Tx, Rec>(env: Env<Tx, Rec>, bs: seq<Block>): seq<RecordPair<Tx, Rec>>
  {
    if bs == [] then [] else BlockPairs(env, bs[0]) + PairsOf(env, bs[1..])
  }

  /** The hash left after the blocks: each previous-hash block replaces it. */
  function LastPrevHash(bs: seq<Block>, initial: Hash48): Hash48
  {
    if bs == [] then initial
    else LastPrevHash(bs[1..], if bs[0].PrevHashBlock? then bs[0].hash else initial)
  }

  /** No block from index `i` on is a previous-hash block. */
  predicate NoPrevHashFrom(bs: seq<Block>, i: nat)
  {
    forall j :: i <= j < |bs| ==> !bs[j].PrevHashBlock?
  }

  lemma NoPrevHashShift(bs: seq<Block>, i: nat)
    requires bs != [] && 1 <= i
    ensures NoPrevHashFrom(bs, i) <==> NoPrevHashFrom(bs[1..], i - 1)
  {
    if NoPrevHashFrom(bs, i) {
      forall j | i - 1 <= j < |bs| - 1
        ensures !bs[1..][j].PrevHashBlock?
      {
        assert bs[1..][j] == bs[j + 1];
      }
    }
    if NoPrevHashFrom(bs[1..], i - 1) {
      forall j | i <= j < |bs|
        ensures !bs[j].PrevHashBlock?
      {
        assert bs[j] == bs[1..][j - 1];
      }
    }
  }

  /** The last previous-hash block wins; with none, the initial hash stays. */
  lemma {:induction false} LastPrevHashIsLast(bs: seq<Block>, initial: Hash48)
    ensures NoPrevHashFrom(bs, 0) ==> LastPrevHash(bs, initial) == initial
    ensures forall i :: 0 <= i < |bs| && bs[i].PrevHashBlock? && NoPrevHashFrom(bs, i + 1) ==>
              LastPrevHash(bs, initial) == bs[i].hash
  {
    if bs != [] {
      var next := if bs[0].PrevHashBlock? then bs[0].hash else initial;
      LastPrevHashIsLast(bs[1..], next);
      NoPrevHashShift(bs, 1);
      if NoPrevHashFrom(bs, 0) {
        assert !bs[0].PrevHashBlock?;
      }
      forall i | 0 <= i < |bs| && bs[i].PrevHashBlock? && NoPrevHashFrom(bs, i + 1)
        ensures LastPrevHash(bs, initial) == bs[i].hash
      {
        NoPrevHashShift(bs, i + 1);
        if i > 0 {
          assert bs[1..][i - 1] == bs[i];
        }
      }
    }
  }

  /** The first byte of a suffix, and the suffix after it. */
  lemma SuffixCons(data: seq<uint8>, pos: nat, x: uint8, tail: seq<uint8>)
    requires pos <= |data| && data[pos..] == [x] + tail
    ensures pos < |data| && data[pos] == x && data[pos + 1..] == tail
  {
    assert data[pos] == data[pos..][0];
    assert data[pos + 1..] == data[pos..][1..];
  }

  lemma Regroup(x: uint8, a: seq<uint8>, b: seq<uint8>, c: seq<uint8>)
    ensures [x] + a + b + c == [x] + (a + (b + c))
  {
  }

  /** A range written with its length prefix reads back, and reading ends at `e`, where the rest begins. */
  lemma ReadSizedEncoded(data: seq<uint8>, p: nat, bytes: seq<uint8>, rest: seq<uint8>, e: nat)
    requires |bytes| <= INT32_MAX && e == p + 4 + |bytes|
    requires p <= |data| && data[p..] == EncodeSized(bytes) + rest
    ensures e <= |data| && ReadSized(data, p) == Some((bytes, e))
    ensures data[e..] == rest
  {
    assert data[p..p + 4] == data[p..][..4] == Int32Bytes(|bytes|);
    Int32RoundTrip(|bytes|);
    assert data[p + 4..p + 4 + |bytes|] == data[p..][4..4 + |bytes|] == bytes;
    assert data[p + 4 + |bytes|..] == data[p..][4 + |bytes|..];
  }

  /** Where the hash of an encoded previous-hash block lies. */
  lemma PrevHashLayout(data: seq<uint8>, pos: nat, h: Hash48, rest: seq<uint8>, e: nat)
    requires e == pos + |EncodeBlock(PrevHashBlock(h))|
    requires pos <= |data| && data[pos..] == EncodeBlock(PrevHashBlock(h)) + rest
    ensures pos < |data| && data[pos] == TYPE_PREV_HASH
    ensures e == pos + 1 + HASH_LENGTH <= |data| && data[pos + 1..e] == h
    ensures data[e..] == rest
  {
    SuffixCons(data, pos, TYPE_PREV_HASH, h + rest);
    assert data[pos + 1..e] == data[pos + 1..][..HASH_LENGTH];
    assert data[e..] == data[pos + 1..][HASH_LENGTH..];
  }

  /** Where the two ranges of an encoded record block lie. */
  lemma RecordLayout(data: seq<uint8>, pos: nat, t: seq<uint8>, r: seq<uint8>, rest: seq<uint8>, e: nat)
    requires |t| <= INT32_MAX && |r| <= INT32_MAX
    requires e == pos + |EncodeBlock(RecordBlock(t, r))|
    requires pos <= |data| && data[pos..] == EncodeBlock(RecordBlock(t, r)) + rest
    ensures pos < |data| && data[pos] == TYPE_RECORD
    ensures ReadSized(data, pos + 1) == Some((t, pos + 5 + |t|))
    ensures ReadSized(data, pos + 5 + |t|) == Some((r, e))
    ensures e <= |data| && data[e..] == rest
  {
    RecordBlockRegroup(t, r, rest);
    SuffixCons(data, pos, TYPE_RECORD, EncodeSized(t) + (EncodeSized(r) + rest));
    SizedPairEncoded(data, pos + 1, t, r, rest, pos + 5 + |t|, e);
  }

  /** An encoded record block and what follows it: the marker, then each range with its prefix, then the rest. */
  lemma RecordBlockRegroup(t: seq<uint8>, r: seq<uint8>, rest: seq<uint8>)
    requires |t| <= INT32_MAX && |r| <= INT32_MAX
    ensures EncodeBlock(RecordBlock(t, r)) + rest == [TYPE_RECORD] + (EncodeSized(t) + (EncodeSized(r) + rest))
  {
    var a, b := EncodeSized(t), EncodeSized(r);
    assert EncodeBlock(RecordBlock(t, r)) == [TYPE_RECORD] + a + b;
    Regroup(TYPE_RECORD, a, b, rest);
  }

  /** Two ranges written one after the other, each with its length prefix, read back in turn. */
  lemma SizedPairEncoded(data: seq<uint8>, p: nat, t: seq<uint8>, r: seq<uint8>, rest: seq<uint8>, q: nat, e: nat)
    requires |t| <= INT32_MAX && |r| <= INT32_MAX && q == p + 4 + |t| && e == q + 4 + |r|
    requires p <= |data| && data[p..] == EncodeSized(t) + (EncodeSized(r) + rest)
    ensures ReadSized(data, p) == Some((t, q))
    ensures ReadSized(data, q) == Some((r, e))
    ensures e <= |data| && data[e..] == rest
  {
    ReadSizedEncoded(data, p, t, EncodeSized(r) + rest, q);
    ReadSizedEncoded(data, q, r, rest, e);
  }

  /** Where the range of an encoded signature block lies. */
  lemma SignatureLayout(data: seq<uint8>, pos: nat, s: seq<uint8>, rest: seq<uint8>, e: nat)
    requires |s| <= INT32_MAX
    requires e == pos + |EncodeBlock(SignatureBlock(s))|
    requires pos <= |data| && data[pos..] == EncodeBlock(SignatureBlock(s)) + rest
    ensures pos < |data| && data[pos] == TYPE_SIGNATURE
    ensures ReadSized(data, pos + 1) == Some((s, e))
    ensures e <= |data| && data[e..] == rest
  {
    SuffixCons(data, pos, TYPE_SIGNATURE, EncodeSized(s) + rest);
    ReadSizedEncoded(data, pos + 1, s, rest, e);
  }

  /** A previous-hash block with all 48 bytes present sets the hash to them. */
  lemma StepPrevHashRead<Tx, Rec>(env: Env<Tx, Rec>, data: seq<uint8>, pos: nat, acc: Acc<Tx, Rec>, h: Hash48, e: nat)
    requires pos < |data| && data[pos] == TYPE_PREV_HASH
    requires e == pos + 1 + HASH_LENGTH <= |data| && data[pos + 1..e] == h
    ensures Step(env, data, pos, acc) == Next(e, ApplyBlock(env, PrevHashBlock(h), acc))
  {
    var f := FillHash(acc.prevFileHash, data, pos + 1);
    assert f == f[..HASH_LENGTH];
  }

  /** A record block whose ranges read and parse, and whose pair the sink takes, appends that pair. */
  lemma StepRecordRead<Tx, Rec>(env: Env<Tx, Rec>, data: seq<uint8>, pos: nat, acc: Acc<Tx, Rec>,
                                t: seq<uint8>, r: seq<uint8>, e: nat)
    requires pos < |data| && data[pos] == TYPE_RECORD
    requires ReadSized(data, pos + 1) == Some((t, pos + 5 + |t|))
    requires ReadSized(data, pos + 5 + |t|) == Some((r, e))
    requires BlockAccepted(env, RecordBlock(t, r), |acc.pairs|)
    ensures Step(env, data, pos, acc) == Next(e, ApplyBlock(env, RecordBlock(t, r), acc))
  {
  }

  /** A signature block whose range reads, and which the sink takes, changes nothing. */
  lemma StepSignatureRead<Tx, Rec>(env: Env<Tx, Rec>, data: seq<uint8>, pos: nat, acc: Acc<Tx, Rec>, s: seq<uint8>, e: nat)
    requires pos < |data| && data[pos] == TYPE_SIGNATURE
    requires ReadSized(data, pos + 1) == Some((s, e)) && env.storeSignature(s)
    ensures Step(env, data, pos, acc) == Next(e, ApplyBlock(env, SignatureBlock(s), acc))
  {
  }

  /** What one block does to the decoder's accumulator. */
  function ApplyBlock<Tx, Rec>(env: Env<Tx, Rec>, b: Block, acc: Acc<Tx, Rec>): Acc<Tx, Rec>
  {
    Acc(if b.PrevHashBlock? then b.hash else acc.prevFileHash, acc.pairs + BlockPairs(env, b))
  }

  /** Decoding an accepted, encoded block performs exactly that block. */
  lemma StepEncodedBlock<Tx, Rec>(env: Env<Tx, Rec>, data: seq<uint8>, pos: nat, acc: Acc<Tx, Rec>,
                                  b: Block, rest: seq<uint8>)
    requires BlockAccepted(env, b, |acc.pairs|)
    requires pos <= |data| && data[pos..] == EncodeBlock(b) + rest
    ensures pos < |data|
    ensures pos + |EncodeBlock(b)| <= |data| && data[pos + |EncodeBlock(b)|..] == rest
    ensures Step(env, data, pos, acc) == Next(pos + |EncodeBlock(b)|, ApplyBlock(env, b, acc))
  {
    var e := pos + |EncodeBlock(b)|;
    match b
    case PrevHashBlock(h) =>
      PrevHashLayout(data, pos, h, rest, e);
      StepPrevHashRead(env, data, pos, acc, h, e);
    case RecordBlock(t, r) =>
      RecordLayout(data, pos, t, r, rest, e);
      StepRecordRead(env, data, pos, acc, t, r, e);
    case SignatureBlock(s) =>
      SignatureLayout(data, pos, s, rest, e);
      StepSignatureRead(env, data, pos, acc, s, e);
  }

  /** Replaying the first block, then the rest, is replaying them all. */
  lemma ReplayCons<Tx, Rec>(env: Env<Tx, Rec>, bs: seq<Block>, acc: Acc<Tx, Rec>)
    requires bs != [] && Accepted(env, bs, |acc.pairs|)
    ensures BlockAccepted(env, bs[0], |acc.pairs|)
    ensures Accepted(env, bs[1..], |ApplyBlock(env, bs[0], acc).pairs|)
    ensures var acc' := ApplyBlock(env, bs[0], acc);
      Acc(LastPrevHash(bs[1..], acc'.prevFileHash), acc'.pairs + PairsOf(env, bs[1..]))
      == Acc(LastPrevHash(bs, acc.prevFileHash), acc.pairs + PairsOf(env, bs))
  {
    var acc' := ApplyBlock(env, bs[0], acc);
    assert acc'.pairs + PairsOf(env, bs[1..]) == acc.pairs + PairsOf(env, bs);
  }

  /** The encoding of a non-empty block list starts with the encoding of its first block. */
  lemma EncodeBlocksCons(bs: seq<Block>)
    requires bs != [] && AllFramable(bs)
    ensures Framable(bs[0]) && AllFramable(bs[1..])
    ensures EncodeBlocks(bs) == EncodeBlock(bs[0]) + EncodeBlocks(bs[1..])
  {
  }

  /**
   * Decoding blocks that were encoded replays them, in order, whatever bytes
   * follow them: decoding then goes on from the end of the last one.
   */
  lemma {:induction false} DecodeEncodedPrefix<Tx, Rec>(env: Env<Tx, Rec>, data: seq<uint8>, pos: nat, acc: Acc<Tx, Rec>,
                                                         bs: seq<Block>, rest: seq<uint8>, end: nat)
    requires Accepted(env, bs, |acc.pairs|)
    requires pos <= |data| && data[pos..] == EncodeBlocks(bs) + rest
    requires end == pos + |EncodeBlocks(bs)|
    ensures end <= |data|
    ensures DecodeBlocks(env, data, pos, acc)
         == DecodeBlocks(env, data, end, Acc(LastPrevHash(bs, acc.prevFileHash), acc.pairs + PairsOf(env, bs)))
    decreases |bs|
  {
    if bs == [] {
      assert EncodeBlocks(bs) == [];
      assert acc == Acc(LastPrevHash(bs, acc.prevFileHash), acc.pairs + PairsOf(env, bs));
    } else {
      var e := pos + |EncodeBlock(bs[0])|;
      ReplayCons(env, bs, acc);
      DecodeFirstOf(env, data, pos, acc, bs, rest, e);
      DecodeEncodedPrefix(env, data, e, ApplyBlock(env, bs[0], acc), bs[1..], rest, end);
    }
  }

  /** Decoding the first of several encoded blocks, then going on with the others. */
  lemma DecodeFirstOf<Tx, Rec>(env: Env<Tx, Rec>, data: seq<uint8>, pos: nat, acc: Acc<Tx, Rec>,
                               bs: seq<Block>, rest: seq<uint8>, e: nat)
    requires bs != [] && BlockAccepted(env, bs[0], |acc.pairs|) && AllFramable(bs)
    requires pos <= |data| && data[pos..] == EncodeBlocks(bs) + rest
    requires e == pos + |EncodeBlock(bs[0])|
    ensures e <= |data| && data[e..] == EncodeBlocks(bs[1..]) + rest
    ensures e + |EncodeBlocks(bs[1..])| == pos + |EncodeBlocks(bs)|
    ensures DecodeBlocks(env, data, pos, acc) == DecodeBlocks(env, data, e, ApplyBlock(env, bs[0], acc))
  {
    EncodedConsLayout(data, pos, bs, rest);
    StepEncodedBlock(env, data, pos, acc, bs[0], EncodeBlocks(bs[1..]) + rest);
    DecodeAfterStep(env, data, pos, acc, e, ApplyBlock(env, bs[0], acc));
  }

  /** Encoded blocks followed by other bytes: the first block, then the others and those bytes. */
  lemma EncodedConsLayout(data: seq<uint8>, pos: nat, bs: seq<Block>, rest: seq<uint8>)
    requires bs != [] && AllFramable(bs)
    requires pos <= |data| && data[pos..] == EncodeBlocks(bs) + rest
    ensures Framable(bs[0]) && AllFramable(bs[1..])
    ensures data[pos..] == EncodeBlock(bs[0]) + (EncodeBlocks(bs[1..]) + rest)
    ensures |EncodeBlocks(bs)| == |EncodeBlock(bs[0])| + |EncodeBlocks(bs[1..])|
  {
    EncodeBlocksCons(bs);
    Associate(EncodeBlock(bs[0]), EncodeBlocks(bs[1..]), rest);
  }

  lemma Associate(a: seq<uint8>, b: seq<uint8>, c: seq<uint8>)
    ensures a + b + c == a + (b + c)
  {
  }

  /** Decoding blocks that were encoded, and nothing after them, replays them to the end of the data. */
  lemma DecodeEncodedBlocks<Tx, Rec>(env: Env<Tx, Rec>, data: seq<uint8>, pos: nat, acc: Acc<Tx, Rec>, bs: seq<Block>)
    requires Accepted(env, bs, |acc.pairs|)
    requires pos <= |data| && data[pos..] == EncodeBlocks(bs)
    ensures DecodeBlocks(env, data, pos, acc)
         == Acc(LastPrevHash(bs, acc.prevFileHash), acc.pairs + PairsOf(env, bs))
  {
    var encoded := EncodeBlocks(bs);
    assert encoded + [] == encoded;
    DecodeEncodedPrefix(env, data, pos, acc, bs, [], |data|);
  }

  /** A file whose header is followed by encoded blocks loads to the replay of those blocks. */
  lemma LoadEncodedBlocks<Tx, Rec>(env: Env<Tx, Rec>, data: seq<uint8>, bs: seq<Block>)
    requires Accepted(env, bs, 0)
    requires HEADER_LENGTH <= |data| && data[HEADER_LENGTH..] == EncodeBlocks(bs)
    ensures LoadResult(env, Readable(data)) == Some(Loaded(Some(LastPrevHash(bs, ZERO_HASH)), PairsOf(env, bs)))
  {
    DecodeEncodedBlocks(env, data, HEADER_LENGTH, Acc(ZERO_HASH, []), bs);
    var acc := DecodeBlocks(env, data, HEADER_LENGTH, Acc(ZERO_HASH, []));
    assert acc.pairs == PairsOf(env, bs);
    assert acc.prevFileHash == LastPrevHash(bs, ZERO_HASH);
    assert LoadResult(env, Readable(data)) == Some(Loaded(Some(acc.prevFileHash), acc.pairs));
  }

  lemma EncodedFileLayout(formatVersion: int, version: int, bs: seq<Block>)
    requires IsInt32(formatVersion) && IsInt32(version) && AllFramable(bs)
    ensures var data := EncodeRecordFile(formatVersion, version, bs);
      HEADER_LENGTH <= |data| && data[HEADER_LENGTH..] == EncodeBlocks(bs)
  {
    var data := EncodeRecordFile(formatVersion, version, bs);
    assert data == (Int32Bytes(formatVersion) + Int32Bytes(version)) + EncodeBlocks(bs);
  }

  /**
   * A well-formed record file decodes to exactly its pairs, in file order,
   * and to the hash of its last previous-hash block (zero when it has none).
   */
  lemma RoundTrip<Tx, Rec>(env: Env<Tx, Rec>, formatVersion: int, version: int, bs: seq<Block>)
    requires IsInt32(formatVersion) && IsInt32(version)
    requires Accepted(env, bs, 0)
    ensures LoadResult(env, Readable(EncodeRecordFile(formatVersion, version, bs)))
         == Some(Loaded(Some(LastPrevHash(bs, ZERO_HASH)), PairsOf(env, bs)))
  {
    EncodedFileLayout(formatVersion, version, bs);
    LoadEncodedBlocks(env, EncodeRecordFile(formatVersion, version, bs), bs);
  }

  /**
   * A file whose encoded blocks are followed by a block that fails before
   * adding anything loads to exactly the pairs and the last hash of the
   * blocks before it.
   */
  lemma LoadEndsAfterEncoded<Tx, Rec>(env: Env<Tx, Rec>, data: seq<uint8>, bs: seq<Block>, rest: seq<uint8>)
    requires Accepted(env, bs, 0)
    requires HEADER_LENGTH <= |data| && data[HEADER_LENGTH..] == EncodeBlocks(bs) + rest
    requires var p := HEADER_LENGTH + |EncodeBlocks(bs)|;
      var acc := Acc(LastPrevHash(bs, ZERO_HASH), PairsOf(env, bs));
      p < |data| && Step(env, data, p, acc) == Stop(acc)
    ensures LoadResult(env, Readable(data)) == Some(Loaded(Some(LastPrevHash(bs, ZERO_HASH)), PairsOf(env, bs)))
  {
    var p := HEADER_LENGTH + |EncodeBlocks(bs)|;
    var acc := Acc(LastPrevHash(bs, ZERO_HASH), PairsOf(env, bs));
    DecodeEncodedPrefix(env, data, HEADER_LENGTH, Acc(ZERO_HASH, []), bs, rest, p);
    assert [] + PairsOf(env, bs) == PairsOf(env, bs);
    StopEndsDecoding(env, data, p, acc);
    var decoded := DecodeBlocks(env, data, HEADER_LENGTH, Acc(ZERO_HASH, []));
    assert decoded == acc;
    assert LoadResult(env, Readable(data)) == Some(Loaded(Some(decoded.prevFileHash), decoded.pairs));
  }

  /** A written file followed by more bytes: those bytes begin where the blocks end. */
  lemma AppendedLayout(formatVersion: int, version: int, bs: seq<Block>, rest: seq<uint8>, data: seq<uint8>, p: nat)
    requires IsInt32(formatVersion) && IsInt32(version) && AllFramable(bs)
    requires data == EncodeRecordFile(formatVersion, version, bs) + rest
    requires p == HEADER_LENGTH + |EncodeBlocks(bs)|
    ensures HEADER_LENGTH <= p <= |data|
    ensures data[HEADER_LENGTH..] == EncodeBlocks(bs) + rest
    ensures data[p..] == rest
  {
    EncodedFileLayout(formatVersion, version, bs);
    var f := EncodeRecordFile(formatVersion, version, bs);
    assert |f| == p;
    assert data[HEADER_LENGTH..] == f[HEADER_LENGTH..] + rest;
  }

  /** A record block cut short inside its first length prefix ends decoding and loses no earlier pair. */
  lemma TruncatedRecordLoads<Tx, Rec>(env: Env<Tx, Rec>, formatVersion: int, version: int, bs: seq<Block>, tail: seq<uint8>)
    requires IsInt32(formatVersion) && IsInt32(version) && Accepted(env, bs, 0)
    requires |tail| < 4
    ensures LoadResult(env, Readable(EncodeRecordFile(formatVersion, version, bs) + ([TYPE_RECORD] + tail)))
         == Some(Loaded(Some(LastPrevHash(bs, ZERO_HASH)), PairsOf(env, bs)))
  {
    var rest := [TYPE_RECORD] + tail;
    var data := EncodeRecordFile(formatVersion, version, bs) + rest;
    var p := HEADER_LENGTH + |EncodeBlocks(bs)|;
    AppendedLayout(formatVersion, version, bs, rest, data, p);
    SuffixCons(data, p, TYPE_RECORD, tail);
    assert ReadSized(data, p + 1).None?;
    LoadEndsAfterEncoded(env, data, bs, rest);
  }

  /** A record block with a negative length prefix ends decoding and loses no earlier pair. */
  lemma NegativeLengthLoads<Tx, Rec>(env: Env<Tx, Rec>, formatVersion: int, version: int, bs: seq<Block>,
                                     n: int, tail: seq<uint8>)
    requires IsInt32(formatVersion) && IsInt32(version) && Accepted(env, bs, 0)
    requires INT32_MIN <= n < 0
    ensures LoadResult(env, Readable(EncodeRecordFile(formatVersion, version, bs) + ([TYPE_RECORD] + (Int32Bytes(n) + tail))))
         == Some(Loaded(Some(LastPrevHash(bs, ZERO_HASH)), PairsOf(env, bs)))
  {
    var rest := [TYPE_RECORD] + (Int32Bytes(n) + tail);
    var data := EncodeRecordFile(formatVersion, version, bs) + rest;
    var p := HEADER_LENGTH + |EncodeBlocks(bs)|;
    AppendedLayout(formatVersion, version, bs, rest, data, p);
    SuffixCons(data, p, TYPE_RECORD, Int32Bytes(n) + tail);
    NegativePrefixFails(data, p + 1, n, tail);
    LoadEndsAfterEncoded(env, data, bs, rest);
  }

  /** A negative length prefix is refused: `new byte[n]` throws. */
  lemma NegativePrefixFails(data: seq<uint8>, q: nat, n: int, tail: seq<uint8>)
    requires INT32_MIN <= n < 0
    requires q <= |data| && data[q..] == Int32Bytes(n) + tail
    ensures ReadSized(data, q).None?
  {
    assert data[q..q + 4] == data[q..][..4];
    assert data[q..][..4] == Int32Bytes(n);
    Int32RoundTrip(n);
  }

  /** A record block whose transaction bytes do not parse ends decoding and loses no earlier pair. */
  lemma UnparsableTransactionLoads<Tx, Rec>(env: Env<Tx, Rec>, formatVersion: int, version: int, bs: seq<Block>,
                                       t: seq<uint8>, tail: seq<uint8>)
    requires IsInt32(formatVersion) && IsInt32(version) && Accepted(env, bs, 0)
    requires |t| <= INT32_MAX && env.parseTransaction(t).None?
    ensures LoadResult(env, Readable(EncodeRecordFile(formatVersion, version, bs) + ([TYPE_RECORD] + (EncodeSized(t) + tail))))
         == Some(Loaded(Some(LastPrevHash(bs, ZERO_HASH)), PairsOf(env, bs)))
  {
    var rest := [TYPE_RECORD] + (EncodeSized(t) + tail);
    var data := EncodeRecordFile(formatVersion, version, bs) + rest;
    var p := HEADER_LENGTH + |EncodeBlocks(bs)|;
    AppendedLayout(formatVersion, version, bs, rest, data, p);
    SuffixCons(data, p, TYPE_RECORD, EncodeSized(t) + tail);
    ReadSizedEncoded(data, p + 1, t, tail, p + 5 + |t|);
    LoadEndsAfterEncoded(env, data, bs, rest);
  }

  /** A record block whose transaction parses but whose record bytes do not ends decoding and loses no earlier pair. */
  lemma UnparsableRecordLoads<Tx, Rec>(env: Env<Tx, Rec>, formatVersion: int, version: int, bs: seq<Block>,
                                       t: seq<uint8>, r: seq<uint8>, tail: seq<uint8>)
    requires IsInt32(formatVersion) && IsInt32(version) && Accepted(env, bs, 0)
    requires |t| <= INT32_MAX && |r| <= INT32_MAX
    requires env.parseTransaction(t).Some? && env.parseRecord(r).None?
    ensures LoadResult(env, Readable(EncodeRecordFile(formatVersion, version, bs) + (EncodeBlock(RecordBlock(t, r)) + tail)))
         == Some(Loaded(Some(LastPrevHash(bs, ZERO_HASH)), PairsOf(env, bs)))
  {
    var rest := EncodeBlock(RecordBlock(t, r)) + tail;
    var data := EncodeRecordFile(formatVersion, version, bs) + rest;
    var p := HEADER_LENGTH + |EncodeBlocks(bs)|;
    AppendedLayout(formatVersion, version, bs, rest, data, p);
    UnparsedRecordStops(env, data, p, t, r, tail, Acc(LastPrevHash(bs, ZERO_HASH), PairsOf(env, bs)));
    LoadEndsAfterEncoded(env, data, bs, rest);
  }

  /** A complete record block whose record bytes do not parse ends decoding where it begins, adding nothing. */
  lemma UnparsedRecordStops<Tx, Rec>(env: Env<Tx, Rec>, data: seq<uint8>, p: nat, t: seq<uint8>, r: seq<uint8>, tail: seq<uint8>,
                                     acc: Acc<Tx, Rec>)
    requires |t| <= INT32_MAX && |r| <= INT32_MAX
    requires env.parseTransaction(t).Some? && env.parseRecord(r).None?
    requires p <= |data| && data[p..] == EncodeBlock(RecordBlock(t, r)) + tail
    ensures p < |data| && Step(env, data, p, acc) == Stop(acc)
  {
    var e := p + |EncodeBlock(RecordBlock(t, r))|;
    RecordLayout(data, p, t, r, tail, e);
    RecordParseFails(env, data, p + 1, acc, t, r, p + 5 + |t|, e);
  }

  /** Both ranges of a record block read, but the record does not parse: the block ends decoding, adding nothing. */
  lemma RecordParseFails<Tx, Rec>(env: Env<Tx, Rec>, data: seq<uint8>, p: nat, acc: Acc<Tx, Rec>,
                                  t: seq<uint8>, r: seq<uint8>, q: nat, e: nat)
    requires ReadSized(data, p) == Some((t, q)) && ReadSized(data, q) == Some((r, e))
    requires env.parseTransaction(t).Some? && env.parseRecord(r).None?
    ensures RecordStep(env, data, p, acc) == Stop(acc)
  {
  }

  /**
   * A file that ends anywhere inside a record block, after its marker: in a
   * length prefix or in either range. Decoding ends at the `EOFException`
   * and loses no earlier pair.
   */
  lemma CutRecordLoads<Tx, Rec>(env: Env<Tx, Rec>, formatVersion: int, version: int, bs: seq<Block>,
                                t: seq<uint8>, r: seq<uint8>, k: nat)
    requires IsInt32(formatVersion) && IsInt32(version) && Accepted(env, bs, 0)
    requires |t| <= INT32_MAX && |r| <= INT32_MAX
    requires 1 <= k < |EncodeBlock(RecordBlock(t, r))|
    ensures LoadResult(env, Readable(EncodeRecordFile(formatVersion, version, bs) + EncodeBlock(RecordBlock(t, r))[..k]))
         == Some(Loaded(Some(LastPrevHash(bs, ZERO_HASH)), PairsOf(env, bs)))
  {
    var rest := EncodeBlock(RecordBlock(t, r))[..k];
    var data := EncodeRecordFile(formatVersion, version, bs) + rest;
    var p := HEADER_LENGTH + |EncodeBlocks(bs)|;
    AppendedLayout(formatVersion, version, bs, rest, data, p);
    CutRecordStops(env, data, p, t, r, k, Acc(LastPrevHash(bs, ZERO_HASH), PairsOf(env, bs)));
    LoadEndsAfterEncoded(env, data, bs, rest);
  }

  /** A record block cut short ends decoding where it begins, adding nothing. */
  lemma CutRecordStops<Tx, Rec>(env: Env<Tx, Rec>, data: seq<uint8>, p: nat, t: seq<uint8>, r: seq<uint8>, k: nat,
                                acc: Acc<Tx, Rec>)
    requires |t| <= INT32_MAX && |r| <= INT32_MAX
    requires 1 <= k < |EncodeBlock(RecordBlock(t, r))|
    requires p <= |data| && data[p..] == EncodeBlock(RecordBlock(t, r))[..k]
    ensures p < |data| && Step(env, data, p, acc) == Stop(acc)
  {
    CutRecordFails(data, p, t, r, k);
  }

  /** In a record block cut short after `k` bytes, one of the two length-prefixed ranges cannot be read. */
  lemma CutRecordFails(data: seq<uint8>, p: nat, t: seq<uint8>, r: seq<uint8>, k: nat)
    requires |t| <= INT32_MAX && |r| <= INT32_MAX
    requires 1 <= k < |EncodeBlock(RecordBlock(t, r))|
    requires p <= |data| && data[p..] == EncodeBlock(RecordBlock(t, r))[..k]
    ensures p < |data| && data[p] == TYPE_RECORD
    ensures ReadSized(data, p + 1).None?
      || (ReadSized(data, p + 1).value.1 == p + 5 + |t| && ReadSized(data, p + 5 + |t|).None?)
  {
    var blk := EncodeBlock(RecordBlock(t, r));
    RecordBlockFields(t, r);
    assert |data| == p + k;
    assert data[p] == data[p..][0] == blk[0];
    if k >= 5 {
      PrefixInCut(data, p, blk, k, 1, |t|);
      if k >= 9 + |t| {
        PrefixInCut(data, p, blk, k, 5 + |t|, |r|);
      }
    }
  }

  /** A length prefix that lies wholly inside the first `k` bytes of `blk` reads back from the cut copy. */
  lemma PrefixInCut(data: seq<uint8>, p: nat, blk: seq<uint8>, k: nat, i: nat, n: int)
    requires k <= |blk| && p <= |data| && data[p..] == blk[..k]
    requires i + 4 <= k && IsInt32(n) && blk[i..i + 4] == Int32Bytes(n)
    ensures ReadInt32(data, p + i) == Some(n)
  {
    assert data[p + i..p + i + 4] == data[p..][i..i + 4] == blk[i..i + 4];
    Int32RoundTrip(n);
  }

  /** Where the marker and the two length prefixes of an encoded record block lie. */
  lemma RecordBlockFields(t: seq<uint8>, r: seq<uint8>)
    requires |t| <= INT32_MAX && |r| <= INT32_MAX
    ensures var blk := EncodeBlock(RecordBlock(t, r));
      && |blk| == 9 + |t| + |r| && blk[0] == TYPE_RECORD
      && blk[1..5] == Int32Bytes(|t|) && blk[5 + |t|..9 + |t|] == Int32Bytes(|r|)
  {
    var blk := EncodeBlock(RecordBlock(t, r));
    var a, b := EncodeSized(t), EncodeSized(r);
    assert blk == [TYPE_RECORD] + a + b;
    assert blk[1..5] == a[..4] == Int32Bytes(|t|);
    assert blk[5 + |t|..9 + |t|] == b[..4] == Int32Bytes(|r|);
  }

  /** Bytes holding a previous-hash block right after the header give its hash to `readPrevFileHash`. */
  lemma ProbeFindsHash(data: seq<uint8>, h: Hash48, rest: seq<uint8>)
    requires HEADER_LENGTH <= |data| && data[HEADER_LENGTH..] == [TYPE_PREV_HASH] + (h + rest)
    ensures PrevHashField(Readable(data)) == Some(h)
  {
    assert data[HEADER_LENGTH] == data[HEADER_LENGTH..][0];
    var tail := data[HEADER_LENGTH + 1..];
    assert tail == data[HEADER_LENGTH..][1..];
    assert HashReadCount(data, HEADER_LENGTH + 1) == HASH_LENGTH;
    assert data[HEADER_LENGTH + 1..HEADER_LENGTH + 1 + HASH_LENGTH] == tail[..HASH_LENGTH] == h;
    var read := FillHash(ZERO_HASH, data, HEADER_LENGTH + 1);
    assert read == read[..HASH_LENGTH];
  }

  /** The bytes after the header of a file written with a previous-hash block first. */
  lemma LeadingHashLayout(formatVersion: int, version: int, h: Hash48, bs: seq<Block>)
    requires IsInt32(formatVersion) && IsInt32(version) && AllFramable(bs)
    ensures AllFramable([PrevHashBlock(h)] + bs)
    ensures var data := EncodeRecordFile(formatVersion, version, [PrevHashBlock(h)] + bs);
      HEADER_LENGTH <= |data| && data[HEADER_LENGTH..] == [TYPE_PREV_HASH] + (h + EncodeBlocks(bs))
  {
    LeadingHashEncoding(h, bs);
    EncodedFileLayout(formatVersion, version, [PrevHashBlock(h)] + bs);
  }

  /** The encoding of blocks led by a previous-hash block: its marker, its hash, then the rest. */
  lemma LeadingHashEncoding(h: Hash48, bs: seq<Block>)
    requires AllFramable(bs)
    ensures AllFramable([PrevHashBlock(h)] + bs)
    ensures EncodeBlocks([PrevHashBlock(h)] + bs) == [TYPE_PREV_HASH] + (h + EncodeBlocks(bs))
  {
    var all := [PrevHashBlock(h)] + bs;
    assert all[0] == PrevHashBlock(h) && all[1..] == bs;
    assert AllFramable(all);
    var head, tail := EncodeBlock(PrevHashBlock(h)), EncodeBlocks(bs);
    assert EncodeBlocks(all) == head + tail;
    assert head == [TYPE_PREV_HASH] + h;
    assert head + tail == [TYPE_PREV_HASH] + (h + tail);
  }

  /** A file written with a previous-hash block first gives that hash to `readPrevFileHash`. */
  lemma EncodedProbe(formatVersion: int, version: int, h: Hash48, bs: seq<Block>)
    requires IsInt32(formatVersion) && IsInt32(version) && AllFramable(bs)
    ensures AllFramable([PrevHashBlock(h)] + bs)
    ensures PrevHashField(Readable(EncodeRecordFile(formatVersion, version, [PrevHashBlock(h)] + bs))) == Some(h)
  {
    LeadingHashLayout(formatVersion, version, h, bs);
    ProbeFindsHash(EncodeRecordFile(formatVersion, version, [PrevHashBlock(h)] + bs), h, EncodeBlocks(bs));
  }

  /** A file written with a previous-hash block first, and no other, loads with that hash. */
  lemma LeadingHashLoads<Tx, Rec>(env: Env<Tx, Rec>, formatVersion: int, version: int, h: Hash48, bs: seq<Block>)
    requires IsInt32(formatVersion) && IsInt32(version)
    requires Accepted(env, [PrevHashBlock(h)] + bs, 0)
    requires NoPrevHashFrom(bs, 0)
    ensures LoadResult(env, Readable(EncodeRecordFile(formatVersion, version, [PrevHashBlock(h)] + bs)))
         == Some(Loaded(Some(h), PairsOf(env, [PrevHashBlock(h)] + bs)))
  {
    var all := [PrevHashBlock(h)] + bs;
    assert all[1..] == bs;
    NoPrevHashShift(all, 1);
    LastPrevHashIsLast(all, ZERO_HASH);
    assert LastPrevHash(all, ZERO_HASH) == h;
    RoundTrip(env, formatVersion, version, all);
  }

  /**
   * `readPrevFileHash` and `loadRecordFile` agree on a file written with a
   * previous-hash block first and no other.
   */
  lemma ProbeAgreesWithLoad<Tx, Rec>(env: Env<Tx, Rec>, formatVersion: int, version: int, h: Hash48, bs: seq<Block>)
    requires IsInt32(formatVersion) && IsInt32(version)
    requires Accepted(env, [PrevHashBlock(h)] + bs, 0)
    requires NoPrevHashFrom(bs, 0)
    ensures var file := Readable(EncodeRecordFile(formatVersion, version, [PrevHashBlock(h)] + bs));
      && PrevHashField(file) == Some(h)
      && LoadResult(env, file).value.prevFileHash == PrevHashField(file)
  {
    var all := [PrevHashBlock(h)] + bs;
    assert all[1..] == bs;
    EncodedProbe(formatVersion, version, h, bs);
    LeadingHashLoads(env, formatVersion, version, h, bs);
  }

}
