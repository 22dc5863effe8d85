/**
 * The operations of `RecordFileParser`, step by step as the class performs
 * them, over a `DataInputStream` and a mutable 48-byte hash buffer. Each is
 * proved to produce what the pure model in `RecordFormat` and `ChainCheck`
 * says it produces.
 */
module RecordFileParser {
  import opened Wrappers
  import opened Bytes
  import opened Streams
  import opened RecordFormat
  import opened ChainCheck

  /**
   * `readInt`, `new byte[n]` and `readFully`: a length-prefixed byte range.
   * None stands for the EOFException (prefix or range cut short) and the
   * NegativeArraySizeException (negative prefix).
   */
  method ReadSizedBytes(dis: DataInputStream) returns (r: Option<seq<uint8>>)
    requires dis.Valid()
    modifies dis
    ensures dis.Valid()
    ensures ReadSized(dis.data, old(dis.pos)) == if r.Some? then Some((r.value, dis.pos)) else None
  {
    var length := dis.ReadInt();
    if length.None? || length.value < 0 {
      return None;
    }
    var buffer := new uint8[length.value];
    var complete := dis.ReadFully(buffer);
    if !complete {
      return None;
    }
    return Some(buffer[..]);
  }

  /**
   * `read(prevFileHash)`: fills the 48-byte buffer from the stream as far as
   * bytes remain; a short read is not an error, and the buffer's tail keeps
   * the bytes it held.
   */
  method ReadHash(dis: DataInputStream, prevFileHash: array<uint8>)
    requires dis.Valid() && prevFileHash.Length == HASH_LENGTH
    modifies dis, prevFileHash
    ensures dis.Valid()
    ensures old(dis.pos) <= |dis.data| && dis.pos == old(dis.pos) + HashReadCount(dis.data, old(dis.pos))
    ensures prevFileHash[..] == FillHash(old(prevFileHash[..]), dis.data, old(dis.pos))
  {
    var _ := dis.Read(prevFileHash);
  }

  /**
   * `case TYPE_RECORD`: a transaction and its record, each length-prefixed,
   * after the marker. `next` is false when an exception ends the loop; the
   * pair is appended before the record sink is called, so a sink failure
   * keeps it.
   */
  method ReadRecordBlock<Tx, Rec>(env: Env<Tx, Rec>, dis: DataInputStream, ghost hash: Hash48,
                                  txList: seq<RecordPair<Tx, Rec>>, counter: nat)
    returns (pairs: seq<RecordPair<Tx, Rec>>, count: nat, next: bool)
    requires dis.Valid() && counter == |txList|
    modifies dis
    ensures dis.Valid()
    ensures var r := RecordStep(env, dis.data, old(dis.pos), Acc(hash, txList));
      && pairs == r.acc.pairs && count == |pairs|
      && (next <==> r.Next?) && (next ==> dis.pos == r.pos)
  {
    pairs, count, next := txList, counter, false;
    var txBytes := ReadSizedBytes(dis);
    if txBytes.None? {
      return;
    }
    var transaction := env.parseTransaction(txBytes.value);
    if transaction.None? {
      return;
    }
    var recordBytes := ReadSizedBytes(dis);
    if recordBytes.None? {
      return;
    }
    var txRecord := env.parseRecord(recordBytes.value);
    if txRecord.None? {
      return;
    }
    pairs := txList + [RecordPair(transaction.value, txRecord.value)];
    count := counter + 1;
    // the record sink or the log formatting may throw
    next := env.storeRecord(count, transaction.value, txRecord.value);
  }

  /**
   * One pass of the block loop: the marker byte and the block it opens.
   * `next` is false when an exception ends the loop.
   */
  method ReadBlock<Tx, Rec>(env: Env<Tx, Rec>, dis: DataInputStream, prevFileHash: array<uint8>,
                            txList: seq<RecordPair<Tx, Rec>>, counter: nat)
    returns (pairs: seq<RecordPair<Tx, Rec>>, count: nat, next: bool)
    requires dis.Valid() && dis.pos < |dis.data|
    requires prevFileHash.Length == HASH_LENGTH && counter == |txList|
    modifies dis, prevFileHash
    ensures dis.Valid()
    ensures var r := Step(env, dis.data, old(dis.pos), Acc(old(prevFileHash[..]), txList));
      && Acc(prevFileHash[..], pairs) == r.acc && count == |pairs|
      && (next <==> r.Next?) && (next ==> dis.pos == r.pos)
  {
    var typeDelimiter := dis.ReadByte();
    pairs, count, next := txList, counter, true;
    if typeDelimiter.value == TYPE_PREV_HASH {
      ReadHash(dis, prevFileHash);
    } else if typeDelimiter.value == TYPE_RECORD {
      pairs, count, next := ReadRecordBlock(env, dis, prevFileHash[..], txList, counter);
    } else if typeDelimiter.value == TYPE_SIGNATURE {
      var sigBytes := ReadSizedBytes(dis);
      next := sigBytes.Some? && env.storeSignature(sigBytes.value);
    }
    // any other delimiter is logged, and the loop goes on
  }

  /**
   * `loadRecordFile`: reads the header, then one block per pass while bytes
   * remain. An exception inside a block ends the loop and keeps what was
   * read before it; an unknown marker is logged and skipped.
   */
  method LoadRecordFile<Tx, Rec>(env: Env<Tx, Rec>, file: FileState) returns (result: Option<Loaded<Tx, Rec>>)
    ensures result == LoadResult(env, file)
  {
    if file.Missing? {
      return None;
    }
    if file.Unreadable? {
      // FileNotFoundException before the hash buffer is allocated
      return Some(Loaded(None, []));
    }
    var bytes := file.bytes;
    var txList: seq<RecordPair<Tx, Rec>> := [];
    var counter := 0;
    var dis := new DataInputStream(bytes);
    // `new byte[48]`: every element zero
    var prevFileHash := new uint8[HASH_LENGTH](i requires 0 <= i < HASH_LENGTH => ZERO_HASH[i]);
    assert prevFileHash[..] == ZERO_HASH;
    var formatVersion := dis.ReadInt();
    var version := dis.ReadInt();
    if formatVersion.None? || version.None? {
      // EOFException, caught by the outer handler
      return Some(Loaded(Some(prevFileHash[..]), txList));
    }
    ghost var target := DecodeBlocks(env, bytes, HEADER_LENGTH, Acc(ZERO_HASH, []));
    while dis.Available() != 0
      invariant dis.Valid() && dis.data == bytes && HEADER_LENGTH <= dis.pos
      invariant prevFileHash.Length == HASH_LENGTH
      invariant counter == |txList|
      invariant DecodeBlocks(env, bytes, dis.pos, Acc(prevFileHash[..], txList)) == target
      decreases |bytes| - dis.pos
    {
      ghost var pos0 := dis.pos;
      ghost var acc0 := Acc(prevFileHash[..], txList);
      var next;
      txList, counter, next := ReadBlock(env, dis, prevFileHash, txList, counter);
      if !next {
        // an exception inside the block ends the loop
        StopEndsDecoding(env, bytes, pos0, acc0);
        assert Acc(prevFileHash[..], txList) == target;
        break;
      }
      DecodeAfterStep(env, bytes, pos0, acc0, dis.pos, Acc(prevFileHash[..], txList));
    }
    result := Some(Loaded(Some(prevFileHash[..]), txList));
  }

  /**
   * `loadRecordFiles`: loads each file in turn and compares the hash it
   * declares with the digest computed for the file before it, logging every
   * mismatch, and moves each file away once read. A missing file, or an
   * unreadable one after the first, ends the walk with a NullPointerException.
   */
  method LoadRecordFiles<Tx, Rec>(env: Env<Tx, Rec>, sha384: seq<uint8> -> Hash48, fs: map<string, FileState>, fileNames: seq<string>)
    returns (report: ChainReport)
    ensures report == ExpectedReport(env, sha384, fs, fileNames)
  {
    var calculatedPrevHash: Option<Hash48> := None;
    var mismatches: seq<Mismatch> := [];
    var files := fs;
    for i := 0 to |fileNames|
      invariant forall n :: Lookup(files, n) == if n in fileNames[..i] then Missing else Lookup(fs, n)
      invariant NoFatalBelow(fs, fileNames, i)
      invariant calculatedPrevHash == if i == 0 then None else Some(CalculatedPrevHash(sha384, fs, fileNames, i))
      invariant mismatches == BrokenLinks(env, sha384, fs, fileNames, i)
    {
      var name := fileNames[i];
      assert Lookup(files, name) == FileAt(fs, fileNames, i);
      var result := LoadRecordFile(env, Lookup(files, name));
      if result.None? {
        // `result.getKey()` on null
        assert Fatal(fs, fileNames, i);
        return ChainReport(mismatches, Some(i));
      }
      var readPrevHash := result.value.prevFileHash;
      if calculatedPrevHash.Some? {
        if readPrevHash.None? {
          // `Hex.encodeHexString(null)` while logging the mismatch
          assert Fatal(fs, fileNames, i);
          return ChainReport(mismatches, Some(i));
        }
        if calculatedPrevHash.value != readPrevHash.value {
          mismatches := mismatches + [Mismatch(i, name, calculatedPrevHash.value, readPrevHash.value)];
        }
      }
      var thisFileHash := GetFileHash(sha384, Lookup(files, name));
      calculatedPrevHash := Some(thisFileHash);
      // `moveFileToParsedDir`
      files := files - {name};
      assert fileNames[..i + 1] == fileNames[..i] + [name];
    }
    report := ChainReport(mismatches, None);
  }

  /**
   * `readPrevFileHash`: the hexadecimal text of the previous file's hash,
   * when the first block after the header is a previous-hash block; null
   * otherwise.
   */
  method ReadPrevFileHash(file: FileState) returns (r: Option<string>)
    ensures r.Some? <==> file.Readable? && |file.bytes| > HEADER_LENGTH && file.bytes[HEADER_LENGTH] == TYPE_PREV_HASH
    ensures r.Some? ==> PrevHashField(file).Some? && r.value == Hex(PrevHashField(file).value)
    ensures r.Some? ==> |r.value| == 2 * HASH_LENGTH
  {
    r := None;
    if file.Readable? {
      var prevFileHash := new uint8[HASH_LENGTH](i requires 0 <= i < HASH_LENGTH => ZERO_HASH[i]);
      assert prevFileHash[..] == ZERO_HASH;
      var dis := new DataInputStream(file.bytes);
      // an EOFException anywhere before the buffer is read leaves null
      var formatVersion := dis.ReadInt();
      var version := dis.ReadInt();
      if formatVersion.Some? && version.Some? {
        var typeDelimiter := dis.ReadByte();
        if typeDelimiter == Some(TYPE_PREV_HASH) {
          assert dis.pos == HEADER_LENGTH + 1;
          ReadHash(dis, prevFileHash);
          r := Some(Hex(prevFileHash[..]));
        }
      }
    }
  }

}
