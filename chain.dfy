/**
 * The hash chain `RecordFileParser.loadRecordFiles` checks: each record file
 * declares the SHA-384 digest of the file before it, and the walk reports
 * every link where the declared digest differs from the digest it computed.
 *
 * The walk is specified here as a reference report; the method that performs
 * it step by step is proved equal to it.
 */
module ChainCheck {
  import opened Wrappers
  import opened Bytes
  import opened RecordFormat
  import opened RecordEncoding

  /**
   * `getFileHash`: the digest of the file's bytes. A file whose bytes cannot
   * be read (missing or unreadable) is hashed as if it were empty.
   */
  function GetFileHash(sha384: seq<uint8> -> Hash48, file: FileState): (h: Hash48)
    ensures file.Readable? ==> h == sha384(file.bytes)
    ensures !file.Readable? ==> h == sha384([])
  {
    match file
    case Readable(bytes) => sha384(bytes)
    case _ => sha384([])
  }

  /** A link the walk found broken: the file at `index` declares another digest than the one computed for its predecessor. */
  datatype Mismatch = Mismatch(index: nat, name: string, calculated: Hash48, declared: Hash48)

  /**
   * What the walk leaves: the broken links it logged, in file order, and the
   * index of the file at which a NullPointerException ended it, if any.
   */
  datatype ChainReport = ChainReport(mismatches: seq<Mismatch>, abortedAt: Option<nat>)

  /**
   * What the walk finds under `names[i]`: every file is moved to the parsed
   * directory once it has been read, so a name that came before is missing.
   */
  function FileAt(fs: map<string, FileState>, names: seq<string>, i: nat): (r: FileState)
    requires i < |names|
    ensures r.Missing? <==> names[i] in names[..i] || names[i] !in fs || fs[names[i]].Missing?
    ensures !r.Missing? ==> names[i] in fs && r == fs[names[i]]
  {
    if names[i] in names[..i] then Missing else Lookup(fs, names[i])
  }

  /**
   * The file at `i` ends the walk: `loadRecordFile` returns null for a
   * missing file, and `result.getKey()` then dereferences it; an unreadable
   * file after the first yields a null hash, which differs from the computed
   * one and is then passed to `Hex.encodeHexString(readPrevHash)` for the log.
   */
  predicate Fatal(fs: map<string, FileState>, names: seq<string>, i: nat)
    requires i < |names|
  {
    FileAt(fs, names, i).Missing? || (i > 0 && FileAt(fs, names, i).Unreadable?)
  }

  predicate NoFatalBelow(fs: map<string, FileState>, names: seq<string>, n: nat)
    requires n <= |names|
  {
    forall i :: 0 <= i < n ==> !Fatal(fs, names, i)
  }

  /** The first file from `i` on that ends the walk, or `|names|` when none does. */
  function FirstFatal(fs: map<string, FileState>, names: seq<string>, i: nat): (k: nat)
    requires i <= |names|
    ensures i <= k <= |names|
    ensures forall j :: i <= j < k ==> !Fatal(fs, names, j)
    ensures k < |names| ==> Fatal(fs, names, k)
    decreases |names| - i
  {
    if i == |names| || Fatal(fs, names, i) then i else FirstFatal(fs, names, i + 1)
  }

  /** The digest the file at `i` declares for its predecessor, as `loadRecordFile` reads it. */
  function DeclaredPrevHash<Tx, Rec>(env: Env<Tx, Rec>, fs: map<string, FileState>, names: seq<string>, i: nat): Hash48
    requires 0 < i < |names| && !Fatal(fs, names, i)
  {
    LoadResult(env, FileAt(fs, names, i)).value.prevFileHash.value
  }

  /** The digest computed for the predecessor of the file at `i`. */
  function CalculatedPrevHash(sha384: seq<uint8> -> Hash48, fs: map<string, FileState>, names: seq<string>, i: nat): Hash48
    requires 0 < i <= |names|
  {
    GetFileHash(sha384, FileAt(fs, names, i - 1))
  }

  /** The link into the file at `i` is broken. */
  predicate BrokenLink<Tx, Rec>(env: Env<Tx, Rec>, sha384: seq<uint8> -> Hash48, fs: map<string, FileState>, names: seq<string>, i: nat)
    requires 0 < i < |names| && !Fatal(fs, names, i)
  {
    CalculatedPrevHash(sha384, fs, names, i) != DeclaredPrevHash(env, fs, names, i)
  }

  /** The mismatches logged for the first `n` files, none of which ends the walk. */
  function BrokenLinks<Tx, Rec>(env: Env<Tx, Rec>, sha384: seq<uint8> -> Hash48, fs: map<string, FileState>, names: seq<string>, n: nat): (ms: seq<Mismatch>)
    requires n <= |names| && NoFatalBelow(fs, names, n)
    ensures |ms| <= if n == 0 then 0 else n - 1
  {
    if n <= 1 then []
    else if BrokenLink(env, sha384, fs, names, n - 1) then
      BrokenLinks(env, sha384, fs, names, n - 1)
        + [Mismatch(n - 1, names[n - 1], CalculatedPrevHash(sha384, fs, names, n - 1), DeclaredPrevHash(env, fs, names, n - 1))]
    else BrokenLinks(env, sha384, fs, names, n - 1)
  }

  /** The report of the walk over `names`: the mismatches before the first fatal file, and that file's index. */
  function ExpectedReport<Tx, Rec>(env: Env<Tx, Rec>, sha384: seq<uint8> -> Hash48, fs: map<string, FileState>, names: seq<string>): (r: ChainReport)
    ensures r.abortedAt.Some? ==>
      var k := r.abortedAt.value; k < |names| && Fatal(fs, names, k) && NoFatalBelow(fs, names, k)
    ensures r.abortedAt.None? ==> NoFatalBelow(fs, names, |names|)
    ensures |r.mismatches| < |names| || |names| == 0
  {
    var k := FirstFatal(fs, names, 0);
    ChainReport(BrokenLinks(env, sha384, fs, names, k), if k < |names| then Some(k) else None)
  }

  /** Each mismatch is about a later file than the one before it. */
  predicate InFileOrder(ms: seq<Mismatch>)
  {
    forall k, l :: 0 <= k < l < |ms| ==> ms[k].index < ms[l].index
  }

  /**
   * Every mismatch is a broken link among the first `n` files, with the two
   * digests that differ; the first file has no predecessor and is never
   * reported.
   */
  lemma {:induction false} BrokenLinksSound<Tx, Rec>(env: Env<Tx, Rec>, sha384: seq<uint8> -> Hash48, fs: map<string, FileState>, names: seq<string>, n: nat)
    requires n <= |names| && NoFatalBelow(fs, names, n)
    ensures forall m :: m in BrokenLinks(env, sha384, fs, names, n) ==>
      && 0 < m.index < n
      && m.name == names[m.index]
      && m.calculated == CalculatedPrevHash(sha384, fs, names, m.index)
      && m.declared == DeclaredPrevHash(env, fs, names, m.index)
      && m.calculated != m.declared
    decreases n
  {
    if n > 1 {
      BrokenLinksSound(env, sha384, fs, names, n - 1);
    }
  }

  /** The mismatches come in file order, each link at most once. */
  lemma {:induction false} BrokenLinksOrdered<Tx, Rec>(env: Env<Tx, Rec>, sha384: seq<uint8> -> Hash48, fs: map<string, FileState>, names: seq<string>, n: nat)
    requires n <= |names| && NoFatalBelow(fs, names, n)
    ensures InFileOrder(BrokenLinks(env, sha384, fs, names, n))
    decreases n
  {
    if n > 1 {
      BrokenLinksOrdered(env, sha384, fs, names, n - 1);
      BrokenLinksSound(env, sha384, fs, names, n - 1);
      var prefix := BrokenLinks(env, sha384, fs, names, n - 1);
      assert forall k :: 0 <= k < |prefix| ==> prefix[k] in prefix;
    }
  }

  /** Every broken link among the first `n` files is reported. */
  lemma {:induction false} BrokenLinksComplete<Tx, Rec>(env: Env<Tx, Rec>, sha384: seq<uint8> -> Hash48, fs: map<string, FileState>, names: seq<string>, n: nat)
    requires n <= |names| && NoFatalBelow(fs, names, n)
    ensures forall i :: 0 < i < n && BrokenLink(env, sha384, fs, names, i) ==>
      exists m :: m in BrokenLinks(env, sha384, fs, names, n) && m.index == i
    decreases n
  {
    if n > 1 {
      BrokenLinksComplete(env, sha384, fs, names, n - 1);
      var prefix := BrokenLinks(env, sha384, fs, names, n - 1);
      var ms := BrokenLinks(env, sha384, fs, names, n);
      assert forall m :: m in prefix ==> m in ms;
      if BrokenLink(env, sha384, fs, names, n - 1) {
        assert ms[|ms| - 1].index == n - 1;
      }
    }
  }

  /** Links that all hold produce no mismatch. */
  lemma {:induction false} NoBrokenLinksBelow<Tx, Rec>(env: Env<Tx, Rec>, sha384: seq<uint8> -> Hash48, fs: map<string, FileState>, names: seq<string>, n: nat)
    requires n <= |names| && NoFatalBelow(fs, names, n)
    requires forall i :: 0 < i < n ==> CalculatedPrevHash(sha384, fs, names, i) == DeclaredPrevHash(env, fs, names, i)
    ensures BrokenLinks(env, sha384, fs, names, n) == []
    decreases n
  {
    if n > 1 {
      NoBrokenLinksBelow(env, sha384, fs, names, n - 1);
    }
  }

  /** When every file declares the digest of the one before it and none ends the walk, nothing is reported. */
  lemma IntactChainReportsNothing<Tx, Rec>(env: Env<Tx, Rec>, sha384: seq<uint8> -> Hash48, fs: map<string, FileState>, names: seq<string>)
    requires NoFatalBelow(fs, names, |names|)
    requires forall i :: 0 < i < |names| ==> CalculatedPrevHash(sha384, fs, names, i) == DeclaredPrevHash(env, fs, names, i)
    ensures ExpectedReport(env, sha384, fs, names) == ChainReport([], None)
  {
    var k := FirstFatal(fs, names, 0);
    assert k == |names|;
    NoBrokenLinksBelow(env, sha384, fs, names, k);
  }

  /** A name listed a second time ends the walk: its file has been moved away. */
  lemma RepeatedNameIsFatal(fs: map<string, FileState>, names: seq<string>, i: nat, j: nat)
    requires i < j < |names| && names[i] == names[j]
    ensures Fatal(fs, names, j)
  {
    assert names[..j][i] == names[i];
  }

  /**
   * A file ends the walk exactly when `loadRecordFile` hands the walk a null
   * it dereferences: a null result, or, after the first file, a null
   * previous-file hash.
   */
  lemma FatalIsNullDereference<Tx, Rec>(env: Env<Tx, Rec>, fs: map<string, FileState>, names: seq<string>, i: nat)
    requires i < |names|
    ensures var res := LoadResult(env, FileAt(fs, names, i));
      Fatal(fs, names, i) <==> res.None? || (i > 0 && res.value.prevFileHash.None?)
  {
  }

  /**
   * A file written with the digest of its predecessor's bytes in its first
   * block, and no other previous-hash block, makes an intact link.
   */
  lemma EncodedLinkIntact<Tx, Rec>(env: Env<Tx, Rec>, sha384: seq<uint8> -> Hash48, fs: map<string, FileState>, names: seq<string>, i: nat,
                                   formatVersion: int, version: int, bs: seq<Block>)
    requires 0 < i < |names|
    requires FileAt(fs, names, i - 1).Readable?
    requires IsInt32(formatVersion) && IsInt32(version)
    requires var h := sha384(FileAt(fs, names, i - 1).bytes); Accepted(env, [PrevHashBlock(h)] + bs, 0)
    requires NoPrevHashFrom(bs, 0)
    requires var h := sha384(FileAt(fs, names, i - 1).bytes);
      FileAt(fs, names, i) == Readable(EncodeRecordFile(formatVersion, version, [PrevHashBlock(h)] + bs))
    ensures !Fatal(fs, names, i) && !BrokenLink(env, sha384, fs, names, i)
  {
    var h := sha384(FileAt(fs, names, i - 1).bytes);
    LeadingHashLoads(env, formatVersion, version, h, bs);
  }

}
