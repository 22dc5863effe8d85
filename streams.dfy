/**
 * The reading side of java.io.DataInputStream over a FileInputStream on a
 * regular file: the file's bytes and a cursor. A read on a regular file
 * returns every requested byte that is still in the file.
 */
module Streams {
  import opened Wrappers
  import opened Bytes

  class DataInputStream {
    /** The bytes of the file the stream was opened on. */
    const data: seq<uint8>
    /** How many of them have been consumed. */
    var pos: nat

    ghost predicate Valid()
      reads this
    {
      pos <= |data|
    }

    constructor (bytes: seq<uint8>)
      ensures Valid() && data == bytes && pos == 0
    {
      data := bytes;
      pos := 0;
    }

    /** `available()`: the bytes that can still be read. */
    function Available(): (n: nat)
      reads this
      requires Valid()
      ensures n == 0 <==> pos == |data|
    {
      |data| - pos
    }

    /** `readByte()`; None stands for the EOFException at the end of the file. */
    method ReadByte() returns (b: Option<uint8>)
      requires Valid()
      modifies this
      ensures Valid()
      ensures old(pos) < |data| ==> b == Some(data[old(pos)]) && pos == old(pos) + 1
      ensures old(pos) == |data| ==> b == None && pos == old(pos)
    {
      if pos < |data| {
        b := Some(data[pos]);
        pos := pos + 1;
      } else {
        b := None;
      }
    }

    /**
     * `readInt()`: four bytes, high byte first. None stands for the
     * EOFException thrown once fewer than four bytes are left, by which time
     * the ones that were there have been consumed.
     */
    method ReadInt() returns (n: Option<int>)
      requires Valid()
      modifies this
      ensures Valid()
      ensures old(pos) + 4 <= |data| ==> n == Some(BigEndianInt32(data[old(pos)..old(pos) + 4])) && pos == old(pos) + 4
      ensures old(pos) + 4 > |data| ==> n == None && pos == |data|
    {
      if pos + 4 <= |data| {
        n := Some(BigEndianInt32(data[pos..pos + 4]));
        pos := pos + 4;
      } else {
        n := None;
        pos := |data|;
      }
    }

    /**
     * `readFully(buf)`: fills all of `buf` or fails (false stands for the
     * EOFException), having consumed the rest of the file.
     */
    method ReadFully(buf: array<uint8>) returns (complete: bool)
      requires Valid()
      modifies this, buf
      ensures Valid()
      ensures complete <==> old(pos) + buf.Length <= |data|
      ensures complete ==> buf[..] == data[old(pos)..old(pos) + buf.Length] && pos == old(pos) + buf.Length
      ensures !complete ==> pos == |data|
    {
      var k := Min(buf.Length, |data| - pos);
      forall i | 0 <= i < k {
        buf[i] := data[pos + i];
      }
      complete := k == buf.Length;
      pos := pos + k;
      if !complete {
        pos := |data|;
      }
    }

    /**
     * `read(buf)`: copies as many bytes as are left, at most `buf.Length`,
     * into the front of `buf` and leaves the rest of `buf` as it was. It
     * returns how many it copied, or -1 when the file is exhausted and `buf`
     * is not empty. A short read is not an error.
     */
    method Read(buf: array<uint8>) returns (count: int)
      requires Valid()
      modifies this, buf
      ensures Valid()
      ensures var k := Min(buf.Length, |data| - old(pos));
        && pos == old(pos) + k
        && buf[..] == data[old(pos)..old(pos) + k] + old(buf[..])[k..]
        && count == (if k == 0 && buf.Length > 0 then -1 else k)
    {
      var k := Min(buf.Length, |data| - pos);
      forall i | 0 <= i < k {
        buf[i] := data[pos + i];
      }
      pos := pos + k;
      count := if k == 0 && buf.Length > 0 then -1 else k;
    }
  }

}
