/** The input stream that the writer's stream operator reads: a byte source
    with a read position and the stream's "good" state (no eof, fail or bad
    flag set). */
module Streams {
  import opened Chunks

  class InputStream {
    var data: seq<byte>  // every byte the source will ever deliver
    var pos: nat         // how many of them have been extracted
    var good: bool       // good(): no error or end-of-file flag is set

    ghost predicate Valid()
      reads this
    {
      pos <= |data|
    }

    /** A fresh stream over the given bytes, positioned at the start. */
    constructor (content: seq<byte>)
      ensures Valid() && data == content && pos == 0 && good
    {
      data, pos, good := content, 0, true;
    }

    /** read(buf, n) followed by gcount(): extracts up to n bytes into buf.
        A stream that is not good extracts nothing; a read that hits the end
        before n bytes sets eof and fail, so the stream is no longer good. */
    method Read(buf: array<byte>, n: nat) returns (count: nat)
      requires Valid() && n <= buf.Length
      modifies this, buf
      ensures Valid() && data == old(data)
      ensures count == if !old(good) then 0 else if n <= |data| - old(pos) then n else |data| - old(pos)
      ensures pos == old(pos) + count
      ensures buf[..count] == data[old(pos)..pos]
      ensures good == (old(good) && count == n)
    {
      if !good {
        count := 0;
        return;
      }
      count := if n <= |data| - pos then n else |data| - pos;
      forall i | 0 <= i < count {
        buf[i] := data[pos + i];
      }
      pos := pos + count;
      good := count == n;
    }
  }
}
