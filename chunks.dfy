/** The fixed-size buffer through which the writer's stream operator copies
    its input, and the chunking that results from it. */
module Chunks {

  type byte = bv8

  /** Size of the copy buffer of the stream operator. */
  const BUFSIZE: nat := 2048

  /** The bytes of a sequence of chunks, one after the other. */
  function Flatten(chunks: seq<seq<byte>>): seq<byte> {
    if chunks == [] then [] else chunks[0] + Flatten(chunks[1..])
  }

  /** The data cut into consecutive chunks of BUFSIZE bytes, the last one
      possibly shorter: what a copy through a BUFSIZE buffer hands on. */
  function SplitChunks(data: seq<byte>): (r: seq<seq<byte>>)
    ensures Flatten(r) == data
    ensures forall k :: 0 <= k < |r| ==> 0 < |r[k]| <= BUFSIZE
    ensures forall k :: 0 <= k < |r| - 1 ==> |r[k]| == BUFSIZE
    decreases |data|
  {
    if |data| == 0 then []
    else if |data| <= BUFSIZE then [data]
    else
      var rest := SplitChunks(data[BUFSIZE..]);
      assert ([data[..BUFSIZE]] + rest)[1..] == rest;
      [data[..BUFSIZE]] + rest
  }

  /** The number of chunks is the number of buffers the data needs. */
  lemma {:induction false} SplitChunksCount(data: seq<byte>)
    ensures |SplitChunks(data)| == (|data| + BUFSIZE - 1) / BUFSIZE
    decreases |data|
  {
    if |data| > BUFSIZE {
      SplitChunksCount(data[BUFSIZE..]);
    }
  }

  /** Appending at most one buffer's worth to data that fills whole buffers
      appends exactly one chunk: how the copy loop grows its output. */
  lemma {:induction false} SplitChunksSnoc(data: seq<byte>, chunk: seq<byte>)
    requires |data| % BUFSIZE == 0
    requires 0 < |chunk| <= BUFSIZE
    ensures SplitChunks(data + chunk) == SplitChunks(data) + [chunk]
    decreases |data|
  {
    if |data| == 0 {
      assert data + chunk == chunk;
    } else {
      assert |data| >= BUFSIZE;
      assert (data + chunk)[..BUFSIZE] == data[..BUFSIZE];
      assert (data + chunk)[BUFSIZE..] == data[BUFSIZE..] + chunk;
      SplitChunksSnoc(data[BUFSIZE..], chunk);
    }
  }

  /** Chunks that are all full except possibly the last are the chunking of
      their own concatenation: the chunking is the only way to cut data so. */
  lemma {:induction false} SplitChunksUnique(chunks: seq<seq<byte>>)
    requires forall k :: 0 <= k < |chunks| ==> 0 < |chunks[k]| <= BUFSIZE
    requires forall k :: 0 <= k < |chunks| - 1 ==> |chunks[k]| == BUFSIZE
    ensures SplitChunks(Flatten(chunks)) == chunks
    decreases |chunks|
  {
    if |chunks| == 1 {
      assert Flatten(chunks) == chunks[0] + Flatten([]) == chunks[0];
      assert chunks == [chunks[0]];
    } else if |chunks| > 1 {
      var rest := chunks[1..];
      SplitChunksUnique(rest);
      var f := Flatten(chunks);
      assert f == chunks[0] + Flatten(rest);
      assert f[..BUFSIZE] == chunks[0];
      assert f[BUFSIZE..] == Flatten(rest);
      assert chunks == [chunks[0]] + rest;
    }
  }
}
