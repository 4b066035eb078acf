/** Reading a file in fixed-size chunks and feeding them to SHA-1.  The hash
    function itself is opaque: a parameter `H` from byte strings to hex digests. */
module Digest {

  newtype byte = b: int | 0 <= b < 256

  /** Chunk size of the read loop (line 14). */
  const DefaultChunkSize: int := 4096

  /** The bytes of a list of chunks, in order. */
  function Concat(chunks: seq<seq<byte>>): seq<byte>
  {
    if |chunks| == 0 then [] else chunks[0] + Concat(chunks[1..])
  }

  /** Number of bytes `read(n)` returns from a file with `remaining` bytes
      left: everything for `n == -1`, otherwise at most `n`.  A size below -1
      makes the source raise `ValueError`; the model reads everything for it
      too, a case the program never reaches since it always reads 4096. */
  function ReadLength(remaining: nat, n: int): (k: nat)
    ensures k <= remaining
    ensures n >= 0 ==> k <= n
    ensures k < remaining ==> k == n
  {
    if n < 0 || remaining <= n then remaining else n
  }

  /** next_chunk: the chunks yielded by reading `rest` with `read(chunkSize)`
      until the first empty read.  The measure is the number of bytes left. */
  function NextChunks(rest: seq<byte>, chunkSize: int): (chunks: seq<seq<byte>>)
    ensures forall i | 0 <= i < |chunks| :: |chunks[i]| > 0
    ensures chunkSize > 0 ==> forall i | 0 <= i < |chunks| :: |chunks[i]| <= chunkSize
    ensures chunkSize != 0 ==> Concat(chunks) == rest
    ensures chunkSize == 0 ==> chunks == []
    decreases |rest|
  {
    var k := ReadLength(|rest|, chunkSize);
    if k == 0 then []
    else [rest[..k]] + NextChunks(rest[k..], chunkSize)
  }

  /** `(m + 1) * c` unfolded once. */
  lemma MulSucc(m: nat, c: int)
    ensures (m + 1) * c == m * c + c
  {
  }

  /** A file of `n` bytes takes ceil(n / chunkSize) reads that return data:
      the chunks hold `n` bytes and all but the last are full. */
  lemma {:induction false} ChunkCount(rest: seq<byte>, chunkSize: int)
    requires chunkSize > 0
    ensures |rest| <= |NextChunks(rest, chunkSize)| * chunkSize
    ensures |NextChunks(rest, chunkSize)| > 0 ==> (|NextChunks(rest, chunkSize)| - 1) * chunkSize < |rest|
    decreases |rest|
  {
    if |rest| > 0 {
      var k := ReadLength(|rest|, chunkSize);
      var tail := NextChunks(rest[k..], chunkSize);
      assert NextChunks(rest, chunkSize) == [rest[..k]] + tail;
      ChunkCount(rest[k..], chunkSize);
      MulSucc(|tail|, chunkSize);
      if |tail| > 0 {
        MulSucc(|tail| - 1, chunkSize);
      } else {
        assert Concat(tail) == rest[k..];
      }
    }
  }

  /** Only the last chunk can be short. */
  lemma {:induction false} ChunksFull(rest: seq<byte>, chunkSize: int)
    requires chunkSize > 0
    ensures forall i | 0 <= i < |NextChunks(rest, chunkSize)| - 1 :: |NextChunks(rest, chunkSize)[i]| == chunkSize
    decreases |rest|
  {
    if |rest| > 0 {
      var k := ReadLength(|rest|, chunkSize);
      ChunksFull(rest[k..], chunkSize);
    }
  }

  /** The state of a `hashlib.sha1()` object: the bytes absorbed so far. */
  datatype Sha1 = Sha1(absorbed: seq<byte>)

  /** `sha1.update(chunk)`. */
  function Update(h: Sha1, chunk: seq<byte>): (h': Sha1)
    ensures |h'.absorbed| == |h.absorbed| + |chunk|
  {
    Sha1(h.absorbed + chunk)
  }

  /** Feeding the chunks one by one, as the loop at lines 106-107 does. */
  function UpdateAll(h: Sha1, chunks: seq<seq<byte>>): (h': Sha1)
    ensures h'.absorbed == h.absorbed + Concat(chunks)
    decreases |chunks|
  {
    if |chunks| == 0 then h
    else
      assert h.absorbed + chunks[0] + Concat(chunks[1..]) == h.absorbed + Concat(chunks);
      UpdateAll(Update(h, chunks[0]), chunks[1..])
  }

  /** `sha1.hexdigest()` under the opaque hash `H`. */
  function HexDigest(H: seq<byte> -> string, h: Sha1): string
  {
    H(h.absorbed)
  }

  /** Lines 103-108: the digest of a file read completely in chunks of
      `chunkSize` bytes is the hash of its whole content, whatever the chunk
      size; an empty file gets the hash of the empty string. */
  function FileDigest(H: seq<byte> -> string, content: seq<byte>, chunkSize: int): (d: string)
    ensures chunkSize != 0 ==> d == H(content)
    ensures content == [] ==> d == H([])
  {
    var h := UpdateAll(Sha1([]), NextChunks(content, chunkSize));
    assert h.absorbed == [] + Concat(NextChunks(content, chunkSize));
    assert chunkSize != 0 ==> h.absorbed == content;
    HexDigest(H, h)
  }
}
