/** What the block transfer engine does to bytes: the chunk sizes it moves,
    and the effect of writing a byte string into the data region. */
module Transfer {
  import opened Layout

  /** `d` with the bytes of `src` written from offset `off` on. */
  function Overwrite(d: seq<byte>, off: nat, src: seq<byte>): (r: seq<byte>)
    requires off + |src| <= |d|
    ensures |r| == |d|
    ensures forall k :: 0 <= k < |d| ==> r[k] == if off <= k < off + |src| then src[k - off] else d[k]
  {
    d[..off] + src + d[off + |src|..]
  }

  /** Reading back the written range gives the written bytes. */
  lemma OverwriteReadBack(d: seq<byte>, off: nat, src: seq<byte>)
    requires off + |src| <= |d|
    ensures Overwrite(d, off, src)[off..off + |src|] == src
  {
  }

  /** Writing a prefix of `src` and then the next chunk of it is writing the
      longer prefix. */
  lemma OverwriteExtend(d: seq<byte>, off: nat, src: seq<byte>, done: nat, count: nat)
    requires done + count <= |src| && off + |src| <= |d|
    ensures Overwrite(Overwrite(d, off, src[..done]), off + done, src[done..done + count])
            == Overwrite(d, off, src[..done + count])
  {
  }

  /** The sizes of the chunks a transfer of `size` bytes moves: whole blocks,
      then the remainder. */
  function ChunkSizes(size: nat): (chunks: seq<nat>)
    decreases size
  {
    if size == 0 then []
    else if size < BlockSize then [size]
    else [BlockSize] + ChunkSizes(size - BlockSize)
  }

  /** The chunk a transfer of `size` bytes moves first. */
  function FirstChunk(size: nat): (count: nat) {
    if size < BlockSize then size else BlockSize
  }

  /** A transfer moves its first chunk and then the rest. */
  lemma ChunkSizesStep(size: nat)
    requires size > 0
    ensures 0 < FirstChunk(size) <= size
    ensures ChunkSizes(size) == [FirstChunk(size)] + ChunkSizes(size - FirstChunk(size))
  {
  }

  /** Moving the first chunk of what remains extends the chunks moved so
      far, as a prefix of the transfer's chunk sizes. */
  lemma ChunkAppend(moved: seq<nat>, remaining: nat, total: nat)
    requires remaining > 0 && moved + ChunkSizes(remaining) == ChunkSizes(total)
    ensures (moved + [FirstChunk(remaining)]) + ChunkSizes(remaining - FirstChunk(remaining)) == ChunkSizes(total)
  {
    ChunkSizesStep(remaining);
    assert moved + [FirstChunk(remaining)] + ChunkSizes(remaining - FirstChunk(remaining))
        == moved + ([FirstChunk(remaining)] + ChunkSizes(remaining - FirstChunk(remaining)));
  }

  function Sum(s: seq<nat>): (total: nat) {
    if s == [] then 0 else s[0] + Sum(s[1..])
  }

  /** The chunks add up to the size; every chunk but the last is one block;
      the last is the size modulo the block size, or a whole block when that
      is zero; and there are as many chunks as blocks the bytes span. */
  lemma {:induction false} ChunkSizesShape(size: nat)
    ensures Sum(ChunkSizes(size)) == size
    ensures forall k :: 0 <= k < |ChunkSizes(size)| - 1 ==> ChunkSizes(size)[k] == BlockSize
    ensures size > 0 ==>
      ChunkSizes(size)[|ChunkSizes(size)| - 1] == (if size % BlockSize == 0 then BlockSize else size % BlockSize)
    ensures |ChunkSizes(size)| == (size + BlockSize - 1) / BlockSize
    decreases size
  {
    if size >= BlockSize {
      ChunkSizesShape(size - BlockSize);
      var rest := ChunkSizes(size - BlockSize);
      assert ChunkSizes(size) == [BlockSize] + rest;
      assert ChunkSizes(size)[1..] == rest;
      assert (size - BlockSize) % BlockSize == size % BlockSize;
      assert (size - BlockSize + BlockSize - 1) / BlockSize + 1 == (size + BlockSize - 1) / BlockSize;
    }
  }
}
