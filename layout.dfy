/** Fixed geometry of the virtual disk and the block-count rule shared by
    allocation (import) and de-allocation (delete). */
module Layout {

  /** One byte of the backing store. */
  newtype byte = x: int | 0 <= x < 256

  const BlockSize: nat := 4096
  const Inodes: nat := 80
  const DataBlocks: nat := 56
  const InodeBlocks: nat := 5
  /** Size of the name buffer of an inode record, terminating NUL included. */
  const MaxNameLength: nat := 128

  /** Region offsets, in blocks, that formatting writes into the superblock. */
  const InodeBitmapBlock: nat := 1
  const DataBitmapBlock: nat := 2
  const InodeTableBlock: nat := 3
  const DataRegionBlock: nat := 8

  /** Number of data blocks reserved for a file of `size` bytes: the quotient
      plus one, so that a size that is an exact multiple of the block size
      still gets one block more than it needs. */
  function NeededBlocks(size: nat): (n: nat)
    ensures n >= 1
    ensures (n - 1) * BlockSize <= size < n * BlockSize
  {
    size / BlockSize + 1
  }

  /** The rule is not ceiling division: an exact multiple of the block size
      is given one spare block. */
  lemma NeededBlocksExactMultiple(k: nat)
    ensures NeededBlocks(k * BlockSize) == k + 1
  {
  }

  /** A file of `size` bytes fits in its run: the last byte lies inside the
      last reserved block, and the run is never empty. */
  lemma NeededBlocksFits(first: nat, size: nat)
    ensures first * BlockSize + size < (first + NeededBlocks(size)) * BlockSize
  {
  }
}
