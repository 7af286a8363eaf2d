/** The journal's geometry (the numeric part of `HFS_JINFO` together with the volume's
    block size) and the rotation between circular journal offsets and positions in the
    linear buffer that `hfs_jentry_walk` builds. */
module Geometry {
  import opened Arith
  import opened Bytes

  /** `jInum` is the volume block holding byte 0 of the journal; `size`, `start`, `end`
      are byte counts/offsets within the journal; `blhdrSize`/`jhdrSize` are the sizes of
      a block-list header and of the journal header. */
  datatype Geometry = Geometry(
    blockSize: nat, jInum: nat, size: nat, start: nat, end: nat,
    blhdrSize: nat, jhdrSize: nat)

  /** Length of the linear buffer: the journal minus its header. */
  function LinearLen(g: Geometry): nat
    requires g.jhdrSize <= g.size
  {
    g.size - g.jhdrSize
  }

  /** Number of volume blocks in the journal (`journal_size / block_size`). */
  function BlockCount(g: Geometry): nat
    requires 0 < g.blockSize
  {
    g.size / g.blockSize
  }

  /** A block-aligned journal whose `start` lies inside it, a 32-bit block size, and byte
      offsets small enough that no uint64_t offset computed from them wraps around. The
      `end` cursor is left free: the reader only compares it with offsets. */
  predicate Region(g: Geometry)
  {
    && 0 < g.blockSize < TwoTo32
    && g.blockSize <= g.size && g.size % g.blockSize == 0
    && g.jhdrSize <= g.blockSize
    && g.start < g.size
    && g.jInum * g.blockSize + g.size < 0x4000_0000_0000_0000
  }

  /** What the loader needs beyond a sane region: `start` lies past block 0, so that the
      second copying pass covers a non-empty, ascending block range. */
  predicate Loadable(g: Geometry)
  {
    Region(g) && g.blockSize <= g.start
  }

  /** The circular journal offset that linear index `i` holds: `start + i` up to the end
      of the journal, then past the header from `jhdrSize` on. */
  function SourceOffset(g: Geometry, i: nat): (p: nat)
    requires Region(g) && i < LinearLen(g)
    ensures p < g.size
  {
    if i < g.size - g.start then g.start + i else i - (g.size - g.start) + g.jhdrSize
  }

  /** The linear index that journal offset `p` (not part of the header) is copied to. */
  function LinearIndex(g: Geometry, p: nat): (i: nat)
    requires Loadable(g) && g.jhdrSize <= p < g.size
    ensures i < LinearLen(g)
  {
    if p >= g.start then p - g.start else p - g.start + LinearLen(g)
  }

  /** The rotation is a bijection between the journal's log bytes `[jhdrSize, size)` and
      the linear indices `[0, size - jhdrSize)`: the two maps are inverse. */
  lemma RotationInverse(g: Geometry, p: nat, i: nat)
    requires Loadable(g)
    ensures g.jhdrSize <= p < g.size ==> SourceOffset(g, LinearIndex(g, p)) == p
    ensures i < LinearLen(g) ==> g.jhdrSize <= SourceOffset(g, i) && LinearIndex(g, SourceOffset(g, i)) == i
  {
  }

  /** Every block of the volume holds `blockSize` bytes. */
  predicate Uniform(blocks: seq<seq<byte>>, blockSize: nat)
  {
    forall a :: 0 <= a < |blocks| ==> |blocks[a]| == blockSize
  }

  /** The journal lies on the volume. */
  predicate OnDisk(g: Geometry, blocks: seq<seq<byte>>)
    requires 0 < g.blockSize
  {
    g.jInum + BlockCount(g) <= |blocks|
  }

  /** Journal byte `p` lies in one of the journal's blocks. */
  lemma BlockWithin(g: Geometry, p: nat)
    requires Region(g) && p < g.size
    ensures 0 <= p / g.blockSize < BlockCount(g) && 0 <= p % g.blockSize < g.blockSize
  {
    DivModUnique(g.size, g.blockSize, BlockCount(g), 0);
    DivBelow(p, g.blockSize, BlockCount(g));
  }

  /** Byte `p` of the journal as stored on the volume. */
  function JournalByte(blocks: seq<seq<byte>>, g: Geometry, p: nat): byte
    requires Region(g) && Uniform(blocks, g.blockSize) && OnDisk(g, blocks) && p < g.size
  {
    BlockWithin(g, p);
    blocks[g.jInum + p / g.blockSize][p % g.blockSize]
  }

  /** The linear buffer as `hfs_jentry_walk` means it to be: index `i` holds the journal
      byte at `SourceOffset(g, i)`. */
  function Linearized(blocks: seq<seq<byte>>, g: Geometry): (buf: seq<byte>)
    requires Region(g) && Uniform(blocks, g.blockSize) && OnDisk(g, blocks)
    ensures |buf| == LinearLen(g)
  {
    seq(LinearLen(g), i requires 0 <= i < LinearLen(g) => JournalByte(blocks, g, SourceOffset(g, i)))
  }

  /** The journal byte at offset `p` lands at linear index `p - start` when `p >= start`
      and at `p - start + size - jhdrSize` when it lies between the header and `start`. */
  lemma LinearizedRotates(blocks: seq<seq<byte>>, g: Geometry, p: nat)
    requires Loadable(g) && Uniform(blocks, g.blockSize) && OnDisk(g, blocks)
    requires g.jhdrSize <= p < g.size
    ensures p >= g.start ==> Linearized(blocks, g)[p - g.start] == JournalByte(blocks, g, p)
    ensures p < g.start ==> Linearized(blocks, g)[p - g.start + LinearLen(g)] == JournalByte(blocks, g, p)
  {
    RotationInverse(g, p, 0);
  }
}
