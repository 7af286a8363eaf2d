/** Where a position of the linear buffer lies in the journal, as the top of each pass of
    `hfs_jentry_walk`'s loop computes it (tsk/fs/hfs_journal.c lines 370-407): its block
    number, its offset within that block, the offset the activity test is applied to, and
    the activity test itself. */
module Position {
  import opened Arith
  import opened Geometry

  /** `blocknumber` (lines 371-379): the journal block of the byte at linear index
      `offset`, stored into a uint32_t and reset to 0 when it is a multiple of the number
      of journal blocks. */
  function BlockNumber(g: Geometry, offset: nat): (bn: nat)
    requires Region(g) && offset < LinearLen(g)
    ensures bn < TwoTo32
  {
    var raw: int :=
      if offset < g.size - g.start then (offset + g.start) / g.blockSize
      else (offset - (g.size - g.start - g.jhdrSize)) / g.blockSize;
    var w := Wrap32(raw);
    if w % BlockCount(g) == 0 then 0 else w
  }

  /** `block_offset` (lines 383-388, and again 502-508): the offset within its block of
      the byte at linear index `offset`. The first formula is taken up to and including
      `journal_size - start`. */
  function BlockOffset(g: Geometry, offset: nat): (bo: nat)
    requires Region(g)
    ensures bo < g.blockSize
  {
    var sbo := g.start % g.blockSize;
    if offset <= g.size - g.start then (offset + sbo) % g.blockSize
    else (offset + sbo + g.jhdrSize) % g.blockSize
  }

  /** `real_offset` (lines 390-395): the journal offset before the wrap; past the wrap the
      volume offset of the journal plus `offset + jhdr_size`. */
  function RealOffset(g: Geometry, offset: nat): (r: nat)
    requires Region(g)
  {
    if offset < g.size - g.start then offset + g.start
    else g.jInum * g.blockSize + offset + g.jhdrSize
  }

  /** The test of lines 396-407, true where the source sets `active = 0` (printed
      "active"). */
  predicate Active(g: Geometry, x: nat)
  {
    if g.start < g.end then g.start <= x < g.end
    else if g.start > g.end then x < g.end || x >= g.start
    else false
  }

  /** Journal offset `x` lies in the live part of the circular log, the range from `start`
      forward to `end`: its distance from `start` going forward round the journal is less
      than the distance from `start` to `end`. */
  predicate InLive(g: Geometry, x: nat)
    requires 0 < g.size
  {
    (x - g.start) % g.size < (g.end - g.start) % g.size
  }

  /** Within the block count, `blocknumber` is the block holding the byte at `offset`: the
      reset to 0 only ever hits block 0. */
  lemma BlockNumberLocates(g: Geometry, offset: nat)
    requires Region(g) && offset < LinearLen(g) && BlockCount(g) <= TwoTo32
    ensures BlockNumber(g, offset) == SourceOffset(g, offset) / g.blockSize
  {
    var p := SourceOffset(g, offset);
    BlockWithin(g, p);
    var raw := p / g.blockSize;
    DivModUnique(raw, BlockCount(g), 0, raw);
  }

  /** `block_offset` is the in-block offset of the byte at `offset`, except at the wrap
      position `journal_size - start`: there the first formula is taken and yields 0 although
      the byte is the one right after the journal header. */
  lemma BlockOffsetLocates(g: Geometry, offset: nat)
    requires Region(g) && offset < LinearLen(g)
    ensures offset != g.size - g.start ==>
      BlockOffset(g, offset) == SourceOffset(g, offset) % g.blockSize
    ensures offset == g.size - g.start ==>
      BlockOffset(g, offset) == 0 && SourceOffset(g, offset) == g.jhdrSize
  {
    if offset < g.size - g.start {
      InBlockRemainder(offset, g.start, g.blockSize);
    } else if offset == g.size - g.start {
      WrapRemainder(g.start, g.size, g.blockSize);
    } else {
      PastWrapRemainder(offset, g.start, g.size, g.jhdrSize, g.blockSize);
    }
  }

  /** Adding `start` or only its remainder leaves the same remainder. */
  lemma InBlockRemainder(offset: int, start: int, bs: int)
    requires 0 < bs
    ensures (offset + start % bs) % bs == (offset + start) % bs
  {
    var q := start / bs;
    assert start == q * bs + start % bs;
    ModShift(offset + start % bs, q, bs);
  }

  /** `journal_size - start + start % block_size` is a whole number of blocks. */
  lemma WrapRemainder(start: int, size: int, bs: int)
    requires 0 < bs && size % bs == 0
    ensures (size - start + start % bs) % bs == 0
  {
    var q, n := start / bs, size / bs;
    assert size == n * bs;
    assert start == q * bs + start % bs;
    assert size - start + start % bs == 0 + (n - q) * bs;
    ModShift(0, n - q, bs);
  }

  /** Past the wrap, the second `block_offset` formula agrees with the journal offset
      `offset - (size - start) + jhdr_size` modulo the block size. */
  lemma PastWrapRemainder(offset: int, start: int, size: int, jhdr: int, bs: int)
    requires 0 < bs && size % bs == 0
    ensures (offset + start % bs + jhdr) % bs == (offset - size + start + jhdr) % bs
  {
    var q, n := start / bs, size / bs;
    assert size == n * bs;
    assert start == q * bs + start % bs;
    assert offset + start % bs + jhdr == (offset - size + start + jhdr) + (n - q) * bs;
    ModShift(offset - size + start + jhdr, n - q, bs);
  }

  /** Before the wrap `real_offset` is the journal offset of the byte at `offset`; past
      it, it exceeds that journal offset by `j_inum * block_size + journal_size - start`.
      Neither wraps around in 64 bits. */
  lemma RealOffsetAt(g: Geometry, offset: nat)
    requires Region(g) && offset < LinearLen(g)
    ensures RealOffset(g, offset) < TwoTo64
    ensures offset < g.size - g.start ==> RealOffset(g, offset) == SourceOffset(g, offset)
    ensures offset >= g.size - g.start ==>
      RealOffset(g, offset) == SourceOffset(g, offset) + g.jInum * g.blockSize + (g.size - g.start)
  {
    Multiple(g.jInum, g.blockSize);
  }

  /** With `end` inside the journal, the activity test is membership in the live range for
      every journal offset, and for offsets beyond the journal it holds exactly when the
      live range wraps. With `end` at or past the journal's end, it is the plain interval
      test `start <= x < end`. */
  lemma ActiveIsCircular(g: Geometry, x: nat)
    requires Region(g)
    ensures g.end < g.size && x < g.size ==> (Active(g, x) <==> InLive(g, x))
    ensures g.end < g.size && x >= g.size ==> (Active(g, x) <==> g.start > g.end)
    ensures g.end >= g.size ==> (Active(g, x) <==> g.start <= x < g.end)
  {
    if g.end < g.size && x < g.size {
      if x >= g.start {
        DivModUnique(x - g.start, g.size, 0, x - g.start);
      } else {
        DivModUnique(x - g.start, g.size, -1, x - g.start + g.size);
      }
      if g.end >= g.start {
        DivModUnique(g.end - g.start, g.size, 0, g.end - g.start);
      } else {
        DivModUnique(g.end - g.start, g.size, -1, g.end - g.start + g.size);
      }
    }
  }

  /** Before the wrap, a position is reported active exactly when its journal byte lies in
      the live range; with `end` at or past the journal's end, every such position is. */
  lemma ActiveBeforeWrap(g: Geometry, offset: nat)
    requires Region(g) && offset < LinearLen(g) && offset < g.size - g.start
    ensures g.end < g.size ==> (Active(g, RealOffset(g, offset)) <==> InLive(g, SourceOffset(g, offset)))
    ensures g.end >= g.size ==> Active(g, RealOffset(g, offset))
  {
    RealOffsetAt(g, offset);
    ActiveIsCircular(g, RealOffset(g, offset));
  }

  /** Past the wrap, `real_offset` lies at or beyond the journal's end exactly when
      `offset + j_inum * block_size + jhdr_size >= journal_size`, which holds at every such
      position when `j_inum * block_size + jhdr_size >= start`. There, with `end` inside
      the journal, the position counts as active exactly when the live range wraps; with
      `end` at or past the journal's end, exactly when `real_offset < end`. */
  lemma ActiveAfterWrap(g: Geometry, offset: nat)
    requires Region(g) && offset < LinearLen(g) && offset >= g.size - g.start
    ensures RealOffset(g, offset) >= g.size <==> offset + g.jInum * g.blockSize + g.jhdrSize >= g.size
    ensures g.jInum * g.blockSize + g.jhdrSize >= g.start ==> RealOffset(g, offset) >= g.size
    ensures RealOffset(g, offset) >= g.size && g.end < g.size ==>
      (Active(g, RealOffset(g, offset)) <==> g.start > g.end)
    ensures RealOffset(g, offset) >= g.size && g.end >= g.size ==>
      (Active(g, RealOffset(g, offset)) <==> RealOffset(g, offset) < g.end)
  {
    ActiveIsCircular(g, RealOffset(g, offset));
  }

  /** When `j_inum * block_size + jhdr_size < start`, a position past the wrap is judged
      from a volume-relative number: it can be reported inactive although its journal byte
      is live, and active although it is not. */
  lemma ActivePastWrapMisjudged()
    ensures var g := Geometry(4096, 1, 8 * 4096, 5 * 4096, 2 * 4096, 4096, 512);
      && Region(g) && 3 * 4096 < LinearLen(g) && 3 * 4096 >= g.size - g.start
      && !Active(g, RealOffset(g, 3 * 4096)) && InLive(g, SourceOffset(g, 3 * 4096))
    ensures var g := Geometry(4096, 4, 16 * 4096, 10 * 4096, 15 * 4096, 4096, 512);
      && Region(g) && 6 * 4096 < LinearLen(g) && 6 * 4096 >= g.size - g.start
      && Active(g, RealOffset(g, 6 * 4096)) && !InLive(g, SourceOffset(g, 6 * 4096))
  {
  }
}
