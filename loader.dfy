/** Circular-to-linear reconstruction of the journal: the block callback
    `load_jloader_action` (tsk/fs/hfs_journal.c lines 101-160) and the two block walks
    of `hfs_jentry_walk` that drive it (lines 316-343). */
module Loader {
  import opened Arith
  import opened Bytes
  import opened Tsk
  import opened Geometry

  /** Which branch of `load_jloader_action` a block takes, with the buffer index the
      branch copies to (for `Straddle`, the split point inside the block). */
  datatype Placement =
    | Straddle(split: nat)
    | Forward(dst: nat)
    | HeaderBlock(dst: nat)
    | Wrapped(dst: nat)
    | Outside

  /** The branch taken by journal block `k` (volume block `j_inum + k`), whose first byte
      is at journal offset `k * blockSize`. */
  function Place(g: Geometry, k: nat): (pl: Placement)
    requires Loadable(g)
  {
    var off := k * g.blockSize;
    if off <= g.start < off + g.blockSize then Straddle(g.start - off)
    else if off >= g.start && off <= g.size - g.blockSize then Forward(off - g.start)
    else if off < g.start then
      if off == 0 then HeaderBlock(g.size - g.start)
      else
        BlockStart(g, k);
        Wrapped(g.size - g.start + (off - g.blockSize) + (g.blockSize - g.jhdrSize))
    else Outside
  }

  /** The byte of block `k` that the callback stores at buffer index `i`, if any. In the
      straddling block the tail copy is the later of the two `memcpy`s, so it is
      consulted first. */
  function Target(g: Geometry, k: nat, i: nat): (t: Option<nat>)
    requires Loadable(g)
    ensures t.Some? ==> t.value < g.blockSize
  {
    var bs := g.blockSize;
    var len := LinearLen(g);
    match Place(g, k)
    case Straddle(o) =>
      if len - o <= i < len then Some(i - (len - o))
      else if i < bs - o then Some(o + i)
      else None
    case Forward(d) => if d <= i < d + bs then Some(i - d) else None
    case HeaderBlock(d) => if d <= i < d + (bs - g.jhdrSize) then Some(i - d + g.jhdrSize) else None
    case Wrapped(d) => if d <= i < d + bs then Some(i - d) else None
    case Outside => None
  }

  /** The buffer after the callback: every targeted index holds its block byte, every
      other index keeps its value. */
  function Stored(g: Geometry, k: nat, block: seq<byte>, prev: seq<byte>): (buf: seq<byte>)
    requires Loadable(g) && |block| == g.blockSize
    ensures |buf| == |prev|
  {
    seq(|prev|, i requires 0 <= i < |prev| =>
      match Target(g, k, i) case Some(j) => block[j] case None => prev[i])
  }

  /** A journal with a start offset past block 0 spans at least two blocks, so the linear
      buffer holds at least one whole block. */
  lemma TwoBlocks(g: Geometry)
    requires Loadable(g)
    ensures 2 * g.blockSize <= g.size && g.blockSize <= LinearLen(g)
  {
    var n := BlockCount(g);
    assert g.size == n * g.blockSize;
    assert (n - 1) * g.blockSize == g.size - g.blockSize;
    MulAwayFromZero(n - 1, g.blockSize);
  }

  /** Facts about journal block `k`'s first byte: it is a block boundary, inside the
      journal exactly when `k` is below the block count. */
  lemma BlockStart(g: Geometry, k: nat)
    requires Region(g)
    ensures k < BlockCount(g) ==> k * g.blockSize + g.blockSize <= g.size
    ensures k >= BlockCount(g) ==> k * g.blockSize >= g.size
    ensures k == 0 || k * g.blockSize >= g.blockSize
  {
    var n := BlockCount(g);
    assert g.size == n * g.blockSize;
    assert (n - k) * g.blockSize == g.size - k * g.blockSize;
    MulAwayFromZero(n - k, g.blockSize);
    Multiple(k, g.blockSize);
  }

  /** `load_jloader_action` for the block at volume address `addr`, whose bytes are
      `block`: copies them into `buffer` as `Stored` says (`IsStored` names that equation)
      and answers `TSK_WALK_ERROR` exactly for a block past the end of the journal. */
  method LoadJLoaderAction(g: Geometry, addr: nat, block: seq<byte>, buffer: array<byte>)
    returns (ret: WalkRet)
    requires Loadable(g) && |block| == g.blockSize && buffer.Length == LinearLen(g)
    requires g.jInum <= addr && (addr - g.jInum) * g.blockSize < TwoTo64
    modifies buffer
    ensures ret == WalkError <==> addr - g.jInum >= BlockCount(g)
    ensures ret == WalkError || ret == Cont
    ensures IsStored(buffer[..], g, addr - g.jInum, block, old(buffer[..]))
  {
    var k := addr - g.jInum;
    var bs := g.blockSize;
    // the product stays below 2^64, as the precondition demands
    var blockOff := (addr - g.jInum) * bs;
    Multiple(k, bs);
    StraddleTest(g, blockOff);
    if Wrap64(g.start - blockOff) < bs {
      StraddleStored(g, k, blockOff, block, buffer[..]);
      CopyStraddle(g.start - blockOff, LinearLen(g) - (g.start - blockOff), block, buffer);
      ret := Cont;
    } else if blockOff >= g.start && blockOff <= g.size - bs {
      CopyForward(g, k, blockOff, block, buffer);
      ret := Cont;
    } else if blockOff < g.start {
      CopyWrapped(g, k, blockOff, block, buffer);
      ret := Cont;
    } else {
      OutsideStored(g, k, blockOff, block, buffer[..]);
      ret := WalkError;
    }
  }

  /** The callback's first branch: the block holding `start` sends its tail
      `[offset, |block|)` to the front of the buffer and its head to `tempoff`, the buffer's
      last `offset` bytes. */
  method CopyStraddle(offset: nat, tempoff: nat, block: seq<byte>, buffer: array<byte>)
    requires offset <= |block| <= buffer.Length && tempoff + offset == buffer.Length
    modifies buffer
    ensures buffer[..] == Copy(Copy(old(buffer[..]), 0, block, offset, |block| - offset), tempoff, block, 0, offset)
  {
    Memcpy(buffer, 0, block, offset, |block| - offset);
    Memcpy(buffer, tempoff, block, 0, offset);
  }

  /** The second branch: a block from `start` up to the journal's end is copied whole to
      `block_off - start`. */
  method CopyForward(g: Geometry, k: nat, off: nat, block: seq<byte>, buffer: array<byte>)
    requires Loadable(g) && |block| == g.blockSize && buffer.Length == LinearLen(g)
    requires off == k * g.blockSize && !(off <= g.start < off + g.blockSize)
    requires g.start <= off <= g.size - g.blockSize
    modifies buffer
    ensures k < BlockCount(g)
    ensures IsStored(buffer[..], g, k, block, old(buffer[..]))
  {
    ForwardStored(g, k, off, block, buffer[..]);
    Memcpy(buffer, off - g.start, block, 0, g.blockSize);
  }

  /** The third branch: block 0 stores its bytes past the journal header right behind the
      bytes from `start` on; a later block before `start` follows them whole. */
  method CopyWrapped(g: Geometry, k: nat, off: nat, block: seq<byte>, buffer: array<byte>)
    requires Loadable(g) && |block| == g.blockSize && buffer.Length == LinearLen(g)
    requires off == k * g.blockSize && !(off <= g.start < off + g.blockSize)
    requires off < g.start
    modifies buffer
    ensures k < BlockCount(g)
    ensures IsStored(buffer[..], g, k, block, old(buffer[..]))
  {
    var offset := g.size - g.start;
    var len := g.blockSize - g.jhdrSize;
    if off == 0 {
      HeaderStored(g, k, block, buffer[..]);
      if len > 0 {
        Memcpy(buffer, offset, block, g.jhdrSize, len);
      }
    } else {
      WrappedStored(g, k, off, block, buffer[..]);
      offset := offset + (off - g.blockSize);
      offset := offset + len;
      Memcpy(buffer, offset, block, 0, g.blockSize);
    }
  }

  /** The callback's unsigned test `start - block_off < block_size` picks exactly the
      block holding `start`: when `block_off > start` the subtraction wraps around to a
      value of at least `2^64 - block_off`, far above any block size. */
  lemma StraddleTest(g: Geometry, off: nat)
    requires Loadable(g) && off < TwoTo64
    ensures Wrap64(g.start - off) < g.blockSize <==> off <= g.start < off + g.blockSize
    ensures off <= g.start ==> Wrap64(g.start - off) == g.start - off
  {
  }

  /** `buf` is what the callback leaves for block `k` over `prev` (a name for the
      equation, which keeps the per-branch facts small). */
  predicate IsStored(buf: seq<byte>, g: Geometry, k: nat, block: seq<byte>, prev: seq<byte>)
    requires Loadable(g) && |block| == g.blockSize
  {
    buf == Stored(g, k, block, prev)
  }

  /** The bytes `memcpy(dst + at, src + from, len)` leaves in `d`. */
  function Copy(d: seq<byte>, at: nat, src: seq<byte>, from: nat, len: nat): (r: seq<byte>)
    requires at + len <= |d| && from + len <= |src|
    ensures |r| == |d|
  {
    d[..at] + src[from..from + len] + d[at + len..]
  }

  /** `memcpy` replaces the `len` bytes from `at` by the source bytes from `from` and
      leaves every other byte alone. */
  lemma CopyBytes(d: seq<byte>, at: nat, src: seq<byte>, from: nat, len: nat)
    requires at + len <= |d| && from + len <= |src|
    ensures forall i :: 0 <= i < |d| ==>
      Copy(d, at, src, from, len)[i] == if at <= i < at + len then src[from + i - at] else d[i]
  {
  }

  /** The block holding `start` (the callback's first branch): its tail goes to the front
      of the buffer and its head to the buffer's end. */
  lemma StraddleStored(g: Geometry, k: nat, off: nat, block: seq<byte>, prev: seq<byte>)
    requires Loadable(g) && |block| == g.blockSize && |prev| == LinearLen(g)
    requires off == k * g.blockSize && off <= g.start < off + g.blockSize
    ensures k < BlockCount(g)
    ensures g.start - off <= g.blockSize <= LinearLen(g)
    ensures var o := g.start - off;
      IsStored(Copy(Copy(prev, 0, block, o, g.blockSize - o), LinearLen(g) - o, block, 0, o), g, k, block, prev)
  {
    TwoBlocks(g);
    BlockStart(g, k);
    var o := g.start - off;
    assert Place(g, k) == Straddle(o);
    var c1 := Copy(prev, 0, block, o, g.blockSize - o);
    CopyBytes(prev, 0, block, o, g.blockSize - o);
    var c := Copy(c1, LinearLen(g) - o, block, 0, o);
    CopyBytes(c1, LinearLen(g) - o, block, 0, o);
    forall i | 0 <= i < |prev|
      ensures c[i] == Stored(g, k, block, prev)[i]
    {
      if LinearLen(g) - o <= i {
        assert Target(g, k, i) == Some(i - (LinearLen(g) - o));
      } else if i < g.blockSize - o {
        assert Target(g, k, i) == Some(o + i);
      } else {
        assert Target(g, k, i) == None;
      }
    }
  }

  /** A block from `start` to the journal's end (the second branch) is copied whole to
      `block_off - start`. */
  lemma ForwardStored(g: Geometry, k: nat, off: nat, block: seq<byte>, prev: seq<byte>)
    requires Loadable(g) && |block| == g.blockSize && |prev| == LinearLen(g)
    requires off == k * g.blockSize && !(off <= g.start < off + g.blockSize)
    requires g.start <= off <= g.size - g.blockSize
    ensures k < BlockCount(g)
    ensures off - g.start + g.blockSize <= LinearLen(g)
    ensures IsStored(Copy(prev, off - g.start, block, 0, g.blockSize), g, k, block, prev)
  {
    BlockStart(g, k);
    TwoBlocks(g);
    assert Place(g, k) == Forward(off - g.start);
    var c := Copy(prev, off - g.start, block, 0, g.blockSize);
    CopyBytes(prev, off - g.start, block, 0, g.blockSize);
    forall i | 0 <= i < |prev|
      ensures c[i] == Stored(g, k, block, prev)[i]
    {
    }
  }

  /** A block between the header and `start` (the third branch, past block 0) is copied
      whole behind the bytes from `start` on. */
  lemma WrappedStored(g: Geometry, k: nat, off: nat, block: seq<byte>, prev: seq<byte>)
    requires Loadable(g) && |block| == g.blockSize && |prev| == LinearLen(g)
    requires off == k * g.blockSize && !(off <= g.start < off + g.blockSize)
    requires 0 < off < g.start
    ensures k < BlockCount(g) && g.blockSize <= off
    ensures var d := g.size - g.start + (off - g.blockSize) + (g.blockSize - g.jhdrSize);
      d + g.blockSize <= LinearLen(g) && IsStored(Copy(prev, d, block, 0, g.blockSize), g, k, block, prev)
  {
    BlockStart(g, k);
    TwoBlocks(g);
    var d := g.size - g.start + (off - g.blockSize) + (g.blockSize - g.jhdrSize);
    assert Place(g, k) == Wrapped(d);
    var c := Copy(prev, d, block, 0, g.blockSize);
    CopyBytes(prev, d, block, 0, g.blockSize);
    forall i | 0 <= i < |prev|
      ensures c[i] == Stored(g, k, block, prev)[i]
    {
    }
  }

  /** Block 0 stores its bytes past the journal header, or nothing when the header fills
      the block. */
  lemma HeaderStored(g: Geometry, k: nat, block: seq<byte>, prev: seq<byte>)
    requires Loadable(g) && |block| == g.blockSize && |prev| == LinearLen(g)
    requires k * g.blockSize == 0
    ensures k == 0 && k < BlockCount(g)
    ensures g.size - g.start + (g.blockSize - g.jhdrSize) <= LinearLen(g)
    ensures IsStored(Copy(prev, g.size - g.start, block, g.jhdrSize, g.blockSize - g.jhdrSize), g, k, block, prev)
    ensures g.blockSize == g.jhdrSize ==> IsStored(prev, g, k, block, prev)
  {
    BlockStart(g, k);
    TwoBlocks(g);
    assert Place(g, 0) == HeaderBlock(g.size - g.start);
    var c := Copy(prev, g.size - g.start, block, g.jhdrSize, g.blockSize - g.jhdrSize);
    CopyBytes(prev, g.size - g.start, block, g.jhdrSize, g.blockSize - g.jhdrSize);
    forall i | 0 <= i < |prev|
      ensures c[i] == Stored(g, 0, block, prev)[i]
    {
    }
  }

  /** A block in none of the three branches lies past the journal and stores nothing. */
  lemma OutsideStored(g: Geometry, k: nat, off: nat, block: seq<byte>, prev: seq<byte>)
    requires Loadable(g) && |block| == g.blockSize
    requires off == k * g.blockSize && !(off <= g.start < off + g.blockSize)
    requires !(g.start <= off <= g.size - g.blockSize) && g.start <= off
    ensures k >= BlockCount(g)
    ensures IsStored(prev, g, k, block, prev)
  {
    BlockStart(g, k);
    assert Place(g, k) == Outside;
    forall i | 0 <= i < |prev|
      ensures prev[i] == Stored(g, k, block, prev)[i]
    {
    }
  }

  /** `memcpy(dst + at, src + from, len)`. */
  method Memcpy(dst: array<byte>, at: nat, src: seq<byte>, from: nat, len: nat)
    requires at + len <= dst.Length && from + len <= |src|
    modifies dst
    ensures dst[..] == Copy(old(dst[..]), at, src, from, len)
  {
    forall i | at <= i < at + len {
      dst[i] := src[from + i - at];
    }
  }

  /** A block lies in none of the three copying branches exactly when it lies past the
      end of the journal. */
  lemma OutsideIffPastEnd(g: Geometry, k: nat)
    requires Loadable(g)
    ensures Place(g, k).Outside? <==> k >= BlockCount(g)
  {
    BlockStart(g, k);
    TwoBlocks(g);
  }

  /** Journal blocks have byte offsets that fit in 64 bits. */
  lemma JournalBlockOffset(g: Geometry, k: nat)
    requires Region(g) && k < BlockCount(g)
    ensures k * g.blockSize + g.blockSize <= g.size
    ensures k * g.blockSize < TwoTo64
  {
    BlockStart(g, k);
  }

  /** The callback for journal block `k` is a rotation: it stores at linear index `i`
      exactly the byte of the block that sits at journal offset `SourceOffset(g, i)`, and
      nothing when that offset lies in another block. */
  lemma TargetIsRotation(g: Geometry, k: nat, i: nat)
    requires Loadable(g) && k < BlockCount(g) && i < LinearLen(g)
    ensures k * g.blockSize < TwoTo64
    ensures var off, p := k * g.blockSize, SourceOffset(g, i);
      Target(g, k, i) == if off <= p < off + g.blockSize then Some(p - off) else None
  {
    JournalBlockOffset(g, k);
    BlockStart(g, k);
    TwoBlocks(g);
  }

  /** Each linear index is written by exactly one journal block, the one holding its
      journal byte, and receives that byte. */
  lemma BlockFills(blocks: seq<seq<byte>>, g: Geometry, k: nat, i: nat)
    requires Loadable(g) && Uniform(blocks, g.blockSize) && OnDisk(g, blocks)
    requires k < BlockCount(g) && i < LinearLen(g)
    ensures Target(g, k, i).Some? <==> SourceOffset(g, i) / g.blockSize == k
    ensures Target(g, k, i).Some? ==>
      blocks[g.jInum + k][Target(g, k, i).value] == Linearized(blocks, g)[i]
  {
    TargetIsRotation(g, k, i);
    var p := SourceOffset(g, i);
    InBlockIff(p, g.blockSize, k);
  }

  /** Offset `p` lies in block `k` exactly when `p / b == k`, at offset `p % b`. */
  lemma InBlockIff(p: nat, b: nat, k: nat)
    requires 0 < b
    ensures k * b <= p < k * b + b <==> p / b == k
    ensures p / b == k ==> p - k * b == p % b
  {
    assert p == (p / b) * b + p % b;
    if k * b <= p < k * b + b {
      BlockOf(k, b, p - k * b);
    }
  }

  /** Every linear index is written by exactly one block of the journal. */
  lemma WrittenOnce(g: Geometry, i: nat)
    requires Loadable(g) && i < LinearLen(g)
    ensures SourceOffset(g, i) / g.blockSize < BlockCount(g)
    ensures forall k :: 0 <= k < BlockCount(g) ==>
      k * g.blockSize < TwoTo64 && (Target(g, k, i).Some? <==> k == SourceOffset(g, i) / g.blockSize)
  {
    BlockWithin(g, SourceOffset(g, i));
    forall k | 0 <= k < BlockCount(g)
      ensures k * g.blockSize < TwoTo64
      ensures Target(g, k, i).Some? <==> k == SourceOffset(g, i) / g.blockSize
    {
      TargetIsRotation(g, k, i);
      InBlockIff(SourceOffset(g, i), g.blockSize, k);
    }
  }

  /** The journal block holding the byte that linear index `i` receives. */
  function BlockOfIndex(g: Geometry, i: nat): (b: nat)
    requires Region(g) && i < LinearLen(g)
    ensures b < BlockCount(g)
  {
    BlockWithin(g, SourceOffset(g, i));
    SourceOffset(g, i) / g.blockSize
  }

  /** Linear indices whose journal byte lies in blocks `[lo, hi)` hold their byte of
      `want`; the others still hold what `prev` held. */
  ghost predicate FilledBetween(buf: seq<byte>, prev: seq<byte>, want: seq<byte>, g: Geometry, lo: nat, hi: nat)
    requires Region(g) && |buf| == |prev| == |want| == LinearLen(g)
  {
    forall i {:trigger buf[i]} :: 0 <= i < LinearLen(g) ==>
      buf[i] == if lo <= BlockOfIndex(g, i) < hi then want[i] else prev[i]
  }

  /** `tsk_fs_block_walk(fs, lo, hi, ..., load_jloader_action, buffer)` over volume blocks
      `lo..hi` of the journal: fails when the range leaves the volume, otherwise runs the
      callback on each block in ascending order. */
  method LoaderWalk(blocks: seq<seq<byte>>, g: Geometry, lo: nat, hi: nat, buffer: array<byte>)
    returns (failed: bool)
    requires Loadable(g) && Uniform(blocks, g.blockSize) && buffer.Length == LinearLen(g)
    requires g.jInum <= lo <= hi < g.jInum + BlockCount(g)
    modifies buffer
    ensures failed <==> hi >= |blocks|
    ensures failed ==> buffer[..] == old(buffer[..])
    ensures !failed && OnDisk(g, blocks) ==>
      FilledBetween(buffer[..], old(buffer[..]), Linearized(blocks, g), g, lo - g.jInum, hi + 1 - g.jInum)
  {
    if lo >= |blocks| || hi >= |blocks| {
      return true;
    }
    failed := false;
    var addr := lo;
    while addr <= hi
      invariant lo <= addr <= hi + 1
      invariant OnDisk(g, blocks) ==>
        FilledBetween(buffer[..], old(buffer[..]), Linearized(blocks, g), g, lo - g.jInum, addr - g.jInum)
    {
      var k := addr - g.jInum;
      JournalBlockOffset(g, k);
      ghost var before := buffer[..];
      var ret := LoadJLoaderAction(g, addr, blocks[addr], buffer);
      // a journal block always takes one of the copying branches
      assert ret == Cont;
      if OnDisk(g, blocks) {
        WalkStep(blocks, g, k, lo - g.jInum, old(buffer[..]), before, buffer[..]);
      }
      addr := addr + 1;
    }
  }

  /** One callback extends the filled range of blocks by block `k`. */
  lemma WalkStep(blocks: seq<seq<byte>>, g: Geometry, k: nat, lo: nat, init: seq<byte>, before: seq<byte>, after: seq<byte>)
    requires Loadable(g) && Uniform(blocks, g.blockSize) && OnDisk(g, blocks)
    requires lo <= k < BlockCount(g) && |JournalBlock(blocks, g, k)| == g.blockSize
    requires |init| == |before| == LinearLen(g)
    requires FilledBetween(before, init, Linearized(blocks, g), g, lo, k)
    requires after == Stored(g, k, JournalBlock(blocks, g, k), before)
    ensures FilledBetween(after, init, Linearized(blocks, g), g, lo, k + 1)
  {
    var want := Linearized(blocks, g);
    forall i | 0 <= i < LinearLen(g)
      ensures after[i] == if lo <= BlockOfIndex(g, i) < k + 1 then want[i] else init[i]
    {
      BlockFills(blocks, g, k, i);
      FilledAt(before, init, want, g, lo, k, i);
    }
  }

  /** Block `k` of the journal, as the volume holds it. */
  function JournalBlock(blocks: seq<seq<byte>>, g: Geometry, k: nat): seq<byte>
    requires 0 < g.blockSize && OnDisk(g, blocks) && k < BlockCount(g)
  {
    blocks[g.jInum + k]
  }

  lemma FilledAt(buf: seq<byte>, prev: seq<byte>, want: seq<byte>, g: Geometry, lo: nat, hi: nat, i: nat)
    requires Region(g) && |buf| == |prev| == |want| == LinearLen(g) && i < LinearLen(g)
    requires FilledBetween(buf, prev, want, g, lo, hi)
    ensures buf[i] == if lo <= BlockOfIndex(g, i) < hi then want[i] else prev[i]
  {
  }

  /** The two passes together cover every block of the journal. */
  lemma PassesCover(g: Geometry, want: seq<byte>, init: seq<byte>, mid: seq<byte>, last: seq<byte>, s0: nat)
    requires Region(g) && |want| == |init| == |mid| == |last| == LinearLen(g)
    requires FilledBetween(mid, init, want, g, s0, BlockCount(g))
    requires FilledBetween(last, mid, want, g, 0, s0)
    ensures last == want
  {
    forall i | 0 <= i < LinearLen(g)
      ensures last[i] == want[i]
    {
      FilledAt(mid, init, want, g, s0, BlockCount(g), i);
      FilledAt(last, mid, want, g, 0, s0, i);
    }
  }

  /** The two block walks of `hfs_jentry_walk`: from the block holding `start` to the
      journal's last block, then from the journal's first block up to the one before.
      They fail exactly when the journal does not fit on the volume, and otherwise leave
      the linear buffer holding the rotated journal. */
  method LoadLinearBuffer(blocks: seq<seq<byte>>, g: Geometry) returns (buffer: array<byte>, ok: bool)
    requires Loadable(g) && Uniform(blocks, g.blockSize)
    ensures fresh(buffer) && buffer.Length == LinearLen(g)
    ensures ok <==> OnDisk(g, blocks)
    ensures ok ==> buffer[..] == Linearized(blocks, g)
  {
    buffer := new byte[LinearLen(g)];
    var n := BlockCount(g);
    var start := g.start / g.blockSize + g.jInum;
    var end := (g.jInum + n) - 1;
    BlockWithin(g, g.start);
    assert g.start / g.blockSize >= 1 by {
      InBlockIff(g.start, g.blockSize, 0);
    }
    ghost var init := buffer[..];
    var failed := LoaderWalk(blocks, g, start, end, buffer);
    if failed {
      return buffer, false;
    }
    ghost var mid := buffer[..];
    failed := LoaderWalk(blocks, g, g.jInum, start - 1, buffer);
    ok := !failed;
    PassesCover(g, Linearized(blocks, g), init, mid, buffer[..], g.start / g.blockSize);
  }
}
