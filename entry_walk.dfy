/** The transaction loop of `hfs_jentry_walk` (tsk/fs/hfs_journal.c lines 346-551), run
    over the linear buffer step by step. Each phase of the loop is a method here, proved to
    produce what the matching function of module Walk describes; the buffer is left as it
    was, since the checksum test restores the bytes it clears. */
module EntryWalk {
  import opened Arith
  import opened Bytes
  import opened Layout
  import opened Geometry
  import opened Checksum
  import opened Position
  import opened Walk

  /** `hfs_test_checksum_jblock(cur_header)` for the block-list header at `at`: true when
      the test fails. */
  method BadHeader(buffer: array<byte>, lay: ListLayout, at: nat) returns (bad: bool)
    requires ListLayoutOk(lay) && HeaderFits(buffer[..], lay, at)
    modifies buffer
    ensures buffer[..] == old(buffer[..])
    ensures bad == !Valid(old(buffer[..]), lay)[at]
  {
    var r := TestChecksumJBlock(buffer, at, lay.structSize, lay.checksumAt);
    ValidAt(old(buffer[..]), lay, at);
    assert old(buffer[..])[at..at + lay.structSize] == old(buffer[at..at + lay.structSize]);
    bad := r != 0;
  }

  /** Lines 424-432: step one byte at a time from the bad header at `at`, with
      `bytes_left = left`, until a header passes the test or the steps run out. */
  method SkipBadHeader(buffer: array<byte>, lay: ListLayout, at: nat, left: nat) returns (r: Landing)
    requires ListLayoutOk(lay) && 0 < left
    modifies buffer
    ensures buffer[..] == old(buffer[..])
    ensures r == SkipFrom(old(buffer[..]), lay, Valid(old(buffer[..]), lay), at, left)
  {
    ghost var buf := buffer[..];
    ghost var valid := Valid(buf, lay);
    var offset: nat := at;
    var bytesLeft: nat := left;
    while bytesLeft > 0
      invariant buffer[..] == buf
      invariant bytesLeft > 0 ==> SkipFrom(buf, lay, valid, offset, bytesLeft) == SkipFrom(buf, lay, valid, at, left)
      invariant bytesLeft == 0 ==> Landed(offset) == SkipFrom(buf, lay, valid, at, left)
    {
      offset := offset + 1;
      if offset + lay.structSize > buffer.Length {
        return SkipOverrun(offset);
      }
      var bad := BadHeader(buffer, lay, offset);
      if !bad {
        return Landed(offset);
      }
      bytesLeft := bytesLeft - 1;
    }
    r := Landed(offset);
  }

  /** Lines 441-460: the unused lines printed from the block at hand to the end of the
      journal, `left` bytes away; the source returns from the walk when they run out. */
  method EmitEnd(g: Geometry, bn: nat, bo: nat, left: int, trans: nat, active: bool) returns (lines: seq<Line>)
    requires Region(g) && g.jhdrSize < g.blockSize && bo < g.blockSize && 0 < left
    ensures lines == EndLines(g, bn, bo, left, trans, active)
  {
    var blocknumber: nat, blockOffset: nat, bytesLeft: int := bn, bo, left;
    lines := [];
    while bytesLeft > 0
      invariant blockOffset < g.blockSize
      invariant lines + (if bytesLeft > 0 then EndLines(g, blocknumber, blockOffset, bytesLeft, trans, active) else [])
                == EndLines(g, bn, bo, left, trans, active)
      decreases bytesLeft
    {
      ghost var done := lines;
      var line;
      line, blocknumber, blockOffset, bytesLeft := EndStep(g, blocknumber, blockOffset, bytesLeft, trans, active);
      lines := lines + [line];
      Assoc(done, [line], if bytesLeft > 0 then EndLines(g, blocknumber, blockOffset, bytesLeft, trans, active) else []);
    }
  }

  /** One pass of the loop of lines 441-460: print the line, count the block's bytes off,
      and, when bytes are left, move to the next block. */
  method EndStep(g: Geometry, bn: nat, bo: nat, left: int, trans: nat, active: bool)
    returns (line: Line, bn': nat, bo': nat, left': int)
    requires Region(g) && g.jhdrSize < g.blockSize && bo < g.blockSize && 0 < left
    ensures bo' < g.blockSize && left' < left
    ensures EndLines(g, bn, bo, left, trans, active)
      == [line] + (if left' > 0 then EndLines(g, bn', bo', left', trans, active) else [])
  {
    line := Line(Unused, if bo != 0 then bn else bo, bo, trans, active);
    bn', bo', left' := bn, bo, left - (g.blockSize - bo);
    if left' > 0 {
      NextBlockZero(g, bn);
      bn' := Wrap32(bn + 1);
      if bn' % BlockCount(g) == 0 {
        bn' := 0;
        bo' := g.jhdrSize;
      }
    }
  }

  /** Lines 464-488: one line per block the block-list header covers, `blhdr_size` bytes
      from the block at hand. */
  method EmitHeader(g: Geometry, bn: nat, bo: nat, trans: nat, active: bool) returns (e: Emitted)
    requires Region(g) && g.jhdrSize < g.blockSize && bo < g.blockSize
    ensures e == HeaderLines(g, bn, bo, g.blhdrSize, trans, active)
  {
    var blocknumber: nat, blockOffset: nat, bytesLeft: int := bn, bo, g.blhdrSize;
    var lines: seq<Line> := [];
    ghost var total := HeaderLines(g, bn, bo, g.blhdrSize, trans, active);
    while bytesLeft > 0
      invariant blockOffset < g.blockSize
      invariant var rest := HeaderLines(g, blocknumber, blockOffset, bytesLeft, trans, active);
        lines + rest.lines == total.lines && rest.bn == total.bn && rest.bo == total.bo
      decreases bytesLeft
    {
      ghost var done := lines;
      var line;
      line, blocknumber, blockOffset, bytesLeft := HeaderStep(g, blocknumber, blockOffset, bytesLeft, trans, active);
      lines := lines + [line];
      ghost var tail := HeaderLines(g, blocknumber, blockOffset, bytesLeft, trans, active);
      Assoc(done, [line], tail.lines);
    }
    e := Emitted(lines, blocknumber, blockOffset);
  }

  /** One pass of the loop of lines 464-488: print the line, count the block's bytes off,
      step the block number when the header reaches past this block, and wrap it at the
      journal's end. */
  method HeaderStep(g: Geometry, bn: nat, bo: nat, left: int, trans: nat, active: bool)
    returns (line: Line, bn': nat, bo': nat, left': int)
    requires Region(g) && g.jhdrSize < g.blockSize && bo < g.blockSize && 0 < left
    ensures bo' < g.blockSize && left' < left
    ensures var tail := HeaderLines(g, bn', bo', left', trans, active);
      HeaderLines(g, bn, bo, left, trans, active) == Emitted([line] + tail.lines, tail.bn, tail.bo)
  {
    line := Line(ListHeader, bn, bo, trans, active);
    bn', bo' := bn, bo;
    if bo' != 0 {
      left' := left - (g.blockSize - bo');
      bo' := 0;
    } else {
      left' := left - g.blockSize;
    }
    if left' >= 0 {
      bn' := Wrap32(bn' + 1);
    }
    if bn' % BlockCount(g) == 0 {
      bn' := 0;
      bo' := g.jhdrSize;
    }
  }

  /** Lines 498-543 for one entry: one write line per block its `left` bytes touch, from
      linear position `offset`. */
  method EmitWrites(g: Geometry, offset: nat, bn: nat, left: int, sector: nat, trans: nat, active: bool) returns (a: Advance)
    requires Region(g)
    ensures a == WriteLines(g, offset, bn, left, sector, trans, active)
  {
    var off: nat, blocknumber: nat, bytesLeft: int := offset, bn, left;
    var lines: seq<Line> := [];
    ghost var total := WriteLines(g, offset, bn, left, sector, trans, active);
    while bytesLeft > 0
      invariant var rest := WriteLines(g, off, blocknumber, bytesLeft, sector, trans, active);
        lines + rest.lines == total.lines && rest.offset == total.offset && rest.bn == total.bn
      decreases bytesLeft
    {
      ghost var done := lines;
      var line;
      line, off, blocknumber, bytesLeft := WriteStep(g, off, blocknumber, bytesLeft, sector, trans, active);
      lines := lines + [line];
      ghost var tail := WriteLines(g, off, blocknumber, bytesLeft, sector, trans, active);
      Assoc(done, [line], tail.lines);
    }
    a := Advance(lines, off, blocknumber);
  }

  /** One pass of the loop of lines 498-543: locate `offset` in its block, print the line,
      move `offset` by what of the entry this block holds, and step the block number when
      the entry reaches the block's end. */
  method WriteStep(g: Geometry, offset: nat, bn: nat, left: int, sector: nat, trans: nat, active: bool)
    returns (line: Line, offset': nat, bn': nat, left': int)
    requires Region(g) && 0 < left
    ensures left' < left
    ensures var tail := WriteLines(g, offset', bn', left', sector, trans, active);
      WriteLines(g, offset, bn, left, sector, trans, active) == Advance([line] + tail.lines, tail.offset, tail.bn)
  {
    var blockOffset := BlockOffset(g, offset);
    line := Line(Write(sector), bn, blockOffset, trans, active);
    if g.blockSize - blockOffset < left {
      offset' := offset + (g.blockSize - blockOffset);
    } else {
      offset' := offset + left;
    }
    left' := left - (g.blockSize - blockOffset);
    bn' := bn;
    if left' >= 0 {
      NextBlockZero(g, bn);
      bn' := Wrap32(bn + 1);
      if bn' % BlockCount(g) == 0 {
        bn' := 0;
      }
    }
  }

  /** Lines 497-545: the entries `binfo[1..blocks)` of the block-list header at `h`, with
      `offset` the linear position of the first payload byte. */
  method EmitEntries(buffer: array<byte>, g: Geometry, lay: ListLayout, h: nat, blocks: nat,
                     offset: nat, bn: nat, trans: nat, active: bool) returns (r: TxEnd)
    requires Region(g)
    ensures r == Entries(buffer[..], g, lay, h, 1, blocks, offset, bn, trans, active)
  {
    ghost var buf := buffer[..];
    ghost var total := Entries(buf, g, lay, h, 1, blocks, offset, bn, trans, active);
    var lines: seq<Line> := [];
    var off, blocknumber := offset, bn;
    var j := 1;
    while j < blocks
      invariant 1 <= j && (j <= blocks || j == 1)
      invariant Behind(lines, Entries(buf, g, lay, h, j, blocks, off, blocknumber, trans, active)) == total
      decreases blocks - j
    {
      var e := EntryStep(buffer, g, lay, h, j, blocks, off, blocknumber, trans, active);
      if e.TxOverrun? {
        return Behind(lines, e);
      }
      BehindJoins(lines, e.lines, Entries(buf, g, lay, h, j + 1, blocks, e.offset, e.bn, trans, active));
      lines, off, blocknumber := lines + e.lines, e.offset, e.bn;
      j := j + 1;
    }
    assert lines + [] == lines;
    r := TxDone(lines, off, blocknumber);
  }

  /** One pass of the `for` loop of lines 497-545, for `binfo[j]`: read its size, and
      when it is positive print its write lines. Ends in an overrun when a field it reads
      lies past the buffer. */
  method EntryStep(buffer: array<byte>, g: Geometry, lay: ListLayout, h: nat, j: nat, blocks: nat,
                   offset: nat, bn: nat, trans: nat, active: bool) returns (e: TxEnd)
    requires Region(g) && j < blocks
    ensures e.TxOverrun? ==> Entries(buffer[..], g, lay, h, j, blocks, offset, bn, trans, active) == e
    ensures e.TxDone? ==>
      Entries(buffer[..], g, lay, h, j, blocks, offset, bn, trans, active)
        == Behind(e.lines, Entries(buffer[..], g, lay, h, j + 1, blocks, e.offset, e.bn, trans, active))
  {
    var bsizeAt := EntryAt(lay, h, j) + lay.bsizeAt;
    if bsizeAt + 4 > buffer.Length {
      return TxOverrun([], bsizeAt);
    }
    var bytesLeft := AsInt32(U32(buffer[..], bsizeAt));
    if bytesLeft <= 0 {
      assert [] + Entries(buffer[..], g, lay, h, j + 1, blocks, offset, bn, trans, active).lines
          == Entries(buffer[..], g, lay, h, j + 1, blocks, offset, bn, trans, active).lines;
      return TxDone([], offset, bn);
    }
    var bnumAt := EntryAt(lay, h, j) + lay.bnumAt;
    if bnumAt + 8 > buffer.Length {
      return TxOverrun([], bnumAt);
    }
    var a := EmitWrites(g, offset, bn, bytesLeft, U64(buffer[..], bnumAt), trans, active);
    e := TxDone(a.lines, a.offset, a.bn);
  }

  /** Lines 464-548 for a valid block-list header at `offset` whose transaction fits:
      its header lines, its entries, and the count goes up. */
  method Transact(buffer: array<byte>, g: Geometry, lay: ListLayout, offset: nat, trans: nat,
                  bn: nat, bo: nat, active: bool) returns (s: Step)
    requires Walkable(g, lay) && HeaderFits(buffer[..], lay, offset) && bo < g.blockSize
    ensures s == Transaction(buffer[..], g, lay, offset, trans, bn, bo, active)
  {
    ghost var spec := Transaction(buffer[..], g, lay, offset, trans, bn, bo, active);
    var header := EmitHeader(g, bn, bo, trans, active);
    var blocks := U16(buffer[..], offset + lay.numBlocksAt);
    var r := EmitEntries(buffer, g, lay, offset, blocks, offset + g.blhdrSize, header.bn, trans, active);
    match r
    case TxDone(ls, o, _) =>
      s := Next(header.lines + ls, o, Wrap32(trans + 1));
      assert spec == s;
    case TxOverrun(ls, at) =>
      s := Last(header.lines + ls, Overrun(at));
      assert spec == s;
  }

  /** One pass of the `while` loop (lines 346-549) at linear position `offset`. */
  method Iterate(buffer: array<byte>, g: Geometry, lay: ListLayout, offset: nat, trans: nat) returns (s: Step)
    requires Walkable(g, lay) && buffer.Length == LinearLen(g) && offset < buffer.Length
    modifies buffer
    ensures buffer[..] == old(buffer[..])
    ensures s == Iteration(old(buffer[..]), g, lay, Valid(old(buffer[..]), lay), offset, trans)
  {
    var blocknumber := BlockNumber(g, offset);
    var blockOffset := BlockOffset(g, offset);
    var active := Active(g, RealOffset(g, offset));
    if offset + lay.structSize > buffer.Length {
      return Last([], Overrun(offset));
    }
    var bad := BadHeader(buffer, lay, offset);
    if bad {
      var line := Line(Unused, blocknumber, blockOffset, trans, active);
      var landing := SkipBadHeader(buffer, lay, offset, g.blockSize - blockOffset);
      match landing
      case Landed(p) =>
        s := Next([line], p, trans);
      case SkipOverrun(p) =>
        s := Last([line], Overrun(p));
    } else if U32(buffer[..], offset + lay.bytesUsedAt) > g.size - offset {
      var lines := EmitEnd(g, blocknumber, blockOffset, g.size - offset, trans, active);
      s := Last(lines, EndOfLog);
    } else {
      s := Transact(buffer, g, lay, offset, trans, blocknumber, blockOffset, active);
    }
  }

  /** The transaction loop of `hfs_jentry_walk` over the linear buffer: every line it
      prints and how it ends. */
  method WalkLines(buffer: array<byte>, g: Geometry, lay: ListLayout) returns (lines: seq<Line>, outcome: Outcome)
    requires Walkable(g, lay) && buffer.Length == LinearLen(g)
    modifies buffer
    ensures buffer[..] == old(buffer[..])
    ensures Report(lines, outcome) == WalkFrom(old(buffer[..]), g, lay, Valid(old(buffer[..]), lay), 0, 0)
  {
    ghost var buf := buffer[..];
    ghost var valid := Valid(buf, lay);
    var offset: nat, trans: nat := 0, 0;
    lines := [];
    while offset < buffer.Length
      invariant buffer[..] == buf
      invariant var rest := WalkFrom(buf, g, lay, valid, offset, trans);
        Report(lines + rest.lines, rest.outcome) == WalkFrom(buf, g, lay, valid, 0, 0)
      decreases buffer.Length - offset
    {
      ghost var done := lines;
      var s := Iterate(buffer, g, lay, offset, trans);
      match s
      case Next(ls, o, t) =>
        ghost var rest := WalkFrom(buf, g, lay, valid, o, t);
        Assoc(done, ls, rest.lines);
        lines, offset, trans := lines + ls, o, t;
      case Last(ls, out) =>
        return lines + ls, out;
    }
    outcome := Exhausted;
  }
}
