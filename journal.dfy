/** The journal as a volume exposes it: the journal info (`HFS_JINFO`) and the two load
    actions that fill it (`load_jinfoblock_action`, `load_jheader_action`), `hfs_jopen`,
    and the two public walks `hfs_jentry_walk` and `hfs_jblk_walk`
    (tsk/fs/hfs_journal.c lines 54-70, 169-284, 290-552 and 554-614). */
module Journal {
  import opened Arith
  import opened Bytes
  import opened Tsk
  import opened Layout
  import opened Geometry
  import opened Checksum
  import opened Loader
  import opened Walk
  import opened EntryWalk

  /** `HFS_JINFO`: where the journal lies and the state its header records. */
  class JInfo {
    var jInum: nat
    var size: nat
    var start: nat
    var end: nat
    var blhdrSize: nat
    var jhdrSize: nat

    /** `tsk_malloc` hands out zeroed memory. */
    constructor ()
      ensures Holds(0, 0, 0, 0, 0, 0)
    {
      jInum, size, start, end, blhdrSize, jhdrSize := 0, 0, 0, 0, 0, 0;
    }

    /** Lines 220-224: the header's fields replace the journal's size, cursors and
        header sizes. */
    method Fill(h: JHeader)
      modifies this
      ensures Holds(old(jInum), h.size, h.start, h.end, h.blhdrSize, h.jhdrSize)
    {
      size, start, end := h.size, h.start, h.end;
      blhdrSize, jhdrSize := h.blhdrSize, h.jhdrSize;
    }

    predicate Holds(jInum': int, size': int, start': int, end': int, blhdrSize': int, jhdrSize': int)
      reads this
    {
      jInum == jInum' && size == size' && start == start' && end == end'
      && blhdrSize == blhdrSize' && jhdrSize == jhdrSize'
    }
  }

  /** The journal header fields `load_jheader_action` copies into `HFS_JINFO`. */
  datatype JHeader = JHeader(size: nat, start: nat, end: nat, blhdrSize: nat, jhdrSize: nat)

  /** How `load_jheader_action` judges a journal header. */
  datatype HeaderCheck = SizeMismatch | BadChecksum | Accepted(hdr: JHeader)

  /** The little-endian fields of the journal header struct `hdr`. */
  function HeaderFields(hdr: seq<byte>, hl: HeaderLayout): (h: JHeader)
    requires HeaderLayoutOk(hl) && |hdr| == hl.structSize
    ensures h.size < TwoTo64 && h.start < TwoTo64 && h.end < TwoTo64
    ensures h.blhdrSize < TwoTo32 && h.jhdrSize < TwoTo32
  {
    JHeader(U64(hdr, hl.sizeAt), U64(hdr, hl.startAt), U64(hdr, hl.endAt),
            U32(hdr, hl.blhdrSizeAt), U32(hdr, hl.jhdrSizeAt))
  }

  /** The verdict on journal header `hdr` when the journal info block gave `size`: the size
      is compared first, the checksum second. */
  function CheckHeader(hdr: seq<byte>, hl: HeaderLayout, size: nat): (c: HeaderCheck)
    requires HeaderLayoutOk(hl) && |hdr| == hl.structSize
    ensures c.SizeMismatch? <==> U64(hdr, hl.sizeAt) != size
    ensures c.BadChecksum? <==> U64(hdr, hl.sizeAt) == size && !ChecksumValid(hdr, hl.checksumAt)
    ensures c.Accepted? ==> c.hdr.size == size && ChecksumValid(hdr, hl.checksumAt)
  {
    if U64(hdr, hl.sizeAt) != size then SizeMismatch
    else if !ChecksumValid(hdr, hl.checksumAt) then BadChecksum
    else Accepted(HeaderFields(hdr, hl))
  }

  /** The verdict once the size has matched, given the checksum `c` of the header with
      its checksum field cleared. */
  lemma Verdict(hdr: seq<byte>, hl: HeaderLayout, size: nat, c: bv32)
    requires HeaderLayoutOk(hl) && |hdr| == hl.structSize && U64(hdr, hl.sizeAt) == size
    requires c == Checksum.Checksum(Zeroed(hdr, hl.checksumAt))
    ensures CheckHeader(hdr, hl, size) ==
      if U32(hdr, hl.checksumAt) == c as nat then Accepted(HeaderFields(hdr, hl)) else BadChecksum
  {
  }

  lemma SameChecksum(s: seq<byte>, t: seq<byte>)
    requires s == t
    ensures Checksum.Checksum(s) == Checksum.Checksum(t)
  {
  }

  /** Clearing the checksum field leaves a field that does not overlap it alone. */
  lemma ZeroedKeeps(hdr: seq<byte>, ck: nat, at: nat, width: nat)
    requires ck + 4 <= |hdr| && at + width <= |hdr| && Disjoint(ck, 4, at, width)
    ensures Uint(Little, Zeroed(hdr, ck), at, width) == Uint(Little, hdr, at, width)
  {
    var z := Zeroed(hdr, ck);
    assert z[at..at + width] == hdr[at..at + width];
  }

  /** Clearing the checksum field leaves every other header field as it was, so the
      fields `load_jheader_action` reads after the clearing are the stored ones. */
  lemma ZeroingKeepsFields(hdr: seq<byte>, hl: HeaderLayout)
    requires HeaderLayoutOk(hl) && |hdr| == hl.structSize
    ensures HeaderFields(Zeroed(hdr, hl.checksumAt), hl) == HeaderFields(hdr, hl)
  {
    ZeroedKeeps(hdr, hl.checksumAt, hl.sizeAt, 8);
    ZeroedKeeps(hdr, hl.checksumAt, hl.startAt, 8);
    ZeroedKeeps(hdr, hl.checksumAt, hl.endAt, 8);
    ZeroedKeeps(hdr, hl.checksumAt, hl.blhdrSizeAt, 4);
    ZeroedKeeps(hdr, hl.checksumAt, hl.jhdrSizeAt, 4);
  }

  /** A header written with an honest checksum and the journal's size is accepted, and
      its fields are the ones the writer put there. */
  lemma SealedHeaderAccepted(hdr: seq<byte>, hl: HeaderLayout, size: nat)
    requires HeaderLayoutOk(hl) && |hdr| == hl.structSize && U64(hdr, hl.sizeAt) == size
    ensures CheckHeader(Sealed(hdr, hl.checksumAt), hl, size) == Accepted(HeaderFields(hdr, hl))
  {
    var t := Sealed(hdr, hl.checksumAt);
    SealedValidates(hdr, hl.checksumAt);
    SealedKeepsFields(hdr, hl.checksumAt);
    ZeroingKeepsFields(hdr, hl);
    ZeroingKeepsFields(t, hl);
  }

  /** `HFS_INFO` as far as the journal reader uses it: the volume's block size and byte
      order, the journal's inode number (`journ_inum`), the on-disk layouts, the blocks
      of the volume, and the journal info once it is open. */
  class HfsInfo {
    const blockSize: nat
    const endian: Endian
    const journInum: nat
    const lay: Layout
    const blocks: seq<seq<byte>>
    var jinfo: JInfo?

    constructor (blockSize: nat, endian: Endian, journInum: nat, lay: Layout, blocks: seq<seq<byte>>)
      ensures this.blockSize == blockSize && this.endian == endian && this.journInum == journInum
      ensures this.lay == lay && this.blocks == blocks && jinfo == null
    {
      this.blockSize, this.endian, this.journInum := blockSize, endian, journInum;
      this.lay, this.blocks := lay, blocks;
      jinfo := null;
    }

    /** Every block has the volume's block size and the structs fit in a block. */
    predicate Sane()
    {
      0 < blockSize && Uniform(blocks, blockSize) && LayoutOk(lay, blockSize)
    }

    /** The journal header struct at the front of volume block `a`. */
    function HeaderBytes(a: nat): (hdr: seq<byte>)
      requires Sane() && a < |blocks|
      ensures |hdr| == lay.header.structSize && HeaderLayoutOk(lay.header)
    {
      blocks[a][..lay.header.structSize]
    }

    /** The journal geometry the open journal info describes. */
    function Geo(): (g: Geometry)
      requires jinfo != null
      reads this, jinfo
      ensures g.blockSize == blockSize && g.jInum == jinfo.jInum && g.size == jinfo.size
      ensures g.start == jinfo.start && g.end == jinfo.end
      ensures g.blhdrSize == jinfo.blhdrSize && g.jhdrSize == jinfo.jhdrSize
    {
      Geometry(blockSize, jinfo.jInum, jinfo.size, jinfo.start, jinfo.end, jinfo.blhdrSize, jinfo.jhdrSize)
    }

    /** `load_jinfoblock_action` on the journal info block `block`: the journal's first
        block is its volume byte offset divided by the block size, and its size is read
        as stored, both in the volume's byte order. The block `j_inum` names is the one
        holding the journal's first byte; it starts exactly there only when the offset is
        block-aligned, and otherwise the offset's remainder is dropped. */
    method LoadJInfoBlockAction(block: seq<byte>) returns (ret: WalkRet)
      requires jinfo != null && Sane() && |block| == blockSize
      modifies jinfo
      ensures ret == Stop
      ensures jinfo.Holds(Uint(endian, block, lay.info.offsAt, 8) / blockSize,
                          Uint(endian, block, lay.info.sizeAt, 8),
                          old(jinfo.start), old(jinfo.end), old(jinfo.blhdrSize), old(jinfo.jhdrSize))
      ensures var offs := Uint(endian, block, lay.info.offsAt, 8);
        && jinfo.jInum * blockSize <= offs < jinfo.jInum * blockSize + blockSize
        && (jinfo.jInum * blockSize == offs <==> offs % blockSize == 0)
    {
      var offs := Uint(endian, block, lay.info.offsAt, 8);
      DivNat(offs, blockSize);
      jinfo.jInum := offs / blockSize;
      jinfo.size := Uint(endian, block, lay.info.sizeAt, 8);
      assert offs == jinfo.jInum * blockSize + offs % blockSize;
      ret := Stop;
    }

    /** `load_jheader_action` on the journal's first block: refuses a header whose size
        disagrees with the journal info, then clears the checksum field in the block and
        refuses a header whose checksum is wrong, and otherwise copies the header's fields
        into the journal info. The cleared field is not restored. */
    method LoadJHeaderAction(block: array<byte>) returns (ret: WalkRet, err: Option<ErrNo>)
      requires jinfo != null && Sane() && block.Length == blockSize
      modifies block, jinfo
      ensures CheckHeader(old(block[..lay.header.structSize]), lay.header, old(jinfo.size)).SizeMismatch? ==>
        block[..] == old(block[..])
      ensures !CheckHeader(old(block[..lay.header.structSize]), lay.header, old(jinfo.size)).SizeMismatch? ==>
        block[..] == Zeroed(old(block[..]), lay.header.checksumAt)
      ensures ret == Stop <==> CheckHeader(old(block[..lay.header.structSize]), lay.header, old(jinfo.size)).Accepted?
      ensures ret != Stop ==> ret == WalkError && err == Some(FsCorrupt) && unchanged(jinfo)
      ensures ret == Stop ==>
        var h := HeaderFields(old(block[..lay.header.structSize]), lay.header);
        err == None && jinfo.Holds(old(jinfo.jInum), h.size, h.start, h.end, h.blhdrSize, h.jhdrSize)
    {
      var hl := lay.header;
      ghost var hdr := block[..hl.structSize];
      if U64(block[..hl.structSize], hl.sizeAt) != jinfo.size {
        return WalkError, Some(FsCorrupt);
      }
      var checksum := U32(block[..hl.structSize], hl.checksumAt);
      assert checksum == U32(hdr, hl.checksumAt);
      ClearField(block, hl.checksumAt);
      StructZeroed(old(block[..]), block[..], hl.structSize, hl.checksumAt);
      ghost var zeroed := block[..hl.structSize];
      assert zeroed == block[0..hl.structSize] == Zeroed(hdr, hl.checksumAt);
      var c := CalcChecksum(block, 0, hl.structSize);
      SameChecksum(block[0..0 + hl.structSize], Zeroed(hdr, hl.checksumAt));
      Verdict(hdr, hl, jinfo.size, c);
      if checksum != c as nat {
        return WalkError, Some(FsCorrupt);
      }
      ZeroingKeepsFields(hdr, hl);
      var h := HeaderFields(block[..hl.structSize], hl);
      assert h == HeaderFields(hdr, hl);
      jinfo.Fill(h);
      ret, err := Stop, None;
    }
  }

  /** The `for` loop of lines 205-207: the 4 bytes of the field at `at` become 0. */
  method ClearField(block: array<byte>, at: nat)
    requires at + 4 <= block.Length
    modifies block
    ensures block[..] == Zeroed(old(block[..]), at)
  {
    for i := 0 to 4
      invariant forall k :: 0 <= k < block.Length ==>
        block[k] == if at <= k < at + i then 0 else old(block[k])
    {
      block[at + i] := 0;
    }
    assert block[..] == Zeroed(old(block[..]), at);
  }

  /** Clearing the field in the whole block clears it in the struct at its front. */
  lemma StructZeroed(before: seq<byte>, after: seq<byte>, size: nat, at: nat)
    requires at + 4 <= size <= |before| && after == Zeroed(before, at)
    ensures after[0..size] == Zeroed(before[..size], at)
    ensures after[..size] == Zeroed(before[..size], at)
  {
    ZeroedInPlace(before, after, 0, size, at);
    assert before[0..size] == before[..size];
  }

  /** `hfs_jopen(fs, inum)`: checks its arguments, allocates the journal info, reads the
      journal info block `inum` and then the journal header in the journal's first block,
      each through a one-block walk. A failed step leaves `fs.jinfo` allocated and
      partly filled. `err` is the error number set here, `None` where the failing block
      walk's own stands. */
  method JOpen(fs: HfsInfo?, inum: nat) returns (failed: bool, err: Option<ErrNo>)
    requires fs != null ==> fs.Sane()
    modifies fs
    ensures fs == null ==> failed && err == Some(FsArg)
    ensures fs != null && fs.journInum != inum ==> failed && err == Some(FsArg) && fs.jinfo == old(fs.jinfo)
    ensures fs != null && fs.journInum == inum ==> fresh(fs.jinfo) && OpenedAs(fs, inum, failed, err)
  {
    if fs == null {
      return true, Some(FsArg);
    }
    if fs.journInum != inum {
      return true, Some(FsArg);
    }
    var jinfo := new JInfo();
    fs.jinfo := jinfo;
    if inum >= |fs.blocks| {
      return true, Some(FsFwalk);
    }
    var _ := fs.LoadJInfoBlockAction(fs.blocks[inum]);
    if jinfo.jInum >= |fs.blocks| {
      return true, None;
    }
    var bytes := fs.blocks[jinfo.jInum];
    var block := new byte[fs.blockSize](i requires 0 <= i < |bytes| => bytes[i]);
    assert block[..] == bytes;
    var ret;
    ret, err := fs.LoadJHeaderAction(block);
    failed := ret != Stop;
  }

  /** What `hfs_jopen` leaves behind once its arguments pass: the journal info block must
      be on the volume, then the journal's first block, then its header must be accepted;
      the journal info holds what the steps before the failing one read. */
  ghost predicate OpenedAs(fs: HfsInfo, inum: nat, failed: bool, err: Option<ErrNo>)
    requires fs.Sane() && fs.jinfo != null
    reads fs, fs.jinfo
  {
    var ji := fs.jinfo;
    var il := fs.lay.info;
    if inum >= |fs.blocks| then failed && err == Some(FsFwalk) && ji.Holds(0, 0, 0, 0, 0, 0)
    else
      var offs := Uint(fs.endian, fs.blocks[inum], il.offsAt, 8);
      DivNat(offs, fs.blockSize);
      var jInum := offs / fs.blockSize;
      var size := Uint(fs.endian, fs.blocks[inum], il.sizeAt, 8);
      if jInum >= |fs.blocks| then failed && err == None && ji.Holds(jInum, size, 0, 0, 0, 0)
      else
        match CheckHeader(fs.HeaderBytes(jInum), fs.lay.header, size)
        case Accepted(h) =>
          !failed && err == None && ji.Holds(jInum, h.size, h.start, h.end, h.blhdrSize, h.jhdrSize)
        case _ => failed && err == Some(FsCorrupt) && ji.Holds(jInum, size, 0, 0, 0, 0)
  }

  /** The journal info describes a journal the reader can load and walk. */
  predicate WalkReady(fs: HfsInfo)
    requires fs.jinfo != null
    reads fs, fs.jinfo
  {
    fs.Sane() && Loadable(fs.Geo()) && Walkable(fs.Geo(), fs.lay.list)
  }

  /** `hfs_jentry_walk`: refuses a journal that is not open, loads the journal into the
      linear buffer (failing when it does not lie on the volume), and walks it, reporting
      every line it prints and how the walk ends. */
  method JEntryWalk(fs: HfsInfo) returns (failed: bool, err: Option<ErrNo>, lines: seq<Line>, outcome: Outcome)
    requires fs.jinfo != null ==> WalkReady(fs)
    ensures fs.jinfo == null ==> failed && err == Some(FsArg) && lines == []
    ensures fs.jinfo != null ==> (failed <==> !OnDisk(fs.Geo(), fs.blocks))
    ensures fs.jinfo != null && failed ==> err == Some(FsFwalk) && lines == []
    ensures fs.jinfo != null && !failed ==>
      (var buf := Linearized(fs.blocks, fs.Geo());
       err == None && Report(lines, outcome) == WalkFrom(buf, fs.Geo(), fs.lay.list, Valid(buf, fs.lay.list), 0, 0))
  {
    if fs.jinfo == null {
      return true, Some(FsArg), [], Exhausted;
    }
    var g := fs.Geo();
    var buffer, ok := LoadLinearBuffer(fs.blocks, g);
    if !ok {
      return true, Some(FsFwalk), [], Exhausted;
    }
    lines, outcome := WalkLines(buffer, g, fs.lay.list);
    failed, err := false, None;
  }

  /** `hfs_jblk_walk(fs, start, end)`: refuses a journal that is not open and a range of
      more than one block, refuses a block at or past the journal's block count, and
      otherwise writes out volume block `start + j_inum` (the returned bytes), failing
      when that block is not on the volume. */
  method JBlkWalk(fs: HfsInfo, start: nat, end: nat) returns (failed: bool, err: Option<ErrNo>, written: seq<byte>)
    requires 0 < fs.blockSize
    ensures failed ==> written == []
    ensures fs.jinfo == null || start != end ==> failed && err == Some(FsArg)
    ensures fs.jinfo != null && start == end ==>
      var last := fs.jinfo.size / fs.blockSize;
      var addr := start + fs.jinfo.jInum;
      && (end >= last ==> failed && err == Some(FsWalkRng))
      && (end < last && addr >= |fs.blocks| ==> failed && err == Some(FsFwalk))
      && (end < last && addr < |fs.blocks| ==> !failed && err == None && written == fs.blocks[addr])
  {
    if fs.jinfo == null {
      return true, Some(FsArg), [];
    }
    if start != end {
      return true, Some(FsArg), [];
    }
    var last := fs.jinfo.size / fs.blockSize;
    if end >= last {
      return true, Some(FsWalkRng), [];
    }
    var s, e := start + fs.jinfo.jInum, end + fs.jinfo.jInum;
    if s >= |fs.blocks| || e >= |fs.blocks| {
      return true, Some(FsFwalk), [];
    }
    // load_jblockwrite_action writes the one block out and stops the walk
    return false, None, fs.blocks[s];
  }
}
