/** Byte layouts of the three on-disk structures the journal reader casts block bytes to
    (`hfs_journ_sb`, `hfs_journal_header`, `j_block_list_header`). Their definitions live
    in tsk_hfs.h, which is not part of this model, so every offset is a parameter. */
module Layout {

  /** The journal info block: byte offsets of the journal's 8-byte volume offset (`offs`)
      and its 8-byte size. */
  datatype InfoBlockLayout = InfoBlockLayout(offsAt: nat, sizeAt: nat)

  /** The journal header: its `sizeof`, which is the checksummed length, and the byte
      offsets of `start`, `end`, `size` (8 bytes each), `blhdr_size`, `checksum` and
      `jhdr_size` (4 bytes each). */
  datatype HeaderLayout = HeaderLayout(
    structSize: nat, startAt: nat, endAt: nat, sizeAt: nat,
    blhdrSizeAt: nat, checksumAt: nat, jhdrSizeAt: nat)

  /** The block-list header: its `sizeof` (the checksummed length), the offsets of
      `num_blocks` (2 bytes), `bytes_used` and `checksum` (4 bytes each), of the `binfo[]`
      array, the size of one `binfo` entry, and within an entry the offsets of `bnum`
      (8 bytes) and `bsize` (4 bytes). */
  datatype ListLayout = ListLayout(
    structSize: nat, numBlocksAt: nat, bytesUsedAt: nat, checksumAt: nat,
    binfoAt: nat, binfoSize: nat, bnumAt: nat, bsizeAt: nat)

  datatype Layout = Layout(info: InfoBlockLayout, header: HeaderLayout, list: ListLayout)

  predicate Disjoint(a: nat, wa: nat, b: nat, wb: nat)
  {
    a + wa <= b || b + wb <= a
  }

  /** Every header field lies inside the struct and none overlaps the checksum field,
      which `load_jheader_action` clears before it reads the others. */
  predicate HeaderLayoutOk(h: HeaderLayout)
  {
    && h.startAt + 8 <= h.structSize && h.endAt + 8 <= h.structSize
    && h.sizeAt + 8 <= h.structSize && h.blhdrSizeAt + 4 <= h.structSize
    && h.checksumAt + 4 <= h.structSize && h.jhdrSizeAt + 4 <= h.structSize
    && Disjoint(h.checksumAt, 4, h.startAt, 8) && Disjoint(h.checksumAt, 4, h.endAt, 8)
    && Disjoint(h.checksumAt, 4, h.sizeAt, 8) && Disjoint(h.checksumAt, 4, h.blhdrSizeAt, 4)
    && Disjoint(h.checksumAt, 4, h.jhdrSizeAt, 4)
  }

  /** The fixed block-list header fields lie inside the struct; both entry fields lie
      inside one entry. */
  predicate ListLayoutOk(l: ListLayout)
  {
    && l.numBlocksAt + 2 <= l.structSize && l.bytesUsedAt + 4 <= l.structSize
    && l.checksumAt + 4 <= l.structSize
    && 0 < l.binfoSize && l.bnumAt + 8 <= l.binfoSize && l.bsizeAt + 4 <= l.binfoSize
  }

  /** The layouts are consistent and the two structs read straight from a volume block
      fit in one block of `blockSize` bytes. */
  predicate LayoutOk(lay: Layout, blockSize: nat)
  {
    && lay.info.offsAt + 8 <= blockSize && lay.info.sizeAt + 8 <= blockSize
    && HeaderLayoutOk(lay.header) && lay.header.structSize <= blockSize
    && ListLayoutOk(lay.list)
  }
}
