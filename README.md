# HFS+ journal reader

A model of the journal reader of The Sleuth Kit's HFS+ support (`tsk/fs/hfs_journal.c`).
The journal of an HFS+ volume is a circular log. The volume's journal info block says
where the log lies on the volume and how large it is. Block 0 of the log starts with the
journal header, which records the log's size and two cursors, `start` and `end`, that
bound the transactions not yet applied to the volume. Each transaction begins with a
block-list header. That header names the sectors the transaction writes, one `binfo`
entry per sector run, with their sizes.

The reader does the following:

- opens the journal (`hfs_jopen`). It reads the journal info block, then validates the
  journal header: first its size, then its checksum (`hfs_calc_checksum`).
- copies the log into a linear buffer that starts at `start` and skips the header
  (`load_jloader_action`, driven by two block walks).
- walks that buffer and prints one line per block touched. A line is one of:
  - an unused block;
  - a block of a block-list header;
  - a block written by a transaction, with its sector and whether the transaction is
    still active.

  A header that fails its checksum test (`hfs_test_checksum_jblock`) makes the walk skip
  forward byte by byte. A header claiming more bytes than the log has left ends the walk.
- writes out a single journal block on request (`hfs_jblk_walk`).

The model is imperative where the source is:

- `HfsInfo` and `JInfo` are classes whose methods assign the journal info's fields.
- The checksum and the two checksum tests loop over arrays. They clear the checksum
  field in place, and the block-list test restores it.
- The loader copies blocks into an array with `memcpy`.
- The transaction walk is a set of methods with loops over the linear buffer.

Each method is proved against a pure specification: `Checksum`, `Stored`, `Linearized`,
`CheckHeader` and the walk functions `Iteration` and `WalkFrom`. The properties the source
promises are proved about those functions as lemmas.

Printed lines become values of type `Line`. Each records:

- its kind: unused, list header, or write to a sector;
- the block number and the in-block offset printed;
- the transaction count;
- the activity flag.

The walk returns the sequence of lines and how it ended.

The journal's byte order is little-endian. The info block is read in the volume's byte
order. The layouts of `hfs_journ_sb`, `hfs_journal_header` and `j_block_list_header` are
defined in `tsk_hfs.h`, which is not part of this model. Their field offsets are therefore
parameters (`Layout.Layout`), constrained only to fit their structs and not to overlap
the checksum field. The volume is a sequence of equally sized blocks. A block walk over
`[lo, hi]` fails when `hi` lies past the last block. Otherwise it calls the callback on
every block in ascending order.

Where the code and the journal format's own description differ, the model follows the
code:

- Past the wrap, `real_offset` is `j_inum * block_size + offset + jhdr_size`
  (lines 393-394). It is not the journal offset `offset - (size - start) + jhdr_size`.
  `Position.RealOffsetAt` states exactly how far apart the two are. A position past the
  wrap whose `real_offset` reaches the journal's end counts as active exactly when the live
  range wraps, for `end` inside the journal (`Position.ActiveAfterWrap`). That is every
  such position when `j_inum * block_size + jhdr_size >= start`. Otherwise the position
  is judged from a volume-relative number. It can then be reported active or inactive
  regardless of the live range (`Position.ActivePastWrapMisjudged` gives one input of each
  kind).
- `block_offset` takes its first formula up to and including `size - start` (line 383),
  while `blocknumber` switches formulas one byte earlier (line 371). At that one position
  the printed in-block offset is 0 (`Position.BlockOffsetLocates`).
- In the end-of-log branch, line 447 prints `block_offset` where the block number
  belongs. The model keeps this: such a line carries 0 as its block
  (`Walk.EndLinesUnused`).
- `load_jheader_action` clears the checksum bytes of the header block and never restores
  them.
- `hfs_jopen` installs the journal info before loading it. After a failure the info
  stays allocated and holds whatever the steps before the failure read.

## Model

| member | source | states |
|---|---|---|
| Checksum.CalcChecksum | tsk/fs/hfs_journal.c:15-23 | returns the checksum of the `len` bytes from `from`: the complement, cut to 32 bits, of the accumulator folded from 0 by `acc = (acc << 8) ^ (acc + b)` |
| Checksum.ChecksumOfEmpty | tsk/fs/hfs_journal.c:15-23 | the checksum of an empty range is `0xFFFFFFFF` |
| Checksum.Zeroed | tsk/fs/hfs_journal.c:31-34 | clearing the field yields bytes equal to the struct's except the four at the checksum field, which are 0 |
| Checksum.TestChecksumJBlock | tsk/fs/hfs_journal.c:25-48 | answers 0 exactly when the stored little-endian checksum equals the checksum of the header with its field cleared, and 1 otherwise; on both outcomes the array ends up exactly as it started |
| Checksum.SealedKeepsFields | tsk/fs/hfs_journal.c:25-48 | writing the checksum into a struct changes only the checksum field |
| Checksum.SealedValidates | tsk/fs/hfs_journal.c:25-48 | a struct whose checksum field holds its honest checksum passes the test |
| Checksum.ZeroedInPlace | tsk/fs/hfs_journal.c:31-37 | clearing the field's bytes inside the buffer clears them in the struct's slice, which is what the checksum is computed over |
| Journal.HeaderFields | tsk/fs/hfs_journal.c:220-224 | the header's size, `start` and `end` fit in 64 bits and its two sizes fit in 32 bits |
| Journal.CheckHeader | tsk/fs/hfs_journal.c:188-226 | the verdict is a size mismatch exactly when the header's size differs from the journal info's. It is a bad checksum exactly when the size matches and the checksum test fails. An accepted header has the expected size and a valid checksum |
| Journal.Verdict | tsk/fs/hfs_journal.c:203-214 | once the size matches, the header is accepted with its fields exactly when the stored checksum equals the recomputed one, and is otherwise refused for its checksum |
| Journal.ZeroedKeeps | tsk/fs/hfs_journal.c:205-207 | clearing the checksum field leaves every field that does not overlap it with the same value |
| Journal.ZeroingKeepsFields | tsk/fs/hfs_journal.c:205-224 | the fields read after the clearing are the ones stored in the header |
| Journal.SealedHeaderAccepted | tsk/fs/hfs_journal.c:188-226 | a header with the journal's size and an honest checksum is accepted, carrying exactly the fields it was written with |
| Journal.JInfo.constructor | tsk/fs/hfs_journal.c:252 | a newly allocated journal info is all zero |
| Journal.JInfo.Fill | tsk/fs/hfs_journal.c:220-224 | the header's size, cursors and header sizes replace the journal info's; `j_inum` is kept |
| Journal.HfsInfo.LoadJInfoBlockAction | tsk/fs/hfs_journal.c:54-70 | `j_inum` becomes the journal's volume byte offset divided by the block size, and `journal_size` becomes the stored size, both in the volume's byte order. Block `j_inum` holds the byte at that offset, and starts at it exactly when the offset is block-aligned. The other fields are kept and the answer is STOP |
| Journal.HfsInfo.LoadJHeaderAction | tsk/fs/hfs_journal.c:169-227 | a header whose size mismatches is refused with `FsCorrupt`, and the block is left alone. Otherwise the checksum field is cleared and stays cleared, and a bad checksum is refused with `FsCorrupt`. On both refusals the journal info is unchanged. An accepted header answers STOP and sets the journal info's size, cursors and header sizes to the header's little-endian fields |
| Journal.ClearField | tsk/fs/hfs_journal.c:205-207 | the block afterwards is the block with exactly the four field bytes cleared |
| Journal.JOpen | tsk/fs/hfs_journal.c:231-284 | a null volume and a wrong inode number are refused with `FsArg`, and in that case the journal info is untouched. Otherwise a fresh journal info is installed, and the result follows `OpenedAs`: `FsFwalk` when the info block is off the volume; a failure with the block walk's own error when the journal's first block is off the volume; `FsCorrupt` when `CheckHeader` refuses the header; success with the header's fields otherwise |
| Journal.JEntryWalk | tsk/fs/hfs_journal.c:290-552 | a journal that is not open is refused with `FsArg`. Loading fails with `FsFwalk` exactly when the journal is not on the volume. Otherwise the lines and the outcome are those of `WalkFrom` over the linearized journal |
| Journal.JBlkWalk | tsk/fs/hfs_journal.c:554-614 | a journal that is not open, or a range of more than one block, is refused with `FsArg`. A block at or past `journal_size / block_size` is refused with `FsWalkRng`. A journal block off the volume fails with `FsFwalk`. Otherwise exactly volume block `start + j_inum` is written out, and nothing is written on failure |
| Geometry.SourceOffset | tsk/fs/hfs_journal.c:101-160 | the journal offset a linear index holds lies inside the journal |
| Geometry.LinearIndex | tsk/fs/hfs_journal.c:101-160 | a log byte of the journal goes to an index inside the linear buffer |
| Geometry.RotationInverse | tsk/fs/hfs_journal.c:101-160 | the rotation between log bytes `[jhdr_size, size)` and linear indices `[0, size - jhdr_size)` is a bijection: the two maps are inverse |
| Geometry.Linearized | tsk/fs/hfs_journal.c:316-317 | the intended buffer is `journal_size - jhdr_size` bytes long |
| Geometry.LinearizedRotates | tsk/fs/hfs_journal.c:101-160 | a journal byte at `p` lands at `p - start` when `p >= start`, and at `p - start + size - jhdr_size` when it lies between the header and `start` |
| Loader.Place | tsk/fs/hfs_journal.c:118-158 | picks the branch a block takes, with the tests of lines 119, 129 and 135; that the error branch is taken exactly past the journal's end is `Loader.OutsideIffPastEnd`, and what each branch stores is `Loader.TargetIsRotation` |
| Loader.Target | tsk/fs/hfs_journal.c:118-158 | each branch copies from inside the block |
| Loader.Stored | tsk/fs/hfs_journal.c:101-160 | the callback leaves the buffer's length unchanged |
| Loader.LoadJLoaderAction | tsk/fs/hfs_journal.c:101-160 | the buffer afterwards is `Stored`: every targeted index holds its block byte and every other index keeps its byte. The answer is WALK_ERROR exactly for a block past the journal's end, and CONT otherwise |
| Loader.CopyStraddle | tsk/fs/hfs_journal.c:119-128 | the block's tail goes to the buffer's front, and its head goes to the last `offset` bytes |
| Loader.CopyForward | tsk/fs/hfs_journal.c:129-134 | a block from `start` up to the journal's end is copied whole to `block_off - start` |
| Loader.CopyWrapped | tsk/fs/hfs_journal.c:135-154 | block 0 stores its bytes past the header right behind the bytes from `start` on. When the header fills the block, nothing is stored. A later block before `start` follows block 0 whole |
| Loader.StraddleTest | tsk/fs/hfs_journal.c:119 | the unsigned test `start - block_off < block_size` holds exactly for the block holding `start` |
| Loader.Copy | tsk/fs/hfs_journal.c:123-153 | a `memcpy` keeps the buffer's length |
| Loader.CopyBytes | tsk/fs/hfs_journal.c:123-153 | `memcpy` replaces exactly the `len` bytes from `at` with the source bytes and leaves every other byte alone |
| Loader.Memcpy | tsk/fs/hfs_journal.c:123-153 | the array afterwards is `Copy` of its former bytes |
| Loader.StraddleStored | tsk/fs/hfs_journal.c:119-128 | the straddling branch's two copies store exactly what `Stored` says |
| Loader.ForwardStored | tsk/fs/hfs_journal.c:129-134 | the forward branch's copy stores exactly what `Stored` says |
| Loader.WrappedStored | tsk/fs/hfs_journal.c:148-154 | the copy of a block between the header and `start` stores exactly what `Stored` says |
| Loader.HeaderStored | tsk/fs/hfs_journal.c:139-147 | block 0's copy skips the header and stores exactly what `Stored` says, and stores nothing when the header fills the block |
| Loader.OutsideStored | tsk/fs/hfs_journal.c:155-158 | a block in none of the branches lies past the journal and stores nothing |
| Loader.OutsideIffPastEnd | tsk/fs/hfs_journal.c:118-158 | a block takes none of the three copying branches exactly when it lies past the end of the journal |
| Loader.TwoBlocks | tsk/fs/hfs_journal.c:135-154 | a journal whose `start` lies past block 0 spans at least two blocks |
| Loader.BlockStart | tsk/fs/hfs_journal.c:112-113 | block `k`'s first byte is inside the journal exactly when `k` is below the block count |
| Loader.JournalBlockOffset | tsk/fs/hfs_journal.c:112-113 | `block_off` of a journal block fits in 64 bits |
| Loader.TargetIsRotation | tsk/fs/hfs_journal.c:101-160 | the callback for block `k` stores, at linear index `i`, exactly the byte of the block at journal offset `SourceOffset(i)`. It stores nothing there when that offset lies in another block |
| Loader.BlockFills | tsk/fs/hfs_journal.c:101-160 | block `k` writes index `i` exactly when it holds the index's journal byte, and then it writes the linearized byte |
| Loader.InBlockIff | tsk/fs/hfs_journal.c:112-119 | offset `p` lies in block `k` exactly when `p / b == k`, at offset `p % b` |
| Loader.WrittenOnce | tsk/fs/hfs_journal.c:101-160 | every linear index is written by exactly one journal block |
| Loader.BlockOfIndex | tsk/fs/hfs_journal.c:101-160 | the block holding an index's journal byte is a journal block |
| Loader.LoaderWalk | tsk/fs/hfs_journal.c:328-343 | a walk over `[lo, hi]` fails exactly when `hi` is off the volume, and then leaves the buffer alone. Otherwise every index of the blocks walked holds its linearized byte, and every other index keeps its byte |
| Loader.WalkStep | tsk/fs/hfs_journal.c:328-343 | one callback extends the filled range by its block |
| Loader.FilledAt | tsk/fs/hfs_journal.c:328-343 | an index inside the filled range holds its wanted byte, and one outside keeps its former byte |
| Loader.PassesCover | tsk/fs/hfs_journal.c:323-343 | the two passes, from `start`'s block to the end and then from block 0 up to `start`'s block, together fill every index |
| Loader.LoadLinearBuffer | tsk/fs/hfs_journal.c:316-343 | the fresh buffer has `journal_size - jhdr_size` bytes. Loading succeeds exactly when the journal lies on the volume, and then the buffer is the rotated journal |
| Position.BlockNumber | tsk/fs/hfs_journal.c:371-379 | `blocknumber` fits in 32 bits |
| Position.BlockOffset | tsk/fs/hfs_journal.c:383-388 | `block_offset` is below the block size |
| Position.RealOffset | tsk/fs/hfs_journal.c:390-395 | `real_offset` as the code computes it on both sides of the wrap; its relation to the journal offset is stated by `Position.RealOffsetAt` |
| Position.Active | tsk/fs/hfs_journal.c:396-407 | the activity test on `start` and `end`; what it means is stated by `Position.ActiveIsCircular`, `Position.ActiveBeforeWrap` and `Position.ActiveAfterWrap` |
| Position.BlockNumberLocates | tsk/fs/hfs_journal.c:371-379 | `blocknumber` is the block holding the byte at `offset`; the reset to 0 only ever hits block 0 |
| Position.BlockOffsetLocates | tsk/fs/hfs_journal.c:383-388 | `block_offset` is the in-block offset of the byte at `offset`, except at `size - start`, where it is 0 although the byte lies right after the header |
| Position.RealOffsetAt | tsk/fs/hfs_journal.c:390-395 | before the wrap `real_offset` is the journal offset. Past the wrap it exceeds the journal offset by `j_inum * block_size + size - start`. It never wraps in 64 bits |
| Position.ActiveIsCircular | tsk/fs/hfs_journal.c:396-407 | when `end` lies inside the journal: for journal offsets the activity test is membership in the live range from `start` forward to `end`, with `start == end` counting as empty, and an offset beyond the journal is active exactly when the live range wraps. When `end` lies at or past the journal's end, the test is `start <= x < end` |
| Position.ActiveBeforeWrap | tsk/fs/hfs_journal.c:390-407 | before the wrap, a position is active exactly when its journal byte lies in the live range; when `end` lies at or past the journal's end, every such position is active |
| Position.ActiveAfterWrap | tsk/fs/hfs_journal.c:390-407 | past the wrap, `real_offset` reaches the journal's end exactly when `offset + j_inum * block_size + jhdr_size >= journal_size`, which holds everywhere when `j_inum * block_size + jhdr_size >= start`. There a position is active exactly when the live range wraps, or, for `end` at or past the journal's end, exactly when `real_offset < end` |
| Position.ActivePastWrapMisjudged | tsk/fs/hfs_journal.c:390-407 | two concrete journals where a position past the wrap is reported inactive although its journal byte is live, and active although it is not |
| Walk.Valid | tsk/fs/hfs_journal.c:410 | the table of checksum answers has one entry per buffer position |
| Walk.ValidAt | tsk/fs/hfs_journal.c:410-428 | the answer at a position is the block-list checksum test of the header there, which must lie in the buffer |
| Walk.NextBlockZero | tsk/fs/hfs_journal.c:453-458 | the incremented `blocknumber` comes back to 0 exactly when the 32-bit incremented value is a multiple of the block count |
| Walk.SkipFrom | tsk/fs/hfs_journal.c:424-432 | the skip over a bad header with `bytes_left` steps allowed moves at least one byte and at most `bytes_left` bytes. It ends in an overrun exactly when the header where it stops does not fit in the buffer |
| Walk.SkipLands | tsk/fs/hfs_journal.c:424-432 | every position the skip passes over fails the test. When the skip stops before its reach, it stops at a header that passes |
| Walk.HeaderLines | tsk/fs/hfs_journal.c:464-488 | the in-block offset after the header lines is below the block size |
| Walk.EndLines | tsk/fs/hfs_journal.c:437-461 | the unused lines of the end-of-log branch; stated by `Walk.EndLinesUnused` |
| Walk.WriteLines | tsk/fs/hfs_journal.c:498-543 | the write lines of one entry; stated by `Walk.WriteLinesAdvance` |
| Walk.Entries | tsk/fs/hfs_journal.c:497-545 | the entry loop of one transaction; stated by `Walk.EntriesAdvance` and `Walk.EntriesTagged` |
| Walk.Iteration | tsk/fs/hfs_journal.c:367-548 | a pass that goes on moves `offset` forward |
| Walk.Transaction | tsk/fs/hfs_journal.c:463-548 | a transaction that goes on moves `offset` forward |
| Walk.WalkFrom | tsk/fs/hfs_journal.c:345-551 | the whole transaction loop from one position on, one `Iteration` after another; what each pass does is stated by `Walk.BadHeaderSkips`, `Walk.EndOfLogStops`, `Walk.ValidHeaderTransacts` and `Walk.TransactionAdvances` |
| Walk.EntriesAdvance | tsk/fs/hfs_journal.c:493-545 | the entry loop completes exactly when every field it reads lies in the buffer. Then it has moved `offset` past the sum of the positive entry sizes |
| Walk.WriteLinesAdvance | tsk/fs/hfs_journal.c:498-543 | an entry of `bsize` bytes moves `offset` by exactly `bsize`, or by nothing when `bsize` is not positive. It prints a line exactly when `bsize` is positive, and each line writes the entry's sector with the transaction's count and activity |
| Walk.EndLinesUnused | tsk/fs/hfs_journal.c:437-461 | the end-of-log branch prints at least one line, all of them unused. A line whose in-block offset is 0 prints 0 as its block number |
| Walk.HeaderLinesTagged | tsk/fs/hfs_journal.c:464-488 | a block-list header prints at least one line exactly when `blhdr_size` is positive, and every line is a header line with the transaction's count and activity |
| Walk.EntriesTagged | tsk/fs/hfs_journal.c:497-545 | the entries from `binfo[j]` on print only write lines, each to the sector of one of those entries with a positive size and with the transaction's count and activity. With `j = 1`, entry 0 is never reported |
| Walk.BadHeaderSkips | tsk/fs/hfs_journal.c:410-434 | a header that fails its checksum prints one unused line and keeps the count. The walk goes on between 1 and `block_size - block_offset` bytes further, past positions that all fail, and lands at a header that passes when one lies within that reach. It stops only at a read past the buffer |
| Walk.EndOfLogStops | tsk/fs/hfs_journal.c:436-461 | a valid header whose `bytes_used` exceeds what is left of the journal ends the walk after printing only unused lines, without decoding the transaction |
| Walk.ValidHeaderTransacts | tsk/fs/hfs_journal.c:409-548 | a valid header whose `bytes_used` fits starts a transaction at the position's block number, in-block offset and activity |
| Walk.TransactionAdvances | tsk/fs/hfs_journal.c:463-548 | a transaction goes on exactly when every entry field it reads lies in the buffer. It then moves `offset` by exactly `blhdr_size` plus the entries' payload and increments the count by one (in 32 bits). It prints its header lines first and then only writes to its entries' sectors |
| EntryWalk.BadHeader | tsk/fs/hfs_journal.c:410 | the checksum test answers "bad" exactly as the table entry for the position says, and the buffer is left unchanged |
| EntryWalk.SkipBadHeader | tsk/fs/hfs_journal.c:424-432 | the byte-by-byte skip stops where `SkipFrom` says, and the buffer is left unchanged |
| EntryWalk.EmitEnd | tsk/fs/hfs_journal.c:441-460 | prints exactly the end-of-log lines |
| EntryWalk.EndStep | tsk/fs/hfs_journal.c:443-458 | one pass prints the first end-of-log line and leaves the rest to the following passes |
| EntryWalk.EmitHeader | tsk/fs/hfs_journal.c:464-488 | prints exactly the header lines and ends at the block number and in-block offset `HeaderLines` gives |
| EntryWalk.HeaderStep | tsk/fs/hfs_journal.c:466-487 | one pass prints the first header line and leaves the rest to the following passes |
| EntryWalk.EmitWrites | tsk/fs/hfs_journal.c:500-543 | prints exactly the write lines of one entry and ends at the offset and block number `WriteLines` gives |
| EntryWalk.WriteStep | tsk/fs/hfs_journal.c:502-542 | one pass prints the first write line and leaves the rest to the following passes |
| EntryWalk.EmitEntries | tsk/fs/hfs_journal.c:497-545 | the entry loop prints exactly what `Entries` prints from `binfo[1]` on, and ends where it ends |
| EntryWalk.EntryStep | tsk/fs/hfs_journal.c:498-543 | one entry either overruns exactly as `Entries` does, or prints its lines and leaves the rest to the following entries |
| EntryWalk.Transact | tsk/fs/hfs_journal.c:463-548 | a decoded transaction is exactly `Transaction` |
| EntryWalk.Iterate | tsk/fs/hfs_journal.c:367-548 | one pass of the loop is exactly `Iteration`, and the buffer is left unchanged |
| EntryWalk.WalkLines | tsk/fs/hfs_journal.c:345-551 | the whole loop prints exactly the lines of `WalkFrom` from position 0 with count 0 and ends as it does. The buffer is left unchanged |

## Left out

- Output: `tsk_printf`, `tsk_fprintf` and the `fwrite` to stdout become the returned
  `Line` sequence and the bytes `JBlkWalk` returns. A failing `fwrite` in
  `load_jblockwrite_action` and the `free` it then calls are not modelled.
- Error plumbing: `tsk_error_reset` and the error strings are left out. The error number
  is a result value. `None` means the error number set by the failing block walk is kept,
  and that walk is not part of this model.
- Allocation: `tsk_malloc` failures are left out. The linear buffer `hfs_jentry_walk`
  never frees is left out.
- The block walk's flags: every block counts as allocated. `tsk_fs_block_walk` itself is
  not part of this model. Its range check is taken to be "the last block asked for lies
  on the volume".
- Unchecked reads: block-list headers and `binfo` entries read past the linear buffer are
  undefined in the source. The model stops the walk there, with outcome `Overrun`.
- Degenerate geometry is excluded by preconditions rather than modelled:
  - `jhdr_size >= block_size`, where the inner loops spin (`Walk.Walkable`);
  - `blhdr_size == 0`, where the walk can stall;
  - `start` inside block 0, where the loader's second pass has a reversed range
    (`Geometry.Loadable`);
  - a journal that is not a whole number of blocks, or that is so large that 64-bit
    offsets wrap;
  - a `start` at or past `journal_size` (`Geometry.Region`). Neither `hfs_jopen` nor the
    walks guard against it. With it, the third branch of `load_jloader_action`
    (lines 148-154) computes `journal_size - start + block_off - block_size + len` in
    uint64 arithmetic, which wraps around, and copies outside the buffer. The `end`
    cursor carries no such bound: the walk only compares it with offsets.
- Dead code: the test `offset > journal_size` at line 414 never holds inside the loop. In
  `hfs_jblk_walk`, the test `start < 0` on an unsigned value at line 581 never holds.
- Setting `block_offset = jhdr_size` in the entry loop (line 540) is dead: `block_offset`
  is recomputed before it is next read.
- In `hfs_jentry_walk` and `hfs_jblk_walk`, `hfs` is dereferenced before it is tested for
  NULL, so the models of these two take a non-null volume.
- JBlkWalk: does not model the `int` truncation of `last_jblock` (line 588), since it only
  matters for journals of 2^31 blocks or more.
- The two pure walk functions take the answers of the block-list checksum test as a table
  (`Walk.Valid`). The loop's control flow depends on a header's bytes only through that
  answer and the header's fields. `Walk.ValidAt` ties each entry to the test.
- The walk methods are split into one method per inner loop and one per loop pass. Each
  keeps the source's variables and branch order.
