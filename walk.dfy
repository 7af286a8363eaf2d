/** What the transaction loop of `hfs_jentry_walk` (tsk/fs/hfs_journal.c lines 346-551)
    reports about the linear buffer: the lines it prints, as records, and how it ends.
    Each function here describes one of the loop's phases, as a value; the methods of
    module EntryWalk run the same phases step by step and are proved equal to them. */
module Walk {
  import opened Arith
  import opened Bytes
  import opened Layout
  import opened Geometry
  import opened Checksum
  import opened Position

  /** What a printed line reports. */
  datatype Kind = Unused | ListHeader | Write(sector: nat)

  /** One printed line: its kind, the block number printed, the offset within the block
      (printed as `(+n)` when it is not 0), and the transaction count and activity in force
      when it was printed. Header lines print both, write lines print the activity, unused
      lines neither. */
  datatype Line = Line(kind: Kind, block: nat, within: nat, trans: nat, active: bool)

  /** How the walk ends: the loop condition fails, the end-of-log branch returns, or the
      walk would read a block-list header or a block-info entry past the buffer's end. */
  datatype Outcome = Exhausted | EndOfLog | Overrun(at: nat)

  /** Where the skip over a bad header stops: at a position, or at a read past the end. */
  datatype Landing = Landed(at: nat) | SkipOverrun(at: nat)

  /** Lines printed while `blocknumber` and `block_offset` move on. */
  datatype Emitted = Emitted(lines: seq<Line>, bn: nat, bo: nat)

  /** Lines printed while `offset` and `blocknumber` move on. */
  datatype Advance = Advance(lines: seq<Line>, offset: nat, bn: nat)

  /** The block-info entries of one transaction: all processed, or a read past the end. */
  datatype TxEnd = TxDone(lines: seq<Line>, offset: nat, bn: nat) | TxOverrun(lines: seq<Line>, at: nat)

  /** One pass of the loop: it goes on from `offset` with `trans`, or the walk ends. */
  datatype Step = Next(lines: seq<Line>, offset: nat, trans: nat) | Last(lines: seq<Line>, outcome: Outcome)

  /** Everything the walk prints, and how it ends. */
  datatype Report = Report(lines: seq<Line>, outcome: Outcome)

  /** The geometry the loop needs to make progress: the journal header is shorter than a
      block (otherwise `blocksize - block_offset` can be 0 and the inner loops spin) and a
      block-list header takes at least one byte. */
  predicate Walkable(g: Geometry, lay: ListLayout)
  {
    Region(g) && g.jhdrSize < g.blockSize && 1 <= g.blhdrSize && ListLayoutOk(lay)
  }

  /** The block-list header at `at` lies inside the buffer. */
  predicate HeaderFits(buf: seq<byte>, lay: ListLayout, at: nat)
  {
    at + lay.structSize <= |buf|
  }

  /** `hfs_test_checksum_jblock` accepts the block-list header at `at`. */
  predicate HeaderValid(buf: seq<byte>, lay: ListLayout, at: nat)
    requires ListLayoutOk(lay) && HeaderFits(buf, lay, at)
  {
    ChecksumValid(buf[at..at + lay.structSize], lay.checksumAt)
  }

  /** The answer of the checksum test at every position of the buffer: the block-list
      header there lies inside the buffer and passes the test. The loop's control flow
      depends on the bytes of a header only through this answer and the header's fields,
      so the functions below take the answers as a table `valid`. */
  function Valid(buf: seq<byte>, lay: ListLayout): (valid: seq<bool>)
    requires ListLayoutOk(lay)
    ensures |valid| == |buf|
  {
    ValidPrefix(buf, lay, |buf|)
  }

  /** The answers at the first `n` positions. */
  function ValidPrefix(buf: seq<byte>, lay: ListLayout, n: nat): (valid: seq<bool>)
    requires ListLayoutOk(lay) && n <= |buf|
    ensures |valid| == n
  {
    if n == 0 then []
    else ValidPrefix(buf, lay, n - 1) + [HeaderFits(buf, lay, n - 1) && HeaderValid(buf, lay, n - 1)]
  }

  /** The answer at `q` is the checksum test of the block-list header at `q`. */
  lemma ValidAt(buf: seq<byte>, lay: ListLayout, q: nat)
    requires ListLayoutOk(lay) && q < |buf|
    ensures Valid(buf, lay)[q] <==> HeaderFits(buf, lay, q) && HeaderValid(buf, lay, q)
  {
    ValidPrefixAt(buf, lay, |buf|, q);
  }

  lemma {:induction false} ValidPrefixAt(buf: seq<byte>, lay: ListLayout, n: nat, q: nat)
    requires ListLayoutOk(lay) && q < n <= |buf|
    ensures ValidPrefix(buf, lay, n)[q] <==> HeaderFits(buf, lay, q) && HeaderValid(buf, lay, q)
  {
    if q < n - 1 {
      ValidPrefixAt(buf, lay, n - 1, q);
    }
  }

  /** Byte offset of entry `binfo[j]` of the block-list header at `h`. */
  function EntryAt(lay: ListLayout, h: nat, j: nat): nat
  {
    h + lay.binfoAt + j * lay.binfoSize
  }

  /** The `bsize` field of `binfo[j]` lies inside the buffer. */
  predicate BsizeFits(buf: seq<byte>, lay: ListLayout, h: nat, j: nat)
  {
    EntryAt(lay, h, j) + lay.bsizeAt + 4 <= |buf|
  }

  /** `(int)` of the `bsize` field of `binfo[j]`. */
  function Bsize(buf: seq<byte>, lay: ListLayout, h: nat, j: nat): int
    requires BsizeFits(buf, lay, h, j)
  {
    AsInt32(U32(buf, EntryAt(lay, h, j) + lay.bsizeAt))
  }

  /** The `bnum` field of `binfo[j]` lies inside the buffer. */
  predicate BnumFits(buf: seq<byte>, lay: ListLayout, h: nat, j: nat)
  {
    EntryAt(lay, h, j) + lay.bnumAt + 8 <= |buf|
  }

  /** The `bnum` field of `binfo[j]`: the sector the entry writes to. */
  function Bnum(buf: seq<byte>, lay: ListLayout, h: nat, j: nat): nat
    requires BnumFits(buf, lay, h, j)
  {
    U64(buf, EntryAt(lay, h, j) + lay.bnumAt)
  }

  /** Every field the loop over `binfo[j..blocks)` reads lies inside the buffer: `bsize`
      always, `bnum` for an entry with a positive size. */
  predicate EntriesFit(buf: seq<byte>, lay: ListLayout, h: nat, j: nat, blocks: nat)
    decreases blocks - j
  {
    j >= blocks ||
    (BsizeFits(buf, lay, h, j) && (Bsize(buf, lay, h, j) > 0 ==> BnumFits(buf, lay, h, j))
     && EntriesFit(buf, lay, h, j + 1, blocks))
  }

  /** The bytes the entries `binfo[j..blocks)` occupy in the log: the sum of their sizes,
      a non-positive size counting as none. */
  function Payload(buf: seq<byte>, lay: ListLayout, h: nat, j: nat, blocks: nat): nat
    requires EntriesFit(buf, lay, h, j, blocks)
    decreases blocks - j
  {
    if j >= blocks then 0
    else
      var size := Bsize(buf, lay, h, j);
      (if size > 0 then size else 0) + Payload(buf, lay, h, j + 1, blocks)
  }

  /** `blocknumber++` in a uint32_t, reset to 0 at a multiple of the block count. */
  function NextBlock(g: Geometry, bn: nat): (r: nat)
    requires Region(g)
    ensures r < TwoTo32
  {
    var w := Wrap32(bn + 1);
    if w % BlockCount(g) == 0 then 0 else w
  }

  /** `blocknumber` comes back to 0 exactly when the incremented value is a multiple of the
      block count. This only unfolds `NextBlock`; the step methods of EntryWalk use it to
      match their two-step update (increment, then reset) against the function. */
  lemma NextBlockZero(g: Geometry, bn: nat)
    requires Region(g)
    ensures NextBlock(g, bn) == 0 <==> Wrap32(bn + 1) % BlockCount(g) == 0
  {
    DivModUnique(0, BlockCount(g), 0, 0);
  }

  /** Lines 425-432: from the bad header at `at`, step one byte at a time, with `left`
      steps allowed, until a header validates. */
  function SkipFrom(buf: seq<byte>, lay: ListLayout, valid: seq<bool>, at: nat, left: nat): (r: Landing)
    requires ListLayoutOk(lay) && |valid| == |buf| && 0 < left
    ensures at < r.at <= at + left
    ensures r.SkipOverrun? <==> !HeaderFits(buf, lay, r.at)
    decreases left
  {
    var next := at + 1;
    if !HeaderFits(buf, lay, next) then SkipOverrun(next)
    else if valid[next] then Landed(next)
    else if left == 1 then Landed(next)
    else SkipFrom(buf, lay, valid, next, left - 1)
  }

  /** Lines 441-460: the unused lines printed when the transaction at hand claims more
      bytes than the journal has left. `block_offset` is kept from line to line; line 447
      prints it in place of the block number when it is 0. */
  function EndLines(g: Geometry, bn: nat, bo: nat, left: int, trans: nat, active: bool): (lines: seq<Line>)
    requires Region(g) && g.jhdrSize < g.blockSize && bo < g.blockSize
    decreases if left > 0 then left else 0
  {
    var line := Line(Unused, if bo != 0 then bn else bo, bo, trans, active);
    var rest := left - (g.blockSize - bo);
    if rest <= 0 then [line]
    else
      var next := NextBlock(g, bn);
      [line] + EndLines(g, next, if next == 0 then g.jhdrSize else bo, rest, trans, active)
  }

  /** Lines 464-488: one line per block the block-list header of `left` bytes covers. */
  function HeaderLines(g: Geometry, bn: nat, bo: nat, left: int, trans: nat, active: bool): (e: Emitted)
    requires Region(g) && g.jhdrSize < g.blockSize && bo < g.blockSize
    ensures e.bo < g.blockSize
    decreases if left > 0 then left else 0
  {
    if left <= 0 then Emitted([], bn, bo)
    else
      var line := Line(ListHeader, bn, bo, trans, active);
      var rest := left - (g.blockSize - bo);
      var bn1 := if rest >= 0 then Wrap32(bn + 1) else bn;
      var more :=
        if bn1 % BlockCount(g) == 0 then HeaderLines(g, 0, g.jhdrSize, rest, trans, active)
        else HeaderLines(g, bn1, 0, rest, trans, active);
      Emitted([line] + more.lines, more.bn, more.bo)
  }

  /** Lines 498-543 for one entry: one write line per block its `left` bytes touch,
      starting at linear position `offset`. */
  function WriteLines(g: Geometry, offset: nat, bn: nat, left: int, sector: nat, trans: nat, active: bool): (a: Advance)
    requires Region(g)
    decreases if left > 0 then left else 0
  {
    if left <= 0 then Advance([], offset, bn)
    else
      var bo := BlockOffset(g, offset);
      var line := Line(Write(sector), bn, bo, trans, active);
      var step := g.blockSize - bo;
      var offset1 := if step < left then offset + step else offset + left;
      var rest := left - step;
      var more := WriteLines(g, offset1, if rest < 0 then bn else NextBlock(g, bn), rest, sector, trans, active);
      Advance([line] + more.lines, more.offset, more.bn)
  }

  /** Lines 497-545: the entries `binfo[j..blocks)` of the header at `h`, with `offset`
      the linear position of the first payload byte. */
  function Entries(buf: seq<byte>, g: Geometry, lay: ListLayout, h: nat, j: nat, blocks: nat,
                   offset: nat, bn: nat, trans: nat, active: bool): (r: TxEnd)
    requires Region(g)
    decreases blocks - j
  {
    if j >= blocks then TxDone([], offset, bn)
    else if !BsizeFits(buf, lay, h, j) then TxOverrun([], EntryAt(lay, h, j) + lay.bsizeAt)
    else
      var left := Bsize(buf, lay, h, j);
      if left <= 0 then Entries(buf, g, lay, h, j + 1, blocks, offset, bn, trans, active)
      else if !BnumFits(buf, lay, h, j) then TxOverrun([], EntryAt(lay, h, j) + lay.bnumAt)
      else
        var w := WriteLines(g, offset, bn, left, Bnum(buf, lay, h, j), trans, active);
        Behind(w.lines, Entries(buf, g, lay, h, j + 1, blocks, w.offset, w.bn, trans, active))
  }

  /** `r` with `lines` printed before it. */
  function Behind(lines: seq<Line>, r: TxEnd): (s: TxEnd)
    ensures s.lines == lines + r.lines
    ensures s.TxDone? == r.TxDone?
    ensures s.TxDone? ==> s.offset == r.offset && s.bn == r.bn
    ensures s.TxOverrun? ==> s.at == r.at
  {
    match r
    case TxDone(ls, o, b) => TxDone(lines + ls, o, b)
    case TxOverrun(ls, at) => TxOverrun(lines + ls, at)
  }

  /** Printing `a` and then `b` before `r` is printing `a + b` before it. */
  lemma BehindJoins(a: seq<Line>, b: seq<Line>, r: TxEnd)
    ensures Behind(a, Behind(b, r)) == Behind(a + b, r)
  {
    Assoc(a, b, r.lines);
  }

  lemma Assoc(a: seq<Line>, b: seq<Line>, c: seq<Line>)
    ensures a + (b + c) == (a + b) + c
  {
  }

  /** One pass of the `while` loop at linear position `offset` with transaction count
      `trans`. */
  function Iteration(buf: seq<byte>, g: Geometry, lay: ListLayout, valid: seq<bool>, offset: nat, trans: nat): (s: Step)
    requires Walkable(g, lay) && |buf| == LinearLen(g) && |valid| == |buf| && offset < |buf|
    ensures s.Next? ==> s.offset > offset
  {
    var bn := BlockNumber(g, offset);
    var bo := BlockOffset(g, offset);
    var active := Active(g, RealOffset(g, offset));
    if !HeaderFits(buf, lay, offset) then Last([], Overrun(offset))
    else if !valid[offset] then
      var line := Line(Unused, bn, bo, trans, active);
      match SkipFrom(buf, lay, valid, offset, g.blockSize - bo)
      case Landed(p) => Next([line], p, trans)
      case SkipOverrun(p) => Last([line], Overrun(p))
    else if U32(buf, offset + lay.bytesUsedAt) > g.size - offset then
      Last(EndLines(g, bn, bo, g.size - offset, trans, active), EndOfLog)
    else Transaction(buf, g, lay, offset, trans, bn, bo, active)
  }

  /** Lines 464-548: the valid block-list header at `offset` whose transaction fits the
      journal. Its header lines, then its entries' write lines, and the count goes up. */
  function Transaction(buf: seq<byte>, g: Geometry, lay: ListLayout, offset: nat, trans: nat,
                       bn: nat, bo: nat, active: bool): (s: Step)
    requires Walkable(g, lay) && HeaderFits(buf, lay, offset) && bo < g.blockSize
    ensures s.Next? ==> s.offset > offset
  {
    var header := HeaderLines(g, bn, bo, g.blhdrSize, trans, active);
    var blocks := U16(buf, offset + lay.numBlocksAt);
    EntriesAdvance(buf, g, lay, offset, 1, blocks, offset + g.blhdrSize, header.bn, trans, active);
    match Entries(buf, g, lay, offset, 1, blocks, offset + g.blhdrSize, header.bn, trans, active)
    case TxDone(ls, o, _) => Next(header.lines + ls, o, Wrap32(trans + 1))
    case TxOverrun(ls, at) => Last(header.lines + ls, Overrun(at))
  }

  /** The walk from linear position `offset` with transaction count `trans` on. */
  function WalkFrom(buf: seq<byte>, g: Geometry, lay: ListLayout, valid: seq<bool>, offset: nat, trans: nat): (r: Report)
    requires Walkable(g, lay) && |buf| == LinearLen(g) && |valid| == |buf|
    decreases if offset < |buf| then |buf| - offset else 0
  {
    if offset >= |buf| then Report([], Exhausted)
    else
      match Iteration(buf, g, lay, valid, offset, trans)
      case Next(ls, o, t) =>
        var rest := WalkFrom(buf, g, lay, valid, o, t);
        Report(ls + rest.lines, rest.outcome)
      case Last(ls, out) => Report(ls, out)
  }

  /** The loop over `binfo[j..blocks)` completes exactly when every field it reads lies in
      the buffer, and then it has moved `offset` past the entries' payload. */
  lemma {:induction false} EntriesAdvance(buf: seq<byte>, g: Geometry, lay: ListLayout, h: nat, j: nat, blocks: nat,
                                          offset: nat, bn: nat, trans: nat, active: bool)
    requires Region(g)
    ensures var r := Entries(buf, g, lay, h, j, blocks, offset, bn, trans, active);
      (EntriesFit(buf, lay, h, j, blocks) <==> r.TxDone?) &&
      (EntriesFit(buf, lay, h, j, blocks) ==> r.TxDone? && r.offset == offset + Payload(buf, lay, h, j, blocks))
    decreases blocks - j
  {
    if j < blocks && BsizeFits(buf, lay, h, j) {
      var left := Bsize(buf, lay, h, j);
      if left <= 0 {
        EntriesAdvance(buf, g, lay, h, j + 1, blocks, offset, bn, trans, active);
      } else if BnumFits(buf, lay, h, j) {
        var w := WriteLines(g, offset, bn, left, Bnum(buf, lay, h, j), trans, active);
        WriteLinesAdvance(g, offset, bn, left, Bnum(buf, lay, h, j), trans, active);
        EntriesAdvance(buf, g, lay, h, j + 1, blocks, w.offset, w.bn, trans, active);
      }
    }
  }

  /** An entry of `left` bytes moves `offset` by exactly `left` (by nothing when `left` is
      not positive), printing at least one line exactly when `left` is positive; every
      line is a write to `sector` tagged with the transaction's count and activity. */
  lemma {:induction false} WriteLinesAdvance(g: Geometry, offset: nat, bn: nat, left: int, sector: nat, trans: nat, active: bool)
    requires Region(g)
    ensures var a := WriteLines(g, offset, bn, left, sector, trans, active);
      && a.offset == offset + (if left > 0 then left else 0)
      && (|a.lines| > 0 <==> left > 0)
      && forall i :: 0 <= i < |a.lines| ==>
           a.lines[i].kind == Write(sector) && a.lines[i].trans == trans && a.lines[i].active == active
    decreases if left > 0 then left else 0
  {
    if left > 0 {
      var bo := BlockOffset(g, offset);
      var step := g.blockSize - bo;
      var offset1 := if step < left then offset + step else offset + left;
      var rest := left - step;
      WriteLinesAdvance(g, offset1, if rest < 0 then bn else NextBlock(g, bn), rest, sector, trans, active);
    }
  }

  /** The sectors the entries `binfo[j..blocks)` with a positive size write to. */
  function Sectors(buf: seq<byte>, lay: ListLayout, h: nat, j: nat, blocks: nat): set<nat>
    decreases blocks - j
  {
    if j >= blocks then {}
    else
      var here := BsizeFits(buf, lay, h, j) && Bsize(buf, lay, h, j) > 0 && BnumFits(buf, lay, h, j);
      var rest := Sectors(buf, lay, h, j + 1, blocks);
      if here then {Bnum(buf, lay, h, j)} + rest else rest
  }

  /** The skip stops at the first position past `at` whose header validates, or after
      `left` steps, or at the first position whose header would leave the buffer. */
  lemma {:induction false} SkipLands(buf: seq<byte>, lay: ListLayout, valid: seq<bool>, at: nat, left: nat)
    requires ListLayoutOk(lay) && |valid| == |buf| && 0 < left
    ensures var r := SkipFrom(buf, lay, valid, at, left);
      && (forall q :: at < q < r.at ==> HeaderFits(buf, lay, q) && !valid[q])
      && (r.Landed? && r.at < at + left ==> valid[r.at])
    decreases left
  {
    var next := at + 1;
    if HeaderFits(buf, lay, next) && !valid[next] && left > 1 {
      SkipLands(buf, lay, valid, next, left - 1);
    }
  }

  /** The end-of-log branch prints at least one line, every one of them unused, and
      prints 0 as the block number of a line whose in-block offset is 0. */
  lemma {:induction false} EndLinesUnused(g: Geometry, bn: nat, bo: nat, left: int, trans: nat, active: bool)
    requires Region(g) && g.jhdrSize < g.blockSize && bo < g.blockSize
    ensures var lines := EndLines(g, bn, bo, left, trans, active);
      && 1 <= |lines|
      && forall i :: 0 <= i < |lines| ==>
           lines[i].kind == Unused && (lines[i].within == 0 ==> lines[i].block == 0)
    decreases if left > 0 then left else 0
  {
    var rest := left - (g.blockSize - bo);
    if rest > 0 {
      var next := NextBlock(g, bn);
      EndLinesUnused(g, next, if next == 0 then g.jhdrSize else bo, rest, trans, active);
    }
  }

  /** Every line of `lines` is a block-list header line printed with count `trans` and
      activity `active`. */
  predicate Headers(lines: seq<Line>, trans: nat, active: bool)
  {
    forall i :: 0 <= i < |lines| ==>
      lines[i].kind == ListHeader && lines[i].trans == trans && lines[i].active == active
  }

  /** A block-list header of `left` bytes prints at least one line exactly when `left` is
      positive; every line is a header line with the transaction's count and activity. */
  lemma {:induction false} HeaderLinesTagged(g: Geometry, bn: nat, bo: nat, left: int, trans: nat, active: bool)
    requires Region(g) && g.jhdrSize < g.blockSize && bo < g.blockSize
    ensures var e := HeaderLines(g, bn, bo, left, trans, active);
      (1 <= |e.lines| <==> left > 0) && Headers(e.lines, trans, active)
    decreases if left > 0 then left else 0
  {
    if left > 0 {
      var rest := left - (g.blockSize - bo);
      var bn1 := if rest >= 0 then Wrap32(bn + 1) else bn;
      if bn1 % BlockCount(g) == 0 {
        HeaderLinesTagged(g, 0, g.jhdrSize, rest, trans, active);
      } else {
        HeaderLinesTagged(g, bn1, 0, rest, trans, active);
      }
    }
  }

  /** Every line of `lines` is a write to one of `sectors`, printed with count `trans` and
      activity `active`. */
  predicate WritesTo(lines: seq<Line>, sectors: set<nat>, trans: nat, active: bool)
  {
    forall i :: 0 <= i < |lines| ==>
      && lines[i].kind.Write? && lines[i].kind.sector in sectors
      && lines[i].trans == trans && lines[i].active == active
  }

  lemma WritesToJoin(a: seq<Line>, b: seq<Line>, sa: set<nat>, sb: set<nat>, trans: nat, active: bool)
    requires WritesTo(a, sa, trans, active) && WritesTo(b, sb, trans, active)
    ensures WritesTo(a + b, sa + sb, trans, active)
  {
    forall i | 0 <= i < |a + b|
      ensures (a + b)[i].kind.Write? && (a + b)[i].kind.sector in sa + sb
      ensures (a + b)[i].trans == trans && (a + b)[i].active == active
    {
      if i < |a| {
        assert (a + b)[i] == a[i];
      } else {
        assert (a + b)[i] == b[i - |a|];
      }
    }
  }

  /** The entries `binfo[j..blocks)` print only write lines, each to the sector of one of
      those entries with a positive size, tagged with the transaction's count and activity:
      with `j = 1`, entry 0 is never reported. */
  lemma {:induction false} EntriesTagged(buf: seq<byte>, g: Geometry, lay: ListLayout, h: nat, j: nat, blocks: nat,
                                         offset: nat, bn: nat, trans: nat, active: bool)
    requires Region(g)
    ensures WritesTo(Entries(buf, g, lay, h, j, blocks, offset, bn, trans, active).lines,
                     Sectors(buf, lay, h, j, blocks), trans, active)
    decreases blocks - j
  {
    if j < blocks && BsizeFits(buf, lay, h, j) {
      var left := Bsize(buf, lay, h, j);
      if left <= 0 {
        EntriesTagged(buf, g, lay, h, j + 1, blocks, offset, bn, trans, active);
      } else if BnumFits(buf, lay, h, j) {
        var sector := Bnum(buf, lay, h, j);
        var w := WriteLines(g, offset, bn, left, sector, trans, active);
        WriteLinesAdvance(g, offset, bn, left, sector, trans, active);
        assert WritesTo(w.lines, {sector}, trans, active);
        EntriesTagged(buf, g, lay, h, j + 1, blocks, w.offset, w.bn, trans, active);
        WritesToJoin(w.lines, Entries(buf, g, lay, h, j + 1, blocks, w.offset, w.bn, trans, active).lines,
                     {sector}, Sectors(buf, lay, h, j + 1, blocks), trans, active);
      }
    }
  }

  /** A block-list header that fails its checksum prints one unused line and moves
      `offset` on by between 1 and `blocksize - block_offset` bytes, to the first position
      whose header validates when there is one within that reach; the count is unchanged. */
  lemma BadHeaderSkips(buf: seq<byte>, g: Geometry, lay: ListLayout, valid: seq<bool>, offset: nat, trans: nat)
    requires Walkable(g, lay) && |buf| == LinearLen(g) && |valid| == |buf| && offset < |buf|
    requires HeaderFits(buf, lay, offset) && !valid[offset]
    ensures var s := Iteration(buf, g, lay, valid, offset, trans);
      var reach := g.blockSize - BlockOffset(g, offset);
      && |s.lines| == 1 && s.lines[0].kind == Unused
      && (s.Next? ==>
           && s.trans == trans && offset < s.offset <= offset + reach
           && (forall q :: offset < q < s.offset ==> HeaderFits(buf, lay, q) && !valid[q])
           && (s.offset < offset + reach ==> valid[s.offset]))
      && (s.Last? ==> s.outcome.Overrun? && !HeaderFits(buf, lay, s.outcome.at))
  {
    SkipLands(buf, lay, valid, offset, g.blockSize - BlockOffset(g, offset));
  }

  /** A valid header whose `bytes_used` exceeds what is left of the journal ends the walk:
      only unused lines are printed and the transaction is not decoded. */
  lemma EndOfLogStops(buf: seq<byte>, g: Geometry, lay: ListLayout, valid: seq<bool>, offset: nat, trans: nat)
    requires Walkable(g, lay) && |buf| == LinearLen(g) && |valid| == |buf| && offset < |buf|
    requires HeaderFits(buf, lay, offset) && valid[offset]
    requires U32(buf, offset + lay.bytesUsedAt) > g.size - offset
    ensures var s := Iteration(buf, g, lay, valid, offset, trans);
      && s.Last? && s.outcome == EndOfLog && 1 <= |s.lines|
      && forall i :: 0 <= i < |s.lines| ==> s.lines[i].kind == Unused
  {
    var active := Active(g, RealOffset(g, offset));
    EndLinesUnused(g, BlockNumber(g, offset), BlockOffset(g, offset), g.size - offset, trans, active);
  }

  /** A valid header whose `bytes_used` fits what is left of the journal starts a
      transaction. */
  lemma ValidHeaderTransacts(buf: seq<byte>, g: Geometry, lay: ListLayout, valid: seq<bool>, offset: nat, trans: nat)
    requires Walkable(g, lay) && |buf| == LinearLen(g) && |valid| == |buf| && offset < |buf|
    requires HeaderFits(buf, lay, offset) && valid[offset]
    requires U32(buf, offset + lay.bytesUsedAt) <= g.size - offset
    ensures Iteration(buf, g, lay, valid, offset, trans) ==
      Transaction(buf, g, lay, offset, trans, BlockNumber(g, offset), BlockOffset(g, offset),
                  Active(g, RealOffset(g, offset)))
  {
  }

  /** A transaction prints its header lines, then one write line per block each of
      `binfo[1..num_blocks)` touches, all tagged with the count and activity at the header;
      it goes on exactly when every entry field it reads lies in the buffer, and then
      `offset` moves by `blhdr_size` plus the entries' payload and the count goes up by
      one. */
  lemma TransactionAdvances(buf: seq<byte>, g: Geometry, lay: ListLayout, offset: nat, trans: nat,
                            bn: nat, bo: nat, active: bool)
    requires Walkable(g, lay) && HeaderFits(buf, lay, offset) && bo < g.blockSize
    ensures var s := Transaction(buf, g, lay, offset, trans, bn, bo, active);
      var blocks := U16(buf, offset + lay.numBlocksAt);
      && (s.Next? <==> EntriesFit(buf, lay, offset, 1, blocks))
      && (s.Next? ==>
           && s.offset == offset + g.blhdrSize + Payload(buf, lay, offset, 1, blocks)
           && s.trans == Wrap32(trans + 1))
      && exists m :: 1 <= m <= |s.lines| && Headers(s.lines[..m], trans, active)
                     && WritesTo(s.lines[m..], Sectors(buf, lay, offset, 1, blocks), trans, active)
  {
    var header := HeaderLines(g, bn, bo, g.blhdrSize, trans, active);
    var blocks := U16(buf, offset + lay.numBlocksAt);
    var r := Entries(buf, g, lay, offset, 1, blocks, offset + g.blhdrSize, header.bn, trans, active);
    HeaderLinesTagged(g, bn, bo, g.blhdrSize, trans, active);
    EntriesAdvance(buf, g, lay, offset, 1, blocks, offset + g.blhdrSize, header.bn, trans, active);
    EntriesTagged(buf, g, lay, offset, 1, blocks, offset + g.blhdrSize, header.bn, trans, active);
    var s := Transaction(buf, g, lay, offset, trans, bn, bo, active);
    assert s.lines == header.lines + r.lines;
    var m := |header.lines|;
    assert s.lines[..m] == header.lines && s.lines[m..] == r.lines;
  }
}
