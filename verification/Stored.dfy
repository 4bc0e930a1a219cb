/** Level 0: input is copied into stored blocks, directly when input and output allow it, otherwise through the window
    and the pending buffer. */
module StoredModel {
  import opened Arith
  import opened DeflateCalls
  import opened DeflateModel

  const MAX_STORED := 65535

  /** A stored block as section 3.2.4 of RFC 1951 has it: the two length fields and the bytes that follow. */
  datatype StoredBlock = StoredBlock(len: uint16, nlen: uint16, payload: seq<byte>, last: bool) {
    predicate Valid() { len == |payload| && nlen == 0xffff - len }
  }

  function Payloads(blocks: seq<StoredBlock>): seq<byte> {
    if blocks == [] then [] else Payloads(blocks[..|blocks| - 1]) + blocks[|blocks| - 1].payload
  }

  /** What an inflater makes of the blocks: it refuses a block whose lengths disagree, and anything after the last. */
  function Inflate(blocks: seq<StoredBlock>): Option<seq<byte>> {
    if blocks == [] then Some([])
    else
      var b := blocks[|blocks| - 1];
      match Inflate(blocks[..|blocks| - 1])
      case None => None
      case Some(text) =>
        if b.Valid() && (|blocks| > 1 ==> !blocks[|blocks| - 2].last) then Some(text + b.payload) else None
  }

  ghost predicate AllValid(blocks: seq<StoredBlock>) {
    forall i :: 0 <= i < |blocks| ==> blocks[i].Valid()
  }

  ghost predicate NoLast(blocks: seq<StoredBlock>) {
    forall i :: 0 <= i < |blocks| ==> !blocks[i].last
  }

  lemma {:induction false} InflatesToPayloads(blocks: seq<StoredBlock>)
    requires AllValid(blocks) && (blocks != [] ==> NoLast(blocks[..|blocks| - 1]))
    ensures Inflate(blocks) == Some(Payloads(blocks))
  {
    if blocks != [] {
      var rest := blocks[..|blocks| - 1];
      assert forall i :: 0 <= i < |rest| ==> rest[i] == blocks[i];
      assert rest != [] ==> forall i :: 0 <= i < |rest| - 1 ==> !rest[i].last;
      InflatesToPayloads(rest);
    }
  }

  /** The last bytes of the input are at the end of the window's data. */
  ghost predicate Tail(window: seq<byte>, strstart: int, total: seq<byte>) {
    && 0 <= strstart <= |window| && strstart <= |total|
    && forall i :: 0 <= i < strstart ==> window[i] == total[|total| - strstart + i]
  }

  lemma TailRange(window: seq<byte>, strstart: int, total: seq<byte>, from: nat, to: nat)
    requires Tail(window, strstart, total) && from <= to <= strstart
    ensures window[from..to] == total[|total| - strstart + from..|total| - strstart + to]
  {
  }

  lemma TailSlid(window: seq<byte>, window': seq<byte>, strstart: nat, total: seq<byte>, wSize: nat)
    requires Tail(window, strstart + wSize, total) && |window'| == |window|
    requires forall i :: 0 <= i < strstart ==> window'[i] == window[wSize + i]
    ensures Tail(window', strstart, total)
  {
  }

  lemma TailMore(window: seq<byte>, window': seq<byte>, strstart: int, total: seq<byte>, bytes: seq<byte>)
    requires Tail(window, strstart, total) && |window'| == |window| && strstart + |bytes| <= |window|
    requires forall i :: 0 <= i < strstart ==> window'[i] == window[i]
    requires forall i :: 0 <= i < |bytes| ==> window'[strstart + i] == bytes[i]
    ensures Tail(window', strstart + |bytes|, total + bytes)
  {
  }

  lemma TailFresh(window: seq<byte>, wSize: nat, total: seq<byte>, bytes: seq<byte>)
    requires wSize <= |bytes| && wSize <= |window|
    requires forall i :: 0 <= i < wSize ==> window[i] == bytes[|bytes| - wSize + i]
    ensures Tail(window, wSize, total + bytes)
  {
  }

  /** Input was consumed from the front: total has grown from t0 to t1 by what is missing from in1. */
  ghost predicate Consumes(t0: seq<byte>, in0: seq<byte>, t1: seq<byte>, in1: seq<byte>) {
    |in1| <= |in0| && in1 == in0[|in0| - |in1|..] && t1 == t0 + in0[..|in0| - |in1|]
  }

  lemma ConsumesNothing(t: seq<byte>, input: seq<byte>)
    ensures Consumes(t, input, t, input)
  {
  }

  lemma ConsumesMore(t0: seq<byte>, in0: seq<byte>, t1: seq<byte>, in1: seq<byte>, t2: seq<byte>, in2: seq<byte>)
    requires Consumes(t0, in0, t1, in1) && Consumes(t1, in1, t2, in2)
    ensures Consumes(t0, in0, t2, in2)
  {
  }

  lemma ConsumesRest(t0: seq<byte>, in0: seq<byte>, t1: seq<byte>, in1: seq<byte>)
    requires Consumes(t0, in0, t1, in1)
    ensures |in1| <= |in0| && t1 + in1 == t0 + in0 && (|in1| == |in0| ==> t1 == t0 && in1 == in0)
  {
  }

  /** One more block: its payload is taken from position a of the input, m bytes already read and then new ones. */
  lemma OneMore(blocks: seq<StoredBlock>, b: StoredBlock, total: seq<byte>, a: nat, m: nat, bytes: seq<byte>)
    requires a + m <= |total| && Payloads(blocks) == total[..a]
    requires b.payload == total[a..a + m] + bytes && (bytes != [] ==> a + m == |total|)
    ensures Payloads(blocks + [b]) == (total + bytes)[..a + m + |bytes|]
  {
  }

  lemma Appended(blocks: seq<StoredBlock>, b: StoredBlock)
    requires NoLast(blocks)
    ensures var all := blocks + [b]; NoLast(all[..|all| - 1]) && all[|all| - 1] == b && (!b.last ==> NoLast(all))
    ensures AllValid(blocks) && b.Valid() ==> AllValid(blocks + [b])
  {
  }

  /** No direct block of at least minBlock bytes out of all, or of all bytes if that is wanted, fits into have. */
  ghost predicate TooLittle(flush: Flush, minBlock: int, have: int, all: int) {
    have < 0 || (have < minBlock && have < all) || (flush == NoFlush && all < minBlock) || (flush != Finish && all == 0)
  }

  // ---- How many bytes blocks take

  /** The room for n bytes in blocks as long as possible, if the first has a header of so many bytes. */
  function Needed(header: nat, n: nat): nat
    decreases n
  {
    if n <= MAX_STORED then header + n else header + MAX_STORED + Needed(5, n - MAX_STORED)
  }

  lemma {:induction false} NeededMono(header: nat, header': nat, n: nat, n': nat)
    requires header <= header' && n <= n'
    ensures Needed(header, n) <= Needed(header', n')
    decreases n
  {
    if n > MAX_STORED {
      NeededMono(5, 5, n - MAX_STORED, n' - MAX_STORED);
    }
  }

  /** A block as long as possible leaves the rest to the blocks behind it. */
  lemma NeededStep(header: nat, all: nat, room: nat, len: nat)
    requires header <= room && len == Min(MAX_STORED, Min(all, room - header))
    ensures room >= Needed(header, all) <==> len == all || room - header - len >= Needed(5, all - len)
  {
    NeededMono(5, 5, 0, all - len);
  }

  /** The blocks with headers of five bytes. */
  function SizeOf(blocks: seq<StoredBlock>): nat {
    if blocks == [] then 0 else SizeOf(blocks[..|blocks| - 1]) + 5 + |blocks[|blocks| - 1].payload|
  }

  /** Blocks were added, and the room that is gone and the bytes that wait are theirs; bits that were left over may take
      one more byte. */
  ghost predicate Takes(before: seq<StoredBlock>, room: nat, waiting: nat, bits: nat,
                        after: seq<StoredBlock>, room': nat, waiting': nat)
  {
    && before <= after && room' <= room
    && room - room' + waiting' - waiting ==
       SizeOf(after) - SizeOf(before) + if |after| > |before| && bits > 5 then 1 else 0
  }

  lemma TakesNothing(blocks: seq<StoredBlock>, room: nat, waiting: nat, bits: nat)
    ensures Takes(blocks, room, waiting, bits, blocks, room, waiting)
  {
  }

  /** What is flushed was waiting. */
  lemma TakesFlushed(a: seq<StoredBlock>, ra: nat, wa: nat, bits: nat, b: seq<StoredBlock>, rb: nat, wb: nat, n: nat)
    requires Takes(a, ra, wa, bits, b, rb, wb) && n <= rb && n <= wb
    ensures Takes(a, ra, wa, bits, b, rb - n, wb - n)
  {
  }

  lemma TakesIs(a: seq<StoredBlock>, ra: nat, wa: nat, bits: nat, b: seq<StoredBlock>, rb: nat, wb: nat)
    requires Takes(a, ra, wa, bits, b, rb, wb)
    ensures a <= b && rb <= ra
  {
  }

  lemma TakesMore(a: seq<StoredBlock>, ra: nat, wa: nat, bits: nat, b: seq<StoredBlock>, rb: nat, wb: nat, bits': nat,
                  c: seq<StoredBlock>, rc: nat, wc: nat)
    requires Takes(a, ra, wa, bits, b, rb, wb) && Takes(b, rb, wb, bits', c, rc, wc)
    requires if |b| > |a| then bits' == 0 else bits' == bits
    ensures Takes(a, ra, wa, bits, c, rc, wc)
  {
  }

  lemma OneBlockTakes(before: seq<StoredBlock>, b: StoredBlock, room: nat, waiting: nat, bits: nat, room': nat,
                      waiting': nat)
    requires bits <= 7 && room' <= room && room - room' + waiting' - waiting == (bits + 42) / 8 + |b.payload|
    ensures Takes(before, room, waiting, bits, before + [b], room', waiting')
  {
    assert (before + [b])[..|before|] == before;
  }

  // ---- Sequences of calls

  /** The reply to a call, the blocks written so far, the output space left and the bytes that wait for more. */
  datatype StoredOutcome = StoredOutcome(reply: Reply, blocks: seq<StoredBlock>, room: nat, waiting: nat)

  /** After a call the blocks inflate to a prefix of the input given so far, and to all of it if the call is
      complete. */
  ghost predicate StoredAccounted(given: seq<byte>, flush: Flush, o: StoredOutcome) {
    && Inflate(o.blocks).Some? && Inflate(o.blocks).value <= given
    && (IsDone(flush, o.reply, o.room) ==> Inflate(o.blocks).value == given)
  }

  predicate IsEnded(blocks: seq<StoredBlock>) { blocks != [] && blocks[|blocks| - 1].last }

  function WaitingAfter(run: seq<StoredOutcome>): nat { if run == [] then 0 else run[|run| - 1].waiting }

  /** A call is only in error if it does not ask to finish a stream that has ended, and it ends the stream if it is
      asked to and there is room. */
  ghost predicate Answered(given: seq<byte>, c: Call, before: seq<StoredBlock>, waiting: nat, o: StoredOutcome) {
    && (o.reply == StreamError <==> IsEnded(before) && c.flush != Finish)
    && (o.reply == StreamEnd ==> c.flush == Finish && IsEnded(o.blocks))
    && (c.flush == Finish && !IsEnded(before) && c.room >= waiting + Needed(6, |given|) ==> o.reply == StreamEnd)
  }

  ghost predicate AllAnswered(calls: seq<Call>, run: seq<StoredOutcome>) {
    && |run| <= |calls|
    && forall i :: 0 <= i < |run| ==>
         Answered(Given(calls[..i + 1]), calls[i], BlocksWritten(run[..i]), WaitingAfter(run[..i]), run[i])
  }

  /** This holds after every call, and no block is taken back. */
  ghost predicate StoredAccounts(calls: seq<Call>, run: seq<StoredOutcome>) {
    && |run| <= |calls|
    && (forall i :: 0 <= i < |run| ==> StoredAccounted(Given(calls[..i + 1]), calls[i].flush, run[i]))
    && AllAnswered(calls, run)
    && (forall i, j :: 0 <= i < j < |run| ==> run[i].blocks <= run[j].blocks)
  }

  function BlocksWritten(run: seq<StoredOutcome>): seq<StoredBlock> {
    if run == [] then [] else run[|run| - 1].blocks
  }

  /** Between calls: all is the input given so far. */
  ghost predicate StoredSoFar(calls: seq<Call>, run: seq<StoredOutcome>, blocks: seq<StoredBlock>, waiting: nat,
                              all: seq<byte>)
  {
    && StoredAccounts(calls, run) && BlocksWritten(run) == blocks && WaitingAfter(run) == waiting
    && all == Given(calls[..|run|])
  }

  lemma StartsWithNothing(calls: seq<Call>)
    ensures StoredSoFar(calls, [], [], 0, [])
  {
  }

  lemma EndsStored(calls: seq<Call>, run: seq<StoredOutcome>, blocks: seq<StoredBlock>, waiting: nat, all: seq<byte>)
    requires StoredSoFar(calls, run, blocks, waiting, all)
    ensures StoredAccounts(calls, run)
  {
  }

  lemma AnsweredMore(calls: seq<Call>, run: seq<StoredOutcome>, o: StoredOutcome)
    requires |run| < |calls| && AllAnswered(calls, run)
    requires Answered(Given(calls[..|run| + 1]), calls[|run|], BlocksWritten(run), WaitingAfter(run), o)
    ensures AllAnswered(calls, run + [o])
  {
    hide Answered, Given, BlocksWritten, WaitingAfter;
    var run' := run + [o];
    forall i | 0 <= i < |run'|
      ensures Answered(Given(calls[..i + 1]), calls[i], BlocksWritten(run'[..i]), WaitingAfter(run'[..i]), run'[i])
    {
      if i == |run| {
        assert run'[..i] == run;
      } else {
        assert run'[..i] == run[..i] && run'[i] == run[i];
      }
    }
  }

  lemma OneMoreStored(calls: seq<Call>, run: seq<StoredOutcome>, before: seq<StoredBlock>, waiting: nat,
                      all: seq<byte>, o: StoredOutcome, text: seq<byte>)
    requires StoredSoFar(calls, run, before, waiting, all) && |run| < |calls| && before <= o.blocks
    requires Inflate(o.blocks) == Some(text) && text <= all + calls[|run|].bytes
    requires IsDone(calls[|run|].flush, o.reply, o.room) ==> text == all + calls[|run|].bytes
    requires Answered(all + calls[|run|].bytes, calls[|run|], before, waiting, o)
    ensures StoredSoFar(calls, run + [o], o.blocks, o.waiting, all + calls[|run|].bytes)
  {
    hide Inflate, Given, Answered, AllAnswered, Needed;
    GivenNext(calls, |run|, [], all);
    forall i | 0 <= i < |run| ensures run[i].blocks <= o.blocks {
      if i < |run| - 1 { assert run[i].blocks <= run[|run| - 1].blocks; }
    }
    assert [] + all == all && [] + (all + calls[|run|].bytes) == all + calls[|run|].bytes;
    AnsweredMore(calls, run, o);
  }

  class StoredState {
    const wSize: int
    const pendingBufSize: int
    const window: array<byte>

    var nextIn: seq<byte>
    var availOut: nat
    /** Bytes in the pending buffer, and bits not yet in it. */
    var pending: nat
    var biValid: nat
    /** The blocks written, to the output or to the pending buffer. */
    var blocks: seq<StoredBlock>

    var strstart: uint32
    var blockStart: int
    var insert: uint32
    var matches: uint32
    var highWater: uint32
    /** Whether the status is FINISH_STATE, and the flush mode of the last call unless it ran out of space. */
    var finished: bool
    var lastFlush: Option<Flush>

    ghost var total: seq<byte>

    ghost predicate Shape() {
      && 512 <= wSize <= 0x8000 && window.Length == 2 * wSize && 512 <= pendingBufSize
    }

    /** Bytes of the window that no block holds yet. */
    function Left(): int
      reads `strstart, `blockStart
    {
      strstart - blockStart
    }

    /** Everything read is in the blocks or still in the window. */
    ghost predicate Conserved()
      reads `blocks, `total, `strstart, `blockStart
    {
      0 <= Left() <= |total| && Payloads(blocks) == total[..|total| - Left()] && AllValid(blocks)
    }

    ghost predicate Fits()
      reads `biValid, `insert, `matches, `blockStart, `strstart
    {
      Shape() && biValid <= 7 && insert <= wSize && matches <= 2 && 0 <= blockStart <= strstart < 2 * wSize
    }

    /** The invariant of deflate_stored, between calls. */
    ghost predicate Ready()
      reads `biValid, `insert, `matches, `blockStart, `strstart, `blocks, `total, window
    {
      Fits() && Tail(window[..], strstart, total) && Conserved()
    }

    /** The stored bytes and what is left in the window are the input read so far. */
    lemma EveryByteKept()
      requires Ready()
      ensures Payloads(blocks) + window[blockStart..strstart] == total
    {
    }

    function HeaderBytes(): nat
      reads `biValid
    {
      (biValid + 42) / 8
    }

    /** _tr_stored_block with no data: the header, with a zero length. */
    method StoredHeader(last: bool)
      requires pending + HeaderBytes() <= pendingBufSize
      modifies this`blocks, this`pending, this`biValid
      ensures blocks == old(blocks) + [StoredBlock(0, 0xffff, [], last)]
      ensures pending == old(pending + HeaderBytes()) && biValid == 0
    {
      blocks := blocks + [StoredBlock(0, 0xffff, [], last)];
      pending := pending + HeaderBytes();
      biValid := 0;
    }

    /** Put the length and its complement into the last four bytes of the header. */
    method PatchLength(len: nat, ghost before: seq<StoredBlock>, ghost b: StoredBlock)
      requires blocks == before + [b]
      modifies this`blocks
      ensures len <= MAX_STORED ==> blocks == before + [b.(len := len, nlen := 0xffff - len)]
    {
      var newest := blocks[|blocks| - 1];
      var lo, hi := len % 0x100, len / 0x100 % 0x100;
      blocks := blocks[|blocks| - 1 := newest.(len := lo + 0x100 * hi, nlen := (0xff - lo) + 0x100 * (0xff - hi))];
    }

    /** flush_pending. */
    method FlushPending()
      modifies this`pending, this`availOut
      ensures pending == old(pending) - Min(old(pending), old(availOut))
      ensures availOut == old(availOut) - Min(old(pending), old(availOut))
    {
      var len := if pending > availOut then availOut else pending;
      pending, availOut := pending - len, availOut - len;
    }

    /** Bytes copied to the output join the payload of the newest block. */
    method Output(bytes: seq<byte>, ghost before: seq<StoredBlock>, ghost b: StoredBlock)
      requires blocks == before + [b] && |bytes| <= availOut
      modifies this`blocks, this`availOut
      ensures blocks == before + [b.(payload := b.payload + bytes)] && availOut == old(availOut) - |bytes|
    {
      var newest := blocks[|blocks| - 1];
      blocks := blocks[|blocks| - 1 := newest.(payload := newest.payload + bytes)];
      availOut := availOut - |bytes|;
    }

    // ---- copying straight from the input to the output

    /** The header of a block of len bytes goes to the output. */
    method OutputHeader(len: nat, last: bool)
      requires Shape() && pending == 0 && biValid <= 7 && len <= MAX_STORED && HeaderBytes() <= availOut
      modifies this`blocks, this`pending, this`biValid, this`availOut
      ensures blocks == old(blocks) + [StoredBlock(len, 0xffff - len, [], last)]
      ensures pending == 0 && biValid == 0 && availOut == old(availOut - HeaderBytes())
    {
      ghost var before := blocks;
      StoredHeader(last);
      PatchLength(len, before, StoredBlock(0, 0xffff, [], last));
      FlushPending();
    }

    /** Bytes left in the window. */
    method OutputWindow(n: nat, ghost before: seq<StoredBlock>, ghost b: StoredBlock) returns (bytes: seq<byte>)
      requires Fits() && blocks == before + [b] && b.payload == [] && n <= availOut
      requires n <= Left() <= |total| && Tail(window[..], strstart, total)
      modifies this`blocks, this`availOut, this`blockStart
      ensures blockStart == old(blockStart) + n && availOut == old(availOut) - n
      ensures bytes == total[|total| - old(Left())..|total| - old(Left()) + n]
      ensures blocks == before + [b.(payload := bytes)]
    {
      hide Tail;
      bytes := window[blockStart..blockStart + n];
      TailRange(window[..], strstart, total, blockStart, blockStart + n);
      assert [] + bytes == bytes;
      Output(bytes, before, b);
      blockStart := blockStart + n;
    }

    /** The payload: first what is left in the window, then input. */
    method OutputPayload(len: nat, ghost before: seq<StoredBlock>, ghost b: StoredBlock)
      returns (ghost m: nat, ghost bytes: seq<byte>)
      requires Fits() && blocks == before + [b] && b.payload == [] && len <= availOut
      requires 0 <= Left() <= |total| && len <= Left() + |nextIn| && (Left() > 0 ==> Tail(window[..], strstart, total))
      modifies this`blocks, this`availOut, this`blockStart, this`nextIn, this`total
      ensures m == Min(old(Left()), len) && m + |bytes| == len && |bytes| <= old(|nextIn|)
      ensures Left() == old(Left()) - m && blockStart >= old(blockStart) && availOut == old(availOut) - len
      ensures bytes == old(nextIn)[..|bytes|] && nextIn == old(nextIn)[|bytes|..] && total == old(total) + bytes
      ensures var a := |old(total)| - old(Left());
        blocks == before + [b.(payload := old(total)[a..a + m] + bytes)]
    {
      hide Tail;
      var left := Left();
      var a := |total| - left;
      left := if left > len then len else left;
      m := left;
      var fromWindow: seq<byte> := [];
      if left > 0 {
        fromWindow := OutputWindow(left, before, b);
      }
      assert fromWindow == total[a..a + m];
      var n := len - left;
      bytes := nextIn[..n];
      if n > 0 {
        Output(nextIn[..n], before, b.(payload := fromWindow));
      } else {
        assert fromWindow + bytes == fromWindow;
      }
      total := total + nextIn[..n];
      nextIn := nextIn[n..];
    }

    /** One block of len bytes from the window and the input. */
    method DirectBlock(len: nat, last: bool)
      requires Fits() && Conserved() && NoLast(blocks) && pending == 0
      requires len <= MAX_STORED && len <= Left() + |nextIn| && HeaderBytes() + len <= availOut
      requires Left() > 0 ==> Tail(window[..], strstart, total)
      modifies this`blocks, this`pending, this`biValid, this`availOut, this`blockStart, this`nextIn, this`total
      ensures Fits() && Conserved() && pending == 0
      ensures if last then Finished() else NoLast(blocks)
      ensures |nextIn| + Left() == old(|nextIn| + Left()) - len && (|nextIn| < old(|nextIn|) ==> Left() == 0)
      ensures |blocks| == |old(blocks)| + 1 && biValid == 0 && availOut == old(availOut - HeaderBytes()) - len
      ensures Takes(old(blocks), old(availOut), 0, old(biValid), blocks, availOut, 0)
      ensures Consumes(old(total), old(nextIn), total, nextIn)
    {
      hide Tail, Payloads, AllValid, NoLast, SizeOf;
      ghost var before, t, a, room, bits := blocks, total, |total| - Left(), availOut, biValid;
      OutputHeader(len, last);
      ghost var b := StoredBlock(len, 0xffff - len, [], last);
      ghost var m, bytes := OutputPayload(len, before, b);
      OneMore(before, b.(payload := t[a..a + m] + bytes), t, a, m, bytes);
      Appended(before, b.(payload := t[a..a + m] + bytes));
      OneBlockTakes(before, b.(payload := t[a..a + m] + bytes), room, 0, bits, availOut, 0);
    }

    /** The smallest block worth copying directly. */
    function MinBlock(): int { if pendingBufSize - 5 > wSize then wSize else pendingBufSize - 5 }

    /** Nothing more can be copied directly: the output is too small for a block worth its header, the input is too
        little, or there is none. */
    ghost predicate Exhausted(flush: Flush)
      reads `biValid, `availOut, `strstart, `blockStart, `nextIn
    {
      TooLittle(flush, MinBlock(), availOut - HeaderBytes(), Left() + |nextIn|)
    }

    /** The length of the next block to copy directly, if one should be. */
    method DirectLength(flush: Flush) returns (len: nat, copy: bool)
      requires Fits()
      ensures copy ==>
        HeaderBytes() <= availOut && len == Min(MAX_STORED, Min(Left() + |nextIn|, availOut - HeaderBytes()))
      ensures copy && len == 0 ==> flush == Finish && Left() + |nextIn| == 0
      ensures !copy <==> Exhausted(flush)
    {
      var minBlock := MinBlock();
      len := MAX_STORED;
      var have := HeaderBytes();
      if availOut < have {
        return len, false;
      }
      have := availOut - have;
      var left := strstart - blockStart;
      if len > left + |nextIn| {
        len := left + |nextIn|;
      }
      if len > have {
        len := have;
      }
      copy := !(len < minBlock && ((len == 0 && flush != Finish) || flush == NoFlush || len != left + |nextIn|));
    }

    /** Whether everything fits into direct blocks. */
    ghost predicate Finishes(flush: Flush)
      requires 0 <= Left()
      reads `biValid, `availOut, `strstart, `blockStart, `nextIn
    {
      flush == Finish && availOut >= Needed(HeaderBytes(), Left() + |nextIn|)
    }

    lemma CannotFinish(flush: Flush)
      requires Fits() && Exhausted(flush)
      ensures !Finishes(flush)
    {
    }

    /** One block more, if that is worth it. */
    method CopyOne(flush: Flush) returns (copied: bool, last: bool)
      requires Fits() && Conserved() && NoLast(blocks) && pending == 0
      requires Left() > 0 ==> Tail(window[..], strstart, total)
      modifies this`blocks, this`pending, this`biValid, this`availOut, this`blockStart, this`nextIn, this`total
      ensures Fits() && Conserved() && pending == 0 && Consumes(old(total), old(nextIn), total, nextIn)
      ensures if last then flush == Finish && nextIn == [] && Left() == 0 && Finished() else NoLast(blocks)
      ensures old(Finishes(flush)) <==> last || (copied && Finishes(flush))
      ensures if copied then
          && |blocks| == |old(blocks)| + 1 && biValid == 0 && (|nextIn| < old(|nextIn|) ==> Left() == 0)
          && (|nextIn| + Left() < old(|nextIn| + Left()) || last)
          && Takes(old(blocks), old(availOut), 0, old(biValid), blocks, availOut, 0)
        else
          && !last && Exhausted(flush) && blocks == old(blocks) && biValid == old(biValid) && availOut == old(availOut)
          && nextIn == old(nextIn) && total == old(total) && blockStart == old(blockStart)
    {
      hide Tail, Conserved, NoLast, Finished, TooLittle, Takes, Needed, Consumes;
      ConsumesNothing(total, nextIn);
      var len;
      len, copied := DirectLength(flush);
      last := false;
      if !copied {
        CannotFinish(flush);
        return;
      }
      last := flush == Finish && len == strstart - blockStart + |nextIn|;
      NeededStep(HeaderBytes(), Left() + |nextIn|, availOut, len);
      DirectBlock(len, last);
    }

    /** The direct-copy loop. It gets to the last block if and only if there is room for everything. */
    method CopyDirectly(flush: Flush) returns (last: bool)
      requires Ready() && NoLast(blocks) && pending == 0
      modifies this`blocks, this`pending, this`biValid, this`availOut, this`blockStart, this`nextIn, this`total
      ensures Fits() && Conserved() && pending == 0 && Consumes(old(total), old(nextIn), total, nextIn)
      ensures |nextIn| < old(|nextIn|) ==> Left() == 0
      ensures if last then flush == Finish && nextIn == [] && Left() == 0 && Finished() else NoLast(blocks)
      ensures (last <==> old(Finishes(flush))) && (!last ==> Exhausted(flush))
      ensures Takes(old(blocks), old(availOut), 0, old(biValid), blocks, availOut, 0)
      ensures if |blocks| > |old(blocks)| then biValid == 0 else biValid == old(biValid)
    {
      hide Tail, Conserved, Consumes, NoLast, Finished, TooLittle, Takes, Needed;
      last := false;
      ghost var in0, t0, before, room, bits := nextIn, total, blocks, availOut, biValid;
      ConsumesNothing(total, nextIn);
      TakesNothing(blocks, availOut, 0, biValid);
      while !last
        modifies this`blocks, this`pending, this`biValid, this`availOut, this`blockStart, this`nextIn, this`total
        invariant Fits() && Conserved() && pending == 0 && Consumes(t0, in0, total, nextIn)
        invariant if |nextIn| < |in0| then Left() == 0 else total == t0
        invariant if last then flush == Finish && nextIn == [] && Left() == 0 && Finished() else NoLast(blocks)
        invariant old(Finishes(flush)) <==> last || Finishes(flush)
        invariant Takes(before, room, 0, bits, blocks, availOut, 0) && |before| <= |blocks|
        invariant if |blocks| > |before| then biValid == 0 else biValid == bits
        decreases |nextIn| + Left(), !last
      {
        ghost var in1, t1, blocks1, room1, bits1 := nextIn, total, blocks, availOut, biValid;
        var copied;
        copied, last := CopyOne(flush);
        if !copied { break; }
        ConsumesMore(t0, in0, t1, in1, total, nextIn);
        ConsumesRest(t0, in0, total, nextIn);
        TakesMore(before, room, 0, bits, blocks1, room1, 0, bits1, blocks, availOut, 0);
      }
    }

    /** The newest block is the last one, and the only one marked so. */
    ghost predicate Finished()
      reads `blocks
    {
      blocks != [] && NoLast(blocks[..|blocks| - 1]) && blocks[|blocks| - 1].last
    }

    // ---- the window after direct copying

    /** The upper half of the window's data becomes the lower half; the window may lag behind the input. */
    method SlideDown(ghost text: seq<byte>)
      requires Shape() && wSize <= strstart < 2 * wSize && Tail(window[..], strstart, text) && matches <= 2
      modifies window, this`strstart, this`matches
      ensures strstart == old(strstart) - wSize && Tail(window[..], strstart, text) && matches <= 2
    {
      hide Tail;
      ghost var w := window[..];
      strstart := strstart - wSize;
      forall i | 0 <= i < strstart {
        window[i] := window[wSize + i];
      }
      TailSlid(w, window[..], strstart, text, wSize);
      if matches < 2 {
        matches := matches + 1;
      }
    }

    /** Copy bytes behind the data of the window. */
    method Append(bytes: seq<byte>, ghost before: seq<byte>)
      requires Shape() && strstart + |bytes| < 2 * wSize && Tail(window[..], strstart, before)
      modifies window, this`strstart
      ensures strstart == old(strstart) + |bytes| && Tail(window[..], strstart, before + bytes)
    {
      hide Tail;
      ghost var w := window[..];
      var at := strstart;
      forall i | 0 <= i < |bytes| {
        window[at + i] := bytes[i];
      }
      TailMore(w, window[..], at, before, bytes);
      strstart := strstart + |bytes|;
    }

    /** Bring the window up to date with the input that was copied directly. */
    method UpdateWindow(used: seq<byte>, ghost before: seq<byte>)
      requires Fits() && Tail(window[..], strstart, before) && total == before + used
      requires used != [] ==> Left() == 0
      modifies window, this`strstart, this`blockStart, this`matches, this`insert
      ensures Fits() && Tail(window[..], strstart, total) && Left() == old(Left())
    {
      hide Tail;
      var n := |used|;
      if n > 0 {
        if n >= wSize {
          matches := 2;
          forall i | 0 <= i < wSize {
            window[i] := used[n - wSize + i];
          }
          strstart := wSize;
          TailFresh(window[..], wSize, before, used);
        } else {
          if 2 * wSize - strstart <= n {
            SlideDown(before);
          }
          Append(used, before);
        }
        blockStart := strstart;
        insert := insert + if n > wSize - insert then wSize - insert else n;
      } else {
        assert before + used == before;
      }
    }

    // ---- the rest of the input, and the whole call

    method SlideBlock()
      requires Ready() && wSize <= blockStart
      modifies window, this`strstart, this`blockStart, this`matches
      ensures Ready() && strstart == old(strstart) - wSize && Left() == old(Left())
    {
      hide Tail, Payloads, AllValid;
      SlideDown(total);
      blockStart := blockStart - wSize;
    }

    method ReadIntoWindow(n: nat)
      requires Ready() && 0 < n <= |nextIn| && strstart + n < 2 * wSize
      modifies window, this`strstart, this`nextIn, this`total
      ensures Ready() && Left() == old(Left()) + n
      ensures total + nextIn == old(total + nextIn) && |nextIn| == old(|nextIn|) - n
    {
      hide Tail, Payloads, AllValid;
      var bytes := nextIn[..n];
      assert total + nextIn == (total + bytes) + nextIn[n..];
      ReadMore(blocks, total, Left(), bytes);
      Append(bytes, total);
      total := total + bytes;
      nextIn := nextIn[n..];
    }

    /** Read as much of the input as fits into the window. */
    method FillRest()
      requires Ready()
      modifies window, this`strstart, this`blockStart, this`matches, this`highWater, this`nextIn, this`total
      ensures Ready() && total + nextIn == old(total + nextIn)
      ensures |nextIn| <= old(|nextIn|) && (nextIn == old(nextIn) || Left() > 0)
      ensures Left() + |nextIn| == old(Left() + |nextIn|) && (nextIn == [] || Left() >= wSize)
    {
      hide Tail, Conserved;
      var have := 2 * wSize - strstart - 1;
      if |nextIn| > have && blockStart >= wSize {
        SlideBlock();
        have := have + wSize;
      }
      if have > |nextIn| {
        have := |nextIn|;
      }
      if have > 0 {
        ReadIntoWindow(have);
      }
      if highWater < strstart {
        highWater := strstart;
      }
    }

    /** If it is worth it or asked for, a stored block goes to the pending buffer. If the call does not end there, the
        output is full, or no flush was asked for and the input is used up. */
    method PendingBlock(flush: Flush) returns (last: bool)
      requires Ready() && NoLast(blocks) && pending == 0
      requires Exhausted(flush) && (nextIn == [] || Left() >= wSize)
      requires Left() + |nextIn| == 0 ==> flush == NoFlush || flush == Finish
      modifies this`blocks, this`pending, this`biValid, this`availOut, this`blockStart
      ensures Ready()
      ensures if last then flush == Finish && nextIn == [] && Left() == 0 && Finished() else NoLast(blocks)
      ensures !last ==> availOut == 0 || (flush == NoFlush && nextIn == [])
      ensures (availOut > 0 ==> pending == 0) && (last && old(availOut) > 0 ==> availOut < old(availOut))
      ensures Takes(old(blocks), old(availOut), 0, old(biValid), blocks, availOut, pending)
    {
      hide Tail, Payloads, AllValid, NoLast, Takes;
      last := false;
      TakesNothing(blocks, availOut, 0, biValid);
      var have := HeaderBytes();
      have := if pendingBufSize - have > MAX_STORED then MAX_STORED else pendingBufSize - have;
      var minBlock := if have > wSize then wSize else have;
      var left := strstart - blockStart;
      if left >= minBlock || ((left != 0 || flush == Finish) && flush != NoFlush && nextIn == [] && left <= have) {
        var len := if left > have then have else left;
        last := flush == Finish && nextIn == [] && len == left;
        StoredBlockFromWindow(len, last);
      }
    }

    /** _tr_stored_block with data from the window, then flush_pending. */
    method StoredBlockFromWindow(len: nat, last: bool)
      requires Ready() && NoLast(blocks) && pending == 0
      requires len <= Left() && len <= MAX_STORED && HeaderBytes() + len <= pendingBufSize
      modifies this`blocks, this`pending, this`biValid, this`availOut, this`blockStart
      ensures Ready() && Left() == old(Left()) - len
      ensures if last then Finished() else NoLast(blocks)
      ensures |blocks| == |old(blocks)| + 1 && |blocks[|old(blocks)|].payload| == len && biValid == 0
      ensures Takes(old(blocks), old(availOut), 0, old(biValid), blocks, availOut, pending)
      ensures var written := old(HeaderBytes()) + len;
        pending == written - Min(written, old(availOut)) && availOut == old(availOut) - Min(written, old(availOut))
    {
      hide Tail, Payloads, AllValid, NoLast, Takes;
      ghost var before, a, room, bits := blocks, |total| - Left(), availOut, biValid;
      var bytes := window[blockStart..blockStart + len];
      TailRange(window[..], strstart, total, blockStart, blockStart + len);
      var b := StoredBlock(len, 0xffff - len, bytes, last);
      blocks := blocks + [b];
      pending := pending + HeaderBytes() + len;
      biValid := 0;
      assert b.payload == total[a..a + len] + [];
      OneMore(before, b, total, a, len, []);
      assert total + [] == total;
      Appended(before, b);
      blockStart := blockStart + len;
      OneBlockTakes(before, b, room, 0, bits, room, pending);
      TakesFlushed(before, room, 0, bits, blocks, room, pending, Min(pending, room));
      FlushPending();
    }

    /** What has been read is all in the blocks, and they inflate to it. */
    lemma AllInflates(input: seq<byte>)
      requires Conserved() && Left() == 0 && nextIn == [] && total + nextIn == input
      requires Finished() || NoLast(blocks)
      ensures Inflate(blocks) == Some(input)
    {
      assert total + nextIn == total;
      assert total[..|total| - Left()] == total;
      InflatesToPayloads(blocks);
    }

    method DeflateStored(flush: Flush) returns (r: BlockState)
      requires Ready() && NoLast(blocks) && pending == 0
      modifies this, window
      ensures Ready() && total + nextIn == old(total + nextIn) && |nextIn| <= old(|nextIn|)
      ensures if r == FinishDone || r == FinishStarted then flush == Finish && Finished() else NoLast(blocks)
      ensures r == FinishDone <==> old(Finishes(flush))
      ensures r != NeedMore ==> nextIn == [] && Left() == 0 && Inflate(blocks) == Some(old(total + nextIn))
      ensures r == NeedMore ==> availOut == 0 || (flush == NoFlush && nextIn == [])
      ensures r == FinishStarted && old(availOut) > 0 ==> availOut < old(availOut)
      ensures r == BlockDone ==> flush != NoFlush && flush != Finish
      ensures r == BlockDone || r == FinishDone ==> pending == 0
      ensures availOut > 0 ==> pending == 0
      ensures Takes(old(blocks), old(availOut), 0, old(biValid), blocks, availOut, pending)
      ensures r == BlockDone ==> if |blocks| > |old(blocks)| then biValid == 0 else biValid == old(biValid)
      ensures finished == old(finished) && lastFlush == old(lastFlush)
    {
      hide Tail, Conserved, NoLast, Finished, Consumes, Inflate, TooLittle, Takes, Finishes;
      var input := nextIn;
      ghost var t0, before, room, bits := total, blocks, availOut, biValid;
      var last := CopyDirectly(flush);
      ConsumesRest(t0, input, total, nextIn);
      CatchUp(input, t0);
      if last {
        AllInflates(t0 + input);
        return FinishDone;
      }
      if flush != NoFlush && flush != Finish && |nextIn| == 0 && strstart == blockStart {
        AllInflates(t0 + input);
        return BlockDone;
      }
      FillRest();
      ghost var before1, room1, bits1 := blocks, availOut, biValid;
      last := PendingBlock(flush);
      TakesMore(before, room, 0, bits, before1, room1, 0, bits1, blocks, availOut, pending);
      TakesIs(before, room, 0, bits, before1, room1, 0);
      TakesIs(before1, room1, 0, bits1, blocks, availOut, pending);
      if last {
        AllInflates(t0 + input);
        return FinishStarted;
      }
      return NeedMore;
    }

    method CatchUp(input: seq<byte>, ghost before: seq<byte>)
      requires Fits() && Conserved() && Tail(window[..], strstart, before)
      requires Consumes(before, input, total, nextIn) && (|nextIn| < |input| ==> Left() == 0)
      modifies window, this`strstart, this`blockStart, this`matches, this`insert, this`highWater
      ensures Ready() && Left() == old(Left())
    {
      hide Tail, Payloads, AllValid;
      UpdateWindow(input[..|input| - |nextIn|], before);
      if highWater < strstart {
        highWater := strstart;
      }
    }

    // ---- deflate() at level 0

    /** The invariant between calls. */
    ghost predicate Idle()
      reads `biValid, `insert, `matches, `blockStart, `strstart, `blocks, `total, `finished, window
    {
      Ready() && if finished then Finished() && Left() == 0 else NoLast(blocks)
    }

    /** What is in the blocks can be inflated, and is all that was read except what the window still holds. */
    lemma IdleInflates()
      requires Idle()
      ensures 0 <= Left() <= |total| && Inflate(blocks) == Some(total[..|total| - Left()])
    {
      InflatesToPayloads(blocks);
    }

    /** Nothing of the input is missing in the blocks. */
    ghost predicate Whole()
      reads `nextIn, `strstart, `blockStart
    {
      nextIn == [] && Left() == 0
    }

    /** _tr_align: an empty static block of ten bits, which stands for no bytes and is not kept in blocks. */
    method Align()
      modifies this`pending, this`biValid
      ensures pending == old(pending) + (old(biValid) + 10) / 8 && biValid == (old(biValid) + 10) % 8
    {
      pending, biValid := pending + (biValid + 10) / 8, (biValid + 10) % 8;
    }

    /** A flush is marked by an empty block; after a full flush the window is filled from its start again. */
    method MarkFlush(flush: Flush)
      requires Ready() && NoLast(blocks) && pending == 0 && Whole()
      modifies this`blocks, this`pending, this`biValid, this`availOut, this`strstart, this`blockStart, this`insert
      ensures Ready() && NoLast(blocks) && Whole() && (availOut > 0 ==> pending == 0) && availOut <= old(availOut)
      ensures if flush == PartialFlush then
          blocks == old(blocks) && old(availOut) - availOut + pending == (old(biValid) + 10) / 8
        else Takes(old(blocks), old(availOut), 0, old(biValid), blocks, availOut, pending)
      ensures if flush == PartialFlush || flush == BlockFlush then blocks == old(blocks)
        else |blocks| == |old(blocks)| + 1 && blocks[|old(blocks)|].payload == []
    {
      hide Payloads, AllValid, NoLast, Takes;
      ghost var before, room, bits := blocks, availOut, biValid;
      TakesNothing(blocks, availOut, 0, biValid);
      if flush == PartialFlush {
        Align();
      } else if flush != BlockFlush {
        StoredBlockFromWindow(0, false);
        if flush == FullFlush {
          strstart, blockStart, insert := 0, 0, 0;
        }
        TakesFlushed(before, room, 0, bits, blocks, availOut, pending, Min(pending, availOut));
      }
      FlushPending();
    }

    /** All room that is gone was taken by new blocks; a partial flush may take up to two bytes more. */
    ghost predicate Spends(flush: Flush, before: seq<StoredBlock>, room: nat, waiting: nat, bits: nat)
      reads `blocks, `availOut, `pending
    {
      if flush == PartialFlush then exists n :: 0 <= n <= 2 && SpendsBut(n, before, room, waiting, bits)
      else Takes(before, room, waiting, bits, blocks, availOut, pending)
    }

    ghost predicate SpendsBut(n: int, before: seq<StoredBlock>, room: nat, waiting: nat, bits: nat)
      reads `blocks, `availOut, `pending
    {
      && before <= blocks && availOut <= room
      && room - availOut + pending - waiting ==
         SizeOf(blocks) - SizeOf(before) + n + if |blocks| > |before| && bits > 5 then 1 else 0
    }

    lemma SpentAligning(before: seq<StoredBlock>, room: nat, bits: nat, room1: nat, bits1: nat)
      requires Takes(before, room, 0, bits, blocks, room1, 0) && bits1 <= 7
      requires availOut <= room1 && room1 - availOut + pending == (bits1 + 10) / 8
      ensures Spends(PartialFlush, before, room, 0, bits)
    {
      hide SizeOf;
      assert SpendsBut((bits1 + 10) / 8, before, room, 0, bits);
    }

    lemma SpentAtLeast(flush: Flush, before: seq<StoredBlock>, room: nat, waiting: nat, bits: nat)
      requires Takes(before, room, waiting, bits, blocks, availOut, pending)
      ensures Spends(flush, before, room, waiting, bits)
    {
      hide SizeOf;
      assert SpendsBut(0, before, room, waiting, bits);
    }

    lemma SpentFlushing(flush: Flush, before: seq<StoredBlock>, room: nat, waiting: nat, bits: nat)
      requires Spends(flush, before, room, 0, bits)
      ensures Spends(flush, before, room + waiting, waiting, bits)
    {
      hide SizeOf;
      if flush == PartialFlush {
        var n :| 0 <= n <= 2 && SpendsBut(n, before, room, 0, bits);
        assert SpendsBut(n, before, room + waiting, waiting, bits);
      }
    }

    lemma FewBits()
      requires Ready()
      ensures biValid <= 7
    {
    }

    /** Start a new block or continue the current one; stop tells that the call ends here. */
    method NewBlocks(flush: Flush) returns (stop: bool)
      requires Idle() && !finished && pending == 0
      modifies this, window
      ensures Idle() && total + nextIn == old(total + nextIn) && |nextIn| <= old(|nextIn|)
      ensures Spends(flush, old(blocks), old(availOut), 0, old(biValid))
      ensures lastFlush == old(lastFlush) && (finished ==> flush == Finish)
      ensures stop && availOut > 0 ==> pending == 0 && if flush == NoFlush then nextIn == [] else Whole()
      ensures !stop ==> pending == 0 && Whole() && if flush == Finish then finished else availOut > 0
      ensures flush == Finish ==> (!stop <==> old(Finishes(flush)))
      ensures availOut <= old(availOut)
      ensures old(availOut) > 0 && stop ==> availOut < old(availOut) || nextIn == []
      ensures old(availOut) > 0 && stop && flush == Finish ==> availOut < old(availOut)
    {
      hide Ready, NoLast, Finished, Inflate, Finishes, Takes, SizeOf, Spends;
      ghost var before, room, bits := blocks, availOut, biValid;
      var state := DeflateStored(flush);
      TakesIs(before, room, 0, bits, blocks, availOut, pending);
      finished := state == FinishStarted || state == FinishDone;
      SpentAtLeast(flush, before, room, 0, bits);
      if state == BlockDone {
        ghost var before1, room1, bits1 := blocks, availOut, biValid;
        FewBits();
        MarkFlush(flush);
        if flush == PartialFlush {
          SpentAligning(before, room, bits, room1, bits1);
        } else {
          TakesMore(before, room, 0, bits, before1, room1, 0, bits1, blocks, availOut, pending);
          SpentAtLeast(flush, before, room, 0, bits);
        }
        return availOut == 0;
      }
      return state == NeedMore || state == FinishStarted;
    }

    /** Whether a call is refused: there is no room, or nothing to do, or input after the end. */
    predicate IsRefused(flush: Flush)
      reads `finished, `availOut, `pending, `nextIn, `lastFlush
    {
      || availOut == 0
      || (pending == 0 && nextIn == [] && Rank(Some(flush)) <= Rank(lastFlush) && flush != Finish)
      || (pending < availOut && finished && nextIn != [])
    }

    /** Whether a call reaches the end of the stream: with room for what is pending and something more, everything is
        in the blocks already or fits into direct ones. */
    ghost predicate ReachesEnd(flush: Flush)
      requires 0 <= Left()
      reads `finished, `availOut, `pending, `nextIn, `biValid, `strstart, `blockStart
    {
      && flush == Finish && pending < availOut
      && if finished then nextIn == [] else availOut - pending >= Needed(HeaderBytes(), Left() + |nextIn|)
    }

    /** deflate(). Each reply is given exactly when it should be, and a call that is not refused gets on. */
    method Deflate(flush: Flush) returns (reply: Reply)
      requires Idle()
      modifies this, window
      ensures Idle() && total + nextIn == old(total + nextIn)
      ensures Spends(flush, old(blocks), old(availOut), old(pending), old(biValid))
      ensures reply == StreamError <==> old(finished) && flush != Finish
      ensures reply == BufError <==> !(old(finished) && flush != Finish) && old(IsRefused(flush))
      ensures reply == StreamEnd <==> old(ReachesEnd(flush))
      ensures reply == StreamEnd ==> finished && pending == 0 && Whole()
      ensures reply == Okay && availOut > 0 ==> pending == 0 && if flush == NoFlush then nextIn == [] else Whole()
      ensures reply == StreamError || reply == BufError ==> blocks == old(blocks)
      ensures reply == Okay ==>
        availOut < old(availOut) || |nextIn| < old(|nextIn|) || Rank(lastFlush) > Rank(old(lastFlush))
      ensures lastFlush ==
        if reply == StreamError || old(availOut) == 0 then old(lastFlush)
        else if reply == Okay && availOut == 0 then None else Some(flush)
    {
      hide Ready, NoLast, Finished, Inflate, Takes, SizeOf, Spends;
      ghost var before, room, waiting, bits := blocks, availOut, pending, biValid;
      TakesNothing(blocks, room, pending, biValid);
      SpentAtLeast(flush, before, room, waiting, bits);
      if finished && flush != Finish { return StreamError; }
      if availOut == 0 { return BufError; }
      var oldFlush := lastFlush;
      lastFlush := Some(flush);
      if pending != 0 {
        TakesFlushed(before, room, waiting, bits, blocks, availOut, pending, Min(pending, availOut));
        FlushPending();
        SpentAtLeast(flush, before, room, waiting, bits);
        if availOut == 0 {
          lastFlush := None;
          return Okay;
        }
      } else if nextIn == [] && Rank(Some(flush)) <= Rank(oldFlush) && flush != Finish {
        return BufError;
      }
      if finished && nextIn != [] { return BufError; }
      if nextIn != [] || (flush != NoFlush && !finished) {
        var stop := NewBlocks(flush);
        SpentFlushing(flush, before, room - waiting, waiting, bits);
        if stop {
          if availOut == 0 { lastFlush := None; }
          return Okay;
        }
      }
      return if flush != Finish then Okay else StreamEnd;
    }

    /** A call with its input and output space, and what the blocks inflate to afterwards. */
    method NextCall(c: Call) returns (reply: Reply, ghost text: seq<byte>)
      requires Idle()
      modifies this, window
      ensures Idle() && total + nextIn == old(total + nextIn) + c.bytes && old(blocks) <= blocks
      ensures Inflate(blocks) == Some(text) && text <= total + nextIn
      ensures IsDone(c.flush, reply, availOut) ==> text == total + nextIn
      ensures Answered(total + nextIn, c, old(blocks), old(pending), Outcome(reply))
    {
      hide Ready, NoLast, Inflate, Spends;
      IsEndedHere();
      nextIn, availOut := nextIn + c.bytes, c.room;
      assert total + nextIn == old(total + nextIn) + c.bytes;
      EnoughToFinish(c);
      ghost var before := blocks;
      reply := Deflate(c.flush);
      SpentKeeps(c.flush, before, c.room, old(pending), old(biValid));
      IsEndedHere();
      IdleInflates();
      text := total[..|total| - Left()];
      assert Whole() ==> text == total == total + nextIn;
    }

    function Outcome(reply: Reply): StoredOutcome
      reads `blocks, `availOut, `pending
    {
      StoredOutcome(reply, blocks, availOut, pending)
    }

    lemma IsEndedHere()
      requires Idle()
      ensures IsEnded(blocks) <==> finished
      ensures 0 <= Left() <= |total| && HeaderBytes() <= 6
    {
    }

    lemma SpentKeeps(flush: Flush, before: seq<StoredBlock>, room: nat, waiting: nat, bits: nat)
      requires Spends(flush, before, room, waiting, bits)
      ensures before <= blocks && availOut <= room
    {
    }

    lemma EnoughToFinish(c: Call)
      requires 0 <= Left() <= |total| && HeaderBytes() <= 6 && availOut == c.room
      ensures c.flush == Finish && !finished && c.room >= pending + Needed(6, |total + nextIn|) ==> ReachesEnd(c.flush)
    {
      NeededMono(HeaderBytes(), 6, Left() + |nextIn|, |total + nextIn|);
    }

    /** Any number of calls, in any order and also after errors. */
    method StoreAll(calls: seq<Call>) returns (run: seq<StoredOutcome>)
      requires Idle() && total == [] && nextIn == [] && blocks == [] && pending == 0
      modifies this, window
      ensures Idle() && |run| == |calls| && StoredAccounts(calls, run)
    {
      hide Idle, Inflate, StoredAccounts, StoredSoFar, Answered;
      assert total + nextIn == [];
      run := [];
      StartsWithNothing(calls);
      while |run| < |calls|
        modifies this, window
        invariant |run| <= |calls| && Idle() && StoredSoFar(calls, run, blocks, pending, total + nextIn)
        decreases |calls| - |run|
      {
        ghost var before, waiting, all := blocks, pending, total + nextIn;
        var reply;
        ghost var text: seq<byte>;
        reply, text := NextCall(calls[|run|]);
        OneMoreStored(calls, run, before, waiting, all, Outcome(reply), text);
        run := run + [Outcome(reply)];
      }
      EndsStored(calls, run, blocks, pending, total + nextIn);
    }

    /** deflateInit2 at level 0. */
    constructor (windowBits: int, memLevel: int, input: seq<byte>, room: nat)
      requires 9 <= windowBits <= 15 && 1 <= memLevel <= 9
      ensures Idle() && !finished && pending == 0 && blocks == []
      ensures total == [] && nextIn == input && availOut == room
      ensures wSize == Pow(2, windowBits) && fresh(window)
    {
      WindowSizes();
      wSize := Pow(2, windowBits);
      pendingBufSize := 4 * Pow(2, memLevel + 6);
      window := new byte[2 * Pow(2, windowBits)];
      nextIn, availOut, pending, biValid, blocks := input, room, 0, 0, [];
      strstart, blockStart, insert, matches, highWater := 0, 0, 0, 0, 0;
      finished, lastFlush := false, Some(NoFlush);
      total := [];
      new;
      hide Pow;
    }
  }

  lemma ReadMore(blocks: seq<StoredBlock>, total: seq<byte>, left: int, bytes: seq<byte>)
    requires 0 <= left <= |total| && Payloads(blocks) == total[..|total| - left]
    ensures Payloads(blocks) == (total + bytes)[..|total + bytes| - (left + |bytes|)]
  {
  }
}
