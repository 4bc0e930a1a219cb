/** Sequences of calls of deflate(): what the replies and the blocks written say about the input given. */
module DeflateCalls {
  import opened Arith
  import opened Lz77

  datatype Flush = NoFlush | PartialFlush | SyncFlush | FullFlush | Finish | BlockFlush

  /** One call of deflate(): the new input, the flush mode and the output space. */
  datatype Call = Call(bytes: seq<byte>, flush: Flush, room: nat)

  /** The result of deflate(). */
  datatype Reply = Okay | StreamEnd | StreamError | BufError

  /** RANK, which orders the flush modes by what they do. */
  function Rank(f: Option<Flush>): int {
    match f
    case None => -2
    case Some(NoFlush) => 0
    case Some(PartialFlush) => 2
    case Some(SyncFlush) => 4
    case Some(FullFlush) => 6
    case Some(Finish) => 8
    case Some(BlockFlush) => 1
  }

  /** The stream has ended, or a flush was asked for and had space enough. */
  predicate IsDone(flush: Flush, reply: Reply, room: nat) {
    reply == StreamEnd || (reply == Okay && flush != NoFlush && room > 0)
  }

  function Given(calls: seq<Call>): seq<byte> {
    if calls == [] then [] else Given(calls[..|calls| - 1]) + calls[|calls| - 1].bytes
  }

  lemma GivenNext(calls: seq<Call>, n: nat, past: seq<byte>, all: seq<byte>)
    requires n < |calls| && past + all == Given(calls[..n])
    ensures past + (all + calls[n].bytes) == Given(calls[..n + 1])
  {
    assert calls[..n + 1][..n] == calls[..n];
    assert past + (all + calls[n].bytes) == past + all + calls[n].bytes;
  }

  /** The reply to a call, the blocks written so far and the output space left. */
  datatype Outcome = Outcome(reply: Reply, blocks: seq<Block>, room: nat)

  function BlocksOf(run: seq<Outcome>): seq<Block> { if run == [] then [] else run[|run| - 1].blocks }

  predicate IsClosed(blocks: seq<Block>) { blocks != [] && blocks[|blocks| - 1].last }

  /** No block but the very last one may be marked as such. */
  ghost predicate OnceClosed(blocks: seq<Block>) {
    if IsClosed(blocks) then Closes([], blocks) else Extends([], blocks)
  }

  lemma ClosedIs(before: seq<Block>, after: seq<Block>)
    ensures Closes([], after) ==> IsClosed(after) && OnceClosed(after)
    ensures Extends([], after) ==> !IsClosed(after) && OnceClosed(after)
    ensures Extends([], before) && Closes(before, after) ==> Closes([], after) && before <= after
    ensures Extends([], before) && Extends(before, after) ==> Extends([], after) && before <= after
  {
    if Extends([], before) { ExtendsMore([], before, after); }
  }

  /** The replies that are given, and how the blocks change. */
  ghost predicate Replied(flush: Flush, before: seq<Block>, reply: Reply, after: seq<Block>, room: nat) {
    && before <= after && OnceClosed(after)
    && (reply == StreamError <==> IsClosed(before) && flush != Finish)
    && (reply == StreamEnd ==> flush == Finish && IsClosed(after))
    && (reply == Okay && flush == Finish ==> room == 0)
    && (reply == StreamError || reply == BufError ==> after == before)
    && (flush != Finish ==> IsClosed(after) == IsClosed(before))
  }

  /** After a call the blocks decode to a prefix of the input given so far, and to all of it if the call is done. Only
      the block that ends the stream is marked as the last one, and nothing follows it. */
  ghost predicate Accounted(reach: int, given: seq<byte>, c: Call, before: seq<Block>, o: Outcome) {
    && DecodeBlocks(reach, o.blocks).Some? && DecodeBlocks(reach, o.blocks).value <= given
    && (IsDone(c.flush, o.reply, o.room) ==> DecodeBlocks(reach, o.blocks).value == given)
    && Replied(c.flush, before, o.reply, o.blocks, o.room)
  }

  /** After such a call the compressor has forgotten what came before. */
  predicate Restarts(c: Call, o: Outcome) { c.flush == FullFlush && o.reply == Okay && o.room > 0 }

  ghost predicate AllAccounted(reach: int, calls: seq<Call>, run: seq<Outcome>) {
    && |run| <= |calls|
    && forall i :: 0 <= i < |run| ==>
         Accounted(reach, Given(calls[..i + 1]), calls[i], BlocksOf(run[..i]), run[i])
  }

  /** This holds after every one of the calls, and no block is taken back. A decoder can start behind a full flush. */
  ghost predicate Accounts(reach: int, calls: seq<Call>, run: seq<Outcome>) {
    && AllAccounted(reach, calls, run)
    && (forall i, j :: 0 <= i < j < |run| ==> run[i].blocks <= run[j].blocks)
    && (forall i, j :: 0 <= i < j < |run| && Restarts(calls[i], run[i]) ==>
          StandAlone(reach, run[i].blocks, run[j].blocks))
  }

  /** The blocks up to the last full flush decode to past, and can be decoded from any full flush on. */
  ghost predicate Settled(reach: int, calls: seq<Call>, run: seq<Outcome>, sent: seq<Block>, past: seq<byte>) {
    && |run| <= |calls| && Extends([], sent) && DecodeBlocks(reach, sent) == Some(past)
    && (forall i :: 0 <= i < |run| && Restarts(calls[i], run[i]) ==> StandAlone(reach, run[i].blocks, sent))
  }

  /** Between calls: blocks and all are what was written and given since the last full flush. */
  ghost predicate BetweenCalls(reach: int, calls: seq<Call>, run: seq<Outcome>, sent: seq<Block>, past: seq<byte>,
                               blocks: seq<Block>, all: seq<byte>)
  {
    && Accounts(reach, calls, run) && Settled(reach, calls, run, sent, past)
    && sent + blocks == BlocksOf(run) && past + all == Given(calls[..|run|])
  }

  lemma StartsAccounted(reach: int, calls: seq<Call>)
    ensures BetweenCalls(reach, calls, [], [], [], [], [])
  {
    assert calls[..0] == [];
    assert DecodeBlocks(reach, []) == Some([]) && Given([]) == [];
    hide DecodeBlocks, Given;
  }

  lemma EndsAccounted(reach: int, calls: seq<Call>, run: seq<Outcome>, sent: seq<Block>, past: seq<byte>,
                      blocks: seq<Block>, all: seq<byte>)
    requires BetweenCalls(reach, calls, run, sent, past, blocks, all)
    ensures Accounts(reach, calls, run)
  {
  }

  /** What a call leaves: after are the blocks since the last full flush, text is what they decode to. */
  ghost predicate Leaves(reach: int, flush: Flush, before: seq<Block>, given: seq<byte>, reply: Reply,
                         after: seq<Block>, room: nat, text: seq<byte>, forgets: bool)
  {
    && DecodeBlocks(reach, after) == Some(text) && text <= given
    && (IsDone(flush, reply, room) ==> text == given)
    && Replied(flush, before, reply, after, room)
    && (forgets ==> text == given && !IsClosed(after))
    && (flush == FullFlush && reply == Okay && room > 0 ==> forgets)
  }

  /** A call that writes no block. */
  lemma NothingDone(reach: int, flush: Flush, blocks: seq<Block>, given: seq<byte>, reply: Reply, room: nat,
                    text: seq<byte>)
    requires DecodeBlocks(reach, blocks) == Some(text) && text <= given && OnceClosed(blocks)
    requires reply == StreamError <==> IsClosed(blocks) && flush != Finish
    requires reply == StreamEnd ==> flush == Finish && IsClosed(blocks) && text == given
    requires reply == Okay && flush != NoFlush ==> room == 0
    ensures Leaves(reach, flush, blocks, given, reply, blocks, room, text, false)
  {
    hide DecodeBlocks, OnceClosed, IsClosed;
  }

  /** A call that ends within the compressor or behind it. */
  lemma SomethingDone(reach: int, flush: Flush, before: seq<Block>, given: seq<byte>, stop: bool, reply: Reply,
                      made: seq<Block>, room: nat, text: seq<byte>, forgets: bool)
    requires DecodeBlocks(reach, made) == Some(text) && text <= given && before <= made && OnceClosed(made)
    requires !IsClosed(before) && (IsClosed(made) ==> flush == Finish) && (forgets ==> text == given && !IsClosed(made))
    requires reply == if stop || flush != Finish then Okay else StreamEnd
    requires stop && room > 0 ==> flush == NoFlush || (forgets && text == given)
    requires !stop ==> text == given && (flush == Finish ==> IsClosed(made))
    requires flush == FullFlush && room > 0 ==> forgets
    requires flush == Finish ==> !forgets
    ensures Leaves(reach, flush, before, given, reply, made, room, text, forgets)
  {
    hide DecodeBlocks, OnceClosed, IsClosed;
  }

  /** One call more. */
  lemma OneMoreCall(reach: int, calls: seq<Call>, run: seq<Outcome>, sent: seq<Block>, past: seq<byte>,
                    before: seq<Block>, all: seq<byte>, reply: Reply, after: seq<Block>, room: nat, text: seq<byte>,
                    forgets: bool)
    requires BetweenCalls(reach, calls, run, sent, past, before, all) && |run| < |calls|
    requires Leaves(reach, calls[|run|].flush, before, all + calls[|run|].bytes, reply, after, room, text, forgets)
    ensures var run', bytes := run + [Outcome(reply, sent + after, room)], calls[|run|].bytes;
      if forgets then BetweenCalls(reach, calls, run', sent + after, past + text, [], [])
      else BetweenCalls(reach, calls, run', sent, past, after, all + bytes)
  {
    hide DecodeBlocks, Given, StandAlone, Accounts, Extends, Closes, IsDone;
    var o := Outcome(reply, sent + after, room);
    GivenNext(calls, |run|, past, all);
    assert past + text <= past + (all + calls[|run|].bytes);
    BehindPast(sent, calls[|run|].flush, before, reply, after, room);
    SettledMore(reach, calls, run, sent, past, after, text, o, forgets);
    DecodesBehind(reach, sent, past, after, text);
    OutcomeFollows(reach, calls, run, o);
    if forgets {
      assert sent + after + [] == sent + after && past + text + [] == past + text;
    }
  }

  /** Blocks sent before do not change what a reply means. */
  lemma BehindPast(sent: seq<Block>, flush: Flush, before: seq<Block>, reply: Reply, after: seq<Block>, room: nat)
    requires Extends([], sent) && Replied(flush, before, reply, after, room)
    ensures Replied(flush, sent + before, reply, sent + after, room)
  {
    BehindSent(sent, [], after);
    ExtendsMore([], sent, sent + after);
    assert sent + [] == sent;
    assert before != [] ==> (sent + before)[|sent + before| - 1] == before[|before| - 1];
    assert after != [] ==> (sent + after)[|sent + after| - 1] == after[|after| - 1];
  }

  /** Full flushes stay restarting points, and this call may add one. */
  lemma SettledMore(reach: int, calls: seq<Call>, run: seq<Outcome>, sent: seq<Block>, past: seq<byte>,
                    after: seq<Block>, text: seq<byte>, o: Outcome, forgets: bool)
    requires Settled(reach, calls, run, sent, past) && |run| < |calls| && o.blocks == sent + after
    requires DecodeBlocks(reach, after) == Some(text) && OnceClosed(after)
    requires (forgets ==> !IsClosed(after)) && (Restarts(calls[|run|], o) ==> forgets)
    ensures forall i :: 0 <= i < |run| && Restarts(calls[i], run[i]) ==>
      StandAlone(reach, run[i].blocks, sent + after)
    ensures if forgets then Settled(reach, calls, run + [o], sent + after, past + text)
            else Settled(reach, calls, run + [o], sent, past)
  {
    hide DecodeBlocks, StandAlone, Extends;
    DecodesBehind(reach, sent, past, after, text);
    BehindSent(sent, [], after);
    assert sent + [] == sent;
    ExtendsMore([], sent, sent + after);
    forall i | 0 <= i < |run| && Restarts(calls[i], run[i]) ensures StandAlone(reach, run[i].blocks, sent + after) {
      StandsAloneLonger(reach, run[i].blocks, sent, after);
    }
    StandsAloneHere(reach, sent + after);
  }

  lemma OutcomeFollows(reach: int, calls: seq<Call>, run: seq<Outcome>, o: Outcome)
    requires Accounts(reach, calls, run) && |run| < |calls|
    requires Accounted(reach, Given(calls[..|run| + 1]), calls[|run|], BlocksOf(run), o) && BlocksOf(run) <= o.blocks
    requires forall i :: 0 <= i < |run| && Restarts(calls[i], run[i]) ==> StandAlone(reach, run[i].blocks, o.blocks)
    ensures Accounts(reach, calls, run + [o])
  {
    hide AllAccounted, Accounted, StandAlone, Given;
    AccountedNext(reach, calls, run, o);
    forall i | 0 <= i < |run| ensures run[i].blocks <= o.blocks {
      if i < |run| - 1 { assert run[i].blocks <= run[|run| - 1].blocks; }
    }
  }

  lemma AccountedNext(reach: int, calls: seq<Call>, run: seq<Outcome>, o: Outcome)
    requires AllAccounted(reach, calls, run) && |run| < |calls|
    requires Accounted(reach, Given(calls[..|run| + 1]), calls[|run|], BlocksOf(run), o)
    ensures AllAccounted(reach, calls, run + [o])
  {
    hide Accounted, Given, BlocksOf;
    var run' := run + [o];
    forall i | 0 <= i < |run'|
      ensures Accounted(reach, Given(calls[..i + 1]), calls[i], BlocksOf(run'[..i]), run'[i])
    {
      if i == |run| {
        assert run'[..i] == run;
      } else {
        assert run'[..i] == run[..i] && run'[i] == run[i];
      }
    }
  }
}
