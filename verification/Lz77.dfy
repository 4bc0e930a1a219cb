/** What a sequence of LZ77 symbols means: the decoder of section 3.2.5 of RFC 1951, without the Huffman layer. */
module Lz77 {
  import opened Arith

  /** A literal byte, or a copy of length bytes from dist bytes back. */
  datatype Token = Literal(c: byte) | Match(dist: nat, length: nat)

  /** What is handed over when a block ends: its symbols, the number of bytes they stand for, those bytes
      themselves if they are still in the window, and whether the block is the last one. */
  datatype Block = Block(symbols: seq<Token>, storedLen: int, stored: Option<seq<byte>>, last: bool)

  /** The copy is byte by byte, so it may overlap its own output. */
  function CopyMatch(text: seq<byte>, dist: nat, length: nat): seq<byte>
    requires 1 <= dist <= |text|
    decreases length
  {
    if length == 0 then text else CopyMatch(text + [text[|text| - dist]], dist, length - 1)
  }

  /** One symbol; a pair outside the limits of the format, or reaching back further than the text or than
      the window of the decoder, is refused. */
  function Step(reach: int, text: seq<byte>, t: Token): Option<seq<byte>> {
    match t
    case Literal(c) => Some(text + [c])
    case Match(dist, length) =>
      if 3 <= length <= 258 && 1 <= dist <= |text| && dist <= reach then Some(CopyMatch(text, dist, length)) else None
  }

  /** The text after decoding symbols into a text already decoded. */
  function Decode(reach: int, text: seq<byte>, symbols: seq<Token>): Option<seq<byte>> {
    if symbols == [] then Some(text)
    else
      match Decode(reach, text, symbols[..|symbols| - 1])
      case None => None
      case Some(t) => Step(reach, t, symbols[|symbols| - 1])
  }

  function DecodeBlocks(reach: int, blocks: seq<Block>): Option<seq<byte>> {
    if blocks == [] then Some([])
    else
      match DecodeBlocks(reach, blocks[..|blocks| - 1])
      case None => None
      case Some(t) => Decode(reach, t, blocks[|blocks| - 1].symbols)
  }

  /** All symbols of the blocks. */
  function SymbolsOf(blocks: seq<Block>): seq<Token> {
    if blocks == [] then [] else SymbolsOf(blocks[..|blocks| - 1]) + blocks[|blocks| - 1].symbols
  }

  /** The bytes that a Huffman layer makes of the blocks, if size tells how many it makes of one behind others. */
  ghost function BytesOf(size: (seq<Block>, Block) -> nat, blocks: seq<Block>): nat {
    if blocks == [] then 0
    else BytesOf(size, blocks[..|blocks| - 1]) + size(blocks[..|blocks| - 1], blocks[|blocks| - 1])
  }

  lemma OneBlockLonger(size: (seq<Block>, Block) -> nat, blocks: seq<Block>, b: Block)
    ensures SymbolsOf(blocks + [b]) == SymbolsOf(blocks) + b.symbols
    ensures BytesOf(size, blocks + [b]) == BytesOf(size, blocks) + size(blocks, b)
  {
    assert (blocks + [b])[..|blocks|] == blocks;
  }

  /** The block holds these symbols, for the text from start to end. */
  ghost predicate StandsFor(b: Block, symbols: seq<Token>, text: seq<byte>, start: int, end: int) {
    && 0 <= start <= end <= |text| && b.symbols == symbols && b.storedLen == end - start
    && (b.stored.Some? ==> b.stored.value == text[start..end])
  }

  /** The output of the blocks since before, when there was this room and these bytes were waiting for it: nothing is
      lost, and bytes only wait if there is no room left. */
  ghost predicate Drained(size: (seq<Block>, Block) -> nat, before: seq<Block>, room: nat, waiting: nat,
                          after: seq<Block>, room': nat, waiting': nat)
  {
    && before <= after
    && waiting' - room' == waiting - room + BytesOf(size, after) - BytesOf(size, before)
    && if |after| == |before| then room' == room && waiting' == waiting else waiting' == 0 || room' == 0
  }

  /** A block joins the bytes that wait, and as many of them go out as there is room for. */
  lemma OneBlockDrained(size: (seq<Block>, Block) -> nat, blocks: seq<Block>, b: Block, room: nat, waiting: nat)
    ensures var n := waiting + size(blocks, b);
      Drained(size, blocks, room, waiting, blocks + [b], room - Min(n, room), n - Min(n, room))
  {
    OneBlockLonger(size, blocks, b);
  }

  lemma AllInBlocks(blocks: seq<Block>, b: Block)
    ensures SymbolsOf(blocks + [b]) + [] == SymbolsOf(blocks) + b.symbols
  {
    assert (blocks + [b])[..|blocks|] == blocks;
  }

  lemma NothingWritten(size: (seq<Block>, Block) -> nat, blocks: seq<Block>, room: nat, waiting: nat)
    ensures Drained(size, blocks, room, waiting, blocks, room, waiting)
  {
  }

  lemma SpentIs(size: (seq<Block>, Block) -> nat, before: seq<Block>, room: nat, waiting: nat,
                after: seq<Block>, room': nat, waiting': nat)
    requires Drained(size, before, room, waiting, after, room', waiting')
    ensures before <= after && (waiting == 0 ==> room' <= room && (room' > 0 ==> waiting' == 0))
  {
    MoreBytes(size, before, after);
  }

  lemma {:induction false} MoreBytes(size: (seq<Block>, Block) -> nat, before: seq<Block>, after: seq<Block>)
    requires before <= after
    ensures BytesOf(size, before) <= BytesOf(size, after)
  {
    if |before| < |after| {
      MoreBytes(size, before, after[..|after| - 1]);
    } else {
      assert before == after;
    }
  }

  lemma WrittenMore(size: (seq<Block>, Block) -> nat, a: seq<Block>, ra: nat, wa: nat, b: seq<Block>, rb: nat, wb: nat,
                    c: seq<Block>, rc: nat, wc: nat)
    requires Drained(size, a, ra, wa, b, rb, wb) && Drained(size, b, rb, wb, c, rc, wc)
    ensures Drained(size, a, ra, wa, c, rc, wc)
  {
  }

  /** Blocks of n symbols were added, none of them marked as the last one. */
  ghost predicate Fills(n: int, before: seq<Block>, after: seq<Block>) {
    before <= after && forall i :: |before| <= i < |after| ==> !after[i].last && |after[i].symbols| == n
  }

  /** Such blocks were added, and perhaps another one of any size. */
  ghost predicate FillsAndEnds(n: int, before: seq<Block>, after: seq<Block>) {
    Fills(n, before, after) || (|before| < |after| && Fills(n, before, after[..|after| - 1]))
  }

  /** Blocks were added, none of them marked as the last one. */
  ghost predicate Extends(before: seq<Block>, after: seq<Block>) {
    before <= after && forall i :: |before| <= i < |after| ==> !after[i].last
  }

  /** Blocks were added, and exactly the very last one is marked as such. */
  ghost predicate Closes(before: seq<Block>, after: seq<Block>) {
    |before| < |after| && after[|after| - 1].last && Extends(before, after[..|after| - 1])
  }

  lemma ExtendsMore(a: seq<Block>, b: seq<Block>, c: seq<Block>)
    requires a == b || Extends(a, b)
    ensures Extends(a, b) && (Extends(b, c) ==> Extends(a, c))
    ensures Closes(b, c) ==> Closes(a, c)
  {
  }

  lemma NothingFilled(n: int, a: seq<Block>)
    ensures Fills(n, a, a)
  {
  }

  lemma FillsMore(n: int, a: seq<Block>, b: seq<Block>, c: seq<Block>)
    requires Fills(n, a, b) && Fills(n, b, c)
    ensures Fills(n, a, c) && a <= b
  {
  }

  /** At most one block of any size was added after those. */
  lemma EndedBy(n: int, a: seq<Block>, b: seq<Block>, c: seq<Block>)
    requires Fills(n, a, b) && b <= c && |c| <= |b| + 1
    ensures FillsAndEnds(n, a, c) && (b == c ==> Extends(a, c)) && a <= b
    ensures Extends(b, c) ==> Extends(a, c)
    ensures Closes(b, c) ==> Closes(a, c)
  {
    ExtendsMore(a, b, c);
    if |c| == |b| + 1 { assert c[..|c| - 1] == b; } else { assert c == b; }
  }

  lemma OneBlockMore(before: seq<Block>, b: Block)
    ensures if b.last then Closes(before, before + [b]) else Extends(before, before + [b])
  {
  }

  lemma BehindSent(sent: seq<Block>, before: seq<Block>, after: seq<Block>)
    ensures Extends(before, after) ==> Extends(sent + before, sent + after)
    ensures Closes(before, after) ==> Closes(sent + before, sent + after)
  {
    if Closes(before, after) {
      assert (sent + after)[..|sent + after| - 1] == sent + after[..|after| - 1];
    }
  }

  // ---- Decoding from the middle

  lemma {:induction false} CopyBehind(past: seq<byte>, text: seq<byte>, dist: nat, length: nat)
    requires 1 <= dist <= |text|
    ensures CopyMatch(past + text, dist, length) == past + CopyMatch(text, dist, length)
    decreases length
  {
    if length != 0 {
      var c := text[|text| - dist];
      assert past + text + [c] == past + (text + [c]);
      CopyBehind(past, text + [c], dist, length - 1);
    }
  }

  /** Text in front of what a decoder has does not disturb it. */
  lemma {:induction false} DecodeBehind(reach: int, past: seq<byte>, text: seq<byte>, symbols: seq<Token>)
    requires Decode(reach, text, symbols).Some?
    ensures Decode(reach, past + text, symbols) == Some(past + Decode(reach, text, symbols).value)
  {
    if symbols != [] {
      DecodeBehind(reach, past, text, symbols[..|symbols| - 1]);
      var t := Decode(reach, text, symbols[..|symbols| - 1]).value;
      match symbols[|symbols| - 1] {
        case Literal(c) => assert past + t + [c] == past + (t + [c]);
        case Match(dist, length) => CopyBehind(past, t, dist, length);
      }
    }
  }

  /** Blocks that decode on their own also decode behind others. */
  lemma {:induction false} DecodesBehind(reach: int, sent: seq<Block>, past: seq<byte>, blocks: seq<Block>,
                                         text: seq<byte>)
    requires DecodeBlocks(reach, sent) == Some(past) && DecodeBlocks(reach, blocks) == Some(text)
    ensures DecodeBlocks(reach, sent + blocks) == Some(past + text)
    decreases |blocks|
  {
    if blocks == [] {
      assert sent + blocks == sent && past + text == past;
    } else {
      var init, b := blocks[..|blocks| - 1], blocks[|blocks| - 1];
      DecodesBehind(reach, sent, past, init, DecodeBlocks(reach, init).value);
      assert (sent + blocks)[..|sent + blocks| - 1] == sent + init;
      DecodeBehind(reach, past, DecodeBlocks(reach, init).value, b.symbols);
    }
  }

  /** What follows before decodes on its own: a decoder can start there. */
  ghost predicate StandAlone(reach: int, before: seq<Block>, all: seq<Block>) {
    && before <= all
    && var text, rest := DecodeBlocks(reach, before), DecodeBlocks(reach, all[|before|..]);
      text.Some? && rest.Some? && DecodeBlocks(reach, all) == Some(text.value + rest.value)
  }

  lemma StandsAloneLonger(reach: int, before: seq<Block>, sent: seq<Block>, more: seq<Block>)
    requires StandAlone(reach, before, sent) && DecodeBlocks(reach, more).Some?
    ensures StandAlone(reach, before, sent + more)
  {
    hide DecodeBlocks;
    BehindPrefix(before, sent, more);
    ThreeParts(reach, sent[|before|..], sent, more, DecodeBlocks(reach, before).value,
      DecodeBlocks(reach, sent[|before|..]).value, DecodeBlocks(reach, more).value);
  }

  lemma ThreeParts(reach: int, rest: seq<Block>, sent: seq<Block>, more: seq<Block>, text: seq<byte>,
                   middle: seq<byte>, next: seq<byte>)
    requires DecodeBlocks(reach, rest) == Some(middle) && DecodeBlocks(reach, more) == Some(next)
    requires DecodeBlocks(reach, sent) == Some(text + middle)
    ensures DecodeBlocks(reach, rest + more) == Some(middle + next)
    ensures DecodeBlocks(reach, sent + more) == Some(text + (middle + next))
  {
    hide DecodeBlocks;
    DecodesBehind(reach, rest, middle, more, next);
    DecodesBehind(reach, sent, text + middle, more, next);
    assert text + middle + next == text + (middle + next);
  }

  lemma BehindPrefix(before: seq<Block>, sent: seq<Block>, more: seq<Block>)
    requires before <= sent
    ensures before <= sent + more && (sent + more)[|before|..] == sent[|before|..] + more
  {
  }

  lemma StandsAloneHere(reach: int, sent: seq<Block>)
    requires DecodeBlocks(reach, sent).Some?
    ensures StandAlone(reach, sent, sent)
  {
    assert sent[|sent|..] == [];
    assert DecodeBlocks(reach, sent).value + [] == DecodeBlocks(reach, sent).value;
  }

  /** The symbols take a decoder from text[..start] to text[..end]. */
  ghost predicate Spells(reach: int, text: seq<byte>, start: int, symbols: seq<Token>, end: int) {
    0 <= start <= end <= |text| && Decode(reach, text[..start], symbols) == Some(text[..end])
  }

  /** The blocks take a decoder from nothing to text[..end], and each block tells its stored form truly. */
  ghost predicate BlocksSpell(reach: int, text: seq<byte>, blocks: seq<Block>, end: int)
    decreases blocks
  {
    if blocks == [] then end == 0
    else
      var b := blocks[|blocks| - 1];
      var start := end - b.storedLen;
      && BlocksSpell(reach, text, blocks[..|blocks| - 1], start)
      && Spells(reach, text, start, b.symbols, end)
      && (b.stored.Some? ==> b.stored.value == text[start..end])
  }

  lemma SpellsRange(reach: int, text: seq<byte>, start: int, symbols: seq<Token>, end: int)
    requires Spells(reach, text, start, symbols, end)
    ensures 0 <= start <= end <= |text|
  {
  }

  lemma NothingSpelled(reach: int, text: seq<byte>, start: nat)
    requires start <= |text|
    ensures Spells(reach, text, start, [], start)
  {
  }

  lemma LiteralSpells(reach: int, text: seq<byte>, start: int, symbols: seq<Token>, end: int)
    requires Spells(reach, text, start, symbols, end) && end < |text|
    ensures Spells(reach, text, start, symbols + [Literal(text[end])], end + 1)
  {
    assert (symbols + [Literal(text[end])])[..|symbols|] == symbols;
    assert text[..end] + [text[end]] == text[..end + 1];
  }

  /** The text at a position repeats itself from dist bytes back, for length bytes. */
  ghost predicate Repeats(text: seq<byte>, at: int, dist: int, length: int) {
    && 1 <= dist <= at && 0 <= length && at + length <= |text|
    && forall j :: at <= j < at + length ==> text[j] == text[j - dist]
  }

  /** Copying repeats the text if the text repeats itself at that distance. */
  lemma {:induction false} CopyIsText(text: seq<byte>, end: nat, dist: nat, length: nat)
    requires Repeats(text, end, dist, length)
    ensures CopyMatch(text[..end], dist, length) == text[..end + length]
    decreases length
  {
    if length != 0 {
      assert text[end] == text[end - dist];
      assert text[..end] + [text[end - dist]] == text[..end + 1];
      CopyIsText(text, end + 1, dist, length - 1);
    }
  }

  lemma MatchSpells(reach: int, text: seq<byte>, start: int, symbols: seq<Token>, end: int, dist: nat, length: nat)
    requires Spells(reach, text, start, symbols, end)
    requires 3 <= length <= 258 && dist <= reach && Repeats(text, end, dist, length)
    ensures Spells(reach, text, start, symbols + [Match(dist, length)], end + length)
  {
    assert (symbols + [Match(dist, length)])[..|symbols|] == symbols;
    CopyIsText(text, end, dist, length);
  }

  /** More input does not change what was spelled. */
  lemma SpellsLonger(reach: int, text: seq<byte>, more: seq<byte>, start: int, symbols: seq<Token>, end: int)
    requires Spells(reach, text, start, symbols, end)
    ensures Spells(reach, text + more, start, symbols, end)
  {
    assert (text + more)[..start] == text[..start];
    assert (text + more)[..end] == text[..end];
  }

  lemma {:induction false} BlocksSpellLonger(reach: int, text: seq<byte>, more: seq<byte>, blocks: seq<Block>, end: int)
    requires BlocksSpell(reach, text, blocks, end)
    ensures BlocksSpell(reach, text + more, blocks, end)
    decreases blocks
  {
    if blocks != [] {
      var b := blocks[|blocks| - 1];
      var start := end - b.storedLen;
      BlocksSpellLonger(reach, text, more, blocks[..|blocks| - 1], start);
      SpellsLonger(reach, text, more, start, b.symbols, end);
      assert (text + more)[start..end] == text[start..end];
    }
  }

  /** Ending a block: its symbols join the blocks. */
  lemma BlockEnds(reach: int, text: seq<byte>, blocks: seq<Block>, start: int, b: Block, end: int)
    requires BlocksSpell(reach, text, blocks, start) && Spells(reach, text, start, b.symbols, end)
    requires b.storedLen == end - start && (b.stored.Some? ==> b.stored.value == text[start..end])
    ensures BlocksSpell(reach, text, blocks + [b], end)
  {
  }

  /** The decoder turns the blocks back into the text. */
  lemma {:induction false} BlocksDecode(reach: int, text: seq<byte>, blocks: seq<Block>, end: int)
    requires BlocksSpell(reach, text, blocks, end)
    ensures 0 <= end <= |text| && DecodeBlocks(reach, blocks) == Some(text[..end])
    decreases blocks
  {
    if blocks != [] {
      BlocksDecode(reach, text, blocks[..|blocks| - 1], end - blocks[|blocks| - 1].storedLen);
    } else {
      assert text[..0] == [];
    }
  }

  /** Every pair that was accepted is within the limits. */
  lemma {:induction false} DecodedInLimits(reach: int, text: seq<byte>, symbols: seq<Token>)
    requires Decode(reach, text, symbols).Some?
    ensures forall i :: 0 <= i < |symbols| && symbols[i].Match? ==>
      3 <= symbols[i].length <= 258 && 1 <= symbols[i].dist <= reach
  {
    if symbols != [] {
      DecodedInLimits(reach, text, symbols[..|symbols| - 1]);
    }
  }
}
