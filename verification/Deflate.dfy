/** The LZ77 layer of the compressor: sliding window, hash chains, greedy and lazy matching. */
module DeflateModel {
  import opened Arith
  import opened Lz77
  import opened DeflateCalls
  import opened HashChain
  import opened MatchSearch
  import opened MatchRules

  datatype BlockState = NeedMore | BlockDone | FinishStarted | FinishDone

  /** What a round of a compressor leads to. */
  datatype Round = GoOn | AskForMore | UseUp

  predicate Ended(r: BlockState) { r == FinishStarted || r == FinishDone }

  ghost predicate RollingFrom(k: hashbits, h: bv32, total: seq<byte>, at: int) {
    0 <= at && at + 1 < |total| && Rolling(k, h, total[at], total[at + 1])
  }

  /** Between steps: the last insert strings before position at are not in the chains yet, and a complete string
      at that position can be inserted. */
  ghost predicate ReadyHash(k: hashbits, h: bv32, total: seq<byte>, last: int, at: int, insert: int) {
    last < at - insert && (at + MIN_MATCH <= |total| ==> insert == 0 && RollingFrom(k, h, total, at))
  }

  lemma WrapSmall(x: int)
    requires -0x8000 <= x < 0x1_0000_0000 - 512
    ensures Wrap(x) == 0xffff_ffff ==> x == -1
  {
  }

  lemma RepeatsApart(text: seq<byte>, at: int, dist: int, length: int)
    requires Repeats(text, at, dist, length)
    ensures 1 <= dist
  {
  }

  lemma WrapShift(a: int, b: int, w: int)
    ensures Wrap(a - w - Wrap(b - w)) == Wrap(a - b)
  {
  }

  /** match_start of a waiting match drops below zero in a slide exactly for a match at the largest distance, found
      for the string just before the position from which the window slides. The distance stays what it was. */
  lemma MatchStartBelowZero(wSize: int, strstart: int, matchStart: uint32, dist: int)
    requires 512 <= wSize <= 0x8000 && 2 * wSize - MIN_LOOKAHEAD <= strstart <= 2 * wSize
    requires dist == Wrap(strstart - 1 - matchStart) && 1 <= dist <= wSize - MIN_LOOKAHEAD
    ensures matchStart - wSize < 0 <==> strstart == 2 * wSize - MIN_LOOKAHEAD && dist == wSize - MIN_LOOKAHEAD
    ensures matchStart - wSize < 0 ==> Wrap(matchStart - wSize) == 0xffff_ffff
    ensures Wrap(strstart - wSize - 1 - Wrap(matchStart - wSize)) == dist
  {
    WrapShift(strstart - 1, matchStart, wSize);
  }

  lemma RepeatsLonger(text: seq<byte>, more: seq<byte>, at: int, dist: int, length: int)
    requires Repeats(text, at, dist, length)
    ensures Repeats(text + more, at, dist, length)
  {
  }

  class DeflateState {
    // fixed by deflateInit2 and the configuration table
    const wSize: int
    const hashBits: hashbits
    const litBufsize: int
    const maxChainLength: uint32
    const maxLazyMatch: uint32
    const goodMatch: uint32
    const niceMatch: uint32
    const filtered: bool
    const window: array<byte>
    const prev: array<uint16>
    const head: array<uint16>

    // whether the level asks for lazy matching
    const slow: bool

    // the Huffman layer: how many bytes a block takes behind those before it, and how many mark a flush
    const sizeOf: (seq<Block>, Block) -> nat
    const markSize: Flush -> nat

    // the stream: input not read yet, output space, and the bytes that wait for more of it
    var nextIn: seq<byte>
    var availOut: nat
    var pending: nat
    /** Whether the status is FINISH_STATE, and the flush mode of the last call unless it ran out of space. */
    var finished: bool
    var lastFlush: Option<Flush>

    var insH: bv32
    var blockStart: int
    var matchLength: uint32
    var prevMatch: uint32
    var matchAvailable: bool
    var strstart: uint32
    var matchStart: uint32
    var lookahead: uint32
    var prevLength: uint32
    var insert: uint32
    var highWater: uint32

    // what goes to the Huffman layer: symbols of the current block, and the blocks ended so far
    var symbols: seq<Token>
    var blocks: seq<Block>

    // all input read so far, the position of window[0] in it, the strings in the hash chains and the newest of them
    ghost var total: seq<byte>
    ghost var base: int
    ghost var inserted: set<int>
    ghost var last: int

    // the strings looked at so far, and what was found for them
    ghost var finds: map<int, Find>

    ghost function RulesOf(lazy: bool): Rules {
      Rules(hashBits, MaxDist(), maxChainLength, maxLazyMatch, goodMatch, niceMatch, filtered, lazy)
    }

    function MaxDist(): int { wSize - MIN_LOOKAHEAD }

    ghost predicate Shape() {
      && 512 <= wSize <= 0x8000 && window.Length == 2 * wSize && prev.Length == wSize
      && head.Length == Size(hashBits) && litBufsize >= 128
      && prev != head && (window as object) != (prev as object) && (window as object) != (head as object)
    }

    ghost predicate WindowOk()
      reads `strstart, `lookahead, `insert, `highWater, `total, `base, window
    {
      && Shape()
      && 0 <= base && (base > 0 ==> strstart >= MaxDist()) && strstart + lookahead <= 2 * wSize
      && insert <= 2 && insert <= strstart && highWater <= 2 * wSize
      && |total| == base + strstart + lookahead
      && Holds(window[..], total, base)
    }

    ghost predicate ChainsOk()
      reads `total, `base, `inserted, `last, prev, head
    {
      Shape() && Chains(hashBits, wSize, total, base, head[..], prev[..], inserted, last)
    }

    /** The rolling hash is ready for the string at window index str. */
    ghost predicate RollingAt(str: int)
      reads `base, `total, `insH
    {
      RollingFrom(hashBits, insH, total, base + str)
    }

    ghost predicate HashReady()
      reads `last, `base, `strstart, `insert, `insH, `total
    {
      ReadyHash(hashBits, insH, total, last, base + strstart, insert)
    }

    /** The symbols handed over and pending decode to the input up to position end. */
    ghost predicate OutputOk(end: int)
      reads `total, `base, `blocks, `blockStart, `symbols
    {
      && BlocksSpell(MaxDist(), total, blocks, base + blockStart)
      && Spells(MaxDist(), total, base + blockStart, symbols, end)
    }

    /** The distance of the match found for the string at strstart - 1, in unsigned arithmetic: a slide may take
        match_start below zero. */
    function Distance(): uint32
      reads `strstart, `matchStart
    {
      Wrap(strstart - 1 - matchStart)
    }

    /** A match waiting to be emitted is one, and reaches back no further than the limit. */
    ghost predicate Pending()
      reads `matchLength, `strstart, `matchStart, `total, `base
    {
      matchLength >= MIN_MATCH ==>
          Distance() <= MaxDist() && Repeats(total, base + strstart - 1, Distance(), matchLength)
    }

    /** The invariant between steps; the output covers the input up to end. */
    ghost predicate Ready(end: int)
      reads this, window, prev, head
    {
      WindowOk() && ChainsOk() && HashReady() && OutputOk(end) && Pending()
    }

    // ---- UPDATE_HASH and INSERT_STRING

    method InsertString(str: uint32) returns (matchHead: uint16)
      requires ChainsOk() && Holds(window[..], total, base)
      requires last < base + str && base + str + 2 < |total| && RollingAt(str)
      modifies this`insH, this`inserted, this`last, prev, head
      ensures ChainsOk() && last == base + str && inserted == old(inserted) + {base + str}
      ensures base + str + 3 < |total| ==> RollingAt(str + 1)
      ensures Linked(hashBits, total, base, matchHead, inserted, base + str)
    {
      hide Chains, Rolling, Size, Linked;
      var c := window[str + 2];
      assert c == total[base + str + 2];
      ghost var at := base + str;
      ghost var head0: seq<uint16>, prev0: seq<uint16>, inserted0 := head[..], prev[..], inserted;
      assert Update(hashBits, insH, c) == Three(hashBits, total[at], total[at + 1], c) by {
        assert Rolling(hashBits, insH, total[at], total[at + 1]);
        RollingGives(hashBits, insH, total[at], total[at + 1], c);
      }
      HashInTable(hashBits, insH, c);
      KeepRolling(hashBits, total[at], total[at + 1], c);
      insH := Update(hashBits, insH, c);
      assert 0 <= insH as int < head.Length;
      var h := insH as int;
      assert h == HashAt(hashBits, total, at);
      InsertKeepsChains(hashBits, wSize, total, base, head0, prev0, inserted, last, at, h);
      SlotOfWindow(hashBits, wSize, total, base, head0, prev0, inserted, last, str);
      matchHead := head[h];
      prev[Slot(str, wSize)] := head[h];
      head[h] := str;
      inserted, last := inserted + {at}, at;
      assert head[..] == head0[h := str];
      assert prev[..] == prev0[Slot(at, wSize) := head0[h]];
      LinkedMore(hashBits, total, base, matchHead, inserted0, at);
    }

    // ---- slide_hash

    method SlideHash()
      requires Shape()
      modifies prev, head
      ensures forall h :: 0 <= h < head.Length ==> head[h] == Slid(old(head[h]), wSize)
      ensures forall i :: 0 <= i < prev.Length ==> prev[i] == Slid(old(prev[i]), wSize)
    {
      var n := head.Length;
      while n != 0
        invariant 0 <= n <= head.Length
        invariant forall h :: 0 <= h < n ==> head[h] == old(head[h])
        invariant forall h :: n <= h < head.Length ==> head[h] == Slid(old(head[h]), wSize)
        modifies head
      {
        n := n - 1;
        var m := head[n];
        head[n] := if m >= wSize then m - wSize else 0;
      }
      n := wSize;
      while n != 0
        invariant 0 <= n <= wSize
        invariant forall i :: 0 <= i < n ==> prev[i] == old(prev[i])
        invariant forall i :: n <= i < wSize ==> prev[i] == Slid(old(prev[i]), wSize)
        modifies prev
      {
        n := n - 1;
        var m := prev[n];
        prev[n] := if m >= wSize then m - wSize else 0;
      }
    }

    // ---- longest_match

    /** The string at window index cur may be compared with the one at strstart. */
    ghost predicate Candidate(cur: int)
      reads `total, `base, `inserted, `strstart
    {
      Comparable(hashBits, total, base, inserted, MaxDist(), strstart, cur)
    }

    /** The comparison of the strings at strstart and cur, whose first three bytes agree: eight bytes between two
        tests of the limit. */
    method Compare(cur: uint32) returns (len: int)
      requires Shape() && cur < strstart <= 2 * wSize - MIN_LOOKAHEAD
      requires SameBack(window[..], strstart, strstart - cur, 3)
      ensures 3 <= len <= MAX_MATCH
      ensures SameBack(window[..], strstart, strstart - cur, len)
      ensures len < MAX_MATCH ==> window[strstart + len] != window[cur + len]
    {
      var strend := strstart + MAX_MATCH;
      var scan, match_ := strstart + 2, cur + 2;
      var same := true;
      while same && scan < strend
        invariant strstart + 2 <= scan <= strend && match_ == scan - (strstart - cur)
        invariant (scan - strstart - 2) % 8 == 0 || !same
        invariant same ==> SameBack(window[..], strstart, strstart - cur, scan - strstart + 1)
        invariant !same ==> SameBack(window[..], strstart, strstart - cur, scan - strstart)
        invariant !same ==> scan > strstart + 2 && window[scan] != window[match_]
        decreases strend - scan
      {
        var k := 0;
        ghost var scan0 := scan;
        while k < 8 && same
          invariant 0 <= k <= 8 && scan == scan0 + k && match_ == scan - (strstart - cur)
          invariant k == 0 ==> same
          invariant same ==> SameBack(window[..], strstart, strstart - cur, scan - strstart + 1)
          invariant !same ==> SameBack(window[..], strstart, strstart - cur, scan - strstart)
          invariant !same ==> window[scan] != window[match_]
        {
          scan, match_ := scan + 1, match_ + 1;
          same := window[scan] == window[match_];
          k := k + 1;
        }
      }
      len := MAX_MATCH - (strend - scan);
    }

    /** The number of strings longest_match is ready to look at. */
    ghost function Steps(): nat
      reads `prevLength
    {
      RulesOf(true).Steps(prevLength)
    }

    function Limit(): int
      reads `strstart
    {
      if strstart > MaxDist() then strstart - MaxDist() else 0
    }

    /** All strings of the chain looked at. */
    ghost function Searched(cur: int): set<int>
      requires Shape()
      reads `strstart, `prevLength, `base, prev
    {
      ChainFrom(prev[..], wSize, base, cur, Limit(), Steps())
    }

    /** The quick test and, if it succeeds, the comparison of one candidate; 0 stands for a failed quick test. */
    method TryMatch(cur: uint32, bestLen: int, scanEnd1: byte, scanEnd: byte) returns (len: int)
      requires WindowOk() && Candidate(cur) && strstart <= 2 * wSize - MIN_LOOKAHEAD && lookahead >= MIN_MATCH
      requires 1 <= bestLen <= MAX_MATCH
      requires scanEnd1 == window[strstart + bestLen - 1] && scanEnd == window[strstart + bestLen]
      ensures 0 <= len <= MAX_MATCH
      ensures len > bestLen ==> SameBack(window[..], strstart, strstart - cur, len)
      ensures NoneBetter(window[..], base, strstart, {base + cur}, Max(len, bestLen))
    {
      hide Holds, HashAt, NoneBetter, SameBack;
      ghost var w := window[..];
      if window[cur + bestLen] != scanEnd || window[cur + bestLen - 1] != scanEnd1 || window[cur] != window[strstart]
         || window[cur + 1] != window[strstart + 1]
      {
        Skipped(w, base, strstart, cur, bestLen);
        return 0;
      }
      ThreeAlike(hashBits, w, total, base, strstart, cur);
      len := Compare(cur);
      NoLonger(w, base, strstart, cur, len);
      NoneBetterThan({base + cur}, w, base, strstart, len, Max(len, bestLen));
    }

    /** To the next string of the chain, unless the limit or the end of the count is reached. */
    method NextInChain(cur: uint32, limit: int, chainLength: uint32, ghost n: nat)
      returns (next: uint32, more: bool, chainLength': uint32)
      requires ChainsOk() && last == base + strstart && Candidate(cur) && limit == Limit()
      requires n == if chainLength == 0 then 0x1_0000_0000 else chainLength
      ensures more ==> Candidate(next) && 0 < next < cur
      ensures ChainFrom(prev[..], wSize, base, cur, limit, n) ==
              {base + cur} + if more then ChainFrom(prev[..], wSize, base, next, limit, n - 1) else {}
      ensures more ==> chainLength' != 0 && n - 1 == chainLength'
    {
      hide Chains, ChainFrom, Slot, HashAt, Comparable;
      NextComparable(hashBits, wSize, total, base, head[..], prev[..], inserted, MaxDist(), strstart, cur, limit);
      ChainFromIs(prev[..], wSize, base, cur, limit, n);
      next := prev[Slot(cur, wSize)];
      more, chainLength' := next > limit, chainLength;
      if more {
        chainLength' := Wrap(chainLength - 1);
        more := chainLength' != 0;
      }
    }

    /** A chain leads downwards from its first string. */
    lemma ChainBelow(cur: uint32, n: nat)
      requires ChainsOk() && last == base + strstart && Candidate(cur) && 0 < cur && 0 < n
      ensures base + cur in ChainFrom(prev[..], wSize, base, cur, Limit(), n)
      ensures forall q :: q in ChainFrom(prev[..], wSize, base, cur, Limit(), n) ==> q <= base + cur
    {
      hide Chains, HashAt, ChainFrom, Slot;
      ChainFromIs(prev[..], wSize, base, cur, Limit(), n);
      ChainIsNewest(hashBits, wSize, total, base, head[..], prev[..], inserted, MaxDist(), strstart, cur, Limit(), n);
    }

    /** Follows the chain from hashHead, for no more links than chainLength says, until a match is nice enough. */
    method SearchChain(hashHead: uint16, chainLength0: uint32, nice: int)
      returns (bestLen: int, found: uint32, ghost before: int)
      requires WindowOk() && ChainsOk() && last == base + strstart
      requires lookahead >= MIN_MATCH && strstart <= 2 * wSize - MIN_LOOKAHEAD && 1 <= prevLength <= MAX_MATCH
      requires Candidate(hashHead) && hashHead != 0
      requires Steps() == if chainLength0 == 0 then 0x1_0000_0000 else chainLength0
      ensures bestLen == prevLength ==> found == matchStart
      ensures bestLen > prevLength ==> 1 <= strstart - found <= MaxDist()
      ensures IsBest(window[..], base, strstart, Searched(hashHead), prevLength, nice, bestLen, before, found)
    {
      hide Chains, Holds, ChainFrom, Slot, SameBack, NoneBetter, NoBetter, HashAt;
      var chainLength: uint32 := chainLength0;
      bestLen := prevLength;
      var limit := Limit();
      var scanEnd1, scanEnd := window[strstart + bestLen - 1], window[strstart + bestLen];
      var cur: uint32 := hashHead;
      found, before := matchStart, prevLength;
      var going := true;
      ghost var w, p, all, n := window[..], prev[..], Searched(hashHead), Steps();
      ghost var left := all;
      AllLeft(w, base, strstart, all, bestLen);
      ChainBelow(cur, n);
      while going
        modifies {}
        invariant going ==> Candidate(cur) && 0 < cur && base + cur in left
        invariant prevLength <= bestLen <= MAX_MATCH && (bestLen < nice || bestLen == prevLength)
        invariant scanEnd1 == window[strstart + bestLen - 1] && scanEnd == window[strstart + bestLen]
        invariant bestLen == prevLength ==> found == matchStart
        invariant bestLen > prevLength ==> 1 <= strstart - found <= MaxDist()
        invariant going ==> n == (if chainLength == 0 then 0x1_0000_0000 else chainLength)
        invariant left == if going then ChainFrom(p, wSize, base, cur, limit, n) else {}
        invariant left <= all && forall q :: q in left ==> q <= base + cur
        invariant NoneBetter(w, base, strstart, all - left, bestLen)
        invariant bestLen > prevLength ==> FoundIn(w, base, strstart, all, prevLength, nice, bestLen, before, found)
        decreases if going then cur + 1 else 0
      {
        ghost var best0 := bestLen;
        var len := TryMatch(cur, bestLen, scanEnd1, scanEnd);
        if len > bestLen {
          FoundNow(w, base, strstart, all, left, cur, prevLength, nice, bestLen, len);
          found, before := cur, bestLen;
          bestLen := len;
          if len >= nice { break; }
          scanEnd1, scanEnd := window[strstart + bestLen - 1], window[strstart + bestLen];
        }
        var next, more, chainLength' := NextInChain(cur, limit, chainLength, n);
        n, chainLength, going := n - 1, chainLength', more;
        ghost var rest := if going then ChainFrom(p, wSize, base, next, limit, n) else {};
        if going { ChainBelow(next, n); }
        SearchStep(w, base, strstart, all, left, rest, cur, best0, bestLen);
        left, cur := rest, next;
      }
      assert left == {} || bestLen >= nice;
      EmptyLeft(w, base, strstart, all, left, bestLen);
    }

    /** The answer is right for the input, whatever the window holds behind it. */
    method LongestMatch(hashHead: uint16) returns (length: int, ghost searched: set<int>)
      requires WindowOk() && ChainsOk() && last == base + strstart
      requires lookahead >= MIN_MATCH && strstart <= 2 * wSize - MIN_LOOKAHEAD && 1 <= prevLength <= MAX_MATCH
      requires Candidate(hashHead) && hashHead != 0
      modifies this`matchStart
      ensures prevLength <= length <= MAX_MATCH || length == lookahead < prevLength
      ensures length <= lookahead && (length > prevLength ==> 1 <= strstart - matchStart <= MaxDist())
      ensures Newest(searched, ChainPart(hashBits, total, base, inserted, strstart, hashHead, Limit()), Steps())
      ensures IsLongest(total, base + strstart, searched, prevLength, Min(niceMatch, lookahead), length,
                        strstart - matchStart)
    {
      hide WindowOk, ChainsOk, Candidate, SameBack, NoneBetter, Searched, ChainFrom, ChainPart, Newest, NoBetter;
      var chainLength: uint32 := maxChainLength;
      var nice: int := niceMatch;
      if prevLength >= goodMatch {
        chainLength := chainLength / 4;
      }
      if nice > lookahead {
        nice := lookahead;
      }
      ghost var before;
      var bestLen, found;
      bestLen, found, before := SearchChain(hashHead, chainLength, nice);
      SearchedIsNewest(hashHead);
      searched := Searched(hashHead);
      BestIsLongest(window[..], total, base, strstart, searched, prevLength, nice, bestLen, before, found);
      matchStart := found;
      length := if bestLen <= lookahead then bestLen else lookahead;
    }

    lemma SearchedIsNewest(hashHead: uint16)
      requires WindowOk() && ChainsOk() && last == base + strstart && Candidate(hashHead) && hashHead != 0
      ensures Newest(Searched(hashHead), ChainPart(hashBits, total, base, inserted, strstart, hashHead, Limit()),
                     Steps())
      ensures forall q :: q in Searched(hashHead) ==> base <= q < base + strstart
      ensures Shape() && Holds(window[..], total, base) && |total| == base + strstart + lookahead
    {
      hide Chains, HashAt, ChainFrom, Holds;
      ChainIsNewest(hashBits, wSize, total, base, head[..], prev[..], inserted, MaxDist(), strstart, hashHead,
        Limit(), Steps());
    }

    // ---- fill_window

    /** The upper half of the window becomes the lower half. */
    method MoveDown(n: int)
      requires WindowOk() && 0 <= n <= wSize && strstart + lookahead == wSize + n
      modifies window
      ensures Holds(window[..], total, base + wSize)
    {
      hide Holds;
      ghost var w := window[..];
      forall i | 0 <= i < n {
        window[i] := window[wSize + i];
      }
      HoldsSlid(w, window[..], total, base, wSize);
    }

    method SlideChains()
      requires ChainsOk()
      modifies prev, head
      ensures Chains(hashBits, wSize, total, base + wSize, head[..], prev[..], inserted, last)
    {
      hide Chains;
      ghost var h, p := head[..], prev[..];
      SlideHash();
      SlideKeepsChains(hashBits, wSize, total, base, h, p, head[..], prev[..], inserted, last);
    }

    method SlideWindow(more: int, ghost end: int)
      requires Ready(end) && strstart >= wSize + MaxDist() && more == 2 * wSize - lookahead - strstart
      modifies window, prev, head, this`matchStart, this`strstart, this`blockStart, this`base
      ensures Ready(end)
      ensures strstart == old(strstart) - wSize && base == old(base) + wSize
      ensures base + blockStart == old(base + blockStart)
      ensures Distance() == old(Distance())
      ensures matchLength >= MIN_MATCH ==> (matchStart == 0xffff_ffff <==>
        old(strstart) == wSize + MaxDist() && old(Distance()) == MaxDist())
    {
      hide Chains, ReadyHash, Spells, BlocksSpell, Repeats, Holds, Size, Wrap;
      MoveDown(wSize - more);
      SlideChains();
      WrapShift(strstart - 1, matchStart, wSize);
      assert Wrap(strstart - wSize - 1 - Wrap(matchStart - wSize)) == Distance();
      if matchLength >= MIN_MATCH {
        RepeatsApart(total, base + strstart - 1, Distance(), matchLength);
        MatchStartBelowZero(wSize, strstart, matchStart, Distance());
        WrapSmall(matchStart - wSize);
      }
      matchStart := Wrap(matchStart - wSize);
      strstart := strstart - wSize;
      blockStart := blockStart - wSize;
      base := base + wSize;
    }

    /** read_buf into the end of the window. */
    method CopyIn(len: nat)
      requires WindowOk() && strstart + lookahead + len <= 2 * wSize && len <= |nextIn|
      modifies window
      ensures Holds(window[..], total + nextIn[..len], base)
    {
      hide Holds;
      ghost var w, bytes := window[..], nextIn[..len];
      var at := strstart + lookahead;
      forall i | 0 <= i < len {
        window[at + i] := nextIn[i];
      }
      HoldsMore(w, window[..], total, base, bytes);
    }

    method ReadBuf(more: int, ghost end: int)
      requires Ready(end) && 0 < more <= 2 * wSize - lookahead - strstart && nextIn != []
      modifies window, this`nextIn, this`total, this`lookahead
      ensures WindowOk() && ChainsOk() && OutputOk(end) && Pending() && last < base + strstart - insert
      ensures total + nextIn == old(total + nextIn) && old(total) <= total
      ensures |nextIn| < old(|nextIn|) && |nextIn| + lookahead == old(|nextIn| + lookahead)
      ensures |nextIn| == Max(0, old(|nextIn|) - more)
    {
      hide Chains, Rolling, Spells, BlocksSpell, Repeats, Holds;
      var len := if |nextIn| > more then more else |nextIn|;
      ghost var bytes := nextIn[..len];
      CopyIn(len);
      InputKeepsChains(hashBits, wSize, total, bytes, base, head[..], prev[..], inserted, last);
      SpellsLonger(MaxDist(), total, bytes, base + blockStart, symbols, end);
      BlocksSpellLonger(MaxDist(), total, bytes, blocks, base + blockStart);
      if matchLength >= MIN_MATCH {
        RepeatsLonger(total, bytes, base + strstart - 1, Distance(), matchLength);
      }
      assert (total + bytes) + nextIn[len..] == total + nextIn;
      total := total + bytes;
      nextIn := nextIn[len..];
      lookahead := lookahead + len;
    }

    /** Restart the rolling hash, and insert the strings left out at the end of the last input. */
    method SetHash()
      requires WindowOk() && ChainsOk() && last < base + strstart - insert && lookahead + insert >= MIN_MATCH
      modifies prev, head, this`insH, this`insert, this`inserted, this`last
      ensures WindowOk() && ChainsOk() && HashReady()
      ensures LeftOver(old(inserted), old(insert)) && (insert == 0 || lookahead + insert < MIN_MATCH)
    {
      hide Chains, Rolling, Holds, Strings, HaveEntered;
      var str: uint32 := strstart - insert;
      HoldsAt(window[..], total, base, str);
      HoldsAt(window[..], total, base, str + 1);
      StartRolling(hashBits, total[base + str], total[base + str + 1]);
      insH := window[str] as bv32;
      insH := Update(hashBits, insH, window[str + 1]);
      InsertLeftOver(str);
    }

    method InsertLeftOver(start: uint32)
      requires WindowOk() && ChainsOk() && last < base + start && start == strstart - insert
      requires lookahead + insert >= MIN_MATCH && RollingAt(start)
      modifies prev, head, this`insH, this`insert, this`inserted, this`last
      ensures WindowOk() && ChainsOk() && HashReady()
      ensures LeftOver(old(inserted), old(insert)) && (insert == 0 || lookahead + insert < MIN_MATCH)
    {
      hide RollingFrom, ChainsOk, Holds, Strings, HaveEntered;
      var str := start;
      NoneEntered(inserted, insert, base + strstart, |total|);
      while insert > 0
        modifies prev, head, this`insH, this`insert, this`inserted, this`last
        invariant WindowOk() && ChainsOk()
        invariant str == strstart - insert && last < base + str && lookahead + insert >= MIN_MATCH && RollingAt(str)
        invariant LeftOver(old(inserted), old(insert))
      {
        OneEntered(old(inserted), old(insert), inserted, insert, base + strstart, |total|);
        var _ := InsertString(str);
        str := str + 1;
        insert := insert - 1;
        if lookahead + insert < MIN_MATCH { break; }
      }
    }

    /** Zero the bytes past the input that longest_match may read and that were never written. */
    method ZeroTail(ghost end: int)
      requires Ready(end)
      modifies window, this`highWater
      ensures Ready(end)
      ensures highWater >= Min(strstart + lookahead + WIN_INIT, 2 * wSize)
    {
      hide Chains, Rolling, Spells, BlocksSpell, Repeats, Holds;
      ghost var w, h, p := window[..], head[..], prev[..];
      if highWater < 2 * wSize {
        var curr := strstart + lookahead;
        if highWater < curr {
          var init := Min(2 * wSize - curr, WIN_INIT);
          forall i | 0 <= i < init {
            window[curr + i] := 0;
          }
          highWater := curr + init;
        } else if highWater < curr + WIN_INIT {
          var init := Min(curr + WIN_INIT - highWater, 2 * wSize - highWater);
          forall i | 0 <= i < init {
            window[highWater + i] := 0;
          }
          highWater := highWater + init;
        }
      }
      HoldsStill(w, window[..], total, base);
      assert head[..] == h && prev[..] == p;
    }

    /** The loop of fill_window. */
    method ReadAll(ghost end: int)
      requires Ready(end) && lookahead < MIN_LOOKAHEAD
      modifies window, prev, head, this`matchStart, this`strstart, this`blockStart, this`base, this`nextIn, this`total,
               this`lookahead, this`insH, this`insert, this`inserted, this`last
      ensures Ready(end) && base + strstart == old(base + strstart)
      ensures total + nextIn == old(total + nextIn) && old(total) <= total
      ensures |nextIn| + lookahead == old(|nextIn| + lookahead)
      ensures Distance() == old(Distance()) && LeftOver(old(inserted), old(insert))
      ensures |nextIn| < old(|nextIn|) ==> insert == 0 || lookahead + insert < MIN_MATCH
      ensures strstart <= 2 * wSize - MIN_LOOKAHEAD
      ensures nextIn == [] || (lookahead >= MIN_LOOKAHEAD && strstart + lookahead == 2 * wSize)
    {
      hide Ready, HaveEntered;
      var going := true;
      NoneEntered(inserted, insert, base + strstart, |total|);
      while going
        modifies window, prev, head, this`matchStart, this`strstart, this`blockStart, this`base,
                 this`nextIn, this`total,
                 this`lookahead, this`insH, this`insert, this`inserted, this`last
        invariant Ready(end) && base + strstart == old(base + strstart)
        invariant total + nextIn == old(total + nextIn) && old(total) <= total
        invariant |nextIn| + lookahead == old(|nextIn| + lookahead)
        invariant Distance() == old(Distance()) && LeftOver(old(inserted), old(insert))
        invariant |nextIn| < old(|nextIn|) ==> insert == 0 || lookahead + insert < MIN_MATCH
        invariant going ==> lookahead < MIN_LOOKAHEAD
        invariant !going ==> strstart <= 2 * wSize - MIN_LOOKAHEAD
        invariant !going ==> nextIn == [] || (lookahead >= MIN_LOOKAHEAD && strstart + lookahead == 2 * wSize)
        decreases |nextIn| + if going then 1 else 0
      {
        FillShape(end);
        var more := 2 * wSize - lookahead - strstart;
        if strstart >= wSize + MaxDist() {
          SlideWindow(more, end);
          more := more + wSize;
        }
        if |nextIn| == 0 {
          going := false;
        } else {
          ghost var inserted1, insert1, known1 := inserted, insert, |total|;
          ReadAndHash(more, end);
          EnteredLater(old(inserted), old(insert), inserted1, insert1, inserted, insert, base + strstart, known1,
            |total|);
          going := lookahead < MIN_LOOKAHEAD && |nextIn| != 0;
        }
      }
    }

    method FillWindow(ghost end: int)
      requires Ready(end) && lookahead < MIN_LOOKAHEAD
      modifies window, prev, head, this`matchStart, this`strstart, this`blockStart, this`base, this`nextIn, this`total,
               this`lookahead, this`insH, this`insert, this`inserted, this`last, this`highWater
      ensures Ready(end) && base + strstart == old(base + strstart)
      ensures total + nextIn == old(total + nextIn) && old(total) <= total
      ensures |nextIn| + lookahead == old(|nextIn| + lookahead)
      ensures Distance() == old(Distance()) && LeftOver(old(inserted), old(insert))
      ensures |nextIn| < old(|nextIn|) ==> insert == 0 || lookahead + insert < MIN_MATCH
      ensures strstart <= 2 * wSize - MIN_LOOKAHEAD
      ensures nextIn == [] || (lookahead >= MIN_LOOKAHEAD && strstart + lookahead == 2 * wSize)
      ensures highWater >= Min(strstart + lookahead + WIN_INIT, 2 * wSize)
    {
      hide Ready, HaveEntered;
      ReadAll(end);
      ZeroTail(end);
    }

    /** Of the strings left over, the first ones have been inserted. */
    ghost predicate LeftOver(before: set<int>, left: int)
      reads `inserted, `insert, `base, `strstart, `total
    {
      HaveEntered(before, left, inserted, insert, base + strstart, |total|)
    }

    method ReadAndHash(more: int, ghost end: int)
      requires Ready(end) && 0 < more <= 2 * wSize - lookahead - strstart && nextIn != []
      modifies window, prev, head, this`nextIn, this`total, this`lookahead,
               this`insH, this`insert, this`inserted, this`last
      ensures Ready(end)
      ensures total + nextIn == old(total + nextIn) && old(total) <= total
      ensures |nextIn| < old(|nextIn|) && |nextIn| + lookahead == old(|nextIn| + lookahead)
      ensures |nextIn| == Max(0, old(|nextIn|) - more)
      ensures LeftOver(old(inserted), old(insert)) && (insert == 0 || lookahead + insert < MIN_MATCH)
    {
      hide ChainsOk, OutputOk, Pending, Holds, RollingFrom, HaveEntered;
      ReadBuf(more, end);
      NoneEntered(inserted, insert, base + strstart, |total|);
      if lookahead + insert >= MIN_MATCH {
        SetHash();
      }
    }

    lemma FillShape(end: int)
      requires Ready(end)
      ensures 512 <= wSize <= 0x8000 && strstart + lookahead <= 2 * wSize
    {
    }

    // ---- _tr_tally and _tr_flush_block

    method TallyLit(c: byte) returns (bflush: bool)
      requires |symbols| < litBufsize - 1
      modifies this`symbols
      ensures symbols == old(symbols) + [Literal(c)] && bflush == (|symbols| == litBufsize - 1)
    {
      symbols := symbols + [Literal(c)];
      bflush := |symbols| == litBufsize - 1;
    }

    method TallyDist(distance: uint32, length: uint32) returns (bflush: bool)
      requires |symbols| < litBufsize - 1
      modifies this`symbols
      ensures symbols == old(symbols) + [Match(distance % 0x1_0000, length % 0x100 + MIN_MATCH)]
      ensures bflush == (|symbols| == litBufsize - 1)
    {
      symbols := symbols + [Match(distance % 0x1_0000, length % 0x100 + MIN_MATCH)];
      bflush := |symbols| == litBufsize - 1;
    }

    /** As much of the pending bytes as there is room for. */
    method FlushPending()
      modifies this`availOut, this`pending
      ensures availOut == old(availOut) - Min(old(pending), old(availOut))
      ensures pending == old(pending) - Min(old(pending), old(availOut))
    {
      var len := Min(pending, availOut);
      availOut, pending := availOut - len, pending - len;
    }

    /** The output since there were these blocks, this room and these bytes waiting for it. */
    ghost predicate Written(before: seq<Block>, room: nat, waiting: nat)
      reads `blocks, `availOut, `pending
    {
      Drained(sizeOf, before, room, waiting, blocks, availOut, pending)
    }

    /** FLUSH_BLOCK_ONLY. */
    method FlushBlockOnly(last: bool) returns (ghost b: Block)
      requires WindowOk() && OutputOk(base + strstart)
      modifies this`symbols, this`blocks, this`blockStart, this`availOut, this`pending
      ensures OutputOk(base + strstart) && symbols == [] && blockStart == strstart
      ensures blocks == old(blocks) + [b] && StandsFor(b, old(symbols), total, base + old(blockStart), base + strstart)
      ensures b.last == last && (b.stored.Some? <==> old(blockStart) >= 0) && b.symbols == old(symbols)
      ensures if last then Closes(old(blocks), blocks) else Extends(old(blocks), blocks)
      ensures Written(old(blocks), old(availOut), old(pending))
    {
      hide Holds, Spells, BlocksSpell, Closes, Extends, Drained;
      SpellsRange(MaxDist(), total, base + blockStart, symbols, base + strstart);
      var buf := if blockStart >= 0 then Some(window[blockStart..strstart]) else None;
      if blockStart >= 0 {
        HoldsRange(window[..], total, base, blockStart, strstart);
      }
      var block := Block(symbols, strstart - blockStart, buf, last);
      BlockEnds(MaxDist(), total, blocks, base + blockStart, block, base + strstart);
      NothingSpelled(MaxDist(), total, base + strstart);
      OneBlockMore(blocks, block);
      OneBlockDrained(sizeOf, blocks, block, availOut, pending);
      pending := pending + sizeOf(blocks, block);
      blocks := blocks + [block];
      symbols := [];
      blockStart := strstart;
      FlushPending();
      b := block;
    }

    /** All symbols emitted, in blocks or not. */
    ghost function Emitted(): seq<Token>
      reads `blocks, `symbols
    {
      SymbolsOf(blocks) + symbols
    }

    /** The symbol t was added to these, and the block ended if that filled the buffer. */
    ghost predicate Adds(t: Token, before: seq<Block>, some: seq<Token>)
      reads `blocks, `symbols
    {
      if |some| + 1 < litBufsize - 1 then blocks == before && symbols == some + [t]
      else
        && symbols == [] && |blocks| == |before| + 1 && before <= blocks
        && blocks[|before|].symbols == some + [t] && !blocks[|before|].last
    }

    lemma AddedIs(t: Token, before: seq<Block>, some: seq<Token>)
      requires Adds(t, before, some) && |some| < litBufsize - 1
      ensures Emitted() == SymbolsOf(before) + some + [t]
      ensures Fills(litBufsize - 1, before, blocks)
    {
      hide SymbolsOf;
      if |some| + 1 < litBufsize - 1 {
        assert SymbolsOf(before) + (some + [t]) == SymbolsOf(before) + some + [t];
      } else {
        var b := blocks[|before|];
        assert blocks == before + [b];
        OneBlockLonger(sizeOf, before, b);
        assert SymbolsOf(before) + (some + [t]) == SymbolsOf(before) + some + [t];
      }
    }

    /** A symbol just tallied; the block is flushed if the buffer is full. */
    method FlushIfFull(bflush: bool, ghost t: Token, ghost some: seq<Token>)
      requires WindowOk() && OutputOk(base + strstart) && symbols == some + [t] && |some| < litBufsize - 1
      requires bflush == (|symbols| == litBufsize - 1)
      modifies this`symbols, this`blocks, this`blockStart, this`availOut, this`pending
      ensures OutputOk(base + strstart) && |symbols| < litBufsize - 1
      ensures Adds(t, old(blocks), some) && Written(old(blocks), old(availOut), old(pending))
      ensures bflush <==> blocks != old(blocks)
      ensures !bflush ==> availOut == old(availOut)
    {
      hide WindowOk, OutputOk, Closes, Extends, BytesOf;
      if bflush {
        ghost var b := FlushBlockOnly(false);
        assert blocks[|old(blocks)|] == b;
      }
    }

    // ---- deflate_slow

    ghost function End(): int
      reads `base, `strstart, `matchAvailable
    {
      base + strstart - if matchAvailable then 1 else 0
    }

    /** The invariant of lazy matching: a match is only waiting if its first byte is, and it lies within the input. */
    ghost predicate Lazy()
      reads `matchLength, `matchAvailable, `lookahead, `symbols
    {
      && |symbols| < litBufsize - 1 && 2 <= matchLength <= MAX_MATCH
      && (matchLength >= MIN_MATCH ==> matchAvailable && matchLength <= lookahead + 1)
    }

    /** What was emitted follows from right finds by the lazy rule. */
    ghost predicate IsLazy()
      reads `finds, `total, `base, `strstart, `inserted, `blocks, `symbols, `matchAvailable, `matchLength, `matchStart
    {
      KeepsLazyRule(RulesOf(true), finds, total, base + strstart, inserted, Emitted(), matchAvailable, matchLength,
                    Distance())
    }

    /** The hash is ready for the string after the current one. */
    ghost predicate NextHash()
      reads `last, `base, `strstart, `insert, `insH, `total
    {
      ReadyHash(hashBits, insH, total, last, base + strstart + 1, insert)
    }

    /** A match at the string at window index at, found at window index from, in unsigned arithmetic. */
    ghost predicate Matched(at: int, from: int, length: int)
      reads `total, `base
    {
      length >= MIN_MATCH ==> Wrap(at - from) <= MaxDist() && Repeats(total, base + at, Wrap(at - from), length)
    }

    /** Insert the current string if it is complete, and return the head of its chain if it is near enough. */
    method InsertCurrent() returns (hashHead: uint16)
      requires WindowOk() && ChainsOk() && HashReady() && lookahead > 0
      modifies this`insH, this`inserted, this`last, prev, head
      ensures ChainsOk() && NextHash()
      ensures IsHead(hashHead) && inserted == old(inserted) + Strings(base + strstart, base + strstart + 1, |total|)
    {
      hide Chains, Rolling, Holds, HashAt, Reachable, ChainPart;
      hashHead := 0;
      OneString(base + strstart, |total|);
      if lookahead >= MIN_MATCH {
        hashHead := InsertString(strstart);
        HeadReaches(hashBits, total, base, inserted, MaxDist(), strstart, hashHead);
      } else {
        assert inserted == inserted + {};
      }
    }

    /** longest_match, and what it means for the input: a longer match than prevLength is a repetition. */
    method FindMatch(hashHead: uint16) returns (length: uint32, ghost searched: set<int>)
      requires WindowOk() && ChainsOk() && last == base + strstart
      requires lookahead >= MIN_MATCH && strstart <= 2 * wSize - MIN_LOOKAHEAD && 2 <= prevLength <= MAX_MATCH
      requires Candidate(hashHead) && hashHead != 0
      modifies this`matchStart
      ensures 2 <= length <= MAX_MATCH && length <= lookahead
      ensures length > prevLength ==> Matched(strstart, matchStart, length)
      ensures Newest(searched, ChainPart(hashBits, total, base, inserted, strstart, hashHead, Limit()), Steps())
      ensures IsLongest(total, base + strstart, searched, prevLength, Min(niceMatch, lookahead), length,
                        Wrap(strstart - matchStart))
    {
      hide Chains, Holds, HashAt, Repeats, NoMore, ChainPart, Newest;
      length, searched := LongestMatch(hashHead);
      if length > prevLength {
        assert Wrap(strstart - matchStart) == strstart - matchStart;
        assert Repeats(total, base + strstart, strstart - matchStart, length);
      }
    }

    /** The longest match, unless it is so short or so far away that it does not pay. */
    method LazyMatch(hashHead: uint16) returns (length: uint32, ghost searched: set<int>, ghost best: int)
      requires WindowOk() && ChainsOk() && last == base + strstart
      requires lookahead >= MIN_MATCH && strstart <= 2 * wSize - MIN_LOOKAHEAD && 2 <= prevLength <= MAX_MATCH
      requires Candidate(hashHead) && hashHead != 0
      modifies this`matchStart
      ensures 2 <= length <= MAX_MATCH && length <= lookahead
      ensures length > prevLength ==> Matched(strstart, matchStart, length)
      ensures Newest(searched, ChainPart(hashBits, total, base, inserted, strstart, hashHead, Limit()), Steps())
      ensures var dist := Wrap(strstart - matchStart);
        && IsLongest(total, base + strstart, searched, prevLength, Min(niceMatch, lookahead), best, dist)
        && length == if best <= 5 && (filtered || (best == MIN_MATCH && dist > TOO_FAR)) then MIN_MATCH - 1 else best
    {
      hide WindowOk, ChainsOk, Matched, Wrap, Comparable, IsLongest, Newest, ChainPart;
      length, searched := FindMatch(hashHead);
      best := length;
      if length <= 5 && (filtered || (length == MIN_MATCH && Wrap(strstart - matchStart) > TOO_FAR)) {
        length := MIN_MATCH - 1;
      }
    }

    /** A find for the current string that is right by the rules, and not longer than the input. */
    ghost predicate Finds(lazy: bool, f: Find)
      reads `total, `base, `inserted, `strstart
    {
      && Answers(RulesOf(lazy), total, base + strstart, f)
      && f.known == |total| && f.base == base && f.inserted == inserted
    }

    lemma FindIs(lazy: bool, hashHead: uint16, f: Find)
      requires WindowOk() && lookahead > 0
      requires f.known == |total| && f.base == base && f.inserted == inserted && IsHead(hashHead) && 2 <= f.waiting
      requires if hashHead != 0 && strstart - hashHead <= MaxDist() && (lazy ==> f.waiting < maxLazyMatch)
        then
          && Newest(f.searched, ChainPart(hashBits, total, base, inserted, strstart, hashHead, Limit()),
                    RulesOf(lazy).Steps(f.waiting))
          && IsLongest(total, base + strstart, f.searched, f.waiting, Min(niceMatch, lookahead), f.best, f.dist)
          && f.length == if RulesOf(lazy).Drops(f.best, f.dist) then MIN_MATCH - 1 else f.best
        else f.length < MIN_MATCH
      ensures Finds(lazy, f)
    {
      hide Holds, HashAt, Newest, IsLongest, Reachable;
      assert total[..f.known] == total;
      if hashHead != 0 && strstart - hashHead <= MaxDist() {
        assert base + hashHead in ChainPart(hashBits, total, base, inserted, strstart, hashHead, Limit());
      }
    }

    method SlowFind() returns (ghost f: Find)
      requires WindowOk() && ChainsOk() && HashReady() && Pending() && Lazy() && lookahead > 0
      requires strstart <= 2 * wSize - MIN_LOOKAHEAD
      modifies this`insH, this`inserted, this`last, prev, head, this`matchStart, this`matchLength, this`prevLength,
               this`prevMatch, this`finds
      ensures ChainsOk() && NextHash() && finds == old(finds)[base + strstart := f]
      ensures prevLength == old(matchLength) && prevMatch == old(matchStart)
      ensures Matched(strstart - 1, prevMatch, prevLength) && 2 <= matchLength <= MAX_MATCH
      ensures prevLength < MIN_MATCH || matchLength > prevLength ==>
        Matched(strstart, matchStart, matchLength) && (matchLength >= MIN_MATCH ==> matchLength <= lookahead)
      ensures inserted == old(inserted) + Strings(base + strstart, base + strstart + 1, |total|)
      ensures Finds(true, f) && f.waiting == prevLength && f.length == matchLength
      ensures f.dist == Wrap(strstart - matchStart)
    {
      hide WindowOk, ChainsOk, HashReady, NextHash, Candidate, Repeats, Wrap, IsLongest, Newest, Reachable, ChainPart,
        Answers, Strings, Finds, Limit;
      EmitShape();
      var hashHead := InsertCurrent();
      prevLength, prevMatch := matchLength, matchStart;
      f := SlowSearch(hashHead);
      finds := finds[base + strstart := f];
    }

    /** The head of the chain, once the current string is inserted: of all that are within reach. */
    ghost predicate IsHead(hashHead: uint16)
      requires Shape()
      reads `total, `base, `inserted, `strstart, `lookahead, `last
    {
      && (hashHead != 0 ==>
            lookahead >= MIN_MATCH && last == base + strstart &&
            (strstart - hashHead <= MaxDist() ==> Candidate(hashHead)))
      && (lookahead >= MIN_MATCH ==>
            Reachable(hashBits, total, base, inserted, MaxDist(), base + strstart) ==
            if hashHead != 0 && strstart - hashHead <= MaxDist()
            then ChainPart(hashBits, total, base, inserted, strstart, hashHead, Limit()) else {})
    }

    /** A search, unless the match that waits is long enough or nothing is within reach. */
    method SlowSearch(hashHead: uint16) returns (ghost f: Find)
      requires WindowOk() && ChainsOk() && lookahead > 0 && IsHead(hashHead)
      requires strstart <= 2 * wSize - MIN_LOOKAHEAD && 2 <= prevLength <= MAX_MATCH
      modifies this`matchStart, this`matchLength
      ensures 2 <= matchLength <= MAX_MATCH
      ensures prevLength < MIN_MATCH || matchLength > prevLength ==>
        Matched(strstart, matchStart, matchLength) && (matchLength >= MIN_MATCH ==> matchLength <= lookahead)
      ensures Finds(true, f) && f.waiting == prevLength && f.length == matchLength
      ensures f.dist == Wrap(strstart - matchStart)
    {
      hide WindowOk, ChainsOk, Candidate, Repeats, Wrap, IsLongest, Newest, Reachable, ChainPart, Finds, Limit;
      matchLength := MIN_MATCH - 1;
      ghost var searched: set<int>, best: int := {}, MIN_MATCH - 1;
      if hashHead != 0 && prevLength < maxLazyMatch && strstart - hashHead <= MaxDist() {
        matchLength, searched, best := LazyMatch(hashHead);
      }
      f := Find(|total|, base, inserted, searched, prevLength, best, Wrap(strstart - matchStart), matchLength);
      FindIs(true, hashHead, f);
    }

    /** Insert the strings inside a match, except those that run over the end of the input. */
    method InsertMatch(maxInsert: uint32)
      requires ChainsOk() && NextHash() && Holds(window[..], total, base) && insert <= 2
      requires maxInsert == |total| - base - MIN_MATCH && 0 < prevLength && strstart + prevLength <= 2 * wSize
      requires strstart < maxInsert ==> insert == 0
      modifies this`strstart, this`prevLength, this`insH, this`inserted, this`last, prev, head
      ensures ChainsOk() && NextHash()
      ensures strstart == old(strstart + prevLength) && prevLength == 0
      ensures inserted == old(inserted) + Strings(base + old(strstart) + 1, base + strstart + 1, |total|)
    {
      hide Chains, RollingFrom, Holds, Strings;
      ghost var start, end := base + strstart + 1, strstart + prevLength;
      NoStrings(start, |total|);
      var going := true;
      while going
        modifies this`strstart, this`prevLength, this`insH, this`inserted, this`last, prev, head
        invariant ChainsOk() && NextHash()
        invariant strstart + prevLength == end && (going <==> prevLength > 0)
        invariant strstart < maxInsert ==> insert == 0
        invariant start <= base + strstart + 1
        invariant inserted == old(inserted) + Strings(start, base + strstart + 1, |total|)
        decreases prevLength
      {
        StringsMore(start, base + strstart + 1, |total|);
        strstart := strstart + 1;
        if strstart <= maxInsert {
          var _ := InsertString(strstart);
        }
        prevLength := prevLength - 1;
        going := prevLength != 0;
      }
    }

    /** Tally the match of the string at window index at, with the casts of the tally macro. */
    method TallyMatch(at: int, distance: uint32, length: uint32) returns (bflush: bool)
      requires Shape() && OutputOk(base + at) && |symbols| < litBufsize - 1
      requires MIN_MATCH <= length <= MAX_MATCH && distance <= MaxDist() && Repeats(total, base + at, distance, length)
      modifies this`symbols
      ensures OutputOk(base + at + length) && |symbols| < litBufsize && bflush == (|symbols| == litBufsize - 1)
      ensures symbols == old(symbols) + [Match(distance, length)]
    {
      hide Spells, BlocksSpell;
      MatchSpells(MaxDist(), total, base + blockStart, symbols, base + at, distance, length);
      bflush := TallyDist(distance, length - MIN_MATCH);
    }

    /** Emit the match found one string back, which the current string does not improve on. */
    method EmitPrevious() returns (bflush: bool)
      requires WindowOk() && ChainsOk() && NextHash() && OutputOk(base + strstart - 1)
      requires |symbols| < litBufsize - 1 && MIN_MATCH <= prevLength <= MAX_MATCH && prevLength <= lookahead + 1
      requires Matched(strstart - 1, prevMatch, prevLength)
      modifies this`symbols, this`lookahead, this`prevLength, this`strstart, this`insH, this`inserted, this`last,
               this`matchAvailable, this`matchLength, prev, head
      ensures WindowOk() && ChainsOk() && HashReady() && OutputOk(base + strstart)
      ensures matchLength == 2 && !matchAvailable && |symbols| < litBufsize && bflush == (|symbols| == litBufsize - 1)
      ensures lookahead == old(lookahead - prevLength + 1) && strstart == old(strstart + prevLength - 1)
      ensures symbols == old(symbols) + [Match(Wrap(old(strstart) - 1 - prevMatch), old(prevLength))]
      ensures inserted == old(inserted) + Strings(base + old(strstart) + 1, base + strstart, |total|)
    {
      hide WindowOk, ChainsOk, NextHash, HashReady, OutputOk, Repeats, Wrap, Strings;
      EmitRoom();
      var maxInsert: uint32 := strstart + lookahead - MIN_MATCH;
      bflush := TallyMatch(strstart - 1, Wrap(strstart - 1 - prevMatch), prevLength);
      PassMatch(maxInsert);
      matchAvailable := false;
      matchLength := MIN_MATCH - 1;
    }

    lemma EmitShape()
      requires WindowOk()
      ensures Shape() && strstart + lookahead <= 2 * wSize && |total| == base + strstart + lookahead
    {
    }

    lemma EmitRoom()
      requires WindowOk() && OutputOk(base + strstart - 1)
      ensures 1 <= strstart && strstart + lookahead <= 2 * wSize <= 0x1_0000 && Shape()
    {
    }

    /** Move past a match of prevLength bytes that started one string back. */
    method PassMatch(maxInsert: uint32)
      requires WindowOk() && ChainsOk() && NextHash()
      requires MIN_MATCH <= prevLength <= lookahead + 1 && 1 <= strstart &&
        maxInsert == strstart + lookahead - MIN_MATCH
      modifies this`lookahead, this`prevLength, this`strstart, this`insH, this`inserted, this`last, prev, head
      ensures WindowOk() && ChainsOk() && HashReady()
      ensures lookahead == old(lookahead - prevLength + 1) && strstart == old(strstart + prevLength - 1)
      ensures inserted == old(inserted) + Strings(base + old(strstart) + 1, base + strstart, |total|)
    {
      hide Chains, RollingFrom, Holds, Strings;
      lookahead := lookahead - (prevLength - 1);
      prevLength := prevLength - 2;
      InsertMatch(maxInsert);
      strstart := strstart + 1;
    }

    /** The byte before the current string, if there is one. */
    ghost function ByteBefore(): byte
      requires Shape() && strstart <= 2 * wSize
      reads `strstart, window
    {
      if strstart == 0 then 0 else window[strstart - 1]
    }

    /** Emit the byte before the current string as a literal, and end the block if its buffer is full. */
    method EmitLiteral()
      requires WindowOk() && OutputOk(base + strstart - 1) && |symbols| < litBufsize - 1
      modifies this`symbols, this`blocks, this`blockStart, this`availOut, this`pending
      ensures OutputOk(base + strstart) && |symbols| < litBufsize - 1
      ensures Adds(Literal(ByteBefore()), old(blocks), old(symbols))
      ensures Written(old(blocks), old(availOut), old(pending)) && (blocks == old(blocks) ==> availOut == old(availOut))
    {
      hide Spells, BlocksSpell, Holds, Adds;
      EmitRoom();
      HoldsAt(window[..], total, base, strstart - 1);
      LiteralSpells(MaxDist(), total, base + blockStart, symbols, base + strstart - 1);
      ghost var some := symbols;
      var bflush := TallyLit(window[strstart - 1]);
      FlushIfFull(bflush, Literal(window[strstart - 1]), some);
    }

    /** The current string becomes the previous one. */
    method Advance()
      requires WindowOk() && ChainsOk() && NextHash() && OutputOk(base + strstart) && lookahead > 0
      requires Matched(strstart, matchStart, matchLength) && 2 <= matchLength <= MAX_MATCH
      requires matchLength >= MIN_MATCH ==> matchLength <= lookahead
      requires |symbols| < litBufsize - 1
      modifies this`strstart, this`lookahead, this`matchAvailable
      ensures SlowOk() && lookahead == old(lookahead) - 1 && strstart == old(strstart) + 1 && matchAvailable
      ensures Distance() == Wrap(old(strstart) - matchStart)
    {
      hide Chains, ReadyHash, Holds, BlocksSpell, Spells, Repeats, Wrap;
      matchAvailable := true;
      strstart := strstart + 1;
      lookahead := lookahead - 1;
    }

    /** The buffers of deflate_slow are in order, within and between calls. */
    ghost predicate SlowOk()
      reads this, window, prev, head
    {
      Ready(End()) && Lazy()
    }

    /** The invariant of deflate_slow: besides, what was emitted follows the lazy rule. */
    ghost predicate SlowReady()
      reads this, window, prev, head
    {
      SlowOk() && IsLazy()
    }

    /** The previous match goes out, and the block with it if the symbol buffer is full. */
    method TakePrevious() returns (stop: bool)
      requires WindowOk() && ChainsOk() && NextHash() && OutputOk(base + strstart - 1)
      requires |symbols| < litBufsize - 1 && MIN_MATCH <= prevLength <= MAX_MATCH && prevLength <= lookahead + 1
      requires Matched(strstart - 1, prevMatch, prevLength)
      modifies this`symbols, this`lookahead, this`prevLength, this`strstart, this`insH, this`inserted, this`last,
               this`matchAvailable, this`matchLength, prev, head, this`blocks, this`blockStart, this`availOut,
               this`pending
      ensures SlowOk() && lookahead < old(lookahead) && matchLength == 2 && !matchAvailable
      ensures strstart == old(strstart + prevLength - 1)
      ensures Adds(Match(Wrap(old(strstart) - 1 - prevMatch), old(prevLength)), old(blocks), old(symbols))
      ensures Written(old(blocks), old(availOut), old(pending))
      ensures stop <==> blocks != old(blocks) && availOut == 0
      ensures blocks == old(blocks) ==> availOut == old(availOut)
      ensures inserted == old(inserted) + Strings(base + old(strstart) + 1, base + strstart, |total|)
    {
      hide WindowOk, ChainsOk, HashReady, NextHash, OutputOk, Matched, Wrap, Strings, Adds, Drained;
      ghost var t, some := Match(Wrap(strstart - 1 - prevMatch), prevLength), symbols;
      var bflush := EmitPrevious();
      FlushIfFull(bflush, t, some);
      stop := bflush && availOut == 0;
    }

    /** What follows from the find for the current string: the match of the string before is taken, or the byte there
        emitted, or nothing. */
    method SlowMove() returns (stop: bool)
      requires WindowOk() && ChainsOk() && NextHash() && OutputOk(End()) && |symbols| < litBufsize - 1 && lookahead > 0
      requires 2 <= prevLength <= MAX_MATCH && 2 <= matchLength <= MAX_MATCH
      requires prevLength >= MIN_MATCH ==> matchAvailable && prevLength <= lookahead + 1
      requires Matched(strstart - 1, prevMatch, prevLength)
      requires prevLength < MIN_MATCH || matchLength > prevLength ==>
        Matched(strstart, matchStart, matchLength) && (matchLength >= MIN_MATCH ==> matchLength <= lookahead)
      modifies this`insH, this`inserted, this`last, prev, head, this`matchLength, this`prevLength,
               this`matchAvailable, this`strstart, this`lookahead, this`symbols, this`blocks,
               this`blockStart, this`availOut, this`pending
      ensures SlowOk() && lookahead < old(lookahead)
      ensures base + strstart == LazyEnd(old(prevLength), old(matchLength), base + old(strstart))
      ensures matchAvailable == !Takes(old(prevLength), old(matchLength))
      ensures if matchAvailable then matchLength == old(matchLength) && Distance() == old(Wrap(strstart - matchStart))
              else matchLength == 2
      ensures Emitted() == old(Emitted()) +
        LazySymbols(old(prevLength), old(Wrap(strstart - 1 - prevMatch)), old(matchAvailable), old(matchLength),
                    old(ByteBefore()))
      ensures Fills(litBufsize - 1, old(blocks), blocks) && Written(old(blocks), old(availOut), old(pending))
      ensures if stop then availOut == 0 else availOut > 0 || blocks == old(blocks)
      ensures blocks == old(blocks) ==> availOut == old(availOut)
      ensures inserted == old(inserted) + Strings(base + old(strstart) + 1, base + strstart, |total|)
    {
      hide WindowOk, ChainsOk, HashReady, NextHash, OutputOk, Matched, Wrap, Strings, Adds, SymbolsOf, Drained, Fills,
        SlowOk;
      EmitShape();
      stop := false;
      NoStrings(base + strstart + 1, |total|);
      ghost var before, some := blocks, symbols;
      if prevLength >= MIN_MATCH && matchLength <= prevLength {
        ghost var t := Match(Wrap(strstart - 1 - prevMatch), prevLength);
        stop := TakePrevious();
        AddedIs(t, before, some);
      } else if matchAvailable {
        ghost var t := Literal(ByteBefore());
        EmitLiteral();
        AddedIs(t, before, some);
        Advance();
        stop := availOut == 0;
      } else {
        Advance();
        assert Emitted() == Emitted() + [];
        NothingWritten(sizeOf, blocks, availOut, pending);
        NothingFilled(litBufsize - 1, blocks);
      }
    }

    /** The search for the current string, and what follows from it. */
    method SlowTurn() returns (stop: bool, ghost f: Find)
      requires SlowReady() && lookahead > 0 && strstart <= 2 * wSize - MIN_LOOKAHEAD
      modifies this`insH, this`inserted, this`last, prev, head, this`matchStart, this`matchLength, this`prevLength,
               this`prevMatch, this`matchAvailable, this`strstart, this`lookahead, this`symbols, this`blocks,
               this`blockStart, this`availOut, this`pending, this`finds
      ensures SlowOk() && lookahead < old(lookahead)
      ensures Answers(RulesOf(true), total, base + old(strstart), f) && f.known == |total|
      ensures old(inserted) <= f.inserted
      ensures f.waiting == old(matchLength) && finds == old(finds)[old(base + strstart) := f]
      ensures Moves(f, base + old(strstart), old(inserted), old(matchLength), old(Distance()), old(matchAvailable),
                    old(ByteBefore()), old(Emitted()))
      ensures Fills(litBufsize - 1, old(blocks), blocks) && Written(old(blocks), old(availOut), old(pending))
      ensures if stop then availOut == 0 else availOut > 0 || blocks == old(blocks)
      ensures blocks == old(blocks) ==> availOut == old(availOut)
    {
      hide WindowOk, ChainsOk, HashReady, NextHash, OutputOk, Matched, Wrap, Strings, Answers, KeepsLazyRule, Drained,
        Fills, Pending, Emitted, LazySymbols;
      ghost var at := base + strstart;
      EmitShape();
      f := SlowFind();
      ghost var end := LazyEnd(prevLength, f.length, at);
      stop := SlowMove();
      assert base + strstart == end;
      StringsJoin(at, at + 1, end, |total|);
    }

    /** The symbols emitted, the strings inserted and the match waiting after a round with the find f, when these were
        the position, the strings inserted, the match and the byte waiting, and the symbols before. */
    ghost predicate Moves(f: Find, at: int, before: set<int>, waiting: nat, dist: nat, available: bool, c: byte,
                          tokens: seq<Token>)
      reads `base, `strstart, `inserted, `total, `matchAvailable, `matchLength, `matchStart, `blocks, `symbols
    {
      && base + strstart == LazyEnd(waiting, f.length, at)
      && inserted == before + Strings(at, base + strstart, |total|)
      && matchAvailable == !Takes(waiting, f.length)
      && (if matchAvailable then matchLength == f.length && Distance() == f.dist else matchLength == MIN_MATCH - 1)
      && Emitted() == tokens + LazySymbols(waiting, dist, available, f.length, c)
    }

    /** One string more, or one match. The symbols emitted are what the lazy rule makes of the find for this string,
        and a block is ended if and only if its buffer is full. */
    method SlowStep() returns (stop: bool, ghost f: Find)
      requires SlowReady() && lookahead > 0 && strstart <= 2 * wSize - MIN_LOOKAHEAD
      requires lookahead >= MIN_LOOKAHEAD || nextIn == []
      modifies this`insH, this`inserted, this`last, prev, head, this`matchStart, this`matchLength, this`prevLength,
               this`prevMatch, this`matchAvailable, this`strstart, this`lookahead, this`symbols, this`blocks,
               this`blockStart, this`availOut, this`pending, this`finds
      ensures SlowReady() && lookahead < old(lookahead)
      ensures finds == old(finds)[old(base + strstart) := f] && f.known == |total|
      ensures Moves(f, base + old(strstart), old(inserted), old(matchLength), old(Distance()), old(matchAvailable),
                    old(ByteBefore()), old(Emitted()))
      ensures Fills(litBufsize - 1, old(blocks), blocks) && Written(old(blocks), old(availOut), old(pending))
      ensures if stop then availOut == 0 else availOut > 0 || blocks == old(blocks)
      ensures blocks == old(blocks) ==> availOut == old(availOut)
    {
      hide Ready, Lazy, Answers, KeepsLazyRule, Drained, Fills, Emitted, Strings;
      SlowShape();
      ghost var tokens, c, dist, finds0, inserted0 := Emitted(), ByteBefore(), Distance(), finds, inserted;
      ghost var at, available, waiting := base + strstart, matchAvailable, matchLength;
      stop, f := SlowTurn();
      LazyRound(RulesOf(true), finds0, total, at, inserted0, inserted, tokens, waiting, dist, available, f, c,
        Distance());
    }

    /** Everything read is in blocks that were handed over. */
    ghost predicate HandedOver()
      reads `lookahead, `symbols, `blockStart, `strstart
    {
      lookahead == 0 && symbols == [] && blockStart == strstart
    }

    /** And nothing is left to read. */
    ghost predicate AllFlushed()
      reads `lookahead, `nextIn, `symbols, `blockStart, `strstart
    {
      HandedOver() && nextIn == []
    }

    /** After a full flush: CLEAR_HASH, and the window is filled from its start again. The stream is counted from
        here on, and blocks are those still to come. */
    method ForgetHistory()
      requires WindowOk() && AllFlushed() && matchLength < MIN_MATCH
      modifies head, this`strstart, this`blockStart, this`insert, this`blocks, this`total, this`base, this`inserted,
               this`last, this`finds
      ensures Ready(0) && strstart == 0 && base == 0 && total == [] && blocks == []
      ensures finds == map[] && inserted == {} && symbols == []
    {
      ClearHash();
      strstart, blockStart, insert := 0, 0, 0;
      blocks, total, base, inserted, last, finds := [], [], 0, {}, -3, map[];
      hide Ready;
      NothingRemembered();
    }

    method ClearHash()
      modifies head
      ensures forall h :: 0 <= h < head.Length ==> head[h] == 0
    {
      forall h | 0 <= h < head.Length {
        head[h] := 0;
      }
    }

    lemma NothingRemembered()
      requires Shape() && (forall h :: 0 <= h < head.Length ==> head[h] == 0)
      requires highWater <= 2 * wSize && blockStart == 0 && strstart == 0 && lookahead == 0 && insert == 0
      requires matchLength < MIN_MATCH && symbols == [] && blocks == []
      requires total == [] && base == 0 && inserted == {} && last == -3
      ensures Ready(0)
    {
      assert Decode(MaxDist(), total[..0], []) == Some(total[..0]);
    }

    /** The end of deflate_fast and deflate_slow, when all input is consumed: strings that could not be inserted
        are left for the next call, and the last block is handed over. */
    method EndInput(flush: Flush) returns (r: BlockState)
      requires WindowOk() && ChainsOk() && OutputOk(base + strstart) && Pending() && |symbols| < litBufsize
      requires lookahead == 0 && nextIn == []
      modifies this`insert, this`symbols, this`blocks, this`blockStart, this`availOut, this`pending
      ensures Ready(base + strstart) && symbols == [] && insert == Min(strstart, 2)
      ensures DecodeBlocks(MaxDist(), blocks) == Some(total) && AllFlushed()
      ensures old(blocks) <= blocks
      ensures if flush == Finish || old(symbols) != []
        then |blocks| == |old(blocks)| + 1 && blocks[|old(blocks)|].symbols == old(symbols)
        else blocks == old(blocks)
      ensures EndsWith(r, flush, old(symbols) != [])
      ensures if Ended(r) then flush == Finish && Closes(old(blocks), blocks) else Extends(old(blocks), blocks)
      ensures Written(old(blocks), old(availOut), old(pending)) && Emitted() == old(Emitted())
      ensures blocks == old(blocks) ==> availOut == old(availOut)
    {
      hide WindowOk, ChainsOk, HashReady, Pending, OutputOk, DecodeBlocks, SymbolsOf, Drained, Closes, Extends,
        StandsFor;
      NothingWritten(sizeOf, blocks, availOut, pending);
      ExtendsMore(blocks, blocks, blocks);
      EmitShape();
      LeaveOver();
      r := BlockDone;
      if flush == Finish {
        ghost var b := FlushBlockOnly(true);
        AllInBlocks(old(blocks), b);
        r := if availOut == 0 then FinishStarted else FinishDone;
      } else if symbols != [] {
        ghost var b := FlushBlockOnly(false);
        AllInBlocks(old(blocks), b);
        r := if availOut == 0 then NeedMore else BlockDone;
      }
      OutputDecodes();
    }

    /** How a call ends that has used up its input, and flushed a block if there were some symbols. */
    ghost predicate EndsWith(r: BlockState, flush: Flush, some: bool)
      reads `availOut
    {
      && (r == FinishDone <==> flush == Finish && availOut > 0)
      && (r == FinishStarted <==> flush == Finish && availOut == 0)
      && (r == NeedMore <==> flush != Finish && some && availOut == 0)
    }

    /** The strings not inserted yet are left for the next call. */
    method LeaveOver()
      requires WindowOk() && ChainsOk() && lookahead == 0
      modifies this`insert
      ensures WindowOk() && HashReady() && insert == Min(strstart, 2)
    {
      hide Holds, Chains;
      LastInserted();
      insert := if strstart < MIN_MATCH - 1 then strstart else MIN_MATCH - 1;
    }

    lemma LastInserted()
      requires ChainsOk()
      ensures last + 3 <= |total|
    {
    }

    lemma OutputDecodes()
      requires OutputOk(base + strstart) && symbols == [] && WindowOk() && lookahead == 0
      ensures base + blockStart == |total| && DecodeBlocks(MaxDist(), blocks) == Some(total)
    {
      assert total[..base + blockStart] == total[..|total|];
      assert |total[..base + blockStart]| == base + blockStart;
      BlocksDecode(MaxDist(), total, blocks, |total|);
      assert total[..|total|] == total;
    }

    /** No next string can improve on the last one: its byte goes out. */
    method EmitLast()
      requires SlowReady() && lookahead == 0 && matchAvailable
      modifies this`symbols, this`matchAvailable
      ensures Ready(base + strstart) && IsLazy() && !matchAvailable
      ensures matchLength == 2 && |symbols| < litBufsize && symbols != []
    {
      hide ChainsOk, Holds, Spells, BlocksSpell, ReadyHash, Repeats, KeepsLazyRule, SymbolsOf;
      EmitRoom();
      HoldsAt(window[..], total, base, strstart - 1);
      LiteralSpells(MaxDist(), total, base + blockStart, symbols, base + strstart - 1);
      LastLiteral(RulesOf(true), finds, total, base + strstart, inserted, Emitted(), matchLength, Distance(),
        window[strstart - 1]);
      assert Emitted() + [Literal(window[strstart - 1])] ==
        SymbolsOf(blocks) + (symbols + [Literal(window[strstart - 1])]);
      var _ := TallyLit(window[strstart - 1]);
      matchAvailable := false;
    }

    method SlowEnd(flush: Flush) returns (r: BlockState)
      requires SlowReady() && lookahead == 0 && nextIn == []
      modifies this`insert, this`symbols, this`blocks, this`blockStart, this`availOut, this`pending, this`matchAvailable
      ensures SlowReady() && AllFlushed() && !matchAvailable
      ensures DecodeBlocks(MaxDist(), blocks) == Some(total)
      ensures if flush == Finish || old(symbols) != [] || old(matchAvailable)
        then |blocks| == |old(blocks)| + 1 else blocks == old(blocks)
      ensures old(blocks) <= blocks
      ensures EndsWith(r, flush, old(symbols) != [] || old(matchAvailable))
      ensures blocks == old(blocks) ==> availOut == old(availOut)
      ensures if Ended(r) then flush == Finish && Closes(old(blocks), blocks) else Extends(old(blocks), blocks)
      ensures Written(old(blocks), old(availOut), old(pending))
    {
      hide WindowOk, ChainsOk, HashReady, OutputOk, KeepsLazyRule, Emitted, DecodeBlocks, Drained, Closes, Extends;
      ghost var some := symbols;
      if matchAvailable {
        EmitLast();
      }
      assert symbols == [] <==> some == [] && !old(matchAvailable);
      r := EndInput(flush);
    }

    /** Why a call asks for more: there is no room for more blocks, or no input that need be looked at now. */
    ghost predicate AsksForMore(flush: Flush, before: seq<Block>, room: nat)
      reads `availOut, `nextIn, `lookahead, `blocks
    {
      || (availOut == 0 && (blocks != before || room == 0))
      || (flush == NoFlush && nextIn == [] && lookahead < MIN_LOOKAHEAD)
    }

    /** A call does not end otherwise. */
    ghost predicate CallEnds(r: BlockState, flush: Flush, before: seq<Block>, room: nat)
      reads `availOut, `nextIn, `lookahead, `blocks
    {
      match r
      case NeedMore => AsksForMore(flush, before, room)
      case BlockDone => flush != NoFlush && flush != Finish && (availOut > 0 || blocks == before)
      case FinishStarted => flush == Finish && availOut == 0
      case FinishDone => flush == Finish && availOut > 0
    }

    /** Why a round ends, when there were these blocks, this room and so much input before. */
    ghost predicate LeadsTo(round: Round, flush: Flush, before: seq<Block>, room: nat, left: nat)
      reads `availOut, `nextIn, `lookahead, `blocks
    {
      && |nextIn| + lookahead <= left
      && match round
         case GoOn =>
           |nextIn| + lookahead < left && (availOut > 0 || (blocks == before && availOut == room))
         case AskForMore => AsksForMore(flush, before, room)
         case UseUp => lookahead == 0 && nextIn == [] && flush != NoFlush && blocks == before && availOut == room
    }

    /** A round of the loop of deflate_slow. */
    method SlowRound(flush: Flush) returns (round: Round)
      requires SlowReady()
      modifies this, window, prev, head
      ensures SlowReady() && total + nextIn == old(total + nextIn) && |nextIn| <= old(|nextIn|)
      ensures finished == old(finished) && lastFlush == old(lastFlush)
      ensures Fills(litBufsize - 1, old(blocks), blocks) && Written(old(blocks), old(availOut), old(pending))
      ensures LeadsTo(round, flush, old(blocks), old(availOut), old(|nextIn| + lookahead))
    {
      hide SlowReady, Drained, Fills, Moves, BytesOf, Extends, Closes;
      NothingWritten(sizeOf, blocks, availOut, pending);
      NothingFilled(litBufsize - 1, blocks);
      round := SlowInput(flush);
      if round == GoOn {
        ghost var f;
        var stop;
        stop, f := SlowStep();
        round := if stop then AskForMore else GoOn;
      }
    }

    method DeflateSlow(flush: Flush) returns (r: BlockState)
      requires SlowReady()
      modifies this, window, prev, head
      ensures SlowReady() && (r != NeedMore ==> !matchAvailable)
      ensures total + nextIn == old(total + nextIn) && |nextIn| <= old(|nextIn|)
      ensures finished == old(finished) && lastFlush == old(lastFlush)
      ensures CallEnds(r, flush, old(blocks), old(availOut))
      ensures r != NeedMore ==> AllFlushed() && DecodeBlocks(MaxDist(), blocks) == Some(old(total + nextIn))
      ensures if Ended(r) then Closes(old(blocks), blocks) else Extends(old(blocks), blocks)
      ensures FillsAndEnds(litBufsize - 1, old(blocks), blocks) && Written(old(blocks), old(availOut), old(pending))
    {
      hide SlowReady, DecodeBlocks, Drained, Closes, Extends, Fills, FillsAndEnds;
      NothingWritten(sizeOf, blocks, availOut, pending);
      NothingFilled(litBufsize - 1, blocks);
      var round := GoOn;
      while round == GoOn
        invariant SlowReady() && Fills(litBufsize - 1, old(blocks), blocks)
        invariant Written(old(blocks), old(availOut), old(pending))
        invariant total + nextIn == old(total + nextIn) && |nextIn| <= old(|nextIn|)
        invariant finished == old(finished) && lastFlush == old(lastFlush)
        invariant round == GoOn ==> availOut > 0 || (blocks == old(blocks) && availOut == old(availOut))
        invariant round == AskForMore ==> AsksForMore(flush, old(blocks), old(availOut))
        invariant round == UseUp ==> lookahead == 0 && nextIn == [] && flush != NoFlush
        invariant round == UseUp ==> availOut > 0 || (blocks == old(blocks) && availOut == old(availOut))
        decreases |nextIn| + lookahead + if round == GoOn then 1 else 0
      {
        ghost var before, room, waiting := blocks, availOut, pending;
        round := SlowRound(flush);
        WrittenMore(sizeOf, old(blocks), old(availOut), old(pending), before, room, waiting, blocks, availOut, pending);
        FillsMore(litBufsize - 1, old(blocks), before, blocks);
      }
      ghost var before, room, waiting := blocks, availOut, pending;
      EndedBy(litBufsize - 1, old(blocks), before, before);
      if round == AskForMore { return NeedMore; }
      r := SlowEnd(flush);
      WrittenMore(sizeOf, old(blocks), old(availOut), old(pending), before, room, waiting, blocks, availOut, pending);
      EndedBy(litBufsize - 1, old(blocks), before, blocks);
      assert total + nextIn == total;
    }

    /** Enough lookahead for a round, unless the input does not give it. */
    method SlowInput(flush: Flush) returns (round: Round)
      requires SlowReady()
      modifies window, prev, head, this`matchStart, this`strstart, this`blockStart, this`base, this`nextIn, this`total,
               this`lookahead, this`insH, this`insert, this`inserted, this`last, this`highWater
      ensures SlowReady() && total + nextIn == old(total + nextIn)
      ensures |nextIn| <= old(|nextIn|) && |nextIn| + lookahead == old(|nextIn| + lookahead)
      ensures match round
        case GoOn =>
          && lookahead > 0 && strstart <= 2 * wSize - MIN_LOOKAHEAD && (lookahead >= MIN_LOOKAHEAD || nextIn == [])
        case AskForMore => flush == NoFlush && nextIn == [] && lookahead < MIN_LOOKAHEAD
        case UseUp => flush != NoFlush && nextIn == [] && lookahead == 0
    {
      hide SlowReady;
      SlowShape();
      if lookahead < MIN_LOOKAHEAD {
        RefillSlow();
        if lookahead < MIN_LOOKAHEAD && flush == NoFlush {
          return AskForMore;
        }
        if lookahead == 0 { return UseUp; }
      }
      return GoOn;
    }

    lemma SlowShape()
      requires SlowReady()
      ensures Shape() && strstart + lookahead <= 2 * wSize
      ensures lookahead >= MIN_LOOKAHEAD ==> strstart <= 2 * wSize - MIN_LOOKAHEAD
    {
    }

    /** fill_window. The finds stay right when there is more input and more strings are inserted. */
    method RefillSlow()
      requires SlowReady() && lookahead < MIN_LOOKAHEAD
      modifies window, prev, head, this`matchStart, this`strstart, this`blockStart, this`base, this`nextIn, this`total,
               this`lookahead, this`insH, this`insert, this`inserted, this`last, this`highWater
      ensures SlowReady() && total + nextIn == old(total + nextIn)
      ensures |nextIn| + lookahead == old(|nextIn| + lookahead)
      ensures strstart <= 2 * wSize - MIN_LOOKAHEAD && (lookahead >= MIN_LOOKAHEAD || nextIn == [])
      ensures |nextIn| <= old(|nextIn|)
    {
      hide Ready, KeepsLazyRule, Strings, Emitted;
      FillWindow(End());
      LazyRuleStill(RulesOf(true), finds, old(total), total, base + strstart, old(inserted), inserted, Emitted(),
        matchAvailable, matchLength, Distance());
    }

    /** At any time between calls: the blocks decode to a prefix of the input, the pending symbols take the decoder on
        to the current string, or to the byte before it if that one is still undecided. */
    lemma DecodesSoFar()
      requires SlowReady()
      ensures 0 <= base + blockStart <= |total| && DecodeBlocks(MaxDist(), blocks) == Some(total[..base + blockStart])
      ensures Decode(MaxDist(), total[..base + blockStart], symbols) == Some(total[..End()])
    {
      hide WindowOk, ChainsOk, HashReady, Pending, IsLazy;
      BlocksDecode(MaxDist(), total, blocks, base + blockStart);
    }

    /** At any time between calls, since the last full flush: every symbol follows the lazy rule from right finds, so
        that MatchMeans and LiteralMeans say what it stands for. */
    lemma LazySoFar(i: nat)
      requires SlowReady() && i < |Emitted()|
      ensures Recorded(RulesOf(true), finds, total, base + strstart, inserted)
      ensures Lawful(RulesOf(true), finds, Emitted()) && Spans(Emitted()) == End()
      ensures Follows(RulesOf(true), finds, Spans(Emitted()[..i]), Emitted()[i])
    {
      hide Ready, Recorded, Lawful, Spans, Follows;
      EachFollows(RulesOf(true), finds, Emitted(), i);
    }

    method SlowForget()
      requires SlowReady() && AllFlushed() && !matchAvailable
      modifies head, this`strstart, this`blockStart, this`insert, this`blocks, this`total, this`base, this`inserted,
               this`last, this`finds
      ensures SlowReady() && total == [] && blocks == [] && nextIn == []
    {
      hide WindowOk, ChainsOk, HashReady, OutputOk, Pending;
      ForgetHistory();
    }

    // ---- deflate_fast

    /** The invariant of deflate_fast: besides, what was emitted follows the greedy rule. */
    ghost predicate FastReady()
      reads this, window, prev, head
    {
      FastOk() && IsGreedy()
    }

    /** What was emitted follows from right finds by the greedy rule. */
    ghost predicate IsGreedy()
      reads `finds, `total, `base, `strstart, `inserted, `blocks, `symbols
    {
      KeepsGreedyRule(RulesOf(false), finds, total, base + strstart, inserted, Emitted())
    }

    /** The buffers of deflate_fast are in order; no match is ever waiting. */
    ghost predicate FastOk()
      reads this, window, prev, head
    {
      Ready(base + strstart) && |symbols| < litBufsize - 1 && matchLength < MIN_MATCH && prevLength == 2
    }

    /** Insert the strings inside a short match; matchLength counts them down to zero. */
    method InsertInside()
      requires ChainsOk() && NextHash() && insert == 0 && Holds(window[..], total, base)
      requires 0 < matchLength && base + strstart + matchLength + MIN_MATCH <= |total| <= base + 2 * wSize
      modifies this`strstart, this`matchLength, this`insH, this`inserted, this`last, prev, head
      ensures ChainsOk() && NextHash()
      ensures strstart == old(strstart + matchLength) && matchLength == 0
      ensures inserted == old(inserted) + Strings(base + old(strstart) + 1, base + strstart + 1, |total|)
    {
      hide Chains, RollingFrom, Holds, Strings;
      ghost var start, end := base + strstart + 1, strstart + matchLength;
      NoStrings(start, |total|);
      var going := true;
      while going
        modifies this`strstart, this`matchLength, this`insH, this`inserted, this`last, prev, head
        invariant ChainsOk() && NextHash()
        invariant strstart + matchLength == end && (going <==> matchLength > 0) && start <= base + strstart + 1
        invariant inserted == old(inserted) + Strings(start, base + strstart + 1, |total|)
        decreases matchLength
      {
        StringsMore(start, base + strstart + 1, |total|);
        strstart := strstart + 1;
        var _ := InsertString(strstart);
        matchLength := matchLength - 1;
        going := matchLength != 0;
      }
    }

    /** Restart the rolling hash behind a match whose strings are not inserted. */
    method RestartHash()
      requires WindowOk() && last < base + strstart && insert == 0 && strstart + 1 < 2 * wSize
      modifies this`insH
      ensures HashReady()
    {
      hide Holds, Rolling;
      if lookahead >= MIN_MATCH {
        HoldsAt(window[..], total, base, strstart);
        HoldsAt(window[..], total, base, strstart + 1);
        StartRolling(hashBits, total[base + strstart], total[base + strstart + 1]);
      }
      insH := window[strstart] as bv32;
      insH := Update(hashBits, insH, window[strstart + 1]);
    }

    /** Move past the match that starts at the current string. */
    method PassFound()
      requires WindowOk() && ChainsOk() && NextHash() && insert == 0
      requires MIN_MATCH <= matchLength <= MAX_MATCH && matchLength <= lookahead
      requires strstart <= 2 * wSize - MIN_LOOKAHEAD
      modifies this`lookahead, this`matchLength, this`strstart, this`insH, this`inserted, this`last, prev, head
      ensures WindowOk() && ChainsOk() && HashReady() && matchLength == 0
      ensures lookahead == old(lookahead - matchLength) && strstart == old(strstart + matchLength)
      ensures inserted == old(inserted) +
        if old(matchLength) <= maxLazyMatch && lookahead >= MIN_MATCH
        then Strings(base + old(strstart) + 1, base + strstart, |total|) else {}
    {
      hide Chains, RollingFrom, Holds, Strings;
      lookahead := lookahead - matchLength;
      if matchLength <= maxLazyMatch && lookahead >= MIN_MATCH {
        matchLength := matchLength - 1;
        InsertInside();
        strstart := strstart + 1;
      } else {
        strstart := strstart + matchLength;
        matchLength := 0;
        RestartHash();
        assert inserted == inserted + {};
      }
    }

    method FastFind() returns (ghost f: Find)
      requires WindowOk() && ChainsOk() && HashReady() && lookahead > 0 && matchLength < MIN_MATCH && prevLength == 2
      requires strstart <= 2 * wSize - MIN_LOOKAHEAD
      modifies this`insH, this`inserted, this`last, prev, head, this`matchStart, this`matchLength, this`finds
      ensures ChainsOk() && NextHash() && finds == old(finds)[base + strstart := f]
      ensures matchLength <= MAX_MATCH && Matched(strstart, matchStart, matchLength)
      ensures matchLength >= MIN_MATCH ==> insert == 0 && matchLength <= lookahead
      ensures inserted == old(inserted) + Strings(base + strstart, base + strstart + 1, |total|)
      ensures Finds(false, f) && f.waiting == 2 && f.length == matchLength && f.dist == Wrap(strstart - matchStart)
    {
      hide ChainsOk, RollingFrom, Holds, Candidate, Repeats, Wrap, IsLongest, Newest, Reachable, ChainPart,
        Answers, Strings, Finds, Limit;
      var hashHead := InsertCurrent();
      ghost var searched: set<int> := {};
      if hashHead != 0 && strstart - hashHead <= MaxDist() {
        matchLength, searched := FindMatch(hashHead);
      }
      f := Find(|total|, base, inserted, searched, 2, matchLength, Wrap(strstart - matchStart), matchLength);
      FindIs(false, hashHead, f);
      finds := finds[base + strstart := f];
    }

    /** The byte at the current string. */
    ghost function CurrentByte(): byte
      requires Shape() && strstart < 2 * wSize
      reads `strstart, window
    {
      window[strstart]
    }

    /** What follows from the find for the current string: a match, or its first byte. */
    method FastMove() returns (stop: bool)
      requires WindowOk() && ChainsOk() && NextHash() && OutputOk(base + strstart) && |symbols| < litBufsize - 1
      requires lookahead > 0 && prevLength == 2 && matchLength <= MAX_MATCH
      requires matchLength >= MIN_MATCH ==> insert == 0 && matchLength <= lookahead
      requires Matched(strstart, matchStart, matchLength) && strstart <= 2 * wSize - MIN_LOOKAHEAD
      modifies this`insH, this`inserted, this`last, prev, head, this`matchLength,
               this`strstart, this`lookahead, this`symbols, this`blocks, this`blockStart, this`availOut, this`pending
      ensures FastOk() && lookahead < old(lookahead)
      ensures strstart == old(strstart) + (if old(matchLength) >= MIN_MATCH then old(matchLength) else 1)
      ensures Emitted() == old(Emitted()) +
        [if old(matchLength) >= MIN_MATCH then Match(old(Wrap(strstart - matchStart)), old(matchLength))
         else Literal(old(CurrentByte()))]
      ensures Fills(litBufsize - 1, old(blocks), blocks) && Written(old(blocks), old(availOut), old(pending))
      ensures stop <==> blocks != old(blocks) && availOut == 0
      ensures blocks == old(blocks) ==> availOut == old(availOut)
      ensures inserted == old(inserted) +
        if MIN_MATCH <= old(matchLength) <= maxLazyMatch && lookahead >= MIN_MATCH
        then Strings(base + old(strstart) + 1, base + strstart, |total|) else {}
    {
      hide WindowOk, ChainsOk, HashReady, NextHash, OutputOk, Matched, Wrap, Strings, Adds, SymbolsOf, Drained, Fills;
      EmitShape();
      var bflush: bool;
      ghost var before, some, t := blocks, symbols, Literal(CurrentByte());
      if matchLength >= MIN_MATCH {
        t := Match(Wrap(strstart - matchStart), matchLength);
        bflush := EmitFound();
      } else {
        bflush := EmitCurrent();
        assert inserted == inserted + {};
      }
      FlushIfFull(bflush, t, some);
      AddedIs(t, before, some);
      stop := bflush && availOut == 0;
    }

    /** One match or one byte. The symbol emitted is what the greedy rule makes of the find for this string, and a
        block is ended if and only if its buffer is full. */
    method FastStep() returns (stop: bool, ghost f: Find)
      requires FastReady() && lookahead > 0 && strstart <= 2 * wSize - MIN_LOOKAHEAD
      requires lookahead >= MIN_LOOKAHEAD || nextIn == []
      modifies this`insH, this`inserted, this`last, prev, head, this`matchStart, this`matchLength,
               this`strstart, this`lookahead, this`symbols, this`blocks, this`blockStart, this`availOut, this`pending,
               this`finds
      ensures FastReady() && lookahead < old(lookahead)
      ensures finds == old(finds)[old(base + strstart) := f] && f.known == |total| && 0 <= f.dist && 0 <= f.length
      ensures Emitted() == old(Emitted()) + [GreedySymbol(f, old(window[strstart]))]
      ensures inserted == old(inserted) + Strings(base + old(strstart), base + old(strstart) + 1, |total|) +
        if MIN_MATCH <= f.length <= maxLazyMatch && lookahead >= MIN_MATCH
        then Strings(base + old(strstart) + 1, base + strstart, |total|) else {}
      ensures Fills(litBufsize - 1, old(blocks), blocks) && Written(old(blocks), old(availOut), old(pending))
      ensures stop <==> blocks != old(blocks) && availOut == 0
      ensures blocks == old(blocks) ==> availOut == old(availOut)
    {
      hide WindowOk, ChainsOk, HashReady, NextHash, OutputOk, Matched, Wrap, Strings, Answers, KeepsGreedyRule,
        Drained, Fills, Pending, Emitted, IsEntered;
      EmitShape();
      ghost var at, inserted0, tokens, c := base + strstart, inserted, Emitted(), CurrentByte();
      f := FastFind();
      stop := FastMove();
      EmitShape();
      Entered(RulesOf(false), f, at, inserted0, inserted, base + strstart, lookahead);
      GreedyRound(RulesOf(false), old(finds), total, at, inserted0, inserted, tokens, f, c);
    }

    method EmitFound() returns (bflush: bool)
      requires WindowOk() && ChainsOk() && NextHash() && OutputOk(base + strstart) && |symbols| < litBufsize - 1
      requires MIN_MATCH <= matchLength <= MAX_MATCH && matchLength <= lookahead && insert == 0
      requires Matched(strstart, matchStart, matchLength) && strstart <= 2 * wSize - MIN_LOOKAHEAD
      modifies this`symbols, this`lookahead, this`matchLength, this`strstart, this`insH, this`inserted,
        this`last, prev, head
      ensures WindowOk() && ChainsOk() && HashReady() && OutputOk(base + strstart) && matchLength == 0
      ensures |symbols| < litBufsize && bflush == (|symbols| == litBufsize - 1)
      ensures symbols == old(symbols) + [Match(old(Wrap(strstart - matchStart)), old(matchLength))]
      ensures lookahead == old(lookahead - matchLength) && strstart == old(strstart + matchLength)
      ensures inserted == old(inserted) +
        if old(matchLength) <= maxLazyMatch && lookahead >= MIN_MATCH
        then Strings(base + old(strstart) + 1, base + strstart, |total|) else {}
    {
      hide ChainsOk, ReadyHash, Holds, OutputOk, Repeats, Wrap, Strings;
      bflush := TallyMatch(strstart, Wrap(strstart - matchStart), matchLength);
      PassFound();
    }

    /** Emit the current byte as a literal. */
    method EmitCurrent() returns (bflush: bool)
      requires WindowOk() && NextHash() && OutputOk(base + strstart) && |symbols| < litBufsize - 1 && lookahead > 0
      modifies this`symbols, this`lookahead, this`strstart
      ensures WindowOk() && HashReady() && OutputOk(base + strstart)
      ensures |symbols| < litBufsize && bflush == (|symbols| == litBufsize - 1)
      ensures lookahead == old(lookahead) - 1 && strstart == old(strstart) + 1
      ensures symbols == old(symbols) + [Literal(old(CurrentByte()))]
    {
      hide Holds, Spells, BlocksSpell, ReadyHash;
      HoldsAt(window[..], total, base, strstart);
      LiteralSpells(MaxDist(), total, base + blockStart, symbols, base + strstart);
      bflush := TallyLit(window[strstart]);
      lookahead := lookahead - 1;
      strstart := strstart + 1;
    }

    /** A round of the loop of deflate_fast. */
    method FastRound(flush: Flush) returns (round: Round)
      requires FastReady()
      modifies this, window, prev, head
      ensures FastReady() && total + nextIn == old(total + nextIn) && |nextIn| <= old(|nextIn|)
      ensures finished == old(finished) && lastFlush == old(lastFlush)
      ensures Fills(litBufsize - 1, old(blocks), blocks) && Written(old(blocks), old(availOut), old(pending))
      ensures LeadsTo(round, flush, old(blocks), old(availOut), old(|nextIn| + lookahead))
    {
      hide FastReady, Drained, Fills, Strings, Emitted, SymbolsOf, BytesOf, GreedySymbol;
      NothingWritten(sizeOf, blocks, availOut, pending);
      NothingFilled(litBufsize - 1, blocks);
      round := FastInput(flush);
      if round == GoOn {
        ghost var f;
        var stop;
        stop, f := FastStep();
        round := if stop then AskForMore else GoOn;
      }
    }

    method DeflateFast(flush: Flush) returns (r: BlockState)
      requires FastReady()
      modifies this, window, prev, head
      ensures FastReady()
      ensures total + nextIn == old(total + nextIn) && |nextIn| <= old(|nextIn|)
      ensures finished == old(finished) && lastFlush == old(lastFlush)
      ensures CallEnds(r, flush, old(blocks), old(availOut))
      ensures r != NeedMore ==> AllFlushed() && DecodeBlocks(MaxDist(), blocks) == Some(old(total + nextIn))
      ensures if Ended(r) then Closes(old(blocks), blocks) else Extends(old(blocks), blocks)
      ensures FillsAndEnds(litBufsize - 1, old(blocks), blocks) && Written(old(blocks), old(availOut), old(pending))
    {
      hide FastReady, DecodeBlocks, Drained, Closes, Extends, Fills, FillsAndEnds;
      NothingWritten(sizeOf, blocks, availOut, pending);
      NothingFilled(litBufsize - 1, blocks);
      var round := GoOn;
      while round == GoOn
        invariant FastReady() && Fills(litBufsize - 1, old(blocks), blocks)
        invariant Written(old(blocks), old(availOut), old(pending))
        invariant total + nextIn == old(total + nextIn) && |nextIn| <= old(|nextIn|)
        invariant finished == old(finished) && lastFlush == old(lastFlush)
        invariant round == GoOn ==> availOut > 0 || (blocks == old(blocks) && availOut == old(availOut))
        invariant round == AskForMore ==> AsksForMore(flush, old(blocks), old(availOut))
        invariant round == UseUp ==> lookahead == 0 && nextIn == [] && flush != NoFlush
        invariant round == UseUp ==> availOut > 0 || (blocks == old(blocks) && availOut == old(availOut))
        decreases |nextIn| + lookahead + if round == GoOn then 1 else 0
      {
        ghost var before, room, waiting := blocks, availOut, pending;
        round := FastRound(flush);
        WrittenMore(sizeOf, old(blocks), old(availOut), old(pending), before, room, waiting, blocks, availOut, pending);
        FillsMore(litBufsize - 1, old(blocks), before, blocks);
      }
      ghost var before, room, waiting := blocks, availOut, pending;
      EndedBy(litBufsize - 1, old(blocks), before, before);
      if round == AskForMore { return NeedMore; }
      r := FastEnd(flush);
      WrittenMore(sizeOf, old(blocks), old(availOut), old(pending), before, room, waiting, blocks, availOut, pending);
      EndedBy(litBufsize - 1, old(blocks), before, blocks);
      assert total + nextIn == total;
    }

    /** Enough lookahead for a round, unless the input does not give it. */
    method FastInput(flush: Flush) returns (round: Round)
      requires FastReady()
      modifies window, prev, head, this`matchStart, this`strstart, this`blockStart, this`base, this`nextIn, this`total,
               this`lookahead, this`insH, this`insert, this`inserted, this`last, this`highWater
      ensures FastReady() && total + nextIn == old(total + nextIn)
      ensures |nextIn| <= old(|nextIn|) && |nextIn| + lookahead == old(|nextIn| + lookahead)
      ensures match round
        case GoOn =>
          && lookahead > 0 && strstart <= 2 * wSize - MIN_LOOKAHEAD && (lookahead >= MIN_LOOKAHEAD || nextIn == [])
        case AskForMore => flush == NoFlush && nextIn == [] && lookahead < MIN_LOOKAHEAD
        case UseUp => flush != NoFlush && nextIn == [] && lookahead == 0
    {
      hide FastReady;
      FastShape();
      if lookahead < MIN_LOOKAHEAD {
        RefillFast();
        if lookahead < MIN_LOOKAHEAD && flush == NoFlush {
          return AskForMore;
        }
        if lookahead == 0 { return UseUp; }
      }
      return GoOn;
    }

    lemma FastShape()
      requires FastReady()
      ensures 512 <= wSize <= 0x8000 && strstart + lookahead <= 2 * wSize
      ensures lookahead >= MIN_LOOKAHEAD ==> strstart <= 2 * wSize - MIN_LOOKAHEAD
    {
    }

    method RefillFast()
      requires FastReady() && lookahead < MIN_LOOKAHEAD
      modifies window, prev, head, this`matchStart, this`strstart, this`blockStart, this`base, this`nextIn, this`total,
               this`lookahead, this`insH, this`insert, this`inserted, this`last, this`highWater
      ensures FastReady() && total + nextIn == old(total + nextIn)
      ensures |nextIn| + lookahead == old(|nextIn| + lookahead)
      ensures strstart <= 2 * wSize - MIN_LOOKAHEAD && (lookahead >= MIN_LOOKAHEAD || nextIn == [])
      ensures |nextIn| <= old(|nextIn|)
    {
      hide Ready, KeepsGreedyRule, Strings, Emitted;
      FillWindow(base + strstart);
      GreedyRuleStill(RulesOf(false), finds, old(total), total, base + strstart, old(inserted), inserted, Emitted());
    }

    method FastEnd(flush: Flush) returns (r: BlockState)
      requires FastReady() && lookahead == 0 && nextIn == []
      modifies this`insert, this`symbols, this`blocks, this`blockStart, this`availOut, this`pending
      ensures FastReady() && AllFlushed()
      ensures DecodeBlocks(MaxDist(), blocks) == Some(total)
      ensures if flush == Finish || old(symbols) != [] then |blocks| == |old(blocks)| + 1 else blocks == old(blocks)
      ensures old(blocks) <= blocks
      ensures EndsWith(r, flush, old(symbols) != [])
      ensures blocks == old(blocks) ==> availOut == old(availOut)
      ensures if Ended(r) then flush == Finish && Closes(old(blocks), blocks) else Extends(old(blocks), blocks)
      ensures Written(old(blocks), old(availOut), old(pending))
    {
      hide WindowOk, ChainsOk, HashReady, OutputOk, Pending, DecodeBlocks, KeepsGreedyRule, Emitted, Drained;
      FastShape();
      r := EndInput(flush);
    }

    /** The same for deflate_fast, where no byte is ever undecided. */
    lemma FastDecodesSoFar()
      requires FastReady()
      ensures 0 <= base + blockStart <= |total| && DecodeBlocks(MaxDist(), blocks) == Some(total[..base + blockStart])
      ensures Decode(MaxDist(), total[..base + blockStart], symbols) == Some(total[..base + strstart])
    {
      hide WindowOk, ChainsOk, HashReady, Pending, IsGreedy;
      BlocksDecode(MaxDist(), total, blocks, base + blockStart);
    }

    /** The same with the greedy rule. */
    lemma GreedySoFar(i: nat)
      requires FastReady() && i < |Emitted()|
      ensures Recorded(RulesOf(false), finds, total, base + strstart, inserted)
      ensures Lawful(RulesOf(false), finds, Emitted()) && Spans(Emitted()) == base + strstart
      ensures Follows(RulesOf(false), finds, Spans(Emitted()[..i]), Emitted()[i])
    {
      hide Ready, Recorded, Lawful, Spans, Follows;
      EachFollows(RulesOf(false), finds, Emitted(), i);
    }

    method FastForget()
      requires FastReady() && AllFlushed()
      modifies head, this`strstart, this`blockStart, this`insert, this`blocks, this`total, this`base, this`inserted,
               this`last, this`finds
      ensures FastReady() && total == [] && blocks == [] && nextIn == []
    {
      hide WindowOk, ChainsOk, HashReady, OutputOk, Pending;
      ForgetHistory();
    }

    // ---- deflate()

    /** The invariant between calls. */
    ghost predicate Idle()
      reads this, window, prev, head
    {
      && (if slow then SlowReady() else FastReady())
      && if finished then HandedOver() && Closes([], blocks) else Extends([], blocks)
    }

    lemma IdleDecodes()
      requires if slow then SlowReady() else FastReady()
      ensures 0 <= base + blockStart <= |total| && DecodeBlocks(MaxDist(), blocks) == Some(total[..base + blockStart])
      ensures HandedOver() ==> base + blockStart == |total|
    {
      hide Ready, DecodeBlocks, IsLazy, IsGreedy;
      if slow { DecodesSoFar(); } else { FastDecodesSoFar(); }
      FlushedAll();
    }

    lemma FlushedAll()
      requires if slow then SlowReady() else FastReady()
      ensures HandedOver() ==> base + blockStart == |total|
    {
    }

    /** The compressor of the level. */
    method Compress(flush: Flush) returns (r: BlockState)
      requires if slow then SlowReady() else FastReady()
      modifies this, window, prev, head
      ensures if slow then SlowReady() && (r != NeedMore ==> !matchAvailable) else FastReady()
      ensures total + nextIn == old(total + nextIn) && |nextIn| <= old(|nextIn|)
      ensures CallEnds(r, flush, old(blocks), old(availOut))
      ensures r != NeedMore ==> AllFlushed() && DecodeBlocks(MaxDist(), blocks) == Some(old(total + nextIn))
      ensures if Ended(r) then Closes(old(blocks), blocks) else Extends(old(blocks), blocks)
      ensures Written(old(blocks), old(availOut), old(pending))
      ensures finished == old(finished) && lastFlush == old(lastFlush)
    {
      hide SlowReady, FastReady, DecodeBlocks, Closes, Extends, Drained, FillsAndEnds;
      if slow {
        r := DeflateSlow(flush);
      } else {
        r := DeflateFast(flush);
      }
    }

    /** A flush is marked by an empty block, which stands for no bytes and is not kept in blocks; a full flush makes the
        compressor forget. */
    method MarkFlush(flush: Flush)
      requires (if slow then SlowReady() && !matchAvailable else FastReady()) && AllFlushed()
      modifies this`availOut, this`pending, head, this`strstart, this`blockStart, this`insert, this`blocks, this`total,
               this`base, this`inserted, this`last, this`finds
      ensures if slow then SlowReady() else FastReady()
      ensures if flush == FullFlush then total == [] && nextIn == [] && blocks == []
        else total == old(total) && blocks == old(blocks)
      ensures availOut <= old(availOut) && (availOut > 0 ==> pending == 0)
    {
      hide WindowOk, ChainsOk, HashReady, OutputOk, Pending, IsLazy, IsGreedy, DecodeBlocks;
      pending := pending + markSize(flush);
      if flush == FullFlush {
        if slow { SlowForget(); } else { FastForget(); }
      }
      FlushPending();
    }

    /** The compressor, and the status it leads to. */
    method Work(flush: Flush) returns (state: BlockState, ghost text: seq<byte>)
      requires Idle() && !finished && availOut > 0 && pending == 0
      modifies this, window, prev, head
      ensures Idle() && lastFlush == old(lastFlush) && total + nextIn == old(total + nextIn)
      ensures DecodeBlocks(MaxDist(), blocks) == Some(text) && text <= total + nextIn && old(blocks) <= blocks
      ensures state != NeedMore ==> text == total + nextIn && AllFlushed() && (slow ==> !matchAvailable)
      ensures CallEnds(state, flush, old(blocks), old(availOut))
      ensures OnceClosed(blocks) && (IsClosed(blocks) <==> finished) && (finished <==> Ended(state))
      ensures availOut <= old(availOut) && |nextIn| <= old(|nextIn|) && (availOut > 0 ==> pending == 0)
    {
      hide WindowOk, ChainsOk, HashReady, OutputOk, Pending, IsLazy, IsGreedy, DecodeBlocks, Closes, Extends, Drained;
      ghost var before, room := blocks, availOut;
      state := Compress(flush);
      IdleDecodes();
      ClosedIs(before, blocks);
      SpentIs(sizeOf, before, room, 0, blocks, availOut, pending);
      text := total[..base + blockStart];
      finished := Ended(state);
      assert AllFlushed() ==> text == total == total + nextIn;
    }

    /** Start a new block or continue the current one; stop tells that the call ends here. */
    method NewBlocks(flush: Flush) returns (stop: bool, made: seq<Block>, forgets: bool, ghost text: seq<byte>)
      requires Idle() && !finished && availOut > 0 && pending == 0
      modifies this, window, prev, head
      ensures Idle() && lastFlush == old(lastFlush)
      ensures DecodeBlocks(MaxDist(), made) == Some(text) && text <= old(total + nextIn) && old(blocks) <= made
      ensures if forgets then blocks == [] && total + nextIn == [] && flush == FullFlush
        else blocks == made && total + nextIn == old(total + nextIn)
      ensures OnceClosed(made) && (IsClosed(made) <==> finished) && (finished ==> flush == Finish)
      ensures forgets ==> text == old(total + nextIn) && !finished
      ensures stop && availOut > 0 ==> flush == NoFlush && nextIn == []
      ensures !stop ==> availOut > 0 && nextIn == [] && text == old(total + nextIn)
      ensures !stop ==> if flush == Finish then finished else flush == FullFlush ==> forgets
      ensures stop && flush == FullFlush && availOut > 0 ==> forgets
      ensures availOut <= old(availOut) && |nextIn| <= old(|nextIn|)
    {
      hide WindowOk, ChainsOk, HashReady, OutputOk, Pending, IsLazy, IsGreedy, DecodeBlocks, Closes, Extends,
        OnceClosed;
      var state;
      state, text := Work(flush);
      made, forgets := blocks, false;
      ExtendsMore([], [], []);
      if state == BlockDone {
        forgets := flush == FullFlush;
        MarkFlush(flush);
        return availOut == 0, made, forgets, text;
      }
      return state == NeedMore || state == FinishStarted, made, forgets, text;
    }

    /** Whether a call is refused: there is no room, or nothing to do, or input after the end. */
    predicate IsRefused(flush: Flush)
      reads `finished, `availOut, `pending, `nextIn, `lastFlush
    {
      || availOut == 0
      || (pending == 0 && nextIn == [] && Rank(Some(flush)) <= Rank(lastFlush) && flush != Finish)
      || (pending < availOut && finished && nextIn != [])
    }

    /** What comes first: calls are refused, and pending bytes go out. */
    method Begin(flush: Flush) returns (early: Option<Reply>)
      requires Idle()
      modifies this`lastFlush, this`availOut, this`pending
      ensures Idle() && early != Some(StreamEnd)
      ensures early == Some(StreamError) <==> finished && flush != Finish
      ensures early == Some(BufError) <==> !(finished && flush != Finish) && old(IsRefused(flush))
      ensures early == Some(Okay) ==> availOut == 0 < old(availOut)
      ensures early == None ==> pending == 0 && 0 < availOut <= old(availOut) && lastFlush == Some(flush)
      ensures early == None && finished ==> nextIn == [] && flush == Finish
      ensures early == None ==>
        availOut < old(availOut) || nextIn != [] || flush == Finish || Rank(Some(flush)) > Rank(old(lastFlush))
    {
      hide WindowOk, ChainsOk, HashReady, OutputOk, Pending, IsLazy, IsGreedy, Closes, Extends;
      if finished && flush != Finish { return Some(StreamError); }
      if availOut == 0 { return Some(BufError); }
      var oldFlush := lastFlush;
      lastFlush := Some(flush);
      if pending != 0 {
        FlushPending();
        if availOut == 0 {
          lastFlush := None;
          return Some(Okay);
        }
      } else if nextIn == [] && Rank(Some(flush)) <= Rank(oldFlush) && flush != Finish {
        return Some(BufError);
      }
      if finished && nextIn != [] { return Some(BufError); }
      return None;
    }

    /** deflate(). Finishing goes on until the output is full or the stream has ended; a call that is not refused gets
        on. */
    method Deflate(flush: Flush)
      returns (reply: Reply, made: seq<Block>, forgets: bool, ghost text: seq<byte>)
      requires Idle()
      modifies this, window, prev, head
      ensures Idle()
      ensures if forgets then blocks == [] && total + nextIn == []
        else blocks == made && total + nextIn == old(total + nextIn)
      ensures Leaves(MaxDist(), flush, old(blocks), old(total + nextIn), reply, made, availOut, text,
                     forgets)
      ensures reply == StreamError <==> old(finished) && flush != Finish
      ensures reply == BufError <==> !(old(finished) && flush != Finish) && old(IsRefused(flush))
      ensures reply == StreamEnd ==> finished && availOut > 0
      ensures reply == Okay ==>
        availOut < old(availOut) || |nextIn| < old(|nextIn|) || Rank(lastFlush) > Rank(old(lastFlush))
    {
      hide Idle, DecodeBlocks, Leaves, OnceClosed, IsClosed;
      text := IdleIs();
      made, forgets := blocks, false;
      ghost var given := total + nextIn;
      var early := Begin(flush);
      if early.Some? {
        NothingDone(MaxDist(), flush, blocks, given, early.value, availOut, text);
        return early.value, made, forgets, text;
      }
      reply := if flush != Finish then Okay else StreamEnd;
      if nextIn != [] || lookahead != 0 || (flush != NoFlush && !finished) {
        ghost var before := blocks;
        var stop;
        stop, made, forgets, text := NewBlocks(flush);
        if stop {
          NoteRoom();
          reply := Okay;
        }
        SomethingDone(MaxDist(), flush, before, given, stop, reply, made, availOut, text, forgets);
      } else {
        NothingDone(MaxDist(), flush, blocks, given, reply, availOut, text);
      }
    }

    /** To avoid an error at the next call. */
    method NoteRoom()
      requires Idle()
      modifies this`lastFlush
      ensures Idle() && lastFlush == if availOut == 0 then None else old(lastFlush)
    {
      hide WindowOk, ChainsOk, HashReady, OutputOk, Pending, IsLazy, IsGreedy, Closes, Extends;
      if availOut == 0 { lastFlush := None; }
    }

    lemma IdleIs() returns (text: seq<byte>)
      requires Idle()
      ensures DecodeBlocks(MaxDist(), blocks) == Some(text) && text <= total + nextIn
      ensures finished && nextIn == [] ==> lookahead == 0 && text == total + nextIn
      ensures OnceClosed(blocks) && (IsClosed(blocks) <==> finished)
    {
      hide SlowReady, FastReady, DecodeBlocks, Closes, Extends, OnceClosed, IsClosed;
      IdleDecodes();
      ClosedIs([], blocks);
      text := total[..base + blockStart];
      assert total + [] == total;
    }

    /** A call with its input and output space. */
    method NextCall(c: Call) returns (reply: Reply, made: seq<Block>, forgets: bool, ghost text: seq<byte>)
      requires Idle()
      modifies this, window, prev, head
      ensures Idle()
      ensures if forgets then blocks == [] && total + nextIn == []
        else blocks == made && total + nextIn == old(total + nextIn) + c.bytes
      ensures Leaves(MaxDist(), c.flush, old(blocks), old(total + nextIn) + c.bytes, reply, made, availOut, text,
                     forgets)
    {
      hide Leaves, Idle;
      NewInput(c.bytes, c.room);
      assert total + nextIn == old(total + nextIn) + c.bytes;
      reply, made, forgets, text := Deflate(c.flush);
    }

    /** The caller supplies input and output space. */
    method NewInput(bytes: seq<byte>, room: nat)
      requires Idle()
      modifies this`nextIn, this`availOut
      ensures Idle() && nextIn == old(nextIn) + bytes && availOut == room
      ensures blocks == old(blocks) && total == old(total)
    {
      hide WindowOk, ChainsOk, HashReady, OutputOk, Pending, IsLazy, IsGreedy, Closes, Extends;
      nextIn, availOut := nextIn + bytes, room;
    }

    /** Any number of calls, each with its own input, flush mode and output space, in any order and also after
        errors. */
    method CompressAll(calls: seq<Call>) returns (run: seq<Outcome>)
      requires Idle() && total == [] && nextIn == [] && blocks == []
      modifies this, window, prev, head
      ensures Idle() && |run| == |calls| && Accounts(MaxDist(), calls, run)
    {
      hide Idle, Accounts, BetweenCalls, Leaves;
      run := [];
      var sent: seq<Block> := [];
      ghost var past: seq<byte> := [];
      StartsAccounted(MaxDist(), calls);
      assert total + nextIn == [];
      while |run| < |calls|
        modifies this, window, prev, head
        invariant |run| <= |calls| && Idle()
        invariant BetweenCalls(MaxDist(), calls, run, sent, past, blocks, total + nextIn)
        decreases |calls| - |run|
      {
        var c := calls[|run|];
        ghost var before, all := blocks, total + nextIn;
        var reply, made, forgets;
        ghost var text: seq<byte>;
        reply, made, forgets, text := NextCall(c);
        OneMoreCall(MaxDist(), calls, run, sent, past, before, all, reply, made, availOut, text, forgets);
        run := run + [Outcome(reply, sent + made, availOut)];
        if forgets {
          sent, past := sent + made, past + text;
        }
      }
      EndsAccounted(MaxDist(), calls, run, sent, past, blocks, total + nextIn);
    }

    // ---- deflateInit2 and lm_init

    /** windowBits is 9..15 once the 256-byte window has been replaced, memLevel 1..9. */
    constructor (windowBits: int, memLevel: int, maxChain: uint32, maxLazy: uint32, good: uint32, nice: uint32,
                 filter: bool, lazy: bool, size: (seq<Block>, Block) -> nat, mark: Flush -> nat, input: seq<byte>,
                 room: nat)
      requires 9 <= windowBits <= 15 && 1 <= memLevel <= 9
      ensures SlowReady() && FastReady() && nextIn == input && availOut == room && total == [] && blocks == []
      ensures Idle() && !finished && pending == 0 && sizeOf == size && markSize == mark && slow == lazy
      ensures wSize == Pow(2, windowBits) && fresh(window) && fresh(prev) && fresh(head)
    {
      WindowSizes();
      wSize := Pow(2, windowBits);
      hashBits := memLevel + 7;
      litBufsize := Pow(2, memLevel + 6);
      maxChainLength, maxLazyMatch, goodMatch, niceMatch, filtered := maxChain, maxLazy, good, nice, filter;
      window := new byte[2 * Pow(2, windowBits)];
      prev := new uint16[Pow(2, windowBits)];
      head := new uint16[Size(memLevel + 7)](_ => 0);
      slow, sizeOf, markSize := lazy, size, mark;
      finished, lastFlush := false, Some(NoFlush);
      nextIn, availOut, pending := input, room, 0;
      insH, blockStart, highWater := 0, 0, 0;
      strstart, lookahead, insert, matchStart, prevMatch := 0, 0, 0, 0, 0;
      matchLength, prevLength, matchAvailable := MIN_MATCH - 1, MIN_MATCH - 1, false;
      symbols, blocks := [], [];
      total, base, inserted, last, finds := [], 0, {}, -3, map[];
      new;
      hide Pow, SlowReady, FastReady;
      StartsReady();
    }

    /** What lm_init leaves is ready for both compressors. */
    lemma StartsReady()
      requires Shape() && (forall h :: 0 <= h < head.Length ==> head[h] == 0)
      requires blockStart == 0 && highWater == 0 && strstart == 0 && lookahead == 0 && insert == 0
      requires matchLength == 2 && prevLength == 2 && !matchAvailable
      requires symbols == [] && blocks == [] && total == [] && base == 0 && inserted == {} && last == -3
      requires finds == map[]
      ensures SlowReady() && FastReady()
    {
      hide Ready;
      NothingRemembered();
    }
  }

  lemma WindowSizes()
    ensures forall n {:trigger Pow(2, n)} :: 9 <= n <= 15 ==> 512 <= Pow(2, n) <= 0x8000
    ensures forall n {:trigger Pow(2, n)} :: 7 <= n <= 15 ==> 128 <= Pow(2, n)
  {
    hide Pow;
    Pow2Values();
    PowAdd(2, 4, 4);
    assert Pow(2, 7) == 128 by { PowSucc(2, 6); PowSucc(2, 5); PowSucc(2, 4); PowSucc(2, 7); }
    assert Pow(2, 9) == 512 by { PowSucc(2, 8); }
    assert Pow(2, 15) == 0x8000 by { PowSucc(2, 15); }
    forall n | 9 <= n <= 15 ensures 512 <= Pow(2, n) <= 0x8000 { PowMono(2, 9, n); PowMono(2, n, 15); }
    forall n | 7 <= n <= 15 ensures 128 <= Pow(2, n) { PowMono(2, 7, n); }
  }

  /** The greedy compressor enters the string it looked at, and those inside a short match. */
  lemma Entered(r: Rules, f: Find, at: int, inserted: set<int>, inserted': set<int>, end: int, lookahead: int)
    requires end == at + (if f.length >= MIN_MATCH then f.length else 1) && f.known == end + lookahead
    requires inserted' == inserted + Strings(at, at + 1, f.known) +
      if MIN_MATCH <= f.length <= r.maxLazy && lookahead >= MIN_MATCH then Strings(at + 1, end, f.known) else {}
    ensures IsEntered(r, f, at, inserted')
  {
  }

  /** Of left strings in front of position at, insert are still not in the chains. */
  ghost predicate HaveEntered(before: set<int>, left: int, after: set<int>, insert: int, at: int, known: int) {
    && insert <= left && (insert < left ==> IsWhole(at - insert - 1, known))
    && after == before + Strings(at - left, at - insert, known)
  }

  lemma NoneEntered(before: set<int>, left: int, at: int, known: int)
    ensures HaveEntered(before, left, before, left, at, known)
  {
  }

  lemma OneEntered(before: set<int>, left: int, after: set<int>, insert: int, at: int, known: int)
    requires HaveEntered(before, left, after, insert, at, known) && IsWhole(at - insert, known)
    ensures HaveEntered(before, left, after + {at - insert}, insert - 1, at, known)
  {
    hide Strings;
    StringsMore(at - left, at - insert, known);
  }

  lemma EnteredLater(a: set<int>, left: int, b: set<int>, middle: int, c: set<int>, insert: int, at: int,
                    known: int, known': int)
    requires HaveEntered(a, left, b, middle, at, known) && HaveEntered(b, middle, c, insert, at, known')
    requires known <= known'
    ensures HaveEntered(a, left, c, insert, at, known')
  {
    assert Strings(at - left, at - middle, known) == Strings(at - left, at - middle, known') by {
      forall q | at - left <= q < at - middle ensures IsWhole(q, known) && IsWhole(q, known') {
        assert IsWhole(at - middle - 1, known);
      }
    }
    StringsJoin(at - left, at - middle, at - insert, known');
  }

  lemma NoStrings(at: int, known: int)
    ensures Strings(at, at, known) == {}
  {
  }

  lemma StringsMore(at: int, end: int, known: int)
    requires at <= end
    ensures Strings(at, end + 1, known) == Strings(at, end, known) + if end + MIN_MATCH <= known then {end} else {}
  {
  }

  lemma StringsJoin(at: int, middle: int, end: int, known: int)
    requires at <= middle <= end
    ensures Strings(at, middle, known) + Strings(middle, end, known) == Strings(at, end, known)
  {
  }

  lemma OneString(at: int, known: int)
    ensures Strings(at, at + 1, known) == if at + MIN_MATCH <= known then {at} else {}
  {
  }

  lemma RollingGives(k: hashbits, h: bv32, b: byte, c: byte, d: byte)
    requires Rolling(k, h, b, c)
    ensures Update(k, h, d) == Three(k, b, c, d)
  {
  }

  /** An index into prev is the same for a window index and for its position in the input. */
  lemma SlotOfWindow(k: hashbits, wSize: int, text: seq<byte>, base: int, head: seq<uint16>, prev: seq<uint16>,
                     inserted: set<int>, last: int, i: nat)
    requires Chains(k, wSize, text, base, head, prev, inserted, last)
    ensures 0 < wSize == |prev| && Slot(i, wSize) == Slot(base + i, wSize)
  {
    ModSum(base, i, wSize);
  }

  lemma LinkedMore(k: hashbits, text: seq<byte>, base: int, q: int, inserted: set<int>, p: int)
    requires Linked(k, text, base, q, inserted, p)
    ensures Linked(k, text, base, q, inserted + {p}, p)
  {
  }
}
