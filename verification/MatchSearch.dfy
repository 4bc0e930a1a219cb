/** The search for a match: what it looks at, and what a right answer is. */
module MatchSearch {
  import opened Arith
  import opened Lz77
  import opened HashChain

  const MIN_MATCH := 3
  const MAX_MATCH := 258
  const MIN_LOOKAHEAD := 262
  const WIN_INIT := 258
  const TOO_FAR := 4096

  /** Unsigned 32-bit arithmetic. */
  function Wrap(x: int): uint32 { x % 0x1_0000_0000 }

  /** The window from its start to the end of the data is the input from position base on. */
  ghost predicate Holds(window: seq<byte>, total: seq<byte>, base: int) {
    && 0 <= base <= |total| <= base + |window|
    && forall i :: 0 <= i < |total| - base ==> window[i] == total[base + i]
  }

  lemma HoldsAt(window: seq<byte>, total: seq<byte>, base: int, i: int)
    requires Holds(window, total, base) && 0 <= i && base + i < |total|
    ensures i < |window| && window[i] == total[base + i]
  {
  }

  lemma HoldsRange(window: seq<byte>, total: seq<byte>, base: int, i: int, j: int)
    requires Holds(window, total, base) && 0 <= i <= j && base + j <= |total|
    ensures j <= |window| && window[i..j] == total[base + i..base + j]
  {
  }

  lemma HoldsSlid(window: seq<byte>, window': seq<byte>, total: seq<byte>, base: int, wSize: int)
    requires Holds(window, total, base) && 0 <= wSize && |window'| == |window| == 2 * wSize && base + wSize <= |total|
    requires forall i :: 0 <= i < |total| - base - wSize ==> window'[i] == window[wSize + i]
    ensures Holds(window', total, base + wSize)
  {
  }

  lemma HoldsMore(window: seq<byte>, window': seq<byte>, total: seq<byte>, base: int, more: seq<byte>)
    requires Holds(window, total, base) && |window'| == |window| && |total| + |more| <= base + |window|
    requires forall i :: 0 <= i < |total| - base ==> window'[i] == window[i]
    requires forall i :: 0 <= i < |more| ==> window'[|total| - base + i] == more[i]
    ensures Holds(window', total + more, base)
  {
  }

  lemma HoldsStill(window: seq<byte>, window': seq<byte>, total: seq<byte>, base: int)
    requires Holds(window, total, base) && |window'| == |window|
    requires forall i :: 0 <= i < |total| - base ==> window'[i] == window[i]
    ensures Holds(window', total, base)
  {
  }

  /** The window repeats itself from dist bytes back. */
  ghost predicate SameBack(window: seq<byte>, at: int, dist: int, length: int) {
    && 0 <= dist <= at && at + length <= |window|
    && forall i :: at <= i < at + length ==> window[i] == window[i - dist]
  }

  lemma SameBackShorter(window: seq<byte>, at: int, dist: int, length: int, length': int)
    requires SameBack(window, at, dist, length) && length' <= length
    ensures SameBack(window, at, dist, length')
  {
  }

  /** Strings of the window that agree are repetitions in the input. */
  lemma WindowRepeats(window: seq<byte>, total: seq<byte>, base: int, at: int, dist: int, length: nat)
    requires Holds(window, total, base) && SameBack(window, at, dist, length)
    requires 1 <= dist && base + at + length <= |total|
    ensures Repeats(total, base + at, dist, length)
  {
    forall i | base + at <= i < base + at + length ensures total[i] == total[i - dist] {
      assert window[i - base] == window[i - base - dist];
    }
  }

  /** An inserted string at window index c, within reach of the one at window index at and with the same hash. */
  ghost predicate Comparable(k: hashbits, total: seq<byte>, base: int, inserted: set<int>, reach: int,
                             at: int, c: int)
  {
    && 0 <= c < at <= c + reach && base + c in inserted
    && HashAt(k, total, base + c) == HashAt(k, total, base + at)
  }

  /** The chain leads from one comparable string to the next until the limit is reached. */
  lemma NextComparable(k: hashbits, wSize: int, total: seq<byte>, base: int, head: seq<uint16>, prev: seq<uint16>,
                       inserted: set<int>, reach: int, at: int, c: int, limit: int)
    requires Chains(k, wSize, total, base, head, prev, inserted, base + at) && 0 <= reach < wSize
    requires Comparable(k, total, base, inserted, reach, at, c)
    requires limit == if at > reach then at - reach else 0
    ensures 0 < wSize == |prev|
    ensures var q := prev[Slot(c, wSize)]; q > limit ==> q < c && Comparable(k, total, base, inserted, reach, at, q)
  {
    hide HashAt;
    ChainStep(k, wSize, total, base, head, prev, inserted, base + at, c);
  }

  /** The strings at window indices at and c agree in no more than best bytes, or in all that count. */
  ghost predicate NoBetter(window: seq<byte>, at: int, c: int, best: int) {
    best >= MAX_MATCH || !SameBack(window, at, at - c, best + 1)
  }

  /** None of the strings at positions cs is better; base is the position of window[0]. */
  ghost predicate NoneBetter(window: seq<byte>, base: int, at: int, cs: set<int>, best: int) {
    forall p :: p in cs ==> NoBetter(window, at, p - base, best)
  }

  lemma NoneBetterThan(cs: set<int>, window: seq<byte>, base: int, at: int, best: int, best': int)
    requires NoneBetter(window, base, at, cs, best) && 0 <= best <= best'
    ensures NoneBetter(window, base, at, cs, best')
  {
  }

  lemma NoLonger(window: seq<byte>, base: int, at: int, c: int, length: int)
    requires 0 <= c < at && 0 <= length <= MAX_MATCH && at + MAX_MATCH < |window|
    requires length < MAX_MATCH ==> window[at + length] != window[c + length]
    ensures NoneBetter(window, base, at, {base + c}, length)
  {
  }

  /** The quick test before a comparison only drops strings that cannot do better. */
  lemma Skipped(window: seq<byte>, base: int, at: int, c: int, best: int)
    requires 0 <= c < at && 1 <= best <= MAX_MATCH && at + MAX_MATCH < |window|
    requires window[c + best] != window[at + best] || window[c + best - 1] != window[at + best - 1]
          || window[c] != window[at] || window[c + 1] != window[at + 1]
    ensures NoneBetter(window, base, at, {base + c}, best)
  {
  }

  /** The positions met by following prev from window index cur, at most count of them, while they are above limit. */
  function ChainFrom(prev: seq<uint16>, wSize: int, base: int, cur: int, limit: int, count: nat): set<int>
    requires 0 < wSize == |prev|
    decreases count
  {
    if count == 0 then {}
    else
      var q := prev[Slot(cur, wSize)];
      {base + cur} + if q > limit then ChainFrom(prev, wSize, base, q, limit, count - 1) else {}
  }

  lemma ChainFromIs(prev: seq<uint16>, wSize: int, base: int, cur: int, limit: int, count: nat)
    requires 0 < wSize == |prev| && 0 < count
    ensures var q := prev[Slot(cur, wSize)];
      && ChainFrom(prev, wSize, base, cur, limit, count) ==
         {base + cur} + if q > limit then ChainFrom(prev, wSize, base, q, limit, count - 1) else {}
    ensures ChainFrom(prev, wSize, base, cur, limit, 0) == {}
    ensures ChainFrom(prev, wSize, base, prev[Slot(cur, wSize)], limit, 0) == {}
  {
  }

  lemma AllLeft(window: seq<byte>, base: int, at: int, all: set<int>, best: int)
    ensures NoneBetter(window, base, at, all - all, best)
  {
  }

  lemma EmptyLeft(window: seq<byte>, base: int, at: int, all: set<int>, left: set<int>, best: int)
    ensures NoneBetter(window, base, at, all - left, best) && left == {} ==> NoneBetter(window, base, at, all, best)
  {
    assert all - {} == all;
  }

  /** One step of the search: what was left is cur and the rest. */
  lemma SearchStep(window: seq<byte>, base: int, at: int, all: set<int>, left: set<int>, rest: set<int>,
                   cur: int, best: int, best': int)
    requires NoneBetter(window, base, at, all - left, best) && NoneBetter(window, base, at, {base + cur}, best')
    requires 0 <= best <= best' && left <= {base + cur} + rest
    ensures NoneBetter(window, base, at, all - rest, best')
  {
    hide NoBetter;
    NoneBetterThan(all - left, window, base, at, best, best');
    forall p | p in all - rest ensures NoBetter(window, at, p - base, best') {
      if p !in left { assert p in all - left; } else { assert p in {base + cur}; }
    }
  }

  /** The bytes compared before a match is followed up, and the hash, settle the first three bytes. */
  lemma ThreeAlike(k: hashbits, window: seq<byte>, total: seq<byte>, base: int, at: int, c: int)
    requires Holds(window, total, base) && 0 <= c < at && base + at + 3 <= |total|
    requires HashAt(k, total, base + c) == HashAt(k, total, base + at)
    requires window[c] == window[at] && window[c + 1] == window[at + 1]
    ensures SameBack(window, at, at - c, 3)
  {
    assert HashAt(k, total, base + at) != -1;
    HashedAlike(k, total, base + c, base + at);
  }

  // ---- What a search looks at

  /** Inserted strings of the window, but for its first byte, with the hash of the string at a position. */
  ghost function Alike(k: hashbits, text: seq<byte>, base: int, inserted: set<int>, at: int): set<int> {
    set q | q in inserted && base < q < at && HashAt(k, text, q) == HashAt(k, text, at)
  }

  /** Those within reach. Only the newest of all may be as far back as the limit. */
  ghost function Reachable(k: hashbits, text: seq<byte>, base: int, inserted: set<int>, reach: int, at: int): set<int> {
    var alike := Alike(k, text, base, inserted, at);
    set q | q in alike && (at - q < reach || (at - q == reach && forall p :: p in alike ==> p <= q))
  }

  /** cs are the newest of all, n of them or as many as there are. */
  ghost predicate Newest(cs: set<int>, all: set<int>, n: nat) {
    && cs <= all && |cs| == (if n < |all| then n else |all|)
    && forall c, d :: c in cs && d in all - cs ==> d < c
  }

  lemma NewestMore(cs: set<int>, all: set<int>, n: nat, x: int)
    requires Newest(cs, all, n) && forall c :: c in all ==> c < x
    ensures Newest({x} + cs, {x} + all, n + 1)
  {
    assert x !in all && x !in cs;
    assert {x} + all - ({x} + cs) == all - cs;
    forall c, d | c in {x} + cs && d in all - cs ensures d < c {
      if c == x { assert d in all; }
    }
  }

  lemma NoneNewest(all: set<int>)
    ensures Newest({}, all, 0)
  {
  }

  /** The part of a chain from window index cur on. */
  ghost function ChainPart(k: hashbits, text: seq<byte>, base: int, inserted: set<int>, at: int, cur: int,
                           limit: int): set<int>
  {
    set q | q in inserted && base < q <= base + cur && HashAt(k, text, q) == HashAt(k, text, base + at) &&
      (q > base + limit || q == base + cur)
  }

  /** Following a chain from a string finds the newest strings of its hash. */
  lemma {:induction false} ChainIsNewest(k: hashbits, wSize: int, text: seq<byte>, base: int, head: seq<uint16>,
                                         prev: seq<uint16>, inserted: set<int>, reach: int, at: int, cur: int,
                                         limit: int, count: nat)
    requires Chains(k, wSize, text, base, head, prev, inserted, base + at) && 0 <= reach < wSize && 0 < cur
    requires Comparable(k, text, base, inserted, reach, at, cur) && limit == (if at > reach then at - reach else 0)
    ensures 0 < wSize == |prev|
    ensures Newest(ChainFrom(prev, wSize, base, cur, limit, count),
                   ChainPart(k, text, base, inserted, at, cur, limit), count)
    decreases count
  {
    hide Chains, HashAt, ChainFrom, Newest, Slot, Linked;
    NextComparable(k, wSize, text, base, head, prev, inserted, reach, at, cur, limit);
    var all := ChainPart(k, text, base, inserted, at, cur, limit);
    if count == 0 {
      ChainFromIs(prev, wSize, base, cur, limit, 1);
      NoneNewest(all);
    } else {
      var q := prev[Slot(cur, wSize)];
      ChainFromIs(prev, wSize, base, cur, limit, count);
      ChainLink(k, wSize, text, base, head, prev, inserted, at, cur, limit);
      if q > limit {
        ChainIsNewest(k, wSize, text, base, head, prev, inserted, reach, at, q, limit, count - 1);
        NewestMore(ChainFrom(prev, wSize, base, q, limit, count - 1),
          ChainPart(k, text, base, inserted, at, q, limit), count - 1, base + cur);
      } else {
        NewestOnly(base + cur, count);
        assert {base + cur} + {} == {base + cur};
      }
    }
  }

  lemma NewestOnly(x: int, n: nat)
    requires 0 < n
    ensures Newest({x}, {x}, n)
  {
  }

  /** What follows a string of the chain. */
  lemma ChainLink(k: hashbits, wSize: int, text: seq<byte>, base: int, head: seq<uint16>, prev: seq<uint16>,
                  inserted: set<int>, at: int, cur: int, limit: int)
    requires Chains(k, wSize, text, base, head, prev, inserted, base + at) && 0 < cur < at < cur + wSize
    requires base + cur in inserted && HashAt(k, text, base + cur) == HashAt(k, text, base + at) && 0 <= limit
    ensures 0 < wSize == |prev|
    ensures var q := prev[Slot(cur, wSize)];
      ChainPart(k, text, base, inserted, at, cur, limit) ==
      {base + cur} + if q > limit then ChainPart(k, text, base, inserted, at, q, limit) else {}
  {
    ChainStep(k, wSize, text, base, head, prev, inserted, base + at, cur);
    hide Chains, HashAt, ChainPart, Linked;
    PartFollows(k, text, base, inserted, at, cur, prev[Slot(cur, wSize)], limit);
  }

  lemma PartFollows(k: hashbits, text: seq<byte>, base: int, inserted: set<int>, at: int, cur: int, q: int, limit: int)
    requires Linked(k, text, base, q, inserted, base + cur) && 0 <= q && 0 < cur && 0 <= limit
    requires base + cur in inserted && HashAt(k, text, base + cur) == HashAt(k, text, base + at)
    ensures ChainPart(k, text, base, inserted, at, cur, limit) ==
      {base + cur} + if q > limit then ChainPart(k, text, base, inserted, at, q, limit) else {}
  {
    hide HashAt;
    var all := ChainPart(k, text, base, inserted, at, cur, limit);
    var rest := ChainPart(k, text, base, inserted, at, q, limit);
    forall p | p in all ensures p == base + cur || (p <= base + q && q > limit) {
      assert p in inserted && p <= base + cur;
    }
    if q > limit {
      forall p | p in rest ensures p in all {}
      assert all == {base + cur} + rest;
    } else {
      assert all == {base + cur};
    }
  }

  /** The strings within reach are those of the chain from its head on, if that one is near enough. */
  lemma HeadReaches(k: hashbits, text: seq<byte>, base: int, inserted: set<int>, reach: int, at: int, q: int)
    requires Linked(k, text, base, q, inserted, base + at) && 0 <= q && 0 < reach
    ensures Reachable(k, text, base, inserted, reach, base + at) ==
      if q != 0 && at - q <= reach
      then ChainPart(k, text, base, inserted, at, q, if at > reach then at - reach else 0) else {}
  {
    hide HashAt;
    var alike := Alike(k, text, base, inserted, base + at);
    forall p | p in alike ensures q != 0 && p <= base + q {
      assert p in inserted && p < base + at;
    }
    if q != 0 {
      assert base + q in alike;
      var limit := if at > reach then at - reach else 0;
      if at - q <= reach {
        forall p | p in alike ensures p in Reachable(k, text, base, inserted, reach, base + at) <==>
          p > base + limit || p == base + q
        {
        }
      } else {
        assert Reachable(k, text, base, inserted, reach, base + at) == {};
      }
    }
  }

  // ---- What a right answer is

  /** The string at position q agrees with the one at position at in n bytes at most, or in all that count. */
  ghost predicate NoMore(text: seq<byte>, at: int, q: int, n: int) {
    n >= MAX_MATCH || !Repeats(text, at, at - q, n + 1)
  }

  function Nearer(cs: set<int>, p: int): set<int> { set q | q in cs && p < q }

  /** The answer of a search among the strings at positions cs for a match longer than waiting bytes: the nearest of
      the longest, or the nearest of those as long as nice bytes. */
  ghost predicate IsLongest(text: seq<byte>, at: int, cs: set<int>, waiting: int, nice: int, length: int, dist: int) {
    if length <= waiting then
      && length == Min(waiting, |text| - at)
      && forall q :: q in cs ==> NoMore(text, at, q, waiting)
    else
      && at - dist in cs && Repeats(text, at, dist, length) && NoMore(text, at, at - dist, length)
      && (length < nice ==> forall q :: q in cs ==> NoMore(text, at, q, length))
      && forall q :: q in cs && at - dist < q ==> NoMore(text, at, q, Min(length, Max(nice, waiting + 1)) - 1)
  }

  /** The same for a search of the window, which may run over the end of the input: best is the length found, before
      the longest of all nearer strings. */
  ghost predicate IsBest(window: seq<byte>, base: int, at: int, cs: set<int>, waiting: int, nice: int,
                         best: int, before: int, found: int)
  {
    && 1 <= waiting <= best <= MAX_MATCH
    && if best == waiting then NoneBetter(window, base, at, cs, best)
       else
         && FoundIn(window, base, at, cs, waiting, nice, best, before, found)
         && (best < nice ==> NoneBetter(window, base, at, cs, best))
  }

  ghost predicate FoundIn(window: seq<byte>, base: int, at: int, cs: set<int>, waiting: int, nice: int,
                          best: int, before: int, found: int)
  {
    && base + found in cs && SameBack(window, at, at - found, best) && NoBetter(window, at, found, best)
    && waiting <= before < best && (before == waiting || before < nice)
    && NoneBetter(window, base, at, Nearer(cs, base + found), before)
  }

  /** An improvement, when the strings in left, from cur on downwards, have not been looked at. */
  lemma FoundNow(window: seq<byte>, base: int, at: int, all: set<int>, left: set<int>, cur: int, waiting: int,
                 nice: int, best: int, length: int)
    requires NoneBetter(window, base, at, all - left, best) && NoneBetter(window, base, at, {base + cur}, length)
    requires base + cur in left && left <= all && forall q :: q in left ==> q <= base + cur
    requires SameBack(window, at, at - cur, length)
    requires waiting <= best < length && (best == waiting || best < nice)
    ensures FoundIn(window, base, at, all, waiting, nice, length, best, cur)
  {
    hide NoBetter, SameBack;
    assert base + cur in {base + cur} && base + cur - base == cur;
    var nearer := Nearer(all, base + cur);
    forall q | q in nearer ensures NoBetter(window, at, q - base, best) { assert q in all - left; }
  }

  /** A repetition in the input is one in the window. */
  lemma RepeatsInWindow(window: seq<byte>, total: seq<byte>, base: int, at: int, q: int, n: int, best: int)
    requires Holds(window, total, base) && 0 <= at && base <= q && NoBetter(window, at, q - base, best) && best <= n
    ensures NoMore(total, base + at, q, n)
  {
    if n < MAX_MATCH && Repeats(total, base + at, base + at - q, n + 1) {
      forall i | at <= i < at + best + 1 ensures window[i] == window[i - (at - (q - base))] {
        assert total[base + i] == total[base + i - (base + at - q)];
      }
      assert SameBack(window, at, at - (q - base), best + 1);
    }
  }

  lemma NoneBetterInText(window: seq<byte>, total: seq<byte>, base: int, at: int, cs: set<int>, best: int, n: int)
    requires Holds(window, total, base) && 0 <= at && (forall q :: q in cs ==> base <= q) && best <= n
    requires NoneBetter(window, base, at, cs, best)
    ensures forall q :: q in cs ==> NoMore(total, base + at, q, n)
  {
    hide NoMore, NoBetter, Holds;
    forall q | q in cs ensures NoMore(total, base + at, q, n) {
      RepeatsInWindow(window, total, base, at, q, n, best);
    }
  }

  /** What lies beyond the input does not matter: the longest match in the window, cut at the end of the input, is the
      longest in the input. */
  lemma BestIsLongest(window: seq<byte>, total: seq<byte>, base: int, at: int, cs: set<int>, waiting: int, nice: int,
                      best: int, before: int, found: int)
    requires Holds(window, total, base) && 0 <= at && base + at < |total| && nice <= |total| - base - at
    requires IsBest(window, base, at, cs, waiting, nice, best, before, found)
    requires forall q :: q in cs ==> base <= q < base + at
    ensures IsLongest(total, base + at, cs, waiting, nice, Min(best, |total| - base - at), at - found)
  {
    hide NoMore, NoBetter, Holds, Repeats, SameBack, NoneBetter;
    var lookahead := |total| - base - at;
    var length := Min(best, lookahead);
    if length <= waiting {
      if best == waiting {
        NoneBetterInText(window, total, base, at, cs, best, waiting);
      } else {
        forall q | q in cs ensures NoMore(total, base + at, q, waiting) { PastTheEnd(total, base + at, q, waiting); }
      }
    } else {
      SameBackShorter(window, at, at - found, best, length);
      WindowRepeats(window, total, base, at, at - found, length);
      if length == lookahead {
        PastTheEnd(total, base + at, base + found, length);
      } else {
        RepeatsInWindow(window, total, base, at, base + found, length, best);
      }
      assert NoMore(total, base + at, base + found, length);
      assert base + at - (at - found) == base + found;
      if length < nice { NoneBetterInText(window, total, base, at, cs, best, length); }
      var nearer, least := Nearer(cs, base + found), Min(length, Max(nice, waiting + 1)) - 1;
      NoneBetterInText(window, total, base, at, nearer, before, least);
      forall q | q in cs && base + found < q ensures NoMore(total, base + at, q, least) { assert q in nearer; }
    }
  }

  lemma PastTheEnd(text: seq<byte>, at: int, q: int, n: int)
    requires at + n >= |text|
    ensures NoMore(text, at, q, n)
  {
  }
}
