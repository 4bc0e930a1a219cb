/** Which matches a compressor takes: the answers of its searches, and the greedy and the lazy rule. */
module MatchRules {
  import opened Arith
  import opened Lz77
  import opened HashChain
  import opened MatchSearch

  /** What deflateInit2 and the configuration table have fixed, and whether matches are evaluated lazily. */
  datatype Rules = Rules(hashBits: hashbits, reach: int, maxChain: uint32, maxLazy: uint32, good: uint32, nice: uint32,
                         filtered: bool, lazy: bool)
  {
    /** The number of strings a search looks at; its counter wraps around at zero. */
    function Steps(waiting: int): nat {
      var n := if waiting >= good then maxChain / 4 else maxChain;
      if n == 0 then 0x1_0000_0000 else n
    }

    /** A short match may take more bits than its literals. */
    predicate Drops(length: int, dist: int) {
      lazy && length <= 5 && (filtered || (length == MIN_MATCH && dist > TOO_FAR))
    }
  }

  /** The find for one string: the number of input bytes known then, the position of window[0] and the strings inserted
      then, those looked at, the length of the match waiting, the answer of the search, and the length it counts for. */
  datatype Find = Find(known: nat, base: int, inserted: set<int>, searched: set<int>, waiting: int,
                       best: int, dist: int, length: int)

  /** Whether there is a search for the string at a position. */
  ghost predicate IsSearched(r: Rules, text: seq<byte>, at: int, f: Find) {
    && at + MIN_MATCH <= |text| && (r.lazy ==> f.waiting < r.maxLazy)
    && Reachable(r.hashBits, text, f.base, f.inserted, r.reach, at) != {}
  }

  /** The find is right for the string at a position. */
  ghost predicate IsRight(r: Rules, text: seq<byte>, at: int, f: Find) {
    if IsSearched(r, text, at, f) then
      && Newest(f.searched, Reachable(r.hashBits, text, f.base, f.inserted, r.reach, at), r.Steps(f.waiting))
      && IsLongest(text, at, f.searched, f.waiting, Min(r.nice, |text| - at), f.best, f.dist)
      && f.length == if r.Drops(f.best, f.dist) then MIN_MATCH - 1 else f.best
    else f.length < MIN_MATCH
  }

  /** It is right for the input known at the time, and the window reached back far enough. */
  ghost predicate Answers(r: Rules, text: seq<byte>, at: int, f: Find) {
    && 0 <= at < f.known <= |text| && MIN_MATCH - 1 <= f.waiting && (f.base == 0 || 0 < f.base <= at - r.reach)
    && IsRight(r, text[..f.known], at, f)
  }

  lemma AnswersLonger(r: Rules, text: seq<byte>, more: seq<byte>, at: int, f: Find)
    requires Answers(r, text, at, f) && text <= more
    ensures Answers(r, more, at, f)
  {
    hide IsRight;
    assert more[..f.known] == text[..f.known];
  }

  /** The length of the match that waits when the string at a position is looked at. */
  ghost function Waiting(r: Rules, finds: map<int, Find>, at: int): int {
    if r.lazy && at - 1 in finds then finds[at - 1].length else MIN_MATCH - 1
  }

  /** A string was not complete when the compressor came to it. */
  ghost predicate IsLate(finds: map<int, Find>, q: int) {
    exists p :: p in finds && p <= q && finds[p].known < q + MIN_MATCH
  }

  /** The strings before a position that are in the hash chains: all that were complete in time for the lazy rule,
      those looked at and those inside matches that are short enough for the greedy one. */
  ghost predicate IsComplete(r: Rules, finds: map<int, Find>, inserted: set<int>, at: int) {
    if r.lazy then forall q :: 0 <= q < at && q !in inserted ==> IsLate(finds, q)
    else forall p :: p in finds && p < at ==> IsEntered(r, finds[p], p, inserted)
  }

  ghost predicate IsEntered(r: Rules, f: Find, at: int, inserted: set<int>) {
    && (at + MIN_MATCH <= f.known ==> at in inserted)
    && (MIN_MATCH <= f.length <= r.maxLazy && at + f.length + MIN_MATCH <= f.known ==>
          forall q :: at <= q < at + f.length ==> q in inserted)
  }

  ghost predicate IsRecorded(r: Rules, finds: map<int, Find>, text: seq<byte>, at: int) {
    && at in finds && Answers(r, text, at, finds[at]) && finds[at].waiting == Waiting(r, finds, at)
    && IsComplete(r, finds, finds[at].inserted, at)
  }

  /** All finds so far are right. */
  ghost predicate Recorded(r: Rules, finds: map<int, Find>, text: seq<byte>, end: int, inserted: set<int>) {
    && (forall p :: p in finds ==> p < end && IsRecorded(r, finds, text, p))
    && IsComplete(r, finds, inserted, end)
  }

  /** The greedy rule: a match if there is one. The lazy rule: unless that of the next string is longer. The strings
      inside a match are not looked at. */
  ghost predicate Follows(r: Rules, finds: map<int, Find>, at: int, t: Token) {
    && at in finds
    && match t
       case Literal(_) =>
         finds[at].length < MIN_MATCH || (r.lazy && at + 1 in finds && finds[at + 1].length > finds[at].length)
       case Match(dist, length) =>
         && MIN_MATCH <= length == finds[at].length && dist == finds[at].dist
         && (r.lazy ==> at + 1 in finds && finds[at + 1].length <= length)
         && forall q :: at + (if r.lazy then 2 else 1) <= q < at + length ==> q !in finds
  }

  function Span(t: Token): nat { if t.Literal? then 1 else t.length }

  function Spans(tokens: seq<Token>): nat {
    if tokens == [] then 0 else Spans(tokens[..|tokens| - 1]) + Span(tokens[|tokens| - 1])
  }

  /** All symbols follow the rule. */
  ghost predicate Lawful(r: Rules, finds: map<int, Find>, tokens: seq<Token>) {
    tokens != [] ==>
      && Lawful(r, finds, tokens[..|tokens| - 1])
      && Follows(r, finds, Spans(tokens[..|tokens| - 1]), tokens[|tokens| - 1])
  }

  lemma {:induction false} EachFollows(r: Rules, finds: map<int, Find>, tokens: seq<Token>, i: nat)
    requires Lawful(r, finds, tokens) && i < |tokens|
    ensures Follows(r, finds, Spans(tokens[..i]), tokens[i])
    ensures 0 < i ==> Spans(tokens[..i]) == Spans(tokens[..i - 1]) + Span(tokens[i - 1])
  {
    hide Follows;
    if i < |tokens| - 1 {
      EachFollows(r, finds, tokens[..|tokens| - 1], i);
      assert tokens[..|tokens| - 1][..i] == tokens[..i];
      if 0 < i { assert tokens[..|tokens| - 1][..i - 1] == tokens[..i - 1]; }
    } else if 0 < i {
      assert tokens[..i][..i - 1] == tokens[..i - 1];
    }
  }

  /** A match emitted is longer than the one that waited when it was found. */
  lemma LongerThanWaiting(r: Rules, finds: map<int, Find>, text: seq<byte>, end: int, inserted: set<int>,
                          tokens: seq<Token>, i: nat)
    requires Recorded(r, finds, text, end, inserted) && Lawful(r, finds, tokens) && i < |tokens| && tokens[i].Match?
    ensures var p := Spans(tokens[..i]); p in finds && finds[p].length > finds[p].waiting
  {
    hide Recorded, Lawful, Spans, Answers;
    EachFollows(r, finds, tokens, i);
    var p: int := Spans(tokens[..i]);
    RecordedAt(r, finds, text, end, inserted, p);
    if r.lazy && p - 1 in finds {
      RecordedAt(r, finds, text, end, inserted, p - 1);
      if i == 0 {
        NothingSpans(tokens);
      } else {
        EachFollows(r, finds, tokens, i - 1);
      }
    }
  }

  lemma NothingSpans(tokens: seq<Token>)
    ensures Spans(tokens[..0]) == 0
  {
  }

  lemma RecordedAt(r: Rules, finds: map<int, Find>, text: seq<byte>, end: int, inserted: set<int>, p: int)
    requires Recorded(r, finds, text, end, inserted) && p in finds
    ensures Answers(r, text, p, finds[p]) && 0 <= p < finds[p].known <= |text|
    ensures finds[p].waiting == Waiting(r, finds, p) && 2 <= finds[p].waiting
  {
    assert IsRecorded(r, finds, text, p);
  }

  /** What a match emitted says: the string repeats one of those searched; none of them agrees in more bytes, unless the
      match is as long as is looked for, and no nearer one agrees in as many. */
  lemma MatchMeans(r: Rules, finds: map<int, Find>, text: seq<byte>, end: int, inserted: set<int>,
                   tokens: seq<Token>, i: nat)
    requires Recorded(r, finds, text, end, inserted) && Lawful(r, finds, tokens) && i < |tokens| && tokens[i].Match?
    ensures var p, t := Spans(tokens[..i]), tokens[i];
      && p in finds && var f := finds[p]; 0 <= f.known <= |text| && var known := text[..f.known];
      && IsSearched(r, known, p, f)
      && Newest(f.searched, Reachable(r.hashBits, known, f.base, f.inserted, r.reach, p), r.Steps(f.waiting))
      && p - t.dist in f.searched && Repeats(known, p, t.dist, t.length)
      && (t.length < Min(r.nice, f.known - p) ==> forall q :: q in f.searched ==> NoMore(known, p, q, t.length))
      && forall q :: q in f.searched && p - t.dist < q ==> NoMore(known, p, q, t.length - 1)
  {
    hide Recorded, Lawful, Spans, IsSearched, Newest, Repeats, NoMore;
    EachFollows(r, finds, tokens, i);
    LongerThanWaiting(r, finds, text, end, inserted, tokens, i);
    var p: int, t := Spans(tokens[..i]), tokens[i];
    RecordedAt(r, finds, text, end, inserted, p);
    var f := finds[p];
    var known := text[..f.known];
    assert IsLongest(known, p, f.searched, f.waiting, Min(r.nice, f.known - p), t.length, t.dist);
    forall q | q in f.searched && p - t.dist < q ensures NoMore(known, p, q, t.length - 1) {
      NoMoreThan(known, p, q, Min(t.length, Max(Min(r.nice, f.known - p), f.waiting + 1)) - 1, t.length - 1);
    }
  }

  lemma NoMoreThan(text: seq<byte>, at: int, q: int, n: int, n': int)
    requires NoMore(text, at, q, n) && 0 <= n <= n'
    ensures NoMore(text, at, q, n')
  {
  }

  /** What a literal emitted says: there was no search, or no string searched agrees in three bytes, or the match does
      not pay, or that of the next string is longer. */
  lemma LiteralMeans(r: Rules, finds: map<int, Find>, text: seq<byte>, end: int, inserted: set<int>,
                     tokens: seq<Token>, i: nat)
    requires Recorded(r, finds, text, end, inserted) && Lawful(r, finds, tokens) && i < |tokens| && tokens[i].Literal?
    ensures var p: int := Spans(tokens[..i]);
      && p in finds && var f := finds[p]; 0 <= f.known <= |text| && var known := text[..f.known];
      || !IsSearched(r, known, p, f)
      || (forall q :: q in f.searched ==> !Repeats(known, p, p - q, MIN_MATCH))
      || r.Drops(f.best, f.dist)
      || (r.lazy && p + 1 in finds && finds[p + 1].length > f.length)
  {
    hide Recorded, Lawful, Spans, Newest, Repeats;
    EachFollows(r, finds, tokens, i);
    var p: int := Spans(tokens[..i]);
    RecordedAt(r, finds, text, end, inserted, p);
    var f := finds[p];
    var known := text[..f.known];
    if IsSearched(r, known, p, f) && !r.Drops(f.best, f.dist) && f.length < MIN_MATCH {
      assert f.best == f.waiting == 2;
      forall q | q in f.searched ensures !Repeats(known, p, p - q, MIN_MATCH) { assert NoMore(known, p, q, 2); }
    }
  }

  lemma LawfulNext(r: Rules, finds: map<int, Find>, tokens: seq<Token>, t: Token)
    requires Lawful(r, finds, tokens) && Follows(r, finds, Spans(tokens), t)
    ensures Lawful(r, finds, tokens + [t]) && Spans(tokens + [t]) == Spans(tokens) + Span(t)
  {
    assert (tokens + [t])[..|tokens|] == tokens;
  }

  /** One more find does not change what was decided. */
  lemma {:induction false} LawfulStill(r: Rules, finds: map<int, Find>, tokens: seq<Token>, at: int, f: Find)
    requires Lawful(r, finds, tokens) && at !in finds && Spans(tokens) <= at
    ensures Lawful(r, finds[at := f], tokens)
  {
    if tokens != [] { LawfulStill(r, finds, tokens[..|tokens| - 1], at, f); }
  }

  lemma RecordedLonger(r: Rules, finds: map<int, Find>, text: seq<byte>, more: seq<byte>, end: int,
                       inserted: set<int>, inserted': set<int>)
    requires Recorded(r, finds, text, end, inserted) && text <= more && inserted <= inserted'
    ensures Recorded(r, finds, more, end, inserted')
  {
    hide Answers, IsLate;
    forall p | p in finds ensures Answers(r, more, p, finds[p]) {
      assert IsRecorded(r, finds, text, p);
      AnswersLonger(r, text, more, p, finds[p]);
    }
  }

  /** Strings stay late when there is one find more. */
  lemma LateStill(finds: map<int, Find>, at: int, f: Find, q: int)
    requires IsLate(finds, q) && at !in finds
    ensures IsLate(finds[at := f], q)
  {
    var p :| p in finds && p <= q && finds[p].known < q + MIN_MATCH;
    assert p in finds[at := f];
  }

  lemma CompleteStill(r: Rules, finds: map<int, Find>, inserted: set<int>, end: int, at: int, f: Find)
    requires IsComplete(r, finds, inserted, end) && at !in finds && end <= at
    ensures IsComplete(r, finds[at := f], inserted, end)
  {
    hide IsLate, IsEntered;
    if r.lazy {
      forall q | 0 <= q < end && q !in inserted ensures IsLate(finds[at := f], q) { LateStill(finds, at, f, q); }
    }
  }

  /** The find for the string at the end joins those before. */
  lemma OneMoreFind(r: Rules, finds: map<int, Find>, text: seq<byte>, at: int, inserted: set<int>, f: Find)
    requires Recorded(r, finds, text, at, inserted)
    requires Answers(r, text, at, f) && f.waiting == Waiting(r, finds, at) && inserted <= f.inserted
    ensures at !in finds
    ensures var finds' := finds[at := f];
      && (forall p :: p in finds' ==> p <= at && IsRecorded(r, finds', text, p))
      && IsComplete(r, finds', inserted, at)
  {
    hide Answers, IsComplete;
    var finds' := finds[at := f];
    assert at !in finds;
    CompleteStill(r, finds, inserted, at, at, f);
    CompleteMore(r, finds', inserted, f.inserted, at);
    forall p | p in finds' ensures p <= at && IsRecorded(r, finds', text, p) {
      if p != at {
        assert p < at && IsRecorded(r, finds, text, p);
        CompleteStill(r, finds, finds[p].inserted, p, at, f);
      }
    }
  }

  lemma CompleteMore(r: Rules, finds: map<int, Find>, inserted: set<int>, inserted': set<int>, at: int)
    requires IsComplete(r, finds, inserted, at) && inserted <= inserted'
    ensures IsComplete(r, finds, inserted', at)
  {
    hide IsLate;
  }

  predicate IsWhole(q: int, known: int) { q + MIN_MATCH <= known }

  /** The strings from at to end, as far as they are complete. */
  ghost function Strings(at: int, end: int, known: int): set<int> {
    set q | at <= q < end && IsWhole(q, known)
  }

  /** The compressor moves on behind the string just looked at. */
  lemma Moved(r: Rules, finds: map<int, Find>, text: seq<byte>, at: int, end: int, inserted: set<int>,
              inserted': set<int>)
    requires at in finds && at < end && inserted <= inserted'
    requires forall p :: p in finds ==> p <= at && IsRecorded(r, finds, text, p)
    requires IsComplete(r, finds, inserted, at)
    requires if r.lazy then inserted' == inserted + Strings(at, end, finds[at].known)
             else IsEntered(r, finds[at], at, inserted')
    ensures Recorded(r, finds, text, end, inserted')
  {
    hide Answers, IsRecorded, IsEntered;
    if r.lazy {
      forall q | 0 <= q < end && q !in inserted' ensures IsLate(finds, q) {
        if q >= at { assert q !in Strings(at, end, finds[at].known) && finds[at].known < q + MIN_MATCH; }
      }
    } else {
      forall p | p in finds && p < end ensures IsEntered(r, finds[p], p, inserted') {
        if p != at { EnteredMore(r, finds[p], p, inserted, inserted'); }
      }
    }
  }

  lemma EnteredMore(r: Rules, f: Find, at: int, inserted: set<int>, inserted': set<int>)
    requires IsEntered(r, f, at, inserted) && inserted <= inserted'
    ensures IsEntered(r, f, at, inserted')
  {
  }

  // ---- One round of a compressor

  /** The match of the string before is taken, as that of the current one is not longer. */
  predicate Takes(waiting: int, length: int) { MIN_MATCH <= waiting && length <= waiting }

  /** What the lazy rule emits when a match of waiting bytes (or a string without one) waits, and the current string has
      one of length bytes: the match, or the byte c waiting. */
  function LazySymbols(waiting: nat, dist: nat, available: bool, length: int, c: byte): seq<Token> {
    if Takes(waiting, length) then [Match(dist, waiting)]
    else if available then [Literal(c)]
    else []
  }

  function LazyEnd(waiting: int, length: int, at: int): int {
    if Takes(waiting, length) then at - 1 + waiting else at + 1
  }

  /** The match of waiting bytes is that of the string before, if that one still waits. */
  ghost predicate Waits(r: Rules, finds: map<int, Find>, at: int, available: bool, waiting: int, dist: int) {
    && waiting == Waiting(r, finds, at) && (MIN_MATCH <= waiting ==> available)
    && (available ==> at - 1 in finds && (MIN_MATCH <= waiting ==> finds[at - 1].dist == dist))
  }

  /** All finds are right, the symbols emitted follow from them, and so does what waits. */
  ghost predicate KeepsLazyRule(r: Rules, finds: map<int, Find>, text: seq<byte>, at: int, inserted: set<int>,
                                tokens: seq<Token>, available: bool, waiting: int, dist: int)
  {
    && Recorded(r, finds, text, at, inserted) && Lawful(r, finds, tokens)
    && Spans(tokens) == at - (if available then 1 else 0) && Waits(r, finds, at, available, waiting, dist)
  }

  /** A round of the lazy compressor keeps to the rule. */
  lemma LazyRound(r: Rules, finds: map<int, Find>, text: seq<byte>, at: int, inserted: set<int>, inserted': set<int>,
                  tokens: seq<Token>, waiting: nat, dist: nat, available: bool, f: Find, c: byte, dist': int)
    requires r.lazy && KeepsLazyRule(r, finds, text, at, inserted, tokens, available, waiting, dist)
    requires Answers(r, text, at, f) && f.waiting == waiting && f.known == |text| && inserted <= f.inserted
    requires inserted' == inserted + Strings(at, LazyEnd(waiting, f.length, at), |text|)
    requires !Takes(waiting, f.length) ==> dist' == f.dist
    ensures KeepsLazyRule(r, finds[at := f], text, LazyEnd(waiting, f.length, at), inserted',
      tokens + LazySymbols(waiting, dist, available, f.length, c), !Takes(waiting, f.length),
      if Takes(waiting, f.length) then MIN_MATCH - 1 else f.length, dist')
  {
    hide Answers, IsComplete, IsRecorded, Lawful, Spans;
    var finds', end := finds[at := f], LazyEnd(waiting, f.length, at);
    OneMoreFind(r, finds, text, at, inserted, f);
    Moved(r, finds', text, at, end, inserted, inserted');
    LawfulStill(r, finds, tokens, at, f);
    if Takes(waiting, f.length) {
      LawfulNext(r, finds', tokens, Match(dist, waiting));
    } else if available {
      LawfulNext(r, finds', tokens, Literal(c));
    } else {
      assert tokens + [] == tokens;
    }
  }

  /** So does the last literal, when the input is used up. */
  lemma LastLiteral(r: Rules, finds: map<int, Find>, text: seq<byte>, at: int, inserted: set<int>, tokens: seq<Token>,
                    waiting: int, dist: int, c: byte)
    requires r.lazy && KeepsLazyRule(r, finds, text, at, inserted, tokens, true, waiting, dist) && waiting < MIN_MATCH
    ensures KeepsLazyRule(r, finds, text, at, inserted, tokens + [Literal(c)], false, waiting, dist)
  {
    hide Recorded, Lawful, Spans;
    LawfulNext(r, finds, tokens, Literal(c));
  }

  /** More input, and more strings in the chains. */
  lemma LazyRuleStill(r: Rules, finds: map<int, Find>, text: seq<byte>, more: seq<byte>, at: int, inserted: set<int>,
                      inserted': set<int>, tokens: seq<Token>, available: bool, waiting: int, dist: int)
    requires KeepsLazyRule(r, finds, text, at, inserted, tokens, available, waiting, dist)
    requires text <= more && inserted <= inserted'
    ensures KeepsLazyRule(r, finds, more, at, inserted', tokens, available, waiting, dist)
  {
    hide Recorded, Lawful, Spans, Waits;
    RecordedLonger(r, finds, text, more, at, inserted, inserted');
  }

  /** What the greedy rule emits for a string. */
  function GreedySymbol(f: Find, c: byte): Token
    requires 0 <= f.dist && 0 <= f.length
  {
    if MIN_MATCH <= f.length then Match(f.dist, f.length) else Literal(c)
  }

  ghost predicate KeepsGreedyRule(r: Rules, finds: map<int, Find>, text: seq<byte>, at: int, inserted: set<int>,
                                  tokens: seq<Token>)
  {
    Recorded(r, finds, text, at, inserted) && Lawful(r, finds, tokens) && Spans(tokens) == at
  }

  lemma GreedyRound(r: Rules, finds: map<int, Find>, text: seq<byte>, at: int, inserted: set<int>, inserted': set<int>,
                    tokens: seq<Token>, f: Find, c: byte)
    requires !r.lazy && KeepsGreedyRule(r, finds, text, at, inserted, tokens)
    requires Answers(r, text, at, f) && f.waiting == MIN_MATCH - 1 && f.known == |text| && inserted <= f.inserted
    requires 0 <= f.dist && 0 <= f.length && inserted <= inserted' && IsEntered(r, f, at, inserted')
    ensures var t := GreedySymbol(f, c);
      KeepsGreedyRule(r, finds[at := f], text, at + Span(t), inserted', tokens + [t])
  {
    hide Answers, IsComplete, IsRecorded, Lawful, Spans, IsEntered;
    var finds', t := finds[at := f], GreedySymbol(f, c);
    OneMoreFind(r, finds, text, at, inserted, f);
    Moved(r, finds', text, at, at + Span(t), inserted, inserted');
    LawfulStill(r, finds, tokens, at, f);
    LawfulNext(r, finds', tokens, t);
  }

  lemma GreedyRuleStill(r: Rules, finds: map<int, Find>, text: seq<byte>, more: seq<byte>, at: int, inserted: set<int>,
                        inserted': set<int>, tokens: seq<Token>)
    requires KeepsGreedyRule(r, finds, text, at, inserted, tokens) && text <= more && inserted <= inserted'
    ensures KeepsGreedyRule(r, finds, more, at, inserted', tokens)
  {
    hide Recorded, Lawful, Spans;
    RecordedLonger(r, finds, text, more, at, inserted, inserted');
  }
}
