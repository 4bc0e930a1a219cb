/** The hash of three bytes, kept as a rolling value, and the invariant of the hash chains of the compressor. */
module HashChain {
  import opened Arith

  /** hash_bits is 8..16, and hash_shift is a third of it, rounded up. */
  type hashbits = k: int | 8 <= k <= 16 witness 15

  function Shifted(k: hashbits, h: bv32): bv32 {
    if k <= 9 then h << 3 else if k <= 12 then h << 4 else if k <= 15 then h << 5 else h << 6
  }

  /** hash_mask. */
  function Mask(k: hashbits): bv32 {
    if k == 8 then 0xff else if k == 9 then 0x1ff else if k == 10 then 0x3ff else if k == 11 then 0x7ff
    else if k == 12 then 0xfff else if k == 13 then 0x1fff else if k == 14 then 0x3fff
    else if k == 15 then 0x7fff else 0xffff
  }

  /** hash_size. */
  function Size(k: hashbits): (n: nat)
    ensures 256 <= n <= 0x1_0000
  {
    if k == 8 then 0x100 else if k == 9 then 0x200 else if k == 10 then 0x400 else if k == 11 then 0x800
    else if k == 12 then 0x1000 else if k == 13 then 0x2000 else if k == 14 then 0x4000
    else if k == 15 then 0x8000 else 0x1_0000
  }

  /** UPDATE_HASH. */
  function Update(k: hashbits, h: bv32, c: byte): bv32 {
    (Shifted(k, h) ^ (c as bv32)) & Mask(k)
  }

  /** The running value before the third byte of a string is added. */
  function Two(k: hashbits, a: byte, b: byte): bv32 { Update(k, a as bv32, b) }

  function Three(k: hashbits, a: byte, b: byte, c: byte): bv32 { Update(k, Two(k, a, b), c) }

  /** A hash is an index of the table. */
  lemma HashInTable(k: hashbits, h: bv32, c: byte)
    ensures 0 <= Update(k, h, c) as int < Size(k)
  {
    if k == 8 {} else if k == 9 {} else if k == 10 {} else if k == 11 {} else if k == 12 {}
    else if k == 13 {} else if k == 14 {} else if k == 15 {} else {}
  }

  /** After three updates nothing is left of the oldest byte: the hash rolls. */
  lemma HashRolls(k: hashbits, a: byte, b: byte, c: byte, d: byte)
    ensures Update(k, Three(k, a, b, c), d) == Three(k, b, c, d)
  {
    if k <= 9 { RollsBy3(k, a as bv32, b, c, d); }
    else if k <= 12 { RollsBy4(k, a as bv32, b, c, d); }
    else if k <= 15 { RollsBy5(k, a as bv32, b, c, d); }
    else { RollsBy6(k, a as bv32, b, c, d); }
  }

  lemma RollsBy3(k: hashbits, a: bv32, b: byte, c: byte, d: byte)
    requires k <= 9 && a <= 0xff
    ensures Update(k, Update(k, Update(k, a, b), c), d) == Update(k, Update(k, b as bv32, c), d)
  {
  }

  lemma RollsBy4(k: hashbits, a: bv32, b: byte, c: byte, d: byte)
    requires 10 <= k <= 12 && a <= 0xff
    ensures Update(k, Update(k, Update(k, a, b), c), d) == Update(k, Update(k, b as bv32, c), d)
  {
  }

  lemma RollsBy5(k: hashbits, a: bv32, b: byte, c: byte, d: byte)
    requires 13 <= k <= 15 && a <= 0xff
    ensures Update(k, Update(k, Update(k, a, b), c), d) == Update(k, Update(k, b as bv32, c), d)
  {
  }

  lemma RollsBy6(k: hashbits, a: bv32, b: byte, c: byte, d: byte)
    requires k == 16 && a <= 0xff
    ensures Update(k, Update(k, Update(k, a, b), c), d) == Update(k, Update(k, b as bv32, c), d)
  {
  }

  /** Why the third byte of a match need not be compared. */
  lemma ThirdByte(k: hashbits, a: byte, b: byte, c: byte, c': byte)
    requires Three(k, a, b, c) == Three(k, a, b, c')
    ensures c == c'
  {
  }

  // ---- The rolling value

  /** The value is ready for the string b, c, _ whatever its third byte is. */
  ghost predicate Rolling(k: hashbits, h: bv32, b: byte, c: byte) {
    forall d :: Update(k, h, d) == Three(k, b, c, d)
  }

  lemma StartRolling(k: hashbits, b: byte, c: byte)
    ensures Rolling(k, Update(k, b as bv32, c), b, c)
  {
  }

  lemma KeepRolling(k: hashbits, a: byte, b: byte, c: byte)
    ensures Rolling(k, Three(k, a, b, c), b, c)
  {
    forall d ensures Update(k, Three(k, a, b, c), d) == Three(k, b, c, d) { HashRolls(k, a, b, c, d); }
  }

  // ---- The chains

  /** The hash of the string at a position of the input, -1 if it runs over the end. */
  function HashAt(k: hashbits, text: seq<byte>, at: int): int {
    if 0 <= at && at + 3 <= |text| then Three(k, text[at], text[at + 1], text[at + 2]) as int else -1
  }

  /** No inserted position between from and p has the hash h. */
  ghost predicate NoneBetween(k: hashbits, text: seq<byte>, inserted: set<int>, from: int, p: int, h: int) {
    forall r :: r in inserted && from < r < p ==> HashAt(k, text, r) != h
  }

  /** The entry found through position p leads to the newest older position with the same hash, or nowhere if the
      window holds none behind its first byte. */
  ghost predicate Linked(k: hashbits, text: seq<byte>, base: int, q: int, inserted: set<int>, p: int) {
    && (q != 0 ==> base + q in inserted && base + q < p && HashAt(k, text, base + q) == HashAt(k, text, p))
    && NoneBetween(k, text, inserted, base + q, p, HashAt(k, text, p))
  }

  /** str & w_mask: w_size is a power of two. */
  function Slot(p: int, wSize: int): (i: nat)
    requires 0 < wSize
    ensures i < wSize
  {
    p % wSize
  }

  /** The invariant of the hash chains. Positions are counted from the start of the input; base is the position
      of window[0]. Every head is the newest inserted position with the hash of its slot, or nil if the window holds
      none behind its first byte; and the link of an inserted position is good as long as it is in the window and
      fewer than wSize positions old. */
  ghost predicate Chains(k: hashbits, wSize: int, text: seq<byte>, base: int,
                         head: seq<uint16>, prev: seq<uint16>, inserted: set<int>, last: int) {
    && |head| == Size(k) && |prev| == wSize && 0 < wSize && 0 <= base && base % wSize == 0
    && last + 3 <= |text|
    && (forall p :: p in inserted ==> 0 <= p <= last)
    && (forall h :: 0 <= h < |head| && head[h] != 0 ==>
       base + head[h] in inserted && HashAt(k, text, base + head[h]) == h)
    && (forall h :: 0 <= h < |head| ==> NoneBetween(k, text, inserted, base + head[h], last + 1, h))
    && (forall p {:trigger Slot(p, wSize)} :: p in inserted && base <= p && last < p + wSize ==>
          Linked(k, text, base, prev[Slot(p, wSize)], inserted, p))
  }

  lemma ModApart(x: int, y: int, m: int)
    requires 0 < m && x < y < x + m
    ensures x % m != y % m
  {
    DivMod(x, m);
    DivMod(y, m);
    var d := y / m - x / m;
    if x % m == y % m {
      assert y - x == (y / m) * m - (x / m) * m == d * m;
      if d <= 0 { MulMono(d, 0, m); } else { MulMono(1, d, m); }
      assert false;
    }
  }

  lemma {:induction false} ModSum(base: int, x: int, m: int)
    requires 0 < m && base % m == 0
    ensures (base + x) % m == x % m
  {
    DivMod(base, m);
    DivMod(x, m);
    var q := base / m + x / m;
    assert q * m == (base / m) * m + (x / m) * m;
    DivModUnique(base + x, m, q, x % m);
  }

  /** INSERT_STRING keeps the invariant. */
  lemma InsertKeepsChains(k: hashbits, wSize: int, text: seq<byte>, base: int,
                          head: seq<uint16>, prev: seq<uint16>, inserted: set<int>, last: int, at: int, h: int)
    requires Chains(k, wSize, text, base, head, prev, inserted, last)
    requires last < at && base <= at < base + 0x1_0000 && at + 3 <= |text|
    requires h == HashAt(k, text, at) && 0 <= h < |head|
    ensures Chains(k, wSize, text, base, head[h := at - base], prev[Slot(at, wSize) := head[h]], inserted + {at}, at)
    ensures Linked(k, text, base, head[h], inserted, at)
  {
    hide HashAt, Slot, Linked, NoneBetween;
    var head', prev', inserted' := head[h := at - base], prev[Slot(at, wSize) := head[h]], inserted + {at};
    LinkedHead(k, text, base, head[h], inserted, last, at);
    forall i | 0 <= i < |head'| && head'[i] != 0
      ensures base + head'[i] in inserted' && HashAt(k, text, base + head'[i]) == i
    {
      if i != h { assert base + head[i] in inserted; }
    }
    forall i | 0 <= i < |head'| ensures NoneBetween(k, text, inserted', base + head'[i], at + 1, i) {
      NewestStays(k, text, inserted, base + head[i], last, at, i);
      NewestIsLast(k, text, inserted', at, i);
    }
    assert Linked(k, text, base, head[h], inserted', at);
    forall p | p in inserted && base <= p && at < p + wSize
      ensures Linked(k, text, base, prev'[Slot(p, wSize)], inserted', p)
    {
      LinkKept(k, wSize, text, base, prev, inserted, at, head[h], p);
    }
  }

  /** The newest position of a hash stays so while positions of other hashes are inserted. */
  lemma NewestStays(k: hashbits, text: seq<byte>, inserted: set<int>, from: int, last: int, at: int, h: int)
    requires (forall p :: p in inserted ==> p <= last) && last < at
    requires NoneBetween(k, text, inserted, from, last + 1, h)
    ensures HashAt(k, text, at) != h ==> NoneBetween(k, text, inserted + {at}, from, at + 1, h)
  {
    hide HashAt;
  }

  lemma NewestIsLast(k: hashbits, text: seq<byte>, inserted: set<int>, at: int, h: int)
    ensures NoneBetween(k, text, inserted, at, at + 1, h)
  {
    hide HashAt;
  }

  /** The head of its chain is what a new string is linked to. */
  lemma LinkedHead(k: hashbits, text: seq<byte>, base: int, q: uint16, inserted: set<int>, last: int, at: int)
    requires (forall p :: p in inserted ==> p <= last) && last < at
    requires NoneBetween(k, text, inserted, base + q, last + 1, HashAt(k, text, at))
    requires q != 0 ==> base + q in inserted && base + q < at && HashAt(k, text, base + q) == HashAt(k, text, at)
    ensures Linked(k, text, base, q, inserted, at) && Linked(k, text, base, q, inserted + {at}, at)
  {
    hide HashAt;
  }

  /** The entry overwritten by a new string is not that of any string still within reach. */
  lemma LinkKept(k: hashbits, wSize: int, text: seq<byte>, base: int,
                 prev: seq<uint16>, inserted: set<int>, at: int, q: uint16, p: int)
    requires 0 < wSize == |prev| && 0 <= p < at < p + wSize
    requires Linked(k, text, base, prev[Slot(p, wSize)], inserted, p)
    ensures Linked(k, text, base, prev[Slot(at, wSize) := q][Slot(p, wSize)], inserted + {at}, p)
  {
    hide HashAt;
    ModApart(p, at, wSize);
  }

  /** What slide_hash leaves of a table entry. */
  function Slid(m: uint16, wSize: int): uint16
    requires 0 <= wSize
  {
    if m >= wSize then m - wSize else 0
  }

  /** slide_hash keeps the invariant when window[0] moves up by wSize: what it forgets was out of reach. */
  lemma SlideKeepsChains(k: hashbits, wSize: int, text: seq<byte>, base: int, head: seq<uint16>, prev: seq<uint16>,
                         head': seq<uint16>, prev': seq<uint16>, inserted: set<int>, last: int)
    requires Chains(k, wSize, text, base, head, prev, inserted, last)
    requires |head'| == |head| && forall h :: 0 <= h < |head| ==> head'[h] == Slid(head[h], wSize)
    requires |prev'| == |prev| && forall i :: 0 <= i < |prev| ==> prev'[i] == Slid(prev[i], wSize)
    ensures Chains(k, wSize, text, base + wSize, head', prev', inserted, last)
  {
    hide HashAt, NoneBetween, Linked;
    ModSum(base, wSize, wSize);
    DivModUnique(wSize, wSize, 1, 0);
    forall h | 0 <= h < |head| && head'[h] != 0
      ensures base + wSize + head'[h] in inserted && HashAt(k, text, base + wSize + head'[h]) == h
    {
      assert base + wSize + head'[h] == base + head[h];
    }
    forall h | 0 <= h < |head| ensures NoneBetween(k, text, inserted, base + wSize + head'[h], last + 1, h) {
      NoneBetweenLess(k, text, inserted, base + head[h], base + wSize + head'[h], last + 1, h);
    }
    forall p | p in inserted && base + wSize <= p && last < p + wSize
      ensures Linked(k, text, base + wSize, prev'[Slot(p, wSize)], inserted, p)
    {
      LinkedSlid(k, wSize, text, base, prev[Slot(p, wSize)], inserted, p);
    }
  }

  lemma LinkedSlid(k: hashbits, wSize: int, text: seq<byte>, base: int, q: uint16, inserted: set<int>, p: int)
    requires Linked(k, text, base, q, inserted, p) && 0 < wSize
    ensures Linked(k, text, base + wSize, Slid(q, wSize), inserted, p)
  {
    hide HashAt;
    assert q >= wSize ==> base + wSize + (q - wSize) == base + q;
  }

  lemma NoneBetweenLess(k: hashbits, text: seq<byte>, inserted: set<int>, from: int, from': int, p: int, h: int)
    requires NoneBetween(k, text, inserted, from, p, h) && from <= from'
    ensures NoneBetween(k, text, inserted, from', p, h)
  {
    hide HashAt;
  }

  /** So does new input. */
  lemma InputKeepsChains(k: hashbits, wSize: int, text: seq<byte>, more: seq<byte>, base: int,
                         head: seq<uint16>, prev: seq<uint16>, inserted: set<int>, last: int)
    requires Chains(k, wSize, text, base, head, prev, inserted, last)
    ensures Chains(k, wSize, text + more, base, head, prev, inserted, last)
  {
  }

  /** One step along a chain from window index i, while it is within reach of the newest string. */
  lemma ChainStep(k: hashbits, wSize: int, text: seq<byte>, base: int,
                  head: seq<uint16>, prev: seq<uint16>, inserted: set<int>, last: int, i: nat)
    requires Chains(k, wSize, text, base, head, prev, inserted, last)
    requires base + i in inserted && last < base + i + wSize
    ensures Linked(k, text, base, prev[Slot(i, wSize)], inserted, base + i)
  {
    ModSum(base, i, wSize);
    assert Slot(base + i, wSize) == Slot(i, wSize);
  }

  /** Equal hashes and two equal bytes make three equal bytes. */
  lemma HashedAlike(k: hashbits, text: seq<byte>, p: int, q: int)
    requires HashAt(k, text, p) == HashAt(k, text, q) != -1
    requires text[p] == text[q] && text[p + 1] == text[q + 1]
    ensures text[p + 2] == text[q + 2]
  {
    assert Three(k, text[p], text[p + 1], text[p + 2]) == Three(k, text[p], text[p + 1], text[q + 2]) by {
      hide Three;
      SameInt(Three(k, text[p], text[p + 1], text[p + 2]), Three(k, text[q], text[q + 1], text[q + 2]));
    }
    ThirdByte(k, text[p], text[p + 1], text[p + 2], text[q + 2]);
  }

  lemma SameInt(x: bv32, y: bv32)
    requires x as int == y as int
    ensures x == y
  {
    assert (x as int) as bv32 == x;
    assert (y as int) as bv32 == y;
  }
}
