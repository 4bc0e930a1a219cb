/** Column-wise squaring: the sums of bigit products along each weight add up to the square. */
module Comba {
  import opened Arith
  import opened BigitSeq

  /** Bigit i of the n-bigit number a, zero outside of it. */
  ghost function At(a: seq<int>, n: nat, i: int): int
    requires n <= |a|
  {
    if 0 <= i < n then a[i] else 0
  }

  /** The first m products of column k. */
  ghost function Conv(a: seq<int>, n: nat, k: nat, m: nat): int
    requires n <= |a|
  {
    if m == 0 then 0 else Conv(a, n, k, m - 1) + At(a, n, k - (m - 1)) * At(a, n, m - 1)
  }

  /** The first m products of the columns below cols, each at its weight. */
  ghost function ColumnSum(a: seq<int>, n: nat, m: nat, cols: nat): int
    requires n <= |a|
  {
    if cols == 0 then 0 else ColumnSum(a, n, m, cols - 1) + Scale(Conv(a, n, cols - 1, m), cols - 1)
  }

  /** The number a moved up by m bigits, cut off above cols. */
  ghost function Moved(a: seq<int>, n: nat, m: nat, cols: nat): int
    requires n <= |a|
  {
    if cols == 0 then 0 else Moved(a, n, m, cols - 1) + Scale(At(a, n, cols - 1 - m), cols - 1)
  }

  lemma {:induction false} MovedVal(a: seq<int>, n: nat, m: nat, cols: nat)
    requires n <= |a|
    ensures Moved(a, n, m, cols) == Scale(Val(a, Min(n, Max(0, cols - m))), m)
  {
    hide Scale, Val, P;
    ScaleFacts(0, m);
    ValStart(a);
    if cols > 0 {
      MovedVal(a, n, m, cols - 1);
      var i := cols - 1 - m;
      ScaleFacts(0, cols - 1);
      if 0 <= i < n {
        ValNext(a, i);
        ScaleSum(Val(a, i), Scale(a[i], i), m);
        ScaleAdd(a[i], i, m);
      }
    }
  }

  lemma EmptySum(a: seq<int>, n: nat, m: nat)
    requires n <= |a|
    ensures ColumnSum(a, n, m, 0) == 0
  {
  }

  lemma {:induction false} ColumnSumStep(a: seq<int>, n: nat, m: nat, cols: nat)
    requires n <= |a|
    ensures ColumnSum(a, n, m + 1, cols) == ColumnSum(a, n, m, cols) + Times(At(a, n, m), Moved(a, n, m, cols))
  {
    hide Scale, Times, P;
    var x := At(a, n, m);
    TimesFacts(x, 0, 0);
    if cols > 0 {
      ColumnSumStep(a, n, m, cols - 1);
      var k := cols - 1;
      TimesIs(x, At(a, n, k - m));
      ScaleSum(Conv(a, n, k, m), Times(x, At(a, n, k - m)), k);
      ScaleMul(x, At(a, n, k - m), k);
      TimesFacts(x, Moved(a, n, m, k), Scale(At(a, n, k - m), k));
    }
  }

  /** All columns together are the product of the numbers. */
  lemma {:induction false} ColumnSumIsProduct(a: seq<int>, n: nat, m: nat, cols: nat)
    requires m <= n <= |a| && 2 * n <= cols
    ensures ColumnSum(a, n, m, cols) == Val(a, m) * Val(a, n)
  {
    if m == 0 {
      NoColumns(a, n, cols);
    } else {
      ColumnSumIsProduct(a, n, m - 1, cols);
      ColumnSumStep(a, n, m - 1, cols);
      MovedVal(a, n, m - 1, cols);
      ProductStep(Val(a, m - 1), a[m - 1], P(m - 1), Val(a, n));
    }
  }

  lemma ProductStep(u: int, x: int, p: int, v: int)
    ensures (u + x * p) * v == u * v + x * (v * p)
  {
  }

  lemma {:induction false} NoColumns(a: seq<int>, n: nat, cols: nat)
    requires n <= |a|
    ensures ColumnSum(a, n, 0, cols) == 0
  {
    if cols > 0 {
      NoColumns(a, n, cols - 1);
      ScaleFacts(0, cols - 1);
    }
  }

  /** Products left out at the end of a low column: the first bigit does not exist. */
  lemma {:induction false} ConvBelow(a: seq<int>, n: nat, k: nat, m: nat)
    requires n <= |a| && k < m
    ensures Conv(a, n, k, m) == Conv(a, n, k, k + 1)
  {
    if k + 1 < m { ConvBelow(a, n, k, m - 1); }
  }

  /** Products left out at the start of a high column. */
  lemma {:induction false} ConvAbove(a: seq<int>, n: nat, k: nat, m: nat)
    requires n <= |a| && m + n <= k + 1
    ensures Conv(a, n, k, m) == 0
  {
    if m > 0 { ConvAbove(a, n, k, m - 1); }
  }

  lemma {:induction false} ConvBound(a: seq<int>, n: nat, k: nat, m: nat)
    requires n <= |a| && Bigits(a, n)
    ensures 0 <= Conv(a, n, k, m) <= m * 0xff_ffff_e000_0001
  {
    if m > 0 {
      ConvBound(a, n, k, m - 1);
      var x, y := At(a, n, k - (m - 1)), At(a, n, m - 1);
      MulMono(x, 0xfff_ffff, y);
      MulMono(y, 0xfff_ffff, 0xfff_ffff);
      MulMono(0, x, y);
    }
  }
}
