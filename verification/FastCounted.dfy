/** Grisu3 for a given number of digits. */
module FastCounted {
  import opened Arith
  import opened Decimal
  import opened FastDtoa

  /** q * 10^k is within half a unit of its last digit of x. */
  ghost predicate Rounded(x: real, E: nat, q: int, k: int) {
    2.0 * Off(x, E, q, k) <= Ten(k, E) as real
  }

  /** buffer[length - 1]++ with the carry moving up, and a leading ten becoming one with the power increased. */
  method Increment(buffer: array<char>, length: nat, kappa0: int) returns (kappa: int)
    requires 0 < length <= buffer.Length && AllDigits(buffer[..length]) && buffer[0] != '0'
    modifies buffer
    ensures AllDigits(buffer[..length]) && buffer[0] != '0' && (kappa == kappa0 || kappa == kappa0 + 1)
    ensures DigitsVal(buffer[..length]) * (if kappa == kappa0 then 1 else 10) == old(DigitsVal(buffer[..length])) + 1
  {
    hide DigitsVal;
    ghost var s := buffer[..length];
    Positive(s);
    var moved := IncrementLast(buffer, length);
    kappa := if moved then kappa0 + 1 else kappa0;
    NotSmaller(s, buffer[..length], moved);
  }

  lemma NotSmaller(s: seq<char>, t: seq<char>, moved: bool)
    requires |s| == |t| > 0 && AllDigits(t) && Pow(10, |s| - 1) <= DigitsVal(s)
    requires DigitsVal(t) * (if moved then 10 else 1) == DigitsVal(s) + 1 && (moved ==> t[0] == '1')
    ensures t[0] != '0'
  {
    hide DigitsVal;
    if t[0] == '0' {
      assert t == t[..1] + t[1..];
      DigitsConcat(t[..1], t[1..]);
      DigitsAppend([], t[0]);
      assert t[..1] == [] + [t[0]];
      NoDigits();
      DigitsBound(t[1..]);
      assert false;
    }
  }

  /** Rounds up if that is certainly closer, and gives up if the direction is not certain. */
  method RoundWeedCounted(buffer: array<char>, length: nat, rest: uint64, tenKappa: uint64, unit: uint64, kappa0: int)
    returns (ok: bool, kappa: int)
    requires 0 < length <= buffer.Length && AllDigits(buffer[..length]) && buffer[0] != '0' &&
      rest < tenKappa && 0 < unit
    modifies buffer
    ensures AllDigits(buffer[..length]) && buffer[0] != '0' && (kappa == kappa0 || kappa == kappa0 + 1)
    ensures ok ==>
      var up := DigitsVal(buffer[..length]) * (if kappa == kappa0 then 1 else 10) - old(DigitsVal(buffer[..length]));
      && 2 * unit < tenKappa
      && ((up == 0 && 2 * (rest + unit) <= tenKappa) || (up == 1 && 2 * (rest - unit) >= tenKappa))
    ensures !ok ==> !(2 * unit < tenKappa && (2 * (rest + unit) <= tenKappa || 2 * (rest - unit) >= tenKappa))
  {
    hide DigitsVal;
    ok, kappa := false, kappa0;
    if unit >= tenKappa { return; }
    var room: uint64 := tenKappa - unit;
    if room <= unit { return; }
    var missing: uint64 := tenKappa - rest;
    if missing > rest {
      var twiceRest: uint64, twiceUnit: uint64 := 2 * rest, 2 * unit;
      var left: uint64 := tenKappa - twiceRest;
      if left >= twiceUnit {
        return true, kappa0;
      }
    }
    if rest > unit {
      var sure: uint64 := rest - unit;
      var above: uint64 := tenKappa - sure;
      if above <= sure {
        kappa := Increment(buffer, length, kappa0);
        return true, kappa;
      }
    }
  }

  lemma RoundedArith(x: real, w: int, u: int, t: int, q: int, rest: int, up: int)
    requires 0 < u && Near(x, w) && w * u == q * t + rest && 2 * u < t && 0 <= rest < t
    requires (up == 0 && 2 * (rest + u) <= t) || (up == 1 && 2 * (rest - u) >= t)
    ensures 2.0 * Gap(x, u, (q + up) * t) <= t as real
  {
    NearScaled(x, w, u);
    assert (w + 1) * u == w * u + u && (w - 1) * u == w * u - u;
    if up == 1 { OneLess(q + 1, t); }
    GapBound(x * u as real, w * u, u, (q + up) * t, t, rest, up);
  }

  lemma GapBound(x: real, w: int, u: int, v: int, t: int, rest: int, up: int)
    requires (w - u) as real < x < (w + u) as real && w == v - up * t + rest && 2 * u < t && 0 <= rest < t
    requires (up == 0 && 2 * (rest + u) <= t) || (up == 1 && 2 * (rest - u) >= t)
    ensures var d := v as real - x; 2.0 * (if d < 0.0 then -d else d) <= t as real
  {
  }

  /** q * 10^k is the rounding of every value less than one unit off w. */
  ghost predicate AllRounded(w: int, E: nat, q: int, k: int) {
    forall x :: Near(x, w) ==> Rounded(x, E, q, k)
  }

  /** 10^place is the weight of the last of count digits of w. */
  ghost predicate LastPlace(w: int, E: nat, count: nat, place: int)
    requires 0 < count
  {
    Pow(10, count - 1) * Ten(place, E) <= w * Unit(place) < Pow(10, count) * Ten(place, E)
  }

  /** The digits at 10^kappa are w rounded at its last place, which is one below kappa if a carry went
      through all nines. */
  ghost predicate Counted(w: int, E: nat, digits: seq<char>, kappa: int, place: int) {
    && 0 < |digits| && AllDigits(digits) && digits[0] != '0'
    && (kappa == place || kappa == place + 1) && LastPlace(w, E, |digits|, place)
    && AllRounded(w, E, DigitsVal(digits) * (if kappa == place then 1 else 10), place)
  }

  method RoundCounted(ghost w: int, ghost E: nat, buffer: array<char>, length: nat,
                      rest: uint64, tenKappa: uint64, unit: uint64, kappa0: int)
    returns (ok: bool, kappa: int)
    requires 0 < length <= buffer.Length && AllDigits(buffer[..length]) && buffer[0] != '0'
    requires unit == Unit(kappa0) && tenKappa == Ten(kappa0, E) && rest < tenKappa
    requires w * unit == DigitsVal(buffer[..length]) * tenKappa + rest
    modifies buffer
    ensures ok ==> Counted(w, E, buffer[..length], kappa, kappa0)
  {
    hide Unit, Ten, DigitsVal, Rounded;
    UnitPositive(kappa0);
    ghost var q := DigitsVal(buffer[..length]);
    LastPlaceIs(w, E, buffer[..length], kappa0, rest);
    ok, kappa := RoundWeedCounted(buffer, length, rest, tenKappa, unit, kappa0);
    if ok {
      ghost var q' := DigitsVal(buffer[..length]) * (if kappa == kappa0 then 1 else 10);
      forall x | Near(x, w) ensures Rounded(x, E, q', kappa0) {
        RoundedIs(x, w, E, q, kappa0, rest, q' - q);
      }
    }
  }

  lemma LastPlaceIs(w: int, E: nat, digits: seq<char>, place: int, rest: int)
    requires 0 < |digits| && AllDigits(digits) && digits[0] != '0'
    requires w * Unit(place) == DigitsVal(digits) * Ten(place, E) + rest && 0 <= rest < Ten(place, E)
    ensures LastPlace(w, E, |digits|, place)
  {
    hide Unit, Ten, DigitsVal, Pow;
    Positive(digits);
    DigitsBound(digits);
    var q, t := DigitsVal(digits), Ten(place, E);
    MulMono(Pow(10, |digits| - 1), q, t);
    MulMono(q + 1, Pow(10, |digits|), t);
  }

  lemma RoundedIs(x: real, w: int, E: nat, q: int, k: int, rest: int, up: int)
    requires Near(x, w) && w * Unit(k) == q * Ten(k, E) + rest && 2 * Unit(k) < Ten(k, E) && 0 <= rest < Ten(k, E)
    requires (up == 0 && 2 * (rest + Unit(k)) <= Ten(k, E)) || (up == 1 && 2 * (rest - Unit(k)) >= Ten(k, E))
    ensures Rounded(x, E, q + up, k)
  {
    hide Unit, Ten, Gap;
    UnitPositive(k);
    RoundedArith(x, w, Unit(k), Ten(k, E), q, rest, up);
  }

  /** The digits of w, a value known to less than one unit, as many as requested. */
  method DigitGenCounted(w: uint64, E: nat, requested: nat, buffer: array<char>)
    returns (ok: bool, length: nat, kappa: int, ghost place: int)
    requires 32 <= E <= 60 && 0x4000_0000_0000_0000 <= w && 0 < requested <= buffer.Length
    modifies buffer
    ensures ok ==> length == requested && Counted(w, E, buffer[..length], kappa, place)
    ensures ok && place < 0 ==> 0 < w % Pow(2, E)
  {
    hide Pow, DigitsVal, AllMiss, Counted, Generating;
    OneBounds(E);
    var one: uint64 := Pow(2, E);
    IntegralPart(w, E, w / one);
    var integrals: uint32, fractionals: uint64 := w / one, w % one;
    var divisor: uint32, exponentPlusOne := BiggestPowerTen(integrals, 64 - E);
    kappa, length, place := exponentPlusOne, 0, 0;
    var left := requested;
    PowSucc(10, kappa - 1);
    GenerationStarts(w, 0, E, kappa, integrals, fractionals);
    MulMono(divisor, integrals, one);
    DigitsOfNothing(buffer);
    var rest: uint64 := w;
    while kappa > 0
      invariant 0 <= kappa && length + left == requested && left > 0
      invariant AllDigits(buffer[..length]) && (length > 0 ==> buffer[0] != '0') && (length == 0 ==> kappa > 0)
      invariant kappa > 0 ==> divisor == Pow(10, kappa - 1) && 1 <= divisor && divisor * one <= w
      invariant rest == integrals * one + fractionals && rest <= w && (length == 0 ==> divisor <= integrals)
      invariant Generating(w, 0, E, DigitsVal(buffer[..length]), kappa, rest)
      invariant kappa == 0 ==> rest == fractionals
    {
      ghost var q := DigitsVal(buffer[..length]);
      var digit: int;
      digit, integrals, rest := IntegralDigit(w, 0, E, q, kappa, integrals, divisor, one, fractionals);
      PutDigit(buffer, length, digit);
      length := length + 1;
      left := left - 1;
      kappa := kappa - 1;
      if left == 0 {
        GeneratingIs(w, 0, E, DigitsVal(buffer[..length]), kappa, rest);
        place := kappa;
        ok, kappa := RoundCounted(w, E, buffer, length, rest, divisor * one, 1, kappa);
        return;
      }
      NextDivisor(divisor, one, kappa, integrals, rest, fractionals);
      divisor := divisor / 10;
    }
    ok, length, kappa, place := FractionDigitsCounted(w, E, requested, buffer, length, fractionals, one);
  }

  lemma NextDivisor(divisor: int, one: int, kappa: int, integrals: int, rest: int, fractionals: int)
    requires 0 <= kappa && divisor == Pow(10, kappa) && 0 < one && 0 <= integrals < divisor
    requires rest == integrals * one + fractionals
    ensures kappa > 0 ==> divisor / 10 == Pow(10, kappa - 1) && 1 <= divisor / 10
    ensures (divisor / 10) * one <= divisor * one
    ensures kappa == 0 ==> rest == fractionals
  {
  }

  lemma GeneratingIs(tooHigh: int, unsafe: int, E: nat, q: int, k: int, rest: int)
    requires Generating(tooHigh, unsafe, E, q, k, rest)
    ensures tooHigh * Unit(k) == q * Ten(k, E) + rest && rest < Ten(k, E)
  {
  }

  /** The digits behind the decimal separator, until the error swallows the fraction. */
  method FractionDigitsCounted(w: uint64, E: nat, requested: nat, buffer: array<char>, length0: nat,
                               fractionals0: uint64, one: uint64)
    returns (ok: bool, length: nat, kappa: int, ghost place: int)
    requires 32 <= E <= 60 && one == Pow(2, E) && 0 < length0 < requested <= buffer.Length
    requires AllDigits(buffer[..length0]) && buffer[0] != '0'
    requires Generating(w, 0, E, DigitsVal(buffer[..length0]), 0, fractionals0)
    modifies buffer
    ensures ok ==> length == requested && Counted(w, E, buffer[..length], kappa, place) && 0 < fractionals0
  {
    hide Pow, DigitsVal, AllMiss, Counted, Unit, Ten, Generating;
    OneBounds(E);
    TenAndOne(0, E);
    var fractionals: uint64, error: uint64 := fractionals0, 1;
    length, kappa := length0, 0;
    GeneratingRoom(w, 0, E, DigitsVal(buffer[..length]), 0, fractionals);
    while length < requested && fractionals > error
      invariant kappa <= 0 && 0 < length <= requested && (length > length0 ==> 0 < fractionals0)
      invariant length == length0 ==> fractionals == fractionals0 && error == 1
      invariant AllDigits(buffer[..length]) && buffer[0] != '0'
      invariant error == Unit(kappa) && one == Ten(kappa, E) && fractionals < one
      invariant Generating(w, 0, E, DigitsVal(buffer[..length]), kappa, fractionals)
      decreases requested - length
    {
      ghost var q, before := DigitsVal(buffer[..length]), fractionals;
      PowerStep(kappa, E);
      fractionals := fractionals * 10;
      error := error * 10;
      var digit := fractionals / one;
      fractionals := fractionals % one;
      DivMod(10 * before, one);
      NextDigit(w, 0, E, q, kappa, before, digit, fractionals);
      PutDigit(buffer, length, digit);
      length := length + 1;
      kappa := kappa - 1;
    }
    place := kappa;
    if length < requested {
      ok := false;
    } else {
      GeneratingIs(w, 0, E, DigitsVal(buffer[..length]), kappa, fractionals);
      UnitPositive(kappa);
      ok, kappa := RoundCounted(w, E, buffer, length, fractionals, one, error, kappa);
    }
  }
}
