/** Bounded random selection: multiples in a range, 64-bit numbers by halving, and one set bit of a
    mask (ltp_framework/lib/random_range.c), with lio_random_methods of ltp_framework/lib/tlibio.c. */
module RandomRange {
  import opened Basics
  import opened Arithmetic

  const INT_MAX := 0x7FFF_FFFF
  const TWO_63 := 0x8000_0000_0000_0000

  /** Fail is the -1 return with *errp set. */
  datatype Result = Fail | Value(value: int)

  /** C's % truncates towards zero. */
  function CMod(a: int, b: int): int
    requires b > 0
  {
    if a >= 0 then a % b else -((-a) % b)
  }

  // Rounding a range to multiples

  datatype Range = Range(low: int, high: int)

  /** Swap the bounds into order, then move each to a multiple the way the code does. */
  function Rounded(min: int, max: int, mult: int): Range
    requires mult > 0
  {
    var low, high := if max < min then max else min, if max < min then min else max;
    Range(if CMod(low, mult) != 0 then low + (mult - CMod(low, mult)) else low, high - CMod(high, mult))
  }

  function Count(r: Range, mult: int): int
    requires mult > 0 && r.low <= r.high
  {
    (r.high - r.low) / mult + 1
  }

  /** The multiple that a random number selects. */
  function Nth(r: Range, mult: int, num: int): int
    requires mult > 0 && r.low <= r.high
  {
    ProductBound(r.high - r.low, mult);
    r.low + CMod(num, Count(r, mult)) * mult
  }

  /** random_range: draw is what lrand48 returns. */
  function Pick(min: int, max: int, mult: int, draw: int): Result
    requires 0 <= draw < TWO_31
  {
    if mult < 1 then Fail
    else
      var r := Rounded(min, max, mult);
      if r.low > r.high then Fail else Value(Nth(r, mult, draw))
  }

  lemma ProductBound(d: int, mult: int)
    requires d >= 0 && mult > 0
    ensures d / mult >= 0
  {
  }

  /** v is a multiple of mult between the bounds, in whatever order they come. */
  predicate InRange(v: int, min: int, max: int, mult: int)
    requires mult > 0
  {
    v % mult == 0 && (min <= v <= max || max <= v <= min)
  }

  /** C's remainder against the mathematical one. */
  lemma CModSplit(a: int, m: int)
    requires m > 0
    ensures (a - CMod(a, m)) % m == 0 && -m < CMod(a, m) < m
    ensures a >= 0 ==> CMod(a, m) >= 0
    ensures a <= 0 ==> CMod(a, m) <= 0
    ensures CMod(a, m) == 0 <==> a % m == 0
  {
    if a >= 0 {
      DivMod(a, m);
      MultipleOf(a / m, m);
    } else {
      var q, r := (-a) / m, (-a) % m;
      DivMod(-a, m);
      Distribute(q, -q, m);
      MultipleOf(-q, m);
      assert a - CMod(a, m) == (-q) * m;
      NegatedMultiple(a, m);
    }
  }

  lemma NegatedMultiple(a: int, m: int)
    requires m > 0
    ensures a % m == 0 <==> (-a) % m == 0
  {
    DivMod(a, m);
    DivMod(-a, m);
    MultipleOf(-(a / m), m);
    MultipleOf(-((-a) / m), m);
    Distribute(a / m, -(a / m), m);
    Distribute((-a) / m, -((-a) / m), m);
  }

  // When the documented promise holds

  function Low(min: int, max: int): int { if max < min then max else min }
  function High(min: int, max: int): int { if max < min then min else max }

  /** The int arithmetic of random_range does not overflow, mult - r included. */
  predicate NoOverflow(min: int, max: int, mult: int) {
    && IsInt32(min) && IsInt32(max) && IsInt32(mult)
    && (mult > 0 ==>
      var r := Rounded(min, max, mult);
      && (CMod(Low(min, max), mult) != 0 ==> IsInt32(mult - CMod(Low(min, max), mult)))
      && IsInt32(r.low) && IsInt32(r.high) && r.high - r.low < INT_MAX)
  }

  /** What the documentation promises: a multiple inside the bounds, or an error exactly when there is
      none. */
  ghost predicate Promised(r: Result, min: int, max: int, mult: int)
    requires mult > 0
  {
    match r
    case Fail => forall v :: !InRange(v, min, max, mult)
    case Value(v) => InRange(v, min, max, mult)
  }

  ghost predicate KeepsPromise(min: int, max: int, mult: int, draw: int)
    requires mult > 0 && 0 <= draw < TWO_31
  {
    Promised(Pick(min, max, mult, draw), min, max, mult)
  }

  /** Both roundings move towards zero and past it: that is harmless for the lower bound while some
      multiple is left, and for the upper bound when it is not negative or already a multiple. */
  predicate Safe(min: int, max: int, mult: int)
    requires mult > 0
  {
    var r, low, high := Rounded(min, max, mult), Low(min, max), High(min, max);
    if r.low <= r.high then high >= 0 || high % mult == 0
    else low >= 0 || low - CMod(low, mult) > high
  }

  lemma RoundedFacts(min: int, max: int, mult: int)
    requires mult > 0
    ensures var r, low, high := Rounded(min, max, mult), Low(min, max), High(min, max);
            && r.low % mult == 0 && r.high % mult == 0 && r.low >= low
            && (low % mult == 0 ==> r.low == low)
            && (low >= 0 ==> r.low < low + mult)
            && (low < 0 && low % mult != 0 ==> low + mult < r.low < low + 2 * mult)
            && (high >= 0 ==> high - mult < r.high <= high)
            && (high < 0 ==> high <= r.high < high + mult)
            && (r.high > high <==> high < 0 && high % mult != 0)
  {
    var low, high := Low(min, max), High(min, max);
    CModSplit(low, mult);
    CModSplit(high, mult);
    hide CMod;
    ModAddMultiple(low - CMod(low, mult), 1, mult);
  }

  lemma PickedValue(low: int, high: int, mult: int, draw: int)
    requires mult > 0 && low % mult == 0 && high % mult == 0 && low <= high && 0 <= draw
    ensures var v := Nth(Range(low, high), mult, draw); low <= v <= high && v % mult == 0
  {
    MultiplesApart(low, high, mult);
    var n := Count(Range(low, high), mult);
    DivMod(high - low, mult);
    var k := draw % n;
    Scale(0, k, mult);
    Scale(k, n - 1, mult);
    ModAddMultiple(low, k, mult);
  }

  /** The last multiple is drawn by the largest index. */
  lemma PickedLast(low: int, high: int, mult: int)
    requires mult > 0 && low % mult == 0 && high % mult == 0 && low <= high
    ensures var n := Count(Range(low, high), mult); n - 1 >= 0 && Nth(Range(low, high), mult, n - 1) == high
  {
    MultiplesApart(low, high, mult);
    DivMod(high - low, mult);
    var n := Count(Range(low, high), mult);
    Remainder(n - 1, n, 0, n - 1);
  }

  lemma FailIsRight(min: int, max: int, mult: int)
    requires mult > 0 && Rounded(min, max, mult).low > Rounded(min, max, mult).high
    ensures (forall v :: !InRange(v, min, max, mult))
            <==> Low(min, max) >= 0 || Low(min, max) - CMod(Low(min, max), mult) > High(min, max)
  {
    RoundedFacts(min, max, mult);
    var r, low, high := Rounded(min, max, mult), Low(min, max), High(min, max);
    CModSplit(low, mult);
    var first := low - CMod(low, mult);
    if low >= 0 || first > high {
      forall v ensures !InRange(v, min, max, mult) {
        if InRange(v, min, max, mult) {
          MultiplesApart(v, r.low, mult);
          MultiplesApart(r.high, v, mult);
          MultiplesApart(v, first, mult);
        }
      }
    } else {
      assert InRange(first, min, max, mult);
    }
  }

  /** random_range keeps its documented promise for every draw exactly on the safe calls: always for
      non-negative bounds or mult 1, and for negative bounds only when the rounding does no harm. */
  lemma PromiseIff(min: int, max: int, mult: int)
    requires mult > 0 && NoOverflow(min, max, mult)
    ensures (forall draw :: 0 <= draw < TWO_31 ==> KeepsPromise(min, max, mult, draw)) <==> Safe(min, max, mult)
  {
    RoundedFacts(min, max, mult);
    var r, high := Rounded(min, max, mult), High(min, max);
    if r.low > r.high {
      FailIsRight(min, max, mult);
      assert KeepsPromise(min, max, mult, 0) <==> forall v :: !InRange(v, min, max, mult);
    } else {
      forall draw | 0 <= draw < TWO_31 && Safe(min, max, mult) ensures KeepsPromise(min, max, mult, draw) {
        PickedValue(r.low, r.high, mult, draw);
      }
      PickedLast(r.low, r.high, mult);
      SmallCount(r, mult);
      assert Pick(min, max, mult, Count(r, mult) - 1) == Value(r.high);
      assert r.high > high ==> !KeepsPromise(min, max, mult, Count(r, mult) - 1);
    }
  }

  /** For instance: between -3 and -1 there is a multiple of 2, but every draw gives 0. */
  lemma NegativeBoundsFail(draw: int)
    requires 0 <= draw < TWO_31
    ensures NoOverflow(-3, -1, 2) && !Safe(-3, -1, 2)
    ensures Pick(-3, -1, 2, draw) == Value(0) && !InRange(0, -3, -1, 2) && InRange(-2, -3, -1, 2)
  {
    assert Rounded(-3, -1, 2) == Range(0, 0);
    assert Count(Range(0, 0), 2) == 1;
  }

  /** The k-th multiple from the lower one is picked by exactly the draws that leave k. */
  lemma NthIs(low: int, high: int, mult: int, num: int, k: int)
    requires mult > 0 && low <= high && num >= 0
    ensures var n := (high - low) / mult + 1;
            n > 0 && (0 <= k < n ==> (Nth(Range(low, high), mult, num) == low + k * mult <==> num % n == k))
  {
    ProductBound(high - low, mult);
    var n := (high - low) / mult + 1;
    DivMod(num, n);
    Scale(k, num % n, mult);
    Scale(num % n, k, mult);
  }

  /** On non-negative bounds random_range returns v for exactly the draws whose remainder by the number of
      multiples is the number of multiples below v. */
  lemma WhichDraws(min: int, max: int, mult: int, v: int, draw: int)
    requires mult > 0 && min >= 0 && max >= 0 && 0 <= draw < TWO_31 && InRange(v, min, max, mult)
    ensures var low, high := Rounded(min, max, mult).low, Rounded(min, max, mult).high;
            var n := (high - low) / mult + 1;
            && low <= v <= high && n > 0
            && (Pick(min, max, mult, draw) == Value(v) <==> draw % n == (v - low) / mult)
  {
    RoundedFacts(min, max, mult);
    var r := Rounded(min, max, mult);
    hide Rounded, Nth;
    MultiplesApart(v, r.low, mult);
    MultiplesApart(r.high, v, mult);
    var k := IndexOf(r, mult, v);
    NthIs(r.low, r.high, mult, draw, k);
    ExactIndex(v - r.low, k, mult);
  }

  lemma ExactIndex(d: int, k: int, m: int)
    requires m > 0 && d == k * m
    ensures d / m == k
  {
    Remainder(d, m, k, 0);
  }

  lemma SmallCount(r: Range, mult: int)
    requires mult > 0 && 0 <= r.high - r.low < INT_MAX
    ensures 0 < Count(r, mult) <= TWO_31
  {
    DivMod(r.high - r.low, mult);
    if (r.high - r.low) / mult > r.high - r.low {
      Scale(r.high - r.low, (r.high - r.low) / mult, mult);
      Scale(1, mult, r.high - r.low + 1);
    }
  }

  lemma SafeCases(min: int, max: int, mult: int)
    requires mult > 0
    ensures (min >= 0 && max >= 0) || mult == 1 ==> Safe(min, max, mult)
  {
    RoundedFacts(min, max, mult);
    CModSplit(Low(min, max), mult);
  }

  lemma IndexOf(r: Range, mult: int, v: int) returns (k: int)
    requires mult > 0 && r.low % mult == 0 && r.high % mult == 0 && v % mult == 0 && r.low <= v <= r.high
    ensures 0 <= k < Count(r, mult) && r.low + k * mult == v
  {
    MultiplesApart(r.low, v, mult);
    MultiplesApart(r.low, r.high, mult);
    k := (v - r.low) / mult;
    Scale(k, 0, mult);
    Scale((r.high - r.low) / mult, k, mult);
  }

  /** On non-negative bounds every multiple in the range is some draw's result. */
  lemma EveryMultipleDrawn(min: int, max: int, mult: int, v: int) returns (draw: int)
    requires mult > 0 && min >= 0 && max >= 0 && NoOverflow(min, max, mult) && InRange(v, min, max, mult)
    ensures 0 <= draw < TWO_31 && Pick(min, max, mult, draw) == Value(v)
  {
    RoundedFacts(min, max, mult);
    var r := Rounded(min, max, mult);
    hide Rounded;
    MultiplesApart(v, r.low, mult);
    MultiplesApart(r.high, v, mult);
    draw := IndexOf(r, mult, v);
    SmallCount(r, mult);
    Remainder(draw, Count(r, mult), 0, draw);
    hide Count;
  }

  /** low and high are min and max moved to multiples. A positive bound moves inwards to the nearest one.
      A negative one is cut towards zero: that moves the upper bound outwards, and the lower bound is
      then moved up by a further mult. */
  predicate MovedBounds(low: int, high: int, min: int, max: int, mult: int)
    requires mult > 0
  {
    && low % mult == 0 && high % mult == 0
    && (if min % mult == 0 then low == min else if min >= 0 then min < low < min + mult else min + mult < low < min + 2 * mult)
    && (if max >= 0 then max - mult < high <= max else max <= high < max + mult)
  }

  /** The part random_range and random_rangell share: the bounds in order, each moved to a multiple. */
  method RoundRange(min: int, max: int, mult: int) returns (low: int, high: int)
    requires mult > 0
    ensures Range(low, high) == Rounded(min, max, mult)
    ensures MovedBounds(low, high, Low(min, max), High(min, max), mult)
  {
    RoundedFacts(min, max, mult);
    low, high := min, max;
    if high < low {
      low, high := high, low;
    }
    var rem := CMod(low, mult);
    if rem != 0 {
      low := low + (mult - rem);
    }
    rem := CMod(high, mult);
    if rem != 0 {
      high := high - rem;
    }
  }

  /** The end of both: the random number reduced to the number of multiples. */
  method SelectMultiple(low: int, high: int, mult: int, randnum: int) returns (v: int)
    requires mult > 0 && low <= high
    ensures v == Nth(Range(low, high), mult, randnum)
    ensures low % mult == 0 && high % mult == 0 && randnum >= 0 ==> low <= v <= high && v % mult == 0
  {
    if low % mult == 0 && high % mult == 0 && randnum >= 0 {
      PickedValue(low, high, mult, randnum);
    }
    ProductBound(high - low, mult);
    var nmults := (high - low) / mult + 1;
    v := low + CMod(randnum, nmults) * mult;
  }

  method RandomRange(min: int, max: int, mult: int, draw: int) returns (r: Result)
    requires NoOverflow(min, max, mult) && 0 <= draw < TWO_31
    ensures r == Pick(min, max, mult, draw)
    ensures mult < 1 ==> r == Fail
    ensures mult > 0 && Safe(min, max, mult) ==> Promised(r, min, max, mult)
  {
    if mult < 1 {
      return Fail;
    }
    assert Safe(min, max, mult) ==> KeepsPromise(min, max, mult, draw) by { PromiseIff(min, max, mult); }
    hide Rounded, Nth, NoOverflow, Safe, InRange, MovedBounds;
    var low, high := RoundRange(min, max, mult);
    if low > high {
      return Fail;
    }
    var v := SelectMultiple(low, high, mult, draw);
    r := Value(v);
  }

  // 64-bit numbers by halving

  lemma Pow2Values()
    ensures Pow2(32) == 0x1_0000_0000 && Pow2(31) == TWO_31 && Pow2(63) == TWO_63
  {
    assert Pow2(8) == 256;
    assert Pow2(16) == 0x1_0000;
    assert Pow2(24) == 0x100_0000;
    assert Pow2(32) == 0x1_0000_0000;
    assert Pow2(40) == 0x100_0000_0000;
    assert Pow2(48) == 0x1_0000_0000_0000;
    assert Pow2(56) == 0x100_0000_0000_0000;
  }

  /** Bit cnt of rand; shifting 1 by 31 or more is undefined in C and may give either answer. */
  predicate BitTest(rand: int, cnt: nat, undefined: nat -> bool) {
    if cnt < 31 then rand / Pow2(cnt) % 2 == 1 else undefined(cnt)
  }

  /** divider once rand was drawn; Fail is the -1 of its recursion guard. */
  function Divider(min: int, max: int, cnt: nat, rand: int, undefined: nat -> bool): Result
    decreases 33 - cnt
  {
    if cnt > 32 then Fail
    else
      var diff := max - min;
      if diff <= INT_MAX then Value(min + rand)
      else
        var half := diff / 2;
        var med := min + half;
        if half <= INT_MAX then Value(if BitTest(rand, cnt, undefined) then med + rand else min + rand)
        else if BitTest(rand, cnt, undefined) then Divider(med, max, cnt + 1, rand, undefined)
        else Divider(min, med, cnt + 1, rand, undefined)
  }

  /** The guard is never reached: each halving keeps the difference within 2^(63 - cnt). The result
      stays in [min, max + 2^31 - 1]. */
  lemma {:induction false} DividerBounds(min: int, max: int, cnt: nat, rand: int, undefined: nat -> bool)
    requires min <= max && 0 <= rand < TWO_31 && cnt <= 32 && max - min <= Pow2(63 - cnt)
    ensures var r := Divider(min, max, cnt, rand, undefined);
            r.Value? && min <= r.value <= max + INT_MAX
    decreases 33 - cnt
  {
    hide BitTest, Pow2;
    var diff, half := max - min, (max - min) / 2;
    if half > INT_MAX {
      HalvingDepth(diff, cnt);
      if BitTest(rand, cnt, undefined) {
        DividerBounds(min + half, max, cnt + 1, rand, undefined);
      } else {
        DividerBounds(min, min + half, cnt + 1, rand, undefined);
      }
    }
  }

  lemma HalvingDepth(diff: int, cnt: nat)
    requires cnt <= 32 && INT_MAX < diff / 2 && diff <= Pow2(63 - cnt)
    ensures cnt < 32 && diff / 2 <= diff - diff / 2 <= Pow2(62 - cnt)
  {
    Pow2Values();
    assert Pow2(63 - cnt) == 2 * Pow2(62 - cnt);
  }

  /** random_rangell: like random_range, but past 31 bits the number comes from divider. */
  function PickLL(min: int, max: int, mult: int, draw: int, undefined: nat -> bool): Result {
    if mult < 1 then Fail
    else
      var r := Rounded(min, max, mult);
      if r.low > r.high then Fail else Value(Nth(r, mult, RandNum(r, draw, undefined)))
  }

  function RandNum(r: Range, draw: int, undefined: nat -> bool): int {
    if r.high <= INT_MAX then draw
    else match Divider(r.low, r.high, 0, draw, undefined)
      case Fail => -1
      case Value(v) => v
  }

  lemma RandNumBounds(r: Range, draw: int, undefined: nat -> bool)
    requires 0 <= r.low <= r.high < TWO_63 && 0 <= draw < TWO_31
    ensures 0 <= RandNum(r, draw, undefined) <= r.high + INT_MAX
  {
    if r.high > INT_MAX {
      Pow2Values();
      hide Pow2;
      DividerBounds(r.low, r.high, 0, draw, undefined);
    }
  }

  method RandomRangeLL(min: int, max: int, mult: int, draw: int, undefined: nat -> bool) returns (r: Result)
    requires 0 <= draw < TWO_31
    ensures r == PickLL(min, max, mult, draw, undefined)
    ensures mult < 1 ==> r == Fail
    ensures mult > 0 && Fits64(min, max, mult) ==> Promised(r, min, max, mult)
  {
    if mult < 1 {
      return Fail;
    }
    assert Fits64(min, max, mult) ==> Promised(PickLL(min, max, mult, draw, undefined), min, max, mult) by {
      if Fits64(min, max, mult) {
        LargeRangeKeepsPromise(min, max, mult, draw, undefined);
      }
    }
    hide Rounded, Nth, Divider, Fits64, Promised, MovedBounds;
    var low, high := RoundRange(min, max, mult);
    if low > high {
      return Fail;
    }
    var randnum := draw;
    if high > INT_MAX {
      var divided := Divider(low, high, 0, draw, undefined);
      randnum := if divided.Value? then divided.value else -1;
    }
    var v := SelectMultiple(low, high, mult, randnum);
    r := Value(v);
  }

  /** Non-negative bounds for which the 64-bit arithmetic does not overflow. */
  predicate Fits64(min: int, max: int, mult: int)
    requires mult > 0
  {
    0 <= min < TWO_63 - TWO_31 && 0 <= max < TWO_63 - TWO_31 && Rounded(min, max, mult).low < TWO_63
  }

  /** On non-negative bounds below 2^63 - 2^31, random_rangell returns a multiple inside the bounds,
      and fails exactly when there is none, as long as rounding the lower bound up does not overflow. */
  lemma LargeRangeKeepsPromise(min: int, max: int, mult: int, draw: int, undefined: nat -> bool)
    requires 0 <= draw < TWO_31 && mult >= 1 && Fits64(min, max, mult)
    ensures Promised(PickLL(min, max, mult, draw, undefined), min, max, mult)
  {
    if Rounded(min, max, mult).low > Rounded(min, max, mult).high {
      FailIsRight(min, max, mult);
      hide Rounded, CMod, InRange;
    } else {
      var v := LargeValue(min, max, mult, draw, undefined);
      hide Rounded, CMod, InRange, PickLL;
    }
  }

  lemma LargeValue(min: int, max: int, mult: int, draw: int, undefined: nat -> bool) returns (v: int)
    requires 0 <= min < TWO_63 - TWO_31 && 0 <= max < TWO_63 - TWO_31 && 0 <= draw < TWO_31 && mult >= 1
    requires Rounded(min, max, mult).low <= Rounded(min, max, mult).high
    ensures PickLL(min, max, mult, draw, undefined) == Value(v) && InRange(v, min, max, mult)
  {
    RoundedFacts(min, max, mult);
    var r := Rounded(min, max, mult);
    hide Rounded, CMod, RandNum, Count;
    RandNumBounds(r, draw, undefined);
    PickedValue(r.low, r.high, mult, RandNum(r, draw, undefined));
    v := Nth(r, mult, RandNum(r, draw, undefined));
  }

  /** Where everything fits an int, random_rangell draws what random_range does; beyond that the number is
      divider's. */
  lemma LargeOrSmall(min: int, max: int, mult: int, draw: int, undefined: nat -> bool)
    requires mult >= 1 && 0 <= draw < TWO_31
    ensures var r := Rounded(min, max, mult);
            && (r.high <= 2147483647 ==> PickLL(min, max, mult, draw, undefined) == Pick(min, max, mult, draw))
            && (r.high > 2147483647 && r.low <= r.high && Divider(r.low, r.high, 0, draw, undefined).Value? ==>
                  PickLL(min, max, mult, draw, undefined)
                  == Value(Nth(r, mult, Divider(r.low, r.high, 0, draw, undefined).value)))
  {
    hide Rounded, Divider, Nth;
  }

  /** What the halves chosen by bit cnt and those after it add up to, from this half down to one of 2^30. */
  function Halves(half: nat, k: nat, cnt: nat, rand: int, undefined: nat -> bool): nat {
    (if (if cnt < 31 then rand / Pow2(cnt) % 2 == 1 else undefined(cnt)) then half else 0)
    + (if k == 0 then 0 else Halves(half / 2, k - 1, cnt + 1, rand, undefined))
  }

  /** On a range of 2^(31 + k) numbers divider adds to min and the random number the upper halves that the
      bits of the random number choose, bit 0 the first. */
  lemma {:induction false} DividerSum(min: int, half: nat, k: nat, cnt: nat, rand: int, undefined: nat -> bool)
    requires cnt + k <= 32 && IsHalf(half, k)
    ensures Divider(min, min + 2 * half, cnt, rand, undefined) == Value(min + rand + Halves(half, k, cnt, rand, undefined))
    decreases k
  {
    hide *;
    HalfNext(half, k);
    if k == 0 {
      LastHalf(min, half, cnt, rand, undefined);
    } else {
      var lower := if BitTest(rand, cnt, undefined) then min + half else min;
      NextHalf(min, half, k, cnt, rand, undefined, lower);
      DividerSum(lower, half / 2, k - 1, cnt + 1, rand, undefined);
    }
  }

  lemma LastHalf(min: int, half: nat, cnt: nat, rand: int, undefined: nat -> bool)
    requires cnt <= 32 && half == 0x4000_0000
    ensures Divider(min, min + 2 * half, cnt, rand, undefined) == Value(min + rand + Halves(half, 0, cnt, rand, undefined))
  {
    DividerStep(min, half, cnt, rand, undefined);
    HalvesStep(half, 0, cnt, rand, undefined);
    hide *;
  }

  /** Dividing once, and adding the half chosen. */
  lemma NextHalf(min: int, half: nat, k: nat, cnt: nat, rand: int, undefined: nat -> bool, lower: int)
    requires cnt <= 32 && k > 0 && half > 2147483647 && half == 2 * (half / 2)
    requires lower == if BitTest(rand, cnt, undefined) then min + half else min
    ensures Divider(min, min + 2 * half, cnt, rand, undefined) == Divider(lower, lower + 2 * (half / 2), cnt + 1, rand, undefined)
    ensures min + Halves(half, k, cnt, rand, undefined) == lower + Halves(half / 2, k - 1, cnt + 1, rand, undefined)
  {
    DividerStep(min, half, cnt, rand, undefined);
    HalvesStep(half, k, cnt, rand, undefined);
    assert lower + 2 * (half / 2) == lower + half;
    hide *;
  }

  predicate IsHalf(half: nat, k: nat) {
    half == Pow2(30 + k)
  }

  lemma HalfNext(half: nat, k: nat)
    requires IsHalf(half, k)
    ensures if k == 0 then half == 0x4000_0000
            else half > 2147483647 && half == 2 * (half / 2) && IsHalf(half / 2, k - 1)
  {
    Pow2Values();
    if k > 1 {
      HalfNext(half / 2, k - 1);
    }
  }

  lemma DividerStep(min: int, half: nat, cnt: nat, rand: int, undefined: nat -> bool)
    requires cnt <= 32 && 2 * half > 2147483647
    ensures Divider(min, min + 2 * half, cnt, rand, undefined) ==
              if half <= 2147483647 then Value(if BitTest(rand, cnt, undefined) then min + half + rand else min + rand)
              else if BitTest(rand, cnt, undefined) then Divider(min + half, min + 2 * half, cnt + 1, rand, undefined)
              else Divider(min, min + half, cnt + 1, rand, undefined)
  {
    hide BitTest;
  }

  lemma HalvesStep(half: nat, k: nat, cnt: nat, rand: int, undefined: nat -> bool)
    ensures Halves(half, k, cnt, rand, undefined)
         == (if BitTest(rand, cnt, undefined) then half else 0) + (if k == 0 then 0 else Halves(half / 2, k - 1, cnt + 1, rand, undefined))
  {
    hide Pow2;
  }
}
