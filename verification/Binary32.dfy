/** Single-precision floating point, as far as subtracting from a nonnegative amount needs it:
    24-bit significands, rounding to nearest with ties to even, down to the smallest
    subnormal. Values too large for the format are not cut off. */
module Binary32 {

  /** The significand's range, 2^23 to 2^24. */
  const HALF_LIMIT: real := 8388608.0
  const LIMIT: real := 16777216.0

  /** Doublings from 1 down to the smallest subnormal, 2^-149. */
  const SUBNORMAL: nat := 149

  predicate Whole(x: real) {
    x == x.Floor as real
  }

  function RoundWhole(x: real): (r: real)
    ensures Whole(r) && x - 0.5 <= r <= x + 0.5
    ensures Whole(x) ==> r == x
  {
    var q := x.Floor;
    if x - q as real < 0.5 then q as real
    else if x - q as real > 0.5 then (q + 1) as real
    else if q % 2 == 0 then q as real
    else (q + 1) as real
  }

  /** Below 2^24: scaled up, at most `n` times, until the significand has 24 bits. */
  function Fine(x: real, n: nat): (r: real)
    requires x >= 0.0
    ensures r >= 0.0
    decreases n
  {
    if n == 0 || x >= HALF_LIMIT then NotBelow(x); RoundWhole(x) else Fine(2.0 * x, n - 1) / 2.0
  }

  function Round(x: real): (r: real)
    requires x >= 0.0
    ensures r >= 0.0
    decreases x.Floor
  {
    if x >= LIMIT then Halved(x); 2.0 * Round(x / 2.0) else Fine(x, SUBNORMAL)
  }

  predicate IsFloat(x: real) {
    x >= 0.0 && Round(x) == x
  }

  /** The conversion of an `int`. */
  function FromInt(c: int): real {
    if c >= 0 then Round(c as real) else -Round(-c as real)
  }

  function Minus(x: real, y: real): real {
    if y <= x then Round(x - y) else -Round(y - x)
  }

  // ---- Whole numbers ----

  lemma NotBelow(x: real)
    requires x >= 0.0
    ensures RoundWhole(x) >= 0.0
  {
  }

  lemma Halved(x: real)
    requires x >= LIMIT
    ensures 0 <= (x / 2.0).Floor < x.Floor
  {
  }

  lemma WholeInt(k: int)
    ensures Whole(k as real)
  {
  }

  lemma WholeMinus(x: real, y: real)
    requires Whole(x) && Whole(y)
    ensures Whole(x - y)
  {
    WholeInt(x.Floor - y.Floor);
    assert x - y == (x.Floor - y.Floor) as real;
  }

  lemma WholeDouble(x: real)
    requires Whole(x)
    ensures Whole(2.0 * x)
  {
    WholeInt(2 * x.Floor);
    assert 2.0 * x == (2 * x.Floor) as real;
  }

  lemma WholeOrder(x: real, y: real)
    requires Whole(x) && Whole(y) && x <= y + 0.5
    ensures x <= y
  {
  }

  lemma LimitsWhole()
    ensures Whole(HALF_LIMIT) && Whole(LIMIT)
  {
  }

  lemma {:induction false} FineWhole(x: real, n: nat)
    requires x >= 0.0 && Whole(x)
    ensures Fine(x, n) == x
    decreases n
  {
    hide Whole;
    hide RoundWhole;
    if n > 0 && x < HALF_LIMIT {
      WholeDouble(x);
      FineWhole(2.0 * x, n - 1);
    }
  }

  /** Whole numbers up to 2^24 are floats. */
  lemma RoundsWhole(x: real)
    requires 0.0 <= x <= LIMIT && Whole(x)
    ensures Round(x) == x
  {
    hide Whole;
    hide Fine;
    if x < LIMIT {
      FineWhole(x, SUBNORMAL);
    } else {
      LimitsWhole();
      FineWhole(HALF_LIMIT, SUBNORMAL);
      assert x / 2.0 == HALF_LIMIT;
    }
  }

  lemma {:induction false} FineAtMost(x: real, top: real, n: nat)
    requires 0.0 <= x <= top && Whole(top)
    ensures Fine(x, n) <= top
    decreases n
  {
    hide Whole;
    hide RoundWhole;
    if n > 0 && x < HALF_LIMIT {
      WholeDouble(top);
      FineAtMost(2.0 * x, 2.0 * top, n - 1);
    } else {
      WholeOrder(RoundWhole(x), top);
    }
  }

  // ---- Monotony ----

  /** Rounding does not climb over a float. */
  lemma {:induction false} FineBelow(y: real, x: real, n: nat)
    requires 0.0 <= y <= x && Fine(x, n) == x
    ensures Fine(y, n) <= x
    decreases n
  {
    hide Whole;
    hide RoundWhole;
    if n == 0 || x >= HALF_LIMIT {
      FineAtMost(y, x, n);
    } else {
      FineBelow(2.0 * y, 2.0 * x, n - 1);
    }
  }

  lemma {:induction false} RoundBelow(y: real, x: real)
    requires 0.0 <= y <= x && IsFloat(x)
    ensures Round(y) <= x
    decreases x.Floor
  {
    hide Whole;
    hide Fine;
    if x < LIMIT {
      FineBelow(y, x, SUBNORMAL);
    } else if y < LIMIT {
      LimitsWhole();
      FineAtMost(y, LIMIT, SUBNORMAL);
    } else {
      Halved(x);
      RoundBelow(y / 2.0, x / 2.0);
    }
  }

  lemma FineAbove(x: real, n: nat)
    requires x >= HALF_LIMIT
    ensures Fine(x, n) >= HALF_LIMIT && Whole(Fine(x, n))
  {
    LimitsWhole();
    hide Whole;
    hide RoundWhole;
    WholeOrder(HALF_LIMIT, RoundWhole(x));
  }

  /** Large floats are whole. */
  lemma {:induction false} RoundAbove(x: real)
    requires x >= HALF_LIMIT
    ensures Round(x) >= HALF_LIMIT && Whole(Round(x))
    decreases x.Floor
  {
    hide Whole;
    hide Fine;
    if x >= LIMIT {
      Halved(x);
      RoundAbove(x / 2.0);
      WholeDouble(Round(x / 2.0));
    } else {
      FineAbove(x, SUBNORMAL);
    }
  }

  // ---- Rounded values are floats ----

  lemma {:induction false} FineTwice(x: real, n: nat)
    requires 0.0 <= x < LIMIT
    ensures Fine(x, n) <= LIMIT && Fine(Fine(x, n), n) == Fine(x, n)
    decreases n
  {
    LimitsWhole();
    hide Whole;
    hide RoundWhole;
    FineAtMost(x, LIMIT, n);
    if n == 0 || x >= HALF_LIMIT {
      FineWhole(Fine(x, n), n);
    } else {
      FineTwice(2.0 * x, n - 1);
      var z := Fine(2.0 * x, n - 1);
      if z / 2.0 >= HALF_LIMIT {
        assert z == LIMIT;
        FineWhole(HALF_LIMIT, n);
      }
    }
  }

  lemma {:induction false} RoundTwice(x: real)
    requires x >= 0.0
    ensures IsFloat(Round(x))
    decreases x.Floor
  {
    hide Whole;
    hide Fine;
    if x < LIMIT {
      FineTwice(x, SUBNORMAL);
      if Round(x) == LIMIT {
        LimitsWhole();
        RoundsWhole(LIMIT);
      }
    } else {
      Halved(x);
      RoundTwice(x / 2.0);
      RoundAbove(x / 2.0);
      assert Round(2.0 * Round(x / 2.0)) == 2.0 * Round(2.0 * Round(x / 2.0) / 2.0);
    }
  }

  // ---- Rounding is to the nearest ----

  function Distance(x: real, y: real): real {
    if x <= y then y - x else x - y
  }

  lemma NearestWhole(x: real, f: real)
    requires Whole(f)
    ensures Distance(RoundWhole(x), x) <= Distance(f, x)
  {
    RoundWholeWithin(x);
    hide RoundWhole;
    var low := x.Floor as real;
    assert f.Floor <= x.Floor ==> f <= low;
    assert f.Floor >= x.Floor + 1 ==> f >= low + 1.0;
    hide Whole;
  }

  lemma RoundWholeWithin(x: real)
    ensures var low, r := x.Floor as real, RoundWhole(x);
            Distance(r, x) <= x - low && Distance(r, x) <= low + 1.0 - x
  {
  }

  lemma {:induction false} FineNearest(x: real, f: real, n: nat)
    requires x >= 0.0 && f >= 0.0 && Fine(f, n) == f
    ensures Distance(Fine(x, n), x) <= Distance(f, x)
    decreases n
  {
    LimitsWhole();
    hide Whole;
    hide RoundWhole;
    if n == 0 || x >= HALF_LIMIT {
      NearestWhole(x, if n > 0 && f < HALF_LIMIT then HALF_LIMIT else f);
    } else {
      if f >= HALF_LIMIT {
        WholeDouble(f);
        FineWhole(2.0 * f, n - 1);
      }
      FineNearest(2.0 * x, 2.0 * f, n - 1);
    }
  }

  /** Rounding gives a float, and no float is nearer. */
  lemma {:induction false} RoundNearest(x: real, f: real)
    requires x >= 0.0 && IsFloat(f)
    ensures IsFloat(Round(x)) && Distance(Round(x), x) <= Distance(f, x)
    decreases x.Floor
  {
    RoundTwice(x);
    LimitsWhole();
    hide Whole;
    hide Fine;
    if x < LIMIT {
      FineWhole(LIMIT, SUBNORMAL);
      FineNearest(x, if f < LIMIT then f else LIMIT, SUBNORMAL);
    } else {
      Halved(x);
      RoundsWhole(HALF_LIMIT);
      RoundNearest(x / 2.0, if f < LIMIT then HALF_LIMIT else f / 2.0);
    }
  }

  // ---- Ties ----

  /** An even multiple of its distance to `f`. */
  ghost predicate EvenFrom(r: real, f: real) {
    exists q: int :: r == (2 * q) as real * Distance(f, r)
  }

  lemma EvenHalved(r: real, f: real)
    requires EvenFrom(2.0 * r, 2.0 * f)
    ensures EvenFrom(r, f)
  {
    var q: int :| 2.0 * r == (2 * q) as real * Distance(2.0 * f, 2.0 * r);
    var c, d := (2 * q) as real, Distance(f, r);
    assert Distance(2.0 * f, 2.0 * r) == 2.0 * d;
    assert c * (2.0 * d) == 2.0 * (c * d);
  }

  lemma EvenDoubled(r: real, f: real)
    requires EvenFrom(r, f)
    ensures EvenFrom(2.0 * r, 2.0 * f)
  {
    var q: int :| r == (2 * q) as real * Distance(f, r);
    var c, d := (2 * q) as real, Distance(f, r);
    assert Distance(2.0 * f, 2.0 * r) == 2.0 * d;
    assert c * (2.0 * d) == 2.0 * (c * d);
  }

  lemma WholeTie(x: real, f: real)
    requires Whole(f) && f != RoundWhole(x) && Distance(f, x) == Distance(RoundWhole(x), x)
    ensures EvenFrom(RoundWhole(x), f)
  {
    var r := RoundWhole(x);
    assert f.Floor < r.Floor ==> f <= r - 1.0;
    assert f.Floor > r.Floor ==> f >= r + 1.0;
    assert Distance(f, r) == 1.0;
    assert x - x.Floor as real == 0.5;
    var q := r.Floor / 2;
    assert r.Floor == 2 * q;
    assert r == (2 * q) as real * Distance(f, r);
  }

  lemma NearWhole(x: real, f: real, n: nat)
    requires (n == 0 || x >= HALF_LIMIT) && x >= 0.0 && f >= 0.0 && Fine(f, n) == f
    requires Distance(f, x) == Distance(RoundWhole(x), x)
    ensures Whole(f)
  {
    LimitsWhole();
    if n > 0 {
      NearestWhole(x, HALF_LIMIT);
      hide RoundWhole;
      hide Whole;
      assert f >= HALF_LIMIT;
      FineAbove(f, n);
    }
  }

  lemma {:induction false} FineTies(x: real, f: real, n: nat)
    requires x >= 0.0 && f >= 0.0 && Fine(f, n) == f && f != Fine(x, n)
    requires Distance(f, x) == Distance(Fine(x, n), x)
    ensures EvenFrom(Fine(x, n), f)
    decreases n
  {
    LimitsWhole();
    hide Whole;
    hide RoundWhole;
    hide EvenFrom;
    if n == 0 || x >= HALF_LIMIT {
      NearWhole(x, f, n);
      WholeTie(x, f);
    } else {
      if f >= HALF_LIMIT {
        FineAbove(f, n);
        WholeDouble(f);
        FineWhole(2.0 * f, n - 1);
      }
      FineTies(2.0 * x, 2.0 * f, n - 1);
      EvenHalved(Fine(x, n), f);
    }
  }

  lemma TieBelow(x: real, f: real)
    requires 0.0 <= x < LIMIT && IsFloat(f) && Distance(f, x) == Distance(Round(x), x)
    ensures f <= LIMIT && Fine(f, SUBNORMAL) == f
  {
    LimitsWhole();
    RoundsWhole(LIMIT);
    RoundNearest(x, LIMIT);
    hide Whole;
    if f >= LIMIT {
      FineWhole(LIMIT, SUBNORMAL);
      hide Fine;
    }
  }

  lemma TieAbove(x: real, f: real)
    requires x >= LIMIT && IsFloat(f) && Distance(f, x) == Distance(Round(x), x)
    ensures f >= LIMIT && IsFloat(f / 2.0)
  {
    LimitsWhole();
    RoundsWhole(LIMIT);
    RoundNearest(x, LIMIT);
    hide Fine;
    if f >= LIMIT {
      RoundLarge(f);
    }
    hide Whole;
    hide Round;
  }

  /** Of two floats equally near, the result is the one whose significand is even: it is an even
      multiple of their distance. */
  lemma {:induction false} TiesToEven(x: real, f: real)
    requires x >= 0.0 && IsFloat(f) && f != Round(x) && Distance(f, x) == Distance(Round(x), x)
    ensures EvenFrom(Round(x), f)
    decreases x.Floor
  {
    hide Whole;
    hide Fine;
    hide EvenFrom;
    if x < LIMIT {
      TieBelow(x, f);
      FineTies(x, f, SUBNORMAL);
    } else {
      TieAbove(x, f);
      RoundLarge(x);
      Halved(x);
      hide Round;
      TiesToEven(x / 2.0, f / 2.0);
      EvenDoubled(Round(x / 2.0), f / 2.0);
    }
  }

  // ---- What floats there are ----

  /** `m` times 2^e. */
  function Scale(m: nat, e: int): real
    decreases if e < 0 then -e else e
  {
    if e == 0 then m as real else if e > 0 then 2.0 * Scale(m, e - 1) else Scale(m, e + 1) / 2.0
  }

  lemma ScaleNext(m: nat, e: int)
    ensures Scale(m, e + 1) == 2.0 * Scale(m, e)
  {
  }

  /** A significand of 24 bits, scaled by a power of two from 2^-149 up. */
  ghost predicate Scaled(x: real, m: nat, e: int) {
    m < 0x100_0000 && e >= -149 && x == Scale(m, e)
  }

  lemma {:induction false} FineScaled(x: real, n: nat) returns (m: nat, e: int)
    requires 0.0 <= x < LIMIT && Fine(x, n) == x
    ensures m < 0x100_0000 && 0 - n <= e <= 0 && x == Scale(m, e)
    decreases n
  {
    if n == 0 || x >= HALF_LIMIT {
      m, e := x.Floor, 0;
      hide Fine;
    } else {
      hide RoundWhole;
      m, e := FineScaled(2.0 * x, n - 1);
      e := e - 1;
      ScaleNext(m, e);
      hide Scale;
    }
  }

  lemma {:induction false} FloatScaled(x: real) returns (m: nat, e: int)
    requires IsFloat(x)
    ensures Scaled(x, m, e)
    decreases x.Floor
  {
    hide Fine;
    if x < LIMIT {
      m, e := FineScaled(x, SUBNORMAL);
    } else {
      Halved(x);
      m, e := FloatScaled(x / 2.0);
      ScaleNext(m, e);
      e := e + 1;
    }
  }

  lemma {:induction false} ScaledFine(m: nat, e: int, n: nat)
    requires m < 0x100_0000 && 0 - n <= e <= 0
    ensures 0.0 <= Scale(m, e) <= m as real && Fine(Scale(m, e), n) == Scale(m, e)
    ensures e < 0 ==> 2.0 * Scale(m, e) <= m as real
    decreases n
  {
    if e == 0 {
      WholeInt(m);
      FineWhole(m as real, n);
    } else {
      ScaledFine(m, e + 1, n - 1);
      ScaleNext(m, e);
      hide Scale;
      FineOnce(Scale(m, e), n);
    }
  }

  lemma FineOnce(x: real, n: nat)
    requires 0.0 <= x < HALF_LIMIT && n > 0
    ensures Fine(x, n) == Fine(2.0 * x, n - 1) / 2.0
  {
    hide RoundWhole;
  }

  lemma {:induction false} ScaledWhole(m: nat, e: nat)
    ensures Scale(m, e) >= 0.0 && Whole(Scale(m, e))
  {
    WholeInt(m);
    if e > 0 {
      ScaledWhole(m, e - 1);
      WholeDouble(Scale(m, e - 1));
    }
    hide Whole;
  }

  lemma {:induction false} ScaledFloat(m: nat, e: int)
    requires m < 0x100_0000 && e >= -149
    ensures IsFloat(Scale(m, e))
    decreases e + 149
  {
    hide Whole;
    hide Fine;
    if e <= 0 {
      ScaledFine(m, e, SUBNORMAL);
      hide Scale;
    } else {
      ScaledWhole(m, e);
      ScaleNext(m, e - 1);
      hide Scale;
      if Scale(m, e) <= LIMIT {
        RoundsWhole(Scale(m, e));
      } else {
        ScaledFloat(m, e - 1);
        RoundLarge(Scale(m, e));
        hide Round;
      }
    }
  }

  /** The nonnegative floats are exactly these. */
  lemma FloatIff(x: real)
    ensures IsFloat(x) <==> exists m: nat, e: int :: Scaled(x, m, e)
  {
    hide Round;
    hide Scale;
    if IsFloat(x) {
      var m, e := FloatScaled(x);
    }
    if m: nat, e: int :| Scaled(x, m, e) {
      ScaledFloat(m, e);
    }
  }

  // ---- Exact subtraction ----

  lemma {:induction false} FineMinus(x: real, c: real, n: nat)
    requires 0.0 <= c <= x < LIMIT && Fine(x, n) == x && Whole(c)
    ensures Fine(x - c, n) == x - c
    decreases n
  {
    hide Whole;
    hide RoundWhole;
    if n == 0 || x >= HALF_LIMIT {
      WholeMinus(x, c);
      FineWhole(x - c, n);
    } else {
      WholeDouble(c);
      FineMinus(2.0 * x, 2.0 * c, n - 1);
      assert 2.0 * (x - c) == 2.0 * x - 2.0 * c;
    }
  }

  /** Taking a whole number away from a float of at most 2^24 loses nothing. */
  lemma MinusExact(x: real, c: real)
    requires IsFloat(x) && x <= LIMIT && Whole(c) && 0.0 <= c <= x
    ensures Minus(x, c) == x - c && IsFloat(x - c)
  {
    RoundExact(x, c);
    hide Round;
    hide Whole;
  }

  lemma RoundExact(x: real, c: real)
    requires IsFloat(x) && x <= LIMIT && Whole(c) && 0.0 <= c <= x
    ensures Round(x - c) == x - c
  {
    hide Whole;
    hide Fine;
    if x < LIMIT {
      FineMinus(x, c, SUBNORMAL);
    } else {
      LimitsWhole();
      WholeMinus(x, c);
      RoundsWhole(x - c);
    }
  }

  /** A nonnegative `int` converts to a whole float, to itself up to 2^24. */
  lemma FromIntWhole(c: nat)
    ensures FromInt(c) >= 0.0 && Whole(FromInt(c)) && (c > 0 ==> FromInt(c) >= 1.0)
    ensures c as real <= LIMIT ==> FromInt(c) == c as real
  {
    WholeInt(c);
    hide Whole;
    hide Fine;
    if c as real <= LIMIT {
      RoundsWhole(c as real);
    } else {
      RoundAbove(c as real);
    }
  }

  /** A nonnegative `int` converts to the nearest float. */
  lemma FromIntNearest(c: nat, f: real)
    requires IsFloat(f)
    ensures IsFloat(FromInt(c)) && Distance(FromInt(c), c as real) <= Distance(f, c as real)
  {
    hide Round;
    RoundNearest(c as real, f);
  }

  /** What is left after a subtraction is the float nearest to the difference. */
  lemma MinusNearest(x: real, y: real, f: real)
    requires y <= x && IsFloat(f)
    ensures IsFloat(Minus(x, y)) && Distance(Minus(x, y), x - y) <= Distance(f, x - y)
  {
    hide Round;
    RoundNearest(x - y, f);
  }

  lemma MinusBelow(x: real, y: real)
    requires IsFloat(x) && 0.0 <= y <= x
    ensures IsFloat(Minus(x, y)) && Minus(x, y) <= x
  {
    hide Fine;
    hide Whole;
    RoundBelow(x - y, x);
    RoundTwice(x - y);
    hide Round;
  }

  /** What is added is not lost below the old value. */
  lemma MinusAbove(x: real, c: int)
    requires IsFloat(x) && c <= 0
    ensures FromInt(c) <= 0.0 && IsFloat(Minus(x, FromInt(c))) && Minus(x, FromInt(c)) >= x
  {
    NegativeInt(c);
    hide FromInt;
    RoundNearest(x - FromInt(c), x);
    hide Round;
  }

  lemma NegativeInt(c: int)
    requires c <= 0
    ensures FromInt(c) <= 0.0
  {
    FromIntWhole(0);
    hide Round;
  }

  /** Above 2^24 every other float absorbs the subtraction of 1. */
  lemma MinusOneAbsorbed(m: nat)
    requires m % 2 == 0 && HALF_LIMIT < m as real <= LIMIT
    ensures IsFloat(2.0 * m as real) && Minus(2.0 * m as real, 1.0) == 2.0 * m as real
  {
    WholeInt(m);
    var half, x := m as real - 0.5, 2.0 * m as real;
    RoundsWhole(m as real);
    RoundHalf(m);
    assert x / 2.0 == m as real && (x - 1.0) / 2.0 == half;
    RoundLarge(x);
    RoundLarge(x - 1.0);
    hide Round;
    hide Whole;
  }

  lemma RoundLarge(x: real)
    requires x >= LIMIT
    ensures Round(x) == 2.0 * Round(x / 2.0)
  {
    hide Fine;
  }

  lemma RoundHalf(m: nat)
    requires m % 2 == 0 && HALF_LIMIT < m as real <= LIMIT
    ensures Round(m as real - 0.5) == m as real
  {
    HalfToEven(m);
    hide RoundWhole;
    hide Whole;
  }

  lemma HalfToEven(m: nat)
    requires m % 2 == 0
    ensures RoundWhole(m as real - 0.5) == m as real
  {
    assert (m as real - 0.5).Floor == m - 1;
  }

  // ---- Floats are discrete ----

  /** `x` in units of 2^-n. */
  function Units(x: real, n: nat): real
    decreases n
  {
    if n == 0 then x else Units(2.0 * x, n - 1)
  }

  lemma {:induction false} UnitsOrder(x: real, y: real, n: nat)
    requires x < y
    ensures Units(x, n) < Units(y, n)
    decreases n
  {
    if n > 0 {
      UnitsOrder(2.0 * x, 2.0 * y, n - 1);
    }
  }

  lemma {:induction false} UnitsPositive(x: real, n: nat)
    requires x >= 0.0
    ensures Units(x, n) >= 0.0
    decreases n
  {
    if n > 0 {
      UnitsPositive(2.0 * x, n - 1);
    }
  }

  lemma {:induction false} WholeUnits(x: real, n: nat)
    requires Whole(x)
    ensures Whole(Units(x, n))
    decreases n
  {
    hide Whole;
    if n > 0 {
      WholeDouble(x);
      WholeUnits(2.0 * x, n - 1);
    }
  }

  lemma {:induction false} FineUnits(x: real, n: nat)
    requires x >= 0.0 && Fine(x, n) == x
    ensures Whole(Units(x, n))
    decreases n
  {
    hide Whole;
    hide RoundWhole;
    if n == 0 || x >= HALF_LIMIT {
      WholeUnits(x, n);
    } else {
      FineUnits(2.0 * x, n - 1);
    }
  }

  /** A float counted in the smallest subnormals: a float below another counts fewer. */
  function Count(x: real): nat
    requires IsFloat(x)
  {
    CountWhole(x);
    Units(x, SUBNORMAL).Floor
  }

  lemma CountWhole(x: real)
    requires IsFloat(x)
    ensures Whole(Units(x, SUBNORMAL)) && Units(x, SUBNORMAL) >= 0.0
  {
    hide Whole;
    hide Fine;
    hide Units;
    UnitsPositive(x, SUBNORMAL);
    if x < LIMIT {
      FineUnits(x, SUBNORMAL);
    } else {
      RoundAbove(x);
      WholeUnits(x, SUBNORMAL);
    }
  }

  lemma CountOrder(x: real, y: real)
    requires IsFloat(x) && IsFloat(y) && x < y
    ensures Count(x) < Count(y)
  {
    hide Fine;
    hide Round;
    UnitsOrder(x, y, SUBNORMAL);
    CountWhole(x);
    CountWhole(y);
    hide Units;
  }
}
