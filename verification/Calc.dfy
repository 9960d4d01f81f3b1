/** Exact integer arithmetic of the calculator: checked multiplication and tetration. */
module Calc {

  const INT32_MAX: int := 2147483647
  const INT32_MIN: int := -2147483648

  predicate Int32(x: int) { INT32_MIN <= x <= INT32_MAX }

  datatype Option<T> = None | Some(value: T)

  /** Division of the source language: towards zero. */
  function TruncDiv(a: int, b: int): int
    requires b != 0
  {
    if a >= 0 then (if b > 0 then a / b else -(a / -b))
    else if b > 0 then -(-a / b) else -a / -b
  }

  /** `checked_mul_int`: no answer exactly when the true product does not fit 32 bits. */
  function CheckedMul(a: int, b: int): (r: Option<int>)
    requires Int32(a) && Int32(b)
    ensures r == if Int32(a * b) then Some(a * b) else None
  {
    if a == 0 || b == 0 then Some(0)
    else
      CheckedMulExact(a, b);
      if a == -1 && b == INT32_MIN then None
      else if b == -1 && a == INT32_MIN then None
      else if a > 0 && b > 0 && a > TruncDiv(INT32_MAX, b) then None
      else if a > 0 && b < 0 && b < TruncDiv(INT32_MIN, a) then None
      else if a < 0 && b > 0 && a < TruncDiv(INT32_MIN, b) then None
      else if a < 0 && b < 0 && b < TruncDiv(INT32_MAX, a) then None
      else Some(a * b)
  }

  /** Comparing with a quotient decides a product. */
  lemma QuotientDecides(x: nat, y: nat, limit: nat)
    requires y > 0
    ensures x > limit / y <==> x * y > limit
  {
    var q := limit / y;
    assert limit == q * y + limit % y;
    if x > q {
      MulMono(q + 1, x, y);
      assert (q + 1) * y == q * y + y;
    } else {
      MulMono(x, q, y);
    }
  }

  lemma MulMono(a: nat, b: nat, c: nat)
    requires a <= b
    ensures a * c <= b * c
  {}

  lemma CheckedMulExact(a: int, b: int)
    requires Int32(a) && Int32(b) && a != 0 && b != 0
    ensures a > 0 && b > 0 ==> (a > TruncDiv(INT32_MAX, b) <==> !Int32(a * b))
    ensures a > 0 && b < 0 ==> (b < TruncDiv(INT32_MIN, a) <==> !Int32(a * b))
    ensures a < 0 && b > 0 ==> (a < TruncDiv(INT32_MIN, b) <==> !Int32(a * b))
    ensures a < 0 && b < 0 ==> (b < TruncDiv(INT32_MAX, a) <==> !Int32(a * b))
  {
    if a > 0 && b > 0 {
      QuotientDecides(a, b, 2147483647);
      ProductSign(a, b);
    } else if a > 0 {
      QuotientDecides(-b, a, 2147483648);
      ProductSign(a, -b);
      assert a * b == -((-b) * a);
    } else if b > 0 {
      QuotientDecides(-a, b, 2147483648);
      ProductSign(-a, b);
      assert a * b == -((-a) * b);
    } else {
      QuotientDecides(-b, -a, 2147483647);
      ProductSign(-a, -b);
      assert a * b == (-b) * (-a);
    }
  }

  lemma ProductSign(a: nat, b: nat)
    ensures a * b >= 0
  {}

  // ----- tetration -----

  function Pow(b: nat, e: nat): nat {
    if e == 0 then 1 else b * Pow(b, e - 1)
  }

  /** `base` to the power of itself, `height` times; the empty tower is 1. */
  function Tetration(b: nat, height: nat): nat {
    if height == 0 then 1 else Pow(b, Tetration(b, height - 1))
  }

  datatype Answer = Printed(value: int) | NegativeHeight | NegativeBase | InvalidExponent | GrowsTooFast | Overflow

  lemma {:induction false} PowMono(b: nat, d: nat, e: nat)
    requires b > 0 && d <= e
    ensures 0 < Pow(b, d) <= Pow(b, e)
    decreases e
  {
    if d < e {
      PowMono(b, d, e - 1);
      MulMono(1, b, Pow(b, e - 1));
    } else if d > 0 {
      PowMono(b, d - 1, e - 1);
      MulMono(1, b, Pow(b, d - 1));
    }
  }

  lemma {:induction false} PowMonoBase(a: nat, b: nat, e: nat)
    requires a <= b
    ensures Pow(a, e) <= Pow(b, e)
  {
    if e > 0 {
      PowMonoBase(a, b, e - 1);
      MulMono(a, b, Pow(a, e - 1));
      MulMono(Pow(a, e - 1), Pow(b, e - 1), b);
      assert b * Pow(a, e - 1) <= b * Pow(b, e - 1);
    }
  }

  lemma {:induction false} PowAdd(b: nat, d: nat, e: nat)
    ensures Pow(b, d + e) == Pow(b, d) * Pow(b, e)
  {
    if d > 0 {
      PowAdd(b, d - 1, e);
      assert b * (Pow(b, d - 1) * Pow(b, e)) == b * Pow(b, d - 1) * Pow(b, e);
    }
  }

  /** An exponent above 31 takes any base from 2 on out of range. */
  lemma CutOffIsSound(b: nat, e: nat)
    requires b >= 2 && e > 31
    ensures Pow(b, e) > INT32_MAX
  {
    assert Pow(2, 4) == 16;
    PowAdd(2, 4, 4);
    PowAdd(2, 8, 8);
    PowAdd(2, 16, 16);
    PowMonoBase(2, b, 32);
    PowMono(b, 32, e);
  }

  lemma {:induction false} PowOfOne(e: nat)
    ensures Pow(1, e) == 1
  {
    if e > 0 { PowOfOne(e - 1); }
  }

  lemma {:induction false} TowerGrows(b: nat, g: nat, h: nat)
    requires b > 0 && g <= h
    ensures 0 < Tetration(b, g) <= Tetration(b, h)
    decreases h
  {
    if g > 0 {
      TowerGrows(b, g - 1, h - 1);
      PowMono(b, Tetration(b, g - 1), Tetration(b, h - 1));
    } else if h > 0 {
      TowerGrows(b, 0, h - 1);
      PowMono(b, 0, Tetration(b, h - 1));
    }
  }

  lemma {:induction false} TowerOfZero(h: nat)
    ensures Tetration(0, h) == if h % 2 == 0 then 1 else 0
  {
    if h > 0 { TowerOfZero(h - 1); }
  }

  lemma TowerOfOne(h: nat)
    ensures Tetration(1, h) == 1
  {
    if h > 0 { PowOfOne(Tetration(1, h - 1)); }
  }

  /** Some lower tower fits 32 bits and exceeds the largest exponent that is tried. */
  ghost predicate PassesCutOff(b: nat, height: nat) {
    exists h :: 0 <= h < height && 31 < Tetration(b, h) <= INT32_MAX
  }

  lemma CutOffAt(b: nat, h: nat, height: nat)
    requires h < height && 31 < Tetration(b, h) <= INT32_MAX
    ensures PassesCutOff(b, height)
  {}

  /** A tower that jumps from at most 31 out of range never lies in between. */
  lemma JumpsOver(b: nat, h: nat, height: nat)
    requires b > 0 && Tetration(b, h) <= 31 && Tetration(b, h + 1) > INT32_MAX
    ensures !PassesCutOff(b, height)
  {
    hide Tetration;
    forall g: nat | g < height ensures !(31 < Tetration(b, g) <= INT32_MAX) {
      if g <= h { TowerGrows(b, g, h); } else { TowerGrows(b, h + 1, g); }
    }
  }

  /** Exact whenever the tower fits 32 bits, an error exactly when it does not. */
  method CalcTetration(base: int, height: int) returns (answer: Answer)
    requires Int32(base) && Int32(height)
    ensures base >= 0 && height >= 0 ==>
              var tower := Tetration(base, height);
              if Int32(tower) then answer == Printed(tower)
              else answer == if PassesCutOff(base, height) then GrowsTooFast else Overflow
    ensures height < 0 ==> answer == NegativeHeight
    ensures base < 0 && height >= 0 ==> answer == if height == 0 then Printed(1) else NegativeBase
  {
    hide PassesCutOff;
    if height < 0 {
      return NegativeHeight;
    }
    if height == 0 {
      return Printed(1);
    }
    if base == 0 {
      TowerOfZero(height);
      return Printed(if height % 2 == 0 then 1 else 0);
    }
    if base < 0 {
      return NegativeBase;
    }
    var result := base;
    assert Pow(base, 1) == base * Pow(base, 0) == base;
    assert Tetration(base, 1) == Pow(base, Tetration(base, 0));
    for h := 1 to height
      invariant Int32(result) && result == Tetration(base, h)
    {
      TowerGrows(base, 0, h);
      TowerGrows(base, h + 1, height);
      if result < 0 {
        return InvalidExponent;
      }
      if result > 31 {
        if base == 1 { TowerOfOne(h); } else { CutOffIsSound(base, result); }
        CutOffAt(base, h, height);
        return GrowsTooFast;
      }
      var power := 1;
      for i := 0 to result
        invariant Int32(power) && power == Pow(base, i)
      {
        assert Pow(base, i + 1) == base * Pow(base, i);
        var tmp := CheckedMul(power, base);
        if tmp.None? {
          PowMono(base, i + 1, result);
          JumpsOver(base, h, height);
          return Overflow;
        }
        power := tmp.value;
      }
      result := power;
    }
    return Printed(result);
  }
}
