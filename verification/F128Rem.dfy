// f128_rem of softfloat/f128_rem.c: the exact IEEE remainder by an
// estimate-and-correct loop on 128-bit words (section 5.3.1 of IEEE 754-2008).

module RemArith {
  import opened Powers

  // The pure arithmetic of one estimate. Throughout: sB is b's significand, r the
  // approximate reciprocal, m == r * sB, R the partial remainder and y its leading bits.

  const TWO83: nat := 0x8_0000_0000_0000_0000_0000
  const TWO81: nat := 0x2_0000_0000_0000_0000_0000
  const TWO112: nat := 0x1_0000_0000_0000_0000_0000_0000_0000
  const TWO113: nat := 0x2_0000_0000_0000_0000_0000_0000_0000
  const TWO114: nat := 0x4_0000_0000_0000_0000_0000_0000_0000
  const TWO144: nat := 0x1_0000_0000_0000_0000_0000_0000_0000_0000_0000
  const TWO61: nat := 0x2000_0000_0000_0000
  const TWO63: nat := 0x8000_0000_0000_0000
  const TWO32: nat := 0x1_0000_0000
  const TWO31: nat := 0x8000_0000

  // What is assumed of softfloat_approxRecip32_1(x): never above 2^63/x and less than
  // 2.007 below it.
  predicate RecipOk(x: nat, r: nat) {
    r < TWO32 && r * x <= TWO63 && 1000 * TWO63 < (1000 * r + 2007) * x
  }

  predicate Significand(s: nat) { TWO112 <= s < TWO113 }

  // softfloat_approxRecip32_1 where 64-by-32-bit division is fast.
  lemma DivisionRecip(x: nat)
    requires TWO31 <= x < TWO32
    ensures RecipOk(x, (TWO63 - 1) / x)
  {
    var r := (TWO63 - 1) / x;
    assert r * x <= TWO63 - 1 < r * x + x;
    assert r >= TWO32 ==> r * x >= TWO63 by {
      if r >= TWO32 {
        MulLe(r, TWO31, x);
      }
    }
    assert (1000 * r + 2007) * x == 1000 * (r * x) + 2007 * x;
  }

  // The reciprocal of b's leading 32 bits against b's whole significand.
  lemma RecipError(sB: nat, r: nat)
    requires Significand(sB) && RecipOk(sB / TWO81, r)
    ensures TWO31 <= sB / TWO81 < TWO32
    ensures r * sB - TWO144 <= TWO113 && -2007 * sB < 1000 * (r * sB - TWO144)
  {
    var x := sB / TWO81;
    var low := sB - x * TWO81;
    assert 0 <= low < TWO81;
    assert r * sB == r * x * TWO81 + r * low by { Distribute(r, x, TWO81, low, sB); }
    assert r * low <= r * TWO81 by { MulLe(r, low, TWO81); }
    var k := 1000 * r + 2007;
    assert k * sB == k * x * TWO81 + k * low by { Distribute(k, x, TWO81, low, sB); }
    assert k * sB == 1000 * (r * sB) + 2007 * sB;
    assert k * low >= 0;
  }

  lemma Distribute(r: nat, x: nat, c: nat, low: nat, s: nat)
    requires s == x * c + low
    ensures r * s == r * x * c + r * low
  {
    assert r * (x * c + low) == r * (x * c) + r * low;
  }

  lemma MulLe(a: nat, b: nat, c: nat)
    requires b <= c
    ensures a * b <= a * c
  {
  }

  // The invariant of the estimate loop.
  ghost predicate Bounded(R: int, sB: nat, r: nat) {
    && 0 <= R < 3 * sB
    && (r * sB >= TWO144 ==> (r * sB - TWO144) * R <= sB * TWO114)
    && (r * sB < TWO144 ==> 100 * R < 201 * sB)
  }

  lemma BoundedAtFirst(sA: nat, sB: nat, r: nat)
    requires Significand(sA) && Significand(sB) && RecipOk(sB / TWO81, r)
    ensures Bounded(sA, sB, r)
  {
    RecipError(sB, r);
    var D := r * sB - TWO144;
    if D >= 0 {
      MulLe(sA, D, TWO113);
      assert D * sA == sA * D;
    }
  }

  // y * (r * sB - 2^144) is the part of an estimate's error due to the reciprocal. When
  // the reciprocal is high it is at most half a unit of the loop's estimate.
  lemma HighPart(R: int, sB: nat, D: nat, y: nat)
    requires D * R <= sB * TWO114 && y * TWO83 <= R
    ensures 0 <= y * D <= TWO31 * sB
  {
    assert D * (y * TWO83) <= D * R by { MulLe(D, y * TWO83, R); }
    assert y * D * TWO83 == D * (y * TWO83);
  }

  // When it is low the error is below 2.01 * 2.007 * sB^2 / 2^83, and sB^2 lies below its
  // chord on the significands.
  lemma LowPart(R: int, sB: nat, E: nat, y: nat)
    requires Significand(sB) && 0 <= R && 100 * R < 201 * sB && 1000 * E < 2007 * sB
    requires y * TWO83 <= R
    ensures 100 * (TWO144 + y * E) < 151 * (TWO32 * sB)
  {
    var Y := y * TWO83;
    assert Y * E == y * E * TWO83;
    Chord(sB, TWO112, TWO113);
    MulLe(Y, 1000 * E, 2007 * sB);
    MulLe(sB, 100 * Y, 201 * sB);
    assert Y * (1000 * E) == 1000 * (Y * E) && Y * (2007 * sB) == 2007 * (Y * sB);
    assert sB * (100 * Y) == 100 * (Y * sB) && sB * (201 * sB) == 201 * (sB * sB);
    LowPartLinear(sB, sB * sB, Y * sB, Y * E, y * E);
  }

  lemma Chord(s: int, a: int, b: int)
    requires a <= s <= b
    ensures s * s <= (a + b) * s - a * b
  {
    var t, u := s - a, b - s;
    assert t * u >= 0;
    assert t * u == t * b - t * s;
    assert t * b == s * b - a * b && t * s == s * s - a * s;
  }

  lemma LowPartLinear(sB: nat, S: int, YsB: int, YE: int, yE: int)
    requires Significand(sB) && S <= 3 * TWO112 * sB - 2 * TWO112 * TWO112
    requires YE == yE * TWO83 && 1000 * YE <= 2007 * YsB && 100 * YsB <= 201 * S
    ensures 100 * (TWO144 + yE) < 151 * (TWO32 * sB)
  {
  }

  lemma RecipPart(R: int, sB: nat, r: nat, y: nat)
    requires Significand(sB) && RecipOk(sB / TWO81, r) && Bounded(R, sB, r)
    requires y * TWO83 <= R
    ensures r * sB >= TWO144 ==> 0 <= y * (r * sB - TWO144) <= TWO31 * sB
    ensures r * sB >= TWO144 ==> TWO144 + (r * sB - TWO144) <= TWO32 * sB
    ensures r * sB < TWO144 ==> y * (r * sB - TWO144) <= 0
    ensures r * sB < TWO144 ==> 100 * (TWO144 - y * (r * sB - TWO144)) < 151 * (TWO32 * sB)
  {
    RecipError(sB, r);
    var D := r * sB - TWO144;
    if D >= 0 {
      HighPart(R, sB, D, y);
      MulLe(sB, r, TWO32);
    } else {
      LowPart(R, sB, -D, y);
      assert y * D == -(y * -D);
      assert y * -D >= 0;
    }
  }

  // How far the estimate q * c of the product P == y * r is from it, seen on R.
  lemma EstimateGap(R: int, sB: nat, r: nat, y: nat, q: nat, c: nat, e: nat)
    requires y * TWO83 <= R < (y + 1) * TWO83 && q * c <= y * r + e < q * c + c
    ensures var yD := y * (r * sB - TWO144); var cR := TWO61 * R - q * sB * c;
            -yD - e * sB <= cR && cR <= TWO144 - yD + c * sB - e * sB
  {
    var P, D := y * r, r * sB - TWO144;
    assert P * sB == y * (r * sB) == y * TWO144 + y * D;
    assert q * sB * c == q * c * sB;
    MulLe(sB, q * c, P + e);
    MulLe(sB, P + e, q * c + c);
    assert (P + e) * sB == P * sB + e * sB && (q * c + c) * sB == q * c * sB + c * sB;
  }

  // One round of the loop: the new remainder, corrected by one sB if negative, stays in
  // bounds, and every intermediate value fits its word.
  lemma LoopStep(R: int, sB: nat, r: nat, y: nat, q: nat, R': int)
    requires Significand(sB) && RecipOk(sB / TWO81, r) && Bounded(R, sB, r)
    requires y * TWO83 <= R < (y + 1) * TWO83 && q * TWO32 <= y * r + TWO31 < q * TWO32 + TWO32
    requires R' == R * 0x2000_0000 - q * sB
    ensures 0 <= R' + sB && R' < 3 * sB && Bounded(if R' < 0 then R' + sB else R', sB, r)
  {
    var D := r * sB - TWO144;
    RecipError(sB, r);
    RecipPart(R, sB, r, y);
    EstimateGap(R, sB, r, y, q, TWO32, TWO31);
    LoopBounds(R', sB, D, y * D);
    if D >= 0 {
      var R'' := if R' < 0 then R' + sB else R';
      MulLe(D, R'', (3 * sB + 1) / 2);
      MulLe((3 * sB + 1) / 2, D, TWO113);
    }
  }

  lemma LoopBounds(R': int, sB: nat, D: int, yD: int)
    requires Significand(sB)
    requires -yD - TWO31 * sB <= TWO32 * R' <= TWO144 - yD + TWO32 * sB - TWO31 * sB
    requires D >= 0 ==> 0 <= yD <= TWO31 * sB && TWO144 + D <= TWO32 * sB
    requires D < 0 ==> yD <= 0 && 100 * (TWO144 - yD) < 151 * (TWO32 * sB)
    ensures 0 <= R' + sB && R' < 3 * sB
    ensures D >= 0 ==> 2 * R' <= 3 * sB
    ensures D < 0 ==> 0 <= 2 * R' + sB && 100 * R' < 201 * sB
  {
  }

  // The last estimate, whose p == 2^k quotient bits are cut off instead of rounded.
  lemma LastStep(R: int, sB: nat, r: nat, y: nat, q: nat, p: nat, c: nat, R': int)
    requires Significand(sB) && RecipOk(sB / TWO81, r) && Bounded(R, sB, r)
    requires y * TWO83 <= R < (y + 1) * TWO83 && q * c <= y * r < q * c + c
    requires p * c == TWO61 && c >= TWO32 && R' == R * p - q * sB
    ensures 0 <= 2 * R' + sB && R' < 3 * sB
  {
    var D := r * sB - TWO144;
    RecipPart(R, sB, r, y);
    EstimateGap(R, sB, r, y, q, c, 0);
    MulLe(sB, TWO32, c);
    ScaledRemainder(R, sB, q, p, c, R');
    LastBounds(c, c * R', c * sB, sB, D, y * D);
    Cancel(c, R', sB);
  }

  lemma ScaledRemainder(R: int, sB: nat, q: nat, p: nat, c: nat, R': int)
    requires p * c == TWO61 && R' == R * p - q * sB
    ensures c * R' == TWO61 * R - q * sB * c
  {
    assert c * (R * p) == p * c * R;
    assert c * (q * sB) == q * sB * c;
    assert c * R' == c * (R * p) - c * (q * sB);
  }

  lemma Cancel(c: nat, x: int, s: nat)
    requires c > 0 && 0 <= 2 * (c * x) + c * s && c * x < 3 * (c * s)
    ensures 0 <= 2 * x + s && x < 3 * s
  {
    assert c * (2 * x + s) == 2 * (c * x) + c * s;
    assert c * (3 * s - x) == 3 * (c * s) - c * x;
    assert 2 * x + s < 0 ==> c * (2 * x + s) < 0;
    assert 3 * s - x <= 0 ==> c * (3 * s - x) <= 0;
  }

  lemma LastBounds(c: nat, cR: int, cS: nat, sB: nat, D: int, yD: int)
    requires Significand(sB) && cS >= TWO32 * sB
    requires -yD <= cR <= TWO144 - yD + cS
    requires D >= 0 ==> 0 <= yD <= TWO31 * sB && TWO144 + D <= TWO32 * sB
    requires D < 0 ==> yD <= 0 && 100 * (TWO144 - yD) < 151 * (TWO32 * sB)
    ensures 0 <= 2 * cR + cS && cR < 3 * cS
  {
  }

  lemma Scale(k: nat)
    requires 1 <= k <= 29
    ensures Pow2(k) * Pow2(61 - k) == TWO61 && Pow2(61 - k) >= TWO32
  {
    Pow2Add(k, 61 - k);
    Pow2Mono(32, 61 - k);
    Pow2Add(16, 16);
    Pow2Add(32, 29);
    Pow2Of29();
    Pow2Add(8, 8);
  }
}

module F128Rem {
  import opened Powers
  import opened Binary128
  import A = RemArith

  // ---- 128-bit words ----

  function Word(v: int): u128 { v % TWO128 }
  function Add128(a: u128, b: u128): u128 { Word(a + b) }
  function Sub128(a: u128, b: u128): u128 { Word(a - b) }
  function ShortShiftLeft128(a: u128, dist: nat): u128 { Word(a * Pow2(dist)) }
  function Mul128By32(a: u128, q: nat): u128 { Word(a * q) }
  predicate Negative(a: u128) { a >= TWO127 }

  // A word stands for an integer of the signed 128-bit range.
  ghost predicate Holds(w: u128, v: int) {
    w == Word(v) && 0 <= v + TWO127 < TWO128
  }

  lemma HoldsSign(w: u128, v: int)
    requires Holds(w, v)
    ensures Negative(w) <==> v < 0
    ensures w == if v < 0 then v + TWO128 else v
  {
  }

  lemma WordSum(a: int, b: int)
    ensures Word(Word(a) + Word(b)) == Word(a + b) && Word(Word(a) - Word(b)) == Word(a - b)
    ensures Word(Word(a) + b) == Word(a + b) && Word(Word(a) - b) == Word(a - b)
  {
    var qa, qb := a / TWO128, b / TWO128;
    Shifted(a + b, -qa - qb);
    Shifted(a - b, qb - qa);
    Shifted(a + b, -qa);
    Shifted(a - b, -qa);
  }

  lemma AddHolds(a: u128, v: int, b: u128)
    requires Holds(a, v) && 0 <= v + b + TWO127 && v + b < TWO127
    ensures Holds(Add128(a, b), v + b)
  {
    WordSum(v, b);
  }

  lemma SubHolds(a: u128, v: int, b: u128)
    requires Holds(a, v) && 0 <= v - b + TWO127 && v - b < TWO127
    ensures Holds(Sub128(a, b), v - b)
  {
    WordSum(v, b);
  }

  lemma Shifted(v: int, k: int)
    ensures Word(v + k * TWO128) == Word(v)
  {
    assert v + k * TWO128 == TWO128 * (v / TWO128 + k) + v % TWO128;
  }

  // ---- Choosing the nearest multiple ----

  // v is x minus the multiple n of y nearest it, ties going to even n.
  ghost predicate Nearest(x: int, y: nat, n: int, v: int) {
    v == x - n * y && Half(v, y) && (Tie(v, y) ==> n % 2 == 0)
  }

  predicate Half(v: int, y: nat) { 0 <= 2 * v + y && 2 * v <= y }
  predicate Tie(v: int, y: nat) { 2 * v + y == 0 || 2 * v == y }

  function Signed(neg: bool, sig: int): int { if neg then -sig else sig }

  // The subtract-until-negative loop and the selection after it. rem0 stands for R, and
  // q0 has the parity of the multiple already taken away.
  method SelectRem(rem0: u128, sB: u128, q0: nat, ghost R: int) returns (neg: bool, sig: u128, ghost n: int)
    requires 0 < sB < TWO127 / 8 && Holds(rem0, R) && 0 <= R + sB && R < 3 * sB
    ensures var v := Signed(neg, sig); v == R - n * sB && Half(v, sB) && (Tie(v, sB) ==> (q0 + n) % 2 == 0)
    ensures neg ==> sig > 0
  {
    hide Word, Holds, Add128, Sub128, Half, Tie, Negative, Left, Signed;
    Untouched(R, sB);
    var rem, q, altRem := rem0, q0, 0;
    ghost var v := R;   // what rem stands for
    n := 0;
    HoldsSign(rem, R);
    if Negative(rem) {
      altRem := Add128(rem, sB);
      AddHolds(rem, v, sB);
    } else {
      rem, altRem, q, n, v := SubtractDown(rem0, sB, q0, R);
    }
    ghost var kept;
    neg, sig, kept := PickNearer(rem, altRem, sB, q, v);
    Chosen(R, sB, n, v, kept, q, q0);
    n := if kept then n else n - 1;
  }

  // The do/while: rem is the first of R - sB, R - 2 * sB, ... below zero.
  method SubtractDown(rem0: u128, sB: u128, q0: nat, ghost R: int)
    returns (rem: u128, altRem: u128, q: nat, ghost n: int, ghost v: int)
    requires 0 < sB < TWO127 / 8 && Holds(rem0, R) && 0 <= R < 3 * sB
    ensures q == q0 + n && Left(R, sB, n, v)
    ensures Holds(rem, v) && Holds(altRem, v + sB) && v < 0 <= v + sB
  {
    hide Word, Holds, Add128, Sub128, Negative, Left;
    Untouched(R, sB);
    rem, altRem, q, n, v := rem0, 0, q0, 0, R;
    var more := true;
    while more
      invariant q == q0 + n && Left(R, sB, n, v) && Holds(rem, v) && 0 <= v + sB && v < 3 * sB
      invariant more ==> v >= 0
      invariant !more ==> v < 0 && Holds(altRem, v + sB)
      decreases v + sB, more
    {
      altRem := rem;
      q := q + 1;
      SubHolds(rem, v, sB);
      rem := Sub128(rem, sB);
      Step(R, sB, n, v);
      v, n := v - sB, n + 1;
      HoldsSign(rem, v);
      more := !Negative(rem);
    }
  }

  // Keeping the last remainder, or going back one step to an even multiple.
  lemma Chosen(R: int, sB: nat, n: int, v: int, kept: bool, q: int, q0: int)
    requires Left(R, sB, n, v) && q == q0 + n
    ensures var (m, z) := (if kept then n else n - 1, if kept then v else v + sB);
            z == R - m * sB && ((kept <==> q % 2 == 0) ==> (q0 + m) % 2 == 0)
  {
    hide Left;
    if !kept {
      StepBack(R, sB, n, v);
    }
    Taken(R, sB, if kept then n else n - 1, if kept then v else v + sB);
  }

  // v is what taking n multiples of sB from R leaves.
  ghost predicate Left(R: int, sB: nat, n: int, v: int) {
    v == R - n * sB
  }

  lemma Untouched(R: int, sB: nat)
    ensures Left(R, sB, 0, R)
  {
  }

  lemma Step(R: int, sB: nat, n: int, v: int)
    requires Left(R, sB, n, v)
    ensures Left(R, sB, n + 1, v - sB)
  {
  }

  lemma StepBack(R: int, sB: nat, n: int, v: int)
    requires Left(R, sB, n, v)
    ensures Left(R, sB, n - 1, v + sB)
  {
  }

  lemma Taken(R: int, sB: nat, n: int, v: int)
    requires Left(R, sB, n, v)
    ensures v == R - n * sB
  {
  }

  // selectRem: the smaller of rem and altRem = rem + sB, the even multiple on a tie.
  method PickNearer(rem0: u128, altRem: u128, sB: u128, q: nat, ghost v: int)
    returns (neg: bool, sig: u128, ghost kept: bool)
    requires 0 < sB < TWO127 / 8
    requires Holds(rem0, v) && Holds(altRem, v + sB) && 0 <= v + sB && v < 0
    ensures var z := if kept then v else v + sB;
            Signed(neg, sig) == z && Half(z, sB) && (Tie(z, sB) ==> (kept <==> q % 2 == 0))
    ensures neg ==> sig > 0
  {
    hide Word, Holds, Add128, Sub128;
    var rem := rem0;
    kept := true;
    ghost var z := v;
    AddBoth(rem, altRem, v, v + sB);
    var meanRem := Add128(rem, altRem);
    HoldsSign(meanRem, 2 * v + sB);
    if Negative(meanRem) || (meanRem == 0 && q % 2 == 1) {
      rem, kept, z := altRem, false, v + sB;
    }
    HoldsSign(rem, z);
    neg := Negative(rem);
    sig := rem;
    if neg {
      Negate(rem, z);
      sig := Sub128(0, rem);
    }
  }

  lemma AddBoth(a: u128, b: u128, v: int, w: int)
    requires Holds(a, v) && Holds(b, w) && 0 <= v + w + TWO127 && v + w < TWO127
    ensures Holds(Add128(a, b), v + w)
  {
    WordSum(v, w);
  }

  lemma Negate(a: u128, v: int)
    requires Holds(a, v) && v < 0
    ensures Sub128(0, a) == -v
  {
  }

  // ---- The estimate loop ----

  // Everything the loop's `for (;;)` computes until it breaks: q64 estimates the last
  // quotient bits, and R is sA * 2^(d - 30 - expDiff) less a multiple of sB.
  method Estimate(sA: nat, sB: nat, d: nat, r: nat)
    returns (rem: u128, q64: u64, expDiff: int, ghost R: nat, ghost N: int)
    requires A.Significand(sA) && A.Significand(sB) && d >= 1 && A.RecipOk(sB / A.TWO81, r)
    ensures -29 <= expDiff <= -1 && d - 30 - expDiff >= 0
    ensures rem == R && A.Bounded(R, sB, r) && q64 == R / A.TWO83 * r
    ensures R == sA * Pow2(d - 30 - expDiff) - N * sB
  {
    hide A.Bounded, A.RecipOk;
    rem, expDiff, R, N := sA, d - 30, sA, 0;
    A.BoundedAtFirst(sA, sB, r);
    while true
      invariant -29 <= expDiff && d - 30 - expDiff >= 0
      invariant rem == R && A.Bounded(R, sB, r)
      invariant R == sA * Pow2(d - 30 - expDiff) - N * sB
      decreases expDiff
    {
      LeadingBits(R, sB, r);
      var y := rem / TWO64 / 0x8_0000 % TWO32;   // (uint32_t)(rem.v64>>19)
      q64 := y * r;
      if expDiff < 0 {
        return;
      }
      ghost var taken;
      rem, taken := Reduce(rem, sB, r, q64);
      Advance(sA, sB, d - 30 - expDiff, N, taken, R);
      R, N := R * 0x2000_0000 - taken * sB, N * 0x2000_0000 + taken;
      expDiff := expDiff - 29;
    }
  }

  lemma LeadingBits(R: int, sB: nat, r: nat)
    requires A.Significand(sB) && A.Bounded(R, sB, r) && A.RecipOk(sB / A.TWO81, r)
    ensures R < TWO127 && R / A.TWO83 < TWO32 / 4 * 3 && r < TWO32
    ensures R / TWO64 / 0x8_0000 % TWO32 == R / A.TWO83
    ensures 0 <= R / A.TWO83 * r < TWO64 / 4 * 3
    ensures R / A.TWO83 * A.TWO83 <= R < (R / A.TWO83 + 1) * A.TWO83
  {
    var y := R / A.TWO83;
    A.MulLe(y, r, TWO32);
  }

  // One round: 29 more bits.
  method Reduce(rem0: u128, sB: nat, r: nat, q64: u64) returns (rem: u128, ghost taken: nat)
    requires A.Significand(sB) && A.RecipOk(sB / A.TWO81, r) && A.Bounded(rem0, sB, r) && q64 == rem0 / A.TWO83 * r
    ensures rem == rem0 * 0x2000_0000 - taken * sB && A.Bounded(rem, sB, r)
  {
    hide A.Bounded, A.RecipOk, Add128, Sub128;
    LeadingBits(rem0, sB, r);
    var q := (q64 + 0x8000_0000) / TWO32;
    taken := q;
    ghost var v := rem0 * 0x2000_0000 - q * sB;
    A.LoopStep(rem0, sB, r, rem0 / A.TWO83, q, v);
    rem := ShortShiftLeft128(rem0, 29);
    var term := Mul128By32(sB, q);
    TakeAway(rem0, 29, sB, q);
    Pow2Of29();
    rem := Sub128(rem, term);
    assert Holds(rem, v);
    HoldsSign(rem, v);
    if Negative(rem) {
      AddHolds(rem, v, sB);
      rem := Add128(rem, sB);
      HoldsSign(rem, v + sB);
      BackOne(rem0 * 0x2000_0000, q, sB);
      taken := q - 1;
    }
  }

  lemma BackOne(x: int, q: int, sB: nat)
    ensures x - (q - 1) * sB == x - q * sB + sB
    ensures x >= 0 && x - q * sB < 0 ==> q > 0
  {
    if x >= 0 && q <= 0 {
      assert -q * sB >= 0;
    }
  }

  lemma TakeAway(R: nat, dist: nat, sB: u128, q: nat)
    requires R < TWO128
    ensures Sub128(ShortShiftLeft128(R, dist), Mul128By32(sB, q)) == Word(R * Pow2(dist) - q * sB)
  {
    WordSum(R * Pow2(dist), sB * q);
    assert sB * q == q * sB;
  }

  lemma Advance(sA: nat, sB: nat, done: nat, N: int, taken: int, R: int)
    requires R == sA * Pow2(done) - N * sB
    ensures R * 0x2000_0000 - taken * sB == sA * Pow2(done + 29) - (N * 0x2000_0000 + taken) * sB
  {
    Pow2Add(done, 29);
    Pow2Of29();
    assert sA * (Pow2(done) * 0x2000_0000) == sA * Pow2(done) * 0x2000_0000;
    assert (N * 0x2000_0000 + taken) * sB == N * sB * 0x2000_0000 + taken * sB;
  }

  // The last, cut-off estimate of k = expDiff + 30 bits.
  method LastBits(rem0: u128, sB: nat, r: nat, q64: u64, k: nat) returns (rem: u128, q: nat, ghost v: int)
    requires A.Significand(sB) && A.RecipOk(sB / A.TWO81, r) && A.Bounded(rem0, sB, r) && q64 == rem0 / A.TWO83 * r
    requires 1 <= k <= 29
    ensures v == rem0 * Pow2(k) - q * sB && Holds(rem, v) && 0 <= 2 * v + sB && v < 3 * sB
  {
    hide A.Bounded, A.RecipOk;
    LeadingBits(rem0, sB, r);
    q := q64 / TWO32 / Pow2(29 - k);
    CutOff(q64, k);
    v := rem0 * Pow2(k) - q * sB;
    A.Scale(k);
    A.LastStep(rem0, sB, r, rem0 / A.TWO83, q, Pow2(k), Pow2(61 - k), v);
    rem := ShortShiftLeft128(rem0, k);
    var term := Mul128By32(sB, q);
    TakeAway(rem0, k, sB, q);
    rem := Sub128(rem, term);
  }

  // Shifting right by 32 and then by 29 - k is dividing by 2^(61 - k).
  lemma CutOff(P: nat, k: nat)
    requires 1 <= k <= 29
    ensures var q, c := P / TWO32 / Pow2(29 - k), Pow2(61 - k); q * c <= P < q * c + c
  {
    Pow2Add(32, 29 - k);
    Pow2Of112();
    TwoShifts(P, Pow2(29 - k), Pow2(61 - k));
  }

  lemma TwoShifts(P: nat, p: nat, c: nat)
    requires p > 0 && c == TWO32 * p
    ensures var q := P / TWO32 / p; q * c <= P < q * c + c
  {
    var h := P / TWO32;
    var q, t := h / p, h % p;
    assert h == p * q + t && 0 <= t < p;
    assert q * (TWO32 * p) == p * q * TWO32;
  }

  // ---- The remainder of two significands ----

  // The remainder of sA * 2^d by sB for d >= 0.
  method RemSig(sA: nat, sB: nat, d: nat, recip: nat -> nat) returns (neg: bool, sig: u128, ghost n: int)
    requires A.Significand(sA) && A.Significand(sB)
    requires forall x :: A.TWO31 <= x < A.TWO32 ==> A.RecipOk(x, recip(x))
    ensures Nearest(sA * Pow2(d), sB, n, Signed(neg, sig)) && (neg ==> sig > 0)
  {
    hide Nearest, Half, Tie, Pow2, Holds, Sub128, Signed;
    if d == 0 {
      var rem, q := sA, if sB <= sA then 1 else 0;
      if q == 1 {
        SubExact(rem, sB);
        rem := Sub128(rem, sB);
      }
      SmallHolds(rem);
      neg, sig, n := SelectRem(rem, sB, q, rem);
      NearestHere(sA, sB, q, n, Signed(neg, sig));
      n := q + n;
    } else {
      neg, sig, n := RemFar(sA, sB, d, recip(sB / A.TWO81));
    }
  }

  lemma SubExact(a: u128, b: u128)
    requires b <= a
    ensures Sub128(a, b) == a - b
  {
  }

  lemma SmallHolds(a: u128)
    requires a < TWO127
    ensures Holds(a, a)
  {
  }

  lemma NearestHere(sA: nat, sB: nat, q: nat, n: int, v: int)
    requires q <= 1 && v == (if q == 1 then sA - sB else sA) - n * sB && Half(v, sB) &&
              (Tie(v, sB) ==> (q + n) % 2 == 0)
    ensures Nearest(sA * Pow2(0), sB, q + n, v)
  {
    hide Half, Tie;
    Pow2Zero();
    Regroup(sA, q, n, sB);
  }

  lemma Regroup(x: int, a: int, b: int, sB: nat)
    ensures x - (a + b) * sB == x - a * sB - b * sB
  {
  }

  method RemFar(sA: nat, sB: nat, d: nat, r: nat) returns (neg: bool, sig: u128, ghost n: int)
    requires A.Significand(sA) && A.Significand(sB) && d >= 1 && A.RecipOk(sB / A.TWO81, r)
    ensures Nearest(sA * Pow2(d), sB, n, Signed(neg, sig)) && (neg ==> sig > 0)
  {
    hide A.Bounded, A.RecipOk, Half, Tie, Holds, Signed;
    var rem, q64, expDiff;
    ghost var R, N, v, j;
    rem, q64, expDiff, R, N := Estimate(sA, sB, d, r);
    var k := expDiff + 30;
    var q;
    rem, q, v := LastBits(rem, sB, r, q64, k);
    neg, sig, j := SelectRem(rem, sB, q, v);
    Total(sA, sB, d, k, N, R, q, j, v);
    n := N * Pow2(k) + q + j;
  }

  // The quotient found in parts, and its parity.
  lemma Total(sA: nat, sB: nat, d: nat, k: nat, N: int, R: int, q: int, j: int, v: int)
    requires 1 <= k <= d && R == sA * Pow2(d - k) - N * sB && v == R * Pow2(k) - q * sB
    ensures v - j * sB == sA * Pow2(d) - (N * Pow2(k) + q + j) * sB
    ensures (N * Pow2(k) + q + j) % 2 == (q + j) % 2
  {
    Pow2Add(d - k, k);
    Parts(sA, Pow2(d - k), Pow2(k), sB, N, R, q, j, v);
    EvenPart(N, Pow2(k - 1), q + j);
    assert N * Pow2(k) == 2 * (N * Pow2(k - 1));
  }

  lemma Parts(sA: int, P: int, p: int, sB: int, N: int, R: int, q: int, j: int, v: int)
    requires R == sA * P - N * sB && v == R * p - q * sB
    ensures v - j * sB == sA * (P * p) - (N * p + q + j) * sB
  {
    assert R * p == sA * P * p - N * sB * p;
    assert sA * (P * p) == sA * P * p;
    assert (N * p + q + j) * sB == N * p * sB + q * sB + j * sB;
    assert N * p * sB == N * sB * p;
  }

  lemma EvenPart(N: int, h: int, m: int)
    ensures (2 * (N * h) + m) % 2 == m % 2
  {
  }

  // There is one nearest multiple and one remainder.
  lemma NearestUnique(x: int, y: nat, n: int, v: int, m: int, w: int)
    requires y > 0 && Nearest(x, y, n, v) && Nearest(x, y, m, w)
    ensures n == m && v == w
  {
    assert (n - m) * y == n * y - m * y;
    AtMostOne(n - m, y, w - v);
  }

  lemma AtMostOne(k: int, y: nat, gap: int)
    requires y > 0 && k * y == gap && -(y as int) <= gap <= y
    ensures -1 <= k <= 1 && (k == 1 <==> gap == y) && (k == -1 <==> gap + y == 0)
  {
    if k >= 2 {
      A.MulLe(y, 2, k);
    }
  }

  lemma NearestScale(x: int, y: nat, n: int, v: int, c: nat)
    requires Nearest(x, y, n, v) && c > 0
    ensures Nearest(x * c, y * c, n, v * c)
  {
    assert n * y * c == n * (y * c);
    assert v * c == x * c - n * y * c;
    SignScale(2 * v + y, c);
    SignScale(y - 2 * v, c);
    assert (2 * v + y) * c == 2 * (v * c) + y * c;
    assert (y - 2 * v) * c == y * c - 2 * (v * c);
  }

  lemma SignScale(k: int, c: nat)
    requires k >= 0 && c > 0
    ensures k * c >= 0 && (k * c == 0 ==> k == 0)
  {
  }

  // ---- Floating-point numbers ----

  // softfloat_normSubnormalF128Sig: shift until the leading bit is bit 112.
  function Normalize(exp: int, sig: nat): (r: (int, nat))
    requires exp <= 1 && Pow2(1 - exp) <= sig < TWO113
    ensures A.Significand(r.1) && -111 <= r.0 <= exp
    ensures r.1 * Pow2(r.0 + 111) == sig * Pow2(exp + 111)
    decreases TWO113 - sig
  {
    NormalizeExp(exp, sig);
    if sig >= TWO112 then (exp, sig) else Normalize(exp - 1, 2 * sig)
  }

  lemma NormalizeExp(exp: int, sig: nat)
    requires exp <= 1 && Pow2(1 - exp) <= sig < TWO113
    ensures exp >= -111 && (sig < TWO112 ==> exp > -111)
    ensures sig < TWO112 ==> 2 * sig * Pow2(exp + 110) == sig * Pow2(exp + 111)
  {
    hide Pow2;
    Pow2Of112();
    Double(113);
    if exp > -111 {
      Double(exp + 111);
    }
    if exp < -111 {
      Pow2Mono(113, 1 - exp);
    }
  }

  // Exponent and significand, with its leading bit, of a finite number other than zero.
  function Unpack(a: F128): (r: (int, nat))
    requires IsFinite(a) && !IsZero(a)
    ensures A.Significand(r.1) && r.0 >= -111
  {
    if Exp(a) == 0 then Normalize(1, Frac(a)) else (Exp(a), TWO112 + Frac(a))
  }

  lemma UnpackMag(a: F128)
    requires IsFinite(a) && !IsZero(a)
    ensures Unpack(a).1 * Pow2(Unpack(a).0 + 111) == Mag(a) * TWO112
  {
    hide Pow2;
    Pow2Of112();
    Double(113);
    if Exp(a) != 0 {
      Pow2Add(Exp(a) - 1, 112);
      Associate(TWO112 + Frac(a), Pow2(Exp(a) - 1), Pow2(112));
    }
  }

  lemma Associate(a: int, b: int, c: int)
    ensures a * (b * c) == a * b * c
  {
  }

  // What f128_rem ends with: a propagated NaN, an invalid operation, a itself, or a call
  // of softfloat_normRoundPackToF128.
  datatype RemResult = PropagatedNaN | Invalid | Unchanged | Packed(sign: bool, exp: int, sig: u128)

  // The sign of the packed value against a's, its significand, and its unit.
  ghost predicate IsRemainder(a: F128, b: F128, sign: bool, exp: int, sig: u128, n: int)
    requires IsFinite(a) && IsFinite(b)
  {
    exp >= -112 && Nearest(Mag(a) * TWO112, Mag(b) * TWO112, n, Signed(sign != Sign(a), sig) * Pow2(exp + 112))
  }

  // f128_rem. On finite operands with b not zero the result is a - n * b, with a's sign
  // factored out, for the n nearest a / b, even on a tie. A zero remainder has a's sign.
  method F128Rem(a: F128, b: F128, recip: nat -> nat) returns (res: RemResult, ghost n: int)
    requires forall x :: A.TWO31 <= x < A.TWO32 ==> A.RecipOk(x, recip(x))
    ensures res == PropagatedNaN <==> IsNaN(a) || IsNaN(b)
    ensures res == Invalid <==> !IsNaN(a) && !IsNaN(b) && (IsInf(a) || IsZero(b))
    ensures IsFinite(a) && IsInf(b) ==> res == Unchanged
    ensures IsZero(a) && IsFinite(b) && !IsZero(b) ==> res == Unchanged
    ensures IsFinite(a) && IsFinite(b) && !IsZero(b) && res == Unchanged ==> Nearest(Mag(a), Mag(b), 0, Mag(a))
    ensures res.Packed? ==> IsFinite(a) && IsFinite(b) && !IsZero(b) && IsRemainder(a, b, res.sign, res.exp, res.sig, n)
    ensures res.Packed? && res.sig == 0 ==> res.sign == Sign(a)
  {
    hide Nearest, Mag, Pow2;
    n := 0;
    if Exp(a) == 0x7FFF {
      return if Frac(a) != 0 || (Exp(b) == 0x7FFF && Frac(b) != 0) then PropagatedNaN else Invalid, 0;
    }
    if Exp(b) == 0x7FFF {
      return if Frac(b) != 0 then PropagatedNaN else Unchanged, 0;
    }
    if IsZero(b) {
      return Invalid, 0;
    }
    if IsZero(a) {
      ZeroRem(a, b);
      return Unchanged, 0;
    }
    res, n := RemFinite(a, b, recip);
  }

  lemma ZeroRem(a: F128, b: F128)
    requires IsZero(a) && IsFinite(b)
    ensures Nearest(Mag(a), Mag(b), 0, Mag(a))
  {
  }

  method RemFinite(a: F128, b: F128, recip: nat -> nat) returns (res: RemResult, ghost n: int)
    requires IsFinite(a) && IsFinite(b) && !IsZero(a) && !IsZero(b)
    requires forall x :: A.TWO31 <= x < A.TWO32 ==> A.RecipOk(x, recip(x))
    ensures res == Unchanged || res.Packed?
    ensures res == Unchanged ==> Nearest(Mag(a), Mag(b), 0, Mag(a))
    ensures res.Packed? ==> IsRemainder(a, b, res.sign, res.exp, res.sig, n)
    ensures res.Packed? && res.sig == 0 ==> res.sign == Sign(a)
  {
    hide Nearest, Mag, A.RecipOk, Frac, Exp, Pow2, Unpack, IsZero, Half, Tie, Signed, Holds, Word;
    var (expA, sigA) := Unpack(a);
    var (expB, sigB) := Unpack(b);
    UnpackMag(a);
    UnpackMag(b);
    var expDiff := expA - expB;
    n := 0;
    if expDiff < -1 {
      FarSmaller(a, b);
      return Unchanged, 0;
    }
    var neg, sig;
    if expDiff == -1 {
      expB := expB - 1;
      neg, sig, n := RemJustSmaller(sigA, sigB, expA);
    } else {
      neg, sig, n := RemSig(sigA, sigB, expDiff, recip);
      AtLeast(sigA, sigB, expA, expB, neg, sig, n);
    }
    res := Packed(Sign(a) != neg, expB - 1, sig);
  }

  // a's exponent is one below b's: one comparison with 2 * sigB.
  method RemJustSmaller(sA: nat, sB: nat, ghost eA: int) returns (neg: bool, sig: u128, ghost n: int)
    requires A.Significand(sA) && A.Significand(sB) && eA >= -111
    ensures Nearest(sA * Pow2(eA + 111), sB * Pow2(eA + 112), n, Signed(neg, sig) * Pow2(eA + 111))
    ensures neg ==> sig > 0
  {
    hide Nearest, Pow2;
    neg, sig, n := SelectRem(sA, Add128(sB, sB), 0, sA);
    JustSmaller(sA, sB, eA, neg, sig, n);
  }

  lemma FarSmaller(a: F128, b: F128)
    requires IsFinite(a) && IsFinite(b) && !IsZero(a) && !IsZero(b) && Unpack(a).0 - Unpack(b).0 < -1
    ensures Nearest(Mag(a), Mag(b), 0, Mag(a))
  {
    var (eA, sA) := Unpack(a);
    var (eB, sB) := Unpack(b);
    UnpackMag(a);
    UnpackMag(b);
    Pow2Mono(eA + 113, eB + 111);
    assert Pow2(eA + 112) == 2 * Pow2(eA + 111) && Pow2(eA + 113) == 2 * Pow2(eA + 112);
    LessThanHalf(sA, sB, Pow2(eA + 111), Pow2(eB + 111), Mag(a), Mag(b));
  }

  lemma LessThanHalf(sA: nat, sB: nat, p: nat, P: nat, x: nat, y: nat)
    requires A.Significand(sA) && A.Significand(sB) && 0 < p && 4 * p <= P
    requires sA * p == x * TWO112 && sB * P == y * TWO112
    ensures 2 * x < y
  {
    A.MulLe(sB, 4 * p, P);
    Products(sA, sB, p);
    Compare(sA * p, p * sB, sB * P, x, y);
  }

  lemma Products(sA: nat, sB: nat, p: nat)
    requires sA < 2 * sB && 0 < p
    ensures sA * p < 2 * (p * sB) && sB * (4 * p) == 4 * (p * sB)
  {
    assert p * (2 * sB - sA) > 0;
  }

  lemma Compare(ap: nat, pb: nat, bP: nat, x: nat, y: nat)
    requires ap < 2 * pb && 4 * pb <= bP && ap == x * TWO112 && bP == y * TWO112
    ensures 2 * x < y
  {
  }

  lemma JustSmaller(sA: nat, sB: nat, eA: int, neg: bool, sig: u128, n: int)
    requires A.Significand(sA) && A.Significand(sB) && eA >= -111
    requires var v := Signed(neg, sig); v == sA - n * (2 * sB) && Half(v, 2 * sB) && (Tie(v, 2 * sB) ==> n % 2 == 0)
    ensures Nearest(sA * Pow2(eA + 111), sB * Pow2(eA + 112), n, Signed(neg, sig) * Pow2(eA + 111))
  {
    NearestScale(sA, 2 * sB, n, Signed(neg, sig), Pow2(eA + 111));
    assert sB * Pow2(eA + 112) == 2 * sB * Pow2(eA + 111);
  }

  lemma AtLeast(sA: nat, sB: nat, eA: int, eB: int, neg: bool, sig: u128, n: int)
    requires -111 <= eB <= eA && Nearest(sA * Pow2(eA - eB), sB, n, Signed(neg, sig))
    ensures Nearest(sA * Pow2(eA + 111), sB * Pow2(eB + 111), n, Signed(neg, sig) * Pow2(eB + 111))
  {
    hide Nearest, Pow2, Signed;
    Pow2Add(eA - eB, eB + 111);
    NearestScale(sA * Pow2(eA - eB), sB, n, Signed(neg, sig), Pow2(eB + 111));
    Associate(sA, Pow2(eA - eB), Pow2(eB + 111));
  }
}
