// Rounding to an integer in binary128: f128_roundToInt on two 64-bit limbs and
// f128M_roundToInt on four 32-bit words (section 5.9 of IEEE 754-2008).

module RoundArith {
  import opened Powers

  datatype Mode = NearEven | MinMag | Min | Max | NearMaxMag | Odd

  // n is the integer that `mode` rounds m/one to, for a number of the given sign.
  ghost predicate IsRounded(m: nat, one: nat, mode: Mode, sign: bool, n: nat) {
    Chosen(m, n * one, one, mode, sign, n % 2 == 0)
  }

  // x, a multiple of `one`, even or not, is the one that m goes to.
  ghost predicate Chosen(m: int, x: int, one: int, mode: Mode, sign: bool, even: bool) {
    match mode
    case NearEven =>
      && 0 <= 2 * (m - x) + one <= 2 * one
      && (2 * (m - x) + one == 0 || 2 * (m - x) + one == 2 * one ==> even)
    case NearMaxMag => 0 <= 2 * (m - x) + one < 2 * one
    case MinMag => x <= m < x + one
    case Min => if sign then x - one < m <= x else x <= m < x + one
    case Max => if sign then x <= m < x + one else x - one < m <= x
    case Odd => x == m || (!even && x - one < m < x + one)
  }

  // One integer only.
  lemma RoundedOne(m: nat, one: nat, mode: Mode, sign: bool, n: nat, n': nat)
    requires one > 0 && IsRounded(m, one, mode, sign, n) && IsRounded(m, one, mode, sign, n')
    ensures n == n'
  {
    if n < n' {
      RoundedNoLess(m, one, mode, sign, n, n');
    } else if n' < n {
      RoundedNoLess(m, one, mode, sign, n', n);
    }
  }

  lemma RoundedNoLess(m: nat, one: nat, mode: Mode, sign: bool, n: nat, n': nat)
    requires one > 0 && IsRounded(m, one, mode, sign, n) && n < n'
    ensures !IsRounded(m, one, mode, sign, n')
  {
    Apart(n, n', one);
    Apart(n + 1, n', one);
    ChosenOne(m, n * one, n' * one, one, mode, sign, n % 2 == 0, n' % 2 == 0);
  }

  lemma ChosenOne(m: int, x: int, x': int, one: int, mode: Mode, sign: bool, even: bool, even': bool)
    requires one > 0 && x + one <= x' && (x + 2 * one <= x' || even != even')
    requires Chosen(m, x, one, mode, sign, even)
    ensures !Chosen(m, x', one, mode, sign, even')
  {
  }

  lemma Apart(n: nat, n': nat, one: nat)
    ensures n < n' ==> n * one + one <= n' * one
    ensures (n + 1) * one == n * one + one
  {
    if n < n' {
      PositiveProduct(n' - n - 1, one);
      assert (n' - n - 1) * one == n' * one - n * one - one;
    }
  }

  lemma PositiveProduct(x: nat, w: nat)
    ensures x * w >= 0 && (x > 0 && w > 0 ==> x * w > 0)
  {
  }

  lemma ScaleRounded(m: nat, one: nat, mode: Mode, sign: bool, n: nat, w: nat)
    requires w > 0 && IsRounded(m, one, mode, sign, n)
    ensures m * w >= 0 && one * w >= 0 && IsRounded(m * w, one * w, mode, sign, n)
  {
    hide Chosen;
    PositiveProduct(m, w);
    PositiveProduct(one, w);
    Regroup(n, one, w);
    ScaleChosen(m, n * one, one, mode, sign, n % 2 == 0, w);
  }

  lemma Regroup(n: nat, one: nat, w: nat)
    ensures n * one * w == n * (one * w)
  {
  }

  lemma ScaleChosen(m: int, x: int, one: int, mode: Mode, sign: bool, even: bool, w: nat)
    requires w > 0 && Chosen(m, x, one, mode, sign, even)
    ensures Chosen(m * w, x * w, one * w, mode, sign, even)
  {
    ScaleLess(m, x, w);
    ScaleLess(m, x + one, w);
    ScaleLess(x - one, m, w);
    ScaleLess(2 * (m - x) + one, 0, w);
    ScaleLess(2 * (m - x) + one, 2 * one, w);
    assert (x + one) * w == x * w + one * w && (x - one) * w == x * w - one * w;
    assert (2 * (m - x) + one) * w == 2 * (m * w - x * w) + one * w && 2 * one * w == 2 * (one * w);
  }

  lemma ScaleLess(x: int, y: int, w: nat)
    requires w > 0
    ensures x < y <==> x * w < y * w
    ensures x == y <==> x * w == y * w
  {
    if x < y {
      PositiveProduct(y - x, w);
      assert (y - x) * w == y * w - x * w;
    } else if x > y {
      PositiveProduct(x - y, w);
      assert (x - y) * w == x * w - y * w;
    }
  }

  // t rounded to a multiple of p; `sticky` says that something below t was dropped.
  function RoundAt(t: nat, p: nat, sticky: bool, mode: Mode, sign: bool): nat
    requires p > 0
  {
    if RoundsUp(t / p, t % p, p, sticky, mode, sign) then t / p * p + p else t / p * p
  }

  predicate RoundsUp(q: nat, r: nat, p: nat, sticky: bool, mode: Mode, sign: bool) {
    match mode
    case NearEven => 2 * r > p || (2 * r == p && (sticky || q % 2 == 1))
    case NearMaxMag => 2 * r >= p
    case MinMag => false
    case Min => sign && (r != 0 || sticky)
    case Max => !sign && (r != 0 || sticky)
    case Odd => q % 2 == 0 && (r != 0 || sticky)
  }

  lemma RoundAtIsRounded(m: nat, p: nat, mode: Mode, sign: bool)
    requires p > 0
    ensures var z := RoundAt(m, p, false, mode, sign);
            z == z / p * p && IsRounded(m, p, mode, sign, z / p)
  {
    var q, r := m / p, m % p;
    assert m == q * p + r;
    assert (q + 1) * p == q * p + p;
    Quotient(q, p);
    Quotient(q + 1, p);
  }

  lemma Quotient(q: nat, p: nat)
    requires p > 0
    ensures q * p / p == q && q * p % p == 0
  {
    DivIs(q * p, p, q, 0);
  }

  lemma DivIs(x: nat, p: nat, q: nat, r: nat)
    requires x == q * p + r && r < p
    ensures x / p == q && x % p == r
  {
    var q', r' := x / p, x % p;
    assert x == q' * p + r';
    if q < q' {
      Apart(q, q', p);
    } else if q' < q {
      Apart(q', q, p);
    }
  }

  // Dropping the low part l of a word leaves a sticky bit.
  lemma DropLow(word: nat, unit: nat, l: nat, b: nat, t: nat, p: nat, mode: Mode, sign: bool)
    requires word == b * t + l && unit == b * p && l < b && p > 0
    requires mode.NearEven? || mode.NearMaxMag? ==> p % 2 == 0
    ensures unit > 0
    ensures RoundAt(word, unit, false, mode, sign) == b * RoundAt(t, p, l > 0, mode, sign)
  {
    hide RoundsUp, RoundAt;
    DropQuotient(word, unit, l, b, t, p);
    DropUp(l, b, t / p, t % p, p, word % unit, unit, mode, sign);
    DropStep(word, unit, t, p, b, l > 0, mode, sign);
  }

  lemma DropStep(word: nat, unit: nat, t: nat, p: nat, b: nat, sticky: bool, mode: Mode, sign: bool)
    requires p > 0 && unit == b * p && unit > 0 && word / unit == t / p
    requires RoundsUp(t / p, word % unit, unit, false, mode, sign) <==> RoundsUp(t / p, t % p, p, sticky, mode, sign)
    ensures RoundAt(word, unit, false, mode, sign) == b * RoundAt(t, p, sticky, mode, sign)
  {
    hide RoundsUp, RoundAt;
    var q := t / p;
    RoundAtIs(t, p, q, t % p, sticky, mode, sign);
    RoundAtIs(word, unit, q, word % unit, false, mode, sign);
    TimesUnit(b, q, p);
  }

  lemma RoundAtIs(t: nat, p: nat, q: nat, r: nat, sticky: bool, mode: Mode, sign: bool)
    requires p > 0 && t / p == q && t % p == r
    ensures RoundAt(t, p, sticky, mode, sign) == if RoundsUp(q, r, p, sticky, mode, sign) then q * p + p else q * p
  {
  }

  lemma TimesUnit(b: nat, q: nat, p: nat)
    ensures b * (q * p) == q * (b * p) && b * (q * p + p) == q * (b * p) + b * p
  {
  }

  lemma DropQuotient(word: nat, unit: nat, l: nat, b: nat, t: nat, p: nat)
    requires word == b * t + l && unit == b * p && l < b && p > 0
    ensures unit > 0 && word / unit == t / p && word % unit == b * (t % p) + l
  {
    var q, r := t / p, t % p;
    assert t == q * p + r;
    PositiveProduct(b, p);
    TimesUnit(b, q, p);
    assert b * (q * p + r) == b * (q * p) + b * r;
    Apart(r, p, b);
    assert b * r == r * b && b * p == p * b;
    DivIs(word, unit, q, b * r + l);
  }

  lemma DropUp(l: nat, b: nat, q: nat, r: nat, p: nat, R: nat, unit: nat, mode: Mode, sign: bool)
    requires R == b * r + l && unit == b * p && l < b && p > 0 && (mode.NearEven? || mode.NearMaxMag? ==> p % 2 == 0)
    ensures RoundsUp(q, R, unit, false, mode, sign) <==> RoundsUp(q, r, p, l > 0, mode, sign)
  {
    var h := p / 2;
    Compare(l, b, r, h);
    if p % 2 == 0 {
      assert b * (2 * h) == 2 * (b * h);
    }
    PositiveProduct(b, r);
  }

  lemma Compare(l: nat, b: nat, r: nat, h: nat)
    requires l < b
    ensures b * r + l > b * h <==> r > h || (r == h && l > 0)
    ensures b * r + l == b * h <==> r == h && l == 0
  {
    if r < h {
      Apart(r, h, b);
      assert b * r + b <= b * h;
    } else if r > h {
      Apart(h, r, b);
      assert b * h + b <= b * r;
    }
  }

  // Adding a multiple of 2p changes nothing else.
  lemma AddEven(m: nat, c: nat, p: nat, mode: Mode, sign: bool)
    requires p > 0
    ensures RoundAt(2 * c * p + m, p, false, mode, sign) == 2 * c * p + RoundAt(m, p, false, mode, sign)
  {
    var q, r := m / p, m % p;
    assert 2 * c * p + m == (2 * c + q) * p + r;
    DivIs(2 * c * p + m, p, 2 * c + q, r);
    assert (2 * c + q) * p == 2 * c * p + q * p;
  }

  lemma RoundAtBetween(m: nat, p: nat, lo: nat, hi: nat, mode: Mode, sign: bool)
    requires p > 0 && lo * p <= m < hi * p
    ensures lo * p <= RoundAt(m, p, false, mode, sign) <= hi * p
  {
    hide RoundsUp, RoundAt;
    RoundAtIs(m, p, m / p, m % p, false, mode, sign);
    assert m == m / p * p + m % p;
    QuotientBetween(m / p, m % p, p, lo, hi);
  }

  lemma QuotientBetween(q: nat, r: nat, p: nat, lo: nat, hi: nat)
    requires r < p && lo * p <= q * p + r < hi * p
    ensures lo * p <= q * p && q * p + p <= hi * p
  {
    Apart(q, lo, p);
    Apart(hi, q + 1, p);
    Apart(lo, q, p);
    Apart(q, hi, p);
  }

  // ---- The bit operations, p a power of two ----

  function AndNotBelow(x: nat, p: nat): nat    // x & ~(p - 1)
    requires p > 0
  {
    x - x % p
  }

  predicate HasBit(x: nat, p: nat)             // x & p
    requires p > 0
  {
    x / p % 2 == 1
  }

  function AndNotBit(x: nat, p: nat): (r: nat) // x & ~p; nothing if p was shifted out
    ensures r <= x
  {
    if p > 0 && HasBit(x, p) then Drop(x, p) else x
  }

  function Drop(x: nat, p: nat): (r: nat)
    requires p > 0 && HasBit(x, p)
    ensures r == x - p
  {
    assert x >= p by { if x < p { DivIs(x, p, 0, x); } }
    x - p
  }

  function OrBit(x: nat, p: nat): nat          // x | p
  {
    if p == 0 || HasBit(x, p) then x else x + p
  }

  lemma Below(x: nat, p: nat)
    requires p > 0
    ensures AndNotBelow(x, p) == x / p * p
  {
    assert x == x / p * p + x % p;
  }

  // The bit operations on the lowest limb of a word are those on the word.
  lemma LowerLimb(hi: nat, lo: nat, base: nat, p: nat, c: nat)
    requires p > 0 && p * c == base
    ensures (hi * base + lo) % p == lo % p
    ensures AndNotBelow(hi * base + lo, p) == hi * base + AndNotBelow(lo, p)
    ensures c % 2 == 0 ==> (HasBit(hi * base + lo, p) <==> HasBit(lo, p))
  {
    LimbQuotient(hi, lo, base, p, c);
    if c % 2 == 0 {
      EvenTimes(hi, c);
      EvenPart(hi * c, lo / p);
    }
  }

  lemma EvenPart(a: nat, q: nat)
    requires a % 2 == 0
    ensures (a + q) % 2 == q % 2
  {
  }

  lemma LimbSum(hi: nat, base: nat, p: nat, c: nat, q: nat)
    requires p * c == base
    ensures hi * base + q * p == (hi * c + q) * p
  {
    Regroup(hi, c, p);
    assert c * p == p * c;
    assert (hi * c + q) * p == hi * c * p + q * p;
  }

  lemma LimbQuotient(hi: nat, lo: nat, base: nat, p: nat, c: nat)
    requires p > 0 && p * c == base
    ensures (hi * base + lo) / p == hi * c + lo / p && (hi * base + lo) % p == lo % p
  {
    var q, r := Divided(lo, p);
    DivIs(lo, p, q, r);
    PositiveProduct(hi, c);
    LimbSum(hi, base, p, c, q);
    DivIs(hi * base + lo, p, hi * c + q, r);
  }

  lemma EvenTimes(x: nat, c: nat)
    requires c % 2 == 0
    ensures x * c % 2 == 0
  {
    assert x * c == 2 * (x * (c / 2)) by { assert x * (2 * (c / 2)) == 2 * (x * (c / 2)); }
  }

  lemma BitLimb(hi: nat, lo: nat, base: nat, p: nat, c: nat)
    requires p > 0 && p * c == base && c % 2 == 0
    ensures hi * base + AndNotBit(lo, p) == AndNotBit(hi * base + lo, p)
  {
    LowerLimb(hi, lo, base, p, c);
  }

  // A limb holds an even number of units, so a unit's bit can be set in it.
  lemma OrFits(x: nat, base: nat, p: nat, n: nat)
    requires p > 0 && n * p == base && n % 2 == 0 && x < base
    ensures OrBit(x, p) < base
  {
    if !HasBit(x, p) {
      OrRoom(x, x / p, x % p, p, n);
    }
  }

  lemma OrRoom(x: nat, q: nat, r: nat, p: nat, n: nat)
    requires x == q * p + r && r < p && x < n * p && n % 2 == 0 && q % 2 == 0
    ensures x + p < n * p
  {
    Apart(q + 1, n, p);
    Apart(q, n, p);
    Apart(n, q, p);
  }

  // Half a unit added, the rest cut off, and on a tie the last bit cleared.
  lemma NearBits(t: nat, p: nat, sticky: bool, sign: bool)
    requires p > 0 && p % 2 == 0
    ensures var t' := t + p / 2;
            && AndNotBelow(t', p) == RoundAt(t, p, sticky, NearMaxMag, sign)
            && AndNotBelow(if t' % p == 0 && !sticky then AndNotBit(t', p) else t', p)
               == RoundAt(t, p, sticky, NearEven, sign)
  {
    hide RoundAt, AndNotBit, AndNotBelow;
    var q, r := Divided(t, p);
    NearCut(t, q, r, p / 2, p, sticky, sign);
  }

  lemma Divided(t: nat, p: nat) returns (q: nat, r: nat)
    requires p > 0
    ensures t == q * p + r && r < p
  {
    q, r := t / p, t % p;
  }

  lemma NearCut(t: nat, q: nat, r: nat, h: nat, p: nat, sticky: bool, sign: bool)
    requires p == 2 * h && r < p && t == q * p + r
    ensures AndNotBelow(t + h, p) == RoundAt(t, p, sticky, NearMaxMag, sign)
    ensures AndNotBelow(if (t + h) % p == 0 && !sticky then AndNotBit(t + h, p) else t + h, p) ==
              RoundAt(t, p, sticky, NearEven, sign)
  {
    hide RoundAt, AndNotBit, AndNotBelow;
    NearAt(t, q, r, p, sticky, sign);
    HalfAdded(t, q, r, h, p);
    if r == h {
      TieCut(q + 1, p);
    }
  }

  lemma NearAt(t: nat, q: nat, r: nat, p: nat, sticky: bool, sign: bool)
    requires r < p && t == q * p + r
    ensures RoundAt(t, p, sticky, NearMaxMag, sign) == if 2 * r >= p then q * p + p else q * p
    ensures RoundAt(t, p, sticky, NearEven, sign)
            == if 2 * r > p || (2 * r == p && (sticky || q % 2 == 1)) then q * p + p else q * p
  {
    DivIs(t, p, q, r);
  }

  lemma HalfAdded(t: nat, q: nat, r: nat, h: nat, p: nat)
    requires p == 2 * h && r < p && t == q * p + r
    ensures AndNotBelow(t + h, p) == if r >= h then q * p + p else q * p
    ensures ((t + h) % p == 0 <==> r == h) && (r == h ==> t + h == (q + 1) * p == q * p + p)
  {
    if r < h {
      DivIs(t + h, p, q, r + h);
    } else {
      assert (q + 1) * p == q * p + p;
      DivIs(t + h, p, q + 1, r - h);
    }
  }

  // Clearing the last bit of a multiple.
  lemma TieCut(m: nat, p: nat)
    requires p > 0
    ensures m % 2 == 1 ==> m * p >= p
    ensures AndNotBelow(AndNotBit(m * p, p), p) == if m % 2 == 1 then m * p - p else m * p
  {
    Quotient(m, p);
    if m % 2 == 1 {
      Quotient(m - 1, p);
      assert (m - 1) * p == m * p - p;
    }
  }

  // All ones added and the rest cut off.
  lemma UpBits(t: nat, p: nat, sticky: bool, mode: Mode, sign: bool)
    requires p > 0 && (sticky ==> p % 2 == 0) && mode == if sign then Min else Max
    ensures AndNotBelow((if sticky then OrBit(t, 1) else t) + (p - 1), p) == RoundAt(t, p, sticky, mode, sign)
  {
    hide RoundAt, OrBit, AndNotBelow;
    var s := if sticky then OrBit(t, 1) else t;
    OrOne(t, p, sticky);
    UpAt(t, p, sticky, mode, sign);
    UpCut(t, s - t, p);
  }

  lemma UpCut(t: nat, d: nat, p: nat)
    requires p > 0 && t % p + d < p
    ensures AndNotBelow(t + d + (p - 1), p) == if t % p + d == 0 then t / p * p else t / p * p + p
  {
    hide AndNotBelow;
    CutUp(t / p, t % p + d, p);
    Below(t + d + (p - 1), p);
    assert t == t / p * p + t % p;
  }

  lemma UpAt(t: nat, p: nat, sticky: bool, mode: Mode, sign: bool)
    requires p > 0 && mode == if sign then Min else Max
    ensures RoundAt(t, p, sticky, mode, sign) == if t % p != 0 || sticky then t / p * p + p else t / p * p
  {
  }

  // Setting the lowest bit stays below the next unit.
  lemma OrOne(t: nat, p: nat, sticky: bool)
    requires p > 0 && (sticky ==> p % 2 == 0)
    ensures var r := t % p + ((if sticky then OrBit(t, 1) else t) - t);
            t % p <= r < p && (r == 0 <==> t % p == 0 && !sticky)
  {
    if sticky {
      SameParity(t, p);
      OrLowest(t);
      EvenRoom(t % p, p);
    }
  }

  lemma OrLowest(t: nat)
    ensures OrBit(t, 1) == if t % 2 == 1 then t else t + 1
  {
  }

  lemma EvenRoom(r: nat, p: nat)
    requires r < p && p % 2 == 0
    ensures r % 2 == 0 ==> r + 1 < p
  {
  }

  lemma SameParity(t: nat, p: nat)
    requires p > 0 && p % 2 == 0
    ensures t % p % 2 == t % 2
  {
    var q, r := Divided(t, p);
    DivIs(t, p, q, r);
    ParityAt(t, q, r, p / 2);
  }

  lemma ParityAt(t: nat, q: nat, r: nat, h: nat)
    requires t == q * (2 * h) + r
    ensures t % 2 == r % 2
  {
    assert q * (2 * h) == 2 * (q * h);
  }

  lemma CutUp(q: nat, r: nat, p: nat)
    requires r < p
    ensures (q * p + r + (p - 1)) / p == if r == 0 then q else q + 1
    ensures (q + 1) * p == q * p + p
  {
    if r == 0 {
      DivIs(q * p + r + (p - 1), p, q, p - 1);
    } else {
      DivIs(q * p + r + (p - 1), p, q + 1, r - 1);
    }
  }

  // The last bit set when anything was cut off.
  lemma OddBits(t: nat, p: nat, sticky: bool, sign: bool)
    requires p > 0
    ensures var cut := RoundAt(t, p, sticky, MinMag, sign);
            && cut == AndNotBelow(t, p)
            && RoundAt(t, p, sticky, Odd, sign) == if t % p != 0 || sticky then OrBit(cut, p) else cut
  {
    Below(t, p);
    Quotient(t / p, p);
  }

  // Nothing changes exactly when nothing was cut off.
  lemma RoundSame(t: nat, p: nat, mode: Mode, sign: bool)
    requires p > 0
    ensures RoundAt(t, p, false, mode, sign) == t <==> t % p == 0
  {
    assert t == t / p * p + t % p;
    if t % p == 0 {
      assert !RoundsUp(t / p, 0, p, false, mode, sign);
    }
  }
}

module RoundSpec {
  import opened Powers
  import opened Binary128
  import opened RoundArith

  // The magnitude of 1.
  ghost function One(): (one: nat)
    ensures one > 0
  {
    PositiveProduct(TWO112, Pow2(0x3FFE));
    TWO112 * Pow2(0x3FFE)
  }

  // z is a rounded to an integer: an infinity stays, and a number keeps its sign and
  // becomes the one integer that the mode chooses.
  ghost predicate RoundedToInt(a: F128, mode: Mode, z: F128) {
    if IsInf(a) then z == a
    else IsFinite(a) && IsFinite(z) && Sign(z) == Sign(a) &&
         exists n: nat :: IsRounded(Mag(a), One(), mode, Sign(a), n) && Mag(z) == n * One()
  }

  function Word(a: F128): nat { a.v64 * TWO64 + a.v0 }

  function Limbs(u: u128): F128 { F128(u / TWO64, u % TWO64) }

  function Pack(sign: bool, exp: nat, frac: nat): nat {
    (if sign then TWO127 else 0) + exp * TWO112 + frac
  }

  lemma WordIsPack(a: F128)
    ensures Word(a) == Pack(Sign(a), Exp(a), Frac(a)) && Limbs(Word(a)) == a
  {
    var s := if Sign(a) then 1 else 0;
    var e, f := a.v64 / TWO48 % 0x8000, a.v64 % TWO48;
    assert a.v64 == s * TWO63 + e * TWO48 + f;
  }

  lemma PackIs(z: F128, sign: bool, exp: nat, frac: nat)
    requires Word(z) == Pack(sign, exp, frac) && exp < 0x8000 && frac < TWO112
    ensures Sign(z) == sign && Exp(z) == exp && Frac(z) == frac
  {
    WordIsPack(z);
    assert Pack(Sign(z), Exp(z), Frac(z)) == Pack(sign, exp, frac);
    assert Exp(z) * TWO112 + Frac(z) < TWO127 && exp * TWO112 + frac < TWO127;
  }

  lemma OneIs(k: nat, e: nat)
    requires k + e == 0x406F && e > 0
    ensures One() == Pow2(k) * Pow2(e - 1)
  {
    hide Pow2;
    Pow2Of112();
    Pow2Add(112, 0x3FFE);
    Pow2Add(k, e - 1);
  }

  // What stands above the significand is an even multiple of the rounding unit.
  lemma EvenAbove(sign: bool, e: nat, k: nat) returns (c: nat)
    requires 0x3FFF <= e < 0x406F && k == 0x406F - e
    ensures Pack(sign, e - 1, 0) == 2 * c * Pow2(k)
  {
    hide Pow2;
    var above := (if sign then 0x8000 else 0) + e - 1;
    assert Pack(sign, e - 1, 0) == above * TWO112;
    Pow2Of112();
    if k == 112 {
      c := above / 2;
    } else {
      Pow2Add(k + 1, 111 - k);
      Double(k + 1);
      c := above * Pow2(111 - k);
      Arrange(above, Pow2(111 - k), Pow2(k));
    }
  }

  lemma Arrange(above: nat, x: nat, p: nat)
    ensures above * (2 * p * x) == 2 * (above * x) * p
  {
    assert above * (2 * p * x) == above * (2 * (x * p));
    assert 2 * (above * x) * p == 2 * (above * (x * p));
  }

  // Rounding the whole word rounds the number, the carry going into the exponent.
  lemma MiddleRounds(a: F128, mode: Mode, z: F128)
    requires 0x3FFF <= Exp(a) < 0x406F
    requires Word(z) == RoundAt(Word(a), Pow2(0x406F - Exp(a)), false, mode, Sign(a))
    ensures RoundedToInt(a, mode, z)
  {
    hide Pow2, RoundAt, IsRounded, Word, Pack;
    var e, k := Exp(a), 0x406F - Exp(a);
    var p, w, m := Pow2(k), Pow2(e - 1), TWO112 + Frac(a);
    var m' := RoundAt(m, p, false, mode, Sign(a));
    WordRounds(a, mode);
    SignificandRounds(m, k, mode, Sign(a));
    CarriedMag(z, Sign(a), e, m');
    assert Mag(a) == m * w && Mag(z) == m' * w;
    RoundAtIsRounded(m, p, mode, Sign(a));
    ScaleRounded(m, p, mode, Sign(a), m' / p, w);
    OneIs(k, e);
    Regroup(m' / p, p, w);
  }

  lemma WordRounds(a: F128, mode: Mode)
    requires 0x3FFF <= Exp(a) < 0x406F
    ensures var p := Pow2(0x406F - Exp(a));
            RoundAt(Word(a), p, false, mode, Sign(a))
            == Pack(Sign(a), Exp(a) - 1, RoundAt(TWO112 + Frac(a), p, false, mode, Sign(a)))
  {
    hide Pow2, RoundAt;
    var e, k := Exp(a), 0x406F - Exp(a);
    var c := EvenAbove(Sign(a), e, k);
    WordIsPack(a);
    AddEven(TWO112 + Frac(a), c, Pow2(k), mode, Sign(a));
  }

  // A significand may be rounded up to the next power of two.
  lemma CarriedMag(z: F128, sign: bool, e: nat, m: nat)
    requires 0 < e < 0x7FFE && TWO112 <= m <= TWO113 && Word(z) == Pack(sign, e - 1, m)
    ensures IsFinite(z) && Sign(z) == sign && Mag(z) == m * Pow2(e - 1)
  {
    hide Pow2;
    if m < TWO113 {
      PackIs(z, sign, e, m - TWO112);
    } else {
      PackIs(z, sign, e + 1, 0);
      Doubled(e);
    }
  }

  lemma Doubled(e: nat)
    requires e > 0
    ensures TWO112 * Pow2(e) == TWO113 * Pow2(e - 1)
  {
  }

  lemma SignificandRounds(m: nat, k: nat, mode: Mode, sign: bool)
    requires TWO112 <= m < TWO113 && k <= 112
    ensures TWO112 <= RoundAt(m, Pow2(k), false, mode, sign) <= TWO113
  {
    hide RoundAt, Pow2;
    Pow2Of112();
    Pow2Add(112 - k, k);
    var lo := Pow2(112 - k);
    assert 2 * lo * Pow2(k) == 2 * (lo * Pow2(k));
    RoundAtBetween(m, Pow2(k), lo, 2 * lo, mode, sign);
  }

  // Numbers below 1 against a half and 1.
  lemma SmallMag(a: F128)
    requires Exp(a) < 0x3FFF
    ensures Mag(a) < One() && (Mag(a) == 0 <==> IsZero(a))
    ensures 2 * Mag(a) >= One() <==> Exp(a) == 0x3FFE
    ensures 2 * Mag(a) == One() <==> Exp(a) == 0x3FFE && Frac(a) == 0
  {
    hide Pow2;
    var e := Exp(a);
    var h := Pow2(0x3FFD);
    HalfOne();
    if e == 0x3FFE {
      assert Mag(a) == TWO112 * h + Frac(a) * h by { assert (TWO112 + Frac(a)) * h == TWO112 * h + Frac(a) * h; }
      ScaleLess(Frac(a), TWO112, h);
      ScaleLess(0, Frac(a), h);
    } else {
      Pow2Mono(if e == 0 then 0 else e - 1, 0x3FFC);
      var q := Pow2(0x3FFC);
      BoundedMag(a, q);
      assert h == 2 * q by { Double(0x3FFD); }
    }
  }

  lemma HalfOne()
    ensures One() == 2 * (TWO112 * Pow2(0x3FFD))
  {
    hide Pow2;
    Double(0x3FFE);
  }

  lemma BoundedMag(a: F128, q: nat)
    requires IsFinite(a) && (if Exp(a) == 0 then 1 else Pow2(Exp(a) - 1)) <= q
    ensures Mag(a) < TWO113 * q && (Mag(a) == 0 <==> IsZero(a))
  {
    hide Pow2;
    if Exp(a) == 0 {
      assert Frac(a) < TWO113 * q;
    } else {
      var w := Pow2(Exp(a) - 1);
      ScaleLess(TWO112 + Frac(a), TWO113, w);
      ScaleLess(0, TWO112 + Frac(a), w);
    }
  }

  // Below 1 the result is 0 or 1 with the sign kept.
  lemma SmallRounds(a: F128, mode: Mode, z: F128, up: bool)
    requires Exp(a) < 0x3FFF && z == F128((if Sign(a) then TWO63 else 0) + (if up then 0x3FFF * TWO48 else 0), 0)
    requires match mode
             case NearEven => up <==> Exp(a) == 0x3FFE && Frac(a) != 0
             case NearMaxMag => up <==> Exp(a) == 0x3FFE
             case MinMag => !up
             case Min => up <==> Sign(a) && !IsZero(a)
             case Max => up <==> !Sign(a) && !IsZero(a)
             case Odd => up <==> !IsZero(a)
    ensures RoundedToInt(a, mode, z)
  {
    hide Pow2;
    SmallMag(a);
    var n := if up then 1 else 0;
    PackIs(z, Sign(a), if up then 0x3FFF else 0, 0);
    assert Mag(z) == n * One();
    assert IsRounded(Mag(a), One(), mode, Sign(a), n);
  }

  // From 2^112 on every number is an integer.
  lemma BigRounds(a: F128, mode: Mode)
    requires Exp(a) >= 0x406F && !IsNaN(a)
    ensures RoundedToInt(a, mode, a)
  {
    hide Pow2;
    if IsFinite(a) {
      var e := Exp(a);
      Pow2Of112();
      Pow2Add(112, 0x3FFE);
      Pow2Add(e - 1 - 0x406E, 0x406E);
      var n := (TWO112 + Frac(a)) * Pow2(e - 1 - 0x406E);
      Regroup(TWO112 + Frac(a), Pow2(e - 1 - 0x406E), One());
      assert Mag(a) == n * One();
      ExactRounded(n, One(), mode, Sign(a));
    }
  }

  lemma ExactRounded(n: nat, one: nat, mode: Mode, sign: bool)
    requires one > 0
    ensures n * one >= 0 && IsRounded(n * one, one, mode, sign, n)
  {
    PositiveProduct(n, one);
  }

  // The sign and the magnitude determine the number.
  lemma MagOne(a: F128, b: F128)
    requires IsFinite(a) && IsFinite(b) && Sign(a) == Sign(b) && Mag(a) == Mag(b)
    ensures a == b
  {
    hide Pow2;
    if Exp(a) < Exp(b) {
      MagLess(a, b);
    } else if Exp(b) < Exp(a) {
      MagLess(b, a);
    } else if Exp(a) > 0 {
      ScaleLess(TWO112 + Frac(a), TWO112 + Frac(b), Pow2(Exp(a) - 1));
    }
    WordIsPack(a);
    WordIsPack(b);
  }

  lemma MagLess(a: F128, b: F128)
    requires IsFinite(a) && IsFinite(b) && Exp(a) < Exp(b)
    ensures Mag(a) < Mag(b)
  {
    hide Pow2;
    var w := Pow2(Exp(b) - 1);
    assert Mag(b) == (TWO112 + Frac(b)) * w;
    assert Frac(b) * w >= 0 by { PositiveProduct(Frac(b), w); }
    assert (TWO112 + Frac(b)) * w == TWO112 * w + Frac(b) * w;
    if Exp(a) > 0 {
      Pow2Mono(Exp(a), Exp(b) - 1);
      Double(Exp(a));
      BoundedMag(a, Pow2(Exp(a) - 1));
    }
  }

  // There is one right result, so any two forms that are right agree.
  lemma RoundedToIntOne(a: F128, mode: Mode, z: F128, z': F128)
    requires RoundedToInt(a, mode, z) && RoundedToInt(a, mode, z')
    ensures z == z'
  {
    hide Pow2, IsRounded;
    if IsFinite(a) {
      var n: nat :| IsRounded(Mag(a), One(), mode, Sign(a), n) && Mag(z) == n * One();
      var n': nat :| IsRounded(Mag(a), One(), mode, Sign(a), n') && Mag(z') == n' * One();
      RoundedOne(Mag(a), One(), mode, Sign(a), n, n');
      MagOne(z, z');
    }
  }
}

module RoundToInt {
  import opened Powers
  import opened Binary128
  import opened RoundArith
  import opened RoundSpec

  // Rounding to odd is a build option; without it that mode truncates.
  function Built(mode: Mode, roundOdd: bool): Mode {
    if mode.Odd? && !roundOdd then MinMag else mode
  }

  // What the first stage of a mode does: rounding to odd truncates, then sets a bit.
  function Stage(mode: Mode): Mode { if mode.Odd? then MinMag else mode }

  // softfloat_add128
  function Add128(x: F128, y: F128): F128 { Limbs((Word(x) + Word(y)) % TWO128) }

  // Below 2^113 the word is far from overflow.
  lemma Headroom(a: F128)
    requires Exp(a) < 0x406F
    ensures a.v64 + TWO48 < TWO64 && Word(a) + TWO64 < TWO128
  {
    WordIsPack(a);
  }

  lemma LowUnit(k: nat) returns (c: nat)
    requires 1 <= k <= 64
    ensures Pow2(k) * c == TWO64 && Pow2(k) % 2 == 0 && Pow2(k) <= TWO64
    ensures k < 64 ==> c % 2 == 0 && Pow2(k) < TWO64
    ensures k == 64 ==> Pow2(k) == TWO64
  {
    hide Pow2;
    Pow2Of112();
    Pow2Add(k, 64 - k);
    Pow2Mono(k, 64);
    Double(k);
    c := Pow2(64 - k);
    if k < 64 {
      Pow2Mono(k, 63);
      Double(64);
      Double(64 - k);
    }
  }

  lemma Added(a: F128, y: u64)
    requires Exp(a) < 0x406F
    ensures Word(Add128(a, F128(0, y))) == Word(a) + y
  {
    Headroom(a);
  }

  lemma WordDivided(a: F128)
    ensures Word(a) / TWO64 == a.v64 && Word(a) % TWO64 == a.v0
  {
  }

  // Rounding to nearest at the limb boundary.
  lemma NearMiddle(a: F128, sign: bool)
    ensures RoundAt(Word(a), TWO64, false, NearMaxMag, sign) == (if TWO63 <= a.v0 then a.v64 + 1 else a.v64) * TWO64
    ensures RoundAt(Word(a), TWO64, false, NearEven, sign)
         == (if TWO63 < a.v0 then a.v64 + 1 else if a.v0 == TWO63 then AndNotBit(a.v64 + 1, 1) else a.v64) * TWO64
  {
    WordDivided(a);
    hide Word;
  }

  // The other modes only cut off.
  lemma CutBits(t: nat, p: nat, mode: Mode, sign: bool)
    requires p > 0 && (mode.MinMag? || mode.Odd? || (mode.Min? && !sign) || (mode.Max? && sign))
    ensures AndNotBelow(t, p) == RoundAt(t, p, false, Stage(mode), sign)
  {
    Below(t, p);
  }

  lemma MiddleCut(z: F128)
    ensures AndNotBelow(Word(z), TWO64) == z.v64 * TWO64
  {
  }

  lemma WordIs(z: F128)
    ensures Word(z) == z.v64 * TWO64 + z.v0
  {
  }

  lemma AndNotBelowLimb(lo: u64, p: nat)
    requires p > 0
    ensures 0 <= AndNotBelow(lo, p) < TWO64 && (p == TWO64 ==> AndNotBelow(lo, p) == 0)
  {
    Below(lo, p);
  }

  // Rounding to nearest inside the lower limb.
  lemma NearLow(a: F128, p: nat, c: nat)
    requires Exp(a) < 0x406F && 0 < p < TWO64 && p % 2 == 0 && p * c == TWO64 && c % 2 == 0
    ensures var z := Add128(a, F128(0, p / 2));
            && AndNotBelow(Word(z), p) == RoundAt(Word(a), p, false, NearMaxMag, Sign(a))
            && (z.v0 % p != 0 ==> AndNotBelow(Word(z), p) == RoundAt(Word(a), p, false, NearEven, Sign(a)))
            && (z.v0 % p == 0 ==>
                  AndNotBelow(Word(F128(z.v64, AndNotBit(z.v0, p))), p) ==
                  RoundAt(Word(a), p, false, NearEven, Sign(a)))
  {
    hide RoundAt, HasBit, AndNotBit, AndNotBelow, Add128, Word, Exp, Sign;
    var z := Add128(a, F128(0, p / 2));
    Added(a, p / 2);
    NearBits(Word(a), p, false, Sign(a));
    WordIs(z);
    WordIs(F128(z.v64, AndNotBit(z.v0, p)));
    LowerLimb(z.v64, z.v0, TWO64, p, c);
    BitLimb(z.v64, z.v0, TWO64, p, c);
  }

  // The branch for exponents from 0x402F to 0x406E: the last integer bit is in the lower
  // limb or the first above it.
  method RoundLow(a: F128, mode: Mode) returns (v64: u64, v0: u64, lastBitMask0: u64)
    requires 0x402F <= Exp(a) < 0x406F
    ensures v64 * TWO64 + v0 == RoundAt(Word(a), Pow2(0x406F - Exp(a)), false, Stage(mode), Sign(a))
    ensures lastBitMask0 == if Exp(a) == 0x402F then 0 else Pow2(0x406F - Exp(a))
    ensures Exp(a) == 0x402F ==> v0 == 0
  {
    hide Pow2, RoundAt, HasBit, AndNotBit, AndNotBelow, Add128, Word, Limbs, Exp, Sign;
    var exp := Exp(a);
    ghost var p := Pow2(0x406F - exp);
    ghost var c := LowUnit(0x406F - exp);
    Headroom(a);
    lastBitMask0 := Pow2(0x406F - exp) % TWO64;
    var roundBitsMask := if lastBitMask0 == 0 then TWO64 - 1 else lastBitMask0 - 1;
    var z := a;
    var roundNearEven := mode == NearEven;
    if roundNearEven || mode == NearMaxMag {
      if exp == 0x402F {
        if TWO63 <= z.v0 {
          z := F128(z.v64 + 1, z.v0);
          if roundNearEven && z.v0 == TWO63 {
            z := F128(AndNotBit(z.v64, 1), z.v0);
          }
        }
        NearMiddle(a, Sign(a));
        MiddleCut(z);
      } else {
        z := Add128(z, F128(0, lastBitMask0 / 2));
        NearLow(a, p, c);
        if roundNearEven && z.v0 % (roundBitsMask + 1) == 0 {
          z := F128(z.v64, AndNotBit(z.v0, lastBitMask0));
        }
      }
    } else if mode == if Sign(a) then Min else Max {
      z := Add128(z, F128(0, roundBitsMask));
      Added(a, roundBitsMask);
      UpBits(Word(a), p, false, mode, Sign(a));
    } else {
      CutBits(Word(a), p, mode, Sign(a));
    }
    WordIs(z);
    assert AndNotBelow(Word(z), p) == RoundAt(Word(a), p, false, Stage(mode), Sign(a));
    LowerLimb(z.v64, z.v0, TWO64, p, c);
    AndNotBelowLimb(z.v0, p);
    v64, v0 := z.v64, AndNotBelow(z.v0, roundBitsMask + 1);
  }

  // The branch for exponents from 0x3FFF to 0x402E: the last integer bit is in the upper
  // limb and the lower limb is a sticky bit.
  method RoundHigh(a: F128, mode: Mode) returns (v64: u64, lastBitMask64: u64)
    requires 0x3FFF <= Exp(a) < 0x402F
    ensures v64 * TWO64 == RoundAt(Word(a), Pow2(0x406F - Exp(a)), false, Stage(mode), Sign(a))
    ensures lastBitMask64 == Pow2(0x402F - Exp(a))
  {
    hide Pow2, RoundAt, HasBit, AndNotBit, AndNotBelow, OrBit, Exp, Sign, Word;
    ghost var p := HighUnit(0x402F - Exp(a));
    Headroom(a);
    lastBitMask64 := Pow2(0x402F - Exp(a));
    var roundBitsMask := lastBitMask64 - 1;
    var z := a.v64;
    NearBits(a.v64, p, a.v0 != 0, Sign(a));
    if mode == NearMaxMag {
      z := z + lastBitMask64 / 2;
    } else if mode == NearEven {
      z := z + lastBitMask64 / 2;
      if z % (roundBitsMask + 1) == 0 && a.v0 == 0 {
        z := AndNotBit(z, lastBitMask64);
      }
    } else if mode == if Sign(a) then Min else Max {
      UpBits(a.v64, p, a.v0 != 0, mode, Sign(a));
      OrOne(a.v64);
      z := (if a.v0 != 0 then OrBit(z, 1) else z) + roundBitsMask;
    } else {
      StickyCut(a.v64, p, a.v0 != 0, mode, Sign(a));
    }
    AndNotBelowLimb(z, p);
    v64 := AndNotBelow(z, roundBitsMask + 1);
    WordIs(a);
    DropLow(a.v64 * TWO64 + a.v0, TWO64 * p, a.v0, TWO64, a.v64, p, Stage(mode), Sign(a));
  }

  lemma HighUnit(k: nat) returns (p: nat)
    requires 1 <= k <= 48
    ensures p == Pow2(k) && p % 2 == 0 && p <= TWO48 && TWO64 * p == Pow2(k + 64)
  {
    hide Pow2;
    Pow2Of112();
    Double(k);
    Pow2Mono(k, 48);
    Pow2Add(k, 64);
    p := Pow2(k);
  }

  lemma OrOne(x: nat)
    ensures x <= OrBit(x, 1) <= x + 1
  {
  }

  lemma StickyCut(t: nat, p: nat, sticky: bool, mode: Mode, sign: bool)
    requires p > 0 && (mode.MinMag? || mode.Odd? || (mode.Min? && !sign) || (mode.Max? && sign))
    ensures AndNotBelow(t, p) == RoundAt(t, p, sticky, Stage(mode), sign)
  {
    Below(t, p);
  }

  // Setting the last integer bit in its limb sets it in the word.
  lemma OddLow(v64: nat, v0: nat, k: nat)
    requires 1 <= k < 64
    ensures v64 * TWO64 + OrBit(v0, Pow2(k)) == OrBit(v64 * TWO64 + v0, Pow2(k))
  {
    hide Pow2, HasBit;
    var c := LowUnit(k);
    LowerLimb(v64, v0, TWO64, Pow2(k), c);
  }

  lemma OddHigh(v64: nat, p: nat)
    requires p > 0
    ensures TWO64 * p > 0 && OrBit(v64, p) * TWO64 == OrBit(v64 * TWO64, TWO64 * p)
  {
    DropQuotient(v64 * TWO64, TWO64 * p, 0, TWO64, v64, p);
  }

  lemma OddRounds(a: F128, v64: u64, v0: u64, last64: u64, last0: u64)
    requires 0x3FFF <= Exp(a) < 0x406F
    requires v64 * TWO64 + v0 == RoundAt(Word(a), Pow2(0x406F - Exp(a)), false, MinMag, Sign(a))
    requires if Exp(a) > 0x402F then last64 == 0 && last0 == Pow2(0x406F - Exp(a))
             else last64 == Pow2(0x402F - Exp(a)) && last0 == 0 && v0 == 0
    ensures OrBit(v64, last64) < TWO64 && OrBit(v0, last0) < TWO64
    ensures Word(a) % Pow2(0x406F - Exp(a)) != 0 ==>
              OrBit(v64, last64) * TWO64 + OrBit(v0, last0) ==
              RoundAt(Word(a), Pow2(0x406F - Exp(a)), false, Odd, Sign(a))
  {
    hide Pow2, RoundAt, HasBit, Word, Exp, Sign;
    var k := 0x406F - Exp(a);
    OddBits(Word(a), Pow2(k), false, Sign(a));
    if k < 64 {
      var c := LowUnit(k);
      OrFits(v0, TWO64, Pow2(k), c);
      OddLow(v64, v0, k);
      NoBit(v64);
    } else {
      Pow2Add(64, k - 64);
      Pow2Of112();
      var c := LowUnit(if k == 64 then 64 else k - 64);
      if k == 64 {
        Pow2Zero();
        OrFits(v64, TWO64, 1, TWO64);
      } else {
        OrFits(v64, TWO64, last64, c);
      }
      OddHigh(v64, last64);
      NoBit(v0);
    }
  }

  lemma NoBit(x: nat)
    ensures OrBit(x, 0) == x
  {
  }

  // f128_roundToInt. The inexact flag is raised exactly when asked and the number changed.
  method RoundToInt(a: F128, mode: Mode, exact: bool, roundOdd: bool) returns (z: F128, inexact: bool)
    requires !IsNaN(a)
    ensures RoundedToInt(a, Built(mode, roundOdd), z)
    ensures mode != Odd || roundOdd ==> RoundedToInt(a, mode, z)
    ensures mode == Odd && !roundOdd ==> RoundedToInt(a, MinMag, z)
    ensures inexact <==> exact && z != a
  {
    hide Pow2, RoundAt, RoundedToInt, Word, IsZero;
    inexact := false;
    var exp := Exp(a);
    var v64, v0, lastBitMask64, lastBitMask0;
    if 0x402F <= exp {
      if 0x406F <= exp {
        BigRounds(a, Built(mode, roundOdd));
        return a, false;
      }
      v64, v0, lastBitMask0 := RoundLow(a, mode);
      lastBitMask64 := if lastBitMask0 == 0 then 1 else 0;
    } else {
      if exp < 0x3FFF {
        z, inexact := RoundBelowOne(a, mode, exact, roundOdd);
        return;
      }
      v0, lastBitMask0 := 0, 0;
      v64, lastBitMask64 := RoundHigh(a, mode);
    }
    Pow2Zero();
    StageSame(a, v64, v0, mode);
    if v64 != a.v64 || v0 != a.v0 {
      if mode == Odd && roundOdd {
        OddRounds(a, v64, v0, lastBitMask64, lastBitMask0);
        v64, v0 := OrBit(v64, lastBitMask64), OrBit(v0, lastBitMask0);
        StageSame(a, v64, v0, mode);
      }
      inexact := exact;
    }
    z := F128(v64, v0);
    WordIs(z);
    MiddleRounds(a, Built(mode, roundOdd), z);
  }

  // The limbs of a rounded word are those of a exactly when nothing was cut off.
  lemma StageSame(a: F128, v64: u64, v0: u64, mode: Mode)
    requires 0x3FFF <= Exp(a) < 0x406F
    ensures v64 * TWO64 + v0 == RoundAt(Word(a), Pow2(0x406F - Exp(a)), false, Stage(mode), Sign(a))
            || v64 * TWO64 + v0 == RoundAt(Word(a), Pow2(0x406F - Exp(a)), false, mode, Sign(a)) ==>
              (v64 == a.v64 && v0 == a.v0 <==> Word(a) % Pow2(0x406F - Exp(a)) == 0)
    ensures Word(a) % Pow2(0x406F - Exp(a)) == 0 ==>
              RoundAt(Word(a), Pow2(0x406F - Exp(a)), false, mode, Sign(a)) == Word(a)
  {
    hide Pow2, RoundAt;
    RoundSame(Word(a), Pow2(0x406F - Exp(a)), Stage(mode), Sign(a));
    RoundSame(Word(a), Pow2(0x406F - Exp(a)), mode, Sign(a));
  }

  // The branch for numbers below 1.
  method RoundBelowOne(a: F128, mode: Mode, exact: bool, roundOdd: bool) returns (z: F128, inexact: bool)
    requires Exp(a) < 0x3FFF
    ensures RoundedToInt(a, Built(mode, roundOdd), z)
    ensures inexact <==> exact && z != a
  {
    hide RoundedToInt, Sign, Exp, Frac, IsZero;
    SignBit(a);
    if a.v64 % TWO63 == 0 && a.v0 == 0 {
      SmallRounds(a, Built(mode, roundOdd), a, false);
      return a, false;
    }
    inexact := exact;
    var v64 := a.v64 - a.v64 % TWO63;
    match mode {
      case NearEven =>
        if Frac(a) != 0 && Exp(a) == 0x3FFE { v64 := v64 + 0x3FFF * TWO48; }
      case NearMaxMag =>
        if Exp(a) == 0x3FFE { v64 := v64 + 0x3FFF * TWO48; }
      case Min =>
        if v64 != 0 { v64 := TWO63 + 0x3FFF * TWO48; }
      case Max =>
        if v64 == 0 { v64 := 0x3FFF * TWO48; }
      case Odd =>
        if roundOdd { v64 := v64 + 0x3FFF * TWO48; }
      case MinMag =>
    }
    z := F128(v64, 0);
    SmallRounds(a, Built(mode, roundOdd), z, v64 % TWO63 != 0);
    NotBelowOne(a, z);
  }

  lemma SignBit(a: F128)
    ensures a.v64 - a.v64 % TWO63 == if Sign(a) then TWO63 else 0
    ensures IsZero(a) <==> a.v64 % TWO63 == 0 && a.v0 == 0
    ensures IsZero(a) ==> Exp(a) == 0
  {
  }

  // No number between 0 and 1 is 0 or 1.
  lemma NotBelowOne(a: F128, z: F128)
    requires Exp(a) < 0x3FFF && !IsZero(a) && z.v0 == 0 && z.v64 % TWO63 in {0, 0x3FFF * TWO48}
    ensures z != a
  {
  }
}
