// Truncating conversions of binary128 to 64-bit integers, in the two-limb and in the
// word-array form (section 5.8 of IEEE 754-2008).

module ConvertSpec {
  import opened Powers
  import opened Binary128
  import opened RoundArith
  import opened RoundSpec

  // The returned integer and the flags raised.
  datatype Converted = Converted(z: int, invalid: bool, inexact: bool)

  const I64_FROM_NAN: int := 0x7FFF_FFFF_FFFF_FFFF
  const I64_FROM_POS_OVERFLOW: int := 0x7FFF_FFFF_FFFF_FFFF
  const I64_FROM_NEG_OVERFLOW: int := -0x8000_0000_0000_0000
  const UI64_FROM_NAN: int := 0xFFFF_FFFF_FFFF_FFFF
  const UI64_FROM_POS_OVERFLOW: int := 0xFFFF_FFFF_FFFF_FFFF
  const UI64_FROM_NEG_OVERFLOW: int := 0

  function Whole(x: nat, y: nat): nat
    requires y > 0
  {
    x / y
  }

  function Left(x: nat, y: nat): nat
    requires y > 0
  {
    x % y
  }

  // The integer part of |a|.
  ghost function Trunc(a: F128): nat
    requires IsFinite(a)
  {
    Whole(Mag(a), One())
  }

  ghost predicate Fraction(a: F128)
    requires IsFinite(a)
  {
    Left(Mag(a), One()) != 0
  }

  function Signed(sign: bool, n: int): int { if sign then -n else n }

  // The truncated number if it fits, else the invalid flag and a substitute.
  ghost function ToSigned(a: F128, exact: bool): Converted {
    if IsFinite(a) && (Trunc(a) < TWO63 || (Sign(a) && Trunc(a) == TWO63)) then
      Converted(Signed(Sign(a), Trunc(a)), false, exact && Fraction(a))
    else
      Converted(if IsNaN(a) then I64_FROM_NAN
                else if Sign(a) then I64_FROM_NEG_OVERFLOW else I64_FROM_POS_OVERFLOW, true, false)
  }

  ghost function ToUnsigned(a: F128, exact: bool): Converted {
    if IsFinite(a) && (if Sign(a) then Trunc(a) == 0 else Trunc(a) < TWO64) then
      Converted(Trunc(a), false, exact && Fraction(a))
    else
      Converted(if IsNaN(a) then UI64_FROM_NAN
                else if Sign(a) then UI64_FROM_NEG_OVERFLOW else UI64_FROM_POS_OVERFLOW, true, false)
  }

  // The integer of lo .. hi nearest n.
  function Clamp(n: int, lo: int, hi: int): int {
    if n < lo then lo else if n > hi then hi else n
  }

  // Every number has as result the representable integer nearest its integer part, an
  // infinity the extreme of its sign and a NaN the largest. The flag says that this is not
  // the integer part.
  lemma SignedNearest(a: F128, exact: bool)
    ensures var (c, lo, hi) := (ToSigned(a, exact), -0x8000_0000_0000_0000, 0x7FFF_FFFF_FFFF_FFFF);
            && (IsNaN(a) ==> c.z == hi && c.invalid) && (IsInf(a) ==> c.z == (if Sign(a) then lo else hi) && c.invalid)
            && (IsFinite(a) ==>
                  var n := Signed(Sign(a), Trunc(a));
                  c.z == Clamp(n, lo, hi) && (c.invalid <==> n != c.z))
  {
    hide Trunc, Fraction;
  }

  lemma UnsignedNearest(a: F128, exact: bool)
    ensures var (c, hi) := (ToUnsigned(a, exact), 0xFFFF_FFFF_FFFF_FFFF);
            && (IsNaN(a) ==> c.z == hi && c.invalid) && (IsInf(a) ==> c.z == (if Sign(a) then 0 else hi) && c.invalid)
            && (IsFinite(a) ==>
                  var n := Signed(Sign(a), Trunc(a));
                  c.z == Clamp(n, 0, hi) && (c.invalid <==> n != c.z))
  {
    hide Trunc, Fraction;
  }

  lemma ClampNearest(n: int, lo: int, hi: int, m: int)
    requires lo <= m <= hi
    ensures lo <= Clamp(n, lo, hi) <= hi
    ensures var c := Clamp(n, lo, hi); (if n < c then c - n else n - c) <= (if n < m then m - n else n - m)
  {
  }

  // The significand with the implicit bit of a normal number.
  function Sig(a: F128): nat { if Exp(a) == 0 then Frac(a) else TWO112 + Frac(a) }

  lemma SigBelow(a: F128)
    ensures Sig(a) < TWO113
  {
  }

  // Below 2^112 the integer part is the significand shifted right.
  lemma TruncShift(a: F128)
    requires Exp(a) <= 0x406F
    ensures var p := Pow2(0x406F - Exp(a));
            Trunc(a) == Sig(a) / p && (Fraction(a) <==> Sig(a) % p != 0)
  {
    hide Pow2, One;
    var e, p := Exp(a), Pow2(0x406F - Exp(a));
    if e == 0 {
      SmallMag(a);
      Pow2Of112();
      Pow2Mono(113, 0x406F);
      Double(113);
      DivIs(Sig(a), p, 0, Sig(a));
      DivIs(Mag(a), One(), 0, Mag(a));
    } else {
      var w := Pow2(e - 1);
      OneIs(0x406F - e, e);
      DropQuotient(Mag(a), One(), 0, w, Sig(a), p);
      PositiveProduct(w, Sig(a) % p);
    }
  }

  // From 2^64 on nothing fits.
  lemma TruncBig(a: F128)
    requires IsFinite(a) && Exp(a) >= 0x403F
    ensures Trunc(a) >= TWO64
  {
    hide Pow2, One;
    var e, w := Exp(a), Pow2(Exp(a) - 1);
    Pow2Mono(0x403E, e - 1);
    Pow2Of112();
    Pow2Add(112, 0x403E);
    Pow2Add(64, 0x406E);
    OneIs(0x406E, 1);
    Pow2Zero();
    assert TWO112 * Pow2(0x403E) == TWO64 * One();
    ScaleUp(TWO112, Frac(a), Pow2(0x403E), w);
    AtLeast(Mag(a), One(), TWO64);
  }

  lemma ScaleUp(m: nat, f: nat, w: nat, w': nat)
    requires w <= w'
    ensures m * w <= (m + f) * w'
  {
    PositiveProduct(m, w' - w);
    PositiveProduct(f, w');
    assert m * (w' - w) == m * w' - m * w && (m + f) * w' == m * w' + f * w';
  }

  lemma AtLeast(x: nat, one: nat, n: nat)
    requires one > 0 && x >= n * one
    ensures x / one >= n
  {
    assert x == x / one * one + x % one;
    Apart(x / one + 1, n, one);
    Apart(x / one, n, one);
  }

  // Below 1.
  lemma TruncSmall(a: F128)
    requires Exp(a) < 0x3FFF
    ensures Trunc(a) == 0 && (Fraction(a) <==> !IsZero(a))
  {
    hide Pow2, One;
    SmallMag(a);
    DivIs(Mag(a), One(), 0, Mag(a));
  }

  // From 2^63 to 2^64.
  lemma TruncTop(a: F128)
    requires Exp(a) == 0x403E
    ensures Trunc(a) == (TWO112 + Frac(a)) / 0x2_0000_0000_0000 &&
              (Fraction(a) <==> (TWO112 + Frac(a)) % 0x2_0000_0000_0000 != 0)
    ensures TWO63 <= Trunc(a) < TWO64
  {
    hide Pow2;
    TruncShift(a);
    Pow2Of112();
    Double(49);
  }
}

module F128ToInt {
  import opened Powers
  import opened Binary128
  import opened RoundArith
  import opened RoundSpec
  import opened ConvertSpec

  // Significand of two limbs shifted right by 64 - n, the whole bits moved up from the
  // lower limb.
  lemma ShiftJoin(sig64: nat, sig0: u64, n: nat)
    requires 1 <= n <= 15
    ensures (sig64 * TWO64 + sig0) / Pow2(64 - n) == sig64 * Pow2(n) + sig0 / Pow2(64 - n)
    ensures (sig64 * TWO64 + sig0) % Pow2(64 - n) != 0 <==> sig0 * Pow2(n) % TWO64 != 0
  {
    hide Pow2;
    Pow2Of112();
    Pow2Add(64 - n, n);
    LimbQuotient(sig64, sig0, TWO64, Pow2(64 - n), Pow2(n));
    DropQuotient(sig0 * Pow2(n), TWO64, 0, Pow2(n), sig0, Pow2(64 - n));
    PositiveProduct(Pow2(n), sig0 % Pow2(64 - n));
  }

  // The same shifted right by 64 + s.
  lemma ShiftUpper(sig64: nat, sig0: u64, s: nat)
    ensures (sig64 * TWO64 + sig0) / Pow2(64 + s) == sig64 / Pow2(s)
    ensures (sig64 * TWO64 + sig0) % Pow2(64 + s) != 0 <==> sig0 != 0 || sig64 / Pow2(s) * Pow2(s) != sig64
  {
    hide Pow2;
    Pow2Of112();
    Pow2Add(64, s);
    DropQuotient(sig64 * TWO64 + sig0, Pow2(64 + s), sig0, TWO64, sig64, Pow2(s));
    assert sig64 == sig64 / Pow2(s) * Pow2(s) + sig64 % Pow2(s);
  }

  lemma MiddleJoin(a: F128)
    requires 0x402F < Exp(a) <= 0x403E
    ensures var (n, sig64) := (Exp(a) - 0x402F, TWO48 + a.v64 % TWO48);
            && Trunc(a) == sig64 * Pow2(n) + a.v0 / Pow2(64 - n)
            && (Fraction(a) <==> a.v0 * Pow2(n) % TWO64 != 0)
  {
    hide Pow2, Trunc, Fraction;
    TruncShift(a);
    ShiftJoin(TWO48 + a.v64 % TWO48, a.v0, Exp(a) - 0x402F);
  }

  lemma MiddleUpper(a: F128)
    requires 0x3FFF <= Exp(a) <= 0x402F
    ensures var (s, sig64) := (0x402F - Exp(a), TWO48 + a.v64 % TWO48);
            && Trunc(a) == sig64 / Pow2(s) <= sig64
            && (Fraction(a) <==> a.v0 != 0 || sig64 / Pow2(s) * Pow2(s) != sig64)
            && Trunc(a) > 0
  {
    hide Pow2, Trunc, Fraction;
    TruncShift(a);
    var s, sig64 := 0x402F - Exp(a), TWO48 + a.v64 % TWO48;
    ShiftUpper(sig64, a.v0, s);
    Pow2Of112();
    Pow2Mono(s, 48);
    AtLeast(sig64, Pow2(s), 1);
    QuotientBelow(sig64, Pow2(s));
  }

  lemma QuotientBelow(x: nat, p: nat)
    requires p > 0
    ensures x / p <= x
  {
    assert x == x / p * p + x % p;
    PositiveProduct(x / p, p - 1);
    assert x / p * p == x / p * (p - 1) + x / p;
  }

  lemma MiddleBound(a: F128)
    requires 0x402F < Exp(a) <= 0x403E
    ensures Trunc(a) < if Exp(a) == 0x403E then TWO64 else TWO63
    ensures Trunc(a) > 0
  {
    hide Pow2, Trunc, Fraction;
    if Exp(a) == 0x403E {
      TruncTop(a);
    } else {
      TruncShift(a);
      var k := 0x406F - Exp(a);
      Pow2Of112();
      Double(50);
      Double(49);
      Pow2Mono(50, k);
      Pow2Mono(k, 64);
      AtLeast(Sig(a), Pow2(k), 1);
      Under(Sig(a), Pow2(k), TWO63);
    }
  }

  lemma Under(x: nat, p: nat, n: nat)
    requires p > 0 && x < n * p
    ensures x / p < n
  {
    assert x == x / p * p + x % p;
    if x / p >= n {
      Apart(n, x / p, p);
    }
  }

  function Invalid64(a: F128): Converted {
    Converted(if Exp(a) == 0x7FFF && Frac(a) != 0 then I64_FROM_NAN
              else if Sign(a) then I64_FROM_NEG_OVERFLOW else I64_FROM_POS_OVERFLOW, true, false)
  }

  // f128_to_i64_r_minMag
  function ToI64(a: F128, exact: bool): Converted {
    var sign, exp, sig64, sig0 := Sign(a), Exp(a), a.v64 % TWO48, a.v0;
    var shiftDist := 0x402F - exp;
    if shiftDist < 0 then
      if shiftDist < -14 then
        if a.v64 == 0xC03E_0000_0000_0000 && sig0 < 0x2_0000_0000_0000 then
          Converted(-0x7FFF_FFFF_FFFF_FFFF - 1, false, exact && sig0 != 0)
        else
          Invalid64(a)
      else
        var negShiftDist := -shiftDist;
        var absZ := (TWO48 + sig64) * Pow2(negShiftDist) + sig0 / Pow2(64 - negShiftDist);
        Converted(if sign then -absZ else absZ, false, exact && sig0 * Pow2(negShiftDist) % TWO64 != 0)
    else if 49 <= shiftDist then
      Converted(0, false, exact && (exp != 0 || sig64 != 0 || sig0 != 0))
    else
      var absZ := (TWO48 + sig64) / Pow2(shiftDist);
      Converted(if sign then -absZ else absZ, false, exact && (sig0 != 0 || absZ * Pow2(shiftDist) != TWO48 + sig64))
  }

  // The two-limb form truncates as it should.
  lemma ToI64Truncates(a: F128, exact: bool)
    ensures ToI64(a, exact) == ToSigned(a, exact)
  {
    hide Pow2, Trunc, Fraction;
    if Exp(a) >= 0x403F {
      if IsFinite(a) {
        TruncBig(a);
      }
    } else if Exp(a) == 0x403E {
      TruncTop(a);
      TopPattern(a);
    } else if Exp(a) > 0x402F {
      MiddleJoin(a);
      MiddleBound(a);
    } else if Exp(a) < 0x3FFF {
      TruncSmall(a);
    } else {
      MiddleUpper(a);
    }
  }

  // -2^63 and what is truncated to it.
  lemma TopPattern(a: F128)
    requires Exp(a) == 0x403E
    ensures (TWO112 + Frac(a)) / 0x2_0000_0000_0000 == TWO63 <==> a.v64 % TWO48 == 0 && a.v0 < 0x2_0000_0000_0000
    ensures a.v64 % TWO48 == 0 ==> (TWO112 + Frac(a)) % 0x2_0000_0000_0000 == a.v0 % 0x2_0000_0000_0000
    ensures a.v64 == 0xC03E_0000_0000_0000 <==> Sign(a) && a.v64 % TWO48 == 0
  {
  }

  function InvalidU64(a: F128): Converted {
    Converted(if Exp(a) == 0x7FFF && Frac(a) != 0 then UI64_FROM_NAN
              else if Sign(a) then UI64_FROM_NEG_OVERFLOW else UI64_FROM_POS_OVERFLOW, true, false)
  }

  // f128_to_ui64_r_minMag
  function ToUI64(a: F128, exact: bool): Converted {
    var sign, exp, sig64, sig0 := Sign(a), Exp(a), a.v64 % TWO48, a.v0;
    var shiftDist := 0x402F - exp;
    if shiftDist < 0 then
      if sign || shiftDist < -15 then
        InvalidU64(a)
      else
        var negShiftDist := -shiftDist;
        var z := (TWO48 + sig64) * Pow2(negShiftDist) + sig0 / Pow2(64 - negShiftDist);
        Converted(z, false, exact && sig0 * Pow2(negShiftDist) % TWO64 != 0)
    else if 49 <= shiftDist then
      Converted(0, false, exact && (exp != 0 || sig64 != 0 || sig0 != 0))
    else if sign then
      InvalidU64(a)
    else
      var z := (TWO48 + sig64) / Pow2(shiftDist);
      Converted(z, false, exact && (sig0 != 0 || z * Pow2(shiftDist) != TWO48 + sig64))
  }

  lemma ToUI64Truncates(a: F128, exact: bool)
    ensures ToUI64(a, exact) == ToUnsigned(a, exact)
  {
    hide Pow2, Trunc, Fraction;
    if Exp(a) >= 0x403F {
      if IsFinite(a) {
        TruncBig(a);
      }
    } else if Exp(a) > 0x402F {
      MiddleJoin(a);
      MiddleBound(a);
    } else if Exp(a) < 0x3FFF {
      TruncSmall(a);
    } else {
      MiddleUpper(a);
    }
  }
}

module F128MToInt {
  import opened Powers
  import opened Words
  import opened Binary128
  import opened RoundArith
  import opened RoundSpec
  import opened WordArrays
  import opened ConvertSpec
  import F128ToInt

  // A right shift whose last bit also says whether a bit was shifted out.
  function Jam(x: nat, dist: nat): nat {
    var q := x / Pow2(dist);
    if x % Pow2(dist) != 0 && q % 2 == 0 then q + 1 else q
  }

  // softfloat_shiftRightJam128M in place, as exact arithmetic.
  method ShiftRightJam128M(sig: array<u32>, dist: nat)
    requires sig.Length == 4 && dist > 0
    modifies sig
    ensures Value(sig[..]) == Jam(old(Value(sig[..])), dist)
  {
    hide Value, Jam;
    JamBelow(sig[..], dist);
    var x := Jam(Value(sig[..]), dist);
    var words := WordsOf(x);
    sig[0], sig[1], sig[2], sig[3] := words[0], words[1], words[2], words[3];
    assert sig[..] == words;
  }

  function WordsOf(x: u128): (s: seq<u32>)
    ensures |s| == 4 && Value(s) == x
  {
    var s := [x % TWO32, x / TWO32 % TWO32, x / TWO64 % TWO32, x / TWO64 / TWO32];
    ValueOf4(s);
    TwoDigits(x / TWO64);
    TwoDigits(x % TWO64);
    SplitWord(x);
    s
  }

  lemma TwoDigits(y: u64)
    ensures y == y % TWO32 + TWO32 * (y / TWO32) && y / TWO32 < TWO32
  {
  }

  lemma SplitWord(x: u128)
    ensures x == x % TWO64 + TWO64 * (x / TWO64) && x / TWO64 < TWO64
    ensures x % TWO64 % TWO32 == x % TWO32 && x % TWO64 / TWO32 == x / TWO32 % TWO32
  {
  }

  lemma JamBelow(s: seq<u32>, dist: nat)
    requires |s| == 4 && dist > 0
    ensures Jam(Value(s), dist) < TWO128
  {
    hide Value, Pow2, Unit;
    ValueBelow(s);
    UnitOf4();
    Pow2Mono(1, dist);
    var x, p := Value(s), Pow2(dist);
    assert p >= 2 by { Double(1); Pow2Zero(); }
    assert x == x / p * p + x % p;
    PositiveProduct(x / p, p - 2);
    assert x / p * p == x / p * (p - 2) + 2 * (x / p);
  }

  // 32 more bits below the point are enough to see the fraction.
  lemma JamFraction(x: nat, d: nat)
    ensures Jam(x, d) / TWO32 == x / Pow2(d + 32)
    ensures Jam(x, d) % TWO32 != 0 <==> x % Pow2(d + 32) != 0
  {
    hide Pow2;
    var p := Pow2(d);
    Pow2Of112();
    Pow2Add(d, 32);
    DropQuotient(p * (x / p) + x % p, p * TWO32, x % p, p, x / p, TWO32);
    assert x == p * (x / p) + x % p;
    PositiveProduct(p, x / p % TWO32);
    JamQuotient(x / p, x % p != 0);
  }

  lemma JamQuotient(q: nat, more: bool)
    ensures var j := if more && q % 2 == 0 then q + 1 else q;
            j / TWO32 == q / TWO32 && (j % TWO32 != 0 <==> more || q % TWO32 != 0)
  {
  }

  // The low three words and the exponent's word as a significand.
  lemma SigWords(s: seq<u32>)
    requires |s| == 4
    ensures Sig(Number(s)) ==
              Value([s[0], s[1], s[2], s[3] % 0x1_0000 + if s[3] / 0x1_0000 % 0x8000 != 0 then 0x1_0000 else 0])
  {
    TopWord(s);
    ValueOf4([s[0], s[1], s[2], s[3] % 0x1_0000 + if s[3] / 0x1_0000 % 0x8000 != 0 then 0x1_0000 else 0]);
  }

  // The words below the point and the 64 bits above it.
  lemma JamWords(s: seq<u32>)
    requires |s| == 4 && Value(s) < 0x1_0000_0000_0000_0000_0000_0000
    ensures s[2] * TWO32 + s[1] == Value(s) / TWO32 && s[0] == Value(s) % TWO32
  {
    ValueOf4(s);
  }

  // The significand shifted until word 0 is all fraction.
  method Shifted(a: array<u32>, exp: nat, sig96: nat) returns (uiZ: nat, low: u32)
    requires a.Length == 4 && exp <= 0x403E && exp == Exp(Number(a[..]))
    requires sig96 == a[3] % 0x1_0000
    ensures uiZ == Trunc(Number(a[..])) && (low != 0 <==> Fraction(Number(a[..])))
  {
    hide Pow2, Value, Trunc, Fraction, Exp, Number, Jam, Sig;
    TopWord(a[..]);
    SigWords(a[..]);
    SigBelow(Number(a[..]));
    var sig := new u32[4];
    sig[3] := sig96 + if exp != 0 then 0x1_0000 else 0;
    sig[2], sig[1], sig[0] := a[2], a[1], a[0];
    assert sig[..] == [a[0], a[1], a[2], a[3] % 0x1_0000 + if a[3] / 0x1_0000 % 0x8000 != 0 then 0x1_0000 else 0];
    var shiftDist := 0x403E - exp;
    JamFraction(Sig(Number(a[..])), shiftDist + 17);
    JamSmall(Sig(Number(a[..])), shiftDist + 17);
    TruncShift(Number(a[..]));
    ShiftRightJam128M(sig, shiftDist + 17);
    JamWords(sig[..]);
    uiZ := sig[2] * TWO32 + sig[1];
    low := sig[0];
  }

  lemma JamSmall(x: nat, d: nat)
    requires x < TWO113 && d >= 17
    ensures Jam(x, d) < 0x1_0000_0000_0000_0000_0000_0000
  {
    hide Pow2;
    Pow2Of16();
    Double(17);
    Pow2Mono(17, d);
    var p := Pow2(d);
    assert x == x / p * p + x % p;
    PositiveProduct(x / p, p - 0x2_0000);
    assert x / p * p == x / p * (p - 0x2_0000) + 0x2_0000 * (x / p);
  }

  // The 63 bits of the fraction's top words.
  function Top63(sig96: nat, word2: nat, word1: nat): nat {
    sig96 * 0x8000_0000_0000 + word2 * 0x8000 + word1 / 0x2_0000
  }

  lemma Top63Is(s: seq<u32>)
    requires |s| == 4
    ensures var frac := Top63(s[3] % 0x1_0000, s[2], s[1]);
            frac < TWO63 &&
            TWO112 + Frac(Number(s)) == 0x2_0000_0000_0000 * (TWO63 + frac) + (s[1] % 0x2_0000 * TWO32 + s[0])
  {
    hide Number, Frac;
    TopWord(s);
  }

  // The same without looking at the low bits, for normal numbers at least 1.
  lemma DirectShift(s: seq<u32>)
    requires |s| == 4 && 0x3FFF <= Exp(Number(s)) <= 0x403E
    ensures var (frac, d) := (Top63(s[3] % 0x1_0000, s[2], s[1]), 0x403E - Exp(Number(s)));
            frac < TWO63 && Trunc(Number(s)) == (TWO63 + frac) / Pow2(d)
  {
    hide Pow2, Trunc, Exp, Frac, Top63, Number;
    var a := Number(s);
    var d := 0x403E - Exp(a);
    TruncShift(a);
    Top63Is(s);
    Pow2Of49();
    Pow2Add(49, d);
    var low := s[1] % 0x2_0000 * TWO32 + s[0];
    DropQuotient(TWO112 + Frac(a), Pow2(49 + d), low, 0x2_0000_0000_0000, TWO63 + Top63(s[3] % 0x1_0000, s[2], s[1]),
      Pow2(d));
  }

  lemma Pow2Of49()
    ensures Pow2(49) == 0x2_0000_0000_0000
  {
    hide Pow2;
    Pow2Of112();
    Double(49);
  }

  function InvalidI64M(s: seq<u32>, exp: nat, sig96: nat, sign: bool): Converted
    requires |s| == 4
  {
    Converted(if exp == 0x7FFF && (sig96 != 0 || s[2] != 0 || s[1] != 0 || s[0] != 0) then I64_FROM_NAN
              else if sign then I64_FROM_NEG_OVERFLOW else I64_FROM_POS_OVERFLOW, true, false)
  }

  // The 64 bits of a two's complement integer.
  function AsI64(u: nat): int
    requires u < TWO64
  {
    if u < TWO63 then u else u - TWO64
  }

  lemma Negated(sign: bool, uiZ: nat)
    requires uiZ <= TWO63 && (uiZ == TWO63 ==> sign)
    ensures AsI64(if sign then (TWO64 - uiZ) % TWO64 else uiZ) == Signed(sign, uiZ)
  {
  }

  lemma FitsSigned(a: F128, exact: bool)
    requires IsFinite(a)
    ensures Trunc(a) < TWO63 || (Sign(a) && Trunc(a) == TWO63) ==>
              ToSigned(a, exact) == Converted(Signed(Sign(a), Trunc(a)), false, exact && Fraction(a))
  {
    hide Trunc, Fraction, Signed;
  }

  lemma FailsSigned(s: seq<u32>, exact: bool)
    requires |s| == 4
    requires IsFinite(Number(s)) ==> Trunc(Number(s)) > TWO63 || (!Sign(Number(s)) && Trunc(Number(s)) == TWO63)
    ensures ToSigned(Number(s), exact)
         == InvalidI64M(s, s[3] / 0x1_0000 % 0x8000, s[3] % 0x1_0000, s[3] >= 0x8000_0000)
  {
    hide Trunc, Fraction, Signed, Number, Exp, Frac, Sign;
    TopWord(s);
  }

  // f128M_to_i64_r_minMag
  method ToI64M(a: array<u32>, exact: bool) returns (r: Converted)
    requires a.Length == 4
    ensures r == ToSigned(Number(a[..]), exact)
  {
    hide Pow2, Value, Trunc, Fraction, Number, Exp, Frac, Sign, Top63, ToSigned, InvalidI64M, AsI64, Signed;
    TopWord(a[..]);
    var uiA96 := a[3];
    var sign, exp: int, sig96 := uiA96 >= 0x8000_0000, uiA96 / 0x1_0000 % 0x8000, uiA96 % 0x1_0000;
    var shiftDist: int := 0x403E - exp;
    if shiftDist < 0 {
      if exp < 0x7FFF {
        TruncBig(Number(a[..]));
      }
      FailsSigned(a[..], exact);
      return InvalidI64M(a[..], exp, sig96, sign);
    }
    var uiZ;
    var inexact := false;
    if exact {
      var low;
      uiZ, low := Shifted(a, exp, sig96);
      TopOnly(Number(a[..]));
      if uiZ >= TWO63 && (!sign || uiZ != TWO63) {
        FailsSigned(a[..], exact);
        return InvalidI64M(a[..], exp, sig96, sign);
      }
      inexact := low != 0;
    } else {
      if 64 <= shiftDist {
        TruncSmall(Number(a[..]));
        FitsSigned(Number(a[..]), exact);
        SignedZero(sign);
        return Converted(0, false, false);
      }
      DirectShift(a[..]);
      TopOnly(Number(a[..]));
      uiZ := Top63(sig96, a[2], a[1]);
      if shiftDist != 0 {
        uiZ := (TWO63 + uiZ) / Pow2(shiftDist);
      } else {
        Pow2Zero();
        if uiZ != 0 || !sign {
          FailsSigned(a[..], exact);
          return InvalidI64M(a[..], exp, sig96, sign);
        }
        uiZ := TWO63;
      }
    }
    FitsSigned(Number(a[..]), exact);
    Negated(sign, uiZ);
    if sign {
      uiZ := (TWO64 - uiZ) % TWO64;
    }
    r := Converted(AsI64(uiZ), false, inexact);
  }

  lemma SignedZero(sign: bool)
    ensures Signed(sign, 0) == 0
  {
  }

  // Only the highest exponent reaches 2^63.
  lemma TopOnly(a: F128)
    requires Exp(a) <= 0x403E
    ensures if Exp(a) == 0x403E then TWO63 <= Trunc(a) < TWO64 else Trunc(a) < TWO63
    ensures Exp(a) >= 0x3FFF ==> Trunc(a) > 0
  {
    hide Pow2, Trunc, Fraction;
    if Exp(a) < 0x3FFF {
      TruncSmall(a);
    } else if Exp(a) <= 0x402F {
      F128ToInt.MiddleUpper(a);
    } else {
      F128ToInt.MiddleBound(a);
      if Exp(a) == 0x403E {
        TruncTop(a);
      }
    }
  }
  function InvalidU64M(s: seq<u32>, exp: nat, sig96: nat, sign: bool): Converted
    requires |s| == 4
  {
    Converted(if exp == 0x7FFF && (sig96 != 0 || s[2] != 0 || s[1] != 0 || s[0] != 0) then UI64_FROM_NAN
              else if sign then UI64_FROM_NEG_OVERFLOW else UI64_FROM_POS_OVERFLOW, true, false)
  }

  // f128M_to_ui64_r_minMag
  method ToUI64M(a: array<u32>, exact: bool) returns (r: Converted)
    requires a.Length == 4
    ensures r == ToUnsigned(Number(a[..]), exact)
  {
    hide Pow2, Value, Trunc, Fraction, Number, Exp, Frac, Sign, Top63;
    TopWord(a[..]);
    var uiA96 := a[3];
    var sign, exp: int, sig96 := uiA96 >= 0x8000_0000, uiA96 / 0x1_0000 % 0x8000, uiA96 % 0x1_0000;
    var shiftDist: int := 0x403E - exp;
    if shiftDist < 0 {
      if exp < 0x7FFF {
        TruncBig(Number(a[..]));
      }
      return InvalidU64M(a[..], exp, sig96, sign);
    }
    TopOnly(Number(a[..]));
    var z;
    var inexact := false;
    if exact {
      var low;
      z, low := Shifted(a, exp, sig96);
      if sign && z != 0 {
        return InvalidU64M(a[..], exp, sig96, sign);
      }
      inexact := low != 0;
    } else {
      if 64 <= shiftDist {
        TruncSmall(Number(a[..]));
        return Converted(0, false, false);
      }
      DirectShift(a[..]);
      if sign {
        return InvalidU64M(a[..], exp, sig96, sign);
      }
      z := TWO63 + Top63(sig96, a[2], a[1]);
      z := z / Pow2(shiftDist);
    }
    r := Converted(z, false, inexact);
  }
}
