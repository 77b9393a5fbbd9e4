// Numbers kept as arrays of 32-bit words, least significant first, and
// f128M_roundToInt on them.

module WordArrays {
  import opened Powers
  import opened Words
  import opened Binary128
  import opened RoundArith
  import opened RoundSpec

  // The number that the words are.
  function Value(s: seq<u32>): nat {
    if s == [] then 0 else s[0] + TWO32 * Value(s[1..])
  }

  // The weight of word n.
  function Unit(n: nat): (r: nat)
    ensures r > 0
  {
    Pow2(32 * n)
  }

  lemma UnitNext(n: nat)
    ensures Unit(0) == 1 && Unit(n + 1) == Unit(n) * TWO32
  {
    hide Pow2;
    Pow2Of112();
    Pow2Add(32 * n, 32);
    Pow2Zero();
  }

  lemma UnitOf4()
    ensures Unit(2) == TWO64 && Unit(4) == TWO128
  {
    hide Unit;
    UnitNext(0);
    UnitNext(1);
    UnitNext(2);
    UnitNext(3);
  }

  lemma {:induction false} Append(s: seq<u32>, w: u32)
    ensures Value(s + [w]) == Value(s) + Unit(|s|) * w
  {
    hide Unit;
    if s == [] {
      UnitNext(0);
      assert (s + [w])[1..] == [];
    } else {
      assert (s + [w])[1..] == s[1..] + [w];
      Append(s[1..], w);
      UnitNext(|s| - 1);
      Distribute32(Value(s[1..]), Unit(|s| - 1), w);
    }
  }

  lemma Distribute32(v: nat, u: nat, w: nat)
    ensures TWO32 * (v + u * w) == TWO32 * v + u * TWO32 * w
  {
    assert TWO32 * (u * w) == u * TWO32 * w;
  }

  // The words from i on, in units of word i.
  lemma {:induction false} Split(s: seq<u32>, i: nat)
    requires i <= |s|
    ensures Value(s) == Value(s[..i]) + Unit(i) * Value(s[i..])
  {
    hide Unit;
    if i == 0 {
      UnitNext(0);
      assert s[..0] == [] && s[0..] == s;
    } else {
      Split(s, i - 1);
      assert s[i - 1..][1..] == s[i..];
      assert s[..i] == s[..i - 1] + [s[i - 1]];
      Append(s[..i - 1], s[i - 1]);
      UnitNext(i - 1);
      SplitStep(Unit(i - 1), s[i - 1], Value(s[i..]));
    }
  }

  lemma SplitStep(u: nat, w: nat, v: nat)
    ensures u * (w + TWO32 * v) == u * w + u * TWO32 * v
  {
    assert u * (TWO32 * v) == u * TWO32 * v;
  }

  lemma {:induction false} ValueBelow(s: seq<u32>)
    ensures Value(s) < Unit(|s|)
  {
    hide Unit;
    if s == [] {
      UnitNext(0);
    } else {
      ValueBelow(s[1..]);
      UnitNext(|s| - 1);
    }
  }

  // float128_t from its four words.
  function Number(s: seq<u32>): (a: F128)
    requires |s| == 4
    ensures Word(a) == Value(s)
  {
    ValueOf4(s);
    F128(s[3] * TWO32 + s[2], s[1] * TWO32 + s[0])
  }

  lemma ValueOf4(s: seq<u32>)
    requires |s| == 4
    ensures Value(s) == s[0] + TWO32 * (s[1] + TWO32 * (s[2] + TWO32 * s[3]))
  {
    var t, u, v := s[1..], s[2..], s[3..];
    assert t[1..] == u && u[1..] == v && v[1..] == [];
    assert Value(v) == s[3] && Value(u) == s[2] + TWO32 * Value(v) && Value(t) == s[1] + TWO32 * Value(u);
  }

  // signF128UI96 and expF128UI96 on the highest word.
  lemma TopWord(s: seq<u32>)
    requires |s| == 4
    ensures Sign(Number(s)) <==> s[3] >= 0x8000_0000
    ensures Exp(Number(s)) == s[3] / 0x1_0000 % 0x8000
    ensures Frac(Number(s)) == s[3] % 0x1_0000 * (TWO32 * TWO64) + (s[2] * TWO64 + s[1] * TWO32 + s[0])
  {
    var v64 := s[3] * TWO32 + s[2];
    assert v64 / TWO48 == s[3] / 0x1_0000;
    assert v64 % TWO48 == s[3] % 0x1_0000 * TWO32 + s[2];
  }

  lemma SameNumber(s: seq<u32>, t: seq<u32>)
    requires |s| == 4 && |t| == 4 && Number(s) == Number(t)
    ensures s == t
  {
    assert s[0] == t[0] && s[1] == t[1] && s[2] == t[2] && s[3] == t[3];
  }
}

module RoundToIntM {
  import opened Powers
  import opened Words
  import opened Binary128
  import opened RoundArith
  import opened RoundSpec
  import opened WordArrays
  import RoundToInt

  // Adding half a unit in the word that holds the first fraction bit.
  lemma NearStep(hi: nat, w: u32, p: nat, c: nat, wordZ: u32, carry: nat, sticky: bool, mode: Mode, sign: bool)
    requires p > 0 && p % 2 == 0 && p * c == TWO32 && (p == TWO32 || c % 2 == 0)
    requires w + p / 2 == wordZ + TWO32 * carry && (mode == NearMaxMag || mode == NearEven)
    ensures (hi * TWO32 + w) % p == w % p
    ensures RoundAt(hi * TWO32 + w, p, sticky, mode, sign)
         == AfterTie(hi + carry, wordZ, p, mode == NearEven && !sticky && wordZ % p == 0)
  {
    hide RoundAt, AndNotBit, HasBit, AndNotBelow, AfterTie;
    var x := hi + carry;
    assert hi * TWO32 + w + p / 2 == x * TWO32 + wordZ;
    NearBits(hi * TWO32 + w, p, sticky, sign);
    LowerLimb(hi, w, TWO32, p, c);
    NearLimb(x, wordZ, p, c);
  }

  lemma NearLimb(x: nat, w: u32, p: nat, c: nat)
    requires p > 0 && p * c == TWO32 && (p == TWO32 || c % 2 == 0)
    ensures (x * TWO32 + w) % p == w % p
    ensures AndNotBelow(x * TWO32 + w, p) == AfterTie(x, w, p, false)
    ensures w % p == 0 ==> AndNotBelow(AndNotBit(x * TWO32 + w, p), p) == AfterTie(x, w, p, true)
  {
    hide AndNotBit, HasBit, AndNotBelow;
    LowerLimb(x, w, TWO32, p, c);
    if p == TWO32 {
      if w % TWO32 == 0 {
        TopTie(x, w);
      }
    } else {
      BitLimb(x, w, TWO32, p, c);
      LowerLimb(x, AndNotBit(w, p), TWO32, p, c);
    }
  }

  // The words from the rounded one up, the last integer bit cleared on a tie.
  function AfterTie(x: nat, wordZ: nat, p: nat, tie: bool): nat
    requires p > 0
  {
    if !tie then x * TWO32 + AndNotBelow(wordZ, p)
    else if p == TWO32 then (x - x % 2) * TWO32
    else x * TWO32 + AndNotBelow(AndNotBit(wordZ, p), p)
  }

  lemma TopTie(x: nat, wordZ: u32)
    requires wordZ % TWO32 == 0
    ensures AndNotBelow(AndNotBit(x * TWO32 + wordZ, TWO32), TWO32) == (x - x % 2) * TWO32
  {
    hide AndNotBelow, AndNotBit;
    TieCut(x, TWO32);
  }

  // The directed modes, and rounding to odd, in the word that holds the last integer bit.
  lemma DirectedStep(hi: nat, w: u32, p: nat, c: nat, sticky: bool, mode: Mode, sign: bool)
    requires p > 0 && p * c == TWO32 && c % 2 == 0 && mode != NearMaxMag && mode != NearEven
    ensures var t := hi * TWO32 + w;
            var inexact := sticky || w % p != 0;
            && t % p == w % p
            && RoundAt(t, p, sticky, mode, sign)
               == if inexact && mode == (if sign then Min else Max) then hi * TWO32 + AndNotBelow(w, p) + p
                  else if inexact && mode == Odd then hi * TWO32 + AndNotBelow(OrBit(w, p), p)
                  else hi * TWO32 + AndNotBelow(w, p)
  {
    hide HasBit, AndNotBelow;
    var t := hi * TWO32 + w;
    LowerLimb(hi, w, TWO32, p, c);
    Below(t, p);
    BelowOr(w, p);
    ParityIs(t, p);
  }

  lemma ParityIs(t: nat, p: nat)
    requires p > 0
    ensures HasBit(t, p) <==> t / p % 2 == 1
  {
  }

  lemma BelowOr(w: nat, p: nat)
    requires p > 0
    ensures AndNotBelow(OrBit(w, p), p) == if HasBit(w, p) then AndNotBelow(w, p) else AndNotBelow(w, p) + p
  {
    var q, r := w / p, w % p;
    assert w == q * p + r && (q + 1) * p == q * p + p;
    DivIs(w + p, p, q + 1, r);
  }

  // Where the rounding happens: bitPos in word `index`, after k - n whole bits.
  lemma Weights(index: nat, bitPos: nat)
    requires bitPos <= 32
    ensures Unit(index) * Pow2(bitPos) == Pow2(32 * index + bitPos)
  {
    Pow2Add(32 * index, bitPos);
  }

  lemma UnitHalves(q: nat, c: nat, d: nat)
    requires c == 2 * d && q * c == TWO32
    ensures c % 2 == 0 && 2 * q * (c / 2) == TWO32 && c / 2 % 2 == d % 2
  {
    assert q * (2 * d) == 2 * q * d;
  }

  lemma BitUnit(bitPos: nat) returns (c: nat)
    requires bitPos < 32
    ensures Pow2(bitPos) * c == TWO32 && c % 2 == 0 && Pow2(bitPos) < TWO32
    ensures 2 * Pow2(bitPos) * (c / 2) == TWO32 && (2 * Pow2(bitPos) == TWO32 || c / 2 % 2 == 0)
  {
    hide Pow2;
    Pow2Of112();
    Pow2Add(bitPos, 32 - bitPos);
    Pow2Mono(bitPos, 31);
    Double(32);
    Double(32 - bitPos);
    c := Pow2(32 - bitPos);
    UnitHalves(Pow2(bitPos), c, Pow2(31 - bitPos));
    if bitPos < 31 {
      EvenPower(31 - bitPos);
    } else {
      assert 2 * Pow2(bitPos) == TWO32;
    }
  }

  lemma EvenPower(n: nat)
    requires n > 0
    ensures Pow2(n) % 2 == 0
  {
    hide Pow2;
    Double(n);
  }

  // The word to round, read from `index` on.
  lemma Upper(a: seq<u32>, index: nat)
    requires index < |a|
    ensures Value(a[index..]) == Value(a[index + 1..]) * TWO32 + a[index]
    ensures Value(a) == Unit(index) * Value(a[index..]) + Value(a[..index]) && Value(a[..index]) < Unit(index)
  {
    assert a[index..][1..] == a[index + 1..];
    Split(a, index);
    ValueBelow(a[..index]);
  }

  // The words below `index` are passed: cleared in z, and `extra` if any was not zero.
  ghost predicate Passed(a: seq<u32>, z: seq<u32>, index: nat, extra: bool) {
    |a| == |z| == 4 && index < 4 && (extra <==> Value(a[..index]) > 0) && Value(z[..index]) == 0
  }

  lemma PassedNone(a: seq<u32>, z: seq<u32>)
    requires |a| == |z| == 4
    ensures Passed(a, z, 0, false)
  {
    assert a[..0] == [] && z[..0] == [];
  }

  lemma PassWord(a: seq<u32>, z: seq<u32>, index: nat, extra: bool)
    requires Passed(a, z, index, extra) && index < 3
    ensures Passed(a, z[index := 0], index + 1, extra || a[index] != 0)
  {
    hide Unit, Value;
    var z' := z[index := 0];
    assert a[..index + 1] == a[..index] + [a[index]];
    assert z'[..index + 1] == z[..index] + [0];
    Append(a[..index], a[index]);
    Append(z[..index], 0);
    PositiveProduct(Unit(index), a[index]);
  }

  method PassWords(a: array<u32>, bits: nat, z: array<u32>) returns (index: nat, bitPos: nat, extra: bool)
    requires a.Length == 4 && z.Length == 4 && a != z && bits <= 112
    modifies z
    ensures bitPos < 32 && bitPos + 32 * index == bits && Passed(a[..], z[..], index, extra)
  {
    hide Passed;
    index, bitPos, extra := 0, bits, false;
    PassedNone(a[..], z[..]);
    while bitPos >= 32
      invariant bitPos + 32 * index == bits && Passed(a[..], z[..], index, extra)
      decreases bitPos
    {
      PassWord(a[..], z[..], index, extra);
      if a[index] != 0 {
        extra := true;
      }
      ghost var before: seq<u32> := z[..];
      z[index] := 0;
      assert z[..] == before[index := 0];
      index := index + 1;
      bitPos := bitPos - 32;
    }
  }

  // The words of z below `index`, and those of a from there on with a carry, make goal.
  ghost predicate Carrying(a: seq<u32>, z: seq<u32>, index: nat, carry: nat, goal: nat) {
    |a| == |z| == 4 && index <= 4 && Value(z[..index]) + Unit(index) * (Value(a[index..]) + carry) == goal
  }

  lemma CarryWord(a: seq<u32>, z: seq<u32>, index: nat, carry: nat, goal: nat, w: u32, carry': nat)
    requires Carrying(a, z, index, carry, goal) && index < 4 && a[index] + carry == w + TWO32 * carry'
    ensures Carrying(a, z[index := w], index + 1, carry', goal)
  {
    hide Unit, Value;
    Upper(a, index);
    var v := Value(a[index + 1..]) + carry';
    assert z[index := w][..index + 1] == z[..index] + [w];
    Append(z[..index], w);
    UnitNext(index);
    SplitStep(Unit(index), w, v);
  }

  // The loop at propagateCarry.
  method Propagate(a: array<u32>, z: array<u32>, index0: nat, carry0: nat, ghost goal: nat)
    requires a.Length == 4 && z.Length == 4 && a != z && index0 < 4 && carry0 <= 1 && goal < TWO128
    requires Carrying(a[..], z[..], index0 + 1, carry0, goal)
    modifies z
    ensures Value(z[..]) == goal
  {
    hide Carrying, Value;
    var index, carry := index0, carry0;
    while index != 3
      invariant index <= 3 && 0 <= carry <= 1
      invariant Carrying(a[..], z[..], index + 1, carry, goal)
      decreases 3 - index
    {
      index := index + 1;
      var wordZ: u32 := (a[index] + carry) % TWO32;
      ghost var before: seq<u32> := z[..];
      CarryWord(a[..], z[..], index, carry, goal, wordZ, if carry == 1 && wordZ == 0 then 1 else 0);
      z[index] := wordZ;
      assert z[..] == before[index := wordZ];
      carry := if carry == 1 && wordZ == 0 then 1 else 0;
    }
    CarriedAll(a[..], z[..], carry, goal);
  }

  lemma CarriedAll(a: seq<u32>, z: seq<u32>, carry: nat, goal: nat)
    requires Carrying(a, z, 4, carry, goal) && goal < TWO128
    ensures Value(z) == goal
  {
    hide Unit;
    UnitOf4();
    assert z[..4] == z && a[4..] == [];
  }

  // The rounded word is in place.
  lemma Placed(a: seq<u32>, z: seq<u32>, index: nat, extra: bool, w: u32, carry: nat, goal: nat)
    requires Passed(a, z, index, extra) && goal == Unit(index) * ((Value(a[index + 1..]) + carry) * TWO32 + w)
    ensures Carrying(a, z[index := w], index + 1, carry, goal)
  {
    hide Unit, Value;
    var v := Value(a[index + 1..]) + carry;
    assert z[index := w][..index + 1] == z[..index] + [w];
    Append(z[..index], w);
    UnitNext(index);
    SplitStep(Unit(index), w, v);
  }

  // A tie at a word boundary: the word is zero and the next loses its last bit.
  lemma PlacedTie(a: seq<u32>, z: seq<u32>, index: nat, extra: bool, carry: nat, goal: nat, w: u32, carry': nat)
    requires Passed(a, z, index, extra) && index < 3 && a[index + 1] + carry == w + TWO32 * carry'
    requires var x := Value(a[index + 1..]) + carry; goal == Unit(index) * ((x - x % 2) * TWO32)
    ensures Carrying(a, z[index := 0][index + 1 := AndNotBit(w, 1)], index + 2, carry', goal)
  {
    hide Unit, Value, AndNotBit;
    Upper(a, index + 1);
    var x, v := Value(a[index + 1..]) + carry, Value(a[index + 2..]) + carry';
    assert x == v * TWO32 + w;
    ClearLast(v, w);
    PassWord(a, z, index, extra);
    UnitNext(index);
    MoveUnit(Unit(index), x - x % 2);
    Placed(a, z[index := 0], index + 1, extra || a[index] != 0, AndNotBit(w, 1), carry', goal);
  }

  lemma MoveUnit(u: nat, y: nat)
    ensures u * (y * TWO32) == u * TWO32 * y
  {
  }

  lemma ClearLast(v: nat, w: nat)
    ensures var x := v * TWO32 + w; x - x % 2 == v * TWO32 + AndNotBit(w, 1)
  {
  }

  // What the whole number rounds to, seen from word `index`.
  lemma SeenFrom(a: seq<u32>, z: seq<u32>, index: nat, extra: bool, p: nat, unit: nat, mode: Mode, sign: bool)
    requires Passed(a, z, index, extra) && unit == Unit(index) * p && p > 0
    requires mode.NearEven? || mode.NearMaxMag? ==> p % 2 == 0
    ensures unit > 0
    ensures var t := Value(a[index + 1..]) * TWO32 + a[index];
            && RoundAt(Value(a), unit, false, mode, sign) == Unit(index) * RoundAt(t, p, extra, mode, sign)
            && (Value(a) % unit == 0 <==> !extra && t % p == 0)
  {
    hide RoundAt, Unit, Value;
    Upper(a, index);
    var t := Value(a[index..]);
    DropLow(Value(a), unit, Value(a[..index]), Unit(index), t, p, mode, sign);
    DropQuotient(Value(a), unit, Value(a[..index]), Unit(index), t, p);
    PositiveProduct(Unit(index), t % p);
  }

  // The tie at a word boundary, and the carry from there.
  method PropagateTie(a: array<u32>, z: array<u32>, index: nat, ghost extra: bool, wordZ: u32, carry: nat,
                      ghost goal: nat)
    requires a.Length == 4 && z.Length == 4 && a != z && index < 3 && carry <= 1 && wordZ == 0 && goal < TWO128
    requires Passed(a[..], z[..], index, extra)
    requires var x := Value(a[index + 1..]) + carry; goal == Unit(index) * ((x - x % 2) * TWO32)
    modifies z
    ensures Value(z[..]) == goal
  {
    hide Passed, Value, Unit, Carrying, AndNotBit;
    ghost var zs: seq<u32> := z[..];
    var next: u32 := (a[index + 1] + carry) % TWO32;
    var carry' := if carry == 1 && next == 0 then 1 else 0;
    PlacedTie(a[..], zs, index, extra, carry, goal, next, carry');
    var last: u32 := AndNotBit(next, 1);
    z[index] := wordZ;
    z[index + 1] := last;
    assert z[..] == zs[index := 0][index + 1 := last];
    Propagate(a, z, index + 1, carry', goal);
  }

  // The word plus half a unit, with its carry; the unit, 0 if shifted out, and the mask
  // below it.
  method AddHalf(wordA: u32, bitPos: nat) returns (wordZ: u32, carry: nat, bit: nat, extrasMask: nat)
    requires bitPos < 32
    ensures wordA + Pow2(bitPos) == wordZ + TWO32 * carry && carry <= 1
    ensures extrasMask + 1 == 2 * Pow2(bitPos)
    ensures if bitPos == 31 then bit == 0 && extrasMask + 1 == TWO32 else bit == extrasMask + 1 && bit < TWO32
  {
    hide Pow2;
    BitBelow(bitPos);
    bit := Pow2(bitPos);
    wordZ := (wordA + bit) % TWO32;
    carry := if wordZ < wordA then 1 else 0;
    bit := bit * 2 % TWO32;
    extrasMask := if bit == 0 then TWO32 - 1 else bit - 1;
  }

  // Rounding to nearest from the word that holds the first fraction bit.
  method NearWords(a: array<u32>, mode: Mode, exact: bool, z: array<u32>, index: nat, bitPos: nat, extra: bool,
                   ghost sign: bool)
    returns (inexact: bool)
    requires a.Length == 4 && z.Length == 4 && a != z && bitPos < 32 && bitPos + 32 * index < 112
    requires mode == NearMaxMag || mode == NearEven
    requires Passed(a[..], z[..], index, extra)
    requires RoundAt(Value(a[..]), Pow2(32 * index + bitPos + 1), false, mode, sign) < TWO128
    modifies z
    ensures Value(z[..]) == RoundAt(Value(a[..]), Pow2(32 * index + bitPos + 1), false, mode, sign)
    ensures inexact <==> exact && Value(a[..]) % Pow2(32 * index + bitPos + 1) != 0
  {
    hide Pow2, RoundAt, Value, Unit, Passed, Carrying, AndNotBit, AndNotBelow, AfterTie;
    ghost var goal := RoundAt(Value(a[..]), Pow2(32 * index + bitPos + 1), false, mode, sign);
    ghost var zs: seq<u32> := z[..];
    ghost var p := 2 * Pow2(bitPos);
    InRange(a[..], zs, index, extra);
    var wordA := a[index];
    var wordZ, carry, bit, extrasMask := AddHalf(wordA, bitPos);
    NearGoal(a[..], zs, index, bitPos, extra, mode, sign, wordZ, carry);
    ghost var x := Value(a[index + 1..]) + carry;
    inexact := exact && (extra || wordA % (extrasMask + 1) != 0);
    if mode == NearEven && !extra && wordZ % (extrasMask + 1) == 0 {
      if bit == 0 {
        TieAtTop(x, wordZ);
        PropagateTie(a, z, index, extra, wordZ, carry, goal);
        return;
      }
      TieInside(x, wordZ, p);
      wordZ := AndNotBit(wordZ, bit);
    } else {
      NoTie(x, wordZ, p);
    }
    CutWord(wordZ, p);
    wordZ := AndNotBelow(wordZ, extrasMask + 1);
    Placed(a[..], zs, index, extra, wordZ, carry, goal);
    z[index] := wordZ;
    assert z[..] == zs[index := wordZ];
    Propagate(a, z, index, carry, goal);
  }

  lemma TieAtTop(x: nat, w: nat)
    ensures AfterTie(x, w, TWO32, true) == (x - x % 2) * TWO32
  {
  }

  lemma TieInside(x: nat, w: nat, p: nat)
    requires p > 0 && p != TWO32
    ensures AfterTie(x, w, p, true) == x * TWO32 + AndNotBelow(AndNotBit(w, p), p)
  {
  }

  lemma NoTie(x: nat, w: nat, p: nat)
    requires p > 0
    ensures AfterTie(x, w, p, false) == x * TWO32 + AndNotBelow(w, p)
  {
  }

  lemma BitBelow(bitPos: nat)
    requires bitPos < 32
    ensures 2 * Pow2(bitPos) <= TWO32 && (bitPos < 31 <==> 2 * Pow2(bitPos) < TWO32)
  {
    hide Pow2;
    Pow2Of112();
    Double(32);
    Double(31);
    Pow2Mono(bitPos, if bitPos < 31 then 30 else 31);
  }

  lemma NearGoal(a: seq<u32>, z: seq<u32>, index: nat, bitPos: nat, extra: bool, mode: Mode, sign: bool, wordZ: u32,
                 carry: nat)
    requires bitPos < 32 && (mode == NearMaxMag || mode == NearEven) && Passed(a, z, index, extra)
    requires a[index] + Pow2(bitPos) == wordZ + TWO32 * carry
    ensures var (p, x) := (2 * Pow2(bitPos), Value(a[index + 1..]) + carry);
            var (unit, tie) := (Pow2(32 * index + bitPos + 1), mode == NearEven && !extra && wordZ % p == 0);
            && (Value(a) % unit == 0 <==> !extra && a[index] % p == 0)
            && RoundAt(Value(a), unit, false, mode, sign)
               == Unit(index) * AfterTie(x, wordZ, p, tie)
  {
    hide Pow2, RoundAt, Value, Unit, Passed, AfterTie;
    var p, c := NearUnit(index, bitPos);
    InRange(a, z, index, extra);
    SeenFrom(a, z, index, extra, p, Pow2(32 * index + bitPos + 1), mode, sign);
    NearStep(Value(a[index + 1..]), a[index], p, c, wordZ, carry, extra, mode, sign);
  }

  lemma InRange(a: seq<u32>, z: seq<u32>, index: nat, extra: bool)
    requires Passed(a, z, index, extra)
    ensures |a| == |z| == 4 && index < 4
  {
  }

  lemma NearUnit(index: nat, bitPos: nat) returns (p: nat, c: nat)
    requires bitPos < 32
    ensures p == 2 * Pow2(bitPos) && p / 2 == Pow2(bitPos) && p % 2 == 0
    ensures Pow2(32 * index + bitPos + 1) == Unit(index) * p
    ensures p * c == TWO32 && (p == TWO32 || c % 2 == 0)
  {
    hide Pow2, Unit;
    Weights(index, bitPos + 1);
    c := BitUnit(bitPos);
    p, c := 2 * Pow2(bitPos), c / 2;
    Double(bitPos + 1);
  }

  lemma CutWord(w: u32, p: nat)
    requires p > 0
    ensures 0 <= AndNotBelow(w, p) < TWO32
  {
    Below(w, p);
  }

  lemma DirectedGoal(a: seq<u32>, z: seq<u32>, index: nat, bitPos: nat, extra: bool, mode: Mode, sign: bool)
    requires bitPos < 32 && mode != NearMaxMag && mode != NearEven && Passed(a, z, index, extra)
    ensures var (p, hi, w) := (Pow2(bitPos), Value(a[index + 1..]), a[index]);
            var (unit, inexact) := (Pow2(32 * index + bitPos), extra || w % p != 0);
            && p < TWO32
            && (Value(a) % unit != 0 <==> inexact)
            && RoundAt(Value(a), unit, false, mode, sign)
               == Unit(index) *
                  (hi * TWO32 + (if inexact && mode == (if sign then Min else Max) then AndNotBelow(w + p, p)
                                 else if inexact && mode == Odd then AndNotBelow(OrBit(w, p), p)
                                 else AndNotBelow(w, p)))
  {
    hide Pow2, RoundAt, Value, Unit, Passed, OrBit, AndNotBelow;
    var p := Pow2(bitPos);
    var c := BitUnit(bitPos);
    Weights(index, bitPos);
    InRange(a, z, index, extra);
    SeenFrom(a, z, index, extra, p, Pow2(32 * index + bitPos), mode, sign);
    DirectedStep(Value(a[index + 1..]), a[index], p, c, extra, mode, sign);
    BelowNext(a[index], p);
  }

  lemma BelowNext(w: nat, p: nat)
    requires p > 0
    ensures AndNotBelow(w + p, p) == AndNotBelow(w, p) + p
  {
    assert w == w / p * p + w % p && (w / p + 1) * p == w / p * p + p;
    DivIs(w + p, p, w / p + 1, w % p);
  }

  // A sum that wraps keeps its whole bits.
  lemma Wrapped(w: u32, p: nat, bitPos: nat)
    requires bitPos < 32 && p == Pow2(bitPos)
    ensures var (sum, carry) := ((w + p) % TWO32, if (w + p) % TWO32 < w then 1 else 0);
            && w + p == sum + TWO32 * carry
            && AndNotBelow(w + p, p) == AndNotBelow(sum, p) + TWO32 * carry
    ensures OrBit(w, p) < TWO32
  {
    hide Pow2;
    var c := BitUnit(bitPos);
    var carry := if (w + p) % TWO32 < w then 1 else 0;
    LowerLimb(carry, (w + p) % TWO32, TWO32, p, c);
    OrFits(w, TWO32, p, c);
  }

  // The other modes from the word that holds the last integer bit.
  method DirectedWords(a: array<u32>, mode: Mode, exact: bool, roundOdd: bool, z: array<u32>, index: nat, bitPos: nat,
                       extra: bool, sign: bool)
    returns (inexact: bool)
    requires a.Length == 4 && z.Length == 4 && a != z && bitPos < 32
    requires mode != NearMaxMag && mode != NearEven
    requires Passed(a[..], z[..], index, extra)
    requires RoundAt(Value(a[..]), Pow2(32 * index + bitPos), false, RoundToInt.Built(mode, roundOdd), sign) < TWO128
    modifies z
    ensures Value(z[..]) ==
              RoundAt(Value(a[..]), Pow2(32 * index + bitPos), false, RoundToInt.Built(mode, roundOdd), sign)
    ensures inexact <==> exact && Value(a[..]) % Pow2(32 * index + bitPos) != 0
  {
    hide Pow2, RoundAt, Value, Unit, Passed, Carrying, OrBit, AndNotBelow;
    ghost var m := RoundToInt.Built(mode, roundOdd);
    ghost var goal := RoundAt(Value(a[..]), Pow2(32 * index + bitPos), false, m, sign);
    ghost var zs: seq<u32> := z[..];
    DirectedGoal(a[..], zs, index, bitPos, extra, m, sign);
    InRange(a[..], zs, index, extra);
    var wordA := a[index];
    var bit := Pow2(bitPos);
    Wrapped(wordA, bit, bitPos);
    var wordZ: u32, carry := wordA, 0;
    var extrasMask := bit - 1;
    inexact := false;
    if extra || wordA % (extrasMask + 1) != 0 {
      inexact := exact;
      if mode == if sign then Min else Max {
        wordZ := (wordA + bit) % TWO32;
        carry := if wordZ < wordA then 1 else 0;
      } else if roundOdd && mode == Odd {
        wordZ := OrBit(wordA, bit);
      }
    }
    CutWord(wordZ, bit);
    wordZ := AndNotBelow(wordZ, extrasMask + 1);
    Placed(a[..], zs, index, extra, wordZ, carry, goal);
    z[index] := wordZ;
    assert z[..] == zs[index := wordZ];
    Propagate(a, z, index, carry, goal);
  }

  // The branch where integer and fraction bits share the words.
  method RoundMiddle(a: array<u32>, mode: Mode, exact: bool, roundOdd: bool, z: array<u32>) returns (inexact: bool)
    requires a.Length == 4 && z.Length == 4 && a != z && 0x3FFF <= Exp(Number(a[..])) < 0x406F
    modifies z
    ensures var (p, m) := (Pow2(0x406F - Exp(Number(a[..]))), RoundToInt.Built(mode, roundOdd));
            && Value(z[..]) == RoundAt(Value(a[..]), p, false, m, Sign(Number(a[..])))
            && (inexact <==> exact && Value(a[..]) % p != 0)
  {
    hide Pow2, RoundAt, Value, Exp, Sign, Frac, Word, Passed, Number;
    TopWord(a[..]);
    var sign := a[3] >= 0x8000_0000;
    GoalFits(a[..], RoundToInt.Built(mode, roundOdd));
    var bits := 0x406F - a[3] / 0x1_0000 % 0x8000;
    if mode == NearMaxMag || mode == NearEven {
      var index, bitPos, extra := PassWords(a, bits - 1, z);
      inexact := NearWords(a, mode, exact, z, index, bitPos, extra, sign);
    } else {
      var index, bitPos, extra := PassWords(a, bits, z);
      inexact := DirectedWords(a, mode, exact, roundOdd, z, index, bitPos, extra, sign);
    }
  }

  lemma GoalFits(s: seq<u32>, mode: Mode)
    requires |s| == 4 && 0x3FFF <= Exp(Number(s)) < 0x406F
    ensures RoundAt(Value(s), Pow2(0x406F - Exp(Number(s))), false, mode, Sign(Number(s))) < TWO128
  {
    hide Pow2, RoundAt, Value;
    var a := Number(s);
    WordRounds(a, mode);
    SignificandRounds(TWO112 + Frac(a), 0x406F - Exp(a), mode, Sign(a));
  }

  // f128M_roundToInt
  method RoundToIntM(a: array<u32>, mode: Mode, exact: bool, roundOdd: bool, z: array<u32>) returns (inexact: bool)
    requires a.Length == 4 && z.Length == 4 && a != z && !IsNaN(Number(a[..]))
    modifies z
    ensures RoundedToInt(Number(a[..]), RoundToInt.Built(mode, roundOdd), Number(z[..]))
    ensures mode != Odd || roundOdd ==> RoundedToInt(Number(a[..]), mode, Number(z[..]))
    ensures mode == Odd && !roundOdd ==> RoundedToInt(Number(a[..]), MinMag, Number(z[..]))
    ensures inexact <==> exact && z[..] != a[..]
  {
    hide RoundedToInt, Value, Word, RoundAt, Pow2;
    TopWord(a[..]);
    ghost var m := RoundToInt.Built(mode, roundOdd);
    var exp := a[3] / 0x1_0000 % 0x8000;
    if exp < 0x3FFF {
      inexact := RoundBelowOne(a, mode, exact, roundOdd, z);
    } else if 0x406F <= exp {
      z[2], z[1], z[0] := a[2], a[1], a[0];
      z[3] := a[3];
      assert z[..] == a[..];
      BigRounds(Number(a[..]), m);
      inexact := false;
    } else {
      inexact := RoundMiddle(a, mode, exact, roundOdd, z);
      MiddleRounds(Number(a[..]), m, Number(z[..]));
      RoundSame(Value(a[..]), Pow2(0x406F - exp), m, Sign(Number(a[..])));
      SameValue(a[..], z[..]);
    }
  }

  lemma SameValue(s: seq<u32>, t: seq<u32>)
    requires |s| == 4 && |t| == 4
    ensures Value(s) == Value(t) <==> s == t
  {
    if Value(s) == Value(t) {
      ValueOf4(s);
      ValueOf4(t);
      SameNumber(s, t);
    }
  }

  // The branch for numbers below 1.
  method RoundBelowOne(a: array<u32>, mode: Mode, exact: bool, roundOdd: bool, z: array<u32>) returns (inexact: bool)
    requires a.Length == 4 && z.Length == 4 && a != z && Exp(Number(a[..])) < 0x3FFF
    modifies z
    ensures RoundedToInt(Number(a[..]), RoundToInt.Built(mode, roundOdd), Number(z[..]))
    ensures inexact <==> exact && z[..] != a[..]
  {
    hide RoundedToInt, Number, Exp;
    TopWord(a[..]);
    ghost var m := RoundToInt.Built(mode, roundOdd);
    var ui96 := a[3];
    var exp := ui96 / 0x1_0000 % 0x8000;
    z[2], z[1], z[0] := 0, 0, 0;
    var sigExtra := a[2] != 0;
    if !sigExtra {
      sigExtra := a[1] != 0 || a[0] != 0;
    }
    if !sigExtra && ui96 % 0x8000_0000 == 0 {
      z[3] := ui96;
      assert z[..] == a[..] == [0, 0, 0, ui96];
      SmallWords(a[..], m, false);
      return false;
    }
    inexact := exact;
    var sign := ui96 >= 0x8000_0000;
    var mag1 := false;
    match mode {
      case NearEven => mag1 := (ui96 % 0x1_0000 != 0 || sigExtra) && exp == 0x3FFE;
      case NearMaxMag => mag1 := exp == 0x3FFE;
      case Min => mag1 := sign;
      case Max => mag1 := !sign;
      case Odd => mag1 := roundOdd;
      case MinMag =>
    }
    z[3] := (if sign then 0x8000_0000 else 0) + if mag1 then 0x3FFF * 0x1_0000 else 0;
    assert z[..] == SmallResult(a[..], mag1);
    SmallWords(a[..], m, mag1);
  }

  // A signed 0 or 1.
  function SmallResult(s: seq<u32>, up: bool): seq<u32>
    requires |s| == 4
  {
    [0, 0, 0, (if s[3] >= 0x8000_0000 then 0x8000_0000 else 0) + if up then 0x3FFF * 0x1_0000 else 0]
  }

  predicate ZeroWords(s: seq<u32>)
    requires |s| == 4
  {
    s[3] % 0x8000_0000 == 0 && s[2] == 0 && s[1] == 0 && s[0] == 0
  }

  lemma SmallWords(s: seq<u32>, mode: Mode, up: bool)
    requires |s| == 4 && s[3] / 0x1_0000 % 0x8000 < 0x3FFF
    requires match mode
             case NearEven => up <==>
               s[3] / 0x1_0000 % 0x8000 == 0x3FFE && (s[3] % 0x1_0000 != 0 || s[2] != 0 || s[1] != 0 || s[0] != 0)
             case NearMaxMag => up <==> s[3] / 0x1_0000 % 0x8000 == 0x3FFE
             case MinMag => !up
             case Min => up <==> s[3] >= 0x8000_0000 && !ZeroWords(s)
             case Max => up <==> s[3] < 0x8000_0000 && !ZeroWords(s)
             case Odd => up <==> !ZeroWords(s)
    ensures RoundedToInt(Number(s), mode, Number(SmallResult(s, up)))
    ensures SmallResult(s, up) == s <==> ZeroWords(s)
  {
    hide RoundedToInt, Value, Word, Exp, Sign, Frac;
    TopWord(s);
    ZeroIs(s);
    SmallRounds(Number(s), mode, Number(SmallResult(s, up)), up);
  }

  lemma ZeroIs(s: seq<u32>)
    requires |s| == 4
    ensures ZeroWords(s) <==> IsZero(Number(s))
  {
    TopWord(s);
    var (e, f) := (s[3] / 0x1_0000 % 0x8000, s[3] % 0x1_0000);
    assert s[3] % 0x8000_0000 == e * 0x1_0000 + f;
  }
}
