// The binary128 layout (sections 3.4 and 3.6 of IEEE 754-2008) as the macros of
// softfloat/internals.h read it, and powers of two.

module Words {
  type u8 = x: nat | x < 0x100
  type u32 = x: nat | x < 0x1_0000_0000
}

module Powers {
  function Pow2(n: nat): (r: nat)
    ensures r > 0
  {
    if n == 0 then 1 else 2 * Pow2(n - 1)
  }

  lemma {:induction false} Pow2Add(a: nat, b: nat)
    ensures Pow2(a + b) == Pow2(a) * Pow2(b)
    decreases b
  {
    if b > 0 {
      Pow2Add(a, b - 1);
      calc {
        Pow2(a + b);
        2 * Pow2(a + b - 1);
        2 * (Pow2(a) * Pow2(b - 1));
        Pow2(a) * (2 * Pow2(b - 1));
      }
    }
  }

  lemma {:induction false} Pow2Mono(a: nat, b: nat)
    requires a <= b
    ensures Pow2(a) <= Pow2(b)
    decreases b
  {
    if a < b {
      Pow2Mono(a, b - 1);
    }
  }

  lemma Pow2Zero()
    ensures Pow2(0) == 1
  {
  }

  lemma Double(n: nat)
    requires n > 0
    ensures Pow2(n) == 2 * Pow2(n - 1)
  {
  }

  lemma Pow2Of16()
    ensures Pow2(16) == 0x1_0000
  {
    assert Pow2(8) == 256;
    Pow2Add(8, 8);
  }

  lemma Pow2Of29()
    ensures Pow2(29) == 0x2000_0000
  {
    assert Pow2(5) == 32;
    assert Pow2(10) == 1024;
    Pow2Add(10, 10);
    Pow2Add(20, 9);
    assert Pow2(9) == 512;
  }
}

module Binary128 {
  import opened Powers

  const TWO32: nat := 0x1_0000_0000
  const TWO48: nat := 0x1_0000_0000_0000
  const TWO63: nat := 0x8000_0000_0000_0000
  const TWO64: nat := 0x1_0000_0000_0000_0000
  const TWO112: nat := 0x1_0000_0000_0000_0000_0000_0000_0000
  const TWO113: nat := 0x2_0000_0000_0000_0000_0000_0000_0000
  const TWO127: nat := 0x8000_0000_0000_0000_0000_0000_0000_0000
  const TWO128: nat := 0x1_0000_0000_0000_0000_0000_0000_0000_0000

  type u64 = x: nat | x < TWO64
  type u128 = x: nat | x < TWO128

  // float128_t as its two 64-bit halves.
  datatype F128 = F128(v64: u64, v0: u64)

  // signF128UI64, expF128UI64 and fracF128UI64 with the low half joined on.
  function Sign(a: F128): bool { a.v64 >= TWO63 }
  function Exp(a: F128): (e: nat)
    ensures e < 0x8000
  {
    a.v64 / TWO48 % 0x8000
  }
  function Frac(a: F128): (f: nat)
    ensures f < TWO112
  {
    a.v64 % TWO48 * TWO64 + a.v0
  }

  predicate IsNaN(a: F128) { Exp(a) == 0x7FFF && Frac(a) != 0 }
  predicate IsInf(a: F128) { Exp(a) == 0x7FFF && Frac(a) == 0 }
  predicate IsFinite(a: F128) { Exp(a) != 0x7FFF }
  predicate IsZero(a: F128) { Exp(a) == 0 && Frac(a) == 0 }

  // The magnitude of a finite number in units of 2^-16494, the least subnormal.
  function Mag(a: F128): nat
    requires IsFinite(a)
  {
    if Exp(a) == 0 then Frac(a) else (TWO112 + Frac(a)) * Pow2(Exp(a) - 1)
  }

  lemma Pow2Of112()
    ensures Pow2(64) == TWO64 && Pow2(112) == TWO112 && Pow2(48) == TWO48 && Pow2(32) == TWO32
  {
    hide Pow2;
    Pow2Of16();
    Pow2Add(16, 16);
    Pow2Add(32, 16);
    Pow2Add(32, 32);
    Pow2Add(64, 48);
  }
}
